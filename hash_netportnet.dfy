/**
 * The hash:net,port,net ipset type variant: its element record, the
 * three-way key comparison, the IPv4 hash, the list projection, the IPv4
 * and IPv6 control-plane ADT drivers, the fast-path probe builder and the
 * creation-time variant selection.
 *
 * The hash-table operation an ADT driver hands each element to (adtfn) is
 * not part of this model. It is represented by the trace of calls the
 * driver makes and by an `answer` oracle: the k-th call (counting from 0)
 * returns answer(k).
 *
 * The host is taken to be little-endian, as the hash reads network-order
 * fields as host integers.
 */
module HashNetPortNet {
  import opened Inet
  import opened Cidr

  const EDPVS_OK: int := 0
  const EDPVS_INVAL: int := -1

  /** union inet_addr: its 16 bytes in memory order. */
  type Addr = s: seq<U8> | |s| == 16 witness [0, 0, 0, 0, 0, 0, 0, 0, 0, 0, 0, 0, 0, 0, 0, 0]

  const ADDR_ZERO: Addr := [0, 0, 0, 0, 0, 0, 0, 0, 0, 0, 0, 0, 0, 0, 0, 0]

  /** The address whose in.s_addr holds htonl(v) and whose other bytes are zero. */
  function V4Addr(v: U32): (a: Addr)
    ensures a[4..] == ADDR_ZERO[4..]
  {
    var q1 := (v as int) / 0x100;
    var q2 := q1 / 0x100;
    var q3 := q2 / 0x100;
    [q3 % 0x100, q2 % 0x100, q1 % 0x100, (v as int) % 0x100] + ADDR_ZERO[4..]
  }

  /** ntohl(a.in.s_addr): the host-order IPv4 address in the first four bytes. */
  function In4(a: Addr): U32
  {
    (a[0] as int) * 0x100_0000 + (a[1] as int) * 0x1_0000 + (a[2] as int) * 0x100 + (a[3] as int)
  }

  /** htonl and ntohl are inverse: an IPv4 address survives being stored in an element. */
  lemma In4OfV4Addr(v: U32)
    ensures In4(V4Addr(v)) == v
  {
    var q1 := (v as int) / 0x100;
    var q2 := q1 / 0x100;
    var q3 := q2 / 0x100;
    assert v == q1 * 0x100 + v % 0x100;
    assert q1 == q2 * 0x100 + q1 % 0x100;
    assert q2 == q3 * 0x100 + q2 % 0x100;
    assert q3 < 0x100;
  }

  datatype Op = OpAdd | OpDel | OpTest

  /** elem_t. `port` is the host-order port; it is stored in network order (see KeyBytes). */
  datatype Elem = Elem(ip1: Addr, cidr1: U8, ip2: Addr, cidr2: U8, proto: U8, port: U16,
                       comment: string, nomatch: bool)

  /** The element after memset(&e, 0, sizeof(e)). */
  const ELEM_ZERO: Elem := Elem(ADDR_ZERO, 0, ADDR_ZERO, 0, 0, 0, "", false)

  /** The fields of the key region, before `comment`. */
  datatype Key = Key(ip1: Addr, cidr1: U8, ip2: Addr, cidr2: U8, proto: U8, port: U16)

  function KeyOf(e: Elem): Key
  {
    Key(e.ip1, e.cidr1, e.ip2, e.cidr2, e.proto, e.port)
  }

  /**
   * offsetof(elem_t, comment): ip1 at 0, cidr1 at 16, three padding bytes,
   * ip2 at 20, cidr2 at 36, proto at 37, port at 38 (a 16-byte, 4-aligned
   * union inet_addr is assumed).
   */
  const KEY_REGION_LEN: nat := 40

  /** The bytes memcmp reads: the key region of a zero-initialised element. */
  function KeyBytes(e: Elem): (r: seq<U8>)
    ensures |r| == KEY_REGION_LEN
  {
    e.ip1 + [e.cidr1, 0, 0, 0] + e.ip2 + [e.cidr2, e.proto, (e.port as int) / 0x100, (e.port as int) % 0x100]
  }

  function DecodeKey(bs: seq<U8>): Key
    requires |bs| == KEY_REGION_LEN
  {
    Key(bs[0..16], bs[16], bs[20..36], bs[36], bs[37], (bs[38] as int) * 0x100 + (bs[39] as int))
  }

  /** The key region holds the key fields and nothing else. */
  lemma KeyBytesDecode(e: Elem)
    ensures DecodeKey(KeyBytes(e)) == KeyOf(e)
  {
    var bs := KeyBytes(e);
    assert bs[0..16] == e.ip1;
    assert bs[20..36] == e.ip2;
  }

  lemma KeyBytesInjective(a: Elem, b: Elem)
    ensures KeyBytes(a) == KeyBytes(b) <==> KeyOf(a) == KeyOf(b)
  {
    KeyBytesDecode(a);
    KeyBytesDecode(b);
  }

  datatype CompareResult = CompareInequal | CompareEqualAccept | CompareEqualReject

  /**
   * hash_netportnet_data_equal: compares the key regions; on a match the
   * stored element `e2` decides between accept and reject by its nomatch.
   */
  function DataEqual(e1: Elem, e2: Elem): (r: CompareResult)
    ensures r == CompareInequal <==>
      e1.ip1 != e2.ip1 || e1.cidr1 != e2.cidr1 || e1.ip2 != e2.ip2 || e1.cidr2 != e2.cidr2 ||
      e1.proto != e2.proto || e1.port != e2.port
    ensures r == CompareEqualReject <==> KeyOf(e1) == KeyOf(e2) && e2.nomatch
    ensures r == CompareEqualAccept <==> KeyOf(e1) == KeyOf(e2) && !e2.nomatch
  {
    KeyBytesInjective(e1, e2);
    if KeyBytes(e1) != KeyBytes(e2) then CompareInequal
    else if e2.nomatch then CompareEqualReject
    else CompareEqualAccept
  }

  /** Comments, and the probe's own nomatch, never take part in the comparison. */
  lemma DataEqualIgnoresMetadata(e1: Elem, e2: Elem, c1: string, n1: bool, c2: string)
    ensures DataEqual(e1.(comment := c1, nomatch := n1), e2.(comment := c2)) == DataEqual(e1, e2)
  {
  }

  /** Key equality is an equivalence: reflexive, symmetric, transitive. */
  lemma DataEqualKeyEquivalence(a: Elem, b: Elem, c: Elem)
    ensures DataEqual(a, a) != CompareInequal
    ensures (DataEqual(a, b) == CompareInequal) == (DataEqual(b, a) == CompareInequal)
    ensures DataEqual(a, b) != CompareInequal && DataEqual(b, c) != CompareInequal ==> DataEqual(a, c) != CompareInequal
  {
  }

  /** in.s_addr read as a little-endian host integer. */
  function RawS4(a: Addr): U32
  {
    (a[0] as int) + (a[1] as int) * 0x100 + (a[2] as int) * 0x1_0000 + (a[3] as int) * 0x100_0000
  }

  /** The stored port htons(port) read as a little-endian host integer. */
  function RawPort(port: U16): U16
  {
    ((port as int) % 0x100) * 0x100 + (port as int) / 0x100
  }

  /**
   * The uint32 sum in hash_netportnet_hashkey4, modulo 2^32. The three
   * shifted fields occupy disjoint bits, so their bitwise or is their sum.
   */
  function HashSum4(e: Elem): U32
  {
    ((RawS4(e.ip1) as int) * 31 + (RawS4(e.ip2) as int) * 31 + (RawPort(e.port) as int) * 0x1_0000
     + (e.cidr1 as int) * 0x100 + (e.cidr2 as int)) % 0x1_0000_0000
  }

  /** hash_netportnet_hashkey4: the bucket index, masked by the table mask. */
  function HashKey4(e: Elem, mask: U32): (r: U32)
    ensures r <= mask
  {
    BitAnd(HashSum4(e), mask, 32)
  }

  /** Elements that compare equal hash to the same bucket. */
  lemma HashKey4RespectsDataEqual(a: Elem, b: Elem, mask: U32)
    requires DataEqual(a, b) != CompareInequal
    ensures HashKey4(a, mask) == HashKey4(b, mask)
  {
    assert KeyOf(a) == KeyOf(b);
    assert HashSum4(a) == HashSum4(b);
  }

  /** The hash reads only the IPv4 words of ip1 and ip2, port, cidr1 and cidr2: not proto, comment or nomatch. */
  lemma HashKey4Inputs(a: Elem, b: Elem, mask: U32)
    requires a.ip1[..4] == b.ip1[..4] && a.ip2[..4] == b.ip2[..4]
    requires a.port == b.port && a.cidr1 == b.cidr1 && a.cidr2 == b.cidr2
    ensures HashKey4(a, mask) == HashKey4(b, mask)
  {
    assert RawS4(a.ip1) == RawS4(b.ip1) by {
      assert a.ip1[..4][0] == a.ip1[0] && a.ip1[..4][1] == a.ip1[1] && a.ip1[..4][2] == a.ip1[2] && a.ip1[..4][3] == a.ip1[3];
      assert b.ip1[..4][0] == b.ip1[0] && b.ip1[..4][1] == b.ip1[1] && b.ip1[..4][2] == b.ip1[2] && b.ip1[..4][3] == b.ip1[3];
    }
    assert RawS4(a.ip2) == RawS4(b.ip2) by {
      assert a.ip2[..4][0] == a.ip2[0] && a.ip2[..4][1] == a.ip2[1] && a.ip2[..4][2] == a.ip2[2] && a.ip2[..4][3] == a.ip2[3];
      assert b.ip2[..4][0] == b.ip2[0] && b.ip2[..4][1] == b.ip2[1] && b.ip2[..4][2] == b.ip2[2] && b.ip2[..4][3] == b.ip2[3];
    }
    assert HashSum4(a) == HashSum4(b);
  }

  /** struct ipset_member, the display record of a listed element. */
  datatype Member = Member(addr: Addr, addr2: Addr, cidr: U8, cidr2: U8, proto: U8, port: U16,
                           nomatch: bool, comment: string)

  /** hash_netportnet_do_list: fills `m` from `e`; the comment only when the set keeps comments. */
  function DoList(m: Member, e: Elem, comment: bool): (r: Member)
    ensures KeyOf(ElemOfMember(r)) == KeyOf(e) && r.nomatch == e.nomatch
  {
    m.(addr := e.ip1, addr2 := e.ip2, cidr := e.cidr1, cidr2 := e.cidr2, proto := e.proto,
       port := e.port, nomatch := e.nomatch, comment := if comment then e.comment else m.comment)
  }

  /** The element a display record describes. */
  function ElemOfMember(m: Member): Elem
  {
    Elem(m.addr, m.cidr, m.addr2, m.cidr2, m.proto, m.port, m.comment, m.nomatch)
  }

  /**
   * Listing loses nothing: the listed record gives back the element's key
   * and nomatch, and the whole element when the set keeps comments.
   */
  lemma ListRoundTrip(m: Member, e: Elem, comment: bool)
    ensures KeyOf(ElemOfMember(DoList(m, e, comment))) == KeyOf(e)
    ensures ElemOfMember(DoList(m, e, comment)).nomatch == e.nomatch
    ensures DataEqual(ElemOfMember(DoList(m, e, comment)), e) == DataEqual(e, e)
    ensures comment ==> ElemOfMember(DoList(m, e, comment)) == e
    ensures !comment ==> DoList(m, e, comment).comment == m.comment
  {
  }

  /** struct inet_addr_range. */
  datatype AddrRange = AddrRange(minAddr: Addr, maxAddr: Addr, minPort: U16, maxPort: U16)

  /** struct ipset_param, with option.family and option.add.nomatch flattened. */
  datatype Param = Param(opcode: Op, family: int, cidr: U8, cidr2: U8, proto: U8,
                         range: AddrRange, range2: AddrRange, comment: string, nomatch: bool, flag: int)

  /** One call adtfn(set, &e, flag) of the callback set->type->adtfn[op]. */
  datatype Call = Call(op: Op, elem: Elem, flag: int)

  datatype Variant = Variant4 | Variant6

  /** The parts of struct ipset this type reads and writes. */
  class IpSet {
    var family: int
    var comment: bool
    var netCount: nat
    var hashLen: nat
    var variant: Variant
  }

  /**
   * Starting from the trace `calls0`, a run through the calls `seg`: the
   * calls made extend `calls0` by a prefix of `seg`, every call but the last
   * was answered 0, and either a call was answered nonzero and that answer
   * is returned, or all of `seg` was made and EDPVS_OK is returned.
   * Nothing is undone after an error.
   */
  ghost predicate RunOf(calls0: seq<Call>, seg: seq<Call>, answer: nat -> int, calls: seq<Call>, ret: int)
  {
    && |calls0| <= |calls| <= |calls0| + |seg| && calls == calls0 + seg[..|calls| - |calls0|]
    && (forall k :: 0 <= k < |calls| - 1 ==> answer(k) == 0)
    && (ret == EDPVS_OK ==> calls == calls0 + seg && forall k :: 0 <= k < |calls| ==> answer(k) == 0)
    && (ret != EDPVS_OK ==> |calls| > |calls0| && answer(|calls| - 1) == ret)
  }

  /** A driver run over the `expected` calls, from an empty trace. */
  ghost predicate FirstErrorRun(expected: seq<Call>, answer: nat -> int, calls: seq<Call>, ret: int)
  {
    RunOf([], expected, answer, calls, ret)
  }

  /** A driver run is determined by the expected calls and the answers. */
  lemma FirstErrorRunUnique(x: seq<Call>, answer: nat -> int, c1: seq<Call>, r1: int, c2: seq<Call>, r2: int)
    requires FirstErrorRun(x, answer, c1, r1) && FirstErrorRun(x, answer, c2, r2)
    ensures c1 == c2 && r1 == r2
  {
    assert c1 == x[..|c1|] && c2 == x[..|c2|];
  }

  /** When every adtfn call succeeds, every expected call is made and EDPVS_OK is returned. */
  lemma FirstErrorRunAllOk(x: seq<Call>, answer: nat -> int, calls: seq<Call>, ret: int)
    requires forall k :: answer(k) == 0
    requires FirstErrorRun(x, answer, calls, ret)
    ensures calls == x && ret == EDPVS_OK
  {
  }

  /**
   * The first call answered nonzero ends the run: exactly the calls up to it
   * were made, and its answer is returned.
   */
  lemma FirstErrorRunStopsAtFirstError(x: seq<Call>, answer: nat -> int, calls: seq<Call>, ret: int, k: nat)
    requires FirstErrorRun(x, answer, calls, ret)
    requires k < |x| && answer(k) != EDPVS_OK && forall j :: 0 <= j < k ==> answer(j) == EDPVS_OK
    ensures calls == x[..k + 1] && ret == answer(k)
  {
  }

  lemma AppendAssoc<T>(a: seq<T>, b: seq<T>, c: seq<T>)
    ensures (a + b) + c == a + (b + c)
  {
  }

  lemma AppendEmpty<T>(a: seq<T>)
    ensures [] + a == a
  {
  }

  /** Making every call of `seg`, each answered 0, is a successful run. */
  lemma RunComplete(calls0: seq<Call>, seg: seq<Call>, answer: nat -> int, calls: seq<Call>)
    requires calls == calls0 + seg
    requires forall k :: 0 <= k < |calls| ==> answer(k) == 0
    ensures RunOf(calls0, seg, answer, calls, EDPVS_OK)
  {
    assert seg[..|calls| - |calls0|] == seg;
  }

  /** Making the first n calls of `seg`, the last one answered nonzero, is a failed run. */
  lemma RunFail(calls0: seq<Call>, seg: seq<Call>, answer: nat -> int, calls: seq<Call>, ret: int, n: nat)
    requires 1 <= n <= |seg| && calls == calls0 + seg[..n]
    requires forall k :: 0 <= k < |calls| - 1 ==> answer(k) == 0
    requires answer(|calls| - 1) == ret && ret != EDPVS_OK
    ensures RunOf(calls0, seg, answer, calls, ret)
  {
  }

  /** A run that failed inside `s` is also a failed run of any sequence containing `s` after `pre`. */
  lemma RunInside(c0: seq<Call>, pre: seq<Call>, s: seq<Call>, post: seq<Call>, answer: nat -> int, c: seq<Call>, r: int)
    requires RunOf(c0 + pre, s, answer, c, r) && r != EDPVS_OK
    ensures RunOf(c0, pre + s + post, answer, c, r)
  {
    var m := |c| - |c0 + pre|;
    assert (pre + s + post)[..|pre| + m] == pre + s[..m];
  }

  /** The ports a port loop should visit: min_port..max_port, none when min_port > max_port. */
  function Ports(lo: U16, hi: U16): (ps: seq<U16>)
  {
    seq(if lo <= hi then hi - lo + 1 else 0, k requires 0 <= k <= hi - lo => lo + k)
  }

  /** Each port of [lo, hi] exactly once, in increasing order. */
  lemma PortsExact(lo: U16, hi: U16, x: int)
    ensures x in Ports(lo, hi) <==> lo <= x <= hi
    ensures forall j, k :: 0 <= j < k < |Ports(lo, hi)| ==> Ports(lo, hi)[j] < Ports(lo, hi)[k]
  {
    if lo <= x <= hi {
      assert Ports(lo, hi)[x - lo] == x;
    }
  }

  /** The element with each port of `ports` in turn, handed to adtfn. */
  function Cell(op: Op, flag: int, e: Elem, ports: seq<U16>): (cs: seq<Call>)
    ensures |cs| == |ports|
  {
    if ports == [] then [] else [Call(op, e.(port := ports[0]), flag)] + Cell(op, flag, e, ports[1..])
  }

  lemma {:induction false} CellSnoc(op: Op, flag: int, e: Elem, ports: seq<U16>, p: U16)
    ensures Cell(op, flag, e, ports + [p]) == Cell(op, flag, e, ports) + [Call(op, e.(port := p), flag)]
  {
    if ports != [] {
      assert (ports + [p])[1..] == ports[1..] + [p];
      CellSnoc(op, flag, e, ports[1..], p);
    }
  }

  /** One more turn of the port loop adds the call for the next port. */
  lemma CellTakeSnoc(op: Op, flag: int, e: Elem, lo: U16, hi: U16, n: nat)
    requires n < |Ports(lo, hi)|
    ensures Cell(op, flag, e, Ports(lo, hi)[..n + 1]) ==
      Cell(op, flag, e, Ports(lo, hi)[..n]) + [Call(op, e.(port := lo + n), flag)]
  {
    var ports := Ports(lo, hi);
    assert ports[..n + 1] == ports[..n] + [lo + n];
    CellSnoc(op, flag, e, ports[..n], lo + n);
  }

  /** The k-th call of a cell carries the k-th port. */
  lemma {:induction false} CellAt(op: Op, flag: int, e: Elem, ports: seq<U16>, k: nat)
    requires k < |ports|
    ensures Cell(op, flag, e, ports)[k] == Call(op, e.(port := ports[k]), flag)
  {
    if k > 0 {
      CellAt(op, flag, e, ports[1..], k - 1);
    }
  }

  lemma {:induction false} CellPrefix(op: Op, flag: int, e: Elem, ports: seq<U16>, n: nat)
    requires n <= |ports|
    ensures Cell(op, flag, e, ports)[..n] == Cell(op, flag, e, ports[..n])
  {
    if n > 0 {
      assert ports[..n][1..] == ports[1..][..n - 1];
      CellPrefix(op, flag, e, ports[1..], n - 1);
    }
  }

  /** For one net1 block: each net2 block in order, each with every port. */
  function Row(op: Op, flag: int, e: Elem, b2: seq<Block>, ports: seq<U16>): seq<Call>
  {
    if b2 == [] then []
    else Cell(op, flag, e.(ip2 := V4Addr(b2[0].addr), cidr2 := b2[0].cidr), ports) + Row(op, flag, e, b2[1..], ports)
  }

  /** The nested product: net1 blocks outermost, then net2 blocks, then ports. */
  function Grid(op: Op, flag: int, e: Elem, b1: seq<Block>, b2: seq<Block>, ports: seq<U16>): seq<Call>
  {
    if b1 == [] then []
    else Row(op, flag, e.(ip1 := V4Addr(b1[0].addr), cidr1 := b1[0].cidr), b2, ports) + Grid(op, flag, e, b1[1..], b2, ports)
  }

  /** The element handed to adtfn for net2 block `n2` and port `p`, on top of `e`. */
  function RowElem(e: Elem, n2: Block, p: U16): Elem
  {
    e.(ip2 := V4Addr(n2.addr), cidr2 := n2.cidr, port := p)
  }

  /** The element handed to adtfn for net1 block `n1`, net2 block `n2` and port `p`. */
  function GridElem(e: Elem, n1: Block, n2: Block, p: U16): Elem
  {
    RowElem(e.(ip1 := V4Addr(n1.addr), cidr1 := n1.cidr), n2, p)
  }

  lemma {:induction false} RowLength(op: Op, flag: int, e: Elem, b2: seq<Block>, ports: seq<U16>)
    ensures |Row(op, flag, e, b2, ports)| == |b2| * |ports|
  {
    if b2 != [] {
      RowLength(op, flag, e, b2[1..], ports);
      assert |b2| * |ports| == |ports| + (|b2| - 1) * |ports|;
    }
  }

  /** The expected IPv4 calls number |net1 blocks| * |net2 blocks| * |ports|. */
  lemma {:induction false} GridLength(op: Op, flag: int, e: Elem, b1: seq<Block>, b2: seq<Block>, ports: seq<U16>)
    ensures |Grid(op, flag, e, b1, b2, ports)| == |b1| * (|b2| * |ports|)
  {
    if b1 != [] {
      RowLength(op, flag, e.(ip1 := V4Addr(b1[0].addr), cidr1 := b1[0].cidr), b2, ports);
      GridLength(op, flag, e, b1[1..], b2, ports);
      assert |b1| * (|b2| * |ports|) == |b2| * |ports| + (|b1| - 1) * (|b2| * |ports|);
    }
  }

  /** Rows are net2-major: the calls for earlier net2 blocks come first. */
  lemma {:induction false} RowAppend(op: Op, flag: int, e: Elem, b2: seq<Block>, b2': seq<Block>, ports: seq<U16>)
    ensures Row(op, flag, e, b2 + b2', ports) == Row(op, flag, e, b2, ports) + Row(op, flag, e, b2', ports)
  {
    if b2 == [] {
      assert b2 + b2' == b2';
    } else {
      assert (b2 + b2')[1..] == b2[1..] + b2';
      RowAppend(op, flag, e, b2[1..], b2', ports);
    }
  }

  /** The product is net1-major: the calls for earlier net1 blocks come first. */
  lemma {:induction false} GridAppend(op: Op, flag: int, e: Elem, b1: seq<Block>, b1': seq<Block>, b2: seq<Block>, ports: seq<U16>)
    ensures Grid(op, flag, e, b1 + b1', b2, ports) == Grid(op, flag, e, b1, b2, ports) + Grid(op, flag, e, b1', b2, ports)
  {
    if b1 == [] {
      assert b1 + b1' == b1';
    } else {
      assert (b1 + b1')[1..] == b1[1..] + b1';
      GridAppend(op, flag, e, b1[1..], b1', b2, ports);
    }
  }

  /** A cell holds exactly one call per port of the loop. */
  lemma {:induction false} CellMembers(op: Op, flag: int, e: Elem, ports: seq<U16>, c: Call)
    ensures c in Cell(op, flag, e, ports) <==> exists p :: p in ports && c == Call(op, e.(port := p), flag)
  {
    if ports != [] {
      CellMembers(op, flag, e, ports[1..], c);
      assert forall p :: p in ports <==> p == ports[0] || p in ports[1..];
    }
  }

  /** A row holds exactly the calls for a net2 block and a port of the loops. */
  lemma {:induction false} RowMembers(op: Op, flag: int, e: Elem, b2: seq<Block>, ports: seq<U16>, c: Call)
    ensures c in Row(op, flag, e, b2, ports) <==>
      exists n2, p :: n2 in b2 && p in ports && c == Call(op, RowElem(e, n2, p), flag)
  {
    if b2 != [] {
      var e2 := e.(ip2 := V4Addr(b2[0].addr), cidr2 := b2[0].cidr);
      CellMembers(op, flag, e2, ports, c);
      RowMembers(op, flag, e, b2[1..], ports, c);
      assert forall p :: e2.(port := p) == RowElem(e, b2[0], p);
      assert forall n :: n in b2 <==> n == b2[0] || n in b2[1..];
    }
  }

  /**
   * The expected IPv4 calls are exactly the product blocks(net1) x
   * blocks(net2) x ports: a call is expected iff it carries a net1 block, a
   * net2 block and a port of the loops, on top of the base element.
   */
  lemma {:induction false} GridMembers(op: Op, flag: int, e: Elem, b1: seq<Block>, b2: seq<Block>, ports: seq<U16>, c: Call)
    ensures c in Grid(op, flag, e, b1, b2, ports) <==>
      exists n1, n2, p :: n1 in b1 && n2 in b2 && p in ports && c == Call(op, GridElem(e, n1, n2, p), flag)
  {
    if b1 != [] {
      var e1 := e.(ip1 := V4Addr(b1[0].addr), cidr1 := b1[0].cidr);
      RowMembers(op, flag, e1, b2, ports, c);
      GridMembers(op, flag, e, b1[1..], b2, ports, c);
      assert forall n2, p :: RowElem(e1, n2, p) == GridElem(e, b1[0], n2, p);
      assert forall n :: n in b1 <==> n == b1[0] || n in b1[1..];
    }
  }

  /** The fields an ADD request copies into the element: the comment when the set keeps comments, and nomatch. */
  function AddExtras(e: Elem, param: Param, setComment: bool): Elem
  {
    var e1 := if param.opcode == OpAdd && setComment then e.(comment := param.comment) else e;
    if param.opcode == OpAdd && param.nomatch then e1.(nomatch := true) else e1
  }

  /** The IPv4 range of one net field: the /cidr block of min_addr when cidr is nonzero, otherwise [min_addr, max_addr]. */
  function NetBounds4(r: AddrRange, cidr: U8): (U32, U32)
    requires cidr <= 32
  {
    if cidr != 0 then MaskFromTo(In4(r.minAddr), cidr) else (In4(r.minAddr), In4(r.maxAddr))
  }

  function Base4(setComment: bool, param: Param): Elem
  {
    AddExtras(ELEM_ZERO.(cidr1 := param.cidr, cidr2 := param.cidr2, proto := param.proto), param, setComment)
  }

  /** The calls an IPv4 ADD or DEL request should make. */
  function Expected4(op: Op, setComment: bool, param: Param): (cs: seq<Call>)
    requires param.cidr <= 32 && param.cidr2 <= 32
    ensures var n1, n2 := NetBounds4(param.range, param.cidr), NetBounds4(param.range2, param.cidr2);
      |cs| == |Cover(n1.0, n1.1)| * (|Cover(n2.0, n2.1)| * |Ports(param.range.minPort, param.range.maxPort)|)
  {
    var n1 := NetBounds4(param.range, param.cidr);
    var n2 := NetBounds4(param.range2, param.cidr2);
    GridLength(op, param.flag, Base4(setComment, param), Cover(n1.0, n1.1), Cover(n2.0, n2.1),
               Ports(param.range.minPort, param.range.maxPort));
    Grid(op, param.flag, Base4(setComment, param), Cover(n1.0, n1.1), Cover(n2.0, n2.1),
         Ports(param.range.minPort, param.range.maxPort))
  }

  /**
   * What an IPv4 ADD or DEL request hands adtfn, read back in the request's
   * own terms: every element carries the request's protocol, the comment
   * only for ADD on a commenting set, nomatch only for ADD with nomatch,
   * an address block of each net range and a port of the port range.
   */
  lemma Expected4Elements(op: Op, setComment: bool, param: Param, c: Call)
    requires param.cidr <= 32 && param.cidr2 <= 32
    requires c in Expected4(op, setComment, param)
    ensures c.op == op && c.flag == param.flag && c.elem.proto == param.proto
    ensures c.elem.comment == (if param.opcode == OpAdd && setComment then param.comment else "")
    ensures c.elem.nomatch == (param.opcode == OpAdd && param.nomatch)
    ensures param.range.minPort <= c.elem.port <= param.range.maxPort
    ensures exists b :: (b in Cover(NetBounds4(param.range, param.cidr).0, NetBounds4(param.range, param.cidr).1) &&
                         c.elem.ip1 == V4Addr(b.addr) && c.elem.cidr1 == b.cidr)
    ensures exists b :: (b in Cover(NetBounds4(param.range2, param.cidr2).0, NetBounds4(param.range2, param.cidr2).1) &&
                         c.elem.ip2 == V4Addr(b.addr) && c.elem.cidr2 == b.cidr)
  {
    var n1 := NetBounds4(param.range, param.cidr);
    var n2 := NetBounds4(param.range2, param.cidr2);
    var b1, b2 := Cover(n1.0, n1.1), Cover(n2.0, n2.1);
    var ports := Ports(param.range.minPort, param.range.maxPort);
    GridMembers(op, param.flag, Base4(setComment, param), b1, b2, ports, c);
    var x1, x2, p :| x1 in b1 && x2 in b2 && p in ports &&
      c == Call(op, GridElem(Base4(setComment, param), x1, x2, p), param.flag);
    PortsExact(param.range.minPort, param.range.maxPort, p);
  }

  /**
   * An IPv4 ADD or DEL request hands adtfn exactly the product
   * blocks(net1) x blocks(net2) x [min_port, max_port] on the base element.
   */
  lemma Expected4Exact(op: Op, setComment: bool, param: Param, c: Call)
    requires param.cidr <= 32 && param.cidr2 <= 32
    ensures var n1, n2 := NetBounds4(param.range, param.cidr), NetBounds4(param.range2, param.cidr2);
      c in Expected4(op, setComment, param) <==>
        exists x1, x2, p :: x1 in Cover(n1.0, n1.1) && x2 in Cover(n2.0, n2.1) &&
          param.range.minPort <= p <= param.range.maxPort &&
          c == Call(op, GridElem(Base4(setComment, param), x1, x2, p), param.flag)
  {
    var n1, n2 := NetBounds4(param.range, param.cidr), NetBounds4(param.range2, param.cidr2);
    var lo, hi := param.range.minPort, param.range.maxPort;
    GridMembers(op, param.flag, Base4(setComment, param), Cover(n1.0, n1.1), Cover(n2.0, n2.1), Ports(lo, hi), c);
    forall p: U16
      ensures p in Ports(lo, hi) <==> lo <= p <= hi
    {
      PortsExact(lo, hi, p);
    }
  }

  /** The single IPv4 TEST element: min_addr of each range, min_port, the request's prefix lengths. */
  function Probe4(param: Param): Elem
  {
    ELEM_ZERO.(cidr1 := param.cidr, cidr2 := param.cidr2, proto := param.proto,
               ip1 := V4Addr(In4(param.range.minAddr)), ip2 := V4Addr(In4(param.range2.minAddr)),
               port := param.range.minPort)
  }

  /**
   * The port loop of both drivers, over min_port..max_port with a counter
   * wide enough not to wrap (see Findings for the loop as written).
   */
  method AdtPorts(op: Op, flag: int, e: Elem, lo: U16, hi: U16, answer: nat -> int, calls0: seq<Call>)
    returns (ret: int, calls: seq<Call>)
    requires forall k :: 0 <= k < |calls0| ==> answer(k) == 0
    ensures RunOf(calls0, Cell(op, flag, e, Ports(lo, hi)), answer, calls, ret)
  {
    ghost var ports := Ports(lo, hi);
    ghost var cells := Cell(op, flag, e, ports);
    var elem := e;
    var port: int := lo;
    calls := calls0;
    while port <= hi
      invariant lo <= port && port - lo <= |ports|
      invariant calls == calls0 + Cell(op, flag, e, ports[..port - lo])
      invariant forall k :: 0 <= k < |calls| ==> answer(k) == 0
    {
      elem := e.(port := port);
      ret := answer(|calls|);
      CellTakeSnoc(op, flag, e, lo, hi, port - lo);
      AppendAssoc(calls0, Cell(op, flag, e, ports[..port - lo]), [Call(op, elem, flag)]);
      calls := calls + [Call(op, elem, flag)];
      if ret != EDPVS_OK {
        CellPrefix(op, flag, e, ports, port - lo + 1);
        RunFail(calls0, cells, answer, calls, ret, port - lo + 1);
        return;
      }
      port := port + 1;
    }
    assert ports[..port - lo] == ports;
    RunComplete(calls0, cells, answer, calls);
    ret := EDPVS_OK;
  }

  /** One turn of the inner do-while: the first net2 block with every port, then the rest of the range. */
  lemma RowStep(op: Op, flag: int, e: Elem, from: U32, to: U32, ports: seq<U16>)
    ensures var r := RangeToCidr(from, to);
      Row(op, flag, e, Cover(from, to), ports) ==
      Cell(op, flag, e.(ip2 := V4Addr(from), cidr2 := r.1), ports) +
      (if r.0 < to then Row(op, flag, e, Cover(Inc32(r.0), to), ports) else [])
  {
    var r := RangeToCidr(from, to);
    var c := Cover(from, to);
    var next := if r.0 < to then Cover(r.0 + 1, to) else [];
    assert c == [Block(from, r.1)] + next;
    assert c[1..] == next;
  }

  /** One turn of the outer do-while: the first net1 block with every net2 block and port, then the rest. */
  lemma GridStep(op: Op, flag: int, e: Elem, from: U32, to: U32, b2: seq<Block>, ports: seq<U16>)
    ensures var r := RangeToCidr(from, to);
      Grid(op, flag, e, Cover(from, to), b2, ports) ==
      Row(op, flag, e.(ip1 := V4Addr(from), cidr1 := r.1), b2, ports) +
      (if r.0 < to then Grid(op, flag, e, Cover(Inc32(r.0), to), b2, ports) else [])
  {
    var r := RangeToCidr(from, to);
    var c := Cover(from, to);
    var next := if r.0 < to then Cover(r.0 + 1, to) else [];
    assert c == [Block(from, r.1)] + next;
    assert c[1..] == next;
  }

  /** The inner do-while of hash_netportnet_adt4: each net2 block of [ip2From, ip2To], each with every port. */
  method AdtNet2(op: Op, flag: int, e: Elem, ip2From: U32, ip2To: U32, lo: U16, hi: U16,
                 answer: nat -> int, calls0: seq<Call>)
    returns (ret: int, calls: seq<Call>)
    requires forall k :: 0 <= k < |calls0| ==> answer(k) == 0
    ensures RunOf(calls0, Row(op, flag, e, Cover(ip2From, ip2To), Ports(lo, hi)), answer, calls, ret)
  {
    ghost var full := Row(op, flag, e, Cover(ip2From, ip2To), Ports(lo, hi));
    ghost var done: seq<Call> := [];
    var elem := e;
    var ip2: U32 := ip2From;
    calls := calls0;
    while true
      invariant calls == calls0 + done && done + Row(op, flag, e, Cover(ip2, ip2To), Ports(lo, hi)) == full
      invariant forall k :: 0 <= k < |calls| ==> answer(k) == 0
      decreases if ip2 <= ip2To then (ip2To as int) - (ip2 as int) + 1 else 0
    {
      var r2 := RangeToCidr(ip2, ip2To);
      elem := e.(ip2 := V4Addr(ip2), cidr2 := r2.1);
      ghost var cell := Cell(op, flag, elem, Ports(lo, hi));
      ghost var rest := if r2.0 < ip2To then Row(op, flag, e, Cover(Inc32(r2.0), ip2To), Ports(lo, hi)) else [];
      RowStep(op, flag, e, ip2, ip2To, Ports(lo, hi));
      AppendAssoc(done, cell, rest);
      ret, calls := AdtPorts(op, flag, elem, lo, hi, answer, calls);
      if ret != EDPVS_OK {
        RunInside(calls0, done, cell, rest, answer, calls, ret);
        return;
      }
      AppendAssoc(calls0, done, cell);
      done := done + cell;
      var more := r2.0 < ip2To;
      ip2 := Inc32(r2.0);
      if !more {
        break;
      }
    }
    RunComplete(calls0, full, answer, calls);
    ret := EDPVS_OK;
  }

  /** The outer do-while of hash_netportnet_adt4: each net1 block of [ip1From, ip1To], each with the whole inner loop. */
  method AdtNet1(op: Op, flag: int, e: Elem, ip1From: U32, ip1To: U32, ip2From: U32, ip2To: U32, lo: U16, hi: U16,
                 answer: nat -> int)
    returns (ret: int, calls: seq<Call>)
    ensures FirstErrorRun(Grid(op, flag, e, Cover(ip1From, ip1To), Cover(ip2From, ip2To), Ports(lo, hi)), answer, calls, ret)
  {
    ghost var b2 := Cover(ip2From, ip2To);
    ghost var ports := Ports(lo, hi);
    ghost var full := Grid(op, flag, e, Cover(ip1From, ip1To), b2, ports);
    ghost var done: seq<Call> := [];
    var ip1: U32 := ip1From;
    var ip2: U32 := ip2From;
    calls := [];
    while true
      invariant ip2 == ip2From
      invariant calls == done && done + Grid(op, flag, e, Cover(ip1, ip1To), b2, ports) == full
      invariant forall k :: 0 <= k < |calls| ==> answer(k) == 0
      decreases if ip1 <= ip1To then (ip1To as int) - (ip1 as int) + 1 else 0
    {
      var r1 := RangeToCidr(ip1, ip1To);
      var elem := e.(ip1 := V4Addr(ip1), cidr1 := r1.1);
      ghost var row := Row(op, flag, elem, b2, ports);
      ghost var rest := if r1.0 < ip1To then Grid(op, flag, e, Cover(Inc32(r1.0), ip1To), b2, ports) else [];
      GridStep(op, flag, e, ip1, ip1To, b2, ports);
      AppendAssoc(done, row, rest);
      ret, calls := AdtNet2(op, flag, elem, ip2, ip2To, lo, hi, answer, calls);
      if ret != EDPVS_OK {
        AppendEmpty(done);
        RunInside([], done, row, rest, answer, calls, ret);
        return;
      }
      done := done + row;
      ip2 := ip2From;
      var more := r1.0 < ip1To;
      ip1 := Inc32(r1.0);
      if !more {
        break;
      }
    }
    RunComplete([], full, answer, calls);
    ret := EDPVS_OK;
  }

  /**
   * The ADD and DEL part of hash_netportnet_adt4, after the family check:
   * the ADD extras, the net bounds, then the nested loops.
   */
  method Adt4Ranges(op: Op, setComment: bool, param: Param, answer: nat -> int) returns (ret: int, calls: seq<Call>)
    requires param.cidr <= 32 && param.cidr2 <= 32
    ensures FirstErrorRun(Expected4(op, setComment, param), answer, calls, ret)
  {
    var e := ELEM_ZERO.(cidr1 := param.cidr, cidr2 := param.cidr2, proto := param.proto);
    e := AddExtras(e, param, setComment);

    var ip1: U32, ip1To: U32 := In4(param.range.minAddr), In4(param.range.maxAddr);
    var ip2: U32, ip2To: U32 := In4(param.range2.minAddr), In4(param.range2.maxAddr);
    if e.cidr1 != 0 {
      var m := MaskFromTo(ip1, e.cidr1);
      ip1, ip1To := m.0, m.1;
    }
    if e.cidr2 != 0 {
      var m := MaskFromTo(ip2, e.cidr2);
      ip2, ip2To := m.0, m.1;
    }
    var ip2From := ip2;

    ghost var full := Grid(op, param.flag, e, Cover(ip1, ip1To), Cover(ip2From, ip2To),
                           Ports(param.range.minPort, param.range.maxPort));
    assert full == Expected4(op, setComment, param);
    ret, calls := AdtNet1(op, param.flag, e, ip1, ip1To, ip2From, ip2To, param.range.minPort, param.range.maxPort, answer);
  }

  /**
   * hash_netportnet_adt4. A family mismatch makes no call. TEST (decided by
   * `op`) makes one call with flag 0 and no decomposition. ADD and DEL hand
   * adtfn every element of the nested product (see Expected4Elements and
   * GridMembers), stopping at the first error.
   */
  method Adt4(op: Op, ipset: IpSet, param: Param, answer: nat -> int) returns (ret: int, calls: seq<Call>)
    requires ipset.family == param.family && op != OpTest ==> param.cidr <= 32 && param.cidr2 <= 32
    ensures ipset.family != param.family ==> ret == EDPVS_INVAL && calls == []
    ensures ipset.family == param.family && op == OpTest ==>
      calls == [Call(op, Probe4(param), 0)] && ret == answer(0)
    ensures ipset.family == param.family && op != OpTest ==>
      FirstErrorRun(Expected4(op, ipset.comment, param), answer, calls, ret)
  {
    if ipset.family != param.family {
      return EDPVS_INVAL, [];
    }
    var e := ELEM_ZERO;
    e := e.(cidr1 := param.cidr, cidr2 := param.cidr2, proto := param.proto);

    if op == OpTest {
      e := e.(ip1 := V4Addr(In4(param.range.minAddr)), ip2 := V4Addr(In4(param.range2.minAddr)));
      e := e.(port := param.range.minPort);
      ret := answer(0);
      calls := [Call(op, e, 0)];
      return;
    }

    ret, calls := Adt4Ranges(op, ipset.comment, param, answer);
  }

  // ---------------------------------------------------------------------
  // IPv6

  /**
   * Byte i of an IPv6 address under a prefix of length plen: kept inside
   * the prefix, cleared after it, and cut to its high bits at the boundary.
   */
  function MaskByte(b: U8, i: nat, plen: nat): (r: U8)
    ensures 8 * (i + 1) <= plen ==> r == b
    ensures plen <= 8 * i ==> r == 0
    ensures 8 * i < plen < 8 * (i + 1) ==>
      LowBitsZero(r, 8 * (i + 1) - plen) && HighBits(r, 8 * (i + 1) - plen) == HighBits(b, 8 * (i + 1) - plen)
    ensures r <= b
  {
    if 8 * (i + 1) <= plen then b
    else if plen <= 8 * i then 0
    else
      ClearLowBitsKeepsHigh(b, 8 * (i + 1) - plen);
      ClearLowBits(b, 8 * (i + 1) - plen)
  }

  /**
   * ip6_netmask(addr, plen), a reference definition (the helper is not
   * part of this model's sources): keeps the first plen bits of the address
   * and clears the rest.
   */
  function Ip6Netmask(a: Addr, plen: U8): (r: Addr)
    ensures forall i :: 0 <= i < 16 && 8 * (i + 1) <= plen ==> r[i] == a[i]
    ensures forall i :: 0 <= i < 16 && plen <= 8 * i ==> r[i] == 0
    ensures forall i :: 0 <= i < 16 && 8 * i < plen < 8 * (i + 1) ==>
      LowBitsZero(r[i], 8 * (i + 1) - plen) && HighBits(r[i], 8 * (i + 1) - plen) == HighBits(a[i], 8 * (i + 1) - plen)
    ensures forall i :: 0 <= i < 16 ==> r[i] <= a[i]
  {
    seq(16, i requires 0 <= i < 16 => MaskByte(a[i], i, plen))
  }

  /** Masking by a prefix is idempotent. */
  lemma Ip6NetmaskIdempotent(a: Addr, plen: U8)
    ensures Ip6Netmask(Ip6Netmask(a, plen), plen) == Ip6Netmask(a, plen)
  {
    var m := Ip6Netmask(a, plen);
    forall i | 0 <= i < 16
      ensures Ip6Netmask(m, plen)[i] == m[i]
    {
      if plen < 8 * (i + 1) && 8 * i < plen {
        ClearLowBitsIdempotent(a[i], 8 * (i + 1) - plen);
      }
    }
  }

  /** Masking by /128 or longer keeps the whole address. */
  lemma Ip6NetmaskFull(a: Addr, plen: U8)
    requires plen >= 128
    ensures Ip6Netmask(a, plen) == a
  {
  }

  /** The IPv6 ADD and DEL element before the port: min_addr of each range, masked by a nonzero prefix length. */
  function Base6(setComment: bool, param: Param): Elem
  {
    AddExtras(ELEM_ZERO.(ip1 := if param.cidr != 0 then Ip6Netmask(param.range.minAddr, param.cidr) else param.range.minAddr,
                         ip2 := if param.cidr2 != 0 then Ip6Netmask(param.range2.minAddr, param.cidr2) else param.range2.minAddr,
                         cidr1 := param.cidr, cidr2 := param.cidr2, proto := param.proto),
              param, setComment)
  }

  /** The calls an IPv6 ADD or DEL request should make: the base element with each port. */
  function Expected6(op: Op, setComment: bool, param: Param): (cs: seq<Call>)
    ensures |cs| == |Ports(param.range.minPort, param.range.maxPort)|
  {
    Cell(op, param.flag, Base6(setComment, param), Ports(param.range.minPort, param.range.maxPort))
  }

  /** The single IPv6 TEST element: both min_addr unmasked, min_port, the request's prefix lengths. */
  function Probe6(param: Param): Elem
  {
    ELEM_ZERO.(ip1 := param.range.minAddr, ip2 := param.range2.minAddr, cidr1 := param.cidr, cidr2 := param.cidr2,
               proto := param.proto, port := param.range.minPort)
  }

  /**
   * An IPv6 ADD or DEL request hands adtfn exactly one element per port of
   * [min_port, max_port], in increasing port order, each carrying the masked
   * min_addr of both ranges; max_addr plays no part.
   */
  lemma Expected6Exact(op: Op, setComment: bool, param: Param, c: Call)
    ensures c in Expected6(op, setComment, param) <==>
      exists p :: param.range.minPort <= p <= param.range.maxPort &&
        c == Call(op, Base6(setComment, param).(port := p), param.flag)
    ensures |Expected6(op, setComment, param)| ==
      if param.range.minPort <= param.range.maxPort then param.range.maxPort - param.range.minPort + 1 else 0
    ensures forall r2: AddrRange ::
      (r2.minAddr == param.range.minAddr && r2.minPort == param.range.minPort && r2.maxPort == param.range.maxPort) ==>
        Expected6(op, setComment, param.(range := r2)) == Expected6(op, setComment, param)
  {
    var lo, hi := param.range.minPort, param.range.maxPort;
    CellMembers(op, param.flag, Base6(setComment, param), Ports(lo, hi), c);
    forall p: U16
      ensures p in Ports(lo, hi) <==> lo <= p <= hi
    {
      PortsExact(lo, hi, p);
    }
  }

  /**
   * hash_netportnet_adt6. A family mismatch makes no call. TEST (decided by
   * the request's opcode) makes one call with flag 0 and no masking. ADD
   * and DEL mask each address by a nonzero prefix length and hand adtfn the
   * element with each port in turn, stopping at the first error.
   */
  method Adt6(op: Op, ipset: IpSet, param: Param, answer: nat -> int) returns (ret: int, calls: seq<Call>)
    ensures ipset.family != param.family ==> ret == EDPVS_INVAL && calls == []
    ensures ipset.family == param.family && param.opcode == OpTest ==>
      calls == [Call(op, Probe6(param), 0)] && ret == answer(0)
    ensures ipset.family == param.family && param.opcode != OpTest ==>
      FirstErrorRun(Expected6(op, ipset.comment, param), answer, calls, ret)
  {
    if ipset.family != param.family {
      return EDPVS_INVAL, [];
    }
    var e := ELEM_ZERO.(ip1 := param.range.minAddr, ip2 := param.range2.minAddr,
                        cidr1 := param.cidr, cidr2 := param.cidr2, proto := param.proto);

    if param.opcode == OpTest {
      e := e.(port := param.range.minPort);
      ret := answer(0);
      calls := [Call(op, e, 0)];
      return;
    }

    if param.opcode == OpAdd {
      if ipset.comment {
        e := e.(comment := param.comment);
      }
      if param.nomatch {
        e := e.(nomatch := true);
      }
    }

    if e.cidr1 != 0 {
      e := e.(ip1 := Ip6Netmask(e.ip1, e.cidr1));
    }
    if e.cidr2 != 0 {
      e := e.(ip2 := Ip6Netmask(e.ip2, e.cidr2));
    }
    assert e == Base6(ipset.comment, param);
    ret, calls := AdtPorts(op, param.flag, e, param.range.minPort, param.range.maxPort, answer, []);
  }

  // ---------------------------------------------------------------------
  // Fast-path probe

  /** The parts of struct dp_vs_iphdr the probe reads, and the first 16-bit word after the IP header. */
  datatype IpHdr = IpHdr(saddr: Addr, daddr: Addr, proto: U8)

  /**
   * The element hash_netportnet_test builds, as written: source address,
   * destination address and the first port word of the transport header;
   * proto keeps its zero from the memset.
   */
  function TestProbeAsWritten(iph: IpHdr, port: U16): (r: Elem)
    ensures r.ip1 == iph.saddr && r.ip2 == iph.daddr && r.port == port
    ensures r.proto == 0 && r.cidr1 == 0 && r.cidr2 == 0 && !r.nomatch
  {
    ELEM_ZERO.(ip1 := iph.saddr, ip2 := iph.daddr, port := port)
  }

  /**
   * As written, the probe never matches a stored element whose protocol is
   * set, whatever prefixes the hash layer masks its addresses to; it
   * matches only elements stored with protocol 0.
   */
  lemma TestProbeAsWrittenMissesProto(iph: IpHdr, port: U16, stored: Elem)
    ensures stored.proto != 0 ==> forall a1: Addr, c1: U8, a2: Addr, c2: U8 ::
      DataEqual(TestProbeAsWritten(iph, port).(ip1 := a1, cidr1 := c1, ip2 := a2, cidr2 := c2), stored) == CompareInequal
    ensures DataEqual(TestProbeAsWritten(iph, port).(ip1 := stored.ip1, cidr1 := stored.cidr1,
                                                     ip2 := stored.ip2, cidr2 := stored.cidr2), stored) != CompareInequal
      <==> stored.proto == 0 && stored.port == port
  {
  }

  /** A TCP flow, with a stored element added for TCP on its nets and port: the probe as written misses it. */
  lemma TestProbeAsWrittenCounterexample()
    ensures var iph := IpHdr(V4Addr(0x0A00_0001), V4Addr(0x0A00_0002), IPPROTO_TCP);
      var stored := ELEM_ZERO.(ip1 := iph.saddr, ip2 := iph.daddr, proto := IPPROTO_TCP, port := 80);
      DataEqual(TestProbeAsWritten(iph, 80), stored) == CompareInequal &&
      DataEqual(TestProbe(iph, 80), stored) == CompareEqualAccept
  {
  }

  /** The probe with the packet's protocol as well, as the stored elements carry it. */
  function TestProbe(iph: IpHdr, port: U16): Elem
  {
    TestProbeAsWritten(iph, port).(proto := iph.proto)
  }

  /**
   * The probe matches exactly the stored elements of its own flow: once the
   * hash layer has put the probe's addresses onto a stored element's blocks,
   * they compare equal iff the element carries the flow's protocol and port.
   */
  lemma TestProbeMatchesOwnFlow(iph: IpHdr, port: U16, stored: Elem)
    ensures DataEqual(TestProbe(iph, port).(ip1 := stored.ip1, cidr1 := stored.cidr1,
                                            ip2 := stored.ip2, cidr2 := stored.cidr2), stored) != CompareInequal
      <==> stored.proto == iph.proto && stored.port == port
  {
  }

  /**
   * hash_netportnet_test, as written: one TEST call with flag 0, whose answer
   * is returned; the probe carries the flow's addresses and port but protocol 0.
   */
  method Test(iph: IpHdr, port: U16, answer: nat -> int) returns (ret: int, calls: seq<Call>)
    ensures calls == [Call(OpTest, TestProbeAsWritten(iph, port), 0)] && ret == answer(0)
    ensures calls[0].elem.ip1 == iph.saddr && calls[0].elem.ip2 == iph.daddr && calls[0].elem.port == port
    ensures calls[0].elem.proto == 0
  {
    var e := ELEM_ZERO;
    e := e.(ip1 := iph.saddr, ip2 := iph.daddr, port := port);
    calls := [Call(OpTest, e, 0)];
    ret := answer(0);
  }

  // ---------------------------------------------------------------------
  // Creation

  /**
   * hash_netportnet_create after hash_create: two net fields, the compared
   * key region as the hash length, and the IPv4 variant exactly for AF_INET.
   */
  method Create(ipset: IpSet, param: Param) returns (ret: int)
    modifies ipset
    ensures ipset.netCount == 2 && ipset.hashLen == KEY_REGION_LEN
    ensures ipset.variant == (if param.family == AF_INET then Variant4 else Variant6)
    ensures ipset.family == old(ipset.family) && ipset.comment == old(ipset.comment)
    ensures ret == EDPVS_OK
  {
    ipset.netCount := 2;
    ipset.hashLen := KEY_REGION_LEN;
    if param.family == AF_INET {
      ipset.variant := Variant4;
    } else {
      ipset.variant := Variant6;
    }
    ret := EDPVS_OK;
  }

  /** The hash length set at creation is exactly the region the comparison reads. */
  lemma HashLenIsKeyRegion(e: Elem)
    ensures |KeyBytes(e)| == KEY_REGION_LEN
    ensures forall e2: Elem :: (KeyBytes(e) == KeyBytes(e2)) == (DataEqual(e, e2) != CompareInequal)
  {
    forall e2: Elem
      ensures (KeyBytes(e) == KeyBytes(e2)) == (DataEqual(e, e2) != CompareInequal)
    {
      KeyBytesInjective(e, e2);
    }
  }

  // ---------------------------------------------------------------------
  // The port loop as written

  /**
   * The ports the loop `for (port = min; port >= min && port <= max; port++)`
   * visits on a uint16_t counter, within `fuel` turns, from `port` on.
   */
  function PortLoopAsWritten(lo: U16, hi: U16, port: U16, fuel: nat): (ps: seq<U16>)
    ensures |ps| <= fuel
    ensures forall k :: 0 <= k < |ps| ==> lo <= ps[k] <= hi
    decreases fuel
  {
    if fuel == 0 || !(port >= lo && port <= hi) then []
    else [port] + PortLoopAsWritten(lo, hi, Inc16(port), fuel - 1)
  }

  /** For min_port 0 and max_port 65535 the guard always holds: the loop never stops on its own. */
  lemma {:induction false} PortLoopAsWrittenNeverExits(port: U16, fuel: nat)
    ensures |PortLoopAsWritten(0, 0xFFFF, port, fuel)| == fuel
    decreases fuel
  {
    if fuel > 0 {
      PortLoopAsWrittenNeverExits(Inc16(port), fuel - 1);
    }
  }

  /** With every adtfn call succeeding, the full port range is revisited from port 0 after 65535. */
  lemma PortLoopAsWrittenRevisits()
    ensures var v := PortLoopAsWritten(0, 0xFFFF, 0, 0x1_0001);
      |v| == 0x1_0001 > |Ports(0, 0xFFFF)| && v[0] == 0 && v[0x1_0000] == 0
  {
    PortLoopAsWrittenNeverExits(0, 0x1_0001);
    PortLoopAsWrittenAt(0, 0xFFFF, 0x1_0001, 0x1_0000);
  }

  /** Turn k of the full-range loop from 0 visits port k mod 2^16. */
  lemma {:induction false} PortLoopAsWrittenAt(port: U16, hi: U16, fuel: nat, k: nat)
    requires hi == 0xFFFF && k < fuel
    ensures |PortLoopAsWritten(0, hi, port, fuel)| == fuel
    ensures PortLoopAsWritten(0, hi, port, fuel)[k] == (port + k) % 0x1_0000
    decreases k
  {
    PortLoopAsWrittenNeverExits(port, fuel);
    if k > 0 {
      PortLoopAsWrittenAt(Inc16(port), hi, fuel - 1, k - 1);
    }
  }

  /** Everywhere else the loop as written visits exactly min_port..max_port, as the wide counter does. */
  lemma {:induction false} PortLoopAsWrittenAgrees(lo: U16, hi: U16, port: U16, fuel: nat)
    requires lo > 0 || hi < 0xFFFF
    requires lo <= port && fuel > hi - port
    ensures PortLoopAsWritten(lo, hi, port, fuel) == Ports(port, hi)
    decreases fuel
  {
    if port <= hi {
      if port < hi {
        PortLoopAsWrittenAgrees(lo, hi, port + 1, fuel - 1);
        assert Ports(port, hi) == [port] + Ports(port + 1, hi);
      } else {
        assert Ports(port, hi) == [port];
      }
    }
  }
}
