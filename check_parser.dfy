/**
 * Value validation in keepalived's checker configuration handlers: each
 * handler reads the tokens of one configuration line and updates the
 * virtual server (or its last real server) currently being parsed.
 *
 * The token readers (read_unsigned_strvec, inet_aton, atoi) are external:
 * their results are parameters.  `number` is the unsigned value a token
 * spells (None when it is not a number); read_unsigned_strvec succeeds iff
 * that value lies in the handler's [min, max].  report_config_error is
 * logging: it is modelled by the `error` out-parameter.
 *
 * Build configuration: _HAVE_IPVS_TUN_TYPE_, _HAVE_IPVS_TUN_CSUM_,
 * _HAVE_IPVS_TUN_GRE_ and LIBIPVS_USE_NL are all defined.
 */
module CheckParser {
  import opened Inet

  const ESTABLISH_TIMEOUT_MAX: int := 3600
  const ESTABLISH_TIMEOUT_MIN: int := 1

  /** keepalived's default persistence timeout (6 minutes). */
  const IPVS_SVC_PERSISTENT_TIMEOUT: U32 := 360

  /** sizeof(vs->sched): IP_VS_SCHEDNAME_MAXLEN. */
  const SCHED_MAX_LENGTH: nat := 16

  /** The schedulers lbalgo_handler accepts, in table order. */
  const LVS_SCHEDULERS: seq<string> :=
    ["rr", "wrr", "lc", "wlc", "lblc", "sh", "mh", "dh", "fo", "ovf", "lblcr", "sed", "nq", "conhash"]

  /** Forwarding methods (IP_VS_CONN_F_*). */
  const IP_VS_CONN_F_MASQ: int := 0
  const IP_VS_CONN_F_TUNNEL: int := 2
  const IP_VS_CONN_F_DROUTE: int := 3
  const IP_VS_CONN_F_FULLNAT: int := 5
  const IP_VS_CONN_F_SNAT: int := 6

  /** Tunnel types and encapsulation checksum flags. */
  const IP_VS_CONN_F_TUNNEL_TYPE_IPIP: int := 0
  const IP_VS_CONN_F_TUNNEL_TYPE_GUE: int := 1
  const IP_VS_CONN_F_TUNNEL_TYPE_GRE: int := 2
  const IP_VS_TUNNEL_ENCAP_FLAG_NOCSUM: int := 0
  const IP_VS_TUNNEL_ENCAP_FLAG_CSUM: int := 1
  const IP_VS_TUNNEL_ENCAP_FLAG_REMCSUM: int := 2

  /** The success condition of read_unsigned_strvec(..., min, max, ...). */
  predicate InRange(v: Option<int>, lo: int, hi: int)
  {
    v.Some? && lo <= v.value <= hi
  }

  // ---------------------------------------------------------------- records

  datatype RsState = RsState(weight: int, iweight: int, forwardingMethod: int,
                             tunType: int, tunPort: int, tunFlags: int)

  /** A real server; its address family is fixed when it is allocated. */
  class RealServer {
    const family: int
    var weight: int
    var iweight: int
    var forwardingMethod: int
    var tunType: int
    var tunPort: int
    var tunFlags: int

    function State(): RsState
      reads this
    {
      RsState(weight, iweight, forwardingMethod, tunType, tunPort, tunFlags)
    }
  }

  datatype VsState = VsState(af: int, sched: string, serviceType: int, granularity: int,
                             persistenceTimeout: int, connTimeout: int, quorum: int,
                             sorryServer: Option<RealServer>, realServers: seq<RealServer>)

  /** A virtual server: the record the handlers write (the tail of check_data->vs). */
  class VirtualServer {
    var af: int
    var sched: string
    var serviceType: int
    var persistenceGranularity: int
    var persistenceTimeout: int
    var connTimeout: int
    var quorum: int
    var sorryServer: Option<RealServer>
    var realServers: seq<RealServer>

    function State(): VsState
      reads this
    {
      VsState(af, sched, serviceType, persistenceGranularity, persistenceTimeout,
              connTimeout, quorum, sorryServer, realServers)
    }
  }

  // ------------------------------------------------- IPv4 netmask solidity

  /** The host-order netmask of prefix length n: n one bits, then zeros. */
  function PrefixMask(n: nat): (r: int)
    requires n <= 32
    ensures 0 <= r < 0x1_0000_0000
  {
    Pow2Monotone(32 - n, 32);
    Pow2Values();
    0x1_0000_0000 - Pow2(32 - n)
  }

  /** A solid netmask: a run of ones followed by a run of zeros. */
  ghost predicate IsSolidMask(m: U32)
  {
    exists n :: 0 <= n <= 32 && m == PrefixMask(n)
  }

  lemma SolidMaskBounds()
    ensures IsSolidMask(0)
    ensures IsSolidMask(0xFFFF_FFFF)
    ensures IsSolidMask(0xFFFF_FF00)
  {
    Pow2Values();
    assert PrefixMask(0) == 0;
    assert PrefixMask(32) == 0xFFFF_FFFF;
    assert Pow2(8) == 0x100;
    assert PrefixMask(24) == 0xFFFF_FF00;
  }

  /** a * 2^s, by doubling (kept free of non-linear arithmetic). */
  function Shl(a: nat, s: nat): nat
  {
    if s == 0 then a else 2 * Shl(a, s - 1)
  }

  lemma {:induction false} ShlDouble(a: nat, s: nat)
    ensures Shl(2 * a, s) == 2 * Shl(a, s)
  {
    if s > 0 {
      ShlDouble(a, s - 1);
    }
  }

  lemma {:induction false} ShlAtLeast(a: nat, s: nat)
    ensures Shl(a, s) >= a
  {
    if s > 0 {
      ShlAtLeast(a, s - 1);
    }
  }

  /** (2^m - 1) * 2^s is the mask of m ones followed by s zeros. */
  lemma {:induction false} ShlOnes(m: nat, s: nat)
    ensures Shl(Pow2(m) - 1, s) == Pow2(m + s) - Pow2(s)
  {
    if s > 0 {
      ShlOnes(m, s - 1);
      assert Pow2(m + s) == 2 * Pow2(m + s - 1);
    }
  }

  /** An odd number times a power of two determines both. */
  lemma {:induction false} OddTimesPow2Unique(a: nat, s: nat, b: nat, k: nat)
    requires a % 2 == 1 && b % 2 == 1
    requires Shl(a, s) == Shl(b, k)
    ensures s == k && a == b
    decreases s + k
  {
    if s > 0 && k > 0 {
      OddTimesPow2Unique(a, s - 1, b, k - 1);
    } else if s > 0 || k > 0 {
      assert false;
    }
  }

  lemma DoubleMinusOneOdd(y: int)
    ensures (2 * y - 1) % 2 == 1
  {
  }

  /** A nonzero solid mask of prefix n is 2^(32-n) times an odd number. */
  lemma PrefixMaskFactor(n: nat)
    requires 1 <= n <= 32
    ensures PrefixMask(n) == Shl(Pow2(n) - 1, 32 - n)
    ensures (Pow2(n) - 1) % 2 == 1
  {
    ShlOnes(n, 32 - n);
    var whole := n + (32 - n);
    assert whole == 32;
    Pow2Values();
    assert Pow2(n) == 2 * Pow2(n - 1);
    DoubleMinusOneOdd(Pow2(n - 1));
  }

  /** One turn of the solidity loop: an even haddr = q + 2^32 - 2^(32-t) shifts to q/2, t+1. */
  lemma SolidStep(mask: int, q: nat, t: nat, haddr: int)
    requires t <= 32 && mask == Shl(q, t) && q < Pow2(32 - t)
    requires haddr == q + 0x1_0000_0000 - Pow2(32 - t) && haddr % 2 == 0
    ensures t < 32
    ensures mask == Shl(q / 2, t + 1) && q / 2 < Pow2(32 - (t + 1))
    ensures haddr / 2 + 0x8000_0000 == q / 2 + 0x1_0000_0000 - Pow2(32 - (t + 1))
  {
    if t == 32 {
      assert false;
    }
    assert Pow2(32 - t) == 2 * Pow2(32 - (t + 1));
    ShlDouble(q / 2, t);
    assert q == 2 * (q / 2);
  }

  /**
   * The loop of pgr_handler that shifts ones in from the top until the low
   * bit is set; the mask is solid iff the result is all ones.  `steps`
   * counts the iterations.
   */
  method NetmaskIsSolid(mask: U32) returns (solid: bool, steps: nat)
    ensures steps <= 32
    ensures solid <==> IsSolidMask(mask)
  {
    var haddr: U32 := mask;
    steps := 0;
    ghost var q: nat := mask;
    assert haddr == q + 0x1_0000_0000 - Pow2(32 - steps) by {
      Pow2Values();
    }
    while haddr % 2 == 0
      invariant steps <= 32
      invariant mask == Shl(q, steps) && q < Pow2(32 - steps)
      invariant haddr == q + 0x1_0000_0000 - Pow2(32 - steps)
      decreases 32 - steps
    {
      SolidStep(mask, q, steps, haddr);
      haddr := haddr / 2 + 0x8000_0000;
      q := q / 2;
      steps := steps + 1;
    }
    SolidAtExit(mask, q, steps, haddr);
    solid := haddr == 0xFFFF_FFFF;
  }

  lemma PrefixMaskZero()
    ensures PrefixMask(0) == 0
  {
    Pow2Values();
  }

  /** Where the loop stops: all ones iff the mask is solid. */
  lemma SolidAtExit(mask: U32, q: nat, t: nat, haddr: int)
    requires t <= 32 && mask == Shl(q, t) && q < Pow2(32 - t)
    requires haddr == q + 0x1_0000_0000 - Pow2(32 - t) && haddr % 2 == 1
    ensures haddr == 0xFFFF_FFFF <==> IsSolidMask(mask)
  {
    if t == 32 {
      assert q == 0 && haddr == 0xFFFF_FFFF;
      ShlDouble(0, 32);
      PrefixMaskZero();
      assert mask == PrefixMask(0);
    } else {
      assert Pow2(32 - t) == 2 * Pow2(31 - t);
      assert q % 2 == 1;
      if haddr == 0xFFFF_FFFF {
        assert q == Pow2(32 - t) - 1;
        ExitAllOnes(mask, q, t);
      } else if IsSolidMask(mask) {
        ExitSolid(mask, q, t);
        assert false;
      }
    }
  }

  lemma ExitAllOnes(mask: U32, q: nat, t: nat)
    requires t < 32 && mask == Shl(q, t) && q == Pow2(32 - t) - 1
    ensures IsSolidMask(mask)
  {
    ShlOnes(32 - t, t);
    Pow2Values();
    assert mask == PrefixMask(32 - t);
  }

  lemma ExitSolid(mask: U32, q: nat, t: nat)
    requires t < 32 && mask == Shl(q, t) && q % 2 == 1
    requires IsSolidMask(mask)
    ensures q == Pow2(32 - t) - 1
  {
    ShlAtLeast(q, t);
    PrefixMaskZero();
    var n :| 0 <= n <= 32 && mask == PrefixMask(n);
    ExitPrefix(mask, q, t, n);
  }

  lemma ExitPrefix(mask: U32, q: nat, t: nat, n: nat)
    requires t < 32 && mask == Shl(q, t) && q % 2 == 1
    requires 1 <= n <= 32 && mask == PrefixMask(n)
    ensures q == Pow2(32 - t) - 1
  {
    PrefixMaskFactor(n);
    OddTimesPow2Unique(q, t, Pow2(n) - 1, 32 - n);
  }

  // ------------------------------------------------------------ pgr_handler

  /** The family pgr_handler works with: the server's, or guessed from a '.'. */
  function PgrFamily(af: int, token: string): (r: int)
    ensures af != AF_UNSPEC ==> r == af
    ensures af == AF_UNSPEC ==> (r == AF_INET <==> '.' in token) && (r == AF_INET6 <==> '.' !in token)
  {
    if af != AF_UNSPEC then af else if '.' in token then AF_INET else AF_INET6
  }

  /** The granularity pgr_handler accepts, or None when it rejects the token. */
  ghost function PgrGranularity(af: int, token: string, number: Option<int>, ipv4: Option<U32>): Option<int>
  {
    if PgrFamily(af, token) == AF_INET6 then
      if InRange(number, 1, 128) then Some(number.value) else None
    else
      if ipv4.Some? && IsSolidMask(ipv4.value) then Some(ipv4.value) else None
  }

  lemma PgrGranularityBounds(af: int, token: string, number: Option<int>, ipv4: Option<U32>)
    ensures PgrFamily(af, token) == AF_INET6 ==>
              (PgrGranularity(af, token, number, ipv4).Some? <==> InRange(number, 1, 128))
    ensures PgrFamily(af, token) != AF_INET6 ==>
              (PgrGranularity(af, token, number, ipv4).Some? <==> ipv4.Some? && IsSolidMask(ipv4.value))
    ensures af == AF_UNSPEC && '.' in token && ipv4 == Some(0xFFFF_FFFF) ==>
              PgrGranularity(af, token, number, ipv4) == Some(0xFFFF_FFFF)
  {
    SolidMaskBounds();
  }

  /**
   * persistence_granularity: an IPv6 prefix length in 1..128 or a solid IPv4
   * netmask (host order).  The server's family is set only if it was unset,
   * the persistence timeout is defaulted only if it was zero, and a rejected
   * token changes nothing.
   */
  method PgrHandler(vs: VirtualServer, token: string, number: Option<int>, ipv4: Option<U32>)
    returns (error: bool)
    modifies vs
    ensures var g := PgrGranularity(old(vs.af), token, number, ipv4);
      error == g.None? &&
      vs.State() == if g.None? then old(vs.State()) else
        old(vs.State()).(granularity := g.value,
                         af := PgrFamily(old(vs.af), token),
                         persistenceTimeout := if old(vs.persistenceTimeout) == 0 then IPVS_SVC_PERSISTENT_TIMEOUT
                                               else old(vs.persistenceTimeout))
  {
    var af := vs.af;
    if af == AF_UNSPEC {
      af := if '.' in token then AF_INET else AF_INET6;
    }
    var granularity: int;
    if af == AF_INET6 {
      if !(number.Some? && 1 <= number.value <= 128) {
        return true;
      }
      granularity := number.value;
    } else {
      if ipv4.None? {
        return true;
      }
      var solid, _ := NetmaskIsSolid(ipv4.value);
      if !solid {
        return true;
      }
      granularity := ipv4.value;
    }
    vs.persistenceGranularity := granularity;
    if vs.af == AF_UNSPEC {
      vs.af := af;
    }
    if vs.persistenceTimeout == 0 {
      vs.persistenceTimeout := IPVS_SVC_PERSISTENT_TIMEOUT;
    }
    error := false;
  }

  // ---------------------------------------------- establish_timeout_handler

  /** The stored establish timeout: atoi's value clamped to [1, 3600]. */
  function EstablishTimeout(n: int): (r: int)
    ensures ESTABLISH_TIMEOUT_MIN <= r <= ESTABLISH_TIMEOUT_MAX
    ensures ESTABLISH_TIMEOUT_MIN <= n <= ESTABLISH_TIMEOUT_MAX ==> r == n
    ensures n > ESTABLISH_TIMEOUT_MAX ==> r == ESTABLISH_TIMEOUT_MAX
    ensures n < ESTABLISH_TIMEOUT_MIN ==> r == ESTABLISH_TIMEOUT_MIN
  {
    if n > ESTABLISH_TIMEOUT_MAX then ESTABLISH_TIMEOUT_MAX
    else if n < ESTABLISH_TIMEOUT_MIN then ESTABLISH_TIMEOUT_MIN
    else n
  }

  lemma EstablishTimeoutIdempotentMonotone(a: int, b: int)
    ensures EstablishTimeout(EstablishTimeout(a)) == EstablishTimeout(a)
    ensures a <= b ==> EstablishTimeout(a) <= EstablishTimeout(b)
  {
  }

  method EstablishTimeoutHandler(vs: VirtualServer, atoiValue: int)
    modifies vs
    ensures vs.State() == old(vs.State()).(connTimeout := EstablishTimeout(atoiValue))
  {
    var connTimeout := atoiValue;
    if connTimeout > ESTABLISH_TIMEOUT_MAX {
      connTimeout := ESTABLISH_TIMEOUT_MAX;
    }
    if connTimeout < ESTABLISH_TIMEOUT_MIN {
      connTimeout := ESTABLISH_TIMEOUT_MIN;
    }
    vs.connTimeout := connTimeout;
  }

  // --------------------------------------------------------- lbalgo_handler

  /** Every scheduler in the table fits the sched buffer with its NUL. */
  lemma SchedulerNamesFit()
    ensures forall s :: s in LVS_SCHEDULERS ==> |s| < SCHED_MAX_LENGTH
  {
  }

  /** The scheduler is replaced only by a listed name that fits the buffer. */
  method LbalgoHandler(vs: VirtualServer, name: string) returns (error: bool)
    modifies vs
    ensures error <==> name !in LVS_SCHEDULERS
    ensures vs.State() == if error then old(vs.State()) else old(vs.State()).(sched := name)
  {
    var i := 0;
    while i < |LVS_SCHEDULERS| && name != LVS_SCHEDULERS[i]
      invariant 0 <= i <= |LVS_SCHEDULERS|
      invariant forall j :: 0 <= j < i ==> LVS_SCHEDULERS[j] != name
    {
      i := i + 1;
    }
    SchedulerNamesFit();
    if i == |LVS_SCHEDULERS| || |name| >= SCHED_MAX_LENGTH {
      return true;
    }
    vs.sched := name;
    error := false;
  }

  // ------------------------------------------------- svr_forwarding_handler

  /** The forwarding method a lb_kind name selects. */
  function ForwardingMethodOf(name: string): (r: Option<int>)
    ensures r.Some? <==> name in ["NAT", "DR", "TUN", "FNAT", "SNAT"]
    ensures name == "NAT" ==> r == Some(IP_VS_CONN_F_MASQ)
    ensures name == "DR" ==> r == Some(IP_VS_CONN_F_DROUTE)
    ensures name == "TUN" ==> r == Some(IP_VS_CONN_F_TUNNEL)
    ensures name == "FNAT" ==> r == Some(IP_VS_CONN_F_FULLNAT)
    ensures name == "SNAT" ==> r == Some(IP_VS_CONN_F_SNAT)
    ensures r.Some? ==> r.value in {IP_VS_CONN_F_MASQ, IP_VS_CONN_F_DROUTE, IP_VS_CONN_F_TUNNEL,
                                    IP_VS_CONN_F_FULLNAT, IP_VS_CONN_F_SNAT}
  {
    if name == "NAT" then Some(IP_VS_CONN_F_MASQ)
    else if name == "DR" then Some(IP_VS_CONN_F_DROUTE)
    else if name == "TUN" then Some(IP_VS_CONN_F_TUNNEL)
    else if name == "FNAT" then Some(IP_VS_CONN_F_FULLNAT)
    else if name == "SNAT" then Some(IP_VS_CONN_F_SNAT)
    else None
  }

  function TunnelTypeOf(name: string): Option<int>
  {
    if name == "ipip" then Some(IP_VS_CONN_F_TUNNEL_TYPE_IPIP)
    else if name == "gue" then Some(IP_VS_CONN_F_TUNNEL_TYPE_GUE)
    else if name == "gre" then Some(IP_VS_CONN_F_TUNNEL_TYPE_GRE)
    else None
  }

  function CsumOf(name: string): Option<int>
  {
    if name == "nocsum" then Some(IP_VS_TUNNEL_ENCAP_FLAG_NOCSUM)
    else if name == "csum" then Some(IP_VS_TUNNEL_ENCAP_FLAG_CSUM)
    else if name == "remcsum" then Some(IP_VS_TUNNEL_ENCAP_FLAG_REMCSUM)
    else None
  }

  datatype Tunnel = Tunnel(tunType: int, port: int, csum: int)

  const TUNNEL_DEFAULT: Tunnel := Tunnel(IP_VS_CONN_F_TUNNEL_TYPE_IPIP, 0, IP_VS_TUNNEL_ENCAP_FLAG_NOCSUM)

  /**
   * Reference reading of the tunnel options from token i on: "type" and
   * "port" take the next token, the checksum words stand alone, anything
   * else (or a missing argument) is an error.
   */
  function ScanOptions(strvec: seq<string>, i: nat, t: Tunnel, number: string -> Option<int>): Option<Tunnel>
    decreases |strvec| - i
  {
    if i >= |strvec| then Some(t)
    else if strvec[i] == "type" then
      if i + 1 == |strvec| then None
      else match TunnelTypeOf(strvec[i + 1])
        case None => None
        case Some(ty) => ScanOptions(strvec, i + 2, t.(tunType := ty), number)
    else if strvec[i] == "port" then
      if i + 1 == |strvec| || !InRange(number(strvec[i + 1]), 1, 65535) then None
      else ScanOptions(strvec, i + 2, t.(port := number(strvec[i + 1]).value), number)
    else match CsumOf(strvec[i])
      case None => None
      case Some(c) => ScanOptions(strvec, i + 1, t.(csum := c), number)
  }

  /** The combinations the handler accepts once the options are read. */
  predicate TunnelConsistent(t: Tunnel)
  {
    && ((t.tunType == IP_VS_CONN_F_TUNNEL_TYPE_GUE) == (t.port != 0))
    && (t.tunType == IP_VS_CONN_F_TUNNEL_TYPE_IPIP ==> t.csum == IP_VS_TUNNEL_ENCAP_FLAG_NOCSUM)
    && (t.tunType == IP_VS_CONN_F_TUNNEL_TYPE_GRE ==> t.csum != IP_VS_TUNNEL_ENCAP_FLAG_REMCSUM)
  }

  /** The tunnel settings a forwarding line stores, or None when it is rejected. */
  function TunnelSettings(strvec: seq<string>, number: string -> Option<int>): Option<Tunnel>
  {
    match ScanOptions(strvec, 2, TUNNEL_DEFAULT, number)
      case None => None
      case Some(t) => if TunnelConsistent(t) then Some(t) else None
  }

  /** Every scanned value is one a known option names, or the starting one. */
  lemma {:induction false} ScanOptionsValues(strvec: seq<string>, i: nat, t: Tunnel, number: string -> Option<int>)
    requires ScanOptions(strvec, i, t, number).Some?
    ensures var u := ScanOptions(strvec, i, t, number).value;
      && (u.port == t.port || 1 <= u.port <= 65535)
      && (u.tunType == t.tunType || u.tunType in {IP_VS_CONN_F_TUNNEL_TYPE_IPIP, IP_VS_CONN_F_TUNNEL_TYPE_GUE, IP_VS_CONN_F_TUNNEL_TYPE_GRE})
      && (u.csum == t.csum || u.csum in {IP_VS_TUNNEL_ENCAP_FLAG_NOCSUM, IP_VS_TUNNEL_ENCAP_FLAG_CSUM, IP_VS_TUNNEL_ENCAP_FLAG_REMCSUM})
    decreases |strvec| - i
  {
    if i < |strvec| {
      if strvec[i] == "type" {
        ScanOptionsValues(strvec, i + 2, t.(tunType := TunnelTypeOf(strvec[i + 1]).value), number);
      } else if strvec[i] == "port" {
        ScanOptionsValues(strvec, i + 2, t.(port := number(strvec[i + 1]).value), number);
      } else {
        ScanOptionsValues(strvec, i + 1, t.(csum := CsumOf(strvec[i]).value), number);
      }
    }
  }

  /** Stored settings: a gue tunnel has a port in 1..65535, no other type has one. */
  lemma TunnelSettingsValid(strvec: seq<string>, number: string -> Option<int>)
    requires TunnelSettings(strvec, number).Some?
    ensures var u := TunnelSettings(strvec, number).value;
      && TunnelConsistent(u)
      && (u.tunType == IP_VS_CONN_F_TUNNEL_TYPE_GUE <==> 1 <= u.port <= 65535)
      && (u.tunType != IP_VS_CONN_F_TUNNEL_TYPE_GUE <==> u.port == 0)
      && u.tunType in {IP_VS_CONN_F_TUNNEL_TYPE_IPIP, IP_VS_CONN_F_TUNNEL_TYPE_GUE, IP_VS_CONN_F_TUNNEL_TYPE_GRE}
  {
    ScanOptionsValues(strvec, 2, TUNNEL_DEFAULT, number);
  }

  /** A tunnel line without options keeps the ipip defaults. */
  lemma TunnelSettingsExamples(number: string -> Option<int>)
    requires number("6080") == Some(6080)
    ensures TunnelSettings(["lb_kind", "TUN"], number) == Some(TUNNEL_DEFAULT)
    ensures TunnelSettings(["lb_kind", "TUN", "type", "gue", "port", "6080"], number)
            == Some(Tunnel(IP_VS_CONN_F_TUNNEL_TYPE_GUE, 6080, IP_VS_TUNNEL_ENCAP_FLAG_NOCSUM))
    ensures TunnelSettings(["lb_kind", "TUN", "type", "gue"], number) == None
    ensures TunnelSettings(["lb_kind", "TUN", "csum"], number) == None
  {
    var s := ["lb_kind", "TUN", "type", "gue", "port", "6080"];
    assert ScanOptions(s, 6, Tunnel(IP_VS_CONN_F_TUNNEL_TYPE_GUE, 6080, 0), number).Some?;
    assert ScanOptions(s, 4, Tunnel(IP_VS_CONN_F_TUNNEL_TYPE_GUE, 0, 0), number)
      == Some(Tunnel(IP_VS_CONN_F_TUNNEL_TYPE_GUE, 6080, 0));
    var g := ["lb_kind", "TUN", "type", "gue"];
    assert ScanOptions(g, 4, Tunnel(IP_VS_CONN_F_TUNNEL_TYPE_GUE, 0, 0), number).Some?;
    var c := ["lb_kind", "TUN", "csum"];
    assert ScanOptions(c, 3, Tunnel(0, 0, IP_VS_TUNNEL_ENCAP_FLAG_CSUM), number).Some?;
  }

  /**
   * lb_kind for a real server: a known method is stored before any tunnel
   * option is looked at; the tunnel fields are written only when every
   * option is valid and consistent.  An unknown method changes nothing.
   */
  method SvrForwardingHandler(rs: RealServer, strvec: seq<string>, number: string -> Option<int>)
    returns (error: bool)
    requires |strvec| >= 2
    modifies rs
    ensures ForwardingMethodOf(strvec[1]).None? ==> error && rs.State() == old(rs.State())
    ensures ForwardingMethodOf(strvec[1]).Some? ==>
      var m := ForwardingMethodOf(strvec[1]).value;
      var s := TunnelSettings(strvec, number);
      error == s.None? &&
      rs.State() == if s.None? then old(rs.State()).(forwardingMethod := m)
                    else old(rs.State()).(forwardingMethod := m, tunType := s.value.tunType,
                                          tunPort := s.value.port, tunFlags := s.value.csum)
  {
    var str := strvec[1];
    if str == "NAT" {
      rs.forwardingMethod := IP_VS_CONN_F_MASQ;
    } else if str == "DR" {
      rs.forwardingMethod := IP_VS_CONN_F_DROUTE;
    } else if str == "TUN" {
      rs.forwardingMethod := IP_VS_CONN_F_TUNNEL;
    } else if str == "FNAT" {
      rs.forwardingMethod := IP_VS_CONN_F_FULLNAT;
    } else if str == "SNAT" {
      rs.forwardingMethod := IP_VS_CONN_F_SNAT;
    } else {
      return true;
    }
    var tunType := IP_VS_CONN_F_TUNNEL_TYPE_IPIP;
    var port := 0;
    var csum := IP_VS_TUNNEL_ENCAP_FLAG_NOCSUM;
    var i := 2;
    while i < |strvec|
      invariant 2 <= i <= |strvec|
      invariant rs.State() == old(rs.State()).(forwardingMethod := ForwardingMethodOf(strvec[1]).value)
      invariant ScanOptions(strvec, 2, TUNNEL_DEFAULT, number) == ScanOptions(strvec, i, Tunnel(tunType, port, csum), number)
      decreases |strvec| - i
    {
      if strvec[i] == "type" {
        if |strvec| == i + 1 {
          return true;
        }
        if strvec[i + 1] == "ipip" {
          tunType := IP_VS_CONN_F_TUNNEL_TYPE_IPIP;
        } else if strvec[i + 1] == "gue" {
          tunType := IP_VS_CONN_F_TUNNEL_TYPE_GUE;
        } else if strvec[i + 1] == "gre" {
          tunType := IP_VS_CONN_F_TUNNEL_TYPE_GRE;
        } else {
          return true;
        }
        i := i + 1;
      } else if strvec[i] == "port" {
        if |strvec| == i + 1 {
          return true;
        }
        var v := number(strvec[i + 1]);
        if !(v.Some? && 1 <= v.value <= 65535) {
          return true;
        }
        port := v.value;
        i := i + 1;
      } else if strvec[i] == "nocsum" {
        csum := IP_VS_TUNNEL_ENCAP_FLAG_NOCSUM;
      } else if strvec[i] == "csum" {
        csum := IP_VS_TUNNEL_ENCAP_FLAG_CSUM;
      } else if strvec[i] == "remcsum" {
        csum := IP_VS_TUNNEL_ENCAP_FLAG_REMCSUM;
      } else {
        return true;
      }
      i := i + 1;
    }
    if (tunType == IP_VS_CONN_F_TUNNEL_TYPE_GUE) != (port != 0) {
      return true;
    }
    if tunType == IP_VS_CONN_F_TUNNEL_TYPE_IPIP && csum != IP_VS_TUNNEL_ENCAP_FLAG_NOCSUM {
      return true;
    }
    if tunType == IP_VS_CONN_F_TUNNEL_TYPE_GRE && csum == IP_VS_TUNNEL_ENCAP_FLAG_REMCSUM {
      return true;
    }
    rs.tunType := tunType;
    rs.tunPort := port;
    rs.tunFlags := csum;
    error := false;
  }

  // ------------------------------------------------------ ip_family_handler

  function FamilyOf(name: string): (r: Option<int>)
    ensures r.Some? <==> name == "inet" || name == "inet6"
    ensures r.Some? ==> r.value != AF_UNSPEC
  {
    if name == "inet" then Some(AF_INET)
    else if name == "inet6" then Some(AF_INET6)
    else None
  }

  /** The family after an ip_family line: a set family is never replaced by another. */
  function FamilyAfter(af: int, name: string): (r: int)
    ensures r == af || (af == AF_UNSPEC && FamilyOf(name) == Some(r))
    ensures af != AF_UNSPEC ==> r == af
    ensures af == AF_UNSPEC && FamilyOf(name).Some? ==> r == FamilyOf(name).value
  {
    match FamilyOf(name)
      case None => af
      case Some(f) => if af != AF_UNSPEC && f != af then af else f
  }

  lemma FamilyAfterIdempotent(af: int, name: string, other: string)
    ensures FamilyAfter(FamilyAfter(af, name), name) == FamilyAfter(af, name)
    ensures FamilyOf(name).Some? ==> FamilyAfter(FamilyAfter(af, name), other) == FamilyAfter(af, name)
  {
  }

  method IpFamilyHandler(vs: VirtualServer, name: string) returns (error: bool)
    modifies vs
    ensures error <==> FamilyOf(name).None? || (old(vs.af) != AF_UNSPEC && FamilyOf(name).value != old(vs.af))
    ensures vs.State() == old(vs.State()).(af := FamilyAfter(old(vs.af), name))
  {
    var af;
    if name == "inet" {
      af := AF_INET;
    } else if name == "inet6" {
      af := AF_INET6;
    } else {
      return true;
    }
    if vs.af != AF_UNSPEC && af != vs.af {
      return true;
    }
    vs.af := af;
    error := false;
  }

  // ---------------------------------------------------------- proto_handler

  /** tolower in the C locale. */
  function Lower(c: char): char
  {
    if 'A' <= c <= 'Z' then (c as int + 32) as char else c
  }

  /** strcasecmp(a, b) == 0. */
  predicate CaseEq(a: string, b: string)
  {
    |a| == |b| && forall i :: 0 <= i < |a| ==> Lower(a[i]) == Lower(b[i])
  }

  /** Names equal up to case start with the same letter, up to case. */
  lemma CaseEqHead(name: string, a: string)
    requires |a| > 0
    ensures CaseEq(name, a) ==> |name| > 0 && Lower(name[0]) == Lower(a[0])
  {
  }

  /**
   * The protocol a `protocol` keyword names: exactly TCP, SCTP, UDP, ICMP
   * and ICMPV6 are recognised, in any letter case.
   */
  function ProtocolOf(name: string): (r: Option<U8>)
    ensures r.Some? <==> CaseEq(name, "TCP") || CaseEq(name, "SCTP") || CaseEq(name, "UDP") ||
                         CaseEq(name, "ICMP") || CaseEq(name, "ICMPV6")
    ensures CaseEq(name, "TCP") ==> r == Some(IPPROTO_TCP)
    ensures CaseEq(name, "SCTP") ==> r == Some(IPPROTO_SCTP)
    ensures CaseEq(name, "UDP") ==> r == Some(IPPROTO_UDP)
    ensures CaseEq(name, "ICMP") ==> r == Some(IPPROTO_ICMP)
    ensures CaseEq(name, "ICMPV6") ==> r == Some(IPPROTO_ICMPV6)
    ensures r.Some? ==> r.value in {IPPROTO_TCP, IPPROTO_SCTP, IPPROTO_UDP, IPPROTO_ICMP, IPPROTO_ICMPV6}
  {
    CaseEqHead(name, "TCP");
    CaseEqHead(name, "SCTP");
    CaseEqHead(name, "UDP");
    CaseEqHead(name, "ICMP");
    if CaseEq(name, "TCP") then Some(IPPROTO_TCP)
    else if CaseEq(name, "SCTP") then Some(IPPROTO_SCTP)
    else if CaseEq(name, "UDP") then Some(IPPROTO_UDP)
    else if CaseEq(name, "ICMP") then Some(IPPROTO_ICMP)
    else if CaseEq(name, "ICMPV6") then Some(IPPROTO_ICMPV6)
    else None
  }

  /** Names that differ only in letter case map to the same protocol. */
  lemma ProtocolOfIgnoresCase(a: string, b: string)
    requires CaseEq(a, b)
    ensures ProtocolOf(a) == ProtocolOf(b)
  {
    forall t | |t| == |a|
      ensures CaseEq(a, t) <==> CaseEq(b, t)
    {
      if CaseEq(a, t) {
        assert forall i :: 0 <= i < |b| ==> Lower(b[i]) == Lower(t[i]) by {
          forall i | 0 <= i < |b| ensures Lower(b[i]) == Lower(t[i]) {
            assert Lower(a[i]) == Lower(b[i]);
          }
        }
      }
      if CaseEq(b, t) {
        assert forall i :: 0 <= i < |a| ==> Lower(a[i]) == Lower(t[i]) by {
          forall i | 0 <= i < |a| ensures Lower(a[i]) == Lower(t[i]) {
            assert Lower(a[i]) == Lower(b[i]);
          }
        }
      }
    }
  }

  /** Each of the five protocols is reachable, in any letter case. */
  lemma ProtocolOfExamples()
    ensures ProtocolOf("tcp") == Some(IPPROTO_TCP)
    ensures ProtocolOf("Sctp") == Some(IPPROTO_SCTP)
    ensures ProtocolOf("udp") == Some(IPPROTO_UDP)
    ensures ProtocolOf("ICMP") == Some(IPPROTO_ICMP)
    ensures ProtocolOf("icmpv6") == Some(IPPROTO_ICMPV6)
    ensures ProtocolOf("tcp6") == None
  {
    assert CaseEq("tcp", "TCP");
    assert CaseEq("Sctp", "SCTP");
    assert Lower("udp"[0]) != Lower("TCP"[0]);
    assert CaseEq("udp", "UDP");
    assert Lower("ICMP"[0]) != Lower("SCTP"[0]);
    assert CaseEq("icmpv6", "ICMPV6");
    assert Lower("tcp6"[0]) != Lower("SCTP"[0]);
    assert Lower("tcp6"[0]) != Lower("ICMP"[0]);
  }

  method ProtoHandler(vs: VirtualServer, name: string) returns (error: bool)
    modifies vs
    ensures error <==> ProtocolOf(name).None?
    ensures vs.State() == if error then old(vs.State()) else old(vs.State()).(serviceType := ProtocolOf(name).value)
  {
    error := false;
    if CaseEq(name, "TCP") {
      vs.serviceType := IPPROTO_TCP;
    } else if CaseEq(name, "SCTP") {
      vs.serviceType := IPPROTO_SCTP;
    } else if CaseEq(name, "UDP") {
      vs.serviceType := IPPROTO_UDP;
    } else if CaseEq(name, "ICMP") {
      vs.serviceType := IPPROTO_ICMP;
    } else if CaseEq(name, "ICMPV6") {
      vs.serviceType := IPPROTO_ICMPV6;
    } else {
      error := true;
    }
  }

  // --------------------------------------------------------- vs_end_handler

  function Families(rss: seq<RealServer>): (fs: seq<int>)
    ensures |fs| == |rss| && forall i :: 0 <= i < |rss| ==> fs[i] == rss[i].family
  {
    if rss == [] then [] else [rss[0].family] + Families(rss[1..])
  }

  /** The first family in fs that is not AF_UNSPEC, or AF_UNSPEC. */
  function FirstKnown(fs: seq<int>): int
  {
    if fs == [] then AF_UNSPEC
    else if fs[0] != AF_UNSPEC then fs[0]
    else FirstKnown(fs[1..])
  }

  /** The family the scan holds: start, unless it is AF_UNSPEC. */
  function KnownFrom(start: int, fs: seq<int>): int
  {
    if start != AF_UNSPEC then start else FirstKnown(fs)
  }

  /** One more server: the held family, or that server's when none was held. */
  lemma {:induction false} FirstKnownTakeNext(fs: seq<int>, i: nat)
    requires i < |fs|
    ensures FirstKnown(fs[..i + 1]) == if FirstKnown(fs[..i]) != AF_UNSPEC then FirstKnown(fs[..i]) else fs[i]
  {
    if i > 0 && fs[0] == AF_UNSPEC {
      assert fs[..i + 1][1..] == fs[1..][..i];
      assert fs[..i][1..] == fs[1..][..i - 1];
      FirstKnownTakeNext(fs[1..], i - 1);
    }
  }

  /** Once a family is held, later servers do not change it. */
  lemma {:induction false} FirstKnownTake(fs: seq<int>, i: nat)
    requires i <= |fs| && FirstKnown(fs[..i]) != AF_UNSPEC
    ensures FirstKnown(fs) == FirstKnown(fs[..i])
  {
    assert fs[..i][0] == fs[0];
    if fs[0] == AF_UNSPEC {
      assert fs[..i][1..] == fs[1..][..i - 1];
      FirstKnownTake(fs[1..], i - 1);
    }
  }

  /**
   * Mixed families, in the scan's own terms: some real server meets an
   * already known family (the sorry server's, or an earlier real server's)
   * and differs from it.
   */
  predicate Mixed(start: int, fs: seq<int>)
  {
    exists i :: 0 <= i < |fs| && KnownFrom(start, fs[..i]) != AF_UNSPEC && fs[i] != KnownFrom(start, fs[..i])
  }

  /** The family every later server is compared with is the first known one overall. */
  lemma MixedDiffersFromFirstKnown(start: int, fs: seq<int>)
    ensures Mixed(start, fs) <==>
      exists i :: 0 <= i < |fs| && KnownFrom(start, fs[..i]) != AF_UNSPEC && fs[i] != KnownFrom(start, fs)
  {
    forall i | 0 <= i < |fs| && KnownFrom(start, fs[..i]) != AF_UNSPEC
      ensures KnownFrom(start, fs) == KnownFrom(start, fs[..i])
    {
      if start == AF_UNSPEC {
        FirstKnownTake(fs, i);
      }
    }
  }

  /** With every family known, mixed means: not all equal to the first. */
  lemma MixedWhenAllKnown(start: int, fs: seq<int>)
    requires forall i :: 0 <= i < |fs| ==> fs[i] != AF_UNSPEC
    ensures Mixed(start, fs) <==> exists i :: 0 <= i < |fs| && fs[i] != KnownFrom(start, fs)
  {
    MixedDiffersFromFirstKnown(start, fs);
    if i :| 0 <= i < |fs| && fs[i] != KnownFrom(start, fs) {
      if i > 0 {
        assert fs[..i][0] == fs[0];
      }
    }
  }

  /** The family the scan starts from: the sorry server's, if there is one. */
  function StartFamily(sorry: Option<RealServer>): int
  {
    if sorry.Some? then sorry.value.family else AF_UNSPEC
  }

  /**
   * The end of a virtual_server block: with no family set, the sorry and
   * real servers are scanned for a mixture of families, which is reported.
   * The virtual server itself is not changed.
   */
  method VsEndHandler(vs: VirtualServer) returns (mixedAf: bool)
    ensures mixedAf <==> vs.af == AF_UNSPEC && Mixed(StartFamily(vs.sorryServer), Families(vs.realServers))
  {
    mixedAf := false;
    if vs.af == AF_UNSPEC {
      var af := AF_UNSPEC;
      if vs.sorryServer.Some? {
        af := vs.sorryServer.value.family;
      }
      ghost var start := af;
      ghost var fs := Families(vs.realServers);
      var i := 0;
      while i < |vs.realServers|
        invariant 0 <= i <= |vs.realServers|
        invariant af == KnownFrom(start, fs[..i])
        invariant forall j :: 0 <= j < i ==> !(KnownFrom(start, fs[..j]) != AF_UNSPEC && fs[j] != KnownFrom(start, fs[..j]))
      {
        var f := vs.realServers[i].family;
        FirstKnownTakeNext(fs, i);
        if af == AF_UNSPEC {
          af := f;
        } else if af != f {
          mixedAf := true;
          return;
        }
        i := i + 1;
      }
    }
  }

  // ------------------------------------------------ weight and quorum lines

  /** A real server weight in 0..65535 sets both weight and iweight; otherwise nothing changes. */
  method RsWeightHandler(rs: RealServer, number: Option<int>) returns (error: bool)
    modifies rs
    ensures error <==> !InRange(number, 0, 65535)
    ensures rs.State() == if error then old(rs.State()) else old(rs.State()).(weight := number.value, iweight := number.value)
  {
    if !(number.Some? && 0 <= number.value <= 65535) {
      return true;
    }
    rs.weight := number.value;
    rs.iweight := number.value;
    error := false;
  }

  /** The quorum stored: the given value when it is in [1, UINT_MAX], else 1. */
  function QuorumValue(number: Option<int>): (r: int)
    ensures 1 <= r <= UINT_MAX
    ensures InRange(number, 1, UINT_MAX) ==> r == number.value
    ensures !InRange(number, 1, UINT_MAX) ==> r == 1
  {
    if number.Some? && 1 <= number.value <= UINT_MAX then number.value else 1
  }

  /** A bad quorum is reported and replaced by 1: the quorum is always written. */
  method QuorumHandler(vs: VirtualServer, number: Option<int>) returns (error: bool)
    modifies vs
    ensures error <==> !InRange(number, 1, UINT_MAX)
    ensures vs.State() == old(vs.State()).(quorum := QuorumValue(number))
  {
    var quorum: int;
    if !(number.Some? && 1 <= number.value <= UINT_MAX) {
      error := true;
      quorum := 1;
    } else {
      error := false;
      quorum := number.value;
    }
    vs.quorum := quorum;
  }
}
