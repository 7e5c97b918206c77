/**
 * CIDR blocks over the 32-bit IPv4 address space (prefix notation as in
 * section 3.1 of RFC 4632) and the two prefix helpers the IPv4 ADT driver
 * calls: ip_set_mask_from_to and ip_set_range_to_cidr.
 *
 * Neither helper is part of this model's sources; they are given here as
 * reference definitions. RangeToCidr searches prefix lengths 1 to 31 for the
 * shortest one whose aligned block starting at `from` ends at or before `to`,
 * and falls back to /32, as the kernel ipset helper of that name does.
 */
module Cidr {
  import opened Inet

  /** Number of addresses in a block with prefix length `cidr`. */
  function BlockSize(cidr: nat): nat
    requires cidr <= 32
  {
    Pow2(32 - cidr)
  }

  /** A prefix length the range helpers produce: 1 to 32. */
  type Prefix = c: int | 1 <= c <= 32 witness 32

  datatype Block = Block(addr: U32, cidr: Prefix)

  /** The last address of a block. */
  function Last(b: Block): int
  {
    b.addr + BlockSize(b.cidr) - 1
  }

  /** x is a multiple of 2^n: its n low bits are zero. */
  predicate LowBitsZero(x: int, n: nat)
    decreases n
  {
    n == 0 || (x % 2 == 0 && LowBitsZero(x / 2, n - 1))
  }

  /** x with its n low bits cleared (x & ~(2^n - 1)). */
  function ClearLowBits(x: nat, n: nat): (r: nat)
    ensures LowBitsZero(r, n) && r <= x < r + Pow2(n)
    decreases n
  {
    if n == 0 then x else 2 * ClearLowBits(x / 2, n - 1)
  }

  /** x with its n low bits shifted out (x >> n). */
  function HighBits(x: nat, n: nat): nat
    decreases n
  {
    if n == 0 then x else HighBits(x / 2, n - 1)
  }

  /** Clearing the n low bits keeps every bit above them. */
  lemma {:induction false} ClearLowBitsKeepsHigh(x: nat, n: nat)
    ensures HighBits(ClearLowBits(x, n), n) == HighBits(x, n)
    decreases n
  {
    if n > 0 {
      ClearLowBitsKeepsHigh(x / 2, n - 1);
      assert (2 * ClearLowBits(x / 2, n - 1)) / 2 == ClearLowBits(x / 2, n - 1);
    }
  }

  /** Clearing the same low bits twice clears nothing more. */
  lemma {:induction false} ClearLowBitsIdempotent(x: nat, n: nat)
    ensures ClearLowBits(ClearLowBits(x, n), n) == ClearLowBits(x, n)
    decreases n
  {
    if n > 0 {
      ClearLowBitsIdempotent(x / 2, n - 1);
      assert (2 * ClearLowBits(x / 2, n - 1)) / 2 == ClearLowBits(x / 2, n - 1);
    }
  }

  /** A CIDR block: a prefix length 1..32 and an address whose host bits are zero. */
  predicate Aligned(b: Block)
  {
    LowBitsZero(b.addr, 32 - b.cidr) && Last(b) < 0x1_0000_0000
  }

  predicate Contains(b: Block, x: int)
  {
    b.addr <= x <= Last(b)
  }

  /** The /cidr block starting at `from` is aligned and ends at or before `to`. */
  predicate Fits(from: int, to: int, cidr: nat)
  {
    cidr <= 32 && LowBitsZero(from, 32 - cidr) && from + BlockSize(cidr) - 1 <= to
  }

  lemma {:induction false} Pow2Strict(a: nat, b: nat)
    requires a < b
    ensures 2 * Pow2(a) <= Pow2(b)
  {
    Pow2Monotone(a, b - 1);
  }

  lemma {:induction false} AlignedBelow(a: int, n: nat, m: nat)
    requires n <= m && 0 <= a < Pow2(m) && LowBitsZero(a, n)
    ensures a + Pow2(n) <= Pow2(m)
  {
    if n > 0 {
      AlignedBelow(a / 2, n - 1, m - 1);
    }
  }

  /** An aligned block that starts inside the address space ends inside it. */
  lemma AlignedBlockInSpace(a: int, cidr: nat)
    requires 0 <= a < 0x1_0000_0000 && cidr <= 32 && LowBitsZero(a, 32 - cidr)
    ensures a + BlockSize(cidr) <= 0x1_0000_0000
  {
    Pow2Values();
    AlignedBelow(a, 32 - cidr, 32);
  }

  /**
   * ip_set_mask_from_to(from, to, cidr): clears the host bits of `ip` and
   * gives the last address of the /cidr block that contains it.
   */
  function MaskFromTo(ip: U32, cidr: U8): (r: (U32, U32))
    requires 1 <= cidr <= 32
    ensures r.0 <= ip <= r.1
  {
    var m := ClearLowBits(ip, 32 - cidr);
    AlignedBlockInSpace(m, cidr);
    (m, m + BlockSize(cidr) - 1)
  }

  /** The masked range is the CIDR block of prefix length `cidr` that contains `ip`. */
  lemma MaskFromToSpec(ip: U32, cidr: U8)
    requires 1 <= cidr <= 32
    ensures var r := MaskFromTo(ip, cidr);
      Aligned(Block(r.0, cidr)) && r.1 == Last(Block(r.0, cidr)) && Contains(Block(r.0, cidr), ip)
  {
    AlignedBlockInSpace(ClearLowBits(ip, 32 - cidr), cidr);
  }

  /** The prefix search of ip_set_range_to_cidr, from prefix length `i` on. */
  function FindCidr(from: U32, to: U32, i: Prefix): (r: (U32, Prefix))
    ensures i <= r.1 && from <= r.0 && (from <= to ==> r.0 <= to)
    decreases 32 - i
  {
    if i == 32 then
      (from, 32)
    else if Fits(from, to, i) then
      AlignedBlockInSpace(from, i);
      (from + BlockSize(i) - 1, i)
    else
      FindCidr(from, to, i + 1)
  }

  lemma {:induction false} FindCidrSpec(from: U32, to: U32, i: Prefix)
    ensures var r := FindCidr(from, to, i);
      && Aligned(Block(from, r.1)) && r.0 == Last(Block(from, r.1))
      && (r.1 < 32 ==> Fits(from, to, r.1))
      && forall c :: i <= c < r.1 ==> !Fits(from, to, c)
    decreases 32 - i
  {
    if i == 32 {
      assert BlockSize(32) == 1;
    } else if Fits(from, to, i) {
      AlignedBlockInSpace(from, i);
    } else {
      FindCidrSpec(from, to, i + 1);
    }
  }

  /**
   * ip_set_range_to_cidr(from, to, &cidr): the largest CIDR block (prefix
   * length at least 1) that starts at `from` and fits in [from, to]; gives
   * its last address and its prefix length. /32 when from > to. The
   * function promises only what the driver loops need to advance; the
   * block itself is described by RangeToCidrSpec.
   */
  function RangeToCidr(from: U32, to: U32): (r: (U32, Prefix))
    ensures from <= r.0 && (from <= to ==> r.0 <= to)
  {
    FindCidr(from, to, 1)
  }

  /** The block found is a CIDR block starting at `from` and ending at the address returned. */
  lemma RangeToCidrBlock(from: U32, to: U32)
    ensures var r := RangeToCidr(from, to);
      Aligned(Block(from, r.1)) && r.0 == Last(Block(from, r.1))
  {
    FindCidrSpec(from, to, 1);
  }

  /** The block fits in [from, to] for a proper range (and always below /32), and no shorter prefix fits. */
  lemma RangeToCidrSpec(from: U32, to: U32)
    ensures var r := RangeToCidr(from, to);
      && Aligned(Block(from, r.1)) && r.0 == Last(Block(from, r.1))
      && (r.1 < 32 || from <= to ==> Fits(from, to, r.1))
      && forall c :: 1 <= c < r.1 ==> !Fits(from, to, c)
  {
    FindCidrSpec(from, to, 1);
    var r := RangeToCidr(from, to);
    if from <= to && r.1 == 32 {
      assert BlockSize(32) == 1;
    }
  }

  /**
   * The blocks the IPv4 driver's do-while loop emits for one net field:
   * block at `from`, then, while the block's last address is below `to`,
   * the decomposition of the rest. At least one block, even when from > to.
   */
  function Cover(from: U32, to: U32): (bs: seq<Block>)
    ensures |bs| >= 1 && bs[0].addr == from
    decreases (to as int) - (from as int)
  {
    var r := RangeToCidr(from, to);
    if r.0 < to then [Block(from, r.1)] + Cover(r.0 + 1, to) else [Block(from, r.1)]
  }

  /** The first block of a cover and the cover of what follows it (x++ on the block's last address). */
  lemma CoverNext(from: U32, to: U32)
    ensures var r := RangeToCidr(from, to);
      Cover(from, to) == [Block(from, r.1)] + (if r.0 < to then Cover(Inc32(r.0), to) else [])
  {
  }

  /** Every emitted block is a CIDR block. */
  lemma {:induction false} CoverAligned(from: U32, to: U32)
    ensures forall k :: 0 <= k < |Cover(from, to)| ==> Aligned(Cover(from, to)[k])
    decreases (to as int) - (from as int)
  {
    var r := RangeToCidr(from, to);
    RangeToCidrSpec(from, to);
    if r.0 < to {
      CoverAligned(r.0 + 1, to);
      assert Cover(from, to)[1..] == Cover(r.0 + 1, to);
    }
  }

  /** For a proper range every emitted block lies in [from, to]. */
  lemma {:induction false} CoverWithin(from: U32, to: U32)
    requires from <= to
    ensures forall k :: 0 <= k < |Cover(from, to)| ==>
      from <= Cover(from, to)[k].addr && Last(Cover(from, to)[k]) <= to
    decreases (to as int) - (from as int)
  {
    var r := RangeToCidr(from, to);
    RangeToCidrBlock(from, to);
    CoverNext(from, to);
    if r.0 < to {
      var bs, rest := Cover(from, to), Cover(Inc32(r.0), to);
      CoverWithin(Inc32(r.0), to);
      forall k | 0 <= k < |bs|
        ensures from <= bs[k].addr && Last(bs[k]) <= to
      {
        if k > 0 {
          assert bs[k] == rest[k - 1];
        }
      }
    }
  }

  /** For a proper range the last emitted block ends at `to`. */
  lemma {:induction false} CoverEnd(from: U32, to: U32)
    requires from <= to
    ensures Last(Cover(from, to)[|Cover(from, to)| - 1]) == to
    decreases (to as int) - (from as int)
  {
    var r := RangeToCidr(from, to);
    RangeToCidrBlock(from, to);
    CoverNext(from, to);
    if r.0 < to {
      var bs, rest := Cover(from, to), Cover(Inc32(r.0), to);
      CoverEnd(Inc32(r.0), to);
      assert bs[|bs| - 1] == rest[|rest| - 1];
    }
  }

  /** The emitted blocks are in increasing order and pairwise disjoint. */
  lemma {:induction false} CoverDisjoint(from: U32, to: U32)
    ensures forall j, k :: 0 <= j < k < |Cover(from, to)| ==> Last(Cover(from, to)[j]) < Cover(from, to)[k].addr
    decreases (to as int) - (from as int)
  {
    var bs := Cover(from, to);
    var r := RangeToCidr(from, to);
    RangeToCidrBlock(from, to);
    if r.0 < to {
      var rest := Cover(r.0 + 1, to);
      assert bs[1..] == rest;
      CoverDisjoint(r.0 + 1, to);
      CoverWithin(r.0 + 1, to);
      forall j, k | 0 <= j < k < |bs|
        ensures Last(bs[j]) < bs[k].addr
      {
        if j > 0 {
          assert bs[j] == rest[j - 1] && bs[k] == rest[k - 1];
        } else {
          assert bs[k] == rest[k - 1];
        }
      }
    }
  }

  /** Every address of a proper range lies in some emitted block. */
  lemma {:induction false} CoverComplete(from: U32, to: U32, x: int) returns (k: nat)
    requires from <= x <= to
    ensures k < |Cover(from, to)| && Contains(Cover(from, to)[k], x)
    decreases (to as int) - (from as int)
  {
    var r := RangeToCidr(from, to);
    RangeToCidrBlock(from, to);
    CoverNext(from, to);
    if x <= r.0 {
      k := 0;
      assert Cover(from, to)[0] == Block(from, r.1);
    } else {
      var j := CoverComplete(Inc32(r.0), to, x);
      k := j + 1;
      assert Cover(from, to)[k] == Cover(Inc32(r.0), to)[j];
    }
  }

  /** For a proper range the blocks cover exactly [from, to]: no gaps, nothing outside. */
  lemma CoverExact(from: U32, to: U32, x: int)
    requires from <= to
    ensures (exists k :: 0 <= k < |Cover(from, to)| && Contains(Cover(from, to)[k], x)) <==> from <= x <= to
  {
    CoverWithin(from, to);
    if from <= x <= to {
      var k := CoverComplete(from, to, x);
    }
  }

  /** Each emitted block is the largest aligned block at its start that still fits in the range. */
  lemma {:induction false} CoverMaximal(from: U32, to: U32)
    requires from <= to
    ensures forall k, c :: 0 <= k < |Cover(from, to)| && 1 <= c < Cover(from, to)[k].cidr ==>
      !Fits(Cover(from, to)[k].addr, to, c)
    decreases (to as int) - (from as int)
  {
    var bs := Cover(from, to);
    var r := RangeToCidr(from, to);
    RangeToCidrSpec(from, to);
    if r.0 < to {
      var rest := Cover(r.0 + 1, to);
      assert bs[1..] == rest;
      CoverMaximal(r.0 + 1, to);
      forall k, c | 0 <= k < |bs| && 1 <= c < bs[k].cidr
        ensures !Fits(bs[k].addr, to, c)
      {
        if k > 0 {
          assert bs[k] == rest[k - 1];
        }
      }
    }
  }

  /** The range spanned by a CIDR block decomposes to that block. */
  lemma RangeOfBlock(m: U32, c: Prefix)
    requires Aligned(Block(m, c))
    ensures RangeToCidr(m, Last(Block(m, c))) == (Last(Block(m, c)), c)
  {
    var t := Last(Block(m, c));
    var r := RangeToCidr(m, t);
    RangeToCidrSpec(m, t);
    assert Fits(m, t, c);
    if r.1 < c {
      Pow2Strict(32 - c, 32 - r.1);
      assert false;
    }
  }

  /** With an explicit nonzero prefix length the range is the single block holding the masked address. */
  lemma CoverOfPrefix(ip: U32, cidr: U8)
    requires 1 <= cidr <= 32
    ensures Cover(MaskFromTo(ip, cidr).0, MaskFromTo(ip, cidr).1) == [Block(MaskFromTo(ip, cidr).0, cidr)]
  {
    var mt := MaskFromTo(ip, cidr);
    MaskFromToSpec(ip, cidr);
    RangeOfBlock(mt.0, cidr);
    CoverNext(mt.0, mt.1);
  }

  /** An inverted range still yields one /32 block at `from`, as the do-while runs its body once. */
  lemma CoverInverted(from: U32, to: U32)
    requires from > to
    ensures Cover(from, to) == [Block(from, 32)]
  {
    RangeToCidrSpec(from, to);
    var r := RangeToCidr(from, to);
    assert !Fits(from, to, r.1);
    assert r.1 == 32;
    assert Last(Block(from, 32)) == from;
  }
}
