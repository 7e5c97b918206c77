/**
 * Fixed-width integers, address-family and protocol numbers, and powers of
 * two, shared by the ipset type variant and the keepalived parser model.
 */
module Inet {

  type U8 = x: int | 0 <= x < 0x100
  type U16 = x: int | 0 <= x < 0x1_0000
  type U32 = x: int | 0 <= x < 0x1_0000_0000

  const UINT_MAX: U32 := 0xFFFF_FFFF

  /** Linux address-family numbers (sa_family_t). */
  const AF_UNSPEC: int := 0
  const AF_INET: int := 2
  const AF_INET6: int := 10

  /** IANA protocol numbers, as in <netinet/in.h>. */
  const IPPROTO_ICMP: U8 := 1
  const IPPROTO_TCP: U8 := 6
  const IPPROTO_UDP: U8 := 17
  const IPPROTO_ICMPV6: U8 := 58
  const IPPROTO_SCTP: U8 := 132

  /** x++ on a uint32_t: wraps from UINT_MAX to 0. */
  function Inc32(x: U32): (r: U32)
    ensures r == (x + 1) % 0x1_0000_0000
  {
    if x == UINT_MAX then 0 else x + 1
  }

  /** x++ on a uint16_t: wraps from 0xFFFF to 0. */
  function Inc16(x: U16): (r: U16)
    ensures r == (x + 1) % 0x1_0000
  {
    if x == 0xFFFF then 0 else x + 1
  }

  datatype Option<+T> = None | Some(value: T)

  function Pow2(n: nat): (r: nat)
    ensures r >= 1
  {
    if n == 0 then 1 else 2 * Pow2(n - 1)
  }

  lemma {:induction false} Pow2Add(a: nat, b: nat)
    ensures Pow2(a + b) == Pow2(a) * Pow2(b)
  {
    if a > 0 {
      Pow2Add(a - 1, b);
      assert Pow2(a + b) == 2 * Pow2(a - 1 + b);
    }
  }

  lemma {:induction false} Pow2Monotone(a: nat, b: nat)
    requires a <= b
    ensures Pow2(a) <= Pow2(b)
  {
    if a < b {
      Pow2Monotone(a, b - 1);
    }
  }

  /** The bitwise and of the n low bits of x and y (x & y, for x and y below 2^n). */
  function BitAnd(x: nat, y: nat, n: nat): (r: nat)
    ensures r <= y && r < Pow2(n)
    decreases n
  {
    if n == 0 then 0 else 2 * BitAnd(x / 2, y / 2, n - 1) + (if x % 2 == 1 && y % 2 == 1 then 1 else 0)
  }

  lemma Pow2Values()
    ensures Pow2(8) == 0x100
    ensures Pow2(16) == 0x1_0000
    ensures Pow2(32) == 0x1_0000_0000
  {
    assert Pow2(8) == 0x100;
    Pow2Add(8, 8);
    Pow2Add(16, 16);
  }
}
