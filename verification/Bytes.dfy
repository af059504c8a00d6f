/** Bytes, fixed-width unsigned integers and their big- and little-endian encodings. */
module Bytes {
  const U16_MOD := 0x1_0000
  const U32_MOD := 0x1_0000_0000
  const U64_MOD := 0x1_0000_0000_0000_0000

  type byte = x: int | 0 <= x < 256
  type u16 = x: int | 0 <= x < U16_MOD
  type u32 = x: int | 0 <= x < U32_MOD
  type u64 = x: int | 0 <= x < U64_MOD

  datatype Option<+T> = None | Some(value: T)

  /** Unsigned 64-bit wrap-around. */
  function Wrap64(x: int): (r: u64)
    ensures 0 <= x < U64_MOD ==> r == x
  {
    x % U64_MOD
  }

  function Pow256(n: nat): (r: nat)
    ensures r > 0
  {
    if n == 0 then 1 else 256 * Pow256(n - 1)
  }

  lemma Pow256Values()
    ensures Pow256(2) == U16_MOD
    ensures Pow256(4) == U32_MOD
    ensures Pow256(6) == 0x1_0000_0000_0000
    ensures Pow256(8) == U64_MOD
  {
    assert Pow256(1) == 256 * Pow256(0);
    assert Pow256(3) == 256 * Pow256(2);
    assert Pow256(5) == 256 * Pow256(4);
    assert Pow256(7) == 256 * Pow256(6);
  }

  /** The n low-order bytes of v, most significant first. */
  function ToBE(v: nat, n: nat): (s: seq<byte>)
    ensures |s| == n
  {
    if n == 0 then [] else ToBE(v / 256, n - 1) + [v % 256]
  }

  function FromBE(s: seq<byte>): nat {
    if s == [] then 0 else FromBE(s[..|s| - 1]) * 256 + s[|s| - 1]
  }

  lemma {:induction false} FromBEBound(s: seq<byte>)
    ensures FromBE(s) < Pow256(|s|)
  {
    if s != [] {
      FromBEBound(s[..|s| - 1]);
    }
  }

  lemma {:induction false} FromToBE(v: nat, n: nat)
    requires v < Pow256(n)
    ensures FromBE(ToBE(v, n)) == v
  {
    if n > 0 {
      FromToBE(v / 256, n - 1);
      assert ToBE(v, n)[..n - 1] == ToBE(v / 256, n - 1);
    }
  }

  lemma {:induction false} ToFromBE(s: seq<byte>)
    ensures ToBE(FromBE(s), |s|) == s
  {
    if s != [] {
      ToFromBE(s[..|s| - 1]);
    }
  }

  /** The n low-order bytes of v, least significant first. */
  function ToLE(v: nat, n: nat): (s: seq<byte>)
    ensures |s| == n
  {
    if n == 0 then [] else [v % 256] + ToLE(v / 256, n - 1)
  }

  function FromLE(s: seq<byte>): nat {
    if s == [] then 0 else s[0] + 256 * FromLE(s[1..])
  }

  lemma {:induction false} FromLEBound(s: seq<byte>)
    ensures FromLE(s) < Pow256(|s|)
  {
    if s != [] {
      FromLEBound(s[1..]);
    }
  }

  lemma {:induction false} FromToLE(v: nat, n: nat)
    requires v < Pow256(n)
    ensures FromLE(ToLE(v, n)) == v
  {
    if n > 0 {
      FromToLE(v / 256, n - 1);
      assert ToLE(v, n)[1..] == ToLE(v / 256, n - 1);
    }
  }

  lemma {:induction false} ToFromLE(s: seq<byte>)
    ensures ToLE(FromLE(s), |s|) == s
  {
    if s != [] {
      ToFromLE(s[1..]);
      assert FromLE(s) / 256 == FromLE(s[1..]) && FromLE(s) % 256 == s[0];
    }
  }

  function Be16(s: seq<byte>, at: nat): u16
    requires at + 2 <= |s|
  {
    FromBEBound(s[at..at + 2]);
    Pow256Values();
    FromBE(s[at..at + 2])
  }

  function Be32(s: seq<byte>, at: nat): u32
    requires at + 4 <= |s|
  {
    FromBEBound(s[at..at + 4]);
    Pow256Values();
    FromBE(s[at..at + 4])
  }

  function Be64(s: seq<byte>, at: nat): u64
    requires at + 8 <= |s|
  {
    FromBEBound(s[at..at + 8]);
    Pow256Values();
    FromBE(s[at..at + 8])
  }

  lemma AppendIsAssociative(a: seq<byte>, b: seq<byte>, c: seq<byte>)
    ensures a + (b + c) == a + b + c
  {
  }

  /** What the big-endian readers see where the matching writer wrote. */
  lemma ReadBack(s: seq<byte>, at: nat, v: nat, n: nat)
    requires v < Pow256(n) && at + n <= |s| && s[at..at + n] == ToBE(v, n)
    ensures FromBE(s[at..at + n]) == v
  {
    FromToBE(v, n);
  }
}
