/** Fixed-width unsigned integers, their big-endian byte images and Rust's wrapping casts. */
module Bytes {

  type byte = x: int | 0 <= x < 0x100
  type u16 = x: int | 0 <= x < 0x1_0000
  type u32 = x: int | 0 <= x < 0x1_0000_0000
  type u64 = x: int | 0 <= x < 0x1_0000_0000_0000_0000
  type i32 = x: int | -0x8000_0000 <= x < 0x8000_0000

  /** 256^n: the number of values an n-byte unsigned integer can hold. */
  function Pow256(n: nat): (r: nat)
    ensures r > 0
  {
    if n == 0 then 1 else 256 * Pow256(n - 1)
  }

  /** The ranges of u16, u32 and u64 are those of 2-, 4- and 8-byte big-endian strings. */
  lemma Pow256Widths()
    ensures Pow256(2) == 0x1_0000
    ensures Pow256(4) == 0x1_0000_0000
    ensures Pow256(8) == 0x1_0000_0000_0000_0000
  {
    assert Pow256(2) == 0x1_0000;
    assert Pow256(4) == 0x1_0000_0000;
    assert Pow256(6) == 0x1_0000_0000_0000;
  }

  lemma DivideBound(v: nat, n: nat)
    requires n > 0 && v < Pow256(n)
    ensures v / 256 < Pow256(n - 1)
  {
  }

  /** `to_be_bytes` of an n-byte unsigned integer: the most significant byte first. */
  function ToBe(v: nat, n: nat): (r: seq<byte>)
    requires v < Pow256(n)
    ensures |r| == n
  {
    if n == 0 then [] else DivideBound(v, n); ToBe(v / 256, n - 1) + [v % 256]
  }

  /** `from_be_bytes`: the unsigned value of a big-endian byte string. */
  function FromBe(s: seq<byte>): (v: nat)
    ensures v < Pow256(|s|)
  {
    if s == [] then 0 else FromBe(s[..|s| - 1]) * 256 + s[|s| - 1]
  }

  /** Reading back what `ToBe` wrote gives the value again. */
  lemma {:induction false} FromBeToBe(v: nat, n: nat)
    requires v < Pow256(n)
    ensures FromBe(ToBe(v, n)) == v
  {
    if n > 0 {
      DivideBound(v, n);
      var s := ToBe(v, n);
      assert s[..n - 1] == ToBe(v / 256, n - 1);
      FromBeToBe(v / 256, n - 1);
    }
  }

  /** Every byte string is the big-endian image of its own value: `ToBe` is onto. */
  lemma {:induction false} ToBeFromBe(s: seq<byte>)
    ensures ToBe(FromBe(s), |s|) == s
  {
    if s != [] {
      var p := s[..|s| - 1];
      ToBeFromBe(p);
      var v := FromBe(s);
      assert v / 256 == FromBe(p) && v % 256 == s[|s| - 1];
    }
  }

  /** Two n-byte images are equal exactly when the values are: `ToBe` is injective. */
  lemma ToBeInjective(v: nat, w: nat, n: nat)
    requires v < Pow256(n) && w < Pow256(n)
    ensures ToBe(v, n) == ToBe(w, n) <==> v == w
  {
    if ToBe(v, n) == ToBe(w, n) {
      FromBeToBe(v, n);
      FromBeToBe(w, n);
    }
  }

  /** `as u16`: keeps the low 16 bits. */
  function WrapU16(n: nat): (r: u16)
    ensures n < 0x1_0000 ==> r == n
    ensures (n - r) % 0x1_0000 == 0
  {
    n % 0x1_0000
  }

  /** A release build's wrapping `+=` on a u32 counter: the count modulo 2^32. */
  function WrapU32(n: nat): (r: u32)
    ensures n < 0x1_0000_0000 ==> r == n
    ensures (n - r) % 0x1_0000_0000 == 0
  {
    n % 0x1_0000_0000
  }

  /** Incrementing the wrapped counter is wrapping the incremented count. */
  lemma WrapU32Succ(n: nat)
    ensures WrapU32(WrapU32(n) + 1) == WrapU32(n + 1)
  {
  }

  /** Wrapping two's-complement reading of an integer as i32 (a release build's `+=`). */
  function WrapI32(n: int): (r: i32)
    ensures -0x8000_0000 <= n < 0x8000_0000 ==> r == n
    ensures (n - r) % 0x1_0000_0000 == 0
  {
    (n + 0x8000_0000) % 0x1_0000_0000 - 0x8000_0000
  }

  /** Incrementing the wrapped value is wrapping the incremented count. */
  lemma WrapI32Succ(n: int)
    ensures WrapI32(WrapI32(n) + 1) == WrapI32(n + 1)
  {
  }
}
