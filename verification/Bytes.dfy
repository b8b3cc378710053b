/** Bytes, fixed-width integers and their big-endian layout. */
module Bytes {

  type byte = x: int | 0 <= x < 256
  type bytes = seq<byte>

  type i16 = x: int | -0x8000 <= x < 0x8000
  type i32 = x: int | -0x8000_0000 <= x < 0x8000_0000
  type i64 = x: int | -0x8000_0000_0000_0000 <= x < 0x8000_0000_0000_0000
  type u16 = x: int | 0 <= x < 0x1_0000
  type u32 = x: int | 0 <= x < 0x1_0000_0000
  type u64 = x: int | 0 <= x < 0x1_0000_0000_0000_0000

  const I32_MAX: i32 := 0x7fff_ffff
  const I64_MAX: i64 := 0x7fff_ffff_ffff_ffff
  const I64_MIN: i64 := -0x8000_0000_0000_0000

  datatype Option<+T> = None | Some(value: T)

  /** A fallible call; `Err` stands for the source's `OxideMqError`. */
  datatype Result<+T> = Ok(value: T) | Err(error: string) {
    predicate IsFailure() { Err? }
    function PropagateFailure<U>(): Result<U> requires Err? { Err(error) }
    function Extract(): T requires Ok? { value }
  }

  // Values brought into range as two's complement arithmetic does in release builds.

  function WrapI16(x: int): i16
    decreases if x < 0 then -2 * x else 2 * x + 1
  {
    if x >= 0x8000 then WrapI16(x - 0x1_0000)
    else if x < -0x8000 then WrapI16(x + 0x1_0000)
    else x
  }

  function WrapI32(x: int): i32
    decreases if x < 0 then -2 * x else 2 * x + 1
  {
    if x >= 0x8000_0000 then WrapI32(x - 0x1_0000_0000)
    else if x < -0x8000_0000 then WrapI32(x + 0x1_0000_0000)
    else x
  }

  function WrapI64(x: int): i64
    decreases if x < 0 then -2 * x else 2 * x + 1
  {
    if x >= 0x8000_0000_0000_0000 then WrapI64(x - 0x1_0000_0000_0000_0000)
    else if x < -0x8000_0000_0000_0000 then WrapI64(x + 0x1_0000_0000_0000_0000)
    else x
  }

  /** A length cast to a narrow signed field is kept exactly when it fits. */
  lemma {:induction false} WrapI16Smaller(n: nat)
    ensures WrapI16(n) <= n && (WrapI16(n) == n <==> n < 0x8000)
  {
    if n >= 0x1_0000 { WrapI16Smaller(n - 0x1_0000); }
  }

  lemma {:induction false} WrapI32Smaller(n: nat)
    ensures WrapI32(n) <= n && (WrapI32(n) == n <==> n < 0x8000_0000)
  {
    if n >= 0x1_0000_0000 { WrapI32Smaller(n - 0x1_0000_0000); }
  }

  function Pow256(n: nat): (p: nat)
    ensures p > 0
  {
    if n == 0 then 1 else 256 * Pow256(n - 1)
  }

  /** The `n` low-order bytes of `v`, most significant first. */
  function Be(v: nat, n: nat): (s: bytes)
    ensures |s| == n
  {
    if n == 0 then [] else Be(v / 256, n - 1) + [v % 256]
  }

  function FromBe(s: bytes): (v: nat)
    ensures v < Pow256(|s|)
  {
    if s == [] then 0 else FromBe(s[..|s| - 1]) * 256 + s[|s| - 1]
  }

  lemma {:induction false} FromBeOfBe(v: nat, n: nat)
    requires v < Pow256(n)
    ensures FromBe(Be(v, n)) == v
  {
    if n > 0 {
      FromBeOfBe(v / 256, n - 1);
      assert Be(v, n)[..n - 1] == Be(v / 256, n - 1);
    }
  }

  lemma {:induction false} BeOfFromBe(s: bytes)
    ensures Be(FromBe(s), |s|) == s
  {
    if s != [] {
      var t := s[..|s| - 1];
      BeOfFromBe(t);
      assert FromBe(s) / 256 == FromBe(t) && FromBe(s) % 256 == s[|s| - 1];
      assert s == t + [s[|s| - 1]];
    }
  }

  /** Two's complement reading of an unsigned value. */
  function Signed(u: nat, modulus: nat): int {
    if 2 * u < modulus then u else u - modulus
  }

  function GetU16(s: bytes): u16 requires |s| == 2 { FromBe(s) }
  function GetU32(s: bytes): u32 requires |s| == 4 { FromBe(s) }
  function GetU64(s: bytes): u64 requires |s| == 8 { FromBe(s) }
  function GetI16(s: bytes): i16 requires |s| == 2 { Signed(GetU16(s), 0x1_0000) }
  function GetI32(s: bytes): i32 requires |s| == 4 { Signed(GetU32(s), 0x1_0000_0000) }
  function GetI64(s: bytes): i64 requires |s| == 8 { Signed(GetU64(s), 0x1_0000_0000_0000_0000) }

  function PutU16(v: u16): (s: bytes)
    ensures |s| == 2 && GetU16(s) == v
  {
    FromBeOfBe(v, 2);
    Be(v, 2)
  }

  function PutU32(v: u32): (s: bytes)
    ensures |s| == 4 && GetU32(s) == v
  {
    FromBeOfBe(v, 4);
    Be(v, 4)
  }

  function PutU64(v: u64): (s: bytes)
    ensures |s| == 8 && GetU64(s) == v
  {
    FromBeOfBe(v, 8);
    Be(v, 8)
  }

  function PutI16(v: i16): (s: bytes)
    ensures |s| == 2 && GetI16(s) == v
  {
    PutU16(if v < 0 then v + 0x1_0000 else v)
  }

  function PutI32(v: i32): (s: bytes)
    ensures |s| == 4 && GetI32(s) == v
  {
    PutU32(if v < 0 then v + 0x1_0000_0000 else v)
  }

  function PutI64(v: i64): (s: bytes)
    ensures |s| == 8 && GetI64(s) == v
  {
    PutU64(if v < 0 then v + 0x1_0000_0000_0000_0000 else v)
  }

  lemma PutU32OfGet(s: bytes)
    requires |s| == 4
    ensures PutU32(GetU32(s)) == s
  {
    BeOfFromBe(s);
  }

  lemma PutI32OfGet(s: bytes)
    requires |s| == 4
    ensures PutI32(GetI32(s)) == s
  {
    BeOfFromBe(s);
  }

  lemma PutI16OfGet(s: bytes)
    requires |s| == 2
    ensures PutI16(GetI16(s)) == s
  {
    BeOfFromBe(s);
  }

  lemma {:induction false} FromBeSplit(a: bytes, b: bytes)
    ensures FromBe(a + b) == FromBe(a) * Pow256(|b|) + FromBe(b)
  {
    if b == [] {
      assert a + b == a;
    } else {
      var c := b[..|b| - 1];
      FromBeSplit(a, c);
      assert (a + b)[..|a + b| - 1] == a + c;
      Scale(FromBe(a), Pow256(|c|), FromBe(c));
    }
  }

  lemma Scale(x: nat, p: nat, y: nat)
    ensures (x * p + y) * 256 == x * (256 * p) + y * 256
  {
  }

  lemma BigEndianPair(s: bytes)
    requires |s| == 2
    ensures var high: int, low: int := s[0], s[1]; FromBe(s) == 256 * high + low
  {
    var first := s[..1];
    assert FromBe(first) == s[0] by { assert FromBe(first[..0]) == 0; }
  }

  /** The most significant byte comes first. */
  lemma BigEndianQuad(s: bytes)
    requires |s| == 4
    ensures var a: int, b: int, c: int, d: int := s[0], s[1], s[2], s[3];
            FromBe(s) == 0x100_0000 * a + 0x1_0000 * b + 0x100 * c + d
  {
    BigEndianPair(s[..2]);
    assert s[..3][..2] == s[..2] && s[..4] == s;
    assert FromBe(s[..3]) == FromBe(s[..2]) * 256 + s[2];
  }

  lemma FromBeInjective(a: bytes, b: bytes)
    requires |a| == |b|
    ensures FromBe(a) == FromBe(b) <==> a == b
  {
    BeOfFromBe(a);
    BeOfFromBe(b);
  }

  // ---------- quotients ----------

  lemma QuotientIs(x: nat, p: nat, q: nat, u: nat)
    requires x == p * q + u && u < p
    ensures x / p == q
  {
    SameQuotient(p, x / p, x % p, q, u);
  }

  lemma SameQuotient(p: nat, d: nat, r: nat, q: nat, u: nat)
    requires p * d + r == p * q + u && r < p && u < p
    ensures d == q
  {
    NextMultiple(p, d, q);
    NextMultiple(p, q, d);
  }

  lemma NextMultiple(p: nat, a: nat, b: nat)
    ensures a < b ==> p * a + p <= p * b
  {
    if a < b {
      var k := b - a;
      assert p * b == p * a + p * k;
      assert p * k >= p;
    }
  }

  lemma DivTwice(n: nat, k: nat, p: nat, m: nat)
    requires k > 0 && p > 0 && m == k * p
    ensures m > 0 && n / k / p == n / m
  {
    DivTwiceBy(n, k, p, n / m, n % m);
  }

  lemma DivTwiceBy(n: nat, k: nat, p: nat, q: nat, r: nat)
    requires k > 0 && p > 0 && n == k * p * q + r && r < k * p
    ensures n / k / p == q
  {
    var u := r / k;
    Regroup(k, p, q, u, r % k);
    QuotientIs(n, k, p * q + u, r % k);
    NextMultiple(k, p, u + 1);
    QuotientIs(p * q + u, p, q, u);
  }

  lemma Regroup(k: nat, p: nat, q: nat, u: nat, v: nat)
    ensures k * p * q + (k * u + v) == k * (p * q + u) + v
  {
  }
}
