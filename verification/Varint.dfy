/** Base-128 varints and zigzag (`KafkaEncoder`, `KafkaDecoder`). */
module Varint {
  import opened Bytes
  import opened BitStrings

  const U64_MODULUS: nat := 0x1_0000_0000_0000_0000

  // ---------- unsigned varints ----------

  /** Groups of seven bits, least significant first, the high bit marking continuation. */
  function Write(v: nat): (s: bytes)
    ensures s != []
  {
    if v < 128 then [v] else [v % 128 + 128] + Write(v / 128)
  }

  method WriteUnsigned(dst: bytes, v: u64) returns (out: bytes)
    ensures out == dst + Write(v)
  {
    out := dst;
    var value := v;
    while value >= 128
      invariant out + Write(value) == dst + Write(v)
    {
      var group := value % 128 + 128;
      assert Write(value) == [group] + Write(value / 128);
      out := out + [group];
      value := value / 128;
    }
    out := out + [value];
  }

  function Power128(n: nat): (p: nat)
    ensures p > 0
  {
    if n == 0 then 1 else 128 * Power128(n - 1)
  }

  /** `n` groups hold the values below `128^n`; ten groups hold every `u64`. */
  lemma {:induction false} WriteLength(v: nat, n: nat)
    requires 0 < n && v < Power128(n)
    ensures |Write(v)| <= n
  {
    if v >= 128 { WriteLength(v / 128, n - 1); }
  }

  lemma WriteAtMostTen(v: u64)
    ensures |Write(v)| <= 10
  {
    assert Power128(5) == 0x8_0000_0000;
    assert Power128(10) == 0x40_0000_0000_0000_0000;
    WriteLength(v, 10);
  }

  /** Byte `i` carries the seven bits of place `i`, and all but the last have the high bit set. */
  lemma {:induction false} WritePlaces(v: nat, i: nat)
    requires i < |Write(v)|
    ensures Write(v)[i] % 128 == v / Power128(i) % 128
    ensures Write(v)[i] >= 128 <==> i + 1 < |Write(v)|
  {
    if i > 0 {
      WritePlaces(v / 128, i - 1);
      DivTwice(v, 128, Power128(i - 1), Power128(i));
    }
  }

  /** Index of the first byte without the continuation bit, or the length when there is none. */
  function Terminator(s: bytes): (k: nat)
    ensures k <= |s|
    ensures k < |s| ==> s[k] < 128
    ensures forall i :: 0 <= i < k ==> s[i] >= 128
  {
    if s == [] || s[0] < 128 then 0 else 1 + Terminator(s[1..])
  }

  /** The number spelled by the seven-bit groups of `s`. */
  function Groups(s: bytes): nat {
    if s == [] then 0 else s[0] % 128 + 128 * Groups(s[1..])
  }

  /** The same in a 64-bit word: of a tenth group only the lowest bit fits. */
  function Word(s: bytes): u64
    requires |s| <= 10
  {
    if |s| <= 9 then
      NineGroups(s);
      Groups(s)
    else
      NineGroups(s[..9]);
      Groups(s[..9]) + if s[9] % 2 == 1 then 0x8000_0000_0000_0000 else 0
  }

  lemma NineGroups(s: bytes)
    requires |s| <= 9
    ensures Groups(s) < 0x8000_0000_0000_0000
  {
    GroupsBound(s);
    Power128Monotone(|s|, 9);
    Power128Nine();
  }

  lemma {:induction false} GroupsBound(s: bytes)
    ensures Groups(s) < Power128(|s|)
  {
    if s != [] { GroupsBound(s[1..]); }
  }

  /**
   * What reading a varint off the front of `s` gives, and the rest of `s`. At most ten bytes
   * are looked at.
   */
  function Read(s: bytes): (Result<u64>, bytes) {
    var k := Terminator(s);
    if k >= 10 then (Err("Varint overflow"), s[10..])
    else if k == |s| then (Err("Truncated varint"), [])
    else (Ok(Word(s[..k + 1])), s[k + 1..])
  }

  /** Without an end within ten bytes the reader overflows behind the tenth; in a shorter input it runs out. */
  lemma ReadWithoutEnd(s: bytes)
    ensures |s| < 10 && (forall i :: 0 <= i < |s| ==> s[i] >= 128) ==> Read(s) == (Err("Truncated varint"), [])
    ensures |s| >= 10 && (forall i :: 0 <= i < 10 ==> s[i] >= 128) ==> Read(s) == (Err("Varint overflow"), s[10..])
    ensures forall k :: 0 <= k < |s| && k < 10 && s[k] < 128 ==> Read(s).0.Ok?
  {
    var k := Terminator(s);
  }

  /** `a | b` on 64 bits. */
  function Or(a: u64, b: u64): u64 {
    Pow2Long();
    Value(OrBits(ToBits(a, 64), ToBits(b, 64)))
  }

  function OrBits(a: bits, b: bits): (c: bits)
    requires |a| == |b|
    ensures |c| == |a|
  {
    seq(|a|, i requires 0 <= i < |a| => a[i] || b[i])
  }

  /** `a << k` on 64 bits. */
  function ShiftLeft(a: nat, k: nat): u64 { a * Pow2(k) % U64_MODULUS }

  /** Or-ing in bits above all those of `a` adds them. */
  lemma {:induction false} OrIsSum(a: nat, q: nat, k: nat, b: nat, n: nat)
    requires a < Pow2(k) && k <= n && a < Pow2(n) && b == q * Pow2(k) < Pow2(n)
    ensures Value(OrBits(ToBits(a, n), ToBits(b, n))) == a + b
    decreases n
  {
    if k == 0 {
      ZeroBits(n);
      assert OrBits(ToBits(a, n), ToBits(b, n)) == ToBits(b, n);
      ValueOfBits(b, n);
    } else {
      assert b == 2 * (q * Pow2(k - 1));
      OrStep(a, b, n);
      OrIsSum(a / 2, q, k - 1, b / 2, n - 1);
    }
  }

  lemma OrStep(a: nat, b: nat, n: nat)
    requires n > 0
    ensures Value(OrBits(ToBits(a, n), ToBits(b, n)))
         == (if a % 2 == 1 || b % 2 == 1 then 1 else 0)
            + 2 * Value(OrBits(ToBits(a / 2, n - 1), ToBits(b / 2, n - 1)))
  {
    var x, y := ToBits(a, n), ToBits(b, n);
    assert OrBits(x, y)[1..] == OrBits(x[1..], y[1..]);
    assert x[1..] == ToBits(a / 2, n - 1) && y[1..] == ToBits(b / 2, n - 1);
  }

  lemma {:induction false} ZeroBits(n: nat)
    ensures ToBits(0, n) == Same(false, n)
  {
    if n > 0 { ZeroBits(n - 1); }
  }

  lemma {:induction false} Power128IsPow2(i: nat)
    ensures Power128(i) == Pow2(7 * i)
  {
    if i > 0 {
      Power128IsPow2(i - 1);
      Pow2Seven(7 * (i - 1));
    }
  }

  lemma Pow2Seven(n: nat)
    ensures Pow2(n + 7) == 128 * Pow2(n)
  {
    assert Pow2(n + 1) == 2 * Pow2(n);
    assert Pow2(n + 2) == 4 * Pow2(n);
    assert Pow2(n + 3) == 8 * Pow2(n);
    assert Pow2(n + 4) == 16 * Pow2(n);
    assert Pow2(n + 5) == 32 * Pow2(n);
    assert Pow2(n + 6) == 64 * Pow2(n);
  }

  lemma {:induction false} Power128Monotone(i: nat, j: nat)
    requires i <= j
    ensures Power128(i) <= Power128(j)
    decreases j - i
  {
    if i < j { Power128Monotone(i + 1, j); }
  }

  lemma Power128Nine()
    ensures Power128(8) == 0x100_0000_0000_0000 && Power128(9) == 0x8000_0000_0000_0000
  {
    assert Power128(4) == 0x1000_0000;
  }

  /** What survives of a group shifted to its place in a 64-bit word. */
  function Kept(group: nat, i: nat): nat { if i == 9 then group % 2 else group }

  lemma KeptFits(value: u64, group: nat, i: nat)
    requires i <= 9 && value < Power128(i) && group < 128
    ensures group * Power128(i) % U64_MODULUS == Kept(group, i) * Power128(i)
    ensures value + Kept(group, i) * Power128(i) < U64_MODULUS
  {
    Power128Nine();
    if i == 9 {
      TopGroup(group);
    } else {
      Power128Monotone(i, 8);
      MulBound(group, Power128(i), 0x100_0000_0000_0000);
    }
  }

  lemma TopGroup(group: nat)
    ensures group * 0x8000_0000_0000_0000 % U64_MODULUS == group % 2 * 0x8000_0000_0000_0000
  {
  }

  lemma MulBound(group: nat, p: nat, bound: nat)
    requires group < 128 && p <= bound
    ensures 0 <= group * p <= 127 * bound
  {
    assert group * p <= group * bound <= 127 * bound;
  }

  /** One iteration of the reading loop adds one group, as far as it fits. */
  lemma OrGroup(value: u64, group: nat, i: nat)
    requires i <= 9 && value < Power128(i) && group < 128
    ensures i < 9 ==> Or(value, ShiftLeft(group, 7 * i)) == value + group * Power128(i)
    ensures i == 9 ==>
              Or(value, ShiftLeft(group, 7 * i)) == value + if group % 2 == 1 then 0x8000_0000_0000_0000 else 0
  {
    KeptFits(value, group, i);
    if i == 9 { Power128Nine(); }
    Power128IsPow2(i);
    OrIsSumLong(value, ShiftLeft(group, 7 * i), Kept(group, i), 7 * i);
  }

  lemma OrIsSumLong(a: u64, b: u64, q: nat, k: nat)
    requires a < Pow2(k) && k <= 64 && b == q * Pow2(k)
    ensures Or(a, b) == a + b
  {
    Pow2Long();
    OrIsSum(a, q, k, b, 64);
  }

  lemma {:induction false} GroupsAppend(s: bytes, b: byte)
    ensures Groups(s + [b]) == Groups(s) + b % 128 * Power128(|s|)
  {
    if s == [] {
      assert s + [b] == [b];
    } else {
      assert (s + [b])[1..] == s[1..] + [b];
      GroupsAppend(s[1..], b);
      var p := Power128(|s| - 1);
      assert 128 * (b % 128 * p) == b % 128 * (128 * p);
    }
  }

  /** `value |= ((b & 0x7F) as u64) << shift`. */
  method AddGroup(value: u64, b: byte, shift: nat, ghost src: bytes, ghost i: nat) returns (r: u64)
    requires i < |src| && i <= 9 && value == Groups(src[..i]) && b == src[i] && shift == 7 * i
    ensures r == Word(src[..i + 1])
  {
    ReadStep(src, i, value);
    r := Or(value, ShiftLeft(b % 128, shift));
  }

  method ReadUnsigned(src: bytes) returns (r: Result<u64>, rest: bytes)
    ensures (r, rest) == Read(src)
  {
    var value: u64 := 0;
    var shift := 0;
    ghost var i := 0;
    rest := src;
    while rest != []
      invariant 0 <= i <= 9 && i <= |src| && shift == 7 * i
      invariant rest == src[i..]
      invariant i <= Terminator(src)
      invariant value == Groups(src[..i])
      decreases |rest|
    {
      var b := rest[0];
      rest := rest[1..];
      value := AddGroup(value, b, shift, src, i);
      if b < 128 {
        return Ok(value), rest;
      }
      shift := shift + 7;
      i := i + 1;
      if shift > 63 {
        return Err("Varint overflow"), rest;
      }
    }
    return Err("Truncated varint"), rest;
  }

  lemma ReadStep(src: bytes, i: nat, value: u64)
    requires i < |src| && i <= 9 && value == Groups(src[..i])
    ensures Or(value, ShiftLeft(src[i] % 128, 7 * i)) == Word(src[..i + 1])
  {
    GroupsBound(src[..i]);
    OrGroup(value, src[i] % 128, i);
    assert src[..i] + [src[i]] == src[..i + 1];
    if i < 9 {
      GroupsAppend(src[..i], src[i]);
    } else {
      TopWord(src[..9], src[9]);
    }
  }

  lemma TopWord(s: bytes, b: byte)
    requires |s| == 9
    ensures Word(s + [b]) == Groups(s) + if b % 128 % 2 == 1 then 0x8000_0000_0000_0000 else 0
  {
    assert (s + [b])[..9] == s;
  }

  // ---------- inversion ----------

  lemma {:induction false} WriteShape(v: nat, t: bytes)
    ensures Terminator(Write(v) + t) == |Write(v)| - 1
    ensures Groups(Write(v)) == v
  {
    var s := Write(v) + t;
    if v >= 128 {
      assert s[1..] == Write(v / 128) + t;
      assert Write(v)[1..] == Write(v / 128);
      WriteShape(v / 128, t);
    }
  }

  lemma ReadAfterWrite(v: u64, t: bytes)
    ensures Read(Write(v) + t) == (Ok(v), t)
  {
    WriteShape(v, t);
    WriteAtMostTen(v);
    WordIsGroups(Write(v), v);
    ReadPrefix(Write(v), t);
  }

  lemma WordIsGroups(s: bytes, v: u64)
    requires |s| <= 10 && Groups(s) == v
    ensures Word(s) == v
  {
    if |s| == 10 {
      assert s == s[..9] + [s[9]];
      GroupsAppend(s[..9], s[9]);
      Power128Nine();
    }
  }

  lemma ReadPrefix(s: bytes, t: bytes)
    requires 0 < |s| <= 10 && Terminator(s + t) == |s| - 1
    ensures Read(s + t) == (Ok(Word(s)), t)
  {
    assert (s + t)[..|s|] == s && (s + t)[|s|..] == t;
  }

  /** Reading any input consumes a prefix of at most ten bytes. */
  lemma ReadConsumes(s: bytes)
    ensures var rest := Read(s).1;
            |s| - 10 <= |rest| <= |s| && rest == s[|s| - |rest|..] &&
            (Read(s).0.Ok? ==> |rest| < |s|)
  {
  }

  // ---------- zigzag ----------

  function Zigzag(v: i64): u64 { if v >= 0 then 2 * v else -2 * v - 1 }

  function Unzigzag(u: u64): i64 { if u % 2 == 0 then u / 2 else -(u / 2) - 1 }

  lemma ZigzagInverse(v: i64, u: u64)
    ensures Unzigzag(Zigzag(v)) == v && Zigzag(Unzigzag(u)) == u
  {
  }

  /** Two's complement bits of a signed value. */
  function Signed64(v: i64): bits { ToBits(if v < 0 then v + U64_MODULUS else v, 64) }

  /** `((value << 1) ^ (value >> 63)) as u64`, the shift right being arithmetic. */
  function ZigzagBits(v: i64): bits {
    var b := Signed64(v);
    Xor([false] + b[..63], Same(b[63], 64))
  }

  /** `((uval >> 1) as i64) ^ (-((uval & 1) as i64))`. */
  function UnzigzagBits(u: u64): bits {
    var b := ToBits(u, 64);
    Xor(b[1..] + [false], Same(b[0], 64))
  }

  lemma {:induction false} ValueOfNot(s: bits)
    ensures Value(Not(s)) == Pow2(|s|) - 1 - Value(s)
  {
    if s != [] {
      assert Not(s)[1..] == Not(s[1..]);
      ValueOfNot(s[1..]);
    }
  }

  lemma {:induction false} ValueDropLast(s: bits)
    requires s != []
    ensures Value(s) == Value(s[..|s| - 1]) + (if s[|s| - 1] then Pow2(|s| - 1) else 0)
  {
    if |s| > 1 {
      ValueDropLast(s[1..]);
      assert s[1..][..|s| - 2] == s[..|s| - 1][1..];
    }
  }

  lemma XorWithSame(b: bits, k: bool)
    ensures Xor(b, Same(k, |b|)) == if k then Not(b) else b
  {
  }

  lemma ShiftedValue(b: bits)
    requires b != []
    ensures var n := |b| - 1;
            Value([false] + b[..n]) == 2 * Value(b) - (if b[n] then 2 * Pow2(n) else 0)
    ensures Value(b[1..] + [false]) == Value(b) / 2
  {
    var up, down := [false] + b[..|b| - 1], b[1..] + [false];
    assert up[1..] == b[..|b| - 1];
    ValueDropLast(b);
    ValueDropLast(down);
    assert down[..|b| - 1] == b[1..];
  }

  /** The same on words of any width `n + 1`. */
  lemma ZigzagWord(b: bits, n: nat, v: int)
    requires |b| == n + 1 && 0 <= v + Pow2(n) && v < Pow2(n)
    requires (v >= 0 ==> Value(b) == v) && (v < 0 ==> Value(b) == v + 2 * Pow2(n))
    ensures var x := Value(Xor([false] + b[..n], Same(b[n], n + 1)));
            (v >= 0 ==> x == 2 * v) && (v < 0 ==> x == -2 * v - 1)
  {
    ValueDropLast(b);
    ShiftedValue(b);
    var shifted := [false] + b[..n];
    XorWithSame(shifted, b[n]);
    ValueOfNot(shifted);
  }

  lemma UnzigzagWord(b: bits, n: nat, v: int)
    requires |b| == n + 1
    requires v == if Value(b) % 2 == 0 then Value(b) / 2 else -(Value(b) / 2) - 1
    ensures var x := Value(Xor(b[1..] + [false], Same(b[0], n + 1)));
            (v >= 0 ==> x == v) && (v < 0 ==> x == v + 2 * Pow2(n))
  {
    ShiftedValue(b);
    assert b[0] <==> Value(b) % 2 == 1;
    var shifted := b[1..] + [false];
    XorWithSame(shifted, b[0]);
    ValueOfNot(shifted);
  }

  lemma ZigzagIsBitwise(v: i64)
    ensures Value(ZigzagBits(v)) == Zigzag(v)
  {
    Pow2Long();
    SignedValue(v);
    ZigzagWord(Signed64(v), 63, v);
  }

  lemma SignedValue(v: i64)
    ensures Value(Signed64(v)) == if v >= 0 then v else v + U64_MODULUS
  {
    Pow2Long();
    ValueOfBits(if v < 0 then v + U64_MODULUS else v, 64);
  }

  lemma UnzigzagIsBitwise(u: u64)
    ensures UnzigzagBits(u) == Signed64(Unzigzag(u))
  {
    UnzigzagValue(u);
    SameValueSameBits(UnzigzagBits(u), Signed64(Unzigzag(u)));
  }

  lemma UnzigzagValue(u: u64)
    ensures Value(UnzigzagBits(u)) == Value(Signed64(Unzigzag(u)))
  {
    Pow2Long();
    ValueOfBits(u, 64);
    SignedValue(Unzigzag(u));
    UnzigzagWord(ToBits(u, 64), 63, Unzigzag(u));
  }

  lemma SameValueSameBits(x: bits, y: bits)
    requires |x| == |y| && Value(x) == Value(y)
    ensures x == y
  {
    BitsOfValue(x);
    BitsOfValue(y);
  }

  // ---------- signed varints ----------

  function WriteSigned(v: i64): (s: bytes)
    ensures s != []
  {
    Write(Zigzag(v))
  }

  /** Numbers of small magnitude take one byte: 0, -1, 1, -2, ... are written 0, 1, 2, 3, ... */
  lemma WriteSmall(v: i64)
    requires -64 <= v < 64
    ensures WriteSigned(v) == [if v >= 0 then 2 * v else -2 * v - 1]
  {
  }

  function ReadSigned(s: bytes): (Result<i64>, bytes) {
    match Read(s)
    case (Ok(u), rest) => (Ok(Unzigzag(u)), rest)
    case (Err(e), rest) => (Err(e), rest)
  }

  lemma ReadAfterWriteSigned(v: i64, t: bytes)
    ensures ReadSigned(WriteSigned(v) + t) == (Ok(v), t) && |WriteSigned(v)| <= 10
  {
    ReadAfterWrite(Zigzag(v), t);
    WriteAtMostTen(Zigzag(v));
    ZigzagInverse(v, 0);
  }
}
