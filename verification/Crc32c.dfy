/**
 * CRC32C: the table-driven loop, its bit-at-a-time specification, the definition of
 * section 12.1 of RFC 3720 as a polynomial remainder, and what the checksum detects.
 * A 32-bit register is the sequence of its bits, bit 0 first.
 */
module Crc32c {
  import opened Bytes
  import opened BitStrings

  type word = w: bits | |w| == 32 witness Same(false, 32)

  // ---------- the reflected shift register ----------

  function Coefficients(f: int -> bool): word { seq(32, i => f(i)) }

  /** The exponents below 32 of the Castagnoli polynomial 0x1EDC6F41. */
  predicate Exponent(e: int) {
    || e == 0 || e == 6 || 8 <= e <= 11 || 13 <= e <= 14
    || 18 <= e <= 20 || 22 <= e <= 23 || 25 <= e <= 28
  }

  /** The reversed polynomial, 0x82F63B78: bit `i` is the coefficient of `x^(31-i)`. */
  const POLY: word := Coefficients(i => Exponent(31 - i))
  const ONES: word := Same(true, 32)
  const ZERO: word := Same(false, 32)

  /** The exponents are those of the source's constant. */
  lemma PolyConstant()
    ensures Value(POLY) == 0x82F63B78
  {
    PolyMiddle();
    PolyNibble(0, false, false, false, true);
    assert POLY[0..] == POLY;
  }

  lemma PolyMiddle()
    ensures Value(POLY[4..]) == 0x82F63B7
  {
    assert Value(POLY[20..]) == 0x82F by { PolyHigh(); }
    PolyNibble(16, false, true, true, false);
    PolyNibble(12, true, true, false, false);
    PolyNibble(8, true, true, false, true);
    PolyNibble(4, true, true, true, false);
  }

  lemma PolyHigh()
    ensures Value(POLY[20..]) == 0x82F
  {
    PolyNibble(28, false, false, false, true);
    PolyNibble(24, false, true, false, false);
    PolyNibble(20, true, true, true, true);
  }

  lemma PolyNibble(i: nat, a: bool, b: bool, c: bool, d: bool)
    requires i + 4 <= 32
    requires a == Exponent(31 - i) && b == Exponent(30 - i)
    requires c == Exponent(29 - i) && d == Exponent(28 - i)
    ensures Value(POLY[i..]) == (if a then 1 else 0) + (if b then 2 else 0) + (if c then 4 else 0)
                              + (if d then 8 else 0) + 16 * Value(POLY[i + 4..])
  {
    Nibble(POLY, i, a, b, c, d);
  }

  function BitStep(c: word): word { ShiftDown(c, POLY) }

  function ShiftDown(c: word, poly: word): word {
    var shifted := c[1..] + [false];
    if c[0] then Xor(shifted, poly) else shifted
  }

  function Steps(c: word, n: nat): word
    decreases n, |c|
  {
    if n == 0 then c else Steps(BitStep(c), n - 1)
  }

  function Widen(b: byte): word { ToBits(b, 8) + Same(false, 24) }

  /** `(c & 0xFF) as usize`. */
  function LowByte(c: word): byte {
    Pow2Word();
    Value(c[..8])
  }

  /** The register after `data`, one byte at a time and one bit at a time within it. */
  function Register(c: word, data: bytes): word
    decreases |data|
  {
    if data == [] then c else Register(Steps(Xor(c, Widen(data[0])), 8), data[1..])
  }

  function Checksum(data: bytes): u32 {
    Pow2Word();
    Value(Not(Register(ONES, data)))
  }

  // ---------- the table-driven implementation ----------

  ghost predicate IsTable(table: seq<word>) {
    |table| == 256 && forall k: nat :: k < 256 ==> table[k] == Steps(Widen(k), 8)
  }

  method BuildTable() returns (table: seq<word>)
    ensures IsTable(table)
  {
    var a := new word[256](_ => Same(false, 32));
    var i := 0;
    while i < 256
      invariant 0 <= i <= 256
      invariant forall k: nat :: k < i ==> a[k] == Steps(Widen(k), 8)
    {
      var crc := TableEntry(i);
      a[i] := crc;
      i := i + 1;
    }
    table := a[..];
  }

  /** The inner loop of the table construction. */
  method TableEntry(i: byte) returns (crc: word)
    ensures crc == Steps(Widen(i), 8)
  {
    crc := Widen(i);
    var j := 0;
    while j < 8
      invariant 0 <= j <= 8
      invariant Steps(crc, 8 - j) == Steps(Widen(i), 8)
    {
      if crc[0] {
        crc := Xor(crc[1..] + [false], POLY);
      } else {
        crc := crc[1..] + [false];
      }
      j := j + 1;
    }
  }

  method ComputeCrc32c(data: bytes) returns (result: u32)
    ensures result == Checksum(data)
  {
    var table := BuildTable();
    var crc: word := ONES;
    assert data[0..] == data;
    for i := 0 to |data|
      invariant Register(crc, data[i..]) == Register(ONES, data)
    {
      var index := LowByte(Xor(crc, Widen(data[i])));
      var next: word := Xor(crc[8..] + Same(false, 8), table[index]);
      RegisterStep(table, crc, data[i..], next);
      assert data[i..][1..] == data[i + 1..];
      crc := next;
    }
    XorOnes(crc);
    result := Value(Xor(crc, ONES));
  }

  /** One iteration of that loop is one byte of `Register`. */
  lemma RegisterStep(table: seq<word>, crc: word, data: bytes, next: word)
    requires IsTable(table) && data != []
    requires next == Xor(crc[8..] + Same(false, 8), table[LowByte(Xor(crc, Widen(data[0])))])
    ensures Register(next, data[1..]) == Register(crc, data)
  {
    TableStep(crc, data[0]);
  }

  lemma XorOnes(crc: word)
    ensures Xor(crc, ONES) == Not(crc) && Value(Not(crc)) < 0x1_0000_0000
  {
    Pow2Word();
  }

  lemma BitStepXor(x: word, y: word)
    ensures BitStep(Xor(x, y)) == Xor(BitStep(x), BitStep(y))
  {
    ShiftDownXor(x, y, POLY);
  }

  lemma ShiftDownXor(x: word, y: word, p: word)
    ensures ShiftDown(Xor(x, y), p) == Xor(ShiftDown(x, p), ShiftDown(y, p))
  {
  }

  lemma {:induction false} StepsXor(x: word, y: word, n: nat)
    ensures Steps(Xor(x, y), n) == Xor(Steps(x, n), Steps(y, n))
    decreases n
  {
    if n > 0 {
      BitStepXor(x, y);
      StepsXor(BitStep(x), BitStep(y), n - 1);
    }
  }

  /** A register whose `n` low bits are clear is only shifted. */
  lemma {:induction false} ShiftOut(n: nat, w: bits)
    requires n + |w| == 32
    ensures Steps(Same(false, n) + w, n) == w + Same(false, n)
    decreases n
  {
    if n > 0 {
      var c: word := Same(false, n) + w;
      assert BitStep(c) == Same(false, n - 1) + (w + [false]);
      ShiftOut(n - 1, w + [false]);
      assert (w + [false]) + Same(false, n - 1) == w + Same(false, n);
    } else {
      assert Same(false, 0) + w == w == w + Same(false, 0);
    }
  }

  /** Eight bit steps are one table step: shift a byte out and xor in what it contributes. */
  lemma TableStep(crc: word, b: byte)
    ensures var c := Xor(crc, Widen(b));
            Steps(c, 8) == Xor(crc[8..] + Same(false, 8), Steps(Widen(LowByte(c)), 8))
  {
    var c := Xor(crc, Widen(b));
    var low: word := c[..8] + Same(false, 24);
    var high: word := Same(false, 8) + c[8..];
    BitsOfValue(c[..8]);
    assert c == Xor(high, low);
    StepsXor(high, low, 8);
    ShiftOut(8, c[8..]);
    assert c[8..] == crc[8..];
  }

  // ---------- section 12.1 of RFC 3720: a polynomial remainder ----------

  /** The generator without its leading term: bit `i` is the coefficient of `x^i`. */
  const GENERATOR: word := Coefficients(i => Exponent(i))

  /** `r * x` modulo the generator. */
  function TimesX(r: word): word { ShiftUp(r, GENERATOR) }

  function ShiftUp(r: word, generator: word): word {
    var shifted := [false] + r[..31];
    if r[31] then Xor(shifted, generator) else shifted
  }

  function TimesXn(r: word, n: nat): word
    decreases n, |r|
  {
    if n == 0 then r else TimesXn(TimesX(r), n - 1)
  }

  function Low(b: bool): word { [b] + Same(false, 31) }
  function High(b: bool): word { Same(false, 31) + [b] }

  /** Long division: the remainder of `r * x^n + m(x)`, `m` given highest coefficient first. */
  function Remainder(r: word, m: bits): word
    decreases |m|
  {
    if m == [] then r else Remainder(Xor(TimesX(r), Low(m[0])), m[1..])
  }

  /** Message bits: bytes in order, least significant bit of each first. */
  function MessageBits(data: bytes): bits {
    if data == [] then [] else ToBits(data[0], 8) + MessageBits(data[1..])
  }

  function ComplementFirst(m: bits, n: nat): (r: bits)
    ensures |r| == |m|
  {
    seq(|m|, i requires 0 <= i < |m| => if i < n then !m[i] else m[i])
  }

  function Reverse(r: word): word { seq(32, i requires 0 <= i < 32 => r[31 - i]) }

  /**
   * The standard's definition: append 32 zero bits, complement the first 32 bits, divide,
   * complement the remainder and reflect it.
   */
  function Rfc3720Crc(data: bytes): u32 {
    var message := ComplementFirst(MessageBits(data) + Same(false, 32), 32);
    var remainder := Reverse(Remainder(ZERO, message));
    XorOnes(remainder);
    Value(Not(remainder))
  }

  /** Division fed at the top of the register, as shift-register implementations do it. */
  function Direct(r: word, m: bits): word
    decreases |m|
  {
    if m == [] then r else Direct(TimesX(Xor(r, High(m[0]))), m[1..])
  }

  lemma TimesXXor(x: word, y: word)
    ensures TimesX(Xor(x, y)) == Xor(TimesX(x), TimesX(y))
  {
    ShiftUpXor(x, y, GENERATOR);
  }

  lemma ShiftUpXor(x: word, y: word, g: word)
    ensures ShiftUp(Xor(x, y), g) == Xor(ShiftUp(x, g), ShiftUp(y, g))
  {
  }

  lemma {:induction false} TimesXnXor(x: word, y: word, n: nat)
    ensures TimesXn(Xor(x, y), n) == Xor(TimesXn(x, n), TimesXn(y, n))
    decreases n
  {
    if n > 0 {
      TimesXXor(x, y);
      TimesXnXor(TimesX(x), TimesX(y), n - 1);
    }
  }

  lemma {:induction false} TimesXnLast(r: word, n: nat)
    ensures TimesXn(TimesX(r), n) == TimesX(TimesXn(r, n))
    decreases n
  {
    if n > 0 { TimesXnLast(TimesX(r), n - 1); }
  }

  /** The constant term needs 32 multiplications to be reduced for the first time. */
  lemma {:induction false} TimesXnLow(b: bool, n: nat)
    requires n < 32
    ensures TimesXn(Low(b), n) == Same(false, n) + [b] + Same(false, 31 - n)
  {
    if n > 0 {
      TimesXnLow(b, n - 1);
      TimesXnLast(Low(b), n - 1);
    }
  }

  /** Feeding a coefficient at the top equals feeding it at the bottom, 32 shifts ahead. */
  lemma {:induction false} DirectIsShifted(r: word, m: bits)
    ensures TimesXn(Remainder(r, m), 32) == Direct(TimesXn(r, 32), m)
    decreases |m|
  {
    if m != [] {
      var top := TimesXn(r, 32);
      FeedTop(r, m[0]);
      DirectIsShifted(Xor(TimesX(r), Low(m[0])), m[1..]);
    }
  }

  lemma FeedTop(r: word, b: bool)
    ensures TimesXn(Xor(TimesX(r), Low(b)), 32) == TimesX(Xor(TimesXn(r, 32), High(b)))
  {
    TimesXnXor(TimesX(r), Low(b), 32);
    TimesXnLast(r, 32);
    TimesXnLow(b, 31);
    TimesXnLast(Low(b), 31);
    assert Same(false, 31) + [b] + Same(false, 0) == High(b);
    TimesXXor(TimesXn(r, 32), High(b));
  }

  lemma {:induction false} DirectXor(x: word, y: word, m: bits)
    ensures Direct(Xor(x, y), m) == Xor(Direct(x, m), TimesXn(y, |m|))
    decreases |m|
  {
    if m != [] {
      var b := High(m[0]);
      assert Xor(Xor(x, y), b) == Xor(Xor(x, b), y);
      TimesXXor(Xor(x, b), y);
      DirectXor(TimesX(Xor(x, b)), TimesX(y), m[1..]);
    }
  }

  lemma {:induction false} RemainderXor(x: word, y: word, m: bits, k: bits)
    requires |m| == |k|
    ensures Remainder(Xor(x, y), Xor(m, k)) == Xor(Remainder(x, m), Remainder(y, k))
    decreases |m|
  {
    if m != [] {
      var x', y' := Xor(TimesX(x), Low(m[0])), Xor(TimesX(y), Low(k[0]));
      TimesXXor(x, y);
      assert Xor(Xor(TimesX(x), TimesX(y)), Low(Xor(m, k)[0])) == Xor(x', y');
      assert Xor(m, k)[1..] == Xor(m[1..], k[1..]);
      RemainderXor(x', y', m[1..], k[1..]);
    }
  }

  lemma {:induction false} RemainderSplit(r: word, m: bits, k: bits)
    ensures Remainder(r, m + k) == Remainder(Remainder(r, m), k)
    decreases |m|
  {
    if m == [] {
      assert m + k == k;
    } else {
      assert (m + k)[1..] == m[1..] + k;
      RemainderSplit(Xor(TimesX(r), Low(m[0])), m[1..], k);
    }
  }

  lemma {:induction false} RemainderOfZeros(r: word, n: nat)
    ensures Remainder(r, Same(false, n)) == TimesXn(r, n)
    decreases n
  {
    if n > 0 {
      assert Xor(TimesX(r), Low(false)) == TimesX(r);
      assert Same(false, n)[1..] == Same(false, n - 1);
      RemainderOfZeros(TimesX(r), n - 1);
    }
  }

  function Filled(k: nat): word { seq(32, i => i < k) }

  /** Fewer than 33 coefficients are their own remainder. */
  lemma {:induction false} RemainderOfOnes(n: nat, k: nat)
    requires n + k <= 32
    ensures Remainder(Filled(k), Same(true, n)) == Filled(n + k)
    decreases n
  {
    if n > 0 {
      FillOne(k);
      assert Same(true, n)[1..] == Same(true, n - 1);
      RemainderOfOnes(n - 1, k + 1);
    }
  }

  lemma FillOne(k: nat)
    requires k < 32
    ensures Xor(TimesX(Filled(k)), Low(true)) == Filled(k + 1)
  {
  }

  lemma {:induction false} TimesXnZero(n: nat)
    ensures TimesXn(ZERO, n) == ZERO
  {
    if n > 0 {
      assert TimesX(ZERO) == ZERO;
      TimesXnZero(n - 1);
    }
  }

  /** Preloading the register with ones is complementing the first 32 message bits. */
  lemma PreloadIsComplement(m: bits)
    ensures Direct(ONES, m) == Remainder(ZERO, ComplementFirst(m + Same(false, 32), 32))
  {
    var padded := m + Same(false, 32);
    var flips := Same(true, 32) + Same(false, |m|);
    assert ComplementFirst(padded, 32) == Xor(padded, flips);
    assert Xor(ZERO, ZERO) == ZERO;
    RemainderXor(ZERO, ZERO, padded, flips);
    PaddedRemainder(m);
    FlipsRemainder(32, |m|);
    assert Filled(32) == ONES;
    assert Xor(ZERO, ONES) == ONES;
    DirectXor(ZERO, ONES, m);
  }

  lemma PaddedRemainder(m: bits)
    ensures Remainder(ZERO, m + Same(false, 32)) == Direct(ZERO, m)
  {
    RemainderSplit(ZERO, m, Same(false, 32));
    RemainderOfZeros(Remainder(ZERO, m), 32);
    DirectIsShifted(ZERO, m);
    TimesXnZero(32);
  }

  lemma FlipsRemainder(k: nat, n: nat)
    requires k <= 32
    ensures Remainder(ZERO, Same(true, k) + Same(false, n)) == TimesXn(Filled(k), n)
  {
    RemainderSplit(ZERO, Same(true, k), Same(false, n));
    assert Filled(0) == ZERO;
    RemainderOfOnes(k, 0);
    RemainderOfZeros(Filled(k), n);
  }

  /** The reflected register, one message bit at a time. */
  function BitRegister(c: word, m: bits): word
    decreases |m|
  {
    if m == [] then c else BitRegister(BitStep(Xor(c, Low(m[0]))), m[1..])
  }

  lemma {:induction false} BitRegisterIsReflected(c: word, m: bits)
    ensures Reverse(BitRegister(c, m)) == Direct(Reverse(c), m)
    decreases |m|
  {
    if m != [] {
      var fed := Xor(c, Low(m[0]));
      assert Reverse(fed) == Xor(Reverse(c), High(m[0]));
      ReverseStep(fed);
      BitRegisterIsReflected(BitStep(fed), m[1..]);
    }
  }

  lemma ReverseStep(c: word)
    ensures Reverse(BitStep(c)) == TimesX(Reverse(c))
  {
    assert Reverse(POLY) == GENERATOR;
    ReverseShift(c, POLY);
  }

  lemma ReverseShift(c: word, poly: word)
    ensures Reverse(ShiftDown(c, poly)) == ShiftUp(Reverse(c), Reverse(poly))
  {
  }

  /** Up to 32 bits may be fed at once. */
  lemma {:induction false} FeedAtOnce(c: word, m: bits)
    requires |m| <= 32
    ensures BitRegister(c, m) == Steps(Xor(c, m + Same(false, 32 - |m|)), |m|)
    decreases |m|
  {
    var pad := m + Same(false, 32 - |m|);
    if m == [] {
      assert Xor(c, pad) == c;
    } else {
      var first := Xor(c, Low(m[0]));
      var later: word := [false] + m[1..] + Same(false, 32 - |m|);
      assert Xor(c, pad) == Xor(first, later);
      BitStepXor(first, later);
      assert BitStep(later) == m[1..] + Same(false, 33 - |m|);
      FeedAtOnce(BitStep(first), m[1..]);
    }
  }

  lemma {:induction false} BitRegisterSplit(c: word, m: bits, k: bits)
    ensures BitRegister(c, m + k) == BitRegister(BitRegister(c, m), k)
    decreases |m|
  {
    if m == [] {
      assert m + k == k;
    } else {
      assert (m + k)[1..] == m[1..] + k;
      BitRegisterSplit(BitStep(Xor(c, Low(m[0]))), m[1..], k);
    }
  }

  lemma {:induction false} RegisterIsBitRegister(c: word, data: bytes)
    ensures Register(c, data) == BitRegister(c, MessageBits(data))
    decreases |data|
  {
    if data != [] {
      FeedAtOnce(c, ToBits(data[0], 8));
      BitRegisterSplit(c, ToBits(data[0], 8), MessageBits(data[1..]));
      RegisterIsBitRegister(Steps(Xor(c, Widen(data[0])), 8), data[1..]);
    }
  }

  /** The checksum is the one the standard defines, on every byte string. */
  lemma MatchesRfc3720(data: bytes)
    ensures Checksum(data) == Rfc3720Crc(data)
  {
    var m := MessageBits(data);
    RegisterIsBitRegister(ONES, data);
    BitRegisterIsReflected(ONES, m);
    assert Reverse(ONES) == ONES;
    PreloadIsComplement(m);
    var reg := Register(ONES, data);
    assert Reverse(Reverse(reg)) == reg;
  }

  // ---------- error detection ----------

  lemma BitStepInjective(x: word, y: word)
    requires BitStep(x) == BitStep(y)
    ensures x == y
  {
    assert POLY[31];
    assert BitStep(x)[31] == x[0] && BitStep(y)[31] == y[0];
    var sx, sy := x[1..] + [false], y[1..] + [false];
    if x[0] { XorInjective(sx, sy, POLY); }
    assert x == [x[0]] + sx[..31] && y == [y[0]] + sy[..31];
  }

  lemma {:induction false} StepsInjective(x: word, y: word, n: nat)
    requires Steps(x, n) == Steps(y, n)
    ensures x == y
    decreases n
  {
    if n > 0 {
      StepsInjective(BitStep(x), BitStep(y), n - 1);
      BitStepInjective(x, y);
    }
  }

  lemma XorInjective(x: word, y: word, k: word)
    requires Xor(x, k) == Xor(y, k)
    ensures x == y
  {
    assert Xor(Xor(x, k), k) == x && Xor(Xor(y, k), k) == y;
  }

  lemma {:induction false} BitRegisterInjective(x: word, y: word, m: bits)
    requires BitRegister(x, m) == BitRegister(y, m)
    ensures x == y
    decreases |m|
  {
    if m != [] {
      var b := Low(m[0]);
      BitRegisterInjective(BitStep(Xor(x, b)), BitStep(Xor(y, b)), m[1..]);
      BitStepInjective(Xor(x, b), Xor(y, b));
      XorInjective(x, y, b);
    }
  }

  lemma {:induction false} MessageBitsSplit(a: bytes, b: bytes)
    ensures MessageBits(a + b) == MessageBits(a) + MessageBits(b)
  {
    if a == [] {
      assert a + b == b;
    } else {
      assert (a + b)[1..] == a[1..] + b;
      MessageBitsSplit(a[1..], b);
    }
  }

  lemma {:induction false} MessageBitsInjective(a: bytes, b: bytes)
    requires |a| == |b| && MessageBits(a) == MessageBits(b)
    ensures a == b
  {
    if a != [] {
      var ma, mb := MessageBits(a), MessageBits(b);
      assert ma[..8] == ToBits(a[0], 8) && mb[..8] == ToBits(b[0], 8);
      assert ma[8..] == MessageBits(a[1..]) && mb[8..] == MessageBits(b[1..]);
      Pow2Word();
      ValueOfBits(a[0], 8);
      ValueOfBits(b[0], 8);
      MessageBitsInjective(a[1..], b[1..]);
      assert a == [a[0]] + a[1..] && b == [b[0]] + b[1..];
    }
  }

  lemma {:induction false} MessageBitsLength(a: bytes)
    ensures |MessageBits(a)| == 8 * |a|
  {
    if a != [] { MessageBitsLength(a[1..]); }
  }

  /** Four bytes fed to one register value determine each other and the result. */
  lemma WindowInjective(c: word, x: bytes, y: bytes)
    requires |x| == |y| <= 4
    requires BitRegister(c, MessageBits(x)) == BitRegister(c, MessageBits(y))
    ensures x == y
  {
    var mx, my := MessageBits(x), MessageBits(y);
    MessageBitsLength(x);
    MessageBitsLength(y);
    var px: word := mx + Same(false, 32 - |mx|);
    var py: word := my + Same(false, 32 - |my|);
    FeedAtOnce(c, mx);
    FeedAtOnce(c, my);
    StepsInjective(Xor(c, px), Xor(c, py), |mx|);
    assert Xor(px, c) == Xor(c, px) && Xor(py, c) == Xor(c, py);
    XorInjective(px, py, c);
    assert mx == px[..|mx|] && my == py[..|mx|];
    MessageBitsInjective(x, y);
  }

  lemma ValueInjective(x: word, y: word)
    requires Value(x) == Value(y)
    ensures x == y
  {
    BitsOfValue(x);
    BitsOfValue(y);
  }

  /**
   * Every change confined to four consecutive bytes, and so every change of a single byte,
   * changes the checksum.
   */
  lemma DetectsBursts(prefix: bytes, x: bytes, y: bytes, suffix: bytes)
    requires |x| == |y| <= 4 && x != y
    ensures Checksum(prefix + x + suffix) != Checksum(prefix + y + suffix)
  {
    if Checksum(prefix + x + suffix) == Checksum(prefix + y + suffix) {
      var rx, ry := Register(ONES, prefix + x + suffix), Register(ONES, prefix + y + suffix);
      ValueInjective(Not(rx), Not(ry));
      assert Not(Not(rx)) == rx && Not(Not(ry)) == ry;
      RegisterWindow(prefix, x, suffix);
      RegisterWindow(prefix, y, suffix);
      var c := BitRegister(ONES, MessageBits(prefix));
      BitRegisterInjective(BitRegister(c, MessageBits(x)), BitRegister(c, MessageBits(y)), MessageBits(suffix));
      WindowInjective(c, x, y);
    }
  }

  lemma RegisterWindow(prefix: bytes, x: bytes, suffix: bytes)
    ensures Register(ONES, prefix + x + suffix)
         == BitRegister(BitRegister(BitRegister(ONES, MessageBits(prefix)), MessageBits(x)), MessageBits(suffix))
  {
    var m, mx := MessageBits(prefix), MessageBits(x);
    RegisterIsBitRegister(ONES, prefix + x + suffix);
    MessageBitsSplit(prefix + x, suffix);
    MessageBitsSplit(prefix, x);
    BitRegisterSplit(ONES, m + mx, MessageBits(suffix));
    BitRegisterSplit(ONES, m, mx);
  }
}
