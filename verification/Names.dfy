/** Topic partitions, and numbers as they appear in names: zero-padded decimals. */
module Names {
  import opened Bytes

  datatype TopicPartition = TopicPartition(topic: string, partition: i32)

  function Digit(d: nat): char requires d < 10 { '0' + d as char }

  /** The `w` low decimal digits of `n`, zero padded. */
  function Digits(n: nat, w: nat): (s: string)
    ensures |s| == w
  {
    if w == 0 then "" else Digits(n / 10, w - 1) + [Digit(n % 10)]
  }

  function Pow10(w: nat): nat { if w == 0 then 1 else 10 * Pow10(w - 1) }

  /** How many digits a number has. */
  function Width(n: nat): (w: nat)
    ensures w > 0
  {
    if n < 10 then 1 else 1 + Width(n / 10)
  }

  /** `{:0w}`: all digits, padded with zeros to `w` characters, the sign included. */
  function Padded(n: int, w: nat): string {
    if n < 0 then "-" + Filled(-n, if w > 0 then w - 1 else 0) else Filled(n, w)
  }

  function Filled(n: nat, w: nat): string { Digits(n, if Width(n) > w then Width(n) else w) }

  lemma {:induction false} WidthBound(n: nat, w: nat)
    requires 0 < w && n < Pow10(w)
    ensures Width(n) <= w
  {
    if n >= 10 { WidthBound(n / 10, w - 1); }
  }

  /** Digit `i` from the right is that of place `i`. */
  lemma {:induction false} DigitsPlaces(n: nat, w: nat, i: nat)
    requires i < w
    ensures Pow10(i) > 0 && n / Pow10(i) % 10 < 10 && Digits(n, w)[w - 1 - i] == Digit(n / Pow10(i) % 10)
  {
    Pow10Positive(i);
    if i > 0 {
      DigitsPlaces(n / 10, w - 1, i - 1);
      Pow10Positive(i - 1);
      DivTwice(n, 10, Pow10(i - 1), Pow10(i));
    }
  }

  lemma {:induction false} Pow10Positive(i: nat)
    ensures Pow10(i) > 0
  {
    if i > 0 { Pow10Positive(i - 1); }
  }

  lemma {:induction false} DigitsInjective(a: nat, b: nat, w: nat)
    requires a < Pow10(w) && b < Pow10(w) && Digits(a, w) == Digits(b, w)
    ensures a == b
  {
    if w > 0 {
      var x, y := Digits(a, w), Digits(b, w);
      assert x[..w - 1] == Digits(a / 10, w - 1) && y[..w - 1] == Digits(b / 10, w - 1);
      assert x[w - 1] == Digit(a % 10) && y[w - 1] == Digit(b % 10);
      DigitsInjective(a / 10, b / 10, w - 1);
    }
  }

  lemma {:induction false} DigitsAreDigits(n: nat, w: nat)
    ensures forall i :: 0 <= i < w ==> Digits(n, w)[i] != '-'
  {
    if w > 0 { DigitsAreDigits(n / 10, w - 1); }
  }

  lemma Pow10Large()
    ensures Pow10(19) == 10_000_000_000_000_000_000 && Pow10(20) == 100_000_000_000_000_000_000
  {
    assert Pow10(10) == 10_000_000_000;
  }

  /** A 64-bit number in twenty characters. */
  lemma PaddedTwenty(n: i64)
    ensures var m: int := n;
            && |Padded(n, 20)| == 20
            && Padded(n, 20) == if m < 0 then "-" + Digits(-m, 19) else Digits(m, 20)
  {
    hide Digits, Width, Pow10;
    Pow10Large();
    var m: int := n;
    if m < 0 { WidthBound(-m, 19); } else { WidthBound(m, 20); }
  }

  lemma PaddedInjective(a: i64, b: i64)
    requires Padded(a, 20) == Padded(b, 20)
    ensures a == b
  {
    hide Digits, Pow10, Padded;
    var x: int, y: int := a, b;
    Pow10Large();
    PaddedTwenty(a);
    PaddedTwenty(b);
    if x >= 0 && y >= 0 {
      DigitsInjective(x, y, 20);
    } else if x < 0 && y < 0 {
      assert Padded(a, 20)[1..] == Digits(-x, 19) && Padded(b, 20)[1..] == Digits(-y, 19);
      DigitsInjective(-x, -y, 19);
    } else {
      assert Padded(if x >= 0 then b else a, 20)[0] == '-';
      DigitsAreDigits(if x >= 0 then x else y, 20);
      assert false;
    }
  }
}
