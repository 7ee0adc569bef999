/** Byte strings as Go sees them, their decimal numerals, and Go's `<` on strings. */
module Bytes {
  type Byte = b: int | 0 <= b < 256

  /** A Go string or byte slice: any sequence of bytes, not only valid UTF-8. */
  type Text = seq<Byte>

  const QUOTE: Byte := 34
  const COMMA: Byte := 44
  const MINUS: Byte := 45
  const DOT: Byte := 46
  const ZERO: Byte := 48
  const LF: Byte := 10
  const CR: Byte := 13
  const SPACE: Byte := 32

  predicate IsDigit(b: Byte) {
    ZERO <= b <= 57
  }

  predicate AllDigits(t: Text) {
    forall i :: 0 <= i < |t| ==> IsDigit(t[i])
  }

  /** The base-10 numeral without leading zeros, as strconv.FormatUint and %d print it. */
  function Digits(n: nat): (t: Text)
    ensures |t| > 0 && AllDigits(t) && (|t| > 1 ==> t[0] != ZERO)
  {
    if n < 10 then [ZERO + n] else Digits(n / 10) + [ZERO + n % 10]
  }

  /** The number a run of digits denotes; leading zeros are allowed. */
  function DigitsValue(t: Text): nat
    requires AllDigits(t)
  {
    if t == [] then 0 else 10 * DigitsValue(t[..|t| - 1]) + (t[|t| - 1] - ZERO)
  }

  lemma {:induction false} DigitsRoundTrip(n: nat)
    ensures DigitsValue(Digits(n)) == n
  {
    if n >= 10 {
      DigitsRoundTrip(n / 10);
      assert Digits(n)[..|Digits(n)| - 1] == Digits(n / 10);
    }
  }

  /** A numeral without leading zeros is the one that is written for its value. */
  lemma {:induction false} ShortestNumeral(t: Text)
    requires t != [] && AllDigits(t) && (|t| > 1 ==> t[0] != ZERO)
    ensures Digits(DigitsValue(t)) == t
  {
    if |t| > 1 {
      var init := t[..|t| - 1];
      ShortestNumeral(init);
      PositiveNumeral(init);
      assert t == init + [t[|t| - 1]];
    } else {
      assert DigitsValue(t[..0]) == 0;
    }
  }

  lemma {:induction false} PositiveNumeral(t: Text)
    requires t != [] && AllDigits(t) && t[0] != ZERO
    ensures DigitsValue(t) > 0
  {
    if |t| > 1 {
      PositiveNumeral(t[..|t| - 1]);
    }
  }

  /** How many bytes at the front of t are digits. */
  function DigitRun(t: Text): (k: nat)
    ensures k <= |t| && AllDigits(t[..k])
    ensures k < |t| ==> !IsDigit(t[k])
  {
    if t == [] || !IsDigit(t[0]) then 0
    else
      assert forall i :: 0 < i <= DigitRun(t[1..]) ==> t[i] == t[1..][i - 1];
      1 + DigitRun(t[1..])
  }

  /** A numeral followed by anything but a digit is read back as exactly that numeral. */
  lemma DigitRunOfNumeral(d: Text, rest: Text)
    requires AllDigits(d)
    requires rest == [] || !IsDigit(rest[0])
    ensures DigitRun(d + rest) == |d|
  {
    var whole := d + rest;
    assert forall i :: 0 <= i < |d| ==> whole[i] == d[i];
    assert rest != [] ==> whole[|d|] == rest[0];
    assert forall k :: |d| < k <= |whole| ==> whole[..k][|d|] == rest[0];
  }

  /** A numeral: one digit or more, no leading zero, no negative zero. */
  predicate IsNumeral(t: Text) {
    var digits := if t != [] && t[0] == MINUS then t[1..] else t;
    && digits != [] && AllDigits(digits)
    && (digits[0] == ZERO ==> t == [ZERO])
  }

  /** The integer a numeral denotes. */
  function NumeralValue(t: Text): int
    requires IsNumeral(t)
  {
    var negative := t[0] == MINUS;
    var n: int := DigitsValue(if negative then t[1..] else t);
    if negative then -n else n
  }

  /** strconv.FormatInt in base 10. */
  function FormatInt(n: int): (t: Text)
    ensures |t| > 0
  {
    if n < 0 then [MINUS] + Digits(-n) else Digits(n)
  }

  /** What FormatInt writes is the one numeral of its value. */
  lemma FormatIntMeaning(n: int, t: Text)
    ensures t == FormatInt(n) <==>
              && IsNumeral(t)
              && n == NumeralValue(t)
  {
    FormatIsNumeral(n);
    if IsNumeral(t) {
      if t[0] == MINUS {
        ShortestNumeral(t[1..]);
        PositiveNumeral(t[1..]);
        assert t == [MINUS] + t[1..];
      } else {
        ShortestNumeral(t);
      }
    }
  }

  lemma FormatIsNumeral(n: int)
    ensures var t := FormatInt(n);
            IsNumeral(t) && n == NumeralValue(t)
  {
    var d := Digits(if n < 0 then -n else n);
    DigitsRoundTrip(if n < 0 then -n else n);
    assert FormatInt(n)[1..] == d || n >= 0;
    if d[0] == ZERO {
      assert d == [ZERO];
      assert DigitsValue(d[..0]) == 0;
    }
  }

  /** Go's `<` on strings: byte-wise lexicographic order. */
  predicate Less(a: Text, b: Text) {
    b != [] && (a == [] || a[0] < b[0] || (a[0] == b[0] && Less(a[1..], b[1..])))
  }

  /** Less holds when a is a proper prefix of b, and otherwise when at the first place where they
      differ a has the smaller byte. */
  lemma {:induction false} LessMeaning(a: Text, b: Text)
    ensures Less(a, b) <==> a < b || exists i :: DifferAt(a, b, i) && a[i] < b[i]
  {
    if a != [] && b != [] && a[0] == b[0] {
      LessMeaning(a[1..], b[1..]);
      if i :| DifferAt(a[1..], b[1..], i) && a[1..][i] < b[1..][i] {
        assert DifferAt(a, b, i + 1);
      }
      if i :| DifferAt(a, b, i) && a[i] < b[i] {
        assert a[..i][1..] == a[1..][..i - 1] && b[..i][1..] == b[1..][..i - 1];
        assert DifferAt(a[1..], b[1..], i - 1);
      }
      assert a < b <==> a[1..] < b[1..];
    } else if a != [] && b != [] {
      assert DifferAt(a, b, 0);
      assert forall i :: DifferAt(a, b, i) ==> i == 0;
    }
  }

  /** Both have a byte at i, and they first differ there. */
  predicate DifferAt(a: Text, b: Text, i: int) {
    0 <= i < |a| && i < |b| && a[..i] == b[..i] && a[i] != b[i]
  }

  lemma {:induction false} LessTrichotomy(a: Text, b: Text)
    ensures Less(a, b) || Less(b, a) || a == b
    ensures !(Less(a, b) && Less(b, a))
    ensures Less(a, b) ==> a != b
  {
    if a != [] && b != [] {
      assert a == [a[0]] + a[1..] && b == [b[0]] + b[1..];
      LessTrichotomy(a[1..], b[1..]);
    }
  }

  lemma {:induction false} LessTransitive(a: Text, b: Text, c: Text)
    requires Less(a, b) && Less(b, c)
    ensures Less(a, c)
  {
    if a != [] && a[0] == b[0] == c[0] {
      LessTransitive(a[1..], b[1..], c[1..]);
    }
  }
}
