/** UTF-8 as the Go runtime decodes and encodes it, and the line-ending normalization. */
module Utf8 {
  import opened Bytes

  type Rune = r: int | 0 <= r <= 0x10FFFF

  predicate Cont(t: Text, i: nat) {
    i < |t| && 0x80 <= t[i] < 0xC0
  }

  /** Byte i of t as a plain integer, for arithmetic that leaves the byte range. */
  function At(t: Text, i: nat): int
    requires i < |t|
  {
    t[i]
  }

  /** Length of the well-formed rune at the front of t, or 0 when there is none. */
  function RuneLen(t: Text): (k: nat)
    ensures k <= |t| && k <= 4
  {
    if t == [] then 0
    else if t[0] < 0x80 then 1
    else if 0xC2 <= t[0] < 0xE0 && Cont(t, 1) then 2
    else if 0xE0 <= t[0] < 0xF0 && Cont(t, 1) && Cont(t, 2)
            && (t[0] == 0xE0 ==> 0xA0 <= t[1]) && (t[0] == 0xED ==> t[1] < 0xA0) then 3
    else if 0xF0 <= t[0] < 0xF5 && Cont(t, 1) && Cont(t, 2) && Cont(t, 3)
            && (t[0] == 0xF0 ==> 0x90 <= t[1]) && (t[0] == 0xF4 ==> t[1] < 0x90) then 4
    else 0
  }

  /** utf8.ValidString. */
  predicate Valid(t: Text)
    decreases |t|
  {
    t == [] || (RuneLen(t) > 0 && Valid(t[RuneLen(t)..]))
  }

  /** The rune a `range` loop yields at the front of t. */
  function FirstRune(t: Text): (r: Rune)
    requires RuneLen(t) > 0
    ensures r < 0x80 <==> RuneLen(t) == 1
    ensures r < 0x80 ==> r == t[0]
  {
    match RuneLen(t)
    case 1 => t[0]
    case 2 => (At(t, 0) - 0xC0) * 64 + (At(t, 1) - 0x80)
    case 3 => (At(t, 0) - 0xE0) * 4096 + (At(t, 1) - 0x80) * 64 + (At(t, 2) - 0x80)
    case _ => (At(t, 0) - 0xF0) * 262144 + (At(t, 1) - 0x80) * 4096 + (At(t, 2) - 0x80) * 64 + (At(t, 3) - 0x80)
  }

  /** strings.Builder.WriteRune. */
  function EncodeRune(r: Rune): Text {
    if r < 0x80 then [r]
    else if r < 0x800 then [0xC0 + r / 64, 0x80 + r % 64]
    else if r < 0x10000 then [0xE0 + r / 4096, 0x80 + r / 64 % 64, 0x80 + r % 64]
    else [0xF0 + r / 262144, 0x80 + r / 4096 % 64, 0x80 + r / 64 % 64, 0x80 + r % 64]
  }

  lemma SixBits(hi: int, lo: int)
    requires 0 <= lo < 64
    ensures (hi * 64 + lo) / 64 == hi && (hi * 64 + lo) % 64 == lo
  {}

  /** Writing back a decoded rune reproduces the bytes it was read from. */
  lemma EncodeDecodedRune(t: Text)
    requires RuneLen(t) > 0
    ensures EncodeRune(FirstRune(t)) == t[..RuneLen(t)]
    ensures RuneLen(t) > 1 ==> forall i :: 0 <= i < RuneLen(t) ==> t[i] >= 0x80
  {
    match RuneLen(t)
    case 1 =>
    case 2 =>
      SixBits(At(t, 0) - 0xC0, At(t, 1) - 0x80);
    case 3 =>
      EncodeDecoded3(t);
    case _ =>
      EncodeDecoded4(t);
  }

  lemma EncodeDecoded3(t: Text)
    requires RuneLen(t) == 3
    ensures EncodeRune(FirstRune(t)) == t[..3]
  {
    var r := FirstRune(t);
    var a, b, c := At(t, 0) - 0xE0, At(t, 1) - 0x80, At(t, 2) - 0x80;
    assert r == (a * 64 + b) * 64 + c;
    SixBits(a * 64 + b, c);
    SixBits(a, b);
    assert r / 4096 == r / 64 / 64;
  }

  lemma EncodeDecoded4(t: Text)
    requires RuneLen(t) == 4
    ensures EncodeRune(FirstRune(t)) == t[..4]
  {
    var r := FirstRune(t);
    var a, b, c, d := At(t, 0) - 0xF0, At(t, 1) - 0x80, At(t, 2) - 0x80, At(t, 3) - 0x80;
    assert r == ((a * 64 + b) * 64 + c) * 64 + d;
    SixBits((a * 64 + b) * 64 + c, d);
    SixBits(a * 64 + b, c);
    SixBits(a, b);
    assert r / 4096 == r / 64 / 64 && r / 262144 == r / 64 / 64 / 64;
  }

  /** A Unicode scalar value: any code point but a surrogate. */
  predicate IsScalar(r: Rune) {
    r < 0xD800 || 0xE000 <= r
  }

  /** What is read at the front of a string is exactly the encoding of a scalar value, the shortest
      one, and every encoded scalar value is read back. */
  lemma RuneMeaning(t: Text, r: Rune, rest: Text)
    ensures RuneLen(t) > 0 ==> IsScalar(FirstRune(t)) && EncodeRune(FirstRune(t)) == t[..RuneLen(t)]
    ensures IsScalar(r) ==> var u := EncodeRune(r) + rest; RuneLen(u) == |EncodeRune(r)| && FirstRune(u) == r
  {
    if RuneLen(t) > 0 {
      EncodeDecodedRune(t);
      DecodedIsScalar(t);
    }
    if IsScalar(r) {
      EncodedIsRead(r, rest);
    }
  }

  lemma DecodedIsScalar(t: Text)
    requires RuneLen(t) > 0
    ensures IsScalar(FirstRune(t))
  {}

  lemma EncodedIsRead(r: Rune, rest: Text)
    requires IsScalar(r)
    ensures var u := EncodeRune(r) + rest; RuneLen(u) == |EncodeRune(r)| && FirstRune(u) == r
  {
    var e := EncodeRune(r);
    var u := e + rest;
    assert forall i :: 0 <= i < |e| ==> u[i] == e[i];
    if 0x800 <= r < 0x10000 {
      assert r / 64 / 64 == r / 4096;
    } else if r >= 0x10000 {
      assert r / 64 / 64 == r / 4096 && r / 4096 / 64 == r / 262144;
    }
  }

  /** A string is valid exactly when it is a sequence of encoded scalar values. */
  lemma ValidMeaning(t: Text)
    ensures Valid(t) <==> exists runes :: Encodes(runes, t)
  {
    if runes :| Encodes(runes, t) {
      EncodedIsValid(runes);
    }
    if Valid(t) {
      var runes := RunesOf(t);
      assert Encodes(runes, t);
    }
  }

  predicate Encodes(runes: seq<Rune>, t: Text) {
    (forall r :: r in runes ==> IsScalar(r)) && t == EncodeAll(runes)
  }

  function EncodeAll(runes: seq<Rune>): Text {
    if runes == [] then [] else EncodeRune(runes[0]) + EncodeAll(runes[1..])
  }

  lemma {:induction false} EncodedIsValid(runes: seq<Rune>)
    requires forall r :: r in runes ==> IsScalar(r)
    ensures Valid(EncodeAll(runes))
  {
    if runes != [] {
      var e, rest := EncodeRune(runes[0]), EncodeAll(runes[1..]);
      EncodedIsValid(runes[1..]);
      EncodedIsRead(runes[0], rest);
      assert (e + rest)[|e|..] == rest;
    }
  }

  lemma {:induction false} RunesOf(t: Text) returns (runes: seq<Rune>)
    requires Valid(t)
    ensures Encodes(runes, t)
    decreases |t|
  {
    if t == [] {
      runes := [];
    } else {
      EncodeDecodedRune(t);
      DecodedIsScalar(t);
      var rest := RunesOf(t[RuneLen(t)..]);
      runes := [FirstRune(t)] + rest;
      assert runes[1..] == rest;
      assert t == t[..RuneLen(t)] + t[RuneLen(t)..];
    }
  }

  /** The encodings of U+00E9, U+20AC and U+1F600 as section 3 of RFC 3629 lays the bits out. */
  lemma RunesSpelledOut()
    ensures EncodeRune(0xE9) == [0xC3, 0xA9] && EncodeRune(0x20AC) == [0xE2, 0x82, 0xAC]
    ensures EncodeRune(0x1F600) == [0xF0, 0x9F, 0x98, 0x80]
  {}

  /** Bytes after a complete rune do not change how that rune is read. */
  lemma RuneLenOfPrefix(t: Text, x: Text)
    requires RuneLen(t) > 0
    ensures RuneLen(t[..RuneLen(t)] + x) == RuneLen(t)
  {
    var u := t[..RuneLen(t)] + x;
    assert forall i :: 0 <= i < RuneLen(t) ==> u[i] == t[i];
  }

  // ---- line endings ----

  /** strings.ReplaceAll(s, "\r\n", "\n"). */
  function ReplaceAllCrlf(s: Text): Text {
    if s == [] then []
    else if |s| > 1 && s[0] == CR && s[1] == LF then [LF] + ReplaceAllCrlf(s[2..])
    else [s[0]] + ReplaceAllCrlf(s[1..])
  }

  /** strings.ReplaceAll(s, "\r", "\n"). */
  function ReplaceAllCr(s: Text): Text {
    if s == [] then []
    else [if s[0] == CR then LF else s[0]] + ReplaceAllCr(s[1..])
  }

  function NormalizeLineEndings(s: Text): Text {
    ReplaceAllCr(ReplaceAllCrlf(s))
  }

  lemma {:induction false} CrlfCopies(a: Text, s: Text)
    requires CR !in a
    ensures ReplaceAllCrlf(a + s) == a + ReplaceAllCrlf(s)
  {
    if a == [] {
      assert a + s == s;
    } else {
      assert (a + s)[1..] == a[1..] + s;
      CrlfCopies(a[1..], s);
    }
  }

  lemma {:induction false} CrCopies(a: Text, s: Text)
    requires CR !in a
    ensures ReplaceAllCr(a + s) == a + ReplaceAllCr(s)
  {
    if a == [] {
      assert a + s == s;
    } else {
      assert (a + s)[1..] == a[1..] + s;
      CrCopies(a[1..], s);
    }
  }

  /** The whole meaning of the normalization: text without CR is copied, and each of the
      three line endings becomes exactly one LF. */
  lemma NormalizeOneLine(a: Text, rest: Text)
    requires CR !in a
    ensures NormalizeLineEndings(a) == a
    ensures NormalizeLineEndings(a + [CR, LF] + rest) == a + [LF] + NormalizeLineEndings(rest)
    ensures NormalizeLineEndings(a + [LF] + rest) == a + [LF] + NormalizeLineEndings(rest)
    ensures (rest == [] || rest[0] != LF) ==>
              NormalizeLineEndings(a + [CR] + rest) == a + [LF] + NormalizeLineEndings(rest)
  {
    assert a + [] == a;
    CrlfCopies(a, []);
    CrCopies(a, []);
    NormalizeEnding(a, [CR, LF], rest);
    NormalizeEnding(a, [LF], rest);
    if rest == [] || rest[0] != LF {
      NormalizeEnding(a, [CR], rest);
    }
  }

  lemma NormalizeEnding(a: Text, ending: Text, rest: Text)
    requires CR !in a
    requires ending == [CR, LF] || ending == [LF] || (ending == [CR] && (rest == [] || rest[0] != LF))
    ensures NormalizeLineEndings(a + ending + rest) == a + [LF] + NormalizeLineEndings(rest)
  {
    assert a + ending + rest == a + (ending + rest);
    CrlfCopies(a, ending + rest);
    assert (ending + rest)[|ending|..] == rest;
    var ended := if ending == [CR] then [CR] else [LF];
    var done := ReplaceAllCrlf(rest);
    assert ReplaceAllCrlf(ending + rest) == ended + done;
    CrCopies(a, ended + done);
    assert (ended + done)[1..] == done;
    assert a + ([LF] + NormalizeLineEndings(rest)) == a + [LF] + NormalizeLineEndings(rest);
  }

  lemma {:induction false} CrGone(s: Text)
    ensures CR !in ReplaceAllCr(s)
  {
    if s != [] { CrGone(s[1..]); }
  }

  /** Normalizing twice is normalizing once, and no CR survives. */
  lemma NormalizeIdempotent(s: Text)
    ensures CR !in NormalizeLineEndings(s)
    ensures NormalizeLineEndings(NormalizeLineEndings(s)) == NormalizeLineEndings(s)
  {
    CrGone(ReplaceAllCrlf(s));
    NormalizeOneLine(NormalizeLineEndings(s), []);
  }

  lemma {:induction false} CrlfKeepsValid(s: Text)
    requires Valid(s)
    ensures Valid(ReplaceAllCrlf(s))
    decreases |s|
  {
    if s != [] {
      var k := RuneLen(s);
      EncodeDecodedRune(s);
      if k == 1 && |s| > 1 && s[0] == CR && s[1] == LF {
        assert s[1..][1..] == s[2..];
        CrlfKeepsValid(s[2..]);
        assert ([LF] + ReplaceAllCrlf(s[2..]))[1..] == ReplaceAllCrlf(s[2..]);
      } else {
        CrlfKeepsValid(s[k..]);
        var done := ReplaceAllCrlf(s[k..]);
        assert ReplaceAllCrlf(s) == s[..k] + done by {
          if k > 1 {
            CrlfCopies(s[..k], s[k..]);
            assert s[..k] + s[k..] == s;
          }
        }
        RuneLenOfPrefix(s, done);
        assert (s[..k] + done)[k..] == done;
      }
    }
  }

  lemma {:induction false} CrKeepsValid(s: Text)
    requires Valid(s)
    ensures Valid(ReplaceAllCr(s))
    decreases |s|
  {
    if s != [] {
      var k := RuneLen(s);
      EncodeDecodedRune(s);
      CrKeepsValid(s[k..]);
      var done := ReplaceAllCr(s[k..]);
      if k == 1 {
        assert ReplaceAllCr(s)[1..] == done;
      } else {
        CrCopies(s[..k], s[k..]);
        assert s[..k] + s[k..] == s;
        RuneLenOfPrefix(s, done);
        assert (s[..k] + done)[k..] == done;
      }
    }
  }

  /** Line-ending normalization preserves UTF-8 validity. */
  lemma NormalizeKeepsValid(s: Text)
    requires Valid(s)
    ensures Valid(NormalizeLineEndings(s))
  {
    CrlfKeepsValid(s);
    CrKeepsValid(ReplaceAllCrlf(s));
  }
}
