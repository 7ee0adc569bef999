/** The canonical bytes of a normalized value: what the encoder has to write. */
module CanonicalForm {
  import opened Bytes
  import opened Options
  import opened SortedSets

  /** A value after normalization: integer types merged, line endings and keys normalized. */
  datatype Norm =
    | NNull
    | NBool(b: bool)
    | NInt(n: int)
    | NStr(s: Text)
    | NArr(es: seq<Norm>)
    | NObj(m: map<Text, Norm>)

  const NULL_LITERAL: Text := [110, 117, 108, 108]
  const TRUE_LITERAL: Text := [116, 114, 117, 101]
  const FALSE_LITERAL: Text := [102, 97, 108, 115, 101]
  const BACKSLASH: Byte := 92
  const COLON: Byte := 58
  const OPEN_BRACKET: Byte := 91
  const CLOSE_BRACKET: Byte := 93
  const OPEN_BRACE: Byte := 123
  const CLOSE_BRACE: Byte := 125

  // ---- strings ----

  function HexDigit(n: nat): (b: Byte)
    requires n < 16
  {
    if n < 10 then ZERO + n else 87 + n
  }

  /** Section 7 of RFC 8259, minimal escaping; bytes of non-ASCII runes stand for themselves. */
  function EscapeByte(b: Byte): (t: Text)
    ensures |t| > 0
  {
    if b == QUOTE then [BACKSLASH, QUOTE]
    else if b == BACKSLASH then [BACKSLASH, BACKSLASH]
    else if b == LF then [BACKSLASH, 110]
    else if b == 9 then [BACKSLASH, 116]
    else if b == 8 then [BACKSLASH, 98]
    else if b == 12 then [BACKSLASH, 102]
    else if b < 0x20 then [BACKSLASH, 117, ZERO, ZERO, HexDigit(b / 16), HexDigit(b % 16)]
    else [b]
  }

  /** The value of a lower-case hexadecimal digit. */
  function HexValue(b: Byte): Option<nat> {
    if ZERO <= b <= 57 then Some(b - ZERO) else if 97 <= b <= 102 then Some(b - 87) else None
  }

  /** The six bytes with a short escape, and what follows the backslash. */
  const SHORT_ESCAPES: map<Byte, Byte> := map[34 := 34, 92 := 92, 10 := 110, 9 := 116, 8 := 98, 12 := 102]

  /** Quote, backslash and four control bytes have a two-byte escape; every other control byte is
      `\u00` and its value in two lower-case hexadecimal digits; any other byte stands for itself. */
  lemma EscapeMeaning(b: Byte)
    ensures b in SHORT_ESCAPES ==> EscapeByte(b) == [92, SHORT_ESCAPES[b]]
    ensures b !in SHORT_ESCAPES && b < 32 ==>
              var t := EscapeByte(b);
              && |t| == 6 && t[..4] == [92, 117, 48, 48] && HexValue(t[4]).Some? && HexValue(t[5]).Some?
              && b == 16 * HexValue(t[4]).value + HexValue(t[5]).value
    ensures b !in SHORT_ESCAPES && b >= 32 ==> EscapeByte(b) == [b]
  {}

  function EscapeAll(s: Text): Text {
    if s == [] then [] else EscapeByte(s[0]) + EscapeAll(s[1..])
  }

  lemma {:induction false} EscapeAppend(a: Text, b: Text)
    ensures EscapeAll(a + b) == EscapeAll(a) + EscapeAll(b)
  {
    if a == [] {
      assert a + b == b;
    } else {
      assert (a + b)[1..] == a[1..] + b;
      EscapeAppend(a[1..], b);
    }
  }

  function RenderString(s: Text): Text {
    [QUOTE] + EscapeAll(s) + [QUOTE]
  }

  // ---- values ----

  ghost function Render(v: Norm): (t: Text)
    ensures |t| > 0
    decreases v, 1
  {
    match v
    case NNull => NULL_LITERAL
    case NBool(b) => if b then TRUE_LITERAL else FALSE_LITERAL
    case NInt(n) => FormatInt(n)
    case NStr(s) => RenderString(s)
    case NArr(es) => [OPEN_BRACKET] + ElemsFrom(v, 0) + [CLOSE_BRACKET]
    case NObj(m) => [OPEN_BRACE] + MembersFrom(v, SortedKeys(m.Keys), 0) + [CLOSE_BRACE]
  }

  function Separator(i: nat): Text {
    if i > 0 then [COMMA] else []
  }

  /** The elements of array v from index i on, with their separators. */
  ghost function ElemsFrom(v: Norm, i: nat): Text
    requires v.NArr? && i <= |v.es|
    decreases v, 0, |v.es| - i
  {
    if i == |v.es| then [] else Separator(i) + Render(v.es[i]) + ElemsFrom(v, i + 1)
  }

  /** The members of object v named by ks, from index i on, with their separators. */
  ghost function MembersFrom(v: Norm, ks: seq<Text>, i: nat): Text
    requires v.NObj? && i <= |ks| && forall k :: k in ks ==> k in v.m
    decreases v, 0, |ks| - i
  {
    if i == |ks| then []
    else Separator(i) + RenderString(ks[i]) + [COLON] + Render(v.m[ks[i]]) + MembersFrom(v, ks, i + 1)
  }

  /** The form spelled out on one document: `{"a":[null,false,true,"\t"],"b":-50}`. */
  lemma RenderSpelledOut()
    ensures var elems := NArr([NNull, NBool(false), NBool(true), NStr([9])]);
            Render(NObj(map[[98] := NInt(-50), [97] := elems])) ==
              [123, 34, 97, 34, 58]
              + ([91] + [110, 117, 108, 108] + [44] + [102, 97, 108, 115, 101] + [44] + [116, 114, 117, 101] + [44]
                 + [34, 92, 116, 34] + [93])
              + [44, 34, 98, 34, 58, 45, 53, 48, 125]
  {
    var a, b: Text := [97], [98];
    var elems := NArr([NNull, NBool(false), NBool(true), NStr([9])]);
    var v := NObj(map[b := NInt(-50), a := elems]);
    var ks := [a, b];
    assert v.m.Keys == {a, b} && v.m[a] == elems && v.m[b] == NInt(-50);
    TwoKeys();
    ObjectStep(v, ks, 0);
    ObjectStep(v, ks, 1);
    ObjectStep(v, ks, 2);
    KeysSpelledOut();
    ElemsSpelledOut(elems);
    hide *;
    TwoMembers(Render(elems));
  }

  lemma TwoMembers(e: Text)
    ensures [123] + ([] + [34, 97, 34] + [58] + e + ([44] + [34, 98, 34] + [58] + [45, 53, 48] + [])) + [125] ==
              [123, 34, 97, 34, 58] + e + [44, 34, 98, 34, 58, 45, 53, 48, 125]
  {
    var rest: Text := [44] + [34, 98, 34] + [58] + [45, 53, 48] + [];
    assert rest + [125] == [44, 34, 98, 34, 58, 45, 53, 48, 125];
    assert [123] + ([] + [34, 97, 34] + [58]) == [123, 34, 97, 34, 58];
    Reassociate([123], [] + [34, 97, 34] + [58], e, rest, [125]);
  }

  lemma Reassociate(a: Text, b: Text, c: Text, d: Text, e: Text)
    ensures a + (b + c + d) + e == (a + b) + c + (d + e)
  {}

  lemma TwoKeys()
    ensures SortedKeys({[97], [98]}) == [[97], [98]]
  {
    var ks: seq<Text> := [[97], [98]];
    assert Less([97], [98]);
    SortedKeysUnique(ks, SortedKeys({[97], [98]}));
  }

  lemma KeysSpelledOut()
    ensures RenderString([97]) == [34, 97, 34] && RenderString([98]) == [34, 98, 34]
    ensures RenderString([9]) == [34, 92, 116, 34] && Render(NInt(-50)) == [45, 53, 48]
    ensures Render(NNull) == [110, 117, 108, 108]
    ensures Render(NBool(false)) == [102, 97, 108, 115, 101] && Render(NBool(true)) == [116, 114, 117, 101]
  {
    assert Digits(50) == [53, 48];
    hide Digits;
  }

  lemma ObjectStep(v: Norm, ks: seq<Text>, i: nat)
    requires v.NObj? && i <= |ks| && forall k :: k in ks ==> k in v.m
    ensures MembersFrom(v, ks, |ks|) == []
    ensures i < |ks| ==>
      MembersFrom(v, ks, i) ==
        (if i > 0 then [44] else []) + RenderString(ks[i]) + [58] + Render(v.m[ks[i]]) + MembersFrom(v, ks, i + 1)
    ensures ks == SortedKeys(v.m.Keys) ==> Render(v) == [123] + MembersFrom(v, ks, 0) + [125]
  {}

  lemma ArrayStep(v: Norm, i: nat)
    requires v.NArr? && i <= |v.es|
    ensures ElemsFrom(v, |v.es|) == []
    ensures i < |v.es| ==> ElemsFrom(v, i) == (if i > 0 then [44] else []) + Render(v.es[i]) + ElemsFrom(v, i + 1)
    ensures Render(v) == [91] + ElemsFrom(v, 0) + [93]
  {}

  lemma ElemsSpelledOut(v: Norm)
    requires v == NArr([NNull, NBool(false), NBool(true), NStr([9])])
    ensures Render(v) == [91] + [110, 117, 108, 108] + [44] + [102, 97, 108, 115, 101] + [44] + [116, 114, 117, 101] + [44]
                         + [34, 92, 116, 34] + [93]
  {
    KeysSpelledOut();
    assert Render(v.es[3]) == [34, 92, 116, 34];
    ArrayStep(v, 0);
    ArrayStep(v, 1);
    ArrayStep(v, 2);
    ArrayStep(v, 3);
    ArrayStep(v, 4);
    hide *;
    FourElems(Render(v.es[0]), Render(v.es[1]), Render(v.es[2]), Render(v.es[3]));
  }

  lemma FourElems(a: Text, b: Text, c: Text, d: Text)
    ensures [91] + ([] + a + ([44] + b + ([44] + c + ([44] + d + [])))) + [93] ==
              [91] + a + [44] + b + [44] + c + [44] + d + [93]
  {}

  // ---- no line feed inside a rendering ----

  lemma {:induction false} EscapedHasNoLf(s: Text)
    ensures LF !in EscapeAll(s)
  {
    if s != [] { EscapedHasNoLf(s[1..]); }
  }

  lemma {:induction false} RenderHasNoLf(v: Norm)
    ensures LF !in Render(v)
    decreases v, 1
  {
    match v
    case NNull =>
    case NBool(b) =>
    case NInt(n) =>
    case NStr(s) => EscapedHasNoLf(s);
    case NArr(es) => ElemsHaveNoLf(v, 0);
    case NObj(m) => MembersHaveNoLf(v, SortedKeys(m.Keys), 0);
  }

  lemma {:induction false} ElemsHaveNoLf(v: Norm, i: nat)
    requires v.NArr? && i <= |v.es|
    ensures LF !in ElemsFrom(v, i)
    decreases v, 0, |v.es| - i
  {
    if i < |v.es| {
      RenderHasNoLf(v.es[i]);
      ElemsHaveNoLf(v, i + 1);
    }
  }

  lemma {:induction false} MembersHaveNoLf(v: Norm, ks: seq<Text>, i: nat)
    requires v.NObj? && i <= |ks| && forall k :: k in ks ==> k in v.m
    ensures LF !in MembersFrom(v, ks, i)
    decreases v, 0, |ks| - i
  {
    if i < |ks| {
      EscapedHasNoLf(ks[i]);
      RenderHasNoLf(v.m[ks[i]]);
      MembersHaveNoLf(v, ks, i + 1);
    }
  }
}
