/** A decoder for the canonical bytes, the inverse that makes them unambiguous. */
module CanonicalDecode {
  import opened Bytes
  import opened CanonicalForm
  import opened SortedSets

  datatype Parsed<+T> = Fail | Got(value: T, rest: Text)

  function HexValue(b: Byte): (n: int)
    ensures -1 <= n < 16
  {
    if IsDigit(b) then b - ZERO else if 97 <= b <= 102 then b - 87 else -1
  }

  /** One possibly escaped byte of a string body. */
  function ParseByte(t: Text): (p: Parsed<Byte>)
    requires t != []
    ensures p.Got? ==> |p.rest| < |t|
  {
    if t[0] != BACKSLASH then Got(t[0], t[1..])
    else if |t| < 2 then Fail
    else if t[1] == QUOTE || t[1] == BACKSLASH then Got(t[1], t[2..])
    else if t[1] == 110 then Got(LF, t[2..])
    else if t[1] == 116 then Got(9, t[2..])
    else if t[1] == 98 then Got(8, t[2..])
    else if t[1] == 102 then Got(12, t[2..])
    else if t[1] == 117 && |t| >= 6 && t[2] == ZERO && t[3] == ZERO
            && 0 <= HexValue(t[4]) < 2 && 0 <= HexValue(t[5])
      then Got(16 * HexValue(t[4]) + HexValue(t[5]), t[6..])
    else Fail
  }

  /** A string body up to and including its closing quote. */
  function ParseString(t: Text): (p: Parsed<Text>)
    ensures p.Got? ==> |p.rest| < |t|
    decreases |t|
  {
    if t == [] then Fail
    else if t[0] == QUOTE then Got([], t[1..])
    else match ParseByte(t)
      case Fail => Fail
      case Got(b, rest) =>
        match ParseString(rest)
        case Fail => Fail
        case Got(s, rest') => Got([b] + s, rest')
  }

  function ParseNumber(t: Text): (p: Parsed<int>)
    ensures p.Got? ==> |p.rest| < |t|
  {
    var k := DigitRun(t);
    if k == 0 then Fail else Got(DigitsValue(t[..k]), t[k..])
  }

  function ParseValue(t: Text): (p: Parsed<Norm>)
    ensures p.Got? ==> |p.rest| < |t|
    decreases |t|, 0
  {
    if t == [] then Fail
    else if t[0] == 110 then if NULL_LITERAL <= t then Got(NNull, t[4..]) else Fail
    else if t[0] == 116 then if TRUE_LITERAL <= t then Got(NBool(true), t[4..]) else Fail
    else if t[0] == 102 then if FALSE_LITERAL <= t then Got(NBool(false), t[5..]) else Fail
    else if t[0] == QUOTE then
      match ParseString(t[1..])
      case Fail => Fail
      case Got(s, rest) => Got(NStr(s), rest)
    else if t[0] == OPEN_BRACKET then
      match ParseElems(t[1..], true)
      case Fail => Fail
      case Got(es, rest) => Got(NArr(es), rest)
    else if t[0] == OPEN_BRACE then
      match ParseMembers(t[1..], true)
      case Fail => Fail
      case Got(m, rest) => Got(NObj(m), rest)
    else if t[0] == MINUS then
      match ParseNumber(t[1..])
      case Fail => Fail
      case Got(n, rest) => Got(NInt(-n), rest)
    else
      match ParseNumber(t)
      case Fail => Fail
      case Got(n, rest) => Got(NInt(n), rest)
  }

  /** Skips the comma that every element but the first must have in front. */
  function AfterSeparator(t: Text, first: bool): (p: Parsed<()>)
    ensures p.Got? ==> |p.rest| <= |t|
  {
    if first then Got((), t) else if t != [] && t[0] == COMMA then Got((), t[1..]) else Fail
  }

  function ParseElems(t: Text, first: bool): (p: Parsed<seq<Norm>>)
    ensures p.Got? ==> |p.rest| < |t|
    decreases |t|, 1
  {
    if t != [] && t[0] == CLOSE_BRACKET then Got([], t[1..])
    else match AfterSeparator(t, first)
      case Fail => Fail
      case Got(_, u) =>
        match ParseValue(u)
        case Fail => Fail
        case Got(v, rest) =>
          match ParseElems(rest, false)
          case Fail => Fail
          case Got(es, rest') => Got([v] + es, rest')
  }

  function ParseMembers(t: Text, first: bool): (p: Parsed<map<Text, Norm>>)
    ensures p.Got? ==> |p.rest| < |t|
    decreases |t|, 1
  {
    if t != [] && t[0] == CLOSE_BRACE then Got(map[], t[1..])
    else match AfterSeparator(t, first)
      case Fail => Fail
      case Got(_, u) =>
        if u == [] || u[0] != QUOTE then Fail
        else match ParseString(u[1..])
          case Fail => Fail
          case Got(k, afterKey) =>
            if afterKey == [] || afterKey[0] != COLON then Fail
            else match ParseValue(afterKey[1..])
              case Fail => Fail
              case Got(v, rest) =>
                match ParseMembers(rest, false)
                case Fail => Fail
                case Got(m, rest') => Got(m[k := v], rest')
  }

  // ---- the decoder inverts the rendering ----

  lemma ByteRoundTrip(b: Byte, rest: Text)
    ensures ParseByte(EscapeByte(b) + rest) == Got(b, rest)
  {
    var t := EscapeByte(b) + rest;
    assert forall i :: 0 <= i < |EscapeByte(b)| ==> t[i] == EscapeByte(b)[i];
    assert t[|EscapeByte(b)|..] == rest;
  }

  lemma {:induction false} StringRoundTrip(s: Text, rest: Text)
    ensures ParseString(EscapeAll(s) + [QUOTE] + rest) == Got(s, rest)
  {
    var t := EscapeAll(s) + [QUOTE] + rest;
    if s == [] {
      assert t == [QUOTE] + rest;
    } else {
      var tail := EscapeAll(s[1..]) + [QUOTE] + rest;
      assert t == EscapeByte(s[0]) + tail;
      assert t[0] == EscapeByte(s[0])[0] != QUOTE;
      ByteRoundTrip(s[0], tail);
      assert [s[0]] + s[1..] == s;
      StringRoundTrip(s[1..], rest);
    }
  }

  /** Whatever follows a value in canonical bytes does not extend a number. */
  predicate Delimited(rest: Text) {
    rest == [] || !IsDigit(rest[0])
  }

  lemma NumberRoundTrip(n: int, rest: Text)
    requires Delimited(rest)
    ensures ParseValue(FormatInt(n) + rest) == Got(NInt(n), rest)
  {
    var k: nat := if n < 0 then -n else n;
    DigitsParse(k, rest);
    hide ParseValue, ParseNumber, Digits;
    var d := Digits(k) + rest;
    if n < 0 {
      assert FormatInt(n) + rest == [MINUS] + d;
      MinusStep([MINUS] + d, k, rest);
    } else {
      assert d[0] == Digits(k)[0];
      DigitStep(d, k, rest);
    }
  }

  lemma DigitsParse(n: nat, rest: Text)
    requires Delimited(rest)
    ensures ParseNumber(Digits(n) + rest) == Got(n, rest)
  {
    var d := Digits(n);
    DigitRunOfNumeral(d, rest);
    DigitsRoundTrip(n);
    assert (d + rest)[..|d|] == d && (d + rest)[|d|..] == rest;
  }

  // One step of the decoder at a time, so that the round trip does not unfold it twice.

  lemma DigitStep(t: Text, n: int, rest: Text)
    requires t != [] && IsDigit(t[0]) && ParseNumber(t) == Got(n, rest)
    ensures ParseValue(t) == Got(NInt(n), rest)
  {}

  lemma MinusStep(t: Text, n: int, rest: Text)
    requires t != [] && t[0] == MINUS && ParseNumber(t[1..]) == Got(n, rest)
    ensures ParseValue(t) == Got(NInt(-n), rest)
  {}

  lemma StringStep(t: Text, s: Text, rest: Text)
    requires t != [] && t[0] == QUOTE && ParseString(t[1..]) == Got(s, rest)
    ensures ParseValue(t) == Got(NStr(s), rest)
  {}

  lemma ArrayStep(t: Text, es: seq<Norm>, rest: Text)
    requires t != [] && t[0] == OPEN_BRACKET && ParseElems(t[1..], true) == Got(es, rest)
    ensures ParseValue(t) == Got(NArr(es), rest)
  {}

  lemma ObjectStep(t: Text, m: map<Text, Norm>, rest: Text)
    requires t != [] && t[0] == OPEN_BRACE && ParseMembers(t[1..], true) == Got(m, rest)
    ensures ParseValue(t) == Got(NObj(m), rest)
  {}

  lemma ElemStep(t: Text, first: bool, u: Text, v: Norm, rest: Text, es: seq<Norm>, rest': Text)
    requires t != [] && t[0] != CLOSE_BRACKET && AfterSeparator(t, first) == Got((), u)
    requires ParseValue(u) == Got(v, rest) && ParseElems(rest, false) == Got(es, rest')
    ensures ParseElems(t, first) == Got([v] + es, rest')
  {}

  lemma MemberStep(t: Text, first: bool, name: Text, k: Text, value: Text, v: Norm, rest: Text,
                   m: map<Text, Norm>, rest': Text)
    requires t != [] && t[0] != CLOSE_BRACE && AfterSeparator(t, first) == Got((), [QUOTE] + name)
    requires ParseString(name) == Got(k, [COLON] + value)
    requires ParseValue(value) == Got(v, rest)
    requires ParseMembers(rest, false) == Got(m, rest')
    ensures ParseMembers(t, first) == Got(m[k := v], rest')
  {
    assert ([QUOTE] + name)[1..] == name;
    assert ([COLON] + value)[1..] == value;
  }

  lemma LiteralRoundTrip(v: Norm, rest: Text)
    requires v.NNull? || v.NBool?
    ensures ParseValue(Render(v) + rest) == Got(v, rest)
  {
    assert (Render(v) + rest)[|Render(v)|..] == rest;
  }

  lemma {:induction false} ValueRoundTrip(v: Norm, rest: Text)
    requires Delimited(rest)
    ensures ParseValue(Render(v) + rest) == Got(v, rest)
    decreases v, 1
  {
    hide ParseValue, ParseString, ParseElems, ParseMembers, ElemsFrom, MembersFrom, EscapeAll, FormatInt;
    var t := Render(v) + rest;
    match v
    case NNull => LiteralRoundTrip(v, rest);
    case NBool(b) => LiteralRoundTrip(v, rest);
    case NInt(n) => NumberRoundTrip(n, rest);
    case NStr(s) =>
      assert t[1..] == EscapeAll(s) + [QUOTE] + rest;
      StringRoundTrip(s, rest);
      StringStep(t, s, rest);
    case NArr(es) =>
      assert t[1..] == ElemsFrom(v, 0) + [CLOSE_BRACKET] + rest;
      ElemsRoundTrip(v, 0, rest);
      assert es[0..] == es;
      ArrayStep(t, es, rest);
    case NObj(m) =>
      var ks := SortedKeys(m.Keys);
      assert t[1..] == MembersFrom(v, ks, 0) + [CLOSE_BRACE] + rest;
      MembersRoundTrip(v, ks, 0, rest);
      assert Restrict(m, ks[0..]) == m;
      ObjectStep(t, m, rest);
  }

  /** A rendering never starts with a byte that closes a container. */
  lemma FirstByte(v: Norm)
    ensures Render(v)[0] != CLOSE_BRACKET && Render(v)[0] != CLOSE_BRACE
  {
    match v
    case NInt(n) => assert IsDigit(FormatInt(n)[0]) || FormatInt(n)[0] == MINUS;
    case _ =>
  }

  lemma {:induction false} ElemsRoundTrip(v: Norm, i: nat, rest: Text)
    requires v.NArr? && i <= |v.es|
    ensures ParseElems(ElemsFrom(v, i) + [CLOSE_BRACKET] + rest, i == 0) == Got(v.es[i..], rest)
    decreases v, 0, |v.es| - i
  {
    hide ParseValue, ParseElems, Render, ElemsFrom;
    if i == |v.es| {
      NoElemsLeft(v, rest);
    } else {
      var tail := ElemsFrom(v, i + 1) + [CLOSE_BRACKET] + rest;
      ElemsTailDelimited(v, i + 1, rest);
      ValueRoundTrip(v.es[i], tail);
      ElemsRoundTrip(v, i + 1, rest);
      ElemShape(v, i, rest);
      ElemStep(ElemsFrom(v, i) + [CLOSE_BRACKET] + rest, i == 0, Render(v.es[i]) + tail, v.es[i], tail, v.es[i + 1..], rest);
      assert v.es[i..] == [v.es[i]] + v.es[i + 1..];
    }
  }

  lemma NoElemsLeft(v: Norm, rest: Text)
    requires v.NArr?
    ensures ParseElems(ElemsFrom(v, |v.es|) + [CLOSE_BRACKET] + rest, |v.es| == 0) == Got(v.es[|v.es|..], rest)
  {
    var t := ElemsFrom(v, |v.es|) + [CLOSE_BRACKET] + rest;
    assert ElemsFrom(v, |v.es|) == [];
    assert t == [CLOSE_BRACKET] + rest && t[1..] == rest;
    assert v.es[|v.es|..] == [];
  }

  lemma ElemShape(v: Norm, i: nat, rest: Text)
    requires v.NArr? && i < |v.es|
    ensures var t := ElemsFrom(v, i) + [CLOSE_BRACKET] + rest;
            var u := Render(v.es[i]) + (ElemsFrom(v, i + 1) + [CLOSE_BRACKET] + rest);
            t != [] && t[0] != CLOSE_BRACKET && AfterSeparator(t, i == 0) == Got((), u)
  {
    FirstByte(v.es[i]);
    assert ElemsFrom(v, i) == Separator(i) + Render(v.es[i]) + ElemsFrom(v, i + 1);
    hide *;
    GroupElem(Separator(i), Render(v.es[i]), ElemsFrom(v, i + 1), rest);
    SeparatorShape(i, Render(v.es[i]), ElemsFrom(v, i + 1) + [CLOSE_BRACKET] + rest);
  }

  lemma GroupElem(sep: Text, e: Text, more: Text, rest: Text)
    ensures sep + e + more + [CLOSE_BRACKET] + rest == sep + (e + (more + [CLOSE_BRACKET] + rest))
  {}

  lemma SeparatorShape(i: nat, head: Text, tail: Text)
    requires head != [] && head[0] != CLOSE_BRACKET
    ensures var t := Separator(i) + (head + tail);
            t != [] && t[0] != CLOSE_BRACKET && AfterSeparator(t, i == 0) == Got((), head + tail)
  {
    assert ([COMMA] + (head + tail))[1..] == head + tail;
    assert [] + (head + tail) == head + tail;
  }

  lemma ElemsTailDelimited(v: Norm, i: nat, rest: Text)
    requires v.NArr? && 0 < i <= |v.es|
    ensures Delimited(ElemsFrom(v, i) + [CLOSE_BRACKET] + rest)
  {}

  ghost function Restrict(m: map<Text, Norm>, ks: seq<Text>): map<Text, Norm> {
    map k | k in m && k in ks :: m[k]
  }

  lemma {:induction false} MembersRoundTrip(v: Norm, ks: seq<Text>, i: nat, rest: Text)
    requires v.NObj? && i <= |ks| && StrictlySorted(ks)
    requires forall k :: k in ks ==> k in v.m
    ensures ParseMembers(MembersFrom(v, ks, i) + [CLOSE_BRACE] + rest, i == 0)
         == Got(Restrict(v.m, ks[i..]), rest)
    decreases v, 0, |ks| - i
  {
    hide ParseValue, ParseMembers, Render, MembersFrom, Restrict;
    if i == |ks| {
      NoMembersLeft(v, ks, rest);
    } else {
      var tail := MembersFrom(v, ks, i + 1) + [CLOSE_BRACE] + rest;
      MembersTailDelimited(v, ks, i + 1, rest);
      ValueRoundTrip(v.m[ks[i]], tail);
      MembersRoundTrip(v, ks, i + 1, rest);
      OneMember(v, ks, i, rest, tail);
      RestrictStep(v.m, ks, i);
    }
  }

  lemma NoMembersLeft(v: Norm, ks: seq<Text>, rest: Text)
    requires v.NObj? && forall k :: k in ks ==> k in v.m
    ensures ParseMembers(MembersFrom(v, ks, |ks|) + [CLOSE_BRACE] + rest, |ks| == 0) == Got(Restrict(v.m, ks[|ks|..]), rest)
  {
    var t := MembersFrom(v, ks, |ks|) + [CLOSE_BRACE] + rest;
    assert t == [CLOSE_BRACE] + rest && t[1..] == rest;
    assert Restrict(v.m, ks[|ks|..]) == map[];
  }

  /** The member at index i, given that its value and the members after it are read back. */
  lemma OneMember(v: Norm, ks: seq<Text>, i: nat, rest: Text, tail: Text)
    requires v.NObj? && i < |ks| && forall k :: k in ks ==> k in v.m
    requires tail == MembersFrom(v, ks, i + 1) + [CLOSE_BRACE] + rest
    requires ParseValue(Render(v.m[ks[i]]) + tail) == Got(v.m[ks[i]], tail)
    requires ParseMembers(tail, false) == Got(Restrict(v.m, ks[i + 1..]), rest)
    ensures ParseMembers(MembersFrom(v, ks, i) + [CLOSE_BRACE] + rest, i == 0)
         == Got(Restrict(v.m, ks[i + 1..])[ks[i] := v.m[ks[i]]], rest)
  {
    var k, t := ks[i], MembersFrom(v, ks, i) + [CLOSE_BRACE] + rest;
    var value := Render(v.m[k]) + tail;
    var name := EscapeAll(k) + [QUOTE] + ([COLON] + value);
    hide ParseValue, ParseMembers, ParseString, Render, MembersFrom, EscapeAll, Restrict, AfterSeparator;
    MemberShape(v, ks, i, rest);
    StringRoundTrip(k, [COLON] + value);
    MemberStep(t, i == 0, name, k, value, v.m[k], tail, Restrict(v.m, ks[i + 1..]), rest);
  }

  lemma MemberShape(v: Norm, ks: seq<Text>, i: nat, rest: Text)
    requires v.NObj? && i < |ks| && forall k :: k in ks ==> k in v.m
    ensures var t := MembersFrom(v, ks, i) + [CLOSE_BRACE] + rest;
            var value := Render(v.m[ks[i]]) + (MembersFrom(v, ks, i + 1) + [CLOSE_BRACE] + rest);
            && t != [] && t[0] != CLOSE_BRACE
            && AfterSeparator(t, i == 0) == Got((), [QUOTE] + (EscapeAll(ks[i]) + [QUOTE] + ([COLON] + value)))
  {
    hide Render, EscapeAll;
    var t := MembersFrom(v, ks, i) + [CLOSE_BRACE] + rest;
    var value := Render(v.m[ks[i]]) + (MembersFrom(v, ks, i + 1) + [CLOSE_BRACE] + rest);
    var u := [QUOTE] + (EscapeAll(ks[i]) + [QUOTE] + ([COLON] + value));
    assert t == Separator(i) + u;
    assert ([COMMA] + u)[1..] == u;
  }

  lemma RestrictStep(m: map<Text, Norm>, ks: seq<Text>, i: nat)
    requires i < |ks| && ks[i] in m
    ensures Restrict(m, ks[i..]) == Restrict(m, ks[i + 1..])[ks[i] := m[ks[i]]]
  {
    assert ks[i..] == [ks[i]] + ks[i + 1..];
  }

  lemma MembersTailDelimited(v: Norm, ks: seq<Text>, i: nat, rest: Text)
    requires v.NObj? && 0 < i <= |ks| && forall k :: k in ks ==> k in v.m
    ensures Delimited(MembersFrom(v, ks, i) + [CLOSE_BRACE] + rest)
  {}

  /** The decoder of a whole document: one value and exactly one LF after it. */
  function Decode(t: Text): Parsed<Norm> {
    match ParseValue(t)
    case Fail => Fail
    case Got(v, rest) => if rest == [LF] then Got(v, []) else Fail
  }

  lemma DocumentRoundTrip(v: Norm)
    ensures Decode(Render(v) + [LF]) == Got(v, [])
  {
    ValueRoundTrip(v, [LF]);
  }
}
