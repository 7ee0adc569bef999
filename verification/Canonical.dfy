/** internal/canonical: the canonical JSON encoder and what its bytes determine. */
module Canonical {
  import opened Bytes
  import opened CanonicalDecode
  import opened CanonicalForm
  import opened CanonicalValue
  import opened Float64
  import opened Options
  import opened SortedSets
  import opened Utf8

  datatype Outcome = Ok | Err(error: Error)
  datatype Result = Encoded(bytes: Text) | Refused(error: Error)

  /** An object member under its normalized key, as encodeObject collects it. */
  datatype KeyEntry = KeyEntry(normalized: Text, value: Value)

  /** The canonical bytes of an accepted value. */
  ghost function CanonicalBytes(v: Value): Text
    requires Accepted(v)
  {
    Render(NormOf(v)) + [LF]
  }

  // ---- what the bytes determine ----

  /** Two accepted values have the same canonical bytes exactly when they are the same value
      after normalization. */
  lemma BytesDetermineValue(v: Value, w: Value)
    requires Accepted(v) && Accepted(w)
    ensures CanonicalBytes(v) == CanonicalBytes(w) <==> NormOf(v) == NormOf(w)
  {
    DocumentRoundTrip(NormOf(v));
    DocumentRoundTrip(NormOf(w));
  }

  /** The decoder recovers the normalized value from the canonical bytes. */
  lemma DecodeInvertsCanonicalize(v: Value)
    requires Accepted(v)
    ensures Decode(CanonicalBytes(v)) == Got(NormOf(v), [])
  {
    DocumentRoundTrip(NormOf(v));
  }

  /** Canonical bytes hold exactly one LF, and it is the last byte. */
  lemma ExactlyOneLf(v: Value)
    requires Accepted(v)
    ensures var t := CanonicalBytes(v);
            |t| > 0 && t[|t| - 1] == LF && forall i :: 0 <= i < |t| - 1 ==> t[i] != LF
  {
    RenderHasNoLf(NormOf(v));
  }

  /** Equality after normalization, spelled out for objects: the same normalized keys, each with
      an equal member. */
  lemma ObjectsEqual(m: map<Text, Value>, n: map<Text, Value>)
    requires Accepted(Obj(m)) && Accepted(Obj(n))
    ensures NormOf(Obj(m)) == NormOf(Obj(n)) <==> SameMembers(m, n)
  {
    hide NormOf, NormalizeLineEndings, Names, SameMembers;
    if NormOf(Obj(m)) == NormOf(Obj(n)) {
      EqualNormsAgree(m, n);
    }
    if SameMembers(m, n) {
      AgreeingNormsEqual(m, n);
    }
  }

  ghost predicate SameMembers(m: map<Text, Value>, n: map<Text, Value>)
    requires Accepted(Obj(m)) && Accepted(Obj(n))
  {
    && Names(m) == Names(n)
    && (forall k, l :: k in m && l in n && NormalizeLineEndings(k) == NormalizeLineEndings(l)
          ==> NormOf(m[k]) == NormOf(n[l]))
  }

  lemma EqualNormsAgree(m: map<Text, Value>, n: map<Text, Value>)
    requires Accepted(Obj(m)) && Accepted(Obj(n)) && NormOf(Obj(m)) == NormOf(Obj(n))
    ensures SameMembers(m, n)
  {
    NormKeys(Obj(m));
    NormKeys(Obj(n));
    hide NormOf, NormalizeLineEndings, Names;
    forall k, l | k in m && l in n && NormalizeLineEndings(k) == NormalizeLineEndings(l)
      ensures NormOf(m[k]) == NormOf(n[l])
    {
      MemberNorm(m, k);
      MemberNorm(n, l);
    }
  }

  lemma AgreeingNormsEqual(m: map<Text, Value>, n: map<Text, Value>)
    requires Accepted(Obj(m)) && Accepted(Obj(n)) && SameMembers(m, n)
    ensures NormOf(Obj(m)) == NormOf(Obj(n))
  {
    NormKeys(Obj(m));
    NormKeys(Obj(n));
    hide NormOf, NormalizeLineEndings, Names;
    var a, b := NormOf(Obj(m)).m, NormOf(Obj(n)).m;
    forall name | name in a ensures a[name] == b[name] {
      MemberNorm(m, RawKey(m, name));
      MemberNorm(n, RawKey(n, name));
    }
    assert a == b;
  }

  /** The normalized object maps each normalized key to its normalized member, and nothing else. */
  lemma MemberNorm(m: map<Text, Value>, k: Text)
    requires Accepted(Obj(m)) && k in m
    ensures Accepted(m[k]) && NormalizeLineEndings(k) in Names(m)
    ensures NormOf(Obj(m)).NObj? && NormOf(Obj(m)).m.Keys == Names(m)
    ensures NormOf(Obj(m)).m[NormalizeLineEndings(k)] == NormOf(m[k])
  {
    assert NormalizeLineEndings(k) in Names(m);
    assert RawKey(m, NormalizeLineEndings(k)) == k;
  }

  // ---- the encoder ----

  ghost function EntryNames(entries: seq<KeyEntry>): seq<Text> {
    seq(|entries|, i requires 0 <= i < |entries| => entries[i].normalized)
  }

  /** The entries hold every key of the done part of m once, under its normalized name. */
  ghost predicate Collected(entries: seq<KeyEntry>, m: map<Text, Value>, done: set<Text>)
    requires done <= m.Keys
  {
    && (forall i :: 0 <= i < |entries| ==> exists k :: k in done && entries[i] == KeyEntry(NormalizeLineEndings(k), m[k]))
    && (forall k :: k in done ==> KeyEntry(NormalizeLineEndings(k), m[k]) in entries)
    && DistinctEntries(entries)
  }

  predicate DistinctEntries(entries: seq<KeyEntry>) {
    forall i, j :: 0 <= i < j < |entries| ==> entries[i].normalized != entries[j].normalized
  }

  ghost predicate DistinctNames(keys: set<Text>) {
    forall k, l :: k in keys && l in keys && NormalizeLineEndings(k) == NormalizeLineEndings(l) ==> k == l
  }

  /** sort.Slice by normalized key; the names are distinct, so the order is strict. */
  method SortEntries(entries: seq<KeyEntry>) returns (sorted: seq<KeyEntry>)
    requires DistinctEntries(entries)
    ensures forall e :: e in sorted <==> e in entries
    ensures StrictlySorted(EntryNames(sorted))
  {
    sorted := [];
    for n := 0 to |entries|
      invariant forall e :: e in sorted <==> e in entries[..n]
      invariant StrictlySorted(EntryNames(sorted))
    {
      var e := entries[n];
      var at := 0;
      while at < |sorted| && Less(sorted[at].normalized, e.normalized)
        invariant at <= |sorted|
        invariant forall j :: 0 <= j < at ==> Less(sorted[j].normalized, e.normalized)
      {
        at := at + 1;
      }
      forall j | at <= j < |sorted| ensures Less(e.normalized, sorted[j].normalized) {
        assert sorted[at] in entries[..n];
        LessTrichotomy(e.normalized, sorted[at].normalized);
        if j > at {
          assert Less(EntryNames(sorted)[at], EntryNames(sorted)[j]);
          LessTransitive(e.normalized, sorted[at].normalized, sorted[j].normalized);
        }
      }
      ghost var before := sorted;
      sorted := sorted[..at] + [e] + sorted[at..];
      SortedInsert(before, at, e);
      assert entries[..n + 1] == entries[..n] + [e];
    }
    assert entries[..|entries|] == entries;
  }

  lemma SortedInsert(s: seq<KeyEntry>, at: nat, e: KeyEntry)
    requires at <= |s| && StrictlySorted(EntryNames(s))
    requires forall j :: 0 <= j < at ==> Less(s[j].normalized, e.normalized)
    requires forall j :: at <= j < |s| ==> Less(e.normalized, s[j].normalized)
    ensures var t := s[..at] + [e] + s[at..];
            StrictlySorted(EntryNames(t)) && forall x :: x in t <==> x in s || x == e
  {
    var t := s[..at] + [e] + s[at..];
    assert s == s[..at] + s[at..];
    forall i, j | 0 <= i < j < |t| ensures Less(EntryNames(t)[i], EntryNames(t)[j]) {
      var i' := if i < at then i else i - 1;
      var j' := if j < at then j else j - 1;
      assert i != at && j != at ==> Less(EntryNames(s)[i'], EntryNames(s)[j']);
    }
  }

  class Encoder {
    /** The strings.Builder every encode function appends to. */
    var sb: Text

    constructor ()
      ensures sb == []
    {
      sb := [];
    }

    method Encode(v: Value) returns (r: Outcome)
      modifies this
      ensures r.Ok? <==> Accepted(v)
      ensures r.Ok? ==> sb == old(sb) + Render(NormOf(v))
      ensures r.Err? ==> r.error in Errors(v)
      decreases v, 1
    {
      AcceptedIffNoErrors(v);
      match v
      case Null =>
        sb := sb + NULL_LITERAL;
        r := Ok;
      case Boolean(b) =>
        sb := sb + if b then TRUE_LITERAL else FALSE_LITERAL;
        r := Ok;
      case Str(s) =>
        r := EncodeString(s);
      case Number(literal) =>
        r := EncodeJsonNumber(literal);
      case Signed(i) =>
        sb := sb + FormatInt(i);
        r := Ok;
      case Unsigned(u) =>
        sb := sb + FormatInt(u);
        r := Ok;
      case Flt(f) =>
        r := EncodeFloat(f);
      case Arr(es) =>
        r := EncodeArray(v, es);
      case Obj(m) =>
        r := EncodeObject(v, m);
      case Other =>
        r := Err(UnsupportedType);
    }

    method EncodeJsonNumber(literal: Text) returns (r: Outcome)
      modifies this
      ensures r == match NumberInteger(literal) case Some(_) => Ok case None => Err(NonIntegerNumber)
      ensures r.Ok? ==> sb == old(sb) + FormatInt(NumberInteger(literal).value)
      ensures r.Err? ==> sb == old(sb)
    {
      var i := ParseInt(literal);
      if i.Some? {
        sb := sb + FormatInt(i.value);
        return Ok;
      }
      var u := ParseUint(literal);
      if u.Some? {
        sb := sb + FormatInt(u.value);
        return Ok;
      }
      return Err(NonIntegerNumber);
    }

    /** Accepts exactly the finite integral doubles in [-2^63, 2^64) and writes that integer. */
    method EncodeFloat(f: Float) returns (r: Outcome)
      modifies this
      ensures r == match FloatInteger(f) case Some(_) => Ok case None => Err(NonIntegerNumber)
      ensures r.Ok? ==> sb == old(sb) + FormatInt(FloatInteger(f).value)
      ensures r.Err? ==> sb == old(sb)
    {
      if f.NaN? || f.Infinity? {
        return Err(NonIntegerNumber);
      }
      var v := Val(f);
      RoundTripTest(f);
      if v >= 0.0 && v < TWO64 as real {
        var u := Truncate(v);
        if ToFloat(u) as real == v {
          sb := sb + FormatInt(u);
          return Ok;
        }
        return Err(NonIntegerNumber);
      }
      if v < 0.0 && v >= -(TWO63 as real) {
        var i := Truncate(v);
        if ToFloat(i) as real == v {
          sb := sb + FormatInt(i);
          return Ok;
        }
        return Err(NonIntegerNumber);
      }
      return Err(NonIntegerNumber);
    }

    method EncodeString(s: Text) returns (r: Outcome)
      modifies this
      ensures r == if Valid(s) then Ok else Err(InvalidUtf8)
      ensures r.Ok? ==> sb == old(sb) + RenderString(NormalizeLineEndings(s))
      ensures r.Err? ==> sb == old(sb)
    {
      if !Valid(s) {
        return Err(InvalidUtf8);
      }
      hide *;
      var normalized := NormalizeLineEndings(s);
      NormalizeKeepsValid(s);
      ghost var before := sb;
      EmittedStart(before, normalized);
      sb := sb + [QUOTE];
      var i := 0;
      while i < |normalized|
        invariant i <= |normalized| && Valid(normalized[i..])
        invariant sb == Emitted(before, normalized, i)
      {
        EscapeStep(before, normalized, i);
        sb := sb + EscapeRuneAt(normalized, i);
        i := i + RuneLen(normalized[i..]);
      }
      sb := sb + [QUOTE];
      EmittedEnd(before, normalized);
      return Ok;
    }

    method EncodeArray(v: Value, es: seq<Value>) returns (r: Outcome)
      requires v == Arr(es)
      modifies this
      ensures r.Ok? <==> Accepted(v)
      ensures r.Ok? ==> sb == old(sb) + Render(NormOf(v))
      ensures r.Err? ==> r.error in Errors(v)
      decreases v, 0
    {
      hide Accepted, NormOf, Errors, ElemErrors, Render, ElemsFrom;
      ArrayFrame(v);
      sb := sb + [OPEN_BRACKET];
      ghost var base := sb;
      var i := 0;
      while i < |es|
        invariant i <= |es|
        invariant forall j :: 0 <= j < i ==> Accepted(es[j])
        invariant ElemErrors(v, i) == ElemErrors(v, 0)
        invariant Accepted(v) ==> sb + ElemsFrom(NormOf(v), i) == base + ElemsFrom(NormOf(v), 0)
      {
        ElemContribution(v, i);
        if i > 0 {
          sb := sb + [COMMA];
        }
        r := Encode(es[i]);
        if r.Err? {
          return;
        }
        i := i + 1;
      }
      assert Accepted(v) ==> sb == base + ElemsFrom(NormOf(v), 0);
      sb := sb + [CLOSE_BRACKET];
      r := Ok;
    }

    /** Collects the members in an arbitrary order of the Go map, then emits them sorted. */
    method EncodeObject(v: Value, m: map<Text, Value>) returns (r: Outcome)
      requires v == Obj(m)
      modifies this
      ensures r.Ok? <==> Accepted(v)
      ensures r.Ok? ==> sb == old(sb) + Render(NormOf(v))
      ensures r.Err? ==> r.error in Errors(v)
      decreases v, 0
    {
      hide Accepted, NormOf, Errors, Render, NormalizeLineEndings, Valid, Collected;
      if !KeysAccepted(m) {
        RefusedKeys(m);
      }
      var entries: seq<KeyEntry>;
      r, entries := CollectEntries(m);
      if r.Err? {
        return;
      }
      var sorted := SortEntries(entries);
      NamesInOrder(entries, sorted, m);
      r := EncodeMembers(v, m, entries, sorted);
    }

    /** The emitting half of encodeObject: the sorted entries between braces. */
    method EncodeMembers(v: Value, m: map<Text, Value>, ghost entries: seq<KeyEntry>, sorted: seq<KeyEntry>)
      returns (r: Outcome)
      requires v == Obj(m) && KeysAccepted(m) && Collected(entries, m, m.Keys)
      requires forall e :: e in sorted <==> e in entries
      requires EntryNames(sorted) == SortedKeys(Names(m))
      modifies this
      ensures r.Ok? <==> Accepted(v)
      ensures r.Ok? ==> sb == old(sb) + Render(NormOf(v))
      ensures r.Err? ==> r.error in Errors(v)
      decreases v, 0, 0
    {
      hide *;
      sb := sb + [OPEN_BRACE];
      ghost var base := sb;
      assert |sorted| == |SortedKeys(Names(m))| by { NamesLength(sorted); }
      MembersStart(v, sorted, base);
      var i := 0;
      while i < |sorted|
        invariant i <= |sorted| && MembersWritten(v, sorted, i, base, sb)
      {
        var e := sorted[i];
        ghost var was := sb;
        MemberWritten(v, entries, sorted, i, base, sb);
        if i > 0 {
          sb := sb + [COMMA];
        }
        r := EncodeString(e.normalized);
        sb := sb + [COLON];
        r := Encode(e.value);
        if r.Err? {
          return;
        }
        WithMemberIs(was, i, e, sb);
        i := i + 1;
      }
      MembersEnd(v, entries, sorted, old(sb), base, sb);
      sb := sb + [CLOSE_BRACE];
      r := Ok;
    }
  }

  /** The collecting half of encodeObject: ranges over the Go map in an arbitrary order. */
  method CollectEntries(m: map<Text, Value>) returns (r: Outcome, entries: seq<KeyEntry>)
    ensures r.Ok? <==> KeysAccepted(m)
    ensures r.Ok? ==> Collected(entries, m, m.Keys) && DistinctEntries(entries)
    ensures r.Err? ==> r.error in KeyErrors(m)
  {
    hide NormalizeLineEndings, Valid, Collected;
    NothingCollected(m);
    entries := [];
    var seen: set<Text> := {};
    var remaining := m.Keys;
    while remaining != {}
      invariant remaining <= m.Keys
      invariant Collected(entries, m, m.Keys - remaining)
      invariant forall k :: k in m.Keys - remaining ==> Valid(k)
      invariant seen == set k | k in m.Keys - remaining :: NormalizeLineEndings(k)
      invariant DistinctNames(m.Keys - remaining)
      decreases |remaining|
    {
      var k :| k in remaining;
      if !Valid(k) {
        return Err(InvalidUtf8), entries;
      }
      var nk := NormalizeLineEndings(k);
      if nk in seen {
        return Err(DuplicateKey), entries;
      }
      seen := seen + {nk};
      CollectOne(entries, m, m.Keys - remaining, k);
      assert m.Keys - (remaining - {k}) == (m.Keys - remaining) + {k};
      entries := entries + [KeyEntry(nk, m[k])];
      remaining := remaining - {k};
    }
    assert m.Keys - remaining == m.Keys;
    EntriesAreDistinct(entries, m);
    r := Ok;
  }

  /** Canonicalize: the canonical bytes of an accepted value, or one of its errors. */
  method Canonicalize(v: Value) returns (r: Result)
    ensures r.Encoded? <==> Accepted(v)
    ensures r.Encoded? ==> r.bytes == CanonicalBytes(v)
    ensures r.Refused? ==> r.error in Errors(v)
  {
    var encoder := new Encoder();
    var outcome := encoder.Encode(v);
    if outcome.Err? {
      return Refused(outcome.error);
    }
    encoder.sb := encoder.sb + [LF];
    return Encoded(encoder.sb);
  }

  // ---- facts the encoder's loops rest on ----

  /** Escaping byte by byte is escaping rune by rune: a multi-byte rune is copied. */
  lemma EscapeRune(t: Text)
    requires RuneLen(t) > 0
    ensures EscapeAll(t[..RuneLen(t)]) ==
              if FirstRune(t) < 0x80 then EscapeByte(FirstRune(t)) else EncodeRune(FirstRune(t))
  {
    EncodeDecodedRune(t);
    if RuneLen(t) == 1 {
      assert t[..1][1..] == [];
    } else {
      CopiesHighBytes(t[..RuneLen(t)]);
    }
  }

  /** The output once the runes of t before index i are written. */
  ghost function Emitted(before: Text, t: Text, i: nat): Text
    requires i <= |t|
  {
    before + ([QUOTE] + EscapeAll(t[..i]))
  }

  lemma EmittedStart(before: Text, t: Text)
    ensures before + [QUOTE] == Emitted(before, t, 0) && t[0..] == t
  {}

  lemma EmittedEnd(before: Text, t: Text)
    ensures Emitted(before, t, |t|) + [QUOTE] == before + RenderString(t)
  {
    assert t[..|t|] == t;
  }

  /** What the encoder writes for the rune at index i. */
  function EscapeRuneAt(t: Text, i: nat): Text
    requires i < |t| && RuneLen(t[i..]) > 0
  {
    var rune := FirstRune(t[i..]);
    if rune < 0x80 then EscapeByte(rune) else EncodeRune(rune)
  }

  /** What the rune at index i adds to the output. */
  lemma EscapeStep(before: Text, t: Text, i: nat)
    requires i < |t| && Valid(t[i..])
    ensures RuneLen(t[i..]) > 0
    ensures var k := RuneLen(t[i..]);
            && i + k <= |t| && Valid(t[i + k..])
            && Emitted(before, t, i + k) == Emitted(before, t, i) + EscapeRuneAt(t, i)
  {
    hide EscapeAll, FirstRune, EncodeRune, EscapeByte, RuneLen;
    var rest, k := t[i..], RuneLen(t[i..]);
    EscapeRune(rest);
    EscapeAppend(t[..i], rest[..k]);
    assert t[..i + k] == t[..i] + rest[..k];
    assert t[i + k..] == rest[k..];
  }

  lemma Regroup(a: Text, b: Text, c: Text, d: Text, e: Text, f: Text)
    ensures a + (b + c + d + e + f) == a + b + c + d + e + f
  {}

  lemma ArrayFrame(v: Value)
    requires v.Arr?
    ensures Errors(v) == ElemErrors(v, 0)
    ensures Accepted(v) <==> forall i :: 0 <= i < |v.es| ==> Accepted(v.es[i])
    ensures Accepted(v) ==>
      && NormOf(v).NArr? && |NormOf(v).es| == |v.es|
      && Render(NormOf(v)) == [OPEN_BRACKET] + ElemsFrom(NormOf(v), 0) + [CLOSE_BRACKET]
      && ElemsFrom(NormOf(v), |v.es|) == []
  {}

  /** What encoding element i contributes: its errors, or its rendering after a separator. */
  lemma ElemContribution(v: Value, i: nat)
    requires v.Arr? && i < |v.es|
    ensures !Accepted(v.es[i]) ==> ElemErrors(v, i) == Errors(v.es[i])
    ensures Accepted(v.es[i]) ==> ElemErrors(v, i) == ElemErrors(v, i + 1)
    ensures Accepted(v) ==>
      && Accepted(v.es[i]) && NormOf(v).NArr? && |NormOf(v).es| == |v.es|
      && ElemsFrom(NormOf(v), i) == Separator(i) + Render(NormOf(v.es[i])) + ElemsFrom(NormOf(v), i + 1)
  {
    AcceptedIffNoErrors(v.es[i]);
  }

  lemma ObjectFrame(v: Value)
    requires v.Obj? && KeysAccepted(v.m)
    ensures Errors(v) == MemberErrors(v, SortedKeys(Names(v.m)), 0)
    ensures Accepted(v) ==>
      var names := SortedKeys(Names(v.m));
      && NormOf(v).NObj? && NormOf(v).m.Keys == Names(v.m)
      && Render(NormOf(v)) == [OPEN_BRACE] + MembersFrom(NormOf(v), names, 0) + [CLOSE_BRACE]
      && MembersFrom(NormOf(v), names, |names|) == []
  {
    hide NormalizeLineEndings, RenderString, Names, SortedKeys;
    if Accepted(v) {
      NormKeys(v);
    }
  }

  lemma NormKeys(v: Value)
    requires v.Obj? && Accepted(v)
    ensures NormOf(v).NObj? && NormOf(v).m.Keys == Names(v.m)
  {}

  lemma NamesLength(entries: seq<KeyEntry>)
    ensures |EntryNames(entries)| == |entries|
  {}

  /** What is still to be written from entry i on. */
  ghost function Pending(v: Value, i: nat): Text
    requires v.Obj? && Accepted(v) && i <= |SortedKeys(Names(v.m))|
  {
    NormKeys(v);
    MembersFrom(NormOf(v), SortedKeys(Names(v.m)), i)
  }

  /** The state of EncodeMembers before its entry i: the entries before it are accepted, the
      errors of the object are those of the entries to come, and if it is accepted, what is written
      and what is pending make all its members. */
  ghost predicate MembersWritten(v: Value, sorted: seq<KeyEntry>, i: nat, base: Text, sb: Text)
    requires v.Obj? && KeysAccepted(v.m) && i <= |sorted| == |SortedKeys(Names(v.m))|
  {
    && (forall j :: 0 <= j < i ==> Accepted(sorted[j].value))
    && MemberErrors(v, SortedKeys(Names(v.m)), i) == Errors(v)
    && (Accepted(v) ==> sb + Pending(v, i) == base + Pending(v, 0))
  }

  lemma MembersStart(v: Value, sorted: seq<KeyEntry>, base: Text)
    requires v.Obj? && KeysAccepted(v.m) && |sorted| == |SortedKeys(Names(v.m))|
    ensures MembersWritten(v, sorted, 0, base, base)
  {
    ObjectFrame(v);
    hide Pending, Accepted, Errors, MemberErrors, Names, SortedKeys;
  }

  /** The output after entry e at index i is appended to sb. */
  ghost function WithMember(sb: Text, i: nat, e: KeyEntry): Text
    requires Accepted(e.value)
  {
    (if i > 0 then sb + [COMMA] else sb) + RenderString(e.normalized) + [COLON] + Render(NormOf(e.value))
  }

  lemma WithMemberIs(was: Text, i: nat, e: KeyEntry, sb: Text)
    requires Accepted(e.value)
    requires sb == (if i > 0 then was + [COMMA] else was) + RenderString(e.normalized) + [COLON] + Render(NormOf(e.value))
    ensures sb == WithMember(was, i, e)
  {}

  /** Writing entry i: either it is refused with one of the object's errors, or the state moves on. */
  lemma MemberWritten(v: Value, entries: seq<KeyEntry>, sorted: seq<KeyEntry>, i: nat, base: Text, sb: Text)
    requires v.Obj? && KeysAccepted(v.m) && Collected(entries, v.m, v.m.Keys)
    requires forall e :: e in sorted <==> e in entries
    requires EntryNames(sorted) == SortedKeys(Names(v.m)) && i < |sorted| == |SortedKeys(Names(v.m))|
    requires MembersWritten(v, sorted, i, base, sb)
    ensures var e := sorted[i];
      && e.value < v
      && Valid(e.normalized) && NormalizeLineEndings(e.normalized) == e.normalized
      && (!Accepted(e.value) ==> !Accepted(v) && Errors(e.value) == Errors(v))
      && (Accepted(e.value) ==> MembersWritten(v, sorted, i + 1, base, WithMember(sb, i, e)))
  {
    MemberContribution(v, entries, sorted, i);
    var e := sorted[i];
    if Accepted(v) {
      PendingStep(v, entries, sorted, i, sb);
    }
    hide Pending, Accepted, Errors, MemberErrors, Names, SortedKeys, NormalizeLineEndings, Valid, Collected, WithMember, EntryNames;
  }

  lemma PendingStep(v: Value, entries: seq<KeyEntry>, sorted: seq<KeyEntry>, i: nat, sb: Text)
    requires v.Obj? && Accepted(v) && Collected(entries, v.m, v.m.Keys)
    requires forall e :: e in sorted <==> e in entries
    requires EntryNames(sorted) == SortedKeys(Names(v.m)) && i < |sorted| == |SortedKeys(Names(v.m))|
    ensures Accepted(sorted[i].value) && WithMember(sb, i, sorted[i]) + Pending(v, i + 1) == sb + Pending(v, i)
  {
    MemberContribution(v, entries, sorted, i);
    hide NormOf, Accepted, MembersFrom, Render, Errors, MemberErrors, Names, SortedKeys, RenderString, Collected, NormalizeLineEndings, EntryNames, Valid;
    var e := sorted[i];
    Regroup(sb, Separator(i), RenderString(e.normalized), [COLON], Render(NormOf(e.value)), Pending(v, i + 1));
    assert i == 0 ==> sb + Separator(i) == sb;
  }

  lemma MembersEnd(v: Value, entries: seq<KeyEntry>, sorted: seq<KeyEntry>, before: Text, base: Text, sb: Text)
    requires v.Obj? && KeysAccepted(v.m) && Collected(entries, v.m, v.m.Keys)
    requires forall e :: e in sorted <==> e in entries
    requires |sorted| == |SortedKeys(Names(v.m))| && MembersWritten(v, sorted, |sorted|, base, sb)
    requires base == before + [OPEN_BRACE]
    ensures Accepted(v) && sb + [CLOSE_BRACE] == before + Render(NormOf(v))
  {
    hide NormOf, Accepted, Render, Errors, MemberErrors, Names, SortedKeys, Collected, KeysAccepted, Pending;
    AllEntriesAccepted(entries, sorted, v.m);
    PendingEnds(v);
    Wrap(before, Pending(v, 0), sb);
  }

  lemma Wrap(before: Text, all: Text, sb: Text)
    requires sb + [] == before + [OPEN_BRACE] + all
    ensures sb + [CLOSE_BRACE] == before + ([OPEN_BRACE] + all + [CLOSE_BRACE])
  {
    assert sb + [] == sb;
  }

  lemma PendingEnds(v: Value)
    requires v.Obj? && Accepted(v)
    ensures Pending(v, |SortedKeys(Names(v.m))|) == []
    ensures Render(NormOf(v)) == [OPEN_BRACE] + Pending(v, 0) + [CLOSE_BRACE]
  {
    ObjectFrame(v);
    hide NormOf, Accepted, Render, MembersFrom, Names, SortedKeys;
  }

  /** What encoding entry i contributes: its errors, or its rendering after a separator. */
  lemma MemberContribution(v: Value, entries: seq<KeyEntry>, sorted: seq<KeyEntry>, i: nat)
    requires v.Obj? && KeysAccepted(v.m) && Collected(entries, v.m, v.m.Keys)
    requires forall e :: e in sorted <==> e in entries
    requires EntryNames(sorted) == SortedKeys(Names(v.m)) && i < |sorted|
    ensures var names, e := SortedKeys(Names(v.m)), sorted[i];
      && e.value < v
      && Valid(e.normalized) && NormalizeLineEndings(e.normalized) == e.normalized
      && (!Accepted(e.value) ==> MemberErrors(v, names, i) == Errors(e.value))
      && (Accepted(e.value) ==> MemberErrors(v, names, i) == MemberErrors(v, names, i + 1))
      && (Accepted(v) ==>
            && Accepted(e.value) && NormOf(v).NObj? && NormOf(v).m.Keys == Names(v.m)
            && MembersFrom(NormOf(v), names, i) ==
                 Separator(i) + RenderString(e.normalized) + [COLON] + Render(NormOf(e.value))
                 + MembersFrom(NormOf(v), names, i + 1))
  {
    hide RenderString, NormalizeLineEndings;
    var names, e := SortedKeys(Names(v.m)), sorted[i];
    var key := EntryOf(entries, sorted, v.m, i);
    AcceptedIffNoErrors(e.value);
    assert names[i] == e.normalized;
    if Accepted(v) {
      MemberNorm(v.m, key);
      assert NormOf(v).m[names[i]] == NormOf(e.value);
    }
  }

  lemma {:induction false} CopiesHighBytes(s: Text)
    requires forall i :: 0 <= i < |s| ==> s[i] >= 0x80
    ensures EscapeAll(s) == s
  {
    if s != [] {
      CopiesHighBytes(s[1..]);
    }
  }

  lemma NothingCollected(m: map<Text, Value>)
    ensures m.Keys - m.Keys == {} && Collected([], m, {})
  {}

  lemma EntriesAreDistinct(entries: seq<KeyEntry>, m: map<Text, Value>)
    requires Collected(entries, m, m.Keys)
    ensures DistinctEntries(entries)
  {}

  lemma RefusedKeys(m: map<Text, Value>)
    requires !KeysAccepted(m)
    ensures !Accepted(Obj(m)) && Errors(Obj(m)) == KeyErrors(m)
  {}

  lemma CollectOne(entries: seq<KeyEntry>, m: map<Text, Value>, done: set<Text>, k: Text)
    requires done <= m.Keys && k in m && Collected(entries, m, done)
    requires forall l :: l in done ==> NormalizeLineEndings(l) != NormalizeLineEndings(k)
    ensures Collected(entries + [KeyEntry(NormalizeLineEndings(k), m[k])], m, done + {k})
  {
    hide NormalizeLineEndings;
    var e := KeyEntry(NormalizeLineEndings(k), m[k]);
    var more := entries + [e];
    assert more[|entries|] == e;
    forall i | 0 <= i < |more|
      ensures exists l :: l in done + {k} && more[i] == KeyEntry(NormalizeLineEndings(l), m[l])
    {
      if i < |entries| {
        var l :| l in done && entries[i] == KeyEntry(NormalizeLineEndings(l), m[l]);
        assert l in done + {k};
      }
    }
  }

  lemma NamesInOrder(entries: seq<KeyEntry>, sorted: seq<KeyEntry>, m: map<Text, Value>)
    requires Collected(entries, m, m.Keys)
    requires forall e :: e in sorted <==> e in entries
    requires StrictlySorted(EntryNames(sorted))
    ensures EntryNames(sorted) == SortedKeys(Names(m))
  {
    forall n ensures n in EntryNames(sorted) <==> n in SortedKeys(Names(m)) {
      if n in EntryNames(sorted) {
        var i :| 0 <= i < |sorted| && sorted[i].normalized == n;
        assert sorted[i] in entries;
      }
      if n in Names(m) {
        var k := RawKey(m, n);
        var i :| 0 <= i < |sorted| && sorted[i] == KeyEntry(n, m[k]);
        assert EntryNames(sorted)[i] == n;
      }
    }
    SortedKeysUnique(EntryNames(sorted), SortedKeys(Names(m)));
  }

  lemma EntryOf(entries: seq<KeyEntry>, sorted: seq<KeyEntry>, m: map<Text, Value>, i: nat) returns (k: Text)
    requires i < |sorted| && Collected(entries, m, m.Keys) && KeysAccepted(m)
    requires forall e :: e in sorted <==> e in entries
    ensures k in m && sorted[i] == KeyEntry(NormalizeLineEndings(k), m[k])
    ensures RawKey(m, sorted[i].normalized) == k
    ensures Valid(sorted[i].normalized) && NormalizeLineEndings(sorted[i].normalized) == sorted[i].normalized
  {
    assert sorted[i] in entries;
    k :| k in m && sorted[i] == KeyEntry(NormalizeLineEndings(k), m[k]);
    NormalizeKeepsValid(k);
    NormalizeIdempotent(k);
    assert sorted[i].normalized in Names(m);
  }

  lemma AllEntriesAccepted(entries: seq<KeyEntry>, sorted: seq<KeyEntry>, m: map<Text, Value>)
    requires Collected(entries, m, m.Keys) && KeysAccepted(m)
    requires forall e :: e in sorted <==> e in entries
    requires forall j :: 0 <= j < |sorted| ==> Accepted(sorted[j].value)
    ensures Accepted(Obj(m))
  {
    forall k | k in m ensures Accepted(m[k]) {
      var e := KeyEntry(NormalizeLineEndings(k), m[k]);
      assert e in sorted;
      var j :| 0 <= j < |sorted| && sorted[j] == e;
    }
  }
}
