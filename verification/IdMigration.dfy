/** The artifact ID migration script: each dotted ID becomes zero-padded ordinals and a type
    suffix, and a plan is refused when two IDs would become the same. */
module IdMigration {
  import opened Bytes
  import opened Options

  // ---- dotted IDs ----

  /** strings.Split(t, "."). */
  function Split(t: Text): (parts: seq<Text>)
    ensures |parts| > 0
    ensures forall p :: p in parts ==> DOT !in p
  {
    if t == [] then [[]]
    else
      var rest := Split(t[1..]);
      if t[0] == DOT then [[]] + rest else [[t[0]] + rest[0]] + rest[1..]
  }

  /** strings.Join(parts, "."). */
  function Join(parts: seq<Text>): Text {
    if parts == [] then []
    else if |parts| == 1 then parts[0]
    else parts[0] + ([DOT] + Join(parts[1..]))
  }

  lemma {:induction false} SplitSegment(p: Text, rest: Text)
    requires DOT !in p
    ensures Split(p) == [p]
    ensures Split(p + ([DOT] + rest)) == [p] + Split(rest)
  {
    var t := p + ([DOT] + rest);
    if p == [] {
      assert t[1..] == rest;
    } else {
      SplitSegment(p[1..], rest);
      assert t[1..] == p[1..] + ([DOT] + rest);
      assert [p[0]] + p[1..] == p;
    }
  }

  lemma {:induction false} SplitOfJoin(parts: seq<Text>)
    requires |parts| > 0 && forall p :: p in parts ==> DOT !in p
    ensures Split(Join(parts)) == parts
  {
    if |parts| > 1 {
      SplitOfJoin(parts[1..]);
      SplitSegment(parts[0], Join(parts[1..]));
    } else {
      SplitSegment(parts[0], []);
    }
  }

  // ---- ordinals ----

  /** How many bytes at the end of t are digits. */
  function TrailingRun(t: Text): (k: nat)
    ensures k <= |t| && AllDigits(t[|t| - k..])
    ensures k < |t| ==> !IsDigit(t[|t| - k - 1])
  {
    if t == [] || !IsDigit(t[|t| - 1]) then 0
    else
      var init := t[..|t| - 1];
      var k := TrailingRun(init);
      assert t[|t| - (1 + k)..] == init[|init| - k..] + [t[|t| - 1]];
      1 + k
  }

  lemma DigitCount(n: nat)
    ensures n < 10 ==> |Digits(n)| == 1
    ensures 10 <= n < 100 ==> |Digits(n)| == 2
    ensures n >= 100 ==> |Digits(n)| >= 3
  {
    if n >= 100 {
      assert |Digits(n)| == |Digits(n / 10)| + 1 && |Digits(n / 10)| == |Digits(n / 10 / 10)| + 1;
    }
  }

  /** fmt.Sprintf("%03d", n). */
  function Padded(n: nat): (t: Text)
    ensures |t| >= 3 && AllDigits(t)
    ensures |t| > 3 ==> t[0] != ZERO
  {
    DigitCount(n);
    if n < 10 then [ZERO, ZERO] + Digits(n) else if n < 100 then [ZERO] + Digits(n) else Digits(n)
  }

  lemma {:induction false} LeadingZero(t: Text)
    requires AllDigits(t)
    ensures DigitsValue([ZERO] + t) == DigitsValue(t)
  {
    var z := [ZERO] + t;
    if t != [] {
      LeadingZero(t[..|t| - 1]);
      assert z[..|z| - 1] == [ZERO] + t[..|t| - 1];
    }
  }

  /** The digits of n behind as many zeros as make three. */
  lemma PaddedValue(n: nat)
    ensures DigitsValue(Padded(n)) == n
    ensures |Padded(n)| >= 3 && (|Padded(n)| > 3 ==> Padded(n)[0] != ZERO)
  {
    DigitsRoundTrip(n);
    LeadingZero(Digits(n));
    LeadingZero([ZERO] + Digits(n));
    assert [ZERO, ZERO] + Digits(n) == [ZERO] + ([ZERO] + Digits(n));
  }

  /** The ordinal a segment ends in; None without trailing digits or past the int range. */
  function Ordinal(segment: Text): Option<nat> {
    var k := TrailingRun(segment);
    if k == 0 then None
    else
      var n := DigitsValue(segment[|segment| - k..]);
      if n < 0x8000_0000_0000_0000 then Some(n) else None
  }

  /** trailingOrdinal. */
  method TrailingOrdinal(segment: Text) returns (r: Option<Text>)
    ensures r == match Ordinal(segment) case None => None case Some(n) => Some(Padded(n))
  {
    var start := |segment|;
    assert segment[..start] == segment;
    while start > 0 && IsDigit(segment[start - 1])
      invariant 0 <= start <= |segment|
      invariant TrailingRun(segment) == |segment| - start + TrailingRun(segment[..start])
    {
      assert segment[..start][..start - 1] == segment[..start - 1];
      start := start - 1;
    }
    if start == |segment| {
      return None;
    }
    var n := DigitsValue(segment[start..]);
    if n >= 0x8000_0000_0000_0000 {
      return None;
    }
    return Some(Padded(n));
  }

  // ---- one ID ----

  predicate DigitsOnly(t: Text) {
    t != [] && AllDigits(t)
  }

  predicate HasSuffix(t: Text, suffix: Text) {
    |suffix| <= |t| && t[|t| - |suffix|..] == suffix
  }

  /** isMigratedID. */
  predicate Migrated(id: Text, suffix: Text) {
    var parts := Split(id);
    var last := parts[|parts| - 1];
    && (forall i :: 0 <= i < |parts| - 1 ==> DigitsOnly(parts[i]))
    && HasSuffix(last, suffix) && DigitsOnly(last[..|last| - |suffix|])
  }

  lemma {:induction false} JoinOfSplit(t: Text)
    ensures Join(Split(t)) == t
  {
    if t != [] {
      JoinOfSplit(t[1..]);
      var rest := Split(t[1..]);
      if t[0] == DOT {
        assert Split(t)[1..] == rest;
        assert t == [DOT] + t[1..];
      } else {
        assert Split(t)[1..] == rest[1..];
        assert t == [t[0]] + t[1..];
      }
    }
  }

  lemma {:induction false} JoinWithSuffix(parts: seq<Text>, suffix: Text)
    requires |parts| > 0
    ensures var last := |parts| - 1; Join(parts[last := parts[last] + suffix]) == Join(parts) + suffix
  {
    var last := |parts| - 1;
    if last > 0 {
      JoinWithSuffix(parts[1..], suffix);
      assert parts[last := parts[last] + suffix][1..] == parts[1..][last - 1 := parts[last] + suffix];
    }
  }

  /** A migrated ID is dotted runs of digits followed by the suffix, which has no dot. */
  lemma MigratedMeaning(id: Text, suffix: Text)
    ensures Migrated(id, suffix) <==> DOT !in suffix && exists ns :: AreNumbers(ns) && id == Join(ns) + suffix
  {
    if Migrated(id, suffix) {
      SplitNumbers(id, suffix);
    }
    if DOT !in suffix {
      if ns :| AreNumbers(ns) && id == Join(ns) + suffix {
        NumbersAreMigrated(ns, suffix);
      }
    }
  }

  /** One run of digits or more. */
  predicate AreNumbers(ns: seq<Text>) {
    |ns| > 0 && forall n :: n in ns ==> n != [] && AllDigits(n)
  }

  lemma SplitNumbers(id: Text, suffix: Text)
    requires Migrated(id, suffix)
    ensures DOT !in suffix && exists ns :: AreNumbers(ns) && id == Join(ns) + suffix
  {
    JoinOfSplit(id);
    var ns := StripSuffix(Split(id), suffix);
    hide *;
    JoinWithSuffix(ns, suffix);
  }

  lemma StripSuffix(parts: seq<Text>, suffix: Text) returns (ns: seq<Text>)
    requires |parts| > 0 && (forall i :: 0 <= i < |parts| - 1 ==> DigitsOnly(parts[i]))
    requires var last := parts[|parts| - 1]; DOT !in last && HasSuffix(last, suffix) && DigitsOnly(last[..|last| - |suffix|])
    ensures AreNumbers(ns) && |ns| == |parts| && DOT !in suffix
    ensures ns[|ns| - 1 := ns[|ns| - 1] + suffix] == parts
  {
    var i := |parts| - 1;
    var last := parts[i];
    var digits := last[..|last| - |suffix|];
    assert last == digits + suffix;
    assert forall k :: 0 <= k < |suffix| ==> suffix[k] == last[|digits| + k];
    ns := parts[i := digits];
  }

  lemma NumbersAreMigrated(ns: seq<Text>, suffix: Text)
    requires AreNumbers(ns) && DOT !in suffix
    ensures Migrated(Join(ns) + suffix, suffix)
  {
    var last := |ns| - 1;
    var parts := ns[last := ns[last] + suffix];
    forall p | p in parts ensures DOT !in p {
      var i :| 0 <= i < |parts| && parts[i] == p;
      assert ns[i] in ns && DOT !in ns[i];
    }
    JoinWithSuffix(ns, suffix);
    SplitOfJoin(parts);
    assert parts[last][..|parts[last]| - |suffix|] == ns[last];
    assert forall i :: 0 <= i < |ns| ==> ns[i] in ns;
  }

  predicate AllOrdinal(parts: seq<Text>) {
    forall i :: 0 <= i < |parts| ==> Ordinal(parts[i]).Some?
  }

  /** The migrated segments of an ID that is not migrated yet. */
  function NewParts(parts: seq<Text>, suffix: Text): seq<Text>
    requires AllOrdinal(parts)
  {
    seq(|parts|, i requires 0 <= i < |parts| =>
      Padded(Ordinal(parts[i]).value) + if i == |parts| - 1 then suffix else [])
  }

  function Migrate(id: Text, suffix: Text): Option<Text> {
    if id == [] || suffix == [] then None
    else if Migrated(id, suffix) then Some(id)
    else if AllOrdinal(Split(id)) then Some(Join(NewParts(Split(id), suffix)))
    else None
  }

  /** migrateArtifactID. */
  method MigrateArtifactId(id: Text, suffix: Text) returns (r: Option<Text>)
    ensures r == Migrate(id, suffix)
  {
    MigrateParts(id, suffix);
    hide *;
    if id == [] || suffix == [] {
      return None;
    }
    if Migrated(id, suffix) {
      return Some(id);
    }
    var parts := Split(id);
    var numeric: seq<Text> := [];
    var i := 0;
    NoParts(parts);
    while i < |parts|
      invariant i <= |parts| && AllOrdinal(parts[..i])
      invariant numeric == PaddedParts(parts[..i])
    {
      var ordinal := TrailingOrdinal(parts[i]);
      NextPart(parts, i);
      if ordinal.None? {
        return None;
      }
      numeric := numeric + [ordinal.value];
      i := i + 1;
    }
    SuffixLast(parts, suffix);
    var last := |numeric| - 1;
    numeric := numeric[last := numeric[last] + suffix];
    return Some(Join(numeric));
  }

  lemma MigrateParts(id: Text, suffix: Text)
    ensures id == [] || suffix == [] ==> Migrate(id, suffix) == None
    ensures id != [] && suffix != [] ==>
              if Migrated(id, suffix) then Migrate(id, suffix) == Some(id)
              else if AllOrdinal(Split(id)) then Migrate(id, suffix) == Some(Join(NewParts(Split(id), suffix)))
              else Migrate(id, suffix) == None
    ensures |Split(id)| > 0
  {}

  lemma NoParts(parts: seq<Text>)
    ensures AllOrdinal(parts[..0]) && PaddedParts(parts[..0]) == [] && parts[..|parts|] == parts
  {}

  lemma NextPart(parts: seq<Text>, i: nat)
    requires i < |parts| && AllOrdinal(parts[..i])
    ensures Ordinal(parts[i]).None? ==> !AllOrdinal(parts)
    ensures Ordinal(parts[i]).Some? ==>
      && AllOrdinal(parts[..i + 1])
      && PaddedParts(parts[..i + 1]) == PaddedParts(parts[..i]) + [Padded(Ordinal(parts[i]).value)]
  {
    hide Ordinal, Padded;
    assert parts[..i + 1] == parts[..i] + [parts[i]];
  }

  function PaddedParts(parts: seq<Text>): seq<Text>
    requires AllOrdinal(parts)
  {
    seq(|parts|, i requires 0 <= i < |parts| => Padded(Ordinal(parts[i]).value))
  }

  lemma SuffixLast(parts: seq<Text>, suffix: Text)
    requires |parts| > 0 && AllOrdinal(parts)
    ensures |PaddedParts(parts)| == |parts|
    ensures var n, last := PaddedParts(parts), |parts| - 1;
            n[last := n[last] + suffix] == NewParts(parts, suffix)
  {
    hide Ordinal, Padded;
    var n, last := PaddedParts(parts), |parts| - 1;
    forall i | 0 <= i < |parts| ensures n[last := n[last] + suffix][i] == NewParts(parts, suffix)[i] {
      assert n[i] + [] == n[i];
    }
  }

  /** Migrating a migrated ID gives it back exactly when the suffix has no dot. */
  lemma MigrationIsIdempotent(id: Text, suffix: Text)
    requires Migrate(id, suffix).Some?
    ensures Migrate(Migrate(id, suffix).value, suffix) == Migrate(id, suffix) <==> DOT !in suffix
  {
    if DOT in suffix {
      DottedSuffix(id, suffix);
    } else if !Migrated(id, suffix) {
      NewIdIsMigrated(id, suffix);
    }
  }

  lemma NewIdIsMigrated(id: Text, suffix: Text)
    requires id != [] && suffix != [] && DOT !in suffix && !Migrated(id, suffix) && Migrate(id, suffix).Some?
    ensures var new_ := Migrate(id, suffix).value;
            new_ != [] && Migrated(new_, suffix) && AllOrdinal(Split(id)) && Split(new_) == NewParts(Split(id), suffix)
  {
    var parts := NewParts(Split(id), suffix);
    MigrateParts(id, suffix);
    NewPartsShape(Split(id), suffix);
    SplitOfJoin(parts);
    MigratedShape(Join(parts), parts, suffix);
    hide *;
  }

  lemma MigratedShape(id: Text, parts: seq<Text>, suffix: Text)
    requires Split(id) == parts && suffix != [] && |parts| > 0
    requires var last := parts[|parts| - 1]; HasSuffix(last, suffix) && DigitsOnly(last[..|last| - |suffix|])
    requires forall i :: 0 <= i < |parts| - 1 ==> DigitsOnly(parts[i])
    ensures id != [] && Migrated(id, suffix)
  {
    assert Split([]) == [[]];
    hide DigitsOnly;
  }

  lemma NewPartsShape(old_: seq<Text>, suffix: Text)
    requires |old_| > 0 && DOT !in suffix && AllOrdinal(old_)
    ensures var parts, last := NewParts(old_, suffix), |old_| - 1;
      && (forall p :: p in parts ==> DOT !in p) && (forall i :: 0 <= i < last ==> DigitsOnly(parts[i]))
      && HasSuffix(parts[last], suffix) && DigitsOnly(parts[last][..|parts[last]| - |suffix|])
  {
    hide Ordinal, Padded;
    var parts, last := NewParts(old_, suffix), |old_| - 1;
    forall i | 0 <= i < |parts| ensures DOT !in parts[i] {
      assert DOT !in Padded(Ordinal(old_[i]).value);
    }
    forall i | 0 <= i < last ensures DigitsOnly(parts[i]) {
      var d := Padded(Ordinal(old_[i]).value);
      assert parts[i] == d + [] == d;
    }
    assert parts[last][..|parts[last]| - |suffix|] == Padded(Ordinal(old_[last]).value);
  }

  /** No ID is migrated with respect to a suffix with a dot, and migrating lengthens it. */
  lemma DottedSuffix(id: Text, suffix: Text)
    requires DOT in suffix && Migrate(id, suffix).Some?
    ensures Migrate(Migrate(id, suffix).value, suffix) != Migrate(id, suffix)
  {
    var new_ := Migrate(id, suffix).value;
    assert suffix != [];
    NotMigrated(new_, suffix);
    if new_ != [] {
      MigrateParts(new_, suffix);
    }
    assert new_ == [] ==> Migrate(new_, suffix) == None;
    hide *;
    if AllOrdinal(Split(new_)) {
      DottedParts(Split(new_), suffix);
      DottedEnd(NewParts(Split(new_), suffix));
    }
  }

  lemma DottedParts(old_: seq<Text>, suffix: Text)
    requires DOT in suffix && AllOrdinal(old_) && |old_| > 0
    ensures |NewParts(old_, suffix)| == |old_| && DOT in NewParts(old_, suffix)[|old_| - 1]
  {
    hide Ordinal, Padded;
  }

  /** A dot in the last segment makes one more segment when the ID is split again. */
  lemma {:induction false} DottedEnd(parts: seq<Text>)
    requires |parts| > 0 && DOT in parts[|parts| - 1]
    ensures |Split(Join(parts))| > |parts|
  {
    if |parts| == 1 {
      DottedText(parts[0]);
    } else {
      DottedEnd(parts[1..]);
      SplitCount(parts[0], Join(parts[1..]));
    }
  }

  lemma {:induction false} DottedText(t: Text)
    requires DOT in t
    ensures |Split(t)| > 1
  {
    if t[0] != DOT {
      DottedText(t[1..]);
    }
  }

  lemma {:induction false} SplitCount(a: Text, b: Text)
    ensures |Split(a + ([DOT] + b))| == |Split(a)| + |Split(b)|
  {
    var t := a + ([DOT] + b);
    if a == [] {
      assert t[1..] == b;
    } else {
      assert t[1..] == a[1..] + ([DOT] + b);
      SplitCount(a[1..], b);
    }
  }

  lemma NotMigrated(id: Text, suffix: Text)
    requires DOT in suffix
    ensures !Migrated(id, suffix)
  {
    var parts := Split(id);
    var last := parts[|parts| - 1];
    assert last in parts;
    if HasSuffix(last, suffix) {
      DotWithin(last, suffix);
    }
  }

  lemma DotWithin(t: Text, suffix: Text)
    requires HasSuffix(t, suffix) && DOT in suffix
    ensures DOT in t
  {
    var k :| 0 <= k < |suffix| && suffix[k] == DOT;
    assert t[|t| - |suffix| + k] == DOT;
  }

  /** Migration keeps the number of segments, and each new segment is the old segment's ordinal,
      padded, with the suffix after the last one. */
  lemma MigrationKeepsOrdinals(id: Text, suffix: Text)
    requires Migrate(id, suffix).Some? && DOT !in suffix && !Migrated(id, suffix)
    ensures var old_, new_ := Split(id), Split(Migrate(id, suffix).value);
      && |new_| == |old_|
      && (forall i :: 0 <= i < |old_| ==> Ordinal(old_[i]).Some?)
      && (forall i :: 0 <= i < |old_| ==>
            new_[i] == Padded(Ordinal(old_[i]).value) + if i == |old_| - 1 then suffix else [])
      && (forall i :: 0 <= i < |old_| - 1 ==> Ordinal(new_[i]) == Ordinal(old_[i]))
  {
    NewIdIsMigrated(id, suffix);
    var old_ := Split(id);
    assert AllOrdinal(old_);
    hide *;
    forall i | 0 <= i < |old_|
      ensures Ordinal(old_[i]).Some?
      ensures i < |old_| - 1 ==> Ordinal(NewParts(old_, suffix)[i]) == Ordinal(old_[i])
      ensures NewParts(old_, suffix)[i] == Padded(Ordinal(old_[i]).value) + if i == |old_| - 1 then suffix else []
    {
      NewPartAt(old_, suffix, i);
    }
  }

  lemma NewPartAt(old_: seq<Text>, suffix: Text, i: nat)
    requires AllOrdinal(old_) && i < |old_|
    ensures |NewParts(old_, suffix)| == |old_| && Ordinal(old_[i]).Some?
    ensures NewParts(old_, suffix)[i] == Padded(Ordinal(old_[i]).value) + if i == |old_| - 1 then suffix else []
    ensures i < |old_| - 1 ==> Ordinal(NewParts(old_, suffix)[i]) == Ordinal(old_[i])
  {
    var n := Ordinal(old_[i]).value;
    PaddedValue(n);
    AllTrailing(Padded(n));
    assert Padded(n) + [] == Padded(n);
  }

  lemma {:induction false} AllTrailing(t: Text)
    requires AllDigits(t)
    ensures TrailingRun(t) == |t| && t[|t| - |t|..] == t
  {
    if t != [] {
      AllTrailing(t[..|t| - 1]);
    }
  }

  // ---- the plan ----

  datatype Source = Source(id: Text, suffix: Text)

  function NewId(s: Source): Option<Text> {
    Migrate(s.id, s.suffix)
  }

  /** Every artifact can be migrated and no two different IDs become the same. */
  predicate Plannable(sources: seq<Source>) {
    && (forall i :: 0 <= i < |sources| ==> NewId(sources[i]).Some?)
    && (forall i, j :: 0 <= i < j < |sources| && sources[i].id != sources[j].id ==> NewId(sources[i]) != NewId(sources[j]))
  }

  /** `mapping` and `reverse` after the artifacts in `sources`. */
  ghost predicate Mapped(sources: seq<Source>, mapping: map<Text, Text>, reverse: map<Text, Text>) {
    && Plannable(sources)
    && (forall s :: s in sources ==> s.id in mapping && NewId(s).value in reverse && reverse[NewId(s).value] == s.id)
    && (forall x :: x in mapping ==> exists s :: s in sources && s.id == x && NewId(s) == Some(mapping[x]))
    && (forall y :: y in reverse ==> exists s :: s in sources && NewId(s) == Some(y))
  }

  lemma RefuseOne(sources: seq<Source>, s: Source, mapping: map<Text, Text>, reverse: map<Text, Text>)
    requires Mapped(sources, mapping, reverse) && NewId(s).Some?
    requires NewId(s).value in reverse && reverse[NewId(s).value] != s.id
    ensures !Plannable(sources + [s])
  {
    hide NewId;
    var t :| t in sources && NewId(t) == Some(NewId(s).value);
    var i :| 0 <= i < |sources| && sources[i] == t;
    var more := sources + [s];
    assert more[i] == t && more[|sources|] == s;
  }

  lemma MapOne(sources: seq<Source>, s: Source, mapping: map<Text, Text>, reverse: map<Text, Text>)
    requires Mapped(sources, mapping, reverse) && NewId(s).Some?
    requires NewId(s).value in reverse ==> reverse[NewId(s).value] == s.id
    ensures Mapped(sources + [s], mapping[s.id := NewId(s).value], reverse[NewId(s).value := s.id])
  {
    PlannableOne(sources, s, reverse);
    MapOneForth(sources, s, mapping, reverse);
    MapOneBack(sources, s, mapping, reverse);
    hide Plannable, NewId;
  }

  lemma PlannableOne(sources: seq<Source>, s: Source, reverse: map<Text, Text>)
    requires Plannable(sources) && NewId(s).Some?
    requires forall t :: t in sources ==> NewId(t).Some? && NewId(t).value in reverse && reverse[NewId(t).value] == t.id
    requires NewId(s).value in reverse ==> reverse[NewId(s).value] == s.id
    ensures Plannable(sources + [s])
  {
    hide NewId;
    var more := sources + [s];
    forall i, j | 0 <= i < j < |more| && more[i].id != more[j].id ensures NewId(more[i]) != NewId(more[j]) {
      assert more[i] == sources[i] && sources[i] in sources;
      assert j < |sources| ==> more[j] == sources[j];
    }
  }

  lemma MapOneForth(sources: seq<Source>, s: Source, mapping: map<Text, Text>, reverse: map<Text, Text>)
    requires Mapped(sources, mapping, reverse) && NewId(s).Some?
    requires NewId(s).value in reverse ==> reverse[NewId(s).value] == s.id
    ensures var m, r := mapping[s.id := NewId(s).value], reverse[NewId(s).value := s.id];
            forall t :: t in sources + [s] ==> t.id in m && NewId(t).value in r && r[NewId(t).value] == t.id
  {
    hide NewId;
    forall t | t in sources + [s] ensures t == s || t in sources {}
  }

  lemma MapOneBack(sources: seq<Source>, s: Source, mapping: map<Text, Text>, reverse: map<Text, Text>)
    requires Mapped(sources, mapping, reverse) && NewId(s).Some?
    ensures var m := mapping[s.id := NewId(s).value];
            forall x :: x in m ==> exists t :: t in sources + [s] && t.id == x && NewId(t) == Some(m[x])
    ensures var r := reverse[NewId(s).value := s.id];
            forall y :: y in r ==> exists t :: t in sources + [s] && NewId(t) == Some(y)
  {
    hide NewId;
    var more := sources + [s];
    assert s in more;
    forall x | x in mapping && x != s.id ensures exists t :: t in more && t.id == x && NewId(t) == Some(mapping[x]) {
      var t :| t in sources && t.id == x && NewId(t) == Some(mapping[x]);
      assert t in more;
    }
    forall y | y in reverse ensures exists t :: t in more && NewId(t) == Some(y) {
      var t :| t in sources && NewId(t) == Some(y);
      assert t in more;
    }
  }

  /** The mapping loop of buildMigrationPlan: refused exactly when an ID cannot be migrated or two
      different IDs would become the same; an accepted mapping covers every ID, holds one of its
      migrations, and never maps two IDs to one. */
  method BuildMapping(sources: seq<Source>) returns (r: Option<map<Text, Text>>)
    ensures r.Some? <==> Plannable(sources)
    ensures r.Some? ==> forall s :: s in sources ==> s.id in r.value
    ensures r.Some? ==> forall x :: x in r.value ==> exists s :: s in sources && s.id == x && NewId(s) == Some(r.value[x])
    ensures r.Some? ==> forall x, y :: x in r.value && y in r.value && r.value[x] == r.value[y] ==> x == y
  {
    var mapping: map<Text, Text>, reverse: map<Text, Text> := map[], map[];
    assert Mapped(sources[..0], mapping, reverse);
    for n := 0 to |sources|
      invariant Mapped(sources[..n], mapping, reverse)
    {
      hide Migrate, Mapped, Plannable;
      var s := sources[n];
      assert sources[..n + 1] == sources[..n] + [s];
      var newId := MigrateArtifactId(s.id, s.suffix);
      if newId.None? {
        NotPlannable(sources, n);
        return None;
      }
      var y := newId.value;
      if y in reverse && reverse[y] != s.id {
        RefuseOne(sources[..n], s, mapping, reverse);
        PlannablePrefix(sources, n + 1);
        return None;
      }
      MapOne(sources[..n], s, mapping, reverse);
      reverse := reverse[y := s.id];
      mapping := mapping[s.id := y];
    }
    assert sources[..|sources|] == sources;
    MappedInjective(sources, mapping, reverse);
    return Some(mapping);
  }

  lemma NotPlannable(sources: seq<Source>, n: nat)
    requires n < |sources| && NewId(sources[n]).None?
    ensures !Plannable(sources)
  {}

  lemma PlannablePrefix(sources: seq<Source>, n: nat)
    requires n <= |sources|
    ensures Plannable(sources) ==> Plannable(sources[..n])
  {}

  lemma MappedInjective(sources: seq<Source>, mapping: map<Text, Text>, reverse: map<Text, Text>)
    requires Mapped(sources, mapping, reverse)
    ensures Plannable(sources)
    ensures forall s :: s in sources ==> s.id in mapping
    ensures forall x :: x in mapping ==> exists s :: s in sources && s.id == x && NewId(s) == Some(mapping[x])
    ensures forall x, y :: x in mapping && y in mapping && mapping[x] == mapping[y] ==> x == y
  {
    hide NewId;
    forall x | x in mapping ensures mapping[x] in reverse && reverse[mapping[x]] == x {
      var s :| s in sources && s.id == x && NewId(s) == Some(mapping[x]);
    }
  }

  /** Migrating the artifacts of an accepted plan again, under their new IDs, changes no ID. */
  lemma PlanIsIdempotent(sources: seq<Source>)
    requires Plannable(sources) && forall s :: s in sources ==> DOT !in s.suffix
    ensures forall s :: s in sources ==> NewId(s).Some? && NewId(Source(NewId(s).value, s.suffix)) == NewId(s)
  {
    forall s | s in sources ensures NewId(s).Some? && NewId(Source(NewId(s).value, s.suffix)) == NewId(s) {
      MigrationIsIdempotent(s.id, s.suffix);
    }
  }
}
