/** The size and complexity seams: every change of the reserved fields is logged before it is
    written, once per call, and complexity provenance stays complete. */
module MetadataSeams {
  import opened Bytes
  import opened Options

  /** The reserved custom fields, and all others. */
  datatype Key = Size | SizeSource | SizeRuleset | Complexity | ComplexitySource | ComplexityRuleset | OtherKey(name: Text)

  type Fields = map<Key, Text>

  predicate Reserved(k: Key) {
    !k.OtherKey?
  }

  datatype Provenance = Provenance(source: Text, ruleset: Text)

  /** An estimate_history event, as much of it as the mutation that follows depends on. */
  datatype Event =
    | ComplexityEvent(value: Text, provenance: Option<Provenance>)
    | SizeEvent(size: Option<Text>, source: Option<Text>, ruleset: Option<Text>)

  function Set(fields: Fields, k: Key, v: Option<Text>): Fields {
    match v case Some(t) => fields[k := t] case None => fields
  }

  /** What the write after an event persists. */
  function Effect(fields: Fields, e: Event): Fields {
    match e
    case ComplexityEvent(value, provenance) =>
      if value == [] then fields - {Complexity, ComplexitySource, ComplexityRuleset}
      else if provenance.Some? then
        fields[Complexity := value][ComplexitySource := provenance.value.source][ComplexityRuleset := provenance.value.ruleset]
      else fields[Complexity := value] - {ComplexitySource, ComplexityRuleset}
    case SizeEvent(size, source, ruleset) =>
      Set(Set(Set(fields, Size, size), SizeSource, source), SizeRuleset, ruleset)
  }

  // ---- validation ----

  const HUMAN: Text := [104, 117, 109, 97, 110]
  const AGENT: Text := [97, 103, 101, 110, 116]
  const DERIVED: Text := [100, 101, 114, 105, 118, 101, 100]

  predicate KnownSource(t: Text) {
    t == HUMAN || t == AGENT || t == DERIVED
  }

  /** strings.TrimSpace leaves nothing. */
  predicate Blank(t: Text) {
    forall i :: 0 <= i < |t| ==> t[i] == SPACE || 9 <= t[i] <= 13
  }

  predicate HasControl(t: Text) {
    exists i :: 0 <= i < |t| && (t[i] < 32 || t[i] == 127)
  }

  datatype ComplexityMutation = ComplexityMutation(complexity: Option<Text>, source: Option<Text>, ruleset: Option<Text>)
  datatype SizeMutation = SizeMutation(size: Option<Text>, source: Option<Text>, ruleset: Option<Text>)

  /** The header definition of the artifact's type: the allowed values, None without the field. */
  datatype Schema = Schema(task: bool, complexities: Option<set<Text>>, sizes: Option<set<Text>>)

  /** validateComplexityProvenance. */
  predicate CompleteProvenance(m: ComplexityMutation) {
    || (m.source.None? && m.ruleset.None?)
    || (m.complexity.Some? && m.complexity.value != []
        && m.source.Some? && KnownSource(m.source.value)
        && m.ruleset.Some? && !Blank(m.ruleset.value) && !HasControl(m.ruleset.value))
  }

  predicate ValidComplexity(m: ComplexityMutation, schema: Schema) {
    && m.complexity.Some? && schema.task && schema.complexities.Some?
    && (m.complexity.value == [] || m.complexity.value in schema.complexities.value)
    && CompleteProvenance(m)
  }

  /** validateSizeMutation; it lets a ruleset without a source through. */
  predicate ValidSize(m: SizeMutation, prior: Option<Text>, schema: Schema) {
    && (m.size.Some? ==> schema.sizes.Some? && m.size.value in schema.sizes.value)
    && (m.source.Some? ==> KnownSource(m.source.value) && m.ruleset.Some? && !Blank(m.ruleset.value))
    && (m.source.Some? || m.ruleset.Some? ==>
          var effective := if m.size.Some? then m.size else prior;
          effective.Some? && !Blank(effective.value))
  }

  /** What the size seam refuses, exactly: a size that is none of the schema's values, or with no
      size field in the schema; a source other than human, agent and derived, or without a ruleset or
      with a blank one; and provenance where there is no size, neither given nor stored. */
  lemma SizeRefusals(m: SizeMutation, prior: Option<Text>, schema: Schema)
    ensures !ValidSize(m, prior, schema) <==>
      || (m.size.Some? && (schema.sizes.None? || m.size.value !in schema.sizes.value))
      || (m.source.Some? && m.source.value != [104, 117, 109, 97, 110] && m.source.value != [97, 103, 101, 110, 116]
          && m.source.value != [100, 101, 114, 105, 118, 101, 100])
      || (m.source.Some? && (m.ruleset.None? || OnlySpace(m.ruleset.value)))
      || ((m.source.Some? || m.ruleset.Some?) && m.size.None? && (prior.None? || OnlySpace(prior.value)))
      || ((m.source.Some? || m.ruleset.Some?) && m.size.Some? && OnlySpace(m.size.value))
  {
    SpaceMeaning();
    hide Blank, OnlySpace, HasControl;
  }

  lemma SpaceMeaning()
    ensures forall t :: Blank(t) <==> OnlySpace(t)
    ensures forall t :: HasControl(t) <==> exists b :: b in t && (b < 32 || b == 127)
  {
    forall t: Text ensures Blank(t) <==> OnlySpace(t) {
      assert forall i :: 0 <= i < |t| ==> t[i] in t;
    }
    forall t: Text ensures HasControl(t) <==> exists b :: b in t && (b < 32 || b == 127) {
      if i :| 0 <= i < |t| && (t[i] < 32 || t[i] == 127) {
        assert t[i] in t;
      }
    }
  }

  /** Tab, line feed, vertical tab, form feed, carriage return and space. */
  predicate OnlySpace(t: Text) {
    forall b :: b in t ==> b in [9, 10, 11, 12, 13, 32]
  }

  /** What the complexity seam refuses, exactly. */
  lemma ComplexityRefusals(m: ComplexityMutation, schema: Schema)
    ensures !ValidComplexity(m, schema) <==>
      || m.complexity.None? || !schema.task || schema.complexities.None?
      || (m.complexity.value != [] && m.complexity.value !in schema.complexities.value)
      || (m.source.Some? != m.ruleset.Some?)
      || (m.source.Some? && m.complexity.value == [])
      || (m.source.Some? && m.source.value != [104, 117, 109, 97, 110] && m.source.value != [97, 103, 101, 110, 116]
          && m.source.value != [100, 101, 114, 105, 118, 101, 100])
      || (m.ruleset.Some? && (OnlySpace(m.ruleset.value) || exists b :: b in m.ruleset.value && (b < 32 || b == 127)))
  {
    SpaceMeaning();
    hide Blank, OnlySpace, HasControl;
  }

  ghost predicate SameReserved(a: Fields, b: Fields) {
    && (forall k :: Reserved(k) ==> (k in a <==> k in b))
    && (forall k :: Reserved(k) && k in a ==> a[k] == b[k])
  }

  // ---- replay ----

  /** The fields after the writes of some events, in order. */
  function Replay(base: Fields, es: seq<Event>): Fields {
    if es == [] then base else Effect(Replay(base, es[..|es| - 1]), es[|es| - 1])
  }

  predicate Sets(e: Event, k: Key, v: Text) {
    match e
    case ComplexityEvent(value, p) =>
      (k == Complexity && v == value) || (p.Some? && ((k == ComplexitySource && v == p.value.source)
                                                      || (k == ComplexityRuleset && v == p.value.ruleset)))
    case SizeEvent(size, source, ruleset) =>
      (k == Size && Some(v) == size) || (k == SizeSource && Some(v) == source) || (k == SizeRuleset && Some(v) == ruleset)
  }

  lemma EffectValues(fields: Fields, e: Event, k: Key)
    requires k in Effect(fields, e)
    ensures Sets(e, k, Effect(fields, e)[k]) || (k in fields && fields[k] == Effect(fields, e)[k])
  {}

  /** Every reserved value there is was there at first or is in one of the events. */
  lemma {:induction false} ReplayedValuesAreLogged(base: Fields, es: seq<Event>, k: Key)
    requires k in Replay(base, es)
    ensures (k in base && Replay(base, es)[k] == base[k]) || exists e :: e in es && Sets(e, k, Replay(base, es)[k])
  {
    hide Effect, Sets;
    if es != [] {
      var init, last := es[..|es| - 1], es[|es| - 1];
      EffectValues(Replay(base, init), last, k);
      assert last in es && forall e :: e in init ==> e in es;
      if !Sets(last, k, Replay(base, es)[k]) {
        ReplayedValuesAreLogged(base, init, k);
      }
    }
  }

  /** Source and ruleset are both present or both absent, and present only with a value. */
  predicate Paired(fields: Fields) {
    && (ComplexitySource in fields <==> ComplexityRuleset in fields)
    && (ComplexitySource in fields ==> Complexity in fields)
  }

  /** A complexity change leaves the provenance paired whatever it was before; a size change does
      not touch it. */
  lemma EffectPairs(fields: Fields, e: Event)
    ensures e.ComplexityEvent? ==> Paired(Effect(fields, e))
    ensures e.SizeEvent? ==> (Paired(Effect(fields, e)) <==> Paired(fields))
  {}

  /** Over any run: paired at first, or once one complexity change was written, is paired ever
      after. */
  lemma {:induction false} ReplayPairs(base: Fields, es: seq<Event>)
    requires Paired(base) || exists e :: e in es && e.ComplexityEvent?
    ensures Paired(Replay(base, es))
  {
    if es != [] {
      var init, last := es[..|es| - 1], es[|es| - 1];
      assert es == init + [last];
      EffectPairs(Replay(base, init), last);
      if last.SizeEvent? {
        ReplayPairs(base, init);
      }
    }
  }

  predicate SizePaired(fields: Fields) {
    SizeSource in fields <==> SizeRuleset in fields
  }

  /** A valid size change keeps size provenance paired except in exactly one case: a ruleset is
      given alone and no source is stored. */
  lemma SizePairing(fields: Fields, m: SizeMutation, prior: Option<Text>, schema: Schema)
    requires SizePaired(fields) && ValidSize(m, prior, schema)
    ensures SizePaired(Effect(fields, SizeEventOf(m)))
       <==> !(m.source.None? && m.ruleset.Some? && SizeSource !in fields)
  {}

  // ---- the events of the mutations ----

  /** The event of a complexity mutation: its value, and its provenance when it brings one. */
  function ComplexityEventOf(m: ComplexityMutation): Event
    requires m.complexity.Some?
  {
    ComplexityEvent(m.complexity.value,
                    if m.source.Some? && m.ruleset.Some? then Some(Provenance(m.source.value, m.ruleset.value)) else None)
  }

  function SizeEventOf(m: SizeMutation): Event {
    SizeEvent(m.size, m.source, m.ruleset)
  }

  function Get(fields: Fields, k: Key): Option<Text> {
    if k in fields then Some(fields[k]) else None
  }

  /** A valid complexity mutation replaces value and provenance together, and nothing else: what
      it does not bring is gone. */
  lemma ComplexityReplaces(fields: Fields, m: ComplexityMutation, schema: Schema)
    requires ValidComplexity(m, schema)
    ensures var f := Effect(fields, ComplexityEventOf(m));
      && Get(f, Complexity) == (if m.complexity.value == [] then None else m.complexity)
      && Get(f, ComplexitySource) == m.source && Get(f, ComplexityRuleset) == m.ruleset
      && forall k :: k !in {Complexity, ComplexitySource, ComplexityRuleset} ==> Get(f, k) == Get(fields, k)
  {}

  /** A size mutation changes what it brings and keeps the rest. */
  lemma SizeMerges(fields: Fields, m: SizeMutation)
    ensures var f := Effect(fields, SizeEventOf(m));
      && Get(f, Size) == (if m.size.Some? then m.size else Get(fields, Size))
      && Get(f, SizeSource) == (if m.source.Some? then m.source else Get(fields, SizeSource))
      && Get(f, SizeRuleset) == (if m.ruleset.Some? then m.ruleset else Get(fields, SizeRuleset))
      && forall k :: k !in {Size, SizeSource, SizeRuleset} ==> Get(f, k) == Get(fields, k)
  {}

  // ---- the seams ----

  datatype WriteOutcome = Written | NotApplied | Uncertain

  /** Crashed stands for the process ending after some step. */
  datatype Outcome = Done | Refused | Failed | Crashed

  /** What happens at each step of a seam call after validation: the append, which can reach the log and
      still be reported as failed; the write; its one retry; and a crash after the append, between the
      writes or at the end. */
  datatype Steps = Steps(appended: bool, reported: bool, crashed: bool, first: WriteOutcome, crashedAgain: bool,
                         second: WriteOutcome, crashedAtEnd: bool)

  /** The fields are replaced: the append was reported, and the first write was applied, or was not and
      the second one was. */
  predicate Lands(f: Steps) {
    && f.appended && f.reported && !f.crashed
    && (f.first.NotApplied? ==> !f.crashedAgain && !f.second.NotApplied?)
  }

  predicate Succeeds(f: Steps) {
    Lands(f) && !f.crashedAtEnd && (if f.first.NotApplied? then f.second.Written? else f.first.Written?)
  }

  class Task {
    var fields: Fields
    var body: Text
    /** The item's event log; only ever appended to. */
    var log: seq<Event>
    /** The fields at first, and which events were followed by their write. */
    ghost var base: Fields
    ghost var applied: seq<nat>

    /** The reserved fields are exactly what the applied events, all of them in the log and in log
        order, made of the first ones. */
    ghost predicate Valid()
      reads this
    {
      && (forall i :: 0 <= i < |applied| ==> applied[i] < |log|)
      && (forall i, j :: 0 <= i < j < |applied| ==> applied[i] < applied[j])
      && SameReserved(fields, Replay(base, Picked(log, applied)))
    }

    constructor (fields: Fields, body: Text)
      ensures Valid() && this.fields == fields && this.body == body && log == [] && base == fields
    {
      this.fields, this.body, this.log := fields, body, [];
      this.base, this.applied := fields, [];
    }

    /** SetArtifactComplexityWithProvenance. */
    method SetComplexity(m: ComplexityMutation, schema: Schema, f: Steps) returns (r: Outcome)
      requires Valid()
      modifies this
      ensures Valid() && base == old(base) && body == old(body)
      ensures log == old(log) || (ValidComplexity(m, schema) && log == old(log) + [ComplexityEventOf(m)])
      ensures fields == old(fields)
        || (ValidComplexity(m, schema) && log == old(log) + [ComplexityEventOf(m)]
            && fields == Effect(old(fields), ComplexityEventOf(m)))
      ensures r.Refused? ==> fields == old(fields)
      ensures !ValidComplexity(m, schema) ==> r.Refused? && log == old(log)
      ensures ValidComplexity(m, schema) ==>
        && (r.Done? <==> Succeeds(f)) && (r.Refused? <==> !(f.appended && f.reported))
        && (f.appended ==> log == old(log) + [ComplexityEventOf(m)])
        && (Lands(f) ==> fields == Effect(old(fields), ComplexityEventOf(m)))
      ensures r.Done? ==> ValidComplexity(m, schema) && Paired(fields)
                          && log == old(log) + [ComplexityEventOf(m)] && fields == Effect(old(fields), ComplexityEventOf(m))
    {
      if m.complexity.None? || !schema.task || schema.complexities.None? {
        return Refused;
      }
      var value := m.complexity.value;
      if value != [] && value !in schema.complexities.value {
        return Refused;
      }
      if !CompleteProvenance(m) {
        return Refused;
      }
      var supplied := m.source.Some? || m.ruleset.Some?;
      var e := ComplexityEvent(value, if supplied then Some(Provenance(m.source.value, m.ruleset.value)) else None);
      r := Commit(e, f);
      EffectPairs(old(fields), e);
      assert e == ComplexityEventOf(m);
    }

    /** SetArtifactSizeWithProvenance. */
    method SetSize(m: SizeMutation, schema: Schema, f: Steps) returns (r: Outcome)
      requires Valid()
      modifies this
      ensures Valid() && base == old(base) && body == old(body)
      ensures log == old(log) || log == old(log) + [SizeEventOf(m)]
      ensures fields == old(fields) || (log == old(log) + [SizeEventOf(m)] && fields == Effect(old(fields), SizeEventOf(m)))
      ensures r.Refused? ==> fields == old(fields)
      ensures !ValidSize(m, Get(old(fields), Size), schema) ==> r.Refused? && log == old(log)
      ensures ValidSize(m, Get(old(fields), Size), schema) ==>
        && (r.Done? <==> Succeeds(f)) && (r.Refused? <==> !(f.appended && f.reported))
        && (f.appended ==> log == old(log) + [SizeEventOf(m)])
        && (Lands(f) ==> fields == Effect(old(fields), SizeEventOf(m)))
      ensures r.Done? ==> log == old(log) + [SizeEventOf(m)] && fields == Effect(old(fields), SizeEventOf(m))
    {
      if !ValidSize(m, Get(fields, Size), schema) {
        return Refused;
      }
      r := Commit(SizeEventOf(m), f);
    }

    /** Append the event, then write the fields; a write that was not applied is retried once, and
        the event is not appended again. */
    method Commit(e: Event, f: Steps) returns (r: Outcome)
      requires Valid()
      modifies this
      ensures Valid() && base == old(base) && body == old(body)
      ensures log == if f.appended then old(log) + [e] else old(log)
      ensures fields == if Lands(f) then Effect(old(fields), e) else old(fields)
      ensures r.Done? <==> Succeeds(f)
      ensures r.Refused? <==> !(f.appended && f.reported)
    {
      if f.appended {
        AppendKeeps(log, applied, e);
        log := log + [e];
      }
      if !f.appended || !f.reported {
        return Refused;
      }
      if f.crashed {
        return Crashed;
      }
      var out := Effect(fields, e);
      var o := f.first;
      WriteFields(out, o);
      if o.NotApplied? {
        if f.crashedAgain {
          return Crashed;
        }
        o := f.second;
        WriteFields(out, o);
      }
      if !o.NotApplied? {
        ApplyKeeps(base, old(fields), old(log), applied, e);
        applied := applied + [|old(log)|];
      }
      if !o.Written? {
        return Failed;
      }
      return if f.crashedAtEnd then Crashed else Done;
    }

    /** One atomic write of the fields; an uncertain one has replaced them. */
    method WriteFields(out: Fields, o: WriteOutcome)
      modifies this`fields
      ensures fields == if o.NotApplied? then old(fields) else out
    {
      if !o.NotApplied? {
        fields := out;
      }
    }

    /** The generic update path: reserved keys the caller supplies are dropped and the stored ones
        are carried over. */
    method GenericUpdate(incoming: Fields) returns (written: bool)
      requires Valid()
      modifies this
      ensures Valid() && base == old(base) && log == old(log) && body == old(body)
      ensures forall k :: Reserved(k) ==> (k in fields <==> k in old(fields)) && (k in fields ==> fields[k] == old(fields)[k])
      ensures written ==> forall k :: !Reserved(k) ==> (k in fields <==> k in incoming) && (k in fields ==> fields[k] == incoming[k])
    {
      written := *;
      if !written {
        return;
      }
      var merged := MergePreserve(fields, incoming);
      fields := merged;
    }
  }

  const RESERVED: seq<Key> := [Size, SizeSource, SizeRuleset, Complexity, ComplexitySource, ComplexityRuleset]

  /** mergePreserveReservedSizingKeys. */
  method MergePreserve(prior: Fields, incoming: Fields) returns (merged: Fields)
    ensures forall k :: k in merged <==> k in if Reserved(k) then prior else incoming
    ensures forall k :: k in merged ==> merged[k] == if Reserved(k) then prior[k] else incoming[k]
  {
    merged := incoming;
    for i := 0 to |RESERVED|
      invariant forall k :: k in merged <==> k in if k in RESERVED[..i] then prior else incoming
      invariant forall k :: k in merged ==> merged[k] == if k in RESERVED[..i] then prior[k] else incoming[k]
    {
      var k := RESERVED[i];
      assert RESERVED[..i + 1] == RESERVED[..i] + [k];
      merged := merged - {k};
      if k in prior {
        merged := merged[k := prior[k]];
      }
    }
    assert RESERVED[..|RESERVED|] == RESERVED;
    assert forall k :: Reserved(k) <==> k in RESERVED;
  }

  // ---- the applied events ----

  function Picked(log: seq<Event>, applied: seq<nat>): seq<Event>
    requires forall i :: 0 <= i < |applied| ==> applied[i] < |log|
  {
    seq(|applied|, i requires 0 <= i < |applied| => log[applied[i]])
  }

  lemma AppendKeeps(log: seq<Event>, applied: seq<nat>, e: Event)
    requires forall i :: 0 <= i < |applied| ==> applied[i] < |log|
    ensures Picked(log + [e], applied) == Picked(log, applied)
  {}

  lemma ApplyKeeps(base: Fields, fields: Fields, log: seq<Event>, applied: seq<nat>, e: Event)
    requires forall i :: 0 <= i < |applied| ==> applied[i] < |log|
    requires SameReserved(fields, Replay(base, Picked(log, applied)))
    ensures SameReserved(Effect(fields, e), Replay(base, Picked(log + [e], applied + [|log|])))
  {
    AppendKeeps(log, applied, e);
    var es := Picked(log + [e], applied + [|log|]);
    assert es[..|es| - 1] == Picked(log, applied) && es[|es| - 1] == e;
    EffectRespects(fields, Replay(base, Picked(log, applied)), e);
    hide Effect, SameReserved, Picked;
  }

  /** What an event does to a field depends on that field only. */
  lemma EffectAt(a: Fields, b: Fields, e: Event, k: Key)
    requires (k in a <==> k in b) && (k in a ==> a[k] == b[k])
    ensures k in Effect(a, e) <==> k in Effect(b, e)
    ensures k in Effect(a, e) ==> Effect(a, e)[k] == Effect(b, e)[k]
  {
    if e.SizeEvent? {
      SetAt(a, b, Size, e.size, k);
      SetAt(Set(a, Size, e.size), Set(b, Size, e.size), SizeSource, e.source, k);
      var c, d := Set(Set(a, Size, e.size), SizeSource, e.source), Set(Set(b, Size, e.size), SizeSource, e.source);
      SetAt(c, d, SizeRuleset, e.ruleset, k);
      hide Set;
    }
  }

  lemma SetAt(a: Fields, b: Fields, key: Key, v: Option<Text>, k: Key)
    requires (k in a <==> k in b) && (k in a ==> a[k] == b[k])
    ensures k in Set(a, key, v) <==> k in Set(b, key, v)
    ensures k in Set(a, key, v) ==> Set(a, key, v)[k] == Set(b, key, v)[k]
  {}

  lemma EffectRespects(a: Fields, b: Fields, e: Event)
    requires SameReserved(a, b)
    ensures SameReserved(Effect(a, e), Effect(b, e))
  {
    hide Effect;
    forall k | Reserved(k)
      ensures k in Effect(a, e) <==> k in Effect(b, e)
      ensures k in Effect(a, e) ==> Effect(a, e)[k] == Effect(b, e)[k]
    {
      EffectAt(a, b, e, k);
    }
  }
}
