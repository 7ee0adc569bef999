/** The duplicate-member scanners of the attestation and authorization-token parsers: one
    explicit-stack machine over a JSON token stream, proved equal to a predicate on the tree. */
module MemberScan {
  import opened Bytes
  import opened Options

  datatype Token = OpenObject | CloseObject | OpenArray | CloseArray | Name(s: Text) | Scalar

  /** What is left in the input: a token, or a spot where the decoder reports an error. */
  datatype Item = Tok(t: Token) | Bad

  datatype Json = Leaf | Word(s: Text) | Array(es: seq<Json>) | Object(ms: seq<Member>)
  datatype Member = Member(name: Text, value: Json)

  /** The repeated member name, and the label of the object that repeats it. */
  datatype Repeat = Repeat(path: Text, key: Text)

  datatype Result = Accepted | Malformed(path: Text) | Duplicate(repeat: Repeat)

  // ---- labels ----

  function MemberLabel(path: Text, key: Text): Text {
    path + [DOT] + key
  }

  function ElemLabel(path: Text, index: nat): Text {
    path + [91] + Digits(index) + [93]
  }

  /** Labels are "path.key" and "path[index]", and tell the members and elements of one container
      apart. */
  lemma LabelMeaning(path: Text, key: Text, other: Text, i: nat, j: nat)
    ensures MemberLabel(path, key) == path + ([46] + key)
    ensures ElemLabel(path, i)[..|path| + 1] == path + [91] && ElemLabel(path, i)[|path| + 1..] == FormatInt(i) + [93]
    ensures MemberLabel(path, key) == MemberLabel(path, other) <==> key == other
    ensures ElemLabel(path, i) == ElemLabel(path, j) <==> i == j
    ensures MemberLabel(path, key) != ElemLabel(path, i)
  {
    assert MemberLabel(path, key)[|path| + 1..] == key && MemberLabel(path, other)[|path| + 1..] == other;
    assert MemberLabel(path, key)[|path|] == 46 && ElemLabel(path, i)[|path|] == 91;
    var di, dj := Digits(i) + [93], Digits(j) + [93];
    assert ElemLabel(path, i)[|path| + 1..] == di && ElemLabel(path, j)[|path| + 1..] == dj;
    assert di[..|di| - 1] == Digits(i) && dj[..|dj| - 1] == Digits(j);
    DigitsRoundTrip(i);
    DigitsRoundTrip(j);
  }

  /** Across levels they do not: a member "b" of a member "a" has the label of a member "a.b". */
  lemma LabelsCoincide(path: Text, outer: Text, inner: Text)
    ensures MemberLabel(MemberLabel(path, outer), inner) == MemberLabel(path, outer + ([46] + inner))
  {}

  // ---- the tree and its tokens ----

  function Items(v: Json): (t: seq<Item>)
    ensures |t| > 0
    decreases v, 1
  {
    match v
    case Leaf => [Tok(Scalar)]
    case Word(s) => [Tok(Name(s))]
    case Array(es) => [Tok(OpenArray)] + (ElemItems(v, 0) + [Tok(CloseArray)])
    case Object(ms) => [Tok(OpenObject)] + (MemberItems(v, 0) + [Tok(CloseObject)])
  }

  function ElemItems(v: Json, i: nat): seq<Item>
    requires v.Array? && i <= |v.es|
    decreases v, 0, |v.es| - i
  {
    if i == |v.es| then [] else Items(v.es[i]) + ElemItems(v, i + 1)
  }

  function MemberItems(v: Json, i: nat): seq<Item>
    requires v.Object? && i <= |v.ms|
    decreases v, 0, |v.ms| - i
  {
    if i == |v.ms| then [] else [Tok(Name(v.ms[i].name))] + (Items(v.ms[i].value) + MemberItems(v, i + 1))
  }

  /** No object at any depth has two members with equal collision keys. */
  predicate NoRepeats(v: Json, keyOf: Text -> Text) {
    match v
    case Leaf | Word(_) => true
    case Array(es) => forall i :: 0 <= i < |es| ==> NoRepeats(es[i], keyOf)
    case Object(ms) =>
      && (forall i, j :: 0 <= i < j < |ms| ==> keyOf(ms[i].name) != keyOf(ms[j].name))
      && (forall i :: 0 <= i < |ms| ==> NoRepeats(ms[i].value, keyOf))
  }

  // ---- the first repeat in document order ----

  function Seen(v: Json, i: nat, keyOf: Text -> Text): set<Text>
    requires v.Object? && i <= |v.ms|
  {
    set j | 0 <= j < i :: keyOf(v.ms[j].name)
  }

  function FirstRepeat(v: Json, path: Text, keyOf: Text -> Text): Option<Repeat>
    decreases v, 1
  {
    match v
    case Leaf | Word(_) => None
    case Array(es) => ElemRepeat(v, path, 0, keyOf)
    case Object(ms) => MemberRepeat(v, path, 0, keyOf)
  }

  function ElemRepeat(v: Json, path: Text, i: nat, keyOf: Text -> Text): Option<Repeat>
    requires v.Array? && i <= |v.es|
    decreases v, 0, |v.es| - i
  {
    if i == |v.es| then None
    else
      var inner := FirstRepeat(v.es[i], ElemLabel(path, i), keyOf);
      if inner.Some? then inner else ElemRepeat(v, path, i + 1, keyOf)
  }

  function MemberRepeat(v: Json, path: Text, i: nat, keyOf: Text -> Text): Option<Repeat>
    requires v.Object? && i <= |v.ms|
    decreases v, 0, |v.ms| - i
  {
    if i == |v.ms| then None
    else if keyOf(v.ms[i].name) in Seen(v, i, keyOf) then Some(Repeat(path, v.ms[i].name))
    else
      var inner := FirstRepeat(v.ms[i].value, MemberLabel(path, v.ms[i].name), keyOf);
      if inner.Some? then inner else MemberRepeat(v, path, i + 1, keyOf)
  }

  /** There is a first repeat exactly when some object repeats a member. */
  lemma {:induction false} RepeatsAreFound(v: Json, path: Text, keyOf: Text -> Text)
    ensures FirstRepeat(v, path, keyOf).None? <==> NoRepeats(v, keyOf)
    decreases v, 1
  {
    match v
    case Leaf | Word(_) =>
    case Array(es) => ElemRepeatsAreFound(v, path, 0, keyOf);
    case Object(ms) => MemberRepeatsAreFound(v, path, 0, keyOf);
  }

  lemma {:induction false} ElemRepeatsAreFound(v: Json, path: Text, i: nat, keyOf: Text -> Text)
    requires v.Array? && i <= |v.es|
    ensures ElemRepeat(v, path, i, keyOf).None? <==> forall j :: i <= j < |v.es| ==> NoRepeats(v.es[j], keyOf)
    decreases v, 0, |v.es| - i
  {
    if i < |v.es| {
      RepeatsAreFound(v.es[i], ElemLabel(path, i), keyOf);
      ElemRepeatsAreFound(v, path, i + 1, keyOf);
    }
  }

  lemma {:induction false} MemberRepeatsAreFound(v: Json, path: Text, i: nat, keyOf: Text -> Text)
    requires v.Object? && i <= |v.ms|
    ensures MemberRepeat(v, path, i, keyOf).None? <==>
              && (forall h, j :: 0 <= h < j < |v.ms| && i <= j ==> keyOf(v.ms[h].name) != keyOf(v.ms[j].name))
              && (forall j :: i <= j < |v.ms| ==> NoRepeats(v.ms[j].value, keyOf))
    decreases v, 0, |v.ms| - i
  {
    if i < |v.ms| {
      RepeatsAreFound(v.ms[i].value, MemberLabel(path, v.ms[i].name), keyOf);
      MemberRepeatsAreFound(v, path, i + 1, keyOf);
    }
  }

  // ---- recursive descent over the token stream ----

  datatype Verdict = Continue(rest: seq<Item>) | Repeats(repeat: Repeat) | Broken

  function CheckValue(items: seq<Item>, path: Text, keyOf: Text -> Text): (r: Verdict)
    ensures r.Continue? ==> |r.rest| < |items|
    decreases |items|, 0
  {
    if items == [] || items[0].Bad? then Broken
    else
      match items[0].t
      case OpenObject => CheckMembers(items[1..], path, {}, keyOf)
      case OpenArray => CheckElems(items[1..], path, 0, keyOf)
      case Name(_) | Scalar => Continue(items[1..])
      case CloseObject | CloseArray => Broken
  }

  function CheckElems(items: seq<Item>, path: Text, index: nat, keyOf: Text -> Text): (r: Verdict)
    ensures r.Continue? ==> |r.rest| < |items|
    decreases |items|, 1
  {
    if items == [] then Broken
    else if items[0] == Tok(CloseArray) then Continue(items[1..])
    else
      match CheckValue(items, ElemLabel(path, index), keyOf)
      case Continue(rest) => CheckElems(rest, path, index + 1, keyOf)
      case other => other
  }

  function CheckMembers(items: seq<Item>, path: Text, seen: set<Text>, keyOf: Text -> Text): (r: Verdict)
    ensures r.Continue? ==> |r.rest| < |items|
    decreases |items|, 1
  {
    if items == [] then Broken
    else if items[0] == Tok(CloseObject) then Continue(items[1..])
    else if !(items[0].Tok? && items[0].t.Name?) then Broken
    else
      var key := items[0].t.s;
      if keyOf(key) in seen then Repeats(Repeat(path, key))
      else
        match CheckValue(items[1..], MemberLabel(path, key), keyOf)
        case Continue(rest) => CheckMembers(rest, path, seen + {keyOf(key)}, keyOf)
        case other => other
  }

  // ---- the decoder: json.Decoder's token contract ----

  /** Where in the enclosing containers the decoder stands. */
  datatype Place = KeyOrEnd | ObjectValue | ElementOrEnd

  predicate Legal(places: seq<Place>, t: Token) {
    if places == [] then !t.CloseObject? && !t.CloseArray?
    else
      match places[|places| - 1]
      case KeyOrEnd => t.Name? || t.CloseObject?
      case ObjectValue => !t.CloseObject? && !t.CloseArray?
      case ElementOrEnd => !t.CloseObject?
  }

  function ValueEnded(places: seq<Place>): seq<Place> {
    if places != [] && places[|places| - 1].ObjectValue? then places[..|places| - 1] + [KeyOrEnd] else places
  }

  function Advance(places: seq<Place>, t: Token): seq<Place>
    requires Legal(places, t)
  {
    match t
    case OpenObject => places + [KeyOrEnd]
    case OpenArray => places + [ElementOrEnd]
    case CloseObject | CloseArray => ValueEnded(places[..|places| - 1])
    case Name(_) | Scalar =>
      if places != [] && places[|places| - 1].KeyOrEnd? then places[..|places| - 1] + [ObjectValue]
      else ValueEnded(places)
  }

  /** json.Decoder: it keeps its own stack of places, and refuses a token out of place. */
  class Decoder {
    var items: seq<Item>
    var places: seq<Place>

    constructor (items: seq<Item>)
      ensures this.items == items && places == []
    {
      this.items := items;
      places := [];
    }

    /** None is io.EOF or a decoding error. */
    method Token() returns (r: Option<Token>)
      modifies this
      ensures r.Some? <==> old(items) != [] && old(items[0]).Tok? && Legal(old(places), old(items[0]).t)
      ensures r.Some? ==> old(items) == [Tok(r.value)] + items && places == Advance(old(places), r.value)
      ensures r.None? ==> items == old(items) && places == old(places)
    {
      if items == [] || items[0].Bad? || !Legal(places, items[0].t) {
        return None;
      }
      var t := items[0].t;
      items, places := items[1..], Advance(places, t);
      return Some(t);
    }
  }

  // ---- the scanner ----

  datatype Frame = Frame(path: Text, inObject: bool, expectKey: bool, lastKey: Text, index: nat, seen: set<Text>)

  function PlaceOf(f: Frame): Place {
    if !f.inObject then ElementOrEnd else if f.expectKey then KeyOrEnd else ObjectValue
  }

  function Places(stack: seq<Frame>): seq<Place> {
    seq(|stack|, i requires 0 <= i < |stack| => PlaceOf(stack[i]))
  }

  /** Every frame below the top is inside one of its members or elements. */
  predicate Nested(stack: seq<Frame>) {
    forall i :: 0 <= i < |stack| - 1 && stack[i].inObject ==> !stack[i].expectKey
  }

  function ChildLabel(stack: seq<Frame>, root: Text): Text {
    if stack == [] then root
    else
      var top := stack[|stack| - 1];
      if top.inObject then MemberLabel(top.path, top.lastKey) else ElemLabel(top.path, top.index)
  }

  /** What finish does to the frame a value has just ended in. */
  function Finished(stack: seq<Frame>): seq<Frame>
    requires stack != []
  {
    var top := stack[|stack| - 1];
    stack[|stack| - 1 := if top.inObject then top.(expectKey := true) else top.(index := top.index + 1)]
  }

  /** How the scan goes on with frames `stack` once a value inside its top frame has ended. */
  function AfterValue(stack: seq<Frame>, items: seq<Item>, keyOf: Text -> Text): Verdict
    decreases |stack|, 1
  {
    if stack == [] then Continue(items) else InFrame(Finished(stack), items, keyOf)
  }

  /** How the scan goes on with the top frame of `stack` at a key, an element, or its end. */
  function InFrame(stack: seq<Frame>, items: seq<Item>, keyOf: Text -> Text): Verdict
    requires stack != []
    decreases |stack|, 0
  {
    var n := |stack| - 1;
    var inner := if stack[n].inObject then CheckMembers(items, stack[n].path, stack[n].seen, keyOf)
                 else CheckElems(items, stack[n].path, stack[n].index, keyOf);
    if inner.Continue? then AfterValue(stack[..n], inner.rest, keyOf) else inner
  }

  /** How the whole scan goes on from a state of the machine. */
  function Outlook(stack: seq<Frame>, root: Text, items: seq<Item>, keyOf: Text -> Text): Verdict {
    if stack != [] && (!stack[|stack| - 1].inObject || stack[|stack| - 1].expectKey) then InFrame(stack, items, keyOf)
    else
      var inner := CheckValue(items, ChildLabel(stack, root), keyOf);
      if inner.Continue? then AfterValue(stack, inner.rest, keyOf) else inner
  }

  function Conclude(v: Verdict, root: Text): Result {
    match v
    case Broken => Malformed(root)
    case Repeats(repeat) => Duplicate(repeat)
    case Continue(rest) => if rest == [] then Accepted else Malformed(root)
  }

  /** The verdict of both scanners on a document, with their key function as a parameter. */
  function Scan(items: seq<Item>, root: Text, keyOf: Text -> Text): Result {
    Conclude(CheckValue(items, root, keyOf), root)
  }

  /** scanAttestationMembers and scanTokenMembers. */
  method ScanMembers(items: seq<Item>, root: Text, keyOf: Text -> Text) returns (r: Result)
    ensures r == Scan(items, root, keyOf)
  {
    hide CheckValue, CheckElems, CheckMembers, AfterValue, InFrame, Outlook;
    var decoder := new Decoder(items);
    var stack: seq<Frame> := [];
    var done := false;
    StartOutlook(items, root, keyOf);
    while !done
      invariant decoder.places == Places(stack) && Nested(stack)
      invariant !done ==> Outlook(stack, root, decoder.items, keyOf) == CheckValue(items, root, keyOf)
      invariant done ==> Continue(decoder.items) == CheckValue(items, root, keyOf)
      invariant done ==> decoder.places == []
      decreases |decoder.items|, !done
    {
      ghost var before, was := stack, decoder.items;
      var token := decoder.Token();
      if token.None? {
        RefusedToken(before, root, was, keyOf);
        return Malformed(root);
      }
      var t := token.value;
      if t.OpenObject? || t.OpenArray? {
        var frame := Frame(ChildLabel(stack, root), t.OpenObject?, t.OpenObject?, [], 0, {});
        OpenStep(before, frame, root, was, keyOf);
        stack := stack + [frame];
      } else if t.CloseObject? || t.CloseArray? {
        CloseStep(before, root, was, keyOf);
        stack := stack[..|stack| - 1];
        if stack == [] {
          done := true;
        } else {
          stack := Finished(stack);
        }
      } else if stack != [] && stack[|stack| - 1].inObject && stack[|stack| - 1].expectKey {
        var top := stack[|stack| - 1];
        var collision := keyOf(t.s);
        KeyStep(before, root, was, keyOf);
        if collision in top.seen {
          return Duplicate(Repeat(top.path, t.s));
        }
        stack := stack[|stack| - 1 := top.(seen := top.seen + {collision}, lastKey := t.s, expectKey := false)];
      } else {
        LeafStep(before, root, was, keyOf);
        if stack == [] {
          done := true;
        } else {
          stack := Finished(stack);
        }
      }
    }
    var extra := decoder.Token();
    if extra.Some? || decoder.items != [] {
      return Malformed(root);
    }
    return Accepted;
  }

  // ---- one lemma per branch of the machine ----

  lemma StartOutlook(items: seq<Item>, root: Text, keyOf: Text -> Text)
    ensures Outlook([], root, items, keyOf) == CheckValue(items, root, keyOf)
  {}

  lemma RefusedToken(stack: seq<Frame>, root: Text, items: seq<Item>, keyOf: Text -> Text)
    requires items == [] || items[0].Bad? || !Legal(Places(stack), items[0].t)
    ensures Outlook(stack, root, items, keyOf) == Broken
  {
    if stack != [] {
      assert Places(stack)[|stack| - 1] == PlaceOf(stack[|stack| - 1]);
      if !stack[|stack| - 1].inObject {
        assert CheckValue(items, ChildLabel(stack, root), keyOf) == Broken;
      }
    }
  }

  lemma OpenStep(stack: seq<Frame>, frame: Frame, root: Text, items: seq<Item>, keyOf: Text -> Text)
    requires Nested(stack) && items != [] && items[0].Tok? && Legal(Places(stack), items[0].t)
    requires items[0].t.OpenObject? || items[0].t.OpenArray?
    requires frame == Frame(ChildLabel(stack, root), items[0].t.OpenObject?, items[0].t.OpenObject?, [], 0, {})
    ensures Outlook(stack + [frame], root, items[1..], keyOf) == Outlook(stack, root, items, keyOf)
    ensures Nested(stack + [frame]) && Places(stack + [frame]) == Advance(Places(stack), items[0].t)
  {
    assert (stack + [frame])[..|stack|] == stack;
    if stack != [] && !stack[|stack| - 1].inObject {
      ElementFirst(stack, root, items, keyOf);
    }
  }

  /** With an array frame on top, the next element is a value followed by the rest of the frame. */
  lemma ElementFirst(stack: seq<Frame>, root: Text, items: seq<Item>, keyOf: Text -> Text)
    requires stack != [] && !stack[|stack| - 1].inObject && items != [] && items[0] != Tok(CloseArray)
    ensures var inner := CheckValue(items, ChildLabel(stack, root), keyOf);
            Outlook(stack, root, items, keyOf) ==
              if inner.Continue? then AfterValue(stack, inner.rest, keyOf) else inner
  {
    var n := |stack| - 1;
    assert Finished(stack)[..n] == stack[..n];
  }

  lemma FinishedPlaces(stack: seq<Frame>)
    requires stack != [] && Nested(stack) && (stack[|stack| - 1].inObject ==> !stack[|stack| - 1].expectKey)
    ensures Places(Finished(stack)) == ValueEnded(Places(stack)) && Nested(Finished(stack))
  {}

  lemma FinishedOutlook(stack: seq<Frame>, root: Text, items: seq<Item>, keyOf: Text -> Text)
    requires stack != []
    ensures Outlook(Finished(stack), root, items, keyOf) == AfterValue(stack, items, keyOf)
  {}

  lemma CloseStep(stack: seq<Frame>, root: Text, items: seq<Item>, keyOf: Text -> Text)
    requires Nested(stack) && items != [] && items[0].Tok? && Legal(Places(stack), items[0].t)
    requires items[0].t.CloseObject? || items[0].t.CloseArray?
    ensures stack != []
    ensures var below := stack[..|stack| - 1];
      && Advance(Places(stack), items[0].t) == (if below == [] then [] else Places(Finished(below)))
      && (below != [] ==> Nested(Finished(below)))
      && Outlook(stack, root, items, keyOf) ==
           (if below == [] then Continue(items[1..]) else Outlook(Finished(below), root, items[1..], keyOf))
  {
    var below := stack[..|stack| - 1];
    assert Places(stack)[..|stack| - 1] == Places(below);
    assert Places(stack)[|stack| - 1] == PlaceOf(stack[|stack| - 1]);
    assert InFrame(stack, items, keyOf) == AfterValue(below, items[1..], keyOf);
    if below != [] {
      FinishedPlaces(below);
      FinishedOutlook(below, root, items[1..], keyOf);
    }
  }

  lemma KeyStep(stack: seq<Frame>, root: Text, items: seq<Item>, keyOf: Text -> Text)
    requires Nested(stack) && stack != [] && stack[|stack| - 1].inObject && stack[|stack| - 1].expectKey
    requires items != [] && items[0].Tok? && Legal(Places(stack), items[0].t) && !items[0].t.CloseObject?
    ensures items[0].t.Name?
    ensures var top, key := stack[|stack| - 1], items[0].t.s;
      && (keyOf(key) in top.seen ==> Outlook(stack, root, items, keyOf) == Repeats(Repeat(top.path, key)))
      && (keyOf(key) !in top.seen ==>
            var next := stack[|stack| - 1 := top.(seen := top.seen + {keyOf(key)}, lastKey := key, expectKey := false)];
            && Outlook(next, root, items[1..], keyOf) == Outlook(stack, root, items, keyOf)
            && Nested(next) && Places(next) == Advance(Places(stack), items[0].t))
  {
    var n, key := |stack| - 1, items[0].t.s;
    var next := stack[n := stack[n].(seen := stack[n].seen + {keyOf(key)}, lastKey := key, expectKey := false)];
    assert Finished(next)[..n] == stack[..n];
    if keyOf(key) !in stack[n].seen {
      var inner := CheckValue(items[1..], MemberLabel(stack[n].path, key), keyOf);
      if inner.Continue? {
        assert AfterValue(next, inner.rest, keyOf) == InFrame(Finished(next), inner.rest, keyOf);
        assert CheckMembers(items, stack[n].path, stack[n].seen, keyOf)
            == CheckMembers(inner.rest, stack[n].path, next[n].seen, keyOf);
      }
    }
  }

  lemma LeafStep(stack: seq<Frame>, root: Text, items: seq<Item>, keyOf: Text -> Text)
    requires Nested(stack) && (stack != [] && stack[|stack| - 1].inObject ==> !stack[|stack| - 1].expectKey)
    requires items != [] && items[0].Tok? && (items[0].t.Name? || items[0].t.Scalar?)
    requires Legal(Places(stack), items[0].t)
    ensures Advance(Places(stack), items[0].t) == (if stack == [] then [] else Places(Finished(stack)))
    ensures stack != [] ==> Nested(Finished(stack))
    ensures Outlook(stack, root, items, keyOf) ==
              (if stack == [] then Continue(items[1..]) else Outlook(Finished(stack), root, items[1..], keyOf))
  {
    if stack != [] {
      FinishedPlaces(stack);
      FinishedOutlook(stack, root, items[1..], keyOf);
      if !stack[|stack| - 1].inObject {
        ElementFirst(stack, root, items, keyOf);
      }
    }
  }

  // ---- the machine's verdict is about the tree ----

  /** On the tokens of a value, the scan reports the value's first repeat or reads past it. */
  lemma {:induction false} CheckTree(v: Json, rest: seq<Item>, path: Text, keyOf: Text -> Text)
    ensures CheckValue(Items(v) + rest, path, keyOf) ==
              match FirstRepeat(v, path, keyOf) case Some(repeat) => Repeats(repeat) case None => Continue(rest)
    decreases v, 1
  {
    hide CheckElems, CheckMembers, ElemRepeat, MemberRepeat;
    var t := Items(v) + rest;
    match v
    case Leaf => assert t[1..] == rest;
    case Word(_) => assert t[1..] == rest;
    case Array(es) =>
      assert t[1..] == ElemItems(v, 0) + [Tok(CloseArray)] + rest;
      CheckElemTree(v, 0, rest, path, keyOf);
    case Object(ms) =>
      assert t[1..] == MemberItems(v, 0) + [Tok(CloseObject)] + rest;
      assert Seen(v, 0, keyOf) == {};
      CheckMemberTree(v, 0, rest, path, keyOf);
  }

  lemma {:induction false} CheckElemTree(v: Json, i: nat, rest: seq<Item>, path: Text, keyOf: Text -> Text)
    requires v.Array? && i <= |v.es|
    ensures CheckElems(ElemItems(v, i) + [Tok(CloseArray)] + rest, path, i, keyOf) ==
              match ElemRepeat(v, path, i, keyOf) case Some(repeat) => Repeats(repeat) case None => Continue(rest)
    decreases v, 0, |v.es| - i
  {
    hide CheckValue, FirstRepeat;
    var t := ElemItems(v, i) + [Tok(CloseArray)] + rest;
    if i == |v.es| {
      assert t[1..] == rest;
    } else {
      var tail := ElemItems(v, i + 1) + [Tok(CloseArray)] + rest;
      assert t == Items(v.es[i]) + tail;
      FirstItem(v.es[i]);
      CheckTree(v.es[i], tail, ElemLabel(path, i), keyOf);
      CheckElemTree(v, i + 1, rest, path, keyOf);
    }
  }

  lemma FirstItem(v: Json)
    ensures Items(v)[0] != Tok(CloseArray) && Items(v)[0] != Tok(CloseObject)
  {}

  lemma {:induction false} CheckMemberTree(v: Json, i: nat, rest: seq<Item>, path: Text, keyOf: Text -> Text)
    requires v.Object? && i <= |v.ms|
    ensures CheckMembers(MemberItems(v, i) + [Tok(CloseObject)] + rest, path, Seen(v, i, keyOf), keyOf) ==
              match MemberRepeat(v, path, i, keyOf) case Some(repeat) => Repeats(repeat) case None => Continue(rest)
    decreases v, 0, |v.ms| - i
  {
    hide CheckValue, FirstRepeat;
    var t := MemberItems(v, i) + [Tok(CloseObject)] + rest;
    if i == |v.ms| {
      assert t[1..] == rest;
    } else {
      var m, tail := v.ms[i], MemberItems(v, i + 1) + [Tok(CloseObject)] + rest;
      assert t[0] == Tok(Name(m.name)) && t[1..] == Items(m.value) + tail;
      CheckTree(m.value, tail, MemberLabel(path, m.name), keyOf);
      CheckMemberTree(v, i + 1, rest, path, keyOf);
      assert Seen(v, i + 1, keyOf) == Seen(v, i, keyOf) + {keyOf(m.name)};
    }
  }

  /** Whatever the scan reads past is a complete value without a repeat. */
  lemma {:induction false} ReadValue(items: seq<Item>, path: Text, keyOf: Text -> Text) returns (v: Json)
    requires CheckValue(items, path, keyOf).Continue?
    ensures items == Items(v) + CheckValue(items, path, keyOf).rest
    ensures FirstRepeat(v, path, keyOf).None?
    decreases |items|, 0
  {
    hide CheckElems, CheckMembers, ElemRepeat, MemberRepeat, ElemItems, MemberItems;
    var rest := CheckValue(items, path, keyOf).rest;
    match items[0].t
    case OpenArray =>
      var es := ReadElems(items[1..], path, [], keyOf);
      v := Array(es);
      assert items == [items[0]] + items[1..];
    case OpenObject =>
      assert Seen(Object([]), 0, keyOf) == {};
      var ms := ReadMembers(items[1..], path, [], keyOf);
      v := Object(ms);
      assert items == [items[0]] + items[1..];
    case Name(s) => v := Word(s);
    case Scalar => v := Leaf;
  }

  lemma {:induction false} ReadElems(items: seq<Item>, path: Text, done: seq<Json>, keyOf: Text -> Text)
    returns (es: seq<Json>)
    requires CheckElems(items, path, |done|, keyOf).Continue?
    ensures done <= es
    ensures items == ElemItems(Array(es), |done|) + [Tok(CloseArray)] + CheckElems(items, path, |done|, keyOf).rest
    ensures ElemRepeat(Array(es), path, |done|, keyOf).None?
    decreases |items|, 1
  {
    hide CheckValue, FirstRepeat, Items;
    if items[0] == Tok(CloseArray) {
      es := done;
      assert items == [items[0]] + items[1..];
    } else {
      var e := ReadValue(items, ElemLabel(path, |done|), keyOf);
      es := ReadElems(CheckValue(items, ElemLabel(path, |done|), keyOf).rest, path, done + [e], keyOf);
      assert es[|done|] == e;
    }
  }

  lemma {:induction false} ReadMembers(items: seq<Item>, path: Text, done: seq<Member>, keyOf: Text -> Text)
    returns (ms: seq<Member>)
    requires CheckMembers(items, path, Seen(Object(done), |done|, keyOf), keyOf).Continue?
    ensures done <= ms
    ensures items == MemberItems(Object(ms), |done|) + [Tok(CloseObject)]
                     + CheckMembers(items, path, Seen(Object(done), |done|, keyOf), keyOf).rest
    ensures MemberRepeat(Object(ms), path, |done|, keyOf).None?
    decreases |items|, 1
  {
    hide CheckValue, FirstRepeat, Items;
    if items[0] == Tok(CloseObject) {
      ms := done;
      assert items == [items[0]] + items[1..];
    } else {
      var key := items[0].t.s;
      var value := ReadValue(items[1..], MemberLabel(path, key), keyOf);
      var more := done + [Member(key, value)];
      SeenMore(done, Member(key, value), keyOf);
      ms := ReadMembers(CheckValue(items[1..], MemberLabel(path, key), keyOf).rest, path, more, keyOf);
      assert ms[|done|] == Member(key, value);
      SeenPrefix(done, ms, keyOf);
      assert items == [items[0]] + items[1..];
    }
  }

  lemma SeenMore(done: seq<Member>, m: Member, keyOf: Text -> Text)
    ensures Seen(Object(done + [m]), |done| + 1, keyOf) == Seen(Object(done), |done|, keyOf) + {keyOf(m.name)}
  {
    var more := done + [m];
    forall k | k in Seen(Object(done), |done|, keyOf) + {keyOf(m.name)}
      ensures k in Seen(Object(more), |more|, keyOf)
    {
      if k != keyOf(m.name) {
        var j :| 0 <= j < |done| && keyOf(done[j].name) == k;
        assert more[j] == done[j];
      } else {
        assert more[|done|] == m;
      }
    }
  }

  lemma SeenPrefix(done: seq<Member>, ms: seq<Member>, keyOf: Text -> Text)
    requires done <= ms
    ensures Seen(Object(ms), |done|, keyOf) == Seen(Object(done), |done|, keyOf)
  {
    assert forall j :: 0 <= j < |done| ==> ms[j] == done[j];
  }

  /** A token stream is the tokens of at most one value, followed by at most one rest. */
  lemma {:induction false} ItemsUnique(v: Json, w: Json, r: seq<Item>, s: seq<Item>)
    requires Items(v) + r == Items(w) + s
    ensures v == w && r == s
    decreases v, 1
  {
    hide ElemItems, MemberItems;
    var t := Items(v) + r;
    assert t[0] == Items(v)[0] == Items(w)[0];
    match v
    case Leaf => assert t[1..] == r && t[1..] == s;
    case Word(_) => assert t[1..] == r && t[1..] == s;
    case Array(es) =>
      assert t[1..] == ElemItems(v, 0) + [Tok(CloseArray)] + r;
      assert t[1..] == ElemItems(w, 0) + [Tok(CloseArray)] + s;
      ElemItemsUnique(v, w, 0, r, s);
    case Object(ms) =>
      assert t[1..] == MemberItems(v, 0) + [Tok(CloseObject)] + r;
      assert t[1..] == MemberItems(w, 0) + [Tok(CloseObject)] + s;
      MemberItemsUnique(v, w, 0, r, s);
  }

  lemma {:induction false} ElemItemsUnique(v: Json, w: Json, i: nat, r: seq<Item>, s: seq<Item>)
    requires v.Array? && w.Array? && i <= |v.es| && i <= |w.es| && v.es[..i] == w.es[..i]
    requires ElemItems(v, i) + [Tok(CloseArray)] + r == ElemItems(w, i) + [Tok(CloseArray)] + s
    ensures v == w && r == s
    decreases v, 0, |v.es| - i
  {
    hide Items;
    var t := ElemItems(v, i) + [Tok(CloseArray)] + r;
    if i < |v.es| { FirstItem(v.es[i]); }
    if i < |w.es| { FirstItem(w.es[i]); }
    if i == |v.es| || i == |w.es| {
      assert t[0] == Tok(CloseArray);
      assert i == |v.es| == |w.es|;
      assert t[1..] == r && t[1..] == s;
    } else {
      var p, q := ElemItems(v, i + 1) + [Tok(CloseArray)] + r, ElemItems(w, i + 1) + [Tok(CloseArray)] + s;
      assert t == Items(v.es[i]) + p && t == Items(w.es[i]) + q;
      ItemsUnique(v.es[i], w.es[i], p, q);
      assert v.es[..i + 1] == w.es[..i + 1];
      ElemItemsUnique(v, w, i + 1, r, s);
    }
  }

  lemma {:induction false} MemberItemsUnique(v: Json, w: Json, i: nat, r: seq<Item>, s: seq<Item>)
    requires v.Object? && w.Object? && i <= |v.ms| && i <= |w.ms| && v.ms[..i] == w.ms[..i]
    requires MemberItems(v, i) + [Tok(CloseObject)] + r == MemberItems(w, i) + [Tok(CloseObject)] + s
    ensures v == w && r == s
    decreases v, 0, |v.ms| - i
  {
    hide Items;
    var t := MemberItems(v, i) + [Tok(CloseObject)] + r;
    if i == |v.ms| || i == |w.ms| {
      assert t[0] == Tok(CloseObject);
      assert i == |v.ms| == |w.ms|;
      assert t[1..] == r && t[1..] == s;
    } else {
      var p, q := MemberItems(v, i + 1) + [Tok(CloseObject)] + r, MemberItems(w, i + 1) + [Tok(CloseObject)] + s;
      assert t[0] == Tok(Name(v.ms[i].name)) == Tok(Name(w.ms[i].name));
      assert t[1..] == Items(v.ms[i].value) + p && t[1..] == Items(w.ms[i].value) + q;
      ItemsUnique(v.ms[i].value, w.ms[i].value, p, q);
      assert v.ms[..i + 1] == w.ms[..i + 1];
      MemberItemsUnique(v, w, i + 1, r, s);
    }
  }

  // ---- what the scanners decide ----

  /** A document that starts with a value: its first repeat is named, or else the value must be
      the whole document. */
  lemma ScanOfDocument(v: Json, rest: seq<Item>, root: Text, keyOf: Text -> Text)
    ensures Scan(Items(v) + rest, root, keyOf) ==
              match FirstRepeat(v, root, keyOf)
              case Some(repeat) => Duplicate(repeat)
              case None => if rest == [] then Accepted else Malformed(root)
  {
    CheckTree(v, rest, root, keyOf);
  }

  ghost predicate IsDocument(items: seq<Item>, v: Json) {
    items == Items(v)
  }

  /** The scan accepts exactly the streams that are one complete value in which no object at any
      depth repeats a member; that value is unique by ItemsUnique. */
  lemma AcceptedExactly(items: seq<Item>, root: Text, keyOf: Text -> Text)
    ensures Scan(items, root, keyOf) == Accepted <==> exists v :: IsDocument(items, v) && NoRepeats(v, keyOf)
  {
    if Scan(items, root, keyOf) == Accepted {
      var v := ReadValue(items, root, keyOf);
      assert Items(v) + [] == Items(v);
      assert IsDocument(items, v);
      RepeatsAreFound(v, root, keyOf);
    }
    if exists v :: IsDocument(items, v) && NoRepeats(v, keyOf) {
      var v :| IsDocument(items, v) && NoRepeats(v, keyOf);
      assert Items(v) + [] == items;
      ScanOfDocument(v, [], root, keyOf);
      RepeatsAreFound(v, root, keyOf);
    }
  }

  /** The repeat is the member name at which the stream was given up: `read` is what was read, it
      ends with that name, and it can be completed to a value of which that is the first repeat. */
  ghost predicate FoundAt(items: seq<Item>, read: seq<Item>, whole: seq<Item>, repeat: Repeat) {
    && read <= items && read <= whole
    && read != [] && read[|read| - 1] == Tok(Name(repeat.key))
  }

  /** A duplicate verdict is never an artefact of a truncated or malformed document: what was read
      is the start of a value, and the verdict names the first repeat of that value. */
  lemma DuplicateIsFirstRepeat(items: seq<Item>, root: Text, keyOf: Text -> Text) returns (v: Json, read: seq<Item>)
    requires Scan(items, root, keyOf).Duplicate?
    ensures FoundAt(items, read, Items(v), Scan(items, root, keyOf).repeat)
    ensures FirstRepeat(v, root, keyOf) == Some(Scan(items, root, keyOf).repeat)
  {
    v, read := CompleteValue(items, root, keyOf);
  }

  lemma {:induction false} CompleteValue(items: seq<Item>, path: Text, keyOf: Text -> Text)
    returns (v: Json, read: seq<Item>)
    requires CheckValue(items, path, keyOf).Repeats?
    ensures FoundAt(items, read, Items(v), CheckValue(items, path, keyOf).repeat)
    ensures FirstRepeat(v, path, keyOf) == Some(CheckValue(items, path, keyOf).repeat)
    decreases |items|, 0
  {
    hide CheckElems, CheckMembers, ElemRepeat, MemberRepeat, ElemItems, MemberItems;
    var inner;
    match items[0].t
    case OpenArray =>
      var es;
      es, inner := CompleteElems(items[1..], path, [], keyOf);
      v, read := Array(es), [items[0]] + inner;
    case OpenObject =>
      assert Seen(Object([]), 0, keyOf) == {};
      var ms;
      ms, inner := CompleteMembers(items[1..], path, [], keyOf);
      v, read := Object(ms), [items[0]] + inner;
  }

  lemma {:induction false} CompleteElems(items: seq<Item>, path: Text, done: seq<Json>, keyOf: Text -> Text)
    returns (es: seq<Json>, read: seq<Item>)
    requires CheckElems(items, path, |done|, keyOf).Repeats?
    ensures done <= es
    ensures FoundAt(items, read, ElemItems(Array(es), |done|), CheckElems(items, path, |done|, keyOf).repeat)
    ensures ElemRepeat(Array(es), path, |done|, keyOf) == Some(CheckElems(items, path, |done|, keyOf).repeat)
    decreases |items|, 1
  {
    hide CheckValue, FirstRepeat, Items;
    var p := ElemLabel(path, |done|);
    if CheckValue(items, p, keyOf).Repeats? {
      var e;
      e, read := CompleteValue(items, p, keyOf);
      es := done + [e];
    } else {
      var e := ReadValue(items, p, keyOf);
      var inner;
      es, inner := CompleteElems(CheckValue(items, p, keyOf).rest, path, done + [e], keyOf);
      assert es[|done|] == e;
      read := Items(e) + inner;
    }
  }

  lemma {:induction false} CompleteMembers(items: seq<Item>, path: Text, done: seq<Member>, keyOf: Text -> Text)
    returns (ms: seq<Member>, read: seq<Item>)
    requires CheckMembers(items, path, Seen(Object(done), |done|, keyOf), keyOf).Repeats?
    ensures done <= ms
    ensures FoundAt(items, read, MemberItems(Object(ms), |done|),
                    CheckMembers(items, path, Seen(Object(done), |done|, keyOf), keyOf).repeat)
    ensures MemberRepeat(Object(ms), path, |done|, keyOf)
         == Some(CheckMembers(items, path, Seen(Object(done), |done|, keyOf), keyOf).repeat)
    decreases |items|, 1
  {
    hide CheckValue, FirstRepeat, Items, Seen;
    var key := items[0].t.s;
    var p := MemberLabel(path, key);
    assert items == [items[0]] + items[1..];
    if keyOf(key) in Seen(Object(done), |done|, keyOf) {
      ms, read := done + [Member(key, Leaf)], [items[0]];
      SeenPrefix(done, ms, keyOf);
    } else if CheckValue(items[1..], p, keyOf).Repeats? {
      var value, inner := CompleteValue(items[1..], p, keyOf);
      ms, read := done + [Member(key, value)], [items[0]] + inner;
      SeenPrefix(done, ms, keyOf);
    } else {
      var value := ReadValue(items[1..], p, keyOf);
      var rest, inner := CheckValue(items[1..], p, keyOf).rest, [];
      SeenMore(done, Member(key, value), keyOf);
      ms, inner := CompleteMembers(rest, path, done + [Member(key, value)], keyOf);
      assert ms[|done|] == Member(key, value);
      SeenPrefix(done, ms, keyOf);
      read := [items[0]] + (Items(value) + inner);
    }
  }
}
