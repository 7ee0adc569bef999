/** The dynamic values the encoder accepts, and what each one is normalized to. */
module CanonicalValue {
  import opened Bytes
  import opened CanonicalForm
  import opened Float64
  import opened Options
  import opened SortedSets
  import opened Utf8

  datatype Error = NonIntegerNumber | UnsupportedType | InvalidUtf8 | DuplicateKey

  type Int64 = i: int | -TWO63 <= i < TWO63
  type Uint64 = u: int | 0 <= u < TWO64

  /** A Go value of type any. The ten integer types widen to Int64 or Uint64, and a float32 is
      a double; Other stands for every type outside the switch of encode. */
  datatype Value =
    | Null
    | Boolean(b: bool)
    | Str(s: Text)
    | Number(literal: Text)
    | Signed(i: Int64)
    | Unsigned(u: Uint64)
    | Flt(f: Float)
    | Arr(es: seq<Value>)
    | Obj(m: map<Text, Value>)
    | Other

  // ---- numbers ----

  /** strconv.ParseUint(s, 10, 64). */
  function ParseUint(s: Text): Option<int> {
    if s != [] && AllDigits(s) && DigitsValue(s) < TWO64 then Some(DigitsValue(s)) else None
  }

  /** strconv.ParseInt(s, 10, 64): an optional sign, then digits. */
  function ParseInt(s: Text): Option<int> {
    var signed := s != [] && (s[0] == MINUS || s[0] == 43);
    var digits := if signed then s[1..] else s;
    if digits == [] || !AllDigits(digits) then None
    else
      var n: int := DigitsValue(digits);
      var i: int := if s[0] == MINUS then -n else n;
      if -TWO63 <= i < TWO63 then Some(i) else None
  }

  /** The integer a json.Number literal stands for, if it is a clean integer. */
  function NumberInteger(literal: Text): Option<int> {
    if ParseInt(literal).Some? then ParseInt(literal) else ParseUint(literal)
  }

  /** t is digits, possibly behind a sign, and denotes n. */
  ghost predicate Denotes(t: Text, sign: Text, n: int) {
    && sign <= t && |sign| < |t| && AllDigits(t[|sign|..])
    && (sign == [] || sign == [43] || sign == [MINUS])
    && n == (if sign == [MINUS] then -1 else 1) * DigitsValue(t[|sign|..])
  }

  /** Which literals are read, and as what: a run of digits from -2^63 up to below 2^64, where from
      2^63 on no sign is allowed. */
  lemma NumberMeaning(literal: Text, n: int)
    ensures NumberInteger(literal) == Some(n) <==>
              exists sign :: Denotes(literal, sign, n) && -TWO63 <= n < (if sign == [] then TWO64 else TWO63)
  {
    var signed := literal != [] && (literal[0] == MINUS || literal[0] == 43);
    var front: Text := if signed then literal[..1] else [];
    assert forall sign :: Denotes(literal, sign, n) ==> sign == front by {
      forall sign | Denotes(literal, sign, n) ensures sign == front {
        assert sign == literal[..|sign|];
        assert sign == [] ==> literal[0] == literal[|sign|..][0];
      }
    }
    assert literal[0..] == literal;
    if NumberInteger(literal) == Some(n) {
      assert Denotes(literal, front, n);
    }
  }

  /** The integer a double stands for: finite, integral and in [-2^63, 2^64). */
  function FloatInteger(f: Float): Option<int> {
    if f.Finite? && Integral(Val(f)) && -TWO63 <= Val(f).Floor < TWO64 then Some(Val(f).Floor) else None
  }

  // ---- acceptance and normalization ----

  ghost function Names(m: map<Text, Value>): set<Text> {
    set k | k in m :: NormalizeLineEndings(k)
  }

  /** A key of m that normalizes to name. */
  ghost function RawKey(m: map<Text, Value>, name: Text): (k: Text)
    requires name in Names(m)
    ensures k in m && NormalizeLineEndings(k) == name
  {
    var k :| k in m && NormalizeLineEndings(k) == name; k
  }

  ghost predicate KeysAccepted(m: map<Text, Value>) {
    && (forall k :: k in m ==> Valid(k))
    && (forall k, l :: k in m && l in m && NormalizeLineEndings(k) == NormalizeLineEndings(l) ==> k == l)
  }

  /** Exactly the values Canonicalize does not refuse. */
  ghost predicate Accepted(v: Value) {
    match v
    case Null | Boolean(_) | Signed(_) | Unsigned(_) => true
    case Str(s) => Valid(s)
    case Number(l) => NumberInteger(l).Some?
    case Flt(f) => FloatInteger(f).Some?
    case Arr(es) => forall i :: 0 <= i < |es| ==> Accepted(es[i])
    case Obj(m) => KeysAccepted(m) && forall k :: k in m ==> Accepted(m[k])
    case Other => false
  }

  ghost function NormOf(v: Value): Norm
    requires Accepted(v)
  {
    match v
    case Null => NNull
    case Boolean(b) => NBool(b)
    case Str(s) => NStr(NormalizeLineEndings(s))
    case Number(l) => NInt(NumberInteger(l).value)
    case Signed(i) => NInt(i)
    case Unsigned(u) => NInt(u)
    case Flt(f) => NInt(FloatInteger(f).value)
    case Arr(es) => NArr(seq(|es|, i requires 0 <= i < |es| => NormOf(es[i])))
    case Obj(m) => NObj(map name | name in Names(m) :: NormOf(m[RawKey(m, name)]))
  }

  // ---- which error a refusal reports ----

  /** Which key errors some iteration order of the Go map can report. */
  ghost function KeyErrors(m: map<Text, Value>): set<Error> {
    (if exists k :: k in m && !Valid(k) then {InvalidUtf8} else {}) +
    (if exists k, l :: k in m && l in m && k != l && Valid(k) && Valid(l)
                    && NormalizeLineEndings(k) == NormalizeLineEndings(l)
     then {DuplicateKey} else {})
  }

  /** Every error the encoder can report for v, over all map iteration orders. */
  ghost function Errors(v: Value): set<Error>
    decreases v, 1
  {
    match v
    case Null | Boolean(_) | Signed(_) | Unsigned(_) => {}
    case Str(s) => if Valid(s) then {} else {InvalidUtf8}
    case Number(l) => if NumberInteger(l).Some? then {} else {NonIntegerNumber}
    case Flt(f) => if FloatInteger(f).Some? then {} else {NonIntegerNumber}
    case Arr(es) => ElemErrors(v, 0)
    case Obj(m) => if KeyErrors(m) != {} then KeyErrors(m) else MemberErrors(v, SortedKeys(Names(m)), 0)
    case Other => {UnsupportedType}
  }

  /** The errors of the first refused element from index i on. */
  ghost function ElemErrors(v: Value, i: nat): set<Error>
    requires v.Arr? && i <= |v.es|
    decreases v, 0, |v.es| - i
  {
    if i == |v.es| then {}
    else if Errors(v.es[i]) != {} then Errors(v.es[i])
    else ElemErrors(v, i + 1)
  }

  /** The errors of the first refused member, in emission order, from index i on. */
  ghost function MemberErrors(v: Value, names: seq<Text>, i: nat): set<Error>
    requires v.Obj? && i <= |names| && forall n :: n in names ==> n in Names(v.m)
    decreases v, 0, |names| - i
  {
    if i == |names| then {}
    else
      var e := Errors(v.m[RawKey(v.m, names[i])]);
      if e != {} then e else MemberErrors(v, names, i + 1)
  }

  lemma {:induction false} AcceptedIffNoErrors(v: Value)
    ensures Accepted(v) <==> Errors(v) == {}
    decreases v, 1
  {
    match v
    case Arr(es) => ElemsAccepted(v, 0);
    case Obj(m) =>
      assert KeysAccepted(m) <==> KeyErrors(m) == {};
      if KeysAccepted(m) {
        var names := SortedKeys(Names(m));
        MembersAccepted(v, names, 0);
        forall k | k in m ensures RawKey(m, NormalizeLineEndings(k)) == k && NormalizeLineEndings(k) in names[0..] {
          assert NormalizeLineEndings(k) in Names(m);
        }
      }
    case _ =>
  }

  lemma {:induction false} ElemsAccepted(v: Value, i: nat)
    requires v.Arr? && i <= |v.es|
    ensures ElemErrors(v, i) == {} <==> forall j :: i <= j < |v.es| ==> Accepted(v.es[j])
    decreases v, 0, |v.es| - i
  {
    if i < |v.es| {
      AcceptedIffNoErrors(v.es[i]);
      ElemsAccepted(v, i + 1);
    }
  }

  lemma {:induction false} MembersAccepted(v: Value, names: seq<Text>, i: nat)
    requires v.Obj? && i <= |names| && forall n :: n in names ==> n in Names(v.m)
    ensures MemberErrors(v, names, i) == {}
       <==> forall n :: n in names[i..] ==> n in Names(v.m) && Accepted(v.m[RawKey(v.m, n)])
    decreases v, 0, |names| - i
  {
    if i < |names| {
      AcceptedIffNoErrors(v.m[RawKey(v.m, names[i])]);
      MembersAccepted(v, names, i + 1);
      assert names[i..] == [names[i]] + names[i + 1..];
    }
  }
}
