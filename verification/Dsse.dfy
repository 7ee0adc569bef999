/** The DSSE v1 pre-authentication encoding ('Signature Definition' section of the DSSE v1
    protocol) that an attestation signature covers. */
module Dsse {
  import opened Bytes
  import opened Options

  datatype Signed = Signed(payloadType: Text, payload: Text)

  /** The bytes of "DSSEv1 ". */
  const MAGIC: Text := [68, 83, 83, 69, 118, 49, 32]

  /** One length-prefixed field: its length in decimal, a space, its bytes. */
  function Field(t: Text): Text {
    Digits(|t|) + ([SPACE] + t)
  }

  /** attestationPAE. */
  function Pae(s: Signed): Text {
    MAGIC + (Field(s.payloadType) + ([SPACE] + Field(s.payload)))
  }

  /** The format spelled out on one envelope: type "a" and payload "bc" are signed as
      "DSSEv1 1 a 2 bc". */
  lemma PaeSpelledOut()
    ensures Pae(Signed([97], [98, 99])) == [68, 83, 83, 69, 118, 49, 32, 49, 32, 97, 32, 50, 32, 98, 99]
  {
    assert Field([97]) == [49, 32, 97];
    assert Field([98, 99]) == [50, 32, 98, 99];
  }

  datatype Split = Split(field: Text, rest: Text)

  /** Reads one length-prefixed field off the front of t; lengths are minimal numerals. */
  function ReadField(t: Text): Option<Split> {
    var k := DigitRun(t);
    if k == 0 || k == |t| || t[k] != SPACE || Digits(DigitsValue(t[..k])) != t[..k] then None
    else
      var n := DigitsValue(t[..k]);
      var body := t[k + 1..];
      if n > |body| then None else Some(Split(body[..n], body[n..]))
  }

  /** Reads back a pre-authentication encoding; anything else is refused. */
  function Decode(t: Text): Option<Signed> {
    if !(MAGIC <= t) then None
    else
      match ReadField(t[|MAGIC|..])
      case None => None
      case Some(first) =>
        if first.rest == [] || first.rest[0] != SPACE then None
        else
          match ReadField(first.rest[1..])
          case Some(second) => if second.rest == [] then Some(Signed(first.field, second.field)) else None
          case None => None
  }

  lemma FieldRoundTrip(t: Text, rest: Text)
    ensures ReadField(Field(t) + rest) == Some(Split(t, rest))
  {
    var d, whole := Digits(|t|), Field(t) + rest;
    assert whole == d + ([SPACE] + (t + rest));
    DigitRunOfNumeral(d, [SPACE] + (t + rest));
    DigitsRoundTrip(|t|);
    assert whole[..|d|] == d;
    var body := whole[|d| + 1..];
    assert body == t + rest;
    assert body[..|t|] == t && body[|t|..] == rest;
  }

  lemma ReadFieldSound(t: Text)
    requires ReadField(t).Some?
    ensures t == Field(ReadField(t).value.field) + ReadField(t).value.rest
  {
    var k := DigitRun(t);
    var n := DigitsValue(t[..k]);
    assert t == t[..k] + ([SPACE] + t[k + 1..]);
  }

  /** The decoder accepts exactly the encodings, and returns what was encoded. */
  lemma PaeRoundTrip(s: Signed, t: Text)
    ensures Decode(Pae(s)) == Some(s)
    ensures Decode(t) == Some(s) <==> t == Pae(s)
  {
    hide ReadField, Field;
    var p := Pae(s);
    var second := [SPACE] + Field(s.payload);
    assert p[|MAGIC|..] == Field(s.payloadType) + second;
    FieldRoundTrip(s.payloadType, second);
    assert second[1..] == Field(s.payload) + [];
    FieldRoundTrip(s.payload, []);
    if Decode(t) == Some(s) {
      DecodeSound(t);
    }
  }

  lemma DecodeSound(t: Text)
    requires Decode(t).Some?
    ensures t == Pae(Decode(t).value)
  {
    hide ReadField, Field;
    var rest := t[|MAGIC|..];
    ReadFieldSound(rest);
    var first := ReadField(rest).value;
    ReadFieldSound(first.rest[1..]);
    var second := ReadField(first.rest[1..]).value;
    assert second.rest == [];
    assert first.rest == [SPACE] + Field(second.field);
    assert t == MAGIC + rest;
  }

  /** Distinct payload types or payloads never share a pre-authentication encoding. */
  lemma PaeInjective(s: Signed, u: Signed)
    requires Pae(s) == Pae(u)
    ensures s == u
  {
    PaeRoundTrip(s, Pae(s));
    PaeRoundTrip(u, Pae(u));
  }
}
