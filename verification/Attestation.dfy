/** The checks an attestation passes before its evidence is believed. Signature verification and
    JSON decoding are parameters; times are integers. */
module Attestation {
  import opened Bytes
  import opened Dsse
  import opened Options

  /** An entry of the envelope's signature list; sig is None when it is not base64. */
  datatype Entry = Entry(keyId: Text, algo: Text, sig: Option<Text>)

  datatype Evidence = Evidence(shipment: Text, mergeSha: Text, manifestDigest: Text, closureHash: Text)

  /** expires is None when the field is not an RFC 3339 time. */
  datatype Statement = Statement(subjects: seq<Text>, evidence: Evidence, signer: Text, expires: Option<int>)

  datatype Anchor = Anchor(id: Text, role: Text, algo: Text, notBefore: Option<int>, notAfter: Option<int>)

  datatype Input = Input(envelope: Signed, entries: seq<Entry>, anchor: Anchor, hasKey: bool, expected: Evidence, at: int)

  datatype Check = Role | SigAlgo | Signature | Decoding | Binding | Expiry | ShipmentId | MergeSha | ManifestDigest | ClosureHash

  datatype Verdict = Verified(keyId: Text, signer: Text, algo: Text) | Rejected(check: Check)

  /** "attestation-signer". */
  const SIGNER_ROLE: Text := [97, 116, 116, 101, 115, 116, 97, 116, 105, 111, 110, 45, 115, 105, 103, 110, 101, 114]

  type Verifier = (Text, Text) -> bool
  type Decoder = Text -> Option<Statement>

  predicate AlgoAgrees(e: Entry, a: Anchor) {
    e.keyId == a.id ==> e.algo == [] || e.algo == a.algo
  }

  predicate Signs(e: Entry, i: Input, verify: Verifier) {
    e.keyId == i.anchor.id && e.sig.Some? && verify(Pae(i.envelope), e.sig.value)
  }

  /** The validity window of the anchor, both ends included. */
  predicate InWindow(a: Anchor, at: int) {
    (a.notBefore.Some? ==> a.notBefore.value <= at) && (a.notAfter.Some? ==> at <= a.notAfter.value)
  }

  /** Everything a believed attestation satisfies. */
  ghost predicate Trusted(i: Input, verify: Verifier, decode: Decoder) {
    && i.anchor.role == SIGNER_ROLE
    && (forall e :: e in i.entries ==> AlgoAgrees(e, i.anchor))
    && i.hasKey && (exists e :: e in i.entries && Signs(e, i, verify))
    && decode(i.envelope.payload).Some?
    && var s := decode(i.envelope.payload).value;
       && i.expected.shipment in s.subjects && s.evidence == i.expected
       && (i.anchor.notBefore.Some? ==> i.anchor.notBefore.value <= i.at)
       && (i.anchor.notAfter.Some? ==> i.at <= i.anchor.notAfter.value)
       && s.expires.Some? && i.at <= s.expires.value
  }

  /** verifyAttestationSignature. */
  method VerifySignature(i: Input, verify: Verifier) returns (ok: bool)
    ensures ok <==> i.hasKey && exists e :: e in i.entries && Signs(e, i, verify)
  {
    if !i.hasKey {
      return false;
    }
    var pae := Pae(i.envelope);
    for n := 0 to |i.entries|
      invariant forall e :: e in i.entries[..n] ==> !Signs(e, i, verify)
    {
      var e := i.entries[n];
      assert i.entries[..n + 1] == i.entries[..n] + [e];
      if e.keyId == i.anchor.id && e.sig.Some? && verify(pae, e.sig.value) {
        assert e in i.entries && Signs(e, i, verify);
        return true;
      }
    }
    assert i.entries[..|i.entries|] == i.entries;
    return false;
  }

  /** attestationBindingError. */
  method Bound(s: Statement, shipment: Text) returns (ok: bool)
    ensures ok <==> s.evidence.shipment == shipment && shipment in s.subjects
  {
    if s.evidence.shipment != shipment {
      return false;
    }
    for n := 0 to |s.subjects|
      invariant shipment !in s.subjects[..n]
    {
      assert s.subjects[..n + 1] == s.subjects[..n] + [s.subjects[n]];
      if s.subjects[n] == shipment {
        return true;
      }
    }
    assert s.subjects[..|s.subjects|] == s.subjects;
    return false;
  }

  /** attestationEvidenceMismatch. */
  function EvidenceMismatch(e: Evidence, want: Evidence): (c: Option<Check>)
    ensures c.None? <==> e == want
  {
    if e.shipment != want.shipment then Some(ShipmentId)
    else if e.mergeSha != want.mergeSha then Some(MergeSha)
    else if e.manifestDigest != want.manifestDigest then Some(ManifestDigest)
    else if e.closureHash != want.closureHash then Some(ClosureHash)
    else None
  }

  /** The place of a check in the order they are made. */
  function Place(c: Check): nat {
    match c
    case Role => 0
    case SigAlgo => 1
    case Signature => 2
    case Decoding => 3
    case Binding => 4
    case Expiry => 5
    case ShipmentId => 6
    case MergeSha => 7
    case ManifestDigest => 8
    case ClosureHash => 9
  }

  /** One check on its own; what cannot be decoded passes the checks that need it. */
  ghost predicate Passes(c: Check, i: Input, verify: Verifier, decode: Decoder) {
    var s := decode(i.envelope.payload);
    match c
    case Role => i.anchor.role == SIGNER_ROLE
    case SigAlgo => forall e :: e in i.entries ==> AlgoAgrees(e, i.anchor)
    case Signature => i.hasKey && exists e :: e in i.entries && Signs(e, i, verify)
    case Decoding => s.Some?
    case Binding => s.Some? ==> s.value.evidence.shipment == i.expected.shipment && i.expected.shipment in s.value.subjects
    case Expiry => s.Some? ==>
      && (i.anchor.notBefore.Some? ==> i.anchor.notBefore.value <= i.at)
      && (i.anchor.notAfter.Some? ==> i.at <= i.anchor.notAfter.value)
      && s.value.expires.Some? && i.at <= s.value.expires.value
    case ShipmentId => s.Some? ==> s.value.evidence.shipment == i.expected.shipment
    case MergeSha => s.Some? ==> s.value.evidence.mergeSha == i.expected.mergeSha
    case ManifestDigest => s.Some? ==> s.value.evidence.manifestDigest == i.expected.manifestDigest
    case ClosureHash => s.Some? ==> s.value.evidence.closureHash == i.expected.closureHash
  }

  /** The check fails and every check before it passes. */
  ghost predicate FirstFailure(c: Check, i: Input, verify: Verifier, decode: Decoder) {
    !Passes(c, i, verify, decode) && forall b :: Place(b) < Place(c) ==> Passes(b, i, verify, decode)
  }

  /** VerifyAttestation: fail-closed, naming the first check that does not hold. The evidence check
      on the shipment can never be the one, because the binding check comes before it. */
  method VerifyAttestation(i: Input, verify: Verifier, decode: Decoder) returns (v: Verdict)
    ensures v.Verified? <==> Trusted(i, verify, decode)
    ensures v.Verified? ==> v == Verified(i.anchor.id, decode(i.envelope.payload).value.signer, i.anchor.algo)
    ensures v.Rejected? ==> FirstFailure(v.check, i, verify, decode)
    ensures v != Rejected(ShipmentId)
  {
    if i.anchor.role != SIGNER_ROLE {
      return Rejected(Role);
    }
    for n := 0 to |i.entries|
      invariant forall e :: e in i.entries[..n] ==> AlgoAgrees(e, i.anchor)
    {
      var e := i.entries[n];
      assert i.entries[..n + 1] == i.entries[..n] + [e];
      if e.keyId == i.anchor.id && e.algo != [] && e.algo != i.anchor.algo {
        assert e in i.entries && !AlgoAgrees(e, i.anchor);
        return Rejected(SigAlgo);
      }
    }
    assert i.entries[..|i.entries|] == i.entries;
    var signed := VerifySignature(i, verify);
    if !signed {
      return Rejected(Signature);
    }
    var decoded := decode(i.envelope.payload);
    if decoded.None? {
      return Rejected(Decoding);
    }
    var s := decoded.value;
    var bound := Bound(s, i.expected.shipment);
    if !bound {
      return Rejected(Binding);
    }
    if !InWindow(i.anchor, i.at) || s.expires.None? || s.expires.value < i.at {
      return Rejected(Expiry);
    }
    var mismatch := EvidenceMismatch(s.evidence, i.expected);
    if mismatch.Some? {
      return Rejected(mismatch.value);
    }
    return Verified(i.anchor.id, s.signer, i.anchor.algo);
  }

  /** Only what the key's owner signed is believed: when every message the key verifies is the
      pre-authentication encoding of some envelope in `issued`, a trusted attestation is one of
      them, and carries the expected evidence. */
  lemma TrustedWasIssued(i: Input, verify: Verifier, decode: Decoder, issued: set<Signed>)
    requires forall message, sig :: verify(message, sig) ==> exists s :: s in issued && message == Pae(s)
    requires Trusted(i, verify, decode)
    ensures i.envelope in issued && decode(i.envelope.payload).value.evidence == i.expected
  {
    var e :| e in i.entries && Signs(e, i, verify);
    var s :| s in issued && Pae(i.envelope) == Pae(s);
    PaeInjective(i.envelope, s);
  }
}
