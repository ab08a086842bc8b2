/** Evidence roots, and what the digest of an evaluation and the signed bytes of a receipt commit to. */
module Receipts {
  import opened Text
  import opened Seqs
  import opened Digests
  import opened Lifecycle
  import opened Records
  import opened Epochs

  function RefDigest(): EvidenceRef -> string {
    (e: EvidenceRef) => e.digest
  }

  method ComputeEvidenceRoot(sha: Sha, evidences: seq<EvidenceRef>) returns (root: string)
    ensures evidences == [] ==> root == ComputeDigest(sha, "empty:evidence:root")
    ensures evidences != [] ==> root == ComputeDigest(sha, ListText(Map(RefDigest(), evidences)))
  {
    if |evidences| == 0 {
      return ComputeDigest(sha, "empty:evidence:root");
    }
    var digests: seq<string> := [];
    for i := 0 to |evidences|
      invariant digests == Map(RefDigest(), evidences)[..i]
    {
      digests := digests + [evidences[i].digest];
    }
    assert digests == Map(RefDigest(), evidences);
    digests := Sort(digests);
    root := ComputeDigest(sha, Join(digests, '\n'));
  }

  /** An evidence root commits to exactly the multiset of digests, whatever the order of the
      evidence: two non-empty lists share a root if and only if they cite the same digests
      equally often. */
  lemma EvidenceRootCommits(sha: Sha, a: seq<EvidenceRef>, b: seq<EvidenceRef>)
    requires a != [] && b != [] && forall e :: e in a || e in b ==> '\n' !in e.digest
    requires CollisionFree(sha, {ListText(Map(RefDigest(), a)), ListText(Map(RefDigest(), b))})
    ensures ComputeDigest(sha, ListText(Map(RefDigest(), a))) == ComputeDigest(sha, ListText(Map(RefDigest(), b))) <==>
            multiset(Map(RefDigest(), a)) == multiset(Map(RefDigest(), b))
  {
    var p, q := Map(RefDigest(), a), Map(RefDigest(), b);
    forall d | d in p || d in q ensures '\n' !in d {
      MapMembers(RefDigest(), a, d);
      MapMembers(RefDigest(), b, d);
    }
    ListRootIdentifiesMultiset(sha, p, q);
  }

  /** Digests are built from hex characters and the tag, so they hold no separator. */
  lemma DigestClean(sha: Sha, text: string)
    requires HexOutput(sha)
    ensures '|' !in ComputeDigest(sha, text) && '\n' !in ComputeDigest(sha, text)
  {
    assert IsHex64(sha(text));
  }

  // ----- What a digest of a record commits to -----

  /** Everything the digest of an evaluation depends on. */
  datatype HashedEvaluation = HashedEvaluation(
    id: string,
    subject: string,
    control: string,
    state: AssuranceState,
    epoch: string,
    evidenceRoot: string,
    evaluatedAt: int)

  /** Everything the digest of an envelope depends on. */
  datatype HashedEnvelope = HashedEnvelope(
    schema: string,
    id: string,
    subject: string,
    observationType: string,
    capturedAt: int,
    producer: string,
    artifact: string,
    integrityDigest: string,
    signatureRef: string,
    epoch: string,
    controls: string)

  /** Everything the signed bytes of a receipt depend on. */
  datatype SignedReceipt = SignedReceipt(
    subject: string,
    control: string,
    state: AssuranceState,
    epoch: string,
    evidenceRoot: string,
    evaluator: string,
    evaluatedAt: int)

  function EpochText(e: AssuranceEpoch): string {
    Join(e.Parts(), ':')
  }

  /** The sorted names of an envelope's controls, in one line. */
  function ControlText(e: EvidenceEnvelope): string {
    Join(Sort(CanonicalNames(e.controlRefs)), ',')
  }

  function HashedOf(): ClaimEvaluation -> HashedEvaluation {
    (e: ClaimEvaluation) =>
      HashedEvaluation(e.id, e.subject.URI(), e.control.Canonical(), e.state, EpochText(e.epoch), e.evidenceRoot, e.evaluatedAt)
  }

  function EnvelopeOf(): EvidenceEnvelope -> HashedEnvelope {
    (e: EvidenceEnvelope) =>
      HashedEnvelope(e.schema, e.id, e.subject.URI(), e.observationType, e.capturedAt, e.producer.Canonical(),
                     e.artifact.digest, e.integrityDigest, e.signatureRef, EpochText(e.epoch), ControlText(e))
  }

  function SignedOf(): ControlReceipt -> SignedReceipt {
    (r: ControlReceipt) =>
      SignedReceipt(r.subject.URI(), r.control.Canonical(), r.state, EpochText(r.epoch), r.evidenceRoot,
                    r.evaluator.Canonical(), r.evaluatedAt)
  }

  /** Well-formed epochs with the same text are the same epoch. */
  lemma EpochTextIdentifies(e: AssuranceEpoch, f: AssuranceEpoch)
    requires WellFormed(e) && WellFormed(f) && EpochText(e) == EpochText(f)
    ensures e == f
  {
    DimensionsInjective(e.Parts(), f.Parts());
    var p, q := e.Parts(), f.Parts();
    assert p[0] == q[0] && p[1] == q[1] && p[2] == q[2] && p[3] == q[3] && p[4] == q[4];
  }

  lemma CompositeBinds(sha: Sha, e: AssuranceEpoch, f: AssuranceEpoch, texts: set<string>)
    requires CollisionFree(sha, texts) && EpochText(e) in texts && EpochText(f) in texts
    requires e.CompositeDigest(sha) == f.CompositeDigest(sha)
    ensures EpochText(e) == EpochText(f)
  {
    DigestInjective(sha, texts, EpochText(e), EpochText(f));
  }

  /** The text fields an evaluation digest joins hold no '|'; the evaluation ID may. */
  predicate CleanEvaluation(e: ClaimEvaluation) {
    '|' !in e.subject.URI() && '|' !in e.control.Canonical() && '|' !in e.evidenceRoot
  }

  function EvaluationTexts(sha: Sha, e: ClaimEvaluation): set<string> {
    {EpochText(e.epoch), Join(e.Fields(sha), '|')}
  }

  lemma EvaluationFieldsBind(e: ClaimEvaluation, f: ClaimEvaluation, sha: Sha, texts: set<string>)
    requires CollisionFree(sha, texts) && EpochText(e.epoch) in texts && EpochText(f.epoch) in texts
    requires e.Fields(sha) == f.Fields(sha)
    ensures HashedOf()(e) == HashedOf()(f)
  {
    var p, q := e.Fields(sha), f.Fields(sha);
    assert p[0] == q[0] && p[1] == q[1] && p[2] == q[2] && p[3] == q[3] && p[4] == q[4] && p[5] == q[5] && p[6] == q[6];
    StateTextInjective(e.state, f.state);
    CompositeBinds(sha, e.epoch, f.epoch, texts);
    DecInjective(e.evaluatedAt, f.evaluatedAt);
  }

  /** An evaluation digest commits to the evaluation's identity, subject, control, state, epoch,
      evidence root and time, and to nothing else. */
  lemma EvaluationDigestCommits(sha: Sha, e: ClaimEvaluation, f: ClaimEvaluation, texts: set<string>)
    requires HexOutput(sha) && CleanEvaluation(e) && CleanEvaluation(f)
    requires CollisionFree(sha, texts) && EvaluationTexts(sha, e) <= texts && EvaluationTexts(sha, f) <= texts
    ensures e.Digest(sha) == f.Digest(sha) <==> HashedOf()(e) == HashedOf()(f)
    ensures e.Digest(sha) == f.Digest(sha) && WellFormed(e.epoch) && WellFormed(f.epoch) ==> e.epoch == f.epoch
  {
    var p, q := e.Fields(sha), f.Fields(sha);
    if e.Digest(sha) == f.Digest(sha) {
      DigestInjective(sha, texts, Join(p, '|'), Join(q, '|'));
      EvaluationFieldsClean(sha, e);
      EvaluationFieldsClean(sha, f);
      JoinInjectiveAround(p, q, 0, '|');
      EvaluationFieldsBind(e, f, sha, texts);
      if WellFormed(e.epoch) && WellFormed(f.epoch) {
        EpochTextIdentifies(e.epoch, f.epoch);
      }
    }
  }

  /** It commits even against an evaluation whose text is free to hold separators, if the one at
      hand holds none, its ID included. */
  lemma EvaluationDigestBinds(sha: Sha, e: ClaimEvaluation, f: ClaimEvaluation, texts: set<string>)
    requires HexOutput(sha) && CleanEvaluation(e) && '|' !in e.id
    requires CollisionFree(sha, texts) && EvaluationTexts(sha, e) <= texts && EvaluationTexts(sha, f) <= texts
    ensures e.Digest(sha) == f.Digest(sha) <==> HashedOf()(e) == HashedOf()(f)
  {
    var p, q := e.Fields(sha), f.Fields(sha);
    if e.Digest(sha) == f.Digest(sha) {
      DigestInjective(sha, texts, Join(p, '|'), Join(q, '|'));
      EvaluationFieldsClean(sha, e);
      FieldsBind(p, q, '|');
      EvaluationFieldsBind(e, f, sha, texts);
    }
  }

  /** Separator-free fields are determined by their joined text and their number. */
  lemma FieldsBind(p: seq<string>, q: seq<string>, sep: char)
    requires |p| == |q| > 0 && Join(p, sep) == Join(q, sep) && forall i :: 0 <= i < |p| ==> sep !in p[i]
    ensures p == q
  {
    FieldsCounted(p, q, sep);
    JoinInjectiveAround(p, q, 0, sep);
  }

  lemma EvaluationFieldsClean(sha: Sha, e: ClaimEvaluation)
    requires HexOutput(sha) && CleanEvaluation(e)
    ensures forall i :: 0 < i < |e.Fields(sha)| ==> '|' !in e.Fields(sha)[i]
  {
    StateTextClean(e.state);
    DigestClean(sha, EpochText(e.epoch));
    DecClean(e.evaluatedAt);
  }

  /** The text fields an envelope digest joins hold no '|'; the envelope ID may. */
  predicate CleanEnvelope(e: EvidenceEnvelope) {
    && '|' !in e.schema && '|' !in e.subject.URI() && '|' !in e.observationType && '|' !in e.producer.Canonical()
    && '|' !in e.artifact.digest && '|' !in e.integrityDigest && '|' !in e.signatureRef
    && forall n :: n in CanonicalNames(e.controlRefs) ==> '|' !in n
  }

  /** The names joined in an envelope's control text hold no ','. */
  predicate CleanControls(e: EvidenceEnvelope) {
    forall n :: n in CanonicalNames(e.controlRefs) ==> ',' !in n
  }

  function EnvelopeTexts(sha: Sha, e: EvidenceEnvelope): set<string> {
    {EpochText(e.epoch), Join(e.Fields(sha), '|')}
  }

  lemma ControlTextClean(e: EvidenceEnvelope)
    requires CleanEnvelope(e)
    ensures '|' !in ControlText(e)
  {
    var names := CanonicalNames(e.controlRefs);
    SortSorts(names);
    forall n | n in Sort(names) ensures '|' !in n {
      assert n in multiset(names);
    }
    JoinFree(Sort(names), ',', '|');
  }

  /** The control text determines the multiset of controls, if either side's names hold no ','
      and there are equally many. */
  lemma ControlTextBinds(e: EvidenceEnvelope, f: EvidenceEnvelope)
    requires CleanControls(e) && |e.controlRefs| == |f.controlRefs| && ControlText(e) == ControlText(f)
    ensures multiset(CanonicalNames(e.controlRefs)) == multiset(CanonicalNames(f.controlRefs))
  {
    LinesBind(CanonicalNames(e.controlRefs), CanonicalNames(f.controlRefs), ',');
  }

  lemma EnvelopeFieldsClean(sha: Sha, e: EvidenceEnvelope)
    requires HexOutput(sha) && CleanEnvelope(e)
    ensures forall i :: 0 <= i < |e.Fields(sha)| && i != 1 ==> '|' !in e.Fields(sha)[i]
  {
    DecClean(e.capturedAt);
    DigestClean(sha, EpochText(e.epoch));
    ControlTextClean(e);
  }

  lemma EnvelopeFieldsBind(e: EvidenceEnvelope, f: EvidenceEnvelope, sha: Sha, texts: set<string>)
    requires CollisionFree(sha, texts) && EpochText(e.epoch) in texts && EpochText(f.epoch) in texts
    requires e.Fields(sha) == f.Fields(sha)
    ensures EnvelopeOf()(e) == EnvelopeOf()(f)
  {
    var p, q := e.Fields(sha), f.Fields(sha);
    assert p[0] == q[0] && p[1] == q[1] && p[2] == q[2] && p[3] == q[3] && p[4] == q[4] && p[5] == q[5];
    assert p[6] == q[6] && p[7] == q[7] && p[8] == q[8] && p[9] == q[9] && p[10] == q[10];
    DecInjective(e.capturedAt, f.capturedAt);
    CompositeBinds(sha, e.epoch, f.epoch, texts);
  }

  /** An envelope digest commits to schema, identity, subject URI, type, capture time, producer,
      artifact digest, integrity digest, signature reference, epoch and the text of its controls,
      and to nothing else: not to the artifact's location and media type, the subject's attributes
      or the producer's trust domain. The text of equally many controls stands for their multiset. */
  lemma EnvelopeDigestCommits(sha: Sha, e: EvidenceEnvelope, f: EvidenceEnvelope, texts: set<string>)
    requires HexOutput(sha) && CleanEnvelope(e) && CleanEnvelope(f)
    requires CollisionFree(sha, texts) && EnvelopeTexts(sha, e) <= texts && EnvelopeTexts(sha, f) <= texts
    ensures e.Digest(sha) == f.Digest(sha) <==> EnvelopeOf()(e) == EnvelopeOf()(f)
    ensures e.Digest(sha) == f.Digest(sha) && WellFormed(e.epoch) && WellFormed(f.epoch) ==> e.epoch == f.epoch
    ensures e.Digest(sha) == f.Digest(sha) && CleanControls(e) && |e.controlRefs| == |f.controlRefs| ==>
              multiset(CanonicalNames(e.controlRefs)) == multiset(CanonicalNames(f.controlRefs))
  {
    var p, q := e.Fields(sha), f.Fields(sha);
    if e.Digest(sha) == f.Digest(sha) {
      DigestInjective(sha, texts, Join(p, '|'), Join(q, '|'));
      EnvelopeFieldsClean(sha, e);
      EnvelopeFieldsClean(sha, f);
      JoinInjectiveAround(p, q, 1, '|');
      EnvelopeFieldsBind(e, f, sha, texts);
      if WellFormed(e.epoch) && WellFormed(f.epoch) {
        EpochTextIdentifies(e.epoch, f.epoch);
      }
      if CleanControls(e) && |e.controlRefs| == |f.controlRefs| {
        ControlTextBinds(e, f);
      }
    }
  }

  /** It commits even against an envelope whose text is free to hold separators, if the one at hand
      holds none, its ID included. */
  lemma EnvelopeDigestBinds(sha: Sha, e: EvidenceEnvelope, f: EvidenceEnvelope, texts: set<string>)
    requires HexOutput(sha) && CleanEnvelope(e) && '|' !in e.id
    requires CollisionFree(sha, texts) && EnvelopeTexts(sha, e) <= texts && EnvelopeTexts(sha, f) <= texts
    ensures e.Digest(sha) == f.Digest(sha) <==> EnvelopeOf()(e) == EnvelopeOf()(f)
  {
    var p, q := e.Fields(sha), f.Fields(sha);
    if e.Digest(sha) == f.Digest(sha) {
      DigestInjective(sha, texts, Join(p, '|'), Join(q, '|'));
      EnvelopeFieldsClean(sha, e);
      FieldsBind(p, q, '|');
      EnvelopeFieldsBind(e, f, sha, texts);
    }
  }

  /** The lines a receipt's signed bytes are made of hold no line break; the subject may. */
  predicate CleanReceipt(r: ControlReceipt) {
    '\n' !in r.control.Canonical() && '\n' !in r.evidenceRoot && '\n' !in r.evaluator.Canonical()
  }

  lemma ReceiptFieldsClean(sha: Sha, r: ControlReceipt)
    requires HexOutput(sha) && CleanReceipt(r)
    ensures forall i :: 0 < i < |r.Fields(sha)| ==> '\n' !in r.Fields(sha)[i]
  {
    StateTextClean(r.state);
    DigestClean(sha, EpochText(r.epoch));
    DecClean(r.evaluatedAt);
  }

  /** A signature made over one receipt's bytes can only be presented with a receipt that states
      the same subject, control, state, epoch, evidence root, evaluator and time. */
  lemma SignedBytesCommit(sha: Sha, r: ControlReceipt, s: ControlReceipt)
    requires HexOutput(sha) && CleanReceipt(r) && CleanReceipt(s)
    requires CollisionFree(sha, {EpochText(r.epoch), EpochText(s.epoch)})
    ensures r.CanonicalBytes(sha) == s.CanonicalBytes(sha) <==> SignedOf()(r) == SignedOf()(s)
    ensures r.CanonicalBytes(sha) == s.CanonicalBytes(sha) && WellFormed(r.epoch) && WellFormed(s.epoch) ==> r.epoch == s.epoch
  {
    var p, q := r.Fields(sha), s.Fields(sha);
    if r.CanonicalBytes(sha) == s.CanonicalBytes(sha) {
      ReceiptFieldsClean(sha, r);
      ReceiptFieldsClean(sha, s);
      JoinInjectiveAround(p, q, 0, '\n');
      SignedFieldsBind(sha, r, s);
      if WellFormed(r.epoch) && WellFormed(s.epoch) {
        EpochTextIdentifies(r.epoch, s.epoch);
      }
    }
  }

  /** They cannot even be presented with a receipt whose text is free to hold line breaks, if the
      signed one holds none, its subject included. */
  lemma SignedBytesBind(sha: Sha, r: ControlReceipt, s: ControlReceipt)
    requires HexOutput(sha) && CleanReceipt(r) && '\n' !in r.subject.URI()
    requires CollisionFree(sha, {EpochText(r.epoch), EpochText(s.epoch)})
    ensures r.CanonicalBytes(sha) == s.CanonicalBytes(sha) <==> SignedOf()(r) == SignedOf()(s)
  {
    if r.CanonicalBytes(sha) == s.CanonicalBytes(sha) {
      ReceiptFieldsClean(sha, r);
      FieldsBind(r.Fields(sha), s.Fields(sha), '\n');
      SignedFieldsBind(sha, r, s);
    }
  }

  lemma SignedFieldsBind(sha: Sha, r: ControlReceipt, s: ControlReceipt)
    requires CollisionFree(sha, {EpochText(r.epoch), EpochText(s.epoch)}) && r.Fields(sha) == s.Fields(sha)
    ensures SignedOf()(r) == SignedOf()(s)
  {
    var p, q := r.Fields(sha), s.Fields(sha);
    assert p[0] == q[0] && p[1] == q[1] && p[2] == q[2] && p[3] == q[3] && p[4] == q[4] && p[5] == q[5] && p[6] == q[6];
    StateTextInjective(r.state, s.state);
    CompositeBinds(sha, r.epoch, s.epoch, {EpochText(r.epoch), EpochText(s.epoch)});
    DecInjective(r.evaluatedAt, s.evaluatedAt);
  }
}
