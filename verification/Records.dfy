/** The records the kernel passes around, and the texts their digests are taken over. */
module Records {
  import opened Text
  import opened Digests
  import opened Lifecycle

  datatype SubjectRef = SubjectRef(scheme: string, id: string, attributes: map<string, string>) {
    function URI(): string {
      if scheme == "" then id else scheme + "://" + id
    }
  }

  datatype ControlRef = ControlRef(namespace: string, id: string, version: string) {
    function Canonical(): string {
      if version != "" then namespace + ":" + id + "@" + version else namespace + ":" + id
    }
  }

  datatype AuthorityRef = AuthorityRef(scheme: string, subject: string, trustDomain: string) {
    function Canonical(): string {
      if scheme == "" then subject else scheme + "://" + subject
    }
  }

  datatype EvidenceRef = EvidenceRef(uri: string, digest: string, mediaType: string)

  datatype AssuranceEpoch = AssuranceEpoch(
    subjectDigest: string,
    implementationDigest: string,
    policyDigest: string,
    authorityDigest: string,
    environmentDigest: string)
  {
    function Parts(): seq<string> {
      [subjectDigest, implementationDigest, policyDigest, authorityDigest, environmentDigest]
    }

    function CompositeDigest(sha: Sha): string {
      ComputeDigest(sha, Join(Parts(), ':'))
    }
  }

  datatype EvidenceEnvelope = EvidenceEnvelope(
    schema: string,
    id: string,
    subject: SubjectRef,
    observationType: string,
    capturedAt: int,
    producer: AuthorityRef,
    artifact: EvidenceRef,
    integrityDigest: string,
    signatureRef: string,
    epoch: AssuranceEpoch,
    controlRefs: seq<ControlRef>)
  {
    function Fields(sha: Sha): seq<string> {
      [schema, id, subject.URI(), observationType, Dec(capturedAt), producer.Canonical(), artifact.digest, integrityDigest,
       signatureRef, epoch.CompositeDigest(sha), Join(Sort(CanonicalNames(controlRefs)), ',')]
    }

    function Digest(sha: Sha): string {
      ComputeDigest(sha, Join(Fields(sha), '|'))
    }
  }

  function CanonicalNames(controls: seq<ControlRef>): seq<string> {
    seq(|controls|, i requires 0 <= i < |controls| => controls[i].Canonical())
  }

  datatype EvidenceCompleteness = EvidenceCompleteness(required: nat, present: nat, verified: nat, stale: nat, missing: nat) {
    predicate IsComplete() {
      required > 0 && verified >= required && missing == 0 && stale == 0
    }
  }

  datatype ClaimEvaluation = ClaimEvaluation(
    id: string,
    control: ControlRef,
    subject: SubjectRef,
    state: AssuranceState,
    epoch: AssuranceEpoch,
    evidence: seq<EvidenceRef>,
    completeness: EvidenceCompleteness,
    evidenceRoot: string,
    evaluatedAt: int,
    validUntil: int)
  {
    function Fields(sha: Sha): seq<string> {
      [id, subject.URI(), control.Canonical(), state.Text(), epoch.CompositeDigest(sha), evidenceRoot, Dec(evaluatedAt)]
    }

    function Digest(sha: Sha): string {
      ComputeDigest(sha, Join(Fields(sha), '|'))
    }
  }

  datatype ControlReceipt = ControlReceipt(
    subject: SubjectRef,
    control: ControlRef,
    state: AssuranceState,
    epoch: AssuranceEpoch,
    evidenceRoot: string,
    evaluator: AuthorityRef,
    evaluatedAt: int,
    signature: string)
  {
    function Fields(sha: Sha): seq<string> {
      [subject.URI(), control.Canonical(), state.Text(), epoch.CompositeDigest(sha), evidenceRoot,
       evaluator.Canonical(), Dec(evaluatedAt)]
    }

    /** The bytes a receipt signature is made over. */
    function CanonicalBytes(sha: Sha): string {
      Join(Fields(sha), '\n')
    }
  }

  // ----- What names identify -----

  lemma SchemedNames(scheme: string, name: string, scheme': string, name': string)
    requires ':' !in scheme && ':' !in scheme'
    ensures scheme + "://" + name == scheme' + "://" + name' <==> scheme == scheme' && name == name'
  {
    if scheme + "://" + name == scheme' + "://" + name' {
      assert scheme + "://" + name == scheme + [':'] + ("//" + name);
      assert scheme' + "://" + name' == scheme' + [':'] + ("//" + name');
      CutFirst(scheme, "//" + name, scheme', "//" + name', ':');
      DropLead("//", name, name');
    }
  }

  /** A subject's URI identifies its scheme and ID, if both subjects have a scheme and it holds no
      ':'; it does not see the attributes. */
  lemma SubjectNames(a: SubjectRef, b: SubjectRef)
    requires a.scheme != "" && b.scheme != "" && ':' !in a.scheme && ':' !in b.scheme
    ensures a.URI() == b.URI() <==> a.scheme == b.scheme && a.id == b.id
  {
    SchemedNames(a.scheme, a.id, b.scheme, b.id);
  }

  /** Likewise an authority's name; it does not see the trust domain. */
  lemma AuthorityNames(a: AuthorityRef, b: AuthorityRef)
    requires a.scheme != "" && b.scheme != "" && ':' !in a.scheme && ':' !in b.scheme
    ensures a.Canonical() == b.Canonical() <==> a.scheme == b.scheme && a.subject == b.subject
  {
    SchemedNames(a.scheme, a.subject, b.scheme, b.subject);
  }

  /** A control's name identifies it, version included, if namespaces hold no ':' and IDs no '@'. */
  lemma ControlNames(a: ControlRef, b: ControlRef)
    requires ':' !in a.namespace && ':' !in b.namespace && '@' !in a.id && '@' !in b.id
    ensures a.Canonical() == b.Canonical() <==> a == b
  {
    if a.Canonical() == b.Canonical() {
      var p, q := Versioned(a), Versioned(b);
      assert a.Canonical() == a.namespace + [':'] + p && b.Canonical() == b.namespace + [':'] + q;
      CutFirst(a.namespace, p, b.namespace, q, ':');
      VersionShows(a);
      VersionShows(b);
      if a.version != "" {
        CutFirst(a.id, a.version, b.id, b.version, '@');
      }
    }
  }

  lemma VersionShows(c: ControlRef)
    requires '@' !in c.id
    ensures '@' in Versioned(c) <==> c.version != ""
  {
    assert c.version != "" ==> Versioned(c)[|c.id|] == '@';
  }

  function Versioned(c: ControlRef): string {
    if c.version != "" then c.id + "@" + c.version else c.id
  }
}
