/** Reconciling a control binding: build the contract, evaluate one claim per control against the
    evidence store, fold the verdicts, and sign receipts only for an assured whole. */
module Reconcile {
  import opened Text
  import opened Seqs
  import opened Digests
  import opened Lifecycle
  import opened Records
  import opened Epochs
  import opened Evidence
  import opened Store

  /** 24 hours and 5 minutes, in nanoseconds. */
  const DAY := 86_400_000_000_000
  const VALIDITY := 300_000_000_000

  datatype Claim = Claim(id: string, subject: SubjectRef, control: ControlRef)

  datatype CrdRequirement = CrdRequirement(
    id: string,
    evidenceType: string,
    required: bool,
    freshness: int,
    acceptedProducers: seq<string>)

  datatype ContractCrd = ContractCrd(name: string, requirements: seq<CrdRequirement>, onMissing: string)

  datatype BindingRequirement = BindingRequirement(id: string, evidenceContract: string)

  datatype ControlBinding = ControlBinding(
    namespace: string,
    name: string,
    kinds: seq<string>,
    controls: seq<ControlRef>,
    requirements: seq<BindingRequirement>)

  // ----- The contract -----

  function FromCrd(): CrdRequirement -> EvidenceRequirement {
    (cr: CrdRequirement) =>
      EvidenceRequirement(cr.id, cr.evidenceType, cr.required, if cr.freshness <= 0 then DAY else cr.freshness,
                          cr.acceptedProducers)
  }

  function Inline(): BindingRequirement -> EvidenceRequirement {
    (br: BindingRequirement) => EvidenceRequirement(br.id, "admission", true, DAY, [])
  }

  /** The contract of a binding: the referenced one when it was fetched and requires anything,
      otherwise one admission requirement per requirement of the binding. */
  function ContractFor(b: ControlBinding, crd: Option<ContractCrd>): EvidenceContract {
    if b.requirements != [] && b.requirements[0].evidenceContract != "" && crd.Some? && crd.value.requirements != [] then
      EvidenceContract(crd.value.name, Map(FromCrd(), crd.value.requirements),
                       if crd.value.onMissing == "Failed" then Failed else Unknown)
    else
      EvidenceContract("contract-" + b.name, Map(Inline(), b.requirements), Unknown)
  }

  /** The binding refers to a contract, which was fetched and requires something. */
  predicate Fetched(b: ControlBinding, crd: Option<ContractCrd>) {
    b.requirements != [] && b.requirements[0].evidenceContract != "" && crd.Some? && crd.value.requirements != []
  }

  /** The contract takes over a fetched one, requirement by requirement. */
  ghost predicate TakesOver(contract: EvidenceContract, crd: ContractCrd) {
    && contract.id == crd.name && |contract.requirements| == |crd.requirements|
    && (contract.onMissingRequiredState == Failed <==> crd.onMissing == "Failed")
    && (contract.onMissingRequiredState == Unknown <==> crd.onMissing != "Failed")
    && forall i :: 0 <= i < |crd.requirements| ==> TakesRequirement(contract.requirements[i], crd.requirements[i])
  }

  predicate TakesRequirement(r: EvidenceRequirement, cr: CrdRequirement) {
    && r.id == cr.id && r.evidenceType == cr.evidenceType && r.required == cr.required
    && r.acceptedProducers == cr.acceptedProducers
    && (cr.freshness > 0 ==> r.maxAge == cr.freshness)
    && (cr.freshness <= 0 ==> r.maxAge == DAY)
  }

  /** The contract asks for admission evidence of the last day, once per requirement of the binding. */
  ghost predicate AsksAdmission(contract: EvidenceContract, b: ControlBinding) {
    && contract.id == "contract-" + b.name && |contract.requirements| == |b.requirements|
    && contract.onMissingRequiredState == Unknown
    && forall i :: 0 <= i < |b.requirements| ==> AdmissionFor(contract.requirements[i], b.requirements[i])
  }

  predicate AdmissionFor(r: EvidenceRequirement, br: BindingRequirement) {
    r.id == br.id && r.evidenceType == "admission" && r.required && r.acceptedProducers == [] && r.maxAge == DAY
  }

  lemma ContractExactly(b: ControlBinding, crd: Option<ContractCrd>)
    ensures Fetched(b, crd) ==> TakesOver(ContractFor(b, crd), crd.value)
    ensures !Fetched(b, crd) ==> AsksAdmission(ContractFor(b, crd), b)
  {
  }

  /** crd is what fetching the referenced contract gives, None for a failed fetch. */
  method BuildContract(b: ControlBinding, crd: Option<ContractCrd>) returns (contract: EvidenceContract)
    ensures contract == ContractFor(b, crd)
    ensures Fetched(b, crd) ==> TakesOver(contract, crd.value)
    ensures !Fetched(b, crd) ==> AsksAdmission(contract, b)
  {
    ContractExactly(b, crd);
    contract := EvidenceContract("", [], Unspecified);
    if |b.requirements| > 0 && b.requirements[0].evidenceContract != "" {
      if crd.Some? {
        var reqs: seq<EvidenceRequirement> := [];
        for i := 0 to |crd.value.requirements|
          invariant reqs == Map(FromCrd(), crd.value.requirements)[..i]
        {
          var cr := crd.value.requirements[i];
          var maxAge := cr.freshness;
          if maxAge <= 0 {
            maxAge := DAY;
          }
          reqs := reqs + [EvidenceRequirement(cr.id, cr.evidenceType, cr.required, maxAge, cr.acceptedProducers)];
        }
        var missingState := Unknown;
        if crd.value.onMissing == "Failed" {
          missingState := Failed;
        }
        contract := EvidenceContract(crd.value.name, reqs, missingState);
      }
    }
    if |contract.requirements| == 0 {
      var reqs: seq<EvidenceRequirement> := [];
      for i := 0 to |b.requirements|
        invariant reqs == Map(Inline(), b.requirements)[..i]
      {
        reqs := reqs + [EvidenceRequirement(b.requirements[i].id, "admission", true, DAY, [])];
      }
      contract := EvidenceContract("contract-" + b.name, reqs, Unknown);
    }
  }

  /** Missing evidence never counts as verified or stale, and every requirement bounds the age of
      its evidence. */
  predicate Strict(c: EvidenceContract) {
    && (c.onMissingRequiredState == Unknown || c.onMissingRequiredState == Failed)
    && forall r :: r in c.requirements ==> r.maxAge > 0
  }

  lemma ContractIsStrict(b: ControlBinding, crd: Option<ContractCrd>)
    ensures Strict(ContractFor(b, crd))
    ensures b.requirements != [] ==> ContractFor(b, crd).requirements != []
  {
    forall r | r in ContractFor(b, crd).requirements ensures r.maxAge > 0 {
      if crd.Some? { MapMembers(FromCrd(), crd.value.requirements, r); }
      MapMembers(Inline(), b.requirements, r);
    }
  }

  // ----- The subject -----

  datatype SubjectResolver = SubjectResolver(resolve: string -> Option<SubjectRef>, digest: SubjectRef -> Option<string>)

  function TargetURI(b: ControlBinding): string {
    var kind := if b.kinds != [] && b.kinds[0] != "*" then b.kinds[0] else "Deployment";
    "k8s://" + b.namespace + "/" + kind + "/" + TrimSuffix(b.name, "-binding")
  }

  function SubjectFor(b: ControlBinding, resolver: Option<SubjectResolver>): SubjectRef {
    if resolver.Some? && resolver.value.resolve(TargetURI(b)).Some? then resolver.value.resolve(TargetURI(b)).value
    else SubjectRef("k8s", b.namespace + "/" + b.name, map["namespace" := b.namespace, "name" := b.name])
  }

  /** The digest the evidence must be captured under: the resolver's, or that of the subject's URI. */
  function SubjectDigestFor(sha: Sha, b: ControlBinding, resolver: Option<SubjectResolver>): string {
    var subject := SubjectFor(b, resolver);
    if resolver.Some? && resolver.value.resolve(TargetURI(b)).Some? && resolver.value.digest(subject).Some?
       && resolver.value.digest(subject).value != ""
    then resolver.value.digest(subject).value
    else ComputeDigest(sha, subject.URI())
  }

  function EpochFor(digest: string): AssuranceEpoch {
    AssuranceEpoch(digest, "", "", "", "")
  }

  /** Which subject a binding is about and under which digest its evidence must be: the workload the
      binding is named after, if a resolver knows it, else the binding itself; the digest is the
      resolver's, or that of the subject's URI if it has none. */
  lemma SubjectExactly(sha: Sha, b: ControlBinding, resolver: Option<SubjectResolver>, kind: string, workload: string)
    requires kind == if b.kinds == [] || b.kinds[0] == "*" then "Deployment" else b.kinds[0]
    requires Stripped(b.name, "-binding", workload)
    ensures var uri := "k8s://" + b.namespace + "/" + kind + "/" + workload;
            var subject, digest := SubjectFor(b, resolver), SubjectDigestFor(sha, b, resolver);
            if resolver.Some? && resolver.value.resolve(uri).Some? then
              var found := resolver.value.resolve(uri).value;
              && subject == found
              && (resolver.value.digest(found).Some? && resolver.value.digest(found).value != "" ==>
                    digest == resolver.value.digest(found).value)
              && (resolver.value.digest(found).None? || resolver.value.digest(found).value == "" ==>
                    digest == "sha256:" + sha(found.URI()))
            else
              && subject.URI() == "k8s://" + b.namespace + "/" + b.name
              && subject.attributes == map["namespace" := b.namespace, "name" := b.name]
              && digest == "sha256:" + sha(subject.URI())
  {
    StrippedExactly(b.name, "-binding", workload);
    assert TargetURI(b) == "k8s://" + b.namespace + "/" + kind + "/" + workload;
    assert "k8s" + "://" + (b.namespace + "/" + b.name) == "k8s://" + b.namespace + "/" + b.name;
  }

  // ----- Evaluating one claim -----

  function Artifact(): EvidenceEnvelope -> EvidenceRef {
    (e: EvidenceEnvelope) => e.artifact
  }

  /** The digests an evidence root is taken over: the artifact's, or a digest of the envelope ID. */
  function Citations(sha: Sha, verified: seq<EvidenceEnvelope>): seq<string> {
    if verified == [] then []
    else
      var v := verified[|verified| - 1];
      Citations(sha, verified[..|verified| - 1]) +
      if v.artifact.digest != "" then [v.artifact.digest] else if v.id != "" then [ComputeDigest(sha, v.id)] else []
  }

  function RootOf(sha: Sha, citations: seq<string>): string {
    if citations == [] then "" else ComputeDigest(sha, ListText(citations))
  }

  function EvaluationOf(sha: Sha, claim: Claim, contract: EvidenceContract, pool: seq<EvidenceEnvelope>,
                        epoch: AssuranceEpoch, now: int): ClaimEvaluation
  {
    var res := Evidence.Evaluation(contract, pool, epoch, now);
    ClaimEvaluation("eval-" + claim.id, claim.control, claim.subject, res.state, epoch,
                    Map(Artifact(), res.verifiedEvidences), res.completeness,
                    RootOf(sha, Citations(sha, res.verifiedEvidences)), now, now + VALIDITY)
  }

  /** Which digests are cited for an envelope: its artifact's, or that of its ID if it has none. */
  predicate CitedFor(sha: Sha, e: EvidenceEnvelope, digest: string) {
    if e.artifact.digest != "" then digest == e.artifact.digest else e.id != "" && digest == ComputeDigest(sha, e.id)
  }

  lemma {:induction false} CitationsExactly(sha: Sha, verified: seq<EvidenceEnvelope>)
    ensures forall d :: d in Citations(sha, verified) <==> exists e :: e in verified && CitedFor(sha, e, d)
    ensures (forall e :: e in verified ==> e.artifact.digest != "") ==>
              Citations(sha, verified) == Map(ArtifactDigest(), verified)
  {
    if verified != [] {
      var n := |verified| - 1;
      CitationsExactly(sha, verified[..n]);
      assert verified == verified[..n] + [verified[n]];
      forall d ensures d in Citations(sha, verified) <==> exists e :: e in verified && CitedFor(sha, e, d) {
        var front := verified[..n];
        assert d in Citations(sha, verified) <==> d in Citations(sha, front) || CitedFor(sha, verified[n], d);
        if e :| e in verified && CitedFor(sha, e, d) {
          assert e in front || e == verified[n];
        }
        assert verified[n] in verified && forall e :: e in front ==> e in verified;
      }
      MapSnoc(ArtifactDigest(), verified[..n], verified[n]);
    }
  }

  function ArtifactDigest(): EvidenceEnvelope -> string {
    (e: EvidenceEnvelope) => e.artifact.digest
  }

  /** The evidence root of an evaluation commits to exactly the artifacts it was verified by: two
      lists of envelopes give one root if and only if they cite the same digests equally often. */
  lemma EvaluationRootCommits(sha: Sha, a: seq<EvidenceEnvelope>, b: seq<EvidenceEnvelope>)
    requires forall e :: e in a || e in b ==> e.artifact.digest != "" && '\n' !in e.artifact.digest
    requires var p, q := Map(ArtifactDigest(), a), Map(ArtifactDigest(), b); CollisionFree(sha, {ListText(p), ListText(q)})
    ensures RootOf(sha, Citations(sha, a)) == RootOf(sha, Citations(sha, b)) <==>
            multiset(Map(ArtifactDigest(), a)) == multiset(Map(ArtifactDigest(), b))
  {
    var p, q := Map(ArtifactDigest(), a), Map(ArtifactDigest(), b);
    CitationsExactly(sha, a);
    CitationsExactly(sha, b);
    forall d | d in p || d in q ensures d != "" && '\n' !in d {
      MapMembers(ArtifactDigest(), a, d);
      MapMembers(ArtifactDigest(), b, d);
    }
    ListRootIdentifiesMultiset(sha, p, q);
    assert p != [] ==> p[0] in p;
    assert q != [] ==> q[0] in q;
    DigestShape(sha, ListText(p));
    DigestShape(sha, ListText(q));
    if multiset(p) == multiset(q) {
      SameLength(p, q);
    }
  }

  /** The envelopes a claim is judged on: the fixed source if there is one, else a listing of the
      subject (nothing if the subject is empty or there is no store). */
  ghost predicate IsPool(source: seq<EvidenceEnvelope>, store: Option<StoreState>, subject: SubjectRef,
                         pool: seq<EvidenceEnvelope>)
  {
    if source != [] then pool == source
    else if store.None? || (subject.id == "" && subject.scheme == "") then pool == []
    else Indexed(store.value.index, store.value.envelopes) ==> IsListing(store.value, subject, pool)
  }

  /** The evaluation of a claim from some pool the evaluator may draw: which of several envelopes
      with one ID a listing shows is not determined. */
  ghost predicate JudgedFrom(source: seq<EvidenceEnvelope>, store: Option<StoreState>, sha: Sha, claim: Claim,
                             contract: EvidenceContract, epoch: AssuranceEpoch, now: int, eval: ClaimEvaluation)
  {
    exists pool :: IsPool(source, store, claim.subject, pool) && eval == EvaluationOf(sha, claim, contract, pool, epoch, now)
  }

  /** An evaluation says what was asked about: the claim's subject and control under the epoch and
      time of the evaluation, valid for five minutes. */
  predicate Answers(eval: ClaimEvaluation, claim: Claim, epoch: AssuranceEpoch, now: int) {
    && eval.id == "eval-" + claim.id && eval.control == claim.control && eval.subject == claim.subject
    && eval.epoch == epoch && eval.evaluatedAt == now && eval.validUntil == now + 300_000_000_000
  }

  /** It cites the artifacts of envelopes from the pool that each meet some requirement, and its root
      is that of what they cite. */
  ghost predicate CitesProof(sha: Sha, eval: ClaimEvaluation, contract: EvidenceContract, pool: seq<EvidenceEnvelope>,
                             verified: seq<EvidenceEnvelope>)
  {
    && |eval.evidence| == |verified| && (forall i :: 0 <= i < |verified| ==> eval.evidence[i] == verified[i].artifact)
    && (forall e :: e in verified ==> MeetsOne(contract.requirements, pool, eval.epoch, eval.evaluatedAt, e))
    && eval.evidenceRoot == RootOf(sha, Citations(sha, verified))
  }

  /** What an evaluation drawn from some pool says and cites. */
  lemma EvaluationExactly(source: seq<EvidenceEnvelope>, store: Option<StoreState>, sha: Sha, claim: Claim,
                          contract: EvidenceContract, epoch: AssuranceEpoch, now: int, eval: ClaimEvaluation)
    requires JudgedFrom(source, store, sha, claim, contract, epoch, now, eval)
    ensures Answers(eval, claim, epoch, now)
    ensures exists pool, verified :: IsPool(source, store, claim.subject, pool) && CitesProof(sha, eval, contract, pool, verified)
  {
    var pool :| IsPool(source, store, claim.subject, pool) && eval == EvaluationOf(sha, claim, contract, pool, epoch, now);
    ListsExactly(contract, pool, epoch, now);
    var verified := Evidence.Evaluation(contract, pool, epoch, now).verifiedEvidences;
    assert CitesProof(sha, eval, contract, pool, verified);
  }

  class ContractEvaluator {
    var evidenceSource: seq<EvidenceEnvelope>
    var evidenceRepo: EvidenceRepository?

    constructor (source: seq<EvidenceEnvelope>, repo: EvidenceRepository?)
      ensures evidenceSource == source && evidenceRepo == repo
    {
      evidenceSource, evidenceRepo := source, repo;
    }

    ghost function Repository(): Option<StoreState>
      reads this, evidenceRepo
    {
      if evidenceRepo == null then None else Some(evidenceRepo.State())
    }

    method Evaluate(sha: Sha, claim: Claim, contract: EvidenceContract, epoch: AssuranceEpoch, now: int)
      returns (eval: ClaimEvaluation)
      ensures JudgedFrom(evidenceSource, Repository(), sha, claim, contract, epoch, now, eval)
      ensures Answers(eval, claim, epoch, now)
    {
      var source := evidenceSource;
      if |source| == 0 && evidenceRepo != null {
        var envs := evidenceRepo.ListBySubject(claim.subject);
        if envs.Some? {
          source := envs.value;
        }
      }
      var res := Evidence.Evaluate(contract, source, epoch, now);
      var refs, digests := CollectReferences(sha, res.verifiedEvidences);
      var evidenceRoot := "";
      if |digests| > 0 {
        evidenceRoot := CanonicalDigestList(sha, digests);
      }
      eval := ClaimEvaluation("eval-" + claim.id, claim.control, claim.subject, res.state, epoch, refs, res.completeness,
                              evidenceRoot, now, now + VALIDITY);
      JudgedFromPool(evidenceSource, Repository(), sha, claim, contract, epoch, now, eval, source);
    }
  }

  lemma JudgedFromPool(source: seq<EvidenceEnvelope>, store: Option<StoreState>, sha: Sha, claim: Claim,
                       contract: EvidenceContract, epoch: AssuranceEpoch, now: int, eval: ClaimEvaluation,
                       pool: seq<EvidenceEnvelope>)
    requires IsPool(source, store, claim.subject, pool) && eval == EvaluationOf(sha, claim, contract, pool, epoch, now)
    ensures JudgedFrom(source, store, sha, claim, contract, epoch, now, eval)
  {
  }

  method CollectReferences(sha: Sha, verified: seq<EvidenceEnvelope>)
    returns (refs: seq<EvidenceRef>, digests: seq<string>)
    ensures refs == Map(Artifact(), verified) && digests == Citations(sha, verified)
  {
    refs, digests := [], [];
    for i := 0 to |verified|
      invariant refs == Map(Artifact(), verified)[..i]
      invariant digests == Citations(sha, verified[..i])
    {
      var v := verified[i];
      assert verified[..i + 1][..i] == verified[..i];
      refs := refs + [EvidenceRef(v.artifact.uri, v.artifact.digest, v.artifact.mediaType)];
      if v.artifact.digest != "" {
        digests := digests + [v.artifact.digest];
      } else if v.id != "" {
        digests := digests + [ComputeDigest(sha, v.id)];
      }
    }
    assert verified[..|verified|] == verified;
  }

  // ----- The fold -----

  /** FAILED over UNKNOWN over STALE over ASSURED, whatever the order. Any other verdict (OBSERVED,
      UNSPECIFIED) is passed over. */
  function Worst(states: seq<AssuranceState>): AssuranceState {
    if Failed in states then Failed
    else if Unknown in states then Unknown
    else if Stale in states then Stale
    else Assured
  }

  /** states are the verdicts folded so far. */
  method FoldState(overall: AssuranceState, verdict: AssuranceState, ghost states: seq<AssuranceState>)
    returns (next: AssuranceState)
    requires overall == Worst(states)
    ensures next == Worst(states + [verdict])
  {
    next := overall;
    var evalState := verdict;
    if evalState == Verified {
      evalState := Assured;
    }
    if evalState == Failed {
      next := Failed;
    } else if evalState == Unknown && next != Failed {
      next := Unknown;
    } else if evalState == Stale && next != Failed && next != Unknown {
      next := Stale;
    }
    assert forall s :: s in states + [verdict] <==> s in states || s == verdict;
  }

  lemma WorstPermuted(states: seq<AssuranceState>, perm: seq<AssuranceState>)
    requires multiset(perm) == multiset(states)
    ensures Worst(perm) == Worst(states)
  {
    forall s ensures s in perm <==> s in states {
      assert s in perm <==> s in multiset(perm);
      assert s in states <==> s in multiset(states);
    }
  }

  // ----- Receipts -----

  function IsAssured(): ClaimEvaluation -> bool {
    (e: ClaimEvaluation) => e.state == Assured || e.state == Verified
  }

  function Unsigned(subject: SubjectRef): ClaimEvaluation -> ControlReceipt {
    (e: ClaimEvaluation) =>
      ControlReceipt(subject, e.control, Assured, e.epoch, e.evidenceRoot, AuthorityRef("", "", ""), e.evaluatedAt, "")
  }

  /** The receipts handed to the signer: none unless the whole binding is assured. */
  method GateReceipts(signer: bool, target: AssuranceState, subject: SubjectRef, evaluations: seq<ClaimEvaluation>)
    returns (attempted: seq<ControlReceipt>)
    ensures attempted == if signer && target == Assured then Map(Unsigned(subject), Filter(evaluations, IsAssured())) else []
  {
    attempted := [];
    if signer && target == Assured {
      for i := 0 to |evaluations|
        invariant attempted == Map(Unsigned(subject), Filter(evaluations[..i], IsAssured()))
      {
        assert evaluations[..i + 1][..i] == evaluations[..i];
        var eval := evaluations[i];
        if eval.state != Assured && eval.state != Verified {
          continue;
        }
        var receipt := ControlReceipt(subject, eval.control, Assured, eval.epoch, eval.evidenceRoot,
                                      AuthorityRef("", "", ""), eval.evaluatedAt, "");
        attempted := attempted + [receipt];
      }
      assert evaluations[..|evaluations|] == evaluations;
    }
  }

  // ----- Reconcile -----

  /** The configured evaluator: the repository-backed one, or any other implementation of the port,
      of which only the answers are known (None is an error). */
  datatype Evaluator =
    | Contracts(ce: ContractEvaluator)
    | Other(answer: (Claim, EvidenceContract, AssuranceEpoch) -> Option<ClaimEvaluation>)

  datatype Outcome = Outcome(
    target: AssuranceState,
    evidenceRoot: string,
    evaluations: seq<ClaimEvaluation>,
    errored: bool,
    attempted: seq<ControlReceipt>)

  function ClaimFor(b: ControlBinding, subject: SubjectRef, i: nat): Claim
    requires i < |b.controls|
  {
    var control := ControlRef(b.controls[i].namespace, b.controls[i].id, "");
    Claim("claim-" + b.name + "-" + control.id, subject, control)
  }

  function StateOf(): ClaimEvaluation -> AssuranceState {
    (e: ClaimEvaluation) => e.state
  }

  /** What target and receipts a list of evaluations leads to. */
  ghost predicate Concluded(b: ControlBinding, subject: SubjectRef, signer: bool, o: Outcome) {
    && (if o.errored then o.target == Failed && |o.evaluations| < |b.controls|
        else |o.evaluations| == |b.controls| && o.target == Worst(Map(StateOf(), o.evaluations)))
    && o.evidenceRoot == (if o.evaluations == [] then "" else o.evaluations[|o.evaluations| - 1].evidenceRoot)
    && o.attempted == if signer && o.target == Assured then Map(Unsigned(subject), Filter(o.evaluations, IsAssured())) else []
  }

  predicate Counts(s: AssuranceState) {
    s != Failed && s != Unknown && s != Stale
  }

  ghost predicate Among(o: Outcome, s: AssuranceState) {
    exists e :: e in o.evaluations && e.state == s
  }

  /** Any evaluator's outcome is the worst verdict, an error counting as FAILED: FAILED before UNKNOWN
      before STALE, and ASSURED exactly when there is none of these; other verdicts are passed over. */
  lemma OutcomeAssured(b: ControlBinding, subject: SubjectRef, signs: bool, o: Outcome)
    requires Concluded(b, subject, signs, o)
    ensures o.target == Assured <==> !o.errored && forall e :: e in o.evaluations ==> Counts(e.state)
    ensures o.target == Failed <==> o.errored || Among(o, Failed)
    ensures o.target == Unknown <==> !o.errored && !Among(o, Failed) && Among(o, Unknown)
    ensures o.target == Stale <==> !o.errored && !Among(o, Failed) && !Among(o, Unknown) && Among(o, Stale)
  {
    var states := Map(StateOf(), o.evaluations);
    forall s ensures s in states <==> exists e :: e in o.evaluations && e.state == s {
      MapMembers(StateOf(), o.evaluations, s);
      assert forall e :: StateOf()(e) == e.state;
    }
  }

  /** The order of the controls decides neither the target nor which receipts are attempted. */
  lemma OutcomeOrderFree(b: ControlBinding, b': ControlBinding, subject: SubjectRef, signs: bool, o: Outcome, o': Outcome)
    requires Concluded(b, subject, signs, o) && Concluded(b', subject, signs, o')
    requires o.errored == o'.errored && multiset(o.evaluations) == multiset(o'.evaluations)
    ensures o'.target == o.target && multiset(o'.attempted) == multiset(o.attempted)
  {
    MapPermuted(StateOf(), o.evaluations, o'.evaluations);
    WorstPermuted(Map(StateOf(), o.evaluations), Map(StateOf(), o'.evaluations));
    FilterPermuted(o.evaluations, o'.evaluations, IsAssured());
    MapPermuted(Unsigned(subject), Filter(o.evaluations, IsAssured()), Filter(o'.evaluations, IsAssured()));
  }

  lemma FilterPermuted<T(!new)>(s: seq<T>, t: seq<T>, p: T -> bool)
    requires multiset(s) == multiset(t)
    ensures multiset(Filter(s, p)) == multiset(Filter(t, p))
  {
    forall x ensures multiset(Filter(s, p))[x] == multiset(Filter(t, p))[x] {
      FilterMultiset(s, p, x);
      FilterMultiset(t, p, x);
    }
  }

  /** The evaluations of the repository-backed evaluator for the controls of a binding; clock(i) is
      the time read by the i-th and stores(i) the store it lists, which other callers may have
      changed since the one before. */
  ghost predicate Judged(source: seq<EvidenceEnvelope>, stores: nat -> Option<StoreState>, sha: Sha, b: ControlBinding,
                         subject: SubjectRef, contract: EvidenceContract, epoch: AssuranceEpoch,
                         clock: nat -> int, evaluations: seq<ClaimEvaluation>)
  {
    && |evaluations| <= |b.controls|
    && forall i :: 0 <= i < |evaluations| ==>
         JudgedFrom(source, stores(i), sha, ClaimFor(b, subject, i), contract, epoch, clock(i), evaluations[i])
  }

  /** The store of a run that nothing interrupts. */
  function Always<T>(x: T): nat -> T {
    i => x
  }

  /** statusUpdated is whether writing the binding's status succeeds; if not, the call ends there. */
  method Reconcile(sha: Sha, b: ControlBinding, crd: Option<ContractCrd>, resolver: Option<SubjectResolver>,
                   evaluator: Option<Evaluator>, repo: EvidenceRepository?, signer: bool, statusUpdated: bool, clock: nat -> int)
    returns (o: Outcome)
    modifies if evaluator.Some? && evaluator.value.Contracts? then {evaluator.value.ce} else {}
    ensures evaluator.None? || b.controls == [] ==> o == Outcome(Unknown, "", [], false, [])
    ensures evaluator.Some? && b.controls != [] ==> Concluded(b, SubjectFor(b, resolver), signer && statusUpdated, o)
    ensures evaluator.Some? && b.controls != [] && evaluator.value.Contracts? ==>
              && !o.errored
              && Judged(SourceOf(evaluator.value), Always(StoreOf(evaluator.value)), sha, b, SubjectFor(b, resolver),
                        ContractFor(b, crd), EpochFor(SubjectDigestFor(sha, b, resolver)), clock, o.evaluations)
              && evaluator.value.ce.evidenceSource == old(evaluator.value.ce.evidenceSource)
              && evaluator.value.ce.evidenceRepo == (if old(evaluator.value.ce.evidenceRepo) == null then repo
                                                     else old(evaluator.value.ce.evidenceRepo))
  {
    if evaluator.None? || |b.controls| == 0 {
      return Outcome(Unknown, "", [], false, []);
    }
    var subject := SubjectFor(b, resolver);
    var contract := BuildContract(b, crd);
    var epoch := EpochFor(SubjectDigestFor(sha, b, resolver));
    if evaluator.value.Contracts? && evaluator.value.ce.evidenceRepo == null && repo != null {
      evaluator.value.ce.evidenceRepo := repo;
    }
    o := EvaluateAndSign(sha, b, subject, contract, epoch, evaluator.value, signer, statusUpdated, clock);
  }

  /** The loop over the controls, then the receipts, with the status written in between. */
  method EvaluateAndSign(sha: Sha, b: ControlBinding, subject: SubjectRef, contract: EvidenceContract, epoch: AssuranceEpoch,
                         evaluator: Evaluator, signer: bool, statusUpdated: bool, clock: nat -> int)
    returns (o: Outcome)
    ensures Concluded(b, subject, signer && statusUpdated, o)
    ensures evaluator.Contracts? ==>
              !o.errored && Judged(SourceOf(evaluator), Always(StoreOf(evaluator)), sha, b, subject, contract, epoch, clock,
                                   o.evaluations)
  {
    o := EvaluateControls(sha, b, subject, contract, epoch, evaluator, clock);
    if !statusUpdated {
      return;
    }
    var attempted := GateReceipts(signer, o.target, subject, o.evaluations);
    o := o.(attempted := attempted);
  }

  /** The loop over the controls: evaluate, remember, fold; an error fails the binding and stops. */
  method EvaluateControls(sha: Sha, b: ControlBinding, subject: SubjectRef, contract: EvidenceContract, epoch: AssuranceEpoch,
                          evaluator: Evaluator, clock: nat -> int)
    returns (o: Outcome)
    ensures Concluded(b, subject, false, o)
    ensures evaluator.Contracts? ==>
              !o.errored &&
              Judged(SourceOf(evaluator), Always(StoreOf(evaluator)), sha, b, subject, contract, epoch, clock, o.evaluations)
  {
    ghost var source, store := SourceOf(evaluator), StoreOf(evaluator);
    var overall, evidenceRoot, evaluations := Assured, "", [];
    for i := 0 to |b.controls|
      invariant |evaluations| == i && Folded(evaluations, overall, evidenceRoot)
      invariant evaluator.Contracts? ==> Judged(source, Always(store), sha, b, subject, contract, epoch, clock, evaluations)
    {
      var eval := AskNext(evaluator, sha, b, subject, contract, epoch, clock, evaluations);
      if eval.None? {
        return Outcome(Failed, evidenceRoot, evaluations, true, []);
      }
      overall, evidenceRoot := FoldEvaluation(evaluations, overall, evidenceRoot, eval.value);
      evaluations := evaluations + [eval.value];
    }
    o := Outcome(overall, evidenceRoot, evaluations, false, []);
  }

  /** What the loop has folded its evaluations into. */
  ghost predicate Folded(evaluations: seq<ClaimEvaluation>, overall: AssuranceState, evidenceRoot: string) {
    && overall == Worst(Map(StateOf(), evaluations))
    && evidenceRoot == if evaluations == [] then "" else evaluations[|evaluations| - 1].evidenceRoot
  }

  method FoldEvaluation(ghost evaluations: seq<ClaimEvaluation>, overall: AssuranceState, evidenceRoot: string,
                        eval: ClaimEvaluation)
    returns (next: AssuranceState, root: string)
    requires Folded(evaluations, overall, evidenceRoot)
    ensures Folded(evaluations + [eval], next, root)
  {
    root := eval.evidenceRoot;
    next := FoldState(overall, eval.state, Map(StateOf(), evaluations));
    MapSnoc(StateOf(), evaluations, eval);
  }

  lemma JudgedOneMore(source: seq<EvidenceEnvelope>, stores: nat -> Option<StoreState>, sha: Sha, b: ControlBinding,
                      subject: SubjectRef, contract: EvidenceContract, epoch: AssuranceEpoch,
                      clock: nat -> int, evaluations: seq<ClaimEvaluation>, eval: ClaimEvaluation)
    requires Judged(source, stores, sha, b, subject, contract, epoch, clock, evaluations) && |evaluations| < |b.controls|
    requires JudgedFrom(source, stores(|evaluations|), sha, ClaimFor(b, subject, |evaluations|), contract, epoch,
                        clock(|evaluations|), eval)
    ensures Judged(source, stores, sha, b, subject, contract, epoch, clock, evaluations + [eval])
  {
  }

  ghost function SourceOf(evaluator: Evaluator): seq<EvidenceEnvelope>
    reads if evaluator.Contracts? then {evaluator.ce} else {}
  {
    if evaluator.Contracts? then evaluator.ce.evidenceSource else []
  }

  ghost function StoreOf(evaluator: Evaluator): Option<StoreState>
    reads if evaluator.Contracts? then {evaluator.ce} else {}
    reads if evaluator.Contracts? && evaluator.ce.evidenceRepo != null then {evaluator.ce.evidenceRepo} else {}
  {
    if evaluator.Contracts? then evaluator.ce.Repository() else None
  }

  /** The evaluation of the next control. */
  method AskNext(evaluator: Evaluator, sha: Sha, b: ControlBinding, subject: SubjectRef, contract: EvidenceContract,
                 epoch: AssuranceEpoch, clock: nat -> int, evaluations: seq<ClaimEvaluation>)
    returns (eval: Option<ClaimEvaluation>)
    requires |evaluations| < |b.controls|
    requires evaluator.Contracts? ==>
               Judged(SourceOf(evaluator), Always(StoreOf(evaluator)), sha, b, subject, contract, epoch, clock, evaluations)
    ensures evaluator.Contracts? ==>
              eval.Some? &&
              Judged(SourceOf(evaluator), Always(StoreOf(evaluator)), sha, b, subject, contract, epoch, clock,
                     evaluations + [eval.value])
  {
    var i := |evaluations|;
    eval := Ask(evaluator, sha, ClaimFor(b, subject, i), contract, epoch, clock(i));
    if evaluator.Contracts? {
      JudgedOneMore(SourceOf(evaluator), Always(StoreOf(evaluator)), sha, b, subject, contract, epoch, clock, evaluations,
                    eval.value);
    }
  }

  /** The call through the evaluator port. */
  method Ask(evaluator: Evaluator, sha: Sha, claim: Claim, contract: EvidenceContract, epoch: AssuranceEpoch, now: int)
    returns (eval: Option<ClaimEvaluation>)
    ensures evaluator.Contracts? ==>
              eval.Some? && JudgedFrom(SourceOf(evaluator), StoreOf(evaluator), sha, claim, contract, epoch, now, eval.value)
    ensures evaluator.Other? ==> eval == evaluator.answer(claim, contract, epoch)
  {
    match evaluator
    case Contracts(ce) =>
      var e := ce.Evaluate(sha, claim, contract, epoch, now);
      eval := Some(e);
    case Other(answer) =>
      eval := answer(claim, contract, epoch);
  }

  // ----- No assurance without evidence -----

  /** What a binding asks for: evidence of a type, from certain producers, of a certain age at most. */
  datatype Demand = Demand(evidenceType: string, acceptedProducers: seq<string>, maxAge: int)

  /** The demands of a binding are the required requirements of the fetched contract, each with its
      own producers and freshness; without one, it is admission evidence of the last 24 hours. */
  ghost predicate Demands(b: ControlBinding, crd: Option<ContractCrd>, d: Demand) {
    if Fetched(b, crd) then exists cr :: cr in crd.value.requirements && DemandedBy(cr, d)
    else b.requirements != [] && d == Demand("admission", [], 86_400_000_000_000)
  }

  predicate DemandedBy(cr: CrdRequirement, d: Demand) {
    && cr.required && d.evidenceType == cr.evidenceType && d.acceptedProducers == cr.acceptedProducers
    && d.maxAge == if cr.freshness > 0 then cr.freshness else 86_400_000_000_000
  }

  function DemandOf(r: EvidenceRequirement): Demand {
    Demand(r.evidenceType, r.acceptedProducers, r.maxAge)
  }

  lemma DemandsExactly(b: ControlBinding, crd: Option<ContractCrd>, d: Demand)
    ensures Demands(b, crd, d) <==> exists r :: r in ContractFor(b, crd).requirements && r.required && DemandOf(r) == d
  {
    var reqs := ContractFor(b, crd).requirements;
    ContractExactly(b, crd);
    if Fetched(b, crd) {
      FetchedDemands(reqs, crd.value.requirements, d);
    } else {
      AdmissionDemands(reqs, b.requirements, d);
    }
  }

  lemma AdmissionDemands(reqs: seq<EvidenceRequirement>, brs: seq<BindingRequirement>, d: Demand)
    requires |reqs| == |brs| && forall i :: 0 <= i < |brs| ==> AdmissionFor(reqs[i], brs[i])
    ensures brs != [] && d == Demand("admission", [], 86_400_000_000_000) <==>
            exists r :: r in reqs && r.required && DemandOf(r) == d
  {
    if brs != [] {
      assert AdmissionFor(reqs[0], brs[0]) && reqs[0] in reqs;
    }
    forall r | r in reqs ensures brs != [] && DemandOf(r) == Demand("admission", [], 86_400_000_000_000) {
      var i :| 0 <= i < |reqs| && reqs[i] == r;
      assert AdmissionFor(reqs[i], brs[i]);
    }
  }

  lemma FetchedDemands(reqs: seq<EvidenceRequirement>, crs: seq<CrdRequirement>, d: Demand)
    requires |reqs| == |crs| && forall i :: 0 <= i < |crs| ==> TakesRequirement(reqs[i], crs[i])
    ensures (exists cr :: cr in crs && DemandedBy(cr, d)) <==> exists r :: r in reqs && r.required && DemandOf(r) == d
  {
    if cr :| cr in crs && DemandedBy(cr, d) {
      var i :| 0 <= i < |crs| && crs[i] == cr;
      assert TakesRequirement(reqs[i], crs[i]) && reqs[i] in reqs;
    }
    if r :| r in reqs && r.required && DemandOf(r) == d {
      var i :| 0 <= i < |reqs| && reqs[i] == r;
      assert TakesRequirement(reqs[i], crs[i]) && crs[i] in crs;
    }
  }

  /** A stored envelope proves a demand about the subject at a time: it is related to the subject, of
      the type, from a producer on the list, captured under the subject's digest, and not too old. */
  ghost predicate Proves(s: StoreState, subject: SubjectRef, digest: string, d: Demand, now: int, e: EvidenceEnvelope) {
    e in s.envelopes.Values && Related(e.subject, subject) && Supports(digest, d, now, e)
  }

  ghost predicate Supports(digest: string, d: Demand, now: int, e: EvidenceEnvelope) {
    && TypesAgree(e.observationType, d.evidenceType) && ProducerAllowed(d.acceptedProducers, e.producer.Canonical())
    && e.epoch.subjectDigest == digest && e.capturedAt <= now <= e.capturedAt + d.maxAge
  }

  /** There is some demand, and each is proven. */
  ghost predicate Proven(s: StoreState, subject: SubjectRef, digest: string, b: ControlBinding, crd: Option<ContractCrd>,
                         now: int)
  {
    && (exists d :: Demands(b, crd, d))
    && forall d :: Demands(b, crd, d) ==> exists e :: Proves(s, subject, digest, d, now, e)
  }

  lemma MeetingProves(s: StoreState, subject: SubjectRef, digest: string, r: EvidenceRequirement,
                      pool: seq<EvidenceEnvelope>, now: int, e: EvidenceEnvelope)
    requires IsListing(s, subject, pool) && e in pool && Meets(r, e, EpochFor(digest), now) && digest != "" && r.maxAge > 0
    ensures Proves(s, subject, digest, DemandOf(r), now, e)
  {
    ListingExactly(s, subject, pool);
    MeetingSupports(digest, r, now, e);
  }

  lemma MeetingSupports(digest: string, r: EvidenceRequirement, now: int, e: EvidenceEnvelope)
    requires Meets(r, e, EpochFor(digest), now) && digest != "" && r.maxAge > 0
    ensures Supports(digest, DemandOf(r), now, e)
  {
    assert Dimension(EpochFor(digest), SubjectDrift) == digest && Dimension(e.epoch, SubjectDrift) == e.epoch.subjectDigest;
  }

  lemma VerifiedListingProves(s: StoreState, subject: SubjectRef, digest: string, b: ControlBinding, crd: Option<ContractCrd>,
                              pool: seq<EvidenceEnvelope>, now: int)
    requires Indexed(s.index, s.envelopes) && IsPool([], Some(s), subject, pool) && digest != ""
    requires Evidence.Evaluation(ContractFor(b, crd), pool, EpochFor(digest), now).state == Verified
    ensures Proven(s, subject, digest, b, crd, now)
  {
    var contract := ContractFor(b, crd);
    ContractIsStrict(b, crd);
    VerificationWindow(contract, pool, EpochFor(digest), now);
    forall d | Demands(b, crd, d) ensures exists e :: Proves(s, subject, digest, d, now, e) {
      DemandsExactly(b, crd, d);
      var r :| r in contract.requirements && r.required && DemandOf(r) == d;
      var e :| e in pool && Meets(r, e, EpochFor(digest), now);
      MeetingProves(s, subject, digest, r, pool, now, e);
    }
    var r :| r in contract.requirements && r.required;
    DemandsExactly(b, crd, DemandOf(r));
  }

  lemma StrictVerdict(contract: EvidenceContract, pool: seq<EvidenceEnvelope>, epoch: AssuranceEpoch, now: int)
    requires Strict(contract)
    ensures Evidence.Evaluation(contract, pool, epoch, now).state in {Verified, Stale, Unknown, Failed}
  {
  }

  lemma DigestNeverEmpty(sha: Sha, b: ControlBinding, resolver: Option<SubjectResolver>)
    ensures SubjectDigestFor(sha, b, resolver) != ""
  {
    var text := SubjectFor(b, resolver).URI();
    assert ComputeDigest(sha, text)[..7] == "sha256:";
  }

  /** End to end: an ASSURED outcome of the repository-backed evaluator means there is at least one
      demand, and for each control every demand of the binding is proven by an envelope related to the
      subject, of the type, from a listed producer, under the subject's digest and not too old, which
      was stored when that control was judged. */
  lemma AssuredIsProven(stores: nat -> Option<StoreState>, sha: Sha, b: ControlBinding, crd: Option<ContractCrd>,
                        resolver: Option<SubjectResolver>, clock: nat -> int, evaluations: seq<ClaimEvaluation>, i: nat)
    requires i < |evaluations| && stores(i).Some? && Indexed(stores(i).value.index, stores(i).value.envelopes)
    requires Worst(Map(StateOf(), evaluations)) == Assured
    requires Judged([], stores, sha, b, SubjectFor(b, resolver), ContractFor(b, crd),
                    EpochFor(SubjectDigestFor(sha, b, resolver)), clock, evaluations)
    ensures Proven(stores(i).value, SubjectFor(b, resolver), SubjectDigestFor(sha, b, resolver), b, crd, clock(i))
  {
    var subject, digest, contract := SubjectFor(b, resolver), SubjectDigestFor(sha, b, resolver), ContractFor(b, crd);
    AllVerified([], stores, sha, b, crd, subject, EpochFor(digest), clock, evaluations);
    DigestNeverEmpty(sha, b, resolver);
    var pool :| IsPool([], stores(i), subject, pool) &&
                evaluations[i] == EvaluationOf(sha, ClaimFor(b, subject, i), contract, pool, EpochFor(digest), clock(i));
    VerifiedListingProves(stores(i).value, subject, digest, b, crd, pool, clock(i));
  }

  /** The same for an evaluator with a fixed evidence source, which it reads instead of the store: the
      proof is in the source. */
  lemma AssuredOnSource(source: seq<EvidenceEnvelope>, stores: nat -> Option<StoreState>, sha: Sha, b: ControlBinding,
                        crd: Option<ContractCrd>, subject: SubjectRef, digest: string, clock: nat -> int,
                        evaluations: seq<ClaimEvaluation>, i: nat, d: Demand)
    requires source != [] && digest != "" && i < |evaluations| && Worst(Map(StateOf(), evaluations)) == Assured
    requires Judged(source, stores, sha, b, subject, ContractFor(b, crd), EpochFor(digest), clock, evaluations)
    requires Demands(b, crd, d)
    ensures exists e :: e in source && Supports(digest, d, clock(i), e)
  {
    var contract := ContractFor(b, crd);
    AllVerified(source, stores, sha, b, crd, subject, EpochFor(digest), clock, evaluations);
    ContractIsStrict(b, crd);
    var pool :| IsPool(source, stores(i), subject, pool) &&
                evaluations[i] == EvaluationOf(sha, ClaimFor(b, subject, i), contract, pool, EpochFor(digest), clock(i));
    VerificationWindow(contract, source, EpochFor(digest), clock(i));
    DemandsExactly(b, crd, d);
    var r :| r in contract.requirements && r.required && DemandOf(r) == d;
    var e :| e in source && Meets(r, e, EpochFor(digest), clock(i));
    MeetingSupports(digest, r, clock(i), e);
  }

  /** An ASSURED outcome for a binding of n controls has proven all n of them. */
  lemma AssuredControlsProven(stores: nat -> Option<StoreState>, sha: Sha, b: ControlBinding, crd: Option<ContractCrd>,
                              resolver: Option<SubjectResolver>, signs: bool, clock: nat -> int, o: Outcome, i: nat)
    requires Concluded(b, SubjectFor(b, resolver), signs, o) && o.target == Assured && i < |b.controls|
    requires stores(i).Some? && Indexed(stores(i).value.index, stores(i).value.envelopes)
    requires Judged([], stores, sha, b, SubjectFor(b, resolver), ContractFor(b, crd),
                    EpochFor(SubjectDigestFor(sha, b, resolver)), clock, o.evaluations)
    ensures Proven(stores(i).value, SubjectFor(b, resolver), SubjectDigestFor(sha, b, resolver), b, crd, clock(i))
  {
    AssuredIsProven(stores, sha, b, crd, resolver, clock, o.evaluations, i);
  }

  /** Every control of a binding is proven on one store. */
  ghost predicate AllProven(s: StoreState, sha: Sha, b: ControlBinding, crd: Option<ContractCrd>,
                            resolver: Option<SubjectResolver>, clock: nat -> int)
  {
    forall i :: 0 <= i < |b.controls| ==>
      Proven(s, SubjectFor(b, resolver), SubjectDigestFor(sha, b, resolver), b, crd, clock(i))
  }

  /** Reconciling against a repository, with what ASSURED then means: there are controls, and each is
      proven by what the repository holds. */
  method ReconcileStored(sha: Sha, b: ControlBinding, crd: Option<ContractCrd>, resolver: Option<SubjectResolver>,
                         repo: EvidenceRepository, signer: bool, statusUpdated: bool, clock: nat -> int)
    returns (o: Outcome)
    requires Indexed(repo.subjectIndex, repo.envelopes)
    ensures o.target == Assured ==> b.controls != [] && AllProven(repo.State(), sha, b, crd, resolver, clock)
    ensures |o.attempted| == if signer && statusUpdated && o.target == Assured then |b.controls| else 0
  {
    var ce := new ContractEvaluator([], repo);
    o := Reconcile(sha, b, crd, resolver, Some(Contracts(ce)), repo, signer, statusUpdated, clock);
    if b.controls != [] {
      StoredOutcome(repo.State(), sha, b, crd, resolver, signer, statusUpdated, clock, o);
    }
  }

  lemma StoredOutcome(s: StoreState, sha: Sha, b: ControlBinding, crd: Option<ContractCrd>, resolver: Option<SubjectResolver>,
                      signer: bool, statusUpdated: bool, clock: nat -> int, o: Outcome)
    requires Indexed(s.index, s.envelopes) && Concluded(b, SubjectFor(b, resolver), signer && statusUpdated, o)
    requires Judged([], Always(Some(s)), sha, b, SubjectFor(b, resolver), ContractFor(b, crd),
                    EpochFor(SubjectDigestFor(sha, b, resolver)), clock, o.evaluations)
    ensures o.target == Assured ==> AllProven(s, sha, b, crd, resolver, clock)
    ensures |o.attempted| == if signer && statusUpdated && o.target == Assured then |b.controls| else 0
  {
    var subject, epoch := SubjectFor(b, resolver), EpochFor(SubjectDigestFor(sha, b, resolver));
    ReceiptsOncePerControl([], Always(Some(s)), sha, b, crd, subject, epoch, signer, statusUpdated, clock, o);
    if o.target == Assured {
      forall i | 0 <= i < |b.controls|
        ensures Proven(s, subject, SubjectDigestFor(sha, b, resolver), b, crd, clock(i))
      {
        AssuredControlsProven(Always(Some(s)), sha, b, crd, resolver, signer && statusUpdated, clock, o, i);
      }
    }
  }

  /** Receipts are attempted only by a signer, for an ASSURED whole whose status was written, and
      then exactly once per control, in order; so never more than once. */
  lemma ReceiptsOncePerControl(source: seq<EvidenceEnvelope>, stores: nat -> Option<StoreState>, sha: Sha, b: ControlBinding,
                               crd: Option<ContractCrd>, subject: SubjectRef, epoch: AssuranceEpoch,
                               signer: bool, statusUpdated: bool, clock: nat -> int, o: Outcome)
    requires Concluded(b, subject, signer && statusUpdated, o)
    requires Judged(source, stores, sha, b, subject, ContractFor(b, crd), epoch, clock, o.evaluations)
    ensures !(signer && statusUpdated && o.target == Assured) ==> o.attempted == []
    ensures signer && statusUpdated && o.target == Assured ==>
              && |o.attempted| == |o.evaluations| == |b.controls|
              && forall i :: 0 <= i < |b.controls| ==> Attests(o.attempted[i], subject, o.evaluations[i])
  {
    if o.target == Assured {
      AllVerified(source, stores, sha, b, crd, subject, epoch, clock, o.evaluations);
      FilterAll(o.evaluations, IsAssured());
      UnsignedAttests(subject, o.evaluations);
    }
  }

  lemma UnsignedAttests(subject: SubjectRef, evaluations: seq<ClaimEvaluation>)
    ensures var receipts := Map(Unsigned(subject), evaluations);
            |receipts| == |evaluations| && forall i :: 0 <= i < |receipts| ==> Attests(receipts[i], subject, evaluations[i])
  {
  }

  /** The receipt says of the subject what the evaluation found: the control is ASSURED, under the
      epoch, with the evidence root and at the time of the evaluation. It is not signed yet. */
  predicate Attests(r: ControlReceipt, subject: SubjectRef, e: ClaimEvaluation) {
    && r.subject == subject && r.control == e.control && r.state == Assured && r.epoch == e.epoch
    && r.evidenceRoot == e.evidenceRoot && r.evaluatedAt == e.evaluatedAt && r.signature == ""
  }

  /** With any evaluator: whatever is attempted attests an evaluation that is ASSURED or VERIFIED, and
      with a signer and the status written every such evaluation of an ASSURED whole is attested. */
  lemma ReceiptsAttest(b: ControlBinding, subject: SubjectRef, signs: bool, o: Outcome)
    requires Concluded(b, subject, signs, o)
    ensures forall r :: r in o.attempted ==>
              signs && o.target == Assured &&
              exists e :: e in o.evaluations && (e.state == Assured || e.state == Verified) && Attests(r, subject, e)
    ensures signs && o.target == Assured ==>
              forall e :: e in o.evaluations && (e.state == Assured || e.state == Verified) ==>
                exists r :: r in o.attempted && Attests(r, subject, e)
  {
    var kept := Filter(o.evaluations, IsAssured());
    forall r | r in o.attempted
      ensures exists e :: e in o.evaluations && (e.state == Assured || e.state == Verified) && Attests(r, subject, e)
    {
      MapMembers(Unsigned(subject), kept, r);
      var e :| e in kept && Unsigned(subject)(e) == r;
      FilterMembers(o.evaluations, IsAssured(), e);
      assert Attests(r, subject, e);
    }
    if signs && o.target == Assured {
      forall e | e in o.evaluations && (e.state == Assured || e.state == Verified)
        ensures exists r :: r in o.attempted && Attests(r, subject, e)
      {
        FilterMembers(o.evaluations, IsAssured(), e);
        MapMembers(Unsigned(subject), kept, Unsigned(subject)(e));
        assert Attests(Unsigned(subject)(e), subject, e);
      }
    }
  }

  /** Each control of a binding gets its own evaluation, about the binding's subject. */
  lemma EachControlEvaluated(source: seq<EvidenceEnvelope>, stores: nat -> Option<StoreState>, sha: Sha, b: ControlBinding,
                             subject: SubjectRef, contract: EvidenceContract, epoch: AssuranceEpoch,
                             clock: nat -> int, evaluations: seq<ClaimEvaluation>, i: nat)
    requires Judged(source, stores, sha, b, subject, contract, epoch, clock, evaluations) && i < |evaluations|
    ensures evaluations[i].control == ControlRef(b.controls[i].namespace, b.controls[i].id, "")
    ensures evaluations[i].subject == subject && evaluations[i].epoch == epoch && evaluations[i].evaluatedAt == clock(i)
  {
    EvaluationExactly(source, stores(i), sha, ClaimFor(b, subject, i), contract, epoch, clock(i), evaluations[i]);
  }

  lemma AllVerified(source: seq<EvidenceEnvelope>, stores: nat -> Option<StoreState>, sha: Sha, b: ControlBinding,
                    crd: Option<ContractCrd>, subject: SubjectRef, epoch: AssuranceEpoch,
                    clock: nat -> int, evaluations: seq<ClaimEvaluation>)
    requires Judged(source, stores, sha, b, subject, ContractFor(b, crd), epoch, clock, evaluations)
    requires Worst(Map(StateOf(), evaluations)) == Assured
    ensures forall i :: 0 <= i < |evaluations| ==> evaluations[i].state == Verified
  {
    ContractIsStrict(b, crd);
    var states := Map(StateOf(), evaluations);
    forall i | 0 <= i < |evaluations| ensures evaluations[i].state == Verified {
      assert JudgedFrom(source, stores(i), sha, ClaimFor(b, subject, i), ContractFor(b, crd), epoch, clock(i), evaluations[i]);
      var pool :| IsPool(source, stores(i), subject, pool) &&
                  evaluations[i] == EvaluationOf(sha, ClaimFor(b, subject, i), ContractFor(b, crd), pool, epoch, clock(i));
      StrictVerdict(ContractFor(b, crd), pool, epoch, clock(i));
      assert states[i] in states;
    }
  }

  lemma {:induction false} FilterAll<T>(s: seq<T>, p: T -> bool)
    requires forall i :: 0 <= i < |s| ==> p(s[i])
    ensures Filter(s, p) == s
  {
    if s != [] {
      FilterAll(s[..|s| - 1], p);
    }
  }
}
