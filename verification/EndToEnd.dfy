/** What the parts give together: an assured binding rests on evidence that was put into the store
    and not pruned since, and a verdict survives an air-gap transfer. */
module EndToEnd {
  import opened Seqs
  import opened Digests
  import opened Lifecycle
  import opened Records
  import opened Evidence
  import opened Store
  import opened Airgap
  import opened Reconcile

  /** No assurance without evidence, down to the operations on the store: if a binding is found
      ASSURED on a store that other callers put into and prune, then for each control every demand of
      the binding is proven by an envelope that was put and not pruned before that control was
      judged, after the first k operations. */
  lemma AssuredRestsOnHistory(c: Codec, states: seq<StoreState>, ops: seq<Op>, stores: nat -> Option<StoreState>,
                              b: ControlBinding, crd: Option<ContractCrd>, resolver: Option<SubjectResolver>,
                              clock: nat -> int, evaluations: seq<ClaimEvaluation>, i: nat, k: nat, d: Demand)
    requires History(c, states, ops) && Distinguishes(c, PutEnvelopes(ops))
    requires Worst(Map(StateOf(), evaluations)) == Assured && i < |evaluations|
    requires k <= |ops| && stores(i) == Some(states[k])
    requires Judged([], stores, c.sha, b, SubjectFor(b, resolver), ContractFor(b, crd),
                    EpochFor(SubjectDigestFor(c.sha, b, resolver)), clock, evaluations)
    requires Demands(b, crd, d)
    ensures exists e :: Survives(ops[..k], e) &&
                        Proves(states[k], SubjectFor(b, resolver), SubjectDigestFor(c.sha, b, resolver), d, clock(i), e)
  {
    var subject, digest := SubjectFor(b, resolver), SubjectDigestFor(c.sha, b, resolver);
    HistoryUpTo(c, states, ops, k);
    AssuredIsProven(stores, c.sha, b, crd, resolver, clock, evaluations, i);
    var e :| Proves(states[k], subject, digest, d, clock(i), e);
    assert Survives(ops[..k], e);
  }

  lemma HistoryUpTo(c: Codec, states: seq<StoreState>, ops: seq<Op>, k: nat)
    requires History(c, states, ops) && Distinguishes(c, PutEnvelopes(ops)) && k <= |ops|
    ensures Valid(c, states[k])
    ensures forall e :: e in states[k].envelopes.Values <==> Survives(ops[..k], e)
  {
    assert PutEnvelopes(ops[..k]) <= PutEnvelopes(ops);
    DistinguishesSubset(c, PutEnvelopes(ops[..k]), PutEnvelopes(ops));
    StoreIsItsHistory(c, states[..k + 1], ops[..k]);
  }

  /** Among the envelopes that match a subject, those exported share their ID with no other. */
  ghost predicate OwnIDs(s: StoreState, subject: SubjectRef, exported: seq<EvidenceEnvelope>) {
    forall e, f :: e in exported && f in s.envelopes.Values && MatchSubject(f.subject, subject) && e.id == f.id ==> e == f
  }

  /** Everything exported is in the importing store's listing of its subject. */
  lemma ListingHoldsImports(c: Codec, source: StoreState, target: StoreState, envelopes: seq<EvidenceEnvelope>,
                            subject: SubjectRef, r: seq<EvidenceEnvelope>)
    requires Valid(c, source) && Valid(c, target) && Distinguishes(c, target.envelopes.Values + AsSet(envelopes))
    requires CollisionFree(c.sha, Contents(source.blobs) + PutTexts(c, target, envelopes, BundledBlobs(envelopes, source.blobs)))
    requires forall e :: e in envelopes ==> MatchSubject(e.subject, subject)
    requires var after := PutAll(c, target, envelopes, BundledBlobs(envelopes, source.blobs));
             OwnIDs(after, subject, envelopes) && IsListing(after, subject, r)
    ensures forall e :: e in envelopes ==> e in r
  {
    var after := PutAll(c, target, envelopes, BundledBlobs(envelopes, source.blobs));
    TransferPreserves(c, source, target, envelopes);
    forall e | e in envelopes ensures e in r {
      ListingHolds(after, subject, envelopes, r, e);
    }
  }

  lemma ListingHolds(s: StoreState, subject: SubjectRef, exported: seq<EvidenceEnvelope>, r: seq<EvidenceEnvelope>,
                     e: EvidenceEnvelope)
    requires OwnIDs(s, subject, exported) && IsListing(s, subject, r)
    requires e in exported && e in s.envelopes.Values && MatchSubject(e.subject, subject)
    ensures e in r
  {
    var d :| d in s.envelopes && s.envelopes[d] == e;
    assert e.id in ScanIDs(s, subject);
    var x :| x in r && x.id == e.id;
  }

  /** A verdict survives the air gap: whatever a contract makes of a subject's exported envelopes at
      some epoch and time, it makes no less of what the importing store lists for that subject. */
  lemma TransferKeepsVerdict(c: Codec, source: StoreState, target: StoreState, envelopes: seq<EvidenceEnvelope>,
                             subject: SubjectRef, r: seq<EvidenceEnvelope>,
                             contract: EvidenceContract, epoch: AssuranceEpoch, now: int)
    requires Valid(c, source) && Valid(c, target) && Distinguishes(c, target.envelopes.Values + AsSet(envelopes))
    requires CollisionFree(c.sha, Contents(source.blobs) + PutTexts(c, target, envelopes, BundledBlobs(envelopes, source.blobs)))
    requires forall e :: e in envelopes ==> MatchSubject(e.subject, subject)
    requires var after := PutAll(c, target, envelopes, BundledBlobs(envelopes, source.blobs));
             OwnIDs(after, subject, envelopes) && IsListing(after, subject, r)
    ensures var exported := Evidence.Evaluation(contract, envelopes, epoch, now);
            var imported := Evidence.Evaluation(contract, r, epoch, now);
            && Grade(exported.completeness) <= Grade(imported.completeness)
            && (exported.completeness.IsComplete() ==> imported.state == Verified)
  {
    ListingHoldsImports(c, source, target, envelopes, subject, r);
    MoreEvidence(contract, envelopes, r, epoch, now);
  }
}
