/** Projection of evaluations and findings into OSCAL Assessment Results: observations that cite
    back-matter resources, and findings that cite observations. */
module Oscal {
  import opened Text
  import opened Seqs
  import opened Records

  datatype Resource = Resource(uuid: string, digest: string, uri: string, mediaType: string)

  /** hrefs are the links to back-matter resources, one per cited evidence. */
  datatype Observation = Observation(uuid: string, title: string, hrefs: seq<string>)

  datatype Finding = Finding(control: ControlRef, title: string)

  datatype ProjectedFinding = ProjectedFinding(uuid: string, title: string, targetId: string, related: seq<string>)

  datatype Document = Document(observations: seq<Observation>, findings: seq<ProjectedFinding>, resources: seq<Resource>)

  // ----- What a projection is -----

  function TitleFor(control: ControlRef): string {
    "Observation for " + control.Canonical()
  }

  function HrefTo(uuid: string): string {
    "#" + uuid
  }

  /** All evidence of the evaluations, in the order it is visited. */
  function AllEvidence(evaluations: seq<ClaimEvaluation>): seq<EvidenceRef> {
    if evaluations == [] then []
    else AllEvidence(evaluations[..|evaluations| - 1]) + evaluations[|evaluations| - 1].evidence
  }

  function FirstWith(refs: seq<EvidenceRef>, digest: string): Option<EvidenceRef> {
    if refs == [] then None
    else
      var before := FirstWith(refs[..|refs| - 1], digest);
      if before.Some? then before
      else if refs[|refs| - 1].digest == digest then Some(refs[|refs| - 1])
      else None
  }

  function ResourceFor(uuid: string, ref: EvidenceRef): Resource {
    Resource(uuid, ref.digest, ref.uri, ref.mediaType)
  }

  /** The back matter under construction: one UUID and one resource per digest seen, described by
      the first evidence that cited it. */
  ghost predicate Covers(uuids: map<string, string>, resources: map<string, Resource>, seen: seq<EvidenceRef>) {
    && (forall d :: d in uuids <==> FirstWith(seen, d).Some?)
    && (forall d :: d in resources <==> d in uuids)
    && (forall d :: d in uuids ==> FirstWith(seen, d).Some? && FirstWith(seen, d).value.digest == d &&
                                   resources[d] == ResourceFor(uuids[d], FirstWith(seen, d).value))
  }

  function Concerns(control: ControlRef): Observation -> bool {
    (o: Observation) => Contains(o.title, control.Canonical()) || Contains(o.title, control.id)
  }

  function UuidOf(): Observation -> string {
    (o: Observation) => o.uuid
  }

  /** The observations a finding links to: those whose title names its control, or else the first. */
  function RelatedTo(observations: seq<Observation>, control: ControlRef): seq<string> {
    var named := Map(UuidOf(), Filter(observations, Concerns(control)));
    if named == [] && observations != [] then [observations[0].uuid] else named
  }

  function FindingFor(uuid: string, observations: seq<Observation>, f: Finding): ProjectedFinding {
    ProjectedFinding(uuid, f.title, f.control.id, RelatedTo(observations, f.control))
  }

  ghost predicate Observes(o: Observation, e: ClaimEvaluation, uuids: map<string, string>) {
    o.title == TitleFor(e.control) && Cites(o.hrefs, e.evidence, uuids)
  }

  /** doc projects the evaluations and findings, with uuids naming the resource of each digest. */
  ghost predicate Projects(doc: Document, evaluations: seq<ClaimEvaluation>, findings: seq<Finding>,
                           uuids: map<string, string>)
  {
    && AllObserve(doc.observations, evaluations, uuids) && |doc.findings| == |findings|
    && (forall k :: 0 <= k < |findings| ==>
          doc.findings[k] == FindingFor(doc.findings[k].uuid, doc.observations, findings[k]))
    && (forall d :: d in uuids <==> FirstWith(AllEvidence(evaluations), d).Some?)
    && (forall i, j :: 0 <= i < j < |doc.resources| ==> doc.resources[i].digest != doc.resources[j].digest)
    && (forall r :: r in doc.resources ==>
          r.digest in uuids && FirstWith(AllEvidence(evaluations), r.digest) .Some? &&
          r == ResourceFor(uuids[r.digest], FirstWith(AllEvidence(evaluations), r.digest).value))
    && (forall d :: d in uuids ==> exists r :: r in doc.resources && r.digest == d)
  }

  ghost predicate Distinct(uuid: nat -> string) {
    forall i, j :: i != j ==> uuid(i) != uuid(j)
  }

  ghost predicate Injective(uuids: map<string, string>) {
    forall d, e :: d in uuids && e in uuids && d != e ==> uuids[d] != uuids[e]
  }

  /** u is one of the first n generated UUIDs. */
  ghost predicate Drawn(uuid: nat -> string, n: nat, u: string) {
    exists k: nat :: k < n && u == uuid(k)
  }

  /** The UUIDs given to resources and to observations so far were generated before next; if the
      generator never repeats itself, they differ. */
  ghost predicate Issued(uuid: nat -> string, next: nat, uuids: map<string, string>, taken: set<string>) {
    && (forall d :: d in uuids ==> Drawn(uuid, next, uuids[d]))
    && (forall u :: u in taken ==> Drawn(uuid, next, u))
    && (Distinct(uuid) ==> Injective(uuids) && forall d :: d in uuids ==> uuids[d] !in taken)
  }

  ghost function Taken(observations: seq<Observation>): set<string> {
    set o | o in observations :: o.uuid
  }

  ghost predicate OwnUuids(observations: seq<Observation>) {
    forall i, j :: 0 <= i < j < |observations| ==> observations[i].uuid != observations[j].uuid
  }

  /** No two elements of the document share a UUID. */
  ghost predicate UniqueUuids(doc: Document) {
    && OwnUuids(doc.observations)
    && (forall i, j :: 0 <= i < j < |doc.findings| ==> doc.findings[i].uuid != doc.findings[j].uuid)
    && (forall i, j :: 0 <= i < j < |doc.resources| ==> doc.resources[i].uuid != doc.resources[j].uuid)
    && (forall o, f :: o in doc.observations && f in doc.findings ==> o.uuid != f.uuid)
    && (forall o, r :: o in doc.observations && r in doc.resources ==> o.uuid != r.uuid)
    && (forall f, r :: f in doc.findings && r in doc.resources ==> f.uuid != r.uuid)
  }

  // ----- The projector -----

  /** doc projects its inputs with some assignment of UUIDs to digests; if the generator never
      repeats itself, no two digests and no two elements of the document share a UUID. */
  ghost predicate IsProjection(uuid: nat -> string, doc: Document, evaluations: seq<ClaimEvaluation>, findings: seq<Finding>) {
    exists uuids :: Projects(doc, evaluations, findings, uuids) && (Distinct(uuid) ==> Injective(uuids) && UniqueUuids(doc))
  }

  /** uuid is the stream of generated UUIDs. */
  method ProjectAssessmentResults(uuid: nat -> string, evaluations: seq<ClaimEvaluation>, findings: seq<Finding>)
    returns (doc: Document)
    ensures IsProjection(uuid, doc, evaluations, findings)
  {
    var observations, resourceUUIDs, resourceMap, next := ProjectObservations(uuid, evaluations);
    var projected := ProjectFindings(uuid, next, observations, findings);
    var resources := ListResources(resourceMap);
    doc := Document(observations, projected, resources);
    assert forall r :: r in resources ==> r == resourceMap[r.digest];
    if Distinct(uuid) {
      FreshThroughout(uuid, next, doc, resourceUUIDs);
    }
    assert Projects(doc, evaluations, findings, resourceUUIDs);
  }

  lemma FreshThroughout(uuid: nat -> string, next: nat, doc: Document, uuids: map<string, string>)
    requires Distinct(uuid) && Issued(uuid, next, uuids, Taken(doc.observations)) && OwnUuids(doc.observations)
    requires forall k :: 0 <= k < |doc.findings| ==> doc.findings[k].uuid == uuid(next + k)
    requires forall r :: r in doc.resources ==> r.digest in uuids && r.uuid == uuids[r.digest]
    requires forall i, j :: 0 <= i < j < |doc.resources| ==> doc.resources[i].digest != doc.resources[j].digest
    ensures UniqueUuids(doc)
  {
    forall u, f | Drawn(uuid, next, u) && f in doc.findings ensures u != f.uuid {
      var k :| 0 <= k < |doc.findings| && doc.findings[k] == f;
      LaterDiffers(uuid, next, u, next + k);
    }
    forall o | o in doc.observations ensures o.uuid in Taken(doc.observations) {
    }
    forall i, j | 0 <= i < j < |doc.resources| ensures doc.resources[i].uuid != doc.resources[j].uuid {
      assert doc.resources[i] in doc.resources && doc.resources[j] in doc.resources;
    }
  }

  lemma LaterDiffers(uuid: nat -> string, next: nat, u: string, k: nat)
    requires Distinct(uuid) && Drawn(uuid, next, u) && next <= k
    ensures u != uuid(k)
  {
    var j: nat :| j < next && u == uuid(j);
  }

  lemma DrawnLater(uuid: nat -> string, next: nat, u: string)
    requires Drawn(uuid, next, u)
    ensures Drawn(uuid, next + 1, u)
  {
    var k: nat :| k < next && u == uuid(k);
  }

  method ProjectObservations(uuid: nat -> string, evaluations: seq<ClaimEvaluation>)
    returns (observations: seq<Observation>, resourceUUIDs: map<string, string>, resourceMap: map<string, Resource>, next: nat)
    ensures AllObserve(observations, evaluations, resourceUUIDs)
    ensures Covers(resourceUUIDs, resourceMap, AllEvidence(evaluations))
    ensures Issued(uuid, next, resourceUUIDs, Taken(observations)) && (Distinct(uuid) ==> OwnUuids(observations))
  {
    observations, resourceUUIDs, resourceMap := [], map[], map[];
    next := 2;
    for i := 0 to |evaluations|
      invariant AllObserve(observations, evaluations[..i], resourceUUIDs)
      invariant Covers(resourceUUIDs, resourceMap, AllEvidence(evaluations[..i]))
      invariant Issued(uuid, next, resourceUUIDs, Taken(observations)) && (Distinct(uuid) ==> OwnUuids(observations))
    {
      var eval := evaluations[i];
      ghost var before := resourceUUIDs;
      var obs;
      EvidenceOneMore(evaluations, i);
      obs, resourceUUIDs, resourceMap, next := Observe(uuid, next, eval, resourceUUIDs, resourceMap,
                                                      AllEvidence(evaluations[..i]), Taken(observations));
      ObserveOneMore(observations, evaluations[..i], before, resourceUUIDs, obs, eval);
      TakeOneMore(observations, obs);
      observations := observations + [obs];
    }
    assert evaluations[..|evaluations|] == evaluations;
  }

  lemma TakeOneMore(observations: seq<Observation>, o: Observation)
    ensures Taken(observations + [o]) == Taken(observations) + {o.uuid}
    ensures OwnUuids(observations) && o.uuid !in Taken(observations) ==> OwnUuids(observations + [o])
  {
    assert forall x :: x in observations + [o] <==> x in observations || x == o;
    forall i | 0 <= i < |observations| ensures observations[i].uuid in Taken(observations) {
      assert observations[i] in observations;
    }
  }

  lemma EvidenceOneMore(evaluations: seq<ClaimEvaluation>, i: nat)
    requires i < |evaluations|
    ensures evaluations[..i + 1] == evaluations[..i] + [evaluations[i]]
    ensures AllEvidence(evaluations[..i + 1]) == AllEvidence(evaluations[..i]) + evaluations[i].evidence
  {
    assert evaluations[..i + 1][..i] == evaluations[..i];
  }

  method Observe(uuid: nat -> string, start: nat, eval: ClaimEvaluation, uuids0: map<string, string>,
                 resources0: map<string, Resource>, ghost seen: seq<EvidenceRef>, ghost taken: set<string>)
    returns (obs: Observation, uuids: map<string, string>, resources: map<string, Resource>, next: nat)
    requires Covers(uuids0, resources0, seen) && Issued(uuid, start, uuids0, taken)
    ensures Covers(uuids, resources, seen + eval.evidence) && Extends(uuids0, uuids) && Observes(obs, eval, uuids)
    ensures Issued(uuid, next, uuids, taken + {obs.uuid}) && (Distinct(uuid) ==> obs.uuid !in taken)
  {
    var obsUUID := uuid(start);
    var hrefs;
    IssuedToObservation(uuid, start, uuids0, taken);
    hrefs, uuids, resources, next := CiteEvidence(uuid, start + 1, eval.evidence, uuids0, resources0, seen, taken + {obsUUID});
    obs := Observation(obsUUID, TitleFor(eval.control), hrefs);
  }

  lemma IssuedToObservation(uuid: nat -> string, next: nat, uuids: map<string, string>, taken: set<string>)
    requires Issued(uuid, next, uuids, taken)
    ensures Issued(uuid, next + 1, uuids, taken + {uuid(next)})
    ensures Distinct(uuid) ==> uuid(next) !in taken
  {
    forall u | Drawn(uuid, next, u) ensures Drawn(uuid, next + 1, u) && (Distinct(uuid) ==> u != uuid(next)) {
      DrawnLater(uuid, next, u);
      if Distinct(uuid) {
        LaterDiffers(uuid, next, u, next);
      }
    }
    assert Drawn(uuid, next + 1, uuid(next));
  }

  ghost predicate Extends(small: map<string, string>, large: map<string, string>) {
    forall d :: d in small ==> d in large && large[d] == small[d]
  }

  ghost predicate AllObserve(observations: seq<Observation>, evaluations: seq<ClaimEvaluation>,
                             uuids: map<string, string>)
  {
    |observations| == |evaluations| && forall i :: 0 <= i < |evaluations| ==> Observes(observations[i], evaluations[i], uuids)
  }

  lemma ObserveOneMore(observations: seq<Observation>, evaluations: seq<ClaimEvaluation>, small: map<string, string>,
                       large: map<string, string>,
                       o: Observation, e: ClaimEvaluation)
    requires AllObserve(observations, evaluations, small) && Extends(small, large) && Observes(o, e, large)
    ensures AllObserve(observations + [o], evaluations + [e], large)
  {
    forall k | 0 <= k < |observations| ensures Observes(observations[k], evaluations[k], large) {
      assert Observes(observations[k], evaluations[k], small);
    }
  }

  /** The links of an observation, one per evidence, to the resource of its digest. */
  ghost predicate Cites(hrefs: seq<string>, evidence: seq<EvidenceRef>, uuids: map<string, string>) {
    |hrefs| == |evidence| &&
    forall j :: 0 <= j < |evidence| ==> evidence[j].digest in uuids && hrefs[j] == HrefTo(uuids[evidence[j].digest])
  }

  lemma CiteOneMore(hrefs: seq<string>, evidence: seq<EvidenceRef>, small: map<string, string>,
                    large: map<string, string>, ev: EvidenceRef)
    requires Cites(hrefs, evidence, small) && Extends(small, large) && ev.digest in large
    ensures Cites(hrefs + [HrefTo(large[ev.digest])], evidence + [ev], large)
  {
  }

  /** The inner loop: reuse the resource of a digest seen before, or create one. */
  method CiteEvidence(uuid: nat -> string, start: nat, evidence: seq<EvidenceRef>, uuids0: map<string, string>,
                      resources0: map<string, Resource>, ghost seen: seq<EvidenceRef>, ghost taken: set<string>)
    returns (hrefs: seq<string>, uuids: map<string, string>, resources: map<string, Resource>, next: nat)
    requires Covers(uuids0, resources0, seen) && Issued(uuid, start, uuids0, taken)
    ensures Covers(uuids, resources, seen + evidence) && Issued(uuid, next, uuids, taken) && Extends(uuids0, uuids)
    ensures Cites(hrefs, evidence, uuids)
  {
    hrefs, uuids, resources, next := [], uuids0, resources0, start;
    assert seen + evidence[..0] == seen;
    for j := 0 to |evidence|
      invariant Covers(uuids, resources, seen + evidence[..j])
      invariant Issued(uuid, next, uuids, taken) && Extends(uuids0, uuids)
      invariant Cites(hrefs, evidence[..j], uuids)
    {
      ghost var before := uuids;
      TakeNext(seen, evidence, j);
      hrefs, uuids, resources, next :=
        CiteNext(uuid, next, evidence[j], hrefs, uuids, resources, evidence[..j], seen + evidence[..j], taken);
      ExtendsFurther(uuids0, before, uuids);
    }
    assert evidence[..|evidence|] == evidence;
  }

  lemma TakeNext<T>(seen: seq<T>, items: seq<T>, j: nat)
    requires j < |items|
    ensures items[..j + 1] == items[..j] + [items[j]]
    ensures seen + items[..j + 1] == seen + items[..j] + [items[j]]
  {
  }

  lemma ExtendsFurther(small: map<string, string>, more: map<string, string>, large: map<string, string>)
    requires Extends(small, more) && Extends(more, large)
    ensures Extends(small, large)
  {
  }

  method CiteNext(uuid: nat -> string, start: nat, ev: EvidenceRef, hrefs0: seq<string>, uuids0: map<string, string>,
                  resources0: map<string, Resource>, ghost cited: seq<EvidenceRef>, ghost seen: seq<EvidenceRef>,
                  ghost taken: set<string>)
    returns (hrefs: seq<string>, uuids: map<string, string>, resources: map<string, Resource>, next: nat)
    requires Covers(uuids0, resources0, seen) && Issued(uuid, start, uuids0, taken) && Cites(hrefs0, cited, uuids0)
    ensures Covers(uuids, resources, seen + [ev]) && Issued(uuid, next, uuids, taken) && Extends(uuids0, uuids)
    ensures Cites(hrefs, cited + [ev], uuids)
  {
    var resUUID;
    resUUID, uuids, resources, next := ResourceOf(uuid, start, ev, uuids0, resources0, seen, taken);
    CiteOneMore(hrefs0, cited, uuids0, uuids, ev);
    hrefs := hrefs0 + [HrefTo(resUUID)];
  }

  method ResourceOf(uuid: nat -> string, start: nat, ev: EvidenceRef, uuids0: map<string, string>,
                    resources0: map<string, Resource>, ghost seen: seq<EvidenceRef>, ghost taken: set<string>)
    returns (resUUID: string, uuids: map<string, string>, resources: map<string, Resource>, next: nat)
    requires Covers(uuids0, resources0, seen) && Issued(uuid, start, uuids0, taken)
    ensures Covers(uuids, resources, seen + [ev]) && Issued(uuid, next, uuids, taken) && Extends(uuids0, uuids)
    ensures ev.digest in uuids && resUUID == uuids[ev.digest]
  {
    uuids, resources, next := uuids0, resources0, start;
    if ev.digest in uuids {
      CoversKnown(uuids, resources, seen, ev);
      resUUID := uuids[ev.digest];
    } else {
      CoversNew(uuids, resources, seen, ev, uuid(next));
      IssuedToResource(uuid, next, uuids, ev.digest, taken);
      resUUID := uuid(next);
      next := next + 1;
      uuids := uuids[ev.digest := resUUID];
      resources := resources[ev.digest := ResourceFor(resUUID, ev)];
    }
  }

  lemma FirstWithSnoc(refs: seq<EvidenceRef>, x: EvidenceRef, d: string)
    ensures FirstWith(refs + [x], d) ==
            if FirstWith(refs, d).Some? then FirstWith(refs, d) else if x.digest == d then Some(x) else None
  {
    assert (refs + [x])[..|refs|] == refs;
  }

  lemma CoversKnown(uuids: map<string, string>, resources: map<string, Resource>, seen: seq<EvidenceRef>,
                    ev: EvidenceRef)
    requires Covers(uuids, resources, seen) && ev.digest in uuids
    ensures Covers(uuids, resources, seen + [ev])
  {
    forall d ensures FirstWith(seen + [ev], d) == FirstWith(seen, d) {
      FirstWithSnoc(seen, ev, d);
    }
  }

  lemma CoversNew(uuids: map<string, string>, resources: map<string, Resource>, seen: seq<EvidenceRef>, ev: EvidenceRef,
                  u: string)
    requires Covers(uuids, resources, seen) && ev.digest !in uuids
    ensures Covers(uuids[ev.digest := u], resources[ev.digest := ResourceFor(u, ev)], seen + [ev])
  {
    forall d ensures FirstWith(seen + [ev], d) == if d == ev.digest then Some(ev) else FirstWith(seen, d) {
      FirstWithSnoc(seen, ev, d);
    }
  }

  lemma IssuedToResource(uuid: nat -> string, next: nat, uuids: map<string, string>, digest: string, taken: set<string>)
    requires Issued(uuid, next, uuids, taken) && digest !in uuids
    ensures Issued(uuid, next + 1, uuids[digest := uuid(next)], taken)
  {
    forall u | Drawn(uuid, next, u) ensures Drawn(uuid, next + 1, u) && (Distinct(uuid) ==> u != uuid(next)) {
      DrawnLater(uuid, next, u);
      if Distinct(uuid) {
        LaterDiffers(uuid, next, u, next);
      }
    }
    assert Drawn(uuid, next + 1, uuid(next));
  }

  /** The findings projected so far, each under the next UUID. */
  ghost predicate Projected(uuid: nat -> string, start: nat, observations: seq<Observation>, findings: seq<Finding>,
                            projected: seq<ProjectedFinding>)
  {
    && |projected| == |findings|
    && forall k :: 0 <= k < |findings| ==> projected[k] == FindingFor(uuid(start + k), observations, findings[k])
  }

  lemma ProjectOneMore(uuid: nat -> string, start: nat, observations: seq<Observation>, findings: seq<Finding>,
                       projected: seq<ProjectedFinding>, f: Finding)
    requires Projected(uuid, start, observations, findings, projected)
    ensures Projected(uuid, start, observations, findings + [f],
                      projected + [FindingFor(uuid(start + |findings|), observations, f)])
  {
  }

  method ProjectFindings(uuid: nat -> string, start: nat, observations: seq<Observation>, findings: seq<Finding>)
    returns (projected: seq<ProjectedFinding>)
    ensures Projected(uuid, start, observations, findings, projected)
  {
    projected := [];
    for k := 0 to |findings|
      invariant Projected(uuid, start, observations, findings[..k], projected)
    {
      var f := findings[k];
      var relObs := RelatedObservations(observations, f.control);
      assert findings[..k + 1] == findings[..k] + [f];
      ProjectOneMore(uuid, start, observations, findings[..k], projected, f);
      projected := projected + [ProjectedFinding(uuid(start + k), f.title, f.control.id, relObs)];
    }
    assert findings[..|findings|] == findings;
  }

  method RelatedObservations(observations: seq<Observation>, control: ControlRef) returns (relObs: seq<string>)
    ensures relObs == RelatedTo(observations, control)
  {
    relObs := [];
    for i := 0 to |observations|
      invariant relObs == Map(UuidOf(), Filter(observations[..i], Concerns(control)))
    {
      assert observations[..i + 1][..i] == observations[..i];
      if Contains(observations[i].title, control.Canonical()) || Contains(observations[i].title, control.id) {
        relObs := relObs + [observations[i].uuid];
      }
    }
    assert observations[..|observations|] == observations;
    if |relObs| == 0 && |observations| > 0 {
      relObs := [observations[0].uuid];
    }
  }

  /** The back matter, in map order. */
  method ListResources(resourceMap: map<string, Resource>) returns (resources: seq<Resource>)
    requires forall d :: d in resourceMap ==> resourceMap[d].digest == d
    ensures forall i, j :: 0 <= i < j < |resources| ==> resources[i].digest != resources[j].digest
    ensures forall r :: r in resources <==> r.digest in resourceMap && r == resourceMap[r.digest]
    ensures forall d :: d in resourceMap ==> resourceMap[d] in resources
  {
    resources := [];
    var rest := resourceMap.Keys;
    while rest != {}
      invariant rest <= resourceMap.Keys
      invariant forall i, j :: 0 <= i < j < |resources| ==> resources[i].digest != resources[j].digest
      invariant forall r :: r in resources <==> r.digest in resourceMap && r.digest !in rest && r == resourceMap[r.digest]
      decreases rest
    {
      var d :| d in rest;
      forall i | 0 <= i < |resources| ensures resources[i].digest != d {
        assert resources[i] in resources;
      }
      rest := rest - {d};
      resources := resources + [resourceMap[d]];
    }
  }

  // ----- Referential integrity -----

  /** Exactly one resource answers the link, and it carries the digest. */
  ghost predicate Resolves(resources: seq<Resource>, href: string, digest: string) {
    exists k :: 0 <= k < |resources| && AnswersOnly(resources, k, href) && resources[k].digest == digest
  }

  ghost predicate AnswersOnly(resources: seq<Resource>, k: nat, href: string)
    requires k < |resources|
  {
    && HrefTo(resources[k].uuid) == href
    && forall l :: 0 <= l < |resources| && l != k ==> HrefTo(resources[l].uuid) != href
  }

  /** Every evidence link of a projection resolves to exactly one back-matter resource, which
      carries that evidence's digest. */
  lemma EvidenceLinksResolve(uuid: nat -> string, doc: Document, evaluations: seq<ClaimEvaluation>, findings: seq<Finding>,
                             i: nat, j: nat)
    requires IsProjection(uuid, doc, evaluations, findings) && Distinct(uuid)
    requires i < |evaluations| && j < |evaluations[i].evidence|
    ensures i < |doc.observations| && j < |doc.observations[i].hrefs|
    ensures Resolves(doc.resources, doc.observations[i].hrefs[j], evaluations[i].evidence[j].digest)
  {
    var uuids :| Projects(doc, evaluations, findings, uuids) && Injective(uuids);
    var d, href := evaluations[i].evidence[j].digest, doc.observations[i].hrefs[j];
    assert Observes(doc.observations[i], evaluations[i], uuids);
    var r :| r in doc.resources && r.digest == d;
    var k :| 0 <= k < |doc.resources| && doc.resources[k] == r;
    forall l | 0 <= l < |doc.resources| && l != k ensures HrefTo(doc.resources[l].uuid) != href {
      assert doc.resources[l] in doc.resources;
      assert doc.resources[l].digest != d;
      assert HrefTo(doc.resources[l].uuid)[1..] == doc.resources[l].uuid && href[1..] == uuids[d];
    }
    assert AnswersOnly(doc.resources, k, href);
  }

  lemma {:induction false} FirstWithFinds(refs: seq<EvidenceRef>, d: string)
    ensures FirstWith(refs, d).Some? <==> exists e :: e in refs && e.digest == d
    ensures FirstWith(refs, d).Some? ==> FirstWith(refs, d).value in refs && FirstWith(refs, d).value.digest == d
  {
    if refs != [] {
      FirstWithFinds(refs[..|refs| - 1], d);
      assert refs == refs[..|refs| - 1] + [refs[|refs| - 1]];
    }
  }

  ghost predicate HasResource(doc: Document, digest: string) {
    exists r :: r in doc.resources && r.digest == digest
  }

  ghost predicate Cited(evaluations: seq<ClaimEvaluation>, digest: string) {
    exists e :: e in AllEvidence(evaluations) && e.digest == digest
  }

  /** Resources correspond one to one with the distinct digests cited: a digest has a resource if
      and only if some evaluation cites it, no two resources share a digest or a UUID, and each
      resource describes evidence that was cited. */
  lemma ResourcesMatchDigests(uuid: nat -> string, doc: Document, evaluations: seq<ClaimEvaluation>, findings: seq<Finding>)
    requires IsProjection(uuid, doc, evaluations, findings) && Distinct(uuid)
    ensures forall d :: HasResource(doc, d) <==> Cited(evaluations, d)
    ensures forall i, j :: 0 <= i < j < |doc.resources| ==>
              doc.resources[i].digest != doc.resources[j].digest && doc.resources[i].uuid != doc.resources[j].uuid
    ensures forall r :: r in doc.resources ==> EvidenceRef(r.uri, r.digest, r.mediaType) in AllEvidence(evaluations)
  {
    var uuids :| Projects(doc, evaluations, findings, uuids) && Injective(uuids);
    var all := AllEvidence(evaluations);
    forall d ensures HasResource(doc, d) <==> Cited(evaluations, d) {
      FirstWithFinds(all, d);
    }
    forall i, j | 0 <= i < j < |doc.resources| ensures doc.resources[i].uuid != doc.resources[j].uuid {
      assert doc.resources[i] in doc.resources && doc.resources[j] in doc.resources;
    }
    forall r | r in doc.resources ensures EvidenceRef(r.uri, r.digest, r.mediaType) in all {
      FirstWithFinds(all, r.digest);
    }
  }

  ghost predicate Occurs(s: string, t: string) {
    exists lead, tail :: s == lead + t + tail
  }

  /** The observation's title mentions the control's name or its ID. */
  ghost predicate Mentions(o: Observation, control: ControlRef) {
    Occurs(o.title, control.Canonical()) || Occurs(o.title, control.id)
  }

  lemma ConcernsExactly(control: ControlRef, o: Observation)
    ensures Concerns(control)(o) <==> Mentions(o, control)
  {
    ContainsExactly(o.title, control.Canonical());
    ContainsExactly(o.title, control.id);
  }

  ghost predicate Linked(observations: seq<Observation>, control: ControlRef, u: string) {
    exists o :: o in observations && Mentions(o, control) && o.uuid == u
  }

  lemma NamedExactly(observations: seq<Observation>, control: ControlRef, u: string)
    ensures u in Map(UuidOf(), Filter(observations, Concerns(control))) <==> Linked(observations, control, u)
  {
    var kept := Filter(observations, Concerns(control));
    MapMembers(UuidOf(), kept, u);
    forall o ensures o in kept <==> o in observations && Mentions(o, control) {
      FilterMembers(observations, Concerns(control), o);
      ConcernsExactly(control, o);
    }
  }

  /** A finding targets its control, and where some observation mentions the control it links to
      exactly those that do and to no other; else to the first observation, if there is one. An
      observation mentions the control it was made for. */
  lemma FindingLinksExactly(uuid: nat -> string, doc: Document, evaluations: seq<ClaimEvaluation>, findings: seq<Finding>, k: nat)
    requires IsProjection(uuid, doc, evaluations, findings) && k < |findings|
    ensures |doc.findings| == |findings| && |doc.observations| == |evaluations|
    ensures doc.findings[k].targetId == findings[k].control.id && doc.findings[k].title == findings[k].title
    ensures forall i :: 0 <= i < |evaluations| ==>
              doc.observations[i].title == "Observation for " + evaluations[i].control.Canonical()
    ensures (exists o :: o in doc.observations && Mentions(o, findings[k].control)) ==>
              forall u :: u in doc.findings[k].related <==> Linked(doc.observations, findings[k].control, u)
    ensures (forall o :: o in doc.observations ==> !Mentions(o, findings[k].control)) ==>
              doc.findings[k].related == if doc.observations == [] then [] else [doc.observations[0].uuid]
  {
    var control := findings[k].control;
    var named := Map(UuidOf(), Filter(doc.observations, Concerns(control)));
    forall u ensures u in named <==> Linked(doc.observations, control, u) {
      NamedExactly(doc.observations, control, u);
    }
    if o :| o in doc.observations && Mentions(o, control) {
      assert Linked(doc.observations, control, o.uuid);
    }
    assert named != [] ==> named[0] in named;
    if forall o :: o in doc.observations ==> !Mentions(o, control) {
      assert forall u :: u !in named;
    }
    TitlesAre(doc, evaluations, findings, uuid);
  }

  lemma TitlesAre(doc: Document, evaluations: seq<ClaimEvaluation>, findings: seq<Finding>, uuid: nat -> string)
    requires IsProjection(uuid, doc, evaluations, findings)
    ensures |doc.observations| == |evaluations|
    ensures forall i :: 0 <= i < |evaluations| ==>
              doc.observations[i].title == "Observation for " + evaluations[i].control.Canonical()
  {
    var uuids :| Projects(doc, evaluations, findings, uuids);
    forall i | 0 <= i < |evaluations|
      ensures doc.observations[i].title == "Observation for " + evaluations[i].control.Canonical()
    {
      assert Observes(doc.observations[i], evaluations[i], uuids);
    }
  }

  /** Mentioning is not being about: an observation made for a control whose ID continues that of
      another, like ac-10 that of ac-1, is linked from findings about the other. */
  lemma LongerIdsMention(control: ControlRef, other: ControlRef, more: string, o: Observation)
    requires other.id == control.id + more && o.title == "Observation for " + other.Canonical()
    ensures Mentions(o, control)
  {
    var lead, tail := "Observation for " + other.namespace + ":", if other.version != "" then "@" + other.version else "";
    assert o.title == lead + other.id + tail;
    assert o.title == lead + control.id + (more + tail);
  }

  /** A finding links only to observations of the document, and to at least one whenever there are
      any. */
  lemma FindingLinksExist(uuid: nat -> string, doc: Document, evaluations: seq<ClaimEvaluation>, findings: seq<Finding>, k: nat)
    requires IsProjection(uuid, doc, evaluations, findings) && k < |findings|
    ensures |doc.findings| == |findings|
    ensures forall u :: u in doc.findings[k].related ==> exists o :: o in doc.observations && o.uuid == u
    ensures doc.observations != [] <==> doc.findings[k].related != []
  {
    FindingLinksExactly(uuid, doc, evaluations, findings, k);
    var control := findings[k].control;
    if o :| o in doc.observations && Mentions(o, control) {
      assert Linked(doc.observations, control, o.uuid);
    }
    assert doc.observations != [] ==> doc.observations[0] in doc.observations;
  }

  /** Of all elements of the document, exactly one observation carries the UUID. */
  ghost predicate ObservedOnce(doc: Document, u: string) {
    && (exists i :: 0 <= i < |doc.observations| && NamesOnly(doc.observations, i, u))
    && (forall f :: f in doc.findings ==> f.uuid != u)
    && (forall r :: r in doc.resources ==> r.uuid != u)
  }

  ghost predicate NamesOnly(observations: seq<Observation>, i: nat, u: string)
    requires i < |observations|
  {
    observations[i].uuid == u && forall j :: 0 <= j < |observations| && j != i ==> observations[j].uuid != u
  }

  /** Every link of a finding resolves to exactly one observation. */
  lemma FindingLinksResolve(uuid: nat -> string, doc: Document, evaluations: seq<ClaimEvaluation>, findings: seq<Finding>,
                            k: nat, u: string)
    requires IsProjection(uuid, doc, evaluations, findings) && Distinct(uuid) && k < |findings|
    requires |doc.findings| == |findings| && u in doc.findings[k].related
    ensures ObservedOnce(doc, u)
  {
    FindingLinksExist(uuid, doc, evaluations, findings, k);
    var o :| o in doc.observations && o.uuid == u;
    var i :| 0 <= i < |doc.observations| && doc.observations[i] == o;
    assert NamesOnly(doc.observations, i, u);
  }

  /** An observation made for a control is found by every finding about that control. */
  lemma OwnObservationsFound(control: ControlRef, o: Observation)
    requires o.title == TitleFor(control)
    ensures Concerns(control)(o)
  {
    ContainsSuffix("Observation for ", control.Canonical());
  }

  lemma {:induction false} ContainsSuffix(lead: string, t: string)
    ensures Contains(lead + t, t)
  {
    if lead == "" {
      assert lead + t == t;
    } else {
      ContainsSuffix(lead[1..], t);
      assert (lead + t)[1..] == lead[1..] + t;
    }
  }
}
