/** Evidence contracts: which envelopes satisfy which requirements, and the verdict that follows. */
module Evidence {
  import opened Text
  import opened Seqs
  import opened Lifecycle
  import opened Records
  import opened Epochs

  datatype EvidenceRequirement = EvidenceRequirement(
    id: string,
    evidenceType: string,
    required: bool,
    maxAge: int,
    acceptedProducers: seq<string>)

  datatype EvidenceContract = EvidenceContract(
    id: string,
    requirements: seq<EvidenceRequirement>,
    onMissingRequiredState: AssuranceState)

  datatype ContractEvaluationResult = ContractEvaluationResult(
    contractId: string,
    completeness: EvidenceCompleteness,
    verifiedEvidences: seq<EvidenceEnvelope>,
    staleEvidences: seq<EvidenceEnvelope>,
    missingRequirements: seq<EvidenceRequirement>,
    state: AssuranceState)

  // ----- Type matching -----

  /** strings.ReplaceAll(strings.ToLower(s), "-", "."). */
  function Clean(s: string): string {
    seq(|s|, i requires 0 <= i < |s| => CleanChar(s[i]))
  }

  function CleanChar(c: char): char {
    if c == '-' then '.' else LowerChar(c)
  }

  predicate TailOf(s: string, t: string) {
    HasSuffix(s, "." + t)
  }

  predicate MatchesEvidenceType(obsType: string, reqType: string) {
    if obsType == reqType then true
    else if EqualFold(obsType, reqType) then true
    else if TailOf(obsType, reqType) || TailOf(reqType, obsType) then true
    else
      var cleanObs, cleanReq := Clean(obsType), Clean(reqType);
      cleanObs == cleanReq || TailOf(cleanObs, cleanReq) || TailOf(cleanReq, cleanObs)
  }

  lemma CleanFoldsCase(s: string)
    ensures Clean(Lower(s)) == Clean(s)
  {
  }

  lemma CleanKeepsTails(s: string, t: string)
    requires TailOf(s, t)
    ensures TailOf(Clean(s), Clean(t))
  {
    var k := |s| - |t| - 1;
    assert s[k..] == "." + t;
    assert s[k] == '.' && forall i :: 0 <= i < |t| ==> s[k + 1 + i] == t[i] by {
      assert forall i :: 0 <= i <= |t| ==> s[k..][i] == s[k + i];
    }
    assert Clean(s)[k..] == "." + Clean(t);
  }

  /** The tests before the cleaned comparison only save work: two types match if and only if
      their cleaned forms are equal or one is a dotted tail of the other. In particular matching
      is symmetric and blind to case and to '-' against '.'. */
  lemma MatchingIsCleanMatching(obsType: string, reqType: string)
    ensures MatchesEvidenceType(obsType, reqType) <==>
            Clean(obsType) == Clean(reqType) || TailOf(Clean(obsType), Clean(reqType)) || TailOf(Clean(reqType), Clean(obsType))
    ensures MatchesEvidenceType(obsType, reqType) <==> MatchesEvidenceType(reqType, obsType)
  {
    CleanFoldsCase(obsType);
    CleanFoldsCase(reqType);
    if TailOf(obsType, reqType) { CleanKeepsTails(obsType, reqType); }
    if TailOf(reqType, obsType) { CleanKeepsTails(reqType, obsType); }
  }

  predicate IsDot(c: char) {
    c == '.' || c == '-'
  }

  /** Equal up to letter case and to '-' against '.'. */
  predicate Alike(s: string, t: string) {
    |s| == |t| && forall i :: 0 <= i < |s| ==> SameLetter(s[i], t[i]) || (IsDot(s[i]) && IsDot(t[i]))
  }

  /** s is t with something in front, set off by a dot or a dash. */
  ghost predicate Under(s: string, t: string) {
    exists lead, tail :: (s == lead + "." + tail || s == lead + "-" + tail) && Alike(tail, t)
  }

  ghost predicate TypesAgree(obsType: string, reqType: string) {
    Alike(obsType, reqType) || Under(obsType, reqType) || Under(reqType, obsType)
  }

  lemma CleanExactly(s: string, t: string)
    ensures Clean(s) == Clean(t) <==> Alike(s, t)
  {
    if Clean(s) == Clean(t) {
      assert |s| == |Clean(s)| == |Clean(t)| == |t|;
      forall i | 0 <= i < |s| ensures SameLetter(s[i], t[i]) || (IsDot(s[i]) && IsDot(t[i])) {
        assert Clean(s)[i] == Clean(t)[i];
      }
    }
  }

  lemma TailExactly(s: string, t: string)
    ensures TailOf(Clean(s), Clean(t)) <==> Under(s, t)
  {
    if TailOf(Clean(s), Clean(t)) {
      var k := |s| - |t| - 1;
      assert Clean(s)[k..] == "." + Clean(t);
      assert Clean(s)[k] == '.' && Clean(s)[k + 1..] == Clean(t) && Clean(s)[k + 1..] == Clean(s[k + 1..]);
      CleanExactly(s[k + 1..], t);
      assert s == s[..k] + [s[k]] + s[k + 1..];
    }
    if lead, tail :| (s == lead + "." + tail || s == lead + "-" + tail) && Alike(tail, t) {
      CleanExactly(tail, t);
      UnderTail(s, lead, tail);
    }
  }

  lemma UnderTail(s: string, lead: string, tail: string)
    requires s == lead + "." + tail || s == lead + "-" + tail
    ensures HasSuffix(Clean(s), "." + Clean(tail))
  {
    assert |Clean(s)| == |lead| + 1 + |tail|;
    assert Clean(s)[|lead|..] == "." + Clean(tail);
  }

  /** Two types match exactly if they are equal, up to letter case and '-' for '.', or one is the
      other with something in front, set off by a dot or a dash. */
  lemma TypesExactly(obsType: string, reqType: string)
    ensures MatchesEvidenceType(obsType, reqType) <==> TypesAgree(obsType, reqType)
  {
    MatchingIsCleanMatching(obsType, reqType);
    CleanExactly(obsType, reqType);
    TailExactly(obsType, reqType);
    TailExactly(reqType, obsType);
  }

  // ----- Producers and freshness -----

  predicate Accepts(accepted: string, producer: string) {
    || accepted == "*" || accepted == producer
    || (HasSuffix(accepted, "*") && HasPrefix(producer, TrimSuffix(accepted, "*")))
    || HasPrefix(producer, accepted + "://")
    || EqualFold(producer, accepted)
  }

  /** An entry admits everything if it is "*", itself, everything under it if it ends in '*', every
      name of the scheme it may be, and itself in other letter case. */
  ghost predicate Allows(accepted: string, producer: string) {
    || accepted == "*" || accepted == producer
    || (exists prefix, rest :: accepted == prefix + "*" && producer == prefix + rest)
    || (exists rest :: producer == accepted + "://" + rest)
    || SameButCase(accepted, producer)
  }

  ghost predicate ProducerAllowed(acceptedProducers: seq<string>, producer: string) {
    acceptedProducers == [] || exists a :: a in acceptedProducers && Allows(a, producer)
  }

  lemma AcceptsExactly(accepted: string, producer: string)
    ensures Accepts(accepted, producer) <==> Allows(accepted, producer)
  {
    StarredExactly(accepted, producer);
    PrefixExactly(producer, accepted + "://");
    FoldExactly(producer, accepted);
    assert SameButCase(producer, accepted) <==> SameButCase(accepted, producer);
  }

  lemma StarredExactly(accepted: string, producer: string)
    ensures HasSuffix(accepted, "*") && HasPrefix(producer, TrimSuffix(accepted, "*")) <==>
            exists prefix, rest :: accepted == prefix + "*" && producer == prefix + rest
  {
    if HasSuffix(accepted, "*") && HasPrefix(producer, TrimSuffix(accepted, "*")) {
      var prefix := TrimSuffix(accepted, "*");
      assert accepted == prefix + "*" && producer == prefix + producer[|prefix|..];
    }
    if prefix, rest :| accepted == prefix + "*" && producer == prefix + rest {
      assert HasSuffix(accepted, "*") && TrimSuffix(accepted, "*") == prefix;
      assert producer[..|prefix|] == prefix;
    }
  }

  /** Exactly who may produce evidence for a requirement. */
  lemma ProducersExactly(r: EvidenceRequirement, producer: string)
    ensures ProducerAccepted(r, producer) <==> ProducerAllowed(r.acceptedProducers, producer)
  {
    forall a ensures Accepts(a, producer) <==> Allows(a, producer) {
      AcceptsExactly(a, producer);
    }
  }

  /** The text before the first ':'. */
  function SchemeOf(name: string): string {
    if ':' in name then name[..FirstIndex(name, ':')] else name
  }

  lemma SchemeFound(scheme: string, rest: string)
    requires ':' !in scheme
    ensures SchemeOf(scheme + ":" + rest) == scheme
  {
    var s := scheme + ":" + rest;
    assert s[|scheme|] == ':';
    var i := FirstIndex(s, ':');
    assert s == s[..i] + ":" + s[i + 1..];
    CutFirst(s[..i], s[i + 1..], scheme, rest, ':');
  }

  /** Entries without a star refuse every producer of another scheme. */
  lemma OtherSchemesRefused(r: EvidenceRequirement, scheme: string, rest: string)
    requires r.acceptedProducers != [] && ':' !in scheme
    requires forall a :: a in r.acceptedProducers ==> '*' !in a && !SameButCase(SchemeOf(a), scheme)
    ensures !ProducerAccepted(r, scheme + "://" + rest)
  {
    ProducersExactly(r, scheme + "://" + rest);
    forall a | a in r.acceptedProducers ensures !Allows(a, scheme + "://" + rest) {
      OtherSchemeRefused(a, scheme, rest);
    }
  }

  lemma OtherSchemeRefused(a: string, scheme: string, rest: string)
    requires ':' !in scheme && '*' !in a && !SameButCase(SchemeOf(a), scheme)
    ensures !Allows(a, scheme + "://" + rest)
  {
    var producer := scheme + "://" + rest;
    assert producer == scheme + ":" + ("//" + rest);
    SchemeFound(scheme, "//" + rest);
    assert SameButCase(scheme, scheme);
    assert "*"[0] == '*';
    forall prefix: string ensures '*' in prefix + "*" {
      assert (prefix + "*")[|prefix|] == '*';
    }
    forall more ensures producer != a + "://" + more {
      SchemeKept(a, more);
    }
    if SameButCase(a, producer) {
      FoldedScheme(a, scheme, "//" + rest);
    }
  }

  lemma SchemeKept(a: string, more: string)
    ensures SchemeOf(a + "://" + more) == SchemeOf(a)
  {
    if ':' in a {
      var i := FirstIndex(a, ':');
      assert a == a[..i] + ":" + a[i + 1..];
      assert a + "://" + more == a[..i] + ":" + (a[i + 1..] + "://" + more);
      SchemeFound(a[..i], a[i + 1..] + "://" + more);
    } else {
      assert a + "://" + more == a + ":" + ("//" + more);
      SchemeFound(a, "//" + more);
    }
  }

  lemma FoldedScheme(a: string, scheme: string, rest: string)
    requires ':' !in scheme && SameButCase(a, scheme + ":" + rest)
    ensures SameButCase(SchemeOf(a), scheme)
  {
    var p, n := scheme + ":" + rest, |scheme|;
    assert p[n] == ':' && SameLetter(a[n], p[n]);
    assert ':' !in a[..n] by {
      forall i | 0 <= i < n ensures a[i] != ':' {
        assert SameLetter(a[i], p[i]) && p[i] == scheme[i] && scheme[i] in scheme;
      }
    }
    assert a == a[..n] + ":" + a[n + 1..];
    SchemeFound(a[..n], a[n + 1..]);
    forall i | 0 <= i < n ensures SameLetter(a[..n][i], scheme[i]) {
      assert SameLetter(a[i], p[i]) && p[i] == scheme[i];
    }
  }

  predicate ProducerAccepted(r: EvidenceRequirement, producer: string) {
    r.acceptedProducers == [] || exists a :: a in r.acceptedProducers && Accepts(a, producer)
  }

  method IsProducerAccepted(r: EvidenceRequirement, producer: string) returns (ok: bool)
    ensures ok <==> ProducerAccepted(r, producer)
    ensures ok <==> ProducerAllowed(r.acceptedProducers, producer)
  {
    ProducersExactly(r, producer);
    if |r.acceptedProducers| == 0 {
      return true;
    }
    for i := 0 to |r.acceptedProducers|
      invariant forall j :: 0 <= j < i ==> !Accepts(r.acceptedProducers[j], producer)
    {
      var accepted := r.acceptedProducers[i];
      assert accepted in r.acceptedProducers;
      if accepted == "*" || accepted == producer {
        return true;
      }
      if HasSuffix(accepted, "*") && HasPrefix(producer, TrimSuffix(accepted, "*")) {
        return true;
      }
      if HasPrefix(producer, accepted + "://") {
        return true;
      }
      if EqualFold(producer, accepted) {
        return true;
      }
    }
    ok := false;
  }

  predicate IsFresh(r: EvidenceRequirement, capturedAt: int, now: int) {
    if r.maxAge <= 0 then true
    else if capturedAt > now then false
    else now - capturedAt <= r.maxAge
  }

  // ----- Standing of a requirement -----

  /** The envelope bears on the requirement: right type, accepted producer. */
  predicate Bears(r: EvidenceRequirement, e: EvidenceEnvelope) {
    MatchesEvidenceType(e.observationType, r.evidenceType) && ProducerAccepted(r, e.producer.Canonical())
  }

  /** The envelope is current: captured under the epoch, and fresh. */
  predicate Current(r: EvidenceRequirement, e: EvidenceEnvelope, epoch: AssuranceEpoch, now: int) {
    Matches(e.epoch, epoch) && IsFresh(r, e.capturedAt, now)
  }

  predicate Witnessed(r: EvidenceRequirement, envelopes: seq<EvidenceEnvelope>, epoch: AssuranceEpoch, now: int) {
    exists e :: e in envelopes && Bears(r, e) && Current(r, e, epoch, now)
  }

  datatype Standing = Met | Outdated | Absent

  /** Where a requirement stands; whether an envelope bears on it does not depend on epoch or time. */
  function StandingOf(r: EvidenceRequirement, envelopes: seq<EvidenceEnvelope>, epoch: AssuranceEpoch,
                      now: int): Standing
  {
    if Witnessed(r, envelopes, epoch, now) then Met
    else if exists e :: e in envelopes && Bears(r, e) then Outdated
    else Absent
  }

  function Mandatory(): EvidenceRequirement -> bool {
    (r: EvidenceRequirement) => r.required
  }

  function Stands(s: Standing, envelopes: seq<EvidenceEnvelope>, epoch: AssuranceEpoch,
                  now: int): EvidenceRequirement -> bool
  {
    (r: EvidenceRequirement) => r.required && StandingOf(r, envelopes, epoch, now) == s
  }

  /** How many required requirements have the given standing. */
  function Tally(reqs: seq<EvidenceRequirement>, s: Standing, envelopes: seq<EvidenceEnvelope>, epoch: AssuranceEpoch,
                 now: int): nat
  {
    CountIf(reqs, Stands(s, envelopes, epoch, now))
  }

  function Unmet(envelopes: seq<EvidenceEnvelope>, epoch: AssuranceEpoch, now: int): EvidenceRequirement -> bool {
    (r: EvidenceRequirement) => r.required && StandingOf(r, envelopes, epoch, now) != Met
  }

  // ----- What one pass over the candidates finds -----

  function TypeMatches(r: EvidenceRequirement): EvidenceEnvelope -> bool {
    (e: EvidenceEnvelope) => MatchesEvidenceType(e.observationType, r.evidenceType)
  }

  function FromAccepted(r: EvidenceRequirement): EvidenceEnvelope -> bool {
    (e: EvidenceEnvelope) => ProducerAccepted(r, e.producer.Canonical())
  }

  function IsCurrent(r: EvidenceRequirement, epoch: AssuranceEpoch, now: int): EvidenceEnvelope -> bool {
    (e: EvidenceEnvelope) => Current(r, e, epoch, now)
  }

  datatype Search<T> = Search(winner: Option<T>, stale: seq<T>)

  /** The first eligible candidate that is current, and the outdated eligible ones met before it. */
  function Scan<T>(candidates: seq<T>, eligible: T -> bool, current: T -> bool): Search<T> {
    if candidates == [] then Search(None, [])
    else
      var c := candidates[0];
      if !eligible(c) then Scan(candidates[1..], eligible, current)
      else if current(c) then Search(Some(c), [])
      else
        var rest := Scan(candidates[1..], eligible, current);
        Search(rest.winner, [c] + rest.stale)
  }

  /** A search that had already met some outdated candidates. */
  function After<T>(seen: seq<T>, s: Search<T>): Search<T> {
    Search(s.winner, seen + s.stale)
  }

  lemma ScanStep<T>(candidates: seq<T>, j: nat, seen: seq<T>, eligible: T -> bool, current: T -> bool)
    requires j < |candidates|
    ensures var c, rest := candidates[j], Scan(candidates[j + 1..], eligible, current);
            After(seen, Scan(candidates[j..], eligible, current)) ==
            if !eligible(c) then After(seen, rest) else if current(c) then Search(Some(c), seen) else After(seen + [c], rest)
  {
    assert candidates[j..][1..] == candidates[j + 1..];
    var rest := Scan(candidates[j + 1..], eligible, current);
    assert seen + ([candidates[j]] + rest.stale) == (seen + [candidates[j]]) + rest.stale;
  }

  function SearchFor(r: EvidenceRequirement, envelopes: seq<EvidenceEnvelope>, epoch: AssuranceEpoch,
                     now: int): Search<EvidenceEnvelope>
  {
    Scan(Filter(envelopes, TypeMatches(r)), FromAccepted(r), IsCurrent(r, epoch, now))
  }

  lemma {:induction false} ScanFinds<T>(candidates: seq<T>, eligible: T -> bool, current: T -> bool)
    ensures var s := Scan(candidates, eligible, current);
            && (s.winner.Some? <==> exists c :: c in candidates && eligible(c) && current(c))
            && (s.winner.Some? ==> s.winner.value in candidates && eligible(s.winner.value) && current(s.winner.value))
            && (s.winner.None? ==> (s.stale != [] <==> exists c :: c in candidates && eligible(c)))
  {
    if candidates != [] {
      ScanFinds(candidates[1..], eligible, current);
      assert candidates == [candidates[0]] + candidates[1..];
    }
  }

  /** The search by first match agrees with the declarative standing. */
  lemma SearchFindsStanding(r: EvidenceRequirement, envelopes: seq<EvidenceEnvelope>, epoch: AssuranceEpoch, now: int)
    ensures var s := SearchFor(r, envelopes, epoch, now);
            StandingOf(r, envelopes, epoch, now) == if s.winner.Some? then Met else if s.stale != [] then Outdated else Absent
  {
    var candidates := Filter(envelopes, TypeMatches(r));
    ScanFinds(candidates, FromAccepted(r), IsCurrent(r, epoch, now));
    forall e ensures e in candidates <==> e in envelopes && MatchesEvidenceType(e.observationType, r.evidenceType) {
      FilterMembers(envelopes, TypeMatches(r), e);
    }
  }

  function Winners(reqs: seq<EvidenceRequirement>, envelopes: seq<EvidenceEnvelope>, epoch: AssuranceEpoch,
                   now: int): seq<EvidenceEnvelope>
  {
    if reqs == [] then []
    else
      var w := SearchFor(reqs[|reqs| - 1], envelopes, epoch, now).winner;
      Winners(reqs[..|reqs| - 1], envelopes, epoch, now) + if w.Some? then [w.value] else []
  }

  function StaleSeen(reqs: seq<EvidenceRequirement>, envelopes: seq<EvidenceEnvelope>, epoch: AssuranceEpoch,
                     now: int): seq<EvidenceEnvelope>
  {
    if reqs == [] then []
    else StaleSeen(reqs[..|reqs| - 1], envelopes, epoch, now) + SearchFor(reqs[|reqs| - 1], envelopes, epoch, now).stale
  }

  function Verdict(k: EvidenceCompleteness, onMissing: AssuranceState): AssuranceState {
    if k.IsComplete() then Verified
    else if k.stale > 0 && k.missing == 0 then Stale
    else if onMissing != Unspecified then onMissing
    else Unknown
  }

  function Completeness(reqs: seq<EvidenceRequirement>, envelopes: seq<EvidenceEnvelope>, epoch: AssuranceEpoch,
                        now: int): EvidenceCompleteness
  {
    EvidenceCompleteness(
      CountIf(reqs, Mandatory()),
      |Winners(reqs, envelopes, epoch, now)|,
      Tally(reqs, Met, envelopes, epoch, now),
      Tally(reqs, Outdated, envelopes, epoch, now),
      Tally(reqs, Absent, envelopes, epoch, now))
  }

  function Evaluation(c: EvidenceContract, envelopes: seq<EvidenceEnvelope>, epoch: AssuranceEpoch,
                      now: int): ContractEvaluationResult
  {
    var k := Completeness(c.requirements, envelopes, epoch, now);
    ContractEvaluationResult(
      c.id, k,
      Winners(c.requirements, envelopes, epoch, now),
      StaleSeen(c.requirements, envelopes, epoch, now),
      Filter(c.requirements, Unmet(envelopes, epoch, now)),
      Verdict(k, c.onMissingRequiredState))
  }

  /** The state of the evaluation after some requirements: five counters and three lists. */
  datatype Tallied = Tallied(
    completeness: EvidenceCompleteness,
    verifieds: seq<EvidenceEnvelope>,
    stales: seq<EvidenceEnvelope>,
    missings: seq<EvidenceRequirement>)

  function TalliedUpTo(reqs: seq<EvidenceRequirement>, envelopes: seq<EvidenceEnvelope>, epoch: AssuranceEpoch,
                       now: int): Tallied
  {
    Tallied(Completeness(reqs, envelopes, epoch, now),
            Winners(reqs, envelopes, epoch, now),
            StaleSeen(reqs, envelopes, epoch, now),
            Filter(reqs, Unmet(envelopes, epoch, now)))
  }

  /** What one more requirement adds, by the search for it. */
  function TallyOne(t: Tallied, r: EvidenceRequirement, s: Search<EvidenceEnvelope>): Tallied {
    var k := t.completeness;
    var one := if r.required then 1 else 0;
    if s.winner.Some? then
      Tallied(k.(required := k.required + one, present := k.present + 1, verified := k.verified + one),
              t.verifieds + [s.winner.value], t.stales + s.stale, t.missings)
    else
      Tallied(if s.stale != [] then k.(required := k.required + one, stale := k.stale + one)
              else k.(required := k.required + one, missing := k.missing + one),
              t.verifieds, t.stales + s.stale, if r.required then t.missings + [r] else t.missings)
  }

  lemma ListsNext(reqs: seq<EvidenceRequirement>, i: nat, envelopes: seq<EvidenceEnvelope>, epoch: AssuranceEpoch,
                  now: int)
    requires i < |reqs|
    ensures var s := SearchFor(reqs[i], envelopes, epoch, now);
            && Winners(reqs[..i + 1], envelopes, epoch, now) ==
               Winners(reqs[..i], envelopes, epoch, now) + (if s.winner.Some? then [s.winner.value] else [])
            && StaleSeen(reqs[..i + 1], envelopes, epoch, now) == StaleSeen(reqs[..i], envelopes, epoch, now) + s.stale
  {
    assert reqs[..i + 1][..i] == reqs[..i];
  }

  lemma CountersNext(reqs: seq<EvidenceRequirement>, i: nat, envelopes: seq<EvidenceEnvelope>, epoch: AssuranceEpoch,
                     now: int)
    requires i < |reqs|
    ensures var s, one := StandingOf(reqs[i], envelopes, epoch, now), if reqs[i].required then 1 else 0;
            && CountIf(reqs[..i + 1], Mandatory()) == CountIf(reqs[..i], Mandatory()) + one
            && Tally(reqs[..i + 1], Met, envelopes, epoch, now) ==
               Tally(reqs[..i], Met, envelopes, epoch, now) + (if s.Met? then one else 0)
            && Tally(reqs[..i + 1], Outdated, envelopes, epoch, now) ==
               Tally(reqs[..i], Outdated, envelopes, epoch, now) + (if s.Outdated? then one else 0)
            && Tally(reqs[..i + 1], Absent, envelopes, epoch, now) ==
               Tally(reqs[..i], Absent, envelopes, epoch, now) + (if s.Absent? then one else 0)
            && Filter(reqs[..i + 1], Unmet(envelopes, epoch, now)) ==
               Filter(reqs[..i], Unmet(envelopes, epoch, now)) + if reqs[i].required && s != Met then [reqs[i]] else []
  {
    CountNext(reqs, i, Mandatory());
    CountNext(reqs, i, Unmet(envelopes, epoch, now));
    CountNext(reqs, i, Stands(Met, envelopes, epoch, now));
    CountNext(reqs, i, Stands(Outdated, envelopes, epoch, now));
    CountNext(reqs, i, Stands(Absent, envelopes, epoch, now));
  }

  lemma Assemble(t: Tallied, t': Tallied, r: EvidenceRequirement, s: Search<EvidenceEnvelope>, st: Standing)
    requires st == if s.winner.Some? then Met else if s.stale != [] then Outdated else Absent
    requires t'.verifieds == t.verifieds + (if s.winner.Some? then [s.winner.value] else []) && t'.stales == t.stales + s.stale
    requires t'.missings == t.missings + if r.required && st != Met then [r] else []
    requires t.completeness.present == |t.verifieds| && t'.completeness.present == |t'.verifieds|
    requires var k, k', one := t.completeness, t'.completeness, if r.required then 1 else 0;
             && k'.required == k.required + one
             && k'.verified == k.verified + (if st.Met? then one else 0)
             && k'.stale == k.stale + (if st.Outdated? then one else 0)
             && k'.missing == k.missing + (if st.Absent? then one else 0)
    ensures t' == TallyOne(t, r, s)
  {
  }

  lemma TallyNext(reqs: seq<EvidenceRequirement>, i: nat, envelopes: seq<EvidenceEnvelope>, epoch: AssuranceEpoch,
                  now: int)
    requires i < |reqs|
    ensures TalliedUpTo(reqs[..i + 1], envelopes, epoch, now) ==
            TallyOne(TalliedUpTo(reqs[..i], envelopes, epoch, now), reqs[i], SearchFor(reqs[i], envelopes, epoch, now))
  {
    ListsNext(reqs, i, envelopes, epoch, now);
    CountersNext(reqs, i, envelopes, epoch, now);
    SearchFindsStanding(reqs[i], envelopes, epoch, now);
    Assemble(TalliedUpTo(reqs[..i], envelopes, epoch, now), TalliedUpTo(reqs[..i + 1], envelopes, epoch, now), reqs[i],
             SearchFor(reqs[i], envelopes, epoch, now), StandingOf(reqs[i], envelopes, epoch, now));
  }

  /** Nested search loops with early exit, five counters and three growing lists; the counters
      come out as counts of declarative standings. */
  method Evaluate(c: EvidenceContract, envelopes: seq<EvidenceEnvelope>, epoch: AssuranceEpoch, now: int)
    returns (result: ContractEvaluationResult)
    ensures result == Evaluation(c, envelopes, epoch, now)
  {
    var requiredCount := CountRequired(c.requirements);
    var k := EvidenceCompleteness(requiredCount, 0, 0, 0, 0);
    var verifieds, stales, missings := [], [], [];
    ghost var t := TalliedUpTo([], envelopes, epoch, now);
    for i := 0 to |c.requirements|
      invariant k.required == requiredCount
      invariant t == TalliedUpTo(c.requirements[..i], envelopes, epoch, now)
      invariant t == Tallied(k.(required := t.completeness.required), verifieds, stales, missings)
    {
      var req := c.requirements[i];
      TallyNext(c.requirements, i, envelopes, epoch, now);
      var matched, seenStale := FindMatch(req, envelopes, epoch, now);
      t := TallyOne(t, req, Search(matched, seenStale));
      stales := stales + seenStale;
      if matched.Some? {
        verifieds := verifieds + [matched.value];
        k := k.(present := k.present + 1);
        if req.required {
          k := k.(verified := k.verified + 1);
        }
      } else {
        if seenStale != [] {
          if req.required {
            k := k.(stale := k.stale + 1);
          }
        } else {
          if req.required {
            k := k.(missing := k.missing + 1);
          }
        }
        if req.required {
          missings := missings + [req];
        }
      }
    }
    assert c.requirements[..|c.requirements|] == c.requirements;
    var state := DecideState(k, c.onMissingRequiredState);
    result := ContractEvaluationResult(c.id, k, verifieds, stales, missings, state);
  }

  /** The closing branches of Evaluate. */
  method DecideState(k: EvidenceCompleteness, onMissing: AssuranceState) returns (state: AssuranceState)
    ensures state == Verdict(k, onMissing)
  {
    if k.IsComplete() {
      state := Verified;
    } else if k.stale > 0 && k.missing == 0 {
      state := Stale;
    } else {
      if onMissing != Unspecified {
        state := onMissing;
      } else {
        state := Unknown;
      }
    }
  }

  method CountRequired(reqs: seq<EvidenceRequirement>) returns (n: nat)
    ensures n == CountIf(reqs, Mandatory())
  {
    n := 0;
    for i := 0 to |reqs|
      invariant n == CountIf(reqs[..i], Mandatory())
    {
      assert reqs[..i + 1][..i] == reqs[..i];
      if reqs[i].required {
        n := n + 1;
      }
    }
    assert reqs[..|reqs|] == reqs;
  }

  /** The body of the outer loop: collect the candidates of the right type, then take the first
      that passes producer, epoch and freshness, noting outdated ones on the way. */
  method FindMatch(req: EvidenceRequirement, envelopes: seq<EvidenceEnvelope>, epoch: AssuranceEpoch, now: int)
    returns (matched: Option<EvidenceEnvelope>, seenStale: seq<EvidenceEnvelope>)
    ensures Search(matched, seenStale) == SearchFor(req, envelopes, epoch, now)
  {
    var candidates := CandidatesOf(req, envelopes);
    matched, seenStale := FirstCurrent(req, candidates, epoch, now);
  }

  method FirstCurrent(req: EvidenceRequirement, candidates: seq<EvidenceEnvelope>, epoch: AssuranceEpoch, now: int)
    returns (matched: Option<EvidenceEnvelope>, seenStale: seq<EvidenceEnvelope>)
    ensures Search(matched, seenStale) == Scan(candidates, FromAccepted(req), IsCurrent(req, epoch, now))
  {
    matched, seenStale := None, [];
    ghost var eligible, current := FromAccepted(req), IsCurrent(req, epoch, now);
    for j := 0 to |candidates|
      invariant matched.None?
      invariant Scan(candidates, eligible, current) == After(seenStale, Scan(candidates[j..], eligible, current))
    {
      var cand := candidates[j];
      ScanStep(candidates, j, seenStale, eligible, current);
      var accepted := IsProducerAccepted(req, cand.producer.Canonical());
      if !accepted {
        continue;
      }
      if !Matches(cand.epoch, epoch) {
        seenStale := seenStale + [cand];
        continue;
      }
      if !IsFresh(req, cand.capturedAt, now) {
        seenStale := seenStale + [cand];
        continue;
      }
      matched := Some(cand);
      break;
    }
  }

  method CandidatesOf(req: EvidenceRequirement,
                      envelopes: seq<EvidenceEnvelope>) returns (candidates: seq<EvidenceEnvelope>)
    ensures candidates == Filter(envelopes, TypeMatches(req))
  {
    candidates := [];
    for i := 0 to |envelopes|
      invariant candidates == Filter(envelopes[..i], TypeMatches(req))
    {
      assert envelopes[..i + 1][..i] == envelopes[..i];
      if MatchesEvidenceType(envelopes[i].observationType, req.evidenceType) {
        candidates := candidates + [envelopes[i]];
      }
    }
    assert envelopes[..|envelopes|] == envelopes;
  }

  // ----- The verdict, declaratively -----

  /** The counters always balance. */
  lemma {:induction false} CountersBalance(reqs: seq<EvidenceRequirement>, envelopes: seq<EvidenceEnvelope>,
                                           epoch: AssuranceEpoch, now: int)
    ensures var k := Completeness(reqs, envelopes, epoch, now);
            && k.verified + k.stale + k.missing == k.required
            && |Filter(reqs, Unmet(envelopes, epoch, now))| == k.stale + k.missing
            && k.verified <= k.present
  {
    if reqs != [] {
      var r := reqs[|reqs| - 1];
      CountersBalance(reqs[..|reqs| - 1], envelopes, epoch, now);
      SearchFindsStanding(r, envelopes, epoch, now);
    }
  }

  /** Some requirement is required, and every required one has an envelope of matching type,
      accepted producer, matching epoch and fresh capture. */
  ghost predicate FullyWitnessed(c: EvidenceContract, envelopes: seq<EvidenceEnvelope>, epoch: AssuranceEpoch,
                                 now: int)
  {
    && (exists r :: r in c.requirements && r.required)
    && (forall r :: r in c.requirements && r.required ==> Witnessed(r, envelopes, epoch, now))
  }

  ghost predicate SomeAbsent(c: EvidenceContract, envelopes: seq<EvidenceEnvelope>) {
    exists r :: r in c.requirements && r.required && forall e :: e in envelopes ==> !Bears(r, e)
  }

  /** The three branches of the verdict by what they mean. */
  lemma VerdictMeaning(c: EvidenceContract, envelopes: seq<EvidenceEnvelope>, epoch: AssuranceEpoch, now: int)
    ensures var k := Evaluation(c, envelopes, epoch, now).completeness;
            && (k.IsComplete() <==> FullyWitnessed(c, envelopes, epoch, now))
            && (k.missing > 0 <==> SomeAbsent(c, envelopes))
            && (k.required > 0 <==> exists r :: r in c.requirements && r.required)
  {
    var reqs := c.requirements;
    CountersBalance(reqs, envelopes, epoch, now);
    CountZero(reqs, Mandatory());
    CountZero(reqs, Stands(Outdated, envelopes, epoch, now));
    CountZero(reqs, Stands(Absent, envelopes, epoch, now));
    var k := Evaluation(c, envelopes, epoch, now).completeness;
    assert k.required == 0 <==> forall r :: r in reqs ==> !r.required;
    assert k.stale == 0 <==> forall r :: r in reqs && r.required ==> StandingOf(r, envelopes, epoch, now) != Outdated;
    assert k.missing == 0 <==> forall r :: r in reqs && r.required ==> StandingOf(r, envelopes, epoch, now) != Absent;
  }

  /** VERIFIED is the verdict exactly when the contract is fully witnessed, provided it does not
      itself name VERIFIED as the state for missing evidence. If it does, the verdict is VERIFIED
      unless evidence is merely outdated. */
  lemma VerifiedExactly(c: EvidenceContract, envelopes: seq<EvidenceEnvelope>, epoch: AssuranceEpoch, now: int)
    ensures var state := Evaluation(c, envelopes, epoch, now).state;
            var witnessed := FullyWitnessed(c, envelopes, epoch, now);
            var outdatedOnly := (exists r :: r in c.requirements && r.required) && !SomeAbsent(c, envelopes);
            && (c.onMissingRequiredState != Verified ==> (state == Verified <==> witnessed))
            && (c.onMissingRequiredState == Verified ==> (state == Verified <==> witnessed || !outdatedOnly))
  {
    VerdictMeaning(c, envelopes, epoch, now);
    CountersBalance(c.requirements, envelopes, epoch, now);
  }

  /** So the core alone does not rule out VERIFIED without evidence: this contract gets it from none. */
  lemma VerifiedWithoutEvidence(epoch: AssuranceEpoch, now: int) returns (c: EvidenceContract)
    ensures Evaluation(c, [], epoch, now).state == Verified && !FullyWitnessed(c, [], epoch, now)
  {
    c := EvidenceContract("c", [EvidenceRequirement("r", "t", true, 0, [])], Verified);
    assert c.requirements[0] in c.requirements;
    VerifiedExactly(c, [], epoch, now);
  }

  // ----- Order, more evidence, ageing and drift -----

  lemma StandingBySet(r: EvidenceRequirement, a: seq<EvidenceEnvelope>, b: seq<EvidenceEnvelope>, epoch: AssuranceEpoch,
                      now: int)
    requires forall e :: e in a <==> e in b
    ensures StandingOf(r, a, epoch, now) == StandingOf(r, b, epoch, now)
  {
  }

  function HasWinner(envelopes: seq<EvidenceEnvelope>, epoch: AssuranceEpoch, now: int): EvidenceRequirement -> bool {
    (r: EvidenceRequirement) => StandingOf(r, envelopes, epoch, now) == Met
  }

  lemma {:induction false} PresentIsCount(reqs: seq<EvidenceRequirement>, envelopes: seq<EvidenceEnvelope>,
                                          epoch: AssuranceEpoch, now: int)
    ensures |Winners(reqs, envelopes, epoch, now)| == CountIf(reqs, HasWinner(envelopes, epoch, now))
  {
    if reqs != [] {
      PresentIsCount(reqs[..|reqs| - 1], envelopes, epoch, now);
      SearchFindsStanding(reqs[|reqs| - 1], envelopes, epoch, now);
    }
  }

  lemma CountSame<T>(s: seq<T>, p: T -> bool, q: T -> bool)
    requires forall x :: x in s ==> p(x) == q(x)
    ensures CountIf(s, p) == CountIf(s, q)
  {
    CountMonotone(s, p, q);
    CountMonotone(s, q, p);
  }

  /** The verdict and all five counters depend on the set of envelopes and the multiset of
      requirements, not on their order (nor on repeated envelopes). */
  lemma OrderIrrelevant(c: EvidenceContract, d: EvidenceContract, a: seq<EvidenceEnvelope>, b: seq<EvidenceEnvelope>,
                        epoch: AssuranceEpoch, now: int)
    requires multiset(c.requirements) == multiset(d.requirements) && c.onMissingRequiredState == d.onMissingRequiredState
    requires forall e :: e in a <==> e in b
    ensures Evaluation(c, a, epoch, now).completeness == Evaluation(d, b, epoch, now).completeness
    ensures Evaluation(c, a, epoch, now).state == Evaluation(d, b, epoch, now).state
  {
    var p, q := c.requirements, d.requirements;
    CountPermuted(p, q, Mandatory());
    PresentIsCount(p, a, epoch, now);
    PresentIsCount(q, b, epoch, now);
    CountPermuted(p, q, HasWinner(a, epoch, now));
    forall r ensures StandingOf(r, a, epoch, now) == StandingOf(r, b, epoch, now) {
      StandingBySet(r, a, b, epoch, now);
    }
    CountSame(q, HasWinner(a, epoch, now), HasWinner(b, epoch, now));
    SameTally(p, q, Met, a, b, epoch, now);
    SameTally(p, q, Outdated, a, b, epoch, now);
    SameTally(p, q, Absent, a, b, epoch, now);
  }

  lemma SameTally(p: seq<EvidenceRequirement>, q: seq<EvidenceRequirement>, s: Standing, a: seq<EvidenceEnvelope>,
                  b: seq<EvidenceEnvelope>,
                  epoch: AssuranceEpoch, now: int)
    requires multiset(p) == multiset(q) && forall r :: StandingOf(r, a, epoch, now) == StandingOf(r, b, epoch, now)
    ensures Tally(p, s, a, epoch, now) == Tally(q, s, b, epoch, now)
  {
    CountPermuted(p, q, Stands(s, a, epoch, now));
    CountSame(q, Stands(s, a, epoch, now), Stands(s, b, epoch, now));
  }

  /** STALE is the verdict exactly when something is required, nothing required is absent, and not
      everything required is current. What the contract names for missing evidence is the verdict
      exactly when nothing is required or something required is absent. A contract that names STALE
      or VERIFIED itself makes the two cases look alike, so it is left out of the first two lines. */
  lemma StaleAndMissingExactly(c: EvidenceContract, envelopes: seq<EvidenceEnvelope>, epoch: AssuranceEpoch, now: int)
    ensures var state := Evaluation(c, envelopes, epoch, now).state;
            var unproven := SomeAbsent(c, envelopes) || !exists r :: r in c.requirements && r.required;
            && (Honest(c) ==> (state == Stale <==> !unproven && !FullyWitnessed(c, envelopes, epoch, now)))
            && (Honest(c) ==> (unproven <==> state != Verified && state != Stale))
            && (unproven ==> state == if c.onMissingRequiredState == Unspecified then Unknown else c.onMissingRequiredState)
  {
    VerdictMeaning(c, envelopes, epoch, now);
    CountersBalance(c.requirements, envelopes, epoch, now);
  }

  /** How good a result is: 2 when complete, 1 when merely outdated, 0 otherwise. */
  function Grade(k: EvidenceCompleteness): nat {
    if k.IsComplete() then 2 else if k.stale > 0 && k.missing == 0 then 1 else 0
  }

  /** The order of verdicts: anything said of missing evidence, below STALE, below VERIFIED. */
  function Rank(state: AssuranceState): nat {
    match state
    case Verified => 2
    case Stale => 1
    case _ => 0
  }

  /** Contracts that do not themselves answer missing evidence with STALE or VERIFIED. */
  predicate Honest(c: EvidenceContract) {
    c.onMissingRequiredState != Stale && c.onMissingRequiredState != Verified
  }

  /** For a contract that names neither STALE nor VERIFIED for missing evidence, the grade of a
      result can be read off its verdict. */
  lemma GradeIsRank(c: EvidenceContract, envelopes: seq<EvidenceEnvelope>, epoch: AssuranceEpoch, now: int)
    requires Honest(c)
    ensures Rank(Evaluation(c, envelopes, epoch, now).state) == Grade(Evaluation(c, envelopes, epoch, now).completeness)
  {
  }

  /** If everything one situation offers a required requirement is offered by the other too, the
      other is no worse: Verified does not fall, Missing does not rise, the grade does not drop. */
  lemma NoWorse(c: EvidenceContract, a: seq<EvidenceEnvelope>, e0: AssuranceEpoch, t0: int,
                b: seq<EvidenceEnvelope>, e1: AssuranceEpoch, t1: int)
    requires forall r, e :: r in c.requirements && r.required && e in a && Bears(r, e) ==> e in b
    requires forall r, e :: r in c.requirements && r.required && e in a && Bears(r, e) && Current(r, e, e0, t0) ==>
                              Current(r, e, e1, t1)
    ensures var k, l := Evaluation(c, a, e0, t0).completeness, Evaluation(c, b, e1, t1).completeness;
            k.verified <= l.verified && l.missing <= k.missing && Grade(k) <= Grade(l) && k.required == l.required
  {
    CountMonotone(c.requirements, Stands(Met, a, e0, t0), Stands(Met, b, e1, t1));
    CountMonotone(c.requirements, Stands(Absent, b, e1, t1), Stands(Absent, a, e0, t0));
    CountersBalance(c.requirements, a, e0, t0);
    CountersBalance(c.requirements, b, e1, t1);
  }

  /** More evidence never hurts. */
  lemma MoreEvidence(c: EvidenceContract, a: seq<EvidenceEnvelope>, b: seq<EvidenceEnvelope>, epoch: AssuranceEpoch,
                     now: int)
    requires forall e :: e in a ==> e in b
    ensures var k, l := Evaluation(c, a, epoch, now).completeness, Evaluation(c, b, epoch, now).completeness;
            k.verified <= l.verified && l.missing <= k.missing && Grade(k) <= Grade(l) && k.required == l.required
    ensures Honest(c) ==> Rank(Evaluation(c, a, epoch, now).state) <= Rank(Evaluation(c, b, epoch, now).state)
  {
    NoWorse(c, a, epoch, now, b, epoch, now);
    if Honest(c) {
      GradeIsRank(c, a, epoch, now);
      GradeIsRank(c, b, epoch, now);
    }
  }

  /** No evidence becomes current between now and later: what bears on a requirement with an age
      limit was captured by now, or still lies in the future later, or is too old by then. With
      now == later, which is drift alone, this always holds. */
  ghost predicate NoneMatures(c: EvidenceContract, envelopes: seq<EvidenceEnvelope>, now: int, later: int) {
    forall r, e :: r in c.requirements && r.required && r.maxAge > 0 && e in envelopes && Bears(r, e) ==>
                     e.capturedAt <= now || later < e.capturedAt || e.capturedAt + r.maxAge < later
  }

  /** Ageing and drift only cost freshness. Under a target epoch that refines the earlier one, and at
      a later time by which no evidence matures, nothing more is verified and the verdict is no
      better. Drift alone needs no condition (DriftAlone), and evidence that does mature can improve
      the verdict (MaturingRecovers). */
  lemma AgeingAndDrift(c: EvidenceContract, envelopes: seq<EvidenceEnvelope>, coarse: AssuranceEpoch, now: int,
                       fine: AssuranceEpoch, later: int)
    requires now <= later && Matches(fine, coarse) && NoneMatures(c, envelopes, now, later)
    ensures var k, l := Evaluation(c, envelopes, coarse, now).completeness, Evaluation(c, envelopes, fine, later).completeness;
            l.verified <= k.verified && Grade(l) <= Grade(k)
    ensures Honest(c) ==> Rank(Evaluation(c, envelopes, fine, later).state) <= Rank(Evaluation(c, envelopes, coarse, now).state)
  {
    forall r, e | r in c.requirements && r.required && e in envelopes && Bears(r, e) && Current(r, e, fine, later)
      ensures Current(r, e, coarse, now)
    {
      MatchesPreorder(e.epoch, fine, coarse);
    }
    NoWorse(c, envelopes, fine, later, envelopes, coarse, now);
    if Honest(c) {
      GradeIsRank(c, envelopes, fine, later);
      GradeIsRank(c, envelopes, coarse, now);
    }
  }

  lemma MissingIsTimeless(c: EvidenceContract, envelopes: seq<EvidenceEnvelope>, e0: AssuranceEpoch, t0: int,
                          e1: AssuranceEpoch, t1: int)
    ensures var r, s := Evaluation(c, envelopes, e0, t0), Evaluation(c, envelopes, e1, t1);
            && r.completeness.missing == s.completeness.missing
            && r.completeness.required == s.completeness.required
            && (r.completeness.required > 0 && r.completeness.missing == 0 ==> s.state == Verified || s.state == Stale)
  {
    CountSame(c.requirements, Stands(Absent, envelopes, e0, t0), Stands(Absent, envelopes, e1, t1));
    CountersBalance(c.requirements, envelopes, e1, t1);
  }

  /** Drift alone never verifies more, whenever the evidence was captured. */
  lemma DriftAlone(c: EvidenceContract, envelopes: seq<EvidenceEnvelope>, coarse: AssuranceEpoch, fine: AssuranceEpoch, now: int)
    requires Matches(fine, coarse)
    ensures var k, l := Evaluation(c, envelopes, coarse, now).completeness, Evaluation(c, envelopes, fine, now).completeness;
            l.verified <= k.verified && Grade(l) <= Grade(k)
    ensures Honest(c) ==> Rank(Evaluation(c, envelopes, fine, now).state) <= Rank(Evaluation(c, envelopes, coarse, now).state)
  {
    AgeingAndDrift(c, envelopes, coarse, now, fine, now);
  }

  /** The time window of an envelope for a requirement: from its capture for the maximum age, both
      ends included, or always if the requirement sets no age. */
  predicate InWindow(r: EvidenceRequirement, e: EvidenceEnvelope, now: int) {
    r.maxAge <= 0 || e.capturedAt <= now <= e.capturedAt + r.maxAge
  }

  /** The envelope proves the requirement, said without any of the tests above: its type agrees, its
      producer is on the list, its epoch meets the target and the time is in its window. */
  ghost predicate Meets(r: EvidenceRequirement, e: EvidenceEnvelope, epoch: AssuranceEpoch, now: int) {
    && TypesAgree(e.observationType, r.evidenceType)
    && ProducerAllowed(r.acceptedProducers, e.producer.Canonical())
    && EpochMet(e.epoch, epoch) && InWindow(r, e, now)
  }

  lemma MeetsExactly(r: EvidenceRequirement, e: EvidenceEnvelope, epoch: AssuranceEpoch, now: int)
    ensures Bears(r, e) && Current(r, e, epoch, now) <==> Meets(r, e, epoch, now)
    ensures Bears(r, e) <==>
            TypesAgree(e.observationType, r.evidenceType) && ProducerAllowed(r.acceptedProducers, e.producer.Canonical())
  {
    TypesExactly(e.observationType, r.evidenceType);
    ProducersExactly(r, e.producer.Canonical());
    MatchesExactly(e.epoch, epoch);
  }

  lemma WitnessedExactly(r: EvidenceRequirement, envelopes: seq<EvidenceEnvelope>, epoch: AssuranceEpoch, now: int)
    ensures Witnessed(r, envelopes, epoch, now) <==> exists e :: e in envelopes && Meets(r, e, epoch, now)
  {
    forall e ensures Bears(r, e) && Current(r, e, epoch, now) <==> Meets(r, e, epoch, now) {
      MeetsExactly(r, e, epoch, now);
    }
  }

  /** When a contract is VERIFIED, exactly: something is required, and every required requirement is
      met by some envelope, in type, producer, epoch and time. */
  lemma VerificationWindow(c: EvidenceContract, envelopes: seq<EvidenceEnvelope>, epoch: AssuranceEpoch, now: int)
    requires c.onMissingRequiredState != Verified
    ensures Evaluation(c, envelopes, epoch, now).state == Verified <==>
            && (exists r :: r in c.requirements && r.required)
            && forall r :: r in c.requirements && r.required ==> exists e :: e in envelopes && Meets(r, e, epoch, now)
  {
    VerifiedExactly(c, envelopes, epoch, now);
    forall r ensures Witnessed(r, envelopes, epoch, now) <==> exists e :: e in envelopes && Meets(r, e, epoch, now) {
      WitnessedExactly(r, envelopes, epoch, now);
    }
  }

  /** The winner of the search for a requirement, if there is one, is one of the envelopes that meet it. */
  lemma WinnerMeets(r: EvidenceRequirement, envelopes: seq<EvidenceEnvelope>, epoch: AssuranceEpoch, now: int)
    ensures var s := SearchFor(r, envelopes, epoch, now);
            && (s.winner.Some? <==> exists e :: e in envelopes && Meets(r, e, epoch, now))
            && (s.winner.Some? ==> s.winner.value in envelopes && Meets(r, s.winner.value, epoch, now))
  {
    var candidates := Filter(envelopes, TypeMatches(r));
    ScanFinds(candidates, FromAccepted(r), IsCurrent(r, epoch, now));
    forall e ensures e in candidates && FromAccepted(r)(e) && IsCurrent(r, epoch, now)(e) <==>
                     e in envelopes && Meets(r, e, epoch, now)
    {
      FilterMembers(envelopes, TypeMatches(r), e);
      MeetsExactly(r, e, epoch, now);
    }
  }

  /** e is the winner of some requirement of the list. */
  ghost predicate MeetsOne(reqs: seq<EvidenceRequirement>, envelopes: seq<EvidenceEnvelope>, epoch: AssuranceEpoch, now: int,
                           e: EvidenceEnvelope)
  {
    e in envelopes && exists r :: r in reqs && Meets(r, e, epoch, now)
  }

  lemma {:induction false} WinnersMeet(reqs: seq<EvidenceRequirement>, envelopes: seq<EvidenceEnvelope>,
                                       epoch: AssuranceEpoch, now: int)
    ensures forall e :: e in Winners(reqs, envelopes, epoch, now) ==> MeetsOne(reqs, envelopes, epoch, now, e)
    ensures forall r :: r in reqs && (exists e :: e in envelopes && Meets(r, e, epoch, now)) ==>
                          exists e :: e in Winners(reqs, envelopes, epoch, now) && Meets(r, e, epoch, now)
  {
    if reqs != [] {
      var front, last := reqs[..|reqs| - 1], reqs[|reqs| - 1];
      WinnersMeet(front, envelopes, epoch, now);
      WinnerMeets(last, envelopes, epoch, now);
      assert reqs == front + [last];
      var before, w := Winners(front, envelopes, epoch, now), SearchFor(last, envelopes, epoch, now).winner;
      forall e | e in Winners(reqs, envelopes, epoch, now) ensures MeetsOne(reqs, envelopes, epoch, now, e) {
        if e in before {
          assert MeetsOne(front, envelopes, epoch, now, e);
          var r :| r in front && Meets(r, e, epoch, now);
          assert r in reqs;
        } else {
          assert w == Some(e) && last in reqs;
        }
      }
      forall r | r in reqs && exists e :: e in envelopes && Meets(r, e, epoch, now)
        ensures exists e :: e in Winners(reqs, envelopes, epoch, now) && Meets(r, e, epoch, now)
      {
        if r in front {
          var e :| e in before && Meets(r, e, epoch, now);
          assert e in Winners(reqs, envelopes, epoch, now);
        } else {
          assert r == last && w.Some? && w.value in Winners(reqs, envelopes, epoch, now);
        }
      }
    }
  }

  lemma {:induction false} ScanPasses<T>(candidates: seq<T>, eligible: T -> bool, current: T -> bool)
    ensures forall c :: c in Scan(candidates, eligible, current).stale ==> c in candidates && eligible(c) && !current(c)
  {
    if candidates != [] {
      ScanPasses(candidates[1..], eligible, current);
      assert candidates == [candidates[0]] + candidates[1..];
    }
  }

  /** e is of the type and from a producer some requirement asks for, but does not meet it. */
  ghost predicate MissesOne(reqs: seq<EvidenceRequirement>, envelopes: seq<EvidenceEnvelope>, epoch: AssuranceEpoch, now: int,
                            e: EvidenceEnvelope)
  {
    e in envelopes && exists r :: r in reqs && Misses(r, e, epoch, now)
  }

  ghost predicate Misses(r: EvidenceRequirement, e: EvidenceEnvelope, epoch: AssuranceEpoch, now: int) {
    && TypesAgree(e.observationType, r.evidenceType) && ProducerAllowed(r.acceptedProducers, e.producer.Canonical())
    && !(EpochMet(e.epoch, epoch) && InWindow(r, e, now))
  }

  lemma SeenMisses(r: EvidenceRequirement, envelopes: seq<EvidenceEnvelope>, epoch: AssuranceEpoch, now: int)
    ensures forall e :: e in SearchFor(r, envelopes, epoch, now).stale ==> e in envelopes && Misses(r, e, epoch, now)
  {
    ScanPasses(Filter(envelopes, TypeMatches(r)), FromAccepted(r), IsCurrent(r, epoch, now));
    forall e | e in SearchFor(r, envelopes, epoch, now).stale ensures e in envelopes && Misses(r, e, epoch, now) {
      FilterMembers(envelopes, TypeMatches(r), e);
      MeetsExactly(r, e, epoch, now);
    }
  }

  lemma {:induction false} StaleMiss(reqs: seq<EvidenceRequirement>, envelopes: seq<EvidenceEnvelope>,
                                     epoch: AssuranceEpoch, now: int)
    ensures forall e :: e in StaleSeen(reqs, envelopes, epoch, now) ==> MissesOne(reqs, envelopes, epoch, now, e)
  {
    if reqs != [] {
      var front, last := reqs[..|reqs| - 1], reqs[|reqs| - 1];
      StaleMiss(front, envelopes, epoch, now);
      SeenMisses(last, envelopes, epoch, now);
      forall e | e in StaleSeen(reqs, envelopes, epoch, now) ensures MissesOne(reqs, envelopes, epoch, now, e) {
        if e in StaleSeen(front, envelopes, epoch, now) {
          var r :| r in front && Misses(r, e, epoch, now);
          assert r in reqs;
        } else {
          assert last in reqs;
        }
      }
    }
  }

  /** What the lists of a result hold: as verified only envelopes that meet some requirement, with one
      for each requirement that can be met; as stale only envelopes that fail some requirement in
      epoch or time alone; as missing exactly the required requirements that none meets. */
  lemma ListsExactly(c: EvidenceContract, envelopes: seq<EvidenceEnvelope>, epoch: AssuranceEpoch, now: int)
    ensures var res := Evaluation(c, envelopes, epoch, now);
            && (forall e :: e in res.verifiedEvidences ==> MeetsOne(c.requirements, envelopes, epoch, now, e))
            && (forall r :: r in c.requirements && (exists e :: e in envelopes && Meets(r, e, epoch, now)) ==>
                              exists e :: e in res.verifiedEvidences && Meets(r, e, epoch, now))
            && (forall e :: e in res.staleEvidences ==> MissesOne(c.requirements, envelopes, epoch, now, e))
            && (forall r :: r in res.missingRequirements <==>
                              && r in c.requirements && r.required
                              && !exists e :: e in envelopes && Meets(r, e, epoch, now))
  {
    WinnersMeet(c.requirements, envelopes, epoch, now);
    StaleMiss(c.requirements, envelopes, epoch, now);
    forall r ensures r in Evaluation(c, envelopes, epoch, now).missingRequirements <==>
                     r in c.requirements && r.required && !exists e :: e in envelopes && Meets(r, e, epoch, now)
    {
      FilterMembers(c.requirements, Unmet(envelopes, epoch, now), r);
      WitnessedExactly(r, envelopes, epoch, now);
    }
  }

  /** The condition on ageing is sharp: every envelope that matures makes a contract that asks for
      it alone STALE at first and VERIFIED later, under one and the same epoch. */
  lemma MaturingRecovers(r: EvidenceRequirement, e: EvidenceEnvelope, onMissing: AssuranceState,
                          epoch: AssuranceEpoch, now: int, later: int)
    requires r.required && r.maxAge > 0 && Bears(r, e) && Matches(e.epoch, epoch)
    requires now < e.capturedAt <= later <= e.capturedAt + r.maxAge
    ensures var c := EvidenceContract("c", [r], onMissing);
            && !NoneMatures(c, [e], now, later)
            && Evaluation(c, [e], epoch, now).state == Stale
            && Evaluation(c, [e], epoch, later).state == Verified
  {
    var c := EvidenceContract("c", [r], onMissing);
    assert r in c.requirements && e in [e];
    VerdictMeaning(c, [e], epoch, now);
    VerdictMeaning(c, [e], epoch, later);
    CountersBalance(c.requirements, [e], epoch, now);
  }

  /** Producer patterns: a trailing '*' admits everything under the prefix, and a bare scheme
      everything of that scheme; names compare without regard to case. */
  lemma ProducerPatterns(r: EvidenceRequirement, prefix: string, rest: string)
    ensures prefix + "*" in r.acceptedProducers ==> ProducerAccepted(r, prefix + rest)
    ensures prefix in r.acceptedProducers ==> ProducerAccepted(r, prefix + "://" + rest)
    ensures prefix in r.acceptedProducers ==> ProducerAccepted(r, Lower(prefix))
  {
    assert HasSuffix(prefix + "*", "*") && TrimSuffix(prefix + "*", "*") == prefix;
    assert (prefix + rest)[..|prefix|] == prefix;
    assert (prefix + "://" + rest)[..|prefix + "://"|] == prefix + "://";
    assert Lower(Lower(prefix)) == Lower(prefix);
    assert Accepts(prefix + "*", prefix + rest) && Accepts(prefix, prefix + "://" + rest) && Accepts(prefix, Lower(prefix));
  }
}
