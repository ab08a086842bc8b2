/** Capability leases: a bounded number of turns, each admitted turn extending a hash chain of
    receipts. CapabilityLease is the mutable record; LeaseState is its value, on which runs of
    the protocol are stated. */
module Leases {
  import opened Text
  import opened Seqs
  import opened Digests

  datatype Disposition = ADMIT | DENY | QUARANTINE {
    function Text(): string {
      match this
      case ADMIT => "ADMIT"
      case DENY => "DENY"
      case QUARANTINE => "QUARANTINE"
    }
  }

  /** Why a receipt says what it says. The wording is not hashed, so it stays structured. */
  datatype Reason =
    | NotStated
    | ChainViolation(expected: string, got: string)
    | NotActive(phase: LeasePhase)
    | ExceedsGrant(capability: string)
    | VerifiedAndAdmitted

  datatype LeasePhase = ACTIVE | EXHAUSTED | EXPIRED | REVOKED

  datatype CheckReceipt = CheckReceipt(
    receiptId: string,
    leaseId: string,
    turn: int,
    capability: string,
    disposition: Disposition,
    reason: Reason,
    payloadHash: string,
    prevHash: string,
    receiptHash: string,
    timestamp: int)

  /** Everything of a receipt that enters its hash: all of it but the reason and the hash itself. */
  function HashedFields(r: CheckReceipt): seq<string> {
    [r.receiptId, r.leaseId, Dec(r.turn), r.capability, r.disposition.Text(), r.payloadHash, r.prevHash, Dec(r.timestamp)]
  }

  function Preimage(r: CheckReceipt): string {
    Join(HashedFields(r), '|')
  }

  /** How a lease hashes receipts and payloads. The protocol does not look inside; the claims
      about collisions are made for Sha256. */
  datatype Hashing = Hashing(receipt: CheckReceipt -> string, payload: string -> string)

  function ReceiptHash(sha: Sha): CheckReceipt -> string {
    (r: CheckReceipt) => sha(Preimage(r))
  }

  /** The part of a receipt that may enter its hash. */
  function Core(r: CheckReceipt): CheckReceipt {
    r.(reason := NotStated, receiptHash := "")
  }

  function ComputeHash(h: Hashing, r: CheckReceipt): string {
    h.receipt(Core(r))
  }

  function Sha256(sha: Sha): Hashing {
    Hashing(ReceiptHash(sha), sha)
  }

  lemma HashesPreimage(sha: Sha, r: CheckReceipt)
    ensures ComputeHash(Sha256(sha), r) == sha(Preimage(r))
  {
    assert Preimage(Core(r)) == Preimage(r);
  }

  datatype LeaseState = LeaseState(
    id: string,
    principal: string,
    scope: string,
    allowed: seq<string>,
    maxTurns: int,
    currentTurn: int,
    issuedAt: int,
    expiresAt: int,
    revoked: bool,
    revocationReason: string,
    lastReceiptHash: string)

  function NewLease(id: string, principal: string, scope: string, allowed: seq<string>,
                    maxTurns: int, now: int, ttl: int): LeaseState
  {
    LeaseState(id, principal, scope, allowed, maxTurns, 0, now, now + ttl, false, "", GENESIS)
  }

  function Phase(s: LeaseState, now: int): LeasePhase {
    if s.revoked then REVOKED
    else if now > s.expiresAt then EXPIRED
    else if s.maxTurns > 0 && s.currentTurn >= s.maxTurns then EXHAUSTED
    else ACTIVE
  }

  predicate Allowed(s: LeaseState, capability: string) {
    capability in s.allowed || "*" in s.allowed
  }

  /** A request is admitted when it names the current head, the lease is active and the
      capability is granted. */
  predicate Admits(s: LeaseState, capability: string, prevHash: string, now: int) {
    prevHash == s.lastReceiptHash && Phase(s, now) == ACTIVE && Allowed(s, capability)
  }

  function ReasonFor(s: LeaseState, capability: string, prevHash: string, now: int): Reason {
    if prevHash != s.lastReceiptHash then ChainViolation(s.lastReceiptHash, prevHash)
    else if Phase(s, now) != ACTIVE then NotActive(Phase(s, now))
    else if !Allowed(s, capability) then ExceedsGrant(capability)
    else VerifiedAndAdmitted
  }

  /** The receipt a request gets. */
  function Issue(h: Hashing, s: LeaseState, capability: string, payload: string, prevHash: string,
                 now: int): CheckReceipt
  {
    var r := CheckReceipt(
               "rcpt-" + s.id + "-turn-" + Dec(s.currentTurn + 1), s.id, s.currentTurn + 1, capability,
               if Admits(s, capability, prevHash, now) then ADMIT else DENY,
               ReasonFor(s, capability, prevHash, now), h.payload(payload), prevHash, "", now);
    r.(receiptHash := ComputeHash(h, r))
  }

  /** The lease after a request: an admission advances the turn and moves the head to the new
      receipt, a denial leaves every field alone. */
  function AfterTurn(h: Hashing, s: LeaseState, capability: string, payload: string, prevHash: string,
                     now: int): LeaseState
  {
    if Admits(s, capability, prevHash, now) then
      s.(currentTurn := s.currentTurn + 1,
         lastReceiptHash := Issue(h, s, capability, payload, prevHash, now).receiptHash)
    else s
  }

  class CapabilityLease {
    var id: string
    var principal: string
    var scope: string
    var allowedCapabilities: seq<string>
    var maxTurns: int
    var currentTurn: int
    var issuedAt: int
    var expiresAt: int
    var revoked: bool
    var revocationReason: string
    var lastReceiptHash: string

    function State(): LeaseState
      reads this
    {
      LeaseState(id, principal, scope, allowedCapabilities, maxTurns, currentTurn, issuedAt, expiresAt,
                 revoked, revocationReason, lastReceiptHash)
    }

    constructor (id: string, principal: string, scope: string, allowed: seq<string>, maxTurns: int, now: int, ttl: int)
      ensures State() == NewLease(id, principal, scope, allowed, maxTurns, now, ttl)
      ensures this.id == id && this.principal == principal && this.scope == scope
      ensures allowedCapabilities == allowed && this.maxTurns == maxTurns && currentTurn == 0
      ensures issuedAt == now && expiresAt == now + ttl && !revoked
      ensures |lastReceiptHash| == 64 && forall c :: c in lastReceiptHash ==> c == '0'
    {
      this.id, this.principal, this.scope := id, principal, scope;
      this.allowedCapabilities, this.maxTurns, this.currentTurn := allowed, maxTurns, 0;
      this.issuedAt, this.expiresAt := now, now + ttl;
      this.revoked, this.revocationReason, this.lastReceiptHash := false, "", GENESIS;
    }

    method Revoke(reason: string)
      modifies this
      ensures State() == old(State()).(revoked := true, revocationReason := reason)
    {
      revoked := true;
      revocationReason := reason;
    }

    /** Gates one request; ok is false where the source returns an error beside the receipt. */
    method EvaluateTurn(h: Hashing, capability: string, payload: string, prevHash: string, now: int)
      returns (receipt: CheckReceipt, ok: bool)
      modifies this
      ensures State() == AfterTurn(h, old(State()), capability, payload, prevHash, now)
      ensures receipt == Issue(h, old(State()), capability, payload, prevHash, now)
      ensures ok <==> receipt.disposition == ADMIT
      ensures ok <==> old(prevHash == lastReceiptHash && !revoked && now <= expiresAt && (maxTurns <= 0 || currentTurn < maxTurns)
                          && (capability in allowedCapabilities || "*" in allowedCapabilities))
      ensures receipt.leaseId == id && receipt.turn == old(currentTurn) + 1 && receipt.capability == capability
      ensures receipt.payloadHash == h.payload(payload) && receipt.prevHash == prevHash && receipt.timestamp == now
      ensures receipt.receiptHash == ComputeHash(h, receipt)
      ensures ok ==> receipt.reason == VerifiedAndAdmitted
      ensures prevHash != old(lastReceiptHash) ==> receipt.reason == ChainViolation(old(lastReceiptHash), prevHash)
      ensures old(prevHash == lastReceiptHash && revoked) ==> receipt.reason == NotActive(REVOKED)
      ensures old(prevHash == lastReceiptHash && !revoked && now > expiresAt) ==> receipt.reason == NotActive(EXPIRED)
      ensures old(prevHash == lastReceiptHash && !revoked && now <= expiresAt && 0 < maxTurns <= currentTurn) ==>
                receipt.reason == NotActive(EXHAUSTED)
      ensures currentTurn == old(currentTurn) + (if ok then 1 else 0)
      ensures lastReceiptHash == if ok then receipt.receiptHash else old(lastReceiptHash)
    {
      IssueSeals(h, State(), capability, payload, prevHash, now);
      var currentPhase := Phase(State(), now);
      receipt := CheckReceipt("rcpt-" + id + "-turn-" + Dec(currentTurn + 1), id, currentTurn + 1, capability,
                              DENY, NotStated, h.payload(payload), prevHash, "", now);
      if prevHash != lastReceiptHash {
        receipt := receipt.(disposition := DENY, reason := ChainViolation(lastReceiptHash, prevHash));
        receipt := receipt.(receiptHash := ComputeHash(h, receipt));
        return receipt, false;
      }
      if currentPhase != ACTIVE {
        receipt := receipt.(disposition := DENY, reason := NotActive(currentPhase));
        receipt := receipt.(receiptHash := ComputeHash(h, receipt));
        return receipt, false;
      }
      var granted := false;
      for i := 0 to |allowedCapabilities|
        invariant !granted
        invariant forall j :: 0 <= j < i ==> allowedCapabilities[j] != capability && allowedCapabilities[j] != "*"
      {
        if allowedCapabilities[i] == capability || allowedCapabilities[i] == "*" {
          granted := true;
          break;
        }
      }
      if !granted {
        receipt := receipt.(disposition := DENY, reason := ExceedsGrant(capability));
        receipt := receipt.(receiptHash := ComputeHash(h, receipt));
        return receipt, false;
      }
      currentTurn := currentTurn + 1;
      receipt := receipt.(disposition := ADMIT, reason := VerifiedAndAdmitted);
      receipt := receipt.(receiptHash := ComputeHash(h, receipt));
      lastReceiptHash := receipt.receiptHash;
      ok := true;
    }
  }

  // ----- Runs of one lease -----

  datatype Event =
    | Request(capability: string, payload: string, prevHash: string, now: int)
    | Revocation(why: string)

  datatype Trace = Trace(lease: LeaseState, receipts: seq<CheckReceipt>)

  function Step(h: Hashing, t: Trace, e: Event): Trace {
    match e
    case Request(capability, payload, prevHash, now) =>
      Trace(AfterTurn(h, t.lease, capability, payload, prevHash, now),
            t.receipts + [Issue(h, t.lease, capability, payload, prevHash, now)])
    case Revocation(why) =>
      t.(lease := t.lease.(revoked := true, revocationReason := why))
  }

  function Run(h: Hashing, s: LeaseState, es: seq<Event>): Trace {
    if es == [] then Trace(s, [])
    else Step(h, Run(h, s, es[..|es| - 1]), es[|es| - 1])
  }

  function IsAdmitted(): CheckReceipt -> bool {
    (r: CheckReceipt) => r.disposition == ADMIT
  }

  function Admitted(receipts: seq<CheckReceipt>): seq<CheckReceipt> {
    Filter(receipts, IsAdmitted())
  }

  lemma IssueSeals(h: Hashing, s: LeaseState, capability: string, payload: string, prevHash: string, now: int)
    ensures var r := Issue(h, s, capability, payload, prevHash, now); r.receiptHash == ComputeHash(h, r)
  {
    var r := Issue(h, s, capability, payload, prevHash, now);
    assert Core(r) == Core(r.(receiptHash := ""));
  }

  lemma AdmittedSnoc(receipts: seq<CheckReceipt>, r: CheckReceipt)
    ensures Admitted(receipts + [r]) == Admitted(receipts) + if r.disposition == ADMIT then [r] else []
  {
    FilterSnoc(receipts, r, IsAdmitted());
  }

  /** Receipts numbered from 1, each hashing its own fields and naming its predecessor's hash,
      leading from one head to another. */
  ghost predicate Chain(h: Hashing, receipts: seq<CheckReceipt>, from: string, to: string) {
    if receipts == [] then to == from
    else
      var r := receipts[|receipts| - 1];
      && r.turn == |receipts|
      && to == r.receiptHash == ComputeHash(h, r)
      && Chain(h, receipts[..|receipts| - 1], from, r.prevHash)
  }

  /** What a chain says at one position. */
  lemma {:induction false} ChainLink(h: Hashing, receipts: seq<CheckReceipt>, from: string, to: string, k: nat)
    requires Chain(h, receipts, from, to) && k < |receipts|
    ensures receipts[k].turn == k + 1 && receipts[k].receiptHash == ComputeHash(h, receipts[k])
    ensures receipts[k].prevHash == if k == 0 then from else receipts[k - 1].receiptHash
    ensures to == receipts[|receipts| - 1].receiptHash
  {
    var n := |receipts| - 1;
    if k < n {
      ChainLink(h, receipts[..n], from, receipts[n].prevHash, k);
    } else if n > 0 {
      ChainLink(h, receipts[..n], from, receipts[n].prevHash, 0);
    }
  }

  /** Successive chain heads: the starting head, then every receipt hash. */
  function Heads(from: string, receipts: seq<CheckReceipt>): seq<string> {
    seq(|receipts| + 1, i requires 0 <= i <= |receipts| => if i == 0 then from else receipts[i - 1].receiptHash)
  }

  predicate SameGrant(s: LeaseState, t: LeaseState) {
    s.id == t.id && s.principal == t.principal && s.scope == t.scope && s.allowed == t.allowed &&
    s.maxTurns == t.maxTurns && s.issuedAt == t.issuedAt && s.expiresAt == t.expiresAt
  }

  predicate IssuedBy(s: LeaseState, r: CheckReceipt) {
    r.leaseId == s.id && r.receiptId == "rcpt-" + s.id + "-turn-" + Dec(r.turn)
  }

  /** A lease that was just granted: no turn used, head at genesis. */
  predicate Fresh(s: LeaseState) {
    s.currentTurn == 0 && s.lastReceiptHash == GENESIS && !s.revoked
  }

  lemma ChainExtends(h: Hashing, receipts: seq<CheckReceipt>, from: string, r: CheckReceipt)
    requires Chain(h, receipts, from, r.prevHash)
    requires r.turn == |receipts| + 1 && r.receiptHash == ComputeHash(h, r)
    ensures Chain(h, receipts + [r], from, r.receiptHash)
  {
    assert (receipts + [r])[..|receipts|] == receipts;
  }

  /** The state of a run of lease s: the admitted receipts carry turns 1..currentTurn and chain
      from genesis to the head, the bound on turns holds, each admission was granted and in time,
      and the grant itself never changed. */
  ghost predicate Sound(h: Hashing, s: LeaseState, t: Trace) {
    var admitted := Admitted(t.receipts);
    && SameGrant(s, t.lease)
    && |admitted| == t.lease.currentTurn
    && Chain(h, admitted, GENESIS, t.lease.lastReceiptHash)
    && (s.maxTurns > 0 ==> t.lease.currentTurn <= s.maxTurns)
    && forall r :: r in admitted ==> IssuedBy(s, r) && Allowed(s, r.capability) && r.timestamp <= s.expiresAt
  }

  lemma AdmissionKeepsSound(h: Hashing, s: LeaseState, t: Trace, lease: LeaseState, r: CheckReceipt)
    requires Sound(h, s, t) && IssuedBy(s, r) && Allowed(s, r.capability) && r.timestamp <= s.expiresAt && r.disposition == ADMIT
    requires r.prevHash == t.lease.lastReceiptHash && r.turn == t.lease.currentTurn + 1 && r.receiptHash == ComputeHash(h, r)
    requires SameGrant(s, lease) && lease.currentTurn == r.turn && lease.lastReceiptHash == r.receiptHash
    requires s.maxTurns > 0 ==> r.turn <= s.maxTurns
    ensures Sound(h, s, Trace(lease, t.receipts + [r]))
  {
    AdmittedSnoc(t.receipts, r);
    ChainExtends(h, Admitted(t.receipts), GENESIS, r);
  }

  lemma StepKeepsSound(h: Hashing, s: LeaseState, t: Trace, e: Event)
    requires Sound(h, s, t)
    ensures Sound(h, s, Step(h, t, e))
  {
    if e.Request? {
      var r := Issue(h, t.lease, e.capability, e.payload, e.prevHash, e.now);
      if r.disposition == ADMIT {
        IssueSeals(h, t.lease, e.capability, e.payload, e.prevHash, e.now);
        AdmissionKeepsSound(h, s, t, Step(h, t, e).lease, r);
      } else {
        AdmittedSnoc(t.receipts, r);
        assert Admitted(t.receipts + [r]) == Admitted(t.receipts);
      }
    }
  }

  /** Every run of a fresh lease stays sound. */
  lemma {:induction false} RunInvariant(h: Hashing, s: LeaseState, es: seq<Event>)
    requires Fresh(s)
    ensures Sound(h, s, Run(h, s, es))
  {
    if es != [] {
      RunInvariant(h, s, es[..|es| - 1]);
      StepKeepsSound(h, s, Run(h, s, es[..|es| - 1]), es[|es| - 1]);
    }
  }

  /** What a request has to meet, in terms of the lease's fields alone. */
  predicate Welcome(s: LeaseState, capability: string, prevHash: string, now: int) {
    && prevHash == s.lastReceiptHash && !s.revoked && now <= s.expiresAt
    && (s.maxTurns <= 0 || s.currentTurn < s.maxTurns)
    && (capability in s.allowed || "*" in s.allowed)
  }

  /** A denial, for whatever reason, changes no field; an admission always uses one turn. */
  lemma DenialChangesNothing(h: Hashing, s: LeaseState, capability: string, payload: string, prevHash: string, now: int)
    ensures var r := Issue(h, s, capability, payload, prevHash, now);
            var s' := AfterTurn(h, s, capability, payload, prevHash, now);
            && (r.disposition == DENY <==> s' == s)
            && (r.disposition == ADMIT <==> s'.currentTurn == s.currentTurn + 1)
            && (r.disposition == ADMIT <==> Welcome(s, capability, prevHash, now))
            && s'.lastReceiptHash == (if r.disposition == ADMIT then ComputeHash(h, r) else s.lastReceiptHash)
  {
  }

  ghost predicate ClockFrom(es: seq<Event>, start: int) {
    && (forall i :: 0 <= i < |es| && es[i].Request? ==> start <= es[i].now)
    && (forall i, j :: 0 <= i < j < |es| && es[i].Request? && es[j].Request? ==> es[i].now <= es[j].now)
  }

  /** Revoked, or out of turns. */
  predicate Spent(s: LeaseState) {
    s.revoked || (s.maxTurns > 0 && s.currentTurn >= s.maxTurns)
  }

  /** A lease that is revoked or out of turns stays so, and admits nothing more, whatever the clock
      says. */
  lemma {:induction false} SpentForever(h: Hashing, s: LeaseState, es: seq<Event>)
    requires Spent(s)
    ensures Spent(Run(h, s, es).lease) && (s.revoked ==> Run(h, s, es).lease.revoked)
    ensures Admitted(Run(h, s, es).receipts) == []
  {
    if es != [] {
      var n := |es| - 1;
      SpentForever(h, s, es[..n]);
      SpentStep(h, Run(h, s, es[..n]), es[n]);
    }
  }

  lemma SpentStep(h: Hashing, t: Trace, e: Event)
    requires Spent(t.lease)
    ensures Spent(Step(h, t, e).lease) && (t.lease.revoked ==> Step(h, t, e).lease.revoked)
    ensures Admitted(Step(h, t, e).receipts) == Admitted(t.receipts)
  {
    if e.Request? {
      var r := Issue(h, t.lease, e.capability, e.payload, e.prevHash, e.now);
      AdmittedSnoc(t.receipts, r);
      assert r.disposition == DENY;
      assert Admitted(t.receipts) + [] == Admitted(t.receipts);
    }
  }

  lemma {:induction false} RunConcat(h: Hashing, s: LeaseState, es: seq<Event>, fs: seq<Event>)
    ensures var t, u := Run(h, s, es), Run(h, Run(h, s, es).lease, fs);
            Run(h, s, es + fs) == Trace(u.lease, t.receipts + u.receipts)
  {
    if fs == [] {
      assert es + fs == es;
    } else {
      var n := |fs| - 1;
      RunConcat(h, s, es, fs[..n]);
      assert (es + fs)[..|es + fs| - 1] == es + fs[..n] && (es + fs)[|es + fs| - 1] == fs[n];
      StepAfter(h, Run(h, s, es).receipts, Run(h, Run(h, s, es).lease, fs[..n]), fs[n]);
    }
  }

  lemma StepAfter(h: Hashing, before: seq<CheckReceipt>, t: Trace, e: Event)
    ensures Step(h, Trace(t.lease, before + t.receipts), e) == Trace(Step(h, t, e).lease, before + Step(h, t, e).receipts)
  {
  }

  /** Revocation is final: in every run, whatever comes after a revocation, at whatever times, the
      receipts admitted are those admitted before it. */
  lemma RevocationIsFinal(h: Hashing, s: LeaseState, es: seq<Event>, i: nat)
    requires i < |es| && es[i].Revocation?
    ensures Run(h, s, es).lease.revoked
    ensures Admitted(Run(h, s, es).receipts) == Admitted(Run(h, s, es[..i]).receipts)
  {
    var upTo, rest := es[..i + 1], es[i + 1..];
    assert es == upTo + rest && upTo[..i] == es[..i];
    var revoked := Run(h, s, upTo);
    assert revoked.receipts == Run(h, s, es[..i]).receipts && revoked.lease.revoked;
    RunConcat(h, s, upTo, rest);
    SpentForever(h, revoked.lease, rest);
    FilterConcat(revoked.receipts, Run(h, revoked.lease, rest).receipts, IsAdmitted());
  }

  /** With a clock that does not run backwards, a lease that has left ACTIVE never returns, and
      from then on nothing is admitted. */
  lemma {:induction false} InactiveForever(h: Hashing, s: LeaseState, es: seq<Event>, now: int, later: int)
    requires Phase(s, now) != ACTIVE && ClockFrom(es, now) && now <= later
    ensures Phase(Run(h, s, es).lease, later) != ACTIVE
    ensures Admitted(Run(h, s, es).receipts) == []
  {
    if es != [] {
      var n := |es| - 1;
      InactiveForever(h, s, es[..n], now, later);
      var before, after := Run(h, s, es[..n]), Run(h, s, es);
      if es[n].Request? {
        InactiveForever(h, s, es[..n], now, es[n].now);
        assert after.receipts[..|after.receipts| - 1] == before.receipts;
      }
    }
  }

  // ----- No replay -----

  ghost function Preimages(receipts: seq<CheckReceipt>): set<string> {
    set r | r in receipts :: Preimage(r)
  }

  lemma PreimageByTurn(s: LeaseState, r: CheckReceipt, lead: string)
    requires IssuedBy(s, r) && lead == "rcpt-" + s.id + "-turn-"
    ensures Preimage(r) == lead + (Dec(r.turn) + "|" + Join(HashedFields(r)[1..], '|'))
  {
    var p := Join(HashedFields(r)[1..], '|');
    assert Preimage(r) == r.receiptId + "|" + p;
    assert r.receiptId == lead + Dec(r.turn);
  }

  /** Receipts of one lease with different turn numbers hash different texts, whatever the
      capability, payload or IDs contain: the decimal turn ends at the first '|'. */
  lemma TurnInPreimage(s: LeaseState, a: CheckReceipt, b: CheckReceipt)
    requires IssuedBy(s, a) && IssuedBy(s, b) && Preimage(a) == Preimage(b)
    ensures a.turn == b.turn
  {
    var lead := "rcpt-" + s.id + "-turn-";
    var p, q := Join(HashedFields(a)[1..], '|'), Join(HashedFields(b)[1..], '|');
    PreimageByTurn(s, a, lead);
    PreimageByTurn(s, b, lead);
    DropLead(lead, Dec(a.turn) + "|" + p, Dec(b.turn) + "|" + q);
    DecClean(a.turn);
    DecClean(b.turn);
    CutFirst(Dec(a.turn), p, Dec(b.turn), q, '|');
    DecInjective(a.turn, b.turn);
  }

  ghost predicate TurnsDistinct(h: Hashing, receipts: seq<CheckReceipt>) {
    forall i, j :: 0 <= i < |receipts| && 0 <= j < |receipts| && ComputeHash(h, receipts[i]) == ComputeHash(h, receipts[j]) ==>
                     receipts[i].turn == receipts[j].turn
  }

  /** The part of no-replay that any hashing shares: if it tells receipts of different turns
      apart, the receipts of a chain have different hashes. */
  lemma HashesDiffer(h: Hashing, admitted: seq<CheckReceipt>, last: string, i: nat, j: nat)
    requires Chain(h, admitted, GENESIS, last) && TurnsDistinct(h, admitted) && i < j < |admitted|
    ensures admitted[i].receiptHash != admitted[j].receiptHash
  {
    ChainLink(h, admitted, GENESIS, last, i);
    ChainLink(h, admitted, GENESIS, last, j);
  }

  /** The hypothesis about SHA-256: no collision among these receipts, and none at genesis. */
  ghost predicate ReplaySafe(sha: Sha, receipts: seq<CheckReceipt>) {
    CollisionFree(sha, Preimages(receipts)) && forall r :: r in receipts ==> r.receiptHash != GENESIS
  }

  /** All chain heads differ, and so no head is presented by two admitted requests. */
  ghost predicate HeadsUsedOnce(admitted: seq<CheckReceipt>) {
    && (forall i, j :: 0 <= i < j <= |admitted| ==> Heads(GENESIS, admitted)[i] != Heads(GENESIS, admitted)[j])
    && (forall i, j :: 0 <= i < j < |admitted| ==> admitted[i].prevHash != admitted[j].prevHash)
  }

  lemma DistinctTurns(sha: Sha, s: LeaseState, admitted: seq<CheckReceipt>)
    requires CollisionFree(sha, Preimages(admitted)) && forall r :: r in admitted ==> IssuedBy(s, r)
    ensures TurnsDistinct(Sha256(sha), admitted)
  {
    var h := Sha256(sha);
    forall i, j | 0 <= i < |admitted| && 0 <= j < |admitted| && ComputeHash(h, admitted[i]) == ComputeHash(h, admitted[j])
      ensures admitted[i].turn == admitted[j].turn
    {
      var a, b := admitted[i], admitted[j];
      assert a in admitted && b in admitted;
      HashesPreimage(sha, a);
      HashesPreimage(sha, b);
      assert Preimage(a) in Preimages(admitted) && Preimage(b) in Preimages(admitted);
      TurnInPreimage(s, a, b);
    }
  }

  lemma ChainUsesHeadsOnce(h: Hashing, admitted: seq<CheckReceipt>, last: string)
    requires Chain(h, admitted, GENESIS, last) && TurnsDistinct(h, admitted)
    requires forall i :: 0 <= i < |admitted| ==> admitted[i].receiptHash != GENESIS
    ensures HeadsUsedOnce(admitted)
  {
    var heads := Heads(GENESIS, admitted);
    forall i, j | 0 <= i < j <= |admitted| ensures heads[i] != heads[j] {
      if i > 0 {
        HashesDiffer(h, admitted, last, i - 1, j - 1);
      }
    }
    forall i | 0 <= i < |admitted| ensures admitted[i].prevHash == heads[i] {
      ChainLink(h, admitted, GENESIS, last, i);
    }
  }

  /** No replay: if SHA-256 does not collide on the admitted receipts and none of them hashes to
      the genesis value, all chain heads of a run are distinct, so each head is consumed by at
      most one admission. */
  lemma NoReplay(sha: Sha, s: LeaseState, es: seq<Event>)
    requires Fresh(s) && ReplaySafe(sha, Admitted(Run(Sha256(sha), s, es).receipts))
    ensures HeadsUsedOnce(Admitted(Run(Sha256(sha), s, es).receipts))
  {
    RunInvariant(Sha256(sha), s, es);
    var t := Run(Sha256(sha), s, es);
    DistinctTurns(sha, s, Admitted(t.receipts));
    ChainUsesHeadsOnce(Sha256(sha), Admitted(t.receipts), t.lease.lastReceiptHash);
  }

  /** Two requests that race with the same head cannot both win, in whatever order and however
      far apart they are served. */
  lemma RaceHasOneWinner(sha: Sha, s: LeaseState, es: seq<Event>, i: nat, j: nat)
    requires Fresh(s) && ReplaySafe(sha, Admitted(Run(Sha256(sha), s, es).receipts))
    requires i < j < |Run(Sha256(sha), s, es).receipts|
    requires Run(Sha256(sha), s, es).receipts[i].prevHash == Run(Sha256(sha), s, es).receipts[j].prevHash
    ensures var receipts := Run(Sha256(sha), s, es).receipts;
            receipts[i].disposition != ADMIT || receipts[j].disposition != ADMIT
  {
    var receipts := Run(Sha256(sha), s, es).receipts;
    if receipts[i].disposition == ADMIT && receipts[j].disposition == ADMIT {
      var a, b := FilterOrder(receipts, IsAdmitted(), i, j);
      NoReplay(sha, s, es);
      assert false;
    }
  }

  // ----- Tamper evidence -----

  /** The text fields of a receipt, other than the capability, hold no '|'. */
  predicate Unambiguous(r: CheckReceipt) {
    '|' !in r.receiptId && '|' !in r.leaseId && '|' !in r.payloadHash && '|' !in r.prevHash
  }

  predicate SameHashedFields(a: CheckReceipt, b: CheckReceipt) {
    Core(a) == Core(b)
  }

  /** The preimage determines every hashed field. The capability is the one text the client
      chooses freely, and it may even contain separators: the other fields pin it from both sides. */
  lemma PreimageInjective(a: CheckReceipt, b: CheckReceipt)
    requires Unambiguous(a) && Unambiguous(b)
    ensures Preimage(a) == Preimage(b) <==> SameHashedFields(a, b)
  {
    if Preimage(a) == Preimage(b) {
      var f, g := HashedFields(a), HashedFields(b);
      DecClean(a.turn);
      DecClean(b.turn);
      DecClean(a.timestamp);
      DecClean(b.timestamp);
      JoinInjectiveAround(f, g, 3, '|');
      assert forall i :: 0 <= i < 8 ==> f[i] == g[i];
      DecInjective(a.turn, b.turn);
      DecInjective(a.timestamp, b.timestamp);
      assert f[4] == a.disposition.Text() && g[4] == b.disposition.Text();
      assert a.disposition == b.disposition;
      assert f[0] == g[0] && f[1] == g[1] && f[3] == g[3] && f[4] == g[4] && f[5] == g[5] && f[6] == g[6];
    }
  }

  ghost predicate Twins(r: CheckReceipt, b: CheckReceipt) {
    Preimage(b) == Preimage(r) && !SameHashedFields(b, r)
  }

  /** Receipt and lease ID trade text across their separator. */
  lemma TwinByIds(r: CheckReceipt) returns (b: CheckReceipt)
    requires '|' in r.receiptId || '|' in r.leaseId
    ensures Twins(r, b)
  {
    if '|' in r.receiptId {
      var p, q := CutAt(r.receiptId, '|');
      b := r.(receiptId := p, leaseId := q + "|" + r.leaseId);
      assert r.receiptId + "|" + r.leaseId == b.receiptId + "|" + b.leaseId;
      SameAround(HashedFields(r), HashedFields(b), 0);
      MoveAcross(HashedFields(r), HashedFields(b), 0, '|');
      assert |Core(b).receiptId| < |Core(r).receiptId|;
    } else {
      var p, q := CutAt(r.leaseId, '|');
      b := r.(receiptId := r.receiptId + "|" + p, leaseId := q);
      assert r.receiptId + "|" + r.leaseId == b.receiptId + "|" + b.leaseId;
      SameAround(HashedFields(r), HashedFields(b), 0);
      MoveAcross(HashedFields(r), HashedFields(b), 0, '|');
      assert |Core(b).receiptId| > |Core(r).receiptId|;
    }
  }

  /** Payload and previous hash trade text across their separator. */
  lemma TwinByHashes(r: CheckReceipt) returns (b: CheckReceipt)
    requires '|' in r.payloadHash || '|' in r.prevHash
    ensures Twins(r, b)
  {
    if '|' in r.payloadHash {
      var p, q := CutAt(r.payloadHash, '|');
      b := r.(payloadHash := p, prevHash := q + "|" + r.prevHash);
      assert r.payloadHash + "|" + r.prevHash == b.payloadHash + "|" + b.prevHash;
      SameAround(HashedFields(r), HashedFields(b), 5);
      MoveAcross(HashedFields(r), HashedFields(b), 5, '|');
      assert |Core(b).payloadHash| < |Core(r).payloadHash|;
    } else {
      var p, q := CutAt(r.prevHash, '|');
      b := r.(payloadHash := r.payloadHash + "|" + p, prevHash := q);
      assert r.payloadHash + "|" + r.prevHash == b.payloadHash + "|" + b.prevHash;
      SameAround(HashedFields(r), HashedFields(b), 5);
      MoveAcross(HashedFields(r), HashedFields(b), 5, '|');
      assert |Core(b).payloadHash| > |Core(r).payloadHash|;
    }
  }

  /** The encoding is ambiguous wherever it can be: every receipt with a separator in any one of the
      receipt ID, lease ID, payload hash or previous hash shares its hashed text with another. */
  lemma PreimageAmbiguity(r: CheckReceipt)
    requires !Unambiguous(r)
    ensures exists b :: Twins(r, b)
  {
    if '|' in r.receiptId || '|' in r.leaseId {
      var b := TwinByIds(r);
    } else {
      var b := TwinByHashes(r);
    }
  }

  /** Exactly which receipts are hashed unambiguously, among those whose capability holds no
      separator: the ones whose other text fields hold none either. */
  lemma AmbiguousExactly(r: CheckReceipt)
    requires '|' !in r.capability
    ensures (exists b :: Twins(r, b)) <==> !Unambiguous(r)
  {
    if !Unambiguous(r) {
      PreimageAmbiguity(r);
    } else if b :| Twins(r, b) {
      DecClean(r.turn);
      DecClean(r.timestamp);
      FieldsCounted(HashedFields(r), HashedFields(b), '|');
      assert forall i :: 0 <= i < 8 ==> '|' !in HashedFields(b)[i];
      assert HashedFields(b)[0] == b.receiptId && HashedFields(b)[1] == b.leaseId;
      assert HashedFields(b)[5] == b.payloadHash && HashedFields(b)[6] == b.prevHash;
      PreimageInjective(r, b);
    }
  }

  /** A capability with separators can be confused with other fields by a receipt outside the
      unambiguous ones, so the condition on the capability above is needed. */
  lemma CapabilityConfusion(r: CheckReceipt) returns (a: CheckReceipt, b: CheckReceipt)
    ensures Unambiguous(a) && '|' in a.capability && Twins(a, b) && !Unambiguous(b)
  {
    a := r.(receiptId := "x", leaseId := "y", turn := 1, capability := "1|z", payloadHash := "p", prevHash := "h");
    b := a.(receiptId := "x|y", leaseId := "1", capability := "z");
    var f, g := HashedFields(a), HashedFields(b);
    var rest := Join(f[4..], '|');
    assert f[4..] == g[4..];
    assert Dec(1) == "1";
    JoinFirstFour(f);
    JoinFirstFour(g);
    assert Join(f, '|') == "x|y|1|1|z|" + rest;
    assert Join(g, '|') == "x|y|1|1|z|" + rest;
    assert b.receiptId[1] == '|' && a.capability[1] == '|';
    assert |Core(b).receiptId| != |Core(a).receiptId|;
  }

  lemma JoinFirst(f: seq<string>)
    requires |f| > 1
    ensures Join(f, '|') == f[0] + "|" + Join(f[1..], '|')
  {
  }

  lemma JoinFirstFour(f: seq<string>)
    requires |f| > 4
    ensures Join(f, '|') == f[0] + "|" + (f[1] + "|" + (f[2] + "|" + (f[3] + "|" + Join(f[4..], '|'))))
  {
    JoinFirst(f);
    JoinFirst(f[1..]);
    assert f[1..][1..] == f[2..];
    JoinFirst(f[2..]);
    assert f[2..][1..] == f[3..];
    JoinFirst(f[3..]);
    assert f[3..][1..] == f[4..];
  }

  ghost predicate Pins(h: Hashing, a: seq<CheckReceipt>, b: seq<CheckReceipt>) {
    forall i, j :: 0 <= i < |a| && 0 <= j < |b| && ComputeHash(h, a[i]) == ComputeHash(h, b[j]) ==> SameHashedFields(a[i], b[j])
  }

  lemma SameAt(h: Hashing, a: seq<CheckReceipt>, b: seq<CheckReceipt>, head: string, k: nat)
    requires Chain(h, a, GENESIS, head) && Chain(h, b, GENESIS, head) && Pins(h, a, b)
    requires k < |a| && k < |b| && a[k].receiptHash == b[k].receiptHash
    ensures SameHashedFields(a[k], b[k]) && (k > 0 ==> a[k - 1].receiptHash == b[k - 1].receiptHash)
  {
    ChainLink(h, a, GENESIS, head, k);
    ChainLink(h, b, GENESIS, head, k);
    assert Core(a[k]).prevHash == Core(b[k]).prevHash;
  }

  lemma {:induction false} Downward(p: nat -> bool, k: nat)
    requires p(k) && forall i: nat, j: nat :: j == i + 1 && j <= k && p(j) ==> p(i)
    ensures forall i :: 0 <= i <= k ==> p(i)
  {
    if k > 0 {
      assert p(k - 1);
      Downward(p, k - 1);
    }
  }

  function HashesAgree(a: seq<CheckReceipt>, b: seq<CheckReceipt>): nat -> bool {
    (i: nat) => i < |a| && i < |b| && a[i].receiptHash == b[i].receiptHash
  }

  /** Agreement spreads down two chains, for any hashing that pins the hashed fields. */
  lemma SameBelow(h: Hashing, a: seq<CheckReceipt>, b: seq<CheckReceipt>, head: string, k: nat)
    requires Chain(h, a, GENESIS, head) && Chain(h, b, GENESIS, head) && Pins(h, a, b)
    requires k < |a| && k < |b| && a[k].receiptHash == b[k].receiptHash
    ensures forall i :: 0 <= i <= k ==> SameHashedFields(a[i], b[i]) && a[i].receiptHash == b[i].receiptHash
  {
    var agree := HashesAgree(a, b);
    forall i: nat, j: nat | j == i + 1 && j <= k && agree(j) ensures agree(i) {
      SameAt(h, a, b, head, j);
    }
    Downward(agree, k);
    forall i | 0 <= i <= k ensures SameHashedFields(a[i], b[i]) && a[i].receiptHash == b[i].receiptHash {
      assert agree(i);
      SameAt(h, a, b, head, i);
    }
  }

  lemma SameChain(h: Hashing, a: seq<CheckReceipt>, b: seq<CheckReceipt>, head: string)
    requires Chain(h, a, GENESIS, head) && Chain(h, b, GENESIS, head)
    requires Pins(h, a, b)
    requires (a == [] <==> b == []) || head != GENESIS
    ensures |a| == |b|
    ensures forall i :: 0 <= i < |a| ==> SameHashedFields(a[i], b[i]) && a[i].receiptHash == b[i].receiptHash
  {
    if a != [] && b != [] {
      var m, n := |a| - 1, |b| - 1;
      ChainLink(h, a, GENESIS, head, m);
      ChainLink(h, b, GENESIS, head, n);
      assert Core(a[m]).turn == Core(b[n]).turn;
      SameBelow(h, a, b, head, m);
    }
  }

  /** Tamper evidence: two receipt chains from genesis that end in the same head are the same
      chain, equally long and equal in every hashed field at every turn. Only a chain that
      returns to the genesis hash could be confused with the empty one. */
  lemma TamperEvident(sha: Sha, a: seq<CheckReceipt>, b: seq<CheckReceipt>, head: string)
    requires Chain(Sha256(sha), a, GENESIS, head) && Chain(Sha256(sha), b, GENESIS, head)
    requires forall r :: r in a || r in b ==> Unambiguous(r)
    requires CollisionFree(sha, Preimages(a) + Preimages(b))
    requires (a == [] <==> b == []) || head != GENESIS
    ensures |a| == |b|
    ensures forall i :: 0 <= i < |a| ==> SameHashedFields(a[i], b[i]) && a[i].receiptHash == b[i].receiptHash
  {
    var h := Sha256(sha);
    forall i, j | 0 <= i < |a| && 0 <= j < |b| && ComputeHash(h, a[i]) == ComputeHash(h, b[j])
      ensures SameHashedFields(a[i], b[j])
    {
      var x, y := a[i], b[j];
      HashesPreimage(sha, x);
      HashesPreimage(sha, y);
      assert Preimage(x) in Preimages(a) && Preimage(y) in Preimages(b);
      PreimageInjective(x, y);
    }
    SameChain(h, a, b, head);
  }

  /** Tamper evidence against any chain: the chain at hand holds no separator in its text fields, and
      then whatever ends in its head, with any text in it, is the same chain. */
  lemma TamperEvidentAgainstAny(sha: Sha, a: seq<CheckReceipt>, forged: seq<CheckReceipt>, head: string)
    requires Chain(Sha256(sha), a, GENESIS, head) && Chain(Sha256(sha), forged, GENESIS, head)
    requires forall r :: r in a ==> Unambiguous(r) && '|' !in r.capability
    requires CollisionFree(sha, Preimages(a) + Preimages(forged))
    requires (a == [] <==> forged == []) || head != GENESIS
    ensures |a| == |forged|
    ensures forall i :: 0 <= i < |a| ==> SameHashedFields(a[i], forged[i]) && a[i].receiptHash == forged[i].receiptHash
  {
    var h := Sha256(sha);
    forall i, j | 0 <= i < |a| && 0 <= j < |forged| && ComputeHash(h, a[i]) == ComputeHash(h, forged[j])
      ensures SameHashedFields(a[i], forged[j])
    {
      var x, y := a[i], forged[j];
      HashesPreimage(sha, x);
      HashesPreimage(sha, y);
      assert Preimage(x) in Preimages(a) && Preimage(y) in Preimages(forged);
      AmbiguousExactly(x);
      assert !Twins(x, y);
    }
    SameChain(h, a, forged, head);
  }

  /** The receipts a run admits meet the condition for tamper evidence by themselves, if the lease ID
      holds no separator and hashes are hex. */
  lemma {:induction false} RunsAreUnambiguous(sha: Sha, s: LeaseState, es: seq<Event>)
    requires Fresh(s) && HexOutput(sha) && '|' !in s.id
    ensures var t := Run(Sha256(sha), s, es);
            && t.lease.id == s.id && '|' !in t.lease.lastReceiptHash
            && forall r :: r in Admitted(t.receipts) ==> Unambiguous(r)
  {
    if es != [] {
      var before, e := Run(Sha256(sha), s, es[..|es| - 1]), es[|es| - 1];
      RunsAreUnambiguous(sha, s, es[..|es| - 1]);
      if e.Request? {
        AdmittedSnoc(before.receipts, Issue(Sha256(sha), before.lease, e.capability, e.payload, e.prevHash, e.now));
        AdmissionUnambiguous(sha, before.lease, e.capability, e.payload, e.prevHash, e.now);
      }
    }
  }

  lemma AdmissionUnambiguous(sha: Sha, s: LeaseState, capability: string, payload: string, prevHash: string, now: int)
    requires HexOutput(sha) && '|' !in s.id && '|' !in s.lastReceiptHash
    ensures Issue(Sha256(sha), s, capability, payload, prevHash, now).disposition == ADMIT ==>
              Unambiguous(Issue(Sha256(sha), s, capability, payload, prevHash, now))
    ensures '|' !in AfterTurn(Sha256(sha), s, capability, payload, prevHash, now).lastReceiptHash
  {
    var r := Issue(Sha256(sha), s, capability, payload, prevHash, now);
    assert IsHex64(sha(payload));
    IssueSeals(Sha256(sha), s, capability, payload, prevHash, now);
    HashesPreimage(sha, r);
    assert IsHex64(sha(Preimage(r)));
    DecClean(s.currentTurn + 1);
  }

  /** Tamper evidence for runs: two runs of any two leases that end in the same head admitted the
      same receipts, so the head alone vouches for the whole history. */
  lemma RunsWithOneHead(sha: Sha, s: LeaseState, es: seq<Event>, s': LeaseState, es': seq<Event>)
    requires Fresh(s) && Fresh(s') && HexOutput(sha) && '|' !in s.id && '|' !in s'.id
    requires var a, b := Run(Sha256(sha), s, es), Run(Sha256(sha), s', es');
             && a.lease.lastReceiptHash == b.lease.lastReceiptHash
             && ((Admitted(a.receipts) == [] <==> Admitted(b.receipts) == []) || a.lease.lastReceiptHash != GENESIS)
    requires CollisionFree(sha, Preimages(Admitted(Run(Sha256(sha), s, es).receipts)) +
                                Preimages(Admitted(Run(Sha256(sha), s', es').receipts)))
    ensures var a, b := Admitted(Run(Sha256(sha), s, es).receipts), Admitted(Run(Sha256(sha), s', es').receipts);
            |a| == |b| && forall i :: 0 <= i < |a| ==> SameHashedFields(a[i], b[i])
  {
    RunInvariant(Sha256(sha), s, es);
    RunInvariant(Sha256(sha), s', es');
    RunsAreUnambiguous(sha, s, es);
    RunsAreUnambiguous(sha, s', es');
    TamperEvident(sha, Admitted(Run(Sha256(sha), s, es).receipts), Admitted(Run(Sha256(sha), s', es').receipts),
                  Run(Sha256(sha), s, es).lease.lastReceiptHash);
  }

  // ----- Exact service count -----

  /** A client that always presents the current head, asks for granted capabilities in time,
      and is never revoked. */
  ghost predicate Diligent(h: Hashing, s: LeaseState, es: seq<Event>) {
    !s.revoked &&
    forall i :: 0 <= i < |es| ==>
      && es[i].Request?
      && es[i].prevHash == Run(h, s, es[..i]).lease.lastReceiptHash
      && Allowed(s, es[i].capability)
      && es[i].now <= s.expiresAt
  }

  /** How many of the next k well-formed requests a lease serves. */
  function Served(s: LeaseState, k: nat): nat {
    if s.maxTurns <= 0 then k
    else if s.currentTurn >= s.maxTurns then 0
    else if k <= s.maxTurns - s.currentTurn then k
    else s.maxTurns - s.currentTurn
  }

  /** One more well-formed request after k of them were served. */
  lemma ServeOne(h: Hashing, s: LeaseState, lease: LeaseState, k: nat, e: Event)
    requires SameGrant(s, lease) && !lease.revoked && lease.currentTurn == s.currentTurn + Served(s, k)
    requires e.Request? && e.prevHash == lease.lastReceiptHash && Allowed(s, e.capability) && e.now <= s.expiresAt
    ensures Admits(lease, e.capability, e.prevHash, e.now) <==> k < Served(s, k + 1)
    ensures Served(s, k + 1) == Served(s, k) + if k < Served(s, k + 1) then 1 else 0
  {
  }

  /** k requests were answered, the first Served(s, k) of them by admissions. */
  ghost predicate ServedSoFar(s: LeaseState, t: Trace, k: nat) {
    && |t.receipts| == k
    && (forall i :: 0 <= i < k ==> (t.receipts[i].disposition == ADMIT <==> i < Served(s, k)))
    && t.lease.currentTurn == s.currentTurn + Served(s, k)
    && SameGrant(s, t.lease) && !t.lease.revoked
  }

  lemma ServedOneMore(h: Hashing, s: LeaseState, t: Trace, k: nat, e: Event)
    requires ServedSoFar(s, t, k)
    requires e.Request? && e.prevHash == t.lease.lastReceiptHash && Allowed(s, e.capability) && e.now <= s.expiresAt
    ensures ServedSoFar(s, Step(h, t, e), k + 1)
  {
    ServeOne(h, s, t.lease, k, e);
  }

  lemma DiligentPrefix(h: Hashing, s: LeaseState, es: seq<Event>, n: nat)
    requires Diligent(h, s, es) && n <= |es|
    ensures Diligent(h, s, es[..n])
  {
    forall i | 0 <= i < n ensures es[..n][..i] == es[..i] {}
  }

  /** A diligent client gets exactly min(k, remaining turns) admissions, all k if the lease is
      unbounded, and every denial comes after the last admission. */
  lemma {:induction false} ExactService(h: Hashing, s: LeaseState, es: seq<Event>)
    requires Diligent(h, s, es)
    ensures ServedSoFar(s, Run(h, s, es), |es|)
  {
    if es != [] {
      var n := |es| - 1;
      DiligentPrefix(h, s, es, n);
      ExactService(h, s, es[..n]);
      ServedOneMore(h, s, Run(h, s, es[..n]), n, es[n]);
    }
  }
}
