/** The effect broker: many leases behind one mutex. Every broker method holds the mutex from
    start to end, so a concurrent execution is an interleaving of whole method calls. */
module Broker {
  import opened Seqs
  import opened Digests
  import opened Leases

  type LeaseTable = map<string, LeaseState>

  datatype Call =
    | Register(lease: LeaseState)
    | Act(leaseId: string, event: Event)

  datatype Log = Log(leases: LeaseTable, receipts: seq<CheckReceipt>)

  function LeaseOf(c: Call): string {
    match c
    case Register(lease) => lease.id
    case Act(leaseId, _) => leaseId
  }

  /** One broker call: an unknown lease ID changes nothing and yields no receipt. */
  function Serve(h: Hashing, b: Log, c: Call): Log {
    match c
    case Register(lease) => b.(leases := b.leases[lease.id := lease])
    case Act(leaseId, event) =>
      if leaseId !in b.leases then b
      else
        var t := Step(h, Trace(b.leases[leaseId], b.receipts), event);
        Log(b.leases[leaseId := t.lease], t.receipts)
  }

  function ServeAll(h: Hashing, calls: seq<Call>): Log {
    if calls == [] then Log(map[], []) else Serve(h, ServeAll(h, calls[..|calls| - 1]), calls[|calls| - 1])
  }

  class EffectBroker {
    var leases: map<string, CapabilityLease>

    /** Every lease is filed under its own ID; so no two IDs share a lease object. */
    ghost predicate Valid()
      reads this, leases.Values
    {
      forall id :: id in leases ==> leases[id].id == id
    }

    ghost function Table(): LeaseTable
      reads this, leases.Values
    {
      map id | id in leases :: leases[id].State()
    }

    constructor ()
      ensures Valid() && Table() == map[]
    {
      leases := map[];
    }

    method RegisterLease(lease: CapabilityLease)
      requires Valid()
      modifies this
      ensures Valid() && Table() == old(Table())[lease.id := lease.State()]
      ensures leases == old(leases)[lease.id := lease]
    {
      leases := leases[lease.id := lease];
    }

    method GetLease(leaseId: string) returns (lease: Option<CapabilityLease>)
      requires Valid()
      ensures lease.Some? <==> leaseId in Table()
      ensures lease.Some? ==> lease.value.State() == Table()[leaseId]
    {
      lease := if leaseId in leases then Some(leases[leaseId]) else None;
    }

    /** None is the source's error for an unknown lease. */
    method RequestExecution(h: Hashing, leaseId: string, capability: string, payload: string, prevHash: string,
                            now: int)
      returns (receipt: Option<CheckReceipt>)
      requires Valid()
      modifies if leaseId in leases then {leases[leaseId]} else {}
      ensures Valid() && leases == old(leases)
      ensures var b := Serve(h, Log(old(Table()), []), Act(leaseId, Request(capability, payload, prevHash, now)));
              Table() == b.leases && b.receipts == if receipt.Some? then [receipt.value] else []
    {
      if leaseId !in leases {
        return None;
      }
      var r, ok := leases[leaseId].EvaluateTurn(h, capability, payload, prevHash, now);
      assert Table() == old(Table())[leaseId := leases[leaseId].State()];
      receipt := Some(r);
    }

    method Revoke(leaseId: string, reason: string) returns (found: bool)
      requires Valid()
      modifies if leaseId in leases then {leases[leaseId]} else {}
      ensures Valid() && leases == old(leases) && (found <==> leaseId in leases)
      ensures Table() == if leaseId !in leases then old(Table())
                         else old(Table())[leaseId := old(Table())[leaseId].(revoked := true, revocationReason := reason)]
    {
      if leaseId !in leases {
        return false;
      }
      leases[leaseId].Revoke(reason);
      found := true;
    }
  }

  // ----- Isolation -----

  /** The calls of an interleaving that name one lease, in their order. */
  function Naming(calls: seq<Call>, id: string): seq<Call> {
    Filter(calls, Names(id))
  }

  function Names(id: string): Call -> bool {
    (c: Call) => LeaseOf(c) == id
  }

  function ReceiptsOf(receipts: seq<CheckReceipt>, id: string): seq<CheckReceipt> {
    Filter(receipts, BelongsTo(id))
  }

  function BelongsTo(id: string): CheckReceipt -> bool {
    (r: CheckReceipt) => r.leaseId == id
  }

  function Lookup(table: LeaseTable, id: string): Option<LeaseState> {
    if id in table then Some(table[id]) else None
  }

  ghost predicate FiledByID(table: LeaseTable) {
    forall id :: id in table ==> table[id].id == id
  }

  /** What lease id sees of a broker: its state and its receipts. */
  ghost predicate SameView(a: Log, b: Log, id: string) {
    Lookup(a.leases, id) == Lookup(b.leases, id) && ReceiptsOf(a.receipts, id) == ReceiptsOf(b.receipts, id)
  }

  /** A call moves only the lease it names, and what it does there depends on that lease alone. */
  lemma ServeView(h: Hashing, a: Log, b: Log, c: Call, id: string)
    requires FiledByID(a.leases) && FiledByID(b.leases) && SameView(a, b, id)
    ensures FiledByID(Serve(h, a, c).leases)
    ensures LeaseOf(c) == id ==> SameView(Serve(h, a, c), Serve(h, b, c), id)
    ensures LeaseOf(c) != id ==> SameView(Serve(h, a, c), b, id)
  {
    if c.Act? && c.event.Request? {
      var e := c.event;
      if c.leaseId in a.leases {
        FilterSnoc(a.receipts, Issue(h, a.leases[c.leaseId], e.capability, e.payload, e.prevHash, e.now), BelongsTo(id));
      }
      if c.leaseId in b.leases {
        FilterSnoc(b.receipts, Issue(h, b.leases[c.leaseId], e.capability, e.payload, e.prevHash, e.now), BelongsTo(id));
      }
    }
  }

  lemma ServeSnoc(h: Hashing, calls: seq<Call>, c: Call)
    ensures ServeAll(h, calls + [c]) == Serve(h, ServeAll(h, calls), c)
  {
    assert (calls + [c])[..|calls|] == calls;
  }

  /** Isolation: for any interleaving, the final state of each lease and the receipts it hands
      out are those of the calls naming it, served alone. */
  lemma {:induction false} Isolation(h: Hashing, calls: seq<Call>, id: string)
    ensures FiledByID(ServeAll(h, calls).leases)
    ensures SameView(ServeAll(h, calls), ServeAll(h, Naming(calls, id)), id)
  {
    if calls != [] {
      var n := |calls| - 1;
      var c := calls[n];
      Isolation(h, calls[..n], id);
      SoloFiled(h, Naming(calls[..n], id));
      ServeView(h, ServeAll(h, calls[..n]), ServeAll(h, Naming(calls[..n], id)), c, id);
      assert Naming(calls, id) == Naming(calls[..n], id) + if LeaseOf(c) == id then [c] else [];
      if LeaseOf(c) == id {
        ServeSnoc(h, Naming(calls[..n], id), c);
      } else {
        assert Naming(calls, id) == Naming(calls[..n], id);
      }
    }
  }

  lemma {:induction false} SoloFiled(h: Hashing, calls: seq<Call>)
    ensures FiledByID(ServeAll(h, calls).leases)
  {
    if calls != [] {
      SoloFiled(h, calls[..|calls| - 1]);
    }
  }

  function Acts(id: string, es: seq<Event>): seq<Call> {
    seq(|es|, i requires 0 <= i < |es| => Act(id, es[i]))
  }

  /** Calls before the lease is registered find nothing. */
  lemma {:induction false} NothingRegistered(h: Hashing, id: string, early: seq<Event>)
    ensures ServeAll(h, Acts(id, early)) == Log(map[], [])
  {
    if early != [] {
      var n := |early| - 1;
      NothingRegistered(h, id, early[..n]);
      assert Acts(id, early)[..n] == Acts(id, early[..n]);
    }
  }

  /** A lease registered once and otherwise served alone is a run of that lease. */
  lemma {:induction false} SoloIsRun(h: Hashing, lease: LeaseState, early: seq<Event>, es: seq<Event>)
    ensures ServeAll(h, Acts(lease.id, early) + [Register(lease)] + Acts(lease.id, es)) ==
            Log(map[lease.id := Run(h, lease, es).lease], Run(h, lease, es).receipts)
  {
    var before := Acts(lease.id, early);
    var calls := before + [Register(lease)] + Acts(lease.id, es);
    if es == [] {
      NothingRegistered(h, lease.id, early);
      assert calls == before + [Register(lease)];
      ServeSnoc(h, before, Register(lease));
    } else {
      var n := |es| - 1;
      SoloIsRun(h, lease, early, es[..n]);
      assert calls == before + [Register(lease)] + Acts(lease.id, es[..n]) + [Act(lease.id, es[n])];
      ServeSnoc(h, before + [Register(lease)] + Acts(lease.id, es[..n]), Act(lease.id, es[n]));
      SoloStep(h, lease.id, Run(h, lease, es[..n]), es[n]);
    }
  }

  lemma SoloStep(h: Hashing, id: string, t: Trace, e: Event)
    ensures Serve(h, Log(map[id := t.lease], t.receipts), Act(id, e)) ==
            Log(map[id := Step(h, t, e).lease], Step(h, t, e).receipts)
  {
  }

  lemma {:induction false} RunReceiptsOwned(h: Hashing, lease: LeaseState, es: seq<Event>)
    ensures Run(h, lease, es).lease.id == lease.id
    ensures ReceiptsOf(Run(h, lease, es).receipts, lease.id) == Run(h, lease, es).receipts
  {
    if es != [] {
      var n := |es| - 1;
      RunReceiptsOwned(h, lease, es[..n]);
      if es[n].Request? {
        var s, e := Run(h, lease, es[..n]).lease, es[n];
        FilterSnoc(Run(h, lease, es[..n]).receipts, Issue(h, s, e.capability, e.payload, e.prevHash, e.now), BelongsTo(lease.id));
      }
    }
  }

  /** What a lease keeps under concurrency: whatever other leases do in between, a fresh lease
      registered once under its own ID ends in the state of its own run from there on, its receipts
      in the broker's log are those of that run, and so the invariant and replay protection carry
      over. Calls that name the lease too early change nothing. */
  lemma BrokeredLease(sha: Sha, calls: seq<Call>, lease: LeaseState, early: seq<Event>, es: seq<Event>)
    requires Fresh(lease) && Naming(calls, lease.id) == Acts(lease.id, early) + [Register(lease)] + Acts(lease.id, es)
    ensures var h := Sha256(sha);
            var b := ServeAll(h, calls);
            var mine := ReceiptsOf(b.receipts, lease.id);
            && lease.id in b.leases
            && Trace(b.leases[lease.id], mine) == Run(h, lease, es)
            && Sound(h, lease, Trace(b.leases[lease.id], mine))
            && (ReplaySafe(sha, Admitted(mine)) ==> HeadsUsedOnce(Admitted(mine)))
  {
    var h := Sha256(sha);
    Isolation(h, calls, lease.id);
    SoloIsRun(h, lease, early, es);
    RunReceiptsOwned(h, lease, es);
    RunInvariant(h, lease, es);
    var b := ServeAll(h, calls);
    assert Lookup(b.leases, lease.id) == Some(Run(h, lease, es).lease);
    if ReplaySafe(sha, Admitted(Run(h, lease, es).receipts)) {
      NoReplay(sha, lease, es);
    }
  }

  /** Calls other than a registration of lease id. */
  ghost predicate NotRegistered(calls: seq<Call>, id: string) {
    forall i :: 0 <= i < |calls| && calls[i].Register? ==> calls[i].lease.id != id
  }

  function AdmittedOf(b: Log, id: string): seq<CheckReceipt> {
    Admitted(ReceiptsOf(b.receipts, id))
  }

  lemma RevokedServe(h: Hashing, b: Log, c: Call, id: string)
    requires FiledByID(b.leases) && id in b.leases && b.leases[id].revoked && (c.Register? ==> c.lease.id != id)
    ensures var after := Serve(h, b, c);
            && FiledByID(after.leases) && id in after.leases && after.leases[id].revoked
            && AdmittedOf(after, id) == AdmittedOf(b, id)
  {
    if c.Act? && c.event.Request? && c.leaseId in b.leases {
      var r := Issue(h, b.leases[c.leaseId], c.event.capability, c.event.payload, c.event.prevHash, c.event.now);
      FilterSnoc(b.receipts, r, BelongsTo(id));
      AdmittedSnoc(ReceiptsOf(b.receipts, id), r);
      assert ReceiptsOf(b.receipts, id) + [] == ReceiptsOf(b.receipts, id);
      assert AdmittedOf(b, id) + [] == AdmittedOf(b, id);
      if c.leaseId == id {
        assert r.disposition == DENY;
      } else {
        assert r.leaseId == c.leaseId;
      }
    }
  }

  /** Revocation through the broker is final: once a lease that exists was revoked, no call of any
      client is admitted under it, as long as nobody registers a lease under its ID again. */
  lemma {:induction false} BrokerRevocationIsFinal(h: Hashing, calls: seq<Call>, id: string, why: string, more: seq<Call>)
    requires id in ServeAll(h, calls).leases && NotRegistered(more, id)
    ensures var b := ServeAll(h, calls + [Act(id, Revocation(why))] + more);
            id in b.leases && b.leases[id].revoked && AdmittedOf(b, id) == AdmittedOf(ServeAll(h, calls), id)
  {
    var upTo := calls + [Act(id, Revocation(why))];
    SoloFiled(h, upTo + more);
    if more == [] {
      ServeSnoc(h, calls, Act(id, Revocation(why)));
      assert upTo + more == upTo;
    } else {
      var n := |more| - 1;
      BrokerRevocationIsFinal(h, calls, id, why, more[..n]);
      SoloFiled(h, upTo + more[..n]);
      RevokedServe(h, ServeAll(h, upTo + more[..n]), more[n], id);
      assert upTo + more == upTo + more[..n] + [more[n]];
      ServeSnoc(h, upTo + more[..n], more[n]);
    }
  }
}
