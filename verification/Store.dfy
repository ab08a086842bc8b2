/** The content-addressed evidence store (in memory) and its subject index. StoreState is the
    value of the three maps; the repository object updates them in place. */
module Store {
  import opened Text
  import opened Seqs
  import opened Digests
  import opened Records

  /** SHA-256 and the JSON text of an envelope, as unknown functions. */
  datatype Codec = Codec(sha: Sha, encode: EvidenceEnvelope -> string) {
    function Key(e: EvidenceEnvelope): string {
      ComputeDigest(sha, encode(e))
    }
  }

  datatype StoreState = StoreState(
    blobs: map<string, string>,
    envelopes: map<string, EvidenceEnvelope>,
    index: map<string, seq<string>>)

  const EMPTY := StoreState(map[], map[], map[])

  // ----- Operations on the value -----

  function Listed(index: map<string, seq<string>>, uri: string): seq<string> {
    if uri in index then index[uri] else []
  }

  function Stored(c: Codec, s: StoreState, e: EvidenceEnvelope, payload: Option<string>): StoreState {
    var uri := e.subject.URI();
    var blobs := s.blobs[c.Key(e) := c.encode(e)];
    StoreState(
      match payload case None => blobs case Some(p) => blobs[ComputeDigest(c.sha, p) := p],
      s.envelopes[c.Key(e) := e],
      s.index[uri := Listed(s.index, uri) + [c.Key(e)]])
  }

  function Expired(s: StoreState, cutoff: int): set<string> {
    set d | d in s.envelopes && s.envelopes[d].capturedAt < cutoff
  }

  /** The index lists every stored digest under its subject and nothing else. */
  ghost predicate Indexed(index: map<string, seq<string>>, envelopes: map<string, EvidenceEnvelope>) {
    && (forall d :: d in envelopes ==> d in Listed(index, envelopes[d].subject.URI()))
    && (forall u, d :: u in index && d in index[u] ==> d in envelopes && envelopes[d].subject.URI() == u)
  }

  ghost predicate NoRepeats<T>(s: seq<T>) {
    forall i, j :: 0 <= i < j < |s| ==> s[i] != s[j]
  }

  /** A freshly built index: exact, free of repeats and of empty entries, in any order. */
  ghost predicate Rebuilt(index: map<string, seq<string>>, envelopes: map<string, EvidenceEnvelope>) {
    Indexed(index, envelopes) && forall u :: u in index ==> index[u] != [] && NoRepeats(index[u])
  }

  /** What Prune may leave: exactly the envelopes not captured before the cutoff. The order of the
      rebuilt index follows map iteration, so it is not determined. */
  ghost predicate PrunedTo(s: StoreState, cutoff: int, s': StoreState) {
    && s'.envelopes == s.envelopes - Expired(s, cutoff)
    && s'.blobs == s.blobs - Expired(s, cutoff)
    && Rebuilt(s'.index, s'.envelopes)
  }

  ghost function BytesOf(blobs: map<string, string>, keys: set<string>): nat {
    if keys == {} then 0 else
      var k :| k in keys;
      BlobSize(blobs, k) + BytesOf(blobs, keys - {k})
  }

  function BlobSize(blobs: map<string, string>, key: string): nat {
    if key in blobs then |blobs[key]| else 0
  }

  lemma {:induction false} BytesOfAny(blobs: map<string, string>, keys: set<string>, k: string)
    requires k in keys
    ensures BytesOf(blobs, keys) == BlobSize(blobs, k) + BytesOf(blobs, keys - {k})
    decreases keys
  {
    var j :| j in keys && BytesOf(blobs, keys) == BlobSize(blobs, j) + BytesOf(blobs, keys - {j});
    if j != k {
      BytesOfAny(blobs, keys - {j}, k);
      BytesOfAny(blobs, keys - {k}, j);
      assert keys - {j} - {k} == keys - {k} - {j};
    }
  }

  // ----- Subject matching -----

  /** The last path segment of an ID. */
  function Leaf(id: string): string {
    var parts := Split(Trim(id, '/'), '/');
    parts[|parts| - 1]
  }

  predicate MatchSubject(envSub: SubjectRef, target: SubjectRef) {
    || envSub.URI() == target.URI() || envSub.id == target.id
    || var targetLeaf, envLeaf := Leaf(target.id), Leaf(envSub.id);
       var cleanTarget := TrimSuffix(TrimSuffix(targetLeaf, "-binding"), "-contract");
       || envLeaf == targetLeaf || HasPrefix(envLeaf, targetLeaf + "-")
       || (cleanTarget != "" && (envLeaf == cleanTarget || HasPrefix(envLeaf, cleanTarget + "-")))
  }

  lemma LeafOfPath(path: string, name: string)
    requires '/' !in name && name != ""
    ensures Leaf(path + "/" + name) == name
  {
    var kept := TrimKeepsLast(path, name, '/');
    if Trim(path + "/" + name, '/') == name {
      assert Split(name, '/') == [name];
    } else {
      SplitLast(kept, name, '/');
    }
  }

  predicate OnlySlashes(s: string) {
    forall i :: 0 <= i < |s| ==> s[i] == '/'
  }

  /** l is the last path segment of an ID, slashes at either end aside. */
  ghost predicate IsLeaf(id: string, l: string) {
    '/' !in l && exists lead, tail :: LeafBetween(id, lead, l, tail)
  }

  predicate LeafBetween(id: string, lead: string, l: string, tail: string) {
    id == lead + l + tail && OnlySlashes(tail) && EndsBefore(lead, l)
  }

  predicate EndsBefore(lead: string, l: string) {
    if l == "" then OnlySlashes(lead) else lead == "" || lead[|lead| - 1] == '/'
  }

  lemma {:induction false} TrimSlashes(s: string)
    requires OnlySlashes(s)
    ensures Trim(s, '/') == ""
    decreases |s|
  {
    if s != "" {
      TrimSlashes(s[1..]);
    }
  }

  lemma {:induction false} TrimTail(x: string, tail: string)
    requires x != "" && x[|x| - 1] != '/' && OnlySlashes(tail)
    ensures Trim(x + tail, '/') == Trim(x, '/')
    decreases |x| + |tail|
  {
    var s := x + tail;
    if x[0] == '/' {
      TrimTail(x[1..], tail);
      assert s[1..] == x[1..] + tail;
    } else if tail != "" {
      var n := |tail| - 1;
      TrimTail(x, tail[..n]);
      assert s[..|s| - 1] == x + tail[..n];
      assert s[|s| - 1] == tail[n];
    } else {
      assert s == x;
    }
  }

  lemma LeafIs(id: string, l: string)
    requires IsLeaf(id, l)
    ensures Leaf(id) == l
  {
    var lead, tail :| LeafBetween(id, lead, l, tail);
    if l == "" {
      TrimSlashes(id);
      assert Split("", '/') == [""];
    } else {
      assert l[|l| - 1] in l;
      TrimTail(lead + l, tail);
      if lead == "" {
        assert lead + l == l;
        TrimNothing(l, '/');
        assert Split(l, '/') == [l];
      } else {
        LeafOfPath(lead[..|lead| - 1], l);
        assert lead[..|lead| - 1] + "/" + l == lead + l;
      }
    }
  }

  lemma {:induction false} HasLeaf(id: string) returns (l: string)
    ensures IsLeaf(id, l)
    decreases |id|
  {
    if OnlySlashes(id) {
      l := "";
      assert LeafBetween(id, "", l, id);
    } else if id[|id| - 1] == '/' {
      var n := |id| - 1;
      l := HasLeaf(id[..n]);
      var lead, tail :| LeafBetween(id[..n], lead, l, tail);
      assert id == id[..n] + "/" == lead + l + (tail + "/");
      assert LeafBetween(id, lead, l, tail + "/");
    } else {
      l := LastSegment(id);
    }
  }

  lemma LastSegment(id: string) returns (l: string)
    requires id != "" && id[|id| - 1] != '/'
    ensures IsLeaf(id, l)
  {
    var parts := Split(id, '/');
    var n := |parts| - 1;
    l := parts[n];
    assert l in parts;
    var lead := "";
    if n > 0 {
      JoinSnoc(parts, '/');
      lead := Join(parts[..n], '/') + "/";
    }
    assert id == lead + l && id == lead + l + "";
    assert lead != "" ==> lead[|lead| - 1] == '/';
    assert lead + "" == lead;
    assert LeafBetween(id, lead, l, "");
  }

  /** Every ID has exactly one last segment, and that is its leaf. */
  lemma LeafExactly(id: string, l: string)
    ensures l == Leaf(id) <==> IsLeaf(id, l)
  {
    var found := HasLeaf(id);
    LeafIs(id, found);
    if IsLeaf(id, l) {
      LeafIs(id, l);
    }
  }

  /** What a subject's ID names: its last segment, or that without "-binding" and then "-contract". */
  ghost predicate Names(id: string, name: string) {
    exists leaf :: IsLeaf(id, leaf) && (name == leaf || (name != "" && Workload(leaf, name)))
  }

  ghost predicate Workload(leaf: string, name: string) {
    exists u :: Stripped(leaf, "-binding", u) && Stripped(u, "-contract", name)
  }

  /** The name itself, or the name with something after a dash. */
  ghost predicate NamedAfter(leaf: string, name: string) {
    leaf == name || exists rest :: leaf == name + "-" + rest
  }

  /** Exactly which evidence is about a subject: same URI, same ID, or a last segment that is, or
      continues after a dash, a name of the subject. */
  ghost predicate Related(envSub: SubjectRef, target: SubjectRef) {
    || envSub.URI() == target.URI() || envSub.id == target.id
    || exists leaf, name :: IsLeaf(envSub.id, leaf) && Names(target.id, name) && NamedAfter(leaf, name)
  }

  lemma NamedAfterExactly(leaf: string, name: string)
    ensures leaf == name || HasPrefix(leaf, name + "-") <==> NamedAfter(leaf, name)
  {
    PrefixExactly(leaf, name + "-");
  }

  lemma NamesExactly(id: string, name: string)
    ensures Names(id, name) <==>
            name == Leaf(id) || (name != "" && name == TrimSuffix(TrimSuffix(Leaf(id), "-binding"), "-contract"))
  {
    LeafExactly(id, Leaf(id));
    forall leaf ensures leaf == Leaf(id) <==> IsLeaf(id, leaf) {
      LeafExactly(id, leaf);
    }
    WorkloadExactly(Leaf(id), name);
  }

  lemma WorkloadExactly(leaf: string, name: string)
    ensures Workload(leaf, name) <==> name == TrimSuffix(TrimSuffix(leaf, "-binding"), "-contract")
  {
    var u := TrimSuffix(leaf, "-binding");
    forall v ensures v == u <==> Stripped(leaf, "-binding", v) {
      StrippedExactly(leaf, "-binding", v);
    }
    StrippedExactly(u, "-contract", name);
  }

  lemma MatchExactly(envSub: SubjectRef, target: SubjectRef)
    ensures MatchSubject(envSub, target) <==> Related(envSub, target)
  {
    var leaf, name := Leaf(envSub.id), Leaf(target.id);
    var clean := TrimSuffix(TrimSuffix(name, "-binding"), "-contract");
    forall l ensures l == leaf <==> IsLeaf(envSub.id, l) {
      LeafExactly(envSub.id, l);
    }
    forall n ensures Names(target.id, n) <==> n == name || (n != "" && n == clean) {
      NamesExactly(target.id, n);
    }
    NamedAfterExactly(leaf, name);
    NamedAfterExactly(leaf, clean);
  }

  /** The workload convention behind the fuzzy match: evidence about a pod named after a workload
      is evidence about the workload, about its binding and about its contract, in any namespace. */
  lemma PodMatchesWorkload(podPath: string, path: string, name: string, suffix: string, pod: SubjectRef, target: SubjectRef)
    requires '/' !in name && '/' !in suffix && name != ""
    requires pod.id == podPath + "/" + (name + "-" + suffix)
    requires target.id == path + "/" + name || target.id == path + "/" + (name + "-binding")
             || target.id == path + "/" + (name + "-contract")
    requires !HasSuffix(name, "-binding") && !HasSuffix(name, "-contract")
    ensures MatchSubject(pod, target)
  {
    LeafOfPath(podPath, name + "-" + suffix);
    var leaf := name + "-" + suffix;
    assert leaf[..|name| + 1] == name + "-";
    if target.id == path + "/" + name {
      LeafOfPath(path, name);
    } else if target.id == path + "/" + (name + "-binding") {
      LeafOfPath(path, name + "-binding");
      TrimsTo(name, "-binding");
    } else {
      LeafOfPath(path, name + "-contract");
      TrimsTo(name, "-contract");
      assert (name + "-contract")[|name + "-contract"| - 1] == 't';
    }
  }

  lemma TrimsTo(name: string, suffix: string)
    ensures TrimSuffix(name + suffix, suffix) == name
  {
    assert (name + suffix)[|name|..] == suffix && (name + suffix)[..|name|] == name;
  }

  /** The IDs a scan over all stored envelopes would report. */
  ghost function ScanIDs(s: StoreState, subject: SubjectRef): set<string> {
    set d | d in s.envelopes && MatchSubject(s.envelopes[d].subject, subject) :: s.envelopes[d].id
  }

  function IDs(envelopes: seq<EvidenceEnvelope>): set<string> {
    set e | e in envelopes :: e.id
  }

  /** A listing of a subject: distinct IDs, only matching stored envelopes, every matching ID, an
      envelope filed under the exact subject wherever one carries the ID, and those first. */
  ghost predicate IsListing(s: StoreState, subject: SubjectRef, r: seq<EvidenceEnvelope>) {
    && (forall i, j :: 0 <= i < j < |r| ==> r[i].id != r[j].id)
    && (forall e :: e in r ==> e in s.envelopes.Values && MatchSubject(e.subject, subject))
    && IDs(r) == ScanIDs(s, subject)
    && (forall e, d :: e in r && d in s.envelopes && s.envelopes[d].id == e.id &&
                       s.envelopes[d].subject.URI() == subject.URI() ==>
          e.subject.URI() == subject.URI())
    && ExactFirst(subject, r)
  }

  predicate ExactFirst(subject: SubjectRef, r: seq<EvidenceEnvelope>) {
    forall i, j :: 0 <= i < j < |r| && r[j].subject.URI() == subject.URI() ==> r[i].subject.URI() == subject.URI()
  }

  /** What a listing shows and what it does not: only evidence related to the subject, and the ID of
      all of it. */
  ghost predicate ShowsRelated(s: StoreState, subject: SubjectRef, r: seq<EvidenceEnvelope>) {
    && (forall e :: e in r ==> e in s.envelopes.Values && Related(e.subject, subject))
    && (forall e :: e in s.envelopes.Values && Related(e.subject, subject) ==> e.id in IDs(r))
  }

  lemma ListingExactly(s: StoreState, subject: SubjectRef, r: seq<EvidenceEnvelope>)
    requires IsListing(s, subject, r)
    ensures ShowsRelated(s, subject, r)
  {
    forall e: EvidenceEnvelope ensures MatchSubject(e.subject, subject) <==> Related(e.subject, subject) {
      MatchExactly(e.subject, subject);
    }
    forall e | e in s.envelopes.Values && Related(e.subject, subject) ensures e.id in IDs(r) {
      var d :| d in s.envelopes && s.envelopes[d] == e;
      assert e.id in ScanIDs(s, subject);
    }
  }

  datatype PruneReport = PruneReport(prunedCount: int, prunedBytes: int, retainedCount: int)

  datatype Check = Intact | NotFound | DigestMismatch(computed: string)

  class EvidenceRepository {
    const codec: Codec
    var blobs: map<string, string>
    var envelopes: map<string, EvidenceEnvelope>
    var subjectIndex: map<string, seq<string>>

    function State(): StoreState
      reads this
    {
      StoreState(blobs, envelopes, subjectIndex)
    }

    constructor (codec: Codec)
      ensures State() == EMPTY && this.codec == codec
    {
      this.codec := codec;
      blobs, envelopes, subjectIndex := map[], map[], map[];
    }

    method Put(envelope: EvidenceEnvelope, payload: Option<string>) returns (ref: EvidenceRef)
      modifies this
      ensures State() == Stored(codec, old(State()), envelope, payload)
      ensures ref.digest == codec.Key(envelope) && ref.uri == "cas://sha256/" + codec.sha(codec.encode(envelope))
    {
      var envelopeData := codec.encode(envelope);
      var hexHash := codec.sha(envelopeData);
      var digest := "sha256:" + hexHash;
      blobs := blobs[digest := envelopeData];
      envelopes := envelopes[digest := envelope];
      var subURI := envelope.subject.URI();
      subjectIndex := subjectIndex[subURI := Listed(subjectIndex, subURI) + [digest]];
      if payload.Some? {
        var rawDigest := "sha256:" + codec.sha(payload.value);
        blobs := blobs[rawDigest := payload.value];
      }
      ref := EvidenceRef("cas://sha256/" + hexHash, digest, "application/vnd.ckodex.evidence+json");
    }

    method Get(ref: EvidenceRef) returns (data: Option<string>)
      ensures data == if ref.digest in blobs then Some(blobs[ref.digest]) else None
    {
      if ref.digest !in blobs {
        return None;
      }
      data := Some(blobs[ref.digest]);
    }

    method Verify(ref: EvidenceRef) returns (check: Check)
      ensures check.NotFound? <==> ref.digest !in blobs
      ensures check.Intact? <==> ref.digest in blobs && ComputeDigest(codec.sha, blobs[ref.digest]) == ref.digest
    {
      var data := Get(ref);
      if data.None? {
        return NotFound;
      }
      var computedDigest := "sha256:" + codec.sha(data.value);
      check := if computedDigest != ref.digest then DigestMismatch(computedDigest) else Intact;
    }

    /** None is the source's error for an empty subject. */
    method ListBySubject(subject: SubjectRef) returns (r: Option<seq<EvidenceEnvelope>>)
      ensures r.None? <==> subject.id == "" && subject.scheme == ""
      ensures r.Some? && Indexed(subjectIndex, envelopes) ==> IsListing(State(), subject, r.value)
      ensures r.Some? && Indexed(subjectIndex, envelopes) ==> ShowsRelated(State(), subject, r.value)
    {
      if subject.id == "" && subject.scheme == "" {
        return None;
      }
      var results: seq<EvidenceEnvelope> := [];
      var digests := Listed(subjectIndex, subject.URI());
      for i := 0 to |digests|
        invariant Indexed(subjectIndex, envelopes) ==> Gathered(State(), subject, results)
        invariant Indexed(subjectIndex, envelopes) ==> forall e :: e in results ==> e.subject.URI() == subject.URI()
        invariant forall j :: 0 <= j < i && digests[j] in envelopes ==> envelopes[digests[j]].id in IDs(results)
      {
        var d := digests[i];
        if d in envelopes && envelopes[d].id !in IDs(results) {
          GatherOne(State(), subject, results, d);
          results := results + [envelopes[d]];
        }
      }
      ghost var exact := results;
      var rest := envelopes.Keys;
      while rest != {}
        invariant rest <= envelopes.Keys
        invariant exact <= results
        invariant Indexed(subjectIndex, envelopes) ==> Gathered(State(), subject, results)
        invariant Indexed(subjectIndex, envelopes) ==> NoneExact(subject, results[|exact|..])
        invariant forall d :: d in envelopes && d !in rest && MatchSubject(envelopes[d].subject, subject) ==>
                    envelopes[d].id in IDs(results)
        decreases rest
      {
        var d :| d in rest;
        rest := rest - {d};
        if envelopes[d].id in IDs(results) {
          continue;
        }
        if MatchSubject(envelopes[d].subject, subject) {
          GatherOne(State(), subject, results, d);
          if Indexed(subjectIndex, envelopes) {
            GatherFuzzy(State(), subject, exact, results, d);
          }
          results := results + [envelopes[d]];
        }
      }
      if Indexed(subjectIndex, envelopes) {
        GatheredAll(State(), subject, exact, results);
        ListingExactly(State(), subject, results);
      }
      r := Some(results);
    }

    /** Removes what was captured before now - maxAge, or with dryRun only reports it. */
    method Prune(now: int, maxAge: int, dryRun: bool) returns (report: PruneReport)
      modifies this
      ensures var s, cutoff := old(State()), now - maxAge;
              && report == PruneReport(|Expired(s, cutoff)|, BytesOf(s.blobs, Expired(s, cutoff)),
                                       |s.envelopes| - |Expired(s, cutoff)|)
              && (if dryRun then State() == s else PrunedTo(s, cutoff, State()))
    {
      var cutoff := now - maxAge;
      ghost var gone := Expired(State(), cutoff);
      var toDelete, prunedBytes := CollectExpired(cutoff);
      var prunedCount := |toDelete|;
      assert prunedCount == |gone| by {
        SetOfDistinct(toDelete);
      }
      if dryRun {
        return PruneReport(prunedCount, prunedBytes, |envelopes| - prunedCount);
      }
      DeleteAndReindex(toDelete, cutoff);
      report := PruneReport(prunedCount, prunedBytes, |envelopes|);
    }

    /** What Prune does after the first pass, unless it is a dry run. */
    method DeleteAndReindex(toDelete: seq<string>, ghost cutoff: int)
      requires (set d | d in toDelete) == Expired(State(), cutoff)
      modifies this
      ensures PrunedTo(old(State()), cutoff, State())
      ensures |envelopes| == |old(envelopes)| - |Expired(old(State()), cutoff)|
    {
      RemovedSize(envelopes, Expired(State(), cutoff));
      DeleteAll(toDelete);
      RebuildIndex();
    }

    /** The second pass of Prune. */
    method DeleteAll(toDelete: seq<string>)
      modifies this`envelopes, this`blobs
      ensures envelopes == old(envelopes) - (set d | d in toDelete)
      ensures blobs == old(blobs) - (set d | d in toDelete)
    {
      ghost var gone := {};
      for i := 0 to |toDelete|
        invariant gone == set d | d in toDelete[..i]
        invariant envelopes == old(envelopes) - gone && blobs == old(blobs) - gone
      {
        envelopes := envelopes - {toDelete[i]};
        blobs := blobs - {toDelete[i]};
        gone := gone + {toDelete[i]};
      }
      assert toDelete[..|toDelete|] == toDelete;
    }

    /** The first pass of Prune over the envelopes, in map order. */
    method CollectExpired(cutoff: int) returns (toDelete: seq<string>, prunedBytes: nat)
      ensures NoRepeats(toDelete) && (set d | d in toDelete) == Expired(State(), cutoff)
      ensures prunedBytes == BytesOf(blobs, Expired(State(), cutoff))
    {
      toDelete, prunedBytes := [], 0;
      var rest := envelopes.Keys;
      ghost var gone := {};
      while rest != {}
        invariant rest <= envelopes.Keys && NoRepeats(toDelete)
        invariant gone == (set d | d in toDelete)
        invariant gone == Expired(State(), cutoff) - rest
        invariant prunedBytes == BytesOf(blobs, gone)
        decreases rest
      {
        var d :| d in rest;
        rest := rest - {d};
        if envelopes[d].capturedAt < cutoff {
          BytesOfAny(blobs, gone + {d}, d);
          assert gone + {d} - {d} == gone;
          toDelete := toDelete + [d];
          prunedBytes := prunedBytes + BlobSize(blobs, d);
          gone := gone + {d};
        }
      }
    }

    /** The last pass of Prune: a new index over the remaining envelopes. */
    method RebuildIndex()
      modifies this`subjectIndex
      ensures Rebuilt(subjectIndex, envelopes)
    {
      subjectIndex := map[];
      var rest := envelopes.Keys;
      while rest != {}
        invariant rest <= envelopes.Keys
        invariant Rebuilt(subjectIndex, envelopes - rest)
        decreases rest
      {
        var d :| d in rest;
        IndexOneMore(subjectIndex, envelopes - rest, d, envelopes[d]);
        assert envelopes - (rest - {d}) == (envelopes - rest)[d := envelopes[d]];
        rest := rest - {d};
        var subURI := envelopes[d].subject.URI();
        subjectIndex := subjectIndex[subURI := Listed(subjectIndex, subURI) + [d]];
      }
      assert envelopes - rest == envelopes;
    }
  }

  lemma IndexOneMore(index: map<string, seq<string>>, envelopes: map<string, EvidenceEnvelope>, d: string, e: EvidenceEnvelope)
    requires Rebuilt(index, envelopes) && d !in envelopes
    ensures Rebuilt(index[e.subject.URI() := Listed(index, e.subject.URI()) + [d]], envelopes[d := e])
  {
    var uri, envelopes' := e.subject.URI(), envelopes[d := e];
    var list := Listed(index, uri);
    var index' := index[uri := list + [d]];
    assert d !in list;
    forall x | x in envelopes' ensures x in Listed(index', envelopes'[x].subject.URI()) {
      if x == d {
        assert (list + [d])[|list|] == d;
      } else {
        assert x in Listed(index, envelopes[x].subject.URI());
      }
    }
    forall u, x | u in index' && x in index'[u] ensures x in envelopes' && envelopes'[x].subject.URI() == u {
      if u == uri {
        assert x in list || x == d;
      }
    }
    forall u | u in index' ensures index'[u] != [] && NoRepeats(index'[u]) {
      if u == uri {
        NoRepeatsSnoc(list, d);
      }
    }
  }

  lemma NoRepeatsSnoc<T>(s: seq<T>, x: T)
    requires NoRepeats(s) && x !in s
    ensures NoRepeats(s + [x])
  {
  }

  lemma {:induction false} SetOfDistinct<T>(s: seq<T>)
    requires NoRepeats(s)
    ensures |s| == |set x | x in s|
  {
    if s != [] {
      var n := |s| - 1;
      SetOfDistinct(s[..n]);
      assert (set x | x in s) == (set x | x in s[..n]) + {s[n]};
    }
  }

  lemma RemovedSize<K, V>(m: map<K, V>, gone: set<K>)
    requires gone <= m.Keys
    ensures |m - gone| == |m| - |gone|
  {
    assert (m - gone).Keys == m.Keys - gone;
    assert |m.Keys| == |m| && |(m - gone).Keys| == |m - gone|;
  }

  /** A listing in the making. */
  ghost predicate Gathered(s: StoreState, subject: SubjectRef, r: seq<EvidenceEnvelope>) {
    && (forall i, j :: 0 <= i < j < |r| ==> r[i].id != r[j].id)
    && (forall e :: e in r ==> e in s.envelopes.Values && MatchSubject(e.subject, subject))
  }

  lemma GatherOne(s: StoreState, subject: SubjectRef, r: seq<EvidenceEnvelope>, d: string)
    requires d in s.envelopes && s.envelopes[d].id !in IDs(r)
    ensures Gathered(s, subject, r) && MatchSubject(s.envelopes[d].subject, subject) ==>
              Gathered(s, subject, r + [s.envelopes[d]])
    ensures IDs(r + [s.envelopes[d]]) == IDs(r) + {s.envelopes[d].id}
  {
    forall i | 0 <= i < |r| ensures r[i].id != s.envelopes[d].id {
      assert r[i] in r;
    }
    assert forall e :: e in r + [s.envelopes[d]] <==> e in r || e == s.envelopes[d];
  }

  predicate NoneExact(subject: SubjectRef, r: seq<EvidenceEnvelope>) {
    forall e :: e in r ==> e.subject.URI() != subject.URI()
  }

  /** What the scan adds after the index was used up is not filed under the exact subject. */
  lemma GatherFuzzy(s: StoreState, subject: SubjectRef, exact: seq<EvidenceEnvelope>, r: seq<EvidenceEnvelope>, d: string)
    requires Indexed(s.index, s.envelopes) && exact <= r && NoneExact(subject, r[|exact|..])
    requires forall x :: x in Listed(s.index, subject.URI()) && x in s.envelopes ==> s.envelopes[x].id in IDs(exact)
    requires d in s.envelopes && s.envelopes[d].id !in IDs(r)
    ensures NoneExact(subject, (r + [s.envelopes[d]])[|exact|..])
  {
    assert (r + [s.envelopes[d]])[|exact|..] == r[|exact|..] + [s.envelopes[d]];
    forall x | x in exact ensures x.id in IDs(r) {
      assert x in r;
    }
  }

  lemma ExactThenFuzzy(subject: SubjectRef, exact: seq<EvidenceEnvelope>, r: seq<EvidenceEnvelope>)
    requires exact <= r && NoneExact(subject, r[|exact|..]) && forall e :: e in exact ==> e.subject.URI() == subject.URI()
    ensures ExactFirst(subject, r)
  {
    forall j | |exact| <= j < |r| ensures r[j].subject.URI() != subject.URI() {
      assert r[j] == r[|exact|..][j - |exact|];
    }
    forall j | 0 <= j < |exact| ensures r[j].subject.URI() == subject.URI() {
      assert r[j] == exact[j];
    }
  }

  lemma GatheredAll(s: StoreState, subject: SubjectRef, exact: seq<EvidenceEnvelope>, r: seq<EvidenceEnvelope>)
    requires Indexed(s.index, s.envelopes) && Gathered(s, subject, r) && exact <= r && NoneExact(subject, r[|exact|..])
    requires forall e :: e in exact ==> e.subject.URI() == subject.URI()
    requires forall d :: d in Listed(s.index, subject.URI()) && d in s.envelopes ==> s.envelopes[d].id in IDs(exact)
    requires forall d :: d in s.envelopes && MatchSubject(s.envelopes[d].subject, subject) ==> s.envelopes[d].id in IDs(r)
    ensures IsListing(s, subject, r)
  {
    ExactThenFuzzy(subject, exact, r);
    forall e, d | e in r && d in s.envelopes && s.envelopes[d].id == e.id && s.envelopes[d].subject.URI() == subject.URI()
      ensures e.subject.URI() == subject.URI()
    {
      var x :| x in exact && x.id == e.id;
      var i :| 0 <= i < |exact| && exact[i] == x;
      var j :| 0 <= j < |r| && r[j] == e;
      assert r[i] == x;
    }
    forall e | e in r ensures e.id in ScanIDs(s, subject) {
      var d :| d in s.envelopes && s.envelopes[d] == e;
    }
  }

  // ----- Store invariant -----

  ghost predicate ContentAddressed(sha: Sha, blobs: map<string, string>) {
    forall d :: d in blobs ==> ComputeDigest(sha, blobs[d]) == d
  }

  /** What a memory store keeps: every blob sits under its own digest, every envelope under the
      digest of its text, which is stored too, and the index is exact. */
  ghost predicate Valid(c: Codec, s: StoreState) {
    && ContentAddressed(c.sha, s.blobs)
    && (forall d :: d in s.envelopes ==> d == c.Key(s.envelopes[d]) && d in s.blobs)
    && Indexed(s.index, s.envelopes)
  }

  /** Among these envelopes JSON does not confuse any two, nor does SHA-256 their JSON texts. */
  ghost predicate Distinguishes(c: Codec, es: set<EvidenceEnvelope>) {
    && (forall a, b :: a in es && b in es && c.encode(a) == c.encode(b) ==> a == b)
    && CollisionFree(c.sha, set e | e in es :: c.encode(e))
  }

  lemma KeyInjective(c: Codec, es: set<EvidenceEnvelope>, a: EvidenceEnvelope, b: EvidenceEnvelope)
    requires Distinguishes(c, es) && a in es && b in es && c.Key(a) == c.Key(b)
    ensures a == b
  {
    DigestInjective(c.sha, set e | e in es :: c.encode(e), c.encode(a), c.encode(b));
  }

  lemma PutKeepsIndexed(s: StoreState, key: string, e: EvidenceEnvelope)
    requires Indexed(s.index, s.envelopes) && (key in s.envelopes ==> s.envelopes[key] == e)
    ensures var uri := e.subject.URI();
            Indexed(s.index[uri := Listed(s.index, uri) + [key]], s.envelopes[key := e])
  {
    var uri := e.subject.URI();
    var index', envelopes' := s.index[uri := Listed(s.index, uri) + [key]], s.envelopes[key := e];
    forall d | d in envelopes' ensures d in Listed(index', envelopes'[d].subject.URI()) {
      if d == key {
        assert index'[uri][|Listed(s.index, uri)|] == key;
      } else {
        assert d in Listed(s.index, s.envelopes[d].subject.URI());
      }
    }
    forall u, d | u in index' && d in index'[u] ensures d in envelopes' && envelopes'[d].subject.URI() == u {
      if u == uri {
        assert d in Listed(s.index, uri) || d == key;
      }
    }
  }

  /** Put keeps the invariant as long as the new envelope's key is not that of a different one. */
  lemma PutKeepsValid(c: Codec, s: StoreState, e: EvidenceEnvelope, payload: Option<string>)
    requires Valid(c, s) && (c.Key(e) in s.envelopes ==> s.envelopes[c.Key(e)] == e)
    ensures Valid(c, Stored(c, s, e, payload))
  {
    PutKeepsIndexed(s, c.Key(e), e);
  }

  /** Prune keeps the invariant, whatever order the index is rebuilt in. */
  lemma PruneKeepsValid(c: Codec, s: StoreState, cutoff: int, s': StoreState)
    requires Valid(c, s) && PrunedTo(s, cutoff, s')
    ensures Valid(c, s')
  {
  }

  /** Pruning at one cutoff and then at another is pruning at the later one: same envelopes, same
      blobs, and the two reports add up to the one. */
  lemma PruneTwice(s: StoreState, c1: int, s1: StoreState, c2: int, s2: StoreState)
    requires PrunedTo(s, c1, s1) && PrunedTo(s1, c2, s2)
    ensures PrunedTo(s, Later(c1, c2), s2)
    ensures |Expired(s, c1)| + |Expired(s1, c2)| == |Expired(s, Later(c1, c2))|
    ensures BytesOf(s.blobs, Expired(s, c1)) + BytesOf(s1.blobs, Expired(s1, c2)) == BytesOf(s.blobs, Expired(s, Later(c1, c2)))
  {
    var a, b := Expired(s, c1), Expired(s1, c2);
    ExpiredTwice(s, c1, s1, c2);
    BytesOfUnion(s.blobs, a, b);
    BytesElsewhere(s.blobs, s1.blobs, b);
    RemovedTwice(s.envelopes, a, b);
    RemovedTwice(s.blobs, a, b);
  }

  /** The bytes stored under a list of keys. */
  function Bytes(blobs: map<string, string>, keys: seq<string>): string {
    if keys == [] then "" else (if keys[0] in blobs then blobs[keys[0]] else "") + Bytes(blobs, keys[1..])
  }

  lemma {:induction false} BytesCounted(blobs: map<string, string>, keys: seq<string>)
    requires NoRepeats(keys)
    ensures BytesOf(blobs, set k | k in keys) == |Bytes(blobs, keys)|
  {
    if keys != [] {
      BytesCounted(blobs, keys[1..]);
      assert keys == [keys[0]] + keys[1..];
      assert (set k | k in keys) - {keys[0]} == set k | k in keys[1..];
      BytesOfAny(blobs, (set k | k in keys), keys[0]);
    }
  }

  /** Prune reports what it frees: the bytes stored before are those reported and those still stored. */
  lemma PruneConservesBytes(c: Codec, s: StoreState, cutoff: int, s': StoreState, all: seq<string>, kept: seq<string>)
    requires Valid(c, s) && PrunedTo(s, cutoff, s') && NoRepeats(all) && NoRepeats(kept)
    requires (forall k :: k in all <==> k in s.blobs) && forall k :: k in kept <==> k in s'.blobs
    ensures |Bytes(s.blobs, all)| == BytesOf(s.blobs, Expired(s, cutoff)) + |Bytes(s'.blobs, kept)|
  {
    var gone, rest := Expired(s, cutoff), s.blobs.Keys - Expired(s, cutoff);
    assert s'.blobs.Keys == rest && gone <= s.blobs.Keys;
    assert gone + rest == s.blobs.Keys;
    BytesSplit(s.blobs, s'.blobs, gone, rest, all, kept);
  }

  lemma BytesSplit(m: map<string, string>, n: map<string, string>, gone: set<string>, rest: set<string>,
                   all: seq<string>, kept: seq<string>)
    requires gone !! rest && NoRepeats(all) && NoRepeats(kept)
    requires (forall k :: k in all <==> k in gone + rest) && forall k :: k in kept <==> k in rest
    requires forall k :: k in rest ==> BlobSize(m, k) == BlobSize(n, k)
    ensures |Bytes(m, all)| == BytesOf(m, gone) + |Bytes(n, kept)|
  {
    BytesCounted(m, all);
    BytesCounted(n, kept);
    assert (set k | k in all) == gone + rest && (set k | k in kept) == rest;
    BytesOfUnion(m, gone, rest);
    BytesElsewhere(m, n, rest);
  }

  function Later(c1: int, c2: int): int {
    if c1 < c2 then c2 else c1
  }

  lemma ExpiredTwice(s: StoreState, c1: int, s1: StoreState, c2: int)
    requires s1.envelopes == s.envelopes - Expired(s, c1)
    ensures Expired(s, c1) + Expired(s1, c2) == Expired(s, Later(c1, c2)) && Expired(s, c1) !! Expired(s1, c2)
  {
  }

  lemma RemovedTwice<K, V>(m: map<K, V>, a: set<K>, b: set<K>)
    ensures m - a - b == m - (a + b)
  {
  }

  lemma {:induction false} BytesOfUnion(blobs: map<string, string>, a: set<string>, b: set<string>)
    requires a !! b
    ensures BytesOf(blobs, a + b) == BytesOf(blobs, a) + BytesOf(blobs, b)
    decreases b
  {
    if b == {} {
      assert a + b == a;
    } else {
      var k :| k in b;
      BytesOfAny(blobs, b, k);
      BytesOfAny(blobs, a + b, k);
      assert a + b - {k} == a + (b - {k});
      BytesOfUnion(blobs, a, b - {k});
    }
  }

  lemma {:induction false} BytesElsewhere(m: map<string, string>, n: map<string, string>, keys: set<string>)
    requires forall k :: k in keys ==> BlobSize(m, k) == BlobSize(n, k)
    ensures BytesOf(m, keys) == BytesOf(n, keys)
  {
    if keys != {} {
      var k :| k in keys;
      BytesOfAny(m, keys, k);
      BytesOfAny(n, keys, k);
      BytesElsewhere(m, n, keys - {k});
    }
  }

  // ----- Any sequence of Put and Prune -----

  datatype Op = PutOp(envelope: EvidenceEnvelope, payload: Option<string>) | PruneOp(cutoff: int)

  ghost predicate StepTo(c: Codec, s: StoreState, op: Op, s': StoreState) {
    match op
    case PutOp(e, payload) => s' == Stored(c, s, e, payload)
    case PruneOp(cutoff) => PrunedTo(s, cutoff, s')
  }

  /** The history of a store from empty. */
  ghost predicate History(c: Codec, states: seq<StoreState>, ops: seq<Op>) {
    && |states| == |ops| + 1 && states[0] == EMPTY
    && forall i :: 0 <= i < |ops| ==> StepTo(c, states[i], ops[i], states[i + 1])
  }

  ghost function PutEnvelopes(ops: seq<Op>): set<EvidenceEnvelope> {
    set i | 0 <= i < |ops| && ops[i].PutOp? :: ops[i].envelope
  }

  /** The envelope was put at some point and no later prune had a cutoff after its capture. */
  ghost predicate Survives(ops: seq<Op>, e: EvidenceEnvelope) {
    exists i :: 0 <= i < |ops| && SurvivesFrom(ops, i, e)
  }

  ghost predicate SurvivesFrom(ops: seq<Op>, i: nat, e: EvidenceEnvelope)
    requires i < |ops|
  {
    && ops[i].PutOp? && ops[i].envelope == e
    && forall j :: i < j < |ops| && ops[j].PruneOp? ==> ops[j].cutoff <= e.capturedAt
  }

  lemma SurvivesSnoc(ops: seq<Op>, op: Op, e: EvidenceEnvelope)
    ensures Survives(ops + [op], e) <==>
            match op
            case PutOp(f, _) => e == f || Survives(ops, e)
            case PruneOp(cutoff) => Survives(ops, e) && cutoff <= e.capturedAt
  {
    var all := ops + [op];
    if Survives(all, e) {
      var i :| 0 <= i < |all| && SurvivesFrom(all, i, e);
      assert all[|ops|] == op;
      if i < |ops| {
        assert SurvivesFrom(ops, i, e) by {
          assert forall j :: i < j < |ops| ==> ops[j] == all[j];
        }
      }
    }
    if Survives(ops, e) && (op.PruneOp? ==> op.cutoff <= e.capturedAt) {
      var i :| 0 <= i < |ops| && SurvivesFrom(ops, i, e);
      assert SurvivesFrom(all, i, e);
    }
    if op.PutOp? && op.envelope == e {
      assert SurvivesFrom(all, |ops|, e);
    }
  }

  /** After any sequence of Put and Prune a store is valid and holds exactly the envelopes that
      were put and not pruned since. */
  lemma {:induction false} StoreIsItsHistory(c: Codec, states: seq<StoreState>, ops: seq<Op>)
    requires History(c, states, ops) && Distinguishes(c, PutEnvelopes(ops))
    ensures Valid(c, states[|ops|])
    ensures forall e :: e in states[|ops|].envelopes.Values <==> Survives(ops, e)
  {
    if ops == [] {
      assert forall e :: !Survives(ops, e);
    } else {
      var n := |ops| - 1;
      var s, op, s' := states[n], ops[n], states[n + 1];
      assert PutEnvelopes(ops[..n]) <= PutEnvelopes(ops);
      DistinguishesSubset(c, PutEnvelopes(ops[..n]), PutEnvelopes(ops));
      StoreIsItsHistory(c, states[..n + 1], ops[..n]);
      assert ops == ops[..n] + [op];
      StepValues(c, s, op, s', ops[..n], PutEnvelopes(ops));
      forall e ensures e in s'.envelopes.Values <==> Survives(ops, e) {
        SurvivesSnoc(ops[..n], op, e);
      }
    }
  }

  lemma DistinguishesSubset(c: Codec, few: set<EvidenceEnvelope>, many: set<EvidenceEnvelope>)
    requires Distinguishes(c, many) && few <= many
    ensures Distinguishes(c, few)
  {
  }

  lemma SurvivorWasPut(ops: seq<Op>, e: EvidenceEnvelope)
    requires Survives(ops, e)
    ensures e in PutEnvelopes(ops)
  {
    var i :| 0 <= i < |ops| && SurvivesFrom(ops, i, e);
  }

  /** One operation, seen on the set of stored envelopes. */
  lemma StepValues(c: Codec, s: StoreState, op: Op, s': StoreState, before: seq<Op>, es: set<EvidenceEnvelope>)
    requires Valid(c, s) && StepTo(c, s, op, s') && Distinguishes(c, es)
    requires PutEnvelopes(before) <= es && (op.PutOp? ==> op.envelope in es)
    requires forall e :: e in s.envelopes.Values <==> Survives(before, e)
    ensures Valid(c, s')
    ensures forall e :: e in s'.envelopes.Values <==>
                        match op
                        case PutOp(f, _) => e == f || e in s.envelopes.Values
                        case PruneOp(cutoff) => e in s.envelopes.Values && cutoff <= e.capturedAt
  {
    match op
    case PutOp(f, payload) =>
      if c.Key(f) in s.envelopes {
        var g := s.envelopes[c.Key(f)];
        assert g in s.envelopes.Values;
        SurvivorWasPut(before, g);
        KeyInjective(c, es, f, g);
      }
      PutKeepsValid(c, s, f, payload);
      PutValues(s.envelopes, c.Key(f), f);
    case PruneOp(cutoff) =>
      PruneKeepsValid(c, s, cutoff, s');
      PruneValues(s, cutoff);
  }

  lemma PutValues(m: map<string, EvidenceEnvelope>, k: string, e: EvidenceEnvelope)
    requires k in m ==> m[k] == e
    ensures m[k := e].Values == m.Values + {e}
  {
    var m' := m[k := e];
    forall x | x in m.Values ensures x in m'.Values {
      var j :| j in m && m[j] == x;
      assert m'[j] == x;
    }
    assert m'[k] == e;
  }

  lemma PruneValues(s: StoreState, cutoff: int)
    ensures forall e :: e in (s.envelopes - Expired(s, cutoff)).Values <==> e in s.envelopes.Values && cutoff <= e.capturedAt
  {
    var kept := s.envelopes - Expired(s, cutoff);
    forall e | e in s.envelopes.Values && cutoff <= e.capturedAt ensures e in kept.Values {
      var d :| d in s.envelopes && s.envelopes[d] == e;
      assert d in kept;
    }
  }

  /** The index agrees with a scan of the history: a listing after any sequence of Put and Prune
      reports exactly the IDs of the matching envelopes that were put and not pruned since,
      although the index itself may hold a digest several times. */
  lemma ListingIsHistoryScan(c: Codec, states: seq<StoreState>, ops: seq<Op>, subject: SubjectRef,
                             r: seq<EvidenceEnvelope>)
    requires History(c, states, ops) && Distinguishes(c, PutEnvelopes(ops))
    requires IsListing(states[|ops|], subject, r)
    ensures forall id :: id in IDs(r) <==> exists e :: Survives(ops, e) && MatchSubject(e.subject, subject) && e.id == id
  {
    StoreIsItsHistory(c, states, ops);
    var s := states[|ops|];
    forall id
      ensures id in ScanIDs(s, subject) <==> exists e :: Survives(ops, e) && MatchSubject(e.subject, subject) && e.id == id
    {
      if e :| Survives(ops, e) && MatchSubject(e.subject, subject) && e.id == id {
        assert e in s.envelopes.Values;
        var d :| d in s.envelopes && s.envelopes[d] == e;
      }
      if id in ScanIDs(s, subject) {
        var d :| d in s.envelopes && MatchSubject(s.envelopes[d].subject, subject) && s.envelopes[d].id == id;
        assert s.envelopes[d] in s.envelopes.Values;
      }
    }
  }

  /** Every reference Put returned for an envelope not pruned since still verifies. */
  lemma ReferencesVerify(c: Codec, states: seq<StoreState>, ops: seq<Op>, e: EvidenceEnvelope)
    requires History(c, states, ops) && Distinguishes(c, PutEnvelopes(ops)) && Survives(ops, e)
    ensures var blobs := states[|ops|].blobs;
            c.Key(e) in blobs && ComputeDigest(c.sha, blobs[c.Key(e)]) == c.Key(e)
  {
    StoreIsItsHistory(c, states, ops);
    var s := states[|ops|];
    assert e in s.envelopes.Values;
    var d :| d in s.envelopes && s.envelopes[d] == e;
  }
}
