/** Assurance epochs and the sort-then-join digests of maps and lists. */
module Epochs {
  import opened Text
  import opened Digests
  import opened Records

  // ----- Matching and drift -----

  predicate DimensionMatches(mine: string, target: string) {
    target == "" || mine == target
  }

  /** Evidence epoch e meets the constraints of the target epoch: every stated dimension agrees. */
  predicate Matches(e: AssuranceEpoch, target: AssuranceEpoch) {
    && DimensionMatches(e.subjectDigest, target.subjectDigest)
    && DimensionMatches(e.implementationDigest, target.implementationDigest)
    && DimensionMatches(e.policyDigest, target.policyDigest)
    && DimensionMatches(e.authorityDigest, target.authorityDigest)
    && DimensionMatches(e.environmentDigest, target.environmentDigest)
  }

  datatype DriftReason = SubjectDrift | ImplementationDrift | PolicyDrift | AuthorityDrift | EnvironmentDrift

  predicate Drifted(e: AssuranceEpoch, other: AssuranceEpoch, reason: DriftReason) {
    match reason
    case SubjectDrift => e.subjectDigest != other.subjectDigest
    case ImplementationDrift => e.implementationDigest != other.implementationDigest
    case PolicyDrift => e.policyDigest != other.policyDigest
    case AuthorityDrift => e.authorityDigest != other.authorityDigest
    case EnvironmentDrift => e.environmentDigest != other.environmentDigest
  }

  /** Reports exactly the drifted dimensions, each once; so no report means equal epochs, and
      equal epochs match. */
  method Diff(e: AssuranceEpoch, other: AssuranceEpoch) returns (reasons: seq<DriftReason>)
    ensures forall d :: d in reasons <==> Drifted(e, other, d)
    ensures forall i, j :: 0 <= i < j < |reasons| ==> reasons[i] != reasons[j]
    ensures reasons == [] <==> e == other
  {
    reasons := [];
    if e.subjectDigest != other.subjectDigest {
      reasons := reasons + [SubjectDrift];
    }
    if e.implementationDigest != other.implementationDigest {
      reasons := reasons + [ImplementationDrift];
    }
    if e.policyDigest != other.policyDigest {
      reasons := reasons + [PolicyDrift];
    }
    if e.authorityDigest != other.authorityDigest {
      reasons := reasons + [AuthorityDrift];
    }
    if e.environmentDigest != other.environmentDigest {
      reasons := reasons + [EnvironmentDrift];
    }
  }

  /** Matches is a preorder: evidence that meets a finer target meets every coarser one. */
  lemma MatchesPreorder(e: AssuranceEpoch, fine: AssuranceEpoch, coarse: AssuranceEpoch)
    ensures Matches(e, e)
    ensures Matches(e, fine) && Matches(fine, coarse) ==> Matches(e, coarse)
  {
  }

  function Dimension(e: AssuranceEpoch, d: DriftReason): string {
    match d
    case SubjectDrift => e.subjectDigest
    case ImplementationDrift => e.implementationDigest
    case PolicyDrift => e.policyDigest
    case AuthorityDrift => e.authorityDigest
    case EnvironmentDrift => e.environmentDigest
  }

  /** Every dimension the target states is met; an empty one is not stated. */
  ghost predicate EpochMet(e: AssuranceEpoch, target: AssuranceEpoch) {
    forall d :: Dimension(target, d) == "" || Dimension(e, d) == Dimension(target, d)
  }

  /** An epoch matches a target exactly if no drifted dimension is one the target states, and the
      dimensions are all there is to an epoch. */
  lemma MatchesExactly(e: AssuranceEpoch, target: AssuranceEpoch)
    ensures Matches(e, target) <==> forall d :: Drifted(e, target, d) ==> Dimension(target, d) == ""
    ensures Matches(e, target) <==> EpochMet(e, target)
    ensures e == target <==> forall d :: Dimension(e, d) == Dimension(target, d)
  {
    assert forall d :: Drifted(e, target, d) <==> Dimension(e, d) != Dimension(target, d);
    if forall d :: Dimension(target, d) == "" || Dimension(e, d) == Dimension(target, d) {
      EachDimension(e, target);
    }
    if forall d :: Dimension(e, d) == Dimension(target, d) {
      EachDimension(e, target);
      EachDimension(target, e);
      assert e.subjectDigest == target.subjectDigest;
    }
  }

  lemma EachDimension(e: AssuranceEpoch, target: AssuranceEpoch)
    requires forall d :: Dimension(target, d) == "" || Dimension(e, d) == Dimension(target, d)
    ensures target.subjectDigest == "" || e.subjectDigest == target.subjectDigest
    ensures target.implementationDigest == "" || e.implementationDigest == target.implementationDigest
    ensures target.policyDigest == "" || e.policyDigest == target.policyDigest
    ensures target.authorityDigest == "" || e.authorityDigest == target.authorityDigest
    ensures target.environmentDigest == "" || e.environmentDigest == target.environmentDigest
  {
    assert Dimension(target, SubjectDrift) == target.subjectDigest && Dimension(e, SubjectDrift) == e.subjectDigest;
    assert Dimension(target, ImplementationDrift) == target.implementationDigest;
    assert Dimension(e, ImplementationDrift) == e.implementationDigest;
    assert Dimension(target, PolicyDrift) == target.policyDigest && Dimension(e, PolicyDrift) == e.policyDigest;
    assert Dimension(target, AuthorityDrift) == target.authorityDigest && Dimension(e, AuthorityDrift) == e.authorityDigest;
    assert Dimension(target, EnvironmentDrift) == target.environmentDigest;
    assert Dimension(e, EnvironmentDrift) == e.environmentDigest;
  }

  // ----- The composite digest -----

  /** An epoch dimension as the system writes it: empty, or a sha256 digest. */
  predicate IsDimension(s: string) {
    s == "" || IsDigest(s)
  }

  /** The ':' that separates dimensions also occurs inside each digest, and still the joined text
      determines the dimensions: their fixed width says where each one ends. */
  lemma {:induction false} DimensionsInjective(a: seq<string>, b: seq<string>)
    requires |a| == |b| > 0
    requires forall s :: s in a || s in b ==> IsDimension(s)
    requires Join(a, ':') == Join(b, ':')
    ensures a == b
  {
    if |a| > 1 {
      assert a[0] in a && b[0] in b;
      var s := Join(a, ':');
      assert a[0] == "" ==> s[0] == ':';
      assert b[0] == "" ==> s[0] == ':';
      assert a[0] != "" ==> s[0] == a[0][..7][0];
      assert b[0] != "" ==> s[0] == b[0][..7][0];
      assert |a[0]| == |b[0]|;
      assert a[0] == s[..|a[0]|] == b[0];
      assert Join(a[1..], ':') == s[|a[0]| + 1..] == Join(b[1..], ':');
      DimensionsInjective(a[1..], b[1..]);
      assert a == [a[0]] + a[1..] && b == [b[0]] + b[1..];
    }
  }

  ghost predicate WellFormed(e: AssuranceEpoch) {
    forall s :: s in e.Parts() ==> IsDimension(s)
  }

  /** The composite digest identifies the epoch. */
  lemma CompositeIdentifiesEpoch(sha: Sha, e: AssuranceEpoch, f: AssuranceEpoch)
    requires WellFormed(e) && WellFormed(f)
    requires CollisionFree(sha, {Join(e.Parts(), ':'), Join(f.Parts(), ':')})
    ensures e.CompositeDigest(sha) == f.CompositeDigest(sha) <==> e == f
  {
    if e.CompositeDigest(sha) == f.CompositeDigest(sha) {
      DigestInjective(sha, {Join(e.Parts(), ':'), Join(f.Parts(), ':')}, Join(e.Parts(), ':'), Join(f.Parts(), ':'));
      DimensionsInjective(e.Parts(), f.Parts());
      var p, q := e.Parts(), f.Parts();
      assert p[0] == q[0] && p[1] == q[1] && p[2] == q[2] && p[3] == q[3] && p[4] == q[4];
    }
  }

  // ----- Digests of maps -----

  function Pairs(keys: seq<string>, m: map<string, string>): string
    requires forall k :: k in keys ==> k in m
  {
    if keys == [] then "" else keys[0] + "=" + (m[keys[0]] + ";" + Pairs(keys[1..], m))
  }

  ghost function MapText(m: map<string, string>): string {
    InAnyOrder(SortedKeys(m.Keys), m.Keys);
    if |m| == 0 then "{}" else Pairs(SortedKeys(m.Keys), m)
  }

  /** Hashes the sorted pairs, whatever order the map hands out its keys. */
  method ComputeMapDigest(sha: Sha, m: map<string, string>) returns (digest: string)
    ensures digest == ComputeDigest(sha, MapText(m))
  {
    if |m| == 0 {
      return ComputeDigest(sha, "{}");
    }
    var keys := Enumerate(m.Keys);
    SortListing(keys, m.Keys);
    InAnyOrder(SortedKeys(m.Keys), m.Keys);
    keys := Sort(keys);
    var text := WritePairs(keys, m);
    digest := ComputeDigest(sha, text);
  }

  method WritePairs(keys: seq<string>, m: map<string, string>) returns (sb: string)
    requires forall k :: k in keys ==> k in m
    ensures sb == Pairs(keys, m)
  {
    sb := "";
    for i := 0 to |keys|
      invariant sb + Pairs(keys[i..], m) == Pairs(keys, m)
    {
      NextPair(sb, keys[i..], m);
      assert keys[i..][1..] == keys[i + 1..];
      sb := sb + keys[i];
      sb := sb + "=";
      sb := sb + m[keys[i]];
      sb := sb + ";";
    }
  }

  lemma NextPair(sb: string, keys: seq<string>, m: map<string, string>)
    requires keys != [] && forall k :: k in keys ==> k in m
    ensures sb + keys[0] + "=" + m[keys[0]] + ";" + Pairs(keys[1..], m) == sb + Pairs(keys, m)
  {
  }

  lemma SortListing(list: seq<string>, keys: set<string>)
    requires multiset(list) == multiset(keys)
    ensures Sort(list) == SortedKeys(keys)
  {
    SortSorts(list);
    SortedUnique(Sort(list), SortedKeys(keys));
  }

  predicate CleanPairs(m: map<string, string>) {
    forall k :: k in m ==> '=' !in k && ';' !in m[k]
  }

  lemma {:induction false} PairsInjective(a: seq<string>, m: map<string, string>, b: seq<string>,
                                          n: map<string, string>)
    requires (forall k :: k in a ==> k in m) && (forall k :: k in b ==> k in n)
    requires CleanPairs(m) && CleanPairs(n) && Pairs(a, m) == Pairs(b, n)
    ensures a == b && forall k :: k in a ==> m[k] == n[k]
  {
    if a != [] && b != [] {
      CutFirst(a[0], m[a[0]] + ";" + Pairs(a[1..], m), b[0], n[b[0]] + ";" + Pairs(b[1..], n), '=');
      CutFirst(m[a[0]], Pairs(a[1..], m), n[b[0]], Pairs(b[1..], n), ';');
      PairsInjective(a[1..], m, b[1..], n);
      assert a == [a[0]] + a[1..] && b == [b[0]] + b[1..];
    }
  }

  lemma MapTextInjective(m: map<string, string>, n: map<string, string>)
    requires CleanPairs(m) && CleanPairs(n) && MapText(m) == MapText(n)
    ensures m == n
  {
    InAnyOrder(SortedKeys(m.Keys), m.Keys);
    InAnyOrder(SortedKeys(n.Keys), n.Keys);
    if |m| == 0 && |n| > 0 {
      PairsNotBraces(SortedKeys(n.Keys), n);
    } else if |m| > 0 && |n| == 0 {
      PairsNotBraces(SortedKeys(m.Keys), m);
    } else if |m| > 0 {
      PairsInjective(SortedKeys(m.Keys), m, SortedKeys(n.Keys), n);
      assert m.Keys == n.Keys;
    }
  }

  /** The map digest identifies the map, empty or not. */
  lemma MapDigestIdentifiesMap(sha: Sha, m: map<string, string>, n: map<string, string>)
    requires CleanPairs(m) && CleanPairs(n) && CollisionFree(sha, {MapText(m), MapText(n)})
    ensures ComputeDigest(sha, MapText(m)) == ComputeDigest(sha, MapText(n)) <==> m == n
  {
    if ComputeDigest(sha, MapText(m)) == ComputeDigest(sha, MapText(n)) {
      DigestInjective(sha, {MapText(m), MapText(n)}, MapText(m), MapText(n));
      MapTextInjective(m, n);
    }
  }

  lemma PairsNotBraces(keys: seq<string>, m: map<string, string>)
    requires keys != [] && forall k :: k in keys ==> k in m
    ensures Pairs(keys, m) != "{}"
  {
    assert Pairs(keys, m)[|keys[0]|] == '=';
  }

  // ----- Digests of lists -----

  function ListText(digests: seq<string>): string {
    Join(Sort(digests), '\n')
  }

  method CanonicalDigestList(sha: Sha, digests: seq<string>) returns (root: string)
    ensures root == ComputeDigest(sha, ListText(digests))
  {
    if |digests| == 0 {
      return ComputeDigest(sha, "");
    }
    var sorted := digests;
    sorted := Sort(sorted);
    var combined := Join(sorted, '\n');
    root := ComputeDigest(sha, combined);
  }

  /** A list root identifies exactly the multiset of its newline-free digests; the one pair of
      lists it cannot tell apart is the empty list and the list of one empty digest. */
  lemma ListRootIdentifiesMultiset(sha: Sha, a: seq<string>, b: seq<string>)
    requires forall d :: d in a || d in b ==> '\n' !in d
    requires CollisionFree(sha, {ListText(a), ListText(b)})
    ensures ComputeDigest(sha, ListText(a)) == ComputeDigest(sha, ListText(b)) <==>
            multiset(a) == multiset(b) || (a == [] && b == [""]) || (a == [""] && b == [])
  {
    SortCanonical(a, b);
    if ComputeDigest(sha, ListText(a)) == ComputeDigest(sha, ListText(b)) {
      DigestInjective(sha, {ListText(a), ListText(b)}, ListText(a), ListText(b));
      if a != [] && b != [] {
        SortedJoinInjective(a, b, '\n');
      } else if a != [] {
        EmptyJoin(a, '\n');
      } else if b != [] {
        EmptyJoin(b, '\n');
      }
    }
    assert Sort([""]) == [""];
  }
}
