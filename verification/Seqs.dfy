/** Counting and mapping over sequences, and their independence of order. */
module Seqs {

  datatype Option<+T> = None | Some(value: T)

  function CountIf<T>(s: seq<T>, p: T -> bool): nat {
    if s == [] then 0 else CountIf(s[..|s| - 1], p) + if p(s[|s| - 1]) then 1 else 0
  }

  function Map<T, U>(f: T -> U, s: seq<T>): seq<U> {
    seq(|s|, i requires 0 <= i < |s| => f(s[i]))
  }

  lemma MapSnoc<T, U>(f: T -> U, s: seq<T>, x: T)
    ensures Map(f, s + [x]) == Map(f, s) + [f(x)]
  {
  }

  function Filter<T>(s: seq<T>, p: T -> bool): seq<T> {
    if s == [] then []
    else Filter(s[..|s| - 1], p) + if p(s[|s| - 1]) then [s[|s| - 1]] else []
  }

  lemma {:induction false} FilterMembers<T>(s: seq<T>, p: T -> bool, x: T)
    ensures x in Filter(s, p) <==> x in s && p(x)
  {
    if s != [] {
      FilterMembers(s[..|s| - 1], p, x);
      assert s == s[..|s| - 1] + [s[|s| - 1]];
    }
  }

  lemma {:induction false} FilterMultiset<T>(s: seq<T>, p: T -> bool, x: T)
    ensures multiset(Filter(s, p))[x] == if p(x) then multiset(s)[x] else 0
  {
    if s != [] {
      FilterMultiset(s[..|s| - 1], p, x);
      assert s == s[..|s| - 1] + [s[|s| - 1]];
    }
  }

  /** Filtering keeps the order: two kept positions stay two positions, in the same order. */
  lemma {:induction false} FilterOrder<T>(s: seq<T>, p: T -> bool, i: nat, j: nat) returns (a: nat, b: nat)
    requires i < j < |s| && p(s[i]) && p(s[j])
    ensures a < b < |Filter(s, p)| && Filter(s, p)[a] == s[i] && Filter(s, p)[b] == s[j]
  {
    var n := |s| - 1;
    if j < n {
      a, b := FilterOrder(s[..n], p, i, j);
    } else {
      FilterMembers(s[..n], p, s[i]);
      assert s[i] == s[..n][i];
      a :| 0 <= a < |Filter(s[..n], p)| && Filter(s[..n], p)[a] == s[i];
      b := |Filter(s[..n], p)|;
    }
  }

  lemma {:induction false} FilterConcat<T>(s: seq<T>, t: seq<T>, p: T -> bool)
    ensures Filter(s + t, p) == Filter(s, p) + Filter(t, p)
  {
    if t == [] {
      assert s + t == s;
    } else {
      var n := |t| - 1;
      assert (s + t)[..|s + t| - 1] == s + t[..n] && (s + t)[|s + t| - 1] == t[n];
      FilterConcat(s, t[..n], p);
    }
  }

  lemma FilterSnoc<T>(s: seq<T>, x: T, p: T -> bool)
    ensures Filter(s + [x], p) == Filter(s, p) + if p(x) then [x] else []
  {
    assert (s + [x])[..|s|] == s;
  }

  lemma CountSnoc<T>(s: seq<T>, x: T, p: T -> bool)
    ensures CountIf(s + [x], p) == CountIf(s, p) + if p(x) then 1 else 0
  {
    assert (s + [x])[..|s|] == s;
  }

  lemma CountNext<T>(s: seq<T>, i: nat, p: T -> bool)
    requires i < |s|
    ensures CountIf(s[..i + 1], p) == CountIf(s[..i], p) + if p(s[i]) then 1 else 0
    ensures Filter(s[..i + 1], p) == Filter(s[..i], p) + if p(s[i]) then [s[i]] else []
  {
    assert s[..i + 1][..i] == s[..i];
  }

  function Without<T>(s: seq<T>, i: nat): seq<T>
    requires i < |s|
  {
    s[..i] + s[i + 1..]
  }

  lemma WithoutMultiset<T>(s: seq<T>, i: nat)
    requires i < |s|
    ensures multiset(s) == multiset(Without(s, i)) + multiset{s[i]}
    ensures multiset(Without(s, i)) == multiset(s) - multiset{s[i]}
  {
    assert s == s[..i] + [s[i]] + s[i + 1..];
  }

  lemma WithoutBefore<T>(s: seq<T>, i: nat)
    requires i + 1 < |s|
    ensures Without(s, i) == Without(s[..|s| - 1], i) + [s[|s| - 1]]
  {
    var n := |s| - 1;
    assert s[i + 1..] == s[..n][i + 1..] + [s[n]];
  }

  lemma {:induction false} CountWithout<T>(s: seq<T>, p: T -> bool, i: nat)
    requires i < |s|
    ensures CountIf(s, p) == CountIf(Without(s, i), p) + if p(s[i]) then 1 else 0
  {
    var n := |s| - 1;
    if i < n {
      CountWithout(s[..n], p, i);
      WithoutBefore(s, i);
      CountSnoc(Without(s[..n], i), s[n], p);
    } else {
      assert Without(s, i) == s[..n];
    }
  }

  lemma {:induction false} CountPermuted<T>(a: seq<T>, b: seq<T>, p: T -> bool)
    requires multiset(a) == multiset(b)
    ensures CountIf(a, p) == CountIf(b, p)
  {
    if a == [] {
      assert |multiset(b)| == 0;
    } else {
      assert a[0] in multiset(b);
      var i :| 0 <= i < |b| && b[i] == a[0];
      WithoutMultiset(a, 0);
      WithoutMultiset(b, i);
      CountPermuted(Without(a, 0), Without(b, i), p);
      CountWithout(a, p, 0);
      CountWithout(b, p, i);
    }
  }

  lemma {:induction false} CountMonotone<T>(s: seq<T>, p: T -> bool, q: T -> bool)
    requires forall x :: x in s && p(x) ==> q(x)
    ensures CountIf(s, p) <= CountIf(s, q)
  {
    if s != [] {
      CountMonotone(s[..|s| - 1], p, q);
    }
  }

  lemma {:induction false} CountZero<T>(s: seq<T>, p: T -> bool)
    ensures CountIf(s, p) == 0 <==> forall x :: x in s ==> !p(x)
  {
    if s != [] {
      CountZero(s[..|s| - 1], p);
      assert s == s[..|s| - 1] + [s[|s| - 1]];
    }
  }

  lemma MapWithout<T, U>(f: T -> U, s: seq<T>, i: nat)
    requires i < |s|
    ensures multiset(Map(f, s)) == multiset(Map(f, Without(s, i))) + multiset{f(s[i])}
    ensures multiset(Map(f, Without(s, i))) == multiset(Map(f, s)) - multiset{f(s[i])}
  {
    WithoutMultiset(Map(f, s), i);
    assert Without(Map(f, s), i) == Map(f, Without(s, i));
  }

  lemma {:induction false} MapPermuted<T, U>(f: T -> U, a: seq<T>, b: seq<T>)
    requires multiset(a) == multiset(b)
    ensures multiset(Map(f, a)) == multiset(Map(f, b))
  {
    if a == [] {
      assert |multiset(b)| == 0;
    } else {
      assert a[0] in multiset(b);
      var i :| 0 <= i < |b| && b[i] == a[0];
      WithoutMultiset(a, 0);
      WithoutMultiset(b, i);
      MapPermuted(f, Without(a, 0), Without(b, i));
      MapWithout(f, a, 0);
      MapWithout(f, b, i);
    }
  }

  lemma MatchFirst<T, U>(f: T -> U, a: seq<T>, b: seq<T>) returns (i: nat)
    requires a != [] && multiset(Map(f, a)) == multiset(Map(f, b))
    ensures i < |b| && f(b[i]) == f(a[0])
    ensures multiset(Map(f, Without(a, 0))) == multiset(Map(f, Without(b, i)))
  {
    assert Map(f, a)[0] == f(a[0]) && Map(f, a)[0] in multiset(Map(f, b));
    i :| 0 <= i < |b| && Map(f, b)[i] == f(a[0]);
    MapWithout(f, a, 0);
    MapWithout(f, b, i);
  }

  /** Lists with the same images under f have the same images under whatever f determines. */
  lemma {:induction false} MapThrough<T, U, V>(f: T -> U, g: T -> V, a: seq<T>, b: seq<T>)
    requires multiset(Map(f, a)) == multiset(Map(f, b))
    requires forall x, y :: x in a && y in b && f(x) == f(y) ==> g(x) == g(y)
    ensures multiset(Map(g, a)) == multiset(Map(g, b))
  {
    if a == [] {
      assert |multiset(Map(f, b))| == |b|;
    } else {
      var i := MatchFirst(f, a, b);
      MapThrough(f, g, Without(a, 0), Without(b, i));
      MapWithout(g, a, 0);
      MapWithout(g, b, i);
    }
  }

  lemma MapMembers<T, U>(f: T -> U, s: seq<T>, y: U)
    ensures y in Map(f, s) <==> exists x :: x in s && f(x) == y
  {
    if y in Map(f, s) {
      var i :| 0 <= i < |s| && Map(f, s)[i] == y;
      assert s[i] in s;
    }
    if x :| x in s && f(x) == y {
      var i :| 0 <= i < |s| && s[i] == x;
      assert Map(f, s)[i] == y;
    }
  }
}
