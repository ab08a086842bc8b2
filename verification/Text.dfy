/** Byte strings as the source uses them: decimal printing, joining and splitting, ASCII case,
    affix tests and the ordering behind sort.Strings. */
module Text {

  // ----- Joining with a separator -----

  /** strings.Join, and fmt.Sprintf with a one-character separator between its verbs. */
  function Join(parts: seq<string>, sep: char): string {
    if |parts| == 0 then ""
    else if |parts| == 1 then parts[0]
    else parts[0] + [sep] + Join(parts[1..], sep)
  }

  lemma DropLead(lead: string, x: string, y: string)
    requires lead + x == lead + y
    ensures x == y
  {
    assert x == (lead + x)[|lead|..] && y == (lead + y)[|lead|..];
  }

  lemma CutFirst(x: string, r: string, y: string, q: string, sep: char)
    requires sep !in x && sep !in y
    requires x + [sep] + r == y + [sep] + q
    ensures x == y && r == q
  {
    var s, t := x + [sep] + r, y + [sep] + q;
    assert s[|x|] == sep && t[|y|] == sep;
    if |x| < |y| {
      assert false;
    } else if |y| < |x| {
      assert false;
    }
    assert x == s[..|x|] == t[..|y|] == y;
    assert r == s[|x| + 1..] == t[|y| + 1..] == q;
  }

  lemma CutLast(r: string, x: string, q: string, y: string, sep: char)
    requires sep !in x && sep !in y
    requires r + [sep] + x == q + [sep] + y
    ensures r == q && x == y
  {
    var s, t := r + [sep] + x, q + [sep] + y;
    assert s[|r|] == sep && t[|q|] == sep;
    if |r| < |q| {
      assert false;
    } else if |q| < |r| {
      assert false;
    }
    assert r == s[..|r|] == t[..|q|] == q;
    assert x == s[|r| + 1..] == t[|q| + 1..] == y;
  }

  lemma {:induction false} JoinSnoc(parts: seq<string>, sep: char)
    requires |parts| > 1
    ensures Join(parts, sep) == Join(parts[..|parts| - 1], sep) + [sep] + parts[|parts| - 1]
  {
    if |parts| > 2 {
      JoinSnoc(parts[1..], sep);
      assert parts[1..][..|parts| - 2] == parts[..|parts| - 1][1..];
    }
  }

  /** Two equally long lists with the same joined text agree, even if one position may hold
      separators: the fields left of it are cut off from the left, those right of it from the right. */
  lemma {:induction false} JoinInjectiveAround(a: seq<string>, b: seq<string>, hole: nat, sep: char)
    requires |a| == |b| && hole < |a|
    requires forall i :: 0 <= i < |a| && i != hole ==> sep !in a[i] && sep !in b[i]
    requires Join(a, sep) == Join(b, sep)
    ensures a == b
    decreases |a|
  {
    if |a| == 1 {
    } else if hole > 0 {
      CutFirst(a[0], Join(a[1..], sep), b[0], Join(b[1..], sep), sep);
      JoinInjectiveAround(a[1..], b[1..], hole - 1, sep);
      assert a == [a[0]] + a[1..] && b == [b[0]] + b[1..];
    } else {
      var n := |a| - 1;
      JoinSnoc(a, sep);
      JoinSnoc(b, sep);
      CutLast(Join(a[..n], sep), a[n], Join(b[..n], sep), b[n], sep);
      JoinInjectiveAround(a[..n], b[..n], hole, sep);
      assert a == a[..n] + [a[n]] && b == b[..n] + [b[n]];
    }
  }

  lemma {:induction false} JoinFree(parts: seq<string>, sep: char, c: char)
    requires c != sep && forall p :: p in parts ==> c !in p
    ensures c !in Join(parts, sep)
  {
    if |parts| > 1 {
      JoinFree(parts[1..], sep, c);
    }
  }

  lemma JoinTwo(x: string, y: string, sep: char)
    ensures Join([x, y], sep) == x + [sep] + y
  {
    assert [x, y][1..] == [y];
  }

  lemma {:induction false} JoinConcat(a: seq<string>, b: seq<string>, sep: char)
    requires a != [] && b != []
    ensures Join(a + b, sep) == Join(a, sep) + [sep] + Join(b, sep)
  {
    if |a| == 1 {
      assert (a + b)[1..] == b;
    } else {
      assert (a + b)[1..] == a[1..] + b;
      JoinConcat(a[1..], b, sep);
    }
  }

  /** A stretch of parts may be replaced by any other with the same joined text. */
  lemma JoinMiddle(p: seq<string>, m: seq<string>, n: seq<string>, q: seq<string>, sep: char)
    requires m != [] && n != [] && Join(m, sep) == Join(n, sep)
    ensures Join(p + m + q, sep) == Join(p + n + q, sep)
  {
    JoinBefore(p, m, n, sep);
    assert p + m != [] && p + n != [];
    if q == [] {
      assert p + m + q == p + m && p + n + q == p + n;
    } else {
      JoinConcat(p + m, q, sep);
      JoinConcat(p + n, q, sep);
    }
  }

  lemma JoinBefore(p: seq<string>, m: seq<string>, n: seq<string>, sep: char)
    requires m != [] && n != [] && Join(m, sep) == Join(n, sep)
    ensures Join(p + m, sep) == Join(p + n, sep)
  {
    if p == [] {
      assert p + m == m && p + n == n;
    } else {
      JoinConcat(p, m, sep);
      JoinConcat(p, n, sep);
    }
  }

  /** Text moved across the separator into the next field leaves the joined text alone. */
  lemma MoveAcross(fields: seq<string>, moved: seq<string>, k: nat, sep: char)
    requires k + 1 < |fields| == |moved| && fields[..k] == moved[..k] && fields[k + 2..] == moved[k + 2..]
    requires fields[k] + [sep] + fields[k + 1] == moved[k] + [sep] + moved[k + 1]
    ensures Join(fields, sep) == Join(moved, sep)
  {
    var m, n := [fields[k], fields[k + 1]], [moved[k], moved[k + 1]];
    JoinTwo(fields[k], fields[k + 1], sep);
    JoinTwo(moved[k], moved[k + 1], sep);
    assert fields == fields[..k] + m + fields[k + 2..] && moved == moved[..k] + n + moved[k + 2..];
    JoinMiddle(fields[..k], m, n, fields[k + 2..], sep);
  }

  lemma SameAround<T>(f: seq<T>, g: seq<T>, k: nat)
    requires |f| == |g| && k + 1 < |f| && forall i :: 0 <= i < |f| && i != k && i != k + 1 ==> f[i] == g[i]
    ensures f[..k] == g[..k] && f[k + 2..] == g[k + 2..]
  {
  }

  lemma CutAt(s: string, c: char) returns (p: string, q: string)
    requires c in s
    ensures s == p + [c] + q
  {
    var i := FirstIndex(s, c);
    p, q := s[..i], s[i + 1..];
  }

  /** strings.Split on a one-character separator. */
  function Split(s: string, sep: char): (parts: seq<string>)
    ensures |parts| > 0 && Join(parts, sep) == s
    ensures forall p :: p in parts ==> sep !in p
  {
    if sep !in s then [s]
    else
      var i := FirstIndex(s, sep);
      var rest := Split(s[i + 1..], sep);
      assert ([s[..i]] + rest)[1..] == rest;
      assert s == s[..i] + [sep] + s[i + 1..];
      [s[..i]] + rest
  }

  function FirstIndex(s: string, c: char): (i: nat)
    requires c in s
    ensures i < |s| && s[i] == c && c !in s[..i]
  {
    if s[0] == c then 0 else
      var i := FirstIndex(s[1..], c);
      assert s[..i + 1] == [s[0]] + s[1..][..i];
      i + 1
  }

  /** Splitting undoes joining, for every non-empty list of separator-free parts. */
  lemma {:induction false} SplitJoin(parts: seq<string>, sep: char)
    requires |parts| > 0 && forall p :: p in parts ==> sep !in p
    ensures Split(Join(parts, sep), sep) == parts
  {
    var s := Join(parts, sep);
    if |parts| > 1 {
      assert s[|parts[0]|] == sep;
      var i := FirstIndex(s, sep);
      assert s == s[..i] + [sep] + s[i + 1..];
      CutFirst(s[..i], s[i + 1..], parts[0], Join(parts[1..], sep), sep);
      SplitJoin(parts[1..], sep);
    }
  }

  /** Whatever comes before the last separator, the last part of a split is what follows it. */
  lemma SplitLast(lead: string, last: string, sep: char)
    requires sep !in last
    ensures var parts := Split(lead + [sep] + last, sep); parts[|parts| - 1] == last
  {
    var s := lead + [sep] + last;
    var parts := Split(s, sep);
    assert s[|lead|] == sep;
    var n := |parts| - 1;
    assert parts[n] in parts;
    if n > 0 {
      JoinSnoc(parts, sep);
      CutLast(lead, last, Join(parts[..n], sep), parts[n], sep);
    } else {
      assert false;
    }
  }

  function Occurrences(s: string, c: char): nat {
    if s == "" then 0 else Occurrences(s[1..], c) + if s[0] == c then 1 else 0
  }

  lemma {:induction false} OccurrencesConcat(s: string, t: string, c: char)
    ensures Occurrences(s + t, c) == Occurrences(s, c) + Occurrences(t, c)
  {
    if s == "" {
      assert s + t == t;
    } else {
      assert (s + t)[1..] == s[1..] + t;
      OccurrencesConcat(s[1..], t, c);
    }
  }

  lemma {:induction false} OccurrencesZero(s: string, c: char)
    ensures Occurrences(s, c) == 0 <==> c !in s
  {
    if s != "" {
      OccurrencesZero(s[1..], c);
      assert s == [s[0]] + s[1..];
    }
  }

  /** A joined text holds one separator between any two parts, and more only if a part holds some. */
  lemma {:induction false} SeparatorsInJoin(parts: seq<string>, sep: char)
    requires parts != []
    ensures Occurrences(Join(parts, sep), sep) >= |parts| - 1
    ensures Occurrences(Join(parts, sep), sep) == |parts| - 1 <==> forall i :: 0 <= i < |parts| ==> sep !in parts[i]
  {
    OccurrencesZero(parts[0], sep);
    if |parts| > 1 {
      var rest := Join(parts[1..], sep);
      SeparatorsInJoin(parts[1..], sep);
      OccurrencesConcat(parts[0] + [sep], rest, sep);
      OccurrencesConcat(parts[0], [sep], sep);
      assert forall i :: 0 < i < |parts| ==> parts[i] == parts[1..][i - 1];
      assert forall i :: 0 <= i < |parts| - 1 ==> parts[1..][i] == parts[i + 1];
    }
  }

  /** Of two equally long lists with one joined text, both or neither are free of separators. */
  lemma FieldsCounted(a: seq<string>, b: seq<string>, sep: char)
    requires |a| == |b| > 0 && Join(a, sep) == Join(b, sep) && forall i :: 0 <= i < |a| ==> sep !in a[i]
    ensures forall i :: 0 <= i < |b| ==> sep !in b[i]
  {
    SeparatorsInJoin(a, sep);
    SeparatorsInJoin(b, sep);
  }

  // ----- Decimal printing -----

  function Digit(d: nat): char
    requires d < 10
  {
    ('0' as int + d) as char
  }

  function DecNat(n: nat): string {
    if n < 10 then [Digit(n)] else DecNat(n / 10) + [Digit(n % 10)]
  }

  /** The %d verb. */
  function Dec(n: int): string {
    if n < 0 then "-" + DecNat(-n) else DecNat(n)
  }

  lemma {:induction false} DecNatDigits(n: nat)
    ensures |DecNat(n)| > 0 && forall c :: c in DecNat(n) ==> '0' <= c <= '9'
  {
    if n >= 10 {
      DecNatDigits(n / 10);
    }
  }

  lemma {:induction false} DecNatInjective(m: nat, n: nat)
    requires DecNat(m) == DecNat(n)
    ensures m == n
  {
    DecNatDigits(m / 10);
    DecNatDigits(n / 10);
    var s, t := DecNat(m), DecNat(n);
    assert s[|s| - 1] == Digit(m % 10) && t[|t| - 1] == Digit(n % 10);
    if m >= 10 && n >= 10 {
      assert DecNat(m / 10) == s[..|s| - 1] == t[..|t| - 1] == DecNat(n / 10);
      DecNatInjective(m / 10, n / 10);
    }
  }

  /** The number a string of digits stands for. */
  function Value(s: string): int {
    if s == "" then 0 else 10 * Value(s[..|s| - 1]) + (s[|s| - 1] as int - '0' as int)
  }

  lemma {:induction false} DecNatValue(n: nat)
    ensures Value(DecNat(n)) == n && (n > 0 ==> DecNat(n)[0] != '0')
  {
    if n >= 10 {
      DecNatValue(n / 10);
      DecNatDigits(n / 10);
      var s := DecNat(n);
      assert s[..|s| - 1] == DecNat(n / 10) && s[|s| - 1] == Digit(n % 10);
    } else {
      assert DecNat(n)[..0] == "";
    }
  }

  lemma DecSign(n: int)
    ensures Dec(n) != "" && (Dec(n)[0] == '-' <==> n < 0)
  {
    DecNatDigits(if n < 0 then -n else n);
    assert n >= 0 ==> Dec(n)[0] in Dec(n);
  }

  lemma DecInjective(m: int, n: int)
    requires Dec(m) == Dec(n)
    ensures m == n
  {
    DecSign(m);
    DecSign(n);
    if m < 0 {
      assert Dec(m)[1..] == DecNat(-m);
      assert Dec(n)[1..] == DecNat(-n);
      DecNatInjective(-m, -n);
    } else {
      DecNatInjective(m, n);
    }
  }

  /** A printed number holds only digits and a minus sign, so it never contains a separator. */
  lemma DecClean(n: int)
    ensures Dec(n) != "" && forall c :: c in Dec(n) ==> c == '-' || '0' <= c <= '9'
  {
    DecNatDigits(if n < 0 then -n else n);
  }

  // ----- Affixes, trimming, substrings, ASCII case -----

  predicate HasPrefix(s: string, p: string) {
    |p| <= |s| && s[..|p|] == p
  }

  predicate HasSuffix(s: string, p: string) {
    |p| <= |s| && s[|s| - |p|..] == p
  }

  function TrimSuffix(s: string, p: string): string {
    if HasSuffix(s, p) then s[..|s| - |p|] else s
  }

  /** strings.Trim with a one-character cutset. */
  function Trim(s: string, c: char): string
    decreases |s|
  {
    if s != "" && s[0] == c then Trim(s[1..], c)
    else if s != "" && s[|s| - 1] == c then Trim(s[..|s| - 1], c)
    else s
  }

  lemma TrimNothing(s: string, c: char)
    requires c !in s
    ensures Trim(s, c) == s
  {
  }

  /** Trimming keeps a last segment that holds no c, and the separator before it if anything is left there. */
  lemma {:induction false} TrimKeepsLast(lead: string, last: string, c: char) returns (kept: string)
    requires c !in last && last != ""
    ensures Trim(lead + [c] + last, c) == last || Trim(lead + [c] + last, c) == kept + [c] + last
  {
    var s := lead + [c] + last;
    assert s[|s| - 1] == last[|last| - 1];
    assert last[|last| - 1] in last;
    kept := lead;
    if lead == "" {
      assert s[1..] == last;
      TrimNothing(last, c);
    } else if lead[0] == c {
      assert s[1..] == lead[1..] + [c] + last;
      kept := TrimKeepsLast(lead[1..], last, c);
    }
  }

  predicate Contains(s: string, t: string) {
    HasPrefix(s, t) || (s != "" && Contains(s[1..], t))
  }

  function LowerChar(c: char): char {
    if 'A' <= c <= 'Z' then (c as int + 32) as char else c
  }

  function Lower(s: string): string {
    seq(|s|, i requires 0 <= i < |s| => LowerChar(s[i]))
  }

  predicate EqualFold(s: string, t: string) {
    Lower(s) == Lower(t)
  }

  // ----- The same, as concatenations and character by character -----

  lemma PrefixExactly(s: string, p: string)
    ensures HasPrefix(s, p) <==> exists rest :: s == p + rest
  {
    if HasPrefix(s, p) {
      assert s == p + s[|p|..];
    }
  }

  lemma SuffixExactly(s: string, p: string)
    ensures HasSuffix(s, p) <==> exists lead :: s == lead + p
  {
    if HasSuffix(s, p) {
      assert s == s[..|s| - |p|] + p;
    }
  }

  lemma {:induction false} ContainsAt(lead: string, t: string, tail: string)
    ensures Contains(lead + t + tail, t)
  {
    var s := lead + t + tail;
    if lead == "" {
      assert s == t + tail;
    } else {
      ContainsAt(lead[1..], t, tail);
      assert s[1..] == lead[1..] + t + tail;
    }
  }

  lemma {:induction false} ContainedAt(s: string, t: string) returns (lead: string, tail: string)
    requires Contains(s, t)
    ensures s == lead + t + tail
  {
    if HasPrefix(s, t) {
      lead, tail := "", s[|t|..];
    } else {
      lead, tail := ContainedAt(s[1..], t);
      lead := [s[0]] + lead;
    }
  }

  lemma ContainsExactly(s: string, t: string)
    ensures Contains(s, t) <==> exists lead, tail :: s == lead + t + tail
  {
    if Contains(s, t) {
      var lead, tail := ContainedAt(s, t);
    }
    if lead, tail :| s == lead + t + tail {
      ContainsAt(lead, t, tail);
    }
  }

  /** x with the suffix taken off if it ends in it. */
  ghost predicate Stripped(x: string, suffix: string, y: string) {
    x == y + suffix || (x == y && !exists z :: x == z + suffix)
  }

  lemma StrippedExactly(x: string, suffix: string, y: string)
    ensures y == TrimSuffix(x, suffix) <==> Stripped(x, suffix, y)
  {
    SuffixExactly(x, suffix);
    if HasSuffix(x, suffix) {
      assert x == x[..|x| - |suffix|] + suffix;
      assert x == y + suffix ==> y == x[..|y|];
    }
  }

  /** Equal, or an upper-case letter and its lower-case form. */
  predicate SameLetter(c: char, d: char) {
    c == d || ('A' <= c <= 'Z' && d as int == c as int + 32) || ('A' <= d <= 'Z' && c as int == d as int + 32)
  }

  predicate SameButCase(s: string, t: string) {
    |s| == |t| && forall i :: 0 <= i < |s| ==> SameLetter(s[i], t[i])
  }

  lemma FoldExactly(s: string, t: string)
    ensures EqualFold(s, t) <==> SameButCase(s, t)
  {
    if EqualFold(s, t) {
      assert |s| == |Lower(s)| == |Lower(t)| == |t|;
      forall i | 0 <= i < |s| ensures SameLetter(s[i], t[i]) {
        assert Lower(s)[i] == Lower(t)[i];
      }
    }
  }

  // ----- The order of sort.Strings -----

  /** Byte-wise lexicographic order. */
  predicate Leq(a: string, b: string) {
    a == "" || (b != "" && (a[0] < b[0] || (a[0] == b[0] && Leq(a[1..], b[1..]))))
  }

  lemma {:induction false} LeqTotal(a: string, b: string)
    ensures Leq(a, b) || Leq(b, a)
  {
    if a != "" && b != "" && a[0] == b[0] {
      LeqTotal(a[1..], b[1..]);
    }
  }

  lemma {:induction false} LeqAntisymmetric(a: string, b: string)
    requires Leq(a, b) && Leq(b, a)
    ensures a == b
  {
    if a != "" {
      LeqAntisymmetric(a[1..], b[1..]);
      assert a == [a[0]] + a[1..] && b == [b[0]] + b[1..];
    }
  }

  lemma {:induction false} LeqTransitive(a: string, b: string, c: string)
    requires Leq(a, b) && Leq(b, c)
    ensures Leq(a, c)
  {
    if a != "" && a[0] == b[0] == c[0] {
      LeqTransitive(a[1..], b[1..], c[1..]);
    }
  }

  /** a is b cut short, or smaller at the first character where they differ. */
  ghost predicate Before(a: string, b: string) {
    a <= b || exists i :: SmallerAt(a, b, i)
  }

  predicate SmallerAt(a: string, b: string, i: int) {
    0 <= i < |a| && i < |b| && a[..i] == b[..i] && a[i] < b[i]
  }

  lemma SmallerShift(a: string, b: string, i: nat)
    requires a != "" && b != "" && a[0] == b[0]
    ensures SmallerAt(a[1..], b[1..], i) <==> SmallerAt(a, b, i + 1)
  {
    if i < |a| - 1 && i < |b| - 1 {
      assert a[..i + 1] == [a[0]] + a[1..][..i] && b[..i + 1] == [b[0]] + b[1..][..i];
      assert a[1..][..i] == a[..i + 1][1..] && b[1..][..i] == b[..i + 1][1..];
    }
  }

  lemma SmallerFirst(a: string, b: string, i: int)
    requires a != "" && b != "" && SmallerAt(a, b, i)
    ensures i > 0 ==> a[0] == b[0]
  {
    assert i > 0 ==> a[..i][0] == a[0] && b[..i][0] == b[0];
  }

  lemma {:induction false} LeqExactly(a: string, b: string)
    ensures Leq(a, b) <==> Before(a, b)
  {
    if a != "" && b != "" {
      if a[0] == b[0] {
        LeqExactly(a[1..], b[1..]);
        BeforeShift(a, b);
      } else {
        if a[0] < b[0] {
          assert SmallerAt(a, b, 0);
        }
        forall i | SmallerAt(a, b, i) ensures a[0] < b[0] {
          SmallerFirst(a, b, i);
        }
      }
    }
  }

  lemma BeforeShift(a: string, b: string)
    requires a != "" && b != "" && a[0] == b[0]
    ensures Before(a[1..], b[1..]) <==> Before(a, b)
  {
    assert a == [a[0]] + a[1..] && b == [b[0]] + b[1..];
    if i :| SmallerAt(a[1..], b[1..], i) {
      SmallerShift(a, b, i);
    }
    if i :| SmallerAt(a, b, i) {
      SmallerShift(a, b, i - 1);
    }
  }

  ghost predicate Sorted(s: seq<string>) {
    forall i, j :: 0 <= i < j < |s| ==> Leq(s[i], s[j])
  }

  function Insert(x: string, s: seq<string>): seq<string> {
    if s == [] || Leq(x, s[0]) then [x] + s else [s[0]] + Insert(x, s[1..])
  }

  /** What sort.Strings leaves in its argument. */
  function Sort(s: seq<string>): seq<string> {
    if s == [] then [] else Insert(s[0], Sort(s[1..]))
  }

  lemma {:induction false} InsertSorted(x: string, s: seq<string>)
    requires Sorted(s)
    ensures Sorted(Insert(x, s)) && multiset(Insert(x, s)) == multiset(s) + multiset{x}
  {
    if s == [] {
    } else if Leq(x, s[0]) {
      forall i | 0 <= i < |s| ensures Leq(x, s[i]) {
        if i > 0 { LeqTransitive(x, s[0], s[i]); }
      }
    } else {
      InsertSorted(x, s[1..]);
      LeqTotal(x, s[0]);
      var t := Insert(x, s[1..]);
      assert s == [s[0]] + s[1..];
      forall i | 0 <= i < |t| ensures Leq(s[0], t[i]) {
        assert t[i] in multiset(t);
        assert t[i] == x || t[i] in s[1..];
      }
    }
  }

  lemma {:induction false} SortSorts(s: seq<string>)
    ensures Sorted(Sort(s)) && multiset(Sort(s)) == multiset(s)
  {
    if s != [] {
      SortSorts(s[1..]);
      InsertSorted(s[0], Sort(s[1..]));
      assert s == [s[0]] + s[1..];
    }
  }

  lemma SameLength<T>(a: seq<T>, b: seq<T>)
    requires multiset(a) == multiset(b)
    ensures |a| == |b|
  {
    assert |multiset(a)| == |a| && |multiset(b)| == |b|;
  }

  lemma SortedHead(a: seq<string>, b: seq<string>)
    requires Sorted(a) && Sorted(b) && a != [] && b != []
    requires multiset(a) == multiset(b)
    ensures a[0] == b[0]
  {
    assert a[0] in multiset(b) && b[0] in multiset(a);
    LeqTotal(a[0], a[0]);
    LeqTotal(b[0], b[0]);
    LeqAntisymmetric(a[0], b[0]);
  }

  lemma {:induction false} SortedUnique(a: seq<string>, b: seq<string>)
    requires Sorted(a) && Sorted(b) && multiset(a) == multiset(b)
    ensures a == b
  {
    SameLength(a, b);
    if a != [] {
      SortedHead(a, b);
      DropHead(a);
      DropHead(b);
      SortedUnique(a[1..], b[1..]);
      assert a == [a[0]] + a[1..] && b == [b[0]] + b[1..];
    }
  }

  lemma DropHead<T>(s: seq<T>)
    requires s != []
    ensures multiset(s[1..]) == multiset(s) - multiset{s[0]}
  {
    assert s == [s[0]] + s[1..];
  }

  /** Sorting forgets exactly the order: it identifies a list up to permutation. */
  lemma SortCanonical(a: seq<string>, b: seq<string>)
    ensures Sort(a) == Sort(b) <==> multiset(a) == multiset(b)
  {
    SortSorts(a);
    SortSorts(b);
    if multiset(a) == multiset(b) {
      SortedUnique(Sort(a), Sort(b));
    }
  }

  /** Sorted, newline-joined lists of newline-free entries: the text determines the multiset.
      Only the empty list and the list holding one empty entry share a text. */
  lemma SortedJoinInjective(a: seq<string>, b: seq<string>, sep: char)
    requires forall x :: x in a || x in b ==> sep !in x
    requires a != [] && b != []
    requires Join(Sort(a), sep) == Join(Sort(b), sep)
    ensures multiset(a) == multiset(b)
  {
    SortSorts(a);
    SortSorts(b);
    SameLength(a, Sort(a));
    SameLength(b, Sort(b));
    forall x | x in Sort(a) ensures sep !in x { assert x in multiset(a); }
    forall x | x in Sort(b) ensures sep !in x { assert x in multiset(b); }
    SplitJoin(Sort(a), sep);
    SplitJoin(Sort(b), sep);
  }

  lemma EmptyJoin(a: seq<string>, sep: char)
    requires a != [] && Join(Sort(a), sep) == ""
    ensures a == [""]
  {
    SortSorts(a);
    SameLength(a, Sort(a));
    var s := Sort(a);
    if |a| > 1 {
      assert false;
    } else {
      assert a[0] in multiset(s);
    }
  }

  /** Sorted parts that hold no separator, joined: no list with more parts that are not empty has
      the same text, one with as many is the same list up to order, and one with fewer holds a
      separator in some part. */
  lemma LinesCounted(a: seq<string>, g: seq<string>, sep: char)
    requires Join(Sort(a), sep) == Join(Sort(g), sep)
    requires (forall x :: x in a ==> x != "") && forall x :: x in g ==> x != "" && sep !in x
    ensures |a| <= |g|
    ensures |a| == |g| <==> forall x :: x in a ==> sep !in x
    ensures |a| == |g| ==> multiset(a) == multiset(g)
  {
    SortKeeps(a);
    SortKeeps(g);
    if a == [] {
      assert g != [] ==> g[0] in g;
      if g != [] { EmptyJoin(g, sep); }
    } else if g == [] {
      assert a[0] in a;
      EmptyJoin(a, sep);
    } else {
      SortedSeparators(a, sep);
      SortedSeparators(g, sep);
      if |a| == |g| {
        LinesBind(g, a, sep);
      }
    }
  }

  lemma SortedSeparators(a: seq<string>, sep: char)
    requires a != []
    ensures Occurrences(Join(Sort(a), sep), sep) >= |a| - 1
    ensures Occurrences(Join(Sort(a), sep), sep) == |a| - 1 <==> forall x :: x in a ==> sep !in x
  {
    var s := Sort(a);
    SortKeeps(a);
    SeparatorsInJoin(s, sep);
    if i :| 0 <= i < |s| && sep in s[i] {
      assert s[i] in s;
    }
    if x :| x in a && sep in x {
      assert x in s;
    }
  }

  lemma SortKeeps(a: seq<string>)
    ensures |Sort(a)| == |a| && forall x :: x in Sort(a) <==> x in a
  {
    SortSorts(a);
    SameLength(a, Sort(a));
    forall x ensures x in Sort(a) <==> x in a {
      assert x in a <==> x in multiset(a);
      assert x in Sort(a) <==> x in multiset(Sort(a));
    }
  }

  lemma LinesBind(g: seq<string>, a: seq<string>, sep: char)
    requires |a| == |g| && Join(Sort(g), sep) == Join(Sort(a), sep) && forall x :: x in g ==> sep !in x
    ensures multiset(g) == multiset(a)
  {
    SortKeeps(a);
    SortKeeps(g);
    if g != [] {
      FieldsCounted(Sort(g), Sort(a), sep);
      JoinInjectiveAround(Sort(g), Sort(a), 0, sep);
      SortSorts(g);
      SortSorts(a);
    }
  }

  /** The keys of a map in sorted order, whatever order the map is iterated in. */
  ghost function SortedKeys(keys: set<string>): (s: seq<string>)
    ensures Sorted(s) && multiset(s) == multiset(keys) && |s| == |keys|
  {
    if keys == {} then [] else
      var k :| k in keys;
      var rest := SortedKeys(keys - {k});
      InsertSorted(k, rest);
      assert multiset(keys) == multiset(keys - {k}) + multiset{k};
      assert |multiset(Insert(k, rest))| == |multiset(keys)|;
      Insert(k, rest)
  }

  lemma InAnyOrder(list: seq<string>, keys: set<string>)
    requires multiset(list) == multiset(keys)
    ensures forall k :: k in list <==> k in keys
  {
    forall k ensures k in list <==> k in keys {
      assert k in list <==> k in multiset(list);
      assert k in keys <==> k in multiset(keys);
    }
  }

  /** Ranging over the keys of a map: each once, in no particular order. */
  method Enumerate(keys: set<string>) returns (list: seq<string>)
    ensures multiset(list) == multiset(keys)
  {
    list := [];
    var rest := keys;
    while rest != {}
      invariant rest <= keys && multiset(list) == multiset(keys - rest)
      decreases rest
    {
      var k :| k in rest;
      assert keys - (rest - {k}) == (keys - rest) + {k};
      rest := rest - {k};
      list := list + [k];
    }
    assert keys - rest == keys;
  }
}
