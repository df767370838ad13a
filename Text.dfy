/**
  String and sequence helpers shared by the path parser, the object-store
  model and the directory engine.  Each one mirrors a Python built-in that
  pyminio relies on: `str.startswith`, `str.replace(p, '')`, `str.lower`,
  `posixpath.join`, `posixpath.basename`, the lexicographic order in which an
  S3 server lists names, and the stable `sorted(..., reverse=True)`; and
  the element type of Python's `bytes`.
*/
module Text {

  newtype byte = x: int | 0 <= x < 256

  // ---------------------------------------------------------------------------
  // Prefixes and occurrences

  predicate StartsWith(s: string, p: string) {
    |p| <= |s| && s[..|p|] == p
  }

  /** `pat` occurs in `s` at position `i`. */
  predicate OccursAt(s: string, pat: string, i: nat) {
    i + |pat| <= |s| && s[i..i + |pat|] == pat
  }

  /** `pat` occurs nowhere in `s`. */
  ghost predicate NoOccurrence(s: string, pat: string) {
    forall i: nat :: !OccursAt(s, pat, i)
  }

  /** Python's `s.replace(pat, '')`: every non-overlapping occurrence of `pat`,
      scanning left to right, is deleted.  An empty `pat` leaves `s` as it is. */
  function RemoveAll(s: string, pat: string): (r: string)
    ensures |r| <= |s|
    ensures |pat| > 0 && |s| < |pat| ==> r == s
    decreases |s|
  {
    if |pat| == 0 || |s| == 0 then s
    else if StartsWith(s, pat) then RemoveAll(s[|pat|..], pat)
    else [s[0]] + RemoveAll(s[1..], pat)
  }

  /** Deleting a pattern that does not occur changes nothing. */
  lemma {:induction false} RemoveAllAbsent(s: string, pat: string)
    requires NoOccurrence(s, pat)
    ensures RemoveAll(s, pat) == s
    decreases |s|
  {
    if |pat| > 0 && |s| > 0 {
      assert !OccursAt(s, pat, 0);
      assert !StartsWith(s, pat);
      forall i: nat
        ensures !OccursAt(s[1..], pat, i)
      {
        assert !OccursAt(s, pat, i + 1);
        if i + |pat| <= |s[1..]| {
          assert s[1..][i..i + |pat|] == s[i + 1..i + 1 + |pat|];
        }
      }
      RemoveAllAbsent(s[1..], pat);
      assert s == [s[0]] + s[1..];
    }
  }

  /** A leading occurrence is deleted and the scan goes on after it. */
  lemma RemoveAllLeading(p: string, t: string)
    requires |p| > 0
    ensures RemoveAll(p + t, p) == RemoveAll(t, p)
  {
    assert StartsWith(p + t, p);
    assert (p + t)[|p|..] == t;
  }

  /** Cutting a sequence at `i` and gluing the halves back. */
  lemma SplitAt(s: string, i: nat)
    requires i <= |s|
    ensures s == s[..i] + s[i..]
  {
  }

  /** Cutting a sequence around the element at `i`. */
  lemma SplitAround(s: string, i: nat)
    requires i < |s|
    ensures s == s[..i] + [s[i]] + s[i + 1..]
  {
  }

  // ---------------------------------------------------------------------------
  // Slashes

  predicate NoSlash(s: string) {
    forall i :: 0 <= i < |s| ==> s[i] != '/'
  }

  predicate EndsWithSlash(s: string) {
    |s| > 0 && s[|s| - 1] == '/'
  }

  /** Positions `i` and `i + 1` of `s` both hold '/'. */
  predicate SlashPairAt(s: string, i: nat)
    requires i + 1 < |s|
  {
    s[i] == '/' && s[i + 1] == '/'
  }

  /** No two consecutive slashes. */
  predicate NoDoubleSlash(s: string) {
    forall i: nat :: i + 1 < |s| ==> !SlashPairAt(s, i)
  }

  predicate NoNewline(s: string) {
    forall i :: 0 <= i < |s| ==> s[i] != '\n'
  }

  /** Index of the first '/' in `s`, or |s| when there is none. */
  function FirstSlash(s: string): (r: nat)
    ensures r <= |s|
    ensures r < |s| ==> s[r] == '/'
    ensures forall i :: 0 <= i < r ==> s[i] != '/'
  {
    if |s| == 0 || s[0] == '/' then 0 else 1 + FirstSlash(s[1..])
  }

  /** Index of the last '/' in `s[..end]`, or -1 when there is none. */
  function LastSlash(s: string, end: nat): (r: int)
    requires end <= |s|
    ensures -1 <= r < end
    ensures r >= 0 ==> s[r] == '/'
    ensures forall i :: r < i < end ==> s[i] != '/'
  {
    if end == 0 then -1
    else if s[end - 1] == '/' then end - 1
    else LastSlash(s, end - 1)
  }

  /** `posixpath.join(a, b)`: an absolute `b` replaces `a`; otherwise a '/'
      is inserted unless `a` is empty or already ends with one. */
  function PosixJoin(a: string, b: string): (r: string)
    ensures |b| > 0 && b[0] == '/' ==> r == b
    ensures !(|b| > 0 && b[0] == '/') ==> StartsWith(r, a) && |b| <= |r| && r[|r| - |b|..] == b
    ensures !(|b| > 0 && b[0] == '/') && (a == "" || EndsWithSlash(a)) ==> r == a + b
    ensures !(|b| > 0 && b[0] == '/') && a != "" && !EndsWithSlash(a) ==> r == a + "/" + b
  {
    if |b| > 0 && b[0] == '/' then b
    else if |a| == 0 || a[|a| - 1] == '/' then a + b
    else a + "/" + b
  }

  /** `posixpath.basename(s)`: what follows the last '/'. */
  function Basename(s: string): (r: string)
    ensures NoSlash(r)
    ensures |r| <= |s| && s[|s| - |r|..] == r
    ensures NoSlash(s) ==> r == s
    ensures EndsWithSlash(s) ==> r == ""
  {
    s[LastSlash(s, |s|) + 1..]
  }

  // ---------------------------------------------------------------------------
  // Case

  /** ASCII lower-casing of one character. */
  function LowerChar(c: char): (r: char)
    ensures 'A' <= c <= 'Z' ==> r != c && 'a' <= r <= 'z'
    ensures !('A' <= c <= 'Z') ==> r == c
  {
    if 'A' <= c <= 'Z' then (c as int - 'A' as int + 'a' as int) as char else c
  }

  /** `str.lower` restricted to ASCII letters. */
  function Lower(s: string): (r: string)
    ensures |r| == |s|
    ensures forall i :: 0 <= i < |s| ==> r[i] == LowerChar(s[i])
  {
    seq(|s|, i requires 0 <= i < |s| => LowerChar(s[i]))
  }

  lemma LowerIdempotent(s: string)
    ensures Lower(Lower(s)) == Lower(s)
  {
  }

  // ---------------------------------------------------------------------------
  // Lexicographic order, the order in which an S3 server lists names

  predicate LexLess(a: string, b: string) {
    if |a| == 0 then |b| > 0
    else if |b| == 0 then false
    else if a[0] < b[0] then true
    else if a[0] == b[0] then LexLess(a[1..], b[1..])
    else false
  }

  lemma {:induction false} LexTotal(a: string, b: string)
    ensures a == b || LexLess(a, b) || LexLess(b, a)
  {
    if |a| > 0 && |b| > 0 && a[0] == b[0] {
      LexTotal(a[1..], b[1..]);
      assert a == [a[0]] + a[1..];
      assert b == [b[0]] + b[1..];
    }
  }

  lemma {:induction false} LexAsymmetric(a: string, b: string)
    ensures !(LexLess(a, b) && LexLess(b, a))
  {
    if |a| > 0 && |b| > 0 && a[0] == b[0] {
      LexAsymmetric(a[1..], b[1..]);
    }
  }

  lemma {:induction false} LexTransitive(a: string, b: string, c: string)
    requires LexLess(a, b) && LexLess(b, c)
    ensures LexLess(a, c)
  {
    if |a| > 0 && |b| > 0 && |c| > 0 && a[0] == b[0] && b[0] == c[0] {
      LexTransitive(a[1..], b[1..], c[1..]);
    }
  }

  predicate IsLexMin(m: string, s: set<string>) {
    m in s && forall x :: x in s && x != m ==> LexLess(m, x)
  }

  lemma LexMinExists(s: set<string>)
    requires s != {}
    ensures exists m :: IsLexMin(m, s)
  {
    var x :| x in s;
    if s == {x} {
      assert IsLexMin(x, s);
    } else {
      LexMinExists(s - {x});
      var m :| IsLexMin(m, s - {x});
      LexTotal(m, x);
      if LexLess(m, x) {
        assert IsLexMin(m, s);
      } else {
        forall y | y in s && y != x
          ensures LexLess(x, y)
        {
          if y != m { LexTransitive(x, m, y); }
        }
        assert IsLexMin(x, s);
      }
    }
  }

  lemma LexMinUnique(s: set<string>)
    ensures forall a, b :: IsLexMin(a, s) && IsLexMin(b, s) ==> a == b
  {
    forall a, b | IsLexMin(a, s) && IsLexMin(b, s)
      ensures a == b
    {
      LexAsymmetric(a, b);
    }
  }

  predicate LexIncreasing(r: seq<string>) {
    forall i, j :: 0 <= i < j < |r| ==> LexLess(r[i], r[j])
  }

  /** The names of `s` in increasing lexicographic order. */
  function LexSorted(s: set<string>): (r: seq<string>)
    ensures |r| == |s|
    ensures forall x :: x in r <==> x in s
    ensures LexIncreasing(r)
    decreases s
  {
    if s == {} then []
    else
      LexMinExists(s);
      LexMinUnique(s);
      var m :| IsLexMin(m, s);
      [m] + LexSorted(s - {m})
  }

  /** A strictly increasing sequence has no repeated element. */
  lemma LexIncreasingDistinct(r: seq<string>)
    requires LexIncreasing(r)
    ensures forall i, j :: 0 <= i < j < |r| ==> r[i] != r[j]
  {
    forall i, j | 0 <= i < j < |r|
      ensures r[i] != r[j]
    {
      LexAsymmetric(r[i], r[j]);
    }
  }

  // ---------------------------------------------------------------------------
  // Stable descending sort, Python's `sorted(xs, key=k, reverse=True)`

  predicate SortedDesc<T>(s: seq<T>, key: T -> nat) {
    forall i, j :: 0 <= i < j < |s| ==> key(s[i]) >= key(s[j])
  }

  /** Inserts `x` after every element whose key is at least `key(x)`. */
  function InsertDesc<T>(x: T, s: seq<T>, key: T -> nat): (r: seq<T>)
    ensures multiset(r) == multiset(s) + multiset{x}
    ensures |r| == |s| + 1
  {
    if |s| == 0 then [x]
    else if key(s[0]) < key(x) then [x] + s
    else
      assert s == [s[0]] + s[1..];
      [s[0]] + InsertDesc(x, s[1..], key)
  }

  function SortDesc<T>(s: seq<T>, key: T -> nat): (r: seq<T>)
    ensures multiset(r) == multiset(s)
    ensures |r| == |s|
  {
    if |s| == 0 then []
    else
      assert s == s[..|s| - 1] + [s[|s| - 1]];
      InsertDesc(s[|s| - 1], SortDesc(s[..|s| - 1], key), key)
  }

  lemma {:induction false} InsertDescSorted<T>(x: T, s: seq<T>, key: T -> nat)
    requires SortedDesc(s, key)
    ensures SortedDesc(InsertDesc(x, s, key), key)
  {
    if |s| > 0 && key(s[0]) >= key(x) {
      InsertDescSorted(x, s[1..], key);
      var t := InsertDesc(x, s[1..], key);
      assert multiset(t) == multiset(s[1..]) + multiset{x};
      forall j | 0 <= j < |t|
        ensures key(s[0]) >= key(t[j])
      {
        assert t[j] in multiset(t);
        if t[j] != x {
          assert t[j] in multiset(s[1..]);
          var k :| 0 <= k < |s[1..]| && s[1..][k] == t[j];
          assert s[k + 1] == t[j];
        }
      }
    }
  }

  /** The stable sort orders its result by decreasing key. */
  lemma {:induction false} SortDescSorted<T>(s: seq<T>, key: T -> nat)
    ensures SortedDesc(SortDesc(s, key), key)
  {
    if |s| > 0 {
      SortDescSorted(s[..|s| - 1], key);
      InsertDescSorted(s[|s| - 1], SortDesc(s[..|s| - 1], key), key);
    }
  }

  /** The elements of `s` whose key is `v`, in their order in `s`. */
  function WithKey<T>(s: seq<T>, key: T -> nat, v: nat): (r: seq<T>)
    ensures forall i :: 0 <= i < |r| ==> key(r[i]) == v
    ensures |r| <= |s|
  {
    if |s| == 0 then []
    else (if key(s[0]) == v then [s[0]] else []) + WithKey(s[1..], key, v)
  }

  lemma {:induction false} WithKeyAppend<T>(s: seq<T>, t: seq<T>, key: T -> nat, v: nat)
    ensures WithKey(s + t, key, v) == WithKey(s, key, v) + WithKey(t, key, v)
  {
    if |s| > 0 {
      assert (s + t)[1..] == s[1..] + t;
      WithKeyAppend(s[1..], t, key, v);
    } else {
      assert s + t == t;
    }
  }

  /** Nothing is picked from a sequence none of whose keys is `v`. */
  lemma {:induction false} WithKeyNone<T>(s: seq<T>, key: T -> nat, v: nat)
    requires forall i :: 0 <= i < |s| ==> key(s[i]) != v
    ensures WithKey(s, key, v) == []
  {
    if |s| > 0 {
      WithKeyNone(s[1..], key, v);
    }
  }

  /** Inserting `x` into a sorted sequence places it after every element of
      the same key. */
  lemma {:induction false} InsertDescWithKey<T>(x: T, s: seq<T>, key: T -> nat, v: nat)
    requires SortedDesc(s, key)
    ensures WithKey(InsertDesc(x, s, key), key, v) == WithKey(s, key, v) + WithKey([x], key, v)
  {
    if |s| == 0 {
    } else if key(s[0]) < key(x) {
      InsertDescFront(x, s, key, v);
    } else {
      var t := s[1..];
      assert s == [s[0]] + t;
      SortedDescTail(s, key);
      InsertDescWithKey(x, t, key, v);
      assert InsertDesc(x, s, key) == [s[0]] + InsertDesc(x, t, key);
      calc {
        WithKey(InsertDesc(x, s, key), key, v);
        WithKey([s[0]] + InsertDesc(x, t, key), key, v);
        { WithKeyAppend([s[0]], InsertDesc(x, t, key), key, v); }
        WithKey([s[0]], key, v) + (WithKey(t, key, v) + WithKey([x], key, v));
        { WithKeyAppend([s[0]], t, key, v); }
        WithKey(s, key, v) + WithKey([x], key, v);
      }
    }
  }

  /** `x` goes in front when its key beats the first one, and then no element
      of `s` shares its key. */
  lemma InsertDescFront<T>(x: T, s: seq<T>, key: T -> nat, v: nat)
    requires SortedDesc(s, key) && |s| > 0 && key(s[0]) < key(x)
    ensures WithKey(InsertDesc(x, s, key), key, v) == WithKey(s, key, v) + WithKey([x], key, v)
  {
    assert InsertDesc(x, s, key) == [x] + s;
    WithKeyAppend([x], s, key, v);
    if key(x) == v {
      KeysBelow(s, key, v);
      WithKeyNone(s, key, v);
      assert WithKey(s, key, v) == [];
    }
  }

  lemma KeysBelow<T>(s: seq<T>, key: T -> nat, v: nat)
    requires SortedDesc(s, key) && |s| > 0 && key(s[0]) < v
    ensures forall i :: 0 <= i < |s| ==> key(s[i]) != v
  {
    forall i | 0 <= i < |s|
      ensures key(s[i]) != v
    {
      if i > 0 {
        assert key(s[0]) >= key(s[i]);
      }
    }
  }

  lemma SortedDescTail<T>(s: seq<T>, key: T -> nat)
    requires SortedDesc(s, key) && |s| > 0
    ensures SortedDesc(s[1..], key)
  {
    forall i, j | 0 <= i < j < |s| - 1
      ensures key(s[1..][i]) >= key(s[1..][j])
    {
      assert s[1..][i] == s[i + 1] && s[1..][j] == s[j + 1];
    }
  }

  /** The sort is stable: for every key, the elements carrying it come out
      in the order they went in. */
  lemma {:induction false} SortDescStable<T>(s: seq<T>, key: T -> nat, v: nat)
    ensures WithKey(SortDesc(s, key), key, v) == WithKey(s, key, v)
  {
    if |s| > 0 {
      var init, x := s[..|s| - 1], s[|s| - 1];
      assert s == init + [x];
      SortDescStable(init, key, v);
      SortDescSorted(init, key);
      InsertDescWithKey(x, SortDesc(init, key), key, v);
      WithKeyAppend(init, [x], key, v);
    }
  }

  /** The first element of the sorted sequence carries the greatest key. */
  lemma SortDescFirstIsMax<T>(s: seq<T>, key: T -> nat)
    requires |s| > 0
    ensures forall x :: x in s ==> key(SortDesc(s, key)[0]) >= key(x)
  {
    var r := SortDesc(s, key);
    SortDescSorted(s, key);
    forall x | x in s
      ensures key(r[0]) >= key(x)
    {
      assert x in multiset(s);
      assert x in multiset(r);
      var k :| 0 <= k < |r| && r[k] == x;
    }
  }

  // ---------------------------------------------------------------------------
  // Repetition-free sequences

  predicate Distinct<T(==)>(s: seq<T>) {
    forall i, j :: 0 <= i < j < |s| ==> s[i] != s[j]
  }

  /** An element occurs at most once in a repetition-free sequence. */
  lemma {:induction false} DistinctCount<T>(s: seq<T>, x: T)
    requires Distinct(s)
    ensures multiset(s)[x] <= 1
  {
    if |s| > 0 {
      var t := s[1..];
      assert s == [s[0]] + t;
      forall i, j | 0 <= i < j < |t|
        ensures t[i] != t[j]
      {
        assert t[i] == s[i + 1] && t[j] == s[j + 1];
      }
      DistinctCount(t, x);
      forall k | 0 <= k < |t|
        ensures t[k] != s[0]
      {
        assert t[k] == s[k + 1];
      }
      assert s[0] !in multiset(t);
    }
  }

  /** A sequence in which nothing occurs twice is repetition-free. */
  lemma {:induction false} CountDistinct<T>(s: seq<T>)
    requires forall x :: multiset(s)[x] <= 1
    ensures Distinct(s)
  {
    if |s| > 0 {
      var t := s[1..];
      assert s == [s[0]] + t;
      assert multiset(s) == multiset{s[0]} + multiset(t);
      forall x
        ensures multiset(t)[x] <= 1
      {
        assert multiset(s)[x] == multiset{s[0]}[x] + multiset(t)[x];
      }
      CountDistinct(t);
      assert multiset(s)[s[0]] == 1 + multiset(t)[s[0]];
      forall i, j | 0 <= i < j < |s|
        ensures s[i] != s[j]
      {
        assert s[j] == t[j - 1];
        if i == 0 {
          assert s[j] in multiset(t);
        } else {
          assert s[i] == t[i - 1];
        }
      }
    }
  }

  /** Reordering a sequence whose keys are pairwise different keeps them so. */
  lemma PermutationKeysDistinct<T, K>(a: seq<T>, b: seq<T>, key: T -> K)
    requires multiset(a) == multiset(b)
    requires forall i, j :: 0 <= i < j < |b| ==> key(b[i]) != key(b[j])
    ensures forall i, j :: 0 <= i < j < |a| ==> key(a[i]) != key(a[j])
  {
    forall x
      ensures multiset(a)[x] <= 1
    {
      DistinctCount(b, x);
    }
    CountDistinct(a);
    forall i, j | 0 <= i < j < |a|
      ensures key(a[i]) != key(a[j])
    {
      assert a[i] in multiset(b) && a[j] in multiset(b);
      var i' :| 0 <= i' < |b| && b[i'] == a[i];
      var j' :| 0 <= j' < |b| && b[j'] == a[j];
    }
  }
}
