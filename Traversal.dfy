// The breadth-first walks of `rmdir` and `copy_recursively`
// (pyminio/main.py:206-233 and 295-316), stated over the keys of one bucket.
//
// Both walks start from a directory prefix `p`, pop a directory, list it,
// and queue the next-level directories the listing shows.  `Dirs` is every
// directory the walk can reach; `Frontier` is what holds between two
// iterations: what was visited, what is queued, and that every reachable
// directory is one or the other or lies below a queued one.  `Gone` and
// `Remaining` say what `rmdir` has removed after visiting a set of
// directories, and `Emptied` what is left once it has visited them all.
module Traversal {
  import opened Text
  import opened Wrappers
  import opened Structures
  import opened ObjectStore
  import opened Engine

  // ---------------------------------------------------------------------------
  // The directories below a prefix

  /** `p` and every prefix of a key below `p` that ends at a '/' past `p`. */
  ghost function Dirs(ks: set<string>, p: string): set<string> {
    {p} + set k, i | k in ks && StartsWith(k, p) && |p| <= i < |k| && k[i] == '/' :: k[..i + 1]
  }

  lemma InDirs(ks: set<string>, p: string, k: string, i: nat)
    requires k in ks && StartsWith(k, p) && |p| <= i < |k| && k[i] == '/'
    ensures k[..i + 1] in Dirs(ks, p)
  {
  }

  /** A directory other than `p` lies strictly below `p`, ends in '/', and
      holds a key. */
  lemma DirsShape(ks: set<string>, p: string, d: string)
    requires d in Dirs(ks, p)
    ensures StartsWith(d, p)
    ensures d != p ==> |d| > |p| && EndsWithSlash(d) && exists k :: k in ks && StartsWith(k, d)
  {
    if d != p {
      var k, i :| k in ks && StartsWith(k, p) && |p| <= i < |k| && k[i] == '/' && d == k[..i + 1];
      assert d[..|p|] == k[..|p|];
      assert StartsWith(k, d);
    }
  }

  /** The directory holding a key: the key up to its last '/'. */
  function ParentDir(k: string): (r: string)
    ensures StartsWith(k, r)
    ensures r == "" || EndsWithSlash(r)
    ensures NoSlash(k[|r|..])
  {
    k[..LastSlash(k, |k|) + 1]
  }

  /** A key directly inside the directory `d` (neither `d` itself nor
      below one of its subdirectories) is one whose parent is `d` and that
      does not end in '/'. */
  lemma FileInParent(d: string, k: string)
    requires d == "" || EndsWithSlash(d)
    requires k != ""
    ensures (StartsWith(k, d) && k != d && NoSlash(k[|d|..])) <==> (ParentDir(k) == d && !EndsWithSlash(k))
  {
    if StartsWith(k, d) && k != d && NoSlash(k[|d|..]) {
      var j := LastSlash(k, |k|);
      if d != "" {
        assert k[|d| - 1] == '/';
        assert j == |d| - 1 by {
          forall i | |d| <= i < |k| ensures k[i] != '/' {
            assert k[|d|..][i - |d|] == k[i];
          }
        }
      } else {
        assert NoSlash(k);
      }
      assert k[|k| - 1] == k[|d|..][|k| - 1 - |d|];
    }
  }

  /** No key lies below a subdirectory of `d`. */
  ghost predicate Leaf(ks: set<string>, d: string) {
    forall k :: k in ks && StartsWith(k, d) && k != d ==> NoSlash(k[|d|..])
  }

  /** `d` is a leaf exactly when no next-level directory below it holds a key. */
  lemma LeafIff(ks: set<string>, d: string)
    ensures Leaf(ks, d) <==> forall c :: !(ChildDir(d, c) && exists k :: k in ks && StartsWith(k, c))
  {
    if !Leaf(ks, d) {
      var k :| k in ks && StartsWith(k, d) && k != d && !NoSlash(k[|d|..]);
      var c := EntryName(d, k).value;
      assert ChildDir(d, c);
    }
    if c :| ChildDir(d, c) && exists k :: k in ks && StartsWith(k, c) {
      var k :| k in ks && StartsWith(k, c);
      assert k[..|d|] == c[..|d|];
      assert k[|d|..][|c| - 1 - |d|] == c[|c| - 1];
    }
  }

  // ---------------------------------------------------------------------------
  // What `rmdir` removes

  /** After visiting the directories `V`, `rmdir` has removed the marker of
      every visited directory that had no subdirectory, and every key
      directly inside a visited directory. */
  ghost predicate Gone(ks: set<string>, V: set<string>, k: string) {
    (k in V && Leaf(ks, k)) || (ParentDir(k) in V && !EndsWithSlash(k))
  }

  ghost function Remaining(objs: map<string, Obj>, V: set<string>): map<string, Obj> {
    map k | k in objs && !Gone(objs.Keys, V, k) :: objs[k]
  }

  /** The objects of the bucket after `rmdir` of the directory `p` visited
      every directory below it and then removed the marker `p`. */
  ghost function Emptied(objs: map<string, Obj>, p: string): map<string, Obj> {
    map k | k in objs && !Gone(objs.Keys, Dirs(objs.Keys, p), k) && k != p :: objs[k]
  }

  /** Every directory marker strictly below `p` is a leaf. */
  ghost predicate NoInteriorMarkers(objs: map<string, Obj>, p: string) {
    forall d :: d in objs && StartsWith(d, p) && d != p && EndsWithSlash(d) ==> Leaf(objs.Keys, d)
  }

  // ---------------------------------------------------------------------------
  // The walk

  /** Between two iterations: `V` holds the visited directories and `Q` the
      queued ones; no queued directory was visited, none lies below another,
      no visited one lies below a queued one, and every directory is visited
      or lies below a queued one. */
  ghost predicate Frontier(ks: set<string>, p: string, V: set<string>, Q: seq<string>) {
    V <= Dirs(ks, p) &&
    (forall i :: 0 <= i < |Q| ==> Q[i] in Dirs(ks, p) && Q[i] !in V) &&
    (forall i, j :: 0 <= i < |Q| && 0 <= j < |Q| && i != j ==> !StartsWith(Q[j], Q[i])) &&
    (forall v, i :: v in V && 0 <= i < |Q| ==> !StartsWith(v, Q[i])) &&
    (forall d :: d in Dirs(ks, p) ==> d in V || exists i :: 0 <= i < |Q| && StartsWith(d, Q[i]))
  }

  lemma FrontierInit(ks: set<string>, p: string)
    ensures Frontier(ks, p, {}, [p])
  {
    forall d | d in Dirs(ks, p)
      ensures StartsWith(d, [p][0])
    {
      DirsShape(ks, p, d);
    }
  }

  /** When nothing is queued, every directory has been visited. */
  lemma FrontierDone(ks: set<string>, p: string, V: set<string>)
    requires Frontier(ks, p, V, [])
    ensures V == Dirs(ks, p)
  {
  }

  /** The length of the longest key. */
  ghost function MaxLength(ks: set<string>): (n: nat)
    ensures forall k :: k in ks ==> |k| <= n
    decreases ks
  {
    if ks == {} then 0
    else
      var k :| k in ks;
      var m := MaxLength(ks - {k});
      if |k| <= m then m else |k|
  }

  /** Below every directory of the walk lies a directory with no
      subdirectory. */
  lemma LeafBelow(ks: set<string>, p: string, d: string) returns (l: string)
    requires d in Dirs(ks, p)
    ensures l in Dirs(ks, p) && Leaf(ks, l)
    decreases MaxLength(ks) - |d|
  {
    if Leaf(ks, d) {
      return d;
    }
    var k :| k in ks && StartsWith(k, d) && k != d && !NoSlash(k[|d|..]);
    var j :| 0 <= j < |k[|d|..]| && k[|d|..][j] == '/';
    DirsShape(ks, p, d);
    StartsWithTrans(k, d, p);
    InDirs(ks, p, k, |d| + j);
    l := LeafBelow(ks, p, k[..|d| + j + 1]);
  }

  /** Two directories that are both prefixes of a third: one is a prefix of
      the other. */
  lemma PrefixesNested(a: string, b: string, s: string)
    ensures StartsWith(s, a) && StartsWith(s, b) ==> StartsWith(a, b) || StartsWith(b, a)
  {
    if StartsWith(s, a) && StartsWith(s, b) {
      if |a| <= |b| {
        assert b[..|a|] == s[..|a|];
      } else {
        assert a[..|b|] == s[..|b|];
      }
    }
  }

  lemma StartsWithTrans(a: string, b: string, c: string)
    ensures StartsWith(a, b) && StartsWith(b, c) ==> StartsWith(a, c)
  {
    if StartsWith(a, b) && StartsWith(b, c) {
      assert a[..|c|] == b[..|c|];
    }
  }

  /** Of two next-level directories of the same parent, neither lies below
      the other unless they are equal. */
  lemma ChildrenNested(cur: string, a: string, b: string)
    requires ChildDir(cur, a) && ChildDir(cur, b)
    ensures StartsWith(b, a) ==> a == b
  {
    if StartsWith(b, a) {
      assert forall i :: |cur| <= i < |b| - 1 ==> b[i] == b[|cur|..|b| - 1][i - |cur|];
      assert b[|a| - 1] == a[|a| - 1];
      assert a == b[..|a|];
    }
  }

  /** A next-level directory that holds a key is one of the directories. */
  lemma ChildInDirs(ks: set<string>, p: string, cur: string, c: string, k: string)
    requires cur in Dirs(ks, p)
    requires ChildDir(cur, c) && k in ks && StartsWith(k, c)
    ensures c in Dirs(ks, p)
  {
    DirsShape(ks, p, cur);
    StartsWithTrans(c, cur, p);
    StartsWithTrans(k, c, p);
    assert c == k[..|c|];
    InDirs(ks, p, k, |c| - 1);
  }

  /** The directory of `D` one level below `cur`, when `D` lies strictly
      below `cur`. */
  lemma ChildAbove(ks: set<string>, p: string, cur: string, D: string) returns (c: string)
    requires cur in Dirs(ks, p) && (cur == "" || EndsWithSlash(cur))
    requires D in Dirs(ks, p) && StartsWith(D, cur) && D != cur
    ensures ChildDir(cur, c) && StartsWith(D, c) && exists k :: k in ks && StartsWith(k, c)
  {
    DirsShape(ks, p, cur);
    DirsShape(ks, p, D);
    assert |D| > |cur| by {
      assert D[..|D|] == D;
    }
    var k :| k in ks && StartsWith(k, D);
    c := EntryName(cur, D).value;
    assert EndsWithSlash(D) && |D| > |cur|;
    assert !NoSlash(D[|cur|..]) by {
      assert D[|cur|..][|D| - 1 - |cur|] == D[|D| - 1];
    }
    StartsWithTrans(k, D, c);
  }

  /** One iteration: the head of the queue is visited and its next-level
      directories that hold keys, `C`, are queued. */
  lemma FrontierStep(ks: set<string>, p: string, V: set<string>, Q: seq<string>, C: seq<string>)
    requires Frontier(ks, p, V, Q) && Q != []
    requires Q[0] == "" || EndsWithSlash(Q[0])
    requires forall c :: c in C <==> ChildDir(Q[0], c) && exists k :: k in ks && StartsWith(k, c)
    requires Distinct(C)
    ensures Frontier(ks, p, V + {Q[0]}, Q[1..] + C)
    ensures Dirs(ks, p) - (V + {Q[0]}) < Dirs(ks, p) - V
  {
    StepQueued(ks, p, V, Q, C);
    StepAntichain(ks, p, V, Q, C);
    StepVisited(ks, p, V, Q, C);
    StepCovers(ks, p, V, Q, C);
    assert Q[0] in Dirs(ks, p) - V;
  }

  lemma StepQueued(ks: set<string>, p: string, V: set<string>, Q: seq<string>, C: seq<string>)
    requires Frontier(ks, p, V, Q) && Q != []
    requires Q[0] == "" || EndsWithSlash(Q[0])
    requires forall c :: c in C <==> ChildDir(Q[0], c) && exists k :: k in ks && StartsWith(k, c)
    ensures forall i :: 0 <= i < |Q[1..] + C| ==>
      (Q[1..] + C)[i] in Dirs(ks, p) && (Q[1..] + C)[i] !in V + {Q[0]}
  {
    var cur := Q[0];
    var Q' := Q[1..] + C;
    forall c | c in C
      ensures c in Dirs(ks, p) && c !in V + {cur}
    {
      var k :| k in ks && StartsWith(k, c);
      ChildInDirs(ks, p, cur, c, k);
      assert StartsWith(c, Q[0]);
    }
    forall i | 0 <= i < |Q'|
      ensures Q'[i] in Dirs(ks, p) && Q'[i] !in V + {cur}
    {
      if i < |Q| - 1 {
        assert Q'[i] == Q[i + 1];
      } else {
        assert Q'[i] in C;
      }
    }
  }

  lemma StepAntichain(ks: set<string>, p: string, V: set<string>, Q: seq<string>, C: seq<string>)
    requires Frontier(ks, p, V, Q) && Q != []
    requires Q[0] == "" || EndsWithSlash(Q[0])
    requires forall c :: c in C <==> ChildDir(Q[0], c) && exists k :: k in ks && StartsWith(k, c)
    requires Distinct(C)
    ensures forall i, j :: 0 <= i < |Q[1..] + C| && 0 <= j < |Q[1..] + C| && i != j ==>
      !StartsWith((Q[1..] + C)[j], (Q[1..] + C)[i])
  {
    var cur := Q[0];
    var Q' := Q[1..] + C;
    forall i, j | 0 <= i < |Q'| && 0 <= j < |Q'| && i != j
      ensures !StartsWith(Q'[j], Q'[i])
    {
      if i < |Q| - 1 && j < |Q| - 1 {
        assert Q'[i] == Q[i + 1] && Q'[j] == Q[j + 1];
      } else if i >= |Q| - 1 && j >= |Q| - 1 {
        assert Q'[i] == C[i - |Q| + 1] && Q'[j] == C[j - |Q| + 1];
        ChildrenNested(cur, Q'[i], Q'[j]);
      } else if i < |Q| - 1 {
        // a queued directory and a new child below `cur`
        assert Q'[i] == Q[i + 1] && Q'[j] in C;
        PrefixesNested(Q[i + 1], cur, Q'[j]);
        assert !StartsWith(Q[i + 1], Q[0]) && !StartsWith(Q[0], Q[i + 1]);
      } else {
        assert Q'[i] in C && Q'[j] == Q[j + 1];
        StartsWithTrans(Q[j + 1], Q'[i], cur);
        assert !StartsWith(Q[j + 1], Q[0]);
      }
    }
  }

  lemma StepVisited(ks: set<string>, p: string, V: set<string>, Q: seq<string>, C: seq<string>)
    requires Frontier(ks, p, V, Q) && Q != []
    requires Q[0] == "" || EndsWithSlash(Q[0])
    requires forall c :: c in C <==> ChildDir(Q[0], c) && exists k :: k in ks && StartsWith(k, c)
    ensures forall v, i :: v in V + {Q[0]} && 0 <= i < |Q[1..] + C| ==> !StartsWith(v, (Q[1..] + C)[i])
  {
    var cur := Q[0];
    var Q' := Q[1..] + C;
    forall v, i | v in V + {cur} && 0 <= i < |Q'|
      ensures !StartsWith(v, Q'[i])
    {
      if i < |Q| - 1 {
        assert Q'[i] == Q[i + 1];
        assert v == cur ==> !StartsWith(Q[0], Q[i + 1]);
      } else {
        var c := Q'[i];
        assert c in C;
        StartsWithTrans(v, c, cur);
        assert v != cur ==> !StartsWith(v, Q[0]);
      }
    }
  }

  lemma StepCovers(ks: set<string>, p: string, V: set<string>, Q: seq<string>, C: seq<string>)
    requires Frontier(ks, p, V, Q) && Q != []
    requires Q[0] == "" || EndsWithSlash(Q[0])
    requires forall c :: c in C <==> ChildDir(Q[0], c) && exists k :: k in ks && StartsWith(k, c)
    ensures forall d :: d in Dirs(ks, p) ==>
      d in V + {Q[0]} || exists i :: 0 <= i < |Q[1..] + C| && StartsWith(d, (Q[1..] + C)[i])
  {
    var cur := Q[0];
    var Q' := Q[1..] + C;
    forall D | D in Dirs(ks, p) && D !in V + {cur}
      ensures exists i :: 0 <= i < |Q'| && StartsWith(D, Q'[i])
    {
      var i :| 0 <= i < |Q| && StartsWith(D, Q[i]);
      if i > 0 {
        assert Q'[i - 1] == Q[i];
      } else {
        var c := ChildAbove(ks, p, cur, D);
        assert c in C;
        var j :| 0 <= j < |C| && C[j] == c;
        assert Q'[|Q| - 1 + j] == c;
      }
    }
  }

  // ---------------------------------------------------------------------------
  // What one listing in the walk shows

  /** The names of the file entries, in order: the `files` list of `rmdir`. */
  function FileNames(es: seq<Entry>): (r: seq<string>)
    ensures forall x :: x in r <==> exists e :: e in es && !e.IsDir() && e.name == x
  {
    if es == [] then []
    else
      assert forall e :: e in es <==> e == es[0] || e in es[1..];
      (if es[0].IsDir() then [] else [es[0].name]) + FileNames(es[1..])
  }

  /** The names of the directory entries, in order. */
  function DirNames(es: seq<Entry>): (r: seq<string>)
    ensures forall x :: x in r <==> exists e :: e in es && e.IsDir() && e.name == x
  {
    if es == [] then []
    else
      assert forall e :: e in es <==> e == es[0] || e in es[1..];
      (if es[0].IsDir() then [es[0].name] else []) + DirNames(es[1..])
  }

  /** Listing more entries appends their file names. */
  lemma {:induction false} FileNamesAppend(a: seq<Entry>, b: seq<Entry>)
    ensures FileNames(a + b) == FileNames(a) + FileNames(b)
  {
    if a != [] {
      assert (a + b)[1..] == a[1..] + b;
      FileNamesAppend(a[1..], b);
    } else {
      assert a + b == b;
    }
  }

  /** Listing more entries appends their directory names. */
  lemma {:induction false} DirNamesAppend(a: seq<Entry>, b: seq<Entry>)
    ensures DirNames(a + b) == DirNames(a) + DirNames(b)
  {
    if a != [] {
      assert (a + b)[1..] == a[1..] + b;
      DirNamesAppend(a[1..], b);
    } else {
      assert a + b == b;
    }
  }

  /** Entries with pairwise different names have pairwise different
      directory names. */
  lemma {:induction false} DirNamesDistinct(es: seq<Entry>)
    requires forall i, j :: 0 <= i < j < |es| ==> es[i].name != es[j].name
    ensures Distinct(DirNames(es))
  {
    if es != [] {
      DirNamesDistinct(es[1..]);
      var rest := DirNames(es[1..]);
      if es[0].IsDir() {
        forall e | e in es[1..]
          ensures e.name != es[0].name
        {
          var j :| 0 <= j < |es[1..]| && es[1..][j] == e;
          assert es[j + 1] == e;
        }
        assert es[0].name !in rest;
        var r := [es[0].name] + rest;
        forall i, j | 0 <= i < j < |r|
          ensures r[i] != r[j]
        {
          assert r[j] == rest[j - 1];
          if i > 0 {
            assert r[i] == rest[i - 1];
          }
        }
      }
    }
  }

  /** The paths `rmdir` queues for the directory entries of a listing of
      `bucket`. */
  function DirPaths(bucket: string, ds: seq<string>): (r: seq<string>)
    ensures |r| == |ds|
    ensures forall i :: 0 <= i < |ds| ==> r[i] == "/" + bucket + "/" + ds[i]
  {
    seq(|ds|, i requires 0 <= i < |ds| => "/" + bucket + "/" + ds[i])
  }

  /** Two object maps that agree strictly below `p`. */
  ghost predicate AgreeBelow(o1: map<string, Obj>, o2: map<string, Obj>, p: string) {
    (forall k :: k in o1 && StartsWith(k, p) && k != p ==> k in o2 && o2[k] == o1[k]) &&
    (forall k :: k in o2 && StartsWith(k, p) && k != p ==> k in o1)
  }

  lemma EntryNamesLocal(o1: map<string, Obj>, o2: map<string, Obj>, p: string)
    requires AgreeBelow(o1, o2, p)
    ensures EntryNames(o1, p) == EntryNames(o2, p)
    ensures forall n :: n in EntryNames(o1, p) ==> EntryFor(o1, p, n) == EntryFor(o2, p, n)
  {
    forall n | n in EntryNames(o1, p)
      ensures n in EntryNames(o2, p) && EntryFor(o1, p, n) == EntryFor(o2, p, n)
    {
      var k :| k in o1 && EntryName(p, k).Some? && EntryName(p, k).value == n;
      assert k in o2;
    }
    forall n | n in EntryNames(o2, p)
      ensures n in EntryNames(o1, p)
    {
      var k :| k in o2 && EntryName(p, k).Some? && EntryName(p, k).value == n;
      assert k in o1;
    }
  }

  /** A listing depends only on the keys strictly below the prefix. */
  lemma ListingLocal(st1: Buckets, st2: Buckets, b: string, p: string)
    requires b in st1 && b in st2
    requires AgreeBelow(st1[b].objects, st2[b].objects, p)
    ensures ListObjects(st1, b, p) == ListObjects(st2, b, p)
  {
    var o1, o2 := st1[b].objects, st2[b].objects;
    EntryNamesLocal(o1, o2, p);
    var names := LexSorted(EntryNames(o1, p));
    var es1 := ListObjects(st1, b, p).value;
    var es2 := ListObjects(st2, b, p).value;
    assert |es1| == |es2|;
    forall i | 0 <= i < |es1|
      ensures es1[i] == es2[i]
    {
      assert es1[i] == EntryFor(o1, p, names[i]);
      assert es2[i] == EntryFor(o2, p, names[i]);
    }
    assert es1 == es2;
    assert ListObjects(st1, b, p) == Ok(es1);
  }

  /** The listing of the directory `m` names no entry twice. */
  lemma ObjectsAtDistinct(st: Buckets, m: Match)
    requires m.bucket in st
    ensures var es := ObjectsAt(st, m).value;
      forall i, j :: 0 <= i < j < |es| ==> es[i].name != es[j].name
  {
    var ls := ListObjects(st, m.bucket, m.prefix).value;
    forall i, j | 0 <= i < j < |ls|
      ensures ls[i].name != ls[j].name
    {
      LexAsymmetric(ls[i].name, ls[j].name);
    }
    PermutationKeysDistinct(ObjectsAt(st, m).value, ls, (e: Entry) => e.name);
  }

  /** The file entries of the listing are the keys directly inside the
      directory. */
  lemma ListingFiles(st: Buckets, m: Match)
    requires m.bucket in st
    ensures forall x :: x in FileNames(ObjectsAt(st, m).value) <==> FileIn(st[m.bucket].objects, m.prefix, x)
  {
    var es := ObjectsAt(st, m).value;
    var objs := st[m.bucket].objects;
    forall x
      ensures x in FileNames(es) <==> FileIn(objs, m.prefix, x)
    {
      if x in FileNames(es) {
        var e :| e in es && !e.IsDir() && e.name == x;
        AtEntry(st, m, e);
      }
      if FileIn(objs, m.prefix, x) {
        FileEntryIff(st, m.bucket, m.prefix, x);
        var ls := ListObjects(st, m.bucket, m.prefix).value;
        var i :| 0 <= i < |ls| && ls[i].FileEntry? && ls[i].name == x;
        InObjectsAt(st, m, i);
      }
    }
  }

  /** The directory entries of the listing are the next-level directories
      that hold keys; there are none exactly when the directory is a leaf. */
  lemma ListingDirs(st: Buckets, m: Match)
    requires m.bucket in st
    ensures forall c :: c in DirNames(ObjectsAt(st, m).value) <==>
      ChildDir(m.prefix, c) && exists k :: k in st[m.bucket].objects && StartsWith(k, c)
    ensures Distinct(DirNames(ObjectsAt(st, m).value))
    ensures DirNames(ObjectsAt(st, m).value) == [] <==> Leaf(st[m.bucket].objects.Keys, m.prefix)
  {
    var es := ObjectsAt(st, m).value;
    var objs := st[m.bucket].objects;
    forall c
      ensures c in DirNames(es) <==> ChildDir(m.prefix, c) && exists k :: k in objs && StartsWith(k, c)
    {
      if c in DirNames(es) {
        var e :| e in es && e.IsDir() && e.name == c;
        AtEntry(st, m, e);
      }
      if ChildDir(m.prefix, c) && exists k :: k in objs && StartsWith(k, c) {
        DirIsListed(st, m, c);
      }
    }
    ObjectsAtDistinct(st, m);
    DirNamesDistinct(es);
    LeafIff(objs.Keys, m.prefix);
    if DirNames(es) != [] {
      assert DirNames(es)[0] in DirNames(es);
    }
  }

  /** The listing is empty exactly when no key lies strictly below the
      directory. */
  lemma ListingEmpty(st: Buckets, m: Match)
    requires m.bucket in st
    ensures ObjectsAt(st, m).value == [] <==>
      forall k :: k in st[m.bucket].objects ==> !(StartsWith(k, m.prefix) && k != m.prefix)
  {
    ListingEmptyIff(st, m.bucket, m.prefix);
    var ls := ListObjects(st, m.bucket, m.prefix).value;
    assert |multiset(ObjectsAt(st, m).value)| == |multiset(ls)|;
  }

  /** A directory prefix of a valid key is a well-shaped prefix. */
  lemma KeyPrefixShaped(k: string, d: string)
    requires ValidKey(k) && StartsWith(k, d) && EndsWithSlash(d)
    ensures PrefixShaped(d)
  {
    assert d == k[..|d|];
    forall i: nat | i + 1 < |d|
      ensures !SlashPairAt(d, i)
    {
      assert !SlashPairAt(k, i);
    }
  }

  // ---------------------------------------------------------------------------
  // What a step of `rmdir` removes

  /** Below the head of the queue nothing has been removed yet. */
  lemma BelowUntouched(objs: map<string, Obj>, p: string, V: set<string>, Q: seq<string>, k: string)
    requires Frontier(objs.Keys, p, V, Q) && Q != []
    requires Q[0] == "" || EndsWithSlash(Q[0])
    requires k in objs && StartsWith(k, Q[0]) && k != Q[0]
    ensures k in Remaining(objs, V) && Remaining(objs, V)[k] == objs[k]
  {
    var cur := Q[0];
    var pd := ParentDir(k);
    if cur != "" {
      assert k[|cur| - 1] == cur[|cur| - 1];
    }
    assert |pd| >= |cur|;
    PrefixesNested(pd, cur, k);
    assert StartsWith(pd, Q[0]);
  }

  /** Visiting `cur` removes the keys directly inside it and, when it has no
      subdirectory and is not the bucket itself, its marker. */
  lemma RemainingStep(objs: map<string, Obj>, V: set<string>, cur: string, files: set<string>, leaf: bool)
    requires cur == "" || EndsWithSlash(cur)
    requires "" !in objs
    requires forall k :: k in objs ==> (k in files <==> StartsWith(k, cur) && k != cur && NoSlash(k[|cur|..]))
    requires leaf <==> Leaf(objs.Keys, cur)
    ensures Remaining(objs, V + {cur}) ==
      Remaining(objs, V) - files - (if leaf && cur != "" then {cur} else {})
  {
    var a := Remaining(objs, V + {cur});
    var b := Remaining(objs, V) - files - (if leaf && cur != "" then {cur} else {});
    forall k | k in objs
      ensures k in files <==> ParentDir(k) == cur && !EndsWithSlash(k)
    {
      FileInParent(cur, k);
    }
    assert a.Keys == b.Keys;
  }

  /** Once every directory is visited and the marker `p` removed, what is
      left is `Emptied`. */
  lemma RemainingDone(objs: map<string, Obj>, p: string)
    ensures Remaining(objs, Dirs(objs.Keys, p)) - {p} == Emptied(objs, p)
  {
  }

  // ---------------------------------------------------------------------------
  // What `rmdir` leaves

  /** Keys outside the directory keep their objects. */
  lemma EmptiedOutside(objs: map<string, Obj>, p: string, k: string)
    requires p == "" || EndsWithSlash(p)
    requires k in objs && !StartsWith(k, p)
    ensures k in Emptied(objs, p) && Emptied(objs, p)[k] == objs[k]
  {
    var D := Dirs(objs.Keys, p);
    if k in D {
      DirsShape(objs.Keys, p, k);
    }
    if ParentDir(k) in D {
      DirsShape(objs.Keys, p, ParentDir(k));
      StartsWithTrans(k, ParentDir(k), p);
    }
  }

  /** The parent of a key below `p` is `p` or a directory below it. */
  lemma ParentInDirs(ks: set<string>, p: string, k: string)
    requires p == "" || EndsWithSlash(p)
    requires k in ks && StartsWith(k, p) && k != p
    ensures ParentDir(k) in Dirs(ks, p)
  {
    var j := LastSlash(k, |k|);
    if j >= |p| {
      InDirs(ks, p, k, j);
    } else if p != "" {
      assert k[|p| - 1] == '/';
      assert j == |p| - 1;
      assert ParentDir(k) == k[..|p|];
    } else {
      assert ParentDir(k) == "";
    }
  }

  /** Every key below the directory that does not end in '/' is removed. */
  lemma EmptiedFiles(objs: map<string, Obj>, p: string, k: string)
    requires p == "" || EndsWithSlash(p)
    requires k in objs && StartsWith(k, p) && !EndsWithSlash(k)
    ensures k !in Emptied(objs, p)
  {
    if k != p {
      ParentInDirs(objs.Keys, p, k);
    }
  }

  /** A directory marker strictly below the directory is removed exactly
      when no key lies below one of its subdirectories. */
  lemma EmptiedMarkers(objs: map<string, Obj>, p: string, d: string)
    requires d in objs && StartsWith(d, p) && d != p && EndsWithSlash(d)
    ensures d in Emptied(objs, p) <==> !Leaf(objs.Keys, d)
  {
    assert |d| > |p| by {
      assert d[..|d|] == d;
    }
    InDirs(objs.Keys, p, d, |d| - 1);
    assert d[..|d|] == d;
  }

  /** Nothing is left below the directory exactly when every marker strictly
      below it is a leaf. */
  lemma EmptiedIff(objs: map<string, Obj>, p: string)
    requires p == "" || EndsWithSlash(p)
    ensures (forall k :: k in Emptied(objs, p) ==> !StartsWith(k, p)) <==> NoInteriorMarkers(objs, p)
  {
    var e := Emptied(objs, p);
    if NoInteriorMarkers(objs, p) {
      forall k | k in e
        ensures !StartsWith(k, p)
      {
        if StartsWith(k, p) {
          if EndsWithSlash(k) {
            EmptiedMarkers(objs, p, k);
          } else {
            EmptiedFiles(objs, p, k);
          }
        }
      }
    }
    if !NoInteriorMarkers(objs, p) {
      var d :| d in objs && StartsWith(d, p) && d != p && EndsWithSlash(d) && !Leaf(objs.Keys, d);
      EmptiedMarkers(objs, p, d);
    }
  }

  /** In a flat store the marker of a directory that had a subdirectory
      survives: removing "p/" with keys "p/", "p/d/" and "p/d/e/" leaves
      "p/d/". */
  lemma EmptiedKeepsInteriorMarker(o: Obj)
    ensures Emptied(map["p/" := o, "p/d/" := o, "p/d/e/" := o], "p/") == map["p/d/" := o]
  {
    var objs := map["p/" := o, "p/d/" := o, "p/d/e/" := o];
    var ks := objs.Keys;
    assert StartsWith("p/d/e/", "p/d/") && "p/d/e/"[4..][1] == '/';
    assert !Leaf(ks, "p/d/");
    EmptiedMarkers(objs, "p/", "p/d/");
    assert StartsWith("p/d/e/", "p/") && "p/d/e/" != "p/" && EndsWithSlash("p/d/e/");
    forall k | k in ks
      ensures !(StartsWith(k, "p/d/e/") && k != "p/d/e/")
    {
      assert k == "p/" || k == "p/d/" || k == "p/d/e/";
    }
    assert Leaf(ks, "p/d/e/");
    EmptiedMarkers(objs, "p/", "p/d/e/");
    var e := Emptied(objs, "p/");
    assert "p/" !in e;
    assert e.Keys == {"p/d/"};
  }

  /** What `rmdir` of `p` evidently means to leave in a store that keeps
      directory markers as keys: the walk of every directory below `p`, with
      the marker of each visited directory removed whether or not it has
      subdirectories. */
  ghost function Cleared(objs: map<string, Obj>, p: string): map<string, Obj> {
    var D := Dirs(objs.Keys, p);
    map k | k in objs && !(k in D || (ParentDir(k) in D && !EndsWithSlash(k))) :: objs[k]
  }

  /** That removal leaves exactly the keys outside the directory, with
      their objects, whatever markers lie below it. */
  lemma ClearedIff(objs: map<string, Obj>, p: string)
    requires p == "" || EndsWithSlash(p)
    ensures forall k :: k in Cleared(objs, p) <==> k in objs && !StartsWith(k, p)
    ensures forall k :: k in Cleared(objs, p) ==> Cleared(objs, p)[k] == objs[k]
  {
    var D := Dirs(objs.Keys, p);
    forall k | k in objs
      ensures k in Cleared(objs, p) <==> !StartsWith(k, p)
    {
      if StartsWith(k, p) {
        if k == p {
          assert k in D;
        } else if EndsWithSlash(k) {
          assert |k| > |p| by {
            assert k[..|k|] == k;
          }
          InDirs(objs.Keys, p, k, |k| - 1);
          assert k[..|k|] == k;
        } else {
          ParentInDirs(objs.Keys, p, k);
        }
      } else {
        if k in D {
          DirsShape(objs.Keys, p, k);
        }
        if ParentDir(k) in D {
          DirsShape(objs.Keys, p, ParentDir(k));
          StartsWithTrans(k, ParentDir(k), p);
        }
      }
    }
  }

  /** Where every marker below `p` is a leaf, the walk `rmdir` makes already
      leaves what the intended removal leaves. */
  lemma EmptiedIsCleared(objs: map<string, Obj>, p: string)
    requires p == "" || EndsWithSlash(p)
    requires NoInteriorMarkers(objs, p)
    ensures Emptied(objs, p) == Cleared(objs, p)
  {
    EmptiedIff(objs, p);
    ClearedIff(objs, p);
    forall k | k in objs && !StartsWith(k, p)
      ensures k in Emptied(objs, p)
    {
      EmptiedOutside(objs, p, k);
    }
    assert Emptied(objs, p).Keys == Cleared(objs, p).Keys;
  }
}
