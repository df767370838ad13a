// What `rmdir` and `truncate` do to the store (pyminio/main.py:182-245),
// stated without the walk: the objects `Emptied` leaves, then the bucket or
// the directory marker removed.  The methods of `Operations.Pyminio` are
// proved to produce exactly these outcomes; the lemmas below say what the
// outcomes mean.
module Removal {
  import opened Text
  import opened Wrappers
  import opened Structures
  import opened ObjectStore
  import opened Engine
  import opened Traversal

  /** Some key lies strictly below the directory `p`: the listing of `p` is
      not empty. */
  ghost predicate HasBelow(objs: map<string, Obj>, p: string) {
    exists k :: k in objs && StartsWith(k, p) && k != p
  }

  /** `rmdir` of the directory `m` (not the root), once the path is valid. */
  ghost function RmdirTree(st: Buckets, m: Match, recursive: bool): Outcome {
    if m.bucket !in st then Outcome(Err(StoreFailure(NoSuchBucket)), st)
    else
      var objs := st[m.bucket].objects;
      if !recursive && HasBelow(objs, m.prefix) then Outcome(Err(DirectoryNotEmpty), st)
      else
        var left := Emptied(objs, m.prefix);
        if m.IsBucket() then
          if left == map[] then Outcome(Ok(()), st - {m.bucket})
          else Outcome(Err(DirectoryNotEmpty), st[m.bucket := st[m.bucket].(objects := left)])
        else Outcome(Ok(()), st[m.bucket := st[m.bucket].(objects := left)])
  }

  /** The buckets once the walk of `rmdir` has visited every directory
      below `p` in bucket `b`, before the marker `p` or the bucket goes. */
  ghost function Walked(st: Buckets, b: string, p: string): Buckets
    requires b in st
  {
    st[b := st[b].(objects := Remaining(st[b].objects, Dirs(st[b].objects.Keys, p)))]
  }

  /** The match of the path "/b/". */
  function BucketMatch(b: string): Match {
    Match("/" + b + "/", b, "", "")
  }

  /** `truncate`: a recursive `rmdir` of each bucket in turn, stopping at the
      first failure. */
  ghost function TruncateOf(st: Buckets, bs: seq<string>): Outcome
    decreases |bs|
  {
    if bs == [] then Outcome(Ok(()), st)
    else
      var o := RmdirTree(st, BucketMatch(bs[0]), true);
      if o.result.Err? then o else TruncateOf(o.buckets, bs[1..])
  }

  /** The bucket names in the order `listdir("/")` gives them. */
  function CreationOrder(st: Buckets): (r: seq<string>)
    ensures |r| == |BucketsByCreation(st)|
    ensures forall i :: 0 <= i < |r| ==> r[i] == BucketsByCreation(st)[i].0
  {
    FirstOfEach(BucketsByCreation(st))
  }

  function FirstOfEach(bs: seq<(string, nat)>): (r: seq<string>)
    ensures |r| == |bs|
    ensures forall i :: 0 <= i < |r| ==> r[i] == bs[i].0
  {
    seq(|bs|, i requires 0 <= i < |bs| => bs[i].0)
  }

  /** `rmdir(path, recursive)`. */
  ghost function RmdirOf(st: Buckets, path: string, recursive: bool): Outcome {
    match ValidateDirectory(path)
    case Err(_) => Outcome(Err(ValueError), st)
    case Ok(m) =>
      if m.IsRoot() then
        if recursive then TruncateOf(st, CreationOrder(st))
        else Outcome(Err(DirectoryNotEmpty), st)
      else RmdirTree(st, m, recursive)
  }

  /** What the walk has removed so far lies outside the directory at the
      head of the queue, so listing it shows what it showed at the start. */
  lemma ListingUntouched(st: Buckets, b: string, p: string, V: set<string>, Q: seq<string>, cm: Match)
    requires b in st && Frontier(st[b].objects.Keys, p, V, Q) && Q != []
    requires Q[0] == "" || EndsWithSlash(Q[0])
    requires cm.bucket == b && cm.prefix == Q[0]
    ensures ObjectsAt(st[b := st[b].(objects := Remaining(st[b].objects, V))], cm) == ObjectsAt(st, cm)
  {
    var objs := st[b].objects;
    var st1 := st[b := st[b].(objects := Remaining(objs, V))];
    forall k | k in objs && StartsWith(k, Q[0]) && k != Q[0]
      ensures k in st1[b].objects && st1[b].objects[k] == objs[k]
    {
      BelowUntouched(objs, p, V, Q, k);
    }
    assert AgreeBelow(objs, st1[b].objects, Q[0]);
    ListingLocal(st, st1, b, Q[0]);
  }

  /** `join("/", name)` for a name `listdir("/")` shows is the path of that
      bucket, which `rmdir` accepts as a bucket. */
  lemma BucketPath(b: string)
    requires BucketShaped(b)
    ensures PosixJoin(Root, b + "/") == "/" + b + "/"
    ensures ValidateDirectory("/" + b + "/") == Ok(BucketMatch(b))
    ensures Collapse("/" + b + "/") != Root
  {
    assert "/" + b + "/" == "/" + b + "/" + "" + "";
    ParseCanonical(b, "", "");
  }

  /** `listdir("/")` names each bucket, with a '/' after it, in creation
      order. */
  lemma RootNames(st: Buckets)
    requires WellFormed(st)
    ensures Listdir(st, Root, false, false).Ok?
    ensures var names := Listdir(st, Root, false, false).value;
      |names| == |CreationOrder(st)| &&
      forall i :: 0 <= i < |names| ==>
        names[i] == CreationOrder(st)[i] + "/" && BucketShaped(CreationOrder(st)[i])
  {
    assert Collapse(Root) == Root;
    ListdirAtRoot(st, Root, false, false);
    OrderedNames(st);
  }

  lemma OrderedNames(st: Buckets)
    requires WellFormed(st)
    ensures var names := BucketDirNames(BucketsByCreation(st));
      |names| == |CreationOrder(st)| &&
      forall i :: 0 <= i < |names| ==>
        names[i] == CreationOrder(st)[i] + "/" && BucketShaped(CreationOrder(st)[i])
  {
    forall i | 0 <= i < |BucketDirNames(BucketsByCreation(st))|
      ensures BucketDirNames(BucketsByCreation(st))[i] == CreationOrder(st)[i] + "/"
      ensures BucketShaped(CreationOrder(st)[i])
    {
      OrderedName(st, i);
    }
  }

  lemma OrderedName(st: Buckets, i: nat)
    requires WellFormed(st) && i < |BucketsByCreation(st)|
    ensures BucketDirNames(BucketsByCreation(st))[i] == CreationOrder(st)[i] + "/"
    ensures BucketShaped(CreationOrder(st)[i])
  {
    var bs := BucketsByCreation(st);
    BucketListed(st, bs, i);
    StoredBucketShaped(st, bs[i].0);
  }

  lemma StoredBucketShaped(st: Buckets, b: string)
    requires WellFormed(st) && b in st
    ensures BucketShaped(b)
  {
  }

  /** One step of `truncate`. */
  lemma TruncateStep(st: Buckets, bs: seq<string>, i: nat)
    requires i < |bs|
    ensures TruncateOf(st, bs[i..]) ==
      var o := RmdirTree(st, BucketMatch(bs[i]), true);
      if o.result.Err? then o else TruncateOf(o.buckets, bs[i + 1..])
  {
    assert bs[i..][1..] == bs[i + 1..];
  }

  /** Below the root, `rmdir` is `RmdirTree` on the parsed path. */
  lemma RmdirBelowRoot(st: Buckets, path: string, recursive: bool, m: Match)
    requires ValidateDirectory(path) == Ok(m) && !m.IsRoot()
    ensures RmdirOf(st, path, recursive) == RmdirTree(st, m, recursive)
  {
  }

  /** What is left for `rmdir` after its walk: removing the bucket, or the
      directory marker, gives `RmdirTree`. */
  lemma RmdirAfterWalk(st: Buckets, m: Match, recursive: bool)
    requires WellFormed(st) && m.bucket in st && m.bucket != ""
    requires recursive || !HasBelow(st[m.bucket].objects, m.prefix)
    requires m.IsBucket() <==> m.prefix == ""
    ensures var w := Walked(st, m.bucket, m.prefix);
      m.bucket in w &&
      (m.IsBucket() && w[m.bucket].objects == map[] ==>
        RmdirTree(st, m, recursive) == Outcome(Ok(()), w - {m.bucket})) &&
      (m.IsBucket() && w[m.bucket].objects != map[] ==>
        RmdirTree(st, m, recursive) == Outcome(Err(DirectoryNotEmpty), w)) &&
      (!m.IsBucket() ==>
        RmdirTree(st, m, recursive) == Outcome(Ok(()), WithoutKeys(w, m.bucket, {m.prefix})))
  {
    var objs := st[m.bucket].objects;
    assert "" !in objs;
    if m.IsBucket() {
      BucketAfterWalk(st, m, recursive);
    } else {
      MarkerAfterWalk(st, m, recursive);
    }
  }

  lemma BucketAfterWalk(st: Buckets, m: Match, recursive: bool)
    requires m.bucket in st && m.bucket != "" && "" !in st[m.bucket].objects
    requires recursive || !HasBelow(st[m.bucket].objects, m.prefix)
    requires m.IsBucket() && m.prefix == ""
    ensures var w := Walked(st, m.bucket, m.prefix);
      m.bucket in w &&
      (w[m.bucket].objects == map[] ==> RmdirTree(st, m, recursive) == Outcome(Ok(()), w - {m.bucket})) &&
      (w[m.bucket].objects != map[] ==> RmdirTree(st, m, recursive) == Outcome(Err(DirectoryNotEmpty), w))
  {
    var objs := st[m.bucket].objects;
    var w := Walked(st, m.bucket, m.prefix);
    RemainingDone(objs, "");
    assert Remaining(objs, Dirs(objs.Keys, "")) == Emptied(objs, "");
    assert w == st[m.bucket := st[m.bucket].(objects := Emptied(objs, ""))];
    assert w - {m.bucket} == st - {m.bucket};
  }

  lemma MarkerAfterWalk(st: Buckets, m: Match, recursive: bool)
    requires m.bucket in st && m.bucket != ""
    requires recursive || !HasBelow(st[m.bucket].objects, m.prefix)
    requires !m.IsBucket()
    ensures var w := Walked(st, m.bucket, m.prefix);
      m.bucket in w && RmdirTree(st, m, recursive) == Outcome(Ok(()), WithoutKeys(w, m.bucket, {m.prefix}))
  {
    var objs := st[m.bucket].objects;
    var w := Walked(st, m.bucket, m.prefix);
    RemainingDone(objs, m.prefix);
    assert WithoutKeys(w, m.bucket, {m.prefix}) == st[m.bucket := st[m.bucket].(objects := Emptied(objs, m.prefix))];
  }

  /** What one visit of the walk removes from a directory listed as `es`:
      the keys of its files and, when it has no subdirectory and is not the
      bucket itself, its marker. */
  function VisitRemoves(es: seq<Entry>, prefix: string): set<string> {
    (set k | k in FileNames(es)) + (if DirNames(es) == [] && prefix != "" then {prefix} else {})
  }

  /** What one visit removes, in the terms of the lists `rmdir` builds. */
  lemma VisitRemovesSplit(es: seq<Entry>, prefix: string, files: seq<string>, b: string, dirs: seq<string>)
    requires files == FileNames(es) && dirs == DirPaths(b, DirNames(es))
    ensures dirs == [] && prefix != "" ==> VisitRemoves(es, prefix) == (set k | k in files) + {prefix}
    ensures !(dirs == [] && prefix != "") ==> VisitRemoves(es, prefix) == set k | k in files
  {
    assert |dirs| == |DirNames(es)|;
  }

  /** A listing shows no directory exactly when no key lies below a
      subdirectory. */
  lemma ListingLeaf(st: Buckets, m: Match)
    requires m.bucket in st
    ensures DirNames(ObjectsAt(st, m).value) == [] <==> Leaf(st[m.bucket].objects.Keys, m.prefix)
  {
    ListingDirs(st, m);
  }

  /** What one visit removes takes `Remaining` one directory further. */
  lemma VisitRemovesStep(st: Buckets, b: string, V: set<string>, cm: Match)
    requires WellFormed(st) && b in st && cm.bucket == b && PrefixShaped(cm.prefix)
    ensures Remaining(st[b].objects, V) - VisitRemoves(ObjectsAt(st, cm).value, cm.prefix) ==
      Remaining(st[b].objects, V + {cm.prefix})
  {
    ListingFiles(st, cm);
    ListingLeaf(st, cm);
    assert "" !in st[b].objects;
    RemainingVisit(st[b].objects, V, cm.prefix, ObjectsAt(st, cm).value);
  }

  lemma RemainingVisit(objs: map<string, Obj>, V: set<string>, cur: string, es: seq<Entry>)
    requires cur == "" || EndsWithSlash(cur)
    requires "" !in objs
    requires forall x :: x in FileNames(es) <==> FileIn(objs, cur, x)
    requires DirNames(es) == [] <==> Leaf(objs.Keys, cur)
    ensures Remaining(objs, V) - VisitRemoves(es, cur) == Remaining(objs, V + {cur})
  {
    var F := set k | k in FileNames(es);
    RemainingStep(objs, V, cur, F, DirNames(es) == []);
    var X := if DirNames(es) == [] && cur != "" then {cur} else {};
    assert VisitRemoves(es, cur) == F + X;
    MinusUnion(Remaining(objs, V), F, X);
  }

  lemma MinusUnion(m: map<string, Obj>, a: set<string>, b: set<string>)
    ensures m - (a + b) == m - a - b
  {
  }

  /** The subdirectories one visit queues keep the frontier, bring the walk
      closer to its end, and have paths that parse back into their bucket and
      prefix. */
  lemma WalkQueue(st: Buckets, b: string, p: string, V: set<string>, Q: seq<string>, cm: Match)
    requires WellFormed(st) && b in st && BucketShaped(b)
    requires Frontier(st[b].objects.Keys, p, V, Q) && Q != [] && PrefixShaped(Q[0])
    requires cm.bucket == b && cm.prefix == Q[0]
    ensures var ks := st[b].objects.Keys;
      var C := DirNames(ObjectsAt(st, cm).value);
      Frontier(ks, p, V + {Q[0]}, Q[1..] + C) &&
      Dirs(ks, p) - (V + {Q[0]}) < Dirs(ks, p) - V &&
      forall i :: 0 <= i < |C| ==>
        PrefixShaped(C[i]) && Parse(DirPaths(b, C)[i]) == Some(Match(DirPaths(b, C)[i], b, C[i], ""))
  {
    var C := DirNames(ObjectsAt(st, cm).value);
    ListingDirs(st, cm);
    FrontierStep(st[b].objects.Keys, p, V, Q, C);
    forall i | 0 <= i < |C|
      ensures PrefixShaped(C[i]) && Parse(DirPaths(b, C)[i]) == Some(Match(DirPaths(b, C)[i], b, C[i], ""))
    {
      assert C[i] in C;
      ChildPath(st, b, cm, C[i]);
    }
  }

  /** The path the walk queues for a subdirectory parses back into its
      bucket and prefix. */
  lemma ChildPath(st: Buckets, b: string, cm: Match, c: string)
    requires WellFormed(st) && b in st && BucketShaped(b) && cm.bucket == b
    requires ChildDir(cm.prefix, c) && exists k :: k in st[b].objects && StartsWith(k, c)
    ensures PrefixShaped(c) && Parse("/" + b + "/" + c) == Some(Match("/" + b + "/" + c, b, c, ""))
  {
    var k :| k in st[b].objects && StartsWith(k, c);
    KeyPrefixShaped(k, c);
    ParseCanonical(b, c, "");
    assert "/" + b + "/" + c + "" == "/" + b + "/" + c;
  }

  /** The queue of paths of the walk next to the directory prefixes they
      parse to, all in bucket `b`. */
  predicate Queued(queue: seq<string>, Q: seq<string>, b: string) {
    |queue| == |Q| &&
    forall i :: 0 <= i < |queue| ==>
      PrefixShaped(Q[i]) && Parse(queue[i]).Some? && Parse(queue[i]).value.bucket == b &&
      Parse(queue[i]).value.prefix == Q[i] && Parse(queue[i]).value.filename == ""
  }

  /** Popping the head and appending the subdirectories of one visit keeps
      the queue parsing into its prefixes. */
  lemma QueuedStep(queue: seq<string>, Q: seq<string>, b: string, C: seq<string>)
    requires Queued(queue, Q, b) && queue != []
    requires forall i :: 0 <= i < |C| ==>
      PrefixShaped(C[i]) && Parse(DirPaths(b, C)[i]) == Some(Match(DirPaths(b, C)[i], b, C[i], ""))
    ensures Queued(queue[1..] + DirPaths(b, C), Q[1..] + C, b)
  {
    var D := DirPaths(b, C);
    var queue', Q' := queue[1..] + D, Q[1..] + C;
    var n := |queue| - 1;
    forall i | 0 <= i < |queue'|
      ensures PrefixShaped(Q'[i]) && Parse(queue'[i]).Some? && Parse(queue'[i]).value.bucket == b
      ensures Parse(queue'[i]).value.prefix == Q'[i] && Parse(queue'[i]).value.filename == ""
    {
      if i < n {
        ConcatIndex(queue[1..], D, i);
        ConcatIndex(Q[1..], C, i);
      } else {
        var j := i - n;
        ConcatIndex(queue[1..], D, i);
        ConcatIndex(Q[1..], C, i);
        assert Parse(D[j]) == Some(Match(D[j], b, C[j], ""));
      }
    }
  }

  lemma ConcatIndex<T>(a: seq<T>, d: seq<T>, i: int)
    requires 0 <= i < |a| + |d|
    ensures i < |a| ==> (a + d)[i] == a[i]
    ensures |a| <= i ==> (a + d)[i] == d[i - |a|]
  {
  }

  ghost function KeysOf(st: Buckets, b: string): set<string> {
    if b in st then st[b].objects.Keys else {}
  }

  /** The state of the walk of `rmdir(path)` in bucket `b` below the prefix
      `p`, started on the buckets `st0` and now at `now`: the queue parses
      into directory prefixes forming a frontier with the visited set `V`;
      before the first visit nothing has happened; after it the bucket
      exists and holds `Remaining`; and a non-recursive walk stops after its
      first visit, which found the directory empty. */
  ghost predicate WalkInv(st0: Buckets, path: string, b: string, p: string, recursive: bool,
                          queue: seq<string>, Q: seq<string>, V: set<string>, first: bool, now: Buckets) {
    BucketShaped(b) &&
    Queued(queue, Q, b) &&
    Frontier(KeysOf(st0, b), p, V, Q) &&
    (first ==> queue == [path] && Q == [p] && V == {} && now == st0) &&
    (!first ==> b in st0) &&
    (b in st0 ==> now == st0[b := st0[b].(objects := Remaining(st0[b].objects, V))]) &&
    (!recursive && !first ==> queue == [] && b in st0 && !HasBelow(st0[b].objects, p))
  }

  lemma WalkInit(st0: Buckets, path: string, m: Match, recursive: bool)
    requires Parse(path) == Some(m) && !m.IsRoot() && m.IsDir()
    ensures WalkInv(st0, path, m.bucket, m.prefix, recursive, [path], [m.prefix], {}, true, st0)
  {
    QueuedFirst(path, m);
    FrontierInit(KeysOf(st0, m.bucket), m.prefix);
    if m.bucket in st0 {
      RemainingNone(st0[m.bucket].objects);
      UpdateSame(st0, m.bucket);
    }
  }

  lemma QueuedFirst(path: string, m: Match)
    requires Parse(path) == Some(m) && !m.IsRoot() && m.IsDir()
    ensures BucketShaped(m.bucket) && Queued([path], [m.prefix], m.bucket)
  {
    ParseShape(path, m);
  }

  /** The head of the queue is a directory of bucket `b`. */
  lemma WalkHead(st0: Buckets, path: string, b: string, p: string, recursive: bool,
                 queue: seq<string>, Q: seq<string>, V: set<string>, first: bool, now: Buckets)
    requires WalkInv(st0, path, b, p, recursive, queue, Q, V, first, now) && queue != []
    ensures Parse(queue[0]).Some?
    ensures var cm := Parse(queue[0]).value;
      cm.bucket == b && cm.prefix == Q[0] && BucketShaped(cm.bucket) && PrefixShaped(cm.prefix) && cm.filename == ""
  {
  }

  /** A visit finding no bucket happens only first, on the buckets as they
      were. */
  lemma WalkMissing(st0: Buckets, path: string, b: string, p: string, recursive: bool,
                    queue: seq<string>, Q: seq<string>, V: set<string>, first: bool, now: Buckets)
    requires WalkInv(st0, path, b, p, recursive, queue, Q, V, first, now) && queue != []
    requires b !in now
    ensures now == st0 && b !in st0
  {
  }

  /** A non-recursive visit that finds something happens only first, on the
      buckets as they were, and means the directory holds something. */
  lemma WalkRefused(st0: Buckets, path: string, b: string, p: string, recursive: bool,
                    queue: seq<string>, Q: seq<string>, V: set<string>, first: bool, now: Buckets, cm: Match)
    requires WalkInv(st0, path, b, p, recursive, queue, Q, V, first, now) && queue != []
    requires Parse(queue[0]) == Some(cm) && !recursive && b in now && ObjectsAt(now, cm).value != []
    ensures now == st0 && b in st0 && HasBelow(st0[b].objects, p)
  {
    assert first;
    ListingEmpty(st0, cm);
  }

  /** One visit takes the walk one directory further. */
  lemma WalkAdvance(st0: Buckets, path: string, b: string, p: string, recursive: bool,
                    queue: seq<string>, Q: seq<string>, V: set<string>, first: bool, now: Buckets, cm: Match)
    returns (Q': seq<string>)
    requires WellFormed(st0)
    requires WalkInv(st0, path, b, p, recursive, queue, Q, V, first, now) && queue != []
    requires Parse(queue[0]) == Some(cm) && b in now && (recursive || ObjectsAt(now, cm).value == [])
    ensures var es := ObjectsAt(now, cm).value;
      WalkInv(st0, path, b, p, recursive, queue[1..] + DirPaths(b, DirNames(es)), Q', V + {cm.prefix}, false,
              WithoutKeys(now, b, VisitRemoves(es, cm.prefix)))
    ensures Dirs(KeysOf(st0, b), p) - (V + {cm.prefix}) < Dirs(KeysOf(st0, b), p) - V
  {
    assert b in st0;
    var objs := st0[b].objects;
    ListingUntouched(st0, b, p, V, Q, cm);
    var es := ObjectsAt(st0, cm).value;
    assert ObjectsAt(now, cm).value == es;
    VisitRemovesStep(st0, b, V, cm);
    WalkQueue(st0, b, p, V, Q, cm);
    var C := DirNames(es);
    Q' := Q[1..] + C;
    QueuedStep(queue, Q, b, C);
    WithoutKeysOfUpdate(st0, b, Remaining(objs, V), VisitRemoves(es, cm.prefix));
    if !recursive {
      ListingEmpty(st0, cm);
      assert first;
      assert DirNames(es) == [];
    }
  }

  lemma UpdateSame(st: Buckets, b: string)
    requires b in st
    ensures st[b := st[b].(objects := st[b].objects)] == st
  {
  }

  lemma WithoutKeysOfUpdate(st: Buckets, b: string, o: map<string, Obj>, ks: set<string>)
    requires b in st
    ensures WithoutKeys(st[b := st[b].(objects := o)], b, ks) == st[b := st[b].(objects := o - ks)]
  {
  }

  /** When the queue is empty every directory below `p` has been visited. */
  lemma WalkDone(st0: Buckets, path: string, b: string, p: string, recursive: bool,
                 Q: seq<string>, V: set<string>, first: bool, now: Buckets)
    requires WalkInv(st0, path, b, p, recursive, [], Q, V, first, now)
    ensures b in st0 && now == Walked(st0, b, p)
    ensures recursive || !HasBelow(st0[b].objects, p)
  {
    FrontierDone(KeysOf(st0, b), p, V);
  }

  /** Before anything is visited, nothing is removed. */
  lemma RemainingNone(objs: map<string, Obj>)
    ensures Remaining(objs, {}) == objs
  {
  }

  // ---------------------------------------------------------------------------
  // What removal means

  function BucketName(b: (string, nat)): string { b.0 }

  /** Every bucket appears once in the creation order. */
  lemma CreationOrderDistinct(st: Buckets)
    ensures Distinct(CreationOrder(st))
    ensures forall b :: b in CreationOrder(st) <==> b in st
  {
    var ls := ListBuckets(st);
    var names := LexSorted(st.Keys);
    forall i, j | 0 <= i < j < |ls|
      ensures ls[i].0 != ls[j].0
    {
      assert ls[i].0 == names[i] && ls[j].0 == names[j];
      LexAsymmetric(names[i], names[j]);
    }
    var bs := BucketsByCreation(st);
    var sorted := SortDesc(ls, CreationKey);
    assert bs == sorted;
    assert multiset(bs) == multiset(ls);
    PermutationKeysDistinct(bs, ls, BucketName);
    var r := CreationOrder(st);
    forall b
      ensures b in r <==> b in st
    {
      if b in st {
        var i :| 0 <= i < |bs| && bs[i].0 == b;
        assert r[i] == b;
      }
    }
  }

  /** A recursive `rmdir` of a bucket path removes the bucket exactly when
      `Emptied` leaves nothing in it, and otherwise fails with
      DirectoryNotEmptyError; no other bucket changes. */
  lemma RmdirBucket(st: Buckets, b: string)
    requires b in st && b != ""
    ensures var o := RmdirTree(st, BucketMatch(b), true);
      (o.result.Ok? <==> NoInteriorMarkers(st[b].objects, "")) &&
      (o.result.Ok? ==> o.buckets == st - {b}) &&
      (o.result.Err? ==> o.result == Err(DirectoryNotEmpty) && o.buckets.Keys == st.Keys) &&
      forall x :: x in st && x != b ==> x in o.buckets && o.buckets[x] == st[x]
  {
    var objs := st[b].objects;
    var m := BucketMatch(b);
    assert m.IsBucket() && m.bucket == b && m.prefix == "";
    EmptiedIff(objs, "");
    var left := Emptied(objs, "");
    assert left == map[] <==> NoInteriorMarkers(objs, "") by {
      forall k ensures StartsWith(k, "") { }
      if left != map[] {
        var k :| k in left;
      }
    }
    var o := RmdirTree(st, m, true);
    if left == map[] {
      assert o == Outcome(Ok(()), st - {b});
    } else {
      assert o == Outcome(Err(DirectoryNotEmpty), st[b := st[b].(objects := left)]);
    }
  }

  /** `truncate` over distinct bucket names that are all the buckets: on
      success no bucket is left; it can only fail with
      DirectoryNotEmptyError; and it succeeds when no bucket holds the
      marker of a directory that has a subdirectory. */
  lemma {:induction false} TruncateEmpties(st: Buckets, bs: seq<string>)
    requires "" !in st
    requires Distinct(bs) && forall b :: b in bs <==> b in st
    ensures var o := TruncateOf(st, bs);
      (o.result.Ok? ==> o.buckets == map[]) &&
      (o.result.Err? ==> o.result == Err(DirectoryNotEmpty)) &&
      ((forall b :: b in st ==> NoInteriorMarkers(st[b].objects, "")) ==> o.result.Ok?)
    decreases |bs|
  {
    if bs == [] {
      assert forall b :: b !in st;
      assert st == map[];
    } else {
      var b := bs[0];
      assert b in bs;
      RmdirBucket(st, b);
      var o := RmdirTree(st, BucketMatch(b), true);
      if o.result.Ok? {
        var rest := bs[1..];
        assert Distinct(rest);
        forall x
          ensures x in rest <==> x in o.buckets
        {
          assert x in bs <==> x == b || x in rest;
          assert x in rest ==> x != b by {
            forall j | 0 <= j < |rest| ensures rest[j] != b { assert rest[j] == bs[j + 1]; }
          }
        }
        TruncateEmpties(o.buckets, rest);
      }
    }
  }

  /** `truncate` as `rmdir("/", recursive=True)` runs it. */
  lemma TruncateAll(st: Buckets)
    requires WellFormed(st)
    ensures var o := TruncateOf(st, CreationOrder(st));
      (o.result.Ok? ==> o.buckets == map[]) &&
      (o.result.Err? ==> o.result == Err(DirectoryNotEmpty)) &&
      ((forall b :: b in st ==> NoInteriorMarkers(st[b].objects, "")) ==> o.result.Ok?)
  {
    CreationOrderDistinct(st);
    assert "" !in st;
    TruncateEmpties(st, CreationOrder(st));
  }

  /** `rmdir("/")` without `recursive` always fails, and changes nothing. */
  lemma RmdirRootRefused(st: Buckets, path: string)
    requires Collapse(path) == Root
    ensures RmdirOf(st, path, false) == Outcome(Err(DirectoryNotEmpty), st)
  {
    ParseRoot(path);
  }

  /** A non-recursive `rmdir` of a directory holding anything fails before
      removing anything. */
  lemma RmdirNotEmpty(st: Buckets, path: string)
    requires ValidateDirectory(path).Ok?
    requires var m := ValidateDirectory(path).value;
      !m.IsRoot() && m.bucket in st && HasBelow(st[m.bucket].objects, m.prefix)
    ensures RmdirOf(st, path, false) == Outcome(Err(DirectoryNotEmpty), st)
  {
  }

  /** `rmdir` leaves every other bucket, and every key outside the
      directory, as it was. */
  lemma RmdirKeepsOutside(st: Buckets, path: string, recursive: bool)
    requires ValidateDirectory(path).Ok? && !ValidateDirectory(path).value.IsRoot()
    ensures var m := ValidateDirectory(path).value;
      var o := RmdirOf(st, path, recursive);
      (forall x :: x in st && x != m.bucket ==> x in o.buckets && o.buckets[x] == st[x]) &&
      (m.bucket in o.buckets ==>
        forall k :: k in st[m.bucket].objects && !StartsWith(k, m.prefix) ==>
          k in o.buckets[m.bucket].objects && o.buckets[m.bucket].objects[k] == st[m.bucket].objects[k])
  {
    var m := ValidateDirectory(path).value;
    ParseShape(path, m);
    var o := RmdirOf(st, path, recursive);
    if m.bucket in o.buckets {
      forall k | k in st[m.bucket].objects && !StartsWith(k, m.prefix)
        ensures k in o.buckets[m.bucket].objects && o.buckets[m.bucket].objects[k] == st[m.bucket].objects[k]
      {
        EmptiedOutside(st[m.bucket].objects, m.prefix, k);
      }
    }
  }

  /** After a successful `rmdir`, no key below the directory that does not
      end in '/' is left. */
  lemma RmdirRemovesFiles(st: Buckets, path: string, recursive: bool, k: string)
    requires ValidateDirectory(path).Ok? && !ValidateDirectory(path).value.IsRoot()
    requires var m := ValidateDirectory(path).value; m.bucket in st
    requires RmdirOf(st, path, recursive).result.Ok?
    requires var m := ValidateDirectory(path).value;
      k in st[m.bucket].objects && StartsWith(k, m.prefix) && !EndsWithSlash(k)
    ensures var m := ValidateDirectory(path).value;
      var o := RmdirOf(st, path, recursive);
      m.bucket in o.buckets ==> k !in o.buckets[m.bucket].objects
  {
    var m := ValidateDirectory(path).value;
    ParseShape(path, m);
    EmptiedFiles(st[m.bucket].objects, m.prefix, k);
  }

  /** After a successful `rmdir`, the directory no longer exists, provided
      every directory marker below it was a leaf's (in a flat store the
      marker of a directory with a subdirectory survives:
      `EmptiedKeepsInteriorMarker`). */
  lemma RmdirPathGone(st: Buckets, path: string, recursive: bool)
    requires ValidateDirectory(path).Ok? && !ValidateDirectory(path).value.IsRoot()
    requires var m := ValidateDirectory(path).value;
      m.bucket in st && NoInteriorMarkers(st[m.bucket].objects, m.prefix)
    requires RmdirOf(st, path, recursive).result.Ok?
    ensures !Exists(RmdirOf(st, path, recursive).buckets, path)
  {
    var m := ValidateDirectory(path).value;
    ParseShape(path, m);
    Classification(path, m);
    var o := RmdirOf(st, path, recursive);
    EmptiedIff(st[m.bucket].objects, m.prefix);
    ExistsIff(o.buckets, path);
  }

  /** In a store that keeps directory markers as keys, a recursive `rmdir`
      below the bucket level reports success while the marker of a
      directory that had a subdirectory survives, so the path still
      exists. */
  lemma RmdirKeepsInteriorMarker(st: Buckets, path: string, d: string)
    requires ValidateDirectory(path).Ok? && !ValidateDirectory(path).value.IsRoot()
    requires var m := ValidateDirectory(path).value;
      !m.IsBucket() && m.bucket in st &&
      d in st[m.bucket].objects && StartsWith(d, m.prefix) && d != m.prefix && EndsWithSlash(d) &&
      !Leaf(st[m.bucket].objects.Keys, d)
    ensures var o := RmdirOf(st, path, true);
      o.result.Ok? && d in o.buckets[ValidateDirectory(path).value.bucket].objects && Exists(o.buckets, path)
  {
    var m := ValidateDirectory(path).value;
    ParseShape(path, m);
    Classification(path, m);
    EmptiedMarkers(st[m.bucket].objects, m.prefix, d);
    ExistsIff(RmdirOf(st, path, true).buckets, path);
  }
}
