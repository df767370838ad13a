// What `copy_recursively` (pyminio/main.py:282-322) writes.
//
// The walk lists the source directory breadth first, plans one `cp` per file
// it meets and one `mkdirs` per directory with no subdirectory, and the
// destination of each is `join(to_path, path.replace(from_path, ''))`.  The
// lemmas here show that whatever `replace` does to a path, the destination
// stays inside the region (bucket and key prefix) of `to_path`; and that
// when `from_path` does not occur again inside a copied path, every file
// lands at its own key below the destination with its data and metadata.
module Copying {
  import opened Text
  import opened Wrappers
  import opened Structures
  import opened ObjectStore
  import opened Engine
  import opened Traversal
  import opened Removal
  import opened Writes

  // ---------------------------------------------------------------------------
  // Paths below a directory

  /** What can follow a canonical directory path and stay below it: no
      leading '/', no "//" and no line break. */
  predicate RegionTail(c: string) {
    (c == "" || c[0] != '/') && NoDoubleSlash(c) && NoNewline(c)
  }

  /** Deleting every occurrence of a directory-shaped pattern ("/.../")
      keeps a string free of "//" and of line breaks, and leaves a leading
      '/' only where there was one. */
  lemma {:induction false} RemoveAllShape(s: string, pat: string)
    requires |pat| > 0 && pat[0] == '/' && pat[|pat| - 1] == '/'
    requires NoDoubleSlash(s) && NoNewline(s)
    ensures var r := RemoveAll(s, pat);
      NoDoubleSlash(r) && NoNewline(r) && (|r| > 0 && r[0] == '/' ==> s[0] == '/')
    decreases |s|
  {
    if |s| == 0 {
    } else if StartsWith(s, pat) {
      var t := s[|pat|..];
      NoDoubleSlashSlice(s, |pat|, |s|);
      assert t == s[|pat|..|s|];
      RemoveAllShape(t, pat);
      if |t| > 0 {
        assert !SlashPairAt(s, |pat| - 1);
        assert t[0] == s[|pat|];
      }
    } else {
      var t := s[1..];
      NoDoubleSlashSlice(s, 1, |s|);
      assert t == s[1..|s|];
      RemoveAllShape(t, pat);
      var r' := RemoveAll(t, pat);
      var r := [s[0]] + r';
      assert RemoveAll(s, pat) == r;
      if |t| > 0 {
        assert !SlashPairAt(s, 0);
        assert t[0] == s[1];
      }
      forall x: nat | x + 1 < |r|
        ensures !SlashPairAt(r, x)
      {
        if x > 0 {
          assert !SlashPairAt(r', x - 1);
        }
      }
    }
  }

  /** What follows a directory prefix in a key is a tail. */
  lemma KeyTail(k: string, p: string)
    requires RegionTail(k) && StartsWith(k, p) && (p == "" || EndsWithSlash(p))
    ensures RegionTail(k[|p|..])
  {
    var c := k[|p|..];
    NoDoubleSlashSlice(k, |p|, |k|);
    assert c == k[|p|..|k|];
    if c != "" && p != "" {
      assert !SlashPairAt(k, |p| - 1);
      assert c[0] == k[|p|];
    }
  }

  /** Two directory prefixes one after the other make a directory prefix. */
  lemma PrefixJoin(p: string, d: string)
    requires PrefixShaped(p) && PrefixShaped(d)
    ensures PrefixShaped(p + d)
  {
    if p != "" && d != "" {
      var s := p + d;
      forall x: nat | x + 1 < |s|
        ensures !SlashPairAt(s, x)
      {
        if x + 1 < |p| {
          assert !SlashPairAt(p, x);
        } else if x + 1 == |p| {
          assert s[x + 1] == d[0];
        } else {
          assert !SlashPairAt(d, x - |p|);
        }
      }
      forall x | 0 <= x < |s|
        ensures s[x] != '\n'
      {
        if x >= |p| {
          assert s[x] == d[x - |p|];
        }
      }
    } else if p == "" {
      assert p + d == d;
    } else {
      assert p + d == p;
    }
  }

  /** The directory part of a tail is a directory prefix. */
  lemma TailParent(c: string)
    requires RegionTail(c)
    ensures PrefixShaped(ParentDir(c))
  {
    var d := ParentDir(c);
    NoDoubleSlashSlice(c, 0, |d|);
    assert d == c[0..|d|];
  }

  /** A tail after a canonical directory parses into the same bucket, the
      directory's prefix followed by the tail's directory part, and the
      tail's last segment, which is dropped when it has one character. */
  lemma ParseUnder(s: string, b: string, p: string, c: string)
    requires BucketShaped(b) && PrefixShaped(p) && RegionTail(c) && s == "/" + b + "/" + p + c
    ensures var d := ParentDir(c);
      var f := c[|d|..];
      Parse(s) == Some(Match(s, b, p + d, if |f| >= 2 then f else ""))
  {
    TailRegroup(b, p, c, ParentDir(c), c[|ParentDir(c)|..]);
    ParseRegrouped(s, b, p, c);
  }

  lemma ParseRegrouped(s: string, b: string, p: string, c: string)
    requires BucketShaped(b) && s == "/" + b + "/" + p + c
    requires s == "/" + b + "/" + (p + ParentDir(c)) + c[|ParentDir(c)|..]
    requires PrefixShaped(p + ParentDir(c)) && NoSlash(c[|ParentDir(c)|..]) && NoNewline(c[|ParentDir(c)|..])
    ensures var d := ParentDir(c);
      var f := c[|d|..];
      Parse(s) == Some(Match(s, b, p + d, if |f| >= 2 then f else ""))
  {
    ParseSegment(s, b, p + ParentDir(c), c[|ParentDir(c)|..]);
  }

  lemma TailRegroup(b: string, p: string, c: string, d: string, f: string)
    requires PrefixShaped(p) && RegionTail(c) && d == ParentDir(c) && f == c[|d|..]
    ensures "/" + b + "/" + p + c == "/" + b + "/" + (p + d) + f
    ensures PrefixShaped(p + d) && NoSlash(f) && NoNewline(f)
  {
    TailSplit(b, p, c, d, f);
    PrefixJoin(p, d);
  }

  /** The object key of such a parse lies below the directory, and is the
      directory's prefix followed by the tail when the parse is a file. */
  lemma MatchUnder(p: string, c: string, m: Match)
    requires PrefixShaped(p) && RegionTail(c)
    requires m.prefix == p + ParentDir(c)
    requires var f := c[|ParentDir(c)|..]; m.filename == if |f| >= 2 then f else ""
    ensures StartsWith(m.RelativePath(), p) && (m.IsFile() ==> m.RelativePath() == p + c)
  {
    var d := ParentDir(c);
    var f := c[|d|..];
    TailSplit("", p, c, d, f);
    PrefixJoin(p, d);
    UnderKey(p, c, d, m.filename, f);
  }

  lemma UnderKey(p: string, c: string, d: string, g: string, f: string)
    requires PrefixShaped(p + d) && c == d + f && (g == "" || g == f) && (g != "" ==> g[0] != '/')
    ensures StartsWith(PosixJoin(p + d, g), p)
    ensures g != "" ==> PosixJoin(p + d, g) == p + c
  {
    assert PosixJoin(p + d, g) == p + d + g;
    assert (p + d + g)[..|p|] == p;
  }

  /** A tail is its directory part followed by its last segment. */
  lemma TailSplit(b: string, p: string, c: string, d: string, f: string)
    requires RegionTail(c) && d == ParentDir(c) && f == c[|d|..]
    ensures "/" + b + "/" + p + c == "/" + b + "/" + (p + d) + f
    ensures PrefixShaped(d) && NoSlash(f) && NoNewline(f)
  {
    Regroup("/" + b + "/", p, c, d, f);
    TailParent(c);
    forall i | 0 <= i < |f|
      ensures f[i] != '\n'
    {
      assert f[i] == c[|d| + i];
    }
  }

  lemma Regroup(y: string, p: string, c: string, d: string, f: string)
    requires StartsWith(c, d) && f == c[|d|..]
    ensures y + p + c == y + (p + d) + f
  {
    assert c == d + f;
  }

  /** A canonical directory followed by one segment parses into that
      directory and the segment, which is dropped when it has one
      character. */
  lemma ParseSegment(s: string, b: string, q: string, f: string)
    requires BucketShaped(b) && PrefixShaped(q) && NoSlash(f) && NoNewline(f)
    requires s == "/" + b + "/" + q + f
    ensures Parse(s) == Some(Match(s, b, q, if |f| >= 2 then f else ""))
  {
    if |f| >= 2 {
      ParseCanonical(b, q, f);
    } else if |f| == 1 {
      assert f == [f[0]];
      ParseDropsOneCharacterSegment(b, q, f[0]);
    } else {
      ParseCanonical(b, q, "");
    }
  }

  /** Joining a segment onto a tail gives a tail. */
  lemma JoinTail(x: string, f: string)
    requires RegionTail(x) && f != "" && NoSlash(f) && NoNewline(f)
    ensures RegionTail(PosixJoin(x, f))
  {
    var j := PosixJoin(x, f);
    if x == "" || EndsWithSlash(x) {
      assert j == x + f;
      forall i: nat | i + 1 < |j|
        ensures !SlashPairAt(j, i)
      {
        if i + 1 < |x| {
          assert !SlashPairAt(x, i);
        } else {
          assert j[i + 1] == f[i + 1 - |x|];
        }
      }
      forall i | 0 <= i < |j|
        ensures j[i] != '\n'
      {
        if i >= |x| {
          assert j[i] == f[i - |x|];
        }
      }
    } else {
      assert j == x + "/" + f;
      forall i: nat | i + 1 < |j|
        ensures !SlashPairAt(j, i)
      {
        if i + 1 < |x| {
          assert !SlashPairAt(x, i);
        } else if i + 1 == |x| {
          assert j[i] == x[|x| - 1];
        } else if i == |x| {
          assert j[i + 1] == f[0];
        } else {
          assert j[i] == f[i - |x| - 1];
        }
      }
      forall i | 0 <= i < |j|
        ensures j[i] != '\n'
      {
        if i > |x| {
          assert j[i] == f[i - |x| - 1];
        }
      }
    }
  }

  /** Joining a segment onto a directory path followed by a tail is joining
      it onto the tail. */
  lemma JoinUnder(dir: string, x: string, f: string)
    requires EndsWithSlash(dir) && f != "" && f[0] != '/'
    ensures PosixJoin(dir + x, f) == dir + PosixJoin(x, f)
  {
    var dx := dir + x;
    if x == "" {
      assert dx == dir;
    } else if EndsWithSlash(x) {
      assert dx[|dx| - 1] == '/';
      assert PosixJoin(dx, f) == dx + f;
      assert PosixJoin(x, f) == x + f;
    } else {
      assert dx[|dx| - 1] == x[|x| - 1];
      assert PosixJoin(dx, f) == dx + "/" + f;
      assert PosixJoin(x, f) == x + "/" + f;
    }
  }

  // ---------------------------------------------------------------------------
  // The source and destination directories

  /** A canonical directory path below the root. */
  predicate DirBelowRoot(m: Match) {
    Canonical(m) && m.IsDir() && !m.IsRoot()
  }

  /** Two directories whose regions (bucket and key prefix) do not contain
      one another. */
  predicate Apart(fm: Match, tm: Match) {
    fm.bucket != tm.bucket || (!StartsWith(fm.prefix, tm.prefix) && !StartsWith(tm.prefix, fm.prefix))
  }

  /** The directories `copy_recursively` is handed, as `cp` hands them:
      canonical directory paths below the root, apart from each other. */
  ghost predicate CopyableTree(fromPath: string, toPath: string) {
    Parse(fromPath).Some? && Parse(toPath).Some? &&
    var fm, tm := Parse(fromPath).value, Parse(toPath).value;
    fm.path == fromPath && tm.path == toPath &&
    DirBelowRoot(fm) && DirBelowRoot(tm) && Apart(fm, tm)
  }

  /** A canonical directory path is "/bucket/prefix". */
  lemma DirPathShape(path: string, m: Match)
    requires Parse(path) == Some(m) && m.path == path && DirBelowRoot(m)
    ensures path == "/" + m.bucket + "/" + m.prefix
    ensures BucketShaped(m.bucket) && PrefixShaped(m.prefix) && ValidBucketName(m.bucket)
    ensures path[0] == '/' && EndsWithSlash(path)
  {
    ParseShape(path, m);
    assert path == "/" + m.bucket + "/" + m.prefix + "";
  }

  /** Nothing keeps the destination of a recursive `cp` apart from its
      source: a directory copied into its own parent lands on itself. */
  lemma CopyIntoParentIsSelf(st: Buckets, fromPath: string, toPath: string)
    requires Parse(fromPath).Some? && Parse(toPath).Some?
    requires var fm := Parse(fromPath).value; fm.path == fromPath && DirBelowRoot(fm) && fm.prefix != ""
    requires var tm := Parse(toPath).value; tm.path == toPath && DirBelowRoot(tm) && Exists(st, toPath)
    requires var fm, tm := Parse(fromPath).value, Parse(toPath).value;
      tm.bucket == fm.bucket && tm.prefix == ParentPrefix(fm.prefix)
    ensures GetDestination(st, fromPath, toPath) == Ok(Parse(fromPath).value)
  {
    var fm, tm := Parse(fromPath).value, Parse(toPath).value;
    DirPathShape(fromPath, fm);
    DirPathShape(toPath, tm);
    DirNameIs(fm);
    var seg := DirName(fm);
    assert !tm.IsRoot();
    DestinationInsideExisting(st, fromPath, toPath);
    assert GetDestination(st, fromPath, toPath) == Ok(Match(tm.path + seg + "/", tm.bucket, tm.prefix + seg + "/", ""));
    assert fm.prefix == tm.prefix + seg + "/";
    SegmentBelow("/" + fm.bucket + "/", tm.prefix, seg, toPath, fromPath);
    assert fm == Match(fromPath, fm.bucket, fm.prefix, "");
  }

  lemma SegmentBelow(x: string, p: string, seg: string, parent: string, child: string)
    requires parent == x + p && child == x + (p + seg + "/")
    ensures parent + seg + "/" == child
  {
  }

  /** The destination `cp` evidently means for a directory: refused with
      ValueError when it is the source, holds it or lies inside it, as
      cp(1) refuses to copy a directory into itself. */
  function CheckedDestination(st: Buckets, fromPath: string, toPath: string): Result<Match, Error> {
    match GetDestination(st, fromPath, toPath)
    case Err(e) => Err(e)
    case Ok(tm) =>
      if Parse(fromPath).Some? && Parse(fromPath).value.IsDir() && !Apart(Parse(fromPath).value, tm) then
        Err(ValueError)
      else Ok(tm)
  }

  /** With that check, every destination a canonical directory is copied to
      is one `copy_recursively` is modelled for. */
  lemma CheckedDestinationCopyable(st: Buckets, fromPath: string, toPath: string)
    requires Parse(fromPath).Some? && Parse(fromPath).value.path == fromPath && DirBelowRoot(Parse(fromPath).value)
    requires Parse(toPath).Some? && Parse(toPath).value.path == toPath && Canonical(Parse(toPath).value)
    requires CheckedDestination(st, fromPath, toPath).Ok?
    ensures CopyableTree(fromPath, CheckedDestination(st, fromPath, toPath).value.path)
  {
    var fm, tm := Parse(fromPath).value, Parse(toPath).value;
    var d := DirectoryDestination(st, fromPath, toPath, fm, tm);
    assert CheckedDestination(st, fromPath, toPath) == Ok(d);
    assert Apart(fm, d);
  }

  /** Where `_get_destination` puts a canonical directory: a canonical
      directory below the root. */
  lemma DirectoryDestination(st: Buckets, fromPath: string, toPath: string, fm: Match, tm: Match) returns (d: Match)
    requires Parse(fromPath) == Some(fm) && fm.path == fromPath && DirBelowRoot(fm)
    requires Parse(toPath) == Some(tm) && tm.path == toPath && Canonical(tm)
    requires GetDestination(st, fromPath, toPath).Ok?
    ensures GetDestination(st, fromPath, toPath) == Ok(d)
    ensures Parse(d.path) == Some(d) && DirBelowRoot(d)
  {
    d := GetDestination(st, fromPath, toPath).value;
    assert tm.IsDir();
    if Exists(st, tm.path) {
      DestinationInsideExisting(st, fromPath, toPath);
      ParseShape(fromPath, fm);
      DirNameIs(fm);
      var seg := DirName(fm);
      if tm.IsRoot() {
        BucketOfSegment(seg);
      } else {
        ParseShape(toPath, tm);
        DirectoryOfSegment(tm, seg);
      }
    } else {
      ExistsIff(st, tm.path);
    }
  }

  lemma BucketOfSegment(seg: string)
    requires |seg| > 0 && NoSlash(seg) && NoNewline(seg)
    ensures var d := Match(Root + seg + "/", seg, "", "");
      Parse(d.path) == Some(d) && DirBelowRoot(d)
  {
    assert Root + seg + "/" == "/" + seg + "/" + "" + "";
    ParseCanonical(seg, "", "");
  }

  lemma DirectoryOfSegment(tm: Match, seg: string)
    requires BucketShaped(tm.bucket) && PrefixShaped(tm.prefix) && tm.filename == ""
    requires tm.path == "/" + tm.bucket + "/" + tm.prefix + tm.filename
    requires |seg| > 0 && NoSlash(seg) && NoNewline(seg)
    ensures var d := Match(tm.path + seg + "/", tm.bucket, tm.prefix + seg + "/", "");
      Parse(d.path) == Some(d) && DirBelowRoot(d)
  {
    JoinBelow(tm, seg);
    ExtendPrefix(tm.prefix, seg);
    ParseCanonical(tm.bucket, tm.prefix + seg + "/", "");
  }

  // ---------------------------------------------------------------------------
  // Writing below a directory

  /** From `st0` to `st1` only objects with a key below `tp` in bucket `tb`
      were written: every bucket stays with its creation date and its keys,
      only `tb` may be new, and every other object is unchanged and nothing
      else appears. */
  ghost predicate OnlyBelow(st0: Buckets, st1: Buckets, tb: string, tp: string) {
    st0.Keys <= st1.Keys <= st0.Keys + {tb} &&
    (forall x :: x in st0 ==> st1[x].created == st0[x].created && st0[x].objects.Keys <= st1[x].objects.Keys) &&
    (forall x, k {:trigger st1[x].objects[k]} {:trigger st0[x].objects[k]} ::
      x in st0 && k in st0[x].objects && !(x == tb && StartsWith(k, tp)) ==>
      st1[x].objects[k] == st0[x].objects[k]) &&
    (forall x, k {:trigger k in st1[x].objects} ::
      x in st1 && k in st1[x].objects && !(x == tb && StartsWith(k, tp)) ==>
      x in st0 && k in st0[x].objects)
  }

  lemma OnlyBelowTrans(st0: Buckets, st1: Buckets, st2: Buckets, tb: string, tp: string)
    requires OnlyBelow(st0, st1, tb, tp) && OnlyBelow(st1, st2, tb, tp)
    ensures OnlyBelow(st0, st2, tb, tp)
  {
  }

  /** An object outside the region is still there, unchanged. */
  lemma OnlyBelowOutside(st0: Buckets, st1: Buckets, tb: string, tp: string, x: string, k: string)
    requires OnlyBelow(st0, st1, tb, tp)
    requires x in st0 && k in st0[x].objects && !(x == tb && StartsWith(k, tp))
    ensures x in st1 && k in st1[x].objects && st1[x].objects[k] == st0[x].objects[k]
  {
    assert x in st0.Keys && k in st0[x].objects.Keys;
  }

  lemma OnlyBelowInside(st0: Buckets, st1: Buckets, tb: string, tp: string, x: string, k: string)
    requires OnlyBelow(st0, st1, tb, tp)
    requires x in st1 && k in st1[x].objects && !(x == tb && StartsWith(k, tp))
    ensures x in st0 && k in st0[x].objects
  {
    assert x in st1.Keys && k in st1[x].objects.Keys;
  }

  /** Putting an object below the directory writes below it. */
  lemma WithObjectBelow(st: Buckets, tb: string, tp: string, k: string, o: Obj)
    requires tb in st && StartsWith(k, tp)
    ensures OnlyBelow(st, WithObject(st, tb, k, o), tb, tp)
  {
  }

  /** `mkdirs` of a path below a directory writes below it. */
  lemma MkdirsBelow(st: Buckets, now: nat, tb: string, tp: string, y: string)
    requires BucketShaped(tb) && PrefixShaped(tp) && RegionTail(y)
    ensures OnlyBelow(st, MkdirsOf(st, now, "/" + tb + "/" + tp + y).buckets, tb, tp)
  {
    var path := "/" + tb + "/" + tp + y;
    var m := MatchBelow(tb, tp, y);
    MkdirsAt(st, now, path, m, tp);
  }

  /** A path below a directory parses in that directory's bucket, with a
      prefix that extends the directory's. */
  lemma MatchBelow(tb: string, tp: string, y: string) returns (m: Match)
    requires BucketShaped(tb) && PrefixShaped(tp) && RegionTail(y)
    ensures Parse("/" + tb + "/" + tp + y) == Some(m) && m.bucket == tb && StartsWith(m.prefix, tp)
  {
    var path := "/" + tb + "/" + tp + y;
    ParseUnder(path, tb, tp, y);
    ExtendedPrefix(tp, ParentDir(y));
    m := Parse(path).value;
  }

  lemma ExtendedPrefix(p: string, d: string)
    ensures StartsWith(p + d, p)
  {
    assert (p + d)[..|p|] == p;
  }

  lemma MkdirsAt(st: Buckets, now: nat, path: string, m: Match, tp: string)
    requires Parse(path) == Some(m) && StartsWith(m.prefix, tp)
    ensures OnlyBelow(st, MkdirsOf(st, now, path).buckets, m.bucket, tp)
  {
    MkdirsKeeps(st, now, path, m);
    if ValidateDirectory(path).Ok? && !m.IsRoot() {
      assert MkdirsOf(st, now, path) == MakeDirectory(st, now, m);
      MakeDirectoryGrows(st, now, m);
    }
  }

  lemma MakeDirectoryGrows(st: Buckets, now: nat, m: Match)
    ensures var r := MakeDirectory(st, now, m);
      forall x :: x in st ==> st[x].objects.Keys <= r.buckets[x].objects.Keys
  {
  }

  /** `mkdirs` of a canonical directory below the root that succeeds leaves
      its bucket and, below the bucket, its marker. */
  lemma MkdirsMarks(st: Buckets, now: nat, b: string, q: string)
    requires BucketShaped(b) && PrefixShaped(q)
    ensures var r := MkdirsOf(st, now, "/" + b + "/" + q);
      r.result.Ok? ==> b in r.buckets && (q == "" || q in r.buckets[b].objects)
  {
    var s := "/" + b + "/" + q;
    ParseCanonical(b, q, "");
    assert s + "" == s;
    var m := Match(s, b, q, "");
    MkdirsOfDirectory(st, now, s, m);
    MakeDirectoryMarks(st, now, m);
  }

  lemma MakeDirectoryMarks(st: Buckets, now: nat, m: Match)
    ensures var r := MakeDirectory(st, now, m);
      r.result.Ok? ==> m.bucket in r.buckets && (m.prefix == "" || m.IsBucket() || m.prefix in r.buckets[m.bucket].objects)
  {
  }

  // ---------------------------------------------------------------------------
  // The copies

  /** One entry of `files_to_copy`: the path of a listed file and the path
      it is copied to. */
  datatype Planned = Planned(source: string, target: string)

  /** The entry for the key `k` of bucket `b`: "/b/k", and the destination
      directory joined with that path once `from_path` is deleted from it. */
  function PlanFor(b: string, k: string, fromPath: string, toPath: string): Planned {
    var source := "/" + b + "/" + k;
    Planned(source, PosixJoin(toPath, RemoveAll(source, fromPath)))
  }

  function PlanOf(b: string, ks: seq<string>, fromPath: string, toPath: string): (r: seq<Planned>)
    ensures |r| == |ks|
    ensures forall i :: 0 <= i < |ks| ==> r[i] == PlanFor(b, ks[i], fromPath, toPath)
  {
    seq(|ks|, i requires 0 <= i < |ks| => PlanFor(b, ks[i], fromPath, toPath))
  }

  /** `replace` deletes `from_path` wherever it recurs in a source path,
      not only at its head: below "/b/x/", the key "x/q/b/x/f" is copied to
      "qf" under the destination, where "q/b/x/f" was meant. */
  lemma PlanForRepeated()
    ensures PlanFor("b", "x/q/b/x/f", "/b/x/", "/c/").target == "/c/qf"
  {
    var pat := "/b/x/";
    var s := "/" + "b" + "/" + "x/q/b/x/f";
    assert s == "/b/x/q/b/x/f";
    assert StartsWith(s, pat);
    assert s[5..] == "q/b/x/f";
    var u := "q/b/x/f";
    assert u[..5][0] != pat[0];
    assert u[1..] == "/b/x/f";
    assert StartsWith(u[1..], pat);
    assert u[1..][5..] == "f";
    assert RemoveAll("f", pat) == "f";
    assert RemoveAll(s, pat) == "qf";
  }

  /** The entry the copy evidently means for the key `k`: the destination
      directory joined with what follows `from_path` at the head of the
      source path. */
  function IntendedPlanFor(b: string, k: string, fromPath: string, toPath: string): Planned
    requires StartsWith("/" + b + "/" + k, fromPath)
  {
    var source := "/" + b + "/" + k;
    Planned(source, PosixJoin(toPath, source[|fromPath|..]))
  }

  /** Every key below the source directory keeps its whole path below it,
      and `PlanFor` agrees with the intended entry exactly when that path
      does not hold `from_path` again. */
  lemma IntendedPlanKeepsTail(b: string, fp: string, k: string, toPath: string)
    requires fp == "" || EndsWithSlash(fp)
    requires ValidKey(k) && StartsWith(k, fp) && EndsWithSlash(toPath)
    ensures var fromPath := "/" + b + "/" + fp;
      StartsWith("/" + b + "/" + k, fromPath) &&
      IntendedPlanFor(b, k, fromPath, toPath).target == toPath + k[|fp|..] &&
      (NoOccurrence(k[|fp|..], fromPath) ==> PlanFor(b, k, fromPath, toPath) == IntendedPlanFor(b, k, fromPath, toPath))
  {
    var fromPath := "/" + b + "/" + fp;
    var t := k[|fp|..];
    assert k == fp + t;
    assert "/" + b + "/" + k == fromPath + t;
    assert (fromPath + t)[|fromPath|..] == t;
    if t != "" && fp != "" {
      assert !SlashPairAt(k, |fp| - 1);
      assert t[0] == k[|fp|];
    }
    if NoOccurrence(t, fromPath) {
      RemoveAllLeading(fromPath, t);
      RemoveAllAbsent(t, fromPath);
    }
  }

  /** A recursive copy from "/b/x/a": the last segment has one character, so
      the path reads as the directory "/b/x/" but keeps its own text.  For
      the file "x/f1" `replace` then deletes nothing, and `join` with the
      absolute result discards the destination: the planned copy of the
      file is onto itself, which the store refuses (`CpOntoItself`). */
  lemma PlanForOneCharacterSource()
    ensures Parse("/b/x/a") == Some(Match("/b/x/a", "b", "x/", ""))
    ensures Parse("/b/x/f1") == Some(Match("/b/x/f1", "b", "x/", "f1"))
    ensures PlanFor("b", "x/f1", "/b/x/a", "/c/") == Planned("/b/x/f1", "/b/x/f1")
  {
    ParseSourceDir();
    ParseSourceFile();
    PlanForUnreplaced();
  }

  lemma ParseSourceDir()
    ensures Parse("/b/x/a") == Some(Match("/b/x/a", "b", "x/", ""))
  {
    ParseDropsOneCharacterSegment("b", "x/", 'a');
    assert "/" + "b" + "/" + "x/" + ['a'] == "/b/x/a";
  }

  lemma ParseSourceFile()
    ensures Parse("/b/x/f1") == Some(Match("/b/x/f1", "b", "x/", "f1"))
  {
    ParseCanonical("b", "x/", "f1");
    assert "/" + "b" + "/" + "x/" + "f1" == "/b/x/f1";
  }

  lemma PlanForUnreplaced()
    ensures PlanFor("b", "x/f1", "/b/x/a", "/c/") == Planned("/b/x/f1", "/b/x/f1")
  {
    var src := "/b/x/f1";
    assert "/" + "b" + "/" + "x/f1" == src;
    forall i: nat
      ensures !OccursAt(src, "/b/x/a", i)
    {
      if i == 0 {
        assert src[0..6][5] == 'f';
      } else if i == 1 {
        assert src[1..7][0] == 'b';
      }
    }
    RemoveAllAbsent(src, "/b/x/a");
  }

  /** `cp` of a file onto its own path is refused by the store. */
  lemma CpOntoItself(st: Buckets, now: nat, src: string, m: Match)
    requires Parse(src) == Some(m) && m.IsFile()
    requires m.bucket in st && m.RelativePath() in st[m.bucket].objects && ValidKey(m.RelativePath())
    ensures CpOf(st, now, src, src).result == Err(StoreFailure(InvalidCopyDest))
  {
    FileDestinationIs(st, src, src, m, m);
  }

  /** The corrected plan: built from the directory the source path parses
      as, a key below it keeps its whole tail below the destination, also
      when the source path ends in a one-character segment. */
  lemma PlanFromParsedSource(b: string, pr: string, c: char, k: string, toPath: string)
    requires BucketShaped(b) && PrefixShaped(pr) && c != '/'
    requires ValidKey(k) && StartsWith(k, pr) && EndsWithSlash(toPath)
    ensures var s := "/" + b + "/" + pr + [c];
      Parse(s) == Some(Match(s, b, pr, "")) &&
      StartsWith("/" + b + "/" + k, "/" + b + "/" + pr) &&
      IntendedPlanFor(b, k, "/" + b + "/" + pr, toPath).target == toPath + k[|pr|..]
  {
    ParseDropsOneCharacterSegment(b, pr, c);
    IntendedPlanKeepsTail(b, pr, k, toPath);
  }

  /** The path of a stored key parses into the key's bucket, its directory,
      and its last segment; as a file its object key is the key itself. */
  lemma SourceOf(b: string, k: string) returns (km: Match)
    requires BucketShaped(b) && ValidKey(k)
    ensures Parse("/" + b + "/" + k) == Some(km)
    ensures km.bucket == b && km.prefix == ParentDir(k)
    ensures km.filename == "" || km.filename == k[|ParentDir(k)|..]
    ensures NoSlash(km.filename) && NoNewline(km.filename)
    ensures km.IsFile() <==> |k[|ParentDir(k)|..]| >= 2
    ensures km.IsFile() ==> km.RelativePath() == k
  {
    KeyTail(k, "");
    assert k[|""|..] == k;
    assert "/" + b + "/" + "" + k == "/" + b + "/" + k;
    ParseUnder("/" + b + "/" + "" + k, b, "", k);
    km := Parse("/" + b + "/" + k).value;
    MatchUnder("", k, km);
    var f := k[|ParentDir(k)|..];
    forall i | 0 <= i < |f|
      ensures f[i] != '\n'
    {
      assert f[i] == k[|ParentDir(k)| + i];
    }
  }

  /** A stored key below the source directory is the source path followed
      by the rest of the key. */
  lemma SourceSplit(b: string, fp: string, k: string)
    requires StartsWith(k, fp)
    ensures "/" + b + "/" + k == ("/" + b + "/" + fp) + k[|fp|..]
  {
    assert k == fp + k[|fp|..];
  }

  /** The target of a planned copy is the destination directory followed by
      a tail; that tail is the rest of the key below the source directory
      when the source path does not occur in that rest. */
  lemma TargetOf(fromPath: string, toPath: string, fm: Match, tm: Match, k: string) returns (x: string)
    requires Parse(fromPath) == Some(fm) && fm.path == fromPath && DirBelowRoot(fm)
    requires Parse(toPath) == Some(tm) && tm.path == toPath && DirBelowRoot(tm)
    requires RegionTail(k) && StartsWith(k, fm.prefix)
    ensures PlanFor(fm.bucket, k, fromPath, toPath).target == toPath + x
    ensures RegionTail(x)
    ensures NoOccurrence(k[|fm.prefix|..], fromPath) ==> x == k[|fm.prefix|..]
  {
    DirPathShape(fromPath, fm);
    DirPathShape(toPath, tm);
    var rest := k[|fm.prefix|..];
    SourceSplit(fm.bucket, fm.prefix, k);
    RemoveAllLeading(fromPath, rest);
    KeyTail(k, fm.prefix);
    RemoveAllShape(rest, fromPath);
    x := RemoveAll(rest, fromPath);
    if NoOccurrence(rest, fromPath) {
      RemoveAllAbsent(rest, fromPath);
    }
  }

  /** Where `cp` sends a file when the target is the destination directory
      followed by a tail: into the destination's bucket, below its prefix;
      and to the destination's prefix followed by the tail when the tail
      ends in the file's name. */
  lemma DestinationBelow(st: Buckets, source: string, km: Match, toPath: string, tm: Match, x: string)
    returns (dm: Match)
    requires Parse(source) == Some(km) && km.IsFile() && NoSlash(km.filename) && NoNewline(km.filename)
    requires Parse(toPath) == Some(tm) && tm.path == toPath && DirBelowRoot(tm) && RegionTail(x)
    ensures GetDestination(st, source, toPath + x) == Ok(dm)
    ensures dm.bucket == tm.bucket && StartsWith(dm.RelativePath(), tm.prefix)
    ensures km.filename == x[|ParentDir(x)|..] ==> dm.RelativePath() == tm.prefix + x
  {
    DirPathShape(toPath, tm);
    ParseUnder(toPath + x, tm.bucket, tm.prefix, x);
    var dm0 := Parse(toPath + x).value;
    MatchUnder(tm.prefix, x, dm0);
    Classification(source, km);
    ParseShape(source, km);
    if km.filename == x[|ParentDir(x)|..] {
      assert dm0.IsFile();
    }
    if dm0.IsFile() {
      dm := dm0;
      FileDestinationIs(st, source, toPath + x, km, dm0);
    } else {
      dm := DestinationJoined(st, source, km, toPath, tm, x, dm0);
    }
  }

  /** The target parses as a directory: the file's name is joined onto it. */
  lemma DestinationJoined(st: Buckets, source: string, km: Match, toPath: string, tm: Match, x: string, dm0: Match)
    returns (dm: Match)
    requires Parse(source) == Some(km) && km.IsFile() && NoSlash(km.filename) && NoNewline(km.filename)
    requires toPath == "/" + tm.bucket + "/" + tm.prefix && EndsWithSlash(toPath)
    requires BucketShaped(tm.bucket) && PrefixShaped(tm.prefix) && RegionTail(x)
    requires Parse(toPath + x) == Some(dm0) && dm0.path == toPath + x && !dm0.IsFile()
    ensures GetDestination(st, source, toPath + x) == Ok(dm)
    ensures dm.bucket == tm.bucket && StartsWith(dm.RelativePath(), tm.prefix)
  {
    var kf := km.filename;
    JoinUnder(toPath, x, kf);
    JoinTail(x, kf);
    var y := PosixJoin(x, kf);
    ParseUnder(toPath + y, tm.bucket, tm.prefix, y);
    dm := Parse(toPath + y).value;
    MatchUnder(tm.prefix, y, dm);
    FileDestinationIs(st, source, toPath + x, km, dm0);
  }

  /** `_get_destination` of a file: the target when it is a file, else the
      file's name joined onto it. */
  lemma FileDestinationIs(st: Buckets, source: string, target: string, km: Match, dm0: Match)
    requires Parse(source) == Some(km) && km.IsFile() && Parse(target) == Some(dm0)
    ensures dm0.IsFile() ==> GetDestination(st, source, target) == Ok(dm0)
    ensures !dm0.IsFile() && Parse(PosixJoin(dm0.path, km.filename)).Some? ==>
      GetDestination(st, source, target) == Ok(Parse(PosixJoin(dm0.path, km.filename)).value)
  {
  }

  /** Copying a file to a key below the destination writes below it. */
  lemma CopyBelow(st: Buckets, now: nat, km: Match, dm: Match, tp: string)
    requires StartsWith(dm.RelativePath(), tp)
    ensures OnlyBelow(st, CopyFileOf(st, now, km, dm).buckets, dm.bucket, tp)
  {
    var w := CopyFileOf(st, now, km, dm);
    if w.result.Ok? {
      WithObjectBelow(st, dm.bucket, tp, dm.RelativePath(), GetObject(st, km.bucket, km.RelativePath()).value.(modified := now));
    }
  }

  /** A key's last segment is the last segment of its rest below any
      directory holding it. */
  lemma LastSegmentOfRest(k: string, p: string)
    requires p == "" || EndsWithSlash(p)
    requires StartsWith(k, p) && k != "" && !EndsWithSlash(k)
    ensures var rest := k[|p|..];
      k[|ParentDir(k)|..] == rest[|ParentDir(rest)|..]
  {
    var rest := k[|p|..];
    var d := ParentDir(rest);
    var f := rest[|d|..];
    assert k == (p + d) + f;
    assert f != "" by {
      assert rest != "" && rest[|rest| - 1] == k[|k| - 1];
    }
    assert k[|p + d|..] == f;
    FileInParent(p + d, k);
  }

  /** A key below the source directory is not below the destination. */
  lemma OutsideDestination(fm: Match, tm: Match, k: string)
    requires Apart(fm, tm) && StartsWith(k, fm.prefix)
    ensures !(fm.bucket == tm.bucket && StartsWith(k, tm.prefix))
  {
    PrefixesNested(fm.prefix, tm.prefix, k);
  }

  /** `cp` of a planned file writes below the destination; when the source
      path does not occur again in the rest of the key below the source
      directory and the copy succeeds, it puts the file's object, stamped
      with the clock, at the destination's prefix followed by that rest. */
  lemma CpPlanned(st0: Buckets, cur: Buckets, now: nat, fromPath: string, toPath: string,
                  fm: Match, tm: Match, k: string)
    requires CopyableTree(fromPath, toPath) && Parse(fromPath) == Some(fm) && Parse(toPath) == Some(tm)
    requires WellFormed(st0) && fm.bucket in st0 && k in st0[fm.bucket].objects
    requires StartsWith(k, fm.prefix) && !EndsWithSlash(k)
    requires OnlyBelow(st0, cur, tm.bucket, tm.prefix)
    ensures var pl := PlanFor(fm.bucket, k, fromPath, toPath);
      Parse(pl.source).Some? &&
      (Parse(pl.source).value.IsFile() ==>
        var w := CpFileOf(cur, now, pl.source, pl.target);
        OnlyBelow(cur, w.buckets, tm.bucket, tm.prefix) &&
        (NoOccurrence(k[|fm.prefix|..], fromPath) && w.result.Ok? ==>
          tm.bucket in cur &&
          w.buckets == WithObject(cur, tm.bucket, tm.prefix + k[|fm.prefix|..],
                                  st0[fm.bucket].objects[k].(modified := now))))
  {
    DirPathShape(fromPath, fm);
    var km := SourceOf(fm.bucket, k);
    var pl := PlanFor(fm.bucket, k, fromPath, toPath);
    if km.IsFile() {
      var x := TargetOf(fromPath, toPath, fm, tm, k);
      var dm := DestinationBelow(cur, pl.source, km, toPath, tm, x);
      CpFileIs(cur, now, pl.source, pl.target, km, dm);
      CopyBelow(cur, now, km, dm, tm.prefix);
      if NoOccurrence(k[|fm.prefix|..], fromPath) {
        LastSegmentOfRest(k, fm.prefix);
        OutsideDestination(fm, tm, k);
        OnlyBelowOutside(st0, cur, tm.bucket, tm.prefix, fm.bucket, k);
        CopyExact(st0, cur, now, km, dm, k);
      }
    }
  }

  lemma CpFileIs(st: Buckets, now: nat, source: string, target: string, km: Match, dm: Match)
    requires Parse(source) == Some(km) && km.IsFile() && GetDestination(st, source, target) == Ok(dm)
    ensures CpFileOf(st, now, source, target) == CopyFileOf(st, now, km, dm)
  {
  }

  /** A copy that succeeds puts the source object, stamped with the clock,
      at the destination key. */
  lemma CopyExact(st0: Buckets, cur: Buckets, now: nat, km: Match, dm: Match, k: string)
    requires km.bucket in st0 && k in st0[km.bucket].objects && km.RelativePath() == k
    requires km.bucket in cur && k in cur[km.bucket].objects && cur[km.bucket].objects[k] == st0[km.bucket].objects[k]
    ensures var w := CopyFileOf(cur, now, km, dm);
      w.result.Ok? ==> (
        dm.bucket in cur &&
        w.buckets == WithObject(cur, dm.bucket, dm.RelativePath(), st0[km.bucket].objects[k].(modified := now)))
  {
  }

  // ---------------------------------------------------------------------------
  // The walk

  /** `from_path` recurs nowhere in a copied path: for every key below the
      source directory, it does not occur in what follows the directory's
      prefix. */
  ghost predicate Unrepeated(st: Buckets, fm: Match, fromPath: string) {
    fm.bucket in st ==>
      forall k :: k in st[fm.bucket].objects && StartsWith(k, fm.prefix) ==>
        NoOccurrence(k[|fm.prefix|..], fromPath)
  }

  /** The directory `key` below the bucket of `tm` exists in `now`: the
      bucket, and its marker unless it is the bucket itself. */
  ghost predicate Marked(now: Buckets, tm: Match, key: string) {
    tm.bucket in now && (key == "" || key in now[tm.bucket].objects)
  }

  /** Every visited directory with no subdirectory has its copy made. */
  ghost predicate LeavesMarked(st0: Buckets, fm: Match, tm: Match, V: set<string>, now: Buckets) {
    forall d :: d in V && StartsWith(d, fm.prefix) && Leaf(KeysOf(st0, fm.bucket), d) ==>
      Marked(now, tm, tm.prefix + d[|fm.prefix|..])
  }

  /** Between two iterations of the walk: the queue holds the paths of the
      queued directories `Q`, which with the visited `V` form a frontier of
      the source; nothing is visited before the bucket is known to exist;
      `FS` lists, once each, the files directly inside the visited
      directories, and `plan` holds their entries. */
  ghost predicate CopyWalk(st0: Buckets, fromPath: string, toPath: string, fm: Match,
                           queue: seq<string>, Q: seq<string>, V: set<string>,
                           FS: seq<string>, plan: seq<Planned>) {
    WalkQueued(st0, fm, queue, Q, V) && WalkPlanned(st0, fromPath, toPath, fm, V, FS, plan)
  }

  ghost predicate WalkQueued(st0: Buckets, fm: Match, queue: seq<string>, Q: seq<string>, V: set<string>) {
    |queue| == |Q| &&
    (forall i :: 0 <= i < |Q| ==> PrefixShaped(Q[i]) && queue[i] == "/" + fm.bucket + "/" + Q[i]) &&
    Frontier(KeysOf(st0, fm.bucket), fm.prefix, V, Q) &&
    (fm.bucket !in st0 ==> V == {})
  }

  ghost predicate WalkPlanned(st0: Buckets, fromPath: string, toPath: string, fm: Match,
                              V: set<string>, FS: seq<string>, plan: seq<Planned>) {
    plan == PlanOf(fm.bucket, FS, fromPath, toPath) &&
    Distinct(FS) &&
    (forall k :: k in FS <==> k in KeysOf(st0, fm.bucket) && !EndsWithSlash(k) && ParentDir(k) in V)
  }

  lemma CopyWalkInit(st0: Buckets, fromPath: string, toPath: string, fm: Match)
    requires fromPath == "/" + fm.bucket + "/" + fm.prefix && PrefixShaped(fm.prefix)
    ensures CopyWalk(st0, fromPath, toPath, fm, [fromPath], [fm.prefix], {}, [], [])
  {
    FrontierInit(KeysOf(st0, fm.bucket), fm.prefix);
    assert PlanOf(fm.bucket, [], fromPath, toPath) == [];
  }

  /** The head of the queue parses into the source bucket and a directory
      of the walk below the source directory. */
  lemma CopyWalkHead(st0: Buckets, fromPath: string, toPath: string, fm: Match,
                     queue: seq<string>, Q: seq<string>, V: set<string>, FS: seq<string>, plan: seq<Planned>)
    requires BucketShaped(fm.bucket)
    requires CopyWalk(st0, fromPath, toPath, fm, queue, Q, V, FS, plan) && queue != []
    ensures Parse(queue[0]) == Some(Match(queue[0], fm.bucket, Q[0], ""))
    ensures PrefixShaped(Q[0]) && Q[0] in Dirs(KeysOf(st0, fm.bucket), fm.prefix) && StartsWith(Q[0], fm.prefix)
    ensures queue[0] == "/" + fm.bucket + "/" + Q[0]
  {
    ParseCanonical(fm.bucket, Q[0], "");
    assert queue[0] == "/" + fm.bucket + "/" + Q[0] + "";
    DirsShape(KeysOf(st0, fm.bucket), fm.prefix, Q[0]);
  }

  /** Entries with pairwise different names have pairwise different file
      names. */
  lemma {:induction false} FileNamesDistinct(es: seq<Entry>)
    requires forall i, j :: 0 <= i < j < |es| ==> es[i].name != es[j].name
    ensures Distinct(FileNames(es))
  {
    if es != [] {
      FileNamesDistinct(es[1..]);
      var rest := FileNames(es[1..]);
      if !es[0].IsDir() {
        forall e | e in es[1..]
          ensures e.name != es[0].name
        {
          var j :| 0 <= j < |es[1..]| && es[1..][j] == e;
          assert es[j + 1] == e;
        }
        assert es[0].name !in rest;
        var r := [es[0].name] + rest;
        forall i, j | 0 <= i < j < |r|
          ensures r[i] != r[j]
        {
          assert r[j] == rest[j - 1];
          if i > 0 {
            assert r[i] == rest[i - 1];
          }
        }
      }
    }
  }

  lemma DistinctConcat<T>(a: seq<T>, b: seq<T>)
    requires Distinct(a) && Distinct(b) && forall x :: x in a ==> x !in b
    ensures Distinct(a + b)
  {
    var c := a + b;
    forall i, j | 0 <= i < j < |c|
      ensures c[i] != c[j]
    {
      if j < |a| {
      } else if i >= |a| {
        assert c[i] == b[i - |a|] && c[j] == b[j - |a|];
      } else {
        assert c[i] in a && c[j] == b[j - |a|];
      }
    }
  }

  lemma PlanOfConcat(b: string, xs: seq<string>, ys: seq<string>, fromPath: string, toPath: string)
    ensures PlanOf(b, xs + ys, fromPath, toPath) == PlanOf(b, xs, fromPath, toPath) + PlanOf(b, ys, fromPath, toPath)
  {
  }

  /** One more listed entry adds its planned copy when it is a file. */
  lemma PlanOfAppend(b: string, es: seq<Entry>, e: Entry, fromPath: string, toPath: string)
    ensures PlanOf(b, FileNames(es + [e]), fromPath, toPath) ==
      PlanOf(b, FileNames(es), fromPath, toPath) + (if e.IsDir() then [] else [PlanFor(b, e.name, fromPath, toPath)])
  {
    FileNamesAppend(es, [e]);
    PlanOfConcat(b, FileNames(es), FileNames([e]), fromPath, toPath);
  }

  /** The files of one listing: directly inside the listed directory, and
      so new to `FS`. */
  lemma ListedFiles(st0: Buckets, fm: Match, V: set<string>, FS: seq<string>, cm: Match)
    requires WellFormed(st0) && fm.bucket in st0 && cm.bucket == fm.bucket
    requires cm.prefix == "" || EndsWithSlash(cm.prefix)
    requires cm.prefix !in V
    requires forall k :: k in FS <==> k in KeysOf(st0, fm.bucket) && !EndsWithSlash(k) && ParentDir(k) in V
    ensures var names := FileNames(ObjectsAt(st0, cm).value);
      Distinct(names) &&
      (forall x :: x in FS ==> x !in names) &&
      forall k :: k in names <==> k in KeysOf(st0, fm.bucket) && !EndsWithSlash(k) && ParentDir(k) == cm.prefix
  {
    var es := ObjectsAt(st0, cm).value;
    ObjectsAtDistinct(st0, cm);
    FileNamesDistinct(es);
    ListingFiles(st0, cm);
    var objs := st0[fm.bucket].objects;
    forall k
      ensures k in FileNames(es) <==> k in KeysOf(st0, fm.bucket) && !EndsWithSlash(k) && ParentDir(k) == cm.prefix
    {
      if k in objs {
        FileInParent(cm.prefix, k);
      }
    }
  }

  /** One listing takes the walk one directory further. */
  lemma CopyWalkStep(st0: Buckets, fromPath: string, toPath: string, fm: Match,
                     queue: seq<string>, Q: seq<string>, V: set<string>, FS: seq<string>, plan: seq<Planned>,
                     cm: Match)
    requires WellFormed(st0) && fm.bucket in st0 && BucketShaped(fm.bucket)
    requires CopyWalk(st0, fromPath, toPath, fm, queue, Q, V, FS, plan) && queue != []
    requires cm == Match(queue[0], fm.bucket, Q[0], "")
    ensures var es := ObjectsAt(st0, cm).value;
      var files, C := FileNames(es), DirNames(es);
      CopyWalk(st0, fromPath, toPath, fm, queue[1..] + DirPaths(fm.bucket, C), Q[1..] + C, V + {Q[0]},
               FS + files, plan + PlanOf(fm.bucket, files, fromPath, toPath)) &&
      Dirs(KeysOf(st0, fm.bucket), fm.prefix) - (V + {Q[0]}) < Dirs(KeysOf(st0, fm.bucket), fm.prefix) - V &&
      (C == [] <==> Leaf(KeysOf(st0, fm.bucket), Q[0]))
  {
    WalkQueuedStep(st0, fm, queue, Q, V, cm);
    WalkPlannedStep(st0, fromPath, toPath, fm, V, FS, plan, cm);
  }

  lemma WalkQueuedStep(st0: Buckets, fm: Match, queue: seq<string>, Q: seq<string>, V: set<string>, cm: Match)
    requires WellFormed(st0) && fm.bucket in st0 && BucketShaped(fm.bucket)
    requires WalkQueued(st0, fm, queue, Q, V) && queue != []
    requires cm == Match(queue[0], fm.bucket, Q[0], "")
    ensures var C := DirNames(ObjectsAt(st0, cm).value);
      WalkQueued(st0, fm, queue[1..] + DirPaths(fm.bucket, C), Q[1..] + C, V + {Q[0]}) &&
      Dirs(KeysOf(st0, fm.bucket), fm.prefix) - (V + {Q[0]}) < Dirs(KeysOf(st0, fm.bucket), fm.prefix) - V &&
      (C == [] <==> Leaf(KeysOf(st0, fm.bucket), Q[0]))
  {
    var C := DirNames(ObjectsAt(st0, cm).value);
    WalkQueue(st0, fm.bucket, fm.prefix, V, Q, cm);
    ListingDirs(st0, cm);
    QueueShapeStep(queue, Q, fm.bucket, C);
  }

  lemma WalkPlannedStep(st0: Buckets, fromPath: string, toPath: string, fm: Match,
                        V: set<string>, FS: seq<string>, plan: seq<Planned>, cm: Match)
    requires WellFormed(st0) && fm.bucket in st0
    requires WalkPlanned(st0, fromPath, toPath, fm, V, FS, plan)
    requires cm.bucket == fm.bucket && (cm.prefix == "" || EndsWithSlash(cm.prefix)) && cm.prefix !in V
    ensures var files := FileNames(ObjectsAt(st0, cm).value);
      WalkPlanned(st0, fromPath, toPath, fm, V + {cm.prefix}, FS + files,
                  plan + PlanOf(fm.bucket, files, fromPath, toPath))
  {
    var files := FileNames(ObjectsAt(st0, cm).value);
    ListedFiles(st0, fm, V, FS, cm);
    DistinctConcat(FS, files);
    PlanOfConcat(fm.bucket, FS, files, fromPath, toPath);
  }

  /** Popping the head and appending the subdirectories keeps each queued
      path the path of its prefix. */
  lemma QueueShapeStep(queue: seq<string>, Q: seq<string>, b: string, C: seq<string>)
    requires |queue| == |Q| && queue != []
    requires forall i :: 0 <= i < |Q| ==> PrefixShaped(Q[i]) && queue[i] == "/" + b + "/" + Q[i]
    requires forall i :: 0 <= i < |C| ==> PrefixShaped(C[i])
    ensures var queue', Q' := queue[1..] + DirPaths(b, C), Q[1..] + C;
      |queue'| == |Q'| &&
      forall i :: 0 <= i < |Q'| ==> PrefixShaped(Q'[i]) && queue'[i] == "/" + b + "/" + Q'[i]
  {
    var queue', Q' := queue[1..] + DirPaths(b, C), Q[1..] + C;
    forall i | 0 <= i < |Q'|
      ensures PrefixShaped(Q'[i]) && queue'[i] == "/" + b + "/" + Q'[i]
    {
      ConcatIndex(queue[1..], DirPaths(b, C), i);
      ConcatIndex(Q[1..], C, i);
    }
  }

  // ---------------------------------------------------------------------------
  // What the walk leaves behind

  /** The copy of the file `k` below the source directory exists at the
      destination prefix followed by the rest of `k`, with the same data and
      metadata. */
  ghost predicate CopiedFile(st0: Buckets, st1: Buckets, fm: Match, tm: Match, k: string)
    requires fm.bucket in st0 && k in st0[fm.bucket].objects && StartsWith(k, fm.prefix)
  {
    var key := tm.prefix + k[|fm.prefix|..];
    tm.bucket in st1 && key in st1[tm.bucket].objects &&
    st1[tm.bucket].objects[key].data == st0[fm.bucket].objects[k].data &&
    st1[tm.bucket].objects[key].metadata == st0[fm.bucket].objects[k].metadata
  }

  /** The whole tree is copied: every file below the source directory, and
      every directory below it holding no subdirectory. */
  ghost predicate TreeCopied(st0: Buckets, st1: Buckets, fm: Match, tm: Match) {
    fm.bucket in st0 &&
    (forall k :: k in st0[fm.bucket].objects && StartsWith(k, fm.prefix) && !EndsWithSlash(k) ==>
      CopiedFile(st0, st1, fm, tm, k)) &&
    (forall d :: d in Dirs(st0[fm.bucket].objects.Keys, fm.prefix) && Leaf(st0[fm.bucket].objects.Keys, d) ==>
      Marked(st1, tm, tm.prefix + d[|fm.prefix|..]))
  }

  /** When the copy of the tree below `fm` to `tm` cannot fail: the source
      bucket exists, every key below the source directory is copyable, and
      so is every directory below it that holds no subdirectory. */
  ghost predicate CopySucceeds(st0: Buckets, fm: Match, tm: Match, fromPath: string) {
    fm.bucket in st0 &&
    (forall k :: KeyCopyable(st0, fm, tm, fromPath, k)) &&
    (forall d :: LeafCopyable(st0, fm, tm, d))
  }

  /** A key `k` below the source directory: `from_path` does not recur in
      its rest, and when it is a file its last segment has two characters or
      more (a shorter one parses as a directory, which `cp` without
      recursion refuses) and its copy's key is one the store accepts. */
  ghost predicate KeyCopyable(st0: Buckets, fm: Match, tm: Match, fromPath: string, k: string)
    requires fm.bucket in st0
  {
    k in st0[fm.bucket].objects && StartsWith(k, fm.prefix) ==>
      NoOccurrence(k[|fm.prefix|..], fromPath) &&
      (!EndsWithSlash(k) ==> |k[|ParentDir(k)|..]| >= 2 && ValidKey(tm.prefix + k[|fm.prefix|..]))
  }

  /** The copy of a directory `d` below the source directory that holds no
      subdirectory is the destination bucket or has a key the store
      accepts. */
  ghost predicate LeafCopyable(st0: Buckets, fm: Match, tm: Match, d: string)
    requires fm.bucket in st0
  {
    d in Dirs(st0[fm.bucket].objects.Keys, fm.prefix) && StartsWith(d, fm.prefix) &&
      Leaf(st0[fm.bucket].objects.Keys, d) ==>
      tm.prefix + d[|fm.prefix|..] == "" || ValidKey(tm.prefix + d[|fm.prefix|..])
  }

  lemma SucceedsUnrepeated(st0: Buckets, fm: Match, tm: Match, fromPath: string)
    requires CopySucceeds(st0, fm, tm, fromPath)
    ensures Unrepeated(st0, fm, fromPath)
  {
    forall k | k in st0[fm.bucket].objects && StartsWith(k, fm.prefix)
      ensures NoOccurrence(k[|fm.prefix|..], fromPath)
    {
      assert KeyCopyable(st0, fm, tm, fromPath, k);
    }
  }

  /** What `copy_recursively(from_path, to_path)` promises, from `st0` to
      `st1` with outcome `r`: it writes only below the destination; a
      missing source bucket fails with NoSuchBucket before anything is
      written; a success copies the tree, provided `from_path` recurs in no
      copied path (otherwise `replace` rewrites the destination keys); and
      under `CopySucceeds` it does succeed. */
  ghost predicate CopyPromise(st0: Buckets, st1: Buckets, r: Result<(), Error>, fromPath: string, toPath: string)
    requires CopyableTree(fromPath, toPath)
  {
    var fm, tm := Parse(fromPath).value, Parse(toPath).value;
    OnlyBelow(st0, st1, tm.bucket, tm.prefix) &&
    (fm.bucket !in st0 ==> r == Err(StoreFailure(NoSuchBucket)) && st1 == st0) &&
    (r.Ok? && Unrepeated(st0, fm, fromPath) ==> TreeCopied(st0, st1, fm, tm)) &&
    (CopySucceeds(st0, fm, tm, fromPath) ==> r.Ok?)
  }

  /** While the destination is written, the listings of the source stay
      those of `st0`. */
  lemma ListingSame(st0: Buckets, cur: Buckets, fm: Match, tm: Match, cm: Match)
    requires fm.bucket in st0 && OnlyBelow(st0, cur, tm.bucket, tm.prefix) && Apart(fm, tm)
    requires cm.bucket == fm.bucket && StartsWith(cm.prefix, fm.prefix)
    ensures fm.bucket in cur && ObjectsAt(cur, cm) == ObjectsAt(st0, cm)
  {
    var b := fm.bucket;
    var o0, o1 := st0[b].objects, cur[b].objects;
    forall k | k in o0 && StartsWith(k, cm.prefix) && k != cm.prefix
      ensures k in o1 && o1[k] == o0[k]
    {
      StartsWithTrans(k, cm.prefix, fm.prefix);
      OutsideDestination(fm, tm, k);
      OnlyBelowOutside(st0, cur, tm.bucket, tm.prefix, b, k);
    }
    forall k | k in o1 && StartsWith(k, cm.prefix) && k != cm.prefix
      ensures k in o0
    {
      StartsWithTrans(k, cm.prefix, fm.prefix);
      OutsideDestination(fm, tm, k);
      OnlyBelowInside(st0, cur, tm.bucket, tm.prefix, b, k);
    }
    ListingLocal(st0, cur, b, cm.prefix);
  }

  /** The rest of a directory of the walk below the source directory holds
      no occurrence of `from_path` when no copied path does. */
  lemma UnrepeatedDir(st0: Buckets, fm: Match, fromPath: string, d: string)
    requires Unrepeated(st0, fm, fromPath) && fromPath != ""
    requires d in Dirs(KeysOf(st0, fm.bucket), fm.prefix)
    ensures StartsWith(d, fm.prefix) && NoOccurrence(d[|fm.prefix|..], fromPath)
  {
    DirsShape(KeysOf(st0, fm.bucket), fm.prefix, d);
    var rest := d[|fm.prefix|..];
    if d != fm.prefix {
      var k :| k in KeysOf(st0, fm.bucket) && StartsWith(k, d);
      StartsWithTrans(k, d, fm.prefix);
      var krest := k[|fm.prefix|..];
      assert krest[..|rest|] == rest;
      forall i: nat
        ensures !OccursAt(rest, fromPath, i)
      {
        OccursInLonger(rest, krest, fromPath, i);
      }
    }
  }

  /** An occurrence in a leading part is an occurrence in the whole. */
  lemma OccursInLonger(s: string, t: string, pat: string, i: nat)
    requires StartsWith(t, s)
    ensures OccursAt(s, pat, i) ==> OccursAt(t, pat, i)
  {
    if OccursAt(s, pat, i) {
      assert t[i..i + |pat|] == s[i..i + |pat|];
    }
  }

  /** The tail of a directory below a directory prefix is a directory
      prefix. */
  lemma PrefixTail(d: string, p: string)
    requires PrefixShaped(d) && StartsWith(d, p) && (p == "" || EndsWithSlash(p))
    ensures PrefixShaped(d[|p|..])
  {
    var rest := d[|p|..];
    if rest != "" {
      KeyTail(d, p);
      assert rest[|rest| - 1] == d[|d| - 1];
    }
  }

  /** The directory `mkdirs` makes for a directory `d` of the walk is the
      destination followed by a tail `x`; when the source path recurs
      nowhere, `x` is the rest of `d` below the source directory. */
  lemma MkdirsTarget(st0: Buckets, fromPath: string, toPath: string, fm: Match, tm: Match, d: string)
    returns (x: string)
    requires CopyableTree(fromPath, toPath) && Parse(fromPath) == Some(fm) && Parse(toPath) == Some(tm)
    requires d in Dirs(KeysOf(st0, fm.bucket), fm.prefix) && PrefixShaped(d) && StartsWith(d, fm.prefix)
    ensures PlanFor(fm.bucket, d, fromPath, toPath).target == "/" + tm.bucket + "/" + tm.prefix + x
    ensures BucketShaped(tm.bucket) && PrefixShaped(tm.prefix) && RegionTail(x)
    ensures Unrepeated(st0, fm, fromPath) ==> x == d[|fm.prefix|..] && PrefixShaped(x)
  {
    DirPathShape(toPath, tm);
    DirPathShape(fromPath, fm);
    DirsShape(KeysOf(st0, fm.bucket), fm.prefix, d);
    x := TargetOf(fromPath, toPath, fm, tm, d);
    if Unrepeated(st0, fm, fromPath) {
      UnrepeatedDir(st0, fm, fromPath, d);
      PrefixTail(d, fm.prefix);
    }
  }

  /** `mkdirs` of the destination followed by `x` writes only below the
      destination, and when it succeeds the directory is there. */
  lemma MkdirsLeaf(st0: Buckets, cur: Buckets, now: nat, tm: Match, x: string)
    requires BucketShaped(tm.bucket) && PrefixShaped(tm.prefix) && RegionTail(x)
    requires OnlyBelow(st0, cur, tm.bucket, tm.prefix)
    ensures var w := MkdirsOf(cur, now, "/" + tm.bucket + "/" + tm.prefix + x);
      OnlyBelow(cur, w.buckets, tm.bucket, tm.prefix) &&
      OnlyBelow(st0, w.buckets, tm.bucket, tm.prefix) &&
      (w.result.Ok? ==> tm.bucket in w.buckets) &&
      (PrefixShaped(x) && w.result.Ok? ==> Marked(w.buckets, tm, tm.prefix + x))
  {
    var w := MkdirsOf(cur, now, "/" + tm.bucket + "/" + tm.prefix + x);
    MkdirsBelow(cur, now, tm.bucket, tm.prefix, x);
    MkdirsBucket(cur, now, tm.bucket, tm.prefix, x);
    OnlyBelowTrans(st0, cur, w.buckets, tm.bucket, tm.prefix);
    if PrefixShaped(x) {
      MkdirsLeafMarks(cur, now, tm, x);
    }
  }

  /** `mkdirs` below the destination that succeeds leaves the destination
      bucket. */
  lemma MkdirsBucket(st: Buckets, now: nat, tb: string, tp: string, y: string)
    requires BucketShaped(tb) && PrefixShaped(tp) && RegionTail(y)
    ensures var w := MkdirsOf(st, now, "/" + tb + "/" + tp + y);
      w.result.Ok? ==> tb in w.buckets
  {
    var path := "/" + tb + "/" + tp + y;
    var m := MatchBelow(tb, tp, y);
    if ValidateDirectory(path).Ok? && !m.IsRoot() {
      assert MkdirsOf(st, now, path) == MakeDirectory(st, now, m);
      MakeDirectoryMarks(st, now, m);
    }
  }

  /** `mkdirs` of the copy of a leaf succeeds when its marker is one the
      store accepts or it is the bucket itself. */
  lemma MkdirsLeafSucceeds(cur: Buckets, now: nat, tm: Match, x: string)
    requires BucketShaped(tm.bucket) && PrefixShaped(tm.prefix) && PrefixShaped(x)
    requires tm.prefix + x == "" || ValidKey(tm.prefix + x)
    ensures MkdirsOf(cur, now, "/" + tm.bucket + "/" + tm.prefix + x).result.Ok?
  {
    PrefixJoin(tm.prefix, x);
    assert "/" + tm.bucket + "/" + tm.prefix + x == "/" + tm.bucket + "/" + (tm.prefix + x);
    MkdirsValid(cur, now, tm.bucket, tm.prefix + x);
  }

  lemma MkdirsValid(st: Buckets, now: nat, b: string, q: string)
    requires BucketShaped(b) && PrefixShaped(q) && (q == "" || ValidKey(q))
    ensures MkdirsOf(st, now, "/" + b + "/" + q).result.Ok?
  {
    var s := "/" + b + "/" + q;
    ParseCanonical(b, q, "");
    assert s + "" == s;
    var m := Match(s, b, q, "");
    MkdirsOfDirectory(st, now, s, m);
    MakeDirectoryValid(st, now, m);
  }

  lemma MakeDirectoryValid(st: Buckets, now: nat, m: Match)
    requires m.bucket != "" && m.filename == "" && (m.prefix == "" || ValidKey(m.prefix))
    ensures MakeDirectory(st, now, m).result.Ok?
  {
  }

  /** Under `CopySucceeds`, once the destination bucket exists, `cp` of a
      planned file succeeds: the source still holds the file, it reads as a
      file, and its copy goes to a valid key apart from it. */
  lemma CpPlannedSucceeds(st0: Buckets, cur: Buckets, now: nat, fromPath: string, toPath: string,
                          fm: Match, tm: Match, k: string)
    requires CopyableTree(fromPath, toPath) && Parse(fromPath) == Some(fm) && Parse(toPath) == Some(tm)
    requires WellFormed(st0) && CopySucceeds(st0, fm, tm, fromPath) && k in st0[fm.bucket].objects
    requires StartsWith(k, fm.prefix) && !EndsWithSlash(k)
    requires OnlyBelow(st0, cur, tm.bucket, tm.prefix) && tm.bucket in cur
    ensures var pl := PlanFor(fm.bucket, k, fromPath, toPath);
      CpOf(cur, now, pl.source, pl.target).result.Ok?
  {
    assert KeyCopyable(st0, fm, tm, fromPath, k);
    OnlyBelowOutsideSource(st0, cur, fm, tm, k);
    CpFileSucceeds(cur, now, fromPath, toPath, fm, tm, k);
  }

  /** The source file is still in place while the destination is written. */
  lemma OnlyBelowOutsideSource(st0: Buckets, cur: Buckets, fm: Match, tm: Match, k: string)
    requires Apart(fm, tm) && StartsWith(k, fm.prefix)
    requires OnlyBelow(st0, cur, tm.bucket, tm.prefix) && fm.bucket in st0 && k in st0[fm.bucket].objects
    ensures fm.bucket in cur && k in cur[fm.bucket].objects
  {
    OutsideDestination(fm, tm, k);
    OnlyBelowOutside(st0, cur, tm.bucket, tm.prefix, fm.bucket, k);
  }

  /** `cp` of a planned file succeeds when the file is in place, reads as a
      file, and its rest below the source, put below the destination, is a
      key the store accepts. */
  lemma CpFileSucceeds(cur: Buckets, now: nat, fromPath: string, toPath: string,
                       fm: Match, tm: Match, k: string)
    requires CopyableTree(fromPath, toPath) && Parse(fromPath) == Some(fm) && Parse(toPath) == Some(tm)
    requires ValidKey(k) && StartsWith(k, fm.prefix) && !EndsWithSlash(k)
    requires fm.bucket in cur && k in cur[fm.bucket].objects && tm.bucket in cur
    requires |k[|ParentDir(k)|..]| >= 2 && ValidKey(tm.prefix + k[|fm.prefix|..])
    requires NoOccurrence(k[|fm.prefix|..], fromPath)
    ensures var pl := PlanFor(fm.bucket, k, fromPath, toPath);
      CpOf(cur, now, pl.source, pl.target).result.Ok?
  {
    DirPathShape(fromPath, fm);
    var km := SourceOf(fm.bucket, k);
    var pl := PlanFor(fm.bucket, k, fromPath, toPath);
    var x := TargetOf(fromPath, toPath, fm, tm, k);
    LastSegmentOfRest(k, fm.prefix);
    var dm := DestinationBelow(cur, pl.source, km, toPath, tm, x);
    assert dm.RelativePath() == tm.prefix + x;
    CpFileIs(cur, now, pl.source, pl.target, km, dm);
    ExtendedPrefix(tm.prefix, x);
    OutsideDestination(fm, tm, k);
    CopyFileSucceeds(cur, now, km, dm);
  }

  /** `copy_object` succeeds from a key that holds an object to a valid
      other key in an existing bucket. */
  lemma CopyFileSucceeds(st: Buckets, now: nat, km: Match, dm: Match)
    requires km.bucket in st && km.RelativePath() in st[km.bucket].objects
    requires dm.bucket in st && ValidKey(dm.RelativePath())
    requires dm.bucket != km.bucket || dm.RelativePath() != km.RelativePath()
    ensures CopyFileOf(st, now, km, dm).result.Ok?
  {
  }

  /** `mkdirs` of the copy of the directory `d` of the walk: its target is
      the destination followed by the rest of `d`; it writes only below the
      destination; when it succeeds the destination bucket exists and, when
      `from_path` recurs nowhere, the copy of `d` is marked; and under
      `CopySucceeds` it succeeds on a leaf. */
  lemma LeafMkdirs(st0: Buckets, cur: Buckets, now: nat, fromPath: string, toPath: string,
                   fm: Match, tm: Match, d: string) returns (x: string)
    requires CopyableTree(fromPath, toPath) && Parse(fromPath) == Some(fm) && Parse(toPath) == Some(tm)
    requires d in Dirs(KeysOf(st0, fm.bucket), fm.prefix) && PrefixShaped(d) && StartsWith(d, fm.prefix)
    requires OnlyBelow(st0, cur, tm.bucket, tm.prefix)
    ensures PlanFor(fm.bucket, d, fromPath, toPath).target == "/" + tm.bucket + "/" + tm.prefix + x
    ensures var w := MkdirsOf(cur, now, "/" + tm.bucket + "/" + tm.prefix + x);
      OnlyBelow(cur, w.buckets, tm.bucket, tm.prefix) && OnlyBelow(st0, w.buckets, tm.bucket, tm.prefix) &&
      (w.result.Ok? ==> tm.bucket in w.buckets) &&
      (Unrepeated(st0, fm, fromPath) && w.result.Ok? ==> Marked(w.buckets, tm, tm.prefix + d[|fm.prefix|..])) &&
      (CopySucceeds(st0, fm, tm, fromPath) && Leaf(KeysOf(st0, fm.bucket), d) ==> w.result.Ok?)
  {
    x := MkdirsTarget(st0, fromPath, toPath, fm, tm, d);
    MkdirsLeaf(st0, cur, now, tm, x);
    if CopySucceeds(st0, fm, tm, fromPath) && Leaf(KeysOf(st0, fm.bucket), d) {
      SucceedsUnrepeated(st0, fm, tm, fromPath);
      assert LeafCopyable(st0, fm, tm, d);
      MkdirsLeafSucceeds(cur, now, tm, x);
    }
  }

  lemma MkdirsLeafMarks(cur: Buckets, now: nat, tm: Match, x: string)
    requires BucketShaped(tm.bucket) && PrefixShaped(tm.prefix) && PrefixShaped(x)
    ensures var w := MkdirsOf(cur, now, "/" + tm.bucket + "/" + tm.prefix + x);
      w.result.Ok? ==> Marked(w.buckets, tm, tm.prefix + x)
  {
    PrefixJoin(tm.prefix, x);
    assert "/" + tm.bucket + "/" + tm.prefix + x == "/" + tm.bucket + "/" + (tm.prefix + x);
    MkdirsMarks(cur, now, tm.bucket, tm.prefix + x);
  }

  /** Marks survive further writes below the destination. */
  lemma LeavesMarkedGrow(st0: Buckets, fm: Match, tm: Match, V: set<string>, cur: Buckets, next: Buckets)
    requires LeavesMarked(st0, fm, tm, V, cur) && OnlyBelow(cur, next, tm.bucket, tm.prefix)
    ensures LeavesMarked(st0, fm, tm, V, next)
  {
    forall d | d in V && StartsWith(d, fm.prefix) && Leaf(KeysOf(st0, fm.bucket), d)
      ensures Marked(next, tm, tm.prefix + d[|fm.prefix|..])
    {
      var key := tm.prefix + d[|fm.prefix|..];
      assert Marked(cur, tm, key);
      if key != "" {
        assert key in cur[tm.bucket].objects.Keys;
      }
    }
  }

  /** Copying the file `FS[i]` keeps the copies of the files before it and
      adds its own. */
  lemma CopyStepKeeps(st0: Buckets, cur: Buckets, now: nat, fm: Match, tm: Match, FS: seq<string>, i: nat)
    requires fm.bucket in st0 && tm.bucket in cur && Distinct(FS) && i < |FS|
    requires forall j :: 0 <= j < |FS| ==> FS[j] in st0[fm.bucket].objects && StartsWith(FS[j], fm.prefix)
    requires forall j :: 0 <= j < i ==> CopiedFile(st0, cur, fm, tm, FS[j])
    requires StartsWith(FS[i], fm.prefix)
    ensures var next := WithObject(cur, tm.bucket, tm.prefix + FS[i][|fm.prefix|..],
                                   st0[fm.bucket].objects[FS[i]].(modified := now));
      forall j :: 0 <= j <= i ==> CopiedFile(st0, next, fm, tm, FS[j])
  {
    var key := tm.prefix + FS[i][|fm.prefix|..];
    var next := WithObject(cur, tm.bucket, key, st0[fm.bucket].objects[FS[i]].(modified := now));
    forall j | 0 <= j <= i
      ensures CopiedFile(st0, next, fm, tm, FS[j])
    {
      if j < i {
        var kj := tm.prefix + FS[j][|fm.prefix|..];
        assert FS[j] != FS[i];
        assert FS[j] == fm.prefix + FS[j][|fm.prefix|..];
        assert FS[i] == fm.prefix + FS[i][|fm.prefix|..];
        assert FS[j][|fm.prefix|..] != FS[i][|fm.prefix|..];
        assert kj[|tm.prefix|..] == FS[j][|fm.prefix|..];
        assert key[|tm.prefix|..] == FS[i][|fm.prefix|..];
        assert kj != key;
        assert CopiedFile(st0, cur, fm, tm, FS[j]);
      }
    }
  }

  /** When the queue is empty and every planned file is copied, the tree is
      copied. */
  lemma CopyDone(st0: Buckets, st1: Buckets, fromPath: string, toPath: string, fm: Match, tm: Match,
                 V: set<string>, FS: seq<string>, plan: seq<Planned>)
    requires WellFormed(st0) && fm.bucket in st0 && (fm.prefix == "" || EndsWithSlash(fm.prefix))
    requires V == Dirs(KeysOf(st0, fm.bucket), fm.prefix)
    requires WalkPlanned(st0, fromPath, toPath, fm, V, FS, plan)
    requires LeavesMarked(st0, fm, tm, V, st1)
    requires forall j :: 0 <= j < |FS| ==> StartsWith(FS[j], fm.prefix) && CopiedFile(st0, st1, fm, tm, FS[j])
    ensures TreeCopied(st0, st1, fm, tm)
  {
    var ks := st0[fm.bucket].objects.Keys;
    forall k | k in st0[fm.bucket].objects && StartsWith(k, fm.prefix) && !EndsWithSlash(k)
      ensures CopiedFile(st0, st1, fm, tm, k)
    {
      assert k != fm.prefix by {
        assert ValidKey(k);
      }
      ParentInDirs(ks, fm.prefix, k);
      assert k in FS;
      var j :| 0 <= j < |FS| && FS[j] == k;
    }
    forall d | d in Dirs(ks, fm.prefix) && Leaf(ks, d)
      ensures Marked(st1, tm, tm.prefix + d[|fm.prefix|..])
    {
      DirsShape(ks, fm.prefix, d);
    }
  }

  /** A listing taken while the destination is written is the listing of
      `st0`. */
  lemma ListingAt(st0: Buckets, cur: Buckets, fm: Match, tm: Match, cm: Match)
    requires OnlyBelow(st0, cur, tm.bucket, tm.prefix) && Apart(fm, tm)
    requires cm.bucket == fm.bucket && StartsWith(cm.prefix, fm.prefix)
    requires fm.bucket !in st0 ==> cur == st0
    ensures ObjectsAt(cur, cm) == ObjectsAt(st0, cm)
  {
    if fm.bucket in st0 {
      ListingSame(st0, cur, fm, tm, cm);
    }
  }

  /** Once every directory of the walk with no subdirectory has its copy
      made, the destination bucket exists. */
  lemma LeavesMarkedBucket(st0: Buckets, fm: Match, tm: Match, now: Buckets)
    requires fm.bucket in st0
    requires LeavesMarked(st0, fm, tm, Dirs(KeysOf(st0, fm.bucket), fm.prefix), now)
    ensures tm.bucket in now
  {
    var l := LeafBelow(KeysOf(st0, fm.bucket), fm.prefix, fm.prefix);
    DirsShape(KeysOf(st0, fm.bucket), fm.prefix, l);
  }

  /** Visiting `d` keeps the visited leaves marked once `d` is marked when it
      is a leaf. */
  lemma LeavesMarkedVisit(st0: Buckets, fm: Match, tm: Match, V: set<string>, now: Buckets, d: string)
    requires LeavesMarked(st0, fm, tm, V, now)
    requires StartsWith(d, fm.prefix) && Leaf(KeysOf(st0, fm.bucket), d) ==> Marked(now, tm, tm.prefix + d[|fm.prefix|..])
    ensures LeavesMarked(st0, fm, tm, V + {d}, now)
  {
  }

  /** The files of the plan are keys of the source below the source
      directory that do not end in '/'. */
  lemma PlannedFiles(st0: Buckets, fromPath: string, toPath: string, fm: Match,
                     V: set<string>, FS: seq<string>, plan: seq<Planned>)
    requires fm.bucket in st0 && V <= Dirs(KeysOf(st0, fm.bucket), fm.prefix)
    requires WalkPlanned(st0, fromPath, toPath, fm, V, FS, plan)
    ensures |plan| == |FS|
    ensures forall j :: 0 <= j < |FS| ==>
      FS[j] in st0[fm.bucket].objects && StartsWith(FS[j], fm.prefix) && !EndsWithSlash(FS[j]) &&
      plan[j] == PlanFor(fm.bucket, FS[j], fromPath, toPath)
  {
    forall j | 0 <= j < |FS|
      ensures FS[j] in st0[fm.bucket].objects && StartsWith(FS[j], fm.prefix) && !EndsWithSlash(FS[j])
    {
      assert FS[j] in FS;
      var d := ParentDir(FS[j]);
      DirsShape(KeysOf(st0, fm.bucket), fm.prefix, d);
      StartsWithTrans(FS[j], d, fm.prefix);
    }
  }

  // ---------------------------------------------------------------------------
  // cp and mv

  /** `cp` hands a directory to `copy_recursively`: the destination is known
      and the source is a directory. */
  ghost predicate TreeSource(st: Buckets, fromPath: string, toPath: string) {
    GetDestination(st, fromPath, toPath).Ok? && Parse(fromPath).value.IsDir()
  }

  /** `cp` without recursion: ValueError when there is no destination or
      the source is a directory, otherwise `copy_object`. */
  function CpOf(st: Buckets, now: nat, fromPath: string, toPath: string): (r: Written)
    ensures r.result.Err? ==> r.buckets == st && r.clock == now
    ensures GetDestination(st, fromPath, toPath).Err? ==> r.result == Err(ValueError)
    ensures Parse(fromPath).Some? && Parse(fromPath).value.IsDir() ==> r.result == Err(ValueError)
    ensures Parse(fromPath).Some? && Parse(fromPath).value.IsFile() ==> r == CpFileOf(st, now, fromPath, toPath)
  {
    match GetDestination(st, fromPath, toPath)
    case Err(e) => Written(Err(e), st, now)
    case Ok(tm) =>
      if Parse(fromPath).value.IsDir() then Written(Err(ValueError), st, now)
      else CopyFileOf(st, now, Parse(fromPath).value, tm)
  }

  /** `mv` when `cp` does not recurse: the destination first, then `cp`, then
      the `finally` clause. */
  ghost function MvOf(st: Buckets, now: nat, fromPath: string, toPath: string, recursive: bool): (r: Written)
    ensures GetDestination(st, fromPath, toPath).Err? ==> r == Written(Err(ValueError), st, now)
    ensures Parse(fromPath).Some? && Parse(fromPath).value.IsFile() ==> r == MvFileOf(st, now, fromPath, toPath, recursive)
  {
    match GetDestination(st, fromPath, toPath)
    case Err(e) => Written(Err(e), st, now)
    case Ok(tm) => MvFinally(CpOf(st, now, fromPath, toPath), fromPath, tm, recursive)
  }

  /** Non-recursive `cp` of a planned file writes only below the
      destination; when it succeeds and the source path does not recur in
      the rest of the key, it puts the file's object at the destination
      prefix followed by that rest. */
  lemma CpOfPlanned(st0: Buckets, cur: Buckets, now: nat, fromPath: string, toPath: string,
                    fm: Match, tm: Match, k: string)
    requires CopyableTree(fromPath, toPath) && Parse(fromPath) == Some(fm) && Parse(toPath) == Some(tm)
    requires WellFormed(st0) && fm.bucket in st0 && k in st0[fm.bucket].objects
    requires StartsWith(k, fm.prefix) && !EndsWithSlash(k)
    requires OnlyBelow(st0, cur, tm.bucket, tm.prefix)
    ensures var pl := PlanFor(fm.bucket, k, fromPath, toPath);
      var w := CpOf(cur, now, pl.source, pl.target);
      OnlyBelow(cur, w.buckets, tm.bucket, tm.prefix) &&
      (NoOccurrence(k[|fm.prefix|..], fromPath) && w.result.Ok? ==>
        tm.bucket in cur &&
        w.buckets == WithObject(cur, tm.bucket, tm.prefix + k[|fm.prefix|..],
                                st0[fm.bucket].objects[k].(modified := now)))
  {
    CpPlanned(st0, cur, now, fromPath, toPath, fm, tm, k);
  }

  /** One `cp` of the plan writes only below the destination; when it
      succeeds and the source path recurs nowhere, it adds the copy of its
      file and keeps the earlier copies and marks. */
  lemma PlanStep(st0: Buckets, cur: Buckets, now: nat, st1: Buckets, e: Result<(), Error>,
                 fromPath: string, fm: Match, tm: Match, V: set<string>, FS: seq<string>, i: nat)
    requires fm.bucket in st0 && Distinct(FS) && i < |FS|
    requires forall j :: 0 <= j < |FS| ==> FS[j] in st0[fm.bucket].objects && StartsWith(FS[j], fm.prefix)
    requires OnlyBelow(st0, cur, tm.bucket, tm.prefix) && OnlyBelow(cur, st1, tm.bucket, tm.prefix)
    requires StartsWith(FS[i], fm.prefix)
    requires NoOccurrence(FS[i][|fm.prefix|..], fromPath) && e.Ok? ==>
      tm.bucket in cur &&
      st1 == WithObject(cur, tm.bucket, tm.prefix + FS[i][|fm.prefix|..], st0[fm.bucket].objects[FS[i]].(modified := now))
    requires Unrepeated(st0, fm, fromPath) ==>
      LeavesMarked(st0, fm, tm, V, cur) && forall j :: 0 <= j < i ==> CopiedFile(st0, cur, fm, tm, FS[j])
    ensures OnlyBelow(st0, st1, tm.bucket, tm.prefix)
    ensures e.Ok? && Unrepeated(st0, fm, fromPath) ==>
      LeavesMarked(st0, fm, tm, V, st1) && forall j :: 0 <= j <= i ==> CopiedFile(st0, st1, fm, tm, FS[j])
  {
    OnlyBelowTrans(st0, cur, st1, tm.bucket, tm.prefix);
    if e.Ok? && Unrepeated(st0, fm, fromPath) {
      assert FS[i] in st0[fm.bucket].objects;
      CopyStepKeeps(st0, cur, now, fm, tm, FS, i);
      LeavesMarkedGrow(st0, fm, tm, V, cur, st1);
    }
  }
}
