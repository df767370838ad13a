// The `Pyminio` engine (pyminio/main.py): an os-like cover over a MinIO
// client.  The client is the `Store` of module ObjectStore; each method here
// performs the client calls pyminio performs, in the same order, and is
// proved to leave the store as the functions of modules Engine and Removal
// describe.
module Operations {
  import opened Text
  import opened Wrappers
  import opened Structures
  import opened ObjectStore
  import opened Engine
  import opened Traversal
  import opened Removal
  import opened Writes
  import opened Copying

  /** The split of one listing in `rmdir`: the keys of the file entries, and
      the paths "/bucket/name" of the directory entries, both in listing
      order. */
  method Partition(bucket: string, es: seq<Entry>) returns (files: seq<string>, dirs: seq<string>)
    ensures files == FileNames(es)
    ensures dirs == DirPaths(bucket, DirNames(es))
  {
    files, dirs := [], [];
    var i := 0;
    while i < |es|
      invariant 0 <= i <= |es|
      invariant files == FileNames(es[..i])
      invariant dirs == DirPaths(bucket, DirNames(es[..i]))
    {
      var e := es[i];
      FileNamesStep(es, i);
      DirPathsStep(bucket, es, i);
      if e.IsDir() {
        dirs := dirs + ["/" + bucket + "/" + e.name];
      } else {
        files := files + [e.name];
      }
      i := i + 1;
    }
    assert es[..i] == es;
  }

  /** The split of one listing in `copy_recursively`: a planned copy for
      each file entry, and the paths "/bucket/name" of the directory entries,
      both in listing order. */
  method Gather(bucket: string, es: seq<Entry>, fromPath: string, toPath: string)
    returns (plan: seq<Planned>, dirs: seq<string>)
    ensures plan == PlanOf(bucket, FileNames(es), fromPath, toPath)
    ensures dirs == DirPaths(bucket, DirNames(es))
  {
    plan, dirs := [], [];
    var i := 0;
    while i < |es|
      invariant 0 <= i <= |es|
      invariant plan == PlanOf(bucket, FileNames(es[..i]), fromPath, toPath)
      invariant dirs == DirPaths(bucket, DirNames(es[..i]))
    {
      var e := es[i];
      assert es[..i + 1] == es[..i] + [e];
      PlanOfAppend(bucket, es[..i], e, fromPath, toPath);
      DirPathsStep(bucket, es, i);
      if e.IsDir() {
        dirs := dirs + ["/" + bucket + "/" + e.name];
      } else {
        plan := plan + [PlanFor(bucket, e.name, fromPath, toPath)];
      }
      i := i + 1;
    }
    assert es[..i] == es;
  }

  /** One more entry adds its key to the file names when it is a file. */
  lemma FileNamesStep(es: seq<Entry>, i: nat)
    requires i < |es|
    ensures FileNames(es[..i + 1]) == FileNames(es[..i]) + (if es[i].IsDir() then [] else [es[i].name])
  {
    assert es[..i + 1] == es[..i] + [es[i]];
    FileNamesAppend(es[..i], [es[i]]);
  }

  /** One more entry adds its path to the directory paths when it is a
      directory. */
  lemma DirPathsStep(bucket: string, es: seq<Entry>, i: nat)
    requires i < |es|
    ensures DirPaths(bucket, DirNames(es[..i + 1])) ==
      DirPaths(bucket, DirNames(es[..i])) + (if es[i].IsDir() then ["/" + bucket + "/" + es[i].name] else [])
  {
    assert es[..i + 1] == es[..i] + [es[i]];
    DirNamesAppend(es[..i], [es[i]]);
  }

  class Pyminio {
    /** The MinIO client every operation goes through. */
    const minio: Store

    constructor (minio: Store)
      ensures this.minio == minio
    {
      this.minio := minio;
    }

    /** `truncate`: a recursive `rmdir` of every bucket `listdir("/")`
        shows, newest first, stopping at the first error. */
    method Truncate() returns (r: Result<(), Error>)
      requires minio.Valid()
      modifies minio
      ensures minio.Valid() && minio.clock == old(minio.clock)
      ensures Outcome(r, minio.buckets) == TruncateOf(old(minio.buckets), CreationOrder(old(minio.buckets)))
      decreases 1
    {
      ghost var st0 := minio.buckets;
      ghost var bs := CreationOrder(st0);
      RootNames(minio.buckets);
      var names := Listdir(minio.buckets, Root, false, false).value;
      assert bs[0..] == bs;
      var i := 0;
      while i < |names|
        invariant 0 <= i <= |names|
        invariant minio.Valid() && minio.clock == old(minio.clock)
        invariant TruncateOf(st0, bs) == TruncateOf(minio.buckets, bs[i..])
      {
        BucketPath(bs[i]);
        TruncateStep(minio.buckets, bs, i);
        r := Rmdir(PosixJoin(Root, names[i]), true);
        if r.Err? {
          return;
        }
        i := i + 1;
      }
      return Ok(());
    }

    /** `mkdirs(path)`: like `mkdir -p`; the bucket is made when
        `bucket_exists` says it is missing, and a directory below it gets an
        empty object at its prefix. */
    method Mkdirs(path: string) returns (r: Result<(), Error>)
      requires minio.Valid()
      modifies minio
      ensures minio.Valid()
      ensures Written(r, minio.buckets, minio.clock) == MkdirsOf(old(minio.buckets), old(minio.clock), path)
    {
      var v := ValidateDirectory(path);
      if v.Err? {
        return Err(v.error);
      }
      var m := v.value;
      if m.IsRoot() {
        return Err(ValueError);
      }
      ghost var st0, now0 := minio.buckets, minio.clock;
      assert MkdirsOf(st0, now0, path) == MakeDirectory(st0, now0, m);
      MkdirsShape(path, m);
      r := CreateDirectory(m);
    }

    /** The store calls of `mkdirs` for a directory below the root. */
    method CreateDirectory(m: Match) returns (r: Result<(), Error>)
      requires minio.Valid() && ValidBucketName(m.bucket)
      modifies minio
      ensures minio.Valid()
      ensures Written(r, minio.buckets, minio.clock) == MakeDirectory(old(minio.buckets), old(minio.clock), m)
    {
      if !BucketExists(minio.buckets, m.bucket) {
        var _ := minio.MakeBucket(m.bucket);
      }
      if m.IsBucket() {
        return Ok(());
      }
      var e := minio.PutObject(m.bucket, m.prefix, [], []);
      if e.Err? {
        return Err(StoreFailure(e.error));
      }
      return Ok(());
    }

    /** `put_data(path, data, metadata)`: one `put_object` at the path's
        key. */
    method PutData(path: string, data: seq<byte>, metadata: seq<(string, string)>) returns (r: Result<(), Error>)
      requires minio.Valid()
      modifies minio
      ensures minio.Valid()
      ensures Written(r, minio.buckets, minio.clock) ==
        PutDataOf(old(minio.buckets), old(minio.clock), path, data, metadata)
    {
      var p := Parse(path);
      if p.None? {
        return Err(ValueError);
      }
      var m := p.value;
      var e := minio.PutObject(m.bucket, m.RelativePath(), data, metadata);
      if e.Err? {
        return Err(StoreFailure(e.error));
      }
      return Ok(());
    }

    /** `put_file(file_path, to_path, metadata)`: the destination, then one
        `fput_object` of the local file's bytes, `contents`. */
    method PutFile(filePath: string, toPath: string, contents: seq<byte>, metadata: seq<(string, string)>)
      returns (r: Result<(), Error>)
      requires minio.Valid()
      modifies minio
      ensures minio.Valid()
      ensures Written(r, minio.buckets, minio.clock) ==
        PutFileOf(old(minio.buckets), old(minio.clock), filePath, toPath, contents, metadata)
    {
      var d := PutFileDestination(toPath, filePath);
      if d.Err? {
        return Err(d.error);
      }
      var m := d.value;
      PutFileDestinationParses(toPath, filePath, m);
      var e := minio.PutObject(m.bucket, m.RelativePath(), contents, metadata);
      if e.Err? {
        return Err(StoreFailure(e.error));
      }
      return Ok(());
    }

    /** `rm(path, recursive)`: `rmdir` for what `isdir` accepts, otherwise
        `remove_object` of the key. */
    method Rm(path: string, recursive: bool) returns (r: Result<(), Error>)
      requires minio.Valid()
      modifies minio
      ensures minio.Valid() && minio.clock == old(minio.clock)
      ensures Outcome(r, minio.buckets) == RmOf(old(minio.buckets), path, recursive)
    {
      var d := Isdir(minio.buckets, path);
      if d.Err? {
        return Err(d.error);
      }
      if d.value {
        r := Rmdir(path, recursive);
        return;
      }
      var m := Parse(path).value;
      var e := minio.RemoveObject(m.bucket, m.RelativePath());
      if e.Err? {
        return Err(StoreFailure(e.error));
      }
      return Ok(());
    }

    /** `rmdir(path, recursive)`: ValueError for a path that is not a
        directory; on the root, `truncate` when recursive and
        DirectoryNotEmptyError otherwise; else the walk, then the bucket
        (DirectoryNotEmptyError when something is left in it) or the
        directory marker is removed. */
    method Rmdir(path: string, recursive: bool) returns (r: Result<(), Error>)
      requires minio.Valid()
      modifies minio
      ensures minio.Valid() && minio.clock == old(minio.clock)
      ensures Outcome(r, minio.buckets) == RmdirOf(old(minio.buckets), path, recursive)
      decreases if Collapse(path) == Root then 2 else 0
    {
      var v := ValidateDirectory(path);
      if v.Err? {
        return Err(ValueError);
      }
      var m := v.value;
      if m.IsRoot() {
        if recursive {
          r := Truncate();
          return;
        }
        return Err(DirectoryNotEmpty);
      }
      ghost var st0 := minio.buckets;
      ParseShape(path, m);
      Classification(path, m);
      RmdirBelowRoot(st0, path, recursive, m);
      r := Walk(path, m, recursive);
      if r.Err? {
        return;
      }
      RmdirAfterWalk(st0, m, recursive);
      if m.IsBucket() {
        var e := minio.RemoveBucket(m.bucket);
        if e.Err? {
          return Err(DirectoryNotEmpty);
        }
      } else {
        var _ := minio.RemoveObject(m.bucket, m.prefix);
      }
      return Ok(());
    }

    /** The breadth-first walk of `rmdir` over the directories below `m`,
        one `Visit` per directory. */
    method Walk(path: string, m: Match, recursive: bool) returns (r: Result<(), Error>)
      requires minio.Valid()
      requires Parse(path) == Some(m) && !m.IsRoot() && m.IsDir()
      modifies minio
      ensures minio.Valid() && minio.clock == old(minio.clock)
      ensures m.bucket !in old(minio.buckets) ==>
        r == Err(StoreFailure(NoSuchBucket)) && minio.buckets == old(minio.buckets)
      ensures m.bucket in old(minio.buckets) && !recursive && HasBelow(old(minio.buckets)[m.bucket].objects, m.prefix) ==>
        r == Err(DirectoryNotEmpty) && minio.buckets == old(minio.buckets)
      ensures m.bucket in old(minio.buckets) && (recursive || !HasBelow(old(minio.buckets)[m.bucket].objects, m.prefix)) ==>
        r == Ok(()) && minio.buckets == Walked(old(minio.buckets), m.bucket, m.prefix)
    {
      ghost var st0 := minio.buckets;
      var b := m.bucket;
      var queue := [path];
      ghost var Q := [m.prefix];
      ghost var V: set<string> := {};
      ghost var first := true;
      WalkInit(st0, path, m, recursive);
      while queue != []
        invariant minio.Valid() && minio.clock == old(minio.clock)
        invariant WalkInv(st0, path, b, m.prefix, recursive, queue, Q, V, first, minio.buckets)
        decreases Dirs(KeysOf(st0, b), m.prefix) - V
      {
        WalkHead(st0, path, b, m.prefix, recursive, queue, Q, V, first, minio.buckets);
        var cm := Parse(queue[0]).value;
        ghost var now := minio.buckets;
        var v := Visit(cm, recursive);
        if v.Err? {
          if b !in now {
            WalkMissing(st0, path, b, m.prefix, recursive, queue, Q, V, first, now);
          } else {
            WalkRefused(st0, path, b, m.prefix, recursive, queue, Q, V, first, now, cm);
          }
          return Err(v.error);
        }
        Q := WalkAdvance(st0, path, b, m.prefix, recursive, queue, Q, V, first, now, cm);
        queue := queue[1..] + v.value;
        V := V + {cm.prefix};
        first := false;
      }
      WalkDone(st0, path, b, m.prefix, recursive, Q, V, first, minio.buckets);
      return Ok(());
    }

    /** One directory of the walk: list it; refuse a non-empty one unless
        recursive; remove its files in one request; and, when it has no
        subdirectory and is not the bucket itself, its marker.  The result is
        the paths of its subdirectories, to be visited next. */
    method Visit(cm: Match, recursive: bool) returns (r: Result<seq<string>, Error>)
      requires minio.Valid()
      requires BucketShaped(cm.bucket) && PrefixShaped(cm.prefix) && cm.filename == ""
      modifies minio
      ensures minio.Valid() && minio.clock == old(minio.clock)
      ensures cm.bucket !in old(minio.buckets) ==>
        r == Err(StoreFailure(NoSuchBucket)) && minio.buckets == old(minio.buckets)
      ensures cm.bucket in old(minio.buckets) ==>
        var es := ObjectsAt(old(minio.buckets), cm).value;
        (es != [] && !recursive ==> r == Err(DirectoryNotEmpty) && minio.buckets == old(minio.buckets)) &&
        (es == [] || recursive ==>
          r == Ok(DirPaths(cm.bucket, DirNames(es))) &&
          minio.buckets == WithoutKeys(old(minio.buckets), cm.bucket, VisitRemoves(es, cm.prefix)))
    {
      var listing := ObjectsAt(minio.buckets, cm);
      if listing.Err? {
        return Err(listing.error);
      }
      var es := listing.value;
      if es != [] && !recursive {
        return Err(DirectoryNotEmpty);
      }
      var files, dirs := Partition(cm.bucket, es);
      assert cm.IsBucket() <==> cm.prefix == "";
      VisitRemovesSplit(es, cm.prefix, files, cm.bucket, dirs);
      Clear(cm.bucket, cm.prefix, files, dirs == [] && !cm.IsBucket());
      return Ok(dirs);
    }

    /** The removals of one visit: the files, in one request when there are
        any, then the directory marker when `leaf` says so. */
    method Clear(b: string, prefix: string, files: seq<string>, leaf: bool)
      requires minio.Valid() && b in minio.buckets
      modifies minio
      ensures minio.Valid() && minio.clock == old(minio.clock)
      ensures minio.buckets == WithoutKeys(old(minio.buckets), b,
        (set k | k in files) + (if leaf then {prefix} else {}))
    {
      ghost var st0 := minio.buckets;
      ghost var removed := set k | k in files;
      if files != [] {
        minio.RemoveObjects(b, files);
      } else {
        assert removed == {};
        WithoutNothing(st0, b);
      }
      if leaf {
        var _ := minio.RemoveObject(b, prefix);
        WithoutKeysTwice(st0, b, removed, {prefix});
      } else {
        assert removed + {} == removed;
      }
    }
  
    /** `copy_recursively(from_path, to_path)`: ValueError for a path that
        is not a directory; otherwise the walk of the source, then a `cp` of
        every file it found. */
    method CopyRecursively(fromPath: string, toPath: string) returns (r: Result<(), Error>)
      requires minio.Valid()
      requires ValidateDirectory(fromPath).Ok? && !ValidateDirectory(fromPath).value.IsRoot() ==>
        CopyableTree(fromPath, toPath)
      modifies minio
      ensures minio.Valid() && minio.clock >= old(minio.clock)
      ensures ValidateDirectory(fromPath).Err? ==> r == Err(ValueError) && minio.buckets == old(minio.buckets)
      ensures ValidateDirectory(fromPath).Ok? && ValidateDirectory(fromPath).value.IsRoot() ==>
        r == Err(StoreFailure(NoSuchBucket)) && minio.buckets == old(minio.buckets)
      ensures ValidateDirectory(fromPath).Ok? && !ValidateDirectory(fromPath).value.IsRoot() ==>
        CopyPromise(old(minio.buckets), minio.buckets, r, fromPath, toPath)
      decreases 2
    {
      var v := ValidateDirectory(fromPath);
      if v.Err? {
        return Err(ValueError);
      }
      var fm := v.value;
      if fm.IsRoot() {
        // The root names no bucket, so the walk's first listing fails.
        RootBucket(fromPath, fm);
        var listing := ObjectsAt(minio.buckets, fm);
        return Err(listing.error);
      }
      ghost var st0 := minio.buckets;
      ghost var tm := Parse(toPath).value;
      var plan;
      ghost var V, FS;
      r, plan, V, FS := PlanTree(fromPath, toPath, fm, tm);
      if r.Err? {
        return;
      }
      r := CopyPlanned(plan, st0, fromPath, toPath, fm, tm, V, FS);
    }

    /** The walk of `copy_recursively`: breadth first from the source
        directory, each directory listed once; the files are planned, and a
        directory with no subdirectory is made at the destination with
        `mkdirs`. */
    method PlanTree(fromPath: string, toPath: string, fm: Match, ghost tm: Match)
      returns (r: Result<(), Error>, plan: seq<Planned>, ghost V: set<string>, ghost FS: seq<string>)
      requires minio.Valid()
      requires CopyableTree(fromPath, toPath) && Parse(fromPath) == Some(fm) && Parse(toPath) == Some(tm)
      modifies minio
      ensures minio.Valid() && minio.clock >= old(minio.clock)
      ensures OnlyBelow(old(minio.buckets), minio.buckets, tm.bucket, tm.prefix)
      ensures fm.bucket !in old(minio.buckets) ==>
        r == Err(StoreFailure(NoSuchBucket)) && minio.buckets == old(minio.buckets)
      ensures r.Ok? ==>
        fm.bucket in old(minio.buckets) && V == Dirs(KeysOf(old(minio.buckets), fm.bucket), fm.prefix) &&
        WalkPlanned(old(minio.buckets), fromPath, toPath, fm, V, FS, plan)
      ensures r.Ok? && Unrepeated(old(minio.buckets), fm, fromPath) ==>
        LeavesMarked(old(minio.buckets), fm, tm, V, minio.buckets)
      ensures CopySucceeds(old(minio.buckets), fm, tm, fromPath) ==> r.Ok? && tm.bucket in minio.buckets
    {
      ghost var st0 := minio.buckets;
      DirPathShape(fromPath, fm);
      CopyWalkInit(st0, fromPath, toPath, fm);
      var queue := [fromPath];
      plan := [];
      ghost var Q := [fm.prefix];
      V, FS := {}, [];
      while queue != []
        invariant minio.Valid() && minio.clock >= old(minio.clock)
        invariant CopyWalk(st0, fromPath, toPath, fm, queue, Q, V, FS, plan)
        invariant OnlyBelow(st0, minio.buckets, tm.bucket, tm.prefix)
        invariant fm.bucket !in st0 ==> minio.buckets == st0
        invariant Unrepeated(st0, fm, fromPath) ==> LeavesMarked(st0, fm, tm, V, minio.buckets)
        decreases Dirs(KeysOf(st0, fm.bucket), fm.prefix) - V
      {
        CopyWalkHead(st0, fromPath, toPath, fm, queue, Q, V, FS, plan);
        var cm := Parse(queue[0]).value;
        ListingAt(st0, minio.buckets, fm, tm, cm);
        var listing := ObjectsAt(minio.buckets, cm);
        if listing.Err? {
          assert fm.bucket !in st0;
          return Err(listing.error), plan, V, FS;
        }
        ghost var es := listing.value;
        var pairs, dirs := Gather(fm.bucket, listing.value, fromPath, toPath);
        CopyWalkStep(st0, fromPath, toPath, fm, queue, Q, V, FS, plan, cm);
        if dirs == [] {
          assert Leaf(KeysOf(st0, fm.bucket), Q[0]);
          ghost var cur := minio.buckets;
          ghost var x := LeafMkdirs(st0, cur, minio.clock, fromPath, toPath, fm, tm, Q[0]);
          var e := Mkdirs(PosixJoin(toPath, RemoveAll(cm.path, fromPath)));
          if e.Err? {
            assert !CopySucceeds(st0, fm, tm, fromPath);
            return e, plan, V, FS;
          }
          if Unrepeated(st0, fm, fromPath) {
            LeavesMarkedGrow(st0, fm, tm, V, cur, minio.buckets);
            LeavesMarkedVisit(st0, fm, tm, V, minio.buckets, Q[0]);
          }
        } else if Unrepeated(st0, fm, fromPath) {
          LeavesMarkedVisit(st0, fm, tm, V, minio.buckets, Q[0]);
        }
        plan := plan + pairs;
        queue := queue[1..] + dirs;
        V := V + {Q[0]};
        Q := Q[1..] + DirNames(es);
        FS := FS + FileNames(es);
      }
      assert fm.prefix in Dirs(KeysOf(st0, fm.bucket), fm.prefix);
      FrontierDone(KeysOf(st0, fm.bucket), fm.prefix, V);
      if CopySucceeds(st0, fm, tm, fromPath) {
        SucceedsUnrepeated(st0, fm, tm, fromPath);
        LeavesMarkedBucket(st0, fm, tm, minio.buckets);
      }
      return Ok(()), plan, V, FS;
    }

    /** The copies `copy_recursively` makes after its walk: one `cp` per
        planned file, in order, stopping at the first error. */
    method CopyPlanned(plan: seq<Planned>, ghost st0: Buckets, fromPath: string, toPath: string,
                       ghost fm: Match, ghost tm: Match, ghost V: set<string>, ghost FS: seq<string>)
      returns (r: Result<(), Error>)
      requires minio.Valid()
      requires CopyableTree(fromPath, toPath) && Parse(fromPath) == Some(fm) && Parse(toPath) == Some(tm)
      requires WellFormed(st0) && fm.bucket in st0 && V == Dirs(KeysOf(st0, fm.bucket), fm.prefix)
      requires WalkPlanned(st0, fromPath, toPath, fm, V, FS, plan)
      requires OnlyBelow(st0, minio.buckets, tm.bucket, tm.prefix)
      requires Unrepeated(st0, fm, fromPath) ==> LeavesMarked(st0, fm, tm, V, minio.buckets)
      modifies minio
      ensures minio.Valid() && minio.clock >= old(minio.clock)
      ensures OnlyBelow(st0, minio.buckets, tm.bucket, tm.prefix)
      ensures r.Ok? && Unrepeated(st0, fm, fromPath) ==> TreeCopied(st0, minio.buckets, fm, tm)
      ensures CopySucceeds(st0, fm, tm, fromPath) && tm.bucket in old(minio.buckets) ==> r.Ok?
      decreases 1
    {
      PlannedFiles(st0, fromPath, toPath, fm, V, FS, plan);
      var i := 0;
      while i < |plan|
        invariant 0 <= i <= |plan|
        invariant minio.Valid() && minio.clock >= old(minio.clock)
        invariant OnlyBelow(st0, minio.buckets, tm.bucket, tm.prefix)
        invariant Unrepeated(st0, fm, fromPath) ==>
          LeavesMarked(st0, fm, tm, V, minio.buckets) &&
          forall j :: 0 <= j < i ==> CopiedFile(st0, minio.buckets, fm, tm, FS[j])
        invariant tm.bucket in old(minio.buckets) ==> tm.bucket in minio.buckets
      {
        ghost var cur, now := minio.buckets, minio.clock;
        CpOfPlanned(st0, cur, now, fromPath, toPath, fm, tm, FS[i]);
        if CopySucceeds(st0, fm, tm, fromPath) && tm.bucket in cur {
          CpPlannedSucceeds(st0, cur, now, fromPath, toPath, fm, tm, FS[i]);
        }
        var e := Cp(plan[i].source, plan[i].target, false);
        PlanStep(st0, cur, now, minio.buckets, e, fromPath, fm, tm, V, FS, i);
        if e.Err? {
          return e;
        }
        i := i + 1;
      }
      if Unrepeated(st0, fm, fromPath) {
        CopyDone(st0, minio.buckets, fromPath, toPath, fm, tm, V, FS, plan);
      }
      return Ok(());
    }

    /** `cp(from_path, to_path, recursive)`: the destination
        `_get_destination` picks; a directory is copied with
        `copy_recursively` when recursive and is a ValueError otherwise; a
        file is copied with one `copy_object`. */
    method Cp(fromPath: string, toPath: string, recursive: bool) returns (r: Result<(), Error>)
      requires minio.Valid()
      requires recursive && TreeSource(minio.buckets, fromPath, toPath) && !Parse(fromPath).value.IsRoot() ==>
        CopyableTree(Parse(fromPath).value.path, GetDestination(minio.buckets, fromPath, toPath).value.path)
      modifies minio
      ensures minio.Valid() && minio.clock >= old(minio.clock)
      ensures !(recursive && TreeSource(old(minio.buckets), fromPath, toPath)) ==>
        Written(r, minio.buckets, minio.clock) == CpOf(old(minio.buckets), old(minio.clock), fromPath, toPath)
      ensures recursive && TreeSource(old(minio.buckets), fromPath, toPath) && Parse(fromPath).value.IsRoot() ==>
        r == Err(StoreFailure(NoSuchBucket)) && minio.buckets == old(minio.buckets)
      ensures recursive && TreeSource(old(minio.buckets), fromPath, toPath) && !Parse(fromPath).value.IsRoot() ==>
        CopyPromise(old(minio.buckets), minio.buckets, r, Parse(fromPath).value.path,
                    GetDestination(old(minio.buckets), fromPath, toPath).value.path)
      decreases if recursive then 3 else 0
    {
      var d := GetDestination(minio.buckets, fromPath, toPath);
      if d.Err? {
        return Err(d.error);
      }
      var fm := Parse(fromPath).value;
      var tm := d.value;
      if fm.IsDir() {
        if recursive {
          ParseAgain(fromPath, fm);
          r := CopyRecursively(fm.path, tm.path);
          return;
        }
        return Err(ValueError);
      }
      r := CopyFile(fm, tm);
    }

    /** The `copy_object` call of `cp` for a file, from the key of `fm` to
        the key of `tm`. */
    method CopyFile(fm: Match, tm: Match) returns (r: Result<(), Error>)
      requires minio.Valid()
      modifies minio
      ensures minio.Valid() && minio.clock >= old(minio.clock)
      ensures Written(r, minio.buckets, minio.clock) == CopyFileOf(old(minio.buckets), old(minio.clock), fm, tm)
    {
      var e := minio.CopyObject(tm.bucket, tm.RelativePath(), fm.bucket, fm.RelativePath());
      if e.Err? {
        return Err(StoreFailure(e.error));
      }
      return Ok(());
    }

    /** `mv(from_path, to_path, recursive)`: the destination first, then
        `cp`; whether or not `cp` failed, `rm` of the source when both the
        source and the destination exist.  `copied` is what `cp` left. */
    method Mv(fromPath: string, toPath: string, recursive: bool) returns (r: Result<(), Error>, ghost copied: Written)
      requires minio.Valid()
      requires recursive && TreeSource(minio.buckets, fromPath, toPath) && !Parse(fromPath).value.IsRoot() ==>
        CopyableTree(Parse(fromPath).value.path, GetDestination(minio.buckets, fromPath, toPath).value.path)
      modifies minio
      ensures minio.Valid()
      ensures !(recursive && TreeSource(old(minio.buckets), fromPath, toPath)) ==>
        Written(r, minio.buckets, minio.clock) == MvOf(old(minio.buckets), old(minio.clock), fromPath, toPath, recursive)
      ensures recursive && TreeSource(old(minio.buckets), fromPath, toPath) ==>
        var tm := GetDestination(old(minio.buckets), fromPath, toPath).value;
        (Parse(fromPath).value.IsRoot() ==>
           copied.result == Err(StoreFailure(NoSuchBucket)) && copied.buckets == old(minio.buckets)) &&
        (!Parse(fromPath).value.IsRoot() ==>
           CopyPromise(old(minio.buckets), copied.buckets, copied.result, Parse(fromPath).value.path, tm.path)) &&
        Written(r, minio.buckets, minio.clock) == MvFinally(copied, fromPath, tm, true)
    {
      copied := Written(Ok(()), minio.buckets, minio.clock);
      var d := GetDestination(minio.buckets, fromPath, toPath);
      if d.Err? {
        return Err(d.error), copied;
      }
      var tm := d.value;
      r := Cp(fromPath, toPath, recursive);
      copied := Written(r, minio.buckets, minio.clock);
      if Exists(minio.buckets, fromPath) && Exists(minio.buckets, tm.path) {
        var e := Rm(fromPath, recursive);
        if e.Err? {
          r := e;
        }
      }
    }
  }
}
