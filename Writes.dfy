// What the writing operations of pyminio/main.py leave behind, as functions
// of the store and its clock: `mkdirs`, `put_data`, `rm`, the file branch of
// `cp`, and `mv` of a file.  The methods of Operations.Pyminio are proved to
// follow them; the lemmas here state what the functions promise.
module Writes {
  import opened Text
  import opened Wrappers
  import opened Structures
  import opened ObjectStore
  import opened Engine
  import opened Removal

  /** What an operation that writes returns, the buckets it leaves, and the
      store's clock after it (every successful write advances it by one). */
  datatype Written = Written(result: Result<(), Error>, buckets: Buckets, clock: nat)

  // ---------------------------------------------------------------------------
  // mkdirs

  /** `mkdirs`: ValueError for a path that is not a directory and for the
      root; otherwise the store calls of `MakeDirectory`. */
  function MkdirsOf(st: Buckets, now: nat, path: string): (r: Written)
    ensures r.clock >= now
    ensures Parse(path).None? || Parse(path).value.IsFile() || Parse(path).value.IsRoot() ==>
      r == Written(Err(ValueError), st, now)
  {
    match ValidateDirectory(path)
    case Err(e) => Written(Err(e), st, now)
    case Ok(m) => if m.IsRoot() then Written(Err(ValueError), st, now) else MakeDirectory(st, now, m)
  }

  /** The store calls of `mkdirs` for a directory below the root: the
      bucket is made when it does not exist, and below the bucket a
      zero-length object is put at the prefix. */
  function MakeDirectory(st: Buckets, now: nat, m: Match): (r: Written)
    ensures r.clock >= now
  {
    var st1 := if m.bucket in st then st else st[m.bucket := Bucket(now, map[])];
    var now1 := if m.bucket in st then now else now + 1;
    if m.IsBucket() then Written(Ok(()), st1, now1)
    else if !ValidKey(m.prefix) then Written(Err(StoreFailure(InvalidObjectName)), st1, now1)
    else Written(Ok(()), WithObject(st1, m.bucket, m.prefix, Obj([], now1, [])), now1 + 1)
  }

  /** `mkdirs` of a path that parses as a directory below the root makes
      that directory. */
  lemma MkdirsOfDirectory(st: Buckets, now: nat, path: string, m: Match)
    requires Parse(path) == Some(m) && m.IsDir() && !m.IsRoot()
    ensures MkdirsOf(st, now, path) == MakeDirectory(st, now, m)
  {
  }

  /** A directory that `mkdirs` accepts: a bucket, or a prefix below one. */
  lemma MkdirsShape(path: string, m: Match)
    requires ValidateDirectory(path) == Ok(m) && !m.IsRoot()
    ensures ValidBucketName(m.bucket) && PrefixShaped(m.prefix) && m.filename == ""
    ensures m.IsBucket() <==> m.prefix == ""
  {
    ParseShape(path, m);
    Classification(path, m);
  }

  /** An existing bucket, or a stored directory marker, is a directory. */
  lemma DirExists(st: Buckets, path: string, m: Match)
    requires Parse(path) == Some(m) && m.IsDir() && !m.IsRoot() && m.bucket in st
    requires m.prefix == "" || m.prefix in st[m.bucket].objects
    ensures Isdir(st, path) == Ok(true)
  {
    Classification(path, m);
    ParseShape(path, m);
    if m.prefix != "" {
      assert StartsWith(m.prefix, m.prefix);
      ExistsIff(st, path);
    }
  }

  lemma MakeDirectoryMakes(st: Buckets, now: nat, m: Match)
    requires WellFormed(st) && ValidBucketName(m.bucket) && PrefixShaped(m.prefix)
    requires m.IsBucket() <==> m.prefix == ""
    ensures var r := MakeDirectory(st, now, m);
      WellFormed(r.buckets) &&
      (r.result.Ok? ==> m.bucket in r.buckets && (m.prefix == "" || m.prefix in r.buckets[m.bucket].objects))
  {
  }

  /** After a successful `mkdirs` the path is an existing directory; the
      store stays well formed whatever the outcome. */
  lemma MkdirsMakesDirectory(st: Buckets, now: nat, path: string)
    requires WellFormed(st)
    ensures var r := MkdirsOf(st, now, path);
      WellFormed(r.buckets) && (r.result.Ok? ==> Isdir(r.buckets, path) == Ok(true))
  {
    var v := ValidateDirectory(path);
    if v.Ok? && !v.value.IsRoot() {
      var m := v.value;
      MkdirsShape(path, m);
      var r := MakeDirectory(st, now, m);
      assert MkdirsOf(st, now, path) == r;
      MakeDirectoryMakes(st, now, m);
      if r.result.Ok? {
        DirExists(r.buckets, path, m);
      }
    }
  }

  lemma MakeDirectoryKeeps(st: Buckets, now: nat, m: Match)
    ensures var r := MakeDirectory(st, now, m);
      st.Keys <= r.buckets.Keys <= st.Keys + {m.bucket} &&
      (forall x :: x in st ==> r.buckets[x].created == st[x].created) &&
      (forall x, k :: x in st && k in st[x].objects && (x != m.bucket || k != m.prefix) ==>
        k in r.buckets[x].objects && r.buckets[x].objects[k] == st[x].objects[k]) &&
      (forall x, k :: x in r.buckets && k in r.buckets[x].objects && (x != m.bucket || k != m.prefix) ==>
        x in st && k in st[x].objects)
  {
  }

  /** `mkdirs` keeps what is there: every bucket stays, with its creation
      date (a bucket is made only when absent), and every object but the
      marker at the prefix stays as it was; nothing else appears. */
  lemma MkdirsKeeps(st: Buckets, now: nat, path: string, m: Match)
    requires Parse(path) == Some(m)
    ensures var r := MkdirsOf(st, now, path);
      st.Keys <= r.buckets.Keys <= st.Keys + {m.bucket} &&
      (forall x :: x in st ==> r.buckets[x].created == st[x].created) &&
      (forall x, k :: x in st && k in st[x].objects && (x != m.bucket || k != m.prefix) ==>
        k in r.buckets[x].objects && r.buckets[x].objects[k] == st[x].objects[k]) &&
      (forall x, k :: x in r.buckets && k in r.buckets[x].objects && (x != m.bucket || k != m.prefix) ==>
        x in st && k in st[x].objects)
  {
    if ValidateDirectory(path).Ok? && !m.IsRoot() {
      assert MkdirsOf(st, now, path) == MakeDirectory(st, now, m);
      MakeDirectoryKeeps(st, now, m);
    } else {
      assert MkdirsOf(st, now, path).buckets == st;
    }
  }

  lemma MakeDirectoryTwice(st: Buckets, now: nat, m: Match)
    ensures var r1 := MakeDirectory(st, now, m);
      var r2 := MakeDirectory(r1.buckets, r1.clock, m);
      r1.result.Ok? ==> (
        r2.result == Ok(()) &&
        (m.IsBucket() ==> r2.buckets == r1.buckets) &&
        (!m.IsBucket() ==>
          m.bucket in r1.buckets && m.prefix in r1.buckets[m.bucket].objects &&
          r2.buckets == WithObject(r1.buckets, m.bucket, m.prefix,
            r1.buckets[m.bucket].objects[m.prefix].(modified := r1.clock))))
  {
  }

  /** Repeating a successful `mkdirs` succeeds and changes nothing but the
      modification time of the directory marker. */
  lemma MkdirsIdempotent(st: Buckets, now: nat, path: string, m: Match)
    requires Parse(path) == Some(m)
    ensures var r1 := MkdirsOf(st, now, path);
      var r2 := MkdirsOf(r1.buckets, r1.clock, path);
      r1.result.Ok? ==> (
        r2.result == Ok(()) &&
        (m.IsBucket() ==> r2.buckets == r1.buckets) &&
        (!m.IsBucket() ==>
          m.bucket in r1.buckets && m.prefix in r1.buckets[m.bucket].objects &&
          r2.buckets == WithObject(r1.buckets, m.bucket, m.prefix,
            r1.buckets[m.bucket].objects[m.prefix].(modified := r1.clock))))
  {
    if ValidateDirectory(path).Ok? && !m.IsRoot() {
      var r1 := MakeDirectory(st, now, m);
      assert MkdirsOf(st, now, path) == r1;
      assert MkdirsOf(r1.buckets, r1.clock, path) == MakeDirectory(r1.buckets, r1.clock, m);
      MakeDirectoryTwice(st, now, m);
    }
  }

  // ---------------------------------------------------------------------------
  // put_data

  /** `put_data`: the bytes go to the key `relative_path` of the path's
      bucket, with the user metadata under the "X-Amz-Meta-" prefix; a path
      that does not parse is ValueError, and the store's refusals pass
      through. */
  function PutDataOf(st: Buckets, now: nat, path: string, data: seq<byte>, user: seq<(string, string)>)
    : (r: Written)
    ensures r.result.Err? ==> r.buckets == st && r.clock == now
    ensures r.result.Ok? ==> r.clock == now + 1 && r.buckets.Keys == st.Keys
  {
    match Parse(path)
    case None => Written(Err(ValueError), st, now)
    case Some(m) =>
      if m.bucket !in st then Written(Err(StoreFailure(NoSuchBucket)), st, now)
      else if !ValidKey(m.RelativePath()) then Written(Err(StoreFailure(InvalidObjectName)), st, now)
      else Written(Ok(()), WithObject(st, m.bucket, m.RelativePath(), Obj(data, now, AmzMetadata(user))), now + 1)
  }

  /** A file's key is its prefix followed by its name. */
  lemma FileKey(path: string, m: Match)
    requires Parse(path) == Some(m) && m.IsFile()
    ensures !m.IsRoot() && m.RelativePath() == m.prefix + m.filename
    ensures BucketShaped(m.bucket) && PrefixShaped(m.prefix) && FilenameShaped(m.filename)
  {
    Classification(path, m);
    ParseShape(path, m);
  }

  /** `get` after `put_data` of a file path hands back the same bytes, under
      the file's name, with the metadata of the new object. */
  lemma PutThenGet(st: Buckets, now: nat, path: string, data: seq<byte>, user: seq<(string, string)>, m: Match)
    requires Parse(path) == Some(m) && m.IsFile()
    requires m.bucket in st && ValidKey(m.prefix + m.filename)
    ensures var r := PutDataOf(st, now, path, data, user);
      r.result == Ok(()) &&
      Get(r.buckets, path) ==
        Ok(File(m.filename, path, Details(false, Some(now), |data|, ExtractMetadata(AmzMetadata(user))), data))
  {
    FileKey(path, m);
  }

  /** `put_data` on a bucket path is refused by the store: the key would be
      empty. */
  lemma PutDataOnBucket(st: Buckets, now: nat, path: string, data: seq<byte>, user: seq<(string, string)>, m: Match)
    requires Parse(path) == Some(m) && !m.IsRoot() && m.IsBucket() && m.bucket in st
    ensures PutDataOf(st, now, path, data, user) == Written(Err(StoreFailure(InvalidObjectName)), st, now)
  {
  }

  /** Where `put_file` stores a local file: at the destination when that
      names a file, otherwise at the destination joined with the local
      file's last segment; a path that does not parse is ValueError. */
  function PutFileDestination(toPath: string, filePath: string): (r: Result<Match, Error>)
    ensures Parse(toPath).None? ==> r == Err(ValueError)
    ensures Parse(toPath).Some? && Parse(toPath).value.IsFile() ==> r == Ok(Parse(toPath).value)
  {
    match Parse(toPath)
    case None => Err(ValueError)
    case Some(m) =>
      if m.IsDir() then
        match Parse(PosixJoin(toPath, Basename(filePath)))
        case None => Err(ValueError)
        case Some(d) => Ok(d)
      else Ok(m)
  }

  /** Into a directory below the root, the file keeps the directory's bucket
      and prefix and takes the local file's name. */
  lemma PutFileIntoDirectory(toPath: string, filePath: string, tm: Match)
    requires Parse(toPath) == Some(tm) && tm.path == toPath && tm.IsDir() && !tm.IsRoot() && Canonical(tm)
    requires FilenameShaped(Basename(filePath)) && Basename(filePath) != ""
    ensures var name := Basename(filePath);
      PutFileDestination(toPath, filePath) == Ok(Match(toPath + name, tm.bucket, tm.prefix, name))
  {
    ParseShape(toPath, tm);
    var name := Basename(filePath);
    assert toPath == "/" + tm.bucket + "/" + tm.prefix + "";
    assert EndsWithSlash(toPath);
    assert PosixJoin(toPath, name) == toPath + name;
    ParseCanonical(tm.bucket, tm.prefix, name);
    assert toPath + name == "/" + tm.bucket + "/" + tm.prefix + name;
  }

  /** `put_file(file_path, to_path, metadata)`: `fput_object` of the local
      file's bytes, `contents`, at the destination's key; that is `put_data`
      at the destination path. */
  function PutFileOf(st: Buckets, now: nat, filePath: string, toPath: string,
                     contents: seq<byte>, user: seq<(string, string)>): (r: Written)
    ensures r.result.Err? ==> r.buckets == st && r.clock == now
    ensures PutFileDestination(toPath, filePath).Err? ==> r == Written(Err(ValueError), st, now)
  {
    match PutFileDestination(toPath, filePath)
    case Err(e) => Written(Err(e), st, now)
    case Ok(d) => PutDataOf(st, now, d.path, contents, user)
  }

  /** To a file path, `put_file` stores exactly what `put_data` would. */
  lemma PutFileToFile(st: Buckets, now: nat, filePath: string, toPath: string,
                      contents: seq<byte>, user: seq<(string, string)>, m: Match)
    requires Parse(toPath) == Some(m) && m.IsFile()
    ensures PutFileOf(st, now, filePath, toPath, contents, user) == PutDataOf(st, now, toPath, contents, user)
  {
    ParseAgain(toPath, m);
  }

  /** Into an existing directory below the root, `put_file` makes a file
      named as the local one, and `get` of it hands back the local bytes. */
  lemma PutFileThenGet(st: Buckets, now: nat, filePath: string, toPath: string,
                       contents: seq<byte>, user: seq<(string, string)>, tm: Match)
    requires Parse(toPath) == Some(tm) && tm.path == toPath && tm.IsDir() && !tm.IsRoot() && Canonical(tm)
    requires FilenameShaped(Basename(filePath)) && Basename(filePath) != ""
    requires tm.bucket in st && ValidKey(tm.prefix + Basename(filePath))
    ensures var name := Basename(filePath);
      var s := toPath + name;
      var r := PutFileOf(st, now, filePath, toPath, contents, user);
      r.result == Ok(()) &&
      Get(r.buckets, s) ==
        Ok(File(name, s, Details(false, Some(now), |contents|, ExtractMetadata(AmzMetadata(user))), contents))
  {
    var name := Basename(filePath);
    PutFileIntoDirectory(toPath, filePath, tm);
    var d := Match(toPath + name, tm.bucket, tm.prefix, name);
    PutFileDestinationParses(toPath, filePath, d);
    PutThenGet(st, now, d.path, contents, user, d);
  }

  /** The destination `put_file` picks parses as itself. */
  lemma PutFileDestinationParses(toPath: string, filePath: string, d: Match)
    requires PutFileDestination(toPath, filePath) == Ok(d)
    ensures Parse(d.path) == Some(d)
  {
    var m := Parse(toPath).value;
    if m.IsDir() {
      ParseAgain(PosixJoin(toPath, Basename(filePath)), d);
    } else {
      ParseAgain(toPath, d);
    }
  }

  // ---------------------------------------------------------------------------
  // rm

  /** `rm`: a path `isdir` accepts goes to `rmdir`; anything else has its
      key `relative_path` removed (a missing key is not an error). */
  ghost function RmOf(st: Buckets, path: string, recursive: bool): (r: Outcome)
    ensures Parse(path).None? ==> r == Outcome(Err(ValueError), st)
  {
    match Isdir(st, path)
    case Err(e) => Outcome(Err(e), st)
    case Ok(isDir) =>
      if isDir then RmdirOf(st, path, recursive)
      else
        var m := Parse(path).value;
        if m.bucket !in st then Outcome(Err(StoreFailure(NoSuchBucket)), st)
        else Outcome(Ok(()), WithoutKeys(st, m.bucket, {m.RelativePath()}))
  }

  /** `rm` of a file removes exactly its key; afterwards the file does not
      exist. */
  lemma RmFile(st: Buckets, path: string, recursive: bool, m: Match)
    requires Parse(path) == Some(m) && m.IsFile() && m.bucket in st
    ensures var r := RmOf(st, path, recursive);
      r == Outcome(Ok(()), WithoutKeys(st, m.bucket, {m.prefix + m.filename})) &&
      !Exists(r.buckets, path)
  {
    FileKey(path, m);
    ExistsIff(WithoutKeys(st, m.bucket, {m.prefix + m.filename}), path);
  }

  /** `rm` of a directory path that does not exist succeeds and changes
      nothing, as long as its bucket exists. */
  lemma RmMissingDirectory(st: Buckets, path: string, recursive: bool, m: Match)
    requires Parse(path) == Some(m) && m.IsDir() && !m.IsRoot() && m.bucket in st
    requires !Exists(st, path)
    ensures RmOf(st, path, recursive) == Outcome(Ok(()), st)
  {
    MissingDirectory(st, path, m);
    RmKey(st, path, recursive, m);
    WithoutMissingKey(st, m.bucket, m.prefix);
  }

  /** Removing a key that is not stored changes nothing. */
  lemma WithoutMissingKey(st: Buckets, b: string, k: string)
    requires b in st && k !in st[b].objects
    ensures WithoutKeys(st, b, {k}) == st
  {
    assert st[b].objects - {k} == st[b].objects;
  }

  /** Where `isdir` is false, `rm` removes the key `relative_path`. */
  lemma RmKey(st: Buckets, path: string, recursive: bool, m: Match)
    requires Parse(path) == Some(m) && m.bucket in st && Isdir(st, path) == Ok(false)
    ensures RmOf(st, path, recursive) == Outcome(Ok(()), WithoutKeys(st, m.bucket, {m.RelativePath()}))
  {
  }

  /** A directory path that does not exist has no marker, and `isdir` is
      false for it. */
  lemma MissingDirectory(st: Buckets, path: string, m: Match)
    requires Parse(path) == Some(m) && m.IsDir() && !m.IsRoot() && m.bucket in st
    requires !Exists(st, path)
    ensures Isdir(st, path) == Ok(false)
    ensures m.RelativePath() == m.prefix && m.prefix !in st[m.bucket].objects
  {
    ExistsIff(st, path);
    Classification(path, m);
    ParseShape(path, m);
    assert StartsWith(m.prefix, m.prefix);
  }

  /** `rm` of an existing directory is `rmdir`. */
  lemma RmDirectory(st: Buckets, path: string, recursive: bool, m: Match)
    requires Parse(path) == Some(m) && m.IsDir() && Exists(st, path)
    ensures RmOf(st, path, recursive) == RmdirOf(st, path, recursive)
  {
  }

  // ---------------------------------------------------------------------------
  // cp of a file, mv of a file

  /** `copy_object(to.bucket, to.relative_path, from.bucket/from.relative_path)`:
      the source object, data and metadata, stamped with the clock; the
      store refuses a copy onto the source's own key. */
  function CopyFileOf(st: Buckets, now: nat, fm: Match, tm: Match): (r: Written)
    ensures r.result.Err? ==> r.buckets == st && r.clock == now
  {
    match GetObject(st, fm.bucket, fm.RelativePath())
    case Err(e) => Written(Err(StoreFailure(e)), st, now)
    case Ok(o) =>
      if tm.bucket !in st then Written(Err(StoreFailure(NoSuchBucket)), st, now)
      else if !ValidKey(tm.RelativePath()) then Written(Err(StoreFailure(InvalidObjectName)), st, now)
      else if tm.bucket == fm.bucket && tm.RelativePath() == fm.RelativePath() then
        Written(Err(StoreFailure(InvalidCopyDest)), st, now)
      else Written(Ok(()), WithObject(st, tm.bucket, tm.RelativePath(), o.(modified := now)), now + 1)
  }

  /** `cp` of a file: the destination `_get_destination` picks, then
      `copy_object`. */
  function CpFileOf(st: Buckets, now: nat, fromPath: string, toPath: string): (r: Written)
    requires Parse(fromPath).Some? && Parse(fromPath).value.IsFile()
    ensures r.result.Err? ==> r.buckets == st && r.clock == now
  {
    match GetDestination(st, fromPath, toPath)
    case Err(e) => Written(Err(e), st, now)
    case Ok(tm) => CopyFileOf(st, now, Parse(fromPath).value, tm)
  }

  /** Parsing the path of a parse gives the same parse. */
  lemma ParseAgain(s: string, m: Match)
    requires Parse(s) == Some(m)
    ensures Parse(m.path) == Some(m)
  {
    CollapseIdempotent(s);
  }

  /** The destination of a file is where `_get_destination` says, and
      parses back to itself. */
  lemma FileDestination(st: Buckets, fromPath: string, toPath: string, tm: Match)
    requires Parse(fromPath).Some? && Parse(fromPath).value.IsFile()
    requires GetDestination(st, fromPath, toPath) == Ok(tm)
    ensures Parse(tm.path) == Some(tm)
  {
    var fm, dm := Parse(fromPath).value, Parse(toPath).value;
    if dm.IsFile() {
      ParseAgain(toPath, dm);
    } else {
      ParseAgain(PosixJoin(dm.path, fm.filename), tm);
    }
  }

  /** `get` of a stored file reads its object. */
  lemma StoredFileGet(st: Buckets, path: string, m: Match)
    requires Parse(path) == Some(m) && m.IsFile()
    requires m.bucket in st && m.prefix + m.filename in st[m.bucket].objects
    ensures var o := st[m.bucket].objects[m.prefix + m.filename];
      Get(st, path) == Ok(File(m.filename, path, FileMetadata(o), o.data))
  {
    FileKey(path, m);
  }

  /** The copy `copy_object` makes between two stored file paths reads,
      through `get`, as the original with the copy's own time. */
  lemma CopyThenGet(st: Buckets, now: nat, fromPath: string, fm: Match, tm: Match)
    requires Parse(fromPath) == Some(fm) && fm.IsFile() && fm.bucket in st
    requires fm.prefix + fm.filename in st[fm.bucket].objects
    requires Parse(tm.path) == Some(tm) && tm.IsFile()
    requires tm.bucket in st && ValidKey(tm.prefix + tm.filename)
    requires tm.bucket != fm.bucket || tm.prefix + tm.filename != fm.prefix + fm.filename
    ensures var src := st[fm.bucket].objects[fm.prefix + fm.filename];
      var r := CopyFileOf(st, now, fm, tm);
      r == Written(Ok(()), WithObject(st, tm.bucket, tm.prefix + tm.filename, src.(modified := now)), now + 1) &&
      Get(r.buckets, tm.path) == Ok(File(tm.filename, tm.path, FileMetadata(src.(modified := now)), src.data))
  {
    var src := st[fm.bucket].objects[fm.prefix + fm.filename];
    FileKey(fromPath, fm);
    FileKey(tm.path, tm);
    var after := WithObject(st, tm.bucket, tm.prefix + tm.filename, src.(modified := now));
    CopyFileWrites(st, now, fm, tm);
    assert after[tm.bucket].objects[tm.RelativePath()] == src.(modified := now);
    GetOfFile(after, tm.path, tm);
    GetStoredFile(after, tm.path, tm);
  }

  lemma CopyFileWrites(st: Buckets, now: nat, fm: Match, tm: Match)
    requires fm.bucket in st && fm.RelativePath() in st[fm.bucket].objects
    requires tm.bucket in st && ValidKey(tm.RelativePath())
    requires tm.bucket != fm.bucket || tm.RelativePath() != fm.RelativePath()
    ensures var src := st[fm.bucket].objects[fm.RelativePath()];
      CopyFileOf(st, now, fm, tm) ==
      Written(Ok(()), WithObject(st, tm.bucket, tm.RelativePath(), src.(modified := now)), now + 1)
  {
  }

  /** `get` of the copy hands back the source's bytes and user metadata:
      the copy of a file at its destination reads as the original, with the
      copy's own time. */
  lemma CpThenGet(st: Buckets, now: nat, fromPath: string, toPath: string, fm: Match, tm: Match)
    requires Parse(fromPath) == Some(fm) && fm.IsFile() && fm.bucket in st
    requires fm.prefix + fm.filename in st[fm.bucket].objects
    requires GetDestination(st, fromPath, toPath) == Ok(tm) && tm.IsFile()
    requires tm.bucket in st && ValidKey(tm.prefix + tm.filename)
    requires tm.bucket != fm.bucket || tm.prefix + tm.filename != fm.prefix + fm.filename
    ensures var src := st[fm.bucket].objects[fm.prefix + fm.filename];
      var r := CpFileOf(st, now, fromPath, toPath);
      Get(st, fromPath) == Ok(File(fm.filename, fromPath, FileMetadata(src), src.data)) &&
      r.result == Ok(()) &&
      Get(r.buckets, tm.path) == Ok(File(tm.filename, tm.path, FileMetadata(src.(modified := now)), src.data))
  {
    FileDestination(st, fromPath, toPath, tm);
    CopyThenGet(st, now, fromPath, fm, tm);
    StoredFileGet(st, fromPath, fm);
  }

  /** `mv` of a file: the destination first (ValueError leaves everything as
      it is), then `cp`, then the `finally` clause. */
  ghost function MvFileOf(st: Buckets, now: nat, fromPath: string, toPath: string, recursive: bool)
    : (r: Written)
    requires Parse(fromPath).Some? && Parse(fromPath).value.IsFile()
    ensures GetDestination(st, fromPath, toPath).Err? ==> r == Written(Err(ValueError), st, now)
  {
    match GetDestination(st, fromPath, toPath)
    case Err(e) => Written(Err(e), st, now)
    case Ok(tm) => MvFinally(CpFileOf(st, now, fromPath, toPath), fromPath, tm, recursive)
  }

  /** The `finally` clause of `mv`, run on what `cp` left, `c`: whether or
      not `cp` failed, the source is removed with `rm` when both it and the
      destination exist.  An error of `rm` replaces the outcome of `cp`. */
  ghost function MvFinally(c: Written, fromPath: string, tm: Match, recursive: bool): Written {
    if Exists(c.buckets, fromPath) && Exists(c.buckets, tm.path) then
      var d := RmOf(c.buckets, fromPath, recursive);
      Written(if d.result.Err? then d.result else c.result, d.buckets, c.clock)
    else c
  }

  /** A file exists exactly when its key is stored. */
  lemma FileExists(st: Buckets, path: string, m: Match)
    requires Parse(path) == Some(m) && m.IsFile()
    ensures Exists(st, path) <==> m.bucket in st && m.prefix + m.filename in st[m.bucket].objects
  {
    FileKey(path, m);
    ExistsIff(st, path);
  }

  /** The `finally` clause of `mv` on a file when both paths exist: the
      source key is removed, and the outcome of `cp` stands. */
  lemma FinallyRemovesFile(c: Written, fromPath: string, fm: Match, tm: Match, recursive: bool)
    requires Parse(fromPath) == Some(fm) && fm.IsFile() && fm.bucket in c.buckets
    requires fm.prefix + fm.filename in c.buckets[fm.bucket].objects
    requires Exists(c.buckets, tm.path)
    ensures var r := MvFinally(c, fromPath, tm, recursive);
      r == Written(c.result, WithoutKeys(c.buckets, fm.bucket, {fm.prefix + fm.filename}), c.clock) &&
      !Exists(r.buckets, fromPath)
  {
    FileExists(c.buckets, fromPath, fm);
    RmFile(c.buckets, fromPath, recursive, fm);
  }

  /** `mv` of a file to a different key moves it: the destination reads as
      the source did, and the source is gone. */
  lemma MvMovesFile(st: Buckets, now: nat, fromPath: string, toPath: string, recursive: bool,
                    fm: Match, tm: Match)
    requires Parse(fromPath) == Some(fm) && fm.IsFile() && fm.bucket in st
    requires fm.prefix + fm.filename in st[fm.bucket].objects
    requires GetDestination(st, fromPath, toPath) == Ok(tm) && tm.IsFile()
    requires tm.bucket in st && ValidKey(tm.prefix + tm.filename)
    requires tm.bucket != fm.bucket || tm.prefix + tm.filename != fm.prefix + fm.filename
    ensures var src := st[fm.bucket].objects[fm.prefix + fm.filename];
      var r := MvFileOf(st, now, fromPath, toPath, recursive);
      r.result == Ok(()) &&
      Get(r.buckets, tm.path) == Ok(File(tm.filename, tm.path, FileMetadata(src.(modified := now)), src.data)) &&
      !Exists(r.buckets, fromPath)
  {
    var src := st[fm.bucket].objects[fm.prefix + fm.filename];
    var c := CpFileOf(st, now, fromPath, toPath);
    MvCopyStep(st, now, fromPath, toPath, fm, tm);
    FileKey(tm.path, tm);
    FileExists(c.buckets, tm.path, tm);
    FinallyRemovesFile(c, fromPath, fm, tm, recursive);
    var after := WithoutKeys(c.buckets, fm.bucket, {fm.prefix + fm.filename});
    MovedObjectStays(st, tm.bucket, tm.prefix + tm.filename, src.(modified := now), fm.bucket, fm.prefix + fm.filename);
    StoredFileGet(after, tm.path, tm);
  }

  /** The `cp` half of `mv` of a file: the copy is written at the
      destination's key. */
  lemma MvCopyStep(st: Buckets, now: nat, fromPath: string, toPath: string, fm: Match, tm: Match)
    requires Parse(fromPath) == Some(fm) && fm.IsFile() && fm.bucket in st
    requires fm.prefix + fm.filename in st[fm.bucket].objects
    requires GetDestination(st, fromPath, toPath) == Ok(tm) && tm.IsFile()
    requires tm.bucket in st && ValidKey(tm.prefix + tm.filename)
    requires tm.bucket != fm.bucket || tm.prefix + tm.filename != fm.prefix + fm.filename
    ensures var src := st[fm.bucket].objects[fm.prefix + fm.filename];
      Parse(tm.path) == Some(tm) &&
      CpFileOf(st, now, fromPath, toPath) ==
        Written(Ok(()), WithObject(st, tm.bucket, tm.prefix + tm.filename, src.(modified := now)), now + 1)
  {
    FileDestination(st, fromPath, toPath, tm);
    CopyThenGet(st, now, fromPath, fm, tm);
  }

  /** Removing another key leaves a written object in place. */
  lemma MovedObjectStays(st: Buckets, b: string, k: string, o: Obj, b2: string, k2: string)
    requires b in st && b2 in st && (b != b2 || k != k2)
    ensures var after := WithoutKeys(WithObject(st, b, k, o), b2, {k2});
      b in after && k in after[b].objects && after[b].objects[k] == o
  {
  }

  /** A failed `mv` of a file to another key loses nothing: when `cp`
      fails, the source or the destination is missing, so nothing is removed
      and the store is as it was.  (Onto its own key, see `MvOntoItself`.) */
  lemma MvKeepsSourceOnFailure(st: Buckets, now: nat, fromPath: string, toPath: string, recursive: bool,
                               fm: Match, tm: Match)
    requires WellFormed(st)
    requires Parse(fromPath) == Some(fm) && fm.IsFile()
    requires GetDestination(st, fromPath, toPath) == Ok(tm) && tm.IsFile()
    requires tm.bucket != fm.bucket || tm.prefix + tm.filename != fm.prefix + fm.filename
    ensures var c := CpFileOf(st, now, fromPath, toPath);
      c.result.Err? ==> MvFileOf(st, now, fromPath, toPath, recursive) == c && c.buckets == st
  {
    var c := CpFileOf(st, now, fromPath, toPath);
    if c.result.Err? {
      FileKey(fromPath, fm);
      FileDestination(st, fromPath, toPath, tm);
      FileKey(tm.path, tm);
      FileExists(st, fromPath, fm);
      FileExists(st, tm.path, tm);
      assert !(Exists(st, fromPath) && Exists(st, tm.path));
    }
  }

  /** `mv` of a file onto its own key loses it: the store refuses the copy,
      but both paths still exist, so the `finally` clause removes the
      source, and `mv` reports the refused copy. */
  lemma MvOntoItself(st: Buckets, now: nat, fromPath: string, toPath: string, recursive: bool, fm: Match)
    requires Parse(fromPath) == Some(fm) && fm.IsFile() && fm.bucket in st
    requires fm.prefix + fm.filename in st[fm.bucket].objects && ValidKey(fm.prefix + fm.filename)
    requires GetDestination(st, fromPath, toPath) == Ok(fm)
    ensures var r := MvFileOf(st, now, fromPath, toPath, recursive);
      r.result == Err(StoreFailure(InvalidCopyDest)) && !Exists(r.buckets, fromPath)
  {
    var c := CpFileOf(st, now, fromPath, toPath);
    FileKey(fromPath, fm);
    FileDestination(st, fromPath, toPath, fm);
    assert c == Written(Err(StoreFailure(InvalidCopyDest)), st, now);
    FileExists(c.buckets, fm.path, fm);
    FinallyRemovesFile(c, fromPath, fm, fm, recursive);
  }

  /** `mv` of a file as evidently intended: the source is removed only once
      `cp` has succeeded, as `mv(1)` does. */
  ghost function IntendedMvFileOf(st: Buckets, now: nat, fromPath: string, toPath: string, recursive: bool)
    : (r: Written)
    requires Parse(fromPath).Some? && Parse(fromPath).value.IsFile()
  {
    match GetDestination(st, fromPath, toPath)
    case Err(e) => Written(Err(e), st, now)
    case Ok(tm) =>
      var c := CpFileOf(st, now, fromPath, toPath);
      if c.result.Err? then c else MvFinally(c, fromPath, tm, recursive)
  }

  /** The intended `mv` loses nothing when it fails, so a move onto the
      file's own key keeps the file; where `cp` succeeds it is the `mv` of
      the source. */
  lemma IntendedMvKeepsSource(st: Buckets, now: nat, fromPath: string, toPath: string, recursive: bool, fm: Match)
    requires Parse(fromPath) == Some(fm) && fm.IsFile()
    ensures var r := IntendedMvFileOf(st, now, fromPath, toPath, recursive);
      (r.result.Err? ==> r.buckets == st) &&
      (CpFileOf(st, now, fromPath, toPath).result.Ok? ==> r == MvFileOf(st, now, fromPath, toPath, recursive)) &&
      (GetDestination(st, fromPath, toPath) == Ok(fm) && Exists(st, fromPath) ==>
         r.result.Err? && Exists(r.buckets, fromPath))
  {
    IntendedMvUnchangedOnFailure(st, now, fromPath, toPath, recursive, fm);
    if GetDestination(st, fromPath, toPath) == Ok(fm) {
      IntendedMvOntoItself(st, now, fromPath, toPath, recursive, fm);
    }
  }

  lemma IntendedMvUnchangedOnFailure(st: Buckets, now: nat, fromPath: string, toPath: string, recursive: bool, fm: Match)
    requires Parse(fromPath) == Some(fm) && fm.IsFile()
    ensures var r := IntendedMvFileOf(st, now, fromPath, toPath, recursive);
      r.result.Err? ==> r.buckets == st
  {
    match GetDestination(st, fromPath, toPath)
    case Err(e) =>
    case Ok(tm) =>
      var c := CpFileOf(st, now, fromPath, toPath);
      if c.result.Ok? && Exists(c.buckets, fromPath) && Exists(c.buckets, tm.path) {
        FileExists(c.buckets, fromPath, fm);
        RmFile(c.buckets, fromPath, recursive, fm);
      }
  }

  lemma IntendedMvOntoItself(st: Buckets, now: nat, fromPath: string, toPath: string, recursive: bool, fm: Match)
    requires Parse(fromPath) == Some(fm) && fm.IsFile() && GetDestination(st, fromPath, toPath) == Ok(fm)
    ensures CpFileOf(st, now, fromPath, toPath).result.Err?
    ensures IntendedMvFileOf(st, now, fromPath, toPath, recursive) == CpFileOf(st, now, fromPath, toPath)
  {
    var c := CpFileOf(st, now, fromPath, toPath);
    assert c == CopyFileOf(st, now, fm, fm);
    CopyFileOntoItself(st, now, fm);
    assert c.result.Err?;
  }

  /** The store refuses a file copied onto its own key. */
  lemma CopyFileOntoItself(st: Buckets, now: nat, m: Match)
    ensures CopyFileOf(st, now, m, m).result.Err?
  {
  }

}
