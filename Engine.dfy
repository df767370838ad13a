// The directory engine: pyminio/main.py.
//
// Queries (`exists`, `isdir`, `listdir`, `get`, `get_last_object`, the
// destination rule of `cp` and `mv`) only read the store, so they are
// functions of the store's value; the operations that write (`mkdirs`,
// `rmdir`, `truncate`, `rm`, `cp`, `copy_recursively`, `mv`, `put_data`) are
// methods of `Pyminio`, which holds the store it drives.
module Engine {
  import opened Text
  import opened Wrappers
  import opened Structures
  import opened ObjectStore

  /** What pyminio raises: ValueError, DirectoryNotEmptyError, or an error of
      the store client that it lets through unchanged. */
  datatype Error = ValueError | DirectoryNotEmpty | StoreFailure(cause: StoreError)

  /** What an operation that writes returns, with the buckets it leaves. */
  datatype Outcome = Outcome(result: Result<(), Error>, buckets: Buckets)

  // ---------------------------------------------------------------------------
  // Paths

  /** `_validate_directory` with the `Match(path)` every decorated method
      starts with: a path that does not parse, or parses as a file, is
      refused with ValueError. */
  function ValidateDirectory(path: string): (r: Result<Match, Error>)
    ensures r.Ok? <==> Parse(path).Some? && Parse(path).value.filename == ""
    ensures r.Ok? ==> r.value == Parse(path).value
    ensures r.Err? ==> r.error == ValueError
  {
    match Parse(path)
    case None => Err(ValueError)
    case Some(m) => if m.IsFile() then Err(ValueError) else Ok(m)
  }

  /** `join(dirname(normpath(prefix)), '')` on a directory prefix: the
      prefix of the directory that holds it. */
  function ParentPrefix(p: string): (r: string)
    ensures StartsWith(p, r)
    ensures PrefixShaped(p) && p != "" ==>
      |r| + 2 <= |p| && (r == "" || EndsWithSlash(r)) && NoSlash(p[|r|..|p| - 1])
  {
    if |p| == 0 then ""
    else
      var k := LastSlash(p, |p| - 1);
      assert PrefixShaped(p) && p != "" && |p| >= 2 ==> !SlashPairAt(p, |p| - 2);
      p[..k + 1]
  }

  /** `normpath` of a directory name: the name without its closing '/'. */
  function TrimSlash(s: string): (r: string)
    ensures EndsWithSlash(s) ==> s == r + "/"
    ensures !EndsWithSlash(s) ==> r == s
  {
    if EndsWithSlash(s) then s[..|s| - 1] else s
  }

  /** `b` is a next-level directory below `parent`: the parent, one segment,
      then '/'. */
  predicate ChildDir(parent: string, d: string) {
    StartsWith(d, parent) && |d| > |parent| && EndsWithSlash(d) &&
    NoSlash(d[|parent|..|d| - 1])
  }

  /** A key below a next-level directory is listed, from the parent, under
      that directory's name. */
  lemma EntryNameIsChild(parent: string, d: string, k: string)
    requires ChildDir(parent, d) && StartsWith(k, d)
    ensures EntryName(parent, k) == Some(d)
  {
    assert k[..|parent|] == d[..|parent|];
    var n := EntryName(parent, k).value;
    assert k[|parent|..][|d| - 1 - |parent|] == '/';
    assert k[|n| - 1] == '/' by { assert n[|n| - 1] == k[|n| - 1]; }
    forall j | |parent| <= j < |d| - 1
      ensures k[j] != '/'
    {
      assert d[|parent|..|d| - 1][j - |parent|] == d[j] == k[j];
    }
    forall j | |parent| <= j < |n| - 1
      ensures k[j] != '/'
    {
      assert n[|parent|..|n| - 1][j - |parent|] == n[j] == k[j];
    }
    assert n == k[..|n|] && d == k[..|d|];
  }

  /** The prefix of a parsed directory is a next-level directory of its
      parent prefix. */
  lemma PrefixIsChild(p: string)
    requires PrefixShaped(p) && p != ""
    ensures ChildDir(ParentPrefix(p), p)
  {
  }

  // ---------------------------------------------------------------------------
  // Listings as pyminio orders them

  /** `get_last_modified`: a directory entry has no time and sorts as the
      epoch. */
  function LastModifiedKey(e: Entry): nat {
    if e.FileEntry? then e.modified else 0
  }

  /** `_get_objects_at`: the listing of the match's prefix, newest first. */
  function ObjectsAt(st: Buckets, m: Match): (r: Result<seq<Entry>, Error>)
    ensures m.bucket !in st <==> r == Err(StoreFailure(NoSuchBucket))
    ensures r.Ok? ==> multiset(r.value) == multiset(ListObjects(st, m.bucket, m.prefix).value)
    ensures r.Ok? ==> SortedDesc(r.value, LastModifiedKey)
  {
    match ListObjects(st, m.bucket, m.prefix)
    case Err(e) => Err(StoreFailure(e))
    case Ok(es) =>
      SortDescSorted(es, LastModifiedKey);
      Ok(SortDesc(es, LastModifiedKey))
  }

  function CreationKey(b: (string, nat)): nat { b.1 }

  /** `_get_buckets`: every bucket, most recently created first. */
  function BucketsByCreation(st: Buckets): (r: seq<(string, nat)>)
    ensures |r| == |st.Keys|
    ensures forall b :: b in st <==> exists i :: 0 <= i < |r| && r[i].0 == b
    ensures SortedDesc(r, CreationKey)
  {
    var bs := ListBuckets(st);
    SortDescSorted(bs, CreationKey);
    var r := SortDesc(bs, CreationKey);
    forall b | b in st
      ensures exists i :: 0 <= i < |r| && r[i].0 == b
    {
      var j :| 0 <= j < |bs| && bs[j].0 == b;
      assert bs[j] in multiset(r);
    }
    forall i | 0 <= i < |r|
      ensures r[i].0 in st
    {
      assert r[i] in multiset(bs);
    }
    r
  }

  /** The `files_only` / `dirs_only` filter of `listdir`. */
  predicate Shown(e: Entry, filesOnly: bool, dirsOnly: bool) {
    !((filesOnly && e.IsDir()) || (dirsOnly && !e.IsDir()))
  }

  /** The entries the filter keeps, in their order. */
  function Kept(es: seq<Entry>, filesOnly: bool, dirsOnly: bool): (r: seq<Entry>)
    ensures forall e :: e in r <==> e in es && Shown(e, filesOnly, dirsOnly)
    ensures SortedDesc(es, LastModifiedKey) ==> SortedDesc(r, LastModifiedKey)
  {
    if es == [] then []
    else
      var rest := Kept(es[1..], filesOnly, dirsOnly);
      assert forall e :: e in es <==> e == es[0] || e in es[1..];
      if Shown(es[0], filesOnly, dirsOnly) then
        if SortedDesc(es, LastModifiedKey) then
          HeadAboveRest(es, rest);
          [es[0]] + rest
        else [es[0]] + rest
      else rest
  }

  /** In a list ordered newest first, the head is at least as new as every
      entry drawn from the rest. */
  lemma HeadAboveRest(es: seq<Entry>, rest: seq<Entry>)
    requires |es| > 0 && SortedDesc(es, LastModifiedKey)
    requires forall e :: e in rest ==> e in es[1..]
    ensures forall j :: 0 <= j < |rest| ==> LastModifiedKey(es[0]) >= LastModifiedKey(rest[j])
  {
    forall j | 0 <= j < |rest|
      ensures LastModifiedKey(es[0]) >= LastModifiedKey(rest[j])
    {
      assert rest[j] in es[1..];
      var k :| 0 <= k < |es[1..]| && es[1..][k] == rest[j];
      assert es[k + 1] == rest[j];
    }
  }

  /** `obj.object_name.replace(prefix, '')` for each kept entry. */
  function Names(es: seq<Entry>, prefix: string): (r: seq<string>)
    ensures |r| == |es|
    ensures forall i :: 0 <= i < |es| ==> r[i] == RemoveAll(es[i].name, prefix)
  {
    seq(|es|, i requires 0 <= i < |es| => RemoveAll(es[i].name, prefix))
  }

  /** `listdir`: at the root, every bucket name with a '/' (none when only
      files are asked for); elsewhere the names of the entries of the
      directory, newest first, with every occurrence of the prefix deleted. */
  function Listdir(st: Buckets, path: string, filesOnly: bool, dirsOnly: bool): (r: Result<seq<string>, Error>)
  {
    match ValidateDirectory(path)
    case Err(e) => Err(e)
    case Ok(m) =>
      if m.IsRoot() then
        if filesOnly then Ok([])
        else
          Ok(BucketDirNames(BucketsByCreation(st)))
      else
        match ObjectsAt(st, m)
        case Err(e) => Err(e)
        case Ok(es) => Ok(Names(Kept(es, filesOnly, dirsOnly), m.prefix))
  }

  /** Each bucket name with a '/' after it. */
  function BucketDirNames(bs: seq<(string, nat)>): (r: seq<string>)
    ensures |r| == |bs|
    ensures forall i :: 0 <= i < |bs| ==> r[i] == bs[i].0 + "/"
  {
    seq(|bs|, i requires 0 <= i < |bs| => bs[i].0 + "/")
  }

  /** What `listdir` of the root gives, once the path is known to be the root. */
  lemma ListdirAtRoot(st: Buckets, path: string, filesOnly: bool, dirsOnly: bool)
    requires Collapse(path) == Root
    ensures Listdir(st, path, filesOnly, dirsOnly) ==
      if filesOnly then Ok([]) else Ok(BucketDirNames(BucketsByCreation(st)))
  {
    ParseRoot(path);
  }

  /** Deleting every occurrence of a directory prefix from a name below it
      leaves the part after the prefix, as long as the prefix does not occur
      there again. */
  lemma StripPrefix(prefix: string, k: string)
    requires EndsWithSlash(prefix)
    requires StartsWith(k, prefix) && NoOccurrence(k[|prefix|..], prefix)
    ensures RemoveAll(k, prefix) == k[|prefix|..]
  {
    var t := k[|prefix|..];
    assert k == prefix + t;
    RemoveAllLeading(prefix, t);
    RemoveAllAbsent(t, prefix);
  }

  /** A file directly below the prefix is listed under its last segment:
      that segment has no '/', so the prefix cannot occur in it. */
  lemma StripFileName(prefix: string, k: string)
    requires prefix == "" || EndsWithSlash(prefix)
    requires StartsWith(k, prefix) && NoSlash(k[|prefix|..])
    ensures RemoveAll(k, prefix) == k[|prefix|..]
  {
    if prefix != "" {
      var t := k[|prefix|..];
      forall i: nat
        ensures !OccursAt(t, prefix, i)
      {
        if i + |prefix| <= |t| {
          assert t[i..i + |prefix|][|prefix| - 1] == t[i + |prefix| - 1];
        }
      }
      StripPrefix(prefix, k);
    }
  }

  /** The root lists every bucket, as a directory name, once; nothing when
      only files are asked for. */
  lemma ListdirRoot(st: Buckets, path: string, filesOnly: bool, dirsOnly: bool)
    requires Collapse(path) == Root
    ensures Listdir(st, path, filesOnly, dirsOnly).Ok?
    ensures filesOnly ==> Listdir(st, path, filesOnly, dirsOnly).value == []
    ensures !filesOnly ==>
      var names := Listdir(st, path, filesOnly, dirsOnly).value;
      |names| == |st.Keys| && forall x :: x in names <==> exists b :: b in st && x == b + "/"
  {
    ListdirAtRoot(st, path, filesOnly, dirsOnly);
    if !filesOnly {
      BucketDirNamesIff(st);
    }
  }

  /** The bucket directory names, one per bucket. */
  lemma BucketDirNamesIff(st: Buckets)
    ensures var names := BucketDirNames(BucketsByCreation(st));
      |names| == |st.Keys| && forall x :: x in names <==> exists b :: b in st && x == b + "/"
  {
    var bs := BucketsByCreation(st);
    var names := BucketDirNames(bs);
    forall x | x in names
      ensures exists b :: b in st && x == b + "/"
    {
      var i :| 0 <= i < |names| && names[i] == x;
      BucketListed(st, bs, i);
    }
    forall b | b in st
      ensures b + "/" in names
    {
      var i :| 0 <= i < |bs| && bs[i].0 == b;
      assert names[i] == b + "/";
    }
  }

  lemma BucketListed(st: Buckets, bs: seq<(string, nat)>, i: nat)
    requires bs == BucketsByCreation(st) && i < |bs|
    ensures bs[i].0 in st
  {
  }

  /** `listdir` refuses what is not a directory path with ValueError and a
      directory of a missing bucket with the store's NoSuchBucket. */
  lemma ListdirErrors(st: Buckets, path: string, filesOnly: bool, dirsOnly: bool)
    ensures ValidateDirectory(path).Err? ==> Listdir(st, path, filesOnly, dirsOnly) == Err(ValueError)
    ensures ValidateDirectory(path).Ok? ==>
      var m := ValidateDirectory(path).value;
      (Listdir(st, path, filesOnly, dirsOnly).Err? <==> !m.IsRoot() && m.bucket !in st) &&
      (!m.IsRoot() && m.bucket !in st ==> Listdir(st, path, filesOnly, dirsOnly) == Err(StoreFailure(NoSuchBucket)))
  {
  }

  /** What an entry of `_get_objects_at` is. */
  lemma AtEntry(st: Buckets, m: Match, e: Entry)
    requires m.bucket in st && e in ObjectsAt(st, m).value
    ensures var objs := st[m.bucket].objects;
      StartsWith(e.name, m.prefix) && |e.name| > |m.prefix| &&
      (exists k :: k in objs && StartsWith(k, e.name)) &&
      (e.IsDir() ==> ChildDir(m.prefix, e.name)) &&
      (!e.IsDir() ==> e.name in objs && NoSlash(e.name[|m.prefix|..]) && e.modified == objs[e.name].modified)
  {
    assert e in multiset(ListObjects(st, m.bucket, m.prefix).value);
    ListedEntry(st, m.bucket, m.prefix, e);
  }

  lemma InObjectsAt(st: Buckets, m: Match, i: nat)
    requires m.bucket in st && i < |ListObjects(st, m.bucket, m.prefix).value|
    ensures ListObjects(st, m.bucket, m.prefix).value[i] in ObjectsAt(st, m).value
  {
    assert ListObjects(st, m.bucket, m.prefix).value[i] in multiset(ObjectsAt(st, m).value);
  }

  lemma ListdirAt(st: Buckets, path: string, filesOnly: bool, dirsOnly: bool)
    requires ValidateDirectory(path).Ok?
    requires var m := ValidateDirectory(path).value; !m.IsRoot() && m.bucket in st
    ensures var m := ValidateDirectory(path).value;
      Listdir(st, path, filesOnly, dirsOnly) ==
        Ok(Names(Kept(ObjectsAt(st, m).value, filesOnly, dirsOnly), m.prefix))
  {
  }

  /** With `files_only`, a directory lists exactly the last segments of the
      keys directly inside it, newest first. */
  lemma ListdirFiles(st: Buckets, path: string, dirsOnly: bool)
    requires ValidateDirectory(path).Ok?
    requires var m := ValidateDirectory(path).value; !m.IsRoot() && m.bucket in st && !dirsOnly
    ensures var m := ValidateDirectory(path).value;
      var objs := st[m.bucket].objects;
      var names := Listdir(st, path, true, dirsOnly).value;
      (forall x :: x in names <==>
        exists k :: k in objs && StartsWith(k, m.prefix) && k != m.prefix &&
          NoSlash(k[|m.prefix|..]) && x == k[|m.prefix|..]) &&
      (forall i :: 0 <= i < |names| ==> m.prefix + names[i] in objs) &&
      (forall i, j :: 0 <= i < j < |names| ==>
        objs[m.prefix + names[i]].modified >= objs[m.prefix + names[j]].modified)
  {
    var m := ValidateDirectory(path).value;
    ParseShape(path, m);
    ListdirAt(st, path, true, dirsOnly);
    FileNamesListed(st, m, dirsOnly);
    FileNamesOrdered(st, m, dirsOnly);
  }

  /** One file entry kept by `files_only`, and the name it is listed under. */
  lemma KeptFile(st: Buckets, m: Match, dirsOnly: bool, i: nat)
    requires m.bucket in st && (m.prefix == "" || EndsWithSlash(m.prefix))
    requires i < |Kept(ObjectsAt(st, m).value, true, dirsOnly)|
    ensures var objs := st[m.bucket].objects;
      var e := Kept(ObjectsAt(st, m).value, true, dirsOnly)[i];
      var x := Names(Kept(ObjectsAt(st, m).value, true, dirsOnly), m.prefix)[i];
      e.FileEntry? && e.name in objs && m.prefix + x == e.name &&
      StartsWith(e.name, m.prefix) && e.name != m.prefix &&
      NoSlash(x) && x == e.name[|m.prefix|..] &&
      e.modified == objs[e.name].modified
  {
    var kept := Kept(ObjectsAt(st, m).value, true, dirsOnly);
    assert kept[i] in kept;
    FileAtEntry(st, m, kept[i]);
  }

  lemma FileAtEntry(st: Buckets, m: Match, e: Entry)
    requires m.bucket in st && (m.prefix == "" || EndsWithSlash(m.prefix))
    requires e in ObjectsAt(st, m).value && !e.IsDir()
    ensures var objs := st[m.bucket].objects;
      e.name in objs && StartsWith(e.name, m.prefix) && e.name != m.prefix &&
      NoSlash(e.name[|m.prefix|..]) && RemoveAll(e.name, m.prefix) == e.name[|m.prefix|..] &&
      m.prefix + e.name[|m.prefix|..] == e.name && e.modified == objs[e.name].modified
  {
    AtEntry(st, m, e);
    FileNameSplit(m.prefix, e.name);
  }

  lemma FileNameSplit(p: string, n: string)
    requires p == "" || EndsWithSlash(p)
    requires StartsWith(n, p) && NoSlash(n[|p|..])
    ensures RemoveAll(n, p) == n[|p|..] && p + n[|p|..] == n
  {
    StripFileName(p, n);
    assert n == p + n[|p|..];
  }

  lemma FileNamesListed(st: Buckets, m: Match, dirsOnly: bool)
    requires m.bucket in st && (m.prefix == "" || EndsWithSlash(m.prefix)) && !dirsOnly
    ensures var objs := st[m.bucket].objects;
      var names := Names(Kept(ObjectsAt(st, m).value, true, dirsOnly), m.prefix);
      forall x :: x in names <==>
        exists k :: k in objs && StartsWith(k, m.prefix) && k != m.prefix &&
          NoSlash(k[|m.prefix|..]) && x == k[|m.prefix|..]
  {
    var objs := st[m.bucket].objects;
    var kept := Kept(ObjectsAt(st, m).value, true, dirsOnly);
    var names := Names(kept, m.prefix);
    forall x
      ensures x in names <==>
        exists k :: k in objs && StartsWith(k, m.prefix) && k != m.prefix &&
          NoSlash(k[|m.prefix|..]) && x == k[|m.prefix|..]
    {
      if x in names {
        var i :| 0 <= i < |names| && names[i] == x;
        KeptFile(st, m, dirsOnly, i);
      }
      if k :| (k in objs && StartsWith(k, m.prefix) && k != m.prefix &&
               NoSlash(k[|m.prefix|..]) && x == k[|m.prefix|..]) {
        FileIsNamed(st, m, dirsOnly, k);
      }
    }
  }

  lemma FileIsNamed(st: Buckets, m: Match, dirsOnly: bool, k: string)
    requires m.bucket in st && (m.prefix == "" || EndsWithSlash(m.prefix)) && !dirsOnly
    requires k in st[m.bucket].objects && StartsWith(k, m.prefix) && k != m.prefix
    requires NoSlash(k[|m.prefix|..])
    ensures k[|m.prefix|..] in Names(Kept(ObjectsAt(st, m).value, true, dirsOnly), m.prefix)
  {
    var kept := Kept(ObjectsAt(st, m).value, true, dirsOnly);
    var ls := ListObjects(st, m.bucket, m.prefix).value;
    FileEntryIff(st, m.bucket, m.prefix, k);
    var j :| 0 <= j < |ls| && ls[j].FileEntry? && ls[j].name == k;
    InObjectsAt(st, m, j);
    assert ls[j] in kept;
    var i :| 0 <= i < |kept| && kept[i] == ls[j];
    KeptFile(st, m, dirsOnly, i);
    assert Names(kept, m.prefix)[i] == k[|m.prefix|..];
  }

  lemma FileNamesOrdered(st: Buckets, m: Match, dirsOnly: bool)
    requires m.bucket in st && (m.prefix == "" || EndsWithSlash(m.prefix))
    ensures var objs := st[m.bucket].objects;
      var names := Names(Kept(ObjectsAt(st, m).value, true, dirsOnly), m.prefix);
      (forall i :: 0 <= i < |names| ==> m.prefix + names[i] in objs) &&
      (forall i, j :: 0 <= i < j < |names| ==>
        objs[m.prefix + names[i]].modified >= objs[m.prefix + names[j]].modified)
  {
    var objs := st[m.bucket].objects;
    var kept := Kept(ObjectsAt(st, m).value, true, dirsOnly);
    var names := Names(kept, m.prefix);
    forall i | 0 <= i < |names|
      ensures m.prefix + names[i] in objs
    {
      KeptFile(st, m, dirsOnly, i);
    }
    forall i, j | 0 <= i < j < |names|
      ensures objs[m.prefix + names[i]].modified >= objs[m.prefix + names[j]].modified
    {
      KeptFile(st, m, dirsOnly, i);
      KeptFile(st, m, dirsOnly, j);
      assert LastModifiedKey(kept[i]) >= LastModifiedKey(kept[j]);
    }
  }

  /** With `dirs_only`, each next-level directory below the prefix is listed
      as its name with every occurrence of the prefix deleted, and nothing
      else is listed. */
  lemma ListdirDirs(st: Buckets, path: string)
    requires ValidateDirectory(path).Ok?
    requires var m := ValidateDirectory(path).value; !m.IsRoot() && m.bucket in st
    ensures var m := ValidateDirectory(path).value;
      var objs := st[m.bucket].objects;
      var names := Listdir(st, path, false, true).value;
      forall x :: x in names <==>
        exists d :: ChildDir(m.prefix, d) && (exists k :: k in objs && StartsWith(k, d)) &&
          x == RemoveAll(d, m.prefix)
  {
    var m := ValidateDirectory(path).value;
    ListdirAt(st, path, false, true);
    DirNamesListed(st, m);
  }

  lemma DirNamesListed(st: Buckets, m: Match)
    requires m.bucket in st
    ensures var objs := st[m.bucket].objects;
      var names := Names(Kept(ObjectsAt(st, m).value, false, true), m.prefix);
      forall x :: x in names <==>
        exists d :: ChildDir(m.prefix, d) && (exists k :: k in objs && StartsWith(k, d)) &&
          x == RemoveAll(d, m.prefix)
  {
    var objs := st[m.bucket].objects;
    var es := ObjectsAt(st, m).value;
    var kept := Kept(es, false, true);
    var names := Names(kept, m.prefix);
    forall x
      ensures x in names <==>
        exists d :: ChildDir(m.prefix, d) && (exists k :: k in objs && StartsWith(k, d)) &&
          x == RemoveAll(d, m.prefix)
    {
      if x in names {
        var i :| 0 <= i < |names| && names[i] == x;
        assert kept[i] in es;
        AtEntry(st, m, kept[i]);
      }
      if d :| (ChildDir(m.prefix, d) && (exists k :: k in objs && StartsWith(k, d)) &&
               x == RemoveAll(d, m.prefix)) {
        DirIsNamed(st, m, d);
      }
    }
  }

  lemma DirIsNamed(st: Buckets, m: Match, d: string)
    requires m.bucket in st && ChildDir(m.prefix, d)
    requires exists k :: k in st[m.bucket].objects && StartsWith(k, d)
    ensures RemoveAll(d, m.prefix) in Names(Kept(ObjectsAt(st, m).value, false, true), m.prefix)
  {
    var es := ObjectsAt(st, m).value;
    var kept := Kept(es, false, true);
    DirIsListed(st, m, d);
    var e :| e in es && e.DirEntry? && e.name == d;
    assert e in kept;
    var i :| 0 <= i < |kept| && kept[i] == e;
    assert Names(kept, m.prefix)[i] == RemoveAll(d, m.prefix);
  }

  /** Every next-level directory that holds a key shows up in
      `_get_objects_at` as a directory entry. */
  lemma DirIsListed(st: Buckets, m: Match, d: string)
    requires m.bucket in st && ChildDir(m.prefix, d)
    requires exists k :: k in st[m.bucket].objects && StartsWith(k, d)
    ensures exists e :: e in ObjectsAt(st, m).value && e.DirEntry? && e.name == d
  {
    var objs := st[m.bucket].objects;
    var ls := ListObjects(st, m.bucket, m.prefix).value;
    var k :| k in objs && StartsWith(k, d);
    EntryNameIsChild(m.prefix, d, k);
    NameIsListed(st, m.bucket, m.prefix, d);
    var j :| 0 <= j < |ls| && ls[j].name == d;
    assert !NoSlash(d[|m.prefix|..]) by {
      assert d[|m.prefix|..][|d| - 1 - |m.prefix|] == '/';
    }
    InObjectsAt(st, m, j);
  }

  /** The name of a directory is cut short when the listed prefix occurs in
      it again: below prefix "ab/", directory "ab/cab/" is listed as "c". */
  lemma ListdirRepeatedPrefix()
    ensures RemoveAll("ab/cab/", "ab/") == "c"
    ensures ChildDir("ab/", "ab/cab/")
  {
    assert StartsWith("ab/cab/", "ab/");
    assert "ab/cab/"[3..] == "cab/";
    assert "cab/"[..3] != "ab/" by { assert "cab/"[..3][0] == 'c'; }
    assert "cab/"[1..] == "ab/";
    assert StartsWith("ab/", "ab/");
    assert "ab/"[3..] == "";
  }

  // ---------------------------------------------------------------------------
  // Metadata

  /** A metadata key as `_extract_metadata` hands it back: every
      "X-Amz-Meta-" deleted, then lower-cased. */
  function MetaKey(k: string): string {
    Lower(RemoveAll(k, MetaHeader))
  }

  /** Pair `i` is the last one with key `k`. */
  predicate LastWith(pairs: seq<(string, string)>, i: int, k: string) {
    0 <= i < |pairs| && pairs[i].0 == k &&
    forall j :: i < j < |pairs| ==> pairs[j].0 != k
  }

  /** A dictionary built from key-value pairs in order: its keys are the
      pairs' keys. */
  function DictOf(pairs: seq<(string, string)>): (r: map<string, string>)
    ensures forall k :: k in r <==> exists i :: 0 <= i < |pairs| && pairs[i].0 == k
  {
    if pairs == [] then map[]
    else
      var init := pairs[..|pairs| - 1];
      assert forall i :: 0 <= i < |init| ==> init[i] == pairs[i];
      DictOf(init)[pairs[|pairs| - 1].0 := pairs[|pairs| - 1].1]
  }

  /** Of several pairs with one key, the last one's value is kept. */
  lemma {:induction false} DictOfLast(pairs: seq<(string, string)>, i: int)
    requires 0 <= i < |pairs| && LastWith(pairs, i, pairs[i].0)
    ensures DictOf(pairs)[pairs[i].0] == pairs[i].1
  {
    if i < |pairs| - 1 {
      var init := pairs[..|pairs| - 1];
      assert init[i] == pairs[i];
      DictOfLast(init, i);
    }
  }

  /** `_extract_metadata`: the dictionary of the pairs with their keys as
      `MetaKey` turns them. */
  function ExtractMetadata(pairs: seq<(string, string)>): map<string, string> {
    DictOf(seq(|pairs|, i requires 0 <= i < |pairs| => (MetaKey(pairs[i].0), pairs[i].1)))
  }

  /** User metadata stored by `put_data` comes back from `get` under the
      lower-cased key with the value last given for it, provided no key
      itself contains "X-Amz-Meta-". */
  lemma MetadataRoundTrip(user: seq<(string, string)>)
    requires forall i :: 0 <= i < |user| ==> NoOccurrence(user[i].0, MetaHeader)
    ensures var r := ExtractMetadata(AmzMetadata(user));
      (forall k :: k in r <==> exists i :: 0 <= i < |user| && k == Lower(user[i].0)) &&
      (forall i :: 0 <= i < |user| && (forall j :: i < j < |user| ==> Lower(user[j].0) != Lower(user[i].0)) ==>
        r[Lower(user[i].0)] == user[i].1)
  {
    var pairs := AmzMetadata(user);
    var ps := seq(|pairs|, i requires 0 <= i < |pairs| => (MetaKey(pairs[i].0), pairs[i].1));
    var r := DictOf(ps);
    assert r == ExtractMetadata(pairs);
    forall i | 0 <= i < |user|
      ensures ps[i] == (Lower(user[i].0), user[i].1)
    {
      assert pairs[i].0 == MetaHeader + user[i].0;
      RemoveAllLeading(MetaHeader, user[i].0);
      RemoveAllAbsent(user[i].0, MetaHeader);
    }
    forall i | 0 <= i < |user| && (forall j :: i < j < |user| ==> Lower(user[j].0) != Lower(user[i].0))
      ensures r[Lower(user[i].0)] == user[i].1
    {
      assert LastWith(ps, i, ps[i].0);
      DictOfLast(ps, i);
    }
    forall k
      ensures k in r <==> exists i :: 0 <= i < |user| && k == Lower(user[i].0)
    {
      if k in r {
        var i :| 0 <= i < |ps| && ps[i].0 == k;
      }
      if i :| 0 <= i < |user| && k == Lower(user[i].0) {
        assert ps[i].0 == k;
      }
    }
  }

  /** The `metadata` dictionary of `get`: what the store reports, updated
      with the extracted user metadata `u`, which overrides it. */
  function Details(isDir: bool, lastModified: Option<nat>, size: nat, u: map<string, string>)
    : (r: map<string, MetaValue>)
    ensures r.Keys == {"is_dir", "last_modified", "size"} + u.Keys
    ensures forall k :: k in u ==> r[k] == Str(u[k])
    ensures "is_dir" !in u ==> r["is_dir"] == Flag(isDir)
    ensures "last_modified" !in u ==> r["last_modified"] == Stamp(lastModified)
    ensures "size" !in u ==> r["size"] == Size(size)
  {
    map["is_dir" := Flag(isDir), "last_modified" := Stamp(lastModified), "size" := Size(size)] +
      map k | k in u :: Str(u[k])
  }

  function FileMetadata(o: Obj): map<string, MetaValue> {
    Details(false, Some(o.modified), |o.data|, ExtractMetadata(o.metadata))
  }

  function EntryMetadata(e: Entry): map<string, MetaValue> {
    Details(e.IsDir(), e.LastModified(), e.Size(), ExtractMetadata(if e.FileEntry? then e.metadata else []))
  }

  // ---------------------------------------------------------------------------
  // get, exists, isdir

  /** `next(filter(lambda obj: obj.object_name == n, objects))`. */
  function FirstNamed(es: seq<Entry>, n: string): (r: Option<Entry>)
    ensures r.Some? <==> exists i :: 0 <= i < |es| && es[i].name == n
    ensures r.Some? ==> r.value in es && r.value.name == n
  {
    if es == [] then None
    else if es[0].name == n then Some(es[0])
    else
      assert forall i :: 1 <= i < |es| ==> es[i] == es[1..][i - 1];
      FirstNamed(es[1..], n)
  }

  /** `get`: a file is read with its metadata; a directory is looked up among
      the entries of its parent.  A bucket path, a missing key and a missing
      directory are ValueError; other store errors pass through. */
  function Get(st: Buckets, path: string): (r: Result<ObjectData, Error>)
  {
    match Parse(path)
    case None => Err(ValueError)
    case Some(m) =>
      if m.IsBucket() then Err(ValueError)
      else if m.IsFile() then GetFileAt(st, m, path)
      else GetFolderAt(st, m, path)
  }

  /** `get` of a file: `get_object` and `stat_object` of its key; a missing
      key is a ValueError. */
  function GetFileAt(st: Buckets, m: Match, path: string): Result<ObjectData, Error> {
    match GetObject(st, m.bucket, m.RelativePath())
    case Ok(o) => Ok(File(m.filename, path, FileMetadata(o), o.data))
    case Err(e) => if e == NoSuchKey then Err(ValueError) else Err(StoreFailure(e))
  }

  /** `get` of a directory: its entry in the listing of its parent. */
  function GetFolderAt(st: Buckets, m: Match, path: string): Result<ObjectData, Error> {
    match ListObjects(st, m.bucket, ParentPrefix(m.prefix))
    case Err(e) => Err(StoreFailure(e))
    case Ok(es) =>
      match FirstNamed(es, m.RelativePath())
      case None => Err(ValueError)
      case Some(e) => Ok(Folder(Basename(TrimSlash(e.name)) + "/", path, EntryMetadata(e)))
  }

  /** The metadata of every directory `get` returns. */
  const DirectoryMetadata: map<string, MetaValue> := Details(true, None, 0, map[])

  /** A directory name is its parent, its last segment, and '/'. */
  lemma SplitDirName(p: string, parent: string)
    requires StartsWith(p, parent) && |parent| < |p| && EndsWithSlash(p)
    ensures TrimSlash(p) == parent + p[|parent|..|p| - 1]
    ensures p[|parent|..] == p[|parent|..|p| - 1] + "/"
  {
    assert p[..|parent|] == parent;
  }

  /** The last segment of a joined name. */
  lemma BasenameAfter(parent: string, seg: string)
    requires parent == "" || EndsWithSlash(parent)
    requires NoSlash(seg)
    ensures Basename(parent + seg) == seg
  {
    var s := parent + seg;
    LastSlashIs(s, |s|, |parent| - 1);
    assert s[|parent|..] == seg;
  }

  /** A directory below a bucket is found exactly when some key lies in it;
      it then comes back as its last segment with a '/', and with the
      metadata of a directory entry. */
  lemma GetFolder(st: Buckets, path: string)
    requires Parse(path).Some?
    requires var m := Parse(path).value;
      !m.IsRoot() && m.IsDir() && !m.IsBucket() && m.bucket in st
    ensures var m := Parse(path).value;
      var objs := st[m.bucket].objects;
      (Get(st, path).Ok? <==> exists k :: k in objs && StartsWith(k, m.prefix)) &&
      (Get(st, path).Err? ==> Get(st, path) == Err(ValueError)) &&
      (Get(st, path).Ok? ==>
        Get(st, path) == Ok(Folder(m.prefix[|ParentPrefix(m.prefix)|..], path, DirectoryMetadata)))
  {
    var m := Parse(path).value;
    Classification(path, m);
    ParseShape(path, m);
    assert m.RelativePath() == m.prefix;
    assert Get(st, path) == GetFolderAt(st, m, path);
    FolderAt(st, m, path);
  }

  /** The lookup of a directory below a bucket, once `path` is parsed. */
  lemma FolderAt(st: Buckets, m: Match, path: string)
    requires m.bucket in st && PrefixShaped(m.prefix) && m.prefix != "" && m.RelativePath() == m.prefix
    ensures var objs := st[m.bucket].objects;
      var r := GetFolderAt(st, m, path);
      (r.Ok? <==> exists k :: k in objs && StartsWith(k, m.prefix)) &&
      (r.Err? ==> r == Err(ValueError)) &&
      (r.Ok? ==> r == Ok(Folder(m.prefix[|ParentPrefix(m.prefix)|..], path, DirectoryMetadata)))
  {
    var es := ListObjects(st, m.bucket, ParentPrefix(m.prefix)).value;
    FolderLookup(st, m.bucket, m.prefix);
    var f := FirstNamed(es, m.prefix);
    if f.Some? {
      DirEntryMetadata(m.prefix);
      assert GetFolderAt(st, m, path) ==
        Ok(Folder(Basename(TrimSlash(m.prefix)) + "/", path, EntryMetadata(DirEntry(m.prefix))));
    } else {
      assert GetFolderAt(st, m, path) == Err(ValueError);
    }
  }

  /** A directory's entry carries the metadata of every directory. */
  lemma DirEntryMetadata(p: string)
    ensures EntryMetadata(DirEntry(p)) == DirectoryMetadata
  {
    NoUserMetadata();
  }

  lemma NoUserMetadata()
    ensures ExtractMetadata([]) == map[]
  {
    assert seq(0, i requires 0 <= i < 0 => ("", "")) == [];
  }

  /** The lookup `get` makes for a directory, at the level of the store. */
  lemma FolderLookup(st: Buckets, bucket: string, p: string)
    requires bucket in st && PrefixShaped(p) && p != ""
    ensures var objs := st[bucket].objects;
      var es := ListObjects(st, bucket, ParentPrefix(p)).value;
      var f := FirstNamed(es, p);
      (f.Some? <==> exists k :: k in objs && StartsWith(k, p)) &&
      (f.Some? ==> f.value == DirEntry(p) && Basename(TrimSlash(p)) + "/" == p[|ParentPrefix(p)|..])
  {
    FolderFound(st, bucket, p);
    FolderEntry(st, bucket, p);
    FolderName(p);
  }

  lemma FolderFound(st: Buckets, bucket: string, p: string)
    requires bucket in st && PrefixShaped(p) && p != ""
    ensures var objs := st[bucket].objects;
      var es := ListObjects(st, bucket, ParentPrefix(p)).value;
      FirstNamed(es, p).Some? <==> exists k :: k in objs && StartsWith(k, p)
  {
    var objs := st[bucket].objects;
    var parent := ParentPrefix(p);
    var es := ListObjects(st, bucket, parent).value;
    PrefixIsChild(p);
    if k :| k in objs && StartsWith(k, p) {
      EntryNameIsChild(parent, p, k);
      NameIsListed(st, bucket, parent, p);
    }
    if FirstNamed(es, p).Some? {
      ListedEntry(st, bucket, parent, FirstNamed(es, p).value);
    }
  }

  lemma FolderEntry(st: Buckets, bucket: string, p: string)
    requires bucket in st && PrefixShaped(p) && p != ""
    ensures var es := ListObjects(st, bucket, ParentPrefix(p)).value;
      FirstNamed(es, p).Some? ==> FirstNamed(es, p).value == DirEntry(p)
  {
    var parent := ParentPrefix(p);
    var es := ListObjects(st, bucket, parent).value;
    if FirstNamed(es, p).Some? {
      ListedEntry(st, bucket, parent, FirstNamed(es, p).value);
      assert p[|parent|..][|p| - 1 - |parent|] == '/';
    }
  }

  /** `join(basename(normpath(name)), '')`: a directory's last segment and
      a '/'. */
  lemma FolderName(p: string)
    requires PrefixShaped(p) && p != ""
    ensures Basename(TrimSlash(p)) + "/" == p[|ParentPrefix(p)|..]
  {
    var parent := ParentPrefix(p);
    var seg := p[|parent|..|p| - 1];
    SplitDirName(p, parent);
    BasenameAfter(parent, seg);
  }

  /** `get` of a bucket path is refused: a bucket is not an object. */
  lemma GetBucketPath(st: Buckets, path: string)
    requires Parse(path).Some? && Parse(path).value.IsBucket()
    ensures Get(st, path) == Err(ValueError)
  {
  }

  /** Once the bucket exists, `get` fails only with ValueError: the
      `except ValueError` of `exists` catches every failure. */
  lemma GetErrorsInBucket(st: Buckets, path: string)
    requires Parse(path).Some? && !Parse(path).value.IsRoot() && Parse(path).value.bucket in st
    ensures Get(st, path).Err? ==> Get(st, path) == Err(ValueError)
  {
  }

  /** `exists`: a path that does not parse does not exist; the root always
      does; otherwise the bucket must exist and, below it, `get` succeed. */
  function Exists(st: Buckets, path: string): bool {
    match Parse(path)
    case None => false
    case Some(m) =>
      if m.IsRoot() then true
      else if m.bucket !in st then false
      else if m.IsBucket() then true
      else Get(st, path).Ok?
  }

  /** What exists: the root, every bucket, every stored key, and every
      directory that some key lies in. */
  lemma ExistsIff(st: Buckets, path: string)
    ensures Exists(st, path) <==>
      Parse(path).Some? &&
      var m := Parse(path).value;
      m.IsRoot() ||
      (m.bucket in st &&
        (m.IsBucket() ||
         (m.IsFile() && m.prefix + m.filename in st[m.bucket].objects) ||
         (m.IsDir() && exists k :: k in st[m.bucket].objects && StartsWith(k, m.prefix))))
  {
    if Parse(path).Some? {
      var m := Parse(path).value;
      Classification(path, m);
      if !m.IsRoot() {
        ParseShape(path, m);
        if m.bucket in st && m.IsDir() && !m.IsBucket() {
          GetFolder(st, path);
        }
      }
    }
  }

  /** `isdir`: ValueError when the path does not parse (the `Match` comes
      first), otherwise whether it exists and names a directory. */
  function Isdir(st: Buckets, path: string): (r: Result<bool, Error>)
    ensures Parse(path).None? <==> r == Err(ValueError)
    ensures r.Ok? ==> (r.value <==> Exists(st, path) && Parse(path).value.filename == "")
  {
    match Parse(path)
    case None => Err(ValueError)
    case Some(m) => Ok(Exists(st, path) && m.IsDir())
  }

  // ---------------------------------------------------------------------------
  // Where a copy or a move lands: `_get_destination`

  /** Python's `s[:-1]`. */
  function DropLast(s: string): (r: string)
    ensures s == "" ==> r == ""
    ensures s != "" ==> s == r + [s[|s| - 1]]
  {
    if s == "" then "" else s[..|s| - 1]
  }

  /** `basename(join(bucket, prefix)[:-1])`: the name of the directory `m`. */
  function DirName(m: Match): string {
    Basename(DropLast(PosixJoin(m.bucket, m.prefix)))
  }

  /** A directory's name is its bucket when the prefix is empty and the
      prefix's last segment otherwise. */
  lemma DirNameIs(m: Match)
    requires BucketShaped(m.bucket) && PrefixShaped(m.prefix)
    ensures var seg := DirName(m);
      |seg| > 0 && NoSlash(seg) && NoNewline(seg) &&
      (m.prefix == "" ==> seg == m.bucket) &&
      (m.prefix != "" ==> m.prefix == ParentPrefix(m.prefix) + seg + "/")
  {
    var b, p := m.bucket, m.prefix;
    assert PosixJoin(b, p) == b + "/" + p by {
      assert b[|b| - 1] != '/';
    }
    if p == "" {
      BucketDirName(b);
    } else {
      SegmentDirName(b, p);
    }
  }

  lemma BucketDirName(b: string)
    requires BucketShaped(b)
    ensures Basename(DropLast(b + "/")) == b
  {
    assert DropLast(b + "/") == b;
  }

  lemma SegmentDirName(b: string, p: string)
    requires PrefixShaped(p) && p != ""
    ensures var seg := Basename(DropLast(b + "/" + p));
      |seg| > 0 && NoSlash(seg) && NoNewline(seg) && p == ParentPrefix(p) + seg + "/"
  {
    var parent := ParentPrefix(p);
    var seg := LastSegment(p);
    assert DropLast(b + "/" + p) == (b + "/" + parent) + seg by {
      assert b + "/" + p == (b + "/" + parent) + seg + "/";
    }
    BasenameAfter(b + "/" + parent, seg);
  }

  /** The last segment of a non-empty directory prefix, without its '/'. */
  lemma LastSegment(p: string) returns (seg: string)
    requires PrefixShaped(p) && p != ""
    ensures p == ParentPrefix(p) + seg + "/"
    ensures |seg| > 0 && NoSlash(seg) && NoNewline(seg)
  {
    var parent := ParentPrefix(p);
    seg := p[|parent|..|p| - 1];
    assert p == p[..|parent|] + seg + [p[|p| - 1]];
    forall x | 0 <= x < |seg|
      ensures seg[x] != '\n'
    {
      assert seg[x] == p[|parent| + x];
    }
  }

  /** `_get_destination`: a file goes where `infer_operation_destination`
      says; a directory onto a file path is refused; a directory onto an
      existing directory goes one level below it, under its own name; onto a
      missing directory it goes to that very path. */
  function GetDestination(st: Buckets, fromPath: string, toPath: string): (r: Result<Match, Error>)
    ensures r.Err? ==> r == Err(ValueError)
    ensures Parse(fromPath).None? || Parse(toPath).None? ==> r == Err(ValueError)
    ensures Parse(fromPath).Some? && Parse(fromPath).value.IsFile() && Parse(toPath).Some? ==>
      var d := InferOperationDestination(Parse(fromPath).value, Parse(toPath).value);
      (d.None? ==> r == Err(ValueError)) && (d.Some? ==> r == Ok(d.value))
    ensures Parse(fromPath).Some? && Parse(fromPath).value.IsDir() && Parse(toPath).Some? ==>
      var tm := Parse(toPath).value;
      (tm.IsFile() ==> r == Err(ValueError)) &&
      (tm.IsDir() && !Exists(st, tm.path) ==> r == Ok(tm))
  {
    match Parse(fromPath)
    case None => Err(ValueError)
    case Some(fm) =>
      match Parse(toPath)
      case None => Err(ValueError)
      case Some(tm) =>
        if fm.IsFile() then
          match InferOperationDestination(fm, tm)
          case None => Err(ValueError)
          case Some(d) => Ok(d)
        else if tm.IsDir() then
          if Exists(st, tm.path) then Inside(fm, tm)
          else Ok(tm)
        else Err(ValueError)
  }

  /** The directory one level below `tm` named after the directory `fm`:
      `Match(join(tm.path, basename(join(fm.bucket, fm.prefix)[:-1]), ''))`. */
  function Inside(fm: Match, tm: Match): Result<Match, Error> {
    match Parse(PosixJoin(PosixJoin(tm.path, DirName(fm)), ""))
    case None => Err(ValueError)
    case Some(d) => Ok(d)
  }

  /** A directory copied or moved into an existing directory lands one level
      below it, under its own last segment; into the root, it becomes a
      bucket of that name. */
  lemma DestinationInsideExisting(st: Buckets, fromPath: string, toPath: string)
    requires Parse(fromPath).Some? && Parse(toPath).Some?
    requires var fm := Parse(fromPath).value; !fm.IsRoot() && fm.IsDir()
    requires var tm := Parse(toPath).value; tm.IsDir() && Canonical(tm) && Exists(st, tm.path)
    ensures var fm := Parse(fromPath).value;
      var tm := Parse(toPath).value;
      var seg := DirName(fm);
      GetDestination(st, fromPath, toPath) ==
        if tm.IsRoot() then Ok(Match(Root + seg + "/", seg, "", ""))
        else Ok(Match(tm.path + seg + "/", tm.bucket, tm.prefix + seg + "/", ""))
  {
    var fm := Parse(fromPath).value;
    var tm := Parse(toPath).value;
    ParseShape(fromPath, fm);
    DirNameIs(fm);
    DestinationOfDirectory(st, fromPath, toPath);
    if tm.IsRoot() {
      IntoRoot(tm, DirName(fm));
    } else {
      ParseShape(toPath, tm);
      IntoDirectory(tm, DirName(fm));
    }
  }

  lemma IntoRoot(tm: Match, seg: string)
    requires tm.IsRoot() && |seg| > 0 && NoSlash(seg) && NoNewline(seg)
    ensures Parse(PosixJoin(PosixJoin(tm.path, seg), "")) == Some(Match(Root + seg + "/", seg, "", ""))
  {
    assert PosixJoin(PosixJoin(tm.path, seg), "") == "/" + seg + "/" + "" + "";
    ParseCanonical(seg, "", "");
  }

  lemma IntoDirectory(tm: Match, seg: string)
    requires BucketShaped(tm.bucket) && PrefixShaped(tm.prefix) && tm.filename == ""
    requires tm.path == "/" + tm.bucket + "/" + tm.prefix + tm.filename
    requires |seg| > 0 && NoSlash(seg) && NoNewline(seg)
    ensures Parse(PosixJoin(PosixJoin(tm.path, seg), "")) ==
      Some(Match(tm.path + seg + "/", tm.bucket, tm.prefix + seg + "/", ""))
  {
    JoinBelow(tm, seg);
    ExtendPrefix(tm.prefix, seg);
    ParseCanonical(tm.bucket, tm.prefix + seg + "/", "");
  }

  /** The branch of `_get_destination` for a directory into an existing one. */
  lemma DestinationOfDirectory(st: Buckets, fromPath: string, toPath: string)
    requires Parse(fromPath).Some? && Parse(fromPath).value.IsDir()
    requires Parse(toPath).Some? && Parse(toPath).value.IsDir() && Exists(st, Parse(toPath).value.path)
    ensures GetDestination(st, fromPath, toPath) == Inside(Parse(fromPath).value, Parse(toPath).value)
  {
  }

  lemma JoinBelow(tm: Match, seg: string)
    requires PrefixShaped(tm.prefix) && tm.path == "/" + tm.bucket + "/" + tm.prefix + tm.filename
    requires tm.filename == "" && |seg| > 0 && NoSlash(seg)
    ensures PosixJoin(PosixJoin(tm.path, seg), "") == "/" + tm.bucket + "/" + (tm.prefix + seg + "/") + ""
    ensures tm.path + seg + "/" == "/" + tm.bucket + "/" + (tm.prefix + seg + "/") + ""
  {
    assert EndsWithSlash(tm.path);
    assert seg[0] != '/';
    var x := tm.path + seg;
    assert PosixJoin(tm.path, seg) == x;
    assert x[|x| - 1] == seg[|seg| - 1];
    assert PosixJoin(x, "") == x + "/";
  }

  // ---------------------------------------------------------------------------
  // The newest file of a directory: `get_last_object`

  function GetLastObject(st: Buckets, path: string): (r: Result<Option<ObjectData>, Error>)
    ensures ValidateDirectory(path).Err? ==> r == Err(ValueError)
    ensures ValidateDirectory(path).Ok? && ValidateDirectory(path).value.IsRoot() ==> r == Ok(None)
  {
    match ValidateDirectory(path)
    case Err(e) => Err(e)
    case Ok(m) =>
      match Listdir(st, path, true, false)
      case Err(e) => Err(e)
      case Ok(names) =>
        if names == [] then Ok(None)
        else
          match Get(st, PosixJoin(PosixJoin(Root, m.bucket), PosixJoin(m.prefix, names[0])))
          case Err(e) => Err(e)
          case Ok(o) => Ok(Some(o))
  }

  /** A key directly inside the directory `p`. */
  predicate FileIn(objs: map<string, Obj>, p: string, k: string) {
    k in objs && StartsWith(k, p) && k != p && NoSlash(k[|p|..])
  }

  /** A file directly inside `p` whose last-modified time is the greatest. */
  ghost predicate NewestIn(objs: map<string, Obj>, p: string, k: string) {
    FileIn(objs, p, k) && forall k' :: FileIn(objs, p, k') ==> objs[k'].modified <= objs[k].modified
  }

  /** In an existing bucket, `get_last_object` returns None exactly when
      no file lies directly inside the directory. */
  lemma GetLastObjectNone(st: Buckets, path: string, m: Match)
    requires ValidateDirectory(path) == Ok(m) && !m.IsRoot() && m.bucket in st
    ensures GetLastObject(st, path) == Ok(None) <==> forall k :: !FileIn(st[m.bucket].objects, m.prefix, k)
  {
    var names := FilesListed(st, path, m);
    if names != [] {
      LastObjectIs(st, path, m, names);
      assert names[0] in names;
    }
  }

  /** A file, as opposed to a directory, None or an error. */
  predicate GivesFile(r: Result<Option<ObjectData>, Error>) {
    r.Ok? && r.value.Some? && r.value.value.File?
  }

  /** When the directory holds files, `get_last_object` reads the newest of
      them with `get`. A name of two characters or more comes back as that
      file; a one-character name is dropped when the joined path is parsed
      again, so what comes back is never that file. */
  lemma GetLastObjectNewest(st: Buckets, path: string, m: Match) returns (k: string)
    requires WellFormed(st)
    requires ValidateDirectory(path) == Ok(m) && !m.IsRoot() && m.bucket in st
    requires Listdir(st, path, true, false) != Ok([])
    ensures var objs := st[m.bucket].objects;
      NewestIn(objs, m.prefix, k) &&
      (|k| >= |m.prefix| + 2 ==>
         GetLastObject(st, path) ==
           Ok(Some(File(k[|m.prefix|..], "/" + m.bucket + "/" + k, FileMetadata(objs[k]), objs[k].data)))) &&
      (|k| < |m.prefix| + 2 ==>
         !GivesFile(GetLastObject(st, path)))
  {
    var names := FilesListed(st, path, m);
    k := NewestListed(st, m, names);
    ParseShape(path, m);
    LastObjectIs(st, path, m, names);
    if |k| >= |m.prefix| + 2 {
      GetListedFile(st, m.bucket, m.prefix, names[0]);
      KeyPath(m.bucket, m.prefix, names[0], k);
    } else {
      GetListedOneCharacter(st, m.bucket, m.prefix, names[0]);
    }
  }

  lemma KeyPath(b: string, p: string, x: string, k: string)
    requires k == p + x
    ensures "/" + b + "/" + k == "/" + b + "/" + p + x
  {
  }

  /** The files-only listing of an existing bucket's directory, with what
      `ListdirFiles` says about it. */
  lemma FilesListed(st: Buckets, path: string, m: Match) returns (names: seq<string>)
    requires ValidateDirectory(path) == Ok(m) && !m.IsRoot() && m.bucket in st
    ensures Listdir(st, path, true, false) == Ok(names)
    ensures var objs := st[m.bucket].objects;
      (forall x :: x in names <==> exists k :: FileIn(objs, m.prefix, k) && x == k[|m.prefix|..]) &&
      (forall i :: 0 <= i < |names| ==> m.prefix + names[i] in objs) &&
      (forall i, j :: 0 <= i < j < |names| ==>
        objs[m.prefix + names[i]].modified >= objs[m.prefix + names[j]].modified)
    ensures forall k :: FileIn(st[m.bucket].objects, m.prefix, k) ==> k[|m.prefix|..] in names
  {
    ListdirFiles(st, path, false);
    names := Listdir(st, path, true, false).value;
    forall k | FileIn(st[m.bucket].objects, m.prefix, k)
      ensures k[|m.prefix|..] in names
    {
    }
  }

  /** `get_last_object` reads the first name of the files-only listing. */
  lemma LastObjectIs(st: Buckets, path: string, m: Match, names: seq<string>)
    requires ValidateDirectory(path) == Ok(m) && !m.IsRoot()
    requires Listdir(st, path, true, false) == Ok(names) && names != []
    ensures GetLastObject(st, path) ==
      match Get(st, PosixJoin(PosixJoin(Root, m.bucket), PosixJoin(m.prefix, names[0])))
      case Err(e) => Err(e)
      case Ok(o) => Ok(Some(o))
  {
  }

  /** The first name of a `files_only` listing names the newest file. */
  lemma NewestListed(st: Buckets, m: Match, names: seq<string>) returns (k: string)
    requires m.bucket in st && names != []
    requires var objs := st[m.bucket].objects;
      (forall x :: x in names <==> exists k :: FileIn(objs, m.prefix, k) && x == k[|m.prefix|..]) &&
      (forall i :: 0 <= i < |names| ==> m.prefix + names[i] in objs) &&
      (forall i, j :: 0 <= i < j < |names| ==>
        objs[m.prefix + names[i]].modified >= objs[m.prefix + names[j]].modified)
    ensures var objs := st[m.bucket].objects;
      k == m.prefix + names[0] && FileIn(objs, m.prefix, k) && k[|m.prefix|..] == names[0] &&
      forall k' :: FileIn(objs, m.prefix, k') ==> objs[k'].modified <= objs[k].modified
  {
    var objs := st[m.bucket].objects;
    k := m.prefix + names[0];
    assert names[0] in names;
    var k0 :| FileIn(objs, m.prefix, k0) && names[0] == k0[|m.prefix|..];
    assert k0 == k;
    forall k' | FileIn(objs, m.prefix, k')
      ensures objs[k'].modified <= objs[k].modified
    {
      var x' := k'[|m.prefix|..];
      assert x' in names;
      var j :| 0 <= j < |names| && names[j] == x';
      assert k' == m.prefix + x';
      if j > 0 {
        assert objs[m.prefix + names[0]].modified >= objs[m.prefix + names[j]].modified;
      }
    }
  }

  /** `get` of the path that `get_last_object` builds for a listed file. */
  lemma GetListedFile(st: Buckets, b: string, p: string, x: string)
    requires WellFormed(st) && b in st && PrefixShaped(p)
    requires FileIn(st[b].objects, p, p + x) && (p + x)[|p|..] == x && |x| >= 2
    ensures var s := "/" + b + "/" + p + x;
      PosixJoin(PosixJoin(Root, b), PosixJoin(p, x)) == s &&
      Get(st, s) == Ok(File(x, s, FileMetadata(st[b].objects[p + x]), st[b].objects[p + x].data))
  {
    var k := p + x;
    assert ValidKey(k) && ValidBucketName(b);
    assert x[0] != '/' by {
      assert x[0] == k[|p|];
    }
    assert k[0] != '/';
    forall j | 0 <= j < |x| - 1
      ensures x[j] != '\n'
    {
      assert x[j] == k[|p| + j];
    }
    GetFile(st, b, p, x);
    LastObjectPath(b, p, x);
  }

  /** `get` of the path joined for a listed file of one character: the
      character is dropped, so the path names the directory itself. */
  lemma GetListedOneCharacter(st: Buckets, b: string, p: string, x: string)
    requires WellFormed(st) && b in st && PrefixShaped(p)
    requires FileIn(st[b].objects, p, p + x) && (p + x)[|p|..] == x && |x| < 2
    ensures var s := "/" + b + "/" + p + x;
      PosixJoin(PosixJoin(Root, b), PosixJoin(p, x)) == s &&
      Parse(s) == Some(Match(s, b, p, "")) &&
      !(Get(st, s).Ok? && Get(st, s).value.File?)
  {
    var k := p + x;
    assert ValidBucketName(b);
    assert x == [x[0]];
    assert x[0] != '/' by {
      assert x[0] == k[|p|];
    }
    GetDroppedCharacter(st, b, p, x[0]);
    LastObjectPath(b, p, x);
  }

  /** `get` of a directory path followed by one character reads that
      directory, never a file. */
  lemma GetDroppedCharacter(st: Buckets, b: string, p: string, c: char)
    requires BucketShaped(b) && PrefixShaped(p) && c != '/'
    ensures var s := "/" + b + "/" + p + [c];
      Parse(s) == Some(Match(s, b, p, "")) &&
      !(Get(st, s).Ok? && Get(st, s).value.File?)
  {
    ParseDropsOneCharacterSegment(b, p, c);
  }

  /** The path `get_last_object` joins from bucket, prefix and name is the canonical one. */
  lemma LastObjectPath(b: string, p: string, x: string)
    requires BucketShaped(b) && PrefixShaped(p) && |x| > 0 && x[0] != '/'
    ensures PosixJoin(PosixJoin(Root, b), PosixJoin(p, x)) == "/" + b + "/" + p + x
  {
    JoinRelative(p, x);
    JoinBucket(b);
    assert "/" + b + "/" + (p + x) == "/" + b + "/" + p + x;
  }

  /** Joining a name that does not start with '/' onto a prefix concatenates
      them, and the result does not start with '/' either. */
  lemma JoinRelative(p: string, x: string)
    requires PrefixShaped(p) && |x| > 0 && x[0] != '/'
    ensures PosixJoin(p, x) == p + x && (p + x)[0] != '/'
  {
    if p != "" {
      assert (p + x)[0] == p[0];
    }
  }

  /** Joining a bucket onto the root gives "/" + bucket, which does not end
      with '/'. */
  lemma JoinBucket(b: string)
    requires BucketShaped(b)
    ensures PosixJoin(Root, b) == "/" + b && !EndsWithSlash("/" + b) && "/" + b != ""
  {
    assert ("/" + b)[|"/" + b| - 1] == b[|b| - 1];
  }

  /** `get` of a canonical file path reads the object at prefix + filename. */
  lemma GetFile(st: Buckets, b: string, p: string, x: string)
    requires BucketShaped(b) && PrefixShaped(p) && FilenameShaped(x) && x != ""
    requires b in st && p + x in st[b].objects
    ensures var s := "/" + b + "/" + p + x;
      Get(st, s) == Ok(File(x, s, FileMetadata(st[b].objects[p + x]), st[b].objects[p + x].data))
  {
    ParseCanonical(b, p, x);
    var s := "/" + b + "/" + p + x;
    var m := Match(s, b, p, x);
    assert m.RelativePath() == p + x;
    GetOfFile(st, s, m);
    GetStoredFile(st, s, m);
  }

  /** `get` of a path that parses as a file reads that file. */
  lemma GetOfFile(st: Buckets, path: string, m: Match)
    requires Parse(path) == Some(m) && m.IsFile() && m.RelativePath() != ""
    ensures Get(st, path) == GetFileAt(st, m, path)
  {
  }

  /** Reading a stored key gives its object's bytes and metadata. */
  lemma GetStoredFile(st: Buckets, path: string, m: Match)
    requires m.bucket in st && m.RelativePath() in st[m.bucket].objects
    ensures var o := st[m.bucket].objects[m.RelativePath()];
      GetFileAt(st, m, path) == Ok(File(m.filename, path, FileMetadata(o), o.data))
  {
  }
}
