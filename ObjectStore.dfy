// The object store pyminio drives, modelled in memory: the MinIO client
// calls that pyminio/main.py makes (bucket_exists, make_bucket,
// remove_bucket, list_buckets, put_object, get_object, stat_object,
// remove_object, remove_objects, copy_object, list_objects).
//
// A store is a map from bucket name to bucket; a bucket maps object keys to
// objects.  A "directory" has no existence of its own: it is a zero-length
// object whose key ends in '/', or simply a common prefix of keys.  Listing
// is non-recursive with '/' as the delimiter, in lexicographic name order,
// and never returns the listed prefix itself: that is the listing pyminio's
// tests expect, although S3 and MinIO's erasure mode do return the marker of
// a prefix equal to it.
module ObjectStore {
  import opened Text
  import opened Wrappers

  /** A stored object: its bytes, its last-modified time and its metadata as
      the server hands it back (user keys carry the "X-Amz-Meta-" prefix). */
  datatype Obj = Obj(data: seq<byte>, modified: nat, metadata: seq<(string, string)>)

  datatype Bucket = Bucket(created: nat, objects: map<string, Obj>)

  type Buckets = map<string, Bucket>

  datatype StoreError =
    | NoSuchBucket
    | NoSuchKey
    | BucketNotEmpty
    | BucketAlreadyExists
    | InvalidBucketName
    | InvalidObjectName
    | InvalidCopyDest

  /** The header prefix under which user metadata travels. */
  const MetaHeader: string := "X-Amz-Meta-"

  // ---------------------------------------------------------------------------
  // Names the store accepts

  predicate ValidBucketName(name: string) {
    |name| > 0 && NoSlash(name) && NoNewline(name)
  }

  /** No '/'-separated segment of `k` is "." or "..". */
  predicate NoDotSegment(k: string)
    decreases |k|
  {
    var i := FirstSlash(k);
    k[..i] != "." && k[..i] != ".." && (i == |k| || NoDotSegment(k[i + 1..]))
  }

  /** Object keys: non-empty, relative, no empty, "." or ".." segment, no line
      break. */
  predicate ValidKey(k: string) {
    |k| > 0 && k[0] != '/' && NoDoubleSlash(k) && NoNewline(k) && NoDotSegment(k)
  }

  predicate WellFormed(st: Buckets) {
    forall b :: b in st ==> ValidBucketName(b) && forall k :: k in st[b].objects ==> ValidKey(k)
  }

  // ---------------------------------------------------------------------------
  // Queries

  predicate BucketExists(st: Buckets, name: string) {
    name in st
  }

  /** `get_object` and `stat_object`: the object at `key`. */
  function GetObject(st: Buckets, bucket: string, key: string): (r: Result<Obj, StoreError>)
    ensures r.Ok? <==> bucket in st && key in st[bucket].objects
    ensures r.Ok? ==> r.value == st[bucket].objects[key]
    ensures bucket !in st ==> r == Err(NoSuchBucket)
    ensures bucket in st && key !in st[bucket].objects ==> r == Err(NoSuchKey)
  {
    if bucket !in st then Err(NoSuchBucket)
    else if key !in st[bucket].objects then Err(NoSuchKey)
    else Ok(st[bucket].objects[key])
  }

  /** `list_buckets`: every bucket with its creation date, by name. */
  function ListBuckets(st: Buckets): (r: seq<(string, nat)>)
    ensures |r| == |st.Keys|
    ensures forall i :: 0 <= i < |r| ==> r[i].0 in st && r[i].1 == st[r[i].0].created
    ensures forall b :: b in st ==> exists i :: 0 <= i < |r| && r[i].0 == b
  {
    Dated(st, LexSorted(st.Keys))
  }

  /** Each of the bucket names `names` with its creation date. */
  function Dated(st: Buckets, names: seq<string>): (r: seq<(string, nat)>)
    requires forall x :: x in names ==> x in st
    ensures |r| == |names|
    ensures forall i :: 0 <= i < |r| ==> r[i] == (names[i], st[names[i]].created)
    ensures forall b :: b in names ==> exists i :: 0 <= i < |r| && r[i].0 == b
  {
    var r := seq(|names|, i requires 0 <= i < |names| => (names[i], st[names[i]].created));
    assert forall b :: b in names ==> exists i :: 0 <= i < |r| && r[i].0 == b by {
      forall b | b in names
        ensures exists i :: 0 <= i < |r| && r[i].0 == b
      {
        var i :| 0 <= i < |names| && names[i] == b;
        assert r[i].0 == b;
      }
    }
    r
  }

  /** The name under which `key` appears when the keys below `prefix` are
      listed with '/' as delimiter: the key itself when only a last segment
      follows the prefix, otherwise the next-level directory holding it; None
      when the key is not strictly below the prefix. */
  function EntryName(prefix: string, key: string): (r: Option<string>)
    ensures r.Some? <==> StartsWith(key, prefix) && key != prefix
    ensures r.Some? ==> StartsWith(key, r.value) && StartsWith(r.value, prefix)
    ensures r.Some? ==> |r.value| > |prefix| && NoSlash(r.value[|prefix|..|r.value| - 1])
    ensures r.Some? && NoSlash(key[|prefix|..]) ==> r.value == key
    ensures r.Some? && !NoSlash(key[|prefix|..]) ==> EndsWithSlash(r.value)
  {
    if !StartsWith(key, prefix) || key == prefix then None
    else
      var rest := key[|prefix|..];
      var i := FirstSlash(rest);
      if i == |rest| then Some(key)
      else
        assert key == prefix + rest;
        var n := prefix + rest[..i + 1];
        assert n[|prefix|..] == rest[..i + 1];
        assert n[|prefix|..|n| - 1] == rest[..i];
        Some(n)
  }

  function EntryNames(objects: map<string, Obj>, prefix: string): set<string> {
    set k | k in objects && EntryName(prefix, k).Some? :: EntryName(prefix, k).value
  }

  /** One element of a listing.  A directory entry has no last-modified time
      and size 0. */
  datatype Entry =
    | FileEntry(name: string, modified: nat, size: nat, metadata: seq<(string, string)>)
    | DirEntry(name: string)
  {
    predicate IsDir() { DirEntry? }

    function LastModified(): Option<nat> {
      if FileEntry? then Some(modified) else None
    }

    function Size(): nat {
      if FileEntry? then size else 0
    }
  }

  /** The entry listed under name `n`: a file when `n` is a key with nothing
      but a last segment after the prefix, a directory otherwise. */
  function EntryFor(objects: map<string, Obj>, prefix: string, n: string): Entry {
    if n in objects && StartsWith(n, prefix) && NoSlash(n[|prefix|..]) then
      FileEntry(n, objects[n].modified, |objects[n].data|, objects[n].metadata)
    else
      DirEntry(n)
  }

  /** `list_objects(bucket, prefix)`, non-recursive. */
  function ListObjects(st: Buckets, bucket: string, prefix: string): (r: Result<seq<Entry>, StoreError>)
    ensures bucket !in st <==> r == Err(NoSuchBucket)
    ensures r.Ok? ==> |r.value| == |EntryNames(st[bucket].objects, prefix)|
    ensures r.Ok? ==> forall i :: 0 <= i < |r.value| ==>
      r.value[i].name in EntryNames(st[bucket].objects, prefix) &&
      r.value[i] == EntryFor(st[bucket].objects, prefix, r.value[i].name)
    ensures r.Ok? ==> forall i, j :: 0 <= i < j < |r.value| ==> LexLess(r.value[i].name, r.value[j].name)
  {
    if bucket !in st then Err(NoSuchBucket)
    else
      var objs := st[bucket].objects;
      var names := LexSorted(EntryNames(objs, prefix));
      var es := seq(|names|, i requires 0 <= i < |names| => EntryFor(objs, prefix, names[i]));
      assert forall i :: 0 <= i < |es| ==> es[i].name == names[i];
      Ok(es)
  }

  // ---------------------------------------------------------------------------
  // What a listing shows

  /** Every name is listed. */
  lemma NameIsListed(st: Buckets, bucket: string, prefix: string, n: string)
    requires bucket in st && n in EntryNames(st[bucket].objects, prefix)
    ensures var es := ListObjects(st, bucket, prefix).value;
      exists i :: 0 <= i < |es| && es[i].name == n
  {
    var objs := st[bucket].objects;
    var names := LexSorted(EntryNames(objs, prefix));
    var es := ListObjects(st, bucket, prefix).value;
    var i :| 0 <= i < |names| && names[i] == n;
    assert es[i].name == n;
  }

  /** A key strictly below the prefix shows up in the listing, under its own
      name or under the next-level directory that holds it. */
  lemma KeyIsListed(st: Buckets, bucket: string, prefix: string, key: string)
    requires bucket in st && key in st[bucket].objects
    requires StartsWith(key, prefix) && key != prefix
    ensures var es := ListObjects(st, bucket, prefix).value;
      exists i :: 0 <= i < |es| && es[i].name == EntryName(prefix, key).value
  {
    NameIsListed(st, bucket, prefix, EntryName(prefix, key).value);
  }

  /** A listing is empty exactly when no key lies strictly below the prefix:
      the prefix's own marker does not count. */
  lemma ListingEmptyIff(st: Buckets, bucket: string, prefix: string)
    requires bucket in st
    ensures ListObjects(st, bucket, prefix).value == [] <==>
      forall k :: k in st[bucket].objects ==> !(StartsWith(k, prefix) && k != prefix)
  {
    var objs := st[bucket].objects;
    if k :| k in objs && StartsWith(k, prefix) && k != prefix {
      KeyIsListed(st, bucket, prefix, k);
    }
  }

  /** The file entries of a listing are exactly the keys with nothing but a
      last segment after the prefix, with their own time, size and metadata. */
  lemma FileEntryIff(st: Buckets, bucket: string, prefix: string, key: string)
    requires bucket in st
    ensures var es := ListObjects(st, bucket, prefix).value;
      var objs := st[bucket].objects;
      (exists i :: 0 <= i < |es| && es[i].FileEntry? && es[i].name == key)
      <==>
      key in objs && StartsWith(key, prefix) && key != prefix && NoSlash(key[|prefix|..])
  {
    var es := ListObjects(st, bucket, prefix).value;
    var objs := st[bucket].objects;
    if key in objs && StartsWith(key, prefix) && key != prefix && NoSlash(key[|prefix|..]) {
      KeyIsListed(st, bucket, prefix, key);
    }
  }

  /** A listed entry is the entry of a name the listing holds. */
  lemma ListedAt(st: Buckets, bucket: string, prefix: string, e: Entry)
    requires bucket in st && e in ListObjects(st, bucket, prefix).value
    ensures e.name in EntryNames(st[bucket].objects, prefix) && e == EntryFor(st[bucket].objects, prefix, e.name)
  {
    var es := ListObjects(st, bucket, prefix).value;
    var j :| 0 <= j < |es| && es[j] == e;
  }

  /** Every directory entry names a next-level directory below the prefix
      that some key lies in; a file entry names a key directly below it. */
  lemma NamedEntryShape(objs: map<string, Obj>, prefix: string, e: Entry)
    requires e.name in EntryNames(objs, prefix) && e == EntryFor(objs, prefix, e.name)
    ensures StartsWith(e.name, prefix) && |e.name| > |prefix| &&
      NoSlash(e.name[|prefix|..|e.name| - 1]) &&
      (exists k :: k in objs && StartsWith(k, e.name)) &&
      (e.IsDir() ==> EndsWithSlash(e.name)) &&
      (!e.IsDir() ==> e.name in objs && NoSlash(e.name[|prefix|..]))
  {
    var k :| k in objs && EntryName(prefix, k).Some? && EntryName(prefix, k).value == e.name;
  }

  /** The shape of an entry given by membership, with the time, size
      and metadata a file entry carries. */
  lemma ListedEntry(st: Buckets, bucket: string, prefix: string, e: Entry)
    requires bucket in st && e in ListObjects(st, bucket, prefix).value
    ensures var objs := st[bucket].objects;
      StartsWith(e.name, prefix) && |e.name| > |prefix| &&
      NoSlash(e.name[|prefix|..|e.name| - 1]) &&
      (exists k :: k in objs && StartsWith(k, e.name)) &&
      (e.IsDir() ==> EndsWithSlash(e.name)) &&
      (!e.IsDir() ==>
        e.name in objs && NoSlash(e.name[|prefix|..]) &&
        e == FileEntry(e.name, objs[e.name].modified, |objs[e.name].data|, objs[e.name].metadata))
  {
    ListedAt(st, bucket, prefix, e);
    NamedEntryShape(st[bucket].objects, prefix, e);
  }

  // ---------------------------------------------------------------------------
  // The client: the calls that change the store

  /** The metadata the server records for a `put_object` with user
      metadata `user`: every key under the "X-Amz-Meta-" prefix. */
  function AmzMetadata(user: seq<(string, string)>): (r: seq<(string, string)>)
    ensures |r| == |user|
    ensures forall i :: 0 <= i < |r| ==>
      r[i].1 == user[i].1 && StartsWith(r[i].0, MetaHeader) && r[i].0[|MetaHeader|..] == user[i].0
  {
    seq(|user|, i requires 0 <= i < |user| => (MetaHeader + user[i].0, user[i].1))
  }

  /** The store with `o` stored at key `k` of the existing bucket `b`. */
  function WithObject(st: Buckets, b: string, k: string, o: Obj): (r: Buckets)
    requires b in st
    ensures r.Keys == st.Keys
    ensures r[b] == st[b].(objects := st[b].objects[k := o])
    ensures forall x :: x in st && x != b ==> r[x] == st[x]
  {
    st[b := st[b].(objects := st[b].objects[k := o])]
  }

  /** The store with the keys `ks` of the existing bucket `b` removed. */
  function WithoutKeys(st: Buckets, b: string, ks: set<string>): (r: Buckets)
    requires b in st
    ensures r.Keys == st.Keys
    ensures r[b] == st[b].(objects := st[b].objects - ks)
    ensures forall x :: x in st && x != b ==> r[x] == st[x]
  {
    st[b := st[b].(objects := st[b].objects - ks)]
  }

  /** Removing no key changes nothing. */
  lemma WithoutNothing(st: Buckets, b: string)
    requires b in st
    ensures WithoutKeys(st, b, {}) == st
  {
    assert st[b].objects - {} == st[b].objects;
  }

  /** Removing two sets of keys one after the other removes their union. */
  lemma WithoutKeysTwice(st: Buckets, b: string, ks1: set<string>, ks2: set<string>)
    requires b in st
    ensures WithoutKeys(WithoutKeys(st, b, ks1), b, ks2) == WithoutKeys(st, b, ks1 + ks2)
  {
    assert st[b].objects - ks1 - ks2 == st[b].objects - (ks1 + ks2);
  }

  class Store {
    var buckets: Buckets
    /** Stands in for the server's clock: every write is stamped with it. */
    var clock: nat

    ghost predicate Valid()
      reads this
    {
      WellFormed(buckets)
    }

    constructor ()
      ensures Valid() && buckets == map[] && clock == 1
    {
      buckets := map[];
      clock := 1;
    }

    /** `make_bucket`. */
    method MakeBucket(name: string) returns (r: Result<(), StoreError>)
      requires Valid()
      modifies this
      ensures Valid()
      ensures !ValidBucketName(name) ==> r == Err(InvalidBucketName) && buckets == old(buckets)
      ensures ValidBucketName(name) && name in old(buckets) ==>
        r == Err(BucketAlreadyExists) && buckets == old(buckets)
      ensures ValidBucketName(name) && name !in old(buckets) ==>
        r == Ok(()) && buckets == old(buckets)[name := Bucket(old(clock), map[])]
      ensures clock == if r.Ok? then old(clock) + 1 else old(clock)
    {
      if !ValidBucketName(name) {
        return Err(InvalidBucketName);
      }
      if name in buckets {
        return Err(BucketAlreadyExists);
      }
      buckets := buckets[name := Bucket(clock, map[])];
      clock := clock + 1;
      return Ok(());
    }

    /** `remove_bucket`: only an empty bucket can go. */
    method RemoveBucket(name: string) returns (r: Result<(), StoreError>)
      requires Valid()
      modifies this
      ensures Valid()
      ensures name !in old(buckets) ==> r == Err(NoSuchBucket) && buckets == old(buckets)
      ensures name in old(buckets) && old(buckets)[name].objects != map[] ==>
        r == Err(BucketNotEmpty) && buckets == old(buckets)
      ensures name in old(buckets) && old(buckets)[name].objects == map[] ==>
        r == Ok(()) && buckets == old(buckets) - {name}
      ensures clock == old(clock)
    {
      if name !in buckets {
        return Err(NoSuchBucket);
      }
      if buckets[name].objects != map[] {
        return Err(BucketNotEmpty);
      }
      buckets := buckets - {name};
      return Ok(());
    }

    /** `put_object`: stores the bytes under `key`, replacing what was there. */
    method PutObject(bucket: string, key: string, data: seq<byte>, metadata: seq<(string, string)>)
      returns (r: Result<(), StoreError>)
      requires Valid()
      modifies this
      ensures Valid()
      ensures bucket !in old(buckets) ==> r == Err(NoSuchBucket) && buckets == old(buckets)
      ensures bucket in old(buckets) && !ValidKey(key) ==>
        r == Err(InvalidObjectName) && buckets == old(buckets)
      ensures bucket in old(buckets) && ValidKey(key) ==>
        r == Ok(()) &&
        buckets == WithObject(old(buckets), bucket, key, Obj(data, old(clock), AmzMetadata(metadata)))
      ensures clock == if r.Ok? then old(clock) + 1 else old(clock)
    {
      if bucket !in buckets {
        return Err(NoSuchBucket);
      }
      if !ValidKey(key) {
        return Err(InvalidObjectName);
      }
      var b := buckets[bucket];
      buckets := buckets[bucket := b.(objects := b.objects[key := Obj(data, clock, AmzMetadata(metadata))])];
      clock := clock + 1;
      return Ok(());
    }

    /** `remove_object`: removing an absent key is not an error. */
    method RemoveObject(bucket: string, key: string) returns (r: Result<(), StoreError>)
      requires Valid()
      modifies this
      ensures Valid()
      ensures bucket !in old(buckets) ==> r == Err(NoSuchBucket) && buckets == old(buckets)
      ensures bucket in old(buckets) ==>
        r == Ok(()) && buckets == WithoutKeys(old(buckets), bucket, {key})
      ensures clock == old(clock)
    {
      if bucket !in buckets {
        return Err(NoSuchBucket);
      }
      var b := buckets[bucket];
      buckets := buckets[bucket := b.(objects := b.objects - {key})];
      return Ok(());
    }

    /** `remove_objects`: one request removing every listed key.  The client
        reports failures lazily, per key, and pyminio discards them, so a
        missing bucket leaves the store as it is. */
    method RemoveObjects(bucket: string, keys: seq<string>)
      requires Valid()
      modifies this
      ensures Valid()
      ensures bucket !in old(buckets) ==> buckets == old(buckets)
      ensures bucket in old(buckets) ==>
        buckets == WithoutKeys(old(buckets), bucket, set k | k in keys)
      ensures clock == old(clock)
    {
      if bucket in buckets {
        var b := buckets[bucket];
        buckets := buckets[bucket := b.(objects := b.objects - (set k | k in keys))];
      }
    }

    /** `copy_object`: a server-side copy of data and metadata.  A copy of
        an object onto its own key with its metadata unchanged is refused. */
    method CopyObject(bucket: string, key: string, srcBucket: string, srcKey: string)
      returns (r: Result<(), StoreError>)
      requires Valid()
      modifies this
      ensures Valid()
      ensures GetObject(old(buckets), srcBucket, srcKey).Err? ==>
        r == Err(GetObject(old(buckets), srcBucket, srcKey).error) && buckets == old(buckets)
      ensures GetObject(old(buckets), srcBucket, srcKey).Ok? && bucket !in old(buckets) ==>
        r == Err(NoSuchBucket) && buckets == old(buckets)
      ensures GetObject(old(buckets), srcBucket, srcKey).Ok? && bucket in old(buckets) && !ValidKey(key) ==>
        r == Err(InvalidObjectName) && buckets == old(buckets)
      ensures GetObject(old(buckets), srcBucket, srcKey).Ok? && bucket in old(buckets) && ValidKey(key) ==>
        (bucket == srcBucket && key == srcKey ==> r == Err(InvalidCopyDest) && buckets == old(buckets))
      ensures GetObject(old(buckets), srcBucket, srcKey).Ok? && bucket in old(buckets) && ValidKey(key) ==>
        (bucket != srcBucket || key != srcKey) ==>
        var src := old(buckets)[srcBucket].objects[srcKey];
        r == Ok(()) && buckets == WithObject(old(buckets), bucket, key, src.(modified := old(clock)))
      ensures clock == if r.Ok? then old(clock) + 1 else old(clock)
    {
      var src := GetObject(buckets, srcBucket, srcKey);
      if src.Err? {
        return Err(src.error);
      }
      if bucket !in buckets {
        return Err(NoSuchBucket);
      }
      if !ValidKey(key) {
        return Err(InvalidObjectName);
      }
      if bucket == srcBucket && key == srcKey {
        return Err(InvalidCopyDest);
      }
      var b := buckets[bucket];
      buckets := buckets[bucket := b.(objects := b.objects[key := src.value.(modified := clock)])];
      clock := clock + 1;
      return Ok(());
    }
  }
}
