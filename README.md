# pyminio, modelled in Dafny

pyminio gives a MinIO object store an `os`-like face. A path "/bucket/prefix/filename" names a bucket, a directory (a zero-length object whose key ends in "/") or a file (an object), and the library offers `mkdirs`, `listdir`, `exists`, `isdir`, `get`, `put_data`, `put_file`, `rm`, `rmdir`, `truncate`, `cp`, `mv` and `get_last_object` over it.

This project models two layers of it and proves what they promise:

- **Path resolution** (`Match` in `pyminio/structures.py`) is modelled in `Structures.dfy`. It covers the `re.sub("/+", "/")` normalisation (`Collapse`) and the prefix-anchored pattern `/(?P<bucket>.*?)/+(?P<prefix>.*/+)?(?P<filename>.+[^/])?` (`Parse`, which yields a `Match`). It also covers the classification into root, bucket, directory and file, and `infer_operation_destination`.
- **The directory engine** (`Pyminio` in `pyminio/main.py`) is modelled over an in-memory store.
  - `ObjectStore.dfy` models the MinIO client. Bucket and object maps live in the class `Store`, whose methods are `make_bucket`, `remove_bucket`, `put_object`, `remove_object`, `remove_objects` and `copy_object`. The functions `get_object`, `list_buckets` and a non-recursive `list_objects` read the map value. `list_objects` returns the files directly below a prefix and one entry per next-level directory, in lexicographic order. It never returns the prefix's own marker: this is the listing pyminio's tests expect, and a modelling choice (see `ObjectStore.ListObjects` under "## Left out").
  - `Engine.dfy` holds the queries as functions of the store: `listdir`, `get`, `exists`, `isdir`, `_get_destination`, `_extract_metadata` and `get_last_object`.
  - `Writes.dfy`, `Removal.dfy`, `Traversal.dfy` and `Copying.dfy` define what each state-changing operation does to the store, as functions, and prove its properties.
  - `Operations.dfy` holds the class `Pyminio`. Its methods change the store step by step, as the source does: the breadth-first `rmdir` walk and the `copy_recursively` walk are `while` loops over a queue. Each method's `ensures` ties the new store to the function that specifies it.
- `Text.dfy` holds the string helpers: Python's `str.replace(p, '')`, `posixpath.join`, `basename`, ASCII lower-casing, lexicographic order and the stable descending sort `sorted(..., reverse=True)`. `Wrappers.dfy` holds `Option` and `Result`.

Errors are values: `ValueError`, `DirectoryNotEmpty` and `StoreFailure(e)` for an error the MinIO client raises. Timestamps are naturals. The store's clock stamps each written object and advances by one per successful write. A missing timestamp reads as 0.

## Model

| member | source | states |
|---|---|---|
| Structures.Collapse | pyminio/structures.py:43-45 | the normalised path never holds "//", is no longer than the input, keeps its first character and keeps whether it ends in "/" |
| Structures.CollapseIdempotent | pyminio/structures.py:43-45 | normalising a normalised path changes nothing, so "/foo//" and "/foo/" are the same path |
| Structures.ParseRoot | pyminio/structures.py:61-62 | a path normalising to "/" is the root, with empty bucket, prefix and filename; the root is a directory and not a bucket |
| Structures.ParseFailsIff | pyminio/structures.py:64-67 | parsing fails (ValueError) exactly when the normalised path is not "/" and does not start with "/", a line-break-free bucket and a second "/" |
| Structures.ParseShape | pyminio/structures.py:69-73 | a non-root parse has a non-empty slash-free bucket, a prefix that is "" or ends in "/", a filename that is "" or slash-free, of two or more characters and not ending in "/"; the path starts with "/bucket/prefix+filename"; `relative_path` is prefix + filename |
| Structures.ParseCanonical | pyminio/structures.py:35-37 | round trip: "/b/" + p + f built from well-shaped parts parses back to exactly b, p and f |
| Structures.ParseDropsTail | pyminio/structures.py:35-37 | the pattern is anchored only at the start: what it leaves unconsumed is at most one character, has no "/", and occurs only when the filename is empty |
| Structures.ParseDropsOneCharacterSegment | pyminio/structures.py:35-37 | a one-character last segment is dropped, not rejected: "/b/p" + c parses as the directory "/b/p" with an empty filename |
| Structures.Classification | pyminio/structures.py:82-89 | `is_dir` holds exactly when the filename is empty and `is_file` is its negation; the root is a directory and not a bucket; below the root a bucket path is one with empty prefix and filename; a file is neither root nor bucket |
| Structures.InferOperationDestination | pyminio/structures.py:110-114 | a source that is not a file gives no destination (ValueError); a file destination is returned unchanged |
| Structures.InferIntoDirectory | pyminio/structures.py:116-117 | into a directory below the root the destination is that directory's path with the source's filename appended, in the directory's bucket and prefix |
| Structures.InferIntoRoot | pyminio/structures.py:116-117 | into the root the joined path "/name" does not parse, so there is no destination |
| Text.PosixJoin | pyminio/structures.py:78-80 | `join(a, b)`: b when b is absolute, a + b when a is empty or ends in "/", otherwise a + "/" + b |
| Text.Basename | pyminio/main.py:462-463 | `basename(s)` is the slash-free tail of s, empty when s ends in "/" |
| Text.RemoveAllLeading | pyminio/main.py:141 | `replace(p, '')` deletes a leading occurrence of p and goes on deleting in the rest |
| Text.SortDescSorted | pyminio/main.py:99-101 | the stable descending sort returns its input ordered by key, largest first |
| Text.SortDescFirstIsMax | pyminio/main.py:99-101 | the first element after sorting has the largest key of all |
| Text.SortDescStable | pyminio/main.py:99-101 | the sort is stable, as Python's `sorted` is: for every key, the elements carrying it come out in the order they went in |
| ObjectStore.GetObject | pyminio/main.py:387-391 | the object is returned exactly when bucket and key exist; otherwise NoSuchBucket or NoSuchKey |
| ObjectStore.ListObjects | pyminio/main.py:99-100 | NoSuchBucket exactly when the bucket is missing; otherwise one entry per name below the prefix (a file directly below or the next-level directory), never the prefix itself, in strictly increasing lexicographic order |
| ObjectStore.FileEntryIff | pyminio/main.py:99-100 | a file entry is listed exactly when its key is stored strictly below the prefix with no further "/" |
| ObjectStore.ListingEmptyIff | pyminio/main.py:210-214 | a listing is empty exactly when no stored key lies strictly below the prefix |
| ObjectStore.AmzMetadata | pyminio/main.py:110-112 | the store keeps each user metadata key with "X-Amz-Meta-" in front of it and the value unchanged |
| ObjectStore.Store.MakeBucket | pyminio/main.py:79-80 | `make_bucket`: an invalid name or an existing bucket is refused and nothing changes; otherwise one empty bucket is added, stamped with the clock |
| ObjectStore.Store.RemoveBucket | pyminio/main.py:236-241 | `remove_bucket`: NoSuchBucket or BucketNotEmpty leave the store as it was; an empty bucket is removed and nothing else |
| ObjectStore.Store.PutObject | pyminio/main.py:88-90 | `put_object`: a missing bucket or an invalid key is refused and nothing changes; otherwise exactly that key is written with the data, the clock and the prefixed metadata |
| ObjectStore.Store.RemoveObject | pyminio/main.py:242-243 | `remove_object`: exactly that key is removed, and a missing key is no error |
| ObjectStore.Store.RemoveObjects | pyminio/main.py:225-227 | `remove_objects`: exactly the listed keys are removed |
| ObjectStore.Store.CopyObject | pyminio/main.py:350-352 | `copy_object`: a missing source, a missing destination bucket or an invalid key is refused and nothing changes; a copy of an object onto its own key is refused as InvalidCopyDest and nothing changes; otherwise the destination key holds the source's data and metadata with the clock's time |
| Engine.ValidateDirectory | pyminio/main.py:18-28 | the guard accepts exactly the paths that parse with an empty filename, and hands on that parse; anything else is ValueError |
| Engine.ObjectsAt | pyminio/main.py:92-101 | NoSuchBucket exactly when the bucket is missing; otherwise a permutation of the store's listing ordered by last-modified, newest first, with directories counting as 0 |
| Engine.BucketsByCreation | pyminio/main.py:103-106 | every bucket once and nothing else, newest creation first |
| Engine.ListdirRoot | pyminio/main.py:135-139 | at the root `listdir` succeeds: empty with `files_only`, otherwise one name b + "/" per bucket b and no other |
| Engine.ListdirErrors | pyminio/main.py:118-144 | a path that is not a directory is ValueError; below the root `listdir` fails exactly when the bucket is missing, with NoSuchBucket |
| Engine.ListdirFiles | pyminio/main.py:141-144 | with `files_only` the names are exactly the keys directly below the prefix with the prefix removed, each stored at prefix + name, newest first |
| Engine.ListdirDirs | pyminio/main.py:141-144 | with `dirs_only` the names are exactly the next-level directories holding some key, each with the prefix deleted |
| Engine.ListdirRepeatedPrefix | pyminio/main.py:141 | `replace` deletes every occurrence: below "ab/" the directory "ab/cab/" is listed as "c" |
| Engine.MetadataRoundTrip | pyminio/main.py:108-116 | metadata stored under "X-Amz-Meta-" comes back with exactly the lower-cased user keys; a key's value is the one given last under that lower-cased name |
| Engine.Details | pyminio/main.py:416-421 | the metadata of `get` has "is_dir", "last_modified" and "size" from the store plus the user keys, and a user key overrides a store key of the same name |
| Engine.GetFile | pyminio/main.py:386-393 | `get` of a stored key is the File with its filename, its path, the object's metadata and its data |
| Engine.GetFolder | pyminio/main.py:395-407 | `get` of a directory below a bucket succeeds exactly when some key starts with its prefix, giving a Folder named by its last segment and "/"; otherwise ValueError |
| Engine.GetBucketPath | pyminio/main.py:383-384 | `get` of a bucket path is ValueError |
| Engine.GetErrorsInBucket | pyminio/main.py:409-411 | inside an existing bucket every failure of `get` is ValueError |
| Engine.ExistsIff | pyminio/main.py:146-172 | a path exists exactly when it parses and is the root, or its bucket exists and it is the bucket, a stored file key, or a directory with some key below it |
| Engine.Isdir | pyminio/main.py:174-180 | ValueError exactly when the path does not parse; otherwise true exactly when the path exists and its filename is empty |
| Engine.GetDestination | pyminio/main.py:264-280 | the only error is ValueError; a file source takes the inferred destination; a directory source refuses a file destination and keeps a directory destination that does not exist |
| Engine.DestinationInsideExisting | pyminio/main.py:271-274 | a directory copied into an existing directory lands at that directory + the source's last segment + "/", and at the root it becomes the bucket of that name |
| Engine.GetLastObject | pyminio/main.py:467-483 | a path that is not a directory is ValueError; the root gives None |
| Engine.GetLastObjectNone | pyminio/main.py:476-478 | None exactly when no file lies directly in the directory |
| Engine.GetLastObjectNewest | pyminio/main.py:479-483 | the key read is a newest file directly in the directory; for a name of two or more characters the result is that File; for a one-character name the joined path re-parses as the directory and no File comes back |
| Traversal.LeafIff | pyminio/main.py:231-233 | a directory counts as a leaf, and has its marker removed by `rmdir`, exactly when no next-level directory below it holds a key |
| Traversal.EmptiedIff | pyminio/main.py:206-245 | after the `rmdir` walk nothing is left below the directory exactly when every marker below it is a leaf |
| Traversal.EmptiedKeepsInteriorMarker | pyminio/main.py:231-233 | over the keys "p/", "p/d/", "p/d/e/", the walk below "p/" leaves the marker "p/d/" |
| Traversal.ClearedIff | pyminio/main.py:189-192 | the intended removal (`rm -r`) leaves exactly the keys outside the directory, each with its object |
| Traversal.EmptiedIsCleared | pyminio/main.py:206-245 | where every marker below the directory is a leaf, the walk leaves exactly what the intended removal leaves |
| Removal.RmdirRootRefused | pyminio/main.py:200-204 | `rmdir("/")` without `recursive` is DirectoryNotEmpty and changes nothing |
| Removal.RmdirNotEmpty | pyminio/main.py:214-217 | a non-recursive `rmdir` of a directory with anything listed below it is DirectoryNotEmpty and removes nothing |
| Removal.RmdirKeepsOutside | pyminio/main.py:206-245 | `rmdir` leaves every other bucket and every key outside the directory's prefix as it was |
| Removal.RmdirRemovesFiles | pyminio/main.py:219-227 | after a successful `rmdir` no file below the directory is left |
| Removal.RmdirPathGone | pyminio/main.py:206-245 | after a successful `rmdir` of a directory whose markers below are leaves, the path no longer exists |
| Removal.RmdirBucket | pyminio/main.py:235-241 | recursive `rmdir` of a bucket succeeds exactly when every marker in it is a leaf, and then removes that bucket and nothing else; otherwise DirectoryNotEmpty, with every bucket still there |
| Removal.RmdirKeepsInteriorMarker | pyminio/main.py:231-233 | recursive `rmdir` of a directory with a non-leaf marker below it succeeds but leaves that marker, so the path still exists |
| Removal.RootNames | pyminio/main.py:183-184 | `listdir(ROOT)` in `truncate` lists each bucket as its name + "/", newest first, so `join(ROOT, name)` is that bucket's path |
| Removal.CreationOrderDistinct | pyminio/main.py:103-106 | the buckets in creation order are distinct and are exactly the store's buckets |
| Removal.TruncateAll | pyminio/main.py:182-185 | a successful `truncate` leaves no bucket; its only failure is DirectoryNotEmpty; when every marker is a leaf it succeeds |
| Writes.MkdirsOf | pyminio/main.py:64-90 | a path that does not parse, names a file or is the root is ValueError and changes nothing; the clock never goes back |
| Writes.MkdirsMakesDirectory | pyminio/main.py:79-90 | after a successful `mkdirs` the path is a directory (`isdir` is true), and the store stays well formed |
| Writes.MkdirsKeeps | pyminio/main.py:79-90 | `mkdirs` adds at most its bucket, keeps every bucket's creation time, keeps every object but the one at the prefix, and adds nothing else |
| Writes.MkdirsIdempotent | pyminio/main.py:79-90 | repeating a successful `mkdirs` succeeds; for a bucket it changes nothing, below a bucket only the marker's modification time changes |
| Writes.PutDataOf | pyminio/main.py:435-445 | a failed `put_data` changes nothing; a successful one advances the clock by one and keeps the set of buckets |
| Writes.PutThenGet | pyminio/main.py:426-445 | `get` after `put_data` of a file path returns the same bytes under the file's name, with size, time and the user metadata extracted |
| Writes.PutDataOnBucket | pyminio/main.py:435-445 | `put_data` on a bucket path is refused by the store (an empty key) and writes nothing |
| Writes.PutFileDestination | pyminio/main.py:460-463 | `put_file` refuses a destination that does not parse, and stores at a file destination unchanged |
| Writes.PutFileIntoDirectory | pyminio/main.py:462-463 | into a directory below the root the file is stored under the directory's path + the local file's basename |
| Writes.PutFileToFile | pyminio/main.py:460-465 | to a file path `put_file` stores exactly what `put_data` stores |
| Writes.PutFileThenGet | pyminio/main.py:447-465 | after `put_file` into a directory, `get` of the directory + basename returns the local file's bytes |
| Writes.RmOf | pyminio/main.py:247-262 | `rm` of a path that does not parse is ValueError and changes nothing |
| Writes.RmFile | pyminio/main.py:260-262 | `rm` of a file removes exactly its key, and afterwards the file does not exist |
| Writes.RmMissingDirectory | pyminio/main.py:257-262 | `rm` of a directory path that does not exist, in an existing bucket, succeeds and changes nothing |
| Writes.RmDirectory | pyminio/main.py:257-258 | `rm` of an existing directory is `rmdir` |
| Writes.CopyFileOf | pyminio/main.py:350-352 | a failed `copy_object` changes nothing |
| Writes.CpFileOf | pyminio/main.py:339-353 | a failed `cp` of a file changes nothing |
| Writes.CopyThenGet | pyminio/main.py:350-352 | the copy written by `copy_object` to another key reads through `get` as the original, with the copy's time |
| Writes.CpThenGet | pyminio/main.py:339-353 | `get` of the source before `cp` of a file to another key and of the destination after it return the same bytes and user metadata |
| Writes.MvFileOf | pyminio/main.py:365 | `mv` whose destination cannot be worked out is ValueError and changes nothing |
| Writes.FinallyRemovesFile | pyminio/main.py:369-371 | when source and destination both exist, the `finally` clause removes exactly the source key and the outcome of `cp` stands |
| Writes.MvMovesFile | pyminio/main.py:355-372 | `mv` of a file to another key succeeds, the destination reads as the source did, and the source no longer exists |
| Writes.MvKeepsSourceOnFailure | pyminio/main.py:366-371 | when the `cp` inside `mv` of a file to another key fails, nothing is removed and the store is as it was (onto its own key, see `Writes.MvOntoItself`) |
| Writes.MvOntoItself | pyminio/main.py:365-371 | `mv` of a file onto its own key: the store refuses the copy, yet the `finally` clause removes the file, so `mv` fails and the file is gone |
| Writes.IntendedMvKeepsSource | pyminio/main.py:355-372 | the intended `mv` removes the source only after `cp` succeeded: a failed `mv` leaves the store as it was, a successful one is the source's `mv`, and `mv` of a file onto itself fails and keeps the file |
| Copying.PlanForRepeated | pyminio/main.py:310 | `replace` deletes `from_path` wherever it recurs: below "/b/x/", the key "x/q/b/x/f" is sent to "qf" under the destination |
| Copying.IntendedPlanKeepsTail | pyminio/main.py:308-311 | the intended target is the destination + the rest of the key below the source; it is what the source computes whenever `from_path` does not recur in that rest |
| Copying.PlanForOneCharacterSource | pyminio/main.py:308-311 | a recursive copy from "/b/x/a" walks the directory "/b/x/", but `replace` deletes nothing from "/b/x/f1" and `join` keeps that absolute path, so the file is planned onto itself |
| Copying.CpOntoItself | pyminio/main.py:350-352 | `cp` of a file onto its own path is refused by the store as InvalidCopyDest |
| Copying.PlanFromParsedSource | pyminio/main.py:308-311 | planned from the directory a source path with a one-character last segment parses as, every key below it keeps its whole tail below the destination |
| Copying.CopyIntoParentIsSelf | pyminio/main.py:271-274 | a directory copied recursively into its own existing parent gets itself as destination |
| Copying.CheckedDestinationCopyable | pyminio/main.py:264-280 | every destination that the apartness check lets through is one the recursive copy is proved for |
| Copying.ListingSame | pyminio/main.py:298-300 | while the walk writes only below a destination apart from the source, the source's listings stay those of the start |
| Copying.MkdirsTarget | pyminio/main.py:313-315 | the `mkdirs` path of a walked directory is the destination + a directory tail, and the rest of the directory below the source when `from_path` does not recur |
| Copying.CpOfPlanned | pyminio/main.py:319-320 | each planned `cp` writes only below the destination, and when `from_path` does not recur it writes the source object at the destination prefix + the rest of the key |
| Copying.CpPlannedSucceeds | pyminio/main.py:319-320 | under `Copying.CopySucceeds`, once the destination bucket exists, each planned `cp` succeeds: its source is still in place, reads as a file, and goes to a valid key apart from it |
| Copying.LeafMkdirs | pyminio/main.py:313-315 | the `mkdirs` of a leaf writes only below the destination; when it succeeds the destination bucket exists and the leaf's copy is marked; under `Copying.CopySucceeds` it succeeds |
| Copying.LeavesMarkedBucket | pyminio/main.py:297-317 | once every leaf of the walk has its copy made, the destination bucket exists |
| Traversal.LeafBelow | pyminio/main.py:297-317 | below every directory of the walk lies a directory with no subdirectory, so the walk makes at least one `mkdirs` |
| Copying.CopyDone | pyminio/main.py:282-322 | once the walk has visited every directory and every planned file is copied, the whole tree is copied: every file, and a marker for every leaf directory |
| Copying.CpOf | pyminio/main.py:339-353 | non-recursive `cp`: no destination or a directory source is ValueError and changes nothing; a file source is `copy_object` to the destination |
| Copying.MvOf | pyminio/main.py:355-372 | `mv` whose destination cannot be worked out is ValueError and changes nothing; for a file it is `cp` followed by the `finally` clause |
| Operations.Partition | pyminio/main.py:219-224 | the names of the file entries, and "/bucket/name" for each directory entry, each in listing order |
| Operations.Gather | pyminio/main.py:304-311 | one planned copy per file entry, and "/bucket/name" for each directory entry |
| Operations.Pyminio.Mkdirs | pyminio/main.py:64-90 | the new store, clock and outcome are those of `mkdirs` |
| Operations.Pyminio.CreateDirectory | pyminio/main.py:79-90 | the bucket is made when absent, then the marker is put below it |
| Operations.Pyminio.PutData | pyminio/main.py:426-445 | the new store, clock and outcome are those of `put_data` |
| Operations.Pyminio.PutFile | pyminio/main.py:447-465 | the new store, clock and outcome are those of `put_file` with the local file's bytes |
| Operations.Pyminio.Rm | pyminio/main.py:247-262 | the new store and outcome are those of `rm`; the clock is untouched |
| Operations.Pyminio.Rmdir | pyminio/main.py:187-245 | the new store and outcome are those of `rmdir`, the root going through `truncate` |
| Operations.Pyminio.Walk | pyminio/main.py:206-233 | the breadth-first loop: NoSuchBucket or DirectoryNotEmpty leave the store as it was; otherwise every visited directory has its files removed, and its marker when it is a leaf |
| Operations.Pyminio.Visit | pyminio/main.py:209-233 | one turn of the loop: a non-recursive visit that finds entries is DirectoryNotEmpty; otherwise it removes the files listed, and the marker when there is no subdirectory, and hands back the subdirectories |
| Operations.Pyminio.Clear | pyminio/main.py:225-233 | exactly the listed files are removed, and the directory's marker when it is a leaf |
| Operations.Pyminio.Truncate | pyminio/main.py:182-185 | the new store and outcome are those of a recursive `rmdir` of each bucket in creation order, stopping at the first failure |
| Operations.Pyminio.CopyRecursively | pyminio/main.py:282-322 | a path that is not a directory is ValueError; writes land only below the destination; a missing bucket is NoSuchBucket with nothing written; a success copies every file and leaf directory when `from_path` does not recur; and it succeeds under `Copying.CopySucceeds`: the source bucket exists, `from_path` does not recur, every file below the source has a last segment of two characters or more, and every key the copy writes is one the store accepts |
| Operations.Pyminio.PlanTree | pyminio/main.py:295-317 | the walk visits every directory below the source, plans every file below it, and leaves a marker at the destination for every leaf directory; under `Copying.CopySucceeds` every listing and `mkdirs` succeeds and the destination bucket exists |
| Operations.Pyminio.CopyPlanned | pyminio/main.py:319-320 | copying the planned files writes only below the destination, and completes the tree copy; under `Copying.CopySucceeds`, with the destination bucket present, every `cp` succeeds |
| Operations.Pyminio.Cp | pyminio/main.py:324-353 | a file or a non-recursive call behaves as `cp` of a file; a recursive directory copy keeps the promise of `copy_recursively` at the destination `_get_destination` picks |
| Operations.Pyminio.CopyFile | pyminio/main.py:350-352 | the `copy_object` call of `cp` for a file leaves the store and outcome `Writes.CopyFileOf` gives: refused without change for a missing source or bucket, an invalid key or the source's own key, else the source object at the destination key |
| Operations.Pyminio.Mv | pyminio/main.py:355-372 | `mv` is `cp` (for a directory, with the tree-copy promise) followed by removal of the source when both source and destination exist |

## Left out

- Connections, credentials and `from_credentials` are left out. The MinIO client is the in-memory `Store`, whose requests are method calls that cannot fail for network reasons.
- Real timestamps (`datetime`, `pytz`) are left out. Times are naturals from the store's clock, and a missing time is 0.
- Server pagination, listing order beyond lexicographic, and concurrency between clients are left out.
- `put_file`'s read of the local file is left out. Its bytes are the parameter `contents`, so a missing or unreadable local file is not modelled.
- `normpath` and `dirname` in `get` (pyminio/main.py:397) are modelled for the paths `get` sees (a prefix that is "" or ends in "/"), not for arbitrary strings.
- ObjectStore.Store.MakeBucket: accepts any non-empty bucket name without "/" or a line break. MinIO's naming rules (3 to 63 lower-case characters, digits, dots and hyphens) are not modelled, so `mkdirs("/A/")` succeeds in the model where minio-py refuses the name.
- ObjectStore.Store.PutObject: refuses, as InvalidObjectName, a key that is empty, starts with "/", holds "//", a "." or ".." segment, or a line break. These are the store rules the termination of the walks rests on. Other server-side key rules are not modelled.
- Engine.Details: the store's stat carries only the user keys under "X-Amz-Meta-". Other headers MinIO reports (content type, etag) are not modelled.
- Engine.Get: a path with an empty bucket (the root) reaches the store as a missing bucket. Invalid bucket names are reported as NoSuchBucket, not as minio-py's InvalidBucketError.
- ObjectStore.ListObjects: a listing never returns the marker of the listed prefix itself, as the source's tests require (tests/test_pyminio.py:120 and 204-206). tests/test_pyminio.py:119 records a server that does return it, and S3 and MinIO's erasure mode return such a key too. On that server `listdir` appends the directory's own path to `dirs` (pyminio/main.py:219-222), so the `rmdir` walk and the `copy_recursively` walk (pyminio/main.py:303-317) re-queue the same directory and do not end, and a non-recursive `rmdir` of an empty marked directory raises DirectoryNotEmpty (pyminio/main.py:214-217). The termination of `Operations.Pyminio.Walk` and `Operations.Pyminio.PlanTree`, and the first Findings row, hold for the store as modelled, not for that server.
- Operations.Pyminio.Rmdir: the model's store keeps directory markers as keys, never lists a prefix's own marker (see `ObjectStore.ListObjects` above), and does not drop emptied parent directories as MinIO's filesystem mode does. It matches neither of MinIO's modes exactly. So recursive removal of a tree with a non-leaf marker leaves that marker. It is proved to remove everything, and the path to be gone, only where every marker below is a leaf (`Removal.RmdirPathGone`). The other case is exhibited in `Removal.RmdirKeepsInteriorMarker` and under Findings.
- Operations.Pyminio.Truncate: for the same reason, emptying the store is proved only where every marker is a leaf (`Removal.TruncateAll`).
- Operations.Pyminio.CopyRecursively: requires the source and the destination to be canonical directory paths below the root whose regions do not contain one another (`Copying.CopyableTree`). Otherwise the walk can list the markers its own `mkdirs` writes, and then neither the outcome nor termination is modelled. A root source is modelled: it fails with NoSuchBucket and writes nothing. Success is proved under `Copying.CopySucceeds`, which is sufficient rather than exact. Its outside cases include a file whose last segment has one character, which is planned as a directory that `cp` refuses with ValueError. A copy that fails part-way is described only by its writes staying below the destination.
- Operations.Pyminio.Cp: a recursive directory copy carries the same requirement on the destination `_get_destination` picks. This excludes a copy into the source's own subtree, onto itself, or to a destination whose last segment has one character. The requirement on the source also excludes a recursive copy whose source path ends in a one-character segment, such as `cp("/b/x/a", "/c/", recursive=True)`. That path reads as the directory "/b/x/", but `replace` works on its own text, so each file is planned onto itself. See Findings.
- Operations.Pyminio.Mv: a recursive directory move carries the same requirement as `Operations.Pyminio.Cp`. Its `copied` state is ghost.
- Text.Lower: lower-cases ASCII letters only. Python's `str.lower` in `_extract_metadata` also folds other letters, but the keys it lower-cases are HTTP header names, which are ASCII.
- Copying.CopyDone: the tree-copy promise holds only when `from_path` recurs in no copied path (`Copying.Unrepeated`). See Findings.

## Findings

| source | as written | input that shows it | evidently intended | confidence | as-written member | corrected member |
|---|---|---|---|---|---|---|
| pyminio/main.py:231-233 | `rmdir` removes a directory's marker only when its listing shows no subdirectory, so on a store that keeps markers as keys but does not list a prefix's own marker, the marker of a non-leaf directory stays | keys "p/", "p/d/", "p/d/e/" in bucket "b"; `rmdir("/b/p/", recursive=True)` leaves "p/d/", and "/b/p/" still exists | like `rm -r`, every key below the directory is removed, and the path is gone | not executed | Traversal.EmptiedKeepsInteriorMarker | Traversal.ClearedIff |
| pyminio/main.py:271-274 | `_get_destination` of a directory into an existing directory does not check that the two are apart | `cp("/b/x/", "/b/", recursive=True)` gets "/b/x/" itself as destination, so each file is copied onto itself, which the store refuses; `cp("/b/x/", "/b/x/sub/", True)` with "/b/x/sub/" existing lands inside the source, whose walk then lists its own copies | refuse, as cp(1) does, a destination that is the source, holds it or lies inside it | not executed | Copying.CopyIntoParentIsSelf | Copying.CheckedDestinationCopyable |
| pyminio/main.py:310 | the destination of a copied file deletes `from_path` wherever it occurs in the file's path, with `replace` | `copy_recursively("/b/x/", "/c/")` with key "x/q/b/x/f" in bucket "b" copies it to "/c/qf" | the destination keeps the whole rest of the path below `from_path`: "/c/q/b/x/f" | not executed | Copying.PlanForRepeated | Copying.IntendedPlanKeepsTail |
| pyminio/main.py:365-371 | the `finally` clause removes the source whenever the source and the destination both exist, also when `cp` failed | `mv("/b/f1", "/b/f1")`: the store refuses the copy onto itself, both paths exist, so the file is removed and `mv` raises | as mv(1) does, remove the source only after a successful copy, so a failed `mv` keeps the file | not executed | Writes.MvOntoItself | Writes.IntendedMvKeepsSource |
| pyminio/main.py:308-311 | `cp` passes `copy_recursively` the source path as typed, which keeps a one-character last segment that the pattern drops, and the walk deletes that text with `replace` | `cp("/b/x/a", "/c/", recursive=True)` with key "x/f1" in bucket "b" and no "/c/": the walk lists "/b/x/", `replace` deletes nothing from "/b/x/f1", and `join` with that absolute path plans the copy onto itself, which the store refuses | plan from the directory the source parses as, so "x/f1" goes to "/c/f1" | not executed | Copying.PlanForOneCharacterSource | Copying.PlanFromParsedSource |
