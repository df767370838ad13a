// Path resolution: pyminio/structures.py.
//
// An absolute path "/bucket/prefix/filename" is normalised (runs of '/'
// collapsed) and matched, from its start only, against the pattern
//     /(?P<bucket>.*?)/+(?P<prefix>.*/+)?(?P<filename>.+[^/])?
// Python's '.' matches every character except a line break, and nothing
// anchors the pattern at the end, so whatever it cannot consume is dropped.
module Structures {
  import opened Text
  import opened Wrappers

  const Root: string := "/"

  // ---------------------------------------------------------------------------
  // Normalisation: re.sub(r"/+", "/", path)

  function Collapse(s: string): (r: string)
    ensures NoDoubleSlash(r)
    ensures |r| <= |s|
    ensures |s| > 0 ==> |r| > 0 && r[0] == s[0]
    ensures |s| > 0 ==> (EndsWithSlash(r) <==> EndsWithSlash(s))
    decreases |s|
  {
    if |s| <= 1 then s
    else if s[0] == '/' && s[1] == '/' then Collapse(s[1..])
    else
      var c := Collapse(s[1..]);
      assert forall i: nat :: 0 < i && i + 1 < |[s[0]] + c| ==>
        SlashPairAt([s[0]] + c, i) == SlashPairAt(c, i - 1);
      assert 1 < |[s[0]] + c| ==> !SlashPairAt([s[0]] + c, 0);
      [s[0]] + c
  }

  /** A path that is already normalised is left alone, so normalising twice
      is normalising once. */
  lemma {:induction false} CollapseIdentity(s: string)
    requires NoDoubleSlash(s)
    ensures Collapse(s) == s
    decreases |s|
  {
    if |s| > 1 {
      assert forall i: nat :: i + 1 < |s[1..]| ==> SlashPairAt(s[1..], i) == SlashPairAt(s, i + 1);
      assert !SlashPairAt(s, 0);
      CollapseIdentity(s[1..]);
      assert s == [s[0]] + s[1..];
    }
  }

  /** Normalising only deletes '/' characters: with every '/' removed, the
      path reads the same before and after. */
  lemma {:induction false} CollapseKeepsText(s: string)
    ensures RemoveAll(Collapse(s), "/") == RemoveAll(s, "/")
    decreases |s|
  {
    if |s| > 1 {
      CollapseKeepsText(s[1..]);
      if !(s[0] == '/' && s[1] == '/') {
        var r := Collapse(s);
        assert r == [s[0]] + Collapse(s[1..]);
        assert r[1..] == Collapse(s[1..]);
      }
    }
  }

  lemma CollapseIdempotent(s: string)
    ensures Collapse(Collapse(s)) == Collapse(s)
  {
    CollapseIdentity(Collapse(s));
  }

  // ---------------------------------------------------------------------------
  // Scanning helpers for the pattern

  /** Index of the first line break in `s`, or |s|: how far '.' can run. */
  function FirstNewline(s: string): (r: nat)
    ensures r <= |s|
    ensures r < |s| ==> s[r] == '\n'
    ensures forall i :: 0 <= i < r ==> s[i] != '\n'
  {
    if |s| == 0 || s[0] == '\n' then 0 else 1 + FirstNewline(s[1..])
  }

  /** Index of the first '/' or line break in `s`, or |s|: where the lazy
      bucket group stops. */
  function FirstStop(s: string): (r: nat)
    ensures r <= |s|
    ensures r < |s| ==> s[r] == '/' || s[r] == '\n'
    ensures forall i :: 0 <= i < r ==> s[i] != '/' && s[i] != '\n'
  {
    if |s| == 0 || s[0] == '/' || s[0] == '\n' then 0 else 1 + FirstStop(s[1..])
  }

  /** The optional filename group `.+[^/]` applied to what follows the
      prefix: the greedy `.+` runs to the first line break and gives back one
      character for `[^/]`, which may be that line break itself. */
  function FilenameAt(t: string): string {
    var nl := FirstNewline(t);
    var j := if nl < |t| then nl else |t| - 1;
    if j >= 1 then t[..j + 1] else ""
  }

  // ---------------------------------------------------------------------------
  // The parsed path

  /** `Match`: the normalised path and the three groups of the pattern. */
  datatype Match = Match(path: string, bucket: string, prefix: string, filename: string) {

    predicate IsRoot() { path == Root }

    /** `relative_path`: posixpath.join(prefix, filename), the object key. */
    function RelativePath(): string { PosixJoin(prefix, filename) }

    predicate IsBucket() { bucket != "" && RelativePath() == "" }

    predicate IsDir() { filename == "" }

    predicate IsFile() { !IsDir() }
  }

  // The optional prefix group (any text, then slashes): the greedy part runs
  // to the first line break, then gives back everything after the last '/'
  // before it.
  function PrefixGroup(rest: string): (r: string)
    ensures StartsWith(rest, r)
    ensures r == "" || EndsWithSlash(r)
    ensures NoNewline(r)
  {
    rest[..LastSlash(rest, FirstNewline(rest)) + 1]
  }

  /** The pattern applied to a normalised path (`_get_match`); None stands for
      the ValueError raised when the pattern does not match. */
  function MatchNormalized(p: string): Option<Match>
    requires NoDoubleSlash(p)
  {
    if p == Root then Some(Match(p, "", "", ""))
    else if |p| == 0 || p[0] != '/' then None
    else
      var rest1 := p[1..];
      var i := FirstStop(rest1);
      if i == |rest1| || rest1[i] != '/' then None
      else
        var rest := rest1[i + 1..];
        var prefix := PrefixGroup(rest);
        Some(Match(p, rest1[..i], prefix, FilenameAt(rest[|prefix|..])))
  }

  /** `Match(path)`: normalise, then match. */
  function Parse(path: string): (r: Option<Match>)
    ensures r.Some? ==> r.value.path == Collapse(path)
  {
    MatchNormalized(Collapse(path))
  }

  // ---------------------------------------------------------------------------
  // Shapes of the groups

  predicate BucketShaped(b: string) {
    |b| > 0 && NoSlash(b) && NoNewline(b)
  }

  predicate PrefixShaped(p: string) {
    p == "" || (EndsWithSlash(p) && p[0] != '/' && NoNewline(p) && NoDoubleSlash(p))
  }

  /** At least two characters, no '/', and a line break only as the last one. */
  predicate FilenameShaped(f: string) {
    f == "" || (|f| >= 2 && NoSlash(f) && NoNewline(f[..|f| - 1]))
  }

  /** What the pattern consumed of the normalised path. */
  function Consumed(m: Match): string {
    if m.IsRoot() then Root else "/" + m.bucket + "/" + m.prefix + m.filename
  }

  /** Nothing of the path was dropped. */
  predicate Canonical(m: Match) {
    m.path == Consumed(m)
  }

  // ---------------------------------------------------------------------------
  // What parsing guarantees

  /** "/" (or any run of slashes) is the root, with every group empty; the root
      counts as a directory and not as a bucket. */
  lemma ParseRoot(path: string)
    requires Collapse(path) == Root
    ensures Parse(path) == Some(Match(Root, "", "", ""))
    ensures Parse(path).value.IsRoot() && Parse(path).value.IsDir()
    ensures !Parse(path).value.IsBucket()
  {
  }

  /** The pattern fails exactly when the normalised path is not the root and
      does not start with '/' followed by a bucket segment that a '/' closes
      before any line break: "foo/" and "/foo" are both refused. */
  lemma ParseFailsIff(path: string)
    ensures var q := Collapse(path);
      Parse(path).None? <==>
        q != Root &&
        !(|q| > 0 && q[0] == '/' &&
          exists i :: 1 <= i < |q| && q[i] == '/' && NoNewline(q[1..i]))
  {
    MatchFailsIff(Collapse(path));
  }

  lemma MatchFailsIff(q: string)
    requires NoDoubleSlash(q)
    ensures MatchNormalized(q).None? <==>
        q != Root &&
        !(|q| > 0 && q[0] == '/' &&
          exists i :: 1 <= i < |q| && q[i] == '/' && NoNewline(q[1..i]))
  {
    if q != Root && |q| > 0 && q[0] == '/' {
      var rest1 := q[1..];
      var r := FirstStop(rest1);
      if r < |rest1| && rest1[r] == '/' {
        assert q[r + 1] == '/';
        assert NoNewline(q[1..r + 1]);
      }
      if exists i :: 1 <= i < |q| && q[i] == '/' && NoNewline(q[1..i]) {
        var i :| 1 <= i < |q| && q[i] == '/' && NoNewline(q[1..i]);
        assert rest1[i - 1] == '/';
        assert r <= i - 1;
        if r < i - 1 {
          assert q[1..i][r] == rest1[r];
        }
        assert rest1[r] == '/';
      }
    }
  }

  /** On every successful non-root parse: the bucket is non-empty and free of
      '/', the prefix is "" or ends with '/', the filename is "" or has at
      least two characters, none of them '/'; the groups are a leading part
      of the normalised path, and `relative_path` is prefix + filename. */
  lemma ParseShape(path: string, m: Match)
    requires Parse(path) == Some(m) && !m.IsRoot()
    ensures BucketShaped(m.bucket)
    ensures PrefixShaped(m.prefix)
    ensures FilenameShaped(m.filename)
    ensures StartsWith(m.path, Consumed(m))
    ensures m.RelativePath() == m.prefix + m.filename
  {
    MatchShape(Collapse(path), m);
  }

  // Small facts about the scanning helpers, each proved in a context of its own.

  lemma FirstStopIs(s: string, r: nat)
    requires r < |s| && (s[r] == '/' || s[r] == '\n')
    requires forall j :: 0 <= j < r ==> s[j] != '/' && s[j] != '\n'
    ensures FirstStop(s) == r
  {
  }

  lemma FirstNewlineNone(s: string)
    requires NoNewline(s)
    ensures FirstNewline(s) == |s|
  {
  }

  lemma LastSlashIs(s: string, end: nat, r: int)
    requires -1 <= r < end <= |s|
    requires r >= 0 ==> s[r] == '/'
    requires forall j :: r < j < end ==> s[j] != '/'
    ensures LastSlash(s, end) == r
  {
  }

  lemma NoDoubleSlashSlice(q: string, lo: nat, hi: nat)
    requires lo <= hi <= |q| && NoDoubleSlash(q)
    ensures NoDoubleSlash(q[lo..hi])
  {
    forall x: nat | x + 1 < hi - lo
      ensures !SlashPairAt(q[lo..hi], x)
    {
      assert !SlashPairAt(q, lo + x);
    }
  }

  lemma Reassemble(q: string, b: string, p: string, t: string)
    requires |q| > |b| + 1 && q[0] == '/' && q[|b| + 1] == '/'
    requires q[1..|b| + 1] == b && q[|b| + 2..] == p + t
    ensures q == "/" + b + "/" + p + t
  {
    assert q == q[..1] + q[1..|b| + 1] + q[|b| + 1..|b| + 2] + q[|b| + 2..];
  }

  lemma StartsWithAppend(a: string, t: string, f: string)
    requires StartsWith(t, f)
    ensures StartsWith(a + t, a + f)
    ensures (a + t)[|a + f|..] == t[|f|..]
  {
    assert (a + t)[..|a + f|] == a + t[..|f|];
  }

  /** The groups of a successful match, located in the normalised path. */
  lemma MatchGroups(q: string, m: Match)
    requires NoDoubleSlash(q) && MatchNormalized(q) == Some(m) && q != Root
    ensures |q| > |m.bucket| + 1 && q[0] == '/' && q[|m.bucket| + 1] == '/'
    ensures FirstStop(q[1..]) == |m.bucket| && m.bucket == q[1..|m.bucket| + 1]
    ensures m.prefix == PrefixGroup(q[|m.bucket| + 2..])
    ensures m.filename == FilenameAt(q[|m.bucket| + 2..][|m.prefix|..])
    ensures m.path == q
  {
    var i := MatchFields(q, m);
    ShiftedSlices(q, i);
  }

  lemma MatchFields(q: string, m: Match) returns (i: nat)
    requires NoDoubleSlash(q) && MatchNormalized(q) == Some(m) && q != Root
    ensures 0 < |q| && q[0] == '/' && i == FirstStop(q[1..])
    ensures i < |q[1..]| && q[1..][i] == '/'
    ensures m.path == q && m.bucket == q[1..][..i]
    ensures m.prefix == PrefixGroup(q[1..][i + 1..])
    ensures m.filename == FilenameAt(q[1..][i + 1..][|m.prefix|..])
  {
    assert |q| > 0 && q[0] == '/';
    i := FirstStop(q[1..]);
    assert i < |q[1..]| && q[1..][i] == '/';
    var rest := q[1..][i + 1..];
    assert m == Match(q, q[1..][..i], PrefixGroup(rest), FilenameAt(rest[|PrefixGroup(rest)|..]));
  }

  lemma ShiftedSlices(q: string, i: nat)
    requires 0 < |q| && i < |q[1..]|
    ensures |q[1..][..i]| == i && q[1..][..i] == q[1..i + 1]
    ensures q[1..][i + 1..] == q[i + 2..] && q[1..][i] == q[i + 1]
  {
  }

  /** The decomposition a successful match makes of a normalised path: a '/',
      the bucket, a '/', the prefix group, then the text the filename group is
      taken from. */
  /** `q` is '/', the bucket of `m`, '/', its prefix, then `t`, the text its
      filename group is taken from. */
  predicate Decomposes(q: string, m: Match, t: string) {
    && m.path == q
    && |q| > |m.bucket| + 1 && q[0] == '/' && q[|m.bucket| + 1] == '/'
    && FirstStop(q[1..]) == |m.bucket| && m.bucket == q[1..|m.bucket| + 1]
    && m.prefix == PrefixGroup(q[|m.bucket| + 2..])
    && t == q[|m.bucket| + 2..][|m.prefix|..] && m.filename == FilenameAt(t)
    && q == "/" + m.bucket + "/" + m.prefix + t
  }

  lemma MatchParts(q: string, m: Match) returns (t: string)
    requires NoDoubleSlash(q) && MatchNormalized(q) == Some(m) && q != Root
    ensures Decomposes(q, m, t)
  {
    MatchGroups(q, m);
    t := GroupedParts(q, m);
  }

  lemma GroupedParts(q: string, m: Match) returns (t: string)
    requires |q| > |m.bucket| + 1 && q[0] == '/' && q[|m.bucket| + 1] == '/'
    requires FirstStop(q[1..]) == |m.bucket| && m.bucket == q[1..|m.bucket| + 1]
    requires m.prefix == PrefixGroup(q[|m.bucket| + 2..])
    requires m.filename == FilenameAt(q[|m.bucket| + 2..][|m.prefix|..])
    requires m.path == q
    ensures Decomposes(q, m, t)
  {
    var rest := q[|m.bucket| + 2..];
    t := rest[|m.prefix|..];
    assert StartsWith(rest, m.prefix);
    SplitAt(rest, |m.prefix|);
    assert rest == m.prefix + t;
    Reassemble(q, m.bucket, m.prefix, t);
  }

  lemma MatchShape(q: string, m: Match)
    requires NoDoubleSlash(q) && MatchNormalized(q) == Some(m) && q != Root
    ensures BucketShaped(m.bucket)
    ensures PrefixShaped(m.prefix)
    ensures FilenameShaped(m.filename)
    ensures StartsWith(m.path, Consumed(m))
    ensures m.RelativePath() == m.prefix + m.filename
  {
    var t := MatchParts(q, m);
    DecomposedShape(q, m, t);
  }

  lemma DecomposedShape(q: string, m: Match, t: string)
    requires NoDoubleSlash(q) && Decomposes(q, m, t)
    ensures BucketShaped(m.bucket)
    ensures PrefixShaped(m.prefix)
    ensures FilenameShaped(m.filename)
    ensures StartsWith(m.path, Consumed(m))
    ensures m.RelativePath() == m.prefix + m.filename
  {
    DecomposedBucket(q, m, t);
    DecomposedPrefix(q, m, t);
    FilenameAfterPrefix(q[|m.bucket| + 2..]);
    StartsWithAppend("/" + m.bucket + "/" + m.prefix, t, m.filename);
  }

  lemma DecomposedBucket(q: string, m: Match, t: string)
    requires NoDoubleSlash(q) && Decomposes(q, m, t)
    ensures BucketShaped(m.bucket)
  {
    var b := m.bucket;
    assert !SlashPairAt(q, 0);
    forall x | 0 <= x < |b|
      ensures b[x] != '/' && b[x] != '\n'
    {
      assert b[x] == q[1..][x];
    }
  }

  lemma DecomposedPrefix(q: string, m: Match, t: string)
    requires NoDoubleSlash(q) && Decomposes(q, m, t)
    ensures PrefixShaped(m.prefix)
  {
    var b := m.bucket;
    if m.prefix != "" {
      assert m.prefix[0] == q[|b| + 2];
      assert !SlashPairAt(q, |b| + 1);
      NoDoubleSlashSlice(q, |b| + 2, |b| + 2 + |m.prefix|);
      assert q[|b| + 2..|b| + 2 + |m.prefix|] == m.prefix;
    }
  }

  /** What follows the prefix group yields a well-shaped filename group that
      is a leading part of it. */
  lemma FilenameAfterPrefix(rest: string)
    ensures var t := rest[|PrefixGroup(rest)|..];
      FilenameShaped(FilenameAt(t)) && StartsWith(t, FilenameAt(t))
  {
    SlashFreeAfterPrefix(rest);
    FilenameOfSlashFreeLine(rest[|PrefixGroup(rest)|..]);
  }

  /** Up to its first line break, the text after the prefix group has no '/'. */
  lemma SlashFreeAfterPrefix(rest: string)
    ensures var t := rest[|PrefixGroup(rest)|..];
      forall x :: 0 <= x < FirstNewline(t) ==> t[x] != '/'
  {
    var nl := FirstNewline(rest);
    var k := LastSlash(rest, nl);
    var t := rest[k + 1..];
    if nl < |rest| {
      assert t[nl - k - 1] == '\n';
    }
    forall x | 0 <= x < FirstNewline(t)
      ensures t[x] != '/'
    {
      assert t[x] == rest[k + 1 + x];
    }
  }

  /** The filename group of a text whose first line has no '/'. */
  lemma FilenameOfSlashFreeLine(t: string)
    requires forall x :: 0 <= x < FirstNewline(t) ==> t[x] != '/'
    ensures FilenameShaped(FilenameAt(t)) && StartsWith(t, FilenameAt(t))
  {
    var f := FilenameAt(t);
    if f != "" {
      assert f == t[..|f|];
      forall x | 0 <= x < |f|
        ensures f[x] != '/'
      {
        assert f[x] == t[x];
      }
      forall x | 0 <= x < |f| - 1
        ensures f[x] != '\n'
      {
        assert f[x] == t[x];
      }
    }
  }

  /** The '/'-structure of a path assembled from well-shaped groups. */
  lemma AssembledNormalized(b: string, pr: string, f: string)
    requires BucketShaped(b) && PrefixShaped(pr) && NoSlash(f)
    ensures NoDoubleSlash("/" + b + "/" + pr + f)
  {
    var s := "/" + b + "/" + pr + f;
    forall x: nat | x + 1 < |s|
      ensures !SlashPairAt(s, x)
    {
      if x == 0 {
        assert s[1] == b[0];
      } else if x <= |b| {
        assert s[x] == b[x - 1];
      } else if x == |b| + 1 {
        if pr != "" { assert s[x + 1] == pr[0]; } else { assert s[x + 1] == f[0]; }
      } else if x < |b| + 2 + |pr| {
        assert s[x] == pr[x - |b| - 2];
        if x + 1 < |b| + 2 + |pr| {
          assert s[x + 1] == pr[x - |b| - 1];
          assert !SlashPairAt(pr, x - |b| - 2);
        } else {
          assert s[x + 1] == f[0];
        }
      } else {
        assert s[x] == f[x - |b| - 2 - |pr|];
      }
    }
  }

  /** A path assembled from well-shaped groups parses back into exactly those
      groups. */
  lemma ParseCanonical(b: string, pr: string, f: string)
    requires BucketShaped(b) && PrefixShaped(pr) && FilenameShaped(f)
    ensures var s := "/" + b + "/" + pr + f;
      Parse(s) == Some(Match(s, b, pr, f))
  {
    var s := "/" + b + "/" + pr + f;
    AssembledNormalized(b, pr, f);
    CollapseIdentity(s);
    MatchCanonical(s, b, pr, f);
  }

  lemma CanonicalSplit(s: string, b: string, pr: string, f: string)
    requires s == "/" + b + "/" + pr + f
    ensures |s| > |b| + 1 && s[0] == '/' && s[1..][|b|] == '/'
    ensures s[1..][..|b|] == b && s[1..][|b| + 1..] == pr + f
    ensures forall j :: 0 <= j < |b| ==> s[1..][j] == b[j]
  {
  }

  lemma MatchCanonical(s: string, b: string, pr: string, f: string)
    requires BucketShaped(b) && PrefixShaped(pr) && FilenameShaped(f)
    requires s == "/" + b + "/" + pr + f && NoDoubleSlash(s)
    ensures MatchNormalized(s) == Some(Match(s, b, pr, f))
  {
    CanonicalSplit(s, b, pr, f);
    FirstStopIs(s[1..], |b|);
    PrefixThenFilename(pr, f);
    FilenameAtShaped(f);
  }

  lemma PrefixThenFilename(pr: string, f: string)
    requires PrefixShaped(pr) && NoSlash(f)
    ensures PrefixGroup(pr + f) == pr && (pr + f)[|pr|..] == f
  {
    var rest := pr + f;
    var nl := FirstNewline(rest);
    forall x | 0 <= x < |pr|
      ensures rest[x] != '\n'
    {
      assert rest[x] == pr[x];
    }
    forall x | |pr| <= x < nl
      ensures rest[x] != '/'
    {
      assert rest[x] == f[x - |pr|];
    }
    if pr != "" {
      assert rest[|pr| - 1] == '/';
    }
    LastSlashIs(rest, nl, |pr| - 1);
    assert rest[..|pr|] == pr;
  }

  /** A well-shaped filename is its own filename group. */
  lemma FilenameAtShaped(f: string)
    requires FilenameShaped(f)
    ensures FilenameAt(f) == f
  {
    if f != "" {
      var nl := FirstNewline(f);
      var j := if nl < |f| then nl else |f| - 1;
      assert j == |f| - 1;
      assert f[..j + 1] == f;
    }
  }

  /** The pattern is anchored only at the start: on a path without line
      breaks, what it drops is nothing or a final one-character segment, in
      which case the filename comes out empty. */
  lemma ParseDropsTail(path: string, m: Match)
    requires Parse(path) == Some(m) && !m.IsRoot()
    requires NoNewline(m.path)
    ensures var dropped := m.path[|Consumed(m)|..];
      StartsWith(m.path, Consumed(m)) && |dropped| <= 1 &&
      (dropped != "" ==> m.filename == "" && NoSlash(dropped))
  {
    MatchDropsTail(Collapse(path), m);
  }

  lemma MatchDropsTail(q: string, m: Match)
    requires NoDoubleSlash(q) && MatchNormalized(q) == Some(m) && q != Root
    requires NoNewline(q)
    ensures var dropped := q[|Consumed(m)|..];
      StartsWith(q, Consumed(m)) && |dropped| <= 1 &&
      (dropped != "" ==> m.filename == "" && NoSlash(dropped))
  {
    var t := MatchParts(q, m);
    DecomposedDropsTail(q, m, t);
  }

  lemma DecomposedDropsTail(q: string, m: Match, t: string)
    requires Decomposes(q, m, t) && NoNewline(q)
    ensures var dropped := q[|Consumed(m)|..];
      StartsWith(q, Consumed(m)) && |dropped| <= 1 &&
      (dropped != "" ==> m.filename == "" && NoSlash(dropped))
  {
    var rest := q[|m.bucket| + 2..];
    forall x | 0 <= x < |rest|
      ensures rest[x] != '\n'
    {
      assert rest[x] == q[|m.bucket| + 2 + x];
    }
    TailWithoutNewline(rest);
    var a := "/" + m.bucket + "/" + m.prefix;
    StartsWithAppend(a, t, m.filename);
    if |t| < 2 {
      assert t[|m.filename|..] == t;
    }
  }

  /** Without line breaks, the text after the prefix group has no '/', and
      the filename group is all of it when it has two characters or more and
      nothing otherwise. */
  lemma TailWithoutNewline(rest: string)
    requires NoNewline(rest)
    ensures var t := rest[|PrefixGroup(rest)|..];
      NoSlash(t) && FilenameAt(t) == (if |t| >= 2 then t else "")
  {
    FirstNewlineNone(rest);
    var k := LastSlash(rest, |rest|);
    var t := rest[k + 1..];
    forall x | 0 <= x < |t|
      ensures t[x] != '\n' && t[x] != '/'
    {
      assert t[x] == rest[k + 1 + x];
    }
    FirstNewlineNone(t);
  }

  /** A final segment of a single character is silently dropped: "/foo/a"
      is the bucket "foo" with an empty prefix and an empty filename, and
      "/foo/bar/a" is the directory "/foo/bar/". */
  lemma ParseDropsOneCharacterSegment(b: string, pr: string, c: char)
    requires BucketShaped(b) && PrefixShaped(pr) && c != '/'
    ensures var s := "/" + b + "/" + pr + [c];
      Parse(s) == Some(Match(s, b, pr, ""))
  {
    var s := "/" + b + "/" + pr + [c];
    AssembledNormalized(b, pr, [c]);
    CollapseIdentity(s);
    MatchOneCharacterSegment(s, b, pr, c);
  }

  lemma MatchOneCharacterSegment(s: string, b: string, pr: string, c: char)
    requires BucketShaped(b) && PrefixShaped(pr) && c != '/'
    requires s == "/" + b + "/" + pr + [c] && NoDoubleSlash(s)
    ensures MatchNormalized(s) == Some(Match(s, b, pr, ""))
  {
    CanonicalSplit(s, b, pr, [c]);
    FirstStopIs(s[1..], |b|);
    PrefixThenFilename(pr, [c]);
    assert FilenameAt([c]) == "";
  }

  /** A directory prefix extended by one more segment is still one. */
  lemma ExtendPrefix(p: string, seg: string)
    requires PrefixShaped(p) && |seg| > 0 && NoSlash(seg) && NoNewline(seg)
    ensures PrefixShaped(p + seg + "/")
  {
    var s := p + seg + "/";
    forall x: nat | x + 1 < |s|
      ensures !SlashPairAt(s, x)
    {
      if x + 1 < |p| {
        assert s[x] == p[x] && s[x + 1] == p[x + 1];
        assert !SlashPairAt(p, x);
      } else if x + 1 == |p| {
        assert s[x + 1] == seg[0];
      } else {
        assert s[x] == seg[x - |p|];
      }
    }
    assert p != "" ==> s[0] == p[0];
    assert p == "" ==> s[0] == seg[0];
    forall x | 0 <= x < |s|
      ensures s[x] != '\n'
    {
      if x < |p| {
        assert s[x] == p[x];
      } else if x < |p| + |seg| {
        assert s[x] == seg[x - |p|];
      }
    }
  }

  /** The four predicates as the source defines them: a directory has an empty
      filename, a file does not, and a bucket path has a bucket but an empty
      relative path; on any parsed path, `is_bucket` means exactly that the
      prefix and the filename are both empty, and the root is a directory
      that is not a bucket. */
  lemma Classification(path: string, m: Match)
    requires Parse(path) == Some(m)
    ensures m.IsDir() <==> m.filename == ""
    ensures m.IsFile() <==> m.filename != ""
    ensures m.IsRoot() ==> m.IsDir() && !m.IsBucket()
    ensures !m.IsRoot() ==> (m.IsBucket() <==> m.prefix == "" && m.filename == "")
    ensures m.IsFile() ==> !m.IsBucket() && !m.IsRoot()
  {
    if !m.IsRoot() {
      ParseShape(path, m);
    } else {
      assert Collapse(path) == Root;
    }
  }

  /** The root path names no bucket. */
  lemma RootBucket(path: string, m: Match)
    requires Parse(path) == Some(m) && m.IsRoot()
    ensures m == Match(Root, "", "", "")
  {
    assert Collapse(path) == Root;
    ParseRoot(path);
  }

  // ---------------------------------------------------------------------------
  // Destination of a copy or a move

  /** `Match.infer_operation_destination`: an explicit file destination is
      kept, a directory destination receives the source's filename; a source
      that is not a file raises ValueError (None). */
  function InferOperationDestination(src: Match, dst: Match): (r: Option<Match>)
    ensures !src.IsFile() ==> r.None?
    ensures src.IsFile() && dst.IsFile() ==> r == Some(dst)
  {
    if !src.IsFile() then None
    else if dst.IsFile() then Some(dst)
    else Parse(PosixJoin(dst.path, src.filename))
  }

  /** Copying a file into a canonical, non-root directory keeps the
      directory's bucket and prefix and the source's filename, as in the
      docstring's example '/foo/bar1/baz' into '/foo/bar2/'. */
  lemma InferIntoDirectory(src: Match, dst: Match)
    requires src.IsFile() && FilenameShaped(src.filename)
    requires dst.IsDir() && !dst.IsRoot() && Canonical(dst)
    requires BucketShaped(dst.bucket) && PrefixShaped(dst.prefix)
    ensures InferOperationDestination(src, dst) ==
      Some(Match(dst.path + src.filename, dst.bucket, dst.prefix, src.filename))
  {
    assert dst.path == "/" + dst.bucket + "/" + dst.prefix;
    assert EndsWithSlash(dst.path);
    assert PosixJoin(dst.path, src.filename) == dst.path + src.filename;
    ParseCanonical(dst.bucket, dst.prefix, src.filename);
    assert dst.path + src.filename == "/" + dst.bucket + "/" + dst.prefix + src.filename;
  }

  /** Copying a file "into" the root has no bucket to land in: ValueError. */
  lemma InferIntoRoot(src: Match, dst: Match)
    requires src.IsFile() && FilenameShaped(src.filename)
    requires dst.IsRoot() && dst.filename == ""
    ensures InferOperationDestination(src, dst).None?
  {
    var s := PosixJoin(dst.path, src.filename);
    assert s == "/" + src.filename;
    assert NoDoubleSlash(s);
    CollapseIdentity(s);
    var rest1 := s[1..];
    assert rest1 == src.filename;
    var r := FirstStop(rest1);
    assert r < |rest1| ==> rest1[r] == src.filename[r];
  }

  // ---------------------------------------------------------------------------
  // Objects handed back by `get`

  /** A value of the `metadata` dictionary of `get`'s result. */
  datatype MetaValue = Flag(b: bool) | Stamp(t: Option<nat>) | Size(n: nat) | Str(s: string)

  /** `File` and `Folder`, the two shapes of `ObjectData`. */
  datatype ObjectData =
    | File(name: string, fullPath: string, metadata: map<string, MetaValue>, data: seq<byte>)
    | Folder(name: string, fullPath: string, metadata: map<string, MetaValue>)
}
