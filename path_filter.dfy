/** The path helpers every build script repeats: `normalizePath`, which turns
    Windows separators into `/`, and `shouldSkip`, which decides whether a
    directory-listing entry is left out of an installer. Each script has its
    own ignore sets; they are a parameter here and the script modules supply
    them. */
module PathFilter {
  import opened Strings

  /** What a directory-listing entry is; `stat.isFile()` is `kind == File`. */
  datatype EntryKind = File | Directory

  /** A script's IGNORE_DIRS and IGNORE_FILES. */
  datatype Ignore = Ignore(dirs: set<string>, files: set<string>)

  /** `p.replace(/\\/g, '/')`. */
  function NormalizePath(p: string): (q: string)
    ensures |q| == |p|
    ensures '\\' !in q
    ensures forall i :: 0 <= i < |p| ==> q[i] == (if p[i] == '\\' then '/' else p[i])
  {
    seq(|p|, i requires 0 <= i < |p| => if p[i] == '\\' then '/' else p[i])
  }

  /** Normalising twice is normalising once. */
  lemma NormalizeIdempotent(p: string)
    ensures NormalizePath(NormalizePath(p)) == NormalizePath(p)
  {
  }

  /** A path without backslashes is already normal. */
  lemma NormalizeClean(p: string)
    requires '\\' !in p
    ensures NormalizePath(p) == p
  {
  }

  /** Normalisation works character by character. */
  lemma NormalizeAppend(a: string, b: string)
    ensures NormalizePath(a + b) == NormalizePath(a) + NormalizePath(b)
  {
  }

  /** `normalizePath(p).split('/')`. */
  function Segments(p: string): seq<string>
  {
    Split(NormalizePath(p), '/')
  }

  /** `segments.slice(0, idx + 1).join('/')`: the root-anchored prefix ending
      at segment `idx`. */
  function Needle(segs: seq<string>, idx: nat): string
    requires idx < |segs|
  {
    Join(segs[..idx + 1], '/')
  }

  /** The test inside `segments.some(...)` for one index. */
  predicate DirRule(segs: seq<string>, idx: nat, dirs: set<string>)
    requires idx < |segs|
  {
    segs[idx] in dirs || Needle(segs, idx) in dirs
  }

  /** `segments.some(...)` from index `idx` on. */
  function SomeSegment(segs: seq<string>, idx: nat, dirs: set<string>): (found: bool)
    requires idx <= |segs|
    ensures found <==> exists j :: idx <= j < |segs| && DirRule(segs, j, dirs)
    decreases |segs| - idx
  {
    if idx == |segs| then false
    else DirRule(segs, idx, dirs) || SomeSegment(segs, idx + 1, dirs)
  }

  /** `path.basename(p)` with `/` as the only separator: the last piece. */
  function Basename(p: string): (b: string)
    ensures '/' !in b && EndsWith(p, b)
    ensures '/' !in p ==> b == p
    ensures '/' in p ==> |b| < |p| && p[|p| - |b| - 1] == '/'
  {
    var pieces := Split(p, '/');
    SplitHasSep(p, '/');
    SplitLastIsSuffix(p, '/');
    pieces[|pieces| - 1]
  }

  /** `shouldSkip(relativePath, stat)`: skipped exactly when some segment,
      or some root-anchored prefix of segments, is an ignored directory, or
      when the entry is a file whose base name is an ignored file name. */
  function ShouldSkip(p: string, kind: EntryKind, ig: Ignore): (skip: bool)
    ensures skip <==>
      || (exists j :: 0 <= j < |Segments(p)| && DirRule(Segments(p), j, ig.dirs))
      || (kind == File && Basename(p) in ig.files)
  {
    if SomeSegment(Segments(p), 0, ig.dirs) then true
    else if kind == File && Basename(p) in ig.files then true
    else false
  }

  /** The file-name rule never decides about a directory: a directory's
      verdict does not depend on the ignored file names. */
  lemma DirectoryIgnoresFileNames(p: string, ig: Ignore, otherFiles: set<string>)
    ensures ShouldSkip(p, Directory, ig) == ShouldSkip(p, Directory, Ignore(ig.dirs, otherFiles))
  {
  }

  /** Joining pieces that avoid `c` with a separator other than `c` gives a
      string that avoids `c`. */
  lemma {:induction false} JoinAvoids(parts: seq<string>, sep: char, c: char)
    requires c != sep
    requires forall i :: 0 <= i < |parts| ==> c !in parts[i]
    ensures c !in Join(parts, sep)
    decreases |parts|
  {
    if |parts| > 1 {
      JoinAvoids(parts[1..], sep, c);
    }
  }

  /** A join starts with its first piece. */
  lemma JoinStartsWithHead(parts: seq<string>, sep: char)
    requires |parts| >= 1
    ensures IsPrefix(parts[0], Join(parts, sep))
  {
    if |parts| > 1 {
      assert Join(parts, sep)[..|parts[0]|] == parts[0];
    }
  }

  /** The segments and base name of a path written as `/`-joined pieces. */
  lemma SegmentsOfPath(parts: seq<string>)
    requires |parts| >= 1
    requires forall i :: 0 <= i < |parts| ==> '/' !in parts[i] && '\\' !in parts[i]
    ensures Segments(Join(parts, '/')) == parts
    ensures Basename(Join(parts, '/')) == parts[|parts| - 1]
  {
    var p := Join(parts, '/');
    JoinAvoids(parts, '/', '\\');
    NormalizeClean(p);
    SplitJoin(parts, '/');
    assert Segments(p) == parts;
    BasenameIsLastPiece(p, parts);
  }

  /** The base name is the last `/`-piece. */
  lemma BasenameIsLastPiece(p: string, parts: seq<string>)
    requires Split(p, '/') == parts
    ensures Basename(p) == parts[|parts| - 1]
  {
    var pieces := Split(p, '/');
    assert pieces[|pieces| - 1] == parts[|parts| - 1];
  }

  /** A path written as `/`-joined pieces is skipped by the directory rule
      when one piece, or one root-anchored run of pieces, is ignored. */
  lemma SkippedPath(parts: seq<string>, j: nat, kind: EntryKind, ig: Ignore)
    requires j < |parts|
    requires forall i :: 0 <= i < |parts| ==> '/' !in parts[i] && '\\' !in parts[i]
    requires parts[j] in ig.dirs || Join(parts[..j + 1], '/') in ig.dirs
    ensures ShouldSkip(Join(parts, '/'), kind, ig)
  {
    SegmentsOfPath(parts);
    assert DirRule(Segments(Join(parts, '/')), j, ig.dirs);
  }

  /** A path written as `/`-joined pieces is kept when no piece and no
      root-anchored run of pieces is ignored and, for a file, the last piece
      is not an ignored file name. */
  lemma KeptPath(parts: seq<string>, kind: EntryKind, ig: Ignore)
    requires |parts| >= 1
    requires forall i :: 0 <= i < |parts| ==> '/' !in parts[i] && '\\' !in parts[i]
    requires forall i :: 0 <= i < |parts| ==> parts[i] !in ig.dirs && Join(parts[..i + 1], '/') !in ig.dirs
    requires kind == File ==> parts[|parts| - 1] !in ig.files
    ensures !ShouldSkip(Join(parts, '/'), kind, ig)
  {
    SegmentsOfPath(parts);
  }

  /** Everything below a skipped directory is skipped as well, so pruning the
      walk at that directory loses nothing. */
  lemma SkipInherited(dir: string, name: string, kind: EntryKind, ig: Ignore)
    requires ShouldSkip(dir, Directory, ig)
    ensures ShouldSkip(dir + "/" + name, kind, ig)
  {
    var segs := Segments(dir);
    var j :| 0 <= j < |segs| && DirRule(segs, j, ig.dirs);
    var p := dir + "/" + name;
    NormalizeAppend(dir, "/" + name);
    NormalizeAppend("/", name);
    assert NormalizePath("/") == "/";
    assert NormalizePath(p) == NormalizePath(dir) + ['/'] + NormalizePath(name);
    SplitAppendSep(NormalizePath(dir), NormalizePath(name), '/');
    var all := Segments(p);
    assert all == segs + Segments(name);
    assert all[j] == segs[j];
    assert all[..j + 1] == segs[..j + 1];
    assert DirRule(all, j, ig.dirs);
  }

  /** An ignored file name is skipped at any depth. */
  lemma IgnoredFileAnyDepth(dir: string, name: string, ig: Ignore)
    requires name in ig.files && '/' !in name
    ensures ShouldSkip(name, File, ig)
    ensures ShouldSkip(dir + "/" + name, File, ig)
  {
    SplitNoSep(name, '/');
    SplitAppendSep(dir, name, '/');
    assert dir + "/" + name == dir + ['/'] + name;
  }
}
