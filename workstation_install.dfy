/** build/workstation_install.js: the ignore sets of the workstation
    installer builder and its allow-list, `filterFiles`. */
module WorkstationInstall {
  import opened Strings
  import opened Seqs
  import opened PathFilter

  /** OUTPUT_NAME. */
  const OutputName := "workstation_install.lua"

  /** IGNORE_DIRS and IGNORE_FILES. */
  const Ignored := Ignore(
    {".git", ".vscode", "build", "docs", "factory/dist", "node_modules"},
    {OutputName, "net_installer.lua", "package-lock.json", "package.json"})

  /** ALLOWED_PREFIXES, in order. */
  const AllowedPrefixes: seq<string> := ["arcade/", "factory/", "lib/", "tools/", "ui/"]

  /** ALLOWED_FILES. */
  const AllowedFiles: set<string> :=
    {"startup.lua", "factory_planner.lua", "printer.lua", "ae2_drive_monitor.lua", "games/arcade.lua", "kiosk.lua"}

  /** `shouldSkip` with this script's sets. */
  function Skip(p: string, kind: EntryKind): (skip: bool)
    ensures kind == Directory && skip ==> exists j :: 0 <= j < |Segments(p)| && DirRule(Segments(p), j, Ignored.dirs)
  {
    ShouldSkip(p, kind, Ignored)
  }

  /** `ALLOWED_PREFIXES.some(prefix => rel.startsWith(prefix))` from index
      `k` on. */
  function SomePrefix(rel: string, k: nat): (found: bool)
    requires k <= |AllowedPrefixes|
    ensures found <==> exists i :: k <= i < |AllowedPrefixes| && IsPrefix(AllowedPrefixes[i], rel)
    decreases |AllowedPrefixes| - k
  {
    if k == |AllowedPrefixes| then false
    else IsPrefix(AllowedPrefixes[k], rel) || SomePrefix(rel, k + 1)
  }

  /** The test inside `filterFiles`. */
  predicate Allowed(rel: string)
  {
    if rel in AllowedFiles then true else SomePrefix(rel, 0)
  }

  /** `filterFiles(allFiles)`: the entries that are allowed by name or start
      with an allowed prefix, in their original order. */
  function FilterFiles(allFiles: seq<string>): (kept: seq<string>)
    ensures forall r :: r in kept <==>
      r in allFiles && (r in AllowedFiles || exists i :: 0 <= i < |AllowedPrefixes| && IsPrefix(AllowedPrefixes[i], r))
  {
    Filter(allFiles, Allowed)
  }

  /** The kept entries are an order-preserving subsequence of the input. */
  lemma FilterFilesSubsequence(allFiles: seq<string>)
    ensures IsSubsequence(FilterFiles(allFiles), allFiles)
  {
    FilterIsSubsequence(allFiles, Allowed);
  }

  /** Filtering again changes nothing. */
  lemma FilterFilesIdempotent(allFiles: seq<string>)
    ensures FilterFiles(FilterFiles(allFiles)) == FilterFiles(allFiles)
  {
    FilterIdempotent(allFiles, Allowed);
  }

  /** The prefix test is literal text: `lib/` matches only with its slash,
      and a listed name outside every prefix is kept by name alone. */
  lemma PrefixExamples()
    ensures Allowed("lib/x.lua")
    ensures !Allowed("libx.lua")
    ensures Allowed("games/arcade.lua")
    ensures !Allowed("games/other.lua")
  {
    assert IsPrefix("lib/", "lib/x.lua");
    assert "libx.lua"[..4] == "libx";
    assert !IsPrefix("lib/", "libx.lua");
    assert AllowedPrefixes[2] == "lib/";
    assert forall i :: 0 <= i < |AllowedPrefixes| && i != 2 ==> AllowedPrefixes[i][0] != 'l';
    NoPrefix("libx.lua");
    assert forall i :: 0 <= i < |AllowedPrefixes| ==> AllowedPrefixes[i][0] != 'g';
    NoPrefix("games/other.lua");
  }

  /** A name that no allowed prefix begins. */
  lemma NoPrefix(rel: string)
    requires forall i :: 0 <= i < |AllowedPrefixes| ==> !IsPrefix(AllowedPrefixes[i], rel)
    ensures !SomePrefix(rel, 0)
  {
  }

  /** The file list the installer is built from: the walk drops skipped
      entries, then `filterFiles` applies the allow-list. `found` is the
      walk's candidate `.lua` paths. */
  function SelectFiles(found: seq<string>): (files: seq<string>)
    ensures forall r :: r in files <==> r in found && !Skip(r, File) && Allowed(r)
    ensures IsSubsequence(files, found)
  {
    var walked := Filter(found, (r: string) => !Skip(r, File));
    FilterIsSubsequence(found, (r: string) => !Skip(r, File));
    FilterIsSubsequence(walked, Allowed);
    SubsequenceTrans(FilterFiles(walked), walked, found);
    FilterFiles(walked)
  }

  /** This builder's own output and the network installer are skipped as
      files at any depth. */
  lemma InstallersSkippedAsFiles(dir: string, name: string)
    requires name in {OutputName, "net_installer.lua"}
    ensures Skip(name, File) && Skip(dir + "/" + name, File)
  {
    assert '/' !in name;
    IgnoredFileAnyDepth(dir, name, Ignored);
  }
}
