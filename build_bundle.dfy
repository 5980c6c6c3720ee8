/** build/bundle.js: the ignore sets of the single-file installer builder.
    Its `toLuaString` is `LuaString.ToLuaString` and its `normalizePath` and
    `shouldSkip` are those of `PathFilter` with the sets below. */
module BuildBundle {
  import opened Strings
  import opened PathFilter

  /** OUTPUT_NAME. */
  const OutputName := "arcadesys_installer.lua"

  /** IGNORE_DIRS and IGNORE_FILES. */
  const Ignored := Ignore(
    {".git", ".vscode", "build", "docs", "factory/dist", "node_modules"},
    {OutputName, "package-lock.json", "package.json"})

  /** `shouldSkip` with this script's sets. */
  function Skip(p: string, kind: EntryKind): (skip: bool)
    ensures kind == Directory && skip ==> exists j :: 0 <= j < |Segments(p)| && DirRule(Segments(p), j, Ignored.dirs)
  {
    ShouldSkip(p, kind, Ignored)
  }

  /** A segment named like an ignored directory is skipped at any depth. */
  lemma BuildSegmentSkipped()
    ensures Skip("lib/build/x.lua", File)
  {
    assert Join(["lib", "build", "x.lua"], '/') == "lib/build/x.lua";
    SkippedPath(["lib", "build", "x.lua"], 1, File, Ignored);
  }

  /** The two-segment entry `factory/dist` matches as a root-anchored
      prefix. */
  lemma DistPrefixSkipped()
    ensures Skip("factory/dist/a.lua", File)
  {
    var parts := ["factory", "dist", "a.lua"];
    assert Join(parts, '/') == "factory/dist/a.lua";
    assert Join(parts[..2], '/') == "factory/dist";
    SkippedPath(parts, 1, File, Ignored);
  }

  /** The prefix is anchored at the root: `factory/dist` below another
      directory is not matched. */
  lemma NestedDistKept()
    ensures !Skip("a/factory/dist/b.lua", File)
  {
    var parts := ["a", "factory", "dist", "b.lua"];
    NestedDistJoin(parts);
    NestedDistNeedles(parts);
    KeptPath(parts, File, Ignored);
  }

  /** The pieces of `a/factory/dist/b.lua`. */
  lemma NestedDistJoin(parts: seq<string>)
    requires parts == ["a", "factory", "dist", "b.lua"]
    ensures Join(parts, '/') == "a/factory/dist/b.lua"
  {
    assert Join(["dist", "b.lua"], '/') == "dist/b.lua";
    assert Join(["factory", "dist", "b.lua"], '/') == "factory/dist/b.lua";
  }

  /** Every root-anchored prefix of `a/factory/dist/b.lua` starts with `a`,
      and no ignored directory does. */
  lemma NestedDistNeedles(parts: seq<string>)
    requires parts == ["a", "factory", "dist", "b.lua"]
    ensures forall i :: 0 <= i < |parts| ==> parts[i] !in Ignored.dirs && Join(parts[..i + 1], '/') !in Ignored.dirs
  {
    forall i | 0 <= i < |parts|
      ensures parts[i] !in Ignored.dirs && Join(parts[..i + 1], '/') !in Ignored.dirs
    {
      JoinStartsWithHead(parts[..i + 1], '/');
      assert Join(parts[..i + 1], '/')[0] == 'a';
    }
  }

  /** `factory` on its own is not an ignored directory. */
  lemma FactoryKept()
    ensures !Skip("factory/a.lua", File)
  {
    var parts := ["factory", "a.lua"];
    assert Join(parts, '/') == "factory/a.lua";
    assert Join(parts[..1], '/') == "factory";
    assert Join(parts[..2], '/') == "factory/a.lua";
    KeptPath(parts, File, Ignored);
  }
}
