/** build/net_install.js: the ignore sets of the network installer builder.
    Its `normalizePath` and `shouldSkip` are those of `PathFilter` with the
    sets below. */
module NetInstall {
  import opened Strings
  import opened PathFilter

  /** OUTPUT_NAME. */
  const OutputName := "net_installer.lua"

  /** IGNORE_DIRS and IGNORE_FILES; the big single-file installer is left
      out as well. */
  const Ignored := Ignore(
    {".git", ".vscode", "build", "docs", "factory/dist", "node_modules"},
    {OutputName, "arcadesys_installer.lua", "package-lock.json", "package.json"})

  /** `shouldSkip` with this script's sets. */
  function Skip(p: string, kind: EntryKind): (skip: bool)
    ensures kind == Directory && skip ==> exists j :: 0 <= j < |Segments(p)| && DirRule(Segments(p), j, Ignored.dirs)
  {
    ShouldSkip(p, kind, Ignored)
  }

  /** The two installer outputs. */
  const Installers: set<string> := {OutputName, "arcadesys_installer.lua"}

  /** Both installer outputs are skipped as files at any depth. */
  lemma InstallersSkippedAsFiles(dir: string, name: string)
    requires name in Installers
    ensures Skip(name, File) && Skip(dir + "/" + name, File)
  {
    assert '/' !in name;
    IgnoredFileAnyDepth(dir, name, Ignored);
  }

  /** A directory that happens to carry an installer's name is walked. */
  lemma InstallerNamedDirectoryKept(name: string)
    requires name in Installers
    ensures !Skip(name, Directory)
  {
    assert '/' !in name && '\\' !in name && name !in Ignored.dirs;
    KeptName(name);
  }

  /** A one-segment directory that is not an ignored directory is kept. */
  lemma KeptName(name: string)
    requires '/' !in name && '\\' !in name && name !in Ignored.dirs
    ensures !Skip(name, Directory)
  {
    assert Join([name], '/') == name;
    assert [name][..1] == [name];
    KeptPath([name], Directory, Ignored);
  }

  /** An ordinary library file passes every rule. */
  lemma LibraryFileKept()
    ensures !Skip("lib/util.lua", File)
  {
    var parts := ["lib", "util.lua"];
    assert Join(parts, '/') == "lib/util.lua";
    assert Join(parts[..1], '/') == "lib";
    assert Join(parts[..2], '/') == "lib/util.lua";
    KeptPath(parts, File, Ignored);
  }
}
