/** bundle.js: the self-extracting ArcadeOS installer. Its `toLuaString` is
    `LuaString.ToLuaString`; this module holds the choice of files to pack
    and the early return when there are none. */
module RootBundle {
  import opened Strings
  import opened Seqs

  /** OUTPUT_FILENAME. */
  const OutputFilename := "arcadeos.lua"

  /** IGNORE_FILES, in order. */
  const IgnoreFiles: seq<string> := ["bundle.js", "package.json", "package-lock.json", OutputFilename]

  /** The test inside the `filter` of `createInstaller`. */
  predicate Bundled(file: string)
  {
    EndsWith(file, ".lua") && file !in IgnoreFiles
  }

  /** `filesToBundle`: the listed names that end in `.lua` and are not
      ignored, in listing order. */
  function SelectLuaFiles(allFiles: seq<string>): (files: seq<string>)
    ensures forall f :: f in files <==> f in allFiles && EndsWith(f, ".lua") && f !in IgnoreFiles
    ensures OutputFilename !in files
    ensures IsSubsequence(files, allFiles)
  {
    FilterIsSubsequence(allFiles, Bundled);
    Filter(allFiles, Bundled)
  }

  /** What `createInstaller` does with a directory listing: give up when
      nothing is left to pack, otherwise pack the selected files (the text of
      the generated script is not modelled). */
  datatype Outcome = NothingToBundle | Bundle(files: seq<string>)

  function CreateInstaller(allFiles: seq<string>): (r: Outcome)
    ensures r.NothingToBundle? <==> forall f :: f in allFiles ==> !EndsWith(f, ".lua") || f in IgnoreFiles
    ensures r.Bundle? ==> |r.files| > 0 && r.files == SelectLuaFiles(allFiles)
  {
    var files := SelectLuaFiles(allFiles);
    if |files| == 0 then NothingToBundle
    else
      assert files[0] in files;
      Bundle(files)
  }

  /** A listing holding only the installer's own output and build files
      takes the early return. */
  lemma OnlyOwnOutput()
    ensures CreateInstaller(["arcadeos.lua", "bundle.js", "package.json"]).NothingToBundle?
  {
    assert !EndsWith("bundle.js", ".lua");
    assert !EndsWith("package.json", ".lua");
  }

  /** A Lua program beside the output is packed, and only it. */
  lemma OneProgram()
    ensures CreateInstaller(["arcadeos.lua", "startup.lua", "README.md"]) == Bundle(["startup.lua"])
  {
    var listing := ["arcadeos.lua", "startup.lua", "README.md"];
    assert EndsWith("startup.lua", ".lua") && "startup.lua" !in IgnoreFiles;
    assert !EndsWith("README.md", ".lua");
    assert listing[1..][1..] == ["README.md"];
    assert Filter(["README.md"], Bundled) == [];
  }
}
