# ComputerCraft build and video tooling, modelled in Dafny

This project models the host-side tools of the Arcadesys ComputerCraft
scripts. These are the small Node.js and Python programs that prepare
content for in-game computers:

- **tools/video_to_nfp.js** converts a raw RGB video stream into ComputerCraft
  `nfp` frame files and a `manifest.json`. The model covers:
  - the 16-colour palette quantiser `nearestColor`;
  - the `data` handler that cuts the ffmpeg byte stream into frames;
  - the per-frame text encoder;
  - the zero-padded frame names;
  - the `close` handler's decision;
  - `parseArgs`.
- **build/bundle.js**, **build/net_install.js** and
  **build/workstation_install.js** build installers. Each selects Lua files
  with `normalizePath` and `shouldSkip` against its own ignore sets, and the
  workstation builder adds the allow-list `filterFiles`. **bundle.js**
  selects the `.lua` files of one directory and gives up when there are none.
  **build/bundle.js** and **bundle.js** both quote file contents as Lua long
  strings with `toLuaString`.
- **tools/lua_block_check.py** checks Lua block nesting with a stack of
  openers.

Modules:

- `Wrappers` holds `Option`.
- `Seqs` holds flatten, filter and subsequence.
- `Strings` holds the JavaScript string operations, decimal text and the
  plain integer parser.
- `Palette`, `FrameEncoder`, `VideoArgs` and `FrameAssembler` model the
  video converter:
  - the `data` handler is the class `FrameAssembler.Assembler`;
  - `FrameAssembler.Run` is `main` with the corrected parser
    `VideoArgs.ParseChecked` (see Findings), followed by `processVideo`.
- `LuaString` models `toLuaString`.
- `PathFilter` holds `normalizePath` and `shouldSkip`, with the ignore sets
  as a parameter.
- `BuildBundle`, `NetInstall`, `WorkstationInstall` and `RootBundle` supply
  each script's sets and its own examples.
- `BlockCheck` models the Lua block checker.

Several things are parameters rather than part of the model:

- ffmpeg is a parameter: the chunks it writes and its exit code.
- The directory walk is a parameter: the candidate paths it finds.
- The Python tokeniser is a parameter: a function from a line's
  comment-free code to its keywords.

## Model

| member | source | states |
|---|---|---|
| Palette.Nearest | tools/video_to_nfp.js:46-60 | the chosen palette index has a squared distance no larger than any entry's, and every earlier entry is strictly farther (first entry wins ties) |
| Palette.ArgMinUpTo | tools/video_to_nfp.js:49-58 | after scanning the first n entries, the best index is among them, minimal among them, and strictly better than every earlier one |
| Palette.NearestColor | tools/video_to_nfp.js:46-60 | the loop with `best`/`bestDist` (Infinity as None) returns the hex digit of the nearest entry, which is one of 0-9a-f |
| Palette.PaletteDigits | tools/video_to_nfp.js:27-44 | the palette has 16 entries whose hex digits are 0-9a-f in order |
| Palette.PaletteColorsDistinct | tools/video_to_nfp.js:27-44 | no two palette entries share an RGB triple |
| Palette.OwnColorIsNearest | tools/video_to_nfp.js:27-54 | an exact palette colour is quantised to its own entry |
| Palette.BlackAndWhite | tools/video_to_nfp.js:28-60 | (0,0,0) gives "f" and (240,240,240) gives "0" |
| FrameEncoder.PixelInFrame | tools/video_to_nfp.js:161-164 | the bytes of pixel (x,y) at (y*W+x)*3 .. +2 lie inside a W*H*3 frame |
| FrameEncoder.EncodePixel | tools/video_to_nfp.js:161-165 | the digit appended for pixel (x,y) is the nearest-colour digit of the three bytes at (y*W+x)*3 |
| FrameEncoder.EncodeRow | tools/video_to_nfp.js:159-166 | the inner loop builds row y as the W nearest-colour digits of that row's pixels |
| FrameEncoder.EncodeFrame | tools/video_to_nfp.js:157-172 | the frame text is "W H\n" followed by the H rows joined by "\n", with no trailing newline |
| FrameEncoder.FrameText | tools/video_to_nfp.js:157-172 | the text starts with the `${width} ${height}\n` header, and every later character is a newline or a blit digit 0-9a-f |
| FrameEncoder.RowsShape | tools/video_to_nfp.js:157-168 | there are H rows of W characters, each the digit of the pixel's three bytes |
| FrameEncoder.HeaderRoundTrip | tools/video_to_nfp.js:171 | the header line reads back as the width and height it was written from |
| FrameEncoder.FrameTextRoundTrip | tools/video_to_nfp.js:171-172 | splitting the file text at newlines gives the header line followed by exactly the rows, and a reader recovers W, H and the rows |
| FrameEncoder.SolidFrame | tools/video_to_nfp.js:157-172 | a 2x2 frame of one byte value is "2 2\n" and two rows of that value's digit |
| FrameEncoder.SolidBlackAndWhiteFrames | tools/video_to_nfp.js:157-172 | an all-zero 2x2 frame is "2 2\nff\nff" and an all-240 one "2 2\n00\n00" |
| FrameAssembler.Frames | tools/video_to_nfp.js:153-155 | every frame cut from the stream has exactly frameSize bytes |
| FrameAssembler.Subarray | tools/video_to_nfp.js:155-155 | `buffer.subarray(frameSize)` keeps a suffix of the buffer: `len - begin` bytes for a start inside it, none past its end, and the last `-begin` bytes (at most all) for a negative start |
| FrameAssembler.CutPasses | tools/video_to_nfp.js:153-155 | the buffer after at most `k` passes of the loop is a suffix of the buffer; with a positive frame size the cut is a whole number of frames, and a pass with a whole frame present shortens the buffer |
| FrameAssembler.NonPositiveSizeNeverStops | tools/video_to_nfp.js:153-155 | with a frame size of 0 or below the guard holds of every buffer, so the loop never ends; the buffer it spins on is fixed: size 0 leaves it unchanged after any number of passes, and a negative size keeps the same suffix from the first pass on |
| FrameAssembler.PositiveSizeStops | tools/video_to_nfp.js:153-155 | with a positive frame size the loop stops within `buffer.length` passes and leaves exactly the bytes after the last whole frame, fewer than a frame |
| FrameAssembler.StreamSlicing | tools/video_to_nfp.js:151-156 | the frames in order followed by the leftover are the whole stream; there are total/frameSize frames and total mod frameSize leftover bytes, fewer than frameSize |
| FrameAssembler.SlicingUnique | tools/video_to_nfp.js:151-156 | any cut of the stream into whole frames plus a short leftover is the one `Frames`/`Leftover` give, so chunk boundaries do not matter |
| FrameAssembler.WholeAndPartialStreams | tools/video_to_nfp.js:151-156 | a stream of k frames plus r bytes yields k frames and an r-byte leftover |
| FrameAssembler.CutOneFrame | tools/video_to_nfp.js:153-170 | one pass of the `while` loop keeps the handler consistent: the cut frame joins the frame list, the buffer loses exactly its first frameSize bytes, the bytes stay in order, and the frame is written under the next index |
| FrameAssembler.FilesOfAppend | tools/video_to_nfp.js:156-170 | one more frame adds exactly one file at the end, named with the next 1-based index, and leaves the earlier files as they were |
| FrameAssembler.FrameNameDigits | tools/video_to_nfp.js:169 | a frame name is "frame_", at least four decimal digits reading back as the index, and ".nfp" |
| FrameAssembler.FrameName | tools/video_to_nfp.js:169-169 | a frame name starts with "frame_", ends with ".nfp" and is at least 14 characters long (four digits or more) |
| FrameAssembler.FrameNamesDistinct | tools/video_to_nfp.js:169-195 | different frame indices give different names, also past 9999 |
| FrameAssembler.ManifestFor | tools/video_to_nfp.js:187-196 | the manifest counts `frameIndex` frames and lists exactly that many names, name i being frame i+1's file name, all pairwise different |
| FrameAssembler.FrameNameExamples | tools/video_to_nfp.js:169 | frame 1 is "frame_0001.nfp" and frame 12345 is "frame_12345.nfp" |
| FrameAssembler.CloseDecision | tools/video_to_nfp.js:179-197 | a non-zero code exits with that code and writes no manifest; code 0 writes the manifest, warns exactly when bytes are left over, counts the frames written and lists their names in order |
| FrameAssembler.NoFramesStillWritesManifest | tools/video_to_nfp.js:179-197 | with code 0 and no frames a manifest with frameCount 0 and no names is still written |
| FrameAssembler.Assembler.constructor | tools/video_to_nfp.js:147-149 | the handler starts with an empty buffer and frame index 0 |
| FrameAssembler.Assembler.OnData | tools/video_to_nfp.js:151-177 | after each chunk, the frames written are exactly the whole frameSize slices of all bytes received, in order and named 1.. consecutively, the buffer is the shorter-than-a-frame rest, and earlier files are kept |
| FrameAssembler.Feed | tools/video_to_nfp.js:151-177 | feeding the chunks in order to a fresh handler leaves it having received their concatenation, with the files of that stream written and its leftover in the buffer |
| FrameAssembler.Assembler.OnClose | tools/video_to_nfp.js:179-199 | the close outcome is the decision on the code and the buffer, and the manifest lists exactly the names written |
| FrameAssembler.ProcessVideo | tools/video_to_nfp.js:140-200 | for any chunking of the stream the files are the frames of the concatenation; a non-zero exit is a failure and a zero exit a manifest with total/frameSize frames and a warning iff total mod frameSize > 0 |
| FrameAssembler.Run | tools/video_to_nfp.js:202-211 | usage is reported exactly when the corrected parser (`ParseChecked`) rejects the arguments, otherwise the files are those of the concatenated stream and the run fails exactly on a non-zero exit |
| FrameAssembler.TwoFrameScenario | tools/video_to_nfp.js:151-197 | a 2x2 stream of one black and one white frame yields two files "frame_0001.nfp"/"frame_0002.nfp" with texts "2 2\nff\nff"/"2 2\n00\n00" |
| FrameAssembler.ShortStreamScenario | tools/video_to_nfp.js:184-197 | a stream shorter than one frame writes no files and a manifest with no frames and the trailing-bytes warning |
| VideoArgs.ParseArgs | tools/video_to_nfp.js:66-109 | the flag loop computes the result of `Parse`: left-to-right overrides on the defaults, then the finiteness check |
| VideoArgs.Parse | tools/video_to_nfp.js:66-109 | fewer than two arguments give null; an accepted result carries the two positionals as input and output and a finite fps |
| VideoArgs.FlagKey | tools/video_to_nfp.js:80-81 | the key contains no `=`; it starts the argument, or starts right after the argument's leading `--` when there is one, and is followed there by the first `=` or by the end of the argument |
| VideoArgs.FlagValue | tools/video_to_nfp.js:80-80 | a value exists exactly when the argument contains `=`, and it contains no `=` |
| VideoArgs.ApplyFlag | tools/video_to_nfp.js:82-103 | an unknown key changes nothing; each option changes only under its own key; width and height get `parseInt` of the value (NaN when there is none), and fps, slug, start and duration get the value itself |
| VideoArgs.Finish | tools/video_to_nfp.js:105-108 | null exactly when width, height or fps is NaN or fps is not a finite number; otherwise the options carry the draft's values unchanged |
| VideoArgs.KeyFlag | tools/video_to_nfp.js:80-81 | `--key=v` has key `key` and value `v` |
| VideoArgs.BareFlag | tools/video_to_nfp.js:80-81 | `--key` without `=` has key `key` and no value |
| VideoArgs.KnownFlagWrites | tools/video_to_nfp.js:82-103 | `--key=v` for each of the six known keys writes `v` into that key's field, read by `parseInt` for width and height |
| VideoArgs.ParseBasics | tools/video_to_nfp.js:68-108 | fewer than two arguments give null; two arguments give the defaults 26, 20, 10 and "video" with no start or duration |
| VideoArgs.ApplyFlagsAppend | tools/video_to_nfp.js:79-104 | the flags are applied one after the other in order |
| VideoArgs.FlagParts | tools/video_to_nfp.js:80 | the value is the text between the first and the second `=` |
| VideoArgs.FlagPartsRest | tools/video_to_nfp.js:80 | in `k=v=rest` the value is still `v`: only the first two pieces of the split are kept |
| VideoArgs.WidthDraft | tools/video_to_nfp.js:79-84 | a lone `--width=v` sets the width to the integer read from `v` and leaves every other option at its default |
| VideoArgs.LaterFlagWins | tools/video_to_nfp.js:79-104 | for each of the six known keys, the last `--key=v` decides that field, whatever flags came before |
| VideoArgs.DashesOptional | tools/video_to_nfp.js:81 | a flag with or without the leading `--` has the same effect |
| VideoArgs.UnknownFlagsIgnored | tools/video_to_nfp.js:82-103 | dropping every flag with an unknown key changes nothing |
| VideoArgs.NonNumericRejected | tools/video_to_nfp.js:83-108 | a final width or height that is not an integer, or a final fps that is not a finite number, makes the result null |
| VideoArgs.BareNumericFlagRejected | tools/video_to_nfp.js:83-108 | a final `--width`, `--height` or `--fps` without `=` reads as NaN and makes the result null |
| VideoArgs.ZeroWidthAccepted | tools/video_to_nfp.js:83-147 | `--width=0` is accepted and gives a frame size of 0 |
| VideoArgs.ParseChecked | tools/video_to_nfp.js:105-153 | the corrected parser also rejects a non-positive width or height, so an accepted result has a positive frame size |
| LuaString.ToLuaString | build/bundle.js:26-31 | the result is the content between `[`=…`[` and `]`=…`]` with a run of `=` no longer than the content, whose brackets do not occur in the content, and every shorter run's bracket does; bundle.js:15-22 holds the same helper |
| LuaString.ShortestLevelUnique | bundle.js:18-20 | the shortest usable run is unique, so the quoting is determined by the content |
| LuaString.CloserFormedAtTheSeam | build/bundle.js:28-31 | "a]" is wrapped as "[[a]]]" with no `=`, although its last `]` and the closer's first `]` together form "]]" |
| PathFilter.NormalizePath | build/bundle.js:22-24 | every backslash becomes `/`, every other character and the length are kept, and no backslash remains |
| PathFilter.NormalizeIdempotent | build/net_install.js:25-27 | normalising twice equals normalising once |
| PathFilter.NormalizeClean | build/workstation_install.js:41-43 | a path without backslashes is unchanged |
| PathFilter.SomeSegment | build/bundle.js:36-39 | the `some` over segments is true exactly when some index from there on has an ignored segment or an ignored root-anchored prefix |
| PathFilter.ShouldSkip | build/bundle.js:34-46 | an entry is skipped iff one of its segments or root-anchored `/`-joined prefixes is an ignored directory, or it is a file whose base name is an ignored file |
| PathFilter.Basename | build/bundle.js:42-42 | the basename is the suffix after the last `/`: it has no `/`, is the whole path when there is none, and is otherwise preceded by a `/` |
| PathFilter.DirectoryIgnoresFileNames | build/bundle.js:42 | a directory's verdict never depends on the ignored file names |
| PathFilter.SkippedPath | build/net_install.js:29-36 | a path with an ignored segment or ignored root-anchored prefix is skipped |
| PathFilter.KeptPath | build/net_install.js:29-41 | a path none of whose segments and prefixes is ignored, and whose base name is not an ignored file, is kept |
| PathFilter.SkipInherited | build/bundle.js:34-41 | every path below a skipped directory is skipped too |
| PathFilter.IgnoredFileAnyDepth | build/net_install.js:37-39 | an ignored file name is skipped at the top and below any directory |
| BuildBundle.Skip | build/bundle.js:8-46 | with this script's sets a directory is only ever skipped by the directory rule |
| BuildBundle.BuildSegmentSkipped | build/bundle.js:11-38 | "lib/build/x.lua" is skipped because of its `build` segment |
| BuildBundle.DistPrefixSkipped | build/bundle.js:13-38 | "factory/dist/a.lua" is skipped through the prefix "factory/dist" |
| BuildBundle.NestedDistKept | build/bundle.js:13-38 | "a/factory/dist/b.lua" is kept: the prefix is anchored at the root |
| BuildBundle.FactoryKept | build/bundle.js:8-46 | "factory/a.lua" is kept |
| NetInstall.Skip | build/net_install.js:10-41 | with this script's sets a directory is only ever skipped by the directory rule |
| NetInstall.InstallersSkippedAsFiles | build/net_install.js:18-39 | "net_installer.lua" and "arcadesys_installer.lua" are skipped as files, at the top and at any depth |
| NetInstall.InstallerNamedDirectoryKept | build/net_install.js:37 | directories with those names are not skipped |
| NetInstall.KeptName | build/net_install.js:29-41 | a one-segment directory whose name is not an ignored directory is kept |
| NetInstall.LibraryFileKept | build/net_install.js:29-41 | "lib/util.lua" is kept |
| WorkstationInstall.Skip | build/workstation_install.js:10-57 | with this script's sets a directory is only ever skipped by the directory rule |
| WorkstationInstall.SomePrefix | build/workstation_install.js:84 | the `some` over ALLOWED_PREFIXES is true exactly when one of them is a prefix |
| WorkstationInstall.FilterFiles | build/workstation_install.js:81-86 | a path is kept iff it was given and is an allowed file or starts with an allowed prefix |
| WorkstationInstall.FilterFilesSubsequence | build/workstation_install.js:82-85 | the kept paths are an order-preserving subsequence of the input |
| WorkstationInstall.FilterFilesIdempotent | build/workstation_install.js:82-85 | filtering the output again changes nothing |
| WorkstationInstall.PrefixExamples | build/workstation_install.js:25-84 | "lib/x.lua" and "games/arcade.lua" are allowed; "libx.lua" and "games/other.lua" are not |
| WorkstationInstall.SelectFiles | build/workstation_install.js:67-90 | a found path is used iff it is not skipped as a file and is allowed, and the order is kept |
| WorkstationInstall.InstallersSkippedAsFiles | build/workstation_install.js:18-55 | "workstation_install.lua" and "net_installer.lua" are skipped as files at any depth |
| RootBundle.SelectLuaFiles | bundle.js:5-33 | a name is bundled iff it is listed, ends in ".lua" and is not in IGNORE_FILES, in listing order; "arcadeos.lua" never is |
| RootBundle.CreateInstaller | bundle.js:31-38 | the early return happens exactly when no listed name is a non-ignored ".lua" file; otherwise the selected files are bundled |
| RootBundle.OnlyOwnOutput | bundle.js:5-38 | a listing of the output and the build files takes the early return |
| RootBundle.OneProgram | bundle.js:31-33 | only "startup.lua" is bundled from "arcadeos.lua", "startup.lua", "README.md" |
| BlockCheck.StripComment | tools/lua_block_check.py:7 | the code is the part of the line before the first `--`, or the whole line when there is none |
| BlockCheck.CommentDropped | tools/lua_block_check.py:7-8 | text after `--` never reaches the tokeniser |
| BlockCheck.RStrip | tools/lua_block_check.py:11-16 | the reported line is a prefix of the line that ends in a non-whitespace character (or is empty), and everything dropped is whitespace in the sense of `str.isspace()`, including U+001C to U+001F and the Unicode spaces |
| BlockCheck.RStripSeparatorControls | tools/lua_block_check.py:11-16 | trailing information separators (U+001C, U+001F) and a newline are stripped; the last non-whitespace character stays |
| BlockCheck.RStripWideSpace | tools/lua_block_check.py:11-16 | a trailing ideographic space (U+3000) is stripped like an ASCII space |
| BlockCheck.LineEvents | tools/lua_block_check.py:6-9 | each keyword of a line carries that line's 1-based number |
| BlockCheck.Verdict | tools/lua_block_check.py:16-23 | an unmatched `end` is reported with its line number and text; otherwise the status is 1 exactly when blocks stay open, listing the last (at most) 60 of the stack in push order, and "All blocks closed" when none do |
| BlockCheck.ExitStatus | tools/lua_block_check.py:17-23 | the status is 1 exactly for unclosed blocks, otherwise 0 |
| BlockCheck.Last60 | tools/lua_block_check.py:20 | the listing shows the last min(60, depth) entries in push order |
| BlockCheck.ScanLine | tools/lua_block_check.py:9-17 | the loop over one line's keywords either stops at an `end` on an empty stack, which decides the whole scan, or hands the stack to the following lines exactly as the stack machine would |
| BlockCheck.CheckBlocks | tools/lua_block_check.py:5-23 | the nested loops with the early exit give exactly the verdict of the stack machine on the whole file |
| BlockCheck.StackDepth | tools/lua_block_check.py:9-15 | a scan with no unmatched `end` ends with (openers − `end`s) entries |
| BlockCheck.Scan | tools/lua_block_check.py:9-17 | a scan that stops, stops at an `end` keyword of its input |
| BlockCheck.StopIsFinal | tools/lua_block_check.py:15-17 | after the first unmatched `end` the rest of the file is never read |
| BlockCheck.ForDoLeavesOneOpen | tools/lua_block_check.py:10-22 | a line with keywords `for`, `do`, `end` leaves the `for` open and exits 1 |
| BlockCheck.LeadingEndReported | tools/lua_block_check.py:15-17 | an `end` as the first keyword is reported at line 1 with status 0 |

## Left out

- File-system effects are not modelled: creating directories, writing the
  frame files and `manifest.json`, reading Lua sources, and the recursive
  `collectLuaFiles` walks. Directory listings and the walk's results are
  input sequences. A written file is a name and its text.
- ffmpeg is not modelled: `assertFfmpeg`, `spawnFfmpeg`, the scaling and the
  event-emitter wiring. The chunks of standard output and the close code are
  parameters. A `null` close code after a signal is not modelled.
- Console output is not modelled: the progress line every 25 frames, the
  usage text, the warnings, and `process.exit`/`process.exitCode`. Outcomes
  are returned as values.
- VideoArgs.ParseArgs: `parseInt` is modelled as a plain decimal parser
  (`Strings.ParseInt`). It accepts an optional `-` followed by digits, and
  any other text is NaN. JavaScript's leading-whitespace and
  trailing-garbage prefix parsing (for example "26px") is not modelled.
- VideoArgs.ParseArgs: `fps` is kept as the text given. The finiteness check
  (`VideoArgs.IsFiniteNumber`) accepts a simple decimal form, not the whole
  `parseFloat` grammar (exponents, `Infinity`, trailing text).
- VideoArgs.ParseArgs: JavaScript numbers are IEEE 754 doubles. Widths,
  heights and frame rates are exact unbounded numbers in the model. So a
  width above 2^53 is not rounded. A width, height or fps of 309 or more
  digits, which `parseInt`/`parseFloat` turn into `Infinity` and
  `Number.isFinite` rejects, is accepted by the model. The point where a
  digit string overflows depends on the engine, because ECMAScript lets
  `parseInt` approximate past 20 significant digits.
- Strings.ParseInt: returns the exact integer of any length, with no
  rounding to a double and no overflow to `Infinity`.
- VideoArgs.IsFiniteNumber: holds for every plain decimal text, including
  ones too long to be a finite double.
- `path.basename` is modelled as the text after the last `/`. Its removal of
  trailing slashes is not modelled; the walks never produce a trailing slash.
- Sorting with `localeCompare` is not modelled, because it depends on the
  locale. The ISO timestamps are not modelled either.
- The generated Lua installer texts and the `JSON.stringify` layout of the
  manifest are not modelled.
- bundle.js holds a second pasted copy of everything after its first copy
  breaks off mid-string. Only the first copy is modelled.
- The regular-expression tokeniser of tools/lua_block_check.py is a
  parameter. So is its hard-coded input file.
- Lines are given without their terminators. `readlines` keeps each
  newline; `rstrip` removes it again and the comment pattern's `.` does not
  match it, so only the text handed to the tokeniser differs.
- FrameAssembler.Assembler.constructor: the handler is modelled for a
  positive frame size only. With a frame size of 0 the source loops forever
  (see Findings), and a negative one makes `subarray` count from the end.
- FrameAssembler.Run: it uses the corrected parser, so every width or
  height below 1 gets the usage message. That includes a negative width
  and a negative height together, whose frame size is positive and which
  the source accepts and processes to the end.
- For a non-zero ffmpeg exit, the model reports the frame files already
  written. The real process exits with that code at that point.
- The zero-frame run: the close handler writes a manifest with frameCount 0
  when no whole frame arrived. The model follows the code here
  (`FrameAssembler.NoFramesStillWritesManifest`), not a reading under which
  an empty video would be an error.

## Findings

| source | as written | input that shows it | evidently intended | confidence | as-written member | corrected member |
|---|---|---|---|---|---|---|
| tools/video_to_nfp.js:83-88,105-108,147,153 | `parseArgs` only checks that width and height are finite, so `frameSize = width * height * 3` can be 0 (or negative); `while (buffer.length >= frameSize)` then always holds and the `data` handler never returns (`FrameAssembler.NonPositiveSizeNeverStops`) | `node tools/video_to_nfp.js in.mp4 out --width=0` | width and height must be positive, so that every frame consumes bytes | not executed | VideoArgs.ZeroWidthAccepted | VideoArgs.ParseChecked |
