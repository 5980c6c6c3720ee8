/** The frame pipeline of tools/video_to_nfp.js: the `data` handler that
    cuts the decoder's byte stream into frames and writes one file per
    frame, the frame file names, and the `close` handler that writes the
    manifest. */
module FrameAssembler {
  import opened Wrappers
  import opened Strings
  import opened Seqs
  import opened FrameEncoder
  import opened VideoArgs

  // ---------------------------------------------------------------- slicing a stream

  /** The consecutive `n`-byte slices of a stream, as many as fit. */
  function Frames(s: seq<Byte>, n: int): (fs: seq<seq<Byte>>)
    requires n > 0
    ensures forall i :: 0 <= i < |fs| ==> |fs[i]| == n
    decreases |s|
  {
    if |s| < n then [] else [s[..n]] + Frames(s[n..], n)
  }

  /** `buffer.subarray(begin)`: the bytes from `begin` on, where a negative
      `begin` counts back from the end; the start is clamped to the buffer. */
  function Subarray(buffer: seq<Byte>, begin: int): (rest: seq<Byte>)
    ensures |rest| <= |buffer| && rest == buffer[|buffer| - |rest|..]
    ensures begin >= 0 ==> |rest| == (if begin <= |buffer| then |buffer| - begin else 0)
    ensures begin < 0 ==> |rest| == (if -begin <= |buffer| then -begin else |buffer|)
  {
    var start :=
      if begin < 0 then (if |buffer| + begin < 0 then 0 else |buffer| + begin)
      else if begin > |buffer| then |buffer| else begin;
    buffer[start..]
  }

  /** The buffer after at most `k` passes of the `data` handler's loop
      `while (buffer.length >= frameSize) buffer = buffer.subarray(frameSize)`;
      it stops early once the guard fails. */
  function CutPasses(buffer: seq<Byte>, n: int, k: nat): (rest: seq<Byte>)
    ensures |rest| <= |buffer| && rest == buffer[|buffer| - |rest|..]
    ensures n > 0 ==> |rest| % n == |buffer| % n
    ensures n > 0 && |buffer| >= n && k > 0 ==> |rest| < |buffer|
    decreases k
  {
    if k == 0 || |buffer| < n then buffer
    else
      assert n > 0 ==> (|buffer| - n) % n == |buffer| % n by {
        if n > 0 { DivModStep(|buffer|, n); }
      }
      CutPasses(Subarray(buffer, n), n, k - 1)
  }

  /** As written, nothing keeps the frame size positive. With a frame size
      of 0 or below the guard `|buffer| >= n` holds of every buffer, so the
      loop never ends; what it spins on is fixed: a size of 0 leaves the
      buffer as it was, and a negative size keeps the last `-n` bytes from
      the first pass on. */
  lemma {:induction false} NonPositiveSizeNeverStops(buffer: seq<Byte>, n: int, k: nat)
    requires n <= 0
    ensures n == 0 ==> CutPasses(buffer, n, k) == buffer
    ensures k > 0 ==> CutPasses(buffer, n, k) == Subarray(buffer, n)
    decreases k
  {
    if k > 1 {
      var once := Subarray(buffer, n);
      NonPositiveSizeNeverStops(once, n, k - 1);
      assert Subarray(once, n) == once;
    }
  }

  /** With a positive frame size the loop stops within `|buffer|` passes,
      leaving exactly the bytes after the last whole frame. */
  lemma {:induction false} PositiveSizeStops(buffer: seq<Byte>, n: int, k: nat)
    requires n > 0 && k >= |buffer|
    ensures CutPasses(buffer, n, k) == Leftover(buffer, n)
    ensures |CutPasses(buffer, n, k)| < n
    decreases |buffer|
  {
    StreamSlicing(buffer, n);
    if |buffer| >= n {
      assert k > 0;
      PositiveSizeStops(buffer[n..], n, k - 1);
    }
  }

  /** The bytes after the last whole slice. */
  function Leftover(s: seq<Byte>, n: int): (rest: seq<Byte>)
    requires n > 0
    decreases |s|
  {
    if |s| < n then s else Leftover(s[n..], n)
  }

  lemma DivModStep(a: int, n: int)
    requires n > 0 && a >= n
    ensures (a - n) / n == a / n - 1 && (a - n) % n == a % n
  {
    var q, r := (a - n) / n, (a - n) % n;
    assert a - n == n * q + r && 0 <= r < n;
    assert a == n * (q + 1) + r;
    DivModUnique(a, n, q + 1, r);
  }

  lemma MulBounds(n: int, d: int)
    requires n > 0
    ensures d >= 1 ==> n * d >= n
    ensures d <= -1 ==> n * d <= -n
  {
  }

  lemma DivModUnique(a: int, n: int, q: int, r: int)
    requires n > 0 && a == n * q + r && 0 <= r < n
    ensures a / n == q && a % n == r
  {
    var d := a / n - q;
    assert n * d == n * (a / n) - n * q;
    assert n * d == r - a % n;
    MulBounds(n, d);
  }

  /** A stream is its whole slices followed by fewer than `n` leftover
      bytes: `|s| / n` frames and `|s| % n` leftover bytes. */
  lemma {:induction false} StreamSlicing(s: seq<Byte>, n: int)
    requires n > 0
    ensures Flatten(Frames(s, n)) + Leftover(s, n) == s
    ensures |Leftover(s, n)| < n
    ensures |Frames(s, n)| == |s| / n && |Leftover(s, n)| == |s| % n
    decreases |s|
  {
    if |s| < n {
      DivModUnique(|s|, n, 0, |s|);
    } else {
      StreamSlicing(s[n..], n);
      var fs := Frames(s, n);
      assert fs[0] == s[..n] && fs[1..] == Frames(s[n..], n);
      assert s == s[..n] + s[n..];
      DivModStep(|s|, n);
    }
  }

  /** Slicing is determined by the stream alone: any list of whole frames
      followed by a short remainder that concatenates to `s` is the slicing
      of `s`. */
  lemma {:induction false} SlicingUnique(fs: seq<seq<Byte>>, b: seq<Byte>, s: seq<Byte>, n: int)
    requires n > 0
    requires Flatten(fs) + b == s
    requires forall i :: 0 <= i < |fs| ==> |fs[i]| == n
    requires |b| < n
    ensures fs == Frames(s, n) && b == Leftover(s, n)
    decreases |fs|
  {
    if |fs| > 0 {
      var tail := Flatten(fs[1..]) + b;
      assert s == fs[0] + tail;
      assert s[..n] == fs[0] && s[n..] == tail;
      SlicingUnique(fs[1..], b, tail, n);
      assert fs == [fs[0]] + fs[1..];
    }
  }

  /** A stream of exactly `k` frames' worth of bytes yields `k` frames and
      no leftover; `r` bytes more, with `0 < r < n`, yields the same `k`
      frames and `r` leftover bytes. */
  lemma WholeAndPartialStreams(s: seq<Byte>, n: int, k: nat, r: nat)
    requires n > 0 && r < n && |s| == n * k + r
    ensures |Frames(s, n)| == k && |Leftover(s, n)| == r
    ensures r == 0 ==> Leftover(s, n) == []
  {
    StreamSlicing(s, n);
    DivModUnique(|s|, n, k, r);
  }

  // ---------------------------------------------------------------- frame files

  /** `frame_${String(i).padStart(4, "0")}.nfp`. */
  function FrameName(i: nat): (name: string)
    ensures IsPrefix("frame_", name) && EndsWith(name, ".nfp")
    ensures |name| >= 14
  {
    var digits := PadStart(NatStr(i), 4, '0');
    assert |digits| >= 4;
    "frame_" + digits + ".nfp"
  }

  /** The number in a frame name has at least four digits, is never cut
      short, and reads back as the frame index; so distinct frames get
      distinct names. */
  lemma FrameNameDigits(i: nat)
    ensures var digits := PadStart(NatStr(i), 4, '0');
      && FrameName(i) == "frame_" + digits + ".nfp"
      && |digits| == (if |NatStr(i)| > 4 then |NatStr(i)| else 4)
      && EndsWith(digits, NatStr(i))
      && AllDigits(digits) && ParseNat(digits) == i
  {
    var d := NatStr(i);
    ParseNatStr(i);
    if |d| < 4 {
      ParseNatLeadingZeros(4 - |d|, d);
      var p := Repeat('0', 4 - |d|) + d;
      assert p[|p| - |d|..] == d;
    }
  }

  /** The names of frames 1 to `n` are pairwise different. */
  lemma FirstNamesDistinct(n: nat)
    ensures forall i: nat, j: nat :: 1 <= i < j <= n ==> FrameName(i) != FrameName(j)
  {
    forall i: nat, j: nat | 1 <= i < j <= n
      ensures FrameName(i) != FrameName(j)
    {
      if FrameName(i) == FrameName(j) {
        FrameNamesDistinct(i, j);
      }
    }
  }

  lemma {:induction false} FrameNamesDistinct(i: nat, j: nat)
    requires FrameName(i) == FrameName(j)
    ensures i == j
  {
    FrameNameDigits(i);
    FrameNameDigits(j);
    var di, dj := PadStart(NatStr(i), 4, '0'), PadStart(NatStr(j), 4, '0');
    var a, b := FrameName(i), FrameName(j);
    assert |di| == |dj|;
    assert di == a[6..|a| - 4];
    assert dj == b[6..|b| - 4];
  }

  /** Frame 1 is `frame_0001.nfp`; frame 12345 is `frame_12345.nfp`. */
  lemma FrameNameExamples()
    ensures FrameName(1) == "frame_0001.nfp"
    ensures FrameName(12345) == "frame_12345.nfp"
  {
    FirstFrameName();
    FiveDigitFrameName();
  }

  lemma FirstFrameName()
    ensures FrameName(1) == "frame_0001.nfp"
  {
    assert NatStr(1) == "1";
    assert Repeat('0', 3) == "000";
    assert PadStart("1", 4, '0') == "0001";
  }

  lemma FiveDigitFrameName()
    ensures FrameName(12345) == "frame_12345.nfp"
  {
    assert NatStr(12) == "12";
    assert NatStr(123) == "123";
    assert NatStr(1234) == "1234";
    assert NatStr(12345) == "12345";
    assert PadStart("12345", 4, '0') == "12345";
  }

  /** One written frame file: its name in the frames directory and its text. */
  datatype FrameFile = FrameFile(name: string, text: string)

  /** The file written for frame `f`, the `i`-th of the stream (1-based). */
  function FileFor(f: seq<Byte>, i: nat, o: Options): FrameFile
    requires |f| == FrameSize(o)
  {
    FrameFile(FrameName(i), FrameText(f, o.width, o.height))
  }

  /** The files for a list of frames, in order. */
  function FilesOf(frames: seq<seq<Byte>>, o: Options): seq<FrameFile>
    requires forall i :: 0 <= i < |frames| ==> |frames[i]| == FrameSize(o)
  {
    seq(|frames|, i requires 0 <= i < |frames| => FileFor(frames[i], i + 1, o))
  }

  /** One more frame adds one more file at the end. */
  lemma FilesOfAppend(frames: seq<seq<Byte>>, f: seq<Byte>, o: Options)
    requires forall i :: 0 <= i < |frames| ==> |frames[i]| == FrameSize(o)
    requires |f| == FrameSize(o)
    ensures FilesOf(frames + [f], o) == FilesOf(frames, o) + [FileFor(f, |frames| + 1, o)]
  {
    var all := frames + [f];
    var lhs := FilesOf(all, o);
    var rhs := FilesOf(frames, o) + [FileFor(f, |frames| + 1, o)];
    assert |lhs| == |rhs|;
    forall i | 0 <= i < |lhs|
      ensures lhs[i] == rhs[i]
    {
      if i < |frames| {
        assert all[i] == frames[i];
      } else {
        assert all[i] == f;
      }
    }
  }

  /** The files written for a whole stream, in order: frame i (1-based) is
      the i-th slice, encoded. */
  function FilesFor(s: seq<Byte>, o: Options): (files: seq<FrameFile>)
    requires FrameSize(o) > 0
  {
    FilesOf(Frames(s, FrameSize(o)), o)
  }

  // ---------------------------------------------------------------- manifest and close

  datatype Manifest = Manifest(
    format: string, width: int, height: int, fps: string, frameCount: nat,
    slug: Option<string>, framesBasePath: string, frames: seq<string>)

  /** The manifest for `frameCount` frames; `frames` is built by
      `Array.from({ length: frameIndex }, ...)`. */
  function ManifestFor(o: Options, frameCount: nat): (m: Manifest)
    ensures m.frameCount == frameCount == |m.frames|
    ensures forall i :: 0 <= i < frameCount ==> m.frames[i] == FrameName(i + 1)
    ensures forall i, j :: 0 <= i < j < frameCount ==> m.frames[i] != m.frames[j]
  {
    FirstNamesDistinct(frameCount);
    Manifest("nfp-bg-rows-v1", o.width, o.height, o.fps, frameCount, o.slug, "frames",
      seq(frameCount, i requires 0 <= i < frameCount => FrameName(i + 1)))
  }

  /** What the `close` handler does: a non-zero exit code ends the process
      with that code before any manifest is written; otherwise trailing bytes
      only raise a warning and the manifest is written, even for no frames. */
  datatype CloseOutcome =
    | ExitWith(code: int)
    | WroteManifest(trailingWarning: bool, manifest: Manifest)

  function CloseDecision(code: int, leftover: nat, frameCount: nat, o: Options): (r: CloseOutcome)
    ensures r.ExitWith? <==> code != 0
    ensures r.ExitWith? ==> r.code == code
    ensures r.WroteManifest? ==>
      && r.trailingWarning == (leftover > 0)
      && r.manifest.frameCount == frameCount == |r.manifest.frames|
      && (forall i :: 0 <= i < frameCount ==> r.manifest.frames[i] == FrameName(i + 1))
  {
    if code != 0 then ExitWith(code)
    else WroteManifest(leftover > 0, ManifestFor(o, frameCount))
  }

  /** There is no zero-frame check: a clean exit with no whole frame still
      writes a manifest, with `frameCount` 0 and an empty frame list. */
  lemma NoFramesStillWritesManifest(leftover: nat, o: Options)
    ensures CloseDecision(0, leftover, 0, o).WroteManifest?
    ensures CloseDecision(0, leftover, 0, o).manifest.frameCount == 0
    ensures CloseDecision(0, leftover, 0, o).manifest.frames == []
  {
  }

  // ---------------------------------------------------------------- the stream state

  /** What the `data` handler keeps true between cuts: the frames cut so far
      followed by the buffer are exactly the bytes received, every frame has
      `FrameSize(o)` bytes, and file i holds frame i under its name. */
  ghost predicate Consistent(frames: seq<seq<Byte>>, buffer: seq<Byte>, written: seq<FrameFile>,
                             received: seq<Byte>, o: Options)
  {
    && FrameSize(o) > 0
    && Flatten(frames) + buffer == received
    && (forall i :: 0 <= i < |frames| ==> |frames[i]| == FrameSize(o))
    && written == FilesOf(frames, o)
  }

  /** Cutting one frame off the front of the buffer and writing it keeps the
      state consistent. */
  lemma CutOneFrame(frames: seq<seq<Byte>>, buffer: seq<Byte>, written: seq<FrameFile>,
                    received: seq<Byte>, o: Options)
    requires Consistent(frames, buffer, written, received, o)
    requires |buffer| >= FrameSize(o)
    ensures var f := buffer[..FrameSize(o)];
      Consistent(frames + [f], buffer[FrameSize(o)..], written + [FileFor(f, |written| + 1, o)], received, o)
  {
    var n := FrameSize(o);
    var f := buffer[..n];
    var more := frames + [f];
    CutKeepsBytes(frames, buffer, n);
    assert forall i :: 0 <= i < |more| ==> |more[i]| == n;
    FilesOfAppend(frames, f, o);
    assert written + [FileFor(f, |written| + 1, o)] == FilesOf(more, o);
  }

  /** Moving the first `n` bytes of the buffer to the frame list keeps the
      bytes in order. */
  lemma CutKeepsBytes(frames: seq<seq<Byte>>, buffer: seq<Byte>, n: nat)
    requires n <= |buffer|
    ensures Flatten(frames + [buffer[..n]]) + buffer[n..] == Flatten(frames) + buffer
  {
    FlattenAppend(frames, buffer[..n]);
    assert buffer == buffer[..n] + buffer[n..];
  }

  /** Once the buffer is shorter than a frame, the frames and files are
      those of the stream received. */
  lemma DoneCutting(frames: seq<seq<Byte>>, buffer: seq<Byte>, written: seq<FrameFile>,
                    received: seq<Byte>, o: Options)
    requires Consistent(frames, buffer, written, received, o)
    requires |buffer| < FrameSize(o)
    ensures frames == Frames(received, FrameSize(o))
    ensures buffer == Leftover(received, FrameSize(o))
    ensures written == FilesFor(received, o)
  {
    SlicingUnique(frames, buffer, received, FrameSize(o));
  }

  /** The state behind the `data` handler: `buffer` and `frameIndex` of
      `processVideo`, the files written so far (the file system), and as
      ghost state every byte received and every frame cut. */
  class Assembler {
    const opts: Options
    var buffer: seq<Byte>
    var frameIndex: nat
    var written: seq<FrameFile>
    ghost var received: seq<Byte>
    ghost var frames: seq<seq<Byte>>

    ghost predicate Valid()
      reads this
    {
      && Consistent(frames, buffer, written, received, opts)
      && |buffer| < FrameSize(opts)
      && frameIndex == |frames|
    }

    constructor (o: Options)
      requires FrameSize(o) > 0
      ensures Valid() && opts == o
      ensures buffer == [] && frameIndex == 0 && written == [] && received == [] && frames == []
    {
      opts := o;
      buffer := [];
      frameIndex := 0;
      written := [];
      received := [];
      frames := [];
    }

    /** The `data` handler: append the chunk, then cut and write frames
      while a whole frame is buffered. */
    method OnData(chunk: seq<Byte>)
      requires Valid()
      modifies this
      ensures Valid()
      ensures received == old(received) + chunk
      ensures frames == Frames(received, FrameSize(opts))
      ensures buffer == Leftover(received, FrameSize(opts))
      ensures written == FilesFor(received, opts)
      ensures old(written) <= written
    {
      var frameSize := opts.width * opts.height * 3;
      buffer := buffer + chunk;
      received := received + chunk;
      while |buffer| >= frameSize
        invariant Consistent(frames, buffer, written, received, opts)
        invariant received == old(received) + chunk
        invariant frameIndex == |frames|
        invariant old(written) <= written
        decreases |buffer|
      {
        CutOneFrame(frames, buffer, written, received, opts);
        var frameBuf := buffer[..frameSize];
        buffer := Subarray(buffer, frameSize);
        frameIndex := frameIndex + 1;
        var text := EncodeFrame(frameBuf, opts.width, opts.height);
        written := written + [FrameFile(FrameName(frameIndex), text)];
        assert written[|written| - 1] == FileFor(frameBuf, frameIndex, opts);
        frames := frames + [frameBuf];
      }
      DoneCutting(frames, buffer, written, received, opts);
    }

    /** The `close` handler, reading the final state. */
    method OnClose(code: int) returns (outcome: CloseOutcome)
      requires Valid()
      ensures outcome == CloseDecision(code, |buffer|, frameIndex, opts)
      ensures outcome.WroteManifest? ==>
        && outcome.manifest.frameCount == |written| == |outcome.manifest.frames|
        && (forall i :: 0 <= i < |written| ==> outcome.manifest.frames[i] == written[i].name)
    {
      outcome := CloseDecision(code, |buffer|, frameIndex, opts);
    }
  }

  // ---------------------------------------------------------------- a whole run

  /** The result of one conversion run. Frame files already written stay
      written when the decoder fails. */
  datatype RunResult =
    | Usage
    | DecoderFailed(code: int, files: seq<FrameFile>)
    | Completed(files: seq<FrameFile>, trailingWarning: bool, manifest: Manifest)

  /** `processVideo` after the decoder has started: every chunk goes to the
      `data` handler in order, then the `close` handler sees the exit code.
      The outcome depends on the concatenated stream only, not on where the
      chunk boundaries fall. */
  method ProcessVideo(o: Options, chunks: seq<seq<Byte>>, exitCode: int) returns (r: RunResult)
    requires FrameSize(o) > 0
    ensures !r.Usage?
    ensures r.DecoderFailed? <==> exitCode != 0
    ensures r.DecoderFailed? ==> r.code == exitCode && r.files == FilesFor(Flatten(chunks), o)
    ensures r.Completed? ==>
      && r.files == FilesFor(Flatten(chunks), o)
      && r.trailingWarning == (|Flatten(chunks)| % FrameSize(o) > 0)
      && |r.files| == |Flatten(chunks)| / FrameSize(o)
      && r.manifest == ManifestFor(o, |r.files|)
  {
    var n := FrameSize(o);
    var assembler := new Assembler(o);
    Feed(assembler, chunks);
    ghost var s := Flatten(chunks);
    StreamSlicing(s, n);
    var outcome := assembler.OnClose(exitCode);
    match outcome
    case ExitWith(code) =>
      r := DecoderFailed(code, assembler.written);
    case WroteManifest(warn, manifest) =>
      r := Completed(assembler.written, warn, manifest);
  }

  /** The `data` events of one run: every chunk goes to the handler in
      order. */
  method Feed(assembler: Assembler, chunks: seq<seq<Byte>>)
    requires assembler.Valid() && assembler.received == []
    modifies assembler
    ensures assembler.Valid()
    ensures assembler.received == Flatten(chunks)
    ensures assembler.written == FilesFor(Flatten(chunks), assembler.opts)
    ensures assembler.buffer == Leftover(Flatten(chunks), FrameSize(assembler.opts))
    ensures assembler.frameIndex == |Frames(Flatten(chunks), FrameSize(assembler.opts))|
  {
    var n := FrameSize(assembler.opts);
    for i := 0 to |chunks|
      invariant assembler.Valid()
      invariant assembler.received == Flatten(chunks[..i])
      invariant assembler.written == FilesFor(assembler.received, assembler.opts)
      invariant assembler.frames == Frames(assembler.received, n)
      invariant assembler.buffer == Leftover(assembler.received, n)
    {
      assert chunks[..i + 1] == chunks[..i] + [chunks[i]];
      FlattenAppend(chunks[..i], chunks[i]);
      assembler.OnData(chunks[i]);
    }
    assert chunks[..|chunks|] == chunks;
  }

  /** `main`: arguments that do not parse, including a width or height
      below 1, end with the usage message; otherwise `processVideo` runs. */
  method Run(args: seq<string>, chunks: seq<seq<Byte>>, exitCode: int) returns (r: RunResult)
    ensures r.Usage? <==> ParseChecked(args).None?
    ensures ParseChecked(args).Some? ==>
      && (r.DecoderFailed? <==> exitCode != 0)
      && r.files == FilesFor(Flatten(chunks), ParseChecked(args).value.opts)
  {
    var parsed := ParseChecked(args);
    if parsed.None? {
      return Usage;
    }
    r := ProcessVideo(parsed.value.opts, chunks, exitCode);
  }

  // ---------------------------------------------------------------- scenarios

  /** Twenty-four bytes cut at twelve: two whole frames, nothing left. */
  lemma TwoFrameSlices()
    ensures var black: seq<Byte> := seq(12, _ => 0);
      var white: seq<Byte> := seq(12, _ => 240);
      && Frames(black + white, 12) == [black, white]
      && Leftover(black + white, 12) == []
  {
    var black: seq<Byte> := seq(12, _ => 0);
    var white: seq<Byte> := seq(12, _ => 240);
    var s := black + white;
    assert s[..12] == black && s[12..] == white;
    assert white[..12] == white && white[12..] == [];
    assert Frames(white, 12) == [white];
    assert Leftover(white, 12) == Leftover([], 12) == [];
  }

  /** Two 2x2 frames, solid black then solid palette white, give
      `frame_0001.nfp` of `f`s and `frame_0002.nfp` of `0`s, and a
      manifest listing both. */
  lemma TwoFrameScenario(o: Options)
    requires o.width == 2 && o.height == 2
    ensures var s := seq(12, _ => 0) + seq(12, _ => 240);
      && FilesFor(s, o) == [FrameFile("frame_0001.nfp", "2 2\nff\nff"), FrameFile("frame_0002.nfp", "2 2\n00\n00")]
      && Leftover(s, 12) == []
      && CloseDecision(0, 0, 2, o).manifest.frames == ["frame_0001.nfp", "frame_0002.nfp"]
  {
    TwoFrameSlices();
    SolidBlackAndWhiteFrames();
    FrameNameExamples();
    assert FrameName(2) == "frame_0002.nfp" by {
      assert NatStr(2) == "2";
      assert Repeat('0', 3) == "000";
    }
  }

  /** A stream shorter than one frame writes no frame file; on a clean exit
      it warns about the trailing bytes and still writes a manifest with no
      frames. */
  lemma ShortStreamScenario(s: seq<Byte>, o: Options)
    requires FrameSize(o) > 0 && 0 < |s| < FrameSize(o)
    ensures FilesFor(s, o) == []
    ensures CloseDecision(0, |Leftover(s, FrameSize(o))|, 0, o) == WroteManifest(true, ManifestFor(o, 0))
  {
  }
}
