/** Command-line parsing of tools/video_to_nfp.js (`parseArgs`). The
    arguments are those after the interpreter and script name. */
module VideoArgs {
  import opened Wrappers
  import opened Strings
  import Seqs

  /** Parsed options. `fps` keeps the text that `parseFloat` reads;
      `slug`, `start` and `duration` are None when absent or given without `=`. */
  datatype Options = Options(
    width: int, height: int, fps: string,
    slug: Option<string>, start: Option<string>, duration: Option<string>)

  datatype Invocation = Invocation(input: string, output: string, opts: Options)

  /** The `opts` object while flags are applied: a None width, height or fps
      is JavaScript's NaN. */
  datatype Draft = Draft(
    width: Option<int>, height: Option<int>, fps: Option<string>,
    slug: Option<string>, start: Option<string>, duration: Option<string>)

  /** The defaults: 26 x 20 at 10 fps, slug "video", no trimming. */
  const Defaults: Draft := Draft(Some(26), Some(20), Some("10"), Some("video"), None, None)

  /** Bytes in one raw frame: `width * height * 3`. */
  function FrameSize(o: Options): int
  {
    o.width * o.height * 3
  }

  /** The key of `--key=value`: the text before the first `=`, with one
      leading `--` removed. */
  function FlagKey(arg: string): (key: string)
    ensures '=' !in key
    ensures var d := if IsPrefix("--", arg) then 2 else 0;
      IsPrefix(key, arg[d..]) && (d + |key| == |arg| || arg[d + |key|] == '=')
  {
    var k := Split(arg, '=')[0];
    SplitFirstIsPrefix(arg, '=');
    assert IsPrefix("--", arg) ==> IsPrefix("--", k);
    if IsPrefix("--", k) then
      assert "--" + k[2..] == k;
      k[2..]
    else k
  }

  /** The value of `--key=value`: the text between the first and the second
      `=`, or None (`undefined`) when there is no `=`. */
  function FlagValue(arg: string): (v: Option<string>)
    ensures v.Some? <==> '=' in arg
    ensures v.Some? ==> '=' !in v.value
  {
    var pieces := Split(arg, '=');
    SplitHasSep(arg, '=');
    if |pieces| >= 2 then Some(pieces[1]) else None
  }

  /** `parseInt(v, 10)`, where an undefined value is NaN. */
  function ParseIntValue(v: Option<string>): Option<int>
  {
    match v
    case None => None
    case Some(t) => ParseInt(t)
  }

  /** The text `parseFloat` reads as a finite number, in the plain form
      accepted here: an optional minus sign, digits, and optionally a point
      followed by digits, with at least one digit in all. */
  predicate IsFiniteNumber(t: string)
  {
    var body := if |t| > 0 && t[0] == '-' then t[1..] else t;
    exists i :: 0 <= i <= |body| && AllDigits(body[..i]) &&
      (i == |body| || (body[i] == '.' && AllDigits(body[i + 1..]))) &&
      |body| > (if i < |body| then 1 else 0)
  }

  const Keys: set<string> := {"width", "height", "fps", "slug", "start", "duration"}

  /** One pass of the `switch`: a known key overwrites its field, any other
      key is ignored. */
  function ApplyFlag(d: Draft, arg: string): (e: Draft)
    ensures FlagKey(arg) !in {"width", "height", "fps", "slug", "start", "duration"} ==> e == d
    ensures e.width != d.width ==> FlagKey(arg) == "width"
    ensures e.height != d.height ==> FlagKey(arg) == "height"
    ensures e.fps != d.fps ==> FlagKey(arg) == "fps"
    ensures e.slug != d.slug ==> FlagKey(arg) == "slug"
    ensures e.start != d.start ==> FlagKey(arg) == "start"
    ensures e.duration != d.duration ==> FlagKey(arg) == "duration"
    ensures FlagKey(arg) == "width" ==> e.width == ParseIntValue(FlagValue(arg))
    ensures FlagKey(arg) == "height" ==> e.height == ParseIntValue(FlagValue(arg))
    ensures FlagKey(arg) == "fps" ==> e.fps == FlagValue(arg)
    ensures FlagKey(arg) == "slug" ==> e.slug == FlagValue(arg)
    ensures FlagKey(arg) == "start" ==> e.start == FlagValue(arg)
    ensures FlagKey(arg) == "duration" ==> e.duration == FlagValue(arg)
  {
    var key := FlagKey(arg);
    var v := FlagValue(arg);
    if key == "width" then d.(width := ParseIntValue(v))
    else if key == "height" then d.(height := ParseIntValue(v))
    else if key == "fps" then d.(fps := v)
    else if key == "slug" then d.(slug := v)
    else if key == "start" then d.(start := v)
    else if key == "duration" then d.(duration := v)
    else d
  }

  /** The flags applied left to right. */
  function ApplyFlags(d: Draft, flags: seq<string>): Draft
    decreases |flags|
  {
    if |flags| == 0 then d else ApplyFlags(ApplyFlag(d, flags[0]), flags[1..])
  }

  /** The final `Number.isFinite` check on width, height and fps. */
  function Finish(d: Draft): (r: Option<Options>)
    ensures r.Some? <==> d.width.Some? && d.height.Some? && d.fps.Some? && IsFiniteNumber(d.fps.value)
    ensures r.Some? ==>
      && Some(r.value.width) == d.width && Some(r.value.height) == d.height
      && Some(r.value.fps) == d.fps && r.value.slug == d.slug
      && r.value.start == d.start && r.value.duration == d.duration
  {
    if d.width.Some? && d.height.Some? && d.fps.Some? && IsFiniteNumber(d.fps.value)
    then Some(Options(d.width.value, d.height.value, d.fps.value, d.slug, d.start, d.duration))
    else None
  }

  /** What `parseArgs` returns: null (None) for fewer than two arguments or a
      non-finite number, otherwise the two positionals and the options. */
  function Parse(args: seq<string>): (r: Option<Invocation>)
    ensures |args| < 2 ==> r.None?
    ensures r.Some? ==> r.value.input == args[0] && r.value.output == args[1]
    ensures r.Some? ==> IsFiniteNumber(r.value.opts.fps)
  {
    if |args| < 2 then None
    else match Finish(ApplyFlags(Defaults, args[2..]))
      case None => None
      case Some(o) => Some(Invocation(args[0], args[1], o))
  }

  /** `parseArgs`: the loop over the flags that updates `opts` in place. */
  method ParseArgs(args: seq<string>) returns (r: Option<Invocation>)
    ensures r == Parse(args)
  {
    if |args| < 2 {
      return None;
    }
    var input := args[0];
    var output := args[1];
    var opts := Defaults;
    for i := 2 to |args|
      invariant ApplyFlags(opts, args[i..]) == ApplyFlags(Defaults, args[2..])
    {
      assert args[i..][0] == args[i] && args[i..][1..] == args[i + 1..];
      var pieces := Split(args[i], '=');
      var k := pieces[0];
      var v := if |pieces| >= 2 then Some(pieces[1]) else None;
      var key := if IsPrefix("--", k) then k[2..] else k;
      if key == "width" {
        opts := opts.(width := ParseIntValue(v));
      } else if key == "height" {
        opts := opts.(height := ParseIntValue(v));
      } else if key == "fps" {
        opts := opts.(fps := v);
      } else if key == "slug" {
        opts := opts.(slug := v);
      } else if key == "start" {
        opts := opts.(start := v);
      } else if key == "duration" {
        opts := opts.(duration := v);
      }
    }
    assert args[|args|..] == [];
    if opts.width.None? || opts.height.None? || opts.fps.None? || !IsFiniteNumber(opts.fps.value) {
      return None;
    }
    r := Some(Invocation(input, output,
      Options(opts.width.value, opts.height.value, opts.fps.value, opts.slug, opts.start, opts.duration)));
  }

  // ---------------------------------------------------------------- properties

  /** The default frame rate passes the finiteness check. */
  lemma DefaultFpsFinite()
    ensures IsFiniteNumber("10")
  {
    assert AllDigits("10"[..2]);
  }

  /** Fewer than two arguments give null; two arguments alone give the defaults. */
  lemma ParseBasics(args: seq<string>, input: string, output: string)
    ensures |args| < 2 ==> Parse(args) == None
    ensures Parse([input, output]) ==
      Some(Invocation(input, output, Options(26, 20, "10", Some("video"), None, None)))
  {
    assert [input, output][2..] == [];
    DefaultFpsFinite();
  }

  /** A flag added at the end is applied after all earlier ones. */
  lemma {:induction false} ApplyFlagsAppend(d: Draft, flags: seq<string>, last: string)
    ensures ApplyFlags(d, flags + [last]) == ApplyFlag(ApplyFlags(d, flags), last)
    decreases |flags|
  {
    if |flags| == 0 {
      assert flags + [last] == [last];
    } else {
      assert (flags + [last])[1..] == flags[1..] + [last];
      ApplyFlagsAppend(ApplyFlag(d, flags[0]), flags[1..], last);
    }
  }

  /** In `k=v` the key text is `k` and the value `v`. */
  lemma FlagParts(k: string, v: string)
    requires '=' !in k && '=' !in v
    ensures Split(k + "=" + v, '=') == [k, v]
    ensures FlagValue(k + "=" + v) == Some(v)
  {
    SplitNoSep(k, '=');
    SplitNoSep(v, '=');
    assert k + "=" + v == k + ['='] + v;
    SplitAppendSep(k, v, '=');
  }

  /** In `k=v=rest` the value is still `v`: whatever follows the second `=`
      is dropped. */
  lemma FlagPartsRest(k: string, v: string, rest: string)
    requires '=' !in k && '=' !in v
    ensures Split(k + "=" + v + "=" + rest, '=') == [k, v] + Split(rest, '=')
    ensures FlagValue(k + "=" + v + "=" + rest) == Some(v)
  {
    var tail := v + ['='] + rest;
    SplitAtFirst(v, rest);
    SplitAtFirst(k, tail);
    assert k + "=" + v + "=" + rest == k + ['='] + tail;
    assert [k] + ([v] + Split(rest, '=')) == [k, v] + Split(rest, '=');
  }

  /** A first piece without `=` is split off whole. */
  lemma SplitAtFirst(k: string, tail: string)
    requires '=' !in k
    ensures Split(k + ['='] + tail, '=') == [k] + Split(tail, '=')
  {
    SplitNoSep(k, '=');
    SplitAppendSep(k, tail, '=');
  }

  /** `--key=v` sets the key `key` with value `v`. */
  lemma KeyFlag(key: string, v: string)
    requires '=' !in key && '=' !in v
    ensures FlagKey("--" + key + "=" + v) == key && FlagValue("--" + key + "=" + v) == Some(v)
  {
    FlagParts("--" + key, v);
    assert IsPrefix("--", "--" + key) && ("--" + key)[2..] == key;
  }

  /** A bare `--key` without `=` sets the key `key` with no value. */
  lemma BareFlag(key: string)
    requires '=' !in key
    ensures FlagKey("--" + key) == key && FlagValue("--" + key) == None
  {
    assert '=' !in "--" + key;
    SplitNoSep("--" + key, '=');
    assert IsPrefix("--", "--" + key) && ("--" + key)[2..] == key;
  }

  /** `--key=v` writes `v`, read as its key demands, into that key's field. */
  lemma KnownFlagWrites(p: Draft, key: string, v: string)
    requires key in Keys && '=' !in v
    ensures var e := ApplyFlag(p, "--" + key + "=" + v);
      && (key == "width" ==> e.width == ParseInt(v))
      && (key == "height" ==> e.height == ParseInt(v))
      && (key == "fps" ==> e.fps == Some(v))
      && (key == "slug" ==> e.slug == Some(v))
      && (key == "start" ==> e.start == Some(v))
      && (key == "duration" ==> e.duration == Some(v))
  {
    KeyFlag(key, v);
  }

  /** The last flag for a key decides that field, whatever came before. */
  lemma LaterFlagWins(d: Draft, flags: seq<string>, key: string, v: string)
    requires key in Keys && '=' !in v
    ensures var e := ApplyFlags(d, flags + ["--" + key + "=" + v]);
      && (key == "width" ==> e.width == ParseInt(v))
      && (key == "height" ==> e.height == ParseInt(v))
      && (key == "fps" ==> e.fps == Some(v))
      && (key == "slug" ==> e.slug == Some(v))
      && (key == "start" ==> e.start == Some(v))
      && (key == "duration" ==> e.duration == Some(v))
  {
    ApplyFlagsAppend(d, flags, "--" + key + "=" + v);
    KnownFlagWrites(ApplyFlags(d, flags), key, v);
  }

  /** The leading `--` is optional: `--k=v` and `k=v` mean the same. */
  lemma DashesOptional(d: Draft, arg: string)
    requires !IsPrefix("--", arg)
    ensures ApplyFlag(d, "--" + arg) == ApplyFlag(d, arg)
  {
    var s := "--" + arg;
    assert s[1..] == "-" + arg && s[1..][1..] == arg;
    var pieces := Split(arg, '=');
    assert Split(s[1..], '=')[0] == "-" + pieces[0];
    assert Split(s, '=')[0] == "--" + pieces[0];
    assert Split(s, '=')[1..] == pieces[1..];
    SplitFirstIsPrefix(arg, '=');
    assert FlagKey(s) == FlagKey(arg);
  }

  /** Unknown keys are ignored: dropping every flag with an unknown key
      changes nothing. */
  lemma {:induction false} UnknownFlagsIgnored(d: Draft, flags: seq<string>)
    ensures ApplyFlags(d, flags) == ApplyFlags(d, Seqs.Filter(flags, (a: string) => FlagKey(a) in Keys))
    decreases |flags|
  {
    if |flags| > 0 {
      var known := (a: string) => FlagKey(a) in Keys;
      if known(flags[0]) {
        UnknownFlagsIgnored(ApplyFlag(d, flags[0]), flags[1..]);
      } else {
        assert ApplyFlag(d, flags[0]) == d;
        UnknownFlagsIgnored(d, flags[1..]);
      }
    }
  }

  /** A final width or height that is not an integer, or a final fps that
      is not a finite number, makes the whole parse null, however many
      other flags there are. */
  lemma NonNumericRejected(args: seq<string>, key: string, v: string)
    requires |args| >= 2 && '=' !in v
    requires (key in {"width", "height"} && ParseInt(v) == None) || (key == "fps" && !IsFiniteNumber(v))
    ensures Parse(args + ["--" + key + "=" + v]) == None
  {
    var flag := "--" + key + "=" + v;
    assert (args + [flag])[2..] == args[2..] + [flag];
    LaterFlagWins(Defaults, args[2..], key, v);
  }

  /** A final `--width`, `--height` or `--fps` without `=` reads as NaN and
      makes the whole parse null. */
  lemma BareNumericFlagRejected(args: seq<string>, key: string)
    requires |args| >= 2 && key in {"width", "height", "fps"}
    ensures Parse(args + ["--" + key]) == None
  {
    var flag := "--" + key;
    assert (args + [flag])[2..] == args[2..] + [flag];
    ApplyFlagsAppend(Defaults, args[2..], flag);
    BareFlag(key);
  }

  // ---------------------------------------------------------------- zero-size frames

  /** As written, `--width=0` is accepted: the parse succeeds with a frame
      size of 0 bytes, for which the frame loop never ends. */
  lemma ZeroWidthAccepted(input: string, output: string)
    ensures Parse([input, output, "--width=0"]).Some?
    ensures FrameSize(Parse([input, output, "--width=0"]).value.opts) == 0
  {
    var args := [input, output, "--width=0"];
    assert args[2..] == ["--width=0"];
    ZeroWidthDraft();
    DefaultFpsFinite();
    assert Finish(Defaults.(width := Some(0))) == Some(Options(0, 20, "10", Some("video"), None, None));
  }

  /** The single flag `--width=0` sets the width to 0 and keeps the other
      defaults. */
  lemma ZeroWidthDraft()
    ensures ApplyFlags(Defaults, ["--width=0"]) == Defaults.(width := Some(0))
  {
    WidthDraft("0");
    assert "--width=" + "0" == "--width=0";
    ParseZero();
  }

  /** A lone `--width=v` flag changes the width and nothing else. */
  lemma WidthDraft(v: string)
    requires '=' !in v
    ensures ApplyFlags(Defaults, ["--width=" + v]) == Defaults.(width := ParseInt(v))
  {
    var flag := "--width=" + v;
    assert [flag][1..] == [];
    assert ApplyFlags(Defaults, [flag]) == ApplyFlag(Defaults, flag);
    assert "--" + "width" + "=" + v == flag;
    KeyFlag("width", v);
    assert FlagKey(flag) == "width";
    assert ApplyFlag(Defaults, flag) == Defaults.(width := ParseIntValue(Some(v)));
  }

  /** `parseInt("0", 10)` is 0. */
  lemma ParseZero()
    ensures ParseInt("0") == Some(0)
  {
    assert AllDigits("0");
    assert "0"[..0] == [];
    assert ParseNat("0") == 0;
  }

  /** The parse with the evidently intended geometry check: a width or
      height below 1 is rejected like a non-numeric one, so every accepted
      invocation has a positive frame size. */
  function ParseChecked(args: seq<string>): (r: Option<Invocation>)
    ensures r.Some? ==> FrameSize(r.value.opts) > 0
    ensures r.Some? <==> Parse(args).Some? && Parse(args).value.opts.width > 0 && Parse(args).value.opts.height > 0
    ensures r.Some? ==> r == Parse(args)
  {
    match Parse(args)
    case Some(inv) =>
      if inv.opts.width > 0 && inv.opts.height > 0 then
        assert inv.opts.width * inv.opts.height > 0;
        Some(inv)
      else None
    case None => None
  }
}
