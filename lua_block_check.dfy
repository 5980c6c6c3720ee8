/** tools/lua_block_check.py: a quick block-nesting check for a Lua file.
    Each line loses its `--` comment, its keywords are read left to right,
    block openers are pushed on a stack and every `end` pops one, whatever it
    closes. The regular-expression tokeniser is a parameter: it maps the
    comment-free code of a line to the keywords found in it. */
module BlockCheck {
  import opened Strings

  /** `function`, `do`, `if`, `for` and `repeat` open a block. */
  predicate IsOpener(t: string)
  {
    t in ["function", "do", "if", "for", "repeat"]
  }

  /** `re.sub(r"--.*", "", l)` on a line without its terminator: everything
      before the first `--`. */
  function StripComment(l: string): (code: string)
    ensures IsPrefix(code, l)
    ensures forall i :: 0 <= i < |code| ==> !IsPrefix("--", l[i..])
    ensures |code| < |l| ==> IsPrefix("--", l[|code|..])
    decreases |l|
  {
    if |l| < 2 then l
    else if l[..2] == "--" then ""
    else
      var rest := StripComment(l[1..]);
      assert forall i :: 1 <= i <= |rest| ==> l[i..] == l[1..][i - 1..];
      [l[0]] + rest
  }

  /** A comment marker ends the code of a line: keywords after it are
      never read. */
  lemma CommentDropped(code: string, comment: string)
    requires '-' !in code
    ensures StripComment(code + "--" + comment) == code
  {
    var l := code + "--" + comment;
    var c := StripComment(l);
    assert IsPrefix("--", l[|code|..]);
    assert forall i :: 0 <= i < |code| ==> l[i] == code[i];
    assert l[..|code|] == code;
    assert !(|code| < |c|);
    assert |c| < |l| ==> l[|c|..][0] == '-';
    assert forall i :: 0 <= i < |code| ==> l[i] != '-';
  }

  /** The characters `str.isspace()` accepts, which `str.rstrip()` removes:
      tab to carriage return, the four information separators U+001C to
      U+001F, space, U+0085, no-break space, and the Unicode space
      separators and line and paragraph separators. */
  predicate IsSpace(c: char)
  {
    || '\t' <= c <= '\r'
    || '\U{1C}' <= c <= ' '
    || c == '\U{85}' || c == '\U{A0}' || c == '\U{1680}'
    || '\U{2000}' <= c <= '\U{200A}'
    || c == '\U{2028}' || c == '\U{2029}' || c == '\U{202F}' || c == '\U{205F}' || c == '\U{3000}'
  }

  /** `l.rstrip()`. */
  function RStrip(l: string): (r: string)
    ensures IsPrefix(r, l)
    ensures |r| > 0 ==> !IsSpace(r[|r| - 1])
    ensures forall i :: |r| <= i < |l| ==> IsSpace(l[i])
    decreases |l|
  {
    if |l| > 0 && IsSpace(l[|l| - 1]) then RStrip(l[..|l| - 1]) else l
  }

  /** Trailing information separators and a trailing newline are stripped
      like blanks; a character that is not whitespace stops the strip. */
  lemma RStripSeparatorControls()
    ensures RStrip("end\U{1C}\U{1F}\n") == "end"
  {
    var l := "end\U{1C}\U{1F}\n";
    assert l[..5] == "end\U{1C}\U{1F}" && l[..4] == "end\U{1C}" && l[..3] == "end";
    assert RStrip("end") == "end";
    assert RStrip(l[..4]) == RStrip(l[..3]);
    assert RStrip(l[..5]) == RStrip(l[..4]);
  }

  /** The ideographic space U+3000 is stripped like an ASCII space. */
  lemma RStripWideSpace()
    ensures RStrip("end;\U{3000} ") == "end;"
  {
    var m := "end;\U{3000} ";
    assert m[..5] == "end;\U{3000}" && m[..4] == "end;";
    assert RStrip("end;") == "end;";
    assert RStrip(m[..5]) == RStrip(m[..4]);
  }

  /** One keyword of one line: the keyword, the 1-based line number and the
      right-stripped line it came from. */
  datatype Event = Event(token: string, line: nat, text: string)

  /** A stack entry `(t, i, l.rstrip())`. */
  datatype Entry = Entry(token: string, line: nat, text: string)

  /** The keywords `tokens` of one line, tagged with its number and text. */
  function Tagged(tokens: seq<string>, line: nat, text: string): (evs: seq<Event>)
  {
    seq(|tokens|, k requires 0 <= k < |tokens| => Event(tokens[k], line, text))
  }

  /** The keywords of line `i` (0-based) in order. */
  function LineEvents(lines: seq<string>, i: nat, tokenize: string -> seq<string>): (evs: seq<Event>)
    requires i < |lines|
    ensures |evs| == |tokenize(StripComment(lines[i]))|
    ensures forall k :: 0 <= k < |evs| ==> evs[k].line == i + 1
  {
    Tagged(tokenize(StripComment(lines[i])), i + 1, RStrip(lines[i]))
  }

  /** The keywords of lines `from` onwards, line by line. */
  function EventsFrom(lines: seq<string>, from: nat, tokenize: string -> seq<string>): seq<Event>
    decreases |lines| - from
  {
    if from >= |lines| then []
    else LineEvents(lines, from, tokenize) + EventsFrom(lines, from + 1, tokenize)
  }

  /** Where the scan ends: at an `end` with nothing to close, or after the
      last keyword with the stack left over. */
  datatype ScanResult = Stopped(at: Event) | Finished(stack: seq<Entry>)

  /** The stack machine over a sequence of keywords. */
  function Scan(stack: seq<Entry>, evs: seq<Event>): (r: ScanResult)
    ensures r.Stopped? ==> r.at in evs && r.at.token == "end"
    decreases |evs|
  {
    if |evs| == 0 then Finished(stack)
    else
      var e := evs[0];
      if IsOpener(e.token) then Scan(stack + [Entry(e.token, e.line, e.text)], evs[1..])
      else if e.token == "end" then
        if |stack| > 0 then Scan(stack[..|stack| - 1], evs[1..]) else Stopped(e)
      else Scan(stack, evs[1..])
  }

  /** The printed verdict. */
  datatype Report =
    | UnmatchedEnd(line: nat, text: string)
    | Unclosed(shown: seq<Entry>)
    | AllClosed

  /** The exit status: 0 after an unmatched `end`, 1 with unclosed blocks,
      0 after "All blocks closed". */
  function ExitStatus(r: Report): (code: int)
    ensures code == 1 <==> r.Unclosed?
    ensures code == 0 || code == 1
  {
    match r
    case UnmatchedEnd(_, _) => 0
    case Unclosed(_) => 1
    case AllClosed => 0
  }

  /** `stack[-60:]`. */
  function Last60(s: seq<Entry>): (shown: seq<Entry>)
    ensures |shown| == if |s| < 60 then |s| else 60
    ensures forall k :: 0 <= k < |shown| ==> shown[k] == s[|s| - |shown| + k]
  {
    if |s| <= 60 then s else s[|s| - 60..]
  }

  /** The verdict the scan of a whole file leads to. */
  function Verdict(result: ScanResult): (r: Report)
    ensures r.UnmatchedEnd? <==> result.Stopped?
    ensures result.Stopped? ==> r.line == result.at.line && r.text == result.at.text
    ensures r.AllClosed? <==> result.Finished? && |result.stack| == 0
    ensures ExitStatus(r) == 1 <==> result.Finished? && |result.stack| > 0
    ensures r.Unclosed? ==>
      && |r.shown| == (if |result.stack| < 60 then |result.stack| else 60)
      && r.shown == result.stack[|result.stack| - |r.shown|..]
  {
    match result
    case Stopped(e) => UnmatchedEnd(e.line, e.text)
    case Finished(s) => if |s| > 0 then Unclosed(Last60(s)) else AllClosed
  }

  /** The verdict for a file given as its lines. */
  function BlockReport(lines: seq<string>, tokenize: string -> seq<string>): Report
  {
    Verdict(Scan([], EventsFrom(lines, 0, tokenize)))
  }

  /** One step of the scan on the remaining keywords `e` + `rest`. */
  lemma ScanStep(stack: seq<Entry>, e: Event, rest: seq<Event>)
    ensures Scan(stack, [e] + rest) ==
      if IsOpener(e.token) then Scan(stack + [Entry(e.token, e.line, e.text)], rest)
      else if e.token == "end" then
        if |stack| > 0 then Scan(stack[..|stack| - 1], rest) else Stopped(e)
      else Scan(stack, rest)
  {
    assert ([e] + rest)[0] == e && ([e] + rest)[1..] == rest;
  }

  /** The inner loop over the keywords of one line: push openers, pop on
      `end`, and stop at an `end` with nothing to close. `later` stands for
      the keywords of the following lines. */
  method ScanLine(stack0: seq<Entry>, tokens: seq<string>, line: nat, text: string, ghost later: seq<Event>)
    returns (stack: seq<Entry>, stopped: bool)
    ensures stopped ==> Scan(stack0, Tagged(tokens, line, text) + later) == Stopped(Event("end", line, text))
    ensures !stopped ==> Scan(stack0, Tagged(tokens, line, text) + later) == Scan(stack, later)
  {
    ghost var evs := Tagged(tokens, line, text);
    stack := stack0;
    stopped := false;
    var j := 0;
    while j < |tokens|
      invariant 0 <= j <= |tokens|
      invariant Scan(stack, evs[j..] + later) == Scan(stack0, evs + later)
    {
      var t := tokens[j];
      assert evs[j..] + later == [evs[j]] + (evs[j + 1..] + later);
      ScanStep(stack, evs[j], evs[j + 1..] + later);
      if IsOpener(t) {
        stack := stack + [Entry(t, line, text)];
      } else if t == "end" {
        if |stack| > 0 {
          stack := stack[..|stack| - 1];
        } else {
          stopped := true;
          return;
        }
      }
      j := j + 1;
    }
    assert evs[j..] + later == later;
  }

  /** The script: read the keywords line by line, push openers, pop on
      `end`, stop at the first `end` with an empty stack, and report what is
      left. */
  method CheckBlocks(lines: seq<string>, tokenize: string -> seq<string>) returns (report: Report)
    ensures report == BlockReport(lines, tokenize)
  {
    var stack: seq<Entry> := [];
    var i := 0;
    while i < |lines|
      invariant 0 <= i <= |lines|
      invariant Scan(stack, EventsFrom(lines, i, tokenize)) == Scan([], EventsFrom(lines, 0, tokenize))
    {
      var l := lines[i];
      var stopped;
      stack, stopped := ScanLine(stack, tokenize(StripComment(l)), i + 1, RStrip(l), EventsFrom(lines, i + 1, tokenize));
      if stopped {
        report := UnmatchedEnd(i + 1, RStrip(l));
        return;
      }
      i := i + 1;
    }
    if |stack| > 0 {
      report := Unclosed(Last60(stack));
    } else {
      report := AllClosed;
    }
  }

  /** Number of openers among the keywords. */
  function Opens(evs: seq<Event>): nat
  {
    if |evs| == 0 then 0 else (if IsOpener(evs[0].token) then 1 else 0) + Opens(evs[1..])
  }

  /** Number of `end`s among the keywords. */
  function Ends(evs: seq<Event>): nat
  {
    if |evs| == 0 then 0 else (if evs[0].token == "end" then 1 else 0) + Ends(evs[1..])
  }

  /** When no `end` went unmatched, the stack holds as many entries as there
      were openers less `end`s; when the scan stops, it stops at an `end`
      and only after more `end`s than openers. */
  lemma {:induction false} StackDepth(stack: seq<Entry>, evs: seq<Event>)
    ensures Scan(stack, evs).Finished? ==> |Scan(stack, evs).stack| == |stack| + Opens(evs) - Ends(evs)
    decreases |evs|
  {
    if |evs| > 0 {
      var e := evs[0];
      if IsOpener(e.token) {
        StackDepth(stack + [Entry(e.token, e.line, e.text)], evs[1..]);
      } else if e.token == "end" {
        if |stack| > 0 {
          StackDepth(stack[..|stack| - 1], evs[1..]);
        }
      } else {
        StackDepth(stack, evs[1..]);
      }
    }
  }

  /** The first unmatched `end` decides: whatever follows it is never read. */
  lemma {:induction false} StopIsFinal(stack: seq<Entry>, evs: seq<Event>, more: seq<Event>)
    requires Scan(stack, evs).Stopped?
    ensures Scan(stack, evs + more) == Scan(stack, evs)
    decreases |evs|
  {
    var e := evs[0];
    assert (evs + more)[0] == e && (evs + more)[1..] == evs[1..] + more;
    if IsOpener(e.token) {
      StopIsFinal(stack + [Entry(e.token, e.line, e.text)], evs[1..], more);
    } else if e.token == "end" {
      if |stack| > 0 {
        StopIsFinal(stack[..|stack| - 1], evs[1..], more);
      }
    } else {
      StopIsFinal(stack, evs[1..], more);
    }
  }

  /** A one-line file whose keywords are `for`, `do`, `end`, such as
      `for i=1,3 do x() end`: `for` and `do` both push, so the single `end`
      leaves the `for` open and the exit status is 1. */
  lemma ForDoLeavesOneOpen(l: string, tokenize: string -> seq<string>)
    requires tokenize(StripComment(l)) == ["for", "do", "end"]
    ensures BlockReport([l], tokenize) == Unclosed([Entry("for", 1, RStrip(l))])
    ensures ExitStatus(BlockReport([l], tokenize)) == 1
  {
    var lines := [l];
    var text := RStrip(l);
    var evs := LineEvents(lines, 0, tokenize);
    assert EventsFrom(lines, 1, tokenize) == [];
    assert evs == [Event("for", 1, text), Event("do", 1, text), Event("end", 1, text)];
    assert EventsFrom(lines, 0, tokenize) == evs;
    var open1 := [Entry("for", 1, text)];
    var open2 := open1 + [Entry("do", 1, text)];
    assert evs == [evs[0]] + evs[1..] && evs[1..] == [evs[1]] + evs[2..] && evs[2..] == [evs[2]] + [];
    ScanStep([], evs[0], evs[1..]);
    assert [] + [Entry("for", 1, text)] == open1;
    assert Scan([], evs) == Scan(open1, evs[1..]);
    ScanStep(open1, evs[1], evs[2..]);
    assert Scan(open1, evs[1..]) == Scan(open2, evs[2..]);
    ScanStep(open2, evs[2], []);
    assert open2[..1] == open1;
    assert Scan(open2, evs[2..]) == Scan(open1, []);
  }

  /** An `end` on the first keyword of the file is reported with its line. */
  lemma LeadingEndReported(lines: seq<string>, tokenize: string -> seq<string>)
    requires |lines| > 0 && |tokenize(StripComment(lines[0]))| > 0
    requires tokenize(StripComment(lines[0]))[0] == "end"
    ensures BlockReport(lines, tokenize) == UnmatchedEnd(1, RStrip(lines[0]))
    ensures ExitStatus(BlockReport(lines, tokenize)) == 0
  {
    var evs := EventsFrom(lines, 0, tokenize);
    assert evs[0] == Event("end", 1, RStrip(lines[0]));
  }
}
