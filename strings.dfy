/** String operations the scripts take from JavaScript: `split` and `join` on a
    one-character separator, decimal rendering of integers (`String(n)`),
    a plain decimal integer parser standing for `parseInt(v, 10)`,
    `padStart`, `startsWith`, `endsWith` and `includes`. */
module Strings {
  import opened Wrappers

  // ---------------------------------------------------------------- split / join

  /** `s.split(sep)` for a one-character separator: the maximal pieces between
      separators, always at least one. */
  function Split(s: string, sep: char): (parts: seq<string>)
    ensures |parts| >= 1
    ensures forall i :: 0 <= i < |parts| ==> sep !in parts[i]
    decreases |s|
  {
    if |s| == 0 then [""]
    else
      var rest := Split(s[1..], sep);
      if s[0] == sep then [""] + rest
      else [[s[0]] + rest[0]] + rest[1..]
  }

  /** `parts.join(sep)`; the empty list joins to the empty string. */
  function Join(parts: seq<string>, sep: char): (s: string)
    decreases |parts|
  {
    if |parts| == 0 then ""
    else if |parts| == 1 then parts[0]
    else parts[0] + [sep] + Join(parts[1..], sep)
  }

  /** Joining the pieces of a split gives back the original string. */
  lemma {:induction false} JoinSplit(s: string, sep: char)
    ensures Join(Split(s, sep), sep) == s
    decreases |s|
  {
    if |s| > 0 {
      var rest := Split(s[1..], sep);
      JoinSplit(s[1..], sep);
      if s[0] == sep {
        assert Split(s, sep) == [""] + rest;
        assert s == [sep] + s[1..];
      } else if |rest| == 1 {
        assert s == [s[0]] + s[1..];
      } else {
        var parts := Split(s, sep);
        assert parts[1..] == rest[1..];
        assert s == [s[0]] + s[1..];
      }
    }
  }

  /** A string without the separator is a single piece. */
  lemma {:induction false} SplitNoSep(s: string, sep: char)
    requires sep !in s
    ensures Split(s, sep) == [s]
    decreases |s|
  {
    if |s| > 0 {
      assert sep !in s[1..];
      SplitNoSep(s[1..], sep);
      assert s == [s[0]] + s[1..];
    }
  }

  /** A leading separator opens an empty first piece. */
  lemma SplitConsSep(t: string, sep: char)
    ensures Split([sep] + t, sep) == [""] + Split(t, sep)
  {
    var s := [sep] + t;
    assert s[0] == sep && s[1..] == t;
  }

  /** Any other leading character joins the first piece of the rest. */
  lemma SplitConsOther(c: char, t: string, sep: char)
    requires c != sep
    ensures Split([c] + t, sep) == [[c] + Split(t, sep)[0]] + Split(t, sep)[1..]
  {
    var s := [c] + t;
    assert s[0] == c && s[1..] == t;
  }

  /** Splitting at a separator splits the two sides independently. */
  lemma {:induction false} SplitAppendSep(a: string, b: string, sep: char)
    ensures Split(a + [sep] + b, sep) == Split(a, sep) + Split(b, sep)
    decreases |a|
  {
    if |a| == 0 {
      assert a + [sep] + b == [sep] + b;
      SplitConsSep(b, sep);
    } else {
      SplitAppendSep(a[1..], b, sep);
      SplitAppendSepCons(a[0], a[1..], b, sep);
      assert a == [a[0]] + a[1..];
      assert a + [sep] + b == [a[0]] + (a[1..] + [sep] + b);
    }
  }

  /** The inductive step of `SplitAppendSep`: one more leading character. */
  lemma SplitAppendSepCons(c: char, t: string, b: string, sep: char)
    requires Split(t + [sep] + b, sep) == Split(t, sep) + Split(b, sep)
    ensures Split([c] + (t + [sep] + b), sep) == Split([c] + t, sep) + Split(b, sep)
  {
    if c == sep {
      SplitConsSep(t + [sep] + b, sep);
      SplitConsSep(t, sep);
    } else {
      SplitConsOther(c, t + [sep] + b, sep);
      SplitConsOther(c, t, sep);
      PrependToFirst([c], Split(t, sep), Split(b, sep));
    }
  }

  /** Extending the first piece of a list commutes with appending more pieces. */
  lemma PrependToFirst(x: string, ra: seq<string>, rb: seq<string>)
    requires |ra| >= 1
    ensures [x + (ra + rb)[0]] + (ra + rb)[1..] == ([x + ra[0]] + ra[1..]) + rb
  {
    assert (ra + rb)[0] == ra[0];
    assert (ra + rb)[1..] == ra[1..] + rb;
  }

  /** The first piece is the text before the first separator. */
  lemma {:induction false} SplitFirstIsPrefix(s: string, sep: char)
    ensures IsPrefix(Split(s, sep)[0], s)
    ensures var f := Split(s, sep)[0]; |f| == |s| || s[|f|] == sep
    decreases |s|
  {
    if |s| > 0 {
      SplitFirstIsPrefix(s[1..], sep);
      assert s == [s[0]] + s[1..];
      if s[0] == sep {
        SplitConsSep(s[1..], sep);
      } else {
        SplitConsOther(s[0], s[1..], sep);
      }
    }
  }

  /** There is more than one piece exactly when the separator occurs. */
  lemma {:induction false} SplitHasSep(s: string, sep: char)
    ensures |Split(s, sep)| >= 2 <==> sep in s
    decreases |s|
  {
    if |s| > 0 {
      SplitHasSep(s[1..], sep);
      assert s == [s[0]] + s[1..];
      if s[0] == sep {
        SplitConsSep(s[1..], sep);
      } else {
        SplitConsOther(s[0], s[1..], sep);
      }
    }
  }

  /** The last piece is the text after the last separator: a suffix of the
      string, preceded by a separator unless it is the whole string. */
  ghost predicate LastPieceIsSuffix(s: string, sep: char)
  {
    var ps := Split(s, sep);
    var last := ps[|ps| - 1];
    && EndsWith(s, last)
    && (|ps| == 1 ==> last == s)
    && (|ps| > 1 ==> |last| < |s| && s[|s| - |last| - 1] == sep)
  }

  lemma {:induction false} SplitLastIsSuffix(s: string, sep: char)
    ensures LastPieceIsSuffix(s, sep)
    decreases |s|, 1
  {
    if |s| > 0 {
      LastPieceCons(s[0], s[1..], sep);
      assert s == [s[0]] + s[1..];
    }
  }

  lemma {:induction false} LastPieceCons(c: char, t: string, sep: char)
    ensures LastPieceIsSuffix([c] + t, sep)
    decreases |t| + 1, 0
  {
    SplitLastIsSuffix(t, sep);
    if c == sep {
      LastPieceAfterSep(t, sep);
    } else {
      LastPieceAfterOther(c, t, sep);
    }
  }

  /** A leading separator leaves the last piece as it was. */
  lemma LastPieceAfterSep(t: string, sep: char)
    requires LastPieceIsSuffix(t, sep)
    ensures LastPieceIsSuffix([sep] + t, sep)
  {
    SplitConsSep(t, sep);
    var rest := Split(t, sep);
    var last := rest[|rest| - 1];
    var s := [sep] + t;
    assert Split(s, sep)[|Split(s, sep)| - 1] == last;
    assert s[|s| - |last|..] == t[|t| - |last|..];
    if |rest| > 1 {
      assert s[|s| - |last| - 1] == t[|t| - |last| - 1];
    } else {
      assert s[|s| - |last| - 1] == s[0];
    }
  }

  /** Another leading character joins the last piece only when it is also
      the first one. */
  lemma LastPieceAfterOther(c: char, t: string, sep: char)
    requires c != sep
    requires LastPieceIsSuffix(t, sep)
    ensures LastPieceIsSuffix([c] + t, sep)
  {
    SplitConsOther(c, t, sep);
    var rest := Split(t, sep);
    var last := rest[|rest| - 1];
    var s := [c] + t;
    if |rest| > 1 {
      assert Split(s, sep)[|Split(s, sep)| - 1] == last;
      assert s[|s| - |last|..] == t[|t| - |last|..];
      assert s[|s| - |last| - 1] == t[|t| - |last| - 1];
    } else {
      assert Split(s, sep) == [s];
    }
  }

  /** A join uses only the pieces' characters and the separator. */
  lemma {:induction false} JoinWithin(parts: seq<string>, sep: char, allowed: set<char>)
    requires sep in allowed
    requires forall i, j :: 0 <= i < |parts| && 0 <= j < |parts[i]| ==> parts[i][j] in allowed
    ensures forall j :: 0 <= j < |Join(parts, sep)| ==> Join(parts, sep)[j] in allowed
    decreases |parts|
  {
    if |parts| > 1 {
      JoinWithin(parts[1..], sep, allowed);
      var head, tail := parts[0] + [sep], Join(parts[1..], sep);
      assert forall j :: 0 <= j < |head| ==> head[j] in allowed;
      assert Join(parts, sep) == head + tail;
    }
  }

  /** Splitting a join of separator-free pieces gives back the pieces. */
  lemma {:induction false} SplitJoin(parts: seq<string>, sep: char)
    requires |parts| >= 1
    requires forall i :: 0 <= i < |parts| ==> sep !in parts[i]
    ensures Split(Join(parts, sep), sep) == parts
    decreases |parts|
  {
    SplitNoSep(parts[0], sep);
    if |parts| > 1 {
      SplitJoin(parts[1..], sep);
      SplitAppendSep(parts[0], Join(parts[1..], sep), sep);
      assert parts == [parts[0]] + parts[1..];
    }
  }

  // ---------------------------------------------------------------- prefixes and search

  /** `s.startsWith(p)`. */
  predicate IsPrefix(p: string, s: string)
  {
    |p| <= |s| && s[..|p|] == p
  }

  /** `s.endsWith(p)`. */
  predicate EndsWith(s: string, p: string)
  {
    |p| <= |s| && s[|s| - |p|..] == p
  }

  /** `s.includes(p)`: `p` occurs in `s` at some position. */
  predicate Contains(s: string, p: string)
  {
    exists i :: 0 <= i <= |s| && IsPrefix(p, s[i..])
  }

  // ---------------------------------------------------------------- decimal numbers

  predicate IsDigit(c: char)
  {
    '0' <= c <= '9'
  }

  predicate AllDigits(s: string)
  {
    forall i :: 0 <= i < |s| ==> IsDigit(s[i])
  }

  function DigitChar(d: nat): (c: char)
    requires d < 10
    ensures IsDigit(c)
  {
    ('0' as int + d) as char
  }

  function DigitValue(c: char): (d: nat)
    requires IsDigit(c)
    ensures d < 10
  {
    c as int - '0' as int
  }

  /** `String(n)` for a non-negative integer: its decimal digits, no leading zeros. */
  function NatStr(n: nat): (s: string)
    ensures |s| >= 1 && AllDigits(s)
    ensures |s| > 1 ==> s[0] != '0'
    decreases n
  {
    if n < 10 then [DigitChar(n)] else NatStr(n / 10) + [DigitChar(n % 10)]
  }

  /** `String(n)` for any integer. */
  function IntStr(n: int): (s: string)
  {
    if n < 0 then "-" + NatStr(-n) else NatStr(n)
  }

  /** The value of a string of decimal digits (the empty string reads as 0). */
  function ParseNat(s: string): (n: nat)
    requires AllDigits(s)
    decreases |s|
  {
    if |s| == 0 then 0 else ParseNat(s[..|s| - 1]) * 10 + DigitValue(s[|s| - 1])
  }

  /** The decimal integer parser that stands for `parseInt(v, 10)`: an optional
      minus sign and at least one digit, and nothing else; any other text is
      `NaN` (None). */
  function ParseInt(s: string): (r: Option<int>)
  {
    if |s| > 0 && s[0] == '-' then
      if |s| > 1 && AllDigits(s[1..]) then Some(0 - ParseNat(s[1..]) as int) else None
    else if |s| > 0 && AllDigits(s) then Some(ParseNat(s))
    else None
  }

  lemma {:induction false} ParseNatStr(n: nat)
    ensures ParseNat(NatStr(n)) == n
    decreases n
  {
    if n >= 10 {
      ParseNatStr(n / 10);
      var s := NatStr(n);
      assert s[..|s| - 1] == NatStr(n / 10);
    }
  }

  /** Rendering an integer and parsing it back gives the integer. */
  lemma ParseIntStr(n: int)
    ensures ParseInt(IntStr(n)) == Some(n)
  {
    if n < 0 {
      ParseNegativeStr(n);
    } else {
      ParseNaturalStr(n);
    }
  }

  /** A non-negative number is written as plain digits, which read back. */
  lemma ParseNaturalStr(n: nat)
    ensures ParseInt(IntStr(n)) == Some(n)
  {
    var d := NatStr(n);
    assert IntStr(n) == d;
    ParseNatStr(n);
    assert IsDigit(d[0]);
  }

  /** A negative number is a minus sign before the digits of its magnitude. */
  lemma ParseNegativeStr(n: int)
    requires n < 0
    ensures ParseInt(IntStr(n)) == Some(n)
  {
    var d := NatStr(-n);
    var s := "-" + d;
    assert IntStr(n) == s;
    ParseNatStr(-n);
    assert s[0] == '-' && s[1..] == d;
  }

  /** `c` repeated `n` times. */
  function Repeat(c: char, n: nat): (s: string)
  {
    seq(n, _ => c)
  }

  /** `s.padStart(width, c)`: `s` preceded by enough copies of `c` to reach
      `width` characters; a longer `s` is returned whole. */
  function PadStart(s: string, width: nat, c: char): (r: string)
  {
    if |s| >= width then s else Repeat(c, width - |s|) + s
  }

  /** Leading zeros do not change the value of a digit string. */
  lemma {:induction false} ParseNatLeadingZeros(z: nat, s: string)
    requires AllDigits(s)
    ensures AllDigits(Repeat('0', z) + s)
    ensures ParseNat(Repeat('0', z) + s) == ParseNat(s)
    decreases z + |s|
  {
    var t := Repeat('0', z) + s;
    if |s| == 0 {
      assert t == Repeat('0', z);
      if z > 0 {
        assert t[..|t| - 1] == Repeat('0', z - 1) + "";
        ParseNatLeadingZeros(z - 1, "");
      }
    } else {
      assert t[..|t| - 1] == Repeat('0', z) + s[..|s| - 1];
      ParseNatLeadingZeros(z, s[..|s| - 1]);
    }
  }
}
