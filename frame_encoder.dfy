/** The frame encoder of tools/video_to_nfp.js: one raw RGB frame becomes the
    text `"W H\n"` followed by H rows of W blit digits joined with newlines. */
module FrameEncoder {
  import opened Wrappers
  import opened Strings
  import opened Palette

  /** A byte of the decoder's rgb24 output. */
  type Byte = x: int | 0 <= x < 256

  /** How many times `for (let i = 0; i < n; i++)` runs. */
  function Count(n: int): nat
  {
    if n > 0 then n else 0
  }

  /** Byte offset of pixel (x, y) in a row-major RGB frame. */
  function PixelOffset(w: int, x: int, y: int): int
  {
    (y * w + x) * 3
  }

  /** All three bytes of a pixel inside the grid lie inside the frame. */
  lemma PixelInFrame(w: int, h: int, x: int, y: int)
    requires 0 <= x < w && 0 <= y < h
    ensures 0 <= PixelOffset(w, x, y) && PixelOffset(w, x, y) + 2 < w * h * 3
  {
    assert y * w <= (h - 1) * w by {
      assert (h - 1) * w - y * w == (h - 1 - y) * w;
    }
    assert (h - 1) * w + w == h * w;
  }

  /** The blit digit of pixel (x, y): the nearest palette colour of the three
      bytes at its offset. */
  function PixelDigit(frame: seq<Byte>, w: int, h: int, x: int, y: int): (c: char)
    requires |frame| == w * h * 3 && 0 <= x < w && 0 <= y < h
  {
    PixelInFrame(w, h, x, y);
    var i := PixelOffset(w, x, y);
    CCColors[Nearest(frame[i], frame[i + 1], frame[i + 2])].hex
  }

  /** Row `y` of the encoded frame. */
  function Row(frame: seq<Byte>, w: int, h: int, y: int): (row: string)
    requires |frame| == w * h * 3 && 0 <= y < h
  {
    seq(Count(w), x requires 0 <= x < Count(w) => PixelDigit(frame, w, h, x, y))
  }

  /** All rows of the encoded frame, top to bottom. */
  function Rows(frame: seq<Byte>, w: int, h: int): (rows: seq<string>)
    requires |frame| == w * h * 3
  {
    seq(Count(h), y requires 0 <= y < Count(h) => Row(frame, w, h, y))
  }

  /** The header line `${width} ${height}\n`. */
  function Header(w: int, h: int): string
  {
    IntStr(w) + " " + IntStr(h) + "\n"
  }

  /** The text written to one frame file. */
  function FrameText(frame: seq<Byte>, w: int, h: int): (text: string)
    requires |frame| == w * h * 3
    ensures IsPrefix(Header(w, h), text)
    ensures forall i :: |Header(w, h)| <= i < |text| ==> text[i] == '\n' || text[i] in HexDigits
  {
    var rows := Rows(frame, w, h);
    RowsAreDigits(frame, w, h);
    var allowed := (set c | c in HexDigits) + {'\n'};
    JoinWithin(rows, '\n', allowed);
    Header(w, h) + Join(rows, '\n')
  }

  /** Every character of every row is a blit digit. */
  lemma RowsAreDigits(frame: seq<Byte>, w: int, h: int)
    requires |frame| == w * h * 3
    ensures forall y, x :: 0 <= y < |Rows(frame, w, h)| && 0 <= x < |Rows(frame, w, h)[y]| ==>
      Rows(frame, w, h)[y][x] in HexDigits
  {
    forall y, x | 0 <= y < |Rows(frame, w, h)| && 0 <= x < |Rows(frame, w, h)[y]|
      ensures Rows(frame, w, h)[y][x] in HexDigits
    {
      var row := Rows(frame, w, h)[y];
      assert y < Count(h) && row == Row(frame, w, h, y);
      assert x < Count(w) && row[x] == PixelDigit(frame, w, h, x, y);
      PixelDigitIsHex(frame, w, h, x, y);
    }
  }

  lemma PixelDigitIsHex(frame: seq<Byte>, w: int, h: int, x: int, y: int)
    requires |frame| == w * h * 3 && 0 <= x < w && 0 <= y < h
    ensures PixelDigit(frame, w, h, x, y) in HexDigits
  {
    PaletteDigits();
  }

  /** The body of the inner loop: read the three bytes at
      `(y * width + x) * 3` and quantize them. */
  method EncodePixel(frame: seq<Byte>, width: int, height: int, x: int, y: int) returns (digit: char)
    requires |frame| == width * height * 3 && 0 <= x < width && 0 <= y < height
    ensures digit == PixelDigit(frame, width, height, x, y)
  {
    PixelInFrame(width, height, x, y);
    var idx := (y * width + x) * 3;
    digit := NearestColor(frame[idx], frame[idx + 1], frame[idx + 2]);
  }

  /** The inner loop of the `data` handler's encoder: for each x, quantize
      the pixel at `(y * width + x) * 3` and append its digit to the row. */
  method EncodeRow(frame: seq<Byte>, width: int, height: int, y: int) returns (row: string)
    requires |frame| == width * height * 3 && 0 <= y < height
    ensures row == Row(frame, width, height, y)
  {
    ghost var full := Row(frame, width, height, y);
    row := "";
    var x := 0;
    while x < width
      invariant 0 <= x <= Count(width) == |full|
      invariant row == full[..x]
    {
      var digit := EncodePixel(frame, width, height, x, y);
      assert digit == full[x];
      assert full[..x + 1] == full[..x] + [full[x]];
      row := row + [digit];
      x := x + 1;
    }
    assert full[..|full|] == full;
  }

  /** The outer loop: one row per y, then the header and the rows joined by
      newlines. */
  method EncodeFrame(frame: seq<Byte>, width: int, height: int) returns (text: string)
    requires |frame| == width * height * 3
    ensures text == FrameText(frame, width, height)
  {
    var rows: seq<string> := [];
    var y := 0;
    while y < height
      invariant 0 <= y <= Count(height)
      invariant rows == Rows(frame, width, height)[..y]
    {
      var row := EncodeRow(frame, width, height, y);
      rows := rows + [row];
      y := y + 1;
    }
    assert rows == Rows(frame, width, height);
    var header := IntStr(width) + " " + IntStr(height) + "\n";
    text := header + Join(rows, '\n');
  }

  // ---------------------------------------------------------------- reading a frame back

  /** What a reader of a frame file recovers from it. */
  datatype Decoded = Decoded(width: int, height: int, rows: seq<string>)

  /** Reads the header line `W H` as two integers. */
  function ParseHeader(line: string): (r: Option<(int, int)>)
  {
    var fields := Split(line, ' ');
    if |fields| != 2 then None
    else match (ParseInt(fields[0]), ParseInt(fields[1]))
      case (Some(w), Some(h)) => Some((w, h))
      case _ => None
  }

  /** Reads a frame file: the header line, then one row per remaining line. */
  function ParseFrame(text: string): (r: Option<Decoded>)
  {
    var lines := Split(text, '\n');
    match ParseHeader(lines[0])
    case Some((w, h)) => Some(Decoded(w, h, lines[1..]))
    case None => None
  }

  lemma IntStrHasNoSeparator(n: int, c: char)
    requires c == ' ' || c == '\n'
    ensures c !in IntStr(n)
  {
    if n < 0 {
      assert IntStr(n) == "-" + NatStr(-n);
    }
  }

  /** The header line reads back as the width and height written into it. */
  lemma HeaderRoundTrip(w: int, h: int)
    ensures ParseHeader(IntStr(w) + " " + IntStr(h)) == Some((w, h))
  {
    IntStrHasNoSeparator(w, ' ');
    IntStrHasNoSeparator(h, ' ');
    SplitAppendSep(IntStr(w), IntStr(h), ' ');
    SplitNoSep(IntStr(w), ' ');
    SplitNoSep(IntStr(h), ' ');
    ParseIntStr(w);
    ParseIntStr(h);
  }

  /** Every row of a frame has exactly `w` characters, each a blit digit,
      and character x of row y is the digit of pixel (x, y). */
  lemma RowsShape(frame: seq<Byte>, w: int, h: int)
    requires |frame| == w * h * 3 && w > 0 && h > 0
    ensures |Rows(frame, w, h)| == h
    ensures forall y :: 0 <= y < h ==> |Rows(frame, w, h)[y]| == w
    ensures forall y, x :: 0 <= y < h && 0 <= x < w ==>
      Rows(frame, w, h)[y][x] == PixelDigit(frame, w, h, x, y) && PixelDigit(frame, w, h, x, y) in HexDigits
  {
    PaletteDigits();
  }

  /** A written frame reads back as its geometry and its `h` rows of `w`
      digits: the text is the header, a newline, and the rows joined by
      newlines with no trailing newline. */
  lemma FrameTextRoundTrip(frame: seq<Byte>, w: int, h: int)
    requires |frame| == w * h * 3 && w > 0 && h > 0
    ensures ParseFrame(FrameText(frame, w, h)) == Some(Decoded(w, h, Rows(frame, w, h)))
    ensures Split(FrameText(frame, w, h), '\n') == [IntStr(w) + " " + IntStr(h)] + Rows(frame, w, h)
  {
    var rows := Rows(frame, w, h);
    var first := IntStr(w) + " " + IntStr(h);
    RowsShape(frame, w, h);
    forall y | 0 <= y < |rows|
      ensures '\n' !in rows[y]
    {
      assert forall x :: 0 <= x < |rows[y]| ==> rows[y][x] in HexDigits;
    }
    SplitJoin(rows, '\n');
    IntStrHasNoSeparator(w, '\n');
    IntStrHasNoSeparator(h, '\n');
    SplitNoSep(first, '\n');
    assert FrameText(frame, w, h) == first + ['\n'] + Join(rows, '\n');
    SplitAppendSep(first, Join(rows, '\n'), '\n');
    HeaderRoundTrip(w, h);
  }

  /** A 2x2 frame whose four pixels all have grey level `v` is the header
      and two rows of two copies of `v`'s digit. */
  lemma SolidFrame(v: Byte, d: char)
    requires CCColors[Nearest(v, v, v)].hex == d
    ensures FrameText(seq(12, _ => v), 2, 2) == "2 2\n" + [d, d] + "\n" + [d, d]
  {
    var frame: seq<Byte> := seq(12, _ => v);
    SolidRows(v, d);
    var rows := Rows(frame, 2, 2);
    assert IntStr(2) == "2";
    assert Header(2, 2) == "2 2\n";
    assert Join(rows, '\n') == [d, d] + "\n" + [d, d];
  }

  /** The rows of that 2x2 frame. */
  lemma SolidRows(v: Byte, d: char)
    requires CCColors[Nearest(v, v, v)].hex == d
    ensures Rows(seq(12, _ => v), 2, 2) == [[d, d], [d, d]]
  {
    var frame: seq<Byte> := seq(12, _ => v);
    forall x, y | 0 <= x < 2 && 0 <= y < 2
      ensures PixelDigit(frame, 2, 2, x, y) == d
    {
      PixelInFrame(2, 2, x, y);
    }
    var r0 := Row(frame, 2, 2, 0);
    var r1 := Row(frame, 2, 2, 1);
    assert r0 == [d, d] by {
      assert |r0| == 2 && r0[0] == d && r0[1] == d;
    }
    assert r1 == [d, d] by {
      assert |r1| == 2 && r1[0] == d && r1[1] == d;
    }
  }

  /** A 2x2 frame of black pixels encodes as `2 2\nff\nff`, one of
      palette white as `2 2\n00\n00`. */
  lemma SolidBlackAndWhiteFrames()
    ensures FrameText(seq(12, _ => 0), 2, 2) == "2 2\nff\nff"
    ensures FrameText(seq(12, _ => 240), 2, 2) == "2 2\n00\n00"
  {
    BlackAndWhite();
    SolidFrame(0, 'f');
    SolidFrame(240, '0');
  }
}
