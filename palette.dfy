/** The 16-colour ComputerCraft palette and the nearest-colour quantizer
    (tools/video_to_nfp.js, `CC_COLORS` and `nearestColor`). */
module Palette {
  import opened Wrappers

  /** One palette entry: its name, its blit hex digit and its RGB value. */
  datatype Color = Color(name: string, hex: char, r: int, g: int, b: int)

  /** `CC_COLORS`, in declaration order; the order decides ties. */
  const CCColors: seq<Color> := [
    Color("white", '0', 240, 240, 240),
    Color("orange", '1', 242, 178, 51),
    Color("magenta", '2', 229, 127, 216),
    Color("lightBlue", '3', 153, 178, 242),
    Color("yellow", '4', 222, 222, 108),
    Color("lime", '5', 127, 204, 25),
    Color("pink", '6', 242, 178, 204),
    Color("gray", '7', 76, 76, 76),
    Color("lightGray", '8', 153, 153, 153),
    Color("cyan", '9', 76, 153, 178),
    Color("purple", 'a', 178, 102, 229),
    Color("blue", 'b', 51, 76, 178),
    Color("brown", 'c', 102, 76, 51),
    Color("green", 'd', 102, 127, 51),
    Color("red", 'e', 153, 51, 51),
    Color("black", 'f', 0, 0, 0)
  ]

  /** The sixteen blit digits, in palette order. */
  const HexDigits: string := "0123456789abcdef"

  /** Squared Euclidean distance in RGB space. */
  function Dist(r: int, g: int, b: int, c: Color): int
  {
    (r - c.r) * (r - c.r) + (g - c.g) * (g - c.g) + (b - c.b) * (b - c.b)
  }

  /** The index of the first entry at minimal distance among the first `n`
      palette entries: a later entry replaces the current best only when it
      is strictly closer. */
  function ArgMinUpTo(r: int, g: int, b: int, n: nat): (k: nat)
    requires 1 <= n <= |CCColors|
    ensures k < n
    ensures forall j :: 0 <= j < n ==> Dist(r, g, b, CCColors[k]) <= Dist(r, g, b, CCColors[j])
    ensures forall j :: 0 <= j < k ==> Dist(r, g, b, CCColors[j]) > Dist(r, g, b, CCColors[k])
    decreases n
  {
    if n == 1 then 0
    else
      var k := ArgMinUpTo(r, g, b, n - 1);
      if Dist(r, g, b, CCColors[n - 1]) < Dist(r, g, b, CCColors[k]) then n - 1 else k
  }

  /** The palette index `nearestColor` settles on: no entry is closer, and
      every earlier entry is strictly farther (the first of equals wins). */
  function Nearest(r: int, g: int, b: int): (k: nat)
    ensures k < |CCColors|
    ensures forall j :: 0 <= j < |CCColors| ==> Dist(r, g, b, CCColors[k]) <= Dist(r, g, b, CCColors[j])
    ensures forall j :: 0 <= j < k ==> Dist(r, g, b, CCColors[j]) > Dist(r, g, b, CCColors[k])
  {
    ArgMinUpTo(r, g, b, |CCColors|)
  }

  /** The state of `nearestColor`'s loop after `i` entries: nothing yet
      (`bestDist` is Infinity), or the first nearest entry so far and its
      distance. */
  ghost predicate ScannedUpTo(r: int, g: int, b: int, i: nat, bestDist: Option<int>, bestIndex: nat)
  {
    && i <= |CCColors|
    && bestIndex < |CCColors|
    && (i == 0 ==> bestDist == None && bestIndex == 0)
    && (i > 0 ==> bestIndex == ArgMinUpTo(r, g, b, i) && bestDist == Some(Dist(r, g, b, CCColors[bestIndex])))
  }

  /** One pass of the loop keeps its state in step with `ArgMinUpTo`. */
  lemma ScanOneMore(r: int, g: int, b: int, i: nat, bestDist: Option<int>, bestIndex: nat, dist: int)
    requires i < |CCColors| && ScannedUpTo(r, g, b, i, bestDist, bestIndex)
    requires dist == Dist(r, g, b, CCColors[i])
    ensures bestDist.None? || dist < bestDist.value ==> ScannedUpTo(r, g, b, i + 1, Some(dist), i)
    ensures !(bestDist.None? || dist < bestDist.value) ==> ScannedUpTo(r, g, b, i + 1, bestDist, bestIndex)
  {
  }

  method NearestColor(r: int, g: int, b: int) returns (hex: char)
    ensures hex == CCColors[Nearest(r, g, b)].hex
    ensures hex in HexDigits
  {
    var best := CCColors[0];
    var bestDist: Option<int> := None;
    ghost var bestIndex: nat := 0;
    for i := 0 to |CCColors|
      invariant ScannedUpTo(r, g, b, i, bestDist, bestIndex)
      invariant best == CCColors[bestIndex]
    {
      var c := CCColors[i];
      var dr := r - c.r;
      var dg := g - c.g;
      var db := b - c.b;
      var dist := dr * dr + dg * dg + db * db;
      assert dist == Dist(r, g, b, c);
      ScanOneMore(r, g, b, i, bestDist, bestIndex, dist);
      if bestDist.None? || dist < bestDist.value {
        bestDist := Some(dist);
        best := c;
        bestIndex := i;
      }
    }
    hex := best.hex;
    PaletteDigits();
  }

  /** Entry `k` carries the `k`-th hex digit, so the digits are distinct. */
  lemma PaletteDigits()
    ensures |CCColors| == |HexDigits| == 16
    ensures forall k :: 0 <= k < 16 ==> CCColors[k].hex == HexDigits[k]
  {
  }

  /** No two palette entries share an RGB value. */
  lemma PaletteColorsDistinct()
    ensures forall i, j :: 0 <= i < j < |CCColors| ==>
      (CCColors[i].r, CCColors[i].g, CCColors[i].b) != (CCColors[j].r, CCColors[j].g, CCColors[j].b)
  {
  }

  lemma SquareNonNegative(x: int)
    ensures x * x >= 0
    ensures x != 0 ==> x * x > 0
  {
  }

  /** Distance zero means the same RGB value. */
  lemma DistZero(r: int, g: int, b: int, c: Color)
    requires Dist(r, g, b, c) == 0
    ensures r == c.r && g == c.g && b == c.b
  {
    SquareNonNegative(r - c.r);
    SquareNonNegative(g - c.g);
    SquareNonNegative(b - c.b);
  }

  /** An RGB value identifies its palette entry. */
  lemma SameColorSameIndex(i: nat, j: nat)
    requires i < |CCColors| && j < |CCColors|
    requires CCColors[i].r == CCColors[j].r && CCColors[i].g == CCColors[j].g && CCColors[i].b == CCColors[j].b
    ensures i == j
  {
    PaletteColorsDistinct();
  }

  lemma DistNonNegative(r: int, g: int, b: int, c: Color)
    ensures Dist(r, g, b, c) >= 0
  {
    SquareNonNegative(r - c.r);
    SquareNonNegative(g - c.g);
    SquareNonNegative(b - c.b);
  }

  lemma DistSelf(c: Color)
    ensures Dist(c.r, c.g, c.b, c) == 0
  {
  }

  /** A pixel that is exactly a palette colour maps to that colour's entry. */
  lemma OwnColorIsNearest(k: nat)
    requires k < |CCColors|
    ensures Nearest(CCColors[k].r, CCColors[k].g, CCColors[k].b) == k
  {
    var c := CCColors[k];
    var n := Nearest(c.r, c.g, c.b);
    var d := CCColors[n];
    DistSelf(c);
    DistNonNegative(c.r, c.g, c.b, d);
    assert Dist(c.r, c.g, c.b, d) == 0;
    DistZero(c.r, c.g, c.b, d);
    SameColorSameIndex(n, k);
  }

  /** Pure black maps to `f` and the palette's white (240, 240, 240) to `0`. */
  lemma BlackAndWhite()
    ensures CCColors[Nearest(0, 0, 0)].hex == 'f'
    ensures CCColors[Nearest(240, 240, 240)].hex == '0'
  {
    OwnColorIsNearest(15);
    OwnColorIsNearest(0);
  }
}
