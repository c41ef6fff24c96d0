/**
 * The single watermark tile: a transparent image the size of the text's
 * bounding box plus a fixed padding, on which the text is drawn eight times
 * in the outline colour, offset by one pixel towards each neighbour, and
 * once more in the fill colour on top.
 *
 * Text shaping, font loading and glyph rendering belong to external
 * libraries; the model takes the font's bounding box of the shaped text as
 * its input and records each text drawing call as a `Stroke`.
 */
module TextWatermark {
  import opened Wrappers
  import opened Palette

  /**
   * The ink box the font reports for the text, relative to the point the text
   * is drawn at: ink covers columns [left, right) and rows [top, bottom).
   */
  datatype BBox = BBox(left: int, top: int, right: int, bottom: int)

  /** What a font reports for real text: the box is not inverted. */
  predicate WellFormed(b: BBox)
  {
    b.left <= b.right && b.top <= b.bottom
  }

  /** Total padding added to each dimension of the text box. */
  const Padding: int := 20

  /** Half the padding: the drawing origin's distance from the tile's corner. */
  const Margin: int := Padding / 2

  function TextWidth(b: BBox): int { b.right - b.left }

  function TextHeight(b: BBox): int { b.bottom - b.top }

  /**
   * Width and height of the tile image; None when one of them is negative,
   * which the image library refuses with an error.
   */
  function TileDims(b: BBox): Option<(nat, nat)>
  {
    var w := TextWidth(b) + Padding;
    var h := TextHeight(b) + Padding;
    if w < 0 || h < 0 then None else Some((w, h))
  }

  /** A font's box gives a tile at least the padding wide and high, exactly the padding larger than the text. */
  lemma TileDimsWellFormed(b: BBox)
    requires WellFormed(b)
    ensures TileDims(b).Some?
    ensures TileDims(b).value.0 >= Padding && TileDims(b).value.1 >= Padding
    ensures TileDims(b).value.0 == TextWidth(b) + Padding
    ensures TileDims(b).value.1 == TextHeight(b) + Padding
  {
  }

  /** The tile image can be created exactly when neither padded dimension is negative. */
  lemma TileDimsDefined(b: BBox)
    ensures TileDims(b).Some? <==> TextWidth(b) >= -Padding && TextHeight(b) >= -Padding
  {
  }

  /** Offsets of the eight outline copies of the text, in drawing order. */
  const OutlinePositions: seq<(int, int)> :=
    [(-1, -1), (-1, 1), (1, -1), (1, 1), (-1, 0), (1, 0), (0, -1), (0, 1)]

  /** The eight pixels around the origin. */
  ghost predicate IsNeighbour(p: (int, int))
  {
    -1 <= p.0 <= 1 && -1 <= p.1 <= 1 && p != (0, 0)
  }

  /** The outline offsets are the eight neighbours of the origin, each exactly once. */
  lemma OutlineIsNeighbourhood()
    ensures |OutlinePositions| == 8
    ensures forall k :: 0 <= k < |OutlinePositions| ==> IsNeighbour(OutlinePositions[k])
    ensures forall k1, k2 :: 0 <= k1 < k2 < |OutlinePositions| ==> OutlinePositions[k1] != OutlinePositions[k2]
    ensures forall p :: IsNeighbour(p) ==> p in OutlinePositions
  {
    forall p | IsNeighbour(p)
      ensures p in OutlinePositions
    {
      if p.0 == -1 {
        assert p == OutlinePositions[0] || p == OutlinePositions[1] || p == OutlinePositions[4];
      } else if p.0 == 1 {
        assert p == OutlinePositions[2] || p == OutlinePositions[3] || p == OutlinePositions[5];
      } else {
        assert p == OutlinePositions[6] || p == OutlinePositions[7];
      }
    }
  }

  /** One text drawing call: the point the text is drawn at and its fill. */
  datatype Stroke = Stroke(x: int, y: int, fill: RGBA)

  /** Every pixel of the text's ink, drawn at the stroke's point, lies on the tile. */
  predicate InkInside(b: BBox, width: int, height: int, s: Stroke)
  {
    0 <= s.x + b.left && s.x + b.right <= width &&
    0 <= s.y + b.top && s.y + b.bottom <= height
  }

  /** The drawing point as written: the margin, ignoring where the ink box starts. */
  function AsWrittenOrigin(b: BBox): (int, int)
  {
    (Margin, Margin)
  }

  /**
   * The drawing point that puts the ink box's corner at the margin: the
   * margin shifted back by the box's left and top offsets.
   */
  function TextOrigin(b: BBox): (int, int)
  {
    (Margin - b.left, Margin - b.top)
  }

  /** The eight outline strokes and the fill stroke drawn around `origin`, in drawing order. */
  function StrokesAround(origin: (int, int), fill: RGBA, outline: RGBA): seq<Stroke>
  {
    seq(|OutlinePositions|, k requires 0 <= k < |OutlinePositions| =>
      Stroke(origin.0 + OutlinePositions[k].0, origin.1 + OutlinePositions[k].1, outline))
    + [Stroke(origin.0, origin.1, fill)]
  }

  /** The drawing calls of a tile: outline copies first, the fill on top. */
  function TextStrokes(b: BBox, fill: RGBA, outline: RGBA): seq<Stroke>
  {
    StrokesAround(TextOrigin(b), fill, outline)
  }

  /**
   * Drawn as written, every copy of the text stays on the tile exactly when the
   * ink box starts less than the margin away from the drawing point.
   */
  lemma AsWrittenInkInsideIff(b: BBox, fill: RGBA, outline: RGBA)
    requires WellFormed(b)
    ensures var s := StrokesAround(AsWrittenOrigin(b), fill, outline);
      (forall k :: 0 <= k < |s| ==> InkInside(b, TextWidth(b) + Padding, TextHeight(b) + Padding, s[k]))
      <==> (-Margin < b.left < Margin && -Margin < b.top < Margin)
  {
    var s := StrokesAround(AsWrittenOrigin(b), fill, outline);
    var w, h := TextWidth(b) + Padding, TextHeight(b) + Padding;
    if -Margin < b.left < Margin && -Margin < b.top < Margin {
      forall k | 0 <= k < |s|
        ensures InkInside(b, w, h, s[k])
      {
        if k < |OutlinePositions| {
          OutlineIsNeighbourhood();
          assert IsNeighbour(OutlinePositions[k]);
        }
      }
    } else if b.left <= -Margin {
      assert !InkInside(b, w, h, s[0]);
    } else if b.left >= Margin {
      assert !InkInside(b, w, h, s[2]);
    } else if b.top <= -Margin {
      assert !InkInside(b, w, h, s[0]);
    } else {
      assert !InkInside(b, w, h, s[1]);
    }
  }

  /**
   * A box whose ink starts 15 pixels below the drawing point, as a font with
   * ascender space above the glyphs reports: drawn as written, the bottom of
   * the fill text falls outside the tile.
   */
  lemma AsWrittenClipsText()
    ensures var b := BBox(0, 15, 300, 75);
      var s := StrokesAround(AsWrittenOrigin(b), DefaultFontColor, TextOutlineColor);
      WellFormed(b) && !InkInside(b, TextWidth(b) + Padding, TextHeight(b) + Padding, s[|s| - 1])
  {
  }

  /** The tile's drawing calls: eight outline strokes, one at each neighbour of the fill stroke, then the fill. */
  lemma TextStrokesShape(b: BBox, fill: RGBA, outline: RGBA)
    ensures var s := TextStrokes(b, fill, outline);
      |s| == 9 &&
      s[8] == Stroke(TextOrigin(b).0, TextOrigin(b).1, fill) &&
      (forall k :: 0 <= k < 8 ==> s[k].fill == outline && IsNeighbour((s[k].x - s[8].x, s[k].y - s[8].y))) &&
      (forall k1, k2 :: 0 <= k1 < k2 < 8 ==> (s[k1].x, s[k1].y) != (s[k2].x, s[k2].y))
  {
    OutlineIsNeighbourhood();
    var s := TextStrokes(b, fill, outline);
    assert |s| == 9;
    forall k | 0 <= k < 8
      ensures s[k].fill == outline && (s[k].x - s[8].x, s[k].y - s[8].y) == OutlinePositions[k]
    {
    }
    forall k1, k2 | 0 <= k1 < k2 < 8
      ensures (s[k1].x, s[k1].y) != (s[k2].x, s[k2].y)
    {
      assert OutlinePositions[k1] != OutlinePositions[k2];
    }
  }

  /** Every copy of the text, outline and fill, lies entirely on the tile. */
  lemma TextStrokesInside(b: BBox, fill: RGBA, outline: RGBA)
    ensures var s := TextStrokes(b, fill, outline);
      forall k :: 0 <= k < |s| ==> InkInside(b, TextWidth(b) + Padding, TextHeight(b) + Padding, s[k])
  {
    var s := TextStrokes(b, fill, outline);
    forall k | 0 <= k < |s|
      ensures InkInside(b, TextWidth(b) + Padding, TextHeight(b) + Padding, s[k])
    {
      if k < |OutlinePositions| {
        OutlineIsNeighbourhood();
        assert IsNeighbour(OutlinePositions[k]);
      }
    }
  }

  /** The transparent tile image and the text drawing calls made on it. */
  class TextTile {
    const width: nat
    const height: nat
    var strokes: seq<Stroke>

    constructor (w: nat, h: nat)
      ensures width == w && height == h && strokes == []
    {
      width, height := w, h;
      strokes := [];
    }

    /** Draws the text once at the stroke's point with the stroke's fill. */
    method DrawText(s: Stroke)
      modifies this
      ensures strokes == old(strokes) + [s]
    {
      strokes := strokes + [s];
    }
  }

  /**
   * Builds the tile for text whose font box is `b`: None when the image
   * library refuses the size, otherwise a tile of the padded size carrying
   * the eight outline strokes and the fill stroke.
   */
  method CreateTextWatermark(b: BBox, fill: RGBA, outline: RGBA) returns (tile: Option<TextTile>)
    ensures tile.None? <==> TileDims(b).None?
    ensures tile.Some? ==> fresh(tile.value)
    ensures tile.Some? ==> tile.value.width == TileDims(b).value.0 && tile.value.height == TileDims(b).value.1
    ensures tile.Some? ==> tile.value.strokes == TextStrokes(b, fill, outline)
  {
    var dims := TileDims(b);
    if dims.None? {
      return None;
    }
    var t := new TextTile(dims.value.0, dims.value.1);
    var origin := TextOrigin(b);
    ghost var all := TextStrokes(b, fill, outline);
    for k := 0 to |OutlinePositions|
      invariant t.strokes == all[..k]
    {
      var (dx, dy) := OutlinePositions[k];
      t.DrawText(Stroke(origin.0 + dx, origin.1 + dy, outline));
    }
    t.DrawText(Stroke(origin.0, origin.1, fill));
    assert t.strokes == all;
    tile := Some(t);
  }
}
