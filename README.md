# Watermark bot: tile planner and colour preferences

A model of the logic a small Telegram bot owns when it stamps a repeating
text watermark on every photo a user sends (`main.py`):

- **Colour preferences** (module `Palette`). The bot has a fixed table of six
  inline-keyboard callback keys (`color_black` … `color_orange`). Each key maps
  to a display name and an RGBA fill colour, and every fill has alpha 180.
  Pressing a known button stores that colour for the user. Any other
  callback data changes nothing. When a photo arrives, the bot looks up the
  user's colour and falls back to `DEFAULT_FONT_COLOR`, black with alpha 180.
  `PreferenceStore` is the bot's mutable per-user data. Its `fontColor` map
  plays the role of each user's `font_color` entry.
- **The watermark tile** (module `TextWatermark`). It is a transparent image
  the size of the text's bounding box plus 20 pixels of padding. The text is
  drawn on it eight times in the outline colour, one pixel towards each
  neighbour, and then once in the fill colour. Each drawing call is recorded
  as a `Stroke`.
- **The tiling** (module `Tiling`). With `cols = W div w + 2` and
  `rows = H div h + 2`, the nested loop visits the `cols + 1` columns
  `-1 .. cols-1` and the `rows + 1` rows `-1 .. rows-1`, and pastes one copy
  of the tile per cell. Each copy gets a random
  rotation in `[-45, 45]` degrees and a random jitter of its nominal corner
  `(i*w, j*h)`: in `[(-w) div 4, w div 4]` horizontally, and the same with `h`
  vertically. `WatermarkLayer` records the pastes as `Placement`s. `Plan` is
  an independent definition of the placements by column-major index.
  `PlaceTiles` is the loop itself, and it is proved to produce exactly `Plan`.

Randomness is a parameter. The caller passes one `Draw` (angle, dx, dy) per
loop iteration, in the order the loop makes its three `random.randint` calls.
A precondition keeps each draw within the inclusive range `randint` would
return. The font's bounding box of the shaped text is an input (`BBox`),
because text shaping and font metrics come from external libraries. Python's
`//` with a positive divisor is floor division, the same as Dafny's `/`. So
`-wm_width//4`, which Python parses as `(-wm_width)//4`, is written directly
as `-(size as int) / 4`. The arithmetic failures that `add_watermark` catches
and turns into `None` are modelled as `None` results:

- a negative tile size, which the image library's `Image.new` refuses;
- a tile dimension of zero, which the grid divides by.

For any box a font really reports, `WellFormedIsTileable` shows that neither
failure can happen.

The text-drawing origin is one place where the model does not follow the code
as written; see "## Findings". `CreateTextWatermark` draws at the corrected
origin, and `AsWrittenOrigin` keeps the original for comparison.

## Model

| member | source | states |
|---|---|---|
| `Palette.Choice` | main.py:223-234 | a callback key has a table entry exactly when it is one of the six keys, and every entry's fill has alpha 180 |
| `Palette.ChoicesDistinct` | main.py:224-229 | the six keys give six different fill colours, each with alpha 180 |
| `Palette.SelectKnownSets` | main.py:233-235 | after a known key, the user's colour is that key's fill, with alpha 180, and the user now has an entry |
| `Palette.SelectUnknownKeeps` | main.py:233 | a key outside the table leaves the whole preference table unchanged |
| `Palette.SelectOthersUnchanged` | main.py:235 | a press by one user neither adds, removes nor changes another user's colour |
| `Palette.SelectLastWins` | main.py:235 | the last known key a user pressed overrides any earlier press |
| `Palette.FontColorUnset` | main.py:244 | a user with no stored colour gets the default colour |
| `Palette.FontColorStored` | main.py:244 | a user with a stored colour gets exactly the stored colour |
| `Palette.SelectKeepsOnlyChoices` | main.py:233-235 | button presses only ever store values from the colour table (an invariant of the table) |
| `Palette.FontColorAlpha` | main.py:244 | when only table values are stored, the colour used for a photo always has alpha 180, the default included |
| `Palette.PreferenceStore.constructor` | main.py:244 | a fresh store has no colour for any user and satisfies the invariant |
| `Palette.PreferenceStore.ButtonCallback` | main.py:218-236 | a known key overwrites only this user's colour and returns the chosen entry (its name is shown to the user); an unknown key returns None and changes nothing; the invariant is kept |
| `Palette.PreferenceStore.FontColorFor` | main.py:244 | returns the stored colour or the default, which always has alpha 180 |
| `TextWatermark.TileDimsWellFormed` | main.py:97-103 | for a font's box the tile is the text size plus 20 in each dimension, so both are at least 20 |
| `TextWatermark.TileDimsDefined` | main.py:103 | the tile image can be created exactly when neither padded dimension is negative |
| `TextWatermark.OutlineIsNeighbourhood` | main.py:107 | the outline offsets are 8 pairwise distinct pairs with components in {-1, 0, 1}, none is (0, 0), and every such neighbour is among them |
| `TextWatermark.AsWrittenInkInsideIff` | main.py:108-112 | drawn at the fixed margin as the code does, all nine copies of the text fit on the tile exactly when the box's left and top offsets are both strictly between -10 and 10 |
| `TextWatermark.AsWrittenClipsText` | main.py:112 | a concrete box (ink starting 15 pixels below the origin) whose fill text, drawn as written, runs off the bottom of the tile |
| `TextWatermark.TextStrokesShape` | main.py:107-112 | a tile carries nine strokes: eight in the outline colour, at pairwise distinct positions, each a neighbour of the ninth; the ninth is the fill |
| `TextWatermark.TextStrokesInside` | main.py:97-112 | at the corrected origin every copy of the text, outline and fill, lies entirely on the padded tile |
| `TextWatermark.TextTile.constructor` | main.py:103 | a new tile has the requested size and nothing drawn on it |
| `TextWatermark.TextTile.DrawText` | main.py:109 | a drawing call appends its stroke and changes nothing else |
| `TextWatermark.CreateTextWatermark` | main.py:83-114 | fails exactly when the size is refused; otherwise returns a fresh tile of the padded size carrying the eight outline strokes and then the fill stroke, drawn at the corrected origin described under "## Findings" |
| `Tiling.CellIndexInverse` | main.py:141-142 | each cell the loop visits has a column-major position below the cell count, and that position maps back to the cell |
| `Tiling.CellOfIndex` | main.py:141-142 | every position below the cell count belongs to a cell the loop visits |
| `Tiling.PlanCells` | main.py:137-142 | the plan has exactly (cols+1)*(rows+1) placements; each is for a visited cell, and cell (i, j) appears at its column-major position with its own draw |
| `Tiling.PlanColumnMajor` | main.py:141-142 | placements come in column-major order: outer column, inner row, strictly increasing |
| `Tiling.PlanWithinBounds` | main.py:147-152 | every angle is in [-45, 45], every x is in [i*w + (-w) div 4, i*w + w div 4], and every y is in the same range with j and h |
| `Tiling.JitterRange` | main.py:151-152 | the jitter range always contains 0, so `randint` never gets an empty range; it is symmetric exactly when the dimension is a multiple of 4, and otherwise reaches one pixel further towards the top-left |
| `Tiling.CoveringInterval` | main.py:137-141 | along one axis, every pixel lies in the nominal interval of some column from -1 to cols-1 |
| `Tiling.PlanCoversImage` | main.py:135-142 | every pixel of the photo lies in the nominal tile of some placement of the plan |
| `Tiling.GridMargin` | main.py:137-141 | the nominal tiles of the last column start beyond the photo's width and those of the last row beyond its height, so the grid overshoots the far edges by a whole tile |
| `Tiling.WatermarkLayer.constructor` | main.py:133 | a new layer has the photo's size, records the tile it stamps, and has no pastes |
| `Tiling.WatermarkLayer.Paste` | main.py:155 | a paste appends its placement and changes nothing else |
| `Tiling.PlaceTiles` | main.py:136-155 | the nested loop appends exactly the plan to the layer |
| `Tiling.WellFormedIsTileable` | main.py:136-138 | for a font's box neither grid division is by zero, and the grid has at least 3 by 3 cells |
| `Tiling.AddWatermark` | main.py:118-155 | returns None exactly on the two arithmetic failures; otherwise a fresh layer of the photo's size, stamped with the tile drawn in the user's fill and the white outline, whose pastes are the whole plan |

## Findings

| source | as written | input that shows it | evidently intended | confidence | as-written member | corrected member |
|---|---|---|---|---|---|---|
| main.py:109-112 | the text is drawn at `(padding/2 + dx, padding/2 + dy)`, which ignores the box's `left` and `top` offsets even though the tile is sized from `right - left` and `bottom - top` | box `(0, 15, 300, 75)`: the fill's ink covers rows 25 to 85 of a tile only 80 rows high | every copy of the text lies on the tile: draw at `(10 - left + dx, 10 - top + dy)` | not executed; medium (any font whose ink starts more than 9 pixels below the drawing point, as is usual at size 60, has the bottom of its text clipped) | `TextWatermark.AsWrittenClipsText` | `TextWatermark.TextStrokesInside` |

## Left out

- Image decoding, `convert("RGBA")`, JPEG encoding and the `BytesIO` streams: codecs and I/O. The photo enters the model only by its width and height.
- Rotation with `expand=True` and BICUBIC resampling, pasting through the alpha mask, and `alpha_composite`. These are image-library calls. A `Placement` records the angle and corner passed to `paste`, not the pixels.
- Opacity scaling of the layer's alpha by 0.5 with `ImageEnhance.Brightness`: floating-point work inside the library.
- Arabic reshaping and bidi reordering. Both are external libraries, and the model takes the font's bounding box of the shaped text as given.
- Font loading and the fallback to the default font: file-system I/O. `BBox` is the box of whichever font was loaded.
- The `random` module. Each draw is a parameter with a range precondition.
- `padding/2` is the Python float `10.0`. Drawing positions are therefore integral, and they are modelled as integers.
- The Telegram handlers (`start_command`, `color_command` and its keyboard), answering and editing the callback message, `run_in_executor`, and deleting the loading message: network and concurrency code. `ButtonCallback` returns the chosen entry whose name the confirmation shows, and `FontColorFor` is the lookup made before the image work starts.
- The Flask keep-alive server, locale setup, creating the font directory, the token check and `sys.exit`: process plumbing.
- `AddWatermark`: its None result covers only the two arithmetic failures. Any other exception that `add_watermark` catches, such as a decoding error, lies outside the model.
- A variant that uses a pre-rendered image as the watermark is not part of `main.py`, so it is not part of this model. The code rotates by at most 45 degrees, and the model follows the code.
