# AsciiPlayer frame conversion, modelled in Dafny

AsciiPlayer is a console script (`main.py`). It reads a video, turns every
frame into a grid of characters from the ramp `" .:-=+*#%@"`, and draws each
character back onto a black frame in either one green accent colour or the
colour of the cell. It then writes the frames to a new video and has ffmpeg
mux in the original audio track, re-encoded as AAC (the video stream is
copied).

This project lifts the deterministic logic out of that script and proves
what it guarantees:

- **Parameter resolution** (`params.dfy`, with `paths.dfy` modelling the part
  of pathlib the script uses). This covers the input discovery loop over
  `.mp4, .avi, .mov, .mkv`, the output and temporary path names, the width
  (floor of 4, default 160) and the colour mode (green only for the exact
  answer `"1"`).
- **Geometry** (`geometry.dfy`). The grid height is
  `max(2, round(src_h / src_w * width / 2))` with Python's ties-to-even
  rounding, taken as exact rational arithmetic. The cell size is the glyph
  bounding box clamped to at least 1, and the output size is a whole number
  of cells.
- **Luminance quantisation** (`glyphs.dfy`). A grey level g picks ramp
  entry `floor(g / 256 * 10)`, clipped to the ramp.
- **Color policy** (`color.dfy`). Green mode uses `(0, 255, 0)`. RGB mode
  reorders the BGR sample to RGB.
- **Rasterisation** (`raster.dfy`). The nested row/column loop records one
  draw command (glyph, origin, fill) per cell. It is proved equal to the
  row-major specification `Render`. Lemmas show that the cell blocks are
  inside the frame, pairwise disjoint, and together cover it.
- **Frame loop** (`pipeline.dfy`). The loop reads frames until a read is not
  ok, writes one rasterised frame per successful read in read order, and
  prints progress when `frame_count != 0` and `processed % 50 == 0`.

Frames arrive already downsampled. The frame source is a sequence of read
results (`Option<Grid>`), and reading past its end is a failed read. File
existence is a predicate parameter `pathExists`. The font's bounding box for
`"A"` is two integer parameters. The frame count and the source size are
parameters too.

On a 640x360 source at width 160, the code's formula gives a 160x45 grid
(`Geometry.DefaultWidthScenario`): (360 / 640) * 160 / 2 = 45.

When an explicit output name equals the input's base name and the input is
an `.mp4`, the output path is the input path itself. The script does not
guard against this, so neither does the model. The default name is proved
never to equal the input (`Params.DefaultOutputDiffersFromInput`).

## Model

| member | source | states |
|---|---|---|
| Params.ParseIntRoundTrip | main.py:34 | `int()` parsing reads back every integer as Python prints it: `ParseInt(str(i)) == Some(i)` |
| Params.ResolveWidth | main.py:31-36 | the width is always at least 4; it is 160 (with the warning exactly when the text was non-empty) when the text is empty or not an integer, and `max(4, n)` when it parses to n |
| Params.ResolveWidthOfNumber | main.py:31-36 | typing any integer n gives `max(4, n)` with no warning |
| Params.ResolveWidthIdempotent | main.py:31-36 | typing back a resolved width resolves to the same width |
| Params.ChooseModeExact | main.py:43-46 | green mode is chosen if and only if the answer is exactly `"1"`; the empty answer selects RGB |
| Params.ChooseModeOfMenuKey | main.py:13 | the menu key shown for each mode selects that mode |
| Params.ExtensionsAreExtensions | main.py:17 | each of the four tried extensions is a single dot-led suffix with no separator |
| Params.FirstExisting | main.py:16-22 | the result is None exactly when no base + ext exists; otherwise it is base + ext for the first ext in order that exists |
| Params.FirstExistingSkip | main.py:17-20 | skipping extensions already known to be absent does not change the first existing one |
| Params.FindInput | main.py:16-20 | the extension loop returns exactly the first existing candidate, or None (the "Input file not found!" exit) |
| Params.OutputPath | main.py:25-28 | a given name gets ".mp4" appended; with no name, the output sits in the input's directory, named the input's stem + "_ascii.mp4" |
| Params.DefaultOutputPath | main.py:25-26 | for a found input base + ext whose final component is non-empty, the default output is base + "_ascii.mp4" |
| Params.DefaultOutputDiffersFromInput | main.py:25-26 | the default output path is never the input path |
| Params.TempPath | main.py:115 | the temporary file is in the output's directory, named the output's stem + "_temp.mp4" |
| Params.TempOfMp4 | main.py:115 | for an output p + ".mp4" whose final component is non-empty, the temporary file is p + "_temp.mp4" |
| Params.DefaultTempPath | main.py:115 | with the default output base + "_ascii.mp4", the temporary file is base + "_ascii_temp.mp4" |
| Pipeline.ResolveDefaultNaming | main.py:16-28 | when no output name is given and the input base has a non-empty final component, the resolved output is base + "_ascii.mp4" and the temporary file base + "_ascii_temp.mp4", whichever extension was found |
| Params.TempDiffersFromOutput | main.py:115-116 | the rename before remuxing never targets the output path itself |
| Paths.WithName | main.py:26 | `with_name` keeps the directory and makes the new text the final component |
| Paths.Stem | main.py:26 | `stem` is a prefix of the final component without separators; it is the whole name when there is no suffix |
| Paths.StemOfExtended | main.py:26 | the stem of base + ext is the base's final component, or the extension itself when that component is empty |
| Geometry.RoundHalfEven | main.py:56 | `round(n / d)` is within one half of n / d, and is even on an exact tie |
| Geometry.RoundHalfEvenUnique | main.py:56 | those two conditions determine the rounded value uniquely |
| Geometry.PlanGeometry | main.py:56-65 | fails exactly when the source width is 0; otherwise the grid height is at least 2, both cell sides are at least 1 (equal to the bounding box when that is positive), `out_w == char_w * ascii_width` and `out_h == char_h * ascii_h`, and the plan is valid for any width of at least 1 |
| Geometry.AspectPreserved | main.py:56 | above the floor, the grid height h satisfies `abs(src_h * width - 2 * src_w * h) <= src_w` |
| Geometry.FloorApplies | main.py:56 | the floor of 2 takes over exactly when the rounded ideal height is 2 or less |
| Geometry.DefaultWidthScenario | main.py:53-65 | 640x360 at width 160 gives a 160x45 grid and a frame of 160 by 45 cells |
| Glyphs.GlyphIndex | main.py:85-86 | the index lies in [0, 9] and is the floor of g * 10 / 256 |
| Glyphs.Glyph | main.py:94 | the drawn character is always a ramp character |
| Glyphs.ClipIsIdentity | main.py:85-86 | the clip never changes the quotient `g * 10 div 256` |
| Glyphs.GlyphIndexMonotone | main.py:85 | a brighter grey level never selects a darker glyph |
| Glyphs.GlyphEndpoints | main.py:38 | grey 0 draws `' '` and grey 255 draws `'@'` |
| Glyphs.BucketStartIsFirst | main.py:85 | every ramp entry is used; entry i starts at grey level ceil(25.6 * i) |
| Glyphs.RampDistinct | main.py:38 | the ramp has ten distinct characters |
| Color.FillColor | main.py:95-99 | green mode fills with (0, 255, 0); RGB mode fills with the sample's red, green and blue |
| Color.ToBgr | main.py:103 | converting a fill back to OpenCV order keeps every channel's value |
| Color.GreenIgnoresPixel | main.py:98-99 | in green mode the fill is the same (0, 255, 0) for every sample |
| Color.TrueColorRoundTrip | main.py:96-97 | the RGB fill converts back to the very sample it came from, so channels are reordered and never altered |
| Color.TrueColorInjective | main.py:96-97 | distinct samples give distinct RGB fills |
| Raster.RenderRow | main.py:93-100 | one row holds one draw per grid column |
| Raster.RenderRowsLength | main.py:92-100 | the first r rows hold `r * ascii_width` draws |
| Raster.RenderRowsAt | main.py:92-100 | within the first r rows, the draw for cell (x, y) is number `y * ascii_width + x` |
| Raster.RenderAt | main.py:92-100 | a frame has exactly `ascii_h * ascii_width` draws, in row-major order: number `y * ascii_width + x` is the draw for cell (x, y) |
| Raster.RenderIndex | main.py:92-100 | draw number k is the one for cell (k mod ascii_width, k div ascii_width) |
| Raster.CellInFrame | main.py:100 | each origin satisfies `0 <= x*char_w <= out_w - char_w` and `0 <= y*char_h <= out_h - char_h` |
| Raster.BlockOwner | main.py:100 | a pixel inside a cell's block determines that cell |
| Raster.CellsDisjoint | main.py:92-100 | distinct cells get disjoint `char_w x char_h` blocks |
| Raster.CellsCover | main.py:64-65 | every pixel of the `out_w x out_h` frame lies in the block of some grid cell |
| Raster.GreenFrameIsMonochrome | main.py:98-100 | in green mode every draw of a frame has fill (0, 255, 0) |
| Raster.TrueColorCell | main.py:94-100 | in RGB mode the draw for cell (x, y) is at `(x*char_w, y*char_h)`, uses that cell's glyph, and its fill converts back to that cell's sample |
| Raster.GlyphsFromRamp | main.py:94 | every glyph drawn comes from the ramp |
| Raster.Rasterize | main.py:89-100 | the nested loops produce a canvas of `out_w x out_h` with exactly the draws of `Render`, in order |
| Pipeline.ReadablePrefix | main.py:77-80 | the count of successful reads before the first failed one: all reads before it succeed and the next one fails |
| Pipeline.ReadablePrefixExact | main.py:77-80 | a source that fails after n good reads yields exactly n frames |
| Pipeline.ProgressLogContents | main.py:106-109 | the progress lines are for processed = 50, 100, ... in order, n div 50 of them after n frames, and none when the frame count is 0 |
| Pipeline.Convert | main.py:72-109 | the loop stops at the first failed read; it writes one frame per successful read, in read order, each the rasterisation of that read; `processed` equals the number written; the progress lines are exactly those above |
| Pipeline.Resolve | main.py:15-46 | setup fails with "input not found" exactly when no extension matches; otherwise the input is the first existing input name + extension in the tried order, the width and mode are exactly those resolved from the answers, the output and temporary paths are named as above and differ, the width is at least 4, and green mode holds exactly for the answer "1" |
| Pipeline.Setup | main.py:53-65 | the plan fails exactly on a zero source width; otherwise it is valid and its grid width is the resolved width |

## Left out

- Console input with `.strip()`, `print`, `sys.exit` (main.py:10-13, 22, 36, 51, 70, 131): terminal I/O. The answers are taken as already stripped strings. An exit becomes a `Failure` or `None`, and the width warning becomes a flag.
- Opening, reading, writing and releasing the video through OpenCV (main.py:49-55, 67-72, 78, 104, 110-112): foreign I/O. The failures to open the input or the writer are not modelled. The source is a sequence of read results and the sink is the returned list of frames.
- `cv2.resize` with `INTER_AREA` and the `BGR2GRAY` conversion (main.py:83-84): foreign numeric code. The downsampled grey and BGR grids are inputs, and their shape is a precondition.
- The `RGB2BGR` conversion of the whole canvas (main.py:103): it is reduced to the per-pixel reorder `Color.ToBgr`, because no pixels are modelled.
- PIL font loading, `textbbox` and glyph rasterisation (main.py:40, 59-63, 89-90, 100): foreign rendering. The bounding-box extents are parameters. A frame is a black canvas of the plan's size plus its list of draw commands, not pixels.
- Floating point: the fps fallback (main.py:55) and the percentage (main.py:108). A progress line records only `processed` and `frame_count`.
- Geometry.PlanGeometry: computes `round(src_h * width / (2 * src_w))` exactly on rationals. The float expression on main.py:56 can round differently at a tie that is not exactly representable. It also returns Success for widths too large for a float (around 10^308 and beyond), where main.py:56 raises `OverflowError` outside any `try` and the script stops; the model has no such failure.
- Params.ParseInt: accepts only an optional sign followed by ASCII decimal digits. Python's `int()` also allows underscores between digits, surrounding whitespace and non-ASCII digits. It also accepts any number of digits, while Python 3.11 and later raise `ValueError` beyond 4300 digits; there the script warns and keeps 160, whereas `ResolveWidth` gives `max(4, n)`.
- Paths: paths are plain strings with '/' as the only separator. pathlib's normalisation (repeated separators, `.` components, trailing '/') is not modelled.
- The rename, the ffmpeg remux and the unlink of the temporary file (main.py:116-130): process and file-system I/O. Only the naming of the temporary file is modelled.
