# PixelView core in Dafny

PixelView is a viewer and comparer for raw and PNG images. This project
models the parts of it that decide what the user sees:

- the pixel comparison `AbstractImage.getDiff` and `validateGeometry`. This
  covers the three checks before the walk, the alpha masks, the four delta
  buffers, the counters and the fail lists.
- the `COMPARE_TYPE` enum and the `Geometry` rectangle: its constructors,
  `str`, `==` and `isAreaEqual`.
- the raw `rgba8888` file format: `save` and `load`.
- the display transforms `dropAlpha` and `getAlphaImage`, and the
  placeholder `loadImage` returns when a file cannot be read or its PNG
  decode fails (an unrecognised format raises instead).
- three index state machines of the GUI:
  - the compare view's fail-list navigation and marker;
  - the main window's image-set list and drop;
  - the loading indicator's socket counter.

Modules:

| module | file | models |
|---|---|---|
| `Wrappers` | wrappers.dfy | `Option` and `Result` |
| `Text` | text.dfy | bytes, ASCII, `str(int)`, `int(digits)`, the greedy `[0-9]+` |
| `Arith` | arith.dfy | small arithmetic facts the proofs share |
| `Common` | common.dfy | `COMPARE_TYPE`, `Geometry` |
| `AbstractImage` | abstract_image.dfy | the image object, `validateGeometry`, input offsets |
| `Rgba8888Image` | rgba8888_image.dfy | the four-byte container and its file format |
| `ImageUtils` | image_utils.dfy | `dropAlpha`, `getAlphaImage`, the placeholder |
| `DiffPixels` | diff_pixels.dfy | what one visited pixel contributes to each output |
| `DiffWalk` | diff_walk.dfy | the row-major walk of the window |
| `GetDiff` | get_diff.dfy | `getDiff` as a function, and what its report means |
| `DiffLoop` | get_diff_loop.dfy | `getDiff` as the source runs it, proved equal to `GetDiff.Diff` |
| `CompareView` | compare_view.dfy | `nextDiffPixel`, `prevDiffPixel`, `pixelIndexToXY`, `updateMarker` |
| `MainWindow` | main_window.dfy | `prevImage`, `nextImage`, `dropImage` |
| `LoadingIndicator` | loading_indicator.dfy | `counterForward`, `counterBack`, `counterBackAndForth`, `counterNext`, `hideEvent` |

Python's exceptions become `Option` or `Result` values in the model:

- `IndexError` from list indexing or `pop` is `None`.
- `ZeroDivisionError` from `% len(posList)` is `None`.
- The "Invalid header" exception of `load` is `Err`.
- The size mismatch of `dropAlpha`'s extended slice assignment is `Err`.

Python's negative list indices are modelled too.

`getDiff` is given twice:

- `GetDiff.Diff` is a function over the row-major sequence of visited pixels.
- `DiffLoop.GetDiffLoop` is a method with the source's two nested loops.
  It preallocates zero-filled buffers and writes at `(j * width + i) * 3`.
  Its contract is that it returns exactly `GetDiff.Diff`.

## Model

| member | source | states |
|---|---|---|
| Common.CompareType.Value | PixelView/imageContainers/common.py:20-52 | every compare type has a value from 1 to 6 |
| Common.CompareTypeUnique | PixelView/imageContainers/common.py:20-52 | `@enum.unique`: two compare types share a value only if they are the same member |
| Common.Copy | PixelView/imageContainers/common.py:57-62 | the copy constructor gives a geometry that is `==` to the original, both ways round |
| Common.Equals | PixelView/imageContainers/common.py:84-86 | `__eq__`: false against `None`, otherwise field by field (properties in `Common.EqualsIsStructural`) |
| Common.EqualsIsStructural | PixelView/imageContainers/common.py:84-86 | `==` is false against `None`; otherwise it holds exactly when all four fields agree |
| Common.IsAreaEqual | PixelView/imageContainers/common.py:88-90 | same width and same height (properties in `Common.AreaEquality`) |
| Common.AreaEquality | PixelView/imageContainers/common.py:88-90 | `isAreaEqual` is reflexive, symmetric and transitive; it ignores position; `==` implies it |
| Common.Parse | PixelView/imageContainers/common.py:71-79 | a geometry comes back exactly when the pattern matches at the start (`Common.Matches`), and its fields are then non-negative; any other string sets no field |
| Common.ParseCodes | PixelView/imageContainers/common.py:73-78 | the same, on code points |
| Common.ParseCodesRuns | PixelView/imageContainers/common.py:73-78 | on any four digit runs, leading zeros included, each group is read as `int` reads it, whatever non-digit text follows |
| Common.ParseFormat | PixelView/imageContainers/common.py:71-79 | parsing `<w>x<h>+<x>+<y>`, followed by any text that does not start with a digit, gives the geometry back |
| Common.ParseCodesFormat | PixelView/imageContainers/common.py:73-78 | the same round trip, on code points |
| Common.ParseCodesFields | PixelView/imageContainers/common.py:73-78 | the four regex groups are read back one by one in the order width, height, x, y |
| Common.ParseNeedsLeadingDigit | PixelView/imageContainers/common.py:73-74 | `re.match` anchors at the start, so a string that does not begin with a digit (for example a negative number) gives no geometry |
| Common.NoCommaInNumeral | PixelView/imageContainers/common.py:82 | `str(n)` never contains a comma |
| Common.SplitAtComma | PixelView/imageContainers/common.py:82 | a comma-joined pair splits back uniquely when its first field has no comma |
| Common.JoinInjective | PixelView/imageContainers/common.py:82 | `','.join` of comma-free items loses nothing |
| Common.ToString | PixelView/imageContainers/common.py:81-82 | `__str__`: the four fields joined by commas (properties in `Common.ToStringInjective`) |
| Common.ToStringInjective | PixelView/imageContainers/common.py:81-82 | `__str__` is injective: geometries that print the same are equal |
| Text.Codes | PixelView/imageContainers/common.py:73 | a string's code points, one per character |
| Text.Chars | PixelView/imageContainers/common.py:82 | the string whose code points are the given bytes; `Codes` turns it back into them |
| Text.Ascii | PixelView/imageContainers/rgba8888Image.py:30 | `str.encode` of an ASCII string is its code points |
| Text.DigitsOf | PixelView/imageContainers/common.py:82 | `str(n)` for `n >= 0` is a non-empty numeral with no leading zero |
| Text.ValueOfDigits | PixelView/imageContainers/common.py:75-78 | `int(str(n)) == n` |
| Text.DigitsOfInjective | PixelView/imageContainers/common.py:82 | distinct naturals print differently |
| Text.DigitRun | PixelView/imageContainers/common.py:73 | the greedy `[0-9]+` takes every leading digit and stops at the first non-digit |
| Text.DigitRunOfPrefix | PixelView/imageContainers/common.py:73 | where the greedy run ends is fixed by where the first non-digit sits |
| Text.Number | PixelView/imageContainers/common.py:73-78 | one numeric group fails exactly when the text does not start with a digit; otherwise it consumes a non-empty prefix and leaves text that starts with a non-digit |
| Text.Literal | PixelView/imageContainers/common.py:73 | a literal character in the pattern matches exactly when it is next |
| Text.Prefix | PixelView/imageContainers/rgba8888Image.py:46 | a literal prefix in the pattern matches exactly when it is a prefix |
| Text.NumberThen | PixelView/imageContainers/common.py:73-76 | a group followed by its separator matches exactly when a digit run is closed by that separator, and leaves the text after it |
| Text.NumberThenOfRun | PixelView/imageContainers/common.py:73-76 | a digit run and its separator read as the run's `int` value, leaving the rest |
| Text.NumberOfRun | PixelView/imageContainers/rgba8888Image.py:46-50 | a non-empty digit run followed by a non-digit is consumed whole and read as `int` reads it |
| Text.NumberOfDigits | PixelView/imageContainers/common.py:73-78 | a printed number followed by a non-digit is read back whole |
| Text.IntCodes | PixelView/imageContainers/common.py:82 | `str(i)` is the numeral, with a leading `-` for negatives |
| Text.IntToString | PixelView/imageContainers/common.py:82 | `str(i)` has the code points of `IntCodes(i)` |
| Text.IntToStringInjective | PixelView/imageContainers/common.py:82 | `str` on `int` is injective, signs included |
| AbstractImage.PixelFormat.BytesPerPixel | PixelView/imageContainers/rgba8888Image.py:26 | a pixel takes three or four bytes |
| AbstractImage.Image.BytesPerPixel | PixelView/imageContainers/abstractImage.py:128 | an image's pixels take three or four bytes |
| AbstractImage.NewRgb888 | PixelView/imageContainers/abstractImage.py:22-29 | the constructor keeps buffer, width and height, sets mode "RGB" and leaves the source unset |
| AbstractImage.ValidateGeometry | PixelView/imageContainers/abstractImage.py:40-42 | the window ends inside the image in both directions (properties in `AbstractImage.ValidatedWindowInBuffer`) |
| AbstractImage.ValidatedWindowInBuffer | PixelView/imageContainers/abstractImage.py:40-42 | a window that passes `validateGeometry` on a well-formed image has every input offset inside the buffer |
| Rgba8888Image.New | PixelView/imageContainers/rgba8888Image.py:24-27 | four bytes per pixel, mode "RGBA", buffer and size as given, no source file |
| Rgba8888Image.Tag | PixelView/imageContainers/rgba8888Image.py:30 | the tag `"rgba8888 "` is nine bytes |
| Rgba8888Image.Save | PixelView/imageContainers/rgba8888Image.py:29-31 | the file is the header followed by the buffer, and its first 0x0A ends the header |
| Rgba8888Image.Header | PixelView/imageContainers/rgba8888Image.py:30 | the header `save` writes starts with the tag and ends with 0x0A |
| Rgba8888Image.HeaderHasOneNewLine | PixelView/imageContainers/rgba8888Image.py:30 | the header's only 0x0A is its last byte |
| Rgba8888Image.Find | PixelView/imageContainers/rgba8888Image.py:41 | `find` gives the first occurrence, or -1 exactly when the byte is absent |
| Rgba8888Image.FindAt | PixelView/imageContainers/rgba8888Image.py:41 | `find` stops at the first occurrence |
| Rgba8888Image.SplitHeader | PixelView/imageContainers/rgba8888Image.py:41-43 | with a 0x0A: header, 0x0A and body make up the input, and the header has no 0x0A. Without one: the header is all but the last byte and the body is the whole input |
| Rgba8888Image.Load | PixelView/imageContainers/rgba8888Image.py:37-53 | succeeds exactly when the header matches; width and height are the header's two numbers, the buffer is the body, and the source path and format are set |
| Rgba8888Image.HeaderFields | PixelView/imageContainers/rgba8888Image.py:46-50 | a header matches exactly when it is the tag, a digit run closed by a space, and a digit; any other header raises |
| Rgba8888Image.HeaderFieldsOfRuns | PixelView/imageContainers/rgba8888Image.py:46-50 | the tag, a digit run, a space and a digit run match as those two numbers read with `int`, leading zeros included, whatever non-digit text follows |
| Rgba8888Image.LoadBody | PixelView/imageContainers/rgba8888Image.py:41-51 | the buffer kept is what follows the first 0x0A, or the whole input when there is none |
| Rgba8888Image.LoadSave | PixelView/imageContainers/rgba8888Image.py:29-53 | `load(save(img))` restores width, height and buffer, whatever bytes the buffer holds |
| Rgba8888Image.HeaderFieldsOf | PixelView/imageContainers/rgba8888Image.py:46-50 | the header `save` writes matches with the width and height it was written from |
| Rgba8888Image.LoadTruncatedHeader | PixelView/imageContainers/rgba8888Image.py:41-50 | as written, `load` accepts `"rgba8888 12 34"` with no 0x0A as a 12 x 3 image whose buffer is the text itself |
| Rgba8888Image.LoadStrict | PixelView/imageContainers/rgba8888Image.py:37-53 | the corrected `load` accepts only input with a 0x0A; there it agrees with `load` |
| Rgba8888Image.LoadStrictSave | PixelView/imageContainers/rgba8888Image.py:29-53 | the corrected `load` still reads back everything `save` writes |
| Rgba8888Image.LoadStrictRejectsTruncated | PixelView/imageContainers/rgba8888Image.py:41-48 | the corrected `load` rejects the cut-short header that `load` accepts |
| ImageUtils.Colours | PixelView/utils/image.py:87-95 | the interleaved R, G and B bytes have three bytes per pixel |
| ImageUtils.ColoursPixels | PixelView/utils/image.py:87-95 | pixel `p` of the result is pixel `p` of the source without its alpha |
| ImageUtils.Greys | PixelView/utils/image.py:106-109 | the alpha image has three bytes per pixel |
| ImageUtils.GreysPixels | PixelView/utils/image.py:106-109 | pixel `p` of the alpha image is three copies of source pixel `p`'s alpha |
| ImageUtils.DropAlpha | PixelView/utils/image.py:82-98 | a three-byte image comes back unchanged. A four-byte image fails exactly when its buffer length is not a multiple of 4; otherwise it becomes a three-byte image of the same size holding each pixel's R, G, B |
| ImageUtils.GetAlphaImage | PixelView/utils/image.py:101-112 | `None` exactly for a three-byte image; otherwise a same-size three-byte grey image of the alphas |
| ImageUtils.ChannelsReassemble | PixelView/utils/image.py:82-112 | the two transforms together lose nothing: each four-byte pixel is its `dropAlpha` colour plus its `getAlphaImage` grey |
| ImageUtils.Tile | PixelView/utils/image.py:36 | `bytearray(unit) * count` has `count` units' worth of bytes |
| ImageUtils.TilePixels | PixelView/utils/image.py:36 | every pixel of a tiling is the unit |
| ImageUtils.PlaceHolder | PixelView/utils/image.py:25-38 | a 100 x 100 four-byte image tagged `nullImage`, every pixel the null colour followed by a 0 |
| ImageUtils.OnLoadFailure | PixelView/utils/image.py:77-79 | after a failed read or decode, the result is the placeholder exactly when a null colour is configured, and the original error otherwise |
| ImageUtils.FailedLoad | PixelView/utils/image.py:40-79 | a failure gives the placeholder exactly when it is a read or decode failure and a null colour is configured; a format nothing recognises always raises "Unable to identify image format" |
| ImageUtils.PlaceHolderRgb | PixelView/utils/image.py:25-112 | with a three-byte null colour, the placeholder shows that colour and a fully transparent alpha |
| DiffPixels.ColorFor | PixelView/imageContainers/abstractImage.py:165-167 | the colour for a difference is white or one of the table's colours |
| DiffPixels.ColorForLookup | PixelView/imageContainers/abstractImage.py:165-167 | an empty table gives white; an exact `str(t)` entry wins; every missing key gets the same default |
| DiffPixels.PixelMeasures | PixelView/imageContainers/abstractImage.py:136-177 | a pixel differs exactly when its abs sum is positive, and exactly when its largest channel difference is; that difference is at most 255 and at most the abs sum, which is at most 1020; a channel group differs exactly when the difference that picks its colour is positive |
| DiffPixels.Chunk | PixelView/imageContainers/abstractImage.py:146-183 | a delta buffer stays black where its channel does not differ and takes a table colour where it does; the alpha planes stay black when alpha is not compared |
| DiffPixels.Count | PixelView/imageContainers/abstractImage.py:191 | at most one difference per visited pixel |
| DiffPixels.MaxDeltaExtremal | PixelView/imageContainers/abstractImage.py:153 | `maxChannelDelta` bounds every visited pixel's differences and is attained when positive |
| DiffPixels.FailList | PixelView/imageContainers/abstractImage.py:170-189 | a fail list has at most one entry per visited pixel |
| DiffPixels.Paint | PixelView/imageContainers/abstractImage.py:114-117 | a buffer holds three bytes per visited pixel |
| DiffPixels.PaintPixels | PixelView/imageContainers/abstractImage.py:127 | pixel `k` of a buffer is the chunk of the `k`-th visited pixel |
| DiffPixels.Extend | PixelView/imageContainers/abstractImage.py:153-191 | one more pixel changes each total by that pixel alone |
| DiffPixels.SkippedChangesNothing | PixelView/imageContainers/abstractImage.py:131-134 | a pixel the alpha mask skips changes no counter, no fail list and no buffer |
| DiffPixels.CountZero | PixelView/imageContainers/abstractImage.py:191 | the count is zero exactly when no visited pixel differs |
| DiffPixels.CountAppend | PixelView/imageContainers/abstractImage.py:191 | counts over two stretches of the walk add up |
| DiffPixels.CountPrefix | PixelView/imageContainers/abstractImage.py:191 | a prefix of the walk counts no more differences than the whole |
| DiffPixels.CountAbsBounds | PixelView/imageContainers/abstractImage.py:154-155 | `pixelDiffCount <= absDiffCount <= 1020 * pixelDiffCount` |
| DiffPixels.MaxDeltaBounds | PixelView/imageContainers/abstractImage.py:153 | `maxChannelDelta` is a byte, and zero exactly when nothing differs |
| DiffPixels.FailListMembers | PixelView/imageContainers/abstractImage.py:170-189 | a fail list holds exactly the entries of the pixels that differ in its channel group |
| DiffPixels.FailListLength | PixelView/imageContainers/abstractImage.py:170-191 | a fail list is no longer than the difference count |
| DiffPixels.FailListSorted | PixelView/imageContainers/abstractImage.py:125-189 | a walk in increasing offset gives a fail list strictly sorted by first-image offset |
| DiffWalk.CompareAlpha | PixelView/imageContainers/abstractImage.py:109-112 | alpha is compared exactly under `FULL` with two four-byte images (used by `DiffWalk.EvalAlpha` and `GetDiff.Diff`) |
| DiffWalk.ComboValid | PixelView/imageContainers/abstractImage.py:103-107 | a mask mode needs four bytes per pixel in the image whose alpha it reads (used by `GetDiff.Checks`) |
| DiffWalk.Excluded | PixelView/imageContainers/abstractImage.py:131-134 | the four alpha masks: not opaque, or fully transparent, in the first or the second image (properties in `DiffWalk.MaskedEval`) |
| DiffWalk.Walk | PixelView/imageContainers/abstractImage.py:125-129 | the walk has one pixel per window cell |
| DiffWalk.OffsetsInBuffer | PixelView/imageContainers/abstractImage.py:128-129 | both input offsets of every window cell lie inside their buffers |
| DiffWalk.Eval | PixelView/imageContainers/abstractImage.py:128-152 | differences are byte differences; a compared cell's offsets are in range; alpha is compared exactly under `FULL` on two four-byte images; `ALPHALESS` and `FULL` skip nothing |
| DiffWalk.RowsLength | PixelView/imageContainers/abstractImage.py:125-126 | `n` rows visit `n * width` cells |
| DiffWalk.RowsCell | PixelView/imageContainers/abstractImage.py:125-127 | cell `(j, i)` is visited at position `j * width + i` |
| DiffWalk.RowsPrefix | PixelView/imageContainers/abstractImage.py:125-126 | the walk only appends: fewer rows are a prefix of more |
| DiffWalk.OffsetOrder | PixelView/imageContainers/abstractImage.py:128 | a later window cell sits at a larger offset of the first image |
| DiffWalk.WalkCell | PixelView/imageContainers/abstractImage.py:125-127 | position `k` of the walk is cell `(k / width, k % width)` |
| DiffWalk.CellAt | PixelView/imageContainers/abstractImage.py:125-127 | cell `(j, i)` is at position `j * width + i` of the walk |
| DiffWalk.WalkLayout | PixelView/imageContainers/abstractImage.py:125-127 | the walk lists the window row by row |
| DiffWalk.WalkBounded | PixelView/imageContainers/abstractImage.py:136-144 | every walked pixel holds byte differences |
| DiffWalk.WalkIncreasing | PixelView/imageContainers/abstractImage.py:125-128 | compared pixels come in strictly increasing first-image offset |
| DiffWalk.MaskedEval | PixelView/imageContainers/abstractImage.py:131-140 | a cell is skipped exactly when its alpha mask excludes it, and a mask mode compares the cells it keeps as `ALPHALESS` does |
| DiffWalk.EvalAlpha | PixelView/imageContainers/abstractImage.py:142-151 | under alpha comparison no cell is skipped, and a cell's pixel carries the alpha bytes at its offsets in the two images |
| DiffWalk.SelfWalk | PixelView/imageContainers/abstractImage.py:136-191 | an image compared with itself over one window counts no difference |
| GetDiff.Window | PixelView/imageContainers/abstractImage.py:84-92 | the window is a copy of the given geometry, or the whole image when there is none |
| GetDiff.Diff | PixelView/imageContainers/abstractImage.py:44-211 | each early return happens exactly when its check is the first to fail, and a rejection is what `GetDiff.Checks` gives; without `stopOnDiff` the call completes exactly when the checks pass; a rejection is a difference; a completed report has `isDiff` exactly when `pixelDiffCount > 0`, carries the two windows, a full-size RGB delta buffer, and alpha data exactly under `FULL` with alpha; `stopOnDiff` never completes with a difference; without `returnFailPixelList` both fail lists are empty |
| GetDiff.Checks | PixelView/imageContainers/abstractImage.py:84-112 | on every input, short buffers and negative windows included: each early return happens exactly when its check is the first to fail, and every early return is a difference; once all pass on well-formed images with non-negative windows, the walk's indexing is safe |
| GetDiff.ChecksDebugData | PixelView/imageContainers/abstractImage.py:94-107 | the debug data names both windows as `str` prints them, both image sizes for an invalid geometry, and the mask type and bytes per pixel for a bad combination |
| GetDiff.DiffStopOnDiff | PixelView/imageContainers/abstractImage.py:192 | with `stopOnDiff` the call gives a bare `isDiff` exactly when the full comparison reports a difference, and the same result otherwise |
| GetDiff.DiffReport | PixelView/imageContainers/abstractImage.py:194-211 | unfolds `getDiff`: a completed report is the summary of the walk. The `Report` lemmas below start from this summary |
| GetDiff.ReportIsDiff | PixelView/imageContainers/abstractImage.py:194 | `isDiff` holds exactly when some window cell differs |
| GetDiff.ReportCountBound | PixelView/imageContainers/abstractImage.py:191-197 | `pixelDiffCount <= width * height` |
| GetDiff.ReportAbsBounds | PixelView/imageContainers/abstractImage.py:154-198 | `pixelDiffCount <= absDiffCount <= 1020 * pixelDiffCount` |
| GetDiff.ReportMaxBounds | PixelView/imageContainers/abstractImage.py:153-196 | `maxChannelDelta <= 255`, and it is zero exactly when `pixelDiffCount` is |
| GetDiff.ReportDiffers | PixelView/imageContainers/abstractImage.py:125-191 | some walk position differs exactly when some window cell does |
| GetDiff.ReportFailListsSorted | PixelView/imageContainers/abstractImage.py:170-189 | both fail lists are strictly sorted by first-image offset, so they have no repeats; the RGB list is no longer than `pixelDiffCount` |
| GetDiff.ReportFailListMembers | PixelView/imageContainers/abstractImage.py:170-174 | the RGB fail list holds exactly the offset pairs of the cells whose colour differs |
| GetDiff.ReportDeltaImage | PixelView/imageContainers/abstractImage.py:157-168 | RGB delta pixel `j * width + i` is black where cell `(j, i)` has no colour difference, and the table colour for its largest channel difference where it does |
| GetDiff.ReportAlphaImages | PixelView/imageContainers/abstractImage.py:142-183 | when alpha is compared, pixel `j * width + i` of each source alpha image is that cell's alpha byte three times over, and the alpha delta pixel is black where the alphas agree and the colour for their difference where they do not |
| GetDiff.DiffSelf | PixelView/imageContainers/abstractImage.py:44-211 | an image compared with itself over a valid window, in any mode its format allows, completes with no difference: zero counters, an empty list and a black delta image |
| DiffLoop.Zeros | PixelView/imageContainers/abstractImage.py:114 | a zero-filled buffer of the asked length |
| DiffLoop.Written | PixelView/imageContainers/abstractImage.py:168 | a slice assignment at the next output pixel paints one pixel more |
| DiffLoop.Untouched | PixelView/imageContainers/abstractImage.py:114-117 | a black pixel is painted by leaving the zeros alone |
| DiffLoop.Finished | PixelView/imageContainers/abstractImage.py:194-207 | after the last pixel every buffer is exactly its painting |
| DiffLoop.Measure | PixelView/imageContainers/abstractImage.py:127-152 | the loop body's reads give the pixel the walk defines |
| DiffLoop.Initial | PixelView/imageContainers/abstractImage.py:114-124 | the zero-filled buffers and zero totals are the fold over no pixels |
| DiffLoop.Splice | PixelView/imageContainers/abstractImage.py:168 | a slice assignment of three bytes keeps the length |
| DiffLoop.WritePlane | PixelView/imageContainers/abstractImage.py:146-183 | writing one buffer keeps its length |
| DiffLoop.Update | PixelView/imageContainers/abstractImage.py:131-191 | the loop body keeps buffer lengths and adds one to the count exactly when the pixel differs |
| DiffLoop.Run | PixelView/imageContainers/abstractImage.py:114-191 | the loop state keeps four buffers of `3 * width * height` bytes |
| DiffLoop.PlaneStep | PixelView/imageContainers/abstractImage.py:146-183 | the body's write to one buffer paints one pixel more |
| DiffLoop.UpdateTracks | PixelView/imageContainers/abstractImage.py:131-191 | the loop body keeps every total equal to its fold over the visited pixels |
| DiffLoop.RunTracks | PixelView/imageContainers/abstractImage.py:125-191 | after any number of pixels the loop state is the fold over them |
| DiffLoop.Step | PixelView/imageContainers/abstractImage.py:127-191 | one inner iteration advances the loop state by exactly one walk position |
| DiffLoop.ScanRow | PixelView/imageContainers/abstractImage.py:126-192 | the inner loop either finishes its row or stops early under `stopOnDiff` on a difference |
| DiffLoop.RowOf | PixelView/imageContainers/abstractImage.py:125-127 | row `j` is the `width` walk positions from `j * width` on |
| DiffLoop.StopsEarly | PixelView/imageContainers/abstractImage.py:192 | a difference met part way through is a difference of the whole walk |
| DiffLoop.NextRow | PixelView/imageContainers/abstractImage.py:125-192 | one outer iteration finishes a row or stops on a difference the whole walk has |
| DiffLoop.ScanRows | PixelView/imageContainers/abstractImage.py:125-192 | the nested loops either stop on a real difference under `stopOnDiff` or visit the whole walk |
| DiffLoop.Scan | PixelView/imageContainers/abstractImage.py:114-211 | the loops give a bare `isDiff` under `stopOnDiff` exactly when the walk differs, and the report of the whole walk otherwise |
| DiffLoop.GetDiffLoop | PixelView/imageContainers/abstractImage.py:44-211 | the source's loops return exactly what `GetDiff.Diff` specifies |
| CompareView.Lookup | PixelView/gui/centralWidgets/compare.py:210-211 | Python indexing: defined exactly for `-len <= k < len`, counting negatives from the end |
| CompareView.InitVars | PixelView/gui/centralWidgets/compare.py:38-41 | the reset state selects nothing and is consistent with any list |
| CompareView.FailPixels | PixelView/gui/centralWidgets/compare.py:204 | `diffData.get('diffPixelRgbList')` is present exactly for a completed comparison |
| CompareView.Show | PixelView/gui/centralWidgets/compare.py:207-211 | showing an in-range entry selects it |
| CompareView.NextDiffPixel | PixelView/gui/centralWidgets/compare.py:203-211 | nothing happens without a non-empty list; otherwise the selection moves one entry on and stops at the last; a consistent state stays consistent and never raises |
| CompareView.PrevDiffPixel | PixelView/gui/centralWidgets/compare.py:216-224 | nothing happens without a non-empty list; otherwise the selection moves one entry back, and from the first or the reset state it selects entry 0; a consistent state stays consistent |
| CompareView.PrevUndoesNext | PixelView/gui/centralWidgets/compare.py:203-224 | a step back undoes a step forward taken before the last entry |
| CompareView.NextUndoesPrev | PixelView/gui/centralWidgets/compare.py:203-224 | a step forward undoes a step back taken after the first entry |
| CompareView.NextFromStart | PixelView/gui/centralWidgets/compare.py:203-211 | from a freshly drawn pair, `n > 0` presses select entry `min(n - 1, len - 1)` |
| CompareView.NextAfter | PixelView/gui/centralWidgets/compare.py:203-211 | `m` presses from entry `k` select entry `min(k + m, len - 1)` |
| CompareView.PixelIndexToXY | PixelView/gui/centralWidgets/compare.py:133-137 | `x` lies in `[0, width)` and `y * width + x` is the pixel number of the offset |
| CompareView.PixelIndexToXYInverts | PixelView/gui/centralWidgets/compare.py:133-137 | `pixelIndexToXY` inverts the input offset formula of `getDiff` |
| CompareView.MarkerOffset | PixelView/gui/centralWidgets/compare.py:144-147 | a point inside the first window gives an offset inside the delta image |
| CompareView.Mark | PixelView/gui/centralWidgets/compare.py:150 | the marked pixel takes the marker colour and no other byte changes |
| CompareView.SelectedCell | PixelView/gui/centralWidgets/compare.py:139-151 | the selected entry of a completed comparison belongs to a window cell whose colour differs. Its first offset converts back to that cell's image pixel, and the marker lands on the cell's own delta pixel, the one painted in its colour |
| CompareView.ShownCell | PixelView/gui/centralWidgets/compare.py:210-211 | a selected entry belongs to a window cell whose colour differs |
| CompareView.CellOffsetXY | PixelView/gui/centralWidgets/compare.py:144 | a compared cell's first offset converts back to the cell's pixel of the first image |
| MainWindow.Pop | PixelView/gui/mainWindow.py:73 | `list.pop(k)` is defined exactly for `-len <= k < len`; it removes one element, keeps the multiset, and keeps the order of the rest |
| MainWindow.PrevImage | PixelView/gui/mainWindow.py:111-114 | one set back, no change at the first; lists untouched; a valid state stays valid |
| MainWindow.NextImage | PixelView/gui/mainWindow.py:116-119 | one set on, no change at the last; lists untouched; a valid state stays valid |
| MainWindow.PrevUndoesNext | PixelView/gui/mainWindow.py:111-119 | a step back undoes a step forward taken before the last set |
| MainWindow.NextUndoesPrev | PixelView/gui/mainWindow.py:111-119 | a step forward undoes a step back taken after the first set |
| MainWindow.DropImage | PixelView/gui/mainWindow.py:71-78 | with one set left, nothing changes. Otherwise the set on show moves to the end of the dropped lists, no path is lost, the second list follows when in use, and the index is pulled back onto the last set; a valid state stays valid |
| MainWindow.DropKeepsPairs | PixelView/gui/mainWindow.py:72-75 | a drop keeps the two lists paired, in order, and puts the dropped pair at the same position of both dropped lists |
| MainWindow.DropsLeaveOne | PixelView/gui/mainWindow.py:71-78 | `n` drops leave `max(len - n, 1)` sets and lose no path |
| LoadingIndicator.Start | PixelView/gui/loadingIndicators/abstractLoadingIndicator.py:57-74 | `initVars` fills the first socket and steps forward: a bouncing state for every indicator with a socket |
| LoadingIndicator.CounterForward | PixelView/gui/loadingIndicators/abstractLoadingIndicator.py:115-118 | raises exactly when there is no socket; otherwise one socket on, wrapping from the last to the first |
| LoadingIndicator.CounterBack | PixelView/gui/loadingIndicators/abstractLoadingIndicator.py:120-124 | one socket back, wrapping from the first to the last; stays among the sockets |
| LoadingIndicator.BackUndoesForward | PixelView/gui/loadingIndicators/abstractLoadingIndicator.py:115-124 | `counterBack` and `counterForward` undo each other on any socket |
| LoadingIndicator.CounterBackAndForth | PixelView/gui/loadingIndicators/abstractLoadingIndicator.py:126-134 | with at least two sockets a bouncing state stays bouncing; it bounces off the first socket onto the second and turns round past the last |
| LoadingIndicator.BounceNeedsTwo | PixelView/gui/loadingIndicators/abstractLoadingIndicator.py:126-134 | with a single socket the bounce leaves the sockets (the counter becomes -1) |
| LoadingIndicator.CounterNext | PixelView/gui/loadingIndicators/abstractLoadingIndicator.py:136-139 | only the forward step can raise; every direction keeps the counter among the sockets when it can |
| LoadingIndicator.HideEvent | PixelView/gui/loadingIndicators/abstractLoadingIndicator.py:164-166 | hiding resets to the first socket and keeps the bounce step |
| LoadingIndicator.BounceStep | PixelView/gui/loadingIndicators/abstractLoadingIndicator.py:126-134 | one repaint moves a bouncing indicator one phase on around its cycle |
| LoadingIndicator.Next | PixelView/gui/loadingIndicators/abstractLoadingIndicator.py:126-134 | the next phase is `p + 1` modulo the period `2 * (n - 1)` |
| LoadingIndicator.BounceCycle | PixelView/gui/loadingIndicators/abstractLoadingIndicator.py:126-134 | from the first socket, after `k` repaints the counter is the triangle wave `Triangle(k mod 2(n - 1))` |
| LoadingIndicator.BounceFrom | PixelView/gui/loadingIndicators/abstractLoadingIndicator.py:126-134 | the same from any phase `p`: after `k` repaints the indicator is at phase `(p + k) mod 2(n - 1)` |
| LoadingIndicator.ForwardCycle | PixelView/gui/loadingIndicators/abstractLoadingIndicator.py:115-118 | `k` forward steps from socket `c` reach socket `(c + k) mod n` |

## Left out

- File and clipboard I/O: `pUtils.quickFileRead`/`quickFileWrite`, PIL's format detection and PNG decoding, and `savePNG`. The bytes read are a parameter of `Rgba8888Image.Load`. For the other steps only the stage at which `loadImage` failed is modelled (`ImageUtils.FailedLoad`), not which bytes make PIL fail.
- The three-byte container's own file format: `rgb888Image.py` is not part of this model. The three-byte image is modelled only as the result of `dropAlpha` and `getAlphaImage` and as an input of `getDiff`.
- Qt painting, widgets, timers, the loading thread and the `draw` callbacks. Only the index state each handler changes is modelled, not the redraw it then triggers.
- The configuration manager and the command line. The colour table, the marker colour, the null colour, the indicator direction and the socket count `n = len(posList)` are parameters.
- `writeLists`, `getImageInfo`, `getImageName`, `truncateString` and the `view.py` widget: presentation only.
- GetDiff.Diff: the pixel walk is modelled only when `GetDiff.Callable` holds: each buffer holds at least `width * height` pixels and each given window has no negative field. The checks before the walk read no pixel data; `GetDiff.Checks` models them for every input. Python's walk reads only the window's cells. A shorter buffer still compares when those bytes are present. Otherwise Python raises `IndexError` at the first cell past the end. A negative window field makes Python's offsets index from the end of the buffer. None of these three walks is modelled.
- AbstractImage.ValidateGeometry: its partner `AbstractImage.ValidatedWindowInBuffer` holds only on images that satisfy `AbstractImage.WellFormed`, for the same reason.
- DiffPixels.ColorFor: colour table values are three-byte colours. A table entry of another length would resize the bytearray in Python, which is not modelled.
- CompareView.PixelIndexToXY: the source divides in floating point and truncates with `int`. For non-negative offsets this equals integer division and remainder, which is what is modelled; float rounding on huge offsets is not. The requirement of a positive width and bytes per pixel stands for Python's `ZeroDivisionError`.
- CompareView.Mark: requires the marked slice to be inside the delta image. Python would grow the bytearray instead. `CompareView.SelectedCell` proves the slice is inside for every entry the view can select.
- LoadingIndicator.CounterNext: the fallback after the three `if`s returns the method object `self.counterForward` rather than calling it. It cannot be reached with a `DIRECTION` member and is not modelled.
- LoadingIndicator.CounterBackAndForth: keeps the counter among the sockets only for `n >= 2`. With one socket the source leaves the range, as `LoadingIndicator.BounceNeedsTwo` shows; the shipped indicator (`line.py`) has five sockets.
- The `raise` for an image that is neither three- nor four-byte at the end of `dropAlpha` and `getAlphaImage`: the image type of the model has only the two formats, so that branch cannot arise.
- Blink-style indicators and the socket positions themselves: only the counter is modelled.
- Compare view: `drawPart2` resets the navigation with `initVars` before showing a new pair. This is modelled as `CompareView.InitVars`; the image loading in `loading` is not.

## Findings

| source | as written | input that shows it | evidently intended | confidence | as-written member | corrected member |
|---|---|---|---|---|---|---|
| PixelView/imageContainers/rgba8888Image.py:41-43 | with no 0x0A, `find` returns -1, so the header is all but the last byte and the body is the whole input | the 14 bytes `rgba8888 12 34` with no line end load as a 12 x 3 image whose pixel data is the header text | an input without the header terminator is rejected as an invalid header | not executed | Rgba8888Image.LoadTruncatedHeader | Rgba8888Image.LoadStrict |
