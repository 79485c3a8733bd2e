# MasterImageEditor: a verified model of its document, tool and history engine

This Dafny project models the engine inside the browser image editor class
`MasterImageEditor` (js/master-editor-complete.js) with its canvases and DOM
removed. What remains is:

- **the layer store**: a bottom-to-top list of layers (id, name, size, RGBA
  bytes, visibility, opacity, blend mode, lock), the active index and the id
  counter;
- **the pixel tools** over a width × height × 4 byte buffer: the stack-based
  4-connected bucket flood fill, the six filters that `processImageData`
  dispatches to (grayscale, sepia, invert, brightness, contrast, box blur) and
  the eyedropper's `getPixelColor`;
- **the bounded linear history**: `saveState`, `undo`, `redo`, `restoreState`;
- **the colour helpers** `colorDistance`, `hexToRgb` and `rgbToHex`;
- **render's draw list**: which layers are drawn, in which order, with which
  alpha and composite operation;
- **the tool dispatch**: `executeToolAction` with its locked-layer guard, and
  the `isDrawing` gating of the mouse handlers.

Modules (one file each):

| module | file | contents |
|---|---|---|
| `Wrappers` | wrappers.dfy | `Option` |
| `Arith` | arith.dfy | small facts of integer and real arithmetic |
| `Colors` | colors.dfy | RGB distance and tolerance test, `#rrggbb` parsing and printing |
| `Pixels` | pixels.dfy | byte buffers, rounding as Uint8ClampedArray stores it, the filters, `processImageData`, `getPixelColor` |
| `FloodFill` | flood_fill.dfy | the flood fill as an in-place method on an `array<int>`, and the region it paints |
| `Layers` | layers.dfy | the layer record, `createLayer`'s record, insertion and removal in the list, opacity clamping |
| `History` | history.dfy | history entries, `saveState`'s list update, `restoreState`'s rebuilt layers, document invariants |
| `Render` | render.dfy | the draw calls `render` issues |
| `Editor` | editor.dfy | the class `MasterImageEditor`, whose methods update its fields in place |

The class keeps the invariant `Valid()`, which every public method preserves:
- the document has at least one well-formed layer, the active index is in range, and layer ids are unique and no larger than the counter;
- the history holds at most 50 entries, each a snapshot of such a document;
- the cursor points at an entry.

The clock and what the browser supplies are parameters:
- `now` stands for `Date.now()`;
- `screen` is the displayed canvas that the eyedropper samples;
- `answer` is what `prompt` returns to the text tool.

## Model

| member | source | states |
|---|---|---|
| Colors.DistanceSquared | js/master-editor-complete.js:1194-1199 | the squared RGB distance is non-negative and is zero exactly when the two colours are equal (alpha is not compared) |
| Colors.SqrtComparison | js/master-editor-complete.js:1194-1199 | for the square root s of the squared distance and an integer tolerance t: `s <= t` holds exactly when `t >= 0` and the squared distance is at most `t*t`, so the square-free WithinTolerance is colorDistance's test |
| Colors.ToleranceZeroIsEquality | js/master-editor-complete.js:1194-1199 | tolerance 0 accepts exactly the identical colour; a negative tolerance accepts nothing |
| Colors.WithinTolerance | js/master-editor-complete.js:644 | the bucket's `colorDistance(a, b) <= tolerance` test (also at line 622): never passes for a negative tolerance, and an identical colour passes for every tolerance >= 0 |
| Colors.HexToRgb | js/master-editor-complete.js:1201-1208 | the result is always three bytes; a string that does not match `#?rrggbb` gives black |
| Colors.LowerHexDigit | js/master-editor-complete.js:1210-1215 | toString(16) writes a lower-case digit that reads back as its value |
| Colors.PadHexByte | js/master-editor-complete.js:1210-1215 | a byte is printed as exactly two lower-case digits, high digit first, with the leading zero added |
| Colors.RgbToHex | js/master-editor-complete.js:1210-1215 | rgbToHex: `#` followed by each channel's padded hex digits, so at least seven characters; RgbToHexShape and HexRoundTrip give the exact form for bytes |
| Colors.RgbToHexShape | js/master-editor-complete.js:1210-1215 | rgbToHex of three bytes is seven characters, `#` and six lower-case hex digits, a string hexToRgb accepts |
| Colors.HexRoundTrip | js/master-editor-complete.js:1201-1215 | hexToRgb(rgbToHex(r, g, b)) == (r, g, b) for bytes |
| Colors.ChannelRoundTrip | js/master-editor-complete.js:1201-1215 | one channel parsed from two hex digits and printed again is those two digits in lower case |
| Colors.PaddedDigits | js/master-editor-complete.js:1201-1215 | six digits parsed as three channels and printed again are the six digits in lower case |
| Colors.HexRoundTripBack | js/master-editor-complete.js:1201-1215 | rgbToHex(hexToRgb(s)) is `#` and s's six digits in lower case, for every s hexToRgb accepts |
| Pixels.RoundHalfUp | js/master-editor-complete.js:835 | Math.round of p / d is the nearest integer, a half rounded upward |
| Pixels.RoundHalfUpMonotone | js/master-editor-complete.js:854-856 | Math.round is monotone, which orders sepia's three rounded rows |
| Pixels.ToUint8Clamp | js/master-editor-complete.js:918-921 | a value stored into a Uint8ClampedArray is a byte |
| Pixels.ToUint8ClampNearest | js/master-editor-complete.js:918-921 | inside (0, 255) the stored byte is a nearest integer to p / d, the even one on a tie |
| Pixels.ToUint8ClampBetween | js/master-editor-complete.js:918-921 | a quotient lying in [lo, hi] is stored as a byte in [lo, hi] |
| Pixels.ToUint8ClampExact | js/master-editor-complete.js:918-921 | a whole byte value is stored unchanged |
| Pixels.MapRgb | js/master-editor-complete.js:831-890 | the per-pixel filters keep the buffer length |
| Pixels.TransformPixels | js/master-editor-complete.js:831-890 | the in-place loop over the buffer, four bytes at a time, leaves exactly MapRgb of the old buffer: each pixel's R, G, B rewritten from its own old R, G, B and alpha untouched |
| Pixels.MapRgbPixel | js/master-editor-complete.js:831-890 | pixel p of the result is the transform of pixel p of the input, and its alpha byte is the old one |
| Pixels.ByteOfPixel | js/master-editor-complete.js:831-890 | byte i of a buffer is channel i % 4 of pixel i / 4 |
| Pixels.InvertPixel | js/master-editor-complete.js:863-867 | invert on one pixel gives a byte colour exactly when its input is one |
| Pixels.BrightenPixel | js/master-editor-complete.js:872-877 | brightness on one pixel always gives a byte colour, and delta 0 keeps a byte colour |
| Pixels.InvertTwice | js/master-editor-complete.js:863-870 | inverting twice gives back every byte of the buffer |
| Pixels.InvertKeepsAlpha | js/master-editor-complete.js:863-870 | invert keeps an image an image and never writes an alpha byte |
| Pixels.BrightnessChannels | js/master-editor-complete.js:872-879 | after brightness(delta) every R, G, B byte is clamp(old + delta, 0, 255) and every alpha byte is unchanged |
| Pixels.BrightnessZero | js/master-editor-complete.js:872-879 | brightness 0 leaves an image unchanged |
| Pixels.BrightnessSaturates | js/master-editor-complete.js:872-879 | on any byte buffer, a delta of at least 255 turns every R, G, B byte into 255 and one of at most -255 turns every R, G, B byte into 0; alpha bytes are kept |
| Pixels.GrayBetween | js/master-editor-complete.js:831-844 | the gray level lies between any common bounds of R, G and B |
| Pixels.GrayPixel | js/master-editor-complete.js:835-838 | grayscale on one pixel sets R, G and B to the same gray level |
| Pixels.GrayscaleStructure | js/master-editor-complete.js:831-844 | after grayscale R == G == B, alpha is unchanged, and the gray lies between the old minimum and maximum channel |
| Pixels.SepiaPixel | js/master-editor-complete.js:854-856 | sepia's Math.min caps every channel at 255 |
| Pixels.SepiaOrdered | js/master-editor-complete.js:846-861 | sepia maps a byte colour to a byte colour with R >= G >= B |
| Pixels.ContrastChannel | js/master-editor-complete.js:881-887 | one contrast channel, factor (259(c + 255)) / (255(259 - c)) applied around 128 and clamped, is stored as a byte for every amount, including the infinite factor at 259 |
| Pixels.ContrastZero | js/master-editor-complete.js:881-890 | contrast 0 leaves every byte unchanged |
| Pixels.ContrastFlat | js/master-editor-complete.js:881-890 | contrast -255 turns every channel into 128 |
| Pixels.Blurred | js/master-editor-complete.js:892-927 | the blurred buffer has the input's length; FilterBlur, BlurBetween and BlurRadiusZero state its contents |
| Pixels.FilterBlur | js/master-editor-complete.js:892-927 | the nested loops write into a fresh copy exactly Blurred of the input: every byte is the stored average of its channel over the clipped window |
| Pixels.BlurRow | js/master-editor-complete.js:895-925 | one pass of the x loop extends the finished prefix of the result by one row |
| Pixels.BlurWindow | js/master-editor-complete.js:897-917 | the dy/dx loops compute the four channel sums and the count of on-canvas samples of the window |
| Pixels.RowSumBetween | js/master-editor-complete.js:903-916 | a row's sum lies between count·lo and count·hi when every on-canvas sample does |
| Pixels.WindowSumBetween | js/master-editor-complete.js:903-916 | the window's sum lies between count·lo and count·hi when every on-canvas sample in the window does |
| Pixels.RowCountHasCentre | js/master-editor-complete.js:903-916 | a row through an on-canvas centre counts at least one sample |
| Pixels.RowCountNonNegative | js/master-editor-complete.js:903-916 | sample counts are never negative |
| Pixels.WindowCountHasCentre | js/master-editor-complete.js:903-916 | the window around an on-canvas pixel counts at least one sample |
| Pixels.WindowCountNonNegative | js/master-editor-complete.js:903-916 | window counts are never negative |
| Pixels.BlurBetween | js/master-editor-complete.js:892-927 | for radius >= 0 every output pixel averages a non-empty window (count >= 1) and each output channel lies between any bounds of that channel over the clipped window, in particular its minimum and maximum |
| Pixels.BlurKeepsImage | js/master-editor-complete.js:892-927 | blur keeps an image an image of the same size |
| Pixels.BlurRadiusZero | js/master-editor-complete.js:892-927 | radius 0 gives back the input |
| Pixels.BlurNegativeRadius | js/master-editor-complete.js:892-927 | a negative radius samples nothing: 0 / 0 is NaN, stored as 0 in every byte |
| Pixels.ParseFilter | js/master-editor-complete.js:785-812 | exactly the six names are accepted (anything else is `null`); brightness and contrast take `params[0] \|\| 0`, which is params[0] whenever there is one; `params[0] \|\| 1` never gives blur radius 0 |
| Pixels.Apply | js/master-editor-complete.js:784-815 | every filter keeps the buffer length |
| Pixels.ProcessImageData | js/master-editor-complete.js:773-829 | null exactly for an unknown name; otherwise the named filter's result on a copy of the data |
| Pixels.TransformKeepsBytes | js/master-editor-complete.js:831-890 | every per-pixel filter maps byte colours to byte colours |
| Pixels.ApplyKeepsImage | js/master-editor-complete.js:773-927 | every filter turns an image into an image of the same size |
| Pixels.GetPixelColor | js/master-editor-complete.js:1172-1192 | a seven-character `#rrggbb` that reads back as the pixel at the floored position, or as black off the canvas |
| FloodFill.IsFillRegion | js/master-editor-complete.js:625-661 | the set the flood fill paints: the least set containing the matching seed and closed under matching 4-neighbours on the canvas |
| FloodFill.Filled | js/master-editor-complete.js:598-664 | the buffer after a fill: the early returns leave it unchanged, otherwise exactly the region's pixels take the fill colour with alpha 255 |
| FloodFill.FillBytes | js/master-editor-complete.js:648-651 | a painted pixel gets four bytes, the last one 255 |
| FloodFill.Neighbours | js/master-editor-complete.js:654-659 | the four pushed positions are exactly the 4-neighbours |
| FloodFill.Fill | js/master-editor-complete.js:598-664 | off canvas after flooring, or seed within tolerance of the fill colour: nothing changes; otherwise the painted set is the fill region and exactly its pixels become (fill.r, fill.g, fill.b, 255), every other byte unchanged; the loop terminates as visited grows inside the canvas |
| FloodFill.PixelColor | js/master-editor-complete.js:636-642 | reads the RGB of pixel (x, y) |
| FloodFill.PaintPixel | js/master-editor-complete.js:648-651 | painting one more pixel extends the painted set by that pixel |
| FloodFill.Pop | js/master-editor-complete.js:629-644 | dropping a position that is off canvas, visited or outside tolerance keeps the loop invariant |
| FloodFill.Visit | js/master-editor-complete.js:644-659 | visiting a matching position and pushing its neighbours keeps the loop invariant |
| FloodFill.Grow | js/master-editor-complete.js:644-645 | every visited pixel stays connected to the seed through visited pixels |
| FloodFill.Settled | js/master-editor-complete.js:628-661 | when the stack is empty the visited set is the fill region |
| FloodFill.UnvisitedColour | js/master-editor-complete.js:636-642 | a pixel not yet visited still has its original colour |
| FloodFill.PaintStep | js/master-editor-complete.js:648-651 | the four writes paint exactly one more pixel |
| FloodFill.ReachesSeed | js/master-editor-complete.js:625-661 | a non-empty region contains the seed |
| FloodFill.LeastStep | js/master-editor-complete.js:625-661 | every pixel of the region lies in any set that contains the matching seed and is closed under matching neighbours |
| FloodFill.RegionLeast | js/master-editor-complete.js:625-661 | the region is the least such set |
| FloodFill.RegionUnique | js/master-editor-complete.js:625-661 | the painted region is determined by the image, seed and tolerance |
| FloodFill.RegionEmpty | js/master-editor-complete.js:625-661 | the region is empty exactly when the seed itself is outside tolerance |
| FloodFill.PaintedNothing | js/master-editor-complete.js:598-664 | painting the empty region leaves the buffer unchanged |
| FloodFill.FillTwice | js/master-editor-complete.js:619-622 | after a fill the seed has the fill colour, so a second fill at the same seed returns early |
| Layers.Transparent | js/master-editor-complete.js:187-222 | a new canvas is all zero bytes |
| Layers.White | js/master-editor-complete.js:171-173 | the background after fillRect('#ffffff') is all 255 bytes |
| Layers.Decimal | js/master-editor-complete.js:193 | a number in the default name is written as decimal digits, without a leading zero, that spell that number (so distinct ids give distinct default names) |
| Layers.NewLayer | js/master-editor-complete.js:187-222 | createLayer's record is well formed and carries the given id; a missing name becomes "Layer <id>", a zero size the canvas size |
| Layers.Inserted | js/master-editor-complete.js:233-240 | the list grows by one with the new layer at the returned index, the layers below it unchanged and those above it shifted up by one; the index is insertIndex when that is in range and the old length for -1 or past the end |
| Layers.Removed | js/master-editor-complete.js:259 | splice(index, 1) shortens the list by one |
| Layers.ClampUnit | js/master-editor-complete.js:1148-1154 | the opacity is in [0, 1], unchanged inside it, 0 below and 1 above |
| Layers.InsertedThenRemoved | js/master-editor-complete.js:224-251 | the added layer sits at the new active index and removing it gives back the old list |
| Layers.RemovedThenInserted | js/master-editor-complete.js:253-260 | removing the layer at index and adding it back at index restores the list and makes it active |
| Layers.InsertedFreshId | js/master-editor-complete.js:190-193 | a layer with the next counter value keeps ids unique wherever it is inserted, and adds exactly its id |
| Layers.FreshAt | js/master-editor-complete.js:190-193 | a list that is the old list plus one layer with id counter + 1 has unique ids, all at most counter + 1 |
| Layers.RemovedIds | js/master-editor-complete.js:259 | removal keeps ids unique and drops exactly the removed layer's id |
| History.RestoredLayers | js/master-editor-complete.js:1050-1068 | one rebuilt layer per stored layer |
| History.Saved | js/master-editor-complete.js:931-981 | saveState's list update: truncate after the cursor, push, and shift past the maximum (its properties are SavedShape, SavedDropsRedo and SavedKeepsDocuments) |
| History.SavedShape | js/master-editor-complete.js:931-975 | after saveState the cursor is on the new entry, the last one; the list never exceeds the maximum; the entries before it are the old entries up to the cursor, the oldest evicted past the maximum |
| History.SavedDropsRedo | js/master-editor-complete.js:935-939 | after saveState there is nothing to redo |
| History.SavedKeepsDocuments | js/master-editor-complete.js:931-975 | saving a document keeps every entry a document |
| History.RestoreSnapshot | js/master-editor-complete.js:1027-1072 | restoring a snapshot of a document gives back the same layers in order, the same active index and the same canvas size |
| History.RestoredDocument | js/master-editor-complete.js:1027-1072 | restoring a saved entry yields a document with the stored ids and pixels, the counter advanced by one per layer |
| History.InsertedDocument | js/master-editor-complete.js:224-238 | addLayer keeps a document |
| History.RemovedDocument | js/master-editor-complete.js:253-260 | removeLayer on two or more layers keeps a document, with the active index pulled back into the list |
| History.UpdatedDocument | js/master-editor-complete.js:1148-1170 | changing a layer's flags or pixels keeps a document |
| History.CounterGrows | js/master-editor-complete.js:190-193 | history entries stay valid while the counter grows |
| Render.Draw | js/master-editor-complete.js:1086-1117 | the forEach over the layers issues exactly DrawSteps: one call per visible layer, bottom to top, with `opacity \|\| 1.0` as alpha and `blendMode \|\| 'source-over'` as operation |
| Render.DrawSteps | js/master-editor-complete.js:1097-1103 | the draw list as written, with at most one call per layer |
| Render.Unfold | js/master-editor-complete.js:1097-1103 | a visible layer's draw call comes before those of the layers above it; an invisible one adds none |
| Render.DrawStepsVisible | js/master-editor-complete.js:1097-1103 | every draw call is for a visible layer, with `opacity \|\| 1.0` as alpha and `blendMode \|\| 'source-over'` as operation |
| Render.DrawStepsOrdered | js/master-editor-complete.js:1097 | draw calls go bottom to top |
| Render.DrawStepsComplete | js/master-editor-complete.js:1098 | every visible layer is drawn; only invisible ones are skipped |
| Render.OpacityZeroDrawnOpaque | js/master-editor-complete.js:1102 | as written, for any layer list, every visible layer with opacity 0 is drawn, and drawn with alpha 1.0 |
| Render.IntendedAlpha | js/master-editor-complete.js:1102 | the corrected draw steps are those render issues, each with its layer's opacity in [0, 1] as alpha; they differ from render's exactly when the opacity is 0 |
| Editor.Trim | js/master-editor-complete.js:697 | trim leaves no strippable character at either end and keeps a string that already has none |
| Editor.TrimEmpty | js/master-editor-complete.js:697 | `text.trim() === ''` exactly when every character is whitespace or a line terminator |
| Editor.TrimTwice | js/master-editor-complete.js:697 | trimming is idempotent |
| Editor.MasterImageEditor.constructor | js/master-editor-complete.js:30-78 | the fields' initial values, then createInitialDocument(800, 600) (lines 164-185): one white "Background" layer with id 1, active, and the history holding "New Document" at cursor 0 |
| Editor.MasterImageEditor.CreateLayer | js/master-editor-complete.js:187-222 | increments the counter and returns the record with the new id; the list is untouched |
| Editor.MasterImageEditor.AddLayer | js/master-editor-complete.js:224-251 | a fresh canvas-sized layer is inserted at insertIndex or appended, becomes active, and "Add Layer: name" is saved; the invariant is kept |
| Editor.MasterImageEditor.RemoveLayer | js/master-editor-complete.js:253-267 | false with nothing changed when only one layer exists; otherwise exactly the layer at index is removed, the active index becomes min(active, n - 1), and "Remove Layer: name" is saved |
| Editor.MasterImageEditor.GetActiveLayer | js/master-editor-complete.js:1136-1138 | the layer at the active index, or none exactly when the index is out of range |
| Editor.MasterImageEditor.SetActiveLayer | js/master-editor-complete.js:1140-1146 | true and taken exactly when the index is inside the list; otherwise false and the old index |
| Editor.MasterImageEditor.SetLayerOpacity | js/master-editor-complete.js:1148-1154 | the layer's opacity becomes the clamped value; an invalid index changes nothing |
| Editor.MasterImageEditor.ToggleLayerVisibility | js/master-editor-complete.js:1156-1162 | flips exactly that layer's visibility; an invalid index changes nothing |
| Editor.MasterImageEditor.SetLayerBlendMode | js/master-editor-complete.js:1164-1170 | sets exactly that layer's blend mode; an invalid index changes nothing |
| Editor.MasterImageEditor.SetTool | js/master-editor-complete.js:399-407 | the current tool becomes the given name |
| Editor.MasterImageEditor.SaveState | js/master-editor-complete.js:931-981 | the history becomes Saved(old history, old cursor, snapshot of the document) and the invariant holds |
| Editor.MasterImageEditor.Undo | js/master-editor-complete.js:983-1003 | false with nothing changed exactly when the cursor is at most 0; otherwise the cursor moves down by one and that entry is restored; 0 <= cursor < length is kept |
| Editor.MasterImageEditor.Redo | js/master-editor-complete.js:1005-1025 | false with nothing changed exactly when the cursor is on the last entry; otherwise the cursor moves up by one and that entry is restored |
| Editor.MasterImageEditor.RestoreState | js/master-editor-complete.js:1027-1082 | the canvas takes the stored size when both dimensions are set; the layers are rebuilt through createLayer with the stored id, flags and pixels; the active index is min(stored, n - 1) |
| Editor.MasterImageEditor.Clear | js/master-editor-complete.js:1217-1223 | the active layer becomes transparent and "Clear Layer" is saved |
| Editor.MasterImageEditor.ApplyFilter | js/master-editor-complete.js:731-771 | a known filter replaces the active layer's pixels with its result and saves "Filter: name"; an unknown one changes neither layers nor history |
| Editor.MasterImageEditor.FloodFill | js/master-editor-complete.js:598-664 | only the active layer's pixels change, and they change as FloodFill.Fill states |
| Editor.MasterImageEditor.ExecuteToolAction | js/master-editor-complete.js:465-503 | nothing on a locked layer; otherwise: bucket on start fills and saves "Bucket Fill"; eyedropper on start sets the brush, bucket and text colours to the picked colour; text on start with non-blank input saves "Add Text"; brush and eraser on end save "Brush" and "Erase"; nothing else changes |
| Editor.MasterImageEditor.ToolAction | js/master-editor-complete.js:465-503 | executeToolAction's effect on the state, tool by tool and phase by phase, with the locked-layer guard |
| Editor.MasterImageEditor.HandleMouseDown | js/master-editor-complete.js:425-439 | starts drawing, records the position and runs the start phase |
| Editor.MasterImageEditor.HandleMouseMove | js/master-editor-complete.js:441-452 | runs the move phase only while drawing, and always records the position |
| Editor.MasterImageEditor.HandleMouseUp | js/master-editor-complete.js:454-463 | only while drawing: runs the end phase and stops drawing |

## Left out

- Canvas and DOM setup, the overlay and backup canvases, event-listener wiring, touch re-dispatch and keyboard shortcuts (js/master-editor-complete.js:97-160, 1248-1309): browser plumbing.
- `loadImageFromFile`, `setupDragAndDrop` and `saveImage` (271-395): asynchronous file I/O and foreign image encoders.
- `resize` (1311-1327) and the scaling `drawImage` it performs: browser resampling. `resizeCanvas` is modelled only as setting the canvas size.
- `updateCursor`, `showNotification`, `getInfo`, the console logging and the `colorPicked` event: they read fields or talk to the page and change no modelled state.
- The blending that `render` leaves to `globalCompositeOperation` and `drawImage`. Only the draw list is modelled, and the editor keeps no displayed canvas: the eyedropper samples the `screen` parameter.
- Premultiplied alpha: a canvas stores colour premultiplied by alpha, so a `putImageData` followed by `getImageData` (in restoreState, applyFilter and the bucket fill) can change the colour bytes of a semi-transparent pixel. The model stores every byte exactly.
- The catch blocks: the model's preconditions rule out the exceptions they catch. `restoreState`'s rejection of an entry without a layer array and its skipping of null layer snapshots are the same case, since only `saveState` writes entries.
- Editor.MasterImageEditor.ExecuteToolAction: the brush, eraser and text tools leave the layer's pixels as they were, because their strokes and glyphs are canvas rasterisation the browser performs (508-585, 693-727). Their history saves are modelled.
- Pixels.Gray: the grayscale and sepia coefficients are exact fractions (0.299 as 299/1000), not IEEE doubles, so a product that lands within rounding error of a half may round differently from the browser.
- Pixels.ContrastChannel: the contrast factor is an exact fraction rather than a double, with the same caveat at exact halves.
- Pixels.StoreQuotient: the blur average is the exact quotient, not the double `r / count`, with the same caveat at exact halves.
- Pixels.ParseFilter: filter parameters are integers. A fractional brightness, contrast or blur radius is not modelled.
- Editor.MasterImageEditor.FloodFill: the tolerance is an integer, which covers the bucket's default of 32 but not a fractional tolerance.
- Editor.MasterImageEditor.SetLayerOpacity: opacity is an exact real, so NaN and the infinities are not modelled. In the source `setLayerOpacity(i, NaN)` stores NaN, because `Math.max(0, Math.min(1, NaN))` is NaN; the [0, 1] range that Layers.WellFormed keeps holds only for ordinary numbers.
- Editor.MasterImageEditor.RemoveLayer: requires `0 <= index < |layers|` when more than one layer exists. An index at or past the end makes `removedLayer` undefined and reading its name throws; a negative index takes splice's count-from-the-end meaning (-1 removes the last layer, one below -n removes the first) and is not modelled.
- Editor.MasterImageEditor.AddLayer: requires `insertIndex == -1 || 0 <= insertIndex`, because other negative indices take splice's count-from-the-end meaning.
- Editor.MasterImageEditor.GetActiveLayer: the active index is always in range under the class invariant, so its null case is reachable only in the function itself.
- Timestamps are the `now` parameter and are stored as an opaque field.
- momo-builder.js is not part of this model: it is an HTML templater that works through the DOM.

## Findings

| source | as written | input that shows it | evidently intended | confidence | as-written member | corrected member |
|---|---|---|---|---|---|---|
| js/master-editor-complete.js:1102 | `globalAlpha = layer.opacity \|\| 1.0`; 0 is falsy, so it becomes 1.0 | `setLayerOpacity(i, 0)` on a visible layer, then `render()`: the layer is drawn fully opaque instead of invisible | alpha is the layer's opacity, which every document keeps in [0, 1] (Layers.WellFormed; setLayerOpacity clamps every number other than NaN) | not executed | Render.OpacityZeroDrawnOpaque | Render.IntendedAlpha |
