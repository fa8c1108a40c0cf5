# Image grid tool — verified model of the grid and sketch core

The image grid tool loads a picture into a canvas and draws a grid of evenly spaced lines
over it, so that it can be copied cell by cell. `src/App.jsx` can also turn the picture
into a pencil-style line drawing (the "sketch" mode). It colours the grid from a
`#rrggbb` colour input and opacity. Rows and columns are chosen with selects, sliders
and two preset buttons. `GridOverlayTool.js` is an older component that draws a fixed
white grid. It validates rows and columns before storing them and shows an error
message when a value is refused.

This project models that core in Dafny:

- **`JsNumbers`** (`js_numbers.dfy`) models JavaScript's `parseInt` as section 19.2.5
  of ECMA-262 defines it:
  - leading white space, one sign, the `0x` prefix and the longest run of digits;
  - NaN is `None`.

  It also models the decimal numerals that JavaScript writes for integers.
- **`Raster`** (`raster.dfy`) models the RGBA byte layout, the grayscale reduction and
  the in-bounds 3×3 mean (`gaussianBlur`), in exact integer arithmetic.
- **`Sketch`** (`sketch.dfy`) models the sketch pass of `drawImageWithGrid` as methods
  over arrays:
  - the grayscale loop;
  - the blur's nested loops;
  - the two Sobel sums;
  - the in-place y/x loops that write R = G = B.

  The pass is proved to turn the byte array into `Sketched(old bytes)`. `Sketched` is
  defined pixel by pixel from the original image, so the result does not depend on the
  order in which the loops visit pixels.
- **`GridLayout`** (`grid_layout.dfy`) covers the two grid-drawing loops shared by both
  components. Line positions are exact reals.
- **`HexColor`** (`hex_color.dfy`) covers `hexToRgba`.
- **`GridOverlay`** (`grid_overlay.dfy`) covers the `GridOverlayTool` component:
  - `validateGridSize`;
  - the change handlers and presets, as a class;
  - the same behaviour as a function `Step` on state values, with the invariant that
    rows and columns stay in 1..20.
- **`AppControls`** (`app_controls.dfy`) covers the controls of `src/App.jsx`:
  - they store any parsed value, NaN included;
  - they redraw only for values in 1..100.

Each class method is proved equal to its state-transition function. The properties are
stated on those functions.

## Model

| member | source | states |
|---|---|---|
| JsNumbers.ParseInt | src/App.jsx:154 | `parseInt` with a radix outside 2..36 (other than absent) or with blank text is NaN |
| JsNumbers.Decimal | src/App.jsx:150 | the text JavaScript writes for a natural number below 10^21, such as a channel value 0..255, is a non-empty run of decimal digits |
| JsNumbers.DecimalValue | src/App.jsx:150 | reading the decimal numeral of `n` digit by digit gives back `n` |
| JsNumbers.ParseDecimalPrefix | src/App.jsx:154 | `parseInt` reads the numeral of `n` as `n` when a non-digit or nothing follows, and `parseInt(s) \|\| 0` gives `n` too; an `x` or `X` after the numeral counts as a non-digit only when `n > 0` ("12x" is 12) |
| JsNumbers.ZeroThenHex | src/App.jsx:154 | after the numeral 0 an `x` is a hexadecimal prefix: "0x1" reads as 1, not 0 |
| JsNumbers.ParseIntOrZero | GridOverlayTool.js:46 | `parseInt(s) \|\| 0` is 0 exactly when `parseInt` gives NaN or 0, and otherwise the number `parseInt` gives |
| JsNumbers.ParseNegativeDecimal | src/App.jsx:162 | a minus sign before a numeral of `n` gives `-n` |
| JsNumbers.ParseRejectsNonNumeric | GridOverlayTool.js:46 | text that does not start with white space, a sign or a digit is NaN, and `parseInt(s) \|\| 0` turns it into 0 |
| JsNumbers.ParseHexPair | src/App.jsx:147 | two hexadecimal digits read in radix 16 give `16·d0 + d1`, a value in 0..255 |
| JsNumbers.SkipSpaceSkipsSpace | src/App.jsx:154 | everything `parseInt` skips before the number is white space |
| JsNumbers.DigitEndOfRun | src/App.jsx:154 | the digit run `parseInt` reads ends at the first non-digit |
| Raster.Gray | src/App.jsx:67 | the grayscale value is the byte nearest to 0.299·r + 0.587·g + 0.114·b, halves rounded up |
| Raster.PixelInRange | src/App.jsx:79 | `py * width + px` of an in-bounds cell indexes the grayscale array |
| Raster.RoundedMean | src/App.jsx:84 | `Math.round(sum / count)` is the integer nearest to the quotient, halves rounded up |
| Raster.WindowCountIsClippedWindow | src/App.jsx:72-83 | the blur counts exactly the window cells on the image: `Span(x)·Span(y)` cells, 1..9 for an in-bounds pixel, 9 away from the border |
| Raster.CentreIsCounted | src/App.jsx:74-83 | the count of an in-bounds pixel is at least 1, so the division is defined |
| Raster.WindowSumBounds | src/App.jsx:72-83 | the blur sum lies between 0 and 255 times the count |
| Raster.BlurIsByte | src/App.jsx:71-85 | a blurred value lies in 0..255 |
| Raster.BlurUniform | src/App.jsx:71-85 | blurring a field of one value gives that value |
| Raster.BlurLocal | src/App.jsx:74-83 | the blurred value depends only on the grayscale values of the in-bounds cells of its 3×3 window |
| Sketch.Grayscale | src/App.jsx:60-68 | the grayscale loop fills a new array with `Gray` of each pixel's red, green and blue bytes, alpha ignored |
| Sketch.GaussianBlur | src/App.jsx:71-85 | the nested loops compute `Blur`, the rounded mean of the in-bounds window cells |
| Sketch.SobelX | src/App.jsx:93-99 | the `gx` sum equals the horizontal Sobel response `Gx` over the blurred field |
| Sketch.SobelY | src/App.jsx:101-107 | the `gy` sum equals the vertical Sobel response `Gy` over the blurred field |
| Sketch.Gradient | src/App.jsx:92-107 | both responses of an interior pixel, from twelve blur calls |
| Sketch.SketchRow | src/App.jsx:89-116 | one turn of the outer loop moves the written frontier from the start of row `y` to the start of row `y + 1` |
| Sketch.SketchPass | src/App.jsx:54-117 | the in-place pass leaves exactly `Sketched(original bytes)` in the array |
| Sketch.SketchedPixel | src/App.jsx:88-115 | border pixels and all alpha bytes keep their drawn values; the red, green and blue bytes of an interior pixel all get the ink of its gradient |
| Sketch.GradientBounds | src/App.jsx:93-107 | each Sobel response lies in −1020..1020 |
| Sketch.GradientFlat | src/App.jsx:93-107 | over a flat grayscale field both responses are 0 |
| Sketch.SketchOneColour | src/App.jsx:63-115 | an image of one colour sketches to `ink(0, 0)` at every interior red, green and blue byte |
| GridLayout.LineCount | src/App.jsx:128 | the loop `for (i = 1; i < d; i++)` runs `d − 1` times for `d ≥ 1`, and never for NaN or `d ≤ 1` |
| GridLayout.LinePositions | src/App.jsx:129 | there is one position per loop turn |
| GridLayout.GridLines | src/App.jsx:127-143 | the grid has `cols − 1` vertical and `rows − 1` horizontal strokes |
| GridLayout.DrawGrid | src/App.jsx:127-143 | the two drawing loops emit exactly `GridLines`: vertical lines at `(width / cols)·i` from top to bottom, then horizontal lines at `(height / rows)·i` from left to right; GridOverlayTool.js:80-96 holds the same two loops |
| GridLayout.LinePosition | src/App.jsx:129 | line `i` sits at `extent·i / d` |
| GridLayout.LinesEvenlySpaced | src/App.jsx:128-129 | the lines cut the extent into `d` equal cells: the first line is one cell from 0, each next one a cell further, and the last is one cell from the far edge |
| GridLayout.LinesInside | src/App.jsx:137-138 | on a canvas of positive size every line lies strictly inside (0, extent), and the positions strictly increase |
| GridLayout.LinesSymmetric | src/App.jsx:128-129 | line `i` from one edge is line `i` from the other |
| GridLayout.NoLinesWithoutDivisions | src/App.jsx:137 | NaN, 0, negative or 1 rows draw no horizontal line |
| GridLayout.GridLineShape | src/App.jsx:130-142 | each vertical stroke spans the full height at a column boundary; each horizontal stroke spans the full width at a row boundary |
| HexColor.Slice | src/App.jsx:147 | `slice` clamps its bounds to the string and copies the characters in between |
| HexColor.HexToRgba | src/App.jsx:146-151 | for `#` and six hexadecimal digits of either case, the style is `rgba(r, g, b, opacity)` with each channel the decimal value of its digit pair |
| HexColor.NumberText | src/App.jsx:150 | the template literal writes each channel as non-empty text |
| HexColor.ColourText | src/App.jsx:267-272 | the colour input reports a well-formed `#rrggbb` whose digit pairs are the channel values |
| HexColor.ReadWellFormed | src/App.jsx:146-149 | for `#` and six hexadecimal digits, r, g and b are the base-16 values of characters 1–2, 3–4 and 5–6, each in 0..255 |
| HexColor.ReadPair | src/App.jsx:147 | `parseInt(hex.slice(i, i + 2), 16)` of two digits is their base-16 value |
| HexColor.ReadColourText | src/App.jsx:146-149 | reading a colour's `#rrggbb` text gives that colour back |
| HexColor.RgbaOfColourText | src/App.jsx:146-151 | the stroke style of a colour is `rgba(r, g, b, opacity)` with the channels in decimal |
| HexColor.ShortValueIsNaN | src/App.jsx:148-149 | a value of at most three characters gives NaN green and blue |
| HexColor.DefaultColour | src/App.jsx:9 | the initial colour `#ff0000` reads as (255, 0, 0) |
| GridOverlay.Check | GridOverlayTool.js:32-43 | the verdict is "too few" exactly when a value is below 1, which takes priority; "too many" exactly when both are ≥ 1 and one exceeds 20; accepted exactly when both lie in 1..20 |
| GridOverlay.Message | GridOverlayTool.js:33-41 | the error text is empty exactly when accepted, and otherwise the message of the stage that refused |
| GridOverlay.ProposeEffect | GridOverlayTool.js:45-53 | an accepted grid is stored and clears the error; a refused one sets only the error, leaves the grid and draws nothing |
| GridOverlay.InputTouchesOneField | GridOverlayTool.js:45-63 | typing into the rows field never changes the columns, and the other way round |
| GridOverlay.RedrawInRange | GridOverlayTool.js:47-51 | every redraw uses 1..20 rows and 1..20 columns |
| GridOverlay.RedrawWhen | GridOverlayTool.js:47-52 | a handler redraws exactly when an image is loaded and the grid was accepted |
| GridOverlay.StepKeepsRange | GridOverlayTool.js:45-63 | a stored grid in 1..20 stays in 1..20 after any event |
| GridOverlay.RunKeepsRange | GridOverlayTool.js:45-115 | a stored grid in 1..20 stays in 1..20 after any sequence of events |
| GridOverlay.ReachableInRange | GridOverlayTool.js:10-11 | starting from 3 × 3, the grid is in 1..20 in every reachable state |
| GridOverlay.NonNumericRefused | GridOverlayTool.js:46-48 | non-numeric text reads as 0 and is refused with the "must be above 0" message; nothing else changes and nothing is drawn |
| GridOverlay.NumeralAccepted | GridOverlayTool.js:45-53 | a numeral in 1..20, typed with valid columns, is stored and clears the error |
| GridOverlay.NumeralTooLarge | GridOverlayTool.js:55-58 | a numeral above 20 is refused with the "cannot exceed 20" message |
| GridOverlay.PresetsAccepted | GridOverlayTool.js:156-159 | the 3 × 3 and 4 × 6 presets are always accepted and set both values |
| GridOverlay.RedrawLines | GridOverlayTool.js:81-96 | a redraw draws `rows − 1 + cols − 1` lines, at most 38 |
| GridOverlay.GridOverlayTool.constructor | GridOverlayTool.js:9-12 | the component starts at 3 × 3 with no error and no image |
| GridOverlay.GridOverlayTool.ValidateGridSize | GridOverlayTool.js:32-43 | returns true exactly when both values lie in 1..20; sets the error text of the verdict and nothing else |
| GridOverlay.GridOverlayTool.HandleRowsChange | GridOverlayTool.js:45-53 | the new state and redraw are those of `Step` for typed rows |
| GridOverlay.GridOverlayTool.HandleColsChange | GridOverlayTool.js:55-63 | the new state and redraw are those of `Step` for typed columns |
| GridOverlay.GridOverlayTool.PresetGrid | GridOverlayTool.js:107-115 | the new state and redraw are those of `Step` for a preset |
| GridOverlay.GridOverlayTool.ImageLoaded | GridOverlayTool.js:16-30 | an image file is selected and drawn with the stored grid; any other file changes nothing |
| AppControls.TypedValueStored | src/App.jsx:153-167 | the parsed value is stored whatever it is, NaN included, and only the field typed into changes |
| AppControls.TypedRedraw | src/App.jsx:156-165 | a redraw happens exactly when an image is loaded and the new value is in 1..100; it carries the new value, the other stored value and the colour |
| AppControls.NonNumericStoredAsNaN | src/App.jsx:153-156 | non-numeric text is stored as NaN and draws nothing |
| AppControls.LargeValueStored | src/App.jsx:161-166 | a value above 100 is stored without a redraw |
| AppControls.StoredNaNIsDrawn | src/App.jsx:153-167 | the gate checks only the value just typed: a stored NaN column count is redrawn with 5 rows, and that grid has no vertical line |
| AppControls.PresetsStored | src/App.jsx:185-191 | the 3 × 3 and 48 × 33 presets set both values; with an image loaded, the 48 × 33 redraw draws 32 vertical lines, at the column positions, and 47 horizontal lines on a canvas of any size |
| AppControls.ColourRedraw | src/App.jsx:169-175 | a new colour is stored and, with an image loaded, drawn with the stored grid |
| AppControls.App.constructor | src/App.jsx:5-9 | the app starts at 3 × 3, colour `#ff0000`, no image |
| AppControls.App.HandleRowsChange | src/App.jsx:153-159 | the new state and redraw are those of `React` for typed rows |
| AppControls.App.HandleColsChange | src/App.jsx:161-167 | the new state and redraw are those of `React` for typed columns |
| AppControls.App.HandleColorChange | src/App.jsx:169-175 | the new state and redraw are those of `React` for a picked colour |
| AppControls.App.PresetGrid | src/App.jsx:185-191 | the new state and redraw are those of `React` for a preset |
| AppControls.App.ImageLoad | src/App.jsx:22-27 | the loaded image is selected and drawn with the stored grid and colour |

## Left out

- The ink mapping (src/App.jsx:110-113) is a parameter `ink: (int, int) -> byte` of the sketch pass. It covers:
  - `Math.sqrt`, `Math.pow` and the float scaling by the darkness setting;
  - the rounding of the result when it is stored into the clamped byte array.

  These are floating-point numerics; the darkness value is fixed inside the parameter.
- Raster.Gray: exact halves of 0.299·r + 0.587·g + 0.114·b are rounded up. The browser computes this sum in binary floating point, which can land just below such a tie and round down.
- The blur's `Math.round(sum / count)` is modelled exactly. In floating point the quotient rounds to the same integer, because ties are representable.
- The canvas is left out:
  - file reading and image decoding;
  - `getContext`, `drawImage`, `getImageData`/`putImageData`;
  - `stroke`.

  The model keeps the byte array those calls exchange and returns the strokes and redraw arguments instead of painting them.
- `strokeStyle` and `lineWidth` are not modelled:
  - the stroke style text is `HexToRgba(colour, opacity)`;
  - the opacity enters as the text JavaScript writes for it.
- `handleOpacityChange` and the darkness slider are not modelled. They read numbers with `parseFloat`, which is floating-point, and only pass them on to the redraw.
- The sketch checkbox is not modelled. `drawImageWithGrid` reads `isSketch` from the render that created it, so it may still see the previous setting. This is React scheduling and not grid logic.
- Asynchronous loading is not modelled. The image load is one step in which the image becomes selected and drawn with the grid stored at that moment.
- React's batching of state updates is not modelled; each handler is one atomic step.
- Downloading the picture, the iOS preview overlay, `downloadImage` and the rendering of the form are user interface and are left out.
- JsNumbers.ParseInt:
  - the numbers are unbounded integers, so values beyond 2^53 are not rounded to doubles;
  - `-0` is the integer 0;
  - strings are sequences of code points, not UTF-16 units.
- JsNumbers.Decimal writes every natural number as plain digits. JavaScript switches to exponent notation (`1e+21`) from 10^21 on. The channel values the model formats lie in 0..255, so this never arises there.
- HexColor.Slice indexes code points, where JavaScript's `slice` indexes UTF-16 code units. The two agree on the ASCII text a colour input reports.
- The grid positions are exact reals. Browser doubles can differ from them in the last bit.
