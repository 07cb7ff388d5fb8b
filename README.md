# imager, modelled in Dafny

imager renders an image file in a terminal. There are two modes. In ASCII mode, each character stands for the grey level of a block of pixels, drawn from the ten-glyph ramp `' .:-=+*#%@'`. In colour mode, each character cell is a space on a 24-bit background colour.

Before either mode runs, the image is shrunk to the terminal's width. Its height is scaled by half the aspect ratio, because a character cell is about twice as tall as it is wide. An image that already fits is shown pixel for pixel.

This project models the program's own logic in `imager.py`:

- `ScalePlanner`: the arithmetic of `getImageScale`, and the aspect ratios of the verbose report.
- `Fractions`: what `Fraction(n, d).limit_denominator()` does with two integers. It reduces by Euclid's gcd and applies the 1 000 000 denominator cap.
- `Luminance`: the glyph ramp, the glyph index `v * 9 / 255`, and the loop of `convertImageToASCII` over the resized grey image.
- `Colour`: the loop of `convertImageToColour`, which reads the resized RGB image into rows of triples.
- `Sgr`, `Decimal`: `rgbFG`, `rgbBG` and `reset`.
  - These are Select Graphic Rendition control sequences, defined in section 8.3.117 of ECMA-48.
  - `38;2` selects a direct foreground colour, `48;2` a direct background colour, and `0` resets.
  - Each number is written in decimal, as Python's f-strings write an int.
  - Parsers for these sequences show that the colour values can be read back.
- `Render`: the output loops of `main`.
  - In colour mode, each pixel becomes `rgbBG(r, g, b) + ' ' + reset`, and each row ends with a newline.
  - In ASCII mode, each line is printed with a newline.
  - Decoders show that the colour output reads back as the exact image, and the ASCII output as the exact lines.
- `Options`, `Pixels`: `Option`/`Result` for the error paths, and the pixel types (`Byte`, `Rgb`, the `rows x cols` grid shape).

Divisions by zero in the source become `Failure` results rather than preconditions:

- `W == 0` fails in the aspect ratio, at line 53.
- No terminal columns fails in `x_segment`, at line 69.
- A height that truncates to zero rows fails in `y_segment`, at line 70.
- `Fraction(n, 0)` fails in the report.

The code truncates the row count with `int()` and does not clamp it to at least one row. The model follows the code; `PlanAtLeastOneRow` is the clamped variant, listed under Findings.

## Model

| member | source | states |
|---|---|---|
| Decimal.Digits | imager.py:19 | the numeral an f-string writes for a non-negative int is non-empty, all decimal digits, and has no leading zero unless it is "0" |
| Decimal.ValueOfDigits | imager.py:19 | the decimal numeral an f-string writes for a non-negative int reads back as that int |
| Decimal.DigitsInjective | imager.py:19 | two different numbers never get the same numeral |
| Sgr.ResetIsSgr | imager.py:13 | `reset` is ESC `[0m`, the SGR sequence with the single parameter 0 |
| Sgr.RgbFG | imager.py:18-19 | `rgbFG(r, g, b)` is the SGR sequence with parameters 38;2;r;g;b in decimal |
| Sgr.RgbBG | imager.py:24-25 | `rgbBG(r, g, b)` is the SGR sequence with parameters 48;2;r;g;b in decimal |
| Sgr.ParseSgrRoundTrip | imager.py:18-25 | any SGR sequence is read back as exactly its parameters, and the text after it is left untouched |
| Sgr.RgbFGRoundTrip | imager.py:18-19 | r, g and b are recovered from a foreground escape, whatever follows it |
| Sgr.RgbBGRoundTrip | imager.py:24-25 | r, g and b are recovered from a background escape, whatever follows it |
| Sgr.ResetRoundTrip | imager.py:13 | the reset is read back as the parameter list [0] |
| Sgr.EscapesInjective | imager.py:18-25 | different colours give different escapes, and a foreground escape never equals a background one |
| Fractions.Reduce | imager.py:28-29 | n/d reduced: same value (num*d == den*n), gcd of the result is 1, denominator no larger than d |
| Fractions.LimitDenominator | imager.py:28-29 | d == 0 fails exactly as Fraction(n, 0) does; otherwise it succeeds exactly when n/d in lowest terms has a denominator within the 1 000 000 cap, and then gives that lowest-terms fraction |
| Fractions.LowestTermsUnique | imager.py:28-29 | two coprime fractions with the same value are identical, so the reduced ratio is the one Fraction normalises to |
| Fractions.GcdDivides | imager.py:28-29 | the gcd divides both numbers |
| Fractions.GcdGreatest | imager.py:28-29 | every common divisor divides the gcd |
| ScalePlanner.TargetRows | imager.py:53-59 | the row count is the floor of H*columns/(2W): 2W*rows <= H*columns < 2W*(rows+1) |
| ScalePlanner.ZeroRowsExactly | imager.py:59-70 | the truncated height is zero rows exactly when H*columns < 2W |
| ScalePlanner.Plan | imager.py:46-75 | W == 0 fails, and only then. If W <= columns the plan is W x H with both segments 1. If W > columns: no columns fails; otherwise cols = columns and rows is the floor of the halved aspect. It fails with ZeroRows exactly when H*columns < 2W. Segment times count gives back W and H |
| ScalePlanner.PlanNeverUpscales | imager.py:62-70 | a successful plan has cols <= W and rows <= H; when shrinking, cols < W and 2*rows <= H |
| ScalePlanner.SegmentsAtLeastOne | imager.py:67-70 | each segment covers at least one source pixel along its axis |
| ScalePlanner.ScenarioDownscale | imager.py:53-70 | 800 x 400 on 80 columns gives 80 x 20 characters with segments 800/80 and 400/20 |
| ScalePlanner.ScenarioPassthrough | imager.py:62-66 | 40 x 20 on 80 columns is shown at native size with unit segments |
| ScalePlanner.WideImageHasNoRows | imager.py:59-70 | 4000 x 40 on 80 columns truncates to 0 rows and fails with ZeroRows |
| ScalePlanner.PlanAtLeastOneRow | imager.py:46-75 | the clamped plan succeeds for every positive width and column count; a shrunk image has at least one row, one above the floor at most, and, for a positive H, never more rows than H |
| ScalePlanner.AtLeastOneRowAgrees | imager.py:46-75 | wherever the source's plan succeeds, the clamped plan is the same plan |
| ScalePlanner.AspectRatios | imager.py:27-29 | the report's two ratios are W:H and cols:rows in lowest terms; a zero H fails first, then a zero rows; it succeeds exactly when both reduced denominators are within the cap |
| ScalePlanner.PassthroughKeepsAspect | imager.py:27-29 | at native size the final aspect ratio equals the original one |
| Luminance.GlyphIndex | imager.py:127 | the ramp index i of a byte v lies in 0..9 and is the floor of v*9/255: 255*i <= 9*v < 255*(i+1) |
| Luminance.Glyph | imager.py:127 | every pixel's glyph is one of the ramp's ten glyphs and never a newline |
| Luminance.GlyphIndexMonotone | imager.py:127 | a brighter pixel never gets a sparser glyph |
| Luminance.GlyphLandmarks | imager.py:10 | 0 gives ' ', 255 gives '@', 128 gives index 4, '=' |
| Luminance.Threshold | imager.py:10 | every glyph of the ramp is used: each has a least byte that maps to it, and the byte below maps to the previous glyph |
| Luminance.GlyphIndexUint8 | imager.py:127 | with the uint8 product wrapping mod 256, the index is at most 1, and is 1 exactly when (9v mod 256) == 255 |
| Luminance.Uint8ProductLosesTheRamp | imager.py:127 | with the wrapped product, 255 is drawn blank instead of '@', and 199 is drawn denser than 255 |
| Luminance.ConvertToAscii | imager.py:120-130 | gives exactly rows strings of cols characters each; character [r][k] is the glyph of pixel (r, k) |
| Colour.ConvertToColour | imager.py:92-105 | gives rows lists of cols triples; triple [r][k] is channels 0, 1, 2 of pixel (r, k), and those channels are recovered from it |
| Render.RenderColour | imager.py:153-156 | the colour output is, row by row, each pixel's rgbBG escape, a space and the reset, then a newline |
| Render.RenderAscii | imager.py:158-160 | the ASCII output is each line followed by a newline |
| Render.CellRoundTrip | imager.py:155 | a written cell is read back as its pixel, and the text after it is left untouched |
| Render.RowRoundTrip | imager.py:154-155 | a written row is read back as exactly its pixels, in order |
| Render.RowTextNoNewline | imager.py:154-156 | a colour row's text contains no newline, so each image row is one terminal line |
| Render.SplitTerminatedLines | imager.py:159-160 | lines without newlines, printed one per line, are cut back into the same lines |
| Render.ColourImageRoundTrip | imager.py:153-156 | the whole colour output is read back as exactly the image it was written from |
| Render.AsciiImageRoundTrip | imager.py:158-160 | ASCII output made of ramp glyphs is cut back into exactly its lines |

## Left out

- Image decoding and resampling (`Image.open`, `img.convert`, `img.resize`, `np.array`) are not modelled. Their luma weights and resampling filter are PIL's. The loops take the resized grid as input: a `rows x cols` grid of bytes, or of three-channel pixels in colour mode.
- `os.get_terminal_size()` is an environment query. The column count is a parameter.
- Argument parsing, the "File not found" message, `sys.exit`, `print`, `sys.stdout.write` and `img.close()` are not modelled. Output is modelled as the string the writes would produce.
- The layout of the verbose report text is not modelled. Only its two aspect ratios are (`AspectRatios`). Segments, shown as Python floats in the report, are exact fractions here.
- ScalePlanner.TargetRows: does not model the float product `(H/2)/W * x`. The model uses the exact floor of H*columns/(2W). At rare boundaries where the float rounds below an exact integer, the source can give one row fewer.
- Fractions.LimitDenominator: does not model the best-approximation search `limit_denominator()` runs when the reduced denominator exceeds 1 000 000. That case is reported as `BeyondDenominatorCap` instead of an approximate ratio.
- ScalePlanner.AspectRatios: inherits the same gap when a reduced denominator is beyond the cap.
- Luminance.ConvertToAscii: uses the unbounded product `v * 9`, as the code evidently intends. The uint8 behaviour is modelled separately (`GlyphIndexUint8`, see Findings).
- Decimal.Digits: covers non-negative integers only. Every value formatted here is a pixel channel or a constant.
- The code raises no errors of its own. Only its divisions by zero are modelled.

## Findings

| source | as written | input that shows it | evidently intended | confidence | as-written member | corrected member |
|---|---|---|---|---|---|---|
| imager.py:127 | `int((c[row][col]*9)/255)` with `c[row][col]` a numpy uint8; under NumPy 2 promotion the product stays uint8 and wraps mod 256 | pixel 255: (255*9) mod 256 = 247, index 0, glyph ' ' | index floor(255*9/255) = 9, glyph '@' | medium, not executed; depends on the NumPy version's promotion rules | Luminance.Uint8ProductLosesTheRamp | Luminance.GlyphIndex |
| imager.py:59-70 | `y = int(ratio*x)` is not clamped, then `y_segment = H/y` | W=4000, H=40, columns=80: y = 0, ZeroDivisionError | at least one row for a very wide image | high, not executed | ScalePlanner.WideImageHasNoRows | ScalePlanner.PlanAtLeastOneRow |
