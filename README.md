# Blue filter and A4 tools: the computational core

This project models the arithmetic at the heart of `app.js`, a browser page
with three image tools: export a photo to an A4 PDF, rasterise it onto an
A4-sized canvas (contain or cover), and apply a "blue" colour grade to it.
The following are modelled:

- `applyBlueFilter`: the in-place rewrite of an RGBA pixel buffer. It has a
  "shift" mode that damps red and boosts blue, and a tint mode that blends
  toward (0, 90, 255). The model includes the conversion the
  `Uint8ClampedArray` applies to every stored value: clamp to 0..255, and
  round a half to even.
- `a4Pixels` and `drawFit`: the canvas size for a DPI, and where the picture
  is drawn on it.
- The placement arithmetic of the PDF export: the usable area inside the
  margins, never below 10 mm; the image fitted to it and centred on the page.
- `safeBaseName`: the download name. It strips the extension, removes
  unsafe characters, trims, turns blank runs into `_`, and falls back to
  `image`.
- The unit loop of `formatBytes`.

Modules:

- `Rounding`: `Math.round` and the clamped byte store.
- `BlueFilter`: the pixel transform as a function `Filtered` on byte
  sequences, and `ApplyBlueFilter`. That method rewrites an `array` in
  place with a loop, and is proved to leave exactly `Filtered` of the
  old contents.
- `Geometry`: the A4 size, `drawFit` and the PDF placement, as functions
  on exact reals.
- `FileName`: the steps of `safeBaseName` (three regular-expression
  replacements and `trim`), each a function on strings.
- `ByteSize`: the `formatBytes` loop as a method. It is proved equal to a
  loop-free choice of unit, `UnitIndex`.

Three details of the code's behaviour that are easy to miss:

- A file name loses its extension only when the last `.` is followed by at
  least one character and no `/`. A name such as `.png` is all extension, so
  it becomes `image`.
- In cover mode the offsets are zero or negative. The drawn rectangle covers
  the canvas rather than lying inside it.
- Shift mode stores reals into the clamped array, which rounds a half to
  even. It does not use `Math.round`: red 6 at full strength is stored as 4,
  not 5.

## Model

| member | source | states |
|---|---|---|
| `Rounding.Round` | app.js:77-78 | `Math.round` gives the integer within half a unit of `x`, a half going up |
| `Rounding.Uint8Clamp` | app.js:126-128 | a value stored into the pixel buffer becomes 0 at or below 0, 255 at or above 255, otherwise the nearest integer with a tie going to the even one |
| `Rounding.Uint8ClampMonotone` | app.js:126-128 | the clamped store preserves order |
| `BlueFilter.NormalizeStrength` | app.js:114 | the strength is clamped to 0..100 and scaled to 0..1; inside 0..100 it is exactly strength/100 |
| `BlueFilter.BlendBetween` | app.js:132-134 | before rounding, the tint blend at a strength in 0..1 lies between the old channel value and the tint value |
| `BlueFilter.TintChannel` | app.js:132-134 | a tinted channel lies between its old value and the tint value at any strength in 0..1; it is the old value at strength 0 and the tint value at strength 1 |
| `BlueFilter.ShiftRed` | app.js:123-126 | shift mode never raises red at a non-negative strength, and strength 0 keeps it |
| `BlueFilter.ShiftBlue` | app.js:125-128 | shift mode never lowers blue at a non-negative strength, and strength 0 keeps it |
| `BlueFilter.FilterPixel` | app.js:121-135 | alpha is never changed; strength 0 keeps the pixel in both modes; shift mode keeps green, never raises red and never lowers blue; any other mode at full strength gives (0, 90, 255) |
| `BlueFilter.Filtered` | app.js:116-137 | the filtered buffer has the length of the input |
| `BlueFilter.ApplyBlueFilter` | app.js:107-140 | after the loop the buffer is exactly `Filtered` of its old contents at the normalised strength, and no alpha byte changed |
| `BlueFilter.FilteredPixelAt` | app.js:116-137 | pixel k of the output is the per-pixel transform of pixel k of the input, whatever the other pixels are |
| `BlueFilter.FilteredAppend` | app.js:116-137 | filtering a buffer in two pixel-aligned parts gives the same bytes as filtering it whole, so the order of pixels does not matter |
| `BlueFilter.FilteredKeepsAlpha` | app.js:116-136 | every byte at an index congruent to 3 modulo 4 is unchanged |
| `BlueFilter.FilteredIdentityAtZero` | app.js:114-135 | a strength at or below 0 leaves the buffer unchanged in both modes |
| `BlueFilter.TintedAtFull` | app.js:114-135 | a strength at or above 100 in tint mode makes every pixel (0, 90, 255) with its own alpha |
| `BlueFilter.ShiftedBounds` | app.js:114-128 | for every pixel of the buffer and any requested strength, shift mode keeps green and alpha, never raises red and never lowers blue |
| `BlueFilter.ShiftHalfOnRed` | app.js:121-128 | shift at strength 50 turns (255, 0, 0, 255) into (223, 0, 45, 255) |
| `BlueFilter.ShiftTieToEven` | app.js:123-126 | red 6 at full shift is 4.5 and is stored as 4, where `Math.round` would give 5 |
| `Geometry.A4Pixels` | app.js:73-80 | each A4 side in pixels is 8.27 or 11.69 inches times the DPI, within half a pixel |
| `Geometry.A4PixelsMonotone` | app.js:73-80 | a higher DPI never gives a smaller width or height |
| `Geometry.A4PixelsPortrait` | app.js:73-80 | at a non-negative DPI the sides are non-negative and the width is at most the height |
| `Geometry.A4PixelsExamples` | app.js:73-79 | 300 DPI gives 2481 by 3507, 150 DPI gives 1241 by 1754, 0 DPI gives 0 by 0 |
| `Geometry.FitScale` | app.js:91-93 | the scale is one of the two side ratios: at least both of them in cover mode, at most both of them in any other mode |
| `Geometry.FitAtScale` | app.js:95-99 | each drawn side is within half a pixel of the source side times the scale |
| `Geometry.Centred` | app.js:98-99 | the drawn size is kept, and along each axis the space after the picture is the space before it or one pixel less |
| `Geometry.DrawFit` | app.js:91-99 | both modes keep the aspect ratio up to rounding: each drawn side is within half a pixel of the source side times the common scale |
| `Geometry.ScaledContain` | app.js:91-93 | before rounding, the contain scale fits both sides inside the target and fills it along one axis |
| `Geometry.ScaledCover` | app.js:91-93 | before rounding, the cover scale makes both sides reach the target and matches it along one axis |
| `Geometry.ContainInside` | app.js:91-99 | in any mode other than cover, the drawn rectangle lies inside the canvas at non-negative offsets and spans it along one axis |
| `Geometry.CoverCovers` | app.js:91-99 | in cover mode the drawn rectangle covers the whole canvas, at offsets at most 0, and matches it along one axis |
| `Geometry.A4ContainExample` | app.js:91-99 | an 800 by 600 image contained on the 150-DPI canvas of 1241 by 1754 is drawn 1241 by 931 at (0, 412) |
| `Geometry.PdfPlacement` | app.js:234-253 | the usable area is at least 10 mm each way, and the image has equal space on either side of it on the page, across and down |
| `Geometry.PdfPlacementFits` | app.js:244-251 | the image is positive, lies inside the usable area, fills it along one axis and keeps the source's aspect ratio |
| `Geometry.PdfPlacementRespectsMargins` | app.js:234-253 | when the margins leave at least 10 mm each way, the image lies inside the margins |
| `FileName.TrailingRun` | app.js:161 | the counted suffix holds no `/` or `.`, and the character before it is one of them |
| `FileName.StripExtension` | app.js:161 | the result is a prefix of the name, and when it is shorter a `.` follows it |
| `FileName.StripExtensionMatchesRegex` | app.js:161 | stripping returns the text before the position where `\.[^/.]+$` matches, and the whole name when it matches nowhere |
| `FileName.ExtensionAtUnique` | app.js:161 | the pattern matches at most one position |
| `FileName.RemoveUnsafe` | app.js:162 | only word characters, Arabic letters, `-` and space remain |
| `FileName.RemoveUnsafeCounts` | app.js:162 | each kept character occurs as often as in the input; every other character is gone |
| `FileName.RemoveUnsafeAppend` | app.js:162 | removal distributes over concatenation, so the kept characters stay in order |
| `FileName.RemoveUnsafeOfUnkept` | app.js:162 | a name with no kept character is removed entirely |
| `FileName.TrimStart` | app.js:163 | the result is a suffix of the input, only white space was dropped, and it does not start with white space |
| `FileName.TrimEnd` | app.js:163 | the result is a prefix of the input, only white space was dropped, and it does not end with white space |
| `FileName.Trim` | app.js:163 | the result is no longer than the input and neither starts nor ends with white space |
| `FileName.TrimKeepsKept` | app.js:163 | trimming a name of kept characters leaves a name of kept characters |
| `FileName.UnderscoreWhitespace` | app.js:164 | the result holds no white space |
| `FileName.UnderscoreWhitespaceRun` | app.js:164 | a run of white space between blank-free text and text that does not start blank becomes exactly one `_` |
| `FileName.UnderscoreWhitespaceIdentity` | app.js:164 | a name without white space is unchanged |
| `FileName.SafeBaseName` | app.js:159-166 | the base name is never empty and holds only word characters, Arabic letters and `-` |
| `FileName.SafeBaseNameIsSafe` | app.js:159-166 | in particular the base name holds no `.`, no `/` and no white space |
| `FileName.SafeBaseNameOfSafe` | app.js:159-166 | a non-empty name made only of those characters is its own base name |
| `FileName.SafeBaseNameIdempotent` | app.js:159-166 | applying the function twice gives the result of applying it once |
| `FileName.SafeBaseNameOfEmpty` | app.js:160-165 | the empty name gives `image` |
| `FileName.SafeBaseNameOfNothingKept` | app.js:160-165 | any non-empty name none of whose characters the class `[\w\u0600-\u06FF\- ]` keeps gives `image` |
| `FileName.SafeBaseNameOfPunctuation` | app.js:162-165 | `!!!` gives `image` |
| `FileName.SafeBaseNameOfDotFile` | app.js:161-165 | `.png` is all extension and gives `image` |
| `FileName.SafeBaseNameExample` | app.js:159-166 | `My Photo!!.JPG` gives `My_Photo` |
| `ByteSize.UnitIndex` | app.js:21 | the chosen unit is at most GB; the count is at least one of it unless it is B, and below one of the next unit unless it is GB |
| `ByteSize.UnitIndexUnique` | app.js:21 | only one unit meets those range conditions |
| `ByteSize.Decimals` | app.js:23 | no decimals exactly when the unit is B, two otherwise |
| `ByteSize.ScaleBytes` | app.js:19-23 | the loop stops at the unit `UnitIndex` chooses; the value times that unit's size is the byte count; the label and the number of decimals are those of that unit |
| `ByteSize.ScaledValueRange` | app.js:21-23 | the value shown lies in [1, 1024), except that bytes may be below 1 and gigabytes 1024 or more |
| `ByteSize.ScaleBytesExamples` | app.js:19-23 | 1536 bytes is 1.5 KB, 1023 bytes stays in B, 5120 GB stays in GB |

## Left out

- DOM wiring, event handlers, tool switching, theme, preview and status text: user interface with no computation to model.
- The re-entrant click at app.js:321-324, where export triggers the apply button: user interface.
- Image decoding, canvas drawing, `getImageData`/`putImageData`, `toDataURL`, `canvasToBlob` and downloads: browser services. `ApplyBlueFilter` takes the pixel buffer itself.
- The PDF library: page size and image embedding are external. `PdfPlacement` takes the page width and height in millimetres as inputs.
- The `scale` computed at app.js:240: it is never used.
- `formatBytes`'s `Number.isFinite` check and its `toFixed` text: reals here are always finite, and number formatting is not modelled. `ScaleBytes` returns the value, label and number of decimals that would be printed.
- IEEE doubles: all arithmetic is on exact reals. NaN strengths and rounding error in a product such as 8.27 × 300 are outside the model.
- BlueFilter.ApplyBlueFilter: requires a buffer length divisible by 4, which `ImageData` always has; `Filtered` would leave a trailing partial pixel untouched.
- Geometry.DrawFit: requires positive image sides. A zero-sized image makes the source divide by zero, giving Infinity or NaN, which exact reals cannot express.
- Geometry.PdfPlacement: requires positive image sides, for the same reason.
- FileName.SafeBaseName: a missing (`null`/`undefined`) name is modelled as the empty string. Characters are code points, where JavaScript sees UTF-16 code units. Both halves of a surrogate pair fall outside the kept class, so the result is the same.
