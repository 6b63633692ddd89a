# ASCII-art filter of the image-filter tool

The photo-filter tool has an ASCII-art filter, `applyAsciiFilter`. It draws
the uploaded image onto a small canvas and reads the canvas back as an RGBA
pixel buffer. The buffer is then turned into text. Each pixel's brightness,
the mean of its red, green and blue bytes, picks one character from a
29-character density ramp that runs from `'Ñ'` (densest) to a space. The
characters are appended row by row, and each row ends with a newline.

This project models that conversion in Dafny (`ascii_filter.dfy`, module
`AsciiFilter`):

- `ImageData` is the buffer returned by `getImageData`: `width`, `height` and
  `data`, a sequence of bytes (`Byte`, 0..255, as in a `Uint8ClampedArray`).
  `Valid()` says `|data| == width * height * 4`.
- `CharIndex` is the index of a pixel's character. It uses the integer form
  `((r + g + b) * (len - 1)) / 765`. `CharAt` is JavaScript's `charAt`, which
  returns `""` for an index off the string.
- `ApplyAsciiFilter` is the nested `for` loop, an imperative method that
  appends to `asciiStr`. It is proved equal to the pure specification
  `AsciiText`. That specification is written in two layers. `RowText` and
  `Lines` give the text of each row. `Join` puts a newline after every line.
- The ramp is a parameter `density`, and the method puts no condition on it.
  `Density` is the filter's own ramp. The properties that need a non-empty
  ramp say so.

## Model

| member | source | states |
|---|---|---|
| `AsciiFilter.CharAt` | application/script.js:25 | JavaScript's `charAt`: one character exactly when the index lies inside the string, and that character is taken from the string; otherwise the empty string. |
| `AsciiFilter.CharIndex` | application/script.js:23-24 | The index picked for a pixel: brightness `(r+g+b)/3` over 255, scaled by `len - 1` and rounded down, computed in integers as `((r+g+b)*(len-1)) / 765`. For a non-empty ramp it lies in `0 .. len-1`, so `charAt` never falls off the ramp. |
| `AsciiFilter.CharIndexIsFloor` | application/script.js:23-24 | The integer index is the floor of the exact rational `((r+g+b)/3/255) * (len-1)`. |
| `AsciiFilter.CharIndexMonotone` | application/script.js:23-24 | A pixel whose R+G+B is not smaller never gets a smaller index, so it never gets a denser character. |
| `AsciiFilter.CharIndexEndPoints` | application/script.js:24 | For any non-empty ramp, black (0,0,0) gets index 0 and white (255,255,255) gets index `len - 1`. |
| `AsciiFilter.DensityEndPoints` | application/script.js:3-4 | The ramp has 29 characters. A black pixel gets `'Ñ'` and a white pixel gets a space. |
| `AsciiFilter.RampQuotientWholeOnlyAtEnds` | application/script.js:24 | With the 29-character ramp, `28 * (r+g+b) / 765` is a whole number exactly when the pixel is black or white. |
| `AsciiFilter.DensityHasNoNewline` | application/script.js:4 | The filter's ramp has no newline, so the newline properties apply to it. |
| `AsciiFilter.Offset` | application/script.js:22 | The offset `(y*width + x)*4` of a pixel's red byte. It is always a multiple of 4, the start of a pixel. |
| `AsciiFilter.OffsetInBounds` | application/script.js:22-23 | For every `x < width` and `y < height`, the offset and the next three bytes lie inside the buffer. |
| `AsciiFilter.PixelText` | application/script.js:22-25 | The text appended for pixel `(x, y)`: the ramp character its red, green and blue bytes select. It is at most one character, and for a non-empty ramp exactly one character of the ramp. |
| `AsciiFilter.RowText` | application/script.js:21-26 | The text of the first `cols` pixels of row `y`, left to right. It has at most `cols` characters, and exactly `cols` for a non-empty ramp. |
| `AsciiFilter.RowTextStep` | application/script.js:21-25 | One more pass of the inner loop appends the character of the pixel at offset `(y*width + x)*4`, whose bytes lie inside the buffer. |
| `AsciiFilter.RowTextAt` | application/script.js:21-26 | The first `cols` pixels of a row give `cols` ramp characters. Character `x` is pixel `x`'s. |
| `AsciiFilter.Lines` | application/script.js:20-26 | The rows of the image, top to bottom. There are exactly `height` of them. |
| `AsciiFilter.Join` | application/script.js:20-28 | Every line followed by a newline, in order. The text is at least as long as the number of lines and, when there is a line, ends with a newline. |
| `AsciiFilter.JoinStep` | application/script.js:20-27 | One more pass of the outer loop appends the row's text and a newline. |
| `AsciiFilter.AsciiText` | application/script.js:19-28 | The whole ASCII-art text. It is empty exactly when the image has no rows, and otherwise ends with the newline of the last row. |
| `AsciiFilter.ApplyAsciiFilter` | application/script.js:19-28 | The loop's result is exactly `AsciiText(img, density)`: rows top to bottom, pixels left to right, a newline after each row. For a non-empty ramp its length is `height * (width + 1)`. |
| `AsciiFilter.JoinLength` | application/script.js:20-28 | Lines that are each `width` long join to `|lines| * (width + 1)` characters. |
| `AsciiFilter.JoinPrefix` | application/script.js:19-28 | Joining the first `n` lines gives a prefix of joining all lines. The text only grows by appending. |
| `AsciiFilter.JoinAt` | application/script.js:20-27 | In a join of lines of width `width`, character `x` of line `y` is at `y*(width+1) + x`. The newline ending line `y` is at `y*(width+1) + width`. |
| `AsciiFilter.JoinAtPosition` | application/script.js:20-27 | Any position `k` of the join lies on line `k / (width+1)`. It is that line's newline when `k % (width+1) == width`, and otherwise that line's character at column `k % (width+1)`. |
| `AsciiFilter.JoinCharacters` | application/script.js:20-27 | A join of lines drawn from an alphabet holds only that alphabet's characters and newlines. When the alphabet has no newline, position `k` is a newline exactly when `k % (width+1) == width`. |
| `AsciiFilter.JoinNewlines` | application/script.js:27 | Lines with no newline in them join to a text with exactly one newline per line. |
| `AsciiFilter.LinesShape` | application/script.js:20-26 | For a non-empty ramp there are `height` lines. Each holds `width` ramp characters. |
| `AsciiFilter.AsciiTextShape` | application/script.js:20-28 | The whole text has `height * (width + 1)` characters. |
| `AsciiFilter.AsciiTextAt` | application/script.js:20-27 | Row-major correspondence: character `x` of line `y` is the ramp character for the pixel at offset `(y*width + x)*4`. Position `width` of every line is `'\n'`. |
| `AsciiFilter.AsciiTextCharacters` | application/script.js:24-27 | Every character of the text is a ramp character or a newline. When the ramp has no newline, position `k` holds a newline if and only if `k % (width+1) == width`. |
| `AsciiFilter.AsciiTextNewlines` | application/script.js:20-27 | When the ramp has no newline, the text holds exactly `height` newlines. A text of at least one row ends with a newline. |
| `AsciiFilter.ConcreteRampText` | application/script.js:4-28 | With the filter's own ramp, the text has `height * (width + 1)` characters and exactly `height` newlines. Each newline sits at the end of a line, and every other character is a ramp character. |
| `AsciiFilter.PixelTextIgnoresAlpha` | application/script.js:22-24 | A pixel's character depends only on bytes `i`, `i+1` and `i+2`, never on alpha byte `i+3`. |
| `AsciiFilter.RowTextIgnoresAlpha` | application/script.js:21-26 | Buffers that differ only at offsets ≡ 3 (mod 4) give the same row text. |
| `AsciiFilter.AsciiTextIgnoresAlpha` | application/script.js:20-28 | Buffers that differ only at offsets ≡ 3 (mod 4) give the same ASCII-art text. |

Helper lemmas that model no line of the filter have no row: `MulMono` and
`DivMono` (monotonicity of products and quotients), `LineAndColumn` (the
division-remainder split of a position), `ColourBytes` (remainders modulo 4),
and the counting function `Count` with `CountConcat` and `CountAbsent`.

## Left out

- Canvas creation, `drawImage` scaling and `getImageData` (script.js lines 5-16) are browser calls. The scaled image comes in as the `ImageData` argument. Its length invariant `|data| == width * height * 4` is what `getImageData` guarantees, and it is the one precondition of `ApplyAsciiFilter`.
- An image with no rows is handled differently. When the picture is more than 60 times as wide as it is tall, the canvas height at line 12 truncates to 0. `getImageData` at line 16 then throws an `IndexSizeError` before the loop runs, so `asciiStr` is never built and the previous output stays on screen. The model takes every `ImageData` that satisfies `Valid()`, including `height == 0`. For that input `ApplyAsciiFilter` returns the empty text (`AsciiText` is `""` exactly when `height == 0`) instead of raising an error.
- The fixed width of 120 and the height `originalImage.height * scale * 0.5` are left out. The height relies on the canvas truncating a float. `width` and `height` are free natural numbers here.
- The DOM output and styling are left out (`textContent`, `clientWidth`, font size and line height, lines 29-37). They are UI work with floating-point pixel sizes.
- IEEE-754 rounding of `avg / 3`, `/ 255` and `* (density.length - 1)` before `Math.floor` is not modelled. `CharIndex` computes the exact rational value, and `CharIndexIsFloor` ties that value to the JavaScript formula over the reals. The two readings are taken to agree for the filter's ramp. `RampQuotientWholeOnlyAtEnds` shows that the exact value is a whole number only at the two end points, and at those the float steps are exact (0 and 255/255·28 = 28). Everywhere else the exact value is at least 1/765 from a whole number, which is far more than a double's rounding error. This argument about floats is not itself proved in Dafny.
- Dafny's `/` on integers rounds down for a positive divisor. So `CharIndex` also matches `Math.floor` for an empty ramp, where the factor `len - 1` is negative. With an empty ramp, `CharAt` then appends `""`.
- `Density` is a Dafny string, a sequence of code points. JavaScript's `density.length` counts UTF-16 code units. The two agree here, because `'Ñ'` (U+00D1) is a single code unit.
- No Unicode handling beyond that is modelled.
