/** A model of the ASCII-art conversion of the photo-filter tool: an RGBA
    pixel buffer, read row by row, becomes a string with one ramp character
    per pixel and a newline after every row. */
module AsciiFilter {

  /** One channel value of a canvas pixel buffer (a Uint8ClampedArray). */
  type Byte = b: int | 0 <= b < 256

  /** The ramp of the filter, densest character first. */
  const Density: string := "Ñ@#W$9876543210?!abc;:+=-,._ "

  /** The pixel buffer returned by getImageData: `width * height` pixels in
      row-major order, four bytes (R, G, B, A) each. */
  datatype ImageData = ImageData(width: nat, height: nat, data: seq<Byte>)
  {
    predicate Valid() {
      |data| == width * height * 4
    }
  }

  // ---------------------------------------------------------------------
  // From a pixel to a character

  /** JavaScript's String.prototype.charAt: the one-character string at
      index `i`, or the empty string when `i` is outside `s`. */
  function CharAt(s: string, i: int): (c: string)
    ensures |c| == 1 <==> 0 <= i < |s|
    ensures |c| == 1 ==> c[0] in s
  {
    if 0 <= i < |s| then [s[i]] else ""
  }

  /** The index of the ramp character for a pixel, for a ramp of `len`
      characters: the brightness (the mean of R, G and B) divided by 255,
      scaled by `len - 1` and rounded down, computed on integers. For a
      non-empty ramp it always selects a ramp character. */
  function CharIndex(r: Byte, g: Byte, b: Byte, len: int): (k: int)
    ensures len >= 1 ==> 0 <= k < len
  {
    if len >= 1 then
      MulMono(r + g + b, 765, len - 1);
      ((r + g + b) * (len - 1)) / 765
    else
      ((r + g + b) * (len - 1)) / 765
  }

  /** The integer form is the floor of the exact rational expression
      `((r + g + b) / 3 / 255) * (len - 1)`. */
  lemma CharIndexIsFloor(r: Byte, g: Byte, b: Byte, len: int)
    ensures CharIndex(r, g, b, len) as real <= (((r + g + b) as real / 3.0) / 255.0) * (len - 1) as real
    ensures (((r + g + b) as real / 3.0) / 255.0) * (len - 1) as real < CharIndex(r, g, b, len) as real + 1.0
  {
    var p := (r + g + b) * (len - 1);
    var k := p / 765;
    assert k * 765 <= p < k * 765 + 765;
    assert (k * 765) as real == k as real * 765.0;
    assert p as real == (r + g + b) as real * (len - 1) as real;
  }

  /** A pixel whose R + G + B is not smaller never gets a smaller index,
      that is, a denser character. */
  lemma CharIndexMonotone(r1: Byte, g1: Byte, b1: Byte, r2: Byte, g2: Byte, b2: Byte, len: int)
    requires len >= 1
    requires r1 + g1 + b1 <= r2 + g2 + b2
    ensures CharIndex(r1, g1, b1, len) <= CharIndex(r2, g2, b2, len)
  {
    MulMono(r1 + g1 + b1, r2 + g2 + b2, len - 1);
    DivMono((r1 + g1 + b1) * (len - 1), (r2 + g2 + b2) * (len - 1));
  }

  /** A black pixel gets the first ramp character, a white pixel the last. */
  lemma CharIndexEndPoints(len: int)
    requires len >= 1
    ensures CharIndex(0, 0, 0, len) == 0
    ensures CharIndex(255, 255, 255, len) == len - 1
  {
  }

  /** With the filter's own ramp, black becomes 'Ñ' and white a space. */
  lemma DensityEndPoints()
    ensures |Density| == 29
    ensures CharAt(Density, CharIndex(0, 0, 0, |Density|)) == "Ñ"
    ensures CharAt(Density, CharIndex(255, 255, 255, |Density|)) == " "
  {
    assert |Density| == 29;
    assert CharAt(Density, 0) == "Ñ" by { assert Density[0] == 'Ñ'; }
    assert CharAt(Density, 28) == " " by { assert Density[28] == ' '; }
    CharIndexEndPoints(29);
  }

  /** With the filter's own ramp (scale factor 28) the exact quotient
      `28 * (r + g + b) / 765` is a whole number only for black and white,
      as 28 and 765 share no factor; everywhere else it stays at least
      1/765 away from the next whole number. */
  lemma RampQuotientWholeOnlyAtEnds(s: int)
    requires 0 <= s <= 765
    ensures (s * 28) % 765 == 0 <==> s == 0 || s == 765
  {
    if (s * 28) % 765 == 0 {
      var k := s * 28 / 765;
      assert s * 28 == 765 * k;
      var t := 25 * s - 683 * k;
      assert s == 765 * t;
    }
  }

  /** The filter's own ramp holds no newline. */
  lemma DensityHasNoNewline()
    ensures '\n' !in Density
  {
  }

  lemma MulMono(a: nat, b: nat, c: nat)
    requires a <= b
    ensures a * c <= b * c
  {
  }

  lemma DivMono(p: nat, q: nat)
    requires p <= q
    ensures p / 765 <= q / 765
  {
  }

  // ---------------------------------------------------------------------
  // Reading the buffer

  /** The offset of the red byte of pixel (x, y) in rows of `width` pixels. */
  function Offset(width: nat, x: nat, y: nat): (o: nat)
    ensures o % 4 == 0
  {
    (y * width + x) * 4
  }

  /** Every pixel of the image has its four bytes inside the buffer. */
  lemma OffsetInBounds(img: ImageData, x: nat, y: nat)
    requires img.Valid() && x < img.width && y < img.height
    ensures Offset(img.width, x, y) + 3 < |img.data|
  {
    var w, h := img.width, img.height;
    assert y * w + x < (y + 1) * w;
    MulMono(y + 1, h, w);
    assert y * w + x < h * w;
    assert (y * w + x) * 4 + 4 <= h * w * 4;
    assert h * w * 4 == w * h * 4;
  }

  /** The text appended for pixel (x, y): its red, green and blue bytes,
      never its alpha byte, select the ramp character. For a non-empty ramp
      that is exactly one character of the ramp. */
  function PixelText(img: ImageData, density: string, x: nat, y: nat): (t: string)
    requires img.Valid() && x < img.width && y < img.height
    ensures |t| <= 1
    ensures |density| >= 1 ==> |t| == 1 && t[0] in density
  {
    OffsetInBounds(img, x, y);
    var i := Offset(img.width, x, y);
    CharAt(density, CharIndex(img.data[i], img.data[i + 1], img.data[i + 2], |density|))
  }

  /** The text of the first `cols` pixels of row `y`: one character per
      pixel for a non-empty ramp. */
  function RowText(img: ImageData, density: string, y: nat, cols: nat): (t: string)
    requires img.Valid() && y < img.height && cols <= img.width
    ensures |t| <= cols
    ensures |density| >= 1 ==> |t| == cols
  {
    if cols == 0 then ""
    else RowText(img, density, y, cols - 1) + PixelText(img, density, cols - 1, y)
  }

  /** A row of a non-empty ramp is `cols` ramp characters, the `x`-th being
      the character of pixel (x, y). */
  lemma {:induction false} RowTextAt(img: ImageData, density: string, y: nat, cols: nat)
    requires img.Valid() && y < img.height && cols <= img.width
    requires |density| >= 1
    ensures |RowText(img, density, y, cols)| == cols
    ensures forall x :: 0 <= x < cols ==>
      [RowText(img, density, y, cols)[x]] == PixelText(img, density, x, y)
    ensures forall x :: 0 <= x < cols ==> RowText(img, density, y, cols)[x] in density
  {
    if cols > 0 {
      RowTextAt(img, density, y, cols - 1);
    }
  }

  /** The rows of the image, top to bottom. */
  function Lines(img: ImageData, density: string): (lines: seq<string>)
    requires img.Valid()
    ensures |lines| == img.height
  {
    seq(img.height, y requires 0 <= y < img.height => RowText(img, density, y, img.width))
  }

  // ---------------------------------------------------------------------
  // Joining the rows

  /** Every line followed by a newline, in order. */
  function Join(lines: seq<string>): (text: string)
    ensures |text| >= |lines|
    ensures lines != [] ==> text[|text| - 1] == '\n'
  {
    if lines == [] then ""
    else Join(lines[..|lines| - 1]) + lines[|lines| - 1] + "\n"
  }

  /** The ASCII-art text of an image: empty exactly when the image has no
      rows, and otherwise ending with the newline of its last row. */
  function AsciiText(img: ImageData, density: string): (text: string)
    requires img.Valid()
    ensures text == "" <==> img.height == 0
    ensures img.height > 0 ==> text[|text| - 1] == '\n'
  {
    Join(Lines(img, density))
  }

  /** The conversion loop of the filter: rows top to bottom, pixels left to
      right, one ramp character per pixel and a newline after every row. */
  method ApplyAsciiFilter(img: ImageData, density: string) returns (asciiStr: string)
    requires img.Valid()
    ensures asciiStr == AsciiText(img, density)
    ensures |density| >= 1 ==> |asciiStr| == img.height * (img.width + 1)
  {
    ghost var lines := Lines(img, density);
    asciiStr := "";
    for y := 0 to img.height
      invariant asciiStr == Join(lines[..y])
    {
      for x := 0 to img.width
        invariant asciiStr == Join(lines[..y]) + RowText(img, density, y, x)
      {
        OffsetInBounds(img, x, y);
        var i := (y * img.width + x) * 4;
        var charIndex := CharIndex(img.data[i], img.data[i + 1], img.data[i + 2], |density|);
        assert i == Offset(img.width, x, y);
        RowTextStep(img, density, y, x);
        asciiStr := asciiStr + CharAt(density, charIndex);
      }
      JoinStep(lines, y);
      asciiStr := asciiStr + "\n";
    }
    assert lines[..img.height] == lines;
    if |density| >= 1 {
      AsciiTextShape(img, density);
    }
  }

  /** One more pixel of a row appends its ramp character. */
  lemma RowTextStep(img: ImageData, density: string, y: nat, x: nat)
    requires img.Valid() && y < img.height && x < img.width
    ensures Offset(img.width, x, y) + 2 < |img.data|
    ensures RowText(img, density, y, x + 1) == RowText(img, density, y, x) +
      CharAt(density, CharIndex(img.data[Offset(img.width, x, y)], img.data[Offset(img.width, x, y) + 1],
                                img.data[Offset(img.width, x, y) + 2], |density|))
  {
    OffsetInBounds(img, x, y);
  }

  /** One more line of a join appends the line and a newline. */
  lemma JoinStep(lines: seq<string>, y: nat)
    requires y < |lines|
    ensures Join(lines[..y + 1]) == Join(lines[..y]) + lines[y] + "\n"
  {
    assert lines[..y + 1][..y] == lines[..y];
  }

  // ---------------------------------------------------------------------
  // The shape of a join

  /** Lines of `width` characters each. */
  predicate AllWidth(lines: seq<string>, width: nat) {
    forall y :: 0 <= y < |lines| ==> |lines[y]| == width
  }

  /** Each line contributes its characters and a newline. */
  lemma {:induction false} JoinLength(lines: seq<string>, width: nat)
    requires AllWidth(lines, width)
    ensures |Join(lines)| == |lines| * (width + 1)
  {
    if lines != [] {
      var n := |lines|;
      JoinLength(lines[..n - 1], width);
      assert (n - 1) * (width + 1) + width + 1 == n * (width + 1);
    }
  }

  /** The join of the first lines is a prefix of the join of all. */
  lemma {:induction false} JoinPrefix(lines: seq<string>, n: nat)
    requires n <= |lines|
    ensures |Join(lines[..n])| <= |Join(lines)|
    ensures Join(lines)[..|Join(lines[..n])|] == Join(lines[..n])
  {
    if n < |lines| {
      var m := |lines| - 1;
      assert lines[..m][..n] == lines[..n];
      JoinPrefix(lines[..m], n);
      assert Join(lines) == Join(lines[..m]) + (lines[m] + "\n");
    } else {
      assert lines[..n] == lines;
    }
  }

  /** Row-major layout: character `x` of line `y` sits at `y * (width + 1) + x`,
      and the newline that ends line `y` at `y * (width + 1) + width`. */
  lemma JoinAt(lines: seq<string>, width: nat, x: nat, y: nat)
    requires AllWidth(lines, width)
    requires y < |lines| && x <= width
    ensures y * (width + 1) + x < |Join(lines)|
    ensures x < width ==> Join(lines)[y * (width + 1) + x] == lines[y][x]
    ensures x == width ==> Join(lines)[y * (width + 1) + x] == '\n'
  {
    var upTo, before := Join(lines[..y + 1]), Join(lines[..y]);
    JoinPrefix(lines, y + 1);
    assert lines[..y + 1][..y] == lines[..y];
    assert upTo == before + lines[y] + "\n";
    JoinLength(lines[..y], width);
    assert |before| == y * (width + 1);
    var j := |before| + x;
    assert Join(lines)[j] == upTo[j];
  }

  /** Each position of a join is read off from its line `k / (width + 1)`
      and column `k % (width + 1)`. */
  lemma JoinAtPosition(lines: seq<string>, width: nat, k: nat)
    requires AllWidth(lines, width)
    requires k < |Join(lines)|
    ensures k / (width + 1) < |lines|
    ensures k % (width + 1) == width ==> Join(lines)[k] == '\n'
    ensures k % (width + 1) < width ==> Join(lines)[k] == lines[k / (width + 1)][k % (width + 1)]
  {
    var y, x := k / (width + 1), k % (width + 1);
    JoinLength(lines, width);
    LineAndColumn(k, width, |lines|);
    JoinAt(lines, width, x, y);
  }

  /** A position below `h` lines of `w + 1` characters is on one of them. */
  lemma LineAndColumn(k: nat, w: nat, h: nat)
    requires k < h * (w + 1)
    ensures k / (w + 1) < h
    ensures k == k / (w + 1) * (w + 1) + k % (w + 1)
  {
    var y := k / (w + 1);
    if h <= y {
      MulMono(h, y, w + 1);
      assert false;
    }
  }

  /** The number of occurrences of `c` in `s`. */
  function Count(s: string, c: char): (n: nat)
    ensures n <= |s|
  {
    if s == [] then 0 else Count(s[..|s| - 1], c) + (if s[|s| - 1] == c then 1 else 0)
  }

  lemma {:induction false} CountConcat(s: string, t: string, c: char)
    ensures Count(s + t, c) == Count(s, c) + Count(t, c)
  {
    if t != [] {
      assert (s + t)[..|s + t| - 1] == s + t[..|t| - 1];
      CountConcat(s, t[..|t| - 1], c);
    } else {
      assert s + t == s;
    }
  }

  lemma {:induction false} CountAbsent(s: string, c: char)
    requires c !in s
    ensures Count(s, c) == 0
  {
    if s != [] {
      CountAbsent(s[..|s| - 1], c);
    }
  }

  /** Lines without newlines join into a text with one newline per line. */
  lemma {:induction false} JoinNewlines(lines: seq<string>)
    requires forall y :: 0 <= y < |lines| ==> '\n' !in lines[y]
    ensures Count(Join(lines), '\n') == |lines|
  {
    if lines != [] {
      var m := |lines| - 1;
      JoinNewlines(lines[..m]);
      CountAbsent(lines[m], '\n');
      CountConcat(Join(lines[..m]), lines[m], '\n');
      CountConcat(Join(lines[..m]) + lines[m], "\n", '\n');
      assert "\n"[..0] == [];
    }
  }

  // ---------------------------------------------------------------------
  // The shape of the ASCII-art text

  /** With a non-empty ramp every line has `width` ramp characters. */
  lemma LinesShape(img: ImageData, density: string)
    requires img.Valid() && |density| >= 1
    ensures |Lines(img, density)| == img.height
    ensures AllWidth(Lines(img, density), img.width)
    ensures forall y, x :: 0 <= y < img.height && 0 <= x < img.width ==>
      Lines(img, density)[y][x] in density
  {
    var lines := Lines(img, density);
    forall y | 0 <= y < img.height
      ensures |lines[y]| == img.width
      ensures forall x :: 0 <= x < img.width ==> lines[y][x] in density
    {
      RowTextAt(img, density, y, img.width);
    }
  }

  /** The text has `height` lines of `width + 1` characters. */
  lemma AsciiTextShape(img: ImageData, density: string)
    requires img.Valid() && |density| >= 1
    ensures |AsciiText(img, density)| == img.height * (img.width + 1)
  {
    LinesShape(img, density);
    JoinLength(Lines(img, density), img.width);
  }

  /** Row-major correspondence: character `x` of line `y` is the ramp
      character of the pixel at offset `(y * width + x) * 4`, and every line
      ends with a newline. */
  lemma AsciiTextAt(img: ImageData, density: string, x: nat, y: nat)
    requires img.Valid() && |density| >= 1
    requires x <= img.width && y < img.height
    ensures y * (img.width + 1) + x < |AsciiText(img, density)|
    ensures x < img.width ==>
      [AsciiText(img, density)[y * (img.width + 1) + x]] == PixelText(img, density, x, y)
    ensures x == img.width ==> AsciiText(img, density)[y * (img.width + 1) + x] == '\n'
  {
    var lines := Lines(img, density);
    LinesShape(img, density);
    JoinAt(lines, img.width, x, y);
    if x < img.width {
      RowTextAt(img, density, y, img.width);
    }
  }

  /** Every character of the text is a ramp character or a newline; when the
      ramp holds no newline, position `k` is a newline exactly when it ends a
      line. */
  lemma AsciiTextCharacters(img: ImageData, density: string, k: nat)
    requires img.Valid() && |density| >= 1
    requires k < |AsciiText(img, density)|
    ensures AsciiText(img, density)[k] in density || AsciiText(img, density)[k] == '\n'
    ensures '\n' !in density ==>
      (AsciiText(img, density)[k] == '\n' <==> k % (img.width + 1) == img.width)
  {
    LinesShape(img, density);
    JoinCharacters(Lines(img, density), img.width, density, k);
  }

  /** A join of lines over `alphabet` holds only characters of `alphabet`
      and newlines, the newlines at the ends of the lines. */
  lemma JoinCharacters(lines: seq<string>, width: nat, alphabet: string, k: nat)
    requires AllWidth(lines, width)
    requires forall y, x :: 0 <= y < |lines| && 0 <= x < width ==> lines[y][x] in alphabet
    requires k < |Join(lines)|
    ensures Join(lines)[k] in alphabet || Join(lines)[k] == '\n'
    ensures '\n' !in alphabet ==> (Join(lines)[k] == '\n' <==> k % (width + 1) == width)
  {
    var y, x := k / (width + 1), k % (width + 1);
    JoinAtPosition(lines, width, k);
    if x < width {
      assert Join(lines)[k] == lines[y][x];
    }
  }

  /** When the ramp holds no newline the text holds exactly `height`
      newlines, and a non-empty text ends with one. */
  lemma AsciiTextNewlines(img: ImageData, density: string)
    requires img.Valid() && |density| >= 1 && '\n' !in density
    ensures Count(AsciiText(img, density), '\n') == img.height
    ensures img.height > 0 ==> AsciiText(img, density)[|AsciiText(img, density)| - 1] == '\n'
  {
    var lines := Lines(img, density);
    LinesShape(img, density);
    forall y | 0 <= y < |lines| ensures '\n' !in lines[y] {
      RowTextAt(img, density, y, img.width);
    }
    JoinNewlines(lines);
  }

  /** The filter's own ramp: the text of an image has `height` lines of
      `width` ramp characters and a newline each, so exactly `height`
      newlines, each at the end of a line. */
  lemma ConcreteRampText(img: ImageData)
    requires img.Valid()
    ensures |AsciiText(img, Density)| == img.height * (img.width + 1)
    ensures Count(AsciiText(img, Density), '\n') == img.height
    ensures forall k :: 0 <= k < |AsciiText(img, Density)| ==>
      (AsciiText(img, Density)[k] == '\n' <==> k % (img.width + 1) == img.width)
    ensures forall k :: 0 <= k < |AsciiText(img, Density)| ==>
      AsciiText(img, Density)[k] in Density || AsciiText(img, Density)[k] == '\n'
  {
    DensityEndPoints();
    DensityHasNoNewline();
    AsciiTextShape(img, Density);
    AsciiTextNewlines(img, Density);
    forall k | 0 <= k < |AsciiText(img, Density)|
      ensures AsciiText(img, Density)[k] == '\n' <==> k % (img.width + 1) == img.width
      ensures AsciiText(img, Density)[k] in Density || AsciiText(img, Density)[k] == '\n'
    {
      AsciiTextCharacters(img, Density, k);
    }
  }

  // ---------------------------------------------------------------------
  // The alpha byte is never read

  /** Two images of the same size whose buffers differ at most in alpha
      bytes, the offsets congruent to 3 modulo 4. */
  predicate SameColours(img1: ImageData, img2: ImageData) {
    && img1.width == img2.width && img1.height == img2.height
    && |img1.data| == |img2.data|
    && forall i :: 0 <= i < |img1.data| && i % 4 != 3 ==> img1.data[i] == img2.data[i]
  }

  lemma PixelTextIgnoresAlpha(img1: ImageData, img2: ImageData, density: string, x: nat, y: nat)
    requires img1.Valid() && img2.Valid() && SameColours(img1, img2)
    requires x < img1.width && y < img1.height
    ensures PixelText(img1, density, x, y) == PixelText(img2, density, x, y)
  {
    OffsetInBounds(img1, x, y);
    var i := Offset(img1.width, x, y);
    ColourBytes(i);
    assert img1.data[i] == img2.data[i];
    assert img1.data[i + 1] == img2.data[i + 1];
    assert img1.data[i + 2] == img2.data[i + 2];
  }

  /** The red, green and blue bytes of a pixel are not alpha bytes. */
  lemma ColourBytes(i: int)
    requires i % 4 == 0
    ensures i % 4 != 3 && (i + 1) % 4 != 3 && (i + 2) % 4 != 3
  {
  }

  lemma {:induction false} RowTextIgnoresAlpha(img1: ImageData, img2: ImageData, density: string, y: nat, cols: nat)
    requires img1.Valid() && img2.Valid() && SameColours(img1, img2)
    requires y < img1.height && cols <= img1.width
    ensures RowText(img1, density, y, cols) == RowText(img2, density, y, cols)
  {
    if cols > 0 {
      RowTextIgnoresAlpha(img1, img2, density, y, cols - 1);
      PixelTextIgnoresAlpha(img1, img2, density, cols - 1, y);
    }
  }

  /** Changing only alpha bytes never changes the ASCII-art text. */
  lemma AsciiTextIgnoresAlpha(img1: ImageData, img2: ImageData, density: string)
    requires img1.Valid() && img2.Valid() && SameColours(img1, img2)
    ensures AsciiText(img1, density) == AsciiText(img2, density)
  {
    forall y | 0 <= y < img1.height
      ensures Lines(img1, density)[y] == Lines(img2, density)[y]
    {
      RowTextIgnoresAlpha(img1, img2, density, y, img1.width);
    }
    assert Lines(img1, density) == Lines(img2, density);
  }
}
