/**
  The QR ticket image (`PPMImage` and `parse_ppm_to_photoimage`): a square pixel
  buffer that starts white, has one black box painted per dark QR module, is
  written out as a plain-text Netpbm "P3" pixmap, and is read back into a black
  and white picture. A file is modelled by the lines `readlines()` returns for it,
  each with its newline.
 */
module Ppm {
  import opened Options
  import opened Text

  // ----- the text `save` writes -----

  /** The RGB line `save` writes for one pixel value. */
  function ColorLine(v: int): string {
    if v == 0 then "0 0 0\n" else "255 255 255\n"
  }

  /** The three header lines: the magic number, the size and the maximum value. */
  function Header(n: int): seq<string> {
    ["P3\n", IntToString(n) + " " + IntToString(n) + "\n", "255\n"]
  }

  /** One RGB line per value, in order. */
  function ColorLines(vs: seq<int>): (ls: seq<string>)
    ensures |ls| == |vs|
  {
    if vs == [] then [] else ColorLines(vs[..|vs| - 1]) + [ColorLine(vs[|vs| - 1])]
  }

  /** The rows of a grid one after the other (row-major order). */
  function Flatten(g: seq<seq<int>>): seq<int> {
    if g == [] then [] else Flatten(g[..|g| - 1]) + g[|g| - 1]
  }

  /** The lines of the file `save` writes for an `n` by `n` grid. */
  function SaveLines(n: int, g: seq<seq<int>>): seq<string> {
    Header(n) + ColorLines(Flatten(g))
  }

  /** One more value of a row adds its RGB line. */
  lemma ColorLinesSnoc(done: seq<int>, row: seq<int>, c: nat)
    requires c < |row|
    ensures ColorLines(done + row[..c + 1]) == ColorLines(done + row[..c]) + [ColorLine(row[c])]
  {
    var u := done + row[..c + 1];
    assert u[..|u| - 1] == done + row[..c];
  }

  /** One more row of a grid appends its values. */
  lemma FlattenSnoc(g: seq<seq<int>>, r: nat)
    requires r < |g|
    ensures Flatten(g[..r + 1]) == Flatten(g[..r]) + g[r][..|g[r]|]
  {
    assert g[..r + 1][..r] == g[..r];
    assert g[r][..|g[r]|] == g[r];
  }

  // ----- the pixel buffer -----

  /** Whether pixel (`r`, `c`) lies in the box of module (`row`, `col`). */
  predicate InBox(boxSize: nat, row: nat, col: nat, r: int, c: int) {
    row * boxSize <= r < row * boxSize + boxSize && col * boxSize <= c < col * boxSize + boxSize
  }

  lemma MulMonotone(a: nat, b: nat, k: nat)
    requires a <= b
    ensures a * k <= b * k
  {
    assert b * k - a * k == (b - a) * k;
  }

  /** A module of the grid has its box inside the buffer. */
  lemma BoxInside(width: nat, boxSize: nat, row: nat, i: nat)
    requires row < width && i < boxSize
    ensures row * boxSize + i < width * boxSize
  {
    MulMonotone(row + 1, width, boxSize);
  }

  class PpmImage {
    const border: int
    const width: nat
    const boxSize: nat
    const pixelSize: nat
    /** `pixels[r, c]`: 255 for white, 0 for black. */
    const pixels: array2<int>

    ghost predicate Valid()
      reads this, pixels
    {
      && pixelSize == width * boxSize
      && pixels.Length0 == pixelSize && pixels.Length1 == pixelSize
      && forall r, c :: 0 <= r < pixelSize && 0 <= c < pixelSize ==> pixels[r, c] == 0 || pixels[r, c] == 255
    }

    /** The buffer as rows of values. */
    ghost function Grid(): (g: seq<seq<int>>)
      reads this, pixels
      requires pixels.Length0 == pixelSize && pixels.Length1 == pixelSize
      ensures |g| == pixelSize && forall r :: 0 <= r < pixelSize ==> |g[r]| == pixelSize
      ensures forall r, c :: 0 <= r < pixelSize && 0 <= c < pixelSize ==> g[r][c] == pixels[r, c]
    {
      seq(pixelSize, r reads pixels requires 0 <= r < pixels.Length0 =>
        seq(pixelSize, c reads pixels requires 0 <= c < pixels.Length1 => pixels[r, c]))
    }

    /** `PPMImage(border, width, box_size)`: a white `width * box_size` square. */
    constructor (border: int, width: nat, boxSize: nat)
      ensures Valid() && fresh(pixels)
      ensures this.border == border && this.width == width && this.boxSize == boxSize
      ensures pixelSize == width * boxSize
      ensures forall r, c :: 0 <= r < pixelSize && 0 <= c < pixelSize ==> pixels[r, c] == 255
    {
      this.border := border;
      this.width := width;
      this.boxSize := boxSize;
      pixelSize := width * boxSize;
      pixels := new int[width * boxSize, width * boxSize]((r, c) => 255);
    }

    /** `drawrect(row, col)`: paints the box of module (`row`, `col`) black and
        leaves every other pixel as it was. */
    method DrawRect(row: nat, col: nat)
      requires Valid() && row < width && col < width
      modifies pixels
      ensures Valid()
      ensures forall r, c :: 0 <= r < pixelSize && 0 <= c < pixelSize ==>
        pixels[r, c] == if InBox(boxSize, row, col, r, c) then 0 else old(pixels[r, c])
    {
      var top, left := row * boxSize, col * boxSize;
      for i := 0 to boxSize
        invariant forall r, c :: 0 <= r < pixelSize && 0 <= c < pixelSize ==>
          pixels[r, c] == if top <= r < top + i && left <= c < left + boxSize then 0 else old(pixels[r, c])
      {
        BoxInside(width, boxSize, row, i);
        for j := 0 to boxSize
          invariant forall r, c :: 0 <= r < pixelSize && 0 <= c < pixelSize ==>
            pixels[r, c] ==
              if (top <= r < top + i && left <= c < left + boxSize) || (r == top + i && left <= c < left + j) then 0
              else old(pixels[r, c])
        {
          BoxInside(width, boxSize, col, j);
          pixels[top + i, left + j] := 0;
        }
      }
    }

    /** `save`: the lines of the file, the header and then one RGB line per pixel
        in row-major order. */
    method Save() returns (lines: seq<string>)
      requires Valid()
      ensures lines == SaveLines(pixelSize, Grid())
    {
      ghost var g := Grid();
      lines := Header(pixelSize);
      for r := 0 to pixelSize
        invariant lines == Header(pixelSize) + ColorLines(Flatten(g[..r]))
      {
        assert Flatten(g[..r]) + g[r][..0] == Flatten(g[..r]);
        for c := 0 to pixelSize
          invariant lines == Header(pixelSize) + ColorLines(Flatten(g[..r]) + g[r][..c])
        {
          ColorLinesSnoc(Flatten(g[..r]), g[r], c);
          lines := lines + [ColorLine(pixels[r, c])];
        }
        FlattenSnoc(g, r);
      }
      assert g[..pixelSize] == g;
    }
  }

  // ----- reading the file back -----

  /** The decoded image: `black[y][x]` for the pixel in row `y`, column `x`. */
  datatype Picture = Picture(width: int, height: int, black: seq<seq<bool>>)

  /** `map(parse, tokens)` collected into a list: `None` as soon as one token
      does not parse. */
  function MapAll(parse: string -> Option<int>, tokens: seq<string>): (r: Option<seq<int>>)
    ensures r.Some? ==> |r.value| == |tokens|
  {
    if tokens == [] then Some([])
    else
      var a := MapAll(parse, tokens[..|tokens| - 1]);
      var v := parse(tokens[|tokens| - 1]);
      if a.Some? && v.Some? then Some(a.value + [v.value]) else None
  }

  /** `map(int, tokens)`. */
  function Ints(tokens: seq<string>): Option<seq<int>> {
    MapAll(PyInt, tokens)
  }

  /** The whitespace-separated tokens of a line. */
  function LineTokens(line: string): seq<string> {
    Words(Strip(line))
  }

  /** Every token of the lines, in order, whatever line it is on. */
  function Tokens(lines: seq<string>): seq<string> {
    if lines == [] then [] else Tokens(lines[..|lines| - 1]) + LineTokens(lines[|lines| - 1])
  }

  /** The pixel loop: each line's tokens converted and appended in turn. */
  function PixelValues(lines: seq<string>): Option<seq<int>> {
    if lines == [] then Some([])
    else
      var a := PixelValues(lines[..|lines| - 1]);
      var b := Ints(LineTokens(lines[|lines| - 1]));
      if a.Some? && b.Some? then Some(a.value + b.value) else None
  }

  /** The triple of pixel (`x`, `y`) lies inside a `w * h * 3` value list. */
  lemma TripleInside(w: nat, h: nat, x: nat, y: nat)
    requires x < w && y < h
    ensures 0 <= (y * w + x) * 3 && (y * w + x) * 3 + 2 < w * h * 3
  {
    CellInside(w, h, x, y);
  }

  /** Cell (`x`, `y`) of a `w` by `h` grid lies inside its row-major list. */
  lemma CellInside(w: nat, h: nat, x: nat, y: nat)
    requires x < w && y < h
    ensures 0 <= y * w + x < w * h
  {
    MulMonotone(y + 1, h, w);
  }

  /** The picture the conversion loop builds: a pixel is black exactly when its
      three values are all zero. */
  function Decode(w: nat, h: nat, px: seq<int>): (b: seq<seq<bool>>)
    requires |px| == w * h * 3
    ensures |b| == h && forall y :: 0 <= y < h ==> |b[y]| == w
  {
    seq(h, y requires 0 <= y < h =>
      seq(w, x requires 0 <= x < w =>
        TripleInside(w, h, x, y);
        var i := (y * w + x) * 3;
        px[i] == 0 && px[i + 1] == 0 && px[i + 2] == 0))
  }

  /** `parse_ppm_to_photoimage` on the file's lines; `None` wherever it raises:
      a missing line, a magic number other than P3, a size line that is not two
      integers, a maximum value other than 255, a token that is not an integer,
      a value count other than `width * height * 3`, or a negative size, which
      `PhotoImage` refuses. */
  function ParsePpm(lines: seq<string>): Option<Picture> {
    if |lines| == 0 || Strip(lines[0]) != "P3" then None
    else if |lines| < 3 then None
    else
      var dims := Words(Strip(lines[1]));
      var maxval := PyInt(Strip(lines[2]));
      var px := PixelValues(lines[3..]);
      if |dims| != 2 || PyInt(dims[0]).None? || PyInt(dims[1]).None? then None
      else if maxval.None? || maxval.value != 255 then None
      else if px.None? then None
      else
        var w, h := PyInt(dims[0]).value, PyInt(dims[1]).value;
        if |px.value| != w * h * 3 then None
        else if w < 0 || h < 0 then None
        else Some(Picture(w, h, Decode(w, h, px.value)))
  }

  // ----- properties of the parser -----

  /** Converting two token lists one after the other is converting their
      concatenation. */
  lemma {:induction false} MapAllAppend(parse: string -> Option<int>, a: seq<string>, b: seq<string>)
    ensures MapAll(parse, a + b).Some? <==> MapAll(parse, a).Some? && MapAll(parse, b).Some?
    ensures MapAll(parse, a + b).Some? ==> MapAll(parse, a + b).value == MapAll(parse, a).value + MapAll(parse, b).value
    decreases |b|
  {
    if b == [] {
      assert a + b == a;
    } else {
      var b' := b[..|b| - 1];
      assert (a + b)[..|a + b| - 1] == a + b';
      assert (a + b)[|a + b| - 1] == b[|b| - 1];
      MapAllAppend(parse, a, b');
      if MapAll(parse, a + b).Some? {
        assert MapAll(parse, a).value + MapAll(parse, b).value
          == MapAll(parse, a).value + MapAll(parse, b').value + [parse(b[|b| - 1]).value];
      }
    }
  }

  /** The pixel values depend only on the tokens, not on how they are spread over
      lines. */
  lemma {:induction false} PixelValuesByTokens(lines: seq<string>)
    ensures PixelValues(lines) == Ints(Tokens(lines))
  {
    if lines != [] {
      PixelValuesByTokens(lines[..|lines| - 1]);
      MapAllAppend(PyInt, Tokens(lines[..|lines| - 1]), LineTokens(lines[|lines| - 1]));
    }
  }

  /** Two files with the same header and the same pixel tokens read the same. */
  lemma LayoutIndependent(header: seq<string>, a: seq<string>, b: seq<string>)
    requires |header| == 3 && Tokens(a) == Tokens(b)
    ensures ParsePpm(header + a) == ParsePpm(header + b)
  {
    assert (header + a)[3..] == a && (header + b)[3..] == b;
    assert (header + a)[..3] == header == (header + b)[..3];
    PixelValuesByTokens(a);
    PixelValuesByTokens(b);
  }

  /** The header checks: any file whose magic number is not P3, or whose maximum
      value is not 255, is refused; an accepted file has exactly
      `width * height * 3` pixel values and rows of its width. */
  lemma ParseChecks(lines: seq<string>)
    ensures |lines| == 0 || Strip(lines[0]) != "P3" ==> ParsePpm(lines) == None
    ensures |lines| >= 3 && (PyInt(Strip(lines[2])).None? || PyInt(Strip(lines[2])).value != 255) ==>
      ParsePpm(lines) == None
    ensures ParsePpm(lines).Some? ==>
      var p := ParsePpm(lines).value;
      && |lines| >= 3 && 0 <= p.width && 0 <= p.height
      && Ints(Tokens(lines[3..])).Some? && |Ints(Tokens(lines[3..])).value| == p.width * p.height * 3
      && p.black == Decode(p.width, p.height, Ints(Tokens(lines[3..])).value)
  {
    if |lines| >= 3 {
      PixelValuesByTokens(lines[3..]);
    }
  }

  /** A file that passes every check is accepted, with the size its second line
      gives and the pixels its values decode to. */
  lemma ParseAccepts(lines: seq<string>, a: string, b: string, w: nat, h: nat, px: seq<int>)
    requires |lines| >= 3 && Strip(lines[0]) == "P3"
    requires Words(Strip(lines[1])) == [a, b]
    requires PyInt(a).Some? && PyInt(a).value == w && PyInt(b).Some? && PyInt(b).value == h
    requires PyInt(Strip(lines[2])).Some? && PyInt(Strip(lines[2])).value == 255
    requires PixelValues(lines[3..]).Some? && PixelValues(lines[3..]).value == px
    requires |px| == w * h * 3
    ensures ParsePpm(lines) == Some(Picture(w, h, Decode(w, h, px)))
  {
  }

  /** A decoded pixel is black exactly when the three values at its index are all
      zero. */
  lemma DecodeAt(w: nat, h: nat, px: seq<int>, x: nat, y: nat, i: int)
    requires |px| == w * h * 3 && x < w && y < h && i == (y * w + x) * 3
    ensures 0 <= i && i + 2 < |px| && y < |Decode(w, h, px)| && x < |Decode(w, h, px)[y]|
    ensures Decode(w, h, px)[y][x] <==> px[i] == 0 && px[i + 1] == 0 && px[i + 2] == 0
  {
    TripleInside(w, h, x, y);
  }

  // ----- the round trip -----

  /** The values an RGB line of a pixel value reads as. */
  function Triple(v: int): seq<int> {
    if v == 0 then [0, 0, 0] else [255, 255, 255]
  }

  /** The values of RGB lines, one triple after another. */
  function Triples(vs: seq<int>): (t: seq<int>)
    ensures |t| == 3 * |vs|
  {
    if vs == [] then [] else Triples(vs[..|vs| - 1]) + Triple(vs[|vs| - 1])
  }

  lemma JoinThree(a: string)
    ensures JoinWith(" ", [a, a, a]) == a + " " + a + " " + a
  {
    assert [a, a, a][1..] == [a, a] && [a, a][1..] == [a];
    assert JoinWith(" ", [a]) == a;
    assert JoinWith(" ", [a, a]) == a + " " + a;
  }

  /** A line of three copies of a token, separated by spaces, splits into them. */
  lemma ThreeTokens(a: string)
    requires |a| > 0 && NoSpace(a)
    ensures LineTokens(a + " " + a + " " + a + "\n") == [a, a, a]
  {
    var t := a + " " + a + " " + a;
    assert t[0] == a[0] && t[|t| - 1] == a[|a| - 1];
    StripLine(t);
    JoinThree(a);
    WordsOfJoin([a, a, a]);
  }

  /** Converting one more token appends its value. */
  lemma MapAllSnoc(parse: string -> Option<int>, t: seq<string>, x: string)
    requires MapAll(parse, t).Some? && parse(x).Some?
    ensures MapAll(parse, t + [x]).Some?
    ensures MapAll(parse, t + [x]).value == MapAll(parse, t).value + [parse(x).value]
  {
    var u := t + [x];
    assert u[..|u| - 1] == t && u[|u| - 1] == x;
    assert MapAll(parse, u).value == MapAll(parse, u[..|u| - 1]).value + [parse(u[|u| - 1]).value];
  }

  lemma MapAllThree(parse: string -> Option<int>, a: string)
    requires parse(a).Some?
    ensures MapAll(parse, [a, a, a]).Some?
    ensures MapAll(parse, [a, a, a]).value == [parse(a).value, parse(a).value, parse(a).value]
  {
    assert MapAll(parse, []) == Some([]);
    MapAllSnoc(parse, [], a);
    assert [] + [a] == [a];
    MapAllSnoc(parse, [a], a);
    assert [a] + [a] == [a, a];
    MapAllSnoc(parse, [a, a], a);
    assert [a, a] + [a] == [a, a, a];
  }

  lemma Digits0()
    ensures IsDigitRun("0") && DigitsValue("0") == 0
  {
    var d0 := "0";
    assert d0[..0] == [];
  }

  /** An RGB line reads back as the triple of its pixel value. */
  lemma ColorLineValues(v: int)
    ensures Ints(LineTokens(ColorLine(v))).Some? && Ints(LineTokens(ColorLine(v))).value == Triple(v)
  {
    var a := if v == 0 then "0" else "255";
    var k: nat := if v == 0 then 0 else 255;
    assert ColorLine(v) == a + " " + a + " " + a + "\n";
    if v == 0 { Digits0(); } else { Digits255(); }
    assert forall i :: 0 <= i < |a| ==> IsDigit(a[i]);
    ThreeTokens(a);
    DigitsInt(a, k);
    MapAllThree(PyInt, a);
  }

  /** The RGB lines of some values read back as their triples. */
  lemma {:induction false} ColorLinesValues(vs: seq<int>)
    ensures PixelValues(ColorLines(vs)).Some? && PixelValues(ColorLines(vs)).value == Triples(vs)
  {
    if vs != [] {
      var ls := ColorLines(vs);
      assert ls[..|ls| - 1] == ColorLines(vs[..|vs| - 1]);
      ColorLinesValues(vs[..|vs| - 1]);
      ColorLineValues(vs[|vs| - 1]);
    }
  }

  /** Value `k` of the triple of value `i`. */
  lemma {:induction false} TriplesAt(vs: seq<int>, i: nat, k: nat)
    requires i < |vs| && k < 3
    ensures Triples(vs)[3 * i + k] == Triple(vs[i])[k]
  {
    var m := |vs| - 1;
    if i < m {
      TriplesAt(vs[..m], i, k);
    }
  }

  /** A grid whose `m` rows each hold `n` values flattens to `m * n` values, row `y`
      starting at `y * n`. */
  lemma {:induction false} FlattenAt(g: seq<seq<int>>, n: nat, y: nat, x: nat)
    requires forall r :: 0 <= r < |g| ==> |g[r]| == n
    requires y < |g| && x < n
    ensures |Flatten(g)| == |g| * n
    ensures Flatten(g)[y * n + x] == g[y][x]
  {
    FlattenLength(g, n);
    var m := |g| - 1;
    FlattenLength(g[..m], n);
    if y < m {
      FlattenAt(g[..m], n, y, x);
      MulMonotone(y + 1, m, n);
    }
  }

  lemma {:induction false} FlattenLength(g: seq<seq<int>>, n: nat)
    requires forall r :: 0 <= r < |g| ==> |g[r]| == n
    ensures |Flatten(g)| == |g| * n
  {
    if g != [] {
      FlattenLength(g[..|g| - 1], n);
    }
  }

  /** The magic number line reads as P3. */
  lemma MagicLine()
    ensures Strip("P3\n") == "P3"
  {
    StripLine("P3");
  }

  /** A run of digits that `int` reads as `v`. */
  lemma DigitsInt(s: string, v: nat)
    requires IsDigitRun(s) && DigitsValue(s) == v
    ensures PyInt(s).Some? && PyInt(s).value == v
  {
    PyIntDigits(s);
  }

  lemma Digits255()
    ensures IsDigitRun("255") && DigitsValue("255") == 255
  {
    var d2, d25, d255 := "2", "25", "255";
    assert d2[..0] == [];
    assert DigitsValue(d2) == 2;
    assert d25[..1] == d2;
    assert DigitsValue(d25) == 25;
    assert d255[..2] == d25;
  }

  /** The maximum value line reads as 255. */
  lemma MaxvalLine()
    ensures PyInt(Strip("255\n")).Some? && PyInt(Strip("255\n")).value == 255
  {
    var t := "255";
    assert t + "\n" == "255\n";
    StripLine(t);
    Digits255();
    DigitsInt(t, 255);
  }

  /** The size line reads as `n` twice. */
  lemma HeaderSize(n: nat)
    ensures Words(Strip(Header(n)[1])) == [NatToString(n), NatToString(n)]
    ensures PyInt(NatToString(n)).Some? && PyInt(NatToString(n)).value == n
  {
    var s := NatToString(n);
    assert IntToString(n) == s;
    assert Header(n)[1] == s + " " + s + "\n";
    StripLine(s + " " + s);
    assert [s, s][1..] == [s];
    assert JoinWith(" ", [s, s]) == s + " " + s;
    WordsOfJoin([s, s]);
    IntToStringRoundTrip(n);
  }

  /** The pixel values of a saved grid decode to its zero pattern. */
  lemma SavedPixel(n: nat, g: seq<seq<int>>, y: nat, x: nat)
    requires |g| == n && (forall r :: 0 <= r < n ==> |g[r]| == n) && y < n && x < n
    ensures |Triples(Flatten(g))| == n * n * 3
    ensures Decode(n, n, Triples(Flatten(g)))[y][x] <==> g[y][x] == 0
  {
    var vs := Flatten(g);
    FlattenAt(g, n, y, x);
    var i := y * n + x;
    CellInside(n, n, x, y);
    assert |Triples(vs)| == n * n * 3;
    TriplesAt(vs, i, 0);
    TriplesAt(vs, i, 1);
    TriplesAt(vs, i, 2);
    DecodeAt(n, n, Triples(vs), x, y, 3 * i);
  }

  /** Reading back what `save` writes for an `n` by `n` grid gives an `n` by `n`
      picture whose black pixels are exactly the zero values of the grid. */
  lemma SaveParseRoundTrip(n: nat, g: seq<seq<int>>)
    requires |g| == n && forall r :: 0 <= r < n ==> |g[r]| == n
    ensures var p := ParsePpm(SaveLines(n, g));
      && p.Some? && p.value.width == n && p.value.height == n
      && |p.value.black| == n && (forall y :: 0 <= y < n ==> |p.value.black[y]| == n)
      && forall y, x :: 0 <= y < n && 0 <= x < n ==> (p.value.black[y][x] <==> g[y][x] == 0)
  {
    var lines := SaveLines(n, g);
    var vs := Flatten(g);
    var s := NatToString(n);
    assert lines[0] == "P3\n" && lines[1] == Header(n)[1] && lines[2] == "255\n" && lines[3..] == ColorLines(vs);
    MagicLine();
    MaxvalLine();
    HeaderSize(n);
    ColorLinesValues(vs);
    FlattenLength(g, n);
    ParseAccepts(lines, s, s, n, n, Triples(vs));
    forall y, x | 0 <= y < n && 0 <= x < n
      ensures Decode(n, n, Triples(vs))[y][x] <==> g[y][x] == 0
    {
      SavedPixel(n, g, y, x);
    }
  }

  /** What `save` writes for a buffer reads back as its black and white pattern. */
  lemma SavedImageReadsBack(img: PpmImage)
    requires img.Valid()
    ensures var p := ParsePpm(SaveLines(img.pixelSize, img.Grid()));
      && p.Some? && p.value.width == img.pixelSize && p.value.height == img.pixelSize
      && forall y, x :: 0 <= y < img.pixelSize && 0 <= x < img.pixelSize ==>
        (p.value.black[y][x] <==> img.pixels[y, x] == 0)
  {
    SaveParseRoundTrip(img.pixelSize, img.Grid());
  }
}
