/**
 * The image program: collect the R, G and B values of every pixel in
 * row-major order, detect whether the image is in colour, and build an
 * ascending frequency table for each channel that is analysed.
 */
module ImageChannels {
  import opened Wrappers
  import opened Frequency
  import opened StableSort
  import opened OrderedTables

  /** A colour channel value. */
  type Byte = x: int | 0 <= x < 256

  datatype Pixel = Pixel(r: Byte, g: Byte, b: Byte)

  datatype Channel = Red | Green | Blue

  /** A bitmap: `height` rows of `width` pixels; GetPixel(x, y) is rows[y][x]. */
  datatype Image = Image(width: nat, height: nat, rows: seq<seq<Pixel>>) {
    ghost predicate Valid()
    {
      |rows| == height && forall y :: 0 <= y < height ==> |rows[y]| == width
    }

    function GetPixel(x: nat, y: nat): Pixel
      requires Valid() && x < width && y < height
    {
      rows[y][x]
    }
  }

  function Sample(p: Pixel, c: Channel): int
  {
    match c
    case Red => p.r
    case Green => p.g
    case Blue => p.b
  }

  /** The colour test of the pixel loop; its third disjunct adds nothing to the first two. */
  function PixelIsColor(p: Pixel): (b: bool)
    ensures b <==> p.r != p.g || p.r != p.b
  {
    p.r != p.g || p.r != p.b || p.g != p.b
  }

  /** The values of channel c along one row. */
  function RowValues(row: seq<Pixel>, c: Channel): (v: seq<int>)
    ensures |v| == |row|
    ensures forall x :: 0 <= x < |row| ==> v[x] == Sample(row[x], c)
  {
    seq(|row|, x requires 0 <= x < |row| => Sample(row[x], c))
  }

  /** The values of channel c, row after row: what the pixel loop adds to that channel's list. */
  function Flatten(rows: seq<seq<Pixel>>, c: Channel): seq<int>
  {
    if rows == [] then [] else Flatten(rows[..|rows| - 1], c) + RowValues(rows[|rows| - 1], c)
  }

  function RowHasColor(row: seq<Pixel>): bool
  {
    row != [] && (RowHasColor(row[..|row| - 1]) || PixelIsColor(row[|row| - 1]))
  }

  /** Some pixel of rows is in colour. */
  function HasColor(rows: seq<seq<Pixel>>): bool
  {
    rows != [] && (HasColor(rows[..|rows| - 1]) || RowHasColor(rows[|rows| - 1]))
  }

  lemma {:induction false} RowHasColorIff(row: seq<Pixel>)
    ensures RowHasColor(row) <==> exists x :: 0 <= x < |row| && PixelIsColor(row[x])
  {
    if row != [] {
      var p := row[..|row| - 1];
      RowHasColorIff(p);
      assert forall x :: 0 <= x < |p| ==> p[x] == row[x];
    }
  }

  lemma {:induction false} HasColorIff(rows: seq<seq<Pixel>>)
    ensures HasColor(rows) <==>
      exists y, x :: 0 <= y < |rows| && 0 <= x < |rows[y]| && PixelIsColor(rows[y][x])
  {
    if rows != [] {
      var p, last := rows[..|rows| - 1], rows[|rows| - 1];
      HasColorIff(p);
      RowHasColorIff(last);
      assert forall y :: 0 <= y < |p| ==> p[y] == rows[y];
      if RowHasColor(last) {
        var x :| 0 <= x < |last| && PixelIsColor(last[x]);
        assert PixelIsColor(rows[|rows| - 1][x]);
      }
    }
  }

  lemma {:induction false} FlattenLength(rows: seq<seq<Pixel>>, width: nat, c: Channel)
    requires forall y :: 0 <= y < |rows| ==> |rows[y]| == width
    ensures |Flatten(rows, c)| == |rows| * width
  {
    if rows != [] {
      var p := rows[..|rows| - 1];
      assert forall y :: 0 <= y < |p| ==> p[y] == rows[y];
      FlattenLength(p, width, c);
      MulSucc(|p|, width);
    }
  }

  lemma MulSucc(m: nat, w: nat)
    ensures (m + 1) * w == m * w + w
  {
  }

  /** The position of pixel (x, y) in a channel list of an image `width` pixels wide, rows first. */
  function RowMajor(x: nat, y: nat, width: nat): nat
  {
    y * width + x
  }

  /** Pixel (x, y) has its channel-c value at position y * width + x of Flatten(rows, c). */
  lemma {:induction false} FlattenAt(rows: seq<seq<Pixel>>, width: nat, c: Channel, y: nat, x: nat)
    requires forall y :: 0 <= y < |rows| ==> |rows[y]| == width
    requires y < |rows| && x < width
    ensures RowMajor(x, y, width) < |Flatten(rows, c)|
    ensures Flatten(rows, c)[RowMajor(x, y, width)] == Sample(rows[y][x], c)
  {
    var p, last := rows[..|rows| - 1], rows[|rows| - 1];
    assert forall y :: 0 <= y < |p| ==> p[y] == rows[y];
    var f, lv := Flatten(p, c), RowValues(last, c);
    assert Flatten(rows, c) == f + lv;
    if y < |p| {
      FlattenAt(p, width, c, y, x);
      assert (f + lv)[RowMajor(x, y, width)] == f[RowMajor(x, y, width)];
    } else {
      FlattenLength(p, width, c);
      assert RowMajor(x, y, width) == |f| + x;
    }
  }

  /** With no colour pixel all three channel lists are equal, so analysing R alone loses nothing. */
  lemma {:induction false} GrayChannelsEqual(rows: seq<seq<Pixel>>)
    requires !HasColor(rows)
    ensures Flatten(rows, Green) == Flatten(rows, Red)
    ensures Flatten(rows, Blue) == Flatten(rows, Red)
  {
    if rows != [] {
      var last := rows[|rows| - 1];
      GrayChannelsEqual(rows[..|rows| - 1]);
      RowHasColorIff(last);
      assert RowValues(last, Green) == RowValues(last, Red);
      assert RowValues(last, Blue) == RowValues(last, Red);
    }
  }

  lemma RowPrefixStep(row: seq<Pixel>, x: nat)
    requires x < |row|
    ensures RowValues(row[..x + 1], Red) == RowValues(row[..x], Red) + [row[x].r]
    ensures RowValues(row[..x + 1], Green) == RowValues(row[..x], Green) + [row[x].g]
    ensures RowValues(row[..x + 1], Blue) == RowValues(row[..x], Blue) + [row[x].b]
    ensures RowHasColor(row[..x + 1]) == (RowHasColor(row[..x]) || PixelIsColor(row[x]))
  {
    assert row[..x + 1][..x] == row[..x];
    assert row[..x + 1] == row[..x] + [row[x]];
  }

  lemma RowsPrefixStep(rows: seq<seq<Pixel>>, y: nat)
    requires y < |rows|
    ensures Flatten(rows[..y + 1], Red) == Flatten(rows[..y], Red) + RowValues(rows[y], Red)
    ensures Flatten(rows[..y + 1], Green) == Flatten(rows[..y], Green) + RowValues(rows[y], Green)
    ensures Flatten(rows[..y + 1], Blue) == Flatten(rows[..y], Blue) + RowValues(rows[y], Blue)
    ensures HasColor(rows[..y + 1]) == (HasColor(rows[..y]) || RowHasColor(rows[y]))
  {
    assert rows[..y + 1][..y] == rows[..y];
  }

  /** Entry y * width + x of the channel-c list holds pixel (x, y)'s value of that channel. */
  lemma ChannelRowMajor(img: Image, c: Channel)
    requires img.Valid()
    ensures |Flatten(img.rows, c)| == img.height * img.width
    ensures forall y, x :: 0 <= y < img.height && 0 <= x < img.width ==>
      RowMajor(x, y, img.width) < |Flatten(img.rows, c)| && Flatten(img.rows, c)[RowMajor(x, y, img.width)] == Sample(img.GetPixel(x, y), c)
  {
    FlattenLength(img.rows, img.width, c);
    forall y, x | 0 <= y < img.height && 0 <= x < img.width
      ensures RowMajor(x, y, img.width) < |Flatten(img.rows, c)| && Flatten(img.rows, c)[RowMajor(x, y, img.width)] == Sample(img.GetPixel(x, y), c)
    {
      FlattenAt(img.rows, img.width, c, y, x);
    }
  }

  /** The three channel lists hold width * height entries each, entry y * width + x being pixel (x, y)'s. */
  lemma ChannelsRowMajor(img: Image)
    requires img.Valid()
    ensures |Flatten(img.rows, Red)| == |Flatten(img.rows, Green)| == |Flatten(img.rows, Blue)| == img.height * img.width
    ensures forall y, x :: 0 <= y < img.height && 0 <= x < img.width ==>
      var k := RowMajor(x, y, img.width);
      k < |Flatten(img.rows, Red)| && Flatten(img.rows, Red)[k] == img.GetPixel(x, y).r
      && Flatten(img.rows, Green)[k] == img.GetPixel(x, y).g && Flatten(img.rows, Blue)[k] == img.GetPixel(x, y).b
  {
    ChannelRowMajor(img, Red);
    ChannelRowMajor(img, Green);
    ChannelRowMajor(img, Blue);
  }

  /** The colour flag is set exactly when some pixel (x, y) has R != G or R != B. */
  lemma ColorFlagIff(img: Image)
    requires img.Valid()
    ensures HasColor(img.rows) <==> exists y, x :: 0 <= y < img.height && 0 <= x < img.width &&
                                                 (img.GetPixel(x, y).r != img.GetPixel(x, y).g || img.GetPixel(x, y).r != img.GetPixel(x, y).b)
  {
    HasColorIff(img.rows);
    if HasColor(img.rows) {
      var y, x :| 0 <= y < |img.rows| && 0 <= x < |img.rows[y]| && PixelIsColor(img.rows[y][x]);
      assert img.GetPixel(x, y) == img.rows[y][x];
    }
    if exists y, x :: 0 <= y < img.height && 0 <= x < img.width &&
                      (img.GetPixel(x, y).r != img.GetPixel(x, y).g || img.GetPixel(x, y).r != img.GetPixel(x, y).b) {
      var y, x :| 0 <= y < img.height && 0 <= x < img.width &&
                  (img.GetPixel(x, y).r != img.GetPixel(x, y).g || img.GetPixel(x, y).r != img.GetPixel(x, y).b);
      assert PixelIsColor(img.rows[y][x]);
    }
  }

  /**
   * The nested y/x pixel loop: appends each pixel's R, G and B to the three
   * lists and sets the colour flag, never clearing it.
   */
  method CollectChannels(img: Image) returns (canalR: seq<int>, canalG: seq<int>, canalB: seq<int>, esColor: bool)
    requires img.Valid()
    ensures canalR == Flatten(img.rows, Red)
    ensures canalG == Flatten(img.rows, Green)
    ensures canalB == Flatten(img.rows, Blue)
    ensures esColor == HasColor(img.rows)
  {
    canalR, canalG, canalB := [], [], [];
    esColor := false;
    var y := 0;
    while y < img.height
      invariant 0 <= y <= img.height
      invariant canalR == Flatten(img.rows[..y], Red)
      invariant canalG == Flatten(img.rows[..y], Green)
      invariant canalB == Flatten(img.rows[..y], Blue)
      invariant esColor == HasColor(img.rows[..y])
    {
      canalR, canalG, canalB, esColor := CollectRow(img, y, canalR, canalG, canalB, esColor);
      RowsPrefixStep(img.rows, y);
      y := y + 1;
    }
    assert img.rows[..y] == img.rows;
  }

  /** The inner pixel loop over row y: appends the row's R, G and B values and raises the flag at a colour pixel. */
  method CollectRow(img: Image, y: nat, r0: seq<int>, g0: seq<int>, b0: seq<int>, c0: bool)
    returns (canalR: seq<int>, canalG: seq<int>, canalB: seq<int>, esColor: bool)
    requires img.Valid() && y < img.height
    ensures canalR == r0 + RowValues(img.rows[y], Red)
    ensures canalG == g0 + RowValues(img.rows[y], Green)
    ensures canalB == b0 + RowValues(img.rows[y], Blue)
    ensures esColor == (c0 || RowHasColor(img.rows[y]))
  {
    canalR, canalG, canalB, esColor := r0, g0, b0, c0;
    var row := img.rows[y];
    var x := 0;
    while x < img.width
      invariant 0 <= x <= img.width
      invariant canalR == r0 + RowValues(row[..x], Red)
      invariant canalG == g0 + RowValues(row[..x], Green)
      invariant canalB == b0 + RowValues(row[..x], Blue)
      invariant esColor == (c0 || RowHasColor(row[..x]))
    {
      var pixel := img.GetPixel(x, y);
      RowPrefixStep(row, x);
      canalR := canalR + [pixel.r];
      canalG := canalG + [pixel.g];
      canalB := canalB + [pixel.b];
      if pixel.r != pixel.g || pixel.r != pixel.b || pixel.g != pixel.b {
        esColor := true;
      }
      x := x + 1;
    }
    assert row[..x] == row;
  }

  /** The table of one channel: `GroupBy` then `OrderBy(x => x.Simbolo)`. */
  function ChannelTable(valores: seq<int>): seq<Entry<int>>
  {
    OrderedTable(valores, (e: Entry<int>) => e.0)
  }

  /**
   * The frequency part of the per-channel analysis: None for an empty list
   * (the early return of 0.0), otherwise the table, one row per distinct value
   * with its exact count, strictly ascending by value, counts summing to the
   * number of values.
   */
  function AnalyseChannel(valores: seq<int>): (r: Option<seq<Entry<int>>>)
    ensures r.None? <==> |valores| == 0
    ensures r.Some? ==> IsFrequencyTable(valores, r.value)
    ensures r.Some? ==> SumCounts(r.value) == |valores|
    ensures r.Some? ==> forall i, j :: 0 <= i < j < |r.value| ==> r.value[i].0 < r.value[j].0
    ensures r.Some? ==> forall i :: 0 <= i < |r.value| ==> r.value[i].1 >= 1
  {
    if |valores| == 0 then None
    else
      ChannelTableCorrect(valores);
      Some(ChannelTable(valores))
  }

  lemma ChannelTableCorrect(valores: seq<int>)
    ensures IsFrequencyTable(valores, ChannelTable(valores))
    ensures SumCounts(ChannelTable(valores)) == |valores|
    ensures forall i, j :: 0 <= i < j < |ChannelTable(valores)| ==> ChannelTable(valores)[i].0 < ChannelTable(valores)[j].0
  {
    OrderedTableIsTable(valores, (e: Entry<int>) => e.0);
  }

  /** The rows the table printer shows: those with a frequency above zero. */
  function DisplayedRows<T>(t: seq<Entry<T>>): seq<Entry<T>>
  {
    if t == [] then []
    else DisplayedRows(t[..|t| - 1]) + (if t[|t| - 1].1 > 0 then [t[|t| - 1]] else [])
  }

  lemma {:induction false} DisplayedRowsPositive<T>(t: seq<Entry<T>>)
    requires forall i :: 0 <= i < |t| ==> t[i].1 > 0
    ensures DisplayedRows(t) == t
  {
    if t != [] {
      var p := t[..|t| - 1];
      assert forall i :: 0 <= i < |p| ==> p[i] == t[i];
      DisplayedRowsPositive(p);
    }
  }

  /** Every row of a frequency table has a frequency of at least one, so the display filter drops none. */
  lemma DisplayedRowsKeepsTable<T>(s: seq<T>, t: seq<Entry<T>>)
    requires IsFrequencyTable(s, t)
    ensures DisplayedRows(t) == t
  {
    forall i | 0 <= i < |t| ensures t[i].1 > 0 {
      assert t[i].0 in multiset(s);
    }
    DisplayedRowsPositive(t);
  }

  /** What the image program reports: the colour flag and the analysed channels. */
  datatype ImageReport = ImageReport(
    isColor: bool,
    red: Option<seq<Entry<int>>>,
    green: Option<Option<seq<Entry<int>>>>,
    blue: Option<Option<seq<Entry<int>>>>)

  /**
   * Main's analysis: R is always analysed; G and B only for a colour image.
   * For a grayscale image the skipped channels would have given R's table.
   */
  method AnalyseImage(img: Image) returns (rep: ImageReport)
    requires img.Valid()
    ensures rep.isColor == HasColor(img.rows)
    ensures rep.red == AnalyseChannel(Flatten(img.rows, Red))
    ensures rep.green.Some? <==> rep.isColor
    ensures rep.blue.Some? <==> rep.isColor
    ensures rep.green.Some? ==> rep.green.value == AnalyseChannel(Flatten(img.rows, Green))
    ensures rep.blue.Some? ==> rep.blue.value == AnalyseChannel(Flatten(img.rows, Blue))
    ensures !rep.isColor ==>
      AnalyseChannel(Flatten(img.rows, Green)) == rep.red && AnalyseChannel(Flatten(img.rows, Blue)) == rep.red
  {
    var canalR, canalG, canalB, esColor := CollectChannels(img);
    HasColorIff(img.rows);
    var red := AnalyseChannel(canalR);
    var green: Option<Option<seq<Entry<int>>>> := None;
    var blue: Option<Option<seq<Entry<int>>>> := None;
    if esColor {
      green := Some(AnalyseChannel(canalG));
      blue := Some(AnalyseChannel(canalB));
    } else {
      GrayChannelsEqual(img.rows);
    }
    rep := ImageReport(esColor, red, green, blue);
  }
}
