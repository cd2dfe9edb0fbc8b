/**
 * The P3 (plain text) Netpbm serializer `save_as_ppm` of src/main.rs and the
 * scenario its `main` runs. The file handle is not modelled: the text that
 * would be written is a string that the nested loops append to, and it is
 * compared with the pure function Expected.
 */
module Ppm {

  import opened Decimal
  import opened Color

  /** `format!("P3\n{} {} 255\n", width, height)`: magic number, size, maxval. */
  function Header(width: nat, height: nat): string {
    "P3\n" + Format(width) + " " + Format(height) + " 255\n"
  }

  /** `format!("{} {} {}\n", r, g, b)`: one pixel as three decimal channels. */
  function Record(p: nat): string {
    Format(Red(p)) + " " + Format(Green(p)) + " " + Format(Blue(p)) + "\n"
  }

  /** The records of the pixel values ps, one after another. */
  function Body(ps: seq<nat>): string {
    if ps == [] then [] else Record(ps[0]) + Body(ps[1..])
  }

  /** Writing one more pixel appends exactly its record. */
  lemma {:induction false} BodyAppend(ps: seq<nat>, p: nat)
    ensures Body(ps + [p]) == Body(ps) + Record(p)
  {
    if ps == [] {
      assert [p][1..] == [];
    } else {
      assert (ps + [p])[1..] == ps[1..] + [p];
      BodyAppend(ps[1..], p);
    }
  }

  /** The indices one pass of the inner loop reads: row y, columns 0 to n - 1. */
  function RowIndices(width: nat, y: nat, n: nat): seq<nat> {
    seq(n, x => y * width + x)
  }

  /** The indices the first m passes of the outer loop read, in order. */
  function VisitRows(width: nat, height: nat, m: nat): seq<nat> {
    if m == 0 then [] else VisitRows(width, height, m - 1) + RowIndices(width, m - 1, height)
  }

  /**
   * The indices of the buffer save_as_ppm reads, in the order it reads them:
   * the outer loop runs y over 0..width, the inner one x over 0..height, and
   * the index is y * width + x.
   */
  function VisitOrder(width: nat, height: nat): seq<nat> {
    VisitRows(width, height, width)
  }

  lemma MulLeMono(a: nat, b: nat, c: nat)
    requires a <= b
    ensures a * c <= b * c
  {
  }

  lemma {:induction false} VisitRowsLength(width: nat, height: nat, m: nat)
    ensures |VisitRows(width, height, m)| == m * height
    decreases m
  {
    if m > 0 {
      VisitRowsLength(width, height, m - 1);
      assert (m - 1) * height + height == m * height;
    }
  }

  /** The k-th index read is (k / height) * width + k % height. */
  lemma {:induction false} VisitRowsAt(width: nat, height: nat, m: nat, k: nat)
    requires k < m * height
    ensures |VisitRows(width, height, m)| == m * height
    ensures VisitRows(width, height, m)[k] == (k / height) * width + k % height
    decreases m
  {
    VisitRowsLength(width, height, m);
    VisitRowsLength(width, height, m - 1);
    if k < (m - 1) * height {
      VisitRowsAt(width, height, m - 1, k);
    } else {
      var x := k - (m - 1) * height;
      assert (m - 1) * height + height == m * height;
      DivModUnique(k, height, m - 1, x);
    }
  }

  lemma VisitOrderAt(width: nat, height: nat, k: nat)
    requires k < width * height
    ensures |VisitOrder(width, height)| == width * height
    ensures VisitOrder(width, height)[k] == (k / height) * width + k % height
  {
    VisitRowsAt(width, height, width, k);
  }

  /** The read at loop step (y, x) comes at position y * height + x and is of index y * width + x. */
  lemma VisitStep(width: nat, height: nat, y: nat, x: nat)
    requires y < width && x < height
    ensures |VisitOrder(width, height)| == width * height
    ensures y * height + x < width * height
    ensures VisitOrder(width, height)[y * height + x] == y * width + x
  {
    MulLeMono(y + 1, width, height);
    VisitOrderAt(width, height, y * height + x);
    DivModUnique(y * height + x, height, y, x);
  }

  /** The index read at step (y, x) is at most the one read at the last step. */
  lemma IndexBound(width: nat, height: nat, y: nat, x: nat)
    requires y < width && x < height
    ensures y * width + x <= (width - 1) * width + (height - 1)
  {
    MulLeMono(y, width - 1, width);
  }

  /** Under InBounds, the index read at step (y, x) is within the buffer. */
  lemma IndexInBounds(n: nat, width: nat, height: nat, y: nat, x: nat)
    requires InBounds(n, width, height)
    requires y < width && x < height
    ensures y * width + x < n
  {
    IndexBound(width, height, y, x);
  }

  /** Position k of the loops' order is step (y, x) with k == y * height + x. */
  lemma Split(k: nat, width: nat, height: nat) returns (y: nat, x: nat)
    requires k < width * height
    ensures y < width && x < height && k == y * height + x
  {
    y, x := k / height, k % height;
    if y >= width {
      MulLeMono(width, y, height);
    }
  }

  /**
   * The buffer is indexed within its length: every y < width and x < height
   * give y * width + x < n. Otherwise the slice index panics.
   */
  predicate InBounds(n: nat, width: nat, height: nat) {
    width == 0 || height == 0 || (width - 1) * width + (height - 1) < n
  }

  /** Under InBounds every index the loops read is below n. */
  lemma InBoundsReadsBelow(n: nat, width: nat, height: nat, k: nat)
    requires InBounds(n, width, height)
    requires k < width * height
    ensures |VisitOrder(width, height)| == width * height
    ensures VisitOrder(width, height)[k] < n
  {
    var y, x := Split(k, width, height);
    VisitStep(width, height, y, x);
    assert VisitOrder(width, height)[k] == y * width + x;
    IndexInBounds(n, width, height, y, x);
  }

  /** Without InBounds the last index the loops read is n or more. */
  lemma OutOfBoundsLastRead(n: nat, width: nat, height: nat)
    requires !InBounds(n, width, height)
    ensures 0 < width * height == |VisitOrder(width, height)|
    ensures VisitOrder(width, height)[width * height - 1] >= n
  {
    VisitStep(width, height, width - 1, height - 1);
    assert (width - 1) * height + (height - 1) == width * height - 1;
  }

  /** InBounds holds exactly when every index the loops read is below n. */
  lemma InBoundsIff(n: nat, width: nat, height: nat)
    ensures InBounds(n, width, height) <==>
      forall k :: 0 <= k < |VisitOrder(width, height)| ==> VisitOrder(width, height)[k] < n
  {
    VisitRowsLength(width, height, width);
    if InBounds(n, width, height) {
      forall k | 0 <= k < |VisitOrder(width, height)|
        ensures VisitOrder(width, height)[k] < n
      {
        InBoundsReadsBelow(n, width, height, k);
      }
    } else {
      OutOfBoundsLastRead(n, width, height);
    }
  }

  /** The buffer values at the given indices, in that order. */
  function Gather(pixels: seq<nat>, order: seq<nat>): seq<nat>
    requires forall k :: 0 <= k < |order| ==> order[k] < |pixels|
  {
    seq(|order|, k requires 0 <= k < |order| => pixels[order[k]])
  }

  /** The text save_as_ppm writes for a buffer it does not index out of range. */
  function Expected(pixels: seq<nat>, width: nat, height: nat): string
    requires InBounds(|pixels|, width, height)
  {
    InBoundsIff(|pixels|, width, height);
    Header(width, height) + Body(Gather(pixels, VisitOrder(width, height)))
  }

  /** Every index in visited is below n. */
  predicate AllBelow(visited: seq<nat>, n: nat) {
    forall k :: 0 <= k < |visited| ==> visited[k] < n
  }

  /** The text written once the indices in visited have been read. */
  function Written(pixels: seq<nat>, width: nat, height: nat, visited: seq<nat>): string
    requires AllBelow(visited, |pixels|)
  {
    Header(width, height) + Body(Gather(pixels, visited))
  }

  lemma RowIndicesStep(width: nat, y: nat, x: nat)
    ensures RowIndices(width, y, x + 1) == RowIndices(width, y, x) + [y * width + x]
  {
  }

  lemma AllBelowStep(visited: seq<nat>, n: nat, i: nat)
    requires AllBelow(visited, n) && i < n
    ensures AllBelow(visited + [i], n)
  {
  }

  /** Reading one more index appends that pixel's record to the text. */
  lemma GatherStep(pixels: seq<nat>, width: nat, height: nat, visited: seq<nat>, i: nat)
    requires AllBelow(visited, |pixels|) && i < |pixels|
    requires AllBelow(visited + [i], |pixels|)
    ensures Written(pixels, width, height, visited + [i])
         == Written(pixels, width, height, visited) + Record(pixels[i])
  {
    var before := Gather(pixels, visited);
    assert Gather(pixels, visited + [i]) == before + [pixels[i]];
    BodyAppend(before, pixels[i]);
    var h := Header(width, height);
    assert h + (Body(before) + Record(pixels[i])) == (h + Body(before)) + Record(pixels[i]);
  }

  /**
   * One step of the inner loop: reading index i = y * width + x appends that
   * pixel's record and extends the visited prefix by one index.
   */
  lemma InnerStep(pixels: seq<nat>, width: nat, height: nat, y: nat, x: nat, i: int, visited: seq<nat>)
    requires InBounds(|pixels|, width, height) && y < width && x < height
    requires i == y * width + x
    requires visited == VisitRows(width, height, y) + RowIndices(width, y, x)
    requires AllBelow(visited, |pixels|)
    ensures 0 <= i < |pixels|
    ensures visited + [i] == VisitRows(width, height, y) + RowIndices(width, y, x + 1)
    ensures AllBelow(visited + [i], |pixels|)
    ensures Written(pixels, width, height, visited + [i])
         == Written(pixels, width, height, visited) + Record(pixels[i])
  {
    IndexInBounds(|pixels|, width, height, y, x);
    RowIndicesStep(width, y, x);
    AllBelowStep(visited, |pixels|, i);
    GatherStep(pixels, width, height, visited, i);
  }

  /** After all width passes of the outer loop the whole text has been written. */
  lemma LoopsDone(pixels: seq<nat>, width: nat, height: nat, visited: seq<nat>)
    requires InBounds(|pixels|, width, height)
    requires visited == VisitRows(width, height, width)
    requires AllBelow(visited, |pixels|)
    ensures Written(pixels, width, height, visited) == Expected(pixels, width, height)
  {
  }

  /**
   * save_as_ppm: the header, then for y in 0..width and x in 0..height the
   * record of pixels[y * width + x]. The buffer is only read (no modifies
   * clause).
   */
  method SaveAsPpm(pixels: array<nat>, width: nat, height: nat) returns (out: string)
    requires InBounds(pixels.Length, width, height)
    ensures out == Expected(pixels[..], width, height)
  {
    ghost var ps := pixels[..];
    out := "P3\n" + Format(width) + " " + Format(height) + " 255\n";
    ghost var visited: seq<nat> := [];
    var y: nat := 0;
    while y < width
      invariant y <= width
      invariant visited == VisitRows(width, height, y)
      invariant AllBelow(visited, |ps|)
      invariant out == Written(ps, width, height, visited)
    {
      var x: nat := 0;
      while x < height
        invariant x <= height
        invariant visited == VisitRows(width, height, y) + RowIndices(width, y, x)
        invariant AllBelow(visited, |ps|)
        invariant out == Written(ps, width, height, visited)
      {
        var i := y * width + x;
        InnerStep(ps, width, height, y, x, i, visited);
        var p := pixels[i];
        var record := Format(Red(p)) + " " + Format(Green(p)) + " " + Format(Blue(p)) + "\n";
        out := out + record;
        visited := visited + [i];
        x := x + 1;
      }
      y := y + 1;
    }
    LoopsDone(ps, width, height, visited);
  }

  /**
   * For a square buffer the loops read every index exactly once, in
   * increasing (row-major) order.
   */
  lemma SquareVisitOrder(width: nat)
    ensures VisitOrder(width, width) == seq(width * width, i => i)
  {
    VisitRowsLength(width, width, width);
    forall k | 0 <= k < width * width
      ensures VisitOrder(width, width)[k] == k
    {
      VisitOrderAt(width, width, k);
    }
  }

  /** A one-column buffer is read top to bottom, every index once. */
  lemma OneWideVisitOrder(height: nat)
    ensures VisitOrder(1, height) == seq(height, i => i)
  {
    assert VisitOrder(1, height) == VisitRows(1, height, 1);
    assert VisitRows(1, height, 0) == [];
    assert VisitRows(1, height, 1) == [] + RowIndices(1, 0, height);
    assert RowIndices(1, 0, height) == seq(height, i => i);
  }

  /**
   * The loops read every index 0 .. width*height-1 exactly once, in
   * increasing order, exactly when width == height, width <= 1 or
   * height == 0.
   */
  lemma RowMajorExactlyWhen(width: nat, height: nat)
    ensures VisitOrder(width, height) == seq(width * height, i => i)
        <==> (width == height || width <= 1 || height == 0)
  {
    VisitRowsLength(width, height, width);
    if width == height {
      SquareVisitOrder(width);
    } else if width == 0 || height == 0 {
      assert VisitOrder(width, height) == [];
    } else if width == 1 {
      OneWideVisitOrder(height);
    } else {
      VisitStep(width, height, 1, 0);
      assert height < width * height by {
        MulLeMono(2, width, height);
      }
      assert VisitOrder(width, height)[height] == width != height;
    }
  }

  /** A square buffer of the right size is written as a plain row-major dump. */
  lemma SquareExpected(pixels: seq<nat>, width: nat)
    requires |pixels| == width * width
    ensures InBounds(|pixels|, width, width)
    ensures Expected(pixels, width, width) == Header(width, width) + Body(pixels)
  {
    if width > 0 {
      assert (width - 1) * width + (width - 1) == width * width - 1;
    }
    SquareVisitOrder(width);
    assert Gather(pixels, VisitOrder(width, width)) == pixels;
  }

  /** n copies of s, one after another. */
  function Repeat(s: string, n: nat): string {
    if n == 0 then [] else s + Repeat(s, n - 1)
  }

  /** A buffer holding one colour everywhere is written as that colour's record, repeated. */
  lemma {:induction false} BodyOfConstant(ps: seq<nat>, c: nat)
    requires forall k :: 0 <= k < |ps| ==> ps[k] == c
    ensures Body(ps) == Repeat(Record(c), |ps|)
    decreases |ps|
  {
    if ps != [] {
      BodyOfConstant(ps[1..], c);
    }
  }

  /** The constants of `main`; BACKGROUND_COLOR is declared there but never used. */
  const Width: nat := 32
  const Height: nat := 32
  const BackgroundColor: nat := 0x000000
  const ForegroundColor: nat := 0xFF00FF

  /** The decimal texts the scenario needs. */
  lemma FormatConstants()
    ensures Format(0) == "0" && Format(32) == "32" && Format(255) == "255"
  {
    assert DigitChar(0) == '0' && DigitChar(2) == '2' && DigitChar(3) == '3' && DigitChar(5) == '5';
    assert Format(32) == Format(3) + [DigitChar(2)];
    assert Format(25) == Format(2) + [DigitChar(5)];
    assert Format(255) == Format(25) + [DigitChar(5)];
  }

  /** The record of the foreground colour 0xFF00FF. */
  lemma ForegroundRecord()
    ensures Record(ForegroundColor) == "255 0 255\n"
  {
    assert Red(ForegroundColor) == 255 && Green(ForegroundColor) == 0 && Blue(ForegroundColor) == 255;
    FormatConstants();
  }

  /** The header `main` writes. */
  lemma MainHeader()
    ensures Header(Width, Height) == "P3\n32 32 255\n"
  {
    FormatConstants();
  }

  /** `main`: a 32 x 32 buffer of 0xFF00FF is written as its header and 1024 identical lines. */
  lemma MainScenario(pixels: seq<nat>)
    requires |pixels| == Width * Height
    requires forall k :: 0 <= k < |pixels| ==> pixels[k] == ForegroundColor
    ensures InBounds(|pixels|, Width, Height)
    ensures Expected(pixels, Width, Height) == "P3\n32 32 255\n" + Repeat("255 0 255\n", 1024)
  {
    SquareExpected(pixels, Width);
    BodyOfConstant(pixels, ForegroundColor);
    ForegroundRecord();
    MainHeader();
  }

  /**
   * `main`: fill the buffer with the foreground colour and serialize it.
   * The file name "test.ppm" and the ignored io::Result are not modelled.
   */
  method WriteMainImage() returns (out: string)
    ensures out == "P3\n32 32 255\n" + Repeat("255 0 255\n", 1024)
  {
    var pixels := new nat[Width * Height](_ => ForegroundColor);
    MainScenario(pixels[..]);
    out := SaveAsPpm(pixels, Width, Height);
  }

  /**
   * The text the serializer evidently means to write: the header, then every
   * pixel once in row-major order (rows y < height, columns x < width).
   */
  function RowMajorText(pixels: seq<nat>, width: nat, height: nat): string
    requires |pixels| == width * height
  {
    Header(width, height) + Body(pixels)
  }

  /** The corrected text up to and including the first n pixels. */
  function RowMajorPrefix(ps: seq<nat>, width: nat, height: nat, n: nat): string
    requires n <= |ps|
  {
    Header(width, height) + Body(ps[..n])
  }

  /**
   * One step of the corrected inner loop: the pixel at i = y * width + x is
   * the next one in row-major order, and its record extends the prefix.
   */
  lemma RowMajorStep(ps: seq<nat>, width: nat, height: nat, y: nat, x: nat, i: int)
    requires |ps| == width * height
    requires y < height && x < width && i == y * width + x
    ensures 0 <= i < |ps|
    ensures RowMajorPrefix(ps, width, height, i + 1)
         == RowMajorPrefix(ps, width, height, i) + Record(ps[i])
  {
    MulLeMono(y + 1, height, width);
    assert ps[..i + 1] == ps[..i] + [ps[i]];
    BodyAppend(ps[..i], ps[i]);
  }

  lemma RowEnd(width: nat, y: nat, done: nat)
    requires done == y * width + width
    ensures done == (y + 1) * width
  {
  }

  lemma AllRowsDone(width: nat, height: nat, y: nat, done: nat)
    requires y == height && done == y * width
    ensures done == width * height
  {
  }

  /**
   * The corrected serializer: the outer loop runs over the rows
   * (0..height), the inner one over the columns (0..width).
   */
  method SaveAsPpmRowMajor(pixels: array<nat>, width: nat, height: nat) returns (out: string)
    requires pixels.Length == width * height
    ensures out == RowMajorText(pixels[..], width, height)
  {
    ghost var ps := pixels[..];
    out := "P3\n" + Format(width) + " " + Format(height) + " 255\n";
    ghost var done: nat := 0;
    var y: nat := 0;
    while y < height
      invariant y <= height && done == y * width && done <= |ps|
      invariant out == RowMajorPrefix(ps, width, height, done)
    {
      var x: nat := 0;
      while x < width
        invariant x <= width && done == y * width + x && done <= |ps|
        invariant out == RowMajorPrefix(ps, width, height, done)
      {
        var i := y * width + x;
        RowMajorStep(ps, width, height, y, x, i);
        var p := pixels[i];
        var record := Format(Red(p)) + " " + Format(Green(p)) + " " + Format(Blue(p)) + "\n";
        out := out + record;
        done := done + 1;
        x := x + 1;
      }
      RowEnd(width, y, done);
      y := y + 1;
    }
    AllRowsDone(width, height, y, done);
    assert ps[..done] == ps;
  }

  /**
   * As written, a 2-column, 3-row buffer has index 2 read twice and index 5
   * never read, so its text is not a row-major dump.
   */
  lemma NonSquareRepeatsAndSkips()
    ensures VisitOrder(2, 3) == [0, 1, 2, 2, 3, 4]
  {
    assert RowIndices(2, 0, 3) == [0, 1, 2];
    assert RowIndices(2, 1, 3) == [2, 3, 4];
  }

  /**
   * As written, a 3-column, 2-row buffer of the right length 6 is indexed at
   * 6, where the slice index panics.
   */
  lemma NonSquarePanics()
    ensures |VisitOrder(3, 2)| == 6
    ensures VisitOrder(3, 2)[4] == 6 && VisitOrder(3, 2)[5] == 7
    ensures forall k :: 0 <= k < 4 ==> VisitOrder(3, 2)[k] < 6
    ensures !InBounds(6, 3, 2)
  {
    VisitStep(3, 2, 0, 0);
    VisitStep(3, 2, 0, 1);
    VisitStep(3, 2, 1, 0);
    VisitStep(3, 2, 1, 1);
    VisitStep(3, 2, 2, 0);
    VisitStep(3, 2, 2, 1);
  }
}
