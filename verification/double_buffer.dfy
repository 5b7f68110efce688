/** The double buffer the renderer draws into: two `width*height` arrays of
    cells in row-major order. Drawing writes the front buffer; the window
    shows the back buffer; `swap` exchanges the two. The lock the drawing
    calls take is left out: every operation here is one atomic step. */
module DoubleBuffering {
  import opened Arith
  import opened Color

  /** A cell keeps the 32 bits of the colour stored in it (see `Color.CellValue`
      for the `int` a reader sees). */
  datatype DoubleBuffer = DoubleBuffer(width: int, height: int, front: seq<Rgb>, back: seq<Rgb>)

  /** Both buffers hold one cell per pixel. */
  predicate Valid(b: DoubleBuffer)
  {
    |b.front| == b.width * b.height && |b.back| == b.width * b.height
  }

  /** Allocating a vector of a negative `int` size converts the size to a huge
      unsigned value, which the vector constructor rejects. */
  datatype Error = LengthError

  datatype Result = Ok(buffer: DoubleBuffer) | Err(error: Error)

  /** The constructor: both buffers zero-filled. The product `width * height` is
      computed in `int`, so it must not overflow. */
  function Create(width: int, height: int): (r: Result)
    requires IsInt32(width) && IsInt32(height) && IsInt32(width * height)
    ensures r.Err? <==> width * height < 0
    ensures r.Ok? ==> Valid(r.buffer) && r.buffer.width == width && r.buffer.height == height
    ensures r.Ok? ==> forall i | 0 <= i < |r.buffer.front| :: r.buffer.front[i] == 0 && r.buffer.back[i] == 0
  {
    if width * height < 0 then Err(LengthError)
    else
      var n := width * height;
      Ok(DoubleBuffer(width, height, seq(n, _ => 0), seq(n, _ => 0)))
  }

  /** The width given at construction: in a well-formed buffer, each of the
      `height` rows holds this many cells. */
  function GetWidth(b: DoubleBuffer): (w: int)
    ensures Valid(b) ==> |b.front| == w * GetHeight(b) && |b.back| == w * GetHeight(b)
  {
    b.width
  }

  /** The height given at construction: in a well-formed buffer, the number of
      rows of `width` cells. */
  function GetHeight(b: DoubleBuffer): (h: int)
    ensures Valid(b) ==> |b.front| == b.width * h && |b.back| == b.width * h
  {
    b.height
  }

  /** The buffer the window displays. Reading it changes nothing: the model's
      state is a value and this function returns a part of it. */
  function GetBackBuffer(b: DoubleBuffer): (shown: seq<Rgb>)
    ensures Valid(b) ==> |shown| == GetWidth(b) * GetHeight(b)
  {
    b.back
  }

  /** The row-major cell of pixel (x, y). */
  function CellIndex(width: int, x: int, y: int): int { x + y * width }

  /** What a write to pixel (x, y) needs: no bounds are checked, so the cell
      index must fall inside the buffer, and the `int` arithmetic computing it
      must not overflow. */
  predicate PixelFits(width: int, height: int, x: int, y: int)
  {
    IsInt32(x) && IsInt32(y) && IsInt32(y * width)
    && 0 <= CellIndex(width, x, y) < width * height
  }

  /** The division and remainder of a row-major index by the width recover the
      column and the row. */
  lemma RowMajorDivMod(width: int, x: int, y: int)
    requires 0 <= x < width
    ensures CellIndex(width, x, y) / width == y
    ensures CellIndex(width, x, y) % width == x
  {
    DivModUnique(CellIndex(width, x, y), width, y, x);
  }

  /** Pixels inside the width-by-height rectangle have their cell inside the buffer. */
  lemma RowMajorInBounds(width: int, height: int, x: int, y: int)
    requires 0 <= x < width && 0 <= y < height
    ensures 0 <= CellIndex(width, x, y) < width * height
  {
    assert y * width <= (height - 1) * width;
  }

  /** Distinct pixels of the rectangle have distinct cells. */
  lemma RowMajorInjective(width: int, x1: int, y1: int, x2: int, y2: int)
    requires 0 <= x1 < width && 0 <= x2 < width
    requires CellIndex(width, x1, y1) == CellIndex(width, x2, y2)
    ensures x1 == x2 && y1 == y2
  {
    RowMajorDivMod(width, x1, y1);
    RowMajorDivMod(width, x2, y2);
  }

  /** Every cell is the cell of exactly one pixel of the rectangle. */
  lemma RowMajorDecode(width: int, height: int, i: int)
    requires 0 < width && 0 <= i < width * height
    ensures 0 <= i % width < width && 0 <= i / width < height
    ensures CellIndex(width, i % width, i / width) == i
  {
    var q := i / width;
    assert q * width <= i;
    if q >= height {
      MulMonotone(height, q, width);
      assert false;
    }
  }

  /** A buffer in which one front cell has been overwritten. */
  function WriteFront(b: DoubleBuffer, i: int, c: Rgb): (r: DoubleBuffer)
    requires Valid(b) && 0 <= i < |b.front|
    ensures Valid(r) && r.width == b.width && r.height == b.height && r.back == b.back
    ensures |r.front| == |b.front| && r.front[i] == c
    ensures forall j | 0 <= j < |b.front| && j != i :: r.front[j] == b.front[j]
  {
    b.(front := b.front[i := c])
  }

  /** `drawPixel`: exactly the front cell of (x, y) takes the colour; every
      other front cell, the back buffer and the dimensions stay as they were. */
  function DrawPixel(b: DoubleBuffer, x: int, y: int, color: Rgb): (r: DoubleBuffer)
    requires Valid(b) && PixelFits(b.width, b.height, x, y)
    ensures Valid(r) && r.width == b.width && r.height == b.height
    ensures r.back == b.back
    ensures |r.front| == |b.front| && r.front[CellIndex(b.width, x, y)] == color
    ensures forall i | 0 <= i < |b.front| && i != CellIndex(b.width, x, y) :: r.front[i] == b.front[i]
  {
    WriteFront(b, CellIndex(b.width, x, y), color)
  }

  /** The number of rows from yStart to yEnd inclusive. */
  function RowCount(yStart: int, yEnd: int): nat
  {
    if yEnd < yStart then 0 else yEnd - yStart + 1
  }

  /** Every row of the column segment is a writable pixel. */
  predicate ColumnFits(width: int, height: int, x: int, yStart: int, yEnd: int)
  {
    forall y {:trigger CellIndex(width, x, y)} | yStart <= y <= yEnd :: PixelFits(width, height, x, y)
  }

  /** The cells of column x from row yStart to row yEnd. */
  function ColumnCells(width: int, x: int, yStart: int, yEnd: int): set<int>
  {
    set y | yStart <= y <= yEnd :: CellIndex(width, x, y)
  }

  /** Two rows of one column share a cell only when the width is zero. */
  lemma ColumnRowsDistinct(width: int, x: int, y1: int, y2: int)
    requires width != 0 && y1 != y2
    ensures CellIndex(width, x, y1) != CellIndex(width, x, y2)
  {
    assert CellIndex(width, x, y1) - CellIndex(width, x, y2) == (y1 - y2) * width;
  }

  /** `drawVertLine`: for each row y from yStart to yEnd, in increasing order,
      the front cell of (x, y) takes the sampled colour of that row, darkened
      when asked. `samples[k]` is the texel the texture lookup returns for row
      yStart + k. No other front cell and nothing of the back buffer changes. */
  function DrawVertLine(b: DoubleBuffer, x: int, yStart: int, yEnd: int,
                        samples: seq<Rgb>, darken: bool): (r: DoubleBuffer)
    requires Valid(b) && ColumnFits(b.width, b.height, x, yStart, yEnd)
    requires |samples| == RowCount(yStart, yEnd)
    ensures Valid(r) && r.width == b.width && r.height == b.height
    ensures r.back == b.back && |r.front| == |b.front|
    ensures forall y | yStart <= y <= yEnd ::
              r.front[CellIndex(b.width, x, y)] == Shade(samples[y - yStart], darken)
    ensures forall i | 0 <= i < |b.front| && i !in ColumnCells(b.width, x, yStart, yEnd) ::
              r.front[i] == b.front[i]
    decreases |samples|
  {
    if yEnd < yStart then b
    else
      assert PixelFits(b.width, b.height, x, yStart);
      var i := CellIndex(b.width, x, yStart);
      var b1 := WriteFront(b, i, Shade(samples[0], darken));
      assert ColumnFits(b1.width, b1.height, x, yStart + 1, yEnd) by {
        forall y | yStart + 1 <= y <= yEnd
          ensures PixelFits(b1.width, b1.height, x, y)
        {
          var _ := CellIndex(b.width, x, y);
        }
      }
      var r := DrawVertLine(b1, x, yStart + 1, yEnd, samples[1..], darken);
      assert b.width != 0;
      forall y | yStart < y <= yEnd
        ensures CellIndex(b.width, x, y) != i
      {
        ColumnRowsDistinct(b.width, x, y, yStart);
      }
      assert i !in ColumnCells(b.width, x, yStart + 1, yEnd);
      assert forall j | 0 <= j < |b.front| && j !in ColumnCells(b.width, x, yStart, yEnd) ::
        j != i && j !in ColumnCells(b.width, x, yStart + 1, yEnd);
      r
  }

  /** The cells `drawVertLine` may touch all lie in column x. */
  lemma ColumnCellsStayInColumn(width: int, x: int, yStart: int, yEnd: int)
    requires 0 <= x < width
    ensures forall i | i in ColumnCells(width, x, yStart, yEnd) :: i % width == x
  {
    forall i | i in ColumnCells(width, x, yStart, yEnd)
      ensures i % width == x
    {
      var y :| yStart <= y <= yEnd && i == CellIndex(width, x, y);
      RowMajorDivMod(width, x, y);
    }
  }

  /** `swap`: the displayed buffer becomes what was drawn, and drawing resumes
      on the previously displayed buffer, which is not cleared. */
  function Swap(b: DoubleBuffer): (r: DoubleBuffer)
    requires Valid(b)
    ensures Valid(r) && r.width == b.width && r.height == b.height
    ensures GetBackBuffer(r) == b.front && r.front == GetBackBuffer(b)
  {
    b.(front := b.back, back := b.front)
  }

  /** Swapping twice restores the buffer. */
  lemma SwapInvolution(b: DoubleBuffer)
    requires Valid(b)
    ensures Swap(Swap(b)) == b
  {
  }

  /** The calls that change a double buffer: only these three touch the buffers. */
  datatype Op =
    | Pixel(x: int, y: int, color: Rgb)
    | VertLine(col: int, yStart: int, yEnd: int, samples: seq<Rgb>, darken: bool)
    | SwapBuffers

  /** What a call needs of the buffer; it depends only on the dimensions. */
  predicate Fits(width: int, height: int, op: Op)
  {
    match op
    case Pixel(x, y, _) => PixelFits(width, height, x, y)
    case VertLine(x, yStart, yEnd, samples, _) =>
      ColumnFits(width, height, x, yStart, yEnd) && |samples| == RowCount(yStart, yEnd)
    case SwapBuffers => true
  }

  function Step(b: DoubleBuffer, op: Op): (r: DoubleBuffer)
    requires Valid(b) && Fits(b.width, b.height, op)
    ensures Valid(r) && r.width == b.width && r.height == b.height
    ensures !op.SwapBuffers? ==> r.back == b.back
  {
    match op
    case Pixel(x, y, c) => DrawPixel(b, x, y, c)
    case VertLine(x, yStart, yEnd, samples, darken) => DrawVertLine(b, x, yStart, yEnd, samples, darken)
    case SwapBuffers => Swap(b)
  }

  predicate AllFit(width: int, height: int, ops: seq<Op>)
  {
    forall k | 0 <= k < |ops| :: Fits(width, height, ops[k])
  }

  predicate NoSwap(ops: seq<Op>)
  {
    forall k | 0 <= k < |ops| :: !ops[k].SwapBuffers?
  }

  /** A sequence of calls applied in order. The dimensions never change, and
      without a swap the displayed buffer does not change either. */
  function Run(b: DoubleBuffer, ops: seq<Op>): (r: DoubleBuffer)
    requires Valid(b) && AllFit(b.width, b.height, ops)
    ensures Valid(r) && GetWidth(r) == GetWidth(b) && GetHeight(r) == GetHeight(b)
    ensures NoSwap(ops) ==> GetBackBuffer(r) == GetBackBuffer(b)
    decreases |ops|
  {
    if ops == [] then b else Run(Step(b, ops[0]), ops[1..])
  }

  /** Running two sequences of calls one after the other is running their concatenation. */
  lemma {:induction false} RunAppend(b: DoubleBuffer, p: seq<Op>, q: seq<Op>)
    requires Valid(b) && AllFit(b.width, b.height, p) && AllFit(b.width, b.height, q)
    ensures AllFit(b.width, b.height, p + q)
    ensures Run(b, p + q) == Run(Run(b, p), q)
    decreases |p|
  {
    assert AllFit(b.width, b.height, p + q) by {
      forall k | 0 <= k < |p + q|
        ensures Fits(b.width, b.height, (p + q)[k])
      {
        if k < |p| { assert (p + q)[k] == p[k]; } else { assert (p + q)[k] == q[k - |p|]; }
      }
    }
    if p == [] {
      assert p + q == q;
    } else {
      var b1 := Step(b, p[0]);
      assert (p + q)[0] == p[0];
      assert (p + q)[1..] == p[1..] + q;
      assert AllFit(b1.width, b1.height, p[1..]) by {
        forall k | 0 <= k < |p[1..]| ensures Fits(b.width, b.height, p[1..][k]) {
          assert p[1..][k] == p[k + 1];
        }
      }
      RunAppend(b1, p[1..], q);
      assert Run(b, p + q) == Run(b1, p[1..] + q);
      assert Run(b, p) == Run(b1, p[1..]);
    }
  }

  /** A buffer created with some dimensions reports them after any sequence of calls. */
  lemma DimensionsFixed(width: int, height: int, ops: seq<Op>)
    requires IsInt32(width) && IsInt32(height) && IsInt32(width * height) && width * height >= 0
    requires AllFit(width, height, ops)
    ensures Create(width, height).Ok?
    ensures GetWidth(Run(Create(width, height).buffer, ops)) == width
    ensures GetHeight(Run(Create(width, height).buffer, ops)) == height
  {
  }

  /** No tearing: once a frame's calls are followed by a swap, the displayed
      buffer is exactly the front buffer that frame produced, and it stays so
      while the next frame is drawn, until the next swap. */
  lemma PresentedFrameIsStable(b: DoubleBuffer, frame: seq<Op>, next: seq<Op>)
    requires Valid(b) && AllFit(b.width, b.height, frame) && AllFit(b.width, b.height, next)
    requires NoSwap(next)
    ensures AllFit(b.width, b.height, frame + [SwapBuffers] + next)
    ensures GetBackBuffer(Run(b, frame + [SwapBuffers] + next)) == Run(b, frame).front
  {
    assert AllFit(b.width, b.height, [SwapBuffers]);
    RunAppend(b, frame, [SwapBuffers]);
    var f := Run(b, frame);
    assert Run(f, [SwapBuffers]) == Swap(f);
    RunAppend(b, frame + [SwapBuffers], next);
  }

  /** A renderer that draws every pixel of a frame, cell by cell in row-major
      order, leaves that frame in the front buffer whatever the buffer held
      before, and does not touch the displayed buffer. */
  method PaintFrame(b: DoubleBuffer, frame: seq<Rgb>) returns (r: DoubleBuffer)
    requires Valid(b) && 0 < b.width && IsInt32(b.height) && IsInt32(b.width * b.height)
    requires |frame| == |b.front|
    ensures Valid(r) && r.width == b.width && r.height == b.height
    ensures r.front == frame && r.back == b.back
  {
    r := b;
    var i := 0;
    while i < |frame|
      invariant 0 <= i <= |frame|
      invariant Valid(r) && r.width == b.width && r.height == b.height && r.back == b.back
      invariant forall j | 0 <= j < i :: r.front[j] == frame[j]
    {
      var x, y := i % b.width, i / b.width;
      RowMajorDecode(b.width, b.height, i);
      assert y * b.width <= i;
      r := DrawPixel(r, x, y, frame[i]);
      i := i + 1;
    }
  }

  /** Frame capture: after a frame's drawing calls and a swap, the displayed
      buffer is exactly the frame drawn, and the next frame is drawn over the
      buffer that was displayed before the swap, which is not cleared. */
  lemma SwapPublishesFront(b: DoubleBuffer, frame: seq<Op>)
    requires Valid(b) && AllFit(b.width, b.height, frame) && NoSwap(frame)
    ensures AllFit(b.width, b.height, frame + [SwapBuffers])
    ensures GetBackBuffer(Run(b, frame + [SwapBuffers])) == Run(b, frame).front
    ensures Run(b, frame + [SwapBuffers]).front == GetBackBuffer(b)
  {
    assert AllFit(b.width, b.height, [SwapBuffers]);
    RunAppend(b, frame, [SwapBuffers]);
    var f := Run(b, frame);
    assert Run(f, [SwapBuffers]) == Swap(f);
  }
}
