/** The demo's depth read-out around the mouse cursor: the cursor update of
    `Update` and the window average of `MedianDepth` over a 640x480 buffer of
    16-bit depth samples in millimetres. */
module DepthSampling {
  import opened Casts

  const FrameWidth := 640
  const FrameHeight := 480
  const FrameSize := FrameWidth * FrameHeight

  /** Samples outside the open range (0, 5000) mm are ignored. */
  const MinimumDepth := 0
  const MaximumDepth := 5000

  type UInt16 = v: int | 0 <= v < 0x1_0000

  predicate IsValidSample(v: int)
  {
    MinimumDepth < v < MaximumDepth
  }

  // ---------------------------------------------------------------------------
  // The cursor

  datatype Cursor = Cursor(x: int, y: int)

  /** The cursor starts at the centre of the frame. */
  const InitialCursor := Cursor(FrameWidth / 2, FrameHeight / 2)

  /** Unity's mouse position: origin at the bottom left, Y upwards. */
  datatype MousePosition = MousePosition(x: real, y: real)

  predicate IsOverFrame(m: MousePosition)
  {
    0.0 <= m.x <= FrameWidth as real && 0.0 <= m.y <= FrameHeight as real
  }

  /** The cursor lies on the frame or on its right or bottom edge. */
  predicate CursorInRange(c: Cursor)
  {
    0 <= c.x <= FrameWidth && 0 <= c.y <= FrameHeight
  }

  /** The cursor update in `Update`: a mouse over the frame moves the cursor to
      the mouse pixel, with Y flipped to count from the top; anywhere else the
      cursor stays put. */
  function UpdateCursor(c: Cursor, m: MousePosition): (r: Cursor)
    ensures IsOverFrame(m) ==> CursorInRange(r)
    ensures IsOverFrame(m) ==> r.x as real <= m.x < r.x as real + 1.0
    ensures IsOverFrame(m) ==> (FrameHeight - r.y) as real <= m.y < (FrameHeight - r.y) as real + 1.0
    ensures !IsOverFrame(m) ==> r == c
  {
    if IsOverFrame(m) then Cursor(TruncateToInt(m.x), FrameHeight - TruncateToInt(m.y)) else c
  }

  /** The cursor after a sequence of frames' mouse positions. */
  function CursorAfter(c: Cursor, moves: seq<MousePosition>): Cursor
    decreases |moves|
  {
    if moves == [] then c else CursorAfter(UpdateCursor(c, moves[0]), moves[1..])
  }

  /** Starting from the centre, the cursor never leaves the frame, whatever the
      mouse does. */
  lemma {:induction false} CursorStaysInRange(c: Cursor, moves: seq<MousePosition>)
    requires CursorInRange(c)
    ensures CursorInRange(CursorAfter(c, moves))
    ensures CursorInRange(CursorAfter(InitialCursor, moves))
    decreases |moves|
  {
    if moves != [] {
      CursorStaysInRange(UpdateCursor(c, moves[0]), moves[1..]);
      CursorStaysInRange(UpdateCursor(InitialCursor, moves[0]), moves[1..]);
    }
  }

  // ---------------------------------------------------------------------------
  // The sampling window

  /** A half-open range of columns or rows. */
  datatype Span = Span(lo: int, hi: int)

  predicate InSpan(s: Span, v: int)
  {
    s.lo <= v < s.hi
  }

  datatype Window = Window(columns: Span, rows: Span)

  /** The window `[x - radius, x + radius)` by `[y - radius, y + radius)`
      clipped to the frame: a column (row) is in it exactly when it is within
      the radius and on the frame. */
  function SampleWindow(c: Cursor, radius: int): (w: Window)
    ensures 0 <= w.columns.lo && w.columns.hi <= FrameWidth
    ensures 0 <= w.rows.lo && w.rows.hi <= FrameHeight
    ensures forall v :: InSpan(w.columns, v) <==> c.x - radius <= v < c.x + radius && 0 <= v < FrameWidth
    ensures forall v :: InSpan(w.rows, v) <==> c.y - radius <= v < c.y + radius && 0 <= v < FrameHeight
  {
    var xMin := if c.x - radius >= 0 then c.x - radius else 0;
    var xMax := if c.x + radius <= FrameWidth then c.x + radius else FrameWidth;
    var yMin := if c.y - radius >= 0 then c.y - radius else 0;
    var yMax := if c.y + radius <= FrameHeight then c.y + radius else FrameHeight;
    Window(Span(xMin, xMax), Span(yMin, yMax))
  }

  /** The sample at column `x`, row `y` of a row-major frame. */
  function PixelAt(data: seq<UInt16>, x: int, y: int): int
    requires |data| == FrameSize && 0 <= x < FrameWidth && 0 <= y < FrameHeight
  {
    data[y * FrameWidth + x]
  }

  /** The samples the inner loop keeps from column `x`, rows `rows.lo` up to
      `hi`, in row order. */
  function ColumnSamples(data: seq<UInt16>, x: int, rows: Span, hi: int): (s: seq<int>)
    requires |data| == FrameSize && 0 <= x < FrameWidth
    requires 0 <= rows.lo && (hi <= rows.lo || hi <= FrameHeight)
    ensures forall i :: 0 <= i < |s| ==> IsValidSample(s[i])
    ensures |s| <= if rows.lo <= hi then hi - rows.lo else 0
    decreases hi - rows.lo
  {
    if hi <= rows.lo then []
    else
      var v := PixelAt(data, x, hi - 1);
      ColumnSamples(data, x, rows, hi - 1) + if IsValidSample(v) then [v] else []
  }

  /** The samples the two loops keep from the columns `w.columns.lo` up to
      `hi`: column by column, each column in row order. */
  function WindowSamplesUpTo(data: seq<UInt16>, w: Window, hi: int): (s: seq<int>)
    requires |data| == FrameSize
    requires 0 <= w.columns.lo && (hi <= w.columns.lo || hi <= FrameWidth)
    requires 0 <= w.rows.lo && w.rows.hi <= FrameHeight
    ensures forall i :: 0 <= i < |s| ==> IsValidSample(s[i])
    decreases hi - w.columns.lo
  {
    if hi <= w.columns.lo then []
    else WindowSamplesUpTo(data, w, hi - 1) + ColumnSamples(data, hi - 1, w.rows, w.rows.hi)
  }

  /** Every sample the loops keep from the window, in loop order. */
  function WindowSamples(data: seq<UInt16>, w: Window): (s: seq<int>)
    requires |data| == FrameSize
    requires 0 <= w.columns.lo && w.columns.hi <= FrameWidth
    requires 0 <= w.rows.lo && w.rows.hi <= FrameHeight
  {
    WindowSamplesUpTo(data, w, w.columns.hi)
  }

  /** A window pixel of the frame. */
  predicate InWindow(w: Window, x: int, y: int)
  {
    InSpan(w.columns, x) && InSpan(w.rows, y) && 0 <= x < FrameWidth && 0 <= y < FrameHeight
  }

  /** The samples kept from one column are exactly its valid window pixels. */
  lemma {:induction false} ColumnSamplesAreTheValidPixels(data: seq<UInt16>, x: int, rows: Span, hi: int)
    requires |data| == FrameSize && 0 <= x < FrameWidth
    requires 0 <= rows.lo && (hi <= rows.lo || hi <= FrameHeight)
    ensures forall v :: v in ColumnSamples(data, x, rows, hi) <==>
      exists y :: rows.lo <= y < hi && PixelAt(data, x, y) == v && IsValidSample(v)
    decreases hi - rows.lo
  {
    if rows.lo < hi {
      ColumnSamplesAreTheValidPixels(data, x, rows, hi - 1);
      var v := PixelAt(data, x, hi - 1);
      assert ColumnSamples(data, x, rows, hi) == ColumnSamples(data, x, rows, hi - 1) + if IsValidSample(v) then [v] else [];
    }
  }

  /** The samples kept from the window are exactly its valid pixels: nothing
      outside the window or the depth range is averaged, and nothing valid in
      it is missed. */
  lemma WindowSamplesAreTheValidPixels(data: seq<UInt16>, w: Window, hi: int)
    requires |data| == FrameSize
    requires 0 <= w.columns.lo && w.columns.hi <= FrameWidth && (hi <= w.columns.lo || hi <= w.columns.hi)
    requires 0 <= w.rows.lo && w.rows.hi <= FrameHeight
    ensures forall v :: v in WindowSamplesUpTo(data, w, hi) <==>
      exists x, y :: w.columns.lo <= x < hi && InWindow(w, x, y) && PixelAt(data, x, y) == v && IsValidSample(v)
  {
    if w.columns.lo < hi {
      WindowMembershipHolds(data, w, hi);
    }
  }

  /** The valid pixels of the columns `w.columns.lo` up to `hi` that hold `v`. */
  ghost predicate IsValidWindowValue(data: seq<UInt16>, w: Window, hi: int, v: int)
    requires |data| == FrameSize
    requires 0 <= w.columns.lo && hi <= FrameWidth
  {
    exists x, y :: w.columns.lo <= x < hi && InWindow(w, x, y) && PixelAt(data, x, y) == v && IsValidSample(v)
  }

  /** The samples kept from column `x` are exactly its valid pixels in `rows`. */
  ghost predicate ColumnSamplesAreItsValidPixels(data: seq<UInt16>, x: int, rows: Span)
    requires |data| == FrameSize && 0 <= x < FrameWidth
    requires 0 <= rows.lo && rows.hi <= FrameHeight
  {
    forall v :: v in ColumnSamples(data, x, rows, rows.hi) <==>
      exists y :: rows.lo <= y < rows.hi && PixelAt(data, x, y) == v && IsValidSample(v)
  }

  /** Every sample kept from the columns up to `hi` is a valid window pixel. */
  ghost predicate SamplesAreWindowPixels(data: seq<UInt16>, w: Window, hi: int)
    requires |data| == FrameSize
    requires 0 <= w.columns.lo <= hi <= w.columns.hi <= FrameWidth
    requires 0 <= w.rows.lo && w.rows.hi <= FrameHeight
  {
    forall v :: v in WindowSamplesUpTo(data, w, hi) ==> IsValidWindowValue(data, w, hi, v)
  }

  /** Every valid window pixel of the columns up to `hi` is kept. */
  ghost predicate WindowPixelsAreSampled(data: seq<UInt16>, w: Window, hi: int)
    requires |data| == FrameSize
    requires 0 <= w.columns.lo <= hi <= w.columns.hi <= FrameWidth
    requires 0 <= w.rows.lo && w.rows.hi <= FrameHeight
  {
    forall v :: IsValidWindowValue(data, w, hi, v) ==> v in WindowSamplesUpTo(data, w, hi)
  }

  /** The induction over the columns. */
  lemma {:induction false} WindowMembershipHolds(data: seq<UInt16>, w: Window, hi: int)
    requires |data| == FrameSize
    requires 0 <= w.columns.lo <= hi <= w.columns.hi <= FrameWidth
    requires 0 <= w.rows.lo && w.rows.hi <= FrameHeight
    ensures SamplesAreWindowPixels(data, w, hi) && WindowPixelsAreSampled(data, w, hi)
    decreases hi
  {
    if w.columns.lo < hi {
      WindowMembershipHolds(data, w, hi - 1);
      ColumnSamplesAreTheValidPixels(data, hi - 1, w.rows, w.rows.hi);
      SamplesStayWindowPixels(data, w, hi);
      WindowPixelsStaySampled(data, w, hi);
    }
  }

  /** The samples of one more column are window pixels too. */
  lemma SamplesStayWindowPixels(data: seq<UInt16>, w: Window, hi: int)
    requires |data| == FrameSize
    requires 0 <= w.columns.lo < hi <= w.columns.hi <= FrameWidth
    requires 0 <= w.rows.lo && w.rows.hi <= FrameHeight
    requires SamplesAreWindowPixels(data, w, hi - 1)
    requires ColumnSamplesAreItsValidPixels(data, hi - 1, w.rows)
    ensures SamplesAreWindowPixels(data, w, hi)
  {
    assert WindowSamplesUpTo(data, w, hi) == WindowSamplesUpTo(data, w, hi - 1) + ColumnSamples(data, hi - 1, w.rows, w.rows.hi);
    forall v | v in WindowSamplesUpTo(data, w, hi)
      ensures IsValidWindowValue(data, w, hi, v)
    {
      if v in WindowSamplesUpTo(data, w, hi - 1) {
        var x, y :| w.columns.lo <= x < hi - 1 && InWindow(w, x, y) && PixelAt(data, x, y) == v && IsValidSample(v);
        assert w.columns.lo <= x < hi;
      } else {
        var y :| w.rows.lo <= y < w.rows.hi && PixelAt(data, hi - 1, y) == v && IsValidSample(v);
        assert InWindow(w, hi - 1, y);
      }
    }
  }

  /** The valid pixels of one more column are all kept. */
  lemma WindowPixelsStaySampled(data: seq<UInt16>, w: Window, hi: int)
    requires |data| == FrameSize
    requires 0 <= w.columns.lo < hi <= w.columns.hi <= FrameWidth
    requires 0 <= w.rows.lo && w.rows.hi <= FrameHeight
    requires WindowPixelsAreSampled(data, w, hi - 1)
    requires ColumnSamplesAreItsValidPixels(data, hi - 1, w.rows)
    ensures WindowPixelsAreSampled(data, w, hi)
  {
    assert WindowSamplesUpTo(data, w, hi) == WindowSamplesUpTo(data, w, hi - 1) + ColumnSamples(data, hi - 1, w.rows, w.rows.hi);
    forall v | IsValidWindowValue(data, w, hi, v)
      ensures v in WindowSamplesUpTo(data, w, hi)
    {
      var x, y :| w.columns.lo <= x < hi && InWindow(w, x, y) && PixelAt(data, x, y) == v && IsValidSample(v);
      if x == hi - 1 {
        assert v in ColumnSamples(data, hi - 1, w.rows, w.rows.hi);
      } else {
        assert IsValidWindowValue(data, w, hi - 1, v);
      }
    }
  }

  /** The pixels of column `x`, rows `rows.lo` up to `hi`, that hold the valid
      value `v`. */
  ghost function ColumnPixelsHolding(data: seq<UInt16>, x: int, rows: Span, hi: int, v: int): set<(int, int)>
    requires |data| == FrameSize && 0 <= x < FrameWidth
    requires 0 <= rows.lo && (hi <= rows.lo || hi <= FrameHeight)
  {
    set y | rows.lo <= y < hi && PixelAt(data, x, y) == v && IsValidSample(v) :: (x, y)
  }

  /** The window pixels in columns `w.columns.lo` up to `hi` that hold the valid
      value `v`. */
  ghost function WindowPixelsHolding(data: seq<UInt16>, w: Window, hi: int, v: int): set<(int, int)>
    requires |data| == FrameSize
    requires 0 <= w.columns.lo && (hi <= w.columns.lo || hi <= FrameWidth)
    requires 0 <= w.rows.lo && w.rows.hi <= FrameHeight
  {
    set x, y | w.columns.lo <= x < hi && w.rows.lo <= y < w.rows.hi && PixelAt(data, x, y) == v && IsValidSample(v) :: (x, y)
  }

  /** A column contributes each value exactly as often as its pixels hold it. */
  ghost predicate ColumnCounted(data: seq<UInt16>, x: int, rows: Span, hi: int, v: int)
    requires |data| == FrameSize && 0 <= x < FrameWidth
    requires 0 <= rows.lo <= hi <= FrameHeight
  {
    multiset(ColumnSamples(data, x, rows, hi))[v] == |ColumnPixelsHolding(data, x, rows, hi, v)|
  }

  lemma ColumnSamplesCountThePixels(data: seq<UInt16>, x: int, rows: Span, hi: int, v: int)
    requires |data| == FrameSize && 0 <= x < FrameWidth
    requires 0 <= rows.lo && (hi <= rows.lo || hi <= FrameHeight)
    ensures multiset(ColumnSamples(data, x, rows, hi))[v] == |ColumnPixelsHolding(data, x, rows, hi, v)|
  {
    if hi <= rows.lo {
      NoRowsHoldNothing(data, x, rows, hi, v);
    } else {
      ColumnsAreCounted(data, x, rows, hi, v);
    }
  }

  /** The induction over the rows `rows.lo` up to `hi`. */
  lemma {:induction false} ColumnsAreCounted(data: seq<UInt16>, x: int, rows: Span, hi: int, v: int)
    requires |data| == FrameSize && 0 <= x < FrameWidth
    requires 0 <= rows.lo <= hi <= FrameHeight
    ensures ColumnCounted(data, x, rows, hi, v)
    decreases hi
  {
    if hi == rows.lo {
      NoRowsHoldNothing(data, x, rows, hi, v);
    } else {
      ColumnsAreCounted(data, x, rows, hi - 1, v);
      ColumnCountStep(data, x, rows, hi, v);
    }
  }

  /** The inductive step: if the first rows are counted right, so is one more
      row. */
  lemma ColumnCountStep(data: seq<UInt16>, x: int, rows: Span, hi: int, v: int)
    requires |data| == FrameSize && 0 <= x < FrameWidth
    requires 0 <= rows.lo < hi <= FrameHeight
    requires ColumnCounted(data, x, rows, hi - 1, v)
    ensures ColumnCounted(data, x, rows, hi, v)
  {
    ColumnSamplesGrow(data, x, rows, hi, v);
    ColumnPixelsGrow(data, x, rows, hi, v);
  }

  /** An empty range of rows holds no pixel. */
  lemma NoRowsHoldNothing(data: seq<UInt16>, x: int, rows: Span, hi: int, v: int)
    requires |data| == FrameSize && 0 <= x < FrameWidth
    requires 0 <= rows.lo && hi <= rows.lo
    ensures multiset(ColumnSamples(data, x, rows, hi))[v] == 0
    ensures |ColumnPixelsHolding(data, x, rows, hi, v)| == 0
  {
    assert ColumnPixelsHolding(data, x, rows, hi, v) == {};
  }

  /** One more row adds one occurrence of `v` exactly when that pixel holds it. */
  lemma ColumnSamplesGrow(data: seq<UInt16>, x: int, rows: Span, hi: int, v: int)
    requires |data| == FrameSize && 0 <= x < FrameWidth
    requires 0 <= rows.lo < hi <= FrameHeight
    ensures multiset(ColumnSamples(data, x, rows, hi))[v]
         == multiset(ColumnSamples(data, x, rows, hi - 1))[v] + if PixelAt(data, x, hi - 1) == v && IsValidSample(v) then 1 else 0
  {
    var p := PixelAt(data, x, hi - 1);
    var kept := if IsValidSample(p) then [p] else [];
    assert ColumnSamples(data, x, rows, hi) == ColumnSamples(data, x, rows, hi - 1) + kept;
    assert multiset(ColumnSamples(data, x, rows, hi))
        == multiset(ColumnSamples(data, x, rows, hi - 1)) + multiset(kept);
  }

  /** One more row adds one pixel holding `v` exactly when that pixel holds it. */
  lemma ColumnPixelsGrow(data: seq<UInt16>, x: int, rows: Span, hi: int, v: int)
    requires |data| == FrameSize && 0 <= x < FrameWidth
    requires 0 <= rows.lo < hi <= FrameHeight
    ensures |ColumnPixelsHolding(data, x, rows, hi, v)|
         == |ColumnPixelsHolding(data, x, rows, hi - 1, v)| + if PixelAt(data, x, hi - 1) == v && IsValidSample(v) then 1 else 0
  {
    var before := ColumnPixelsHolding(data, x, rows, hi - 1, v);
    var last: set<(int, int)> := if PixelAt(data, x, hi - 1) == v && IsValidSample(v) then {(x, hi - 1)} else {};
    assert ColumnPixelsHolding(data, x, rows, hi, v) == before + last;
    assert (x, hi - 1) !in before;
    DisjointUnionSize(before, last);
  }

  /** Two disjoint sets have as many elements together as apart. */
  lemma DisjointUnionSize<T>(a: set<T>, b: set<T>)
    requires a * b == {}
    ensures |a + b| == |a| + |b|
  {
  }

  /** The loops keep each value exactly as often as the window's pixels hold it
      as a valid sample: the averaged list is the window's valid pixels counted
      with multiplicity, not merely the set of their values. */
  lemma WindowSamplesCountThePixels(data: seq<UInt16>, w: Window, hi: int, v: int)
    requires |data| == FrameSize
    requires 0 <= w.columns.lo && (hi <= w.columns.lo || hi <= FrameWidth)
    requires 0 <= w.rows.lo && w.rows.hi <= FrameHeight
    ensures multiset(WindowSamplesUpTo(data, w, hi))[v] == |WindowPixelsHolding(data, w, hi, v)|
  {
    if hi <= w.columns.lo {
      NoColumnsHoldNothing(data, w, hi, v);
    } else {
      WindowsAreCounted(data, w, hi, v);
    }
  }

  ghost predicate WindowCounted(data: seq<UInt16>, w: Window, hi: int, v: int)
    requires |data| == FrameSize
    requires 0 <= w.columns.lo <= hi <= FrameWidth
    requires 0 <= w.rows.lo && w.rows.hi <= FrameHeight
  {
    multiset(WindowSamplesUpTo(data, w, hi))[v] == |WindowPixelsHolding(data, w, hi, v)|
  }

  /** The induction over the columns `w.columns.lo` up to `hi`. */
  lemma {:induction false} WindowsAreCounted(data: seq<UInt16>, w: Window, hi: int, v: int)
    requires |data| == FrameSize
    requires 0 <= w.columns.lo <= hi <= FrameWidth
    requires 0 <= w.rows.lo && w.rows.hi <= FrameHeight
    ensures WindowCounted(data, w, hi, v)
    decreases hi
  {
    if hi == w.columns.lo {
      NoColumnsHoldNothing(data, w, hi, v);
    } else {
      WindowsAreCounted(data, w, hi - 1, v);
      WindowCountStep(data, w, hi, v);
    }
  }

  /** The inductive step: if the first columns are counted right, so is one
      more column. */
  lemma WindowCountStep(data: seq<UInt16>, w: Window, hi: int, v: int)
    requires |data| == FrameSize
    requires 0 <= w.columns.lo < hi <= FrameWidth
    requires 0 <= w.rows.lo && w.rows.hi <= FrameHeight
    requires WindowCounted(data, w, hi - 1, v)
    ensures WindowCounted(data, w, hi, v)
  {
    ColumnSamplesCountThePixels(data, hi - 1, w.rows, w.rows.hi, v);
    WindowSamplesGrow(data, w, hi, v);
    WindowPixelsGrow(data, w, hi, v);
  }

  /** An empty range of columns holds no pixel. */
  lemma NoColumnsHoldNothing(data: seq<UInt16>, w: Window, hi: int, v: int)
    requires |data| == FrameSize
    requires 0 <= w.columns.lo && hi <= w.columns.lo
    requires 0 <= w.rows.lo && w.rows.hi <= FrameHeight
    ensures multiset(WindowSamplesUpTo(data, w, hi))[v] == 0
    ensures |WindowPixelsHolding(data, w, hi, v)| == 0
  {
    assert WindowPixelsHolding(data, w, hi, v) == {};
  }

  /** One more column adds that column's occurrences of `v`. */
  lemma WindowSamplesGrow(data: seq<UInt16>, w: Window, hi: int, v: int)
    requires |data| == FrameSize
    requires 0 <= w.columns.lo < hi <= FrameWidth
    requires 0 <= w.rows.lo && w.rows.hi <= FrameHeight
    ensures multiset(WindowSamplesUpTo(data, w, hi))[v]
         == multiset(WindowSamplesUpTo(data, w, hi - 1))[v] + multiset(ColumnSamples(data, hi - 1, w.rows, w.rows.hi))[v]
  {
    assert WindowSamplesUpTo(data, w, hi)
        == WindowSamplesUpTo(data, w, hi - 1) + ColumnSamples(data, hi - 1, w.rows, w.rows.hi);
    assert multiset(WindowSamplesUpTo(data, w, hi))
        == multiset(WindowSamplesUpTo(data, w, hi - 1)) + multiset(ColumnSamples(data, hi - 1, w.rows, w.rows.hi));
  }

  /** One more column adds that column's pixels holding `v`. */
  lemma WindowPixelsGrow(data: seq<UInt16>, w: Window, hi: int, v: int)
    requires |data| == FrameSize
    requires 0 <= w.columns.lo < hi <= FrameWidth
    requires 0 <= w.rows.lo && w.rows.hi <= FrameHeight
    ensures |WindowPixelsHolding(data, w, hi, v)|
         == |WindowPixelsHolding(data, w, hi - 1, v)| + |ColumnPixelsHolding(data, hi - 1, w.rows, w.rows.hi, v)|
  {
    var before := WindowPixelsHolding(data, w, hi - 1, v);
    var column := ColumnPixelsHolding(data, hi - 1, w.rows, w.rows.hi, v);
    assert WindowPixelsHolding(data, w, hi, v) == before + column;
    assert before * column == {};
    DisjointUnionSize(before, column);
  }

  /** There are never more samples than window pixels, and so never more than
      `(2 * radius)^2`. */
  lemma {:induction false} SampleCountIsBounded(data: seq<UInt16>, w: Window, hi: int)
    requires |data| == FrameSize
    requires 0 <= w.columns.lo && (hi <= w.columns.lo || hi <= FrameWidth)
    requires 0 <= w.rows.lo && w.rows.hi <= FrameHeight
    ensures |WindowSamplesUpTo(data, w, hi)| <=
      (if w.columns.lo <= hi then hi - w.columns.lo else 0) * (if w.rows.lo <= w.rows.hi then w.rows.hi - w.rows.lo else 0)
    decreases hi - w.columns.lo
  {
    if w.columns.lo < hi {
      SampleCountIsBounded(data, w, hi - 1);
      var height := if w.rows.lo <= w.rows.hi then w.rows.hi - w.rows.lo else 0;
      assert (hi - w.columns.lo) * height == (hi - 1 - w.columns.lo) * height + height;
    }
  }

  /** The window around any cursor holds at most `(2 * radius)^2` samples. */
  lemma WindowHoldsAtMostTheSquare(data: seq<UInt16>, c: Cursor, radius: int)
    requires |data| == FrameSize && 0 <= radius
    ensures |WindowSamples(data, SampleWindow(c, radius))| <= (2 * radius) * (2 * radius)
  {
    var w := SampleWindow(c, radius);
    SampleCountIsBounded(data, w, w.columns.hi);
    var cw := if w.columns.lo <= w.columns.hi then w.columns.hi - w.columns.lo else 0;
    var rh := if w.rows.lo <= w.rows.hi then w.rows.hi - w.rows.lo else 0;
    ProductIsMonotone(cw, 2 * radius, rh, 2 * radius);
  }

  lemma ProductIsMonotone(a: int, b: int, c: int, d: int)
    requires 0 <= a <= b && 0 <= c <= d
    ensures a * c <= b * d
  {
    assert a * c <= b * c;
  }

  // ---------------------------------------------------------------------------
  // The average

  function Sum(s: seq<int>): int
    decreases |s|
  {
    if s == [] then 0 else Sum(s[..|s| - 1]) + s[|s| - 1]
  }

  /** The value `MedianDepth` returns as written: the running total starts at
      the cursor pixel's depth reading (metres), adds every kept sample
      (millimetres), and is then divided by the count and by 1000. With no
      sample that reading is returned unchanged. */
  function SeededAverage(s: seq<int>, depth: real): real
  {
    if |s| == 0 then depth else (depth + Sum(s) as real) / (|s| as real) / 1000.0
  }

  /** The mean of the samples, in metres. */
  function MeanMetres(s: seq<int>): real
    requires |s| > 0
  {
    Sum(s) as real / (|s| as real) / 1000.0
  }

  /** `MedianDepth` as written. Despite its name it averages; the result is
      `SeededAverage` of the window's samples. */
  method MedianDepth(data: seq<UInt16>, c: Cursor, radius: int, depth: real) returns (result: real)
    requires |data| == FrameSize
    ensures result == SeededAverage(WindowSamples(data, SampleWindow(c, radius)), depth)
  {
    var values := CollectSamples(data, SampleWindow(c, radius));
    result := AverageOnto(depth, values);
  }

  /** The tail of `MedianDepth`: with samples, add them onto the cursor
      pixel's reading and divide by the count and by 1000; without, keep the reading. */
  method AverageOnto(depth: real, values: seq<int>) returns (result: real)
    ensures result == SeededAverage(values, depth)
  {
    result := Accumulate(depth, values);
    if |values| > 0 {
      result := result / (|values| as real);
      result := result / 1000.0;
    }
  }

  /** The `foreach` that adds every kept sample onto a running total. */
  method Accumulate(start: real, values: seq<int>) returns (total: real)
    ensures total == start + Sum(values) as real
  {
    total := start;
    var i := 0;
    while i < |values|
      invariant 0 <= i <= |values|
      invariant total == start + Sum(values[..i]) as real
    {
      assert values[..i + 1][..i] == values[..i];
      total := total + values[i] as real;
      i := i + 1;
    }
    assert values[..|values|] == values;
  }

  /** The outer loop over the window's columns, keeping the samples in the
      valid range. */
  method CollectSamples(data: seq<UInt16>, w: Window) returns (values: seq<int>)
    requires |data| == FrameSize
    requires 0 <= w.columns.lo && w.columns.hi <= FrameWidth
    requires 0 <= w.rows.lo && w.rows.hi <= FrameHeight
    ensures values == WindowSamples(data, w)
  {
    values := [];
    var x := w.columns.lo;
    while x < w.columns.hi
      invariant x == w.columns.lo || w.columns.lo < x <= w.columns.hi
      invariant values == WindowSamplesUpTo(data, w, x)
    {
      var column := CollectColumn(data, x, w.rows);
      values := values + column;
      x := x + 1;
    }
  }

  /** The inner loop over the rows of column `x`. */
  method CollectColumn(data: seq<UInt16>, x: int, rows: Span) returns (column: seq<int>)
    requires |data| == FrameSize && 0 <= x < FrameWidth
    requires 0 <= rows.lo && rows.hi <= FrameHeight
    ensures column == ColumnSamples(data, x, rows, rows.hi)
  {
    column := [];
    var y := rows.lo;
    while y < rows.hi
      invariant y == rows.lo || rows.lo < y <= rows.hi
      invariant column == ColumnSamples(data, x, rows, y)
    {
      var current := data[y * FrameWidth + x];
      if MinimumDepth < current < MaximumDepth {
        column := column + [current];
      }
      y := y + 1;
    }
  }

  /** The seeded total shifts the mean by the cursor reading divided by the
      count and by 1000: a metre value added to a millimetre sum. */
  lemma SeededAverageOffsetsTheMean(s: seq<int>, depth: real)
    requires |s| > 0
    ensures SeededAverage(s, depth) == MeanMetres(s) + depth / (|s| as real * 1000.0)
  {
    var n := |s| as real;
    assert (depth + Sum(s) as real) / n == depth / n + Sum(s) as real / n;
  }

  /** A single valid sample of 1000 mm with a cursor reading of 1.0 m averages
      to 1.001 m instead of 1.0 m. */
  lemma SeededAverageMissesASingleSample()
    ensures SeededAverage([1000], 1.0) == 1.001
    ensures MeanMetres([1000]) == 1.0
  {
    assert Sum([1000]) == 1000 by {
      assert [1000][..0] == [];
    }
  }

  /** The evidently intended read-out: the mean of the kept samples in metres,
      or the cursor pixel's reading when there is none. */
  method MeanDepth(data: seq<UInt16>, c: Cursor, radius: int, depth: real) returns (result: real)
    requires |data| == FrameSize
    ensures var s := WindowSamples(data, SampleWindow(c, radius));
      && (|s| == 0 ==> result == depth)
      && (|s| > 0 ==> result == MeanMetres(s) && 0.001 <= result <= 4.999)
  {
    var values := CollectSamples(data, SampleWindow(c, radius));
    result := MeanOrReading(depth, values);
  }

  /** The corrected tail: average the kept samples from a zero total. */
  method MeanOrReading(depth: real, values: seq<int>) returns (result: real)
    requires forall i :: 0 <= i < |values| ==> IsValidSample(values[i])
    ensures |values| == 0 ==> result == depth
    ensures |values| > 0 ==> result == MeanMetres(values) && 0.001 <= result <= 4.999
  {
    if |values| > 0 {
      var total := Accumulate(0.0, values);
      MeanOfValidSamplesIsInRange(values);
      result := total / (|values| as real) / 1000.0;
    } else {
      result := depth;
    }
  }

  /** A sum of valid samples lies between one and 4999 per sample. */
  lemma {:induction false} SumOfValidSamples(s: seq<int>)
    requires forall i :: 0 <= i < |s| ==> IsValidSample(s[i])
    ensures |s| <= Sum(s) <= 4999 * |s|
    decreases |s|
  {
    if s != [] {
      SumOfValidSamples(s[..|s| - 1]);
    }
  }

  /** The mean of valid samples is a depth strictly inside the valid range. */
  lemma MeanOfValidSamplesIsInRange(s: seq<int>)
    requires |s| > 0
    requires forall i :: 0 <= i < |s| ==> IsValidSample(s[i])
    ensures 0.001 <= MeanMetres(s) <= 4.999
  {
    SumOfValidSamples(s);
    QuotientBounds(Sum(s) as real, |s| as real, 1.0, 4999.0);
  }

  /** Dividing by a positive count keeps per-element bounds on a total. */
  lemma QuotientBounds(total: real, n: real, lo: real, hi: real)
    requires 0.0 < n && lo * n <= total <= hi * n
    ensures lo <= total / n <= hi
  {
    var q := total / n;
    assert q * n == total;
    assert (q - lo) * n >= 0.0;
    assert (hi - q) * n >= 0.0;
  }

  /** A sum of `n` equal samples is `n` times the sample. */
  lemma {:induction false} SumOfConstant(s: seq<int>, v: int)
    requires forall i :: 0 <= i < |s| ==> s[i] == v
    ensures Sum(s) == |s| * v
    decreases |s|
  {
    if s != [] {
      SumOfConstant(s[..|s| - 1], v);
    }
  }

  /** Equal samples average to themselves, in metres; the seeded total does
      not, unless the cursor reading is 0. */
  lemma ConstantSamplesAverageToThemselves(s: seq<int>, v: int, depth: real)
    requires |s| > 0
    requires forall i :: 0 <= i < |s| ==> s[i] == v
    ensures MeanMetres(s) == v as real / 1000.0
    ensures SeededAverage(s, depth) == v as real / 1000.0 <==> depth == 0.0
  {
    SumOfConstant(s, v);
    SeededAverageOffsetsTheMean(s, depth);
    var n := |s| as real;
    assert Sum(s) as real / n == v as real;
  }
}
