/** The bitmap build of `renderDB` (src/cmd_viz.cpp:133-173): the sorted
    extents are binned into a mini buffer of `wm * hm` cells, cells past
    the last painted one get the trailing marker, and the mini buffer is
    stretched over the `w * h` output pixels.

    The cell colours are specified without reference to the loop: cell
    `j` holds the colour of the LAST consumed extent whose run of cells
    covers `j` (`Painted`), where the extents consumed are those up to and
    including the first one whose run reaches the end of the buffer
    (`Consumed`). */
module Binner {
  import opened Ints
  import opened LMDBOffsets
  import opened Viz
  import Palette

  /** A cell no extent painted (the buffer's initial value). */
  const Free: bv32 := 0

  /** A cell past the last painted one. */
  const Trailing: bv32 := 0x30FFFFFF

  /** What one render pass bins against: the table toggles, the number of
      cells of the mini buffer, the first byte shown and the bytes per cell. */
  datatype Frame = Frame(tables: seq<TableState>, cells: nat, skipOffset: nat, bytesPerPixel: pos)

  /** The extent's kind is switched off for its table (cmd_viz.cpp:151-152). */
  predicate Hidden(f: Frame, o: Offset) {
    && o.tableId < |f.tables|
    && ((o.kind == 0 && !f.tables[o.tableId].keyVisible) || (o.kind == 1 && !f.tables[o.tableId].valVisible))
  }

  /** The extent is neither before the window (cmd_viz.cpp:146) nor hidden. */
  predicate Paints(f: Frame, o: Offset) {
    o.start >= f.skipOffset && !Hidden(f, o)
  }

  /** `pixelIndex` (cmd_viz.cpp:148). */
  function FirstCell(f: Frame, o: Offset): nat
    requires o.start >= f.skipOffset
  {
    (o.start - f.skipOffset) / f.bytesPerPixel
  }

  /** The last index of the run `[pixelIndex, pixelIndex + numPixels)`
      (cmd_viz.cpp:149, 154). */
  function LastCell(f: Frame, o: Offset): nat
    requires o.start >= f.skipOffset
  {
    FirstCell(f, o) + o.size / f.bytesPerPixel
  }

  /** The extent writes its colour at index `j`. */
  predicate Stamps(f: Frame, o: Offset, j: int) {
    Paints(f, o) && FirstCell(f, o) <= j <= LastCell(f, o)
  }

  /** The extent's run reaches the end of the buffer, so the loop stops after
      it (cmd_viz.cpp:159). */
  predicate Halts(f: Frame, o: Offset) {
    Paints(f, o) && LastCell(f, o) >= f.cells
  }

  function Colour(o: Offset): bv32 {
    Palette.GetColour(o.tableId, o.kind)
  }

  /** Colour at index `j` after the extents `s`: the last one stamping `j`. */
  function Painted(f: Frame, s: seq<Offset>, j: int): bv32 {
    if |s| == 0 then Free
    else if Stamps(f, s[|s| - 1], j) then Colour(s[|s| - 1])
    else Painted(f, s[..|s| - 1], j)
  }

  /** `lastPixelSet` after the extents `s`: the last index of the last
      painting extent's run, 0 if none paints. */
  function LastSet(f: Frame, s: seq<Offset>): nat {
    if |s| == 0 then 0
    else if Paints(f, s[|s| - 1]) then LastCell(f, s[|s| - 1])
    else LastSet(f, s[..|s| - 1])
  }

  /** How many extents from position `i` on are examined before the loop
      stops: up to and including the first halting one. */
  function ConsumedFrom(f: Frame, s: seq<Offset>, i: nat): (n: nat)
    requires i <= |s|
    ensures i <= n <= |s|
    ensures i < |s| ==> i < n
    decreases |s| - i
  {
    if i == |s| then |s|
    else if Halts(f, s[i]) then i + 1
    else ConsumedFrom(f, s, i + 1)
  }

  function Consumed(f: Frame, s: seq<Offset>): nat {
    ConsumedFrom(f, s, 0)
  }

  /** `lastPixelSet` when the paint loop ends. */
  function FinalLast(f: Frame, s: seq<Offset>): nat {
    LastSet(f, s[..Consumed(f, s)])
  }

  /** Final colour of cell `j` of the mini buffer. */
  function Cell(f: Frame, s: seq<Offset>, j: int): bv32 {
    if j <= FinalLast(f, s) then Painted(f, s[..Consumed(f, s)], j) else Trailing
  }

  /** The inner loop (cmd_viz.cpp:154-157): colour every in-bounds index of
      the run `[first, first + count)` and leave `lastPixelSet` at its end. */
  method PaintRun(mini: seq<bv32>, colour: bv32, first: nat, count: nat) returns (r: seq<bv32>, last: nat)
    requires count > 0
    ensures |r| == |mini|
    ensures last == first + count - 1
    ensures forall j :: 0 <= j < |r| ==> r[j] == (if first <= j <= last then colour else mini[j])
  {
    r := mini;
    last := first;
    var p := first;
    while p < first + count
      invariant first <= p <= first + count
      invariant |r| == |mini|
      invariant p > first ==> last == p - 1
      invariant forall j :: 0 <= j < |r| ==> r[j] == (if first <= j < p then colour else mini[j])
    {
      if p < |r| {
        r := r[p := colour];
      }
      last := p;
      p := p + 1;
    }
  }

  /** What examining extent `i` does to the specification. */
  lemma ExamineStep(f: Frame, s: seq<Offset>, i: nat)
    requires i < |s|
    ensures var o, t, t' := s[i], s[..i], s[..i + 1];
      && (forall j :: Painted(f, t', j) == (if Stamps(f, o, j) then Colour(o) else Painted(f, t, j)))
      && LastSet(f, t') == (if Paints(f, o) then LastCell(f, o) else LastSet(f, t))
      && (!Halts(f, o) ==> ConsumedFrom(f, s, i + 1) == ConsumedFrom(f, s, i))
  {
    assert s[..i + 1][..i] == s[..i];
  }

  /** One pass of the paint loop's body (cmd_viz.cpp:146-159): skip the
      extent if it lies before the window or is hidden, otherwise paint its
      run and report whether the run reached the end of the buffer. */
  method ExamineExtent(mini: seq<bv32>, last: nat, o: Offset, f: Frame)
    returns (mini': seq<bv32>, last': nat, halt: bool)
    requires o.tableId < |f.tables| && |mini| == f.cells
    ensures |mini'| == |mini|
    ensures last' == (if Paints(f, o) then LastCell(f, o) else last)
    ensures forall j :: 0 <= j < |mini| ==> mini'[j] == (if Stamps(f, o, j) then Colour(o) else mini[j])
    ensures halt == Halts(f, o)
  {
    mini', last', halt := mini, last, false;
    if o.start < f.skipOffset {
      return;
    }
    var pixelIndex := (o.start - f.skipOffset) / f.bytesPerPixel;
    var numPixels := 1 + o.size / f.bytesPerPixel;
    if o.kind == 0 && !f.tables[o.tableId].keyVisible {
      return;
    } else if o.kind == 1 && !f.tables[o.tableId].valVisible {
      return;
    }
    mini', last' := PaintRun(mini, Colour(o), pixelIndex, numPixels);
    halt := last' >= |mini'|;
  }

  /** The paint loop (cmd_viz.cpp:135, 143-160). */
  method PaintMini(s: seq<Offset>, f: Frame) returns (mini: seq<bv32>, last: nat)
    requires IdsIndex(s, |f.tables|)
    ensures |mini| == f.cells
    ensures last == FinalLast(f, s)
    ensures forall j :: 0 <= j < f.cells ==> mini[j] == Painted(f, s[..Consumed(f, s)], j)
  {
    mini := seq(f.cells, _ => Free);
    last := 0;
    var i := 0;
    while i < |s|
      invariant i <= |s|
      invariant |mini| == f.cells
      invariant ConsumedFrom(f, s, i) == Consumed(f, s)
      invariant last == LastSet(f, s[..i])
      invariant forall j :: 0 <= j < f.cells ==> mini[j] == Painted(f, s[..i], j)
    {
      ExamineStep(f, s, i);
      assert s[i] in s;
      var halt;
      mini, last, halt := ExamineExtent(mini, last, s[i], f);
      i := i + 1;
      if halt {
        break;
      }
    }
    assert s[..Consumed(f, s)] == s[..i];
  }

  /** Cells after `lastPixelSet` get the trailing marker (cmd_viz.cpp:164-166). */
  method FillTrailing(mini: seq<bv32>, last: nat) returns (r: seq<bv32>)
    ensures |r| == |mini|
    ensures forall j :: 0 <= j < |mini| ==> r[j] == (if j <= last then mini[j] else Trailing)
  {
    r := mini;
    var i := last + 1;
    while i < |r|
      invariant last < i
      invariant |r| == |mini|
      invariant forall j :: 0 <= j < |r| ==> r[j] == (if last < j < i then Trailing else mini[j])
    {
      r := r[i := Trailing];
      i := i + 1;
    }
  }

  lemma DivBelow(i: nat, m: pos, n: nat)
    requires i < m * n
    ensures i / m < n
  {
    assert m * (i / m) <= i;
  }

  /** The magnification as written (cmd_viz.cpp:170-171): output pixel `i`
      copies cell `i / (mag * mag)`. The read is in bounds only when the
      output has no more than `mag * mag` pixels per cell. */
  method Magnify(mini: seq<bv32>, w: nat, h: nat, mag: pos) returns (pixels: seq<bv32>)
    requires w * h <= mag * mag * |mini|
    ensures |pixels| == w * h
    ensures forall i :: 0 <= i < w * h ==> pixels[i] == mini[i / (mag * mag)]
  {
    pixels := seq(w * h, _ => 0);
    var i := 0;
    while i < w * h
      invariant i <= w * h
      invariant |pixels| == w * h
      invariant forall k :: 0 <= k < i ==> k / (mag * mag) < |mini| && pixels[k] == mini[k / (mag * mag)]
    {
      DivBelow(i, mag * mag, |mini|);
      pixels := pixels[i := mini[i / (mag * mag)]];
      i := i + 1;
    }
  }

  /** The magnification with the read kept inside the mini buffer: pixels
      beyond the last cell show the trailing marker. */
  method MagnifyTotal(mini: seq<bv32>, w: nat, h: nat, mag: pos) returns (pixels: seq<bv32>)
    ensures |pixels| == w * h
    ensures forall i :: 0 <= i < w * h ==>
      pixels[i] == (if i / (mag * mag) < |mini| then mini[i / (mag * mag)] else Trailing)
  {
    pixels := seq(w * h, _ => 0);
    var i := 0;
    while i < w * h
      invariant i <= w * h
      invariant |pixels| == w * h
      invariant forall k :: 0 <= k < i ==>
        pixels[k] == (if k / (mag * mag) < |mini| then mini[k / (mag * mag)] else Trailing)
    {
      var cell := i / (mag * mag);
      pixels := pixels[i := if cell < |mini| then mini[cell] else Trailing];
      i := i + 1;
    }
  }

  /** Number of cells of the mini buffer (cmd_viz.cpp:134-135). */
  function CellCount(w: nat, h: nat, mag: pos): nat {
    (w / mag) * (h / mag)
  }

  /** Paint, report the end of the visible range, and mark the trailing
      cells (cmd_viz.cpp:143-166): the finished mini buffer. */
  method BinCells(offsets: seq<Offset>, f: Frame) returns (mini: seq<bv32>, endOffset: nat)
    requires IdsIndex(offsets, |f.tables|)
    ensures |mini| == f.cells
    ensures forall j :: 0 <= j < f.cells ==> mini[j] == Cell(f, offsets, j)
    ensures endOffset == f.skipOffset + f.bytesPerPixel * FinalLast(f, offsets)
  {
    var painted, last := PaintMini(offsets, f);
    endOffset := f.skipOffset + f.bytesPerPixel * last;
    mini := FillTrailing(painted, last);
  }

  /** The whole bitmap build of `renderDB` as written. `zoomScale` stands for
      the floating-point `/= zoom` step (cmd_viz.cpp:140). The two
      preconditions are the division at cmd_viz.cpp:139 and the read at
      cmd_viz.cpp:171. */
  method RenderDB(offsets: seq<Offset>, tables: seq<TableState>, mapEnd: nat,
                  w: nat, h: nat, mag: pos, skipOffset: nat, zoomScale: nat -> nat)
    returns (pixels: seq<bv32>, endOffset: nat, bytesPerPixel: pos)
    requires IdsIndex(offsets, |tables|)
    requires CellCount(w, h, mag) > 0
    requires w * h <= mag * mag * CellCount(w, h, mag)
    ensures bytesPerPixel == zoomScale(mapEnd / CellCount(w, h, mag)) + 1
    ensures var f := Frame(tables, CellCount(w, h, mag), skipOffset, bytesPerPixel);
      && |pixels| == w * h
      && endOffset == skipOffset + bytesPerPixel * FinalLast(f, offsets)
      && forall i :: 0 <= i < w * h ==> pixels[i] == Cell(f, offsets, i / (mag * mag))
  {
    var cells := CellCount(w, h, mag);
    var perCell := mapEnd / cells;
    bytesPerPixel := zoomScale(perCell) + 1;
    var f := Frame(tables, cells, skipOffset, bytesPerPixel);
    var mini;
    mini, endOffset := BinCells(offsets, f);
    pixels := Magnify(mini, w, h, mag);
  }

  /** The bitmap build with both hazards removed: a degenerate buffer of
      zero cells divides by one instead of zero, and output pixels past the
      mini buffer show the trailing marker. Every window size renders. */
  method RenderDBTotal(offsets: seq<Offset>, tables: seq<TableState>, mapEnd: nat,
                       w: nat, h: nat, mag: pos, skipOffset: nat, zoomScale: nat -> nat)
    returns (pixels: seq<bv32>, endOffset: nat, bytesPerPixel: pos)
    requires IdsIndex(offsets, |tables|)
    ensures var cells := CellCount(w, h, mag);
      bytesPerPixel == zoomScale(mapEnd / (if cells == 0 then 1 else cells)) + 1
    ensures var f := Frame(tables, CellCount(w, h, mag), skipOffset, bytesPerPixel);
      && |pixels| == w * h
      && endOffset == skipOffset + bytesPerPixel * FinalLast(f, offsets)
      && forall i :: 0 <= i < w * h ==>
           pixels[i] == (if i / (mag * mag) < f.cells then Cell(f, offsets, i / (mag * mag)) else Trailing)
    ensures CellCount(w, h, mag) == 0 ==> forall i :: 0 <= i < w * h ==> pixels[i] == Trailing
  {
    var cells := CellCount(w, h, mag);
    var perCell := mapEnd / (if cells == 0 then 1 else cells);
    bytesPerPixel := zoomScale(perCell) + 1;
    var f := Frame(tables, cells, skipOffset, bytesPerPixel);
    var mini;
    mini, endOffset := BinCells(offsets, f);
    pixels := MagnifyTotal(mini, w, h, mag);
  }
}
