/** Properties of the bitmap build of `renderDB` (src/cmd_viz.cpp:133-173),
    stated over the definitions of module Binner. */
module BinnerProps {
  import opened Ints
  import opened LMDBOffsets
  import opened Viz
  import opened Binner
  import Palette

  // ---------------------------------------------------------------------
  // Colours and markers

  /** A painted colour is never the free value nor the trailing marker,
      because its alpha byte is 0xFF. */
  lemma ColourIsNotAMarker(o: Offset)
    ensures Colour(o) != Free && Colour(o) != Trailing
  {
    assert Palette.Alpha(Colour(o)) == Palette.AlphaMask;
    assert Palette.Alpha(Free) != Palette.AlphaMask;
    assert Palette.Alpha(Trailing) != Palette.AlphaMask;
  }

  /** A cell stays free exactly when no extent of `s` stamps it. */
  lemma {:induction false} PaintedFreeIff(f: Frame, s: seq<Offset>, j: int)
    ensures Painted(f, s, j) == Free <==> forall k :: 0 <= k < |s| ==> !Stamps(f, s[k], j)
  {
    if |s| > 0 {
      var n := |s| - 1;
      var t := s[..n];
      if Stamps(f, s[n], j) {
        ColourIsNotAMarker(s[n]);
      } else {
        PaintedFreeIff(f, t, j);
        assert forall k :: 0 <= k < n ==> t[k] == s[k];
      }
    }
  }

  /** Last extent wins: a cell shows the colour of the last extent stamping
      it. */
  lemma {:induction false} LastStampWins(f: Frame, s: seq<Offset>, j: int, k: nat)
    requires k < |s| && Stamps(f, s[k], j)
    requires forall k' :: k < k' < |s| ==> !Stamps(f, s[k'], j)
    ensures Painted(f, s, j) == Colour(s[k])
  {
    var n := |s| - 1;
    if k < n {
      var t := s[..n];
      assert forall k' :: k < k' < |t| ==> t[k'] == s[k'];
      LastStampWins(f, t, j, k);
    }
  }

  /** No cell of the painted buffer ever holds the trailing marker. */
  lemma {:induction false} PaintedIsNeverTrailing(f: Frame, s: seq<Offset>, j: int)
    ensures Painted(f, s, j) != Trailing
  {
    if |s| > 0 {
      ColourIsNotAMarker(s[|s| - 1]);
      PaintedIsNeverTrailing(f, s[..|s| - 1], j);
    }
  }

  /** After the loops, a cell holds the trailing marker exactly when it lies
      past `lastPixelSet` (cmd_viz.cpp:162-166). */
  lemma TrailingExactlyPastLast(f: Frame, s: seq<Offset>, j: int)
    ensures Cell(f, s, j) == Trailing <==> j > FinalLast(f, s)
  {
    PaintedIsNeverTrailing(f, s[..Consumed(f, s)], j);
  }

  /** Up to `lastPixelSet`, a cell keeps its initial 0 exactly when no
      examined extent stamped it. */
  lemma UnpaintedCellsKeepZero(f: Frame, s: seq<Offset>, j: int)
    requires j <= FinalLast(f, s)
    ensures var t := s[..Consumed(f, s)];
      Cell(f, s, j) == Free <==> forall k :: 0 <= k < |t| ==> !Stamps(f, t[k], j)
  {
    PaintedFreeIff(f, s[..Consumed(f, s)], j);
  }

  lemma {:induction false} NothingPaintsLastSetZero(f: Frame, s: seq<Offset>)
    requires forall k :: 0 <= k < |s| ==> !Paints(f, s[k])
    ensures LastSet(f, s) == 0
  {
    if |s| > 0 {
      var t := s[..|s| - 1];
      assert forall k :: 0 <= k < |t| ==> t[k] == s[k];
      NothingPaintsLastSetZero(f, t);
    }
  }

  lemma {:induction false} NothingHaltsConsumesAll(f: Frame, s: seq<Offset>, i: nat)
    requires i <= |s|
    requires forall k :: i <= k < |s| ==> !Halts(f, s[k])
    ensures ConsumedFrom(f, s, i) == |s|
    decreases |s| - i
  {
    if i < |s| {
      NothingHaltsConsumesAll(f, s, i + 1);
    }
  }

  /** When no extent paints, `lastPixelSet` stays 0: cell 0 keeps the
      initial 0 and every later cell gets the trailing marker. */
  lemma NothingPaintedLeavesCellZeroFree(f: Frame, s: seq<Offset>)
    requires forall k :: 0 <= k < |s| ==> !Paints(f, s[k])
    ensures FinalLast(f, s) == 0
    ensures Cell(f, s, 0) == Free
    ensures forall j :: j > 0 ==> Cell(f, s, j) == Trailing
  {
    NothingHaltsConsumesAll(f, s, 0);
    assert s[..Consumed(f, s)] == s;
    NothingPaintsLastSetZero(f, s);
    PaintedFreeIff(f, s, 0);
  }

  // ---------------------------------------------------------------------
  // Extents that do not paint

  lemma {:induction false} PaintedWithout(f: Frame, t: seq<Offset>, k: nat, j: int)
    requires k < |t| && !Paints(f, t[k])
    ensures Painted(f, t[..k] + t[k + 1..], j) == Painted(f, t, j)
    ensures LastSet(f, t[..k] + t[k + 1..]) == LastSet(f, t)
  {
    var n := |t| - 1;
    var u := t[..k] + t[k + 1..];
    if k == n {
      assert u == t[..n];
    } else {
      var t' := t[..n];
      assert u[|u| - 1] == t[n];
      assert u[..|u| - 1] == t'[..k] + t'[k + 1..];
      PaintedWithout(f, t', k, j);
    }
  }

  lemma {:induction false} ConsumedShifted(f: Frame, s: seq<Offset>, k: nat, i: nat)
    requires k < |s| && k <= i <= |s| - 1
    ensures ConsumedFrom(f, s[..k] + s[k + 1..], i) == ConsumedFrom(f, s, i + 1) - 1
    decreases |s| - i
  {
    var u := s[..k] + s[k + 1..];
    if i < |u| {
      assert u[i] == s[i + 1];
      ConsumedShifted(f, s, k, i + 1);
    }
  }

  lemma {:induction false} ConsumedWithout(f: Frame, s: seq<Offset>, k: nat, i: nat)
    requires k < |s| && !Paints(f, s[k]) && i <= k
    ensures var n := ConsumedFrom(f, s, i);
      ConsumedFrom(f, s[..k] + s[k + 1..], i) == (if k < n then n - 1 else n)
    decreases k - i
  {
    var u := s[..k] + s[k + 1..];
    if i == k {
      ConsumedShifted(f, s, k, k);
    } else {
      assert u[i] == s[i];
      if !Halts(f, s[i]) {
        ConsumedWithout(f, s, k, i + 1);
      }
    }
  }

  /** An extent before `skipOffset`, or hidden for its table, changes
      neither the mini buffer nor `lastPixelSet`, wherever it sits in the
      list (cmd_viz.cpp:146, 151-152). */
  lemma NonPaintingExtentIsIrrelevant(f: Frame, s: seq<Offset>, k: nat)
    requires k < |s| && !Paints(f, s[k])
    ensures FinalLast(f, s[..k] + s[k + 1..]) == FinalLast(f, s)
    ensures forall j :: Cell(f, s[..k] + s[k + 1..], j) == Cell(f, s, j)
  {
    var u := s[..k] + s[k + 1..];
    var n := Consumed(f, s);
    ConsumedWithout(f, s, k, 0);
    if k < n {
      var t := s[..n];
      assert u[..n - 1] == t[..k] + t[k + 1..];
      forall j
        ensures Painted(f, u[..n - 1], j) == Painted(f, t, j)
      {
        PaintedWithout(f, t, k, j);
      }
      PaintedWithout(f, t, k, 0);
    } else {
      assert u[..n] == s[..n];
    }
  }

  // ---------------------------------------------------------------------
  // The early break

  lemma {:induction false} ConsumedStopsAtHalt(f: Frame, s: seq<Offset>, i: nat, m: nat)
    requires i <= m < |s| && Halts(f, s[m])
    ensures i < ConsumedFrom(f, s, i) <= m + 1
    ensures Halts(f, s[ConsumedFrom(f, s, i) - 1])
    decreases m - i
  {
    if !Halts(f, s[i]) {
      ConsumedStopsAtHalt(f, s, i + 1, m);
    }
  }

  lemma {:induction false} ConsumedAgree(f: Frame, a: seq<Offset>, b: seq<Offset>, i: nat, m: nat)
    requires i <= m < |a| && m < |b| && Halts(f, a[m])
    requires forall x :: i <= x <= m ==> a[x] == b[x]
    ensures ConsumedFrom(f, a, i) == ConsumedFrom(f, b, i)
    decreases m - i
  {
    if !Halts(f, a[i]) {
      ConsumedAgree(f, a, b, i + 1, m);
    }
  }

  /** A loop that stops early stopped at a halting extent. */
  lemma {:induction false} EarlyStopIsAHalt(f: Frame, s: seq<Offset>, i: nat)
    requires i <= |s| && ConsumedFrom(f, s, i) < |s|
    ensures i < ConsumedFrom(f, s, i) && Halts(f, s[ConsumedFrom(f, s, i) - 1])
    decreases |s| - i
  {
    if !Halts(f, s[i]) {
      EarlyStopIsAHalt(f, s, i + 1);
    }
  }

  /** Once an extent's run reaches the end of the buffer, no later extent
      is examined: whatever follows it, the result is the same
      (cmd_viz.cpp:159). */
  lemma ExtentsAfterHaltAreIgnored(f: Frame, s: seq<Offset>, rest: seq<Offset>)
    requires Consumed(f, s) < |s|
    ensures var n := Consumed(f, s);
      && Consumed(f, s[..n] + rest) == n
      && FinalLast(f, s[..n] + rest) == FinalLast(f, s)
      && forall j :: Cell(f, s[..n] + rest, j) == Cell(f, s, j)
  {
    var n := Consumed(f, s);
    var b := s[..n] + rest;
    EarlyStopIsAHalt(f, s, 0);
    ConsumedAgree(f, s, b, 0, n - 1);
    assert b[..n] == s[..n];
  }

  lemma {:induction false} LastSetWitness(f: Frame, t: seq<Offset>)
    requires LastSet(f, t) > 0
    ensures exists k :: 0 <= k < |t| && Paints(f, t[k]) && LastCell(f, t[k]) == LastSet(f, t)
  {
    var n := |t| - 1;
    if !Paints(f, t[n]) {
      LastSetWitness(f, t[..n]);
      var k :| 0 <= k < n && Paints(f, t[..n][k]) && LastCell(f, t[..n][k]) == LastSet(f, t[..n]);
      assert t[..n][k] == t[k];
    }
  }

  /** With a non-empty buffer, `lastPixelSet` ends at or past the buffer
      end exactly when some extent's run reaches it. */
  lemma ReachesEndIff(f: Frame, s: seq<Offset>)
    requires f.cells > 0
    ensures FinalLast(f, s) >= f.cells <==> exists k :: 0 <= k < |s| && Halts(f, s[k])
  {
    var n := Consumed(f, s);
    var t := s[..n];
    if k :| 0 <= k < |s| && Halts(f, s[k]) {
      ConsumedStopsAtHalt(f, s, 0, k);
      assert t[n - 1] == s[n - 1];
    }
    if FinalLast(f, s) >= f.cells {
      LastSetWitness(f, t);
      var k :| 0 <= k < |t| && Paints(f, t[k]) && LastCell(f, t[k]) == LastSet(f, t);
      assert t[k] == s[k];
      assert Halts(f, s[k]);
    }
  }

  /** What the loop would leave without the break: every extent examined. */
  function CellWithoutBreak(f: Frame, s: seq<Offset>, j: int): bv32 {
    if j <= LastSet(f, s) then Painted(f, s, j) else Trailing
  }

  lemma FirstExtentHalts(f: Frame, s: seq<Offset>)
    requires |s| > 0 && Halts(f, s[0])
    ensures Consumed(f, s) == 1 && FinalLast(f, s) == LastCell(f, s[0])
    ensures forall j :: FirstCell(f, s[0]) <= j <= LastCell(f, s[0]) ==> Cell(f, s, j) == Colour(s[0])
  {
    assert s[..1][..0] == [];
  }

  /** The break is not an optimisation: when a short extent follows one
      that reaches the end of the buffer, running on would pull
      `lastPixelSet` back and turn cells the first extent painted into
      trailing cells. */
  lemma BreakKeepsCellsALaterExtentWouldErase(f: Frame, o0: Offset, o1: Offset, j: int)
    requires Halts(f, o0) && Paints(f, o1)
    requires FirstCell(f, o0) <= j <= LastCell(f, o0) && LastCell(f, o1) < j
    ensures Cell(f, [o0, o1], j) == Colour(o0)
    ensures CellWithoutBreak(f, [o0, o1], j) == Trailing
  {
    FirstExtentHalts(f, [o0, o1]);
    assert [o0, o1][..1] == [o0];
  }

  /** The situation occurs: one table, four one-byte cells, an extent over
      bytes 0 to 9 reaching the end of the buffer, and a one-byte extent at
      byte 1 after it; cell 2 is such a cell. */
  lemma BreakChangesTheResult()
    ensures exists f: Frame, o0: Offset, o1: Offset, j: int ::
      Cell(f, [o0, o1], j) != CellWithoutBreak(f, [o0, o1], j)
  {
    var f, o0, o1 := BreakScenario();
    BreakKeepsCellsALaterExtentWouldErase(f, o0, o1, 2);
    ColourIsNotAMarker(o0);
    assert Cell(f, [o0, o1], 2) != CellWithoutBreak(f, [o0, o1], 2);
  }

  /** One table, four one-byte cells, a halting extent over bytes 0 to 9
      and a one-byte extent at byte 1. */
  lemma BreakScenario() returns (f: Frame, o0: Offset, o1: Offset)
    ensures Halts(f, o0) && Paints(f, o1)
    ensures FirstCell(f, o0) <= 2 <= LastCell(f, o0) && LastCell(f, o1) < 2
  {
    f := Frame([TableState("t", 0, true, true, 0, 0)], 4, 0, 1);
    o0, o1 := Offset(0, 1, 0, 9, 0), Offset(0, 0, 1, 0, 0);
  }

  // ---------------------------------------------------------------------
  // Overlap and the trailing marker

  /** No extent overlaps a later one. */
  predicate Disjoint(s: seq<Offset>) {
    forall a, b :: 0 <= a < b < |s| ==> s[a].start + s[a].size <= s[b].start
  }

  /** The run of an extent ends no later than the run of a later,
      non-overlapping extent begins. */
  lemma RunsDoNotCross(f: Frame, o1: Offset, o2: Offset)
    requires Paints(f, o1) && Paints(f, o2)
    requires o1.start + o1.size <= o2.start
    ensures LastCell(f, o1) <= FirstCell(f, o2)
  {
    var x := o1.start - f.skipOffset;
    DivSum(x, o1.size, f.bytesPerPixel);
    DivMonotone(x + o1.size, o2.start - f.skipOffset, f.bytesPerPixel);
  }

  lemma {:induction false} LastSetIsFurthest(f: Frame, t: seq<Offset>)
    requires Disjoint(t)
    ensures forall k :: 0 <= k < |t| && Paints(f, t[k]) ==> LastCell(f, t[k]) <= LastSet(f, t)
  {
    if |t| > 0 {
      var n := |t| - 1;
      var u := t[..n];
      assert Disjoint(u) by {
        forall a, b | 0 <= a < b < |u|
          ensures u[a].start + u[a].size <= u[b].start
        {
          assert u[a] == t[a] && u[b] == t[b];
        }
      }
      LastSetIsFurthest(f, u);
      forall k | 0 <= k < |t| && Paints(f, t[k])
        ensures LastCell(f, t[k]) <= LastSet(f, t)
      {
        if k < n {
          assert t[k] == u[k];
          if Paints(f, t[n]) {
            RunsDoNotCross(f, t[k], t[n]);
          }
        }
      }
    }
  }

  /** For non-overlapping extents the trailing marker only lands on cells
      no examined extent painted: nothing painted is erased. */
  lemma DisjointExtentsKeepTheirPaint(f: Frame, s: seq<Offset>, j: int)
    requires Disjoint(s)
    requires j > FinalLast(f, s)
    ensures Painted(f, s[..Consumed(f, s)], j) == Free
  {
    var t := s[..Consumed(f, s)];
    assert Disjoint(t) by {
      forall a, b | 0 <= a < b < |t|
        ensures t[a].start + t[a].size <= t[b].start
      {
        assert t[a] == s[a] && t[b] == s[b];
      }
    }
    LastSetIsFurthest(f, t);
    PaintedFreeIff(f, t, j);
  }

  /** Extents that do not stamp a cell can be dropped from the end. */
  lemma {:induction false} PaintedIgnoresSuffix(f: Frame, s: seq<Offset>, m: nat, j: int)
    requires m <= |s|
    requires forall k :: m <= k < |s| ==> !Stamps(f, s[k], j)
    ensures Painted(f, s, j) == Painted(f, s[..m], j)
    decreases |s|
  {
    if m < |s| {
      var n := |s| - 1;
      var u := s[..n];
      assert !Stamps(f, s[n], j);
      assert u[..m] == s[..m];
      assert forall k :: m <= k < |u| ==> u[k] == s[k];
      PaintedIgnoresSuffix(f, u, m, j);
    } else {
      assert s[..m] == s;
    }
  }

  /** For non-overlapping extents the break changes nothing: every extent
      after the halting one starts at or past the buffer end, so running on
      would neither paint a cell of the buffer nor pull `lastPixelSet`
      below it. The break matters only for overlapping extents
      (`BreakChangesTheResult`). */
  lemma DisjointExtentsMakeTheBreakIrrelevant(f: Frame, s: seq<Offset>, j: int)
    requires Disjoint(s)
    requires 0 <= j < f.cells
    ensures Cell(f, s, j) == CellWithoutBreak(f, s, j)
  {
    var n := Consumed(f, s);
    if n < |s| {
      EarlyStopIsAHalt(f, s, 0);
      var h := s[n - 1];
      assert s[..n][n - 1] == h;
      assert FinalLast(f, s) == LastCell(f, h);
      LastSetIsFurthest(f, s);
      forall k | n <= k < |s|
        ensures !Stamps(f, s[k], j)
      {
        if Paints(f, s[k]) {
          RunsDoNotCross(f, h, s[k]);
        }
      }
      PaintedIgnoresSuffix(f, s, n, j);
    } else {
      assert s[..n] == s;
    }
  }

  /** A short extent starting inside an earlier, longer one pulls
      `lastPixelSet` back, and the trailing marker covers cells the longer
      extent painted. */
  lemma ShortExtentInsideLongOneErasesIt(f: Frame, o0: Offset, o1: Offset, j: int)
    requires Paints(f, o0) && Paints(f, o1) && !Halts(f, o0) && !Halts(f, o1)
    requires FirstCell(f, o0) <= j <= LastCell(f, o0) && LastCell(f, o1) < j
    ensures Consumed(f, [o0, o1]) == 2
    ensures Painted(f, [o0, o1], j) == Colour(o0) && Cell(f, [o0, o1], j) == Trailing
  {
    var s := [o0, o1];
    assert s[..2] == s && s[..1] == [o0] && [o0][..0] == [];
  }

  /** So for overlapping extents the trailing marker can hide a painted
      cell: one table, four one-byte cells, an extent over bytes 0 to 2
      and a one-byte extent at byte 1. */
  lemma OverlapLetsTrailingEraseAPaintedCell()
    ensures exists f: Frame, o0: Offset, o1: Offset, j: int ::
      Consumed(f, [o0, o1]) == 2 && Painted(f, [o0, o1], j) != Free && Cell(f, [o0, o1], j) == Trailing
  {
    var f, o0, o1 := OverlapScenario();
    ShortExtentInsideLongOneErasesIt(f, o0, o1, 2);
    ColourIsNotAMarker(o0);
    assert Consumed(f, [o0, o1]) == 2 && Painted(f, [o0, o1], 2) != Free && Cell(f, [o0, o1], 2) == Trailing;
  }

  /** One table, four one-byte cells, an extent over bytes 0 to 2 and a
      one-byte extent at byte 1. */
  lemma OverlapScenario() returns (f: Frame, o0: Offset, o1: Offset)
    ensures Paints(f, o0) && Paints(f, o1) && !Halts(f, o0) && !Halts(f, o1)
    ensures FirstCell(f, o0) <= 2 <= LastCell(f, o0) && LastCell(f, o1) < 2
  {
    f := Frame([TableState("t", 0, true, true, 0, 0)], 4, 0, 1);
    o0, o1 := Offset(0, 0, 0, 2, 1), Offset(0, 1, 1, 0, 0);
  }

  // ---------------------------------------------------------------------
  // Worked example

  /** One table, one 500-byte extent at 0, a 10 x 1 window without
      magnification over a 1000-byte map: 1000 / 10 + 1 = 101 bytes per
      cell, cells 0 to 4 painted, 5 to 9 trailing, end offset 404. */
  lemma SingleExtentExample()
    ensures CellCount(10, 1, 1) == 10 && 1000 / CellCount(10, 1, 1) + 1 == 101
    ensures var f := Frame([TableState("A", 0, true, true, 0, 0)], 10, 0, 101);
      var s := [Offset(0, 0, 0, 500, 100)];
      && FinalLast(f, s) == 4
      && f.skipOffset + f.bytesPerPixel * FinalLast(f, s) == 404
      && (forall j :: 0 <= j <= 4 ==> Cell(f, s, j) == Palette.GetColour(0, 0))
      && (forall j :: 4 < j < 10 ==> Cell(f, s, j) == Trailing)
  {
    var f := Frame([TableState("A", 0, true, true, 0, 0)], 10, 0, 101);
    var s := [Offset(0, 0, 0, 500, 100)];
    assert LastCell(f, s[0]) == 4;
    assert !Halts(f, s[0]);
    assert Consumed(f, s) == 1;
    assert s[..1] == s;
  }

  // ---------------------------------------------------------------------
  // Magnification

  /** Output pixels `k * mag * mag` to `(k + 1) * mag * mag - 1` all copy
      cell `k`: each run of `mag * mag` consecutive pixels shares one cell. */
  lemma RunSharesCell(i: nat, k: nat, mag: pos)
    requires k * (mag * mag) <= i < (k + 1) * (mag * mag)
    ensures i / (mag * mag) == k
  {
    var m: pos := mag * mag;
    assert m * k <= i;
    BelowQuotient(i, k, m);
    DivDecompose(i, m);
    MulMonotone(k + 1, i / m, m);
    assert m * (k + 1) == k * m + m;
  }

  /** Every read `i / m` for `i < n` stays below `c` exactly when
      `n <= m * c`: the precondition of `Magnify` is the weakest that keeps
      all reads of cmd_viz.cpp:171 inside the mini buffer. */
  lemma ReadsInBoundsIff(n: nat, m: pos, c: nat)
    ensures (forall i :: 0 <= i < n ==> i / m < c) <==> n <= m * c
  {
    if n <= m * c {
      forall i | 0 <= i < n
        ensures i / m < c
      {
        DivBelow(i, m, c);
      }
    } else {
      assert (m * c) / m == c by {
        BelowQuotient(m * c, c, m);
        DivDecompose(m * c, m);
        MulMonotone(c + 1, (m * c) / m, m);
        assert m * (c + 1) == m * c + m;
      }
      assert 0 <= m * c < n;
    }
  }

  /** When both window sides are multiples of `mag`, the output has exactly
      `mag * mag` pixels per cell and every read is in bounds. */
  lemma MultiplesOfMagFit(w: nat, h: nat, mag: pos)
    requires w % mag == 0 && h % mag == 0
    ensures w * h == mag * mag * CellCount(w, h, mag)
  {
    var a, b := w / mag, h / mag;
    assert w == mag * a;
    assert h == mag * b;
    assert w * h == (mag * a) * (mag * b);
    assert (mag * a) * (mag * b) == mag * mag * (a * b);
  }

  /** A window less than `mag` pixels high or wide has no cells, and the
      division of cmd_viz.cpp:139 is by zero. The drawing height is only
      reduced by the padding when it exceeds it (cmd_viz.cpp:305-306), so
      a collapsed window yields such a height. */
  lemma ThinWindowHasNoCells(w: nat, h: nat, mag: pos)
    requires w < mag || h < mag
    ensures CellCount(w, h, mag) == 0
  {
  }

  /** The source's default magnification with a 2000 x 5 window. */
  lemma NarrowWindowHasNoCells()
    ensures CellCount(2000, 5, 8) == 0
  {
    ThinWindowHasNoCells(2000, 5, 8);
  }

  /** An 801 x 800 window at magnification 8 has 100 x 100 cells but
      640800 output pixels, more than the 640000 that 64 pixels per cell
      cover; the last pixel reads cell 10012 of 10000. */
  lemma MagnifyOverrunsMini()
    ensures CellCount(801, 800, 8) == 10000
    ensures 801 * 800 > 8 * 8 * CellCount(801, 800, 8)
    ensures (801 * 800 - 1) / (8 * 8) == 10012
  {
  }

  /** Magnification is positional, not by square blocks: with the extent
      of `SingleExtentExample` drawn at magnification 2 into a 20 x 2
      window (10 cells again), the top-left 2 x 2 block holds output pixels
      0, 1, 20 and 21, and pixels 0 and 20 show different cells, one
      painted and one trailing. */
  lemma MagnifiedBlocksAreNotSquare()
    ensures CellCount(20, 2, 2) == 10
    ensures 0 / (2 * 2) == 0 && 20 / (2 * 2) == 5
    ensures var f := Frame([TableState("A", 0, true, true, 0, 0)], 10, 0, 101);
      var s := [Offset(0, 0, 0, 500, 100)];
      Cell(f, s, 0 / (2 * 2)) != Cell(f, s, 20 / (2 * 2))
  {
    SingleExtentExample();
    ColourIsNotAMarker(Offset(0, 0, 0, 500, 100));
  }
}
