/**
 `union`, `difference` and `TimeWindow.array` as the code stands. The clone
 that starts both folds, and every piece `difference` pushes, go through the
 record constructor, whose `start || end - duration` turns a 0 bound into
 NaN; a NaN bound then fails every comparison it meets. `Merge`, `Subtract`
 and `Batch` model the evidently intended copy. This module models the code
 as written and proves where the two agree and where they part.
 */
module AsWritten {
  import opened Wrappers
  import opened Windows
  import opened Overlap
  import opened Merge
  import opened Subtract
  import opened Construct
  import opened Batch

  /** A JavaScript number as these operations meet it: an integer, or NaN. */
  datatype Num = Finite(n: int) | NaN

  /** `a < b`, which is false whenever either side is NaN. */
  predicate Less(a: Num, b: Num) {
    a.Finite? && b.Finite? && a.n < b.n
  }

  /** A window whose bounds may be NaN. */
  datatype Window = Window(start: Num, end: Num)

  function Lift(w: TW): Window {
    Window(Finite(w.start), Finite(w.end))
  }

  function LiftAll(ws: seq<TW>): (r: seq<Window>)
    ensures |r| == |ws| && forall i :: 0 <= i < |ws| ==> r[i] == Lift(ws[i])
  {
    seq(|ws|, i requires 0 <= i < |ws| => Lift(ws[i]))
  }

  lemma LiftAllAppend(a: seq<TW>, b: seq<TW>)
    ensures LiftAll(a + b) == LiftAll(a) + LiftAll(b)
  {
    assert forall i :: 0 <= i < |b| ==> (a + b)[|a| + i] == b[i];
  }

  /** No bound is 0, so rebuilding the window through the constructor keeps it. */
  predicate NonZero(w: TW) {
    w.start != 0 && w.end != 0
  }

  /**
   `new TimeWindow({start: a, end: b})`: `a || b - undefined` and
   `b || a + undefined`, so a 0 or NaN bound becomes NaN. On integer bounds it
   keeps the window exactly when `Construct.SpanAsWritten` is defined.
   */
  function Rebuild(a: Num, b: Num): (r: Window)
    ensures a.Finite? && b.Finite? ==> (r == Window(a, b) <==> SpanAsWritten(a.n, b.n).Some?)
    ensures !(a.Finite? && a.n != 0) ==> r.start == NaN
    ensures !(b.Finite? && b.n != 0) ==> r.end == NaN
  {
    Window(if a.Finite? && a.n != 0 then a else NaN, if b.Finite? && b.n != 0 then b else NaN)
  }

  /** `clone` as written: the receiver itself exactly when neither bound is 0. */
  function CloneAsWritten(w: TW): (c: Window)
    ensures c == Lift(Clone(w)) <==> NonZero(w)
    ensures w.start == 0 ==> c.start == NaN
    ensures w.end == 0 ==> c.end == NaN
  {
    Rebuild(Finite(w.start), Finite(w.end))
  }

  /**
   `intersects(c, t)` of a window whose bounds may be NaN: a NaN bound never
   rules a candidate out. On integer bounds it is `Overlap.Meets`.
   */
  predicate MeetsAsWritten(a: Window, c: TW, t: int)
    ensures a.start.Finite? && a.end.Finite? ==>
              (MeetsAsWritten(a, c, t) <==> Meets(TW(a.start.n, a.end.n), c, t))
    ensures a.start == NaN && a.end == NaN ==> MeetsAsWritten(a, c, t)
  {
    !(Less(a.end, Finite(c.start - t)) || Less(Finite(c.end + t), a.start))
  }

  /** The updates of the accumulator's bounds: a NaN bound is never replaced. */
  function ExtendAsWritten(acc: Window, c: TW): (r: Window)
    ensures acc.start.Finite? && acc.end.Finite? ==> r == Lift(Extend(TW(acc.start.n, acc.end.n), c))
    ensures acc.start == NaN ==> r.start == NaN
    ensures acc.end == NaN ==> r.end == NaN
  {
    Window(if Less(Finite(c.start), acc.start) then Finite(c.start) else acc.start,
           if Less(acc.end, Finite(c.end)) then Finite(c.end) else acc.end)
  }

  /** The `forEach` of `union` from an accumulator whose bounds may be NaN. */
  function UnionFoldAsWritten(acc: Window, ws: seq<TW>, t: int): (r: (Window, seq<TW>))
    ensures acc.start == NaN ==> r.0.start == NaN
    ensures acc.end == NaN ==> r.0.end == NaN
    ensures |r.1| <= |ws|
    decreases |ws|
  {
    if |ws| == 0 then (acc, [])
    else if MeetsAsWritten(acc, ws[0], t) then UnionFoldAsWritten(ExtendAsWritten(acc, ws[0]), ws[1..], t)
    else
      var r := UnionFoldAsWritten(acc, ws[1..], t);
      (r.0, [ws[0]] + r.1)
  }

  /**
   `w.union(ws, t)` as written, for a non-empty candidate sequence: a 0 bound
   of the receiver is NaN in the merged window and stays NaN.
   */
  function UnionAsWritten(w: TW, ws: seq<TW>, t: int): (r: seq<Window>)
    requires |ws| > 0
    ensures 1 <= |r| <= |ws| + 1
    ensures w.start == 0 ==> r[0].start == NaN
    ensures w.end == 0 ==> r[0].end == NaN
  {
    var f := UnionFoldAsWritten(CloneAsWritten(w), ws, t);
    [f.0] + LiftAll(f.1)
  }

  /** From an accumulator with integer bounds the two folds take the same steps. */
  lemma {:induction false} UnionFoldAgrees(acc: TW, ws: seq<TW>, t: int)
    ensures UnionFoldAsWritten(Lift(acc), ws, t) == (Lift(UnionFold(acc, ws, t).0), UnionFold(acc, ws, t).1)
    decreases |ws|
  {
    if |ws| > 0 {
      assert MeetsAsWritten(Lift(acc), ws[0], t) == Meets(acc, ws[0], t);
      if Meets(acc, ws[0], t) {
        assert ExtendAsWritten(Lift(acc), ws[0]) == Lift(Extend(acc, ws[0]));
        UnionFoldAgrees(Extend(acc, ws[0]), ws[1..], t);
      } else {
        UnionFoldAgrees(acc, ws[1..], t);
      }
    }
  }

  /** `union` as written gives the modelled result exactly when the receiver has no 0 bound. */
  lemma UnionAgrees(w: TW, ws: seq<TW>, t: int)
    requires |ws| > 0
    ensures UnionAsWritten(w, ws, t) == LiftAll(Union(w, ws, t)) <==> NonZero(w)
  {
    var r := UnionAsWritten(w, ws, t);
    if NonZero(w) {
      var f := UnionFold(Clone(w), ws, t);
      UnionFoldAgrees(w, ws, t);
      LiftAllAppend([f.0], f.1);
    } else {
      assert r[0].start == NaN || r[0].end == NaN;
    }
  }

  /**
   A receiver starting at midnight and a candidate reaching past its end: the
   merged window keeps a NaN start, where the modelled union starts at 0.
   */
  lemma UnionMidnight(e: int, c: int, d: int)
    requires 0 < e && 0 <= c <= e < d
    ensures UnionAsWritten(TW(0, e), [TW(c, d)], 0) == [Window(NaN, Finite(d))]
    ensures Union(TW(0, e), [TW(c, d)], 0) == [TW(0, d)]
  {
    assert UnionFoldAsWritten(Window(NaN, Finite(d)), [], 0) == (Window(NaN, Finite(d)), []);
    assert UnionFold(TW(0, d), [], 0) == (TW(0, d), []);
  }

  /**
   What one candidate contributes against a reference window whose bounds may
   be NaN. Once a bound is NaN every case test fails, so a candidate that
   meets the reference window contributes nothing.
   */
  function PiecesAsWritten(d: Window, c: TW): (r: seq<Window>)
    ensures |r| <= 2
    ensures !MeetsAsWritten(d, c, DIFFERENCE_THRESHOLD) ==> r == [d]
    ensures d.start == NaN || d.end == NaN ==>
              r == (if MeetsAsWritten(d, c, DIFFERENCE_THRESHOLD) then [] else [d])
  {
    if !MeetsAsWritten(d, c, DIFFERENCE_THRESHOLD) then [d]
    else if Less(d.start, Finite(c.start)) && Less(d.end, Finite(c.end)) then
      [Rebuild(d.start, Finite(c.start))]
    else if Less(Finite(c.start), d.start) && Less(Finite(c.end), d.end) then
      [Rebuild(Finite(c.end), d.end)]
    else if Less(d.start, Finite(c.start)) && Less(Finite(c.end), d.end) then
      [Rebuild(d.start, Finite(c.start)), Rebuild(Finite(c.end), d.end)]
    else []
  }

  /** The `forEach` of `difference` as written against the fixed reference window `d`. */
  function DiffFoldAsWritten(d: Window, ws: seq<TW>): (r: seq<Window>)
    ensures |r| <= 2 * |ws|
    ensures d.start == NaN || d.end == NaN ==> forall j :: 0 <= j < |r| ==> r[j] == d
    decreases |ws|
  {
    if |ws| == 0 then []
    else
      var head := PiecesAsWritten(d, ws[0]);
      var rest := DiffFoldAsWritten(d, ws[1..]);
      assert forall j :: 0 <= j < |rest| ==> (head + rest)[|head| + j] == rest[j];
      head + rest
  }

  /**
   `w.difference(ws)` as written: when the receiver has a 0 bound, the only
   windows left are copies of its NaN clone, one per candidate it does not meet.
   */
  function DifferenceAsWritten(w: TW, ws: seq<TW>): (r: seq<Window>)
    ensures |ws| == 0 ==> r == []
    ensures |r| <= 2 * |ws|
    ensures !NonZero(w) ==> forall j :: 0 <= j < |r| ==> r[j] == CloneAsWritten(w)
  {
    DiffFoldAsWritten(CloneAsWritten(w), ws)
  }

  /** With no 0 bound anywhere, every rebuilt piece is the intended one. */
  lemma PiecesAgrees(d: TW, c: TW)
    requires NonZero(d) && NonZero(c)
    ensures PiecesAsWritten(Lift(d), c) == LiftAll(Pieces(d, c))
  {
  }

  lemma {:induction false} DiffFoldAgrees(d: TW, ws: seq<TW>)
    requires NonZero(d) && forall i :: 0 <= i < |ws| ==> NonZero(ws[i])
    ensures DiffFoldAsWritten(Lift(d), ws) == LiftAll(DiffFold(d, ws))
    decreases |ws|
  {
    if |ws| > 0 {
      PiecesAgrees(d, ws[0]);
      DiffFoldAgrees(d, ws[1..]);
      LiftAllAppend(Pieces(d, ws[0]), DiffFold(d, ws[1..]));
    }
  }

  /** `difference` as written gives the modelled result when no bound anywhere is 0. */
  lemma DifferenceAgrees(w: TW, ws: seq<TW>)
    requires NonZero(w) && forall i :: 0 <= i < |ws| ==> NonZero(ws[i])
    ensures DifferenceAsWritten(w, ws) == LiftAll(Difference(w, ws))
  {
    DiffFoldAgrees(w, ws);
  }

  /**
   A receiver starting at midnight minus a candidate that overlaps its end:
   the code as written returns nothing, the modelled difference the part
   before the candidate.
   */
  lemma DifferenceMidnight(e: int, c: int, d: int)
    requires 0 < c < e < d
    ensures DifferenceAsWritten(TW(0, e), [TW(c, d)]) == []
    ensures Difference(TW(0, e), [TW(c, d)]) == [TW(0, c)]
  {
    assert DiffFoldAsWritten(Window(NaN, Finite(e)), []) == [];
    assert DiffFold(TW(0, e), []) == [];
  }

  /**
   `TimeWindow.array(inputs, t)` as written: with two or more inputs, a 0
   bound of the first window is NaN in the merged window.
   */
  function ArrayAsWritten(inputs: seq<Input>, t: int): (r: Option<seq<Window>>)
    ensures r.Some? <==> forall i :: 0 <= i < |inputs| ==> Build(inputs[i]).Some?
    ensures r.Some? && |inputs| > 0 ==> 1 <= |r.value| <= |inputs|
    ensures r.Some? && |inputs| >= 2 && Build(inputs[0]).value.start == 0 ==> r.value[0].start == NaN
    ensures r.Some? && |inputs| >= 2 && Build(inputs[0]).value.end == 0 ==> r.value[0].end == NaN
  {
    var built := BuildAll(inputs);
    if built.None? then None
    else
      var ws := built.value;
      if |ws| <= 1 then Some(LiftAll(ws))
      else
        assert Build(inputs[0]) == Some(ws[0]);
        Some(UnionAsWritten(ws[0], ws[1..], t))
  }

  /**
   `TimeWindow.array` as written gives the modelled result exactly when there
   is at most one input or the first window has no 0 bound.
   */
  lemma ArrayAgrees(inputs: seq<Input>, t: int)
    requires forall i :: 0 <= i < |inputs| ==> Build(inputs[i]).Some?
    ensures ArrayAsWritten(inputs, t) == Some(LiftAll(Array(inputs, t).value)) <==>
              |inputs| <= 1 || NonZero(Build(inputs[0]).value)
  {
    var ws := BuildAll(inputs).value;
    if |inputs| >= 2 {
      assert Build(inputs[0]) == Some(ws[0]);
      assert Array(inputs, t).value == Union(ws[0], ws[1..], t);
      assert ArrayAsWritten(inputs, t) == Some(UnionAsWritten(ws[0], ws[1..], t));
      UnionAgrees(ws[0], ws[1..], t);
    } else if |inputs| == 1 {
      assert Array(inputs, t).value == [ws[0]] == ws;
    }
  }
}
