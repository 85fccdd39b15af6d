/**
 `difference`: one pass over the candidates against a clone of the receiver
 that is never updated. Each candidate contributes, in order, either the whole
 receiver (when they do not meet within the fixed one-second slack) or the
 parts of the receiver left over on either side of it.
 */
module Subtract {
  import opened Windows
  import opened Overlap

  /** The slack `difference` passes to `intersects`, fixed in the original. */
  const DIFFERENCE_THRESHOLD: int := 1

  /**
   What one candidate `c` contributes against the reference window `d`:
   `d` itself when they do not meet; the part before `c` when `c` runs past
   `d`'s end; the part after `c` when `c` starts before `d`; both parts when
   `c` lies strictly inside; nothing otherwise.
   */
  function Pieces(d: TW, c: TW): (r: seq<TW>)
    ensures |r| <= 2
    ensures !Meets(d, c, DIFFERENCE_THRESHOLD) ==> r == [d]
    ensures |r| == 2 <==> Meets(d, c, DIFFERENCE_THRESHOLD) && d.start < c.start && c.end < d.end
    ensures d.WellFormed() && c.WellFormed() ==>
              forall j :: 0 <= j < |r| ==>
                r[j].WellFormed() && d.start - 1 <= r[j].start && r[j].end <= d.end + 1
  {
    if !Meets(d, c, DIFFERENCE_THRESHOLD) then [d]
    else if d.start < c.start && d.end < c.end then [Span(d.start, c.start)]
    else if d.start > c.start && d.end > c.end then [Span(c.end, d.end)]
    else if d.start < c.start && d.end > c.end then [Span(d.start, c.start), Span(c.end, d.end)]
    else []
  }

  /** The `forEach` of `difference` against the fixed reference window `d`. */
  function DiffFold(d: TW, ws: seq<TW>): (r: seq<TW>)
    ensures |r| <= 2 * |ws|
    ensures (forall i :: 0 <= i < |ws| ==> !Meets(d, ws[i], DIFFERENCE_THRESHOLD)) ==>
              |r| == |ws| && forall j :: 0 <= j < |r| ==> r[j] == d
    ensures d.WellFormed() && (forall i :: 0 <= i < |ws| ==> ws[i].WellFormed()) ==>
              forall j :: 0 <= j < |r| ==>
                r[j].WellFormed() && d.start - 1 <= r[j].start && r[j].end <= d.end + 1
    decreases |ws|
  {
    if |ws| == 0 then []
    else
      var head := Pieces(d, ws[0]);
      var rest := DiffFold(d, ws[1..]);
      assert forall i :: 0 <= i < |ws[1..]| ==> ws[1..][i] == ws[i + 1];
      head + rest
  }

  /**
   `w.difference(ws)`: no candidates give no windows; otherwise at most two
   windows per candidate, each within one second of `w`, and one unchanged copy
   of `w` for every candidate it does not meet.
   */
  function Difference(w: TW, ws: seq<TW>): (r: seq<TW>)
    ensures |ws| == 0 ==> r == []
    ensures |r| <= 2 * |ws|
    ensures (forall i :: 0 <= i < |ws| ==> !Meets(w, ws[i], DIFFERENCE_THRESHOLD)) ==>
              |r| == |ws| && forall j :: 0 <= j < |r| ==> r[j] == w
    ensures w.WellFormed() && (forall i :: 0 <= i < |ws| ==> ws[i].WellFormed()) ==>
              forall j :: 0 <= j < |r| ==>
                r[j].WellFormed() && w.start - 1 <= r[j].start && r[j].end <= w.end + 1
  {
    DiffFold(Clone(w), ws)
  }

  /**
   The reference window is never updated, so candidates contribute
   independently: the difference against `a + b` is the difference against `a`
   followed by the difference against `b`.
   */
  lemma {:induction false} DifferenceAppend(w: TW, a: seq<TW>, b: seq<TW>)
    ensures Difference(w, a + b) == Difference(w, a) + Difference(w, b)
    decreases |a|
  {
    if |a| == 0 {
      assert a + b == b;
    } else {
      assert (a + b)[0] == a[0];
      assert (a + b)[1..] == a[1..] + b;
      DifferenceAppend(w, a[1..], b);
    }
  }

  /**
   Against a candidate that genuinely overlaps it, every second a piece covers
   lies in `d` and outside the interior of `c`.
   */
  lemma PiecesSound(d: TW, c: TW, x: int)
    requires d.WellFormed() && c.WellFormed() && Meets(d, c, 0)
    ensures InAny(Pieces(d, c), x) ==> d.Covers(x) && !(c.start < x < c.end)
  {
  }

  /**
   Every second of `d` outside `c` is kept by some piece, unless `d` and `c`
   share an edge.
   */
  lemma PiecesComplete(d: TW, c: TW, x: int)
    requires d.WellFormed() && c.WellFormed()
    requires d.start != c.start && d.end != c.end
    ensures d.Covers(x) && !c.Covers(x) ==> InAny(Pieces(d, c), x)
  {
    var r := Pieces(d, c);
    if d.Covers(x) && !c.Covers(x) && Meets(d, c, DIFFERENCE_THRESHOLD) {
      if d.start < c.start && d.end < c.end {
        assert r == [Span(d.start, c.start)];
        assert r[0].Covers(x);
      } else if d.start > c.start && d.end > c.end {
        assert r == [Span(c.end, d.end)];
        assert r[0].Covers(x);
      } else {
        assert r == [Span(d.start, c.start), Span(c.end, d.end)];
        if x < c.start {
          assert r[0].Covers(x);
        } else {
          assert r[1].Covers(x);
        }
      }
    }
  }

  /**
   When every candidate genuinely overlaps the receiver, the difference never
   reaches outside it.
   */
  lemma DifferenceWithin(w: TW, ws: seq<TW>, x: int)
    requires w.WellFormed() && forall i :: 0 <= i < |ws| ==> ws[i].WellFormed() && Meets(w, ws[i], 0)
    ensures InAny(Difference(w, ws), x) ==> w.Covers(x)
  {
    WithinFold(w, ws, x);
  }

  lemma {:induction false} WithinFold(d: TW, ws: seq<TW>, x: int)
    requires d.WellFormed() && forall i :: 0 <= i < |ws| ==> ws[i].WellFormed() && Meets(d, ws[i], 0)
    ensures InAny(DiffFold(d, ws), x) ==> d.Covers(x)
    decreases |ws|
  {
    if |ws| > 0 {
      var head := Pieces(d, ws[0]);
      var rest := DiffFold(d, ws[1..]);
      PiecesSound(d, ws[0], x);
      WithinFold(d, ws[1..], x);
      var all: seq<TW> := head + rest;
      if InAny(all, x) {
        var j :| 0 <= j < |all| && all[j].Covers(x);
        if j < |head| {
          assert head[j].Covers(x);
        } else {
          assert rest[j - |head|].Covers(x);
        }
      }
    }
  }

  /**
   The original's test: 9-11 minus 10-12 and 12-13 gives 9-10, then 9-11 again
   because 12-13 does not meet the unchanged reference window.
   */
  lemma TestedDifference()
    ensures Difference(TW(9 * ONE_HOUR, 11 * ONE_HOUR),
                       [TW(10 * ONE_HOUR, 12 * ONE_HOUR), TW(12 * ONE_HOUR, 13 * ONE_HOUR)]) ==
              [TW(9 * ONE_HOUR, 10 * ONE_HOUR), TW(9 * ONE_HOUR, 11 * ONE_HOUR)]
  {
    var d := TW(9 * ONE_HOUR, 11 * ONE_HOUR);
    var late := TW(12 * ONE_HOUR, 13 * ONE_HOUR);
    assert DiffFold(d, [late]) == [d];
    assert [TW(10 * ONE_HOUR, 12 * ONE_HOUR), late][1..] == [late];
  }

  /**
   Edge cases of the fixed slack and strict comparisons: a candidate one second
   past the end yields a piece one second longer than the receiver, and a
   candidate sharing the receiver's end yields nothing at all.
   */
  lemma DifferenceEdges()
    ensures Difference(TW(8 * ONE_HOUR, 9 * ONE_HOUR), [TW(9 * ONE_HOUR + 1, 10 * ONE_HOUR)]) ==
              [TW(8 * ONE_HOUR, 9 * ONE_HOUR + 1)]
    ensures Difference(TW(9 * ONE_HOUR, 11 * ONE_HOUR), [TW(10 * ONE_HOUR, 11 * ONE_HOUR)]) == []
  {
    assert DiffFold(TW(8 * ONE_HOUR, 9 * ONE_HOUR), []) == [];
    assert DiffFold(TW(9 * ONE_HOUR, 11 * ONE_HOUR), []) == [];
  }
}
