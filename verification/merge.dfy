/**
 `union`: one left-to-right pass over the candidates with an accumulator that
 starts as a clone of the receiver. A candidate that meets the accumulator as
 it stands at that moment is absorbed into it; any other candidate is passed
 through unchanged. The result is the accumulator followed by the passed-through
 candidates in arrival order. It is not a transitive closure: a candidate passed
 through early is not revisited when the accumulator later grows towards it.
 */
module Merge {
  import opened Windows
  import opened Overlap

  /** The accumulator after absorbing `c`: the smallest window holding both. */
  function Extend(acc: TW, c: TW): (r: TW)
    ensures Encloses(r, acc, 0) && Encloses(r, c, 0)
    ensures r.start == acc.start || r.start == c.start
    ensures r.end == acc.end || r.end == c.end
  {
    TW(if c.start < acc.start then c.start else acc.start,
       if c.end > acc.end then c.end else acc.end)
  }

  /**
   The `forEach` of `union` from accumulator `acc`: the final accumulator and
   the candidates passed through. Meeting a single candidate is
   `intersects(candidate, t)` on a one-element sequence.
   */
  function UnionFold(acc: TW, ws: seq<TW>, t: int): (r: (TW, seq<TW>))
    ensures Encloses(r.0, acc, 0)
    ensures r.0.start == acc.start || exists i :: 0 <= i < |ws| && r.0.start == ws[i].start
    ensures r.0.end == acc.end || exists i :: 0 <= i < |ws| && r.0.end == ws[i].end
    ensures |r.1| <= |ws|
    ensures forall i :: 0 <= i < |r.1| ==> r.1[i] in ws
    decreases |ws|
  {
    if |ws| == 0 then (acc, [])
    else if Meets(acc, ws[0], t) then
      var r := UnionFold(Extend(acc, ws[0]), ws[1..], t);
      assert forall i :: 0 <= i < |r.1| ==> r.1[i] in ws by {
        forall i | 0 <= i < |r.1| ensures r.1[i] in ws {
          assert r.1[i] in ws[1..];
        }
      }
      r
    else
      var r := UnionFold(acc, ws[1..], t);
      var kept := [ws[0]] + r.1;
      assert forall i :: 0 <= i < |kept| ==> kept[i] in ws by {
        forall i | 0 <= i < |kept| ensures kept[i] in ws {
          if i > 0 { assert kept[i] == r.1[i - 1]; assert r.1[i - 1] in ws[1..]; }
        }
      }
      (r.0, kept)
  }

  /**
   `w.union(ws, t)` for a non-empty candidate sequence: the merged window first,
   covering `w` and with bounds taken from `w` or a candidate, then the
   candidates passed through, each one of the inputs.
   */
  function Union(w: TW, ws: seq<TW>, t: int): (r: seq<TW>)
    requires |ws| > 0
    ensures 1 <= |r| <= |ws| + 1
    ensures Encloses(r[0], w, 0)
    ensures r[0].start == w.start || exists i :: 0 <= i < |ws| && r[0].start == ws[i].start
    ensures r[0].end == w.end || exists i :: 0 <= i < |ws| && r[0].end == ws[i].end
    ensures forall i :: 1 <= i < |r| ==> r[i] in ws
  {
    var f := UnionFold(Clone(w), ws, t);
    [f.0] + f.1
  }

  /**
   Each candidate is compared with the accumulator as updated by all earlier
   candidates: appending one candidate either grows the final accumulator by
   it or appends it, unchanged, to the passed-through list.
   */
  lemma {:induction false} UnionSnoc(acc: TW, ws: seq<TW>, c: TW, t: int)
    ensures UnionFold(acc, ws + [c], t) ==
              var f := UnionFold(acc, ws, t);
              if Meets(f.0, c, t) then (Extend(f.0, c), f.1) else (f.0, f.1 + [c])
    decreases |ws|
  {
    if |ws| == 0 {
      assert ws + [c] == [c];
      assert [c][1..] == [];
      assert UnionFold(acc, ws, t) == (acc, []);
      if Meets(acc, c, t) {
        assert UnionFold(acc, [c], t) == UnionFold(Extend(acc, c), [], t);
      } else {
        assert UnionFold(acc, [c], t) == (UnionFold(acc, [], t).0, [c] + UnionFold(acc, [], t).1);
        assert [c] + [] == UnionFold(acc, ws, t).1 + [c];
      }
    } else {
      assert (ws + [c])[0] == ws[0];
      assert (ws + [c])[1..] == ws[1..] + [c];
      if Meets(acc, ws[0], t) {
        UnionSnoc(Extend(acc, ws[0]), ws[1..], c, t);
      } else {
        UnionSnoc(acc, ws[1..], c, t);
        var g := UnionFold(acc, ws[1..], t);
        assert [ws[0]] + (g.1 + [c]) == ([ws[0]] + g.1) + [c];
      }
    }
  }

  lemma {:induction false} FoldCovered(acc: TW, ws: seq<TW>, t: int)
    ensures var r := UnionFold(acc, ws, t);
            forall i :: 0 <= i < |ws| ==> ws[i] in r.1 || Encloses(r.0, ws[i], 0)
    decreases |ws|
  {
    if |ws| > 0 {
      var r := UnionFold(acc, ws, t);
      if Meets(acc, ws[0], t) {
        var e := Extend(acc, ws[0]);
        FoldCovered(e, ws[1..], t);
        forall i | 0 <= i < |ws| ensures ws[i] in r.1 || Encloses(r.0, ws[i], 0) {
          if i > 0 { assert ws[i] == ws[1..][i - 1]; }
        }
      } else {
        var g := UnionFold(acc, ws[1..], t);
        FoldCovered(acc, ws[1..], t);
        forall i | 0 <= i < |ws| ensures ws[i] in r.1 || Encloses(r.0, ws[i], 0) {
          if i > 0 {
            assert ws[i] == ws[1..][i - 1];
            if ws[i] in g.1 { assert ws[i] in [ws[0]] + g.1; }
          }
        }
      }
    }
  }

  /** No candidate is lost: each is passed through or lies inside the merged window. */
  lemma UnionCovered(w: TW, ws: seq<TW>, t: int)
    requires |ws| > 0
    ensures var r := Union(w, ws, t);
            forall i :: 0 <= i < |ws| ==> ws[i] in r[1..] || Encloses(r[0], ws[i], 0)
  {
    FoldCovered(Clone(w), ws, t);
    var f := UnionFold(Clone(w), ws, t);
    assert ([f.0] + f.1)[1..] == f.1;
  }

  lemma InAnyCons(a: TW, s: seq<TW>, x: int)
    ensures InAny([a] + s, x) <==> a.Covers(x) || InAny(s, x)
  {
    if InAny(s, x) {
      var i :| 0 <= i < |s| && s[i].Covers(x);
      assert ([a] + s)[i + 1] == s[i];
    }
    if InAny([a] + s, x) {
      var i :| 0 <= i < |[a] + s| && ([a] + s)[i].Covers(x);
      if i > 0 { assert ([a] + s)[i] == s[i - 1]; }
    }
    assert ([a] + s)[0] == a;
  }

  /** Every second of the receiver or of a candidate is covered by the union. */
  lemma UnionLosesNothing(w: TW, ws: seq<TW>, t: int, x: int)
    requires |ws| > 0
    ensures InAny([w] + ws, x) ==> InAny(Union(w, ws, t), x)
  {
    var r := Union(w, ws, t);
    UnionCovered(w, ws, t);
    InAnyCons(w, ws, x);
    InAnyCons(r[0], r[1..], x);
    assert [r[0]] + r[1..] == r;
    if InAny(ws, x) && !r[0].Covers(x) {
      var i :| 0 <= i < |ws| && ws[i].Covers(x);
      var j :| 0 <= j < |r[1..]| && r[1..][j] == ws[i];
    }
  }

  lemma {:induction false} FoldAddsNothing(acc: TW, ws: seq<TW>, t: int, x: int)
    requires t <= 0 && acc.WellFormed()
    requires forall i :: 0 <= i < |ws| ==> ws[i].WellFormed()
    ensures var r := UnionFold(acc, ws, t);
            r.0.Covers(x) ==> acc.Covers(x) || InAny(ws, x)
    decreases |ws|
  {
    if |ws| > 0 {
      var c := ws[0];
      InAnyCons(c, ws[1..], x);
      assert [c] + ws[1..] == ws;
      if Meets(acc, c, t) {
        var e := Extend(acc, c);
        assert e.Covers(x) ==> acc.Covers(x) || c.Covers(x);
        FoldAddsNothing(e, ws[1..], t, x);
      } else {
        FoldAddsNothing(acc, ws[1..], t, x);
      }
    }
  }

  /**
   With no slack (or negative slack) and forward-running windows, the union
   covers exactly the seconds of the receiver and the candidates: merging fills
   no gap.
   */
  lemma UnionAddsNothing(w: TW, ws: seq<TW>, t: int, x: int)
    requires |ws| > 0 && t <= 0 && w.WellFormed()
    requires forall i :: 0 <= i < |ws| ==> ws[i].WellFormed()
    ensures InAny(Union(w, ws, t), x) ==> InAny([w] + ws, x)
  {
    var f := UnionFold(Clone(w), ws, t);
    var r := Union(w, ws, t);
    FoldAddsNothing(Clone(w), ws, t, x);
    InAnyCons(w, ws, x);
    InAnyCons(f.0, f.1, x);
    if InAny(f.1, x) {
      var j :| 0 <= j < |f.1| && f.1[j].Covers(x);
      assert f.1[j] in ws;
      var i :| 0 <= i < |ws| && ws[i] == f.1[j];
    }
  }

  /** The original's test: 8:15-10:30 with 9:00-11:00 and 12:00-13:00. */
  lemma TestedUnion()
    ensures Union(TW(29700, 37800), [TW(32400, 39600), TW(43200, 46800)], 0) ==
              [TW(29700, 39600), TW(43200, 46800)]
    ensures TW(29700, 39600).Duration() == 9900
  {
  }

  /**
   A single pass: 9:30-10:00 is passed through before 8:30-9:30 stretches the
   accumulator to touch it, so the result holds two windows that meet.
   */
  lemma UnionSinglePass()
    ensures Union(TW(8 * ONE_HOUR, 9 * ONE_HOUR),
                  [TW(9 * ONE_HOUR + 1800, 10 * ONE_HOUR), TW(8 * ONE_HOUR + 1800, 9 * ONE_HOUR + 1800)], 0) ==
              [TW(8 * ONE_HOUR, 9 * ONE_HOUR + 1800), TW(9 * ONE_HOUR + 1800, 10 * ONE_HOUR)]
    ensures Meets(TW(8 * ONE_HOUR, 9 * ONE_HOUR + 1800), TW(9 * ONE_HOUR + 1800, 10 * ONE_HOUR), 0)
  {
    var late := TW(9 * ONE_HOUR + 1800, 10 * ONE_HOUR);
    var bridge := TW(8 * ONE_HOUR + 1800, 9 * ONE_HOUR + 1800);
    var grown := TW(8 * ONE_HOUR, 9 * ONE_HOUR + 1800);
    assert UnionFold(grown, [], 0) == (grown, []);
    assert UnionFold(TW(8 * ONE_HOUR, 9 * ONE_HOUR), [bridge], 0) == (grown, []);
    assert [late, bridge][1..] == [bridge];
  }

  /**
   Back-to-back windows one second apart, like 8:00:00-11:59:59 followed by
   12:00:00-15:59:59, join into one window at slack 1 and stay apart at slack 0.
   */
  lemma UnionNextSecond(a: int, b: int, c: int, d: int)
    requires a <= b < c < d
    ensures Union(TW(a, b), [TW(b + 1, c), TW(c + 1, d)], 1) == [TW(a, d)]
    ensures Union(TW(a, b), [TW(b + 1, c), TW(c + 1, d)], 0) == [TW(a, b), TW(b + 1, c), TW(c + 1, d)]
  {
    var ws := [TW(b + 1, c), TW(c + 1, d)];
    assert ws[1..] == [TW(c + 1, d)];
    assert UnionFold(TW(a, c), [TW(c + 1, d)], 1) == (TW(a, d), []);
    assert [TW(c + 1, d)][1..] == [];
    assert UnionFold(TW(a, b), [], 0) == (TW(a, b), []);
    assert UnionFold(TW(a, b), [TW(c + 1, d)], 0) == (TW(a, b), [TW(c + 1, d)] + []);
  }
}
