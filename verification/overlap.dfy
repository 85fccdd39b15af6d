/**
 The two pairwise predicates, `intersects` and `containedBy`, each asked of a
 window against a sequence of candidates (a single candidate is the
 one-element sequence). Both are true when ANY candidate qualifies.
 */
module Overlap {
  import opened Windows

  /**
   `a` and `c` intersect with `t` seconds of slack: `a` neither ends before
   `c.start - t` nor starts after `c.end + t`.
   */
  predicate Meets(a: TW, c: TW, t: int) {
    !(a.end < c.start - t || a.start > c.end + t)
  }

  /** `intersects(ws, t)`: false for no candidates, else whether any candidate meets `w`. */
  function Intersects(w: TW, ws: seq<TW>, t: int): (r: bool)
    ensures r <==> exists i :: 0 <= i < |ws| && Meets(w, ws[i], t)
    decreases |ws|
  {
    if |ws| == 0 then false else Meets(w, ws[0], t) || Intersects(w, ws[1..], t)
  }

  /** `c` encloses `w` up to `t` seconds of overlap at either end. */
  predicate Encloses(c: TW, w: TW, t: int) {
    c.start <= w.start + t && c.end >= w.end - t
  }

  /** `containedBy(ws, t)`: false for no candidates, else whether any candidate encloses `w`. */
  function ContainedBy(w: TW, ws: seq<TW>, t: int): (r: bool)
    ensures r <==> exists i :: 0 <= i < |ws| && Encloses(ws[i], w, t)
    decreases |ws|
  {
    if |ws| == 0 then false else Encloses(ws[0], w, t) || ContainedBy(w, ws[1..], t)
  }

  /** Intersection is symmetric, and touching endpoints count at zero slack. */
  lemma MeetsSymmetric(a: TW, c: TW, t: int)
    ensures Meets(a, c, t) <==> Meets(c, a, t)
    ensures a.WellFormed() && c.WellFormed() && a.end == c.start ==> Meets(a, c, 0)
    ensures a.WellFormed() && c.WellFormed() && a.end + 1 == c.start ==>
              !Meets(a, c, 0) && Meets(a, c, 1)
  {
  }

  /** More slack never loses an intersection or a containment. */
  lemma ThresholdMonotone(w: TW, ws: seq<TW>, t1: int, t2: int)
    requires t1 <= t2
    ensures Intersects(w, ws, t1) ==> Intersects(w, ws, t2)
    ensures ContainedBy(w, ws, t1) ==> ContainedBy(w, ws, t2)
  {
  }

  /** The answer depends only on which candidates there are, not on their order or repeats. */
  lemma OrderFree(w: TW, ws: seq<TW>, vs: seq<TW>, t: int)
    requires forall c :: c in ws <==> c in vs
    ensures Intersects(w, ws, t) == Intersects(w, vs, t)
    ensures ContainedBy(w, ws, t) == ContainedBy(w, vs, t)
  {
    if Intersects(w, ws, t) {
      var i :| 0 <= i < |ws| && Meets(w, ws[i], t);
      assert ws[i] in vs;
    }
    if Intersects(w, vs, t) {
      var i :| 0 <= i < |vs| && Meets(w, vs[i], t);
      assert vs[i] in ws;
    }
    if ContainedBy(w, ws, t) {
      var i :| 0 <= i < |ws| && Encloses(ws[i], w, t);
      assert ws[i] in vs;
    }
    if ContainedBy(w, vs, t) {
      var i :| 0 <= i < |vs| && Encloses(vs[i], w, t);
      assert vs[i] in ws;
    }
  }

  /** A forward-running window contained by some candidate also intersects it. */
  lemma ContainedIntersects(w: TW, ws: seq<TW>, t: int)
    requires w.WellFormed()
    ensures ContainedBy(w, ws, t) ==> Intersects(w, ws, t)
  {
    if ContainedBy(w, ws, t) {
      var i :| 0 <= i < |ws| && Encloses(ws[i], w, t);
      assert Meets(w, ws[i], t);
    }
  }

  /** At zero overlap, containment is reflexive and transitive. */
  lemma EnclosesOrder(a: TW, b: TW, c: TW)
    ensures Encloses(a, a, 0)
    ensures Encloses(b, a, 0) && Encloses(c, b, 0) ==> Encloses(c, a, 0)
  {
  }

  /** The boundary cases pinned by the original's tests. */
  lemma TestedBoundaries()
    ensures !Intersects(TW(7 * ONE_HOUR, 8 * ONE_HOUR - 1), [TW(8 * ONE_HOUR, 9 * ONE_HOUR)], 0)
    ensures Intersects(TW(7 * ONE_HOUR, 8 * ONE_HOUR), [TW(8 * ONE_HOUR, 9 * ONE_HOUR)], 0)
    ensures !Intersects(TW(8 * ONE_HOUR, 9 * ONE_HOUR), [TW(9 * ONE_HOUR + 1, 10 * ONE_HOUR)], 0)
    ensures Intersects(TW(8 * ONE_HOUR, 8 * ONE_HOUR + 1), [TW(8 * ONE_HOUR + 2, 9 * ONE_HOUR)], 1)
    ensures !ContainedBy(TW(9 * ONE_HOUR, 11 * ONE_HOUR), [TW(9 * ONE_HOUR, 10 * ONE_HOUR)], 0)
    ensures ContainedBy(TW(9 * ONE_HOUR, 10 * ONE_HOUR), [TW(9 * ONE_HOUR, 11 * ONE_HOUR)], 0)
    ensures !Intersects(TW(9 * ONE_HOUR, 10 * ONE_HOUR), [], 0)
    ensures !ContainedBy(TW(9 * ONE_HOUR, 10 * ONE_HOUR), [], 0)
  {
  }
}
