/**
 The time-window value: a pair of second offsets from a day origin. The
 original stores `duration` beside `start` and `end` and recomputes it as
 `end - start` whenever a window is built or merged; here it is derived.
 */
module Windows {

  const ONE_MINUTE: int := 60
  const ONE_HOUR: int := 3600

  datatype TW = TW(start: int, end: int) {

    /** `Math.round(end - start)`, which is exact on integer offsets. */
    function Duration(): int {
      end - start
    }

    /** Not enforced by construction: a window may run backwards. */
    predicate WellFormed() {
      start <= end
    }

    /** The second `x` lies in the window, both ends included. */
    predicate Covers(x: int) {
      start <= x <= end
    }
  }

  /** The offset of a clock reading, in units of `ONE_HOUR` and `ONE_MINUTE`. */
  function ClockSeconds(hours: int, minutes: int, seconds: int): int {
    hours * 3600 + minutes * 60 + seconds
  }

  /** Some window of `ws` covers the second `x`. */
  predicate InAny(ws: seq<TW>, x: int) {
    exists i :: 0 <= i < |ws| && ws[i].Covers(x)
  }

  /**
   The window with the two given bounds, 0 included. This is what rebuilding a
   window from `{start, end}` is meant to give; the record constructor as
   written turns a 0 bound into NaN (see `Construct.SpanAsWritten`).
   */
  function Span(start: int, end: int): (w: TW)
    ensures w.start == start && w.end == end
    ensures w.Duration() == end - start
    ensures forall x :: w.Covers(x) <==> start <= x <= end
  {
    TW(start, end)
  }

  /** `clone`: an independent copy with the same bounds and duration. */
  function Clone(w: TW): (c: TW)
    ensures c == w && c.Duration() == w.Duration()
  {
    Span(w.start, w.end)
  }
}
