/**
 `TimeWindow.array`: build a window from every input, then union the first
 with all the others. `None` stands for a result holding a window with a NaN
 bound, which the original would go on to compare and merge regardless.
 */
module Batch {
  import opened Wrappers
  import opened Decimal
  import opened Windows
  import opened Overlap
  import opened Merge
  import opened Construct

  /** Every input built, in order; `None` as soon as one of them has a NaN bound. */
  function BuildAll(inputs: seq<Input>): (r: Option<seq<TW>>)
    ensures r.Some? <==> forall i :: 0 <= i < |inputs| ==> Build(inputs[i]).Some?
    ensures r.Some? ==> |r.value| == |inputs| &&
                        forall i :: 0 <= i < |inputs| ==> Build(inputs[i]) == Some(r.value[i])
    decreases |inputs|
  {
    if |inputs| == 0 then Some([])
    else
      var head := Build(inputs[0]);
      var rest := BuildAll(inputs[1..]);
      assert forall i :: 1 <= i < |inputs| ==> inputs[i] == inputs[1..][i - 1];
      if head.None? || rest.None? then None else Some([head.value] + rest.value)
  }

  /**
   `TimeWindow.array(inputs, t)`: no inputs give no windows, one input gives
   its window, and more inputs give the union of the first with the rest.
   */
  function Array(inputs: seq<Input>, t: int): (r: Option<seq<TW>>)
    ensures |inputs| == 0 ==> r == Some([])
    ensures r.Some? <==> forall i :: 0 <= i < |inputs| ==> Build(inputs[i]).Some?
    ensures r.Some? && |inputs| > 0 ==>
              1 <= |r.value| <= |inputs| && Encloses(r.value[0], Build(inputs[0]).value, 0)
    ensures r.Some? ==> forall j :: 1 <= j < |r.value| ==>
              exists i :: 1 <= i < |inputs| && Build(inputs[i]) == Some(r.value[j])
  {
    if |inputs| == 0 then Some([])
    else
      match BuildAll(inputs)
      case None => None
      case Some(ws) =>
        if |ws| == 1 then Some([ws[0]])
        else
          var u := Union(ws[0], ws[1..], t);
          assert forall j :: 1 <= j < |u| ==> exists i :: 1 <= i < |ws| && u[j] == ws[i] by {
            forall j | 1 <= j < |u| ensures exists i :: 1 <= i < |ws| && u[j] == ws[i] {
              var k :| 0 <= k < |ws[1..]| && ws[1..][k] == u[j];
              assert u[j] == ws[k + 1];
            }
          }
          Some(u)
  }

  /** Every second of an input window is covered by the result. */
  lemma ArrayLosesNothing(inputs: seq<Input>, t: int, x: int)
    requires forall i :: 0 <= i < |inputs| ==> Build(inputs[i]).Some?
    ensures InAny(BuildAll(inputs).value, x) ==> InAny(Array(inputs, t).value, x)
  {
    var ws := BuildAll(inputs).value;
    if |ws| > 1 {
      UnionLosesNothing(ws[0], ws[1..], t, x);
      assert [ws[0]] + ws[1..] == ws;
    }
  }

  /**
   With no slack and forward-running windows, the result covers no second
   that no input window covers.
   */
  lemma ArrayAddsNothing(inputs: seq<Input>, t: int, x: int)
    requires t <= 0
    requires forall i :: 0 <= i < |inputs| ==> Build(inputs[i]).Some? && Build(inputs[i]).value.WellFormed()
    ensures InAny(Array(inputs, t).value, x) ==> InAny(BuildAll(inputs).value, x)
  {
    var ws := BuildAll(inputs).value;
    if |ws| > 1 {
      assert Array(inputs, t).value == Union(ws[0], ws[1..], t);
      assert ws[0].WellFormed() by {
        assert Build(inputs[0]) == Some(ws[0]);
      }
      forall i | 0 <= i < |ws[1..]| ensures ws[1..][i].WellFormed() {
        assert Build(inputs[i + 1]) == Some(ws[1..][i]);
      }
      UnionAddsNothing(ws[0], ws[1..], t, x);
      assert [ws[0]] + ws[1..] == ws;
    } else if |ws| == 1 {
      assert Array(inputs, t).value == ws;
    }
  }

  /** A single input gives exactly its own window, with no clone and no merging. */
  lemma ArrayOfOne(input: Input, t: int)
    requires Build(input).Some?
    ensures Array([input], t) == Some([Build(input).value])
  {
    assert [input][1..] == [];
  }

  /** A single `"HH:MM:SS - HH:MM:SS"` input gives the window the text names. */
  lemma ArrayOfOneText(h1: nat, m1: nat, s1: nat, h2: nat, m2: nat, s2: nat, t: int)
    ensures Array([Text(Clock24(h1, m1, s1) + SEPARATOR + Clock24(h2, m2, s2))], t) ==
              Some([TW(ClockSeconds(h1, m1, s1), ClockSeconds(h2, m2, s2))])
  {
    TextRoundTrip(h1, m1, s1, h2, m2, s2);
    ArrayOfOne(Text(Clock24(h1, m1, s1) + SEPARATOR + Clock24(h2, m2, s2)), t);
  }
}
