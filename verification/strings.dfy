/**
 The two string primitives the constructor relies on: `String.prototype.indexOf`
 for a literal pattern and `String.prototype.split` on a single character.
 */
module Strings {

  /** `s` holds `p` starting at position `k`. */
  predicate OccursAt(s: string, p: string, k: int) {
    0 <= k && k + |p| <= |s| && s[k..k + |p|] == p
  }

  /** `s.indexOf(p)`: the first position holding `p`, or -1 when there is none. */
  function IndexOf(s: string, p: string): (r: int)
    ensures r == -1 || OccursAt(s, p, r)
    ensures forall k :: 0 <= k < |s| && (r == -1 || k < r) ==> !OccursAt(s, p, k)
  {
    IndexFrom(s, p, 0)
  }

  function IndexFrom(s: string, p: string, from: nat): (r: int)
    ensures r == -1 || (from <= r && OccursAt(s, p, r))
    ensures forall k :: from <= k < |s| && (r == -1 || k < r) ==> !OccursAt(s, p, k)
    decreases |s| - from
  {
    if from + |p| > |s| then -1
    else if s[from..from + |p|] == p then from
    else IndexFrom(s, p, from + 1)
  }

  /** `s.split(d)`: the maximal pieces between occurrences of `d`, in order. */
  function Split(s: string, d: char): (r: seq<string>)
    ensures |r| >= 1
    ensures forall i :: 0 <= i < |r| ==> d !in r[i]
    ensures |r| == 1 <==> d !in s
    decreases |s|
  {
    if |s| == 0 then [""]
    else if s[0] == d then [""] + Split(s[1..], d)
    else
      var rest := Split(s[1..], d);
      [[s[0]] + rest[0]] + rest[1..]
  }

  /** Splitting text free of the delimiter gives the text back whole. */
  lemma {:induction false} SplitWhole(a: string, d: char)
    requires d !in a
    ensures Split(a, d) == [a]
    decreases |a|
  {
    if |a| > 0 {
      assert d !in a[1..];
      SplitWhole(a[1..], d);
      assert [a[0]] + a[1..] == a;
    }
  }

  /** The first piece ends at the first delimiter. */
  lemma {:induction false} SplitAt(a: string, d: char, b: string)
    requires d !in a
    ensures Split(a + [d] + b, d) == [a] + Split(b, d)
    decreases |a|
  {
    var s := a + [d] + b;
    if |a| == 0 {
      assert s[1..] == b;
    } else {
      assert s[1..] == a[1..] + [d] + b;
      assert d !in a[1..];
      SplitAt(a[1..], d, b);
      assert [a[0]] + a[1..] == a;
    }
  }

  /** Three delimiter-free pieces joined by the delimiter split back into the three. */
  lemma SplitThree(a: string, b: string, c: string, d: char)
    requires d !in a && d !in b && d !in c
    ensures Split(a + [d] + b + [d] + c, d) == [a, b, c]
  {
    assert Split(b + [d] + c, d) == [b, c] by {
      SplitAt(b, d, c);
      SplitWhole(c, d);
    }
    assert a + [d] + b + [d] + c == a + [d] + (b + [d] + c);
    SplitAt(a, d, b + [d] + c);
  }

  /** Two delimiter-free pieces joined by the delimiter split back into the two. */
  lemma SplitTwo(a: string, b: string, d: char)
    requires d !in a && d !in b
    ensures Split(a + [d] + b, d) == [a, b]
  {
    SplitAt(a, d, b);
    SplitWhole(b, d);
  }

  /** A separator whose second character cannot appear in `a` is found right after `a`. */
  lemma SeparatorAfter(a: string, sep: string, b: string)
    requires |sep| == 3 && sep[0] != sep[1] && sep[1] !in a
    ensures IndexOf(a + sep + b, sep) == |a|
  {
    var s := a + sep + b;
    assert s[|a|..|a| + 3] == sep;
    assert OccursAt(s, sep, |a|);
  }
}
