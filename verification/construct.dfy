/**
 The constructor: a window from an `"HH:MM:SS - HH:MM:SS"` string or from a
 record holding two of `start`, `end` and `duration`. `None` stands for the
 windows the original builds with a NaN bound.
 */
module Construct {
  import opened Wrappers
  import opened Decimal
  import opened Strings
  import opened Windows

  const SEPARATOR: string := " - "

  /** A record argument; an absent field is JavaScript's `undefined`. */
  datatype Record = Record(start: Option<int>, end: Option<int>, duration: Option<int>)

  /** The two argument shapes the constructor accepts. */
  datatype Input = Text(text: string) | Fields(fields: Record)

  /** `hours * 3600 + minutes * 60 + seconds` from the first three `:`-fields. */
  function Seconds(fields: seq<string>): (r: Option<int>)
    ensures r.Some? <==> |fields| >= 3 && IsDigits(fields[0]) && IsDigits(fields[1]) && IsDigits(fields[2])
    ensures r.Some? ==> r.value >= 0
  {
    if |fields| >= 3 && IsDigits(fields[0]) && IsDigits(fields[1]) && IsDigits(fields[2]) then
      Some(ClockSeconds(ParseNat(fields[0]), ParseNat(fields[1]), ParseNat(fields[2])))
    else
      None
  }

  /**
   The string form: the text before the first `" - "` is the start, the text
   after it the end, each split on `:`.
   */
  function FromText(s: string): (r: Option<TW>)
    ensures r.Some? ==> IndexOf(s, SEPARATOR) >= 0
    ensures r.Some? ==> 0 <= r.value.start && 0 <= r.value.end
  {
    var i := IndexOf(s, SEPARATOR);
    if i < 0 then None
    else
      var start := Seconds(Split(s[..i], ':'));
      var end := Seconds(Split(s[i + |SEPARATOR|..], ':'));
      if start.Some? && end.Some? then Some(TW(start.value, end.value)) else None
  }

  /** A field counts as given when it is present and truthy, that is non-zero. */
  predicate Given(field: Option<int>) {
    field.Some? && field.value != 0
  }

  /**
   The record form: `start || end - duration` and `end || start + duration`,
   where arithmetic on an absent field is NaN.
   */
  function FromRecord(rec: Record): (r: Option<TW>)
    ensures r.Some? <==>
              (Given(rec.start) || (rec.end.Some? && rec.duration.Some?)) &&
              (Given(rec.end) || (rec.start.Some? && rec.duration.Some?))
  {
    var start :=
      if Given(rec.start) then rec.start
      else if rec.end.Some? && rec.duration.Some? then Some(rec.end.value - rec.duration.value)
      else None;
    var end :=
      if Given(rec.end) then rec.end
      else if rec.start.Some? && rec.duration.Some? then Some(rec.start.value + rec.duration.value)
      else None;
    if start.Some? && end.Some? then Some(TW(start.value, end.value)) else None
  }

  /**
   The constructor's dispatch on its argument: a string is read as clock text
   and never gives a negative bound, and a record builds under the `||`
   fallback rules.
   */
  function Build(input: Input): (r: Option<TW>)
    ensures input.Text? && r.Some? ==>
              IndexOf(input.text, SEPARATOR) >= 0 && 0 <= r.value.start && 0 <= r.value.end
    ensures input.Fields? ==>
              (r.Some? <==>
                 (Given(input.fields.start) || (input.fields.end.Some? && input.fields.duration.Some?)) &&
                 (Given(input.fields.end) || (input.fields.start.Some? && input.fields.duration.Some?)))
  {
    match input
    case Text(s) => FromText(s)
    case Fields(rec) => FromRecord(rec)
  }

  /**
   Any two of the three fields rebuild a window, as long as no given bound is
   0; a 0 bound given beside the other two is derived from them instead.
   */
  lemma RecordTwoOfThree(w: TW, d: int)
    ensures FromRecord(Record(Some(w.start), Some(w.end), None)) ==
              (if w.start != 0 && w.end != 0 then Some(w) else None)
    ensures FromRecord(Record(Some(w.start), None, Some(w.Duration()))) ==
              (if w.start != 0 then Some(w) else None)
    ensures FromRecord(Record(None, Some(w.end), Some(w.Duration()))) ==
              (if w.end != 0 then Some(w) else None)
    ensures w.start != 0 && w.end != 0 ==>
              FromRecord(Record(Some(w.start), Some(w.end), Some(d))) == Some(w)
    ensures w.start == 0 && w.end != 0 ==>
              FromRecord(Record(Some(0), Some(w.end), Some(d))) == Some(TW(w.end - d, w.end))
    ensures w.start != 0 && w.end == 0 ==>
              FromRecord(Record(Some(w.start), Some(0), Some(d))) == Some(TW(w.start, w.start + d))
  {
  }

  /** `"HH:MM:SS"`, each field padded to at least two digits. */
  function Clock24(h: nat, m: nat, s: nat): string {
    Pad2(h) + ":" + Pad2(m) + ":" + Pad2(s)
  }

  /**
   Three digit fields joined by `:` read as `a*3600 + b*60 + c`, whatever
   their width and whatever their range.
   */
  lemma FieldsSeconds(a: string, b: string, c: string)
    requires IsDigits(a) && IsDigits(b) && IsDigits(c)
    ensures '-' !in a + [':'] + b + [':'] + c
    ensures Seconds(Split(a + [':'] + b + [':'] + c, ':')) ==
              Some(ClockSeconds(ParseNat(a), ParseNat(b), ParseNat(c)))
  {
    var text := a + [':'] + b + [':'] + c;
    assert '-' !in text by {
      DigitsLack(a);
      DigitsLack(b);
      DigitsLack(c);
    }
    assert Split(text, ':') == [a, b, c] by {
      DigitsLack(a);
      DigitsLack(b);
      DigitsLack(c);
      SplitThree(a, b, c, ':');
    }
    SecondsOfThree(a, b, c);
  }

  lemma SecondsOfThree(a: string, b: string, c: string)
    requires IsDigits(a) && IsDigits(b) && IsDigits(c)
    ensures Seconds([a, b, c]) == Some(ClockSeconds(ParseNat(a), ParseNat(b), ParseNat(c)))
  {
  }

  lemma Clock24Seconds(h: nat, m: nat, s: nat)
    ensures '-' !in Clock24(h, m, s)
    ensures Seconds(Split(Clock24(h, m, s), ':')) == Some(ClockSeconds(h, m, s))
  {
    var hh, mm, ss := Pad2(h), Pad2(m), Pad2(s);
    assert IsDigits(hh) && ParseNat(hh) == h by { Pad2Parse(h); }
    assert IsDigits(mm) && ParseNat(mm) == m by { Pad2Parse(m); }
    assert IsDigits(ss) && ParseNat(ss) == s by { Pad2Parse(s); }
    assert Clock24(h, m, s) == hh + [':'] + mm + [':'] + ss;
    FieldsSeconds(hh, mm, ss);
  }

  /**
   Reading `"HH:MM:SS - HH:MM:SS"` gives `start = h1*3600 + m1*60 + s1` and
   `end = h2*3600 + m2*60 + s2`, with no range check on the fields.
   */
  lemma TextRoundTrip(h1: nat, m1: nat, s1: nat, h2: nat, m2: nat, s2: nat)
    ensures FromText(Clock24(h1, m1, s1) + SEPARATOR + Clock24(h2, m2, s2)) ==
              Some(TW(ClockSeconds(h1, m1, s1), ClockSeconds(h2, m2, s2)))
  {
    var left := Clock24(h1, m1, s1);
    var right := Clock24(h2, m2, s2);
    var start := ClockSeconds(h1, m1, s1);
    var end := ClockSeconds(h2, m2, s2);
    Clock24Seconds(h1, m1, s1);
    assert Seconds(Split(left, ':')) == Some(start);
    Clock24Seconds(h2, m2, s2);
    assert Seconds(Split(right, ':')) == Some(end);
    FromTextJoin(left, right);
    assert FromText(left + SEPARATOR + right) == Some(TW(start, end));
  }

  /** Text free of `-` on the left of the separator is read side by side. */
  lemma FromTextJoin(left: string, right: string)
    requires '-' !in left
    ensures FromText(left + SEPARATOR + right) ==
              var start := Seconds(Split(left, ':'));
              var end := Seconds(Split(right, ':'));
              if start.Some? && end.Some? then Some(TW(start.value, end.value)) else None
  {
    var text := left + SEPARATOR + right;
    SeparatorAfter(left, SEPARATOR, right);
    assert text[..|left|] == left;
    assert text[|left| + |SEPARATOR|..] == right;
  }

  /** The constructor's own example: 8 AM to 3 PM lasts seven hours. */
  lemma EightToThree()
    ensures FromText("08:00:00 - 15:00:00") == Some(TW(8 * ONE_HOUR, 15 * ONE_HOUR))
    ensures FromText("08:00:00 - 15:00:00").value.Duration() == 7 * ONE_HOUR
  {
    assert Clock24(8, 0, 0) == "08:00:00" by { assert Pad2(0) == "00" && Pad2(8) == "08"; }
    assert Clock24(15, 0, 0) == "15:00:00" by { assert Pad2(0) == "00" && Pad2(15) == "15"; }
    assert "08:00:00" + SEPARATOR + "15:00:00" == "08:00:00 - 15:00:00";
    ClockLiteral(8, 0, 0, 15, 0, 0, "08:00:00 - 15:00:00");
  }

  /**
   `new TimeWindow({start: a, end: b})`, the way `clone` and `difference` build
   a window from two known bounds: a 0 bound is taken as absent, so it is NaN.
   */
  function SpanAsWritten(a: int, b: int): (r: Option<TW>)
    ensures r.Some? <==> a != 0 && b != 0
    ensures r.Some? ==> r.value == Span(a, b)
  {
    FromRecord(Record(Some(a), Some(b), None))
  }

  /**
   A window starting at midnight parses, but cloning it as written loses its
   start, while `Windows.Clone` keeps it.
   */
  lemma MidnightCloneIsNaN(h: nat, m: nat, s: nat)
    ensures FromText(Clock24(0, 0, 0) + SEPARATOR + Clock24(h, m, s)) == Some(TW(0, ClockSeconds(h, m, s)))
    ensures SpanAsWritten(0, ClockSeconds(h, m, s)).None?
    ensures Clone(TW(0, ClockSeconds(h, m, s))) == TW(0, ClockSeconds(h, m, s))
  {
    assert SpanAsWritten(0, ClockSeconds(h, m, s)).None?;
    TextRoundTrip(0, 0, 0, h, m, s);
  }

  /** The text of two literal clock readings is read as the window they name. */
  lemma ClockLiteral(h1: nat, m1: nat, s1: nat, h2: nat, m2: nat, s2: nat, text: string)
    requires Clock24(h1, m1, s1) + SEPARATOR + Clock24(h2, m2, s2) == text
    ensures FromText(text) == Some(TW(ClockSeconds(h1, m1, s1), ClockSeconds(h2, m2, s2)))
  {
    TextRoundTrip(h1, m1, s1, h2, m2, s2);
  }
}
