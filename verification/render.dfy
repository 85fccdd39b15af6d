/**
 `toString`: both bounds as 12-hour clock text joined by `" - "`. The hour,
 minute and second parts are computed with JavaScript's `%`, whose remainder
 takes the sign of the dividend, so negative offsets render as the original
 renders them. Offsets of a day or more are not wrapped.
 */
module Render {
  import opened Wrappers
  import opened Decimal
  import opened Strings
  import opened Windows

  /** The one format value that adds seconds; any other value leaves them out. */
  const SECONDS_FORMAT: string := "HH:MM:SS"
  const JOIN: string := " - "

  /** The quotient rounded toward zero. */
  function TruncDiv(a: int, b: int): int
    requires b > 0
  {
    if a >= 0 then a / b else -((-a) / b)
  }

  /** JavaScript's `a % b` for integer `a` and positive `b`: the remainder takes the sign of `a`. */
  function JsRem(a: int, b: int): (r: int)
    requires b > 0
    ensures a == b * TruncDiv(a, b) + r
    ensures 0 <= a ==> 0 <= r < b
    ensures a < 0 ==> -b < r <= 0
  {
    if a >= 0 then a % b else -((-a) % b)
  }

  /** The hour, minute and second parts `toString` computes for one offset. */
  datatype Parts = Parts(hours: int, minutes: int, seconds: int)

  function PartsOf(s: int): (p: Parts)
    ensures p.hours * 3600 + p.minutes * 60 + p.seconds == s
    ensures 0 <= s ==> 0 <= p.hours && 0 <= p.minutes < 60 && 0 <= p.seconds < 60
  {
    var r1 := JsRem(s, 3600);
    var hours := (s - r1) / 3600;
    assert hours == TruncDiv(s, 3600);
    var rest := s - hours * 3600;
    assert rest == r1;
    var r2 := JsRem(rest, 60);
    var minutes := (rest - r2) / 60;
    assert minutes == TruncDiv(rest, 60);
    Parts(hours, minutes, s - hours * 3600 - minutes * 60)
  }

  /** Whole hours, minutes under sixty and seconds under sixty name an offset uniquely. */
  lemma PartsUnique(h: int, m: int, sec: int)
    requires 0 <= h && 0 <= m < 60 && 0 <= sec < 60
    ensures PartsOf(ClockSeconds(h, m, sec)) == Parts(h, m, sec)
  {
  }

  /** The hour as printed: 13 and later lose twelve, 0 to 12 print as they are. */
  function Hour12(h: int): int {
    if h > 12 then h - 12 else h
  }

  /** One bound as `H:MM[:SS]am` or `H:MM[:SS]pm`. */
  function ClockText(s: int, withSeconds: bool): (text: string)
    ensures |text| >= 2
    ensures 0 <= s ==> (text[|text| - 2..] == "pm" <==> s >= 12 * ONE_HOUR)
    ensures 0 <= s ==> (text[|text| - 2..] == "am" <==> s < 12 * ONE_HOUR)
  {
    PartsText(PartsOf(s), withSeconds)
  }

  /** The text of computed parts: hours above 11 are afternoon, and all but 12 lose twelve. */
  function PartsText(p: Parts, withSeconds: bool): (text: string)
    ensures |text| >= 2
    ensures text[|text| - 2..] == (if p.hours > 11 then "pm" else "am")
  {
    var afternoon := p.hours > 11;
    var hours := if afternoon && p.hours != 12 then p.hours - 12 else p.hours;
    var time := ShowInt(hours) + ":" + Pad2(p.minutes) + (if withSeconds then ":" + Pad2(p.seconds) else "");
    time + (if afternoon then "pm" else "am")
  }

  /**
   `toString(format)`: the start's clock text, `" - "`, the end's clock text.
   The text ends in `pm` exactly when a non-negative end is noon or later.
   */
  function ToString(w: TW, format: string): (text: string)
    ensures |text| >= 2
    ensures 0 <= w.end ==> (text[|text| - 2..] == "pm" <==> w.end >= 12 * ONE_HOUR)
  {
    var withSeconds := format == SECONDS_FORMAT;
    ClockText(w.start, withSeconds) + JOIN + ClockText(w.end, withSeconds)
  }

  /**
   For a non-negative offset the text is the plain clock reading: the hour with
   13 and later reduced by twelve (0 stays 0, 12 stays 12), the minutes padded
   to two digits, the padded seconds only when asked for, and `am` before noon.
   */
  lemma ClockShape(h: nat, m: nat, sec: nat, withSeconds: bool)
    requires m < 60 && sec < 60
    ensures ClockText(ClockSeconds(h, m, sec), withSeconds) ==
              ShowNat(Hour12(h)) + ":" + Pad2(m) + (if withSeconds then ":" + Pad2(sec) else "") +
              (if h < 12 then "am" else "pm")
  {
    PartsUnique(h, m, sec);
  }

  /** Reading 12-hour clock text back into an offset: the inverse of `ClockText`. */
  function ReadClock(text: string): Option<int> {
    if |text| < 2 || (text[|text| - 2..] != "am" && text[|text| - 2..] != "pm") then None
    else ReadFields(Split(text[..|text| - 2], ':'), text[|text| - 2..] == "pm")
  }

  /** Two or three digit fields; in the afternoon every hour but 12 gains twelve. */
  function ReadFields(fields: seq<string>, afternoon: bool): Option<int> {
    if |fields| < 2 || |fields| > 3 || exists i :: 0 <= i < |fields| && !IsDigits(fields[i]) then None
    else
      var h := ParseNat(fields[0]);
      var hours := if afternoon && h != 12 then h + 12 else h;
      var seconds := if |fields| == 3 then ParseNat(fields[2]) else 0;
      Some(ClockSeconds(hours, ParseNat(fields[1]), seconds))
  }

  /** Both bounds read back from `toString` text. */
  function ReadWindow(text: string): Option<TW> {
    var i := IndexOf(text, JOIN);
    if i < 0 then None
    else
      var start := ReadClock(text[..i]);
      var end := ReadClock(text[i + |JOIN|..]);
      if start.Some? && end.Some? then Some(TW(start.value, end.value)) else None
  }

  /**
   Within a day the clock text loses nothing but, without the seconds format,
   the seconds: reading it back gives the offset (rounded down to the minute).
   */
  lemma ClockRoundTrip(s: int, withSeconds: bool)
    requires 0 <= s < 24 * ONE_HOUR
    ensures '-' !in ClockText(s, withSeconds)
    ensures ReadClock(ClockText(s, withSeconds)) == Some(if withSeconds then s else s - s % 60)
  {
    var p := PartsOf(s);
    assert p.hours < 24;
    assert s == ClockSeconds(p.hours, p.minutes, p.seconds);
    ClockShape(p.hours, p.minutes, p.seconds, withSeconds);
    ReadShape(p.hours, p.minutes, p.seconds, withSeconds);
    var text := ClockText(s, withSeconds);
    assert text == ShowNat(Hour12(p.hours)) + ":" + Pad2(p.minutes) +
                   (if withSeconds then ":" + Pad2(p.seconds) else "") +
                   (if p.hours < 12 then "am" else "pm");
    assert ReadClock(text) == Some(ClockSeconds(p.hours, p.minutes, if withSeconds then p.seconds else 0));
    ModBy60(s, p.hours * 60 + p.minutes, p.seconds);
    var read := if withSeconds then s else s - s % 60;
    assert read == ClockSeconds(p.hours, p.minutes, if withSeconds then p.seconds else 0);
  }

  /** Reading back the clock text of hour `h` (under 24), minute `m` and second `sec`. */
  lemma ReadShape(h: nat, m: nat, sec: nat, withSeconds: bool)
    requires h < 24 && m < 60 && sec < 60
    ensures var text := ShowNat(Hour12(h)) + ":" + Pad2(m) + (if withSeconds then ":" + Pad2(sec) else "") +
                        (if h < 12 then "am" else "pm");
            '-' !in text &&
            ReadClock(text) == Some(ClockSeconds(h, m, if withSeconds then sec else 0))
  {
    if withSeconds {
      ReadShapeSeconds(h, m, sec);
    } else {
      ReadShapeMinutes(h, m);
      assert ShowNat(Hour12(h)) + ":" + Pad2(m) + "" == ShowNat(Hour12(h)) + ":" + Pad2(m);
    }
  }

  lemma ReadShapeSeconds(h: nat, m: nat, sec: nat)
    requires h < 24 && m < 60 && sec < 60
    ensures var text := ShowNat(Hour12(h)) + ":" + Pad2(m) + (":" + Pad2(sec)) + (if h < 12 then "am" else "pm");
            '-' !in text && ReadClock(text) == Some(ClockSeconds(h, m, sec))
  {
    var hh, mm, ss := ShowNat(Hour12(h)), Pad2(m), Pad2(sec);
    assert IsDigits(hh) && ParseNat(hh) == Hour12(h) by { ParseShow(Hour12(h)); }
    assert IsDigits(mm) && ParseNat(mm) == m by { Pad2Parse(m); }
    assert IsDigits(ss) && ParseNat(ss) == sec by { Pad2Parse(sec); }
    HourBack(h);
    ReadDigits(hh, mm, ss, if h < 12 then "am" else "pm");
  }

  lemma ReadShapeMinutes(h: nat, m: nat)
    requires h < 24 && m < 60
    ensures var text := ShowNat(Hour12(h)) + ":" + Pad2(m) + (if h < 12 then "am" else "pm");
            '-' !in text && ReadClock(text) == Some(ClockSeconds(h, m, 0))
  {
    var hh, mm := ShowNat(Hour12(h)), Pad2(m);
    assert IsDigits(hh) && ParseNat(hh) == Hour12(h) by { ParseShow(Hour12(h)); }
    assert IsDigits(mm) && ParseNat(mm) == m by { Pad2Parse(m); }
    HourBack(h);
    ReadMinuteDigits(hh, mm, if h < 12 then "am" else "pm");
  }

  /** The printed hour and its suffix determine the hour of the day. */
  lemma HourBack(h: nat)
    requires h < 24
    ensures var pm := h >= 12;
            (if pm && Hour12(h) != 12 then Hour12(h) + 12 else Hour12(h)) == h
  {
  }

  /** `ReadClock` drops the suffix and reads the `:`-fields of what is left. */
  lemma ReadSuffixed(body: string, suffix: string)
    requires suffix == "am" || suffix == "pm"
    ensures ReadClock(body + suffix) == ReadFields(Split(body, ':'), suffix == "pm")
  {
    var text := body + suffix;
    assert text[..|text| - 2] == body;
    assert text[|text| - 2..] == suffix;
  }

  /**
   Reading `hh:mm:ssam` or `hh:mm:sspm` for digit fields: the afternoon adds
   twelve hours to every hour but 12.
   */
  lemma ReadDigits(hh: string, mm: string, ss: string, suffix: string)
    requires IsDigits(hh) && IsDigits(mm) && IsDigits(ss)
    requires suffix == "am" || suffix == "pm"
    ensures var h := ParseNat(hh);
            var text := hh + ":" + mm + (":" + ss) + suffix;
            '-' !in text &&
            ReadClock(text) ==
              Some(ClockSeconds(if suffix == "pm" && h != 12 then h + 12 else h, ParseNat(mm), ParseNat(ss)))
  {
    var fields := [hh, mm, ss];
    assert |fields| == 3 && fields[0] == hh && fields[1] == mm && fields[2] == ss;
    ReadJoined(fields, hh + ":" + mm + (":" + ss), suffix);
  }

  /** The same without the seconds field, which then reads as 0. */
  lemma ReadMinuteDigits(hh: string, mm: string, suffix: string)
    requires IsDigits(hh) && IsDigits(mm)
    requires suffix == "am" || suffix == "pm"
    ensures var h := ParseNat(hh);
            var text := hh + ":" + mm + suffix;
            '-' !in text &&
            ReadClock(text) == Some(ClockSeconds(if suffix == "pm" && h != 12 then h + 12 else h, ParseNat(mm), 0))
  {
    var fields := [hh, mm];
    assert |fields| == 2 && fields[0] == hh && fields[1] == mm;
    ReadJoined(fields, hh + ":" + mm, suffix);
  }

  /** Two or three digit fields joined by `:` and suffixed read as the fields' offset. */
  lemma ReadJoined(fields: seq<string>, body: string, suffix: string)
    requires 2 <= |fields| <= 3 && IsDigits(fields[0]) && IsDigits(fields[1])
    requires |fields| == 3 ==> IsDigits(fields[2])
    requires |fields| == 2 ==> body == fields[0] + ":" + fields[1]
    requires |fields| == 3 ==> body == fields[0] + ":" + fields[1] + (":" + fields[2])
    requires suffix == "am" || suffix == "pm"
    ensures '-' !in body + suffix
    ensures var h := ParseNat(fields[0]);
            ReadClock(body + suffix) ==
              Some(ClockSeconds(if suffix == "pm" && h != 12 then h + 12 else h, ParseNat(fields[1]),
                                if |fields| == 3 then ParseNat(fields[2]) else 0))
  {
    DigitsLack(fields[0]);
    DigitsLack(fields[1]);
    if |fields| == 3 {
      DigitsLack(fields[2]);
      assert body == fields[0] + [':'] + fields[1] + [':'] + fields[2];
      SplitThree(fields[0], fields[1], fields[2], ':');
      assert Split(body, ':') == fields;
    } else {
      SplitTwo(fields[0], fields[1], ':');
      assert Split(body, ':') == fields;
    }
    ReadSuffixed(body, suffix);
    ReadDigitFields(fields, suffix == "pm");
  }

  /** Two or three digit fields always read as an offset. */
  lemma ReadDigitFields(fields: seq<string>, afternoon: bool)
    requires 2 <= |fields| <= 3 && IsDigits(fields[0]) && IsDigits(fields[1])
    requires |fields| == 3 ==> IsDigits(fields[2])
    ensures var h := ParseNat(fields[0]);
            ReadFields(fields, afternoon) ==
              Some(ClockSeconds(if afternoon && h != 12 then h + 12 else h, ParseNat(fields[1]),
                                if |fields| == 3 then ParseNat(fields[2]) else 0))
  {
    assert forall i :: 0 <= i < |fields| ==> IsDigits(fields[i]);
  }

  lemma ModBy60(s: int, k: int, r: int)
    requires s == 60 * k + r && 0 <= r < 60
    ensures s % 60 == r
  {
  }

  /**
   Within a day `toString('HH:MM:SS')` is injective: the window can be read
   back from its text.
   */
  lemma ToStringRoundTrip(w: TW)
    requires 0 <= w.start < 24 * ONE_HOUR && 0 <= w.end < 24 * ONE_HOUR
    ensures ReadWindow(ToString(w, SECONDS_FORMAT)) == Some(w)
  {
    var left := ClockText(w.start, true);
    var right := ClockText(w.end, true);
    ClockRoundTrip(w.start, true);
    ClockRoundTrip(w.end, true);
    SeparatorAfter(left, JOIN, right);
    var text := left + JOIN + right;
    assert text[..|left|] == left;
    assert text[|left| + |JOIN|..] == right;
  }

  /** The renderings pinned by the original's tests. */
  lemma TestedToString()
    ensures ToString(TW(ClockSeconds(8, 15, 0), ClockSeconds(10, 30, 0)), "") == "8:15am - 10:30am"
    ensures ToString(TW(ClockSeconds(9, 0, 0), ClockSeconds(11, 0, 0)), "") == "9:00am - 11:00am"
    ensures ToString(TW(ClockSeconds(10, 0, 0), ClockSeconds(12, 0, 0)), "") == "10:00am - 12:00pm"
    ensures ToString(TW(ClockSeconds(12, 0, 0), ClockSeconds(13, 0, 0)), "") == "12:00pm - 1:00pm"
    ensures ToString(TW(ClockSeconds(8, 15, 0), ClockSeconds(10, 30, 0)), SECONDS_FORMAT) ==
              "8:15:00am - 10:30:00am"
    ensures ToString(TW(ClockSeconds(9, 0, 0), ClockSeconds(11, 0, 0)), SECONDS_FORMAT) ==
              "9:00:00am - 11:00:00am"
    ensures ToString(TW(ClockSeconds(10, 0, 0), ClockSeconds(12, 0, 0)), SECONDS_FORMAT) ==
              "10:00:00am - 12:00:00pm"
    ensures ToString(TW(ClockSeconds(12, 0, 0), ClockSeconds(13, 0, 0)), SECONDS_FORMAT) ==
              "12:00:00pm - 1:00:00pm"
  {
    TestedMorningWindow();
    TestedNineWindow();
    TestedNoonWindow();
    TestedAfternoonWindow();
    TestedMorningWindowSeconds();
    TestedNineWindowSeconds();
    TestedNoonWindowSeconds();
    TestedAfternoonWindowSeconds();
  }

  lemma TestedNineWindow()
    ensures ToString(TW(ClockSeconds(9, 0, 0), ClockSeconds(11, 0, 0)), "") == "9:00am - 11:00am"
  {
    assert "9:00am" + JOIN + "11:00am" == "9:00am - 11:00am";
    assert PartsText(Parts(9, 0, 0), false) == "9:00am" by {
      assert ShowInt(9) == "9" && Pad2(0) == "00";
    }
    assert PartsText(Parts(11, 0, 0), false) == "11:00am" by {
      assert ShowInt(11) == "11" && Pad2(0) == "00";
    }
    TestedWindow(9, 0, 11, 0, "", "9:00am", "11:00am");
  }

  lemma TestedNineWindowSeconds()
    ensures ToString(TW(ClockSeconds(9, 0, 0), ClockSeconds(11, 0, 0)), SECONDS_FORMAT) == "9:00:00am - 11:00:00am"
  {
    assert "9:00:00am" + JOIN + "11:00:00am" == "9:00:00am - 11:00:00am";
    TestedNineSeconds();
    TestedWindow(9, 0, 11, 0, SECONDS_FORMAT, "9:00:00am", "11:00:00am");
  }

  lemma TestedNineSeconds()
    ensures PartsText(Parts(9, 0, 0), true) == "9:00:00am"
    ensures PartsText(Parts(11, 0, 0), true) == "11:00:00am"
  {
    assert ShowInt(9) == "9" && ShowInt(11) == "11";
    assert Pad2(0) == "00";
  }

  lemma TestedNoonWindowSeconds()
    ensures ToString(TW(ClockSeconds(10, 0, 0), ClockSeconds(12, 0, 0)), SECONDS_FORMAT) == "10:00:00am - 12:00:00pm"
  {
    assert "10:00:00am" + JOIN + "12:00:00pm" == "10:00:00am - 12:00:00pm";
    assert PartsText(Parts(10, 0, 0), true) == "10:00:00am" by {
      assert ShowInt(10) == "10" && Pad2(0) == "00";
    }
    TestedNoonSeconds();
    TestedWindow(10, 0, 12, 0, SECONDS_FORMAT, "10:00:00am", "12:00:00pm");
  }

  lemma TestedMorningWindow()
    ensures ToString(TW(ClockSeconds(8, 15, 0), ClockSeconds(10, 30, 0)), "") == "8:15am - 10:30am"
  {
    assert "8:15am" + JOIN + "10:30am" == "8:15am - 10:30am";
    TestedMorning();
    TestedWindow(8, 15, 10, 30, "", "8:15am", "10:30am");
  }

  lemma TestedNoonWindow()
    ensures ToString(TW(ClockSeconds(10, 0, 0), ClockSeconds(12, 0, 0)), "") == "10:00am - 12:00pm"
  {
    assert "10:00am" + JOIN + "12:00pm" == "10:00am - 12:00pm";
    TestedMorning();
    TestedNoon();
    TestedWindow(10, 0, 12, 0, "", "10:00am", "12:00pm");
  }

  lemma TestedAfternoonWindow()
    ensures ToString(TW(ClockSeconds(12, 0, 0), ClockSeconds(13, 0, 0)), "") == "12:00pm - 1:00pm"
  {
    assert "12:00pm" + JOIN + "1:00pm" == "12:00pm - 1:00pm";
    TestedNoon();
    TestedWindow(12, 0, 13, 0, "", "12:00pm", "1:00pm");
  }

  lemma TestedMorningWindowSeconds()
    ensures ToString(TW(ClockSeconds(8, 15, 0), ClockSeconds(10, 30, 0)), SECONDS_FORMAT) ==
              "8:15:00am - 10:30:00am"
  {
    assert "8:15:00am" + JOIN + "10:30:00am" == "8:15:00am - 10:30:00am";
    TestedMorningSeconds();
    TestedWindow(8, 15, 10, 30, SECONDS_FORMAT, "8:15:00am", "10:30:00am");
  }

  lemma TestedAfternoonWindowSeconds()
    ensures ToString(TW(ClockSeconds(12, 0, 0), ClockSeconds(13, 0, 0)), SECONDS_FORMAT) ==
              "12:00:00pm - 1:00:00pm"
  {
    assert "12:00:00pm" + JOIN + "1:00:00pm" == "12:00:00pm - 1:00:00pm";
    TestedNoonSeconds();
    TestedWindow(12, 0, 13, 0, SECONDS_FORMAT, "12:00:00pm", "1:00:00pm");
  }

  /** The constructor's own example renders as `8:00am - 3:00pm`. */
  lemma TestedEightToThree()
    ensures ToString(TW(ClockSeconds(8, 0, 0), ClockSeconds(15, 0, 0)), "") == "8:00am - 3:00pm"
  {
    assert "8:00am" + JOIN + "3:00pm" == "8:00am - 3:00pm";
    assert PartsText(Parts(8, 0, 0), false) == "8:00am" by {
      assert ShowInt(8) == "8" && Pad2(0) == "00";
    }
    assert PartsText(Parts(15, 0, 0), false) == "3:00pm" by {
      assert ShowInt(3) == "3" && Pad2(0) == "00";
    }
    TestedWindow(8, 0, 15, 0, "", "8:00am", "3:00pm");
  }

  /** A window of whole minutes renders as the texts of its two bounds' parts. */
  lemma TestedWindow(h1: nat, m1: nat, h2: nat, m2: nat, format: string, left: string, right: string)
    requires m1 < 60 && m2 < 60
    requires PartsText(Parts(h1, m1, 0), format == SECONDS_FORMAT) == left
    requires PartsText(Parts(h2, m2, 0), format == SECONDS_FORMAT) == right
    ensures ToString(TW(ClockSeconds(h1, m1, 0), ClockSeconds(h2, m2, 0)), format) == left + JOIN + right
  {
    TestedClock(h1, m1, 0, format == SECONDS_FORMAT, left);
    TestedClock(h2, m2, 0, format == SECONDS_FORMAT, right);
  }

  lemma TestedMorning()
    ensures PartsText(Parts(8, 15, 0), false) == "8:15am"
    ensures PartsText(Parts(10, 30, 0), false) == "10:30am"
    ensures PartsText(Parts(10, 0, 0), false) == "10:00am"
  {
    assert PartsText(Parts(8, 15, 0), false) == "8:15am" by {
      assert ShowInt(8) == "8" && Pad2(15) == "15";
    }
    assert PartsText(Parts(10, 30, 0), false) == "10:30am" by {
      assert ShowInt(10) == "10" && Pad2(30) == "30";
    }
    assert PartsText(Parts(10, 0, 0), false) == "10:00am" by {
      assert ShowInt(10) == "10" && Pad2(0) == "00";
    }
  }

  lemma TestedMorningSeconds()
    ensures PartsText(Parts(8, 15, 0), true) == "8:15:00am"
    ensures PartsText(Parts(10, 30, 0), true) == "10:30:00am"
  {
    assert PartsText(Parts(8, 15, 0), true) == "8:15:00am" by {
      assert ShowInt(8) == "8" && Pad2(0) == "00" && Pad2(15) == "15";
      assert "8" + ":" + "15" + (":" + "00") + "am" == "8:15:00am";
    }
    assert PartsText(Parts(10, 30, 0), true) == "10:30:00am" by {
      assert ShowInt(10) == "10" && Pad2(0) == "00" && Pad2(30) == "30";
      assert "10" + ":" + "30" + (":" + "00") + "am" == "10:30:00am";
    }
  }

  lemma TestedNoon()
    ensures PartsText(Parts(12, 0, 0), false) == "12:00pm"
    ensures PartsText(Parts(13, 0, 0), false) == "1:00pm"
  {
    assert ShowInt(1) == "1" && ShowInt(12) == "12";
    assert Pad2(0) == "00";
  }

  lemma TestedNoonSeconds()
    ensures PartsText(Parts(12, 0, 0), true) == "12:00:00pm"
    ensures PartsText(Parts(13, 0, 0), true) == "1:00:00pm"
  {
    assert ShowInt(1) == "1" && ShowInt(12) == "12";
    assert Pad2(0) == "00";
  }

  lemma TestedClock(h: nat, m: nat, sec: nat, withSeconds: bool, text: string)
    requires m < 60 && sec < 60
    requires PartsText(Parts(h, m, sec), withSeconds) == text
    ensures ClockText(ClockSeconds(h, m, sec), withSeconds) == text
  {
    PartsUnique(h, m, sec);
  }
}
