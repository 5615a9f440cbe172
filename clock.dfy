/**
 * Times of day as the Log sheet stores them: `_formatTimeToHHMM` writes
 * "H:MM AM/PM", and the string branches of `_parseTimeString` read either
 * that form or a 24-hour "HH:MM" back into hours and minutes.
 */
module Clock {
  import opened Basics
  import opened Text

  /** `hours % 12`, with 0 shown as 12. */
  function Hour12(h: nat): (r: nat)
    requires h < 24
    ensures 1 <= r <= 12 && r % 12 == h % 12
  {
    if h % 12 == 0 then 12 else h % 12
  }

  function Meridiem(h: nat): string
  {
    if h >= 12 then "PM" else "AM"
  }

  /** `_formatTimeToHHMM`: the clock reading `h:m` written as "H:MM AM/PM". */
  function FormatTime(h: nat, m: nat): (s: string)
    requires h < 24 && m < 60
    ensures 7 <= |s| <= 8
    ensures s[|s| - 2..] == Meridiem(h) && s[|s| - 3] == ' ' && s[|s| - 6] == ':'
    ensures AllDigits(s[..|s| - 6]) && AllDigits(s[|s| - 5..|s| - 3])
    ensures DigitsValue(s[|s| - 5..|s| - 3]) == m
    ensures 1 <= DigitsValue(s[..|s| - 6]) <= 12 && DigitsValue(s[..|s| - 6]) % 12 == h % 12
  {
    var hh := NatToString(Hour12(h));
    var mm := PadTwo(m);
    ClockTextShape(hh, mm, Meridiem(h));
    DigitsValueOfNatToString(Hour12(h));
    PadTwoValue(m);
    hh + ":" + mm + " " + Meridiem(h)
  }

  /** Where the parts of "H:MM AM" sit, counted from the end of the text. */
  lemma ClockTextShape(hh: string, mm: string, mer: string)
    requires 1 <= |hh| <= 2 && |mm| == 2 && |mer| == 2
    ensures var s := hh + ":" + mm + " " + mer;
      && 7 <= |s| <= 8
      && s[|s| - 2..] == mer && s[|s| - 3] == ' ' && s[|s| - 6] == ':'
      && s[..|s| - 6] == hh && s[|s| - 5..|s| - 3] == mm
  {
    var s := hh + ":" + mm + " " + mer;
    assert s[..|s| - 6] == hh;
    assert s[|s| - 5..|s| - 3] == mm;
    assert s[|s| - 2..] == mer;
  }

  datatype ParsedTime = ClockTime(hours: nat, minutes: nat) | IsoTimestamp(text: string)

  datatype TimeError = EmptyTime | NoFormatMatch | InvalidComponents

  /** The prefix `^\d{4}-\d{2}-\d{2}T\d{2}:\d{2}:\d{2}` of an ISO timestamp. */
  predicate IsIsoPrefix(v: string)
  {
    |v| >= 19 && AllDigits(v[..4]) && v[4] == '-' && AllDigits(v[5..7]) && v[7] == '-'
    && AllDigits(v[8..10]) && v[10] == 'T' && AllDigits(v[11..13]) && v[13] == ':'
    && AllDigits(v[14..16]) && v[16] == ':' && AllDigits(v[17..19])
  }

  /** The groups of `^(\d{1,2}):(\d{2})` and whatever follows them. */
  datatype ClockParts = ClockParts(hourDigits: string, minuteDigits: string, rest: string)

  function SplitClock(t: string): (r: Option<ClockParts>)
    ensures r.Some? ==> AllDigits(r.value.hourDigits) && AllDigits(r.value.minuteDigits)
    ensures r.Some? ==> 1 <= |r.value.hourDigits| <= 2 && |r.value.minuteDigits| == 2
    ensures r.Some? ==> t == r.value.hourDigits + ":" + r.value.minuteDigits + r.value.rest
  {
    if |t| >= 4 && IsDigit(t[0]) && t[1] == ':' && IsDigit(t[2]) && IsDigit(t[3]) then
      Some(ClockParts(t[..1], t[2..4], t[4..]))
    else if |t| >= 5 && IsDigit(t[0]) && IsDigit(t[1]) && t[2] == ':' && IsDigit(t[3]) && IsDigit(t[4]) then
      Some(ClockParts(t[..2], t[3..5], t[5..]))
    else None
  }

  /** `\s*(AM|PM)$`, case-insensitive; `Some(true)` for PM. */
  function MeridiemSuffix(rest: string): Option<bool>
  {
    if |rest| >= 2 && Blank(rest[..|rest| - 2]) && (rest[|rest| - 1] == 'M' || rest[|rest| - 1] == 'm') then
      if rest[|rest| - 2] == 'A' || rest[|rest| - 2] == 'a' then Some(false)
      else if rest[|rest| - 2] == 'P' || rest[|rest| - 2] == 'p' then Some(true)
      else None
    else None
  }

  /** The range check on a 12-hour reading, then the conversion to a 24-hour clock. */
  function TwelveToTwentyFour(h: nat, m: nat, pm: bool): (r: Result<ParsedTime, TimeError>)
    ensures r.Ok? <==> 1 <= h <= 12 && m <= 59
    ensures r.Ok? ==> r.value.ClockTime? && r.value.minutes == m
    ensures r.Ok? ==> r.value.hours < 24 && (r.value.hours >= 12 <==> pm) && r.value.hours % 12 == h % 12
  {
    if h < 1 || h > 12 || m > 59 then Err(InvalidComponents)
    else if !pm && h == 12 then Ok(ClockTime(0, m))
    else if pm && h != 12 then Ok(ClockTime(h + 12, m))
    else Ok(ClockTime(h, m))
  }

  /** The two regular expressions of `_parseTimeString`, tried in order on the trimmed text. */
  function ParseClockText(t: string): (r: Result<ParsedTime, TimeError>)
    ensures r.Ok? ==> r.value.ClockTime? && r.value.hours < 24 && r.value.minutes < 60
  {
    match SplitClock(t)
    case None => Err(NoFormatMatch)
    case Some(p) =>
      var h := DigitsValue(p.hourDigits);
      var m := DigitsValue(p.minuteDigits);
      match MeridiemSuffix(p.rest)
      case Some(pm) => TwelveToTwentyFour(h, m, pm)
      case None =>
        if p.rest != [] then Err(NoFormatMatch)
        else TwelveToTwentyFour(if h > 12 then h - 12 else if h == 0 then 12 else h, m, h >= 12)
  }

  /** The string branches of `_parseTimeString`; a parsed clock reading is always a valid time of day. */
  function ParseTime(v: string): (r: Result<ParsedTime, TimeError>)
    ensures r.Ok? && r.value.ClockTime? ==> r.value.hours < 24 && r.value.minutes < 60
    ensures r.Ok? && r.value.IsoTimestamp? ==> IsIsoPrefix(v)
    ensures v == "" ==> r == Err(EmptyTime)
  {
    if v == "" then Err(EmptyTime)
    else if IsIsoPrefix(v) then Ok(IsoTimestamp(v))
    else ParseClockText(Trim(v))
  }

  /** A short string without surrounding white space goes straight to the regular expressions. */
  lemma ParseShortText(s: string)
    requires 0 < |s| < 19 && !IsSpace(s[0]) && !IsSpace(s[|s| - 1])
    ensures ParseTime(s) == ParseClockText(s)
  {
    TrimUnpadded(s);
  }

  lemma SplitClockOf(hh: string, mm: string, rest: string)
    requires AllDigits(hh) && 1 <= |hh| <= 2 && AllDigits(mm) && |mm| == 2
    ensures SplitClock(hh + ":" + mm + rest) == Some(ClockParts(hh, mm, rest))
  {
    var t := hh + ":" + mm + rest;
    if |hh| == 1 {
      assert t[..1] == hh && t[2..4] == mm && t[4..] == rest;
    } else {
      assert t[..2] == hh && t[3..5] == mm && t[5..] == rest;
    }
  }

  /** Reading back what `_formatTimeToHHMM` wrote gives the same hour and minute. */
  lemma FormatThenParse(h: nat, m: nat)
    requires h < 24 && m < 60
    ensures ParseTime(FormatTime(h, m)) == Ok(ClockTime(h, m))
  {
    var hh := NatToString(Hour12(h));
    assert FormatTime(h, m) == hh + ":" + PadTwo(m) + " " + (if h >= 12 then "PM" else "AM");
    DigitsValueOfNatToString(Hour12(h));
    PadTwoValue(m);
    ParseTwelveHour(hh, PadTwo(m), h >= 12);
    var r := ParseTime(FormatTime(h, m));
    SameHalfSameHour(r.value.hours, h);
  }

  lemma SameHalfSameHour(a: nat, b: nat)
    requires a < 24 && b < 24 && a % 12 == b % 12 && (a >= 12 <==> b >= 12)
    ensures a == b
  {
  }

  /**
   * A string "H:MM AM" or "H:MM PM" is accepted exactly when its hour is 1..12
   * and its minute 0..59; anything else is rejected.
   */
  lemma {:induction false} ParseTwelveHour(hh: string, mm: string, pm: bool)
    requires AllDigits(hh) && 1 <= |hh| <= 2 && AllDigits(mm) && |mm| == 2
    ensures var r := ParseTime(hh + ":" + mm + " " + (if pm then "PM" else "AM"));
      && (r.Ok? <==> 1 <= DigitsValue(hh) <= 12 && DigitsValue(mm) <= 59)
      && (r.Ok? ==> r.value.ClockTime? && r.value.minutes == DigitsValue(mm)
                    && (r.value.hours >= 12 <==> pm) && r.value.hours % 12 == DigitsValue(hh) % 12)
  {
    var rest := " " + (if pm then "PM" else "AM");
    var s := hh + ":" + mm + " " + (if pm then "PM" else "AM");
    assert s == hh + ":" + mm + rest;
    assert s[0] == hh[0] && IsDigit(s[0]) && s[|s| - 1] == 'M';
    ParseShortText(s);
    TwelveHourText(hh, mm, pm);
  }

  /** The regular expressions split "H:MM AM" into its hour, its minutes and its half of the day. */
  lemma TwelveHourText(hh: string, mm: string, pm: bool)
    requires AllDigits(hh) && 1 <= |hh| <= 2 && AllDigits(mm) && |mm| == 2
    ensures ParseClockText(hh + ":" + mm + " " + (if pm then "PM" else "AM"))
      == TwelveToTwentyFour(DigitsValue(hh), DigitsValue(mm), pm)
  {
    var rest := " " + (if pm then "PM" else "AM");
    assert hh + ":" + mm + " " + (if pm then "PM" else "AM") == hh + ":" + mm + rest;
    SplitClockOf(hh, mm, rest);
    assert rest[..|rest| - 2] == " ";
    assert MeridiemSuffix(rest) == Some(pm);
  }

  /**
   * A 24-hour "HH:MM" is accepted for hours 0..24 and minutes 0..59; the hour
   * 24 is read as 12 (noon), every other hour as itself.
   */
  lemma {:induction false} ParseTwentyFourHour(hh: string, mm: string)
    requires AllDigits(hh) && 1 <= |hh| <= 2 && AllDigits(mm) && |mm| == 2
    ensures var h, m := DigitsValue(hh), DigitsValue(mm);
      ParseTime(hh + ":" + mm)
        == if h <= 24 && m <= 59 then Ok(ClockTime(if h == 24 then 12 else h, m)) else Err(InvalidComponents)
  {
    var s := hh + ":" + mm;
    assert s == hh + ":" + mm + [];
    assert s[0] == hh[0] && s[|s| - 1] == mm[1];
    ParseShortText(s);
    SplitClockOf(hh, mm, []);
  }
}
