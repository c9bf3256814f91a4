/** Which locations are open during a period of the day (`isLocationOpenInPeriod`).
    Times are compared as integers built by gluing the hour and minute digits
    together: "12:01" is 1201 and "06h" is 6 * 100 = 600, not a count of minutes.
    A value that `parseInt` cannot read is JavaScript's `NaN`, here `None`, and
    every comparison with it is false. */
module Schedules {
  import opened Wrappers
  import opened JsStrings

  /** One weekday group's opening hours, e.g. "06h às 23h" or "Fechada". */
  datatype Schedule = Schedule(weekdays: string, hour: string)

  /** One gym unit as the data source delivers it. `isOpened` is the record's
      `opened` field (a keyword in Dafny); it and `schedules` may be absent; the
      address fields are present on address-only records. */
  datatype Location = Location(
    id: int,
    title: string,
    content: string,
    isOpened: Option<bool>,
    mask: string,
    towel: string,
    fountain: string,
    lockerRoom: string,
    schedules: Option<seq<Schedule>>,
    street: Option<string>,
    region: Option<string>,
    cityName: Option<string>,
    stateName: Option<string>,
    uf: Option<string>)

  /** An entry of the fixed period catalogue. */
  datatype Period = Period(caption: string, value: string, time: string)

  const Separator: string := " às "

  /** The three periods of the day, in the order the page lists them. */
  const Periods: seq<Period> := [
    Period("Manhã", "manha", "06:00 às 12:00"),
    Period("Tarde", "tarde", "12:01 às 18:00"),
    Period("Noite", "noite", "18:01 às 23:00")
  ]

  /** A pair of bounds in the glued-digits encoding; `None` is `NaN`. */
  datatype Window = Window(start: Option<int>, end: Option<int>)

  // ---------------------------------------------------------------------------
  // Comparisons in which NaN makes every answer false

  predicate Less(a: Option<int>, b: Option<int>) { a.Some? && b.Some? && a.value < b.value }
  predicate AtMost(a: Option<int>, b: Option<int>) { a.Some? && b.Some? && a.value <= b.value }

  // ---------------------------------------------------------------------------
  // Parsing

  /** `periods.find((p) => p.value === period) || { time: "" }`, then its time. */
  function PeriodTime(catalogue: seq<Period>, value: string): string
  {
    if catalogue == [] then ""
    else if catalogue[0].value == value then catalogue[0].time
    else PeriodTime(catalogue[1..], value)
  }

  /** The lookup answers with the time of the first entry carrying the value,
      and with "" exactly when no entry carries it. */
  lemma {:induction false} PeriodTimeSpec(catalogue: seq<Period>, value: string)
    ensures (forall i :: 0 <= i < |catalogue| ==> catalogue[i].value != value) ==>
              PeriodTime(catalogue, value) == ""
    ensures (exists i :: 0 <= i < |catalogue| && catalogue[i].value == value) ==>
              exists i :: 0 <= i < |catalogue| && catalogue[i].value == value &&
                          PeriodTime(catalogue, value) == catalogue[i].time &&
                          forall j :: 0 <= j < i ==> catalogue[j].value != value
  {
    if catalogue != [] && catalogue[0].value != value {
      PeriodTimeSpec(catalogue[1..], value);
      if exists i :: 0 <= i < |catalogue| && catalogue[i].value == value {
        var i :| 0 <= i < |catalogue| && catalogue[i].value == value;
        assert catalogue[1..][i - 1].value == value;
        var i' :| 0 <= i' < |catalogue[1..]| && catalogue[1..][i'].value == value &&
                  PeriodTime(catalogue[1..], value) == catalogue[1..][i'].time &&
                  forall j :: 0 <= j < i' ==> catalogue[1..][j].value != value;
        assert catalogue[i' + 1] == catalogue[1..][i'];
        forall j | 0 <= j < i' + 1 ensures catalogue[j].value != value {
          if 0 < j { assert catalogue[j] == catalogue[1..][j - 1]; }
        }
      }
    }
  }

  /** A period bound: `parseInt(t.replace(":", ""))`. */
  function PeriodBound(t: string): Option<int>
  {
    ParseInt(RemoveFirst(t, ":"))
  }

  /** A schedule bound: `parseInt(t.replace("h", "").replace(":", ""))`, times 100. */
  function ScheduleBound(t: string): Option<int>
  {
    match ParseInt(RemoveFirst(RemoveFirst(t, "h"), ":"))
    case None => None
    case Some(v) => Some(v * 100)
  }

  /** The first two pieces of `text.split(" às ")`, each read by `bound`; a
      missing second piece is `undefined` and reads as `NaN`. */
  function SplitWindow(text: string, bound: string -> Option<int>): Window
  {
    var pieces := Split(text, Separator);
    Window(bound(pieces[0]), if 2 <= |pieces| then bound(pieces[1]) else None)
  }

  /** The window of a period value; an unknown value gives the time "". */
  function PeriodWindow(value: string): Window
  {
    SplitWindow(PeriodTime(Periods, value), PeriodBound)
  }

  /** The window of a schedule's hour text. */
  function ScheduleWindow(hour: string): Window
  {
    SplitWindow(hour, ScheduleBound)
  }

  /** `schedule.hour.toLowerCase() === "fechada"`. */
  predicate IsClosedMarker(hour: string)
  {
    ToLowerAscii(hour) == "fechada"
  }

  // ---------------------------------------------------------------------------
  // Matching

  /** The three-clause overlap test: the schedule starts inside [start, end),
      ends inside (start, end], or covers the whole period. */
  predicate Overlaps(schedule: Window, period: Window)
  {
    (AtMost(period.start, schedule.start) && Less(schedule.start, period.end)) ||
    (Less(period.start, schedule.end) && AtMost(schedule.end, period.end)) ||
    (AtMost(schedule.start, period.start) && AtMost(period.end, schedule.end))
  }

  /** One schedule's verdict inside `some`: a closed marker never matches. */
  predicate ScheduleMatches(s: Schedule, period: Window)
  {
    !IsClosedMarker(s.hour) && Overlaps(ScheduleWindow(s.hour), period)
  }

  /** `schedules.some(...)`, scanning from the first schedule. */
  predicate AnyScheduleMatches(schedules: seq<Schedule>, period: Window)
  {
    schedules != [] && (ScheduleMatches(schedules[0], period) || AnyScheduleMatches(schedules[1..], period))
  }

  /** `isLocationOpenInPeriod(location, period)`; an absent schedule list makes
      `location.schedules?.some(...)` undefined, which is falsy. */
  predicate IsOpenInPeriod(loc: Location, value: string)
  {
    loc.schedules.Some? && AnyScheduleMatches(loc.schedules.value, PeriodWindow(value))
  }

  // ---------------------------------------------------------------------------
  // Parsing lemmas

  /** Text made of two tokens without spaces around the separator splits into
      exactly those two tokens. */
  lemma TwoTokenWindow(a: string, b: string, bound: string -> Option<int>)
    requires ' ' !in a && ' ' !in b
    ensures SplitWindow(a + Separator + b, bound) == Window(bound(a), bound(b))
  {
    SplitOnce(a, Separator, b);
  }

  /** A schedule bound is the parsed value of the token with its first "h" and
      then its first ":" taken out, times 100. */
  lemma ScheduleBoundOf(t: string, d: string, n: int)
    requires RemoveFirst(RemoveFirst(t, "h"), ":") == d && ParseInt(d) == Some(n)
    ensures ScheduleBound(t) == Some(100 * n)
  {
  }

  /** A period bound is the parsed value of the token with its first ":" taken out. */
  lemma PeriodBoundOf(t: string, d: string, n: int)
    requires RemoveFirst(t, ":") == d && ParseInt(d) == Some(n)
    ensures PeriodBound(t) == Some(n)
  {
  }

  /** Two two-digit numerals glued together make a four-digit numeral. */
  lemma GluedDigits(hh: string, mm: string)
    requires |hh| == 2 && |mm| == 2
    requires forall k :: 0 <= k < 2 ==> IsDecimalDigit(hh[k]) && IsDecimalDigit(mm[k])
    ensures |hh + mm| == 4 && forall k :: 0 <= k < 4 ==> IsDecimalDigit((hh + mm)[k])
    ensures (hh + mm)[0] == hh[0] && (hh + mm)[1] == hh[1] && (hh + mm)[2] == mm[0] && (hh + mm)[3] == mm[1]
  {
    var d := hh + mm;
    forall k | 0 <= k < 4 ensures IsDecimalDigit(d[k]) {
      if k < 2 { assert d[k] == hh[k]; } else { assert d[k] == mm[k - 2]; }
    }
  }

  /** A clock time "hh:mm" reads as the four digits hhmm glued together. */
  lemma ClockValue(hh: string, mm: string, v: nat)
    requires |hh| == 2 && |mm| == 2
    requires forall k :: 0 <= k < 2 ==> IsDecimalDigit(hh[k]) && IsDecimalDigit(mm[k])
    requires v == 1000 * DigitValue(hh[0]) + 100 * DigitValue(hh[1]) + 10 * DigitValue(mm[0]) + DigitValue(mm[1])
    ensures PeriodBound(hh + ":" + mm) == Some(v)
  {
    assert RemoveFirst(hh + ":" + mm, ":") == hh + mm by {
      RemoveFirstChar(hh, ':', mm);
      assert hh + ":" + mm == hh + [':'] + mm;
    }
    GluedDigits(hh, mm);
    ParseIntFourDigits(hh + mm, v);
    PeriodBoundOf(hh + ":" + mm, hh + mm, v);
  }

  /** A clock time "hh:mm" has no space in it. */
  lemma ClockHasNoSpace(hh: string, mm: string)
    requires |hh| == 2 && |mm| == 2
    requires forall k :: 0 <= k < 2 ==> IsDecimalDigit(hh[k]) && IsDecimalDigit(mm[k])
    ensures ' ' !in hh + ":" + mm
  {
    var t := hh + ":" + mm;
    forall k | 0 <= k < |t| ensures t[k] != ' ' {
      if k < 2 { assert t[k] == hh[k]; } else if 2 < k { assert t[k] == mm[k - 3]; }
    }
  }

  /** A period time "h1:m1 às h2:m2" reads as the window [h1m1, h2m2]. */
  lemma ClockWindow(time: string, h1: string, m1: string, h2: string, m2: string, v1: nat, v2: nat)
    requires |h1| == 2 && |m1| == 2 && |h2| == 2 && |m2| == 2
    requires forall k :: 0 <= k < 2 ==> IsDecimalDigit(h1[k]) && IsDecimalDigit(m1[k])
    requires forall k :: 0 <= k < 2 ==> IsDecimalDigit(h2[k]) && IsDecimalDigit(m2[k])
    requires time == (h1 + ":" + m1) + Separator + (h2 + ":" + m2)
    requires v1 == 1000 * DigitValue(h1[0]) + 100 * DigitValue(h1[1]) + 10 * DigitValue(m1[0]) + DigitValue(m1[1])
    requires v2 == 1000 * DigitValue(h2[0]) + 100 * DigitValue(h2[1]) + 10 * DigitValue(m2[0]) + DigitValue(m2[1])
    ensures SplitWindow(time, PeriodBound) == Window(Some(v1), Some(v2))
  {
    ClockHasNoSpace(h1, m1);
    ClockHasNoSpace(h2, m2);
    TwoTokenWindow(h1 + ":" + m1, h2 + ":" + m2, PeriodBound);
    ClockValue(h1, m1, v1);
    ClockValue(h2, m2, v2);
  }

  /** The windows of the three periods, in the glued-digits encoding. */
  lemma PeriodWindows()
    ensures PeriodWindow("manha") == Window(Some(600), Some(1200))
    ensures PeriodWindow("tarde") == Window(Some(1201), Some(1800))
    ensures PeriodWindow("noite") == Window(Some(1801), Some(2300))
  {
    MorningWindow();
    AfternoonWindow();
    EveningWindow();
  }

  lemma MorningWindow()
    ensures PeriodWindow("manha") == Window(Some(600), Some(1200))
  {
    PeriodTimeOfManha();
    ClockWindow("06:00 às 12:00", "06", "00", "12", "00", 600, 1200);
    WindowOfPeriodTime("manha", "06:00 às 12:00", Window(Some(600), Some(1200)));
  }

  lemma AfternoonWindow()
    ensures PeriodWindow("tarde") == Window(Some(1201), Some(1800))
  {
    PeriodTimeOfTarde();
    ClockWindow("12:01 às 18:00", "12", "01", "18", "00", 1201, 1800);
    WindowOfPeriodTime("tarde", "12:01 às 18:00", Window(Some(1201), Some(1800)));
  }

  lemma EveningWindow()
    ensures PeriodWindow("noite") == Window(Some(1801), Some(2300))
  {
    PeriodTimeOfNoite();
    ClockWindow("18:01 às 23:00", "18", "01", "23", "00", 1801, 2300);
    WindowOfPeriodTime("noite", "18:01 às 23:00", Window(Some(1801), Some(2300)));
  }

  lemma PeriodTimeOfManha() ensures PeriodTime(Periods, "manha") == "06:00 às 12:00" {}
  lemma PeriodTimeOfTarde() ensures PeriodTime(Periods, "tarde") == "12:01 às 18:00" {}
  lemma PeriodTimeOfNoite() ensures PeriodTime(Periods, "noite") == "18:01 às 23:00" {}

  /** The window of a period value is that of the time the catalogue lists for it. */
  lemma WindowOfPeriodTime(value: string, time: string, w: Window)
    requires PeriodTime(Periods, value) == time && SplitWindow(time, PeriodBound) == w
    ensures PeriodWindow(value) == w
  {
  }

  /** A value outside the catalogue finds no period: its time is "", both
      bounds are NaN. */
  lemma UnknownPeriodWindow(value: string)
    requires value != "manha" && value != "tarde" && value != "noite"
    ensures PeriodWindow(value) == Window(None, None)
  {
    PeriodTimeSpec(Periods, value);
    assert PeriodTime(Periods, value) == "";
    NoLeadCharNoOccurrence("", Separator);
    ParseIntNoDigits("");
  }

  /** A whole hour "NNh" reads as NN * 100. */
  lemma WholeHourBound(d: string)
    requires d != [] && forall k :: 0 <= k < |d| ==> IsDecimalDigit(d[k])
    ensures ScheduleBound(d + "h") == Some(100 * DigitsValue(d, 10))
  {
    assert RemoveFirst(d + "h", "h") == d by {
      RemoveFirstChar(d, 'h', "");
      assert d + "h" == d + ['h'] + "";
      assert d + "" == d;
    }
    assert RemoveFirst(d, ":") == d by {
      RemoveAbsentChar(d, ':');
    }
    ParseIntDigits(d);
    ScheduleBoundOf(d + "h", d, DigitsValue(d, 10));
  }

  /** "AAh às BBh" reads as the window [AA * 100, BB * 100]. */
  lemma WholeHoursWindow(hour: string, a: string, b: string, va: nat, vb: nat)
    requires a != [] && forall k :: 0 <= k < |a| ==> IsDecimalDigit(a[k])
    requires b != [] && forall k :: 0 <= k < |b| ==> IsDecimalDigit(b[k])
    requires hour == (a + "h") + Separator + (b + "h")
    requires va == DigitsValue(a, 10) && vb == DigitsValue(b, 10)
    ensures ScheduleWindow(hour) == Window(Some(100 * va), Some(100 * vb))
  {
    assert ' ' !in a + "h" by {
      forall k | 0 <= k < |a + "h"| ensures (a + "h")[k] != ' ' {
        if k < |a| { assert (a + "h")[k] == a[k]; }
      }
    }
    assert ' ' !in b + "h" by {
      forall k | 0 <= k < |b + "h"| ensures (b + "h")[k] != ' ' {
        if k < |b| { assert (b + "h")[k] == b[k]; }
      }
    }
    TwoTokenWindow(a + "h", b + "h", ScheduleBound);
    WholeHourBound(a);
    WholeHourBound(b);
  }

  /** The common opening hours "06h às 23h" read as [600, 2300]. */
  lemma DaylongWindow()
    ensures ScheduleWindow("06h às 23h") == Window(Some(600), Some(2300))
  {
    DigitsValueTwo("06");
    DigitsValueTwo("23");
    WholeHoursWindow("06h às 23h", "06", "23", 6, 23);
  }

  /** Minutes written after the "h" are glued to the hour digits and the
      whole number is then scaled by 100: hh + "h" + mm reads as hhmm * 100. */
  lemma HourAndMinutesBound(t: string, hh: string, mm: string, v: nat)
    requires |hh| == 2 && |mm| == 2
    requires forall k :: 0 <= k < 2 ==> IsDecimalDigit(hh[k]) && IsDecimalDigit(mm[k])
    requires t == hh + "h" + mm
    requires v == 1000 * DigitValue(hh[0]) + 100 * DigitValue(hh[1]) + 10 * DigitValue(mm[0]) + DigitValue(mm[1])
    ensures ScheduleBound(t) == Some(100 * v)
  {
    var d := hh + mm;
    assert RemoveFirst(t, "h") == d by {
      RemoveFirstChar(hh, 'h', mm);
      assert t == hh + ['h'] + mm;
    }
    GluedDigits(hh, mm);
    assert RemoveFirst(d, ":") == d by {
      RemoveAbsentChar(d, ':');
    }
    ParseIntFourDigits(d, v);
    ScheduleBoundOf(t, d, v);
  }

  /** "06h30" reads as 63000, far above every period bound. */
  lemma MinutesAreScaledWithTheHour()
    ensures ScheduleBound("06h30") == Some(63000)
  {
    HourAndMinutesBound("06h30", "06", "30", 630);
  }

  // ---------------------------------------------------------------------------
  // Matching lemmas

  /** For two well-formed windows (each starting before it ends) the three
      clauses together say exactly that the half-open ranges intersect: the
      schedule starts before the period ends and ends after it starts. */
  lemma OverlapsAsIntersection(schedule: Window, period: Window)
    requires schedule.start.Some? && schedule.end.Some? && period.start.Some? && period.end.Some?
    requires schedule.start.value < schedule.end.value && period.start.value < period.end.value
    ensures Overlaps(schedule, period) <==>
      schedule.start.value < period.end.value && period.start.value < schedule.end.value
  {
  }

  /** A schedule whose start is NaN can still match through its end alone. */
  lemma UnparsedStartOverlaps(schedule: Window, period: Window)
    requires schedule.start.None?
    ensures Overlaps(schedule, period) <==> Less(period.start, schedule.end) && AtMost(schedule.end, period.end)
  {
  }

  /** A schedule whose end is NaN can still match through its start alone. */
  lemma UnparsedEndOverlaps(schedule: Window, period: Window)
    requires schedule.end.None?
    ensures Overlaps(schedule, period) <==> AtMost(period.start, schedule.start) && Less(schedule.start, period.end)
  {
  }

  /** A schedule none of whose bounds parses never matches, and neither does
      any schedule against a period with a NaN bound. */
  lemma UnparsedNeverOverlaps(schedule: Window, period: Window)
    requires (schedule.start.None? && schedule.end.None?) || period.start.None? || period.end.None?
    ensures !Overlaps(schedule, period)
  {
  }

  /** `some` holds exactly when one of the schedules matches. */
  lemma {:induction false} AnyScheduleMatchesSpec(schedules: seq<Schedule>, period: Window)
    ensures AnyScheduleMatches(schedules, period) <==>
      exists i :: 0 <= i < |schedules| && ScheduleMatches(schedules[i], period)
  {
    if schedules != [] {
      AnyScheduleMatchesSpec(schedules[1..], period);
      if AnyScheduleMatches(schedules[1..], period) {
        var j :| 0 <= j < |schedules[1..]| && ScheduleMatches(schedules[1..][j], period);
        assert ScheduleMatches(schedules[j + 1], period);
      }
      if exists i :: 0 <= i < |schedules| && ScheduleMatches(schedules[i], period) {
        var i :| 0 <= i < |schedules| && ScheduleMatches(schedules[i], period);
        if i > 0 { assert schedules[1..][i - 1] == schedules[i]; }
      }
    }
  }

  /** A location is open in a period exactly when it has a schedule list and
      some schedule in it matches; absent or empty lists never do. */
  lemma IsOpenInPeriodSpec(loc: Location, value: string)
    ensures IsOpenInPeriod(loc, value) <==>
      loc.schedules.Some? &&
      exists i :: 0 <= i < |loc.schedules.value| && ScheduleMatches(loc.schedules.value[i], PeriodWindow(value))
    ensures loc.schedules.None? || loc.schedules == Some([]) ==> !IsOpenInPeriod(loc, value)
  {
    if loc.schedules.Some? {
      AnyScheduleMatchesSpec(loc.schedules.value, PeriodWindow(value));
    }
  }

  /** Against a period with a NaN bound no schedule list matches. */
  lemma {:induction false} NoMatchWhenPeriodUnparsed(schedules: seq<Schedule>, period: Window)
    requires period.start.None? || period.end.None?
    ensures !AnyScheduleMatches(schedules, period)
  {
    if schedules != [] {
      UnparsedNeverOverlaps(ScheduleWindow(schedules[0].hour), period);
      NoMatchWhenPeriodUnparsed(schedules[1..], period);
    }
  }

  /** A period value outside the catalogue (the empty string included)
      selects no location at all. */
  lemma UnknownPeriodNeverOpen(loc: Location, value: string)
    requires value != "manha" && value != "tarde" && value != "noite"
    ensures !IsOpenInPeriod(loc, value)
  {
    UnknownPeriodWindow(value);
    if loc.schedules.Some? {
      NoMatchWhenPeriodUnparsed(loc.schedules.value, PeriodWindow(value));
    }
  }

  /** The closed marker is recognised whatever its letter case. */
  lemma ClosedMarkers()
    ensures IsClosedMarker("fechada") && IsClosedMarker("Fechada") && IsClosedMarker("FECHADA")
    ensures !IsClosedMarker("06h às 23h")
  {
  }

  /** An hour text is the closed marker exactly when it spells "fechada" with
      each letter in either case. */
  lemma ClosedMarkerSpec(hour: string)
    ensures IsClosedMarker(hour) <==>
      |hour| == 7 && forall k :: 0 <= k < 7 ==> hour[k] == "fechada"[k] || hour[k] == "FECHADA"[k]
  {
    var lower := "fechada";
    var upper := "FECHADA";
    assert forall k :: 0 <= k < 7 ==> 'a' <= lower[k] <= 'z' && upper[k] == lower[k] - 'a' + 'A';
    ToLowerAsciiEqual(hour, lower);
  }

  /** A location whose every schedule is a closed marker is open in no period. */
  lemma {:induction false} AllClosedNeverMatch(schedules: seq<Schedule>, period: Window)
    requires forall i :: 0 <= i < |schedules| ==> IsClosedMarker(schedules[i].hour)
    ensures !AnyScheduleMatches(schedules, period)
  {
    if schedules != [] {
      assert IsClosedMarker(schedules[0].hour);
      forall i | 0 <= i < |schedules[1..]| ensures IsClosedMarker(schedules[1..][i].hour) {
        assert schedules[1..][i] == schedules[i + 1];
      }
      AllClosedNeverMatch(schedules[1..], period);
    }
  }

  /** The hours "06h às 23h" overlap every period of the catalogue. */
  lemma DaylongMatchesAllPeriods(value: string)
    requires value == "manha" || value == "tarde" || value == "noite"
    ensures ScheduleMatches(Schedule("Seg. à Sex.", "06h às 23h"), PeriodWindow(value))
  {
    DaylongWindow();
    PeriodWindows();
    ClosedMarkers();
  }

  /** A location with a "06h às 23h" schedule is open in every period. */
  lemma DaylongLocationOpen(loc: Location, i: nat, value: string)
    requires loc.schedules.Some? && i < |loc.schedules.value|
    requires loc.schedules.value[i].hour == "06h às 23h"
    requires value == "manha" || value == "tarde" || value == "noite"
    ensures IsOpenInPeriod(loc, value)
  {
    DaylongMatchesAllPeriods(value);
    assert ScheduleMatches(loc.schedules.value[i], PeriodWindow(value));
    IsOpenInPeriodSpec(loc, value);
  }
}
