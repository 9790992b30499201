/**
 * The deterministic rules inside the eClinicalWorks navigation steps
 * (`ecw_navigation.py`): reading the MM-DD-YYYY service date, the month name
 * and the month options offered to the date picker's dropdown, which day
 * cell is accepted, the FROM-then-TO order of the service-date setting, the
 * menu path to the Claims screen, and when the initial navigation reports
 * success.
 *
 * The page is an input: which selectors are visible, which dropdown options
 * can be selected, and the day cells each day selector matches.
 */
module EcwNavigation {
  import opened Wrappers
  import opened Strings
  import opened UiChoice

  // ---------------------------------------------------------------------------
  // Python's int() and list indexing

  /** `int(s)` on ASCII text: surrounding whitespace, an optional sign, then decimal digits; `None` where it raises. */
  function PyInt(s: string): (r: Option<int>)
    ensures IsDigits(Strip(s)) ==> r == Some(DigitsValue(Strip(s)))
    ensures var t := Strip(s); t != [] && t[0] == '-' && IsDigits(t[1..]) ==> r == Some(0 - DigitsValue(t[1..]))
    ensures var t := Strip(s); t != [] && t[0] == '+' && IsDigits(t[1..]) ==> r == Some(DigitsValue(t[1..]))
    ensures var t := Strip(s);
      r.Some? ==> IsDigits(t) || (t != [] && (t[0] == '-' || t[0] == '+') && IsDigits(t[1..]))
  {
    var t := Strip(s);
    if IsDigits(t) then Some(DigitsValue(t))
    else if t != [] && t[0] == '-' && IsDigits(t[1..]) then Some(0 - DigitsValue(t[1..]))
    else if t != [] && t[0] == '+' && IsDigits(t[1..]) then Some(DigitsValue(t[1..]))
    else None
  }

  /** `str(i)` never starts or ends with whitespace. */
  lemma IntToStringIsStripped(i: int)
    ensures IsStripped(IntToString(i))
  {
    var r := NatToString(if i < 0 then -i else i);
    assert IsDigit(r[0]) && IsDigit(r[|r| - 1]);
  }

  /** `int` of a stripped `-` followed by digits is the negated value of the digits. */
  lemma PyIntOfNegative(t: string)
    requires IsStripped(t) && t != [] && t[0] == '-' && IsDigits(t[1..])
    ensures PyInt(t) == Some(-(DigitsValue(t[1..]) as int))
  {
    StripOfStripped(t);
  }

  /** A text of digits reads as its value. */
  lemma PyIntOfDigits(s: string)
    requires IsDigits(s)
    ensures PyInt(s) == Some(DigitsValue(s))
  {
    assert IsStripped(s) by {
      assert IsDigit(s[0]) && IsDigit(s[|s| - 1]);
    }
    StripOfStripped(s);
  }

  /** `int(str(i)) == i`. */
  lemma PyIntOfIntToString(i: int)
    ensures PyInt(IntToString(i)) == Some(i)
  {
    if i < 0 {
      PyIntOfIntToStringNeg(i);
    } else {
      PyIntOfIntToStringPos(i);
    }
  }

  lemma PyIntOfIntToStringNeg(i: int)
    requires i < 0
    ensures PyInt(IntToString(i)) == Some(i)
  {
    var d := NatToString(-i);
    assert IntToString(i) == "-" + d;
    MinusDigitsIsStripped(d);
    NatToStringValue(-i);
    PyIntOfNegative("-" + d);
  }

  /** A `-` followed by digits has no surrounding whitespace. */
  lemma MinusDigitsIsStripped(d: string)
    requires IsDigits(d)
    ensures var t := "-" + d; IsStripped(t) && t[0] == '-' && t[1..] == d
  {
    var t := "-" + d;
    assert t[|t| - 1] == d[|d| - 1];
    assert IsDigit(d[|d| - 1]);
  }

  lemma PyIntOfIntToStringPos(i: int)
    requires i >= 0
    ensures PyInt(IntToString(i)) == Some(i)
  {
    var d := NatToString(i);
    NatToStringValue(i);
    PyIntOfDigits(d);
    assert IntToString(i) == d;
  }

  /** `xs[i]`, with Python's negative indices; `None` where it raises `IndexError`. */
  function PyIndex<T>(xs: seq<T>, i: int): (r: Option<T>)
    ensures 0 <= i < |xs| ==> r == Some(xs[i])
    ensures -|xs| <= i < 0 ==> r == Some(xs[|xs| + i])
    ensures r.None? <==> i >= |xs| || i < -|xs|
  {
    if 0 <= i < |xs| then Some(xs[i])
    else if -|xs| <= i < 0 then Some(xs[|xs| + i])
    else None
  }

  // ---------------------------------------------------------------------------
  // The service date

  /** The service date as read from its text. */
  datatype ServiceDate = ServiceDate(month: int, day: int, year: int)

  /** `target_date.split('-')` and `int` of the first three parts: month, day, year. */
  function ParseServiceDate(date: string): (r: Option<ServiceDate>)
    ensures r.Some? ==> |SplitOn(date, '-')| >= 3
    ensures r.Some? ==> PyInt(SplitOn(date, '-')[0]) == Some(r.value.month)
    ensures r.Some? ==> PyInt(SplitOn(date, '-')[1]) == Some(r.value.day)
    ensures r.Some? ==> PyInt(SplitOn(date, '-')[2]) == Some(r.value.year)
  {
    var parts := SplitOn(date, '-');
    if |parts| < 3 then None
    else
      match (PyInt(parts[0]), PyInt(parts[1]), PyInt(parts[2]))
      case (Some(m), Some(d), Some(y)) => Some(ServiceDate(m, d, y))
      case _ => None
  }

  /** Decimal digits never include the date separator. */
  lemma DigitsHaveNoDash(s: string)
    requires IsDigits(s)
    ensures '-' !in s
  {
  }

  /** Three texts without `-` joined by `-` split back into those three. */
  lemma SplitDate(month: string, day: string, year: string)
    requires '-' !in month && '-' !in day && '-' !in year
    ensures SplitOn(month + "-" + day + "-" + year, '-') == [month, day, year]
  {
    assert month + "-" + day + "-" + year == month + ['-'] + (day + ['-'] + year);
    SplitOnAfter(month, '-', day + ['-'] + year);
    SplitOnAfter(day, '-', year);
    assert IndexOf(year, '-').None?;
  }

  /** Three digit groups joined by `-` read back as month, day and year, zero padding included. */
  lemma ParseServiceDateOfDigits(month: string, day: string, year: string)
    requires IsDigits(month) && IsDigits(day) && IsDigits(year)
    ensures ParseServiceDate(month + "-" + day + "-" + year) ==
      Some(ServiceDate(DigitsValue(month) as int, DigitsValue(day) as int, DigitsValue(year) as int))
  {
    var date := month + "-" + day + "-" + year;
    DigitsHaveNoDash(month);
    DigitsHaveNoDash(day);
    DigitsHaveNoDash(year);
    SplitDate(month, day, year);
    var parts := SplitOn(date, '-');
    assert parts[0] == month && parts[1] == day && parts[2] == year;
    PartReadsAsDigits(date, 0, month);
    PartReadsAsDigits(date, 1, day);
    PartReadsAsDigits(date, 2, year);
    ParseServiceDateOfParts(date, DigitsValue(month), DigitsValue(day), DigitsValue(year));
  }

  /** A part of the date made of digits reads as their value. */
  lemma PartReadsAsDigits(date: string, i: nat, part: string)
    requires i < |SplitOn(date, '-')| && SplitOn(date, '-')[i] == part && IsDigits(part)
    ensures PyInt(SplitOn(date, '-')[i]) == Some(DigitsValue(part) as int)
  {
    PyIntOfDigits(part);
  }

  /** A date whose first three parts read as numbers is parsed as those numbers. */
  lemma ParseServiceDateOfParts(date: string, month: int, day: int, year: int)
    requires |SplitOn(date, '-')| >= 3
    requires PyInt(SplitOn(date, '-')[0]) == Some(month)
    requires PyInt(SplitOn(date, '-')[1]) == Some(day)
    requires PyInt(SplitOn(date, '-')[2]) == Some(year)
    ensures ParseServiceDate(date) == Some(ServiceDate(month, day, year))
  {
  }

  /** A date without at least two `-` has fewer than three parts and is refused. */
  lemma ShortDateRefused(date: string)
    requires '-' !in date
    ensures ParseServiceDate(date).None?
  {
    assert IndexOf(date, '-').None?;
  }

  const MonthNames: seq<string> := [
    "January", "February", "March", "April", "May", "June",
    "July", "August", "September", "October", "November", "December"
  ]

  const MonthShortNames: seq<string> := [
    "Jan", "Feb", "Mar", "Apr", "May", "Jun", "Jul", "Aug", "Sep", "Oct", "Nov", "Dec"
  ]

  /** `month_names[target_month - 1]`. */
  function MonthName(month: int): (r: Option<string>)
    ensures r.Some? ==> r.value in MonthNames
    ensures r.Some? <==> -|MonthNames| <= month - 1 < |MonthNames|
  {
    PyIndex(MonthNames, month - 1)
  }

  /** Months 1 to 12 get their name; 13 and over raise; 0 and the negative months down to -11 wrap round from December. */
  lemma MonthNameRange(month: int)
    ensures 1 <= month <= 12 ==> MonthName(month) == Some(MonthNames[month - 1])
    ensures month >= 13 || month <= -12 ==> MonthName(month).None?
    ensures -11 <= month <= 0 ==> MonthName(month) == Some(MonthNames[11 + month])
    ensures MonthName(0) == Some("December")
  {
  }

  /** `f"{m:02d}"`: a single digit gets a leading zero; anything else is `str(m)`. */
  function Pad2(m: int): string
  {
    if 0 <= m < 10 then "0" + NatToString(m) else IntToString(m)
  }

  /** A one-digit month gets its leading zero and reads back as itself. */
  lemma PaddedDigitReadsBack(m: nat)
    requires m < 10
    ensures IsDigits(Pad2(m)) && |Pad2(m)| == 2
    ensures PyInt(Pad2(m)) == Some(m)
  {
    var p := Pad2(m);
    assert p == ['0', DigitChar(m)];
    assert IsDigits(p) && DigitsValue(p) == m by {
      assert p[..1] == "0" && p[..1][..0] == [];
      assert DigitsValue(p[..1]) == 0;
    }
    PyIntOfDigits(p);
  }

  /** The padded month reads back as the month; only months 0 to 9 differ from `str(m)`. */
  lemma Pad2ReadsBack(m: int)
    ensures PyInt(Pad2(m)) == Some(m)
    ensures Pad2(m) == IntToString(m) <==> !(0 <= m < 10)
  {
    if 0 <= m < 10 {
      PaddedDigitReadsBack(m);
      assert |IntToString(m)| == 1;
    } else {
      PyIntOfIntToString(m);
    }
  }

  /** The labels or values tried on the month dropdown, in order; `None` where the month index raises. */
  function MonthOptions(month: int): (r: Option<seq<string>>)
    ensures r.Some? <==> MonthName(month).Some?
    ensures r.Some? ==> (|r.value| == 5 && r.value[1] == MonthName(month).value &&
      r.value[2] == IntToString(month) && r.value[3] == Pad2(month) && r.value[4] == IntToString(month - 1))
  {
    match (PyIndex(MonthShortNames, month - 1), MonthName(month))
    case (Some(short), Some(name)) =>
      Some([short, name, IntToString(month), Pad2(month), IntToString(month - 1)])
    case _ => None
  }

  /** For a month from 1 to 12 the options are its short name, full name, number, padded number and the number below. */
  lemma MonthOptionsOfMonth(month: int)
    requires 1 <= month <= 12
    ensures MonthOptions(month) == Some([MonthShortNames[month - 1], MonthNames[month - 1],
      IntToString(month), Pad2(month), IntToString(month - 1)])
  {
  }

  // ---------------------------------------------------------------------------
  // The date picker

  const MonthDropdownSelectors: seq<string> := [
    "select.datepicker-months",
    "select[class*=\"month\"]",
    ".datepicker select:first-child",
    "select:first-child",
    "select",
    ".datepicker-days select",
    ".datepicker select",
    "[class*=\"datepicker\"] select"
  ]

  /** The selectors tried for the day cells, for the given day. */
  function DaySelectors(day: int): seq<string>
  {
    var d := IntToString(day);
    [
      "td.day:has-text(\"" + d + "\"):not(.old):not(.new):not(.today)",
      "table td:has-text(\"" + d + "\"):not(:has-text(\"Today\"))",
      "td[data-day=\"" + d + "\"]",
      "button[data-day=\"" + d + "\"]",
      "td:has-text(\"" + d + "\"):not(button)",
      "div.calendar-day:has-text(\"" + d + "\")"
    ]
  }

  /** A day cell: `text_content()` and the `class` attribute, `None` when absent. */
  datatype DayCell = DayCell(text: Option<string>, classes: Option<string>)

  /** The stripped text is exactly `str(day)` and the class contains none of `old`, `new`, `disabled`. */
  predicate DayCellAccepted(cell: DayCell, day: int)
  {
    var cls := if cell.classes.Some? then cell.classes.value else "";
    cell.text.Some? && cell.text.value != [] && Strip(cell.text.value) == IntToString(day) &&
    !Contains(cls, "old") && !Contains(cls, "new") && !Contains(cls, "disabled")
  }

  /** A cell showing the day number, whatever whitespace surrounds it, is accepted when its class is clear of the three words. */
  lemma DayCellWithDayAccepted(day: int, pre: string, post: string, cls: string)
    requires forall i :: 0 <= i < |pre| ==> IsSpace(pre[i])
    requires forall i :: 0 <= i < |post| ==> IsSpace(post[i])
    requires !Contains(cls, "old") && !Contains(cls, "new") && !Contains(cls, "disabled")
    ensures DayCellAccepted(DayCell(Some(pre + IntToString(day) + post), Some(cls)), day)
  {
    var d := IntToString(day);
    IntToStringIsStripped(day);
    StripAround(pre, d, post);
  }

  /** A zero-padded day such as `05` is not accepted for day 5: the cell text must be `str(day)`. */
  lemma PaddedDayRejected(cell: DayCell, day: nat)
    requires 1 <= day < 10 && cell.text == Some(Pad2(day))
    ensures !DayCellAccepted(cell, day)
  {
    PaddedStripLength(day);
    SingleDigitLength(day);
  }

  /** The padded day, stripped, is still two characters. */
  lemma PaddedStripLength(day: nat)
    requires day < 10
    ensures |Strip(Pad2(day))| == 2
  {
    PaddedIsStripped(day);
    StripOfStripped(Pad2(day));
  }

  /** `str(day)` of a single digit is one character. */
  lemma SingleDigitLength(day: nat)
    requires day < 10
    ensures |IntToString(day)| == 1
  {
  }

  lemma PaddedIsStripped(day: nat)
    requires day < 10
    ensures IsStripped(Pad2(day)) && |Pad2(day)| == 2
  {
    var p := Pad2(day);
    assert p == ['0', DigitChar(day)];
    assert IsDigit(p[0]) && IsDigit(p[1]);
  }

  /** What one date picker shows after its calendar icon is clicked. */
  datatype Picker = Picker(
    dropdownVisible: string -> bool,
    selects: (string, string) -> bool,
    cells: string -> seq<DayCell>)

  /** Where the month and the day were set: indices of the selector and of the option or cell. */
  datatype CalendarResult = CalendarResult(month: Option<(nat, nat)>, day: Option<(nat, nat)>)

  /** The options offered on a dropdown: all of them when it is visible, none when it is not. */
  function OfferedOn(p: Picker, options: seq<string>): string -> seq<string>
  {
    (dropdown: string) => if p.dropdownVisible(dropdown) then options else []
  }

  function DayAcceptedFor(day: int): (string, DayCell) -> bool
  {
    (selector: string, cell: DayCell) => DayCellAccepted(cell, day)
  }

  /** `set_calendar_date`: the first visible dropdown and option that can be selected, then the first accepted day cell. */
  function CalendarDate(p: Picker, options: seq<string>, day: int): (r: CalendarResult)
    ensures r.month.Some? ==>
      r.month.value.0 < |MonthDropdownSelectors| && p.dropdownVisible(MonthDropdownSelectors[r.month.value.0]) &&
      r.month.value.1 < |options| && p.selects(MonthDropdownSelectors[r.month.value.0], options[r.month.value.1])
    ensures r.day.Some? ==>
      r.day.value.0 < |DaySelectors(day)| && r.day.value.1 < |p.cells(DaySelectors(day)[r.day.value.0])| &&
      DayCellAccepted(p.cells(DaySelectors(day)[r.day.value.0])[r.day.value.1], day)
    ensures r.day.None? <==>
      forall i, j :: 0 <= i < |DaySelectors(day)| && 0 <= j < |p.cells(DaySelectors(day)[i])| ==>
        !DayCellAccepted(p.cells(DaySelectors(day)[i])[j], day)
  {
    CalendarDateOn(p, options, DaySelectors(day), day)
  }

  /** `CalendarDate` with the day selectors given: the dropdown search, then the first accepted cell under `daySelectors`. */
  function CalendarDateOn(p: Picker, options: seq<string>, daySelectors: seq<string>, day: int): (r: CalendarResult)
    ensures r.month.Some? ==>
      r.month.value.0 < |MonthDropdownSelectors| && p.dropdownVisible(MonthDropdownSelectors[r.month.value.0]) &&
      r.month.value.1 < |options| && p.selects(MonthDropdownSelectors[r.month.value.0], options[r.month.value.1])
    ensures r.day.Some? ==>
      r.day.value.0 < |daySelectors| && r.day.value.1 < |p.cells(daySelectors[r.day.value.0])| &&
      DayCellAccepted(p.cells(daySelectors[r.day.value.0])[r.day.value.1], day)
    ensures r.day.None? <==>
      forall i, j :: 0 <= i < |daySelectors| && 0 <= j < |p.cells(daySelectors[i])| ==>
        !DayCellAccepted(p.cells(daySelectors[i])[j], day)
  {
    CalendarResult(
      FirstInGrid(MonthDropdownSelectors, OfferedOn(p, options), p.selects),
      FirstInGrid(daySelectors, p.cells, DayAcceptedFor(day)))
  }

  /** The outcome of `set_service_dates` and the pickers it worked, FROM first. */
  datatype ServiceDates = ServiceDates(ok: bool, settings: seq<CalendarResult>)

  /** `set_calendar_date` on the FROM picker, then on the TO picker only when FROM's day was set. */
  function PickDates(icons: seq<Picker>, options: seq<string>, daySelectors: seq<string>, day: int): (r: ServiceDates)
    ensures r.ok <==>
      |icons| >= 2 &&
      CalendarDateOn(icons[0], options, daySelectors, day).day.Some? &&
      CalendarDateOn(icons[1], options, daySelectors, day).day.Some?
    ensures |r.settings| <= 2 && (r.ok ==> |r.settings| == 2)
    ensures |r.settings| == 1 ==> r.settings[0].day.None?
    ensures forall k :: 0 <= k < |r.settings| ==>
      k < |icons| && r.settings[k] == CalendarDateOn(icons[k], options, daySelectors, day)
  {
    if |icons| < 2 then ServiceDates(false, [])
    else
      var from := CalendarDateOn(icons[0], options, daySelectors, day);
      if from.day.None? then ServiceDates(false, [from])
      else
        var to := CalendarDateOn(icons[1], options, daySelectors, day);
        ServiceDates(to.day.Some?, [from, to])
  }

  /** `set_service_dates`: read the date and the month name, then work the pickers. */
  function ServiceDatesOutcome(date: string, icons: seq<Picker>): (r: ServiceDates)
    ensures ParseServiceDate(date).None? ==> r == ServiceDates(false, [])
    ensures r.settings != [] ==> ParseServiceDate(date).Some? && MonthOptions(ParseServiceDate(date).value.month).Some?
    ensures r.settings != [] ==>
      var parsed := ParseServiceDate(date).value;
      forall k :: 0 <= k < |r.settings| ==>
        k < |icons| && r.settings[k] == CalendarDate(icons[k], MonthOptions(parsed.month).value, parsed.day)
  {
    match ParseServiceDate(date)
    case None => ServiceDates(false, [])
    case Some(parsed) =>
      match MonthOptions(parsed.month)
      case None => ServiceDates(false, [])
      case Some(options) => PickDates(icons, options, DaySelectors(parsed.day), parsed.day)
  }

  /** Both day cells found on the first two pickers. */
  predicate BothDaysFound(icons: seq<Picker>, day: int)
    requires |icons| >= 2
  {
    FirstInGrid(DaySelectors(day), icons[0].cells, DayAcceptedFor(day)).Some? &&
    FirstInGrid(DaySelectors(day), icons[1].cells, DayAcceptedFor(day)).Some?
  }

  /** The dates are set exactly when the date reads, the month is in range, there are two pickers and both days are found. */
  lemma ServiceDatesIff(date: string, icons: seq<Picker>)
    ensures ServiceDatesOutcome(date, icons).ok <==>
      ParseServiceDate(date).Some? && MonthName(ParseServiceDate(date).value.month).Some? &&
      |icons| >= 2 && BothDaysFound(icons, ParseServiceDate(date).value.day)
  {
  }

  /** FROM is set before TO, and a FROM failure returns before TO is tried. */
  lemma FromBeforeTo(date: string, icons: seq<Picker>)
    ensures var r := ServiceDatesOutcome(date, icons);
      |r.settings| <= 2 && (|r.settings| == 1 ==> !r.ok && r.settings[0].day.None?) &&
      (r.ok ==> |r.settings| == 2)
    ensures |icons| < 2 ==> !ServiceDatesOutcome(date, icons).ok && ServiceDatesOutcome(date, icons).settings == []
  {
  }

  /** Only the day cells decide whether the pickers report the dates set. */
  lemma PickDatesOnlyByDays(icons: seq<Picker>, others: seq<Picker>, options: seq<string>, daySelectors: seq<string>, day: int)
    requires |others| == |icons|
    requires forall k :: 0 <= k < |icons| ==> others[k].cells == icons[k].cells
    ensures PickDates(icons, options, daySelectors, day).ok == PickDates(others, options, daySelectors, day).ok
  {
    if |icons| >= 2 {
      assert CalendarDateOn(icons[0], options, daySelectors, day).day == CalendarDateOn(others[0], options, daySelectors, day).day;
      assert CalendarDateOn(icons[1], options, daySelectors, day).day == CalendarDateOn(others[1], options, daySelectors, day).day;
    }
  }

  /** Whether the month could be set never changes whether the dates are reported set: only the day cells count. */
  lemma MonthNotFatal(date: string, icons: seq<Picker>, others: seq<Picker>)
    requires |others| == |icons|
    requires forall k :: 0 <= k < |icons| ==> others[k].cells == icons[k].cells
    ensures ServiceDatesOutcome(date, icons).ok == ServiceDatesOutcome(date, others).ok
  {
    match ParseServiceDate(date)
    case None =>
    case Some(parsed) =>
      match MonthOptions(parsed.month)
      case None =>
      case Some(options) =>
        var ds := DaySelectors(parsed.day);
        assert ServiceDatesOutcome(date, icons) == PickDates(icons, options, ds, parsed.day);
        assert ServiceDatesOutcome(date, others) == PickDates(others, options, ds, parsed.day);
        PickDatesOnlyByDays(icons, others, options, ds, parsed.day);
  }

  /** One date picker: the dropdown loops, then the day loops. */
  method SetCalendarDate(p: Picker, options: seq<string>, day: int) returns (r: CalendarResult, daySet: bool)
    ensures r == CalendarDate(p, options, day)
    ensures daySet <==> r.day.Some?
  {
    var month := FindFirstInGrid(MonthDropdownSelectors, OfferedOn(p, options), p.selects);
    var cell := FindFirstInGrid(DaySelectors(day), p.cells, DayAcceptedFor(day));
    return CalendarResult(month, cell), cell.Some?;
  }

  /** `set_service_dates` step by step. */
  method SetServiceDates(date: string, icons: seq<Picker>) returns (r: ServiceDates)
    ensures r == ServiceDatesOutcome(date, icons)
  {
    var parsed := ParseServiceDate(date);
    if parsed.None? {
      return ServiceDates(false, []);
    }
    var month, day := parsed.value.month, parsed.value.day;
    var options := MonthOptions(month);
    if options.None? {
      return ServiceDates(false, []);
    }
    if |icons| < 2 {
      return ServiceDates(false, []);
    }
    var from, fromSet := SetCalendarDate(icons[0], options.value, day);
    if !fromSet {
      return ServiceDates(false, [from]);
    }
    var to, toSet := SetCalendarDate(icons[1], options.value, day);
    if !toSet {
      return ServiceDates(false, [from, to]);
    }
    return ServiceDates(true, [from, to]);
  }

  // ---------------------------------------------------------------------------
  // Menus

  /** Hamburger menu, Billing, Claims. */
  const ClaimsMenuPath: seq<string> := [
    "#jellybean-panelLink4.navgator.mainMenu",
    ".icon.nav-label.icon-label-bill",
    ".svgicon.svg-document1"
  ]

  /** The items of a menu path clicked in order, up to the first one that is not visible. */
  function ClickedPath(path: seq<string>, visible: string -> bool): (r: seq<string>)
    ensures |r| <= |path| && r == path[..|r|]
    ensures forall k :: 0 <= k < |r| ==> visible(r[k])
    ensures |r| < |path| ==> !visible(path[|r|])
    decreases |path|
  {
    if path == [] || !visible(path[0]) then []
    else [path[0]] + ClickedPath(path[1..], visible)
  }

  /** `navigate_to_claims` succeeds exactly when all three menu items are visible in turn. */
  lemma NavigateToClaimsIff(visible: string -> bool)
    ensures |ClickedPath(ClaimsMenuPath, visible)| == |ClaimsMenuPath| <==>
      forall k :: 0 <= k < |ClaimsMenuPath| ==> visible(ClaimsMenuPath[k])
  {
    var r := ClickedPath(ClaimsMenuPath, visible);
    if |r| == |ClaimsMenuPath| {
      assert r == ClaimsMenuPath;
    }
  }

  /** `navigate_to_claims`: each item is clicked only when the one before it was found. */
  method NavigateToClaims(visible: string -> bool) returns (ok: bool, clicked: seq<string>)
    ensures clicked == ClickedPath(ClaimsMenuPath, visible)
    ensures ok <==> |clicked| == |ClaimsMenuPath|
  {
    var hamburger, billing, claims := ClaimsMenuPath[0], ClaimsMenuPath[1], ClaimsMenuPath[2];
    assert ClaimsMenuPath[1..][1..] == [claims];
    clicked := [];
    if !visible(hamburger) {
      return false, clicked;
    }
    clicked := clicked + [hamburger];
    if !visible(billing) {
      return false, clicked;
    }
    clicked := clicked + [billing];
    if !visible(claims) {
      return false, clicked;
    }
    clicked := clicked + [claims];
    return true, clicked;
  }

  /** The outcome of `setup_initial_navigation` and the calendar day it clicked. */
  datatype Setup = Setup(ok: bool, dayClicked: Option<string>)

  /**
   * `setup_initial_navigation`: without `target_date` it fails; otherwise it
   * succeeds whatever its clicks do. The calendar day is clicked only for a
   * date of exactly three parts whose day reads as a number, when the
   * calendar widget and the day are visible.
   */
  function InitialNavigation(targetDate: Option<string>, widgetVisible: bool, dayVisible: string -> bool): (r: Setup)
    ensures r.dayClicked.Some? ==> r.ok && targetDate.Some? && |SplitOn(targetDate.value, '-')| == 3 && widgetVisible
  {
    match targetDate
    case None => Setup(false, None)
    case Some(date) =>
      var parts := SplitOn(date, '-');
      if |parts| != 3 then Setup(true, None)
      else
        match PyInt(parts[1])
        case None => Setup(true, None)
        case Some(day) =>
          var text := IntToString(day);
          Setup(true, if widgetVisible && dayVisible(text) then Some(text) else None)
  }

  /** The initial navigation reports success exactly when `target_date` is configured. */
  lemma InitialNavigationIff(targetDate: Option<string>, widgetVisible: bool, dayVisible: string -> bool)
    ensures InitialNavigation(targetDate, widgetVisible, dayVisible).ok <==> targetDate.Some?
  {
  }
}
