/**
 * The roster side: reading students from the daily sheet, choosing which
 * sheet is the daily sheet, and joining the roster with the status map.
 */
module Roster {
  import opened Basics
  import opened Text
  import opened Statuses

  /** A sheet's data range: rows of cell texts (a missing cell reads as ""). */
  type Sheet = seq<seq<string>>

  /** Rows above the first student in a daily sheet. */
  const HeaderRows := 2

  datatype Student = Student(name: string, id: string)

  datatype RosterError = TooFewRows

  function Cell(row: seq<string>, c: nat): string
  {
    if c < |row| then row[c] else ""
  }

  /** The student a roster row gives: column A trimmed, when it is not blank, with column E trimmed as the id. */
  function StudentOfRow(row: seq<string>): Option<Student>
  {
    var name := Trim(Cell(row, 0));
    if name == [] then None else Some(Student(name, Trim(Cell(row, 4))))
  }

  /** The students of the rows below the headers, in row order. */
  function StudentsOf(rows: Sheet): seq<Student>
  {
    if rows == [] then []
    else
      var last := StudentOfRow(rows[|rows| - 1]);
      StudentsOf(rows[..|rows| - 1]) + (if last.Some? then [last.value] else [])
  }

  /** `_getStudentRoster`: a sheet with fewer than two rows is an error. */
  function RosterOf(data: Sheet): Result<seq<Student>, RosterError>
  {
    if |data| < 2 then Err(TooFewRows) else Ok(StudentsOf(data[HeaderRows..]))
  }

  method GetStudentRoster(data: Sheet) returns (r: Result<seq<Student>, RosterError>)
    ensures r == RosterOf(data)
  {
    if |data| < 2 {
      return Err(TooFewRows);
    }
    var students: seq<Student> := [];
    ghost var rows := data[HeaderRows..];
    for k := 0 to |data| - HeaderRows
      invariant students == StudentsOf(rows[..k])
    {
      var student := StudentOfRow(data[HeaderRows + k]);
      StudentsOfSnoc(rows, k);
      if student.Some? {
        students := students + [student.value];
      }
    }
    assert rows[..|data| - HeaderRows] == rows;
    return Ok(students);
  }

  lemma StudentsOfSnoc(rows: Sheet, k: nat)
    requires k < |rows|
    ensures StudentsOf(rows[..k + 1]) == StudentsOf(rows[..k]) +
      (if StudentOfRow(rows[k]).Some? then [StudentOfRow(rows[k]).value] else [])
  {
    assert rows[..k + 1][..k] == rows[..k];
  }

  /** A name that is non-empty and carries no surrounding whitespace. */
  predicate CleanName(name: string)
  {
    name != [] && Trim(name) == name
  }

  /** Every roster name is non-empty and carries no surrounding whitespace. */
  lemma {:induction false} RosterNamesClean(rows: Sheet)
    ensures |StudentsOf(rows)| <= |rows|
    ensures forall s :: s in StudentsOf(rows) ==> CleanName(s.name)
  {
    if rows != [] {
      var init := rows[..|rows| - 1];
      RosterNamesClean(init);
      var last := StudentOfRow(rows[|rows| - 1]);
      assert StudentsOf(rows) == StudentsOf(init) + (if last.Some? then [last.value] else []);
      forall s | s in StudentsOf(rows) ensures CleanName(s.name) {
        SnocMember(StudentsOf(init), last, s);
        if s !in StudentsOf(init) {
          StudentOfRowClean(rows[|rows| - 1]);
        }
      }
    }
  }

  /** A student of a roster extended by at most one student is an old one or the new one. */
  lemma SnocMember(a: seq<Student>, last: Option<Student>, s: Student)
    requires s in a + (if last.Some? then [last.value] else [])
    ensures s in a || (last.Some? && s == last.value)
  {
  }

  lemma StudentOfRowClean(row: seq<string>)
    ensures StudentOfRow(row).Some? ==> CleanName(StudentOfRow(row).value.name)
  {
    var name := Trim(Cell(row, 0));
    if name != [] {
      assert !IsSpace(name[0]) && !IsSpace(name[|name| - 1]);
      TrimUnpadded(name);
      assert StudentOfRow(row).value.name == name;
    }
  }

  /** Every roster student comes from one row below the headers. */
  lemma {:induction false} RosterFromRows(rows: Sheet, s: Student)
    requires s in StudentsOf(rows)
    ensures exists i :: 0 <= i < |rows| && StudentOfRow(rows[i]) == Some(s)
  {
    var init := rows[..|rows| - 1];
    if s in StudentsOf(init) {
      RosterFromRows(init, s);
      var i :| 0 <= i < |init| && StudentOfRow(init[i]) == Some(s);
      assert rows[i] == init[i];
    } else {
      assert StudentOfRow(rows[|rows| - 1]) == Some(s);
    }
  }

  /** No student is lost: every row with a non-blank name gives a roster student. */
  lemma {:induction false} RosterComplete(rows: Sheet, i: nat)
    requires i < |rows| && !Blank(Cell(rows[i], 0))
    ensures Student(Trim(Cell(rows[i], 0)), Trim(Cell(rows[i], 4))) in StudentsOf(rows)
  {
    var init := rows[..|rows| - 1];
    if i < |rows| - 1 {
      assert init[i] == rows[i];
      RosterComplete(init, i);
    }
  }

  // ---------------------------------------------------------------------------
  // Choosing the daily sheet

  /** Where the slash before the trailing one or two day digits is, or |name| when there is none. */
  function DaySlash(name: string): (p: nat)
    ensures p <= |name|
    ensures p < |name| ==> name[p] == '/' && AllDigits(name[p + 1..]) && 1 <= |name| - p - 1 <= 2
  {
    var n := |name|;
    if n >= 3 && IsDigit(name[n - 1]) && IsDigit(name[n - 2]) && name[n - 3] == '/' then n - 3
    else if n >= 2 && IsDigit(name[n - 1]) && name[n - 2] == '/' then n - 2
    else n
  }

  /** How many month digits precede the slash at `p`: two when there are two, else one, else none. */
  function MonthDigits(name: string, p: nat): (k: nat)
    requires p <= |name|
    ensures k <= 2 && k <= p && AllDigits(name[p - k..p])
  {
    if p >= 2 && IsDigit(name[p - 2]) && IsDigit(name[p - 1]) then 2
    else if p >= 1 && IsDigit(name[p - 1]) then 1
    else 0
  }

  /**
   * The month and day a sheet name ends with, as the leftmost match of the
   * pattern `(\d{1,2})/(\d{1,2})$` finds them: the one or two day digits
   * end the name, and the month takes two digits when two precede the slash.
   */
  function TrailingMonthDay(name: string): Option<(nat, nat)>
  {
    var p := DaySlash(name);
    if p == |name| then None
    else
      var k := MonthDigits(name, p);
      if k == 0 then None
      else Some((DigitsValue(name[p - k..p]), DigitsValue(name[p + 1..])))
  }

  /** A name the date pattern matches with a month in 1..12 and a day in 1..31. */
  predicate IsDateSheet(name: string)
  {
    var md := TrailingMonthDay(name);
    md.Some? && 1 <= md.value.0 <= 12 && 1 <= md.value.1 <= 31
  }

  predicate LeapYear(year: int)
  {
    year % 4 == 0 && (year % 100 != 0 || year % 400 == 0)
  }

  function DaysInMonth(year: int, month: nat): nat
    requires 1 <= month <= 12
  {
    if month == 2 then (if LeapYear(year) then 29 else 28)
    else if month == 4 || month == 6 || month == 9 || month == 11 then 30
    else 31
  }

  /** Days of the year before the first of `month`. */
  function DaysBeforeMonth(year: int, month: nat): nat
    requires 1 <= month <= 12
  {
    if month == 1 then 0 else DaysBeforeMonth(year, month - 1) + DaysInMonth(year, month - 1)
  }

  /**
   * The position in the year of the date the sheet name denotes: a day past
   * the end of its month rolls over into the next month, as a JavaScript
   * `Date` built from (year, month - 1, day) does.
   */
  function SheetDay(year: int, name: string): nat
    requires IsDateSheet(name)
  {
    var md := TrailingMonthDay(name).value;
    DaysBeforeMonth(year, md.0) + md.1
  }

  /** Sheets tried, in order, when no sheet name ends with a date. */
  const FallbackNames: seq<string> := ["Database", "Students", "Roster", "AM", "PM"]

  /** The first sheet with that name, as a by-name lookup finds it. */
  function SheetNamed(sheets: seq<string>, name: string): (r: Option<nat>)
    ensures r.Some? ==> r.value < |sheets| && sheets[r.value] == name
    ensures r.Some? ==> forall j :: 0 <= j < r.value ==> sheets[j] != name
    ensures r.None? ==> name !in sheets
  {
    if sheets == [] then None
    else if sheets[0] == name then Some(0)
    else
      match SheetNamed(sheets[1..], name)
      case None => None
      case Some(j) => Some(j + 1)
  }

  datatype SheetError = NoRosterSheet

  /** The first of `names` that some sheet has, and that sheet. */
  function FirstPresent(sheets: seq<string>, names: seq<string>): (r: Result<nat, SheetError>)
    ensures r.Ok? ==> r.value < |sheets| && sheets[r.value] in names
    ensures r.Err? ==> forall k :: 0 <= k < |names| ==> names[k] !in sheets
  {
    if names == [] then Err(NoRosterSheet)
    else
      match SheetNamed(sheets, names[0])
      case Some(i) => Ok(i)
      case None => FirstPresent(sheets, names[1..])
  }

  /**
   * The order of preference: the chosen sheet carries the earliest of `names`
   * that any sheet has, and it is the first sheet with that name.
   */
  lemma {:induction false} FirstPresentPreference(sheets: seq<string>, names: seq<string>)
    requires FirstPresent(sheets, names).Ok?
    ensures var i := FirstPresent(sheets, names).value;
      exists k :: 0 <= k < |names| && sheets[i] == names[k] &&
        (forall k' :: 0 <= k' < k ==> names[k'] !in sheets) &&
        (forall j :: 0 <= j < i ==> sheets[j] != names[k])
  {
    var i := FirstPresent(sheets, names).value;
    if SheetNamed(sheets, names[0]).Some? {
      assert sheets[i] == names[0];
    } else {
      FirstPresentPreference(sheets, names[1..]);
      var k :| 0 <= k < |names[1..]| && sheets[i] == names[1..][k] &&
        (forall k' :: 0 <= k' < k ==> names[1..][k'] !in sheets) &&
        (forall j :: 0 <= j < i ==> sheets[j] != names[1..][k]);
      assert sheets[i] == names[k + 1];
      forall k' | 0 <= k' < k + 1 ensures names[k'] !in sheets {
        if k' > 0 {
          assert names[k'] == names[1..][k' - 1];
        }
      }
    }
  }

  /** The date-sheet part of `getLatestDailySheet`: the latest date, the first sheet among equal dates. */
  method LatestDateSheet(sheets: seq<string>, year: int) returns (best: Option<nat>)
    ensures best.None? ==> forall j :: 0 <= j < |sheets| ==> !IsDateSheet(sheets[j])
    ensures best.Some? ==> best.value < |sheets| && IsDateSheet(sheets[best.value])
    ensures best.Some? ==> forall j :: 0 <= j < |sheets| && IsDateSheet(sheets[j]) ==>
      SheetDay(year, sheets[j]) <= SheetDay(year, sheets[best.value])
    ensures best.Some? ==> forall j :: 0 <= j < best.value && IsDateSheet(sheets[j]) ==>
      SheetDay(year, sheets[j]) < SheetDay(year, sheets[best.value])
  {
    best := None;
    var bestDay := 0;
    for i := 0 to |sheets|
      invariant best.None? ==> forall j :: 0 <= j < i ==> !IsDateSheet(sheets[j])
      invariant best.Some? ==> best.value < i && IsDateSheet(sheets[best.value]) && bestDay == SheetDay(year, sheets[best.value])
      invariant best.Some? ==> forall j :: 0 <= j < i && IsDateSheet(sheets[j]) ==> SheetDay(year, sheets[j]) <= bestDay
      invariant best.Some? ==> forall j :: 0 <= j < best.value && IsDateSheet(sheets[j]) ==> SheetDay(year, sheets[j]) < bestDay
    {
      if IsDateSheet(sheets[i]) {
        var day := SheetDay(year, sheets[i]);
        if best.None? || day > bestDay {
          best := Some(i);
          bestDay := day;
        }
      }
    }
  }

  /** The fallback part of `getLatestDailySheet`: the first fallback name some sheet has. */
  method FallbackSheet(sheets: seq<string>) returns (r: Result<nat, SheetError>)
    ensures r == FirstPresent(sheets, FallbackNames)
  {
    for k := 0 to |FallbackNames|
      invariant FirstPresent(sheets, FallbackNames) == FirstPresent(sheets, FallbackNames[k..])
    {
      assert FallbackNames[k..][1..] == FallbackNames[k + 1..];
      var found := SheetNamed(sheets, FallbackNames[k]);
      if found.Some? {
        return Ok(found.value);
      }
    }
    return Err(NoRosterSheet);
  }

  /**
   * `getLatestDailySheet`: among the sheets whose name ends with a valid
   * month/day, the latest date in `year` (the stable sort puts the first of
   * equal dates first); with no such sheet, the first fallback name present;
   * with none, an error.
   */
  method LatestDailySheet(sheets: seq<string>, year: int) returns (r: Result<nat, SheetError>)
    ensures (exists i :: 0 <= i < |sheets| && IsDateSheet(sheets[i])) ==>
      && r.Ok? && r.value < |sheets| && IsDateSheet(sheets[r.value])
      && (forall j :: 0 <= j < |sheets| && IsDateSheet(sheets[j]) ==> SheetDay(year, sheets[j]) <= SheetDay(year, sheets[r.value]))
      && (forall j :: 0 <= j < r.value && IsDateSheet(sheets[j]) ==> SheetDay(year, sheets[j]) < SheetDay(year, sheets[r.value]))
    ensures (forall i :: 0 <= i < |sheets| ==> !IsDateSheet(sheets[i])) ==> r == FirstPresent(sheets, FallbackNames)
  {
    var best := LatestDateSheet(sheets, year);
    if best.Some? {
      return Ok(best.value);
    }
    r := FallbackSheet(sheets);
  }

  /**
   * A name ending in a month and a day written in decimal, after anything
   * that does not end in a digit, reads back as that month and day;
   * two-digit padding ("08/03") reads the same.
   */
  lemma MonthDayRoundTrip(prefix: string, month: nat, day: nat)
    requires month < 100 && day < 100
    requires prefix == [] || !IsDigit(prefix[|prefix| - 1])
    ensures TrailingMonthDay(prefix + NatToString(month) + "/" + NatToString(day)) == Some((month, day))
    ensures TrailingMonthDay(prefix + PadTwo(month) + "/" + PadTwo(day)) == Some((month, day))
  {
    MonthDayDigits(prefix, NatToString(month), NatToString(day));
    DigitsValueOfNatToString(month);
    DigitsValueOfNatToString(day);
    MonthDayDigits(prefix, PadTwo(month), PadTwo(day));
    PadTwoValue(month);
    PadTwoValue(day);
  }

  lemma MonthDayDigits(prefix: string, mm: string, dd: string)
    requires 1 <= |mm| <= 2 && 1 <= |dd| <= 2 && AllDigits(mm) && AllDigits(dd)
    requires prefix == [] || !IsDigit(prefix[|prefix| - 1])
    ensures TrailingMonthDay(prefix + mm + "/" + dd) == Some((DigitsValue(mm), DigitsValue(dd)))
  {
    var s := prefix + mm + "/" + dd;
    var slash := |prefix| + |mm|;
    DaySlashAt(prefix + mm, dd);
    assert s[..slash] == prefix + mm;
    MonthDigitsAt(s, prefix, mm);
    assert s[slash - |mm|..slash] == mm;
    assert s[slash + 1..] == dd;
  }

  lemma DaySlashAt(front: string, dd: string)
    requires 1 <= |dd| <= 2 && AllDigits(dd)
    ensures DaySlash(front + "/" + dd) == |front|
  {
    var s := front + "/" + dd;
    assert s[|front|] == '/';
    assert s[|s| - 1] == dd[|dd| - 1];
    if |dd| == 2 {
      assert s[|s| - 2] == dd[0];
    }
  }

  lemma MonthDigitsAt(s: string, prefix: string, mm: string)
    requires 1 <= |mm| <= 2 && AllDigits(mm)
    requires prefix == [] || !IsDigit(prefix[|prefix| - 1])
    requires |prefix| + |mm| <= |s| && s[..|prefix| + |mm|] == prefix + mm
    ensures MonthDigits(s, |prefix| + |mm|) == |mm|
  {
    var p := |prefix| + |mm|;
    assert s[p - 1] == (prefix + mm)[p - 1] == mm[|mm| - 1];
    if |mm| == 2 {
      assert s[p - 2] == (prefix + mm)[p - 2] == mm[0];
    } else if p >= 2 {
      assert s[p - 2] == (prefix + mm)[p - 2] == prefix[|prefix| - 1];
    }
  }

  // ---------------------------------------------------------------------------
  // Joining roster and status

  /** A roster student as the client sees them: name, id and the status fields (blank when absent). */
  datatype StudentView = StudentView(
    name: string, id: string, nameId: string,
    gender: string, teacher: string, outTime: string, backTime: string, holdNotice: string)

  datatype QueueLists = QueueLists(girls: seq<string>, boys: seq<string>)

  function StatusOf(status: map<string, Status>, name: string): Status
  {
    if name in status then status[name] else NoStatus
  }

  /** What the page shows for one roster student. */
  function ViewOf(student: Student, status: map<string, Status>): StudentView
  {
    var st := StatusOf(status, student.name);
    StudentView(student.name, student.id, student.name, st.gender, st.teacher, st.outTime, st.backTime, st.holdNotice)
  }

  /** The roster names, in roster order, whose status waits in that gender's line. */
  function WaitingNames(roster: seq<Student>, status: map<string, Status>, gender: string): seq<string>
  {
    if roster == [] then []
    else
      var s := roster[|roster| - 1];
      var st := StatusOf(status, s.name);
      WaitingNames(roster[..|roster| - 1], status, gender)
        + (if st.holdNotice != "" && st.outTime == "" && st.gender == gender then [s.name] else [])
  }

  /**
   * `_combineRosterAndStatus` (and the same loop in `fetchData`): one view
   * per roster student, in roster order, and the girls' and boys' lines in
   * roster order.
   */
  method CombineRosterAndStatus(roster: seq<Student>, status: map<string, Status>)
    returns (students: seq<StudentView>, queue: QueueLists)
    ensures |students| == |roster|
    ensures forall i :: 0 <= i < |roster| ==>
      var st := StatusOf(status, roster[i].name);
      students[i] == StudentView(roster[i].name, roster[i].id, roster[i].name,
                                 st.gender, st.teacher, st.outTime, st.backTime, st.holdNotice)
    ensures queue.girls == WaitingNames(roster, status, "G")
    ensures queue.boys == WaitingNames(roster, status, "B")
  {
    students := [];
    queue := QueueLists([], []);
    for i := 0 to |roster|
      invariant |students| == i
      invariant forall j :: 0 <= j < i ==> students[j] == ViewOf(roster[j], status)
      invariant queue.girls == WaitingNames(roster[..i], status, "G")
      invariant queue.boys == WaitingNames(roster[..i], status, "B")
    {
      var student := roster[i];
      var st := StatusOf(status, student.name);
      AppendView(roster, status, students, i);
      students := students + [ViewOf(student, status)];
      ghost var before := queue;
      if st.holdNotice != "" && st.outTime == "" {
        if st.gender == "G" {
          queue := queue.(girls := queue.girls + [student.name]);
        } else if st.gender == "B" {
          queue := queue.(boys := queue.boys + [student.name]);
        }
      }
      QueueStep(roster, i, status, before, queue);
    }
    assert roster[..|roster|] == roster;
  }

  lemma AppendView(roster: seq<Student>, status: map<string, Status>, views: seq<StudentView>, i: nat)
    requires i < |roster| && |views| == i
    requires forall j :: 0 <= j < i ==> views[j] == ViewOf(roster[j], status)
    ensures forall j :: 0 <= j < i + 1 ==> (views + [ViewOf(roster[i], status)])[j] == ViewOf(roster[j], status)
  {
  }

  /** One roster student joins the line of their status's gender when they wait. */
  lemma QueueStep(roster: seq<Student>, i: nat, status: map<string, Status>, before: QueueLists, after: QueueLists)
    requires i < |roster|
    requires before.girls == WaitingNames(roster[..i], status, "G")
    requires before.boys == WaitingNames(roster[..i], status, "B")
    requires var st := StatusOf(status, roster[i].name);
      after == if st.holdNotice != "" && st.outTime == "" then
          if st.gender == "G" then before.(girls := before.girls + [roster[i].name])
          else if st.gender == "B" then before.(boys := before.boys + [roster[i].name])
          else before
        else before
    ensures after.girls == WaitingNames(roster[..i + 1], status, "G")
    ensures after.boys == WaitingNames(roster[..i + 1], status, "B")
  {
    WaitingNamesStep(roster, i, status, "G");
    WaitingNamesStep(roster, i, status, "B");
  }

  lemma WaitingNamesStep(roster: seq<Student>, i: nat, status: map<string, Status>, gender: string)
    requires i < |roster|
    ensures var st := StatusOf(status, roster[i].name);
      WaitingNames(roster[..i + 1], status, gender) == WaitingNames(roster[..i], status, gender)
        + (if st.holdNotice != "" && st.outTime == "" && st.gender == gender then [roster[i].name] else [])
  {
    assert roster[..i + 1][..i] == roster[..i];
  }

  /**
   * The combined lines hold exactly the roster students who are waiting for
   * that lane; a waiting student missing from the roster is in no line.
   */
  lemma {:induction false} WaitingNamesMembers(roster: seq<Student>, status: map<string, Status>, gender: string, n: string)
    ensures n in WaitingNames(roster, status, gender) <==>
      n in WaitingSet(status, gender) && exists i :: 0 <= i < |roster| && roster[i].name == n
  {
    if roster != [] {
      var init := roster[..|roster| - 1];
      WaitingNamesMembers(init, status, gender, n);
      if exists i :: 0 <= i < |init| && init[i].name == n {
        var i :| 0 <= i < |init| && init[i].name == n;
        assert roster[i].name == n;
      }
      if exists i :: 0 <= i < |roster| && roster[i].name == n {
        var i :| 0 <= i < |roster| && roster[i].name == n;
        if i < |init| {
          assert init[i].name == n;
        }
      }
    }
  }
}
