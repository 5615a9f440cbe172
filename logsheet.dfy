/**
 * The Log sheet as a mutable object: reading today's entries and the
 * status map from it, the four row writers, and the requests that choose
 * between them (`updateStatus`, `api_updateStudentStatusOptimized`,
 * `batchUpdateLogs`).
 */
module LogSheet {
  import opened Basics
  import opened Text
  import opened Clock
  import opened LogRows
  import opened Statuses
  import opened Roster

  /** The moment of a request: today's date and the local hour and minute. */
  datatype Now = Now(today: int, hour: nat, minute: nat)

  predicate ValidNow(now: Now) { now.hour < 24 && now.minute < 60 }

  /** The time text the writers put in a cell. */
  function TimeText(now: Now): string
    requires ValidNow(now)
  {
    FormatTime(now.hour, now.minute)
  }

  /**
   * Where reading the status can fail: the lookup itself (its errors are
   * swallowed and give an empty map), the performance monitor around it
   * (which sends the read to the fallback), and the fallback.
   */
  datatype Faults = Faults(lookupThrows: bool, monitorThrows: bool, fallbackThrows: bool)

  const NoFaults := Faults(false, false, false)

  /** `_getCurrentRestroomStatus`: the status map the requests act on. */
  function StatusOfLog(rows: seq<Row>, today: int, faults: Faults): map<string, Status>
  {
    if faults.monitorThrows then
      (if faults.fallbackThrows then map[] else FallbackLookup(TodaysEntries(rows, today)))
    else if faults.lookupThrows then map[]
    else StatusLookup(TodaysEntries(rows, today))
  }

  // ---------------------------------------------------------------------------
  // The rows the writers produce

  /** `_logOutEntry`'s row: today, the student, the formatted out time. */
  function OutRow(now: Now, name: string, id: string, gender: string, teacher: string): Row
    requires ValidNow(now)
  {
    Row(Some(now.today), name, id, gender, teacher, TimeText(now), "", "")
  }

  /** `_logWaitingEntry`'s row: today, the student, the hold notice. */
  function WaitingRow(today: int, name: string, id: string, gender: string, teacher: string, notice: string): Row
  {
    Row(Some(today), name, id, gender, teacher, "", "", notice)
  }

  /** The back-only row `_logBackEntry` appends when it finds no open out row. */
  function BackOnlyRow(now: Now, name: string, id: string, gender: string, teacher: string): Row
    requires ValidNow(now)
  {
    Row(Some(now.today), name, id, gender, teacher, "", TimeText(now), "")
  }

  /** A row of today for the student with a hold notice and neither time. */
  predicate IsWaitingRow(row: Row, today: int, name: string)
  {
    row.date == Some(today) && row.name == name && row.holdNotice != "" && row.outTime == "" && row.backTime == ""
  }

  /** A row of today for the student with an out time and no back time. */
  predicate IsOpenOutRow(row: Row, today: int, name: string)
  {
    row.date == Some(today) && row.name == name && row.outTime != "" && row.backTime == ""
  }

  /** The newest waiting row of the student, anywhere in the log. */
  function LastWaitingRow(rows: seq<Row>, today: int, name: string): (r: Option<nat>)
    ensures r.Some? ==> r.value < |rows| && IsWaitingRow(rows[r.value], today, name)
    ensures r.Some? ==> forall j :: r.value < j < |rows| ==> !IsWaitingRow(rows[j], today, name)
    ensures r.None? ==> forall j :: 0 <= j < |rows| ==> !IsWaitingRow(rows[j], today, name)
  {
    if rows == [] then None
    else if IsWaitingRow(rows[|rows| - 1], today, name) then Some(|rows| - 1)
    else LastWaitingRow(rows[..|rows| - 1], today, name)
  }

  /** The newest open out row of the student, anywhere in the log. */
  function LastOpenOutRow(rows: seq<Row>, today: int, name: string): (r: Option<nat>)
    ensures r.Some? ==> r.value < |rows| && IsOpenOutRow(rows[r.value], today, name)
    ensures r.Some? ==> forall j :: r.value < j < |rows| ==> !IsOpenOutRow(rows[j], today, name)
    ensures r.None? ==> forall j :: 0 <= j < |rows| ==> !IsOpenOutRow(rows[j], today, name)
  {
    if rows == [] then None
    else if IsOpenOutRow(rows[|rows| - 1], today, name) then Some(|rows| - 1)
    else LastOpenOutRow(rows[..|rows| - 1], today, name)
  }

  /**
   * The log after `_updateWaitingEntryToOut`: the newest waiting row gets the
   * out time and loses its hold notice; with none, an out row is appended.
   */
  function PromotedRows(rows: seq<Row>, now: Now, name: string, id: string, gender: string, teacher: string): seq<Row>
    requires ValidNow(now)
  {
    match LastWaitingRow(rows, now.today, name)
    case Some(k) => rows[k := rows[k].(outTime := TimeText(now), holdNotice := "")]
    case None => rows + [OutRow(now, name, id, gender, teacher)]
  }

  /**
   * The log after `_logBackEntry`: the newest open out row gets the back
   * time; with none, a back-only row is appended.
   */
  function ClosedRows(rows: seq<Row>, now: Now, name: string, id: string, gender: string, teacher: string): seq<Row>
    requires ValidNow(now)
  {
    match LastOpenOutRow(rows, now.today, name)
    case Some(k) => rows[k := rows[k].(backTime := TimeText(now))]
    case None => rows + [BackOnlyRow(now, name, id, gender, teacher)]
  }

  // ---------------------------------------------------------------------------
  // The out request

  /** What an out request does: promote the student's own waiting row, join the line, or go out. */
  datatype OutOutcome = Promote | JoinLine(position: nat) | GoOut

  /** The choice of the out request, from the status map it reads. */
  function OutDecision(status: map<string, Status>, name: string, gender: string): OutOutcome
  {
    if name in status && status[name].holdNotice != "" && status[name].outTime == "" then Promote
    else if LaneOccupied(status, gender) then JoinLine(|WaitingSet(status, gender)| + 1)
    else GoOut
  }

  /** The hold notice of a student who joins the line at `position`. */
  function WaitingNotice(position: nat): string
  {
    "Waiting in line. Position " + NatToString(position) + "."
  }

  /** The log after an out request. */
  function OutRows(rows: seq<Row>, now: Now, name: string, id: string, gender: string, teacher: string, faults: Faults): seq<Row>
    requires ValidNow(now)
  {
    match OutDecision(StatusOfLog(rows, now.today, faults), name, gender)
    case Promote => PromotedRows(rows, now, name, id, gender, teacher)
    case JoinLine(p) => rows + [WaitingRow(now.today, name, id, gender, teacher, WaitingNotice(p))]
    case GoOut => rows + [OutRow(now, name, id, gender, teacher)]
  }

  // ---------------------------------------------------------------------------
  // Request validation

  datatype RequestError =
    | NameRequired
    | TeacherRequired
    | GenderRequiredForOut
    | GenderNotGirlOrBoy
    | ActionUnknown
    | RosterUnavailable

  /** The checks of `updateStatus`, in its order. */
  function CheckRequest(name: string, action: string, teacher: string, gender: string): Option<RequestError>
  {
    if Blank(name) then Some(NameRequired)
    else if Blank(teacher) then Some(TeacherRequired)
    else if action == "out" && Blank(gender) then Some(GenderRequiredForOut)
    else if gender != "" && gender != "G" && gender != "B" then Some(GenderNotGirlOrBoy)
    else None
  }

  /** The checks of `api_updateStudentStatusOptimized`, in its order. */
  function CheckOptimizedRequest(name: string, action: string, teacher: string, gender: string): Option<RequestError>
  {
    if Blank(name) then Some(NameRequired)
    else if Blank(teacher) then Some(TeacherRequired)
    else if action != "out" && action != "back" && action != "hold" then Some(ActionUnknown)
    else if action == "out" && gender != "G" && gender != "B" then Some(GenderRequiredForOut)
    else None
  }

  /** The id of the first roster student with that name, or "". */
  function RosterId(roster: seq<Student>, name: string): (id: string)
    ensures (exists i :: 0 <= i < |roster| && roster[i].name == name) ==>
      exists i :: 0 <= i < |roster| && roster[i].name == name && id == roster[i].id &&
        forall j :: 0 <= j < i ==> roster[j].name != name
    ensures (forall i :: 0 <= i < |roster| ==> roster[i].name != name) ==> id == ""
  {
    if roster == [] then ""
    else if roster[0].name == name then roster[0].id
    else
      var id := RosterId(roster[1..], name);
      assert forall i :: 1 <= i < |roster| ==> roster[i] == roster[1..][i - 1];
      id
  }

  /** The log after a valid `updateStatus` request; actions other than out and back change nothing. */
  function UpdateRows(rows: seq<Row>, now: Now, name: string, action: string, teacher: string, gender: string,
                      roster: seq<Student>, faults: Faults): seq<Row>
    requires ValidNow(now)
  {
    var id := RosterId(roster, name);
    if action == "out" then OutRows(rows, now, name, id, gender, teacher, faults)
    else if action == "back" then ClosedRows(rows, now, name, id, gender, teacher)
    else rows
  }

  // ---------------------------------------------------------------------------
  // Batch updates

  datatype Update = Update(studentName: string, action: string, teacherName: string, gender: string, studentId: string, holdNotice: string)

  datatype BatchError = InvalidUpdate(update: Update) | UnknownAction(action: string, studentName: string)

  datatype BatchResult = BatchResult(successful: nat, failed: nat, errors: seq<BatchError>)

  /** The hold notice a batch hold row carries when the update gives none. */
  const DefaultHoldNotice := "Waiting in line"

  /** The row one batch update writes, or why it writes none. */
  function BatchRow(u: Update, now: Now): Result<Row, BatchError>
    requires ValidNow(now)
  {
    if u.studentName == "" || u.action == "" || u.teacherName == "" then Err(InvalidUpdate(u))
    else if u.action == "out" then Ok(OutRow(now, u.studentName, u.studentId, u.gender, u.teacherName))
    else if u.action == "back" then Ok(BackOnlyRow(now, u.studentName, u.studentId, u.gender, u.teacherName))
    else if u.action == "hold" then
      Ok(WaitingRow(now.today, u.studentName, u.studentId, u.gender, u.teacherName,
                    if u.holdNotice == "" then DefaultHoldNotice else u.holdNotice))
    else Err(UnknownAction(u.action, u.studentName))
  }

  /** The rows a batch writes, in update order. */
  function BatchRows(updates: seq<Update>, now: Now): seq<Row>
    requires ValidNow(now)
  {
    if updates == [] then []
    else
      var r := BatchRow(updates[|updates| - 1], now);
      BatchRows(updates[..|updates| - 1], now) + (if r.Ok? then [r.value] else [])
  }

  /** The errors a batch reports, in update order. */
  function BatchErrors(updates: seq<Update>, now: Now): seq<BatchError>
    requires ValidNow(now)
  {
    if updates == [] then []
    else
      var r := BatchRow(updates[|updates| - 1], now);
      BatchErrors(updates[..|updates| - 1], now) + (if r.Err? then [r.error] else [])
  }

  class Log {
    /** The data rows of the Log sheet, below its header row. */
    var rows: seq<Row>

    constructor(initial: seq<Row>)
      ensures rows == initial
    {
      rows := initial;
    }

    /**
     * `getTodaysLogEntries`: scan from the newest row back, skip rows
     * without a name, skip other dates until a row of today is found, and
     * stop at the first named row of another date after that.
     */
    method TodaysLogEntries(today: int) returns (entries: seq<Entry>)
      ensures entries == TodaysEntries(rows, today)
    {
      entries := [];
      ghost var last: nat := 0;
      var r: nat := |rows|;
      while r > 0
        invariant ScanSoFar(rows, today, r, last, entries)
      {
        var row := rows[r - 1];
        if !Named(row) {
          ScanSkipUnnamed(rows, today, r, last, entries);
          r := r - 1;
          continue;
        }
        if row.date != Some(today) {
          if entries != [] {
            break;
          }
          ScanSkipOther(rows, today, r, last);
          r := r - 1;
          continue;
        }
        ScanTake(rows, today, r, last, entries);
        last := if entries == [] then r - 1 else last;
        entries := [EntryOf(rows, r - 1)] + entries;
        r := r - 1;
      }
      ScanDone(rows, today, r, last, entries);
    }

    /** `_getStatusLookupMap` on the current rows. */
    method StatusLookupMap(today: int) returns (status: map<string, Status>)
      ensures status == StatusLookup(TodaysEntries(rows, today))
    {
      var entries := TodaysLogEntries(today);
      status := BuildStatusLookup(entries);
    }

    /**
     * `_getCurrentRestroomStatusFallback`: the same newest-first scan over
     * today's rows, where the first row that claims a student decides.
     */
    method CurrentRestroomStatusFallback(today: int) returns (status: map<string, Status>)
      ensures status == FallbackLookup(TodaysEntries(rows, today))
    {
      status := map[];
      ghost var entries: seq<Entry> := [];
      ghost var last: nat := 0;
      var found := 0;
      var r: nat := |rows|;
      while r > 0
        invariant ScanSoFar(rows, today, r, last, entries)
        invariant found == |entries|
        invariant status == FallbackLookup(entries)
      {
        var row := rows[r - 1];
        if !Named(row) {
          ScanSkipUnnamed(rows, today, r, last, entries);
          r := r - 1;
          continue;
        }
        if row.date != Some(today) {
          if found > 0 {
            break;
          }
          ScanSkipOther(rows, today, r, last);
          r := r - 1;
          continue;
        }
        var e := EntryOf(rows, r - 1);
        ScanTake(rows, today, r, last, entries);
        FallbackCons(e, entries);
        ghost var before := status;
        last := if entries == [] then r - 1 else last;
        entries := [e] + entries;
        found := found + 1;
        if row.name !in status {
          if row.backTime != "" {
          } else if row.outTime != "" {
            status := status[row.name := Status(row.gender, row.teacher, row.outTime, "", "")];
          } else if row.holdNotice != "" {
            status := status[row.name := Status(row.gender, row.teacher, "", "", row.holdNotice)];
          }
        }
        ClaimStep(before, status, e);
        r := r - 1;
      }
      ScanDone(rows, today, r, last, entries);
    }

    /** `_getCurrentRestroomStatus`: the primary map, the fallback when the monitor throws, or an empty map. */
    method CurrentRestroomStatus(today: int, faults: Faults) returns (status: map<string, Status>)
      ensures status == StatusOfLog(rows, today, faults)
    {
      if faults.monitorThrows {
        if faults.fallbackThrows {
          return map[];
        }
        status := CurrentRestroomStatusFallback(today);
      } else if faults.lookupThrows {
        return map[];
      } else {
        status := StatusLookupMap(today);
      }
    }

    /** `_checkOtherOut`: whether a student of that gender is out, per the status read now. */
    method CheckOtherOut(today: int, gender: string, faults: Faults) returns (occupied: bool)
      ensures occupied == LaneOccupied(StatusOfLog(rows, today, faults), gender)
    {
      var status := CurrentRestroomStatus(today, faults);
      occupied := ScanForOccupant(status, gender);
    }

    /** `_logOutEntry`: append an out row. */
    method LogOutEntry(now: Now, name: string, id: string, gender: string, teacher: string)
      requires ValidNow(now)
      modifies this
      ensures rows == old(rows) + [OutRow(now, name, id, gender, teacher)]
    {
      rows := rows + [Row(Some(now.today), name, id, gender, teacher, FormatTime(now.hour, now.minute), "", "")];
    }

    /** `_logWaitingEntry`: append a waiting row. */
    method LogWaitingEntry(today: int, name: string, id: string, gender: string, teacher: string, notice: string)
      modifies this
      ensures rows == old(rows) + [WaitingRow(today, name, id, gender, teacher, notice)]
    {
      rows := rows + [Row(Some(today), name, id, gender, teacher, "", "", notice)];
    }

    /** `_updateWaitingEntryToOut`: scan from the newest row for the student's waiting row. */
    method UpdateWaitingEntryToOut(now: Now, name: string, id: string, gender: string, teacher: string)
      requires ValidNow(now)
      modifies this
      ensures rows == PromotedRows(old(rows), now, name, id, gender, teacher)
    {
      var outText := FormatTime(now.hour, now.minute);
      var r := |rows|;
      while r > 0
        invariant 0 <= r <= |rows|
        invariant rows == old(rows)
        invariant forall j :: r <= j < |rows| ==> !IsWaitingRow(rows[j], now.today, name)
      {
        var row := rows[r - 1];
        if row.date == Some(now.today) && row.name == name && row.holdNotice != "" && row.outTime == "" && row.backTime == "" {
          rows := rows[r - 1 := row.(outTime := outText, holdNotice := "")];
          return;
        }
        r := r - 1;
      }
      LogOutEntry(now, name, id, gender, teacher);
    }

    /** `_logBackEntry`: scan from the newest row for the student's open out row. */
    method LogBackEntry(now: Now, name: string, id: string, gender: string, teacher: string)
      requires ValidNow(now)
      modifies this
      ensures rows == ClosedRows(old(rows), now, name, id, gender, teacher)
    {
      var backText := FormatTime(now.hour, now.minute);
      var r := |rows|;
      while r > 0
        invariant 0 <= r <= |rows|
        invariant rows == old(rows)
        invariant forall j :: r <= j < |rows| ==> !IsOpenOutRow(rows[j], now.today, name)
      {
        var row := rows[r - 1];
        if row.date == Some(now.today) && row.name == name && row.outTime != "" && row.backTime == "" {
          rows := rows[r - 1 := row.(backTime := backText)];
          return;
        }
        r := r - 1;
      }
      rows := rows + [Row(Some(now.today), name, id, gender, teacher, "", backText, "")];
    }

    /** The out branch shared by `updateStatus` and `api_updateStudentStatusOptimized`. */
    method RequestOut(now: Now, name: string, id: string, gender: string, teacher: string, faults: Faults)
      requires ValidNow(now)
      modifies this
      ensures rows == OutRows(old(rows), now, name, id, gender, teacher, faults)
    {
      var status := CurrentRestroomStatus(now.today, faults);
      if name in status && status[name].holdNotice != "" && status[name].outTime == "" {
        UpdateWaitingEntryToOut(now, name, id, gender, teacher);
      } else {
        var otherOut := CheckOtherOut(now.today, gender, faults);
        if otherOut {
          var waitingCount := CountWaiting(status, gender);
          LogWaitingEntry(now.today, name, id, gender, teacher, WaitingNotice(waitingCount + 1));
        } else {
          LogOutEntry(now, name, id, gender, teacher);
        }
      }
    }

    /**
     * `updateStatus`: validate, look the student's id up in the roster
     * (`None` when the daily sheet or its roster cannot be read), then
     * handle out or back; any other action writes nothing.
     */
    method UpdateStatus(now: Now, name: string, action: string, teacher: string, gender: string,
                        roster: Option<seq<Student>>, faults: Faults) returns (error: Option<RequestError>)
      requires ValidNow(now)
      modifies this
      ensures error == (if CheckRequest(name, action, teacher, gender).Some? then CheckRequest(name, action, teacher, gender)
                        else if roster.None? then Some(RosterUnavailable) else None)
      ensures error.None? ==> rows == UpdateRows(old(rows), now, name, action, teacher, gender, roster.value, faults)
      ensures error.Some? ==> rows == old(rows)
    {
      error := CheckRequest(name, action, teacher, gender);
      if error.Some? {
        return;
      }
      if roster.None? {
        return Some(RosterUnavailable);
      }
      var id := RosterId(roster.value, name);
      if action == "out" {
        RequestOut(now, name, id, gender, teacher, faults);
      } else if action == "back" {
        LogBackEntry(now, name, id, gender, teacher);
      }
    }

    /**
     * `batchUpdateLogs`: build one row per valid update, count successes
     * and failures, and append all rows at once.
     */
    method BatchUpdateLogs(updates: seq<Update>, now: Now) returns (result: BatchResult)
      requires ValidNow(now)
      modifies this
      ensures rows == old(rows) + BatchRows(updates, now)
      ensures result == BatchResult(|BatchRows(updates, now)|, |BatchErrors(updates, now)|, BatchErrors(updates, now))
    {
      var batch: seq<Row> := [];
      result := BatchResult(0, 0, []);
      for i := 0 to |updates|
        invariant batch == BatchRows(updates[..i], now)
        invariant result == BatchResult(|batch|, |BatchErrors(updates[..i], now)|, BatchErrors(updates[..i], now))
      {
        assert updates[..i + 1][..i] == updates[..i];
        var u := updates[i];
        if u.studentName == "" || u.action == "" || u.teacherName == "" {
          result := result.(failed := result.failed + 1, errors := result.errors + [InvalidUpdate(u)]);
          continue;
        }
        var row: Row;
        if u.action == "out" {
          row := OutRow(now, u.studentName, u.studentId, u.gender, u.teacherName);
        } else if u.action == "back" {
          row := BackOnlyRow(now, u.studentName, u.studentId, u.gender, u.teacherName);
        } else if u.action == "hold" {
          var notice := if u.holdNotice == "" then DefaultHoldNotice else u.holdNotice;
          row := WaitingRow(now.today, u.studentName, u.studentId, u.gender, u.teacherName, notice);
        } else {
          result := result.(failed := result.failed + 1, errors := result.errors + [UnknownAction(u.action, u.studentName)]);
          continue;
        }
        batch := batch + [row];
        result := result.(successful := result.successful + 1);
      }
      assert updates[..|updates|] == updates;
      if |batch| > 0 {
        rows := rows + batch;
      }
    }

    /**
     * `api_updateStudentStatusOptimized`: its own validation, the id from
     * the cached roster, then out as in `updateStatus`, back through
     * `_logBackEntry`, and hold through a one-update batch.
     */
    method UpdateStudentStatusOptimized(now: Now, name: string, action: string, teacher: string, gender: string,
                                        roster: seq<Student>, faults: Faults) returns (error: Option<RequestError>)
      requires ValidNow(now)
      modifies this
      ensures error == CheckOptimizedRequest(name, action, teacher, gender)
      ensures error.Some? ==> rows == old(rows)
      ensures error.None? && action == "out" ==>
        rows == OutRows(old(rows), now, name, RosterId(roster, name), gender, teacher, faults)
      ensures error.None? && action == "back" ==>
        rows == ClosedRows(old(rows), now, name, RosterId(roster, name), gender, teacher)
      ensures error.None? && action == "hold" ==>
        rows == old(rows) + [WaitingRow(now.today, name, RosterId(roster, name), gender, teacher, DefaultHoldNotice)]
    {
      error := CheckOptimizedRequest(name, action, teacher, gender);
      if error.Some? {
        return;
      }
      var id := RosterId(roster, name);
      if action == "out" {
        RequestOut(now, name, id, gender, teacher, faults);
      } else if action == "back" {
        LogBackEntry(now, name, id, gender, teacher);
      } else {
        var u := Update(name, action, teacher, gender, id, "");
        assert [u][..0] == [];
        var result := BatchUpdateLogs([u], now);
      }
    }
  }
}
