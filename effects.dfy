/**
 * What the writers do to the derived statuses: the rows they append or
 * overwrite, read back through today's entries and the two derivations.
 */
module Effects {
  import opened Basics
  import opened Text
  import opened Clock
  import opened LogRows
  import opened Statuses
  import opened LogSheet

  /** The formatted time is never empty, so a written time always counts as present. */
  lemma TimeTextPresent(now: Now)
    requires ValidNow(now)
    ensures TimeText(now) != ""
  {
  }

  /** A student's entries after a today row of theirs is appended. */
  lemma AppendedEntries(rows: seq<Row>, today: int, row: Row, name: string)
    requires TodayRow(row, today)
    ensures var es := TodaysEntries(rows + [row], today);
      var prefix := if RunOpen(rows, today) then TodaysEntries(rows, today) else [];
      EntriesFor(es, name) == EntriesFor(prefix, name) + (if row.name == name then [EntryOf(rows + [row], |rows|)] else [])
  {
    AppendTodayRow(rows, today, row);
    var prefix := if RunOpen(rows, today) then TodaysEntries(rows, today) else [];
    EntriesForSnoc(prefix, EntryOf(rows + [row], |rows|), name);
  }

  /**
   * After `_logOutEntry`, the student is Out in both derivations with the
   * written out time; the fallback reports the row's gender and teacher.
   */
  lemma OutRowMakesOut(rows: seq<Row>, now: Now, name: string, id: string, gender: string, teacher: string)
    requires ValidNow(now) && name != ""
    ensures var es := TodaysEntries(rows + [OutRow(now, name, id, gender, teacher)], now.today);
      && name in StatusLookup(es) && IsOut(StatusLookup(es)[name])
      && StatusLookup(es)[name].outTime == TimeText(now)
      && (gender != "" ==> StatusLookup(es)[name].gender == gender)
      && name in FallbackLookup(es) && FallbackLookup(es)[name] == Status(gender, teacher, TimeText(now), "", "")
  {
    var row := OutRow(now, name, id, gender, teacher);
    var es := TodaysEntries(rows + [row], now.today);
    AppendedEntries(rows, now.today, row, name);
    var s := EntriesFor(es, name);
    var e := EntryOf(rows + [row], |rows|);
    assert s[|s| - 1] == e;
    TimeTextPresent(now);
    AgreeOnOpenTrip(es, name);
    FoldDecides(s);
    ClaimDecides(s, |s| - 1);
    FallbackHas(es, name, ClaimStatus(e));
  }

  /** A student with a derived status has entries today. */
  lemma StatusNeedsEntries(es: seq<Entry>, n: string)
    requires StudentStatus(es, n).Some?
    ensures n in Names(es)
  {
    var s := EntriesFor(es, n);
    EntriesForMembers(es, n);
    assert s[0] in s;
  }

  /** Appending a row for one student leaves every other student's status as the run's prefix gives it. */
  lemma OtherStudentAfterAppend(rows: seq<Row>, today: int, row: Row, n: string)
    requires TodayRow(row, today) && n != row.name
    ensures StudentStatus(TodaysEntries(rows + [row], today), n) ==
      (if RunOpen(rows, today) then StudentStatus(TodaysEntries(rows, today), n) else None)
  {
    var prefix := if RunOpen(rows, today) then TodaysEntries(rows, today) else [];
    AppendedEntries(rows, today, row, n);
    assert EntriesFor(TodaysEntries(rows + [row], today), n) == EntriesFor(prefix, n) + [];
    assert EntriesFor(prefix, n) + [] == EntriesFor(prefix, n);
    if !RunOpen(rows, today) {
      assert EntriesFor(prefix, n) == [];
      assert Decide(Fold([])) == None;
    }
  }

  /**
   * The lane stays exclusive on a normal out: when the primary map shows
   * nobody of that gender out and the student goes out, afterwards the
   * student is the one and only occupant of that lane.
   */
  lemma GoOutHoldsLane(rows: seq<Row>, now: Now, name: string, id: string, gender: string, teacher: string)
    requires ValidNow(now) && name != "" && gender != ""
    requires !LaneOccupied(StatusLookup(TodaysEntries(rows, now.today)), gender)
    ensures var m := StatusLookup(TodaysEntries(rows + [OutRow(now, name, id, gender, teacher)], now.today));
      && LaneOccupied(m, gender)
      && forall n :: n in m && m[n].gender == gender && m[n].outTime != "" && m[n].backTime == "" ==> n == name
  {
    var row := OutRow(now, name, id, gender, teacher);
    var es := TodaysEntries(rows, now.today);
    var es' := TodaysEntries(rows + [row], now.today);
    var m' := StatusLookup(es');
    OutRowMakesOut(rows, now, name, id, gender, teacher);
    assert m'[name].gender == gender;
    forall n | n in m' && m'[n].gender == gender && m'[n].outTime != "" && m'[n].backTime == ""
      ensures n == name
    {
      if n != name {
        OtherStudentAfterAppend(rows, now.today, row, n);
        OtherStillOccupies(es, n, m'[n], gender);
      }
    }
  }

  /** A student whose derived status occupies a lane makes the lane occupied. */
  lemma OtherStillOccupies(es: seq<Entry>, n: string, st: Status, gender: string)
    requires StudentStatus(es, n) == Some(st)
    requires st.gender == gender && st.outTime != "" && st.backTime == ""
    ensures LaneOccupied(StatusLookup(es), gender)
  {
    StatusNeedsEntries(es, n);
    assert n in StatusLookup(es);
  }

  /**
   * After `_logWaitingEntry` for a student with no out row today, the
   * student is Waiting with the new notice in both derivations.
   */
  lemma WaitingRowQueues(rows: seq<Row>, today: int, name: string, id: string, gender: string, teacher: string, notice: string)
    requires name != "" && notice != ""
    requires forall e :: e in EntriesFor(TodaysEntries(rows, today), name) ==> e.outTime == ""
    ensures var es := TodaysEntries(rows + [WaitingRow(today, name, id, gender, teacher, notice)], today);
      && name in StatusLookup(es) && IsWaiting(StatusLookup(es)[name])
      && StatusLookup(es)[name].holdNotice == notice
      && name in FallbackLookup(es) && FallbackLookup(es)[name] == Status(gender, teacher, "", "", notice)
  {
    var row := WaitingRow(today, name, id, gender, teacher, notice);
    var es := TodaysEntries(rows + [row], today);
    var prefix := if RunOpen(rows, today) then TodaysEntries(rows, today) else [];
    AppendedEntries(rows, today, row, name);
    var s := EntriesFor(es, name);
    var e := EntryOf(rows + [row], |rows|);
    var p := EntriesFor(prefix, name);
    assert s == p + [e];
    EntriesForMembers(prefix, name);
    NoOutAfterSnoc(p, e);
    QueuedLast(es, name, e);
  }

  lemma NoOutAfterSnoc(p: seq<Entry>, e: Entry)
    requires forall x :: x in p ==> x.outTime == ""
    requires e.outTime == ""
    ensures forall j :: 0 <= j < |p + [e]| ==> (p + [e])[j].outTime == ""
  {
    forall j | 0 <= j < |p + [e]| ensures (p + [e])[j].outTime == "" {
      if j < |p| {
        assert (p + [e])[j] == p[j] && p[j] in p;
      }
    }
  }

  /** A student without out times whose newest entry holds a notice waits, in both derivations. */
  lemma QueuedLast(es: seq<Entry>, name: string, e: Entry)
    requires var s := EntriesFor(es, name); s != [] && s[|s| - 1] == e
    requires forall j :: 0 <= j < |EntriesFor(es, name)| ==> EntriesFor(es, name)[j].outTime == ""
    requires e.holdNotice != "" && e.backTime == ""
    ensures name in StatusLookup(es) && IsWaiting(StatusLookup(es)[name])
    ensures StatusLookup(es)[name].holdNotice == e.holdNotice
    ensures name in FallbackLookup(es) && FallbackLookup(es)[name] == ClaimStatus(e)
  {
    var s := EntriesFor(es, name);
    FoldDecides(s);
    StatusNeedsEntries(es, name);
    PrimaryHas(es, name);
    ClaimDecides(s, |s| - 1);
    FallbackHas(es, name, ClaimStatus(e));
  }

  /**
   * After the back-only row `_logBackEntry` appends, a student who had an
   * out row today is no longer in the primary map.
   */
  lemma BackOnlyRowEndsTrip(rows: seq<Row>, now: Now, name: string, id: string, gender: string, teacher: string)
    requires ValidNow(now) && name != ""
    requires exists e :: e in EntriesFor(TodaysEntries(rows, now.today), name) && e.outTime != ""
    ensures name !in StatusLookup(TodaysEntries(rows + [BackOnlyRow(now, name, id, gender, teacher)], now.today))
  {
    var row := BackOnlyRow(now, name, id, gender, teacher);
    var es := TodaysEntries(rows + [row], now.today);
    AppendedEntries(rows, now.today, row, name);
    var s := EntriesFor(es, name);
    var e := EntryOf(rows + [row], |rows|);
    TimeTextPresent(now);
    if RunOpen(rows, now.today) {
      var p := EntriesFor(TodaysEntries(rows, now.today), name);
      assert s == p + [e];
      var o :| o in p && o.outTime != "";
      var i :| 0 <= i < |p| && p[i] == o;
      assert s[..|s| - 1] == p;
      assert LastOut(s) == LastOut(p);
      var k := LastOut(p).value;
      assert s[|s| - 1].backTime != "";
      assert BackSince(s, k);
    } else {
      assert s == [e];
      assert LastOut(s) == None;
      assert s[..0] == [];
      assert LastHold(s) == "";
    }
    FoldDecides(s);
  }

  /** The two request handlers accept exactly the same out requests. */
  lemma ValidationsAgreeOnOut(name: string, teacher: string, gender: string)
    ensures CheckRequest(name, "out", teacher, gender).None? <==> CheckOptimizedRequest(name, "out", teacher, gender).None?
  {
    if gender == "G" || gender == "B" {
      assert !IsSpace(gender[0]);
    }
  }

  /**
   * They differ on back: `updateStatus` refuses a back request exactly when
   * a gender other than G or B is given, while the optimized handler
   * accepts every back request with a name and a teacher, whatever the
   * gender.
   */
  lemma BackGenderOnlyCheckedByUpdateStatus(name: string, teacher: string, gender: string)
    requires !Blank(name) && !Blank(teacher)
    ensures CheckRequest(name, "back", teacher, gender).Some? <==> gender != "" && gender != "G" && gender != "B"
    ensures CheckRequest(name, "back", teacher, gender).Some? ==> CheckRequest(name, "back", teacher, gender) == Some(GenderNotGirlOrBoy)
    ensures CheckOptimizedRequest(name, "back", teacher, gender) == None
  {
  }

  /** Every update of a batch is either written or reported, never both. */
  lemma {:induction false} BatchAccounts(updates: seq<Update>, now: Now)
    requires ValidNow(now)
    ensures |BatchRows(updates, now)| + |BatchErrors(updates, now)| == |updates|
  {
    if updates != [] {
      BatchAccounts(updates[..|updates| - 1], now);
    }
  }

  /** Every row a batch writes is a row of today for a named student, so it joins today's run. */
  lemma {:induction false} BatchRowsAreToday(updates: seq<Update>, now: Now)
    requires ValidNow(now)
    ensures forall r :: r in BatchRows(updates, now) ==> TodayRow(r, now.today)
  {
    if updates != [] {
      BatchRowsAreToday(updates[..|updates| - 1], now);
    }
  }

  // ---------------------------------------------------------------------------
  // Writers that overwrite a row in place

  /** A student's entries split around one position of the run, before and after that entry is replaced. */
  lemma EntriesForReplace(es: seq<Entry>, t: nat, e': Entry, name: string)
    requires t < |es| && e'.name == es[t].name
    ensures EntriesFor(es, name) ==
      EntriesFor(es[..t], name) + (if e'.name == name then [es[t]] else []) + EntriesFor(es[t + 1..], name)
    ensures EntriesFor(es[t := e'], name) ==
      EntriesFor(es[..t], name) + (if e'.name == name then [e'] else []) + EntriesFor(es[t + 1..], name)
  {
    assert es == es[..t] + [es[t]] + es[t + 1..];
    assert es[t := e'] == es[..t] + [e'] + es[t + 1..];
    EntriesForAppend(es[..t] + [es[t]], es[t + 1..], name);
    EntriesForAppend(es[..t], [es[t]], name);
    EntriesForAppend(es[..t] + [e'], es[t + 1..], name);
    EntriesForAppend(es[..t], [e'], name);
    assert EntriesFor([es[t]][1..], name) == [];
    assert EntriesFor([e'][1..], name) == [];
  }

  /** A today row at or below one of today's entries is itself one of today's entries. */
  lemma InRun(rows: seq<Row>, today: int, h: Entry, k: nat)
    requires h in TodaysEntries(rows, today)
    requires h.rowIndex <= k < |rows| && TodayRow(rows[k], today)
    ensures EntryOf(rows, k) in TodaysEntries(rows, today)
  {
    TodaysShape(rows, today);
    var es := TodaysEntries(rows, today);
    TodaysEntriesAreTheRun(rows, today);
    FirstIsLowest(es, h);
  }

  /** Overwriting a row of the run (same date and name) replaces its entry and nothing else. */
  lemma ReplacedInRun(rows: seq<Row>, today: int, k: nat, row: Row) returns (t: nat)
    requires k < |rows| && SameDateAndName(rows[k], row)
    requires EntryOf(rows, k) in TodaysEntries(rows, today)
    ensures var es := TodaysEntries(rows, today);
      && t < |es| && es[t] == EntryOf(rows, k)
      && TodaysEntries(rows[k := row], today) == es[t := EntryOf(rows[k := row], k)]
  {
    TodaysShape(rows, today);
    TodaysShape(rows[k := row], today);
    var es := TodaysEntries(rows, today);
    var es' := TodaysEntries(rows[k := row], today);
    t :| 0 <= t < |es| && es[t] == EntryOf(rows, k);
    ReplaceRowKeepsRun(rows, today, k, row);
    assert es'[t].rowIndex == k;
    assert es' == es[t := EntryOf(rows[k := row], k)];
  }

  /** Entries after a given position of the run sit on later rows. */
  lemma LaterInRun(es: seq<Entry>, t: nat, name: string)
    requires t < |es|
    requires forall a, b :: 0 <= a < b < |es| ==> es[a].rowIndex < es[b].rowIndex
    ensures forall e :: e in EntriesFor(es[t + 1..], name) ==> e in es && e.name == name && e.rowIndex > es[t].rowIndex
  {
    EntriesForMembers(es[t + 1..], name);
  }

  /** An out entry with no out time and no back time around it decides Out with its time. */
  lemma OutAfterReplace(a: seq<Entry>, o: Entry, b: seq<Entry>)
    requires o.outTime != "" && o.backTime == ""
    requires forall e :: e in a + b ==> e.outTime == "" && e.backTime == ""
    ensures var s := a + [o] + b;
      && Decide(Fold(s)) == Some(Status(LastGender(s), LastTeacher(s), o.outTime, "", ""))
  {
    var s := a + [o] + b;
    assert forall j :: 0 <= j < |a| ==> s[j] == a[j] && a[j] in a + b;
    assert forall j :: |a| < j < |s| ==> s[j] == b[j - |a| - 1] && b[j - |a| - 1] in a + b;
    assert s[|a|] == o;
    FoldDecides(s);
  }

  /** A closed out entry followed only by closed out entries leaves no status. */
  lemma NoneAfterClose(a: seq<Entry>, o: Entry, b: seq<Entry>)
    requires o.outTime != "" && o.backTime != ""
    requires forall e :: e in b && e.outTime != "" ==> e.backTime != ""
    ensures Decide(Fold(a + [o] + b)) == None
  {
    var s := a + [o] + b;
    assert s[|a|] == o;
    assert forall j :: |a| < j < |s| ==> s[j] == b[j - |a| - 1] && b[j - |a| - 1] in b;
    FoldDecides(s);
    var v := LastOut(s).value;
    assert BackSince(s, v) by {
      if v == |a| {
        assert s[|a|].backTime != "";
      } else {
        assert s[v].backTime != "";
      }
    }
  }

  /** Each of today's entries mirrors the cells of its row. */
  lemma EntryRow(rows: seq<Row>, today: int, e: Entry)
    requires e in TodaysEntries(rows, today)
    ensures e.rowIndex < |rows| && TodayRow(rows[e.rowIndex], today)
    ensures var r := rows[e.rowIndex];
      r.name == e.name && r.outTime == e.outTime && r.backTime == e.backTime && r.holdNotice == e.holdNotice
  {
    TodaysShape(rows, today);
    var es := TodaysEntries(rows, today);
    var w :| 0 <= w < |es| && es[w] == e;
  }

  /** Each of a student's entries today mirrors the cells of a today row carrying the student's name. */
  lemma StudentEntryRow(rows: seq<Row>, today: int, name: string, e: Entry)
    requires e in EntriesFor(TodaysEntries(rows, today), name)
    ensures e in TodaysEntries(rows, today)
    ensures e.rowIndex < |rows| && TodayRow(rows[e.rowIndex], today)
    ensures var r := rows[e.rowIndex];
      r.name == name && r.outTime == e.outTime && r.backTime == e.backTime && r.holdNotice == e.holdNotice
  {
    EntriesForMembers(TodaysEntries(rows, today), name);
    EntryRow(rows, today, e);
  }

  /** A Waiting student has no out time today and some hold notice. */
  lemma WaitingShape(es: seq<Entry>, name: string)
    requires name in StatusLookup(es) && IsWaiting(StatusLookup(es)[name])
    ensures LastOut(EntriesFor(es, name)).None?
    ensures exists j :: 0 <= j < |EntriesFor(es, name)| && EntriesFor(es, name)[j].holdNotice != ""
  {
    var s := EntriesFor(es, name);
    assert StudentStatus(es, name) == Some(StatusLookup(es)[name]);
    FoldDecides(s);
  }

  /** The newest waiting row of a Waiting student lies in today's run. */
  lemma WaitingRowInRun(rows: seq<Row>, today: int, name: string) returns (k: nat)
    requires var es := TodaysEntries(rows, today); name in StatusLookup(es) && IsWaiting(StatusLookup(es)[name])
    requires forall e :: e in EntriesFor(TodaysEntries(rows, today), name) ==> e.backTime == ""
    ensures LastWaitingRow(rows, today, name) == Some(k)
    ensures EntryOf(rows, k) in TodaysEntries(rows, today)
    ensures forall e :: e in EntriesFor(TodaysEntries(rows, today), name) ==> e.outTime == ""
  {
    var es := TodaysEntries(rows, today);
    var s := EntriesFor(es, name);
    WaitingShape(es, name);
    var j :| 0 <= j < |s| && s[j].holdNotice != "";
    var h := s[j];
    assert h in s;
    StudentEntryRow(rows, today, name, h);
    assert IsWaitingRow(rows[h.rowIndex], today, name);
    WaitingRowExists(rows, today, name, h.rowIndex);
    k := LastWaitingRow(rows, today, name).value;
    InRun(rows, today, h, k);
    NoOutMembers(s);
  }

  lemma WaitingRowExists(rows: seq<Row>, today: int, name: string, i: nat)
    requires i < |rows| && IsWaitingRow(rows[i], today, name)
    ensures LastWaitingRow(rows, today, name).Some? && i <= LastWaitingRow(rows, today, name).value
  {
  }

  lemma NoOutMembers(s: seq<Entry>)
    requires LastOut(s).None?
    ensures forall e :: e in s ==> e.outTime == ""
  {
    forall e | e in s ensures e.outTime == "" {
      var i :| 0 <= i < |s| && s[i] == e;
    }
  }

  /**
   * The promoted student's entries: the overwritten waiting entry, now
   * carrying the out time, between older entries and newer ones, none of
   * which has an out time, a back time, or (for the newer) a claim.
   */
  lemma PromotedSplit(rows: seq<Row>, now: Now, name: string, id: string, gender: string, teacher: string)
    returns (a: seq<Entry>, o: Entry, b: seq<Entry>)
    requires ValidNow(now)
    requires var es := TodaysEntries(rows, now.today); name in StatusLookup(es) && IsWaiting(StatusLookup(es)[name])
    requires forall e :: e in EntriesFor(TodaysEntries(rows, now.today), name) ==> e.backTime == ""
    ensures var es' := TodaysEntries(PromotedRows(rows, now, name, id, gender, teacher), now.today);
      && EntriesFor(es', name) == a + [o] + b
      && o in es' && o.name == name
    ensures o.outTime == TimeText(now) && o.backTime == ""
    ensures forall e :: e in a + b ==> e.outTime == "" && e.backTime == ""
    ensures forall e :: e in b ==> !Claims(e)
  {
    var today := now.today;
    var es := TodaysEntries(rows, today);
    var k := WaitingRowInRun(rows, today, name);
    var row := rows[k].(outTime := TimeText(now), holdNotice := "");
    var rows' := rows[k := row];
    assert PromotedRows(rows, now, name, id, gender, teacher) == rows';
    var t := ReplacedInRun(rows, today, k, row);
    o := EntryOf(rows', k);
    assert o.name == name;
    EntriesForReplace(es, t, o, name);
    a, b := EntriesFor(es[..t], name), EntriesFor(es[t + 1..], name);
    SplitMembers(es, t, name);
    LaterNoClaims(rows, today, name, k, t);
    var es' := TodaysEntries(rows', today);
    assert es'[t] == o;
    assert EntriesFor(es', name) == a + [o] + b;
    forall e | e in a + b ensures e.outTime == "" && e.backTime == "" {
      assert e in EntriesFor(es, name);
    }
  }

  /** The entries of a student before and after a position are entries of the student. */
  lemma SplitMembers(es: seq<Entry>, t: nat, name: string)
    requires t < |es|
    ensures forall e :: e in EntriesFor(es[..t], name) + EntriesFor(es[t + 1..], name) ==> e in EntriesFor(es, name)
  {
    EntriesForMembers(es, name);
    EntriesForMembers(es[..t], name);
    EntriesForMembers(es[t + 1..], name);
    forall e | e in EntriesFor(es[..t], name) + EntriesFor(es[t + 1..], name) ensures e in es {
      if e in es[..t] {
        var i :| 0 <= i < t && es[..t][i] == e;
        assert es[i] == e;
      }
    }
  }

  /** Below the newest waiting row, a student with no out or back time today has no claiming entry. */
  lemma LaterNoClaims(rows: seq<Row>, today: int, name: string, k: nat, t: nat)
    requires LastWaitingRow(rows, today, name) == Some(k)
    requires var es := TodaysEntries(rows, today); t < |es| && es[t].rowIndex == k
    requires forall e :: e in EntriesFor(TodaysEntries(rows, today), name) ==> e.outTime == "" && e.backTime == ""
    ensures forall e :: e in EntriesFor(TodaysEntries(rows, today)[t + 1..], name) ==> !Claims(e)
  {
    TodaysShape(rows, today);
    var es := TodaysEntries(rows, today);
    LaterInRun(es, t, name);
    forall e | e in EntriesFor(es[t + 1..], name) ensures !Claims(e) {
      StudentOf(es, name, e);
      NoLaterWaiting(rows, today, name, k, e);
    }
  }

  /** An entry of the run carrying the student's name is one of the student's entries. */
  lemma StudentOf(es: seq<Entry>, name: string, e: Entry)
    requires e in es && e.name == name
    ensures e in EntriesFor(es, name)
  {
    EntriesForMembers(es, name);
  }

  /** A queued entry of the student below the newest waiting row would itself be a newer waiting row. */
  lemma NoLaterWaiting(rows: seq<Row>, today: int, name: string, k: nat, e: Entry)
    requires LastWaitingRow(rows, today, name) == Some(k)
    requires e in EntriesFor(TodaysEntries(rows, today), name) && e.rowIndex > k
    requires e.outTime == "" && e.backTime == ""
    ensures !Claims(e)
  {
    StudentEntryRow(rows, today, name, e);
    assert !IsWaitingRow(rows[e.rowIndex], today, name);
  }

  /**
   * Promotion in place: `_updateWaitingEntryToOut` on a Waiting student with
   * no back time today makes the student Out with the promotion time, in
   * both derivations.
   */
  lemma PromoteMakesOut(rows: seq<Row>, now: Now, name: string, id: string, gender: string, teacher: string)
    requires ValidNow(now)
    requires var es := TodaysEntries(rows, now.today); name in StatusLookup(es) && IsWaiting(StatusLookup(es)[name])
    requires forall e :: e in EntriesFor(TodaysEntries(rows, now.today), name) ==> e.backTime == ""
    ensures var es' := TodaysEntries(PromotedRows(rows, now, name, id, gender, teacher), now.today);
      && name in StatusLookup(es') && IsOut(StatusLookup(es')[name])
      && StatusLookup(es')[name].outTime == TimeText(now)
      && name in FallbackLookup(es') && IsOut(FallbackLookup(es')[name])
      && FallbackLookup(es')[name].outTime == TimeText(now)
  {
    var es' := TodaysEntries(PromotedRows(rows, now, name, id, gender, teacher), now.today);
    var a, o, b := PromotedSplit(rows, now, name, id, gender, teacher);
    TimeTextPresent(now);
    OutViaSplit(es', name, a, o, b);
  }

  /** A student whose only out entry is open and is the newest claim is Out with its time in both derivations. */
  lemma OutViaSplit(es: seq<Entry>, name: string, a: seq<Entry>, o: Entry, b: seq<Entry>)
    requires EntriesFor(es, name) == a + [o] + b && o in es && o.name == name
    requires o.outTime != "" && o.backTime == ""
    requires forall e :: e in a + b ==> e.outTime == "" && e.backTime == ""
    requires forall e :: e in b ==> !Claims(e)
    ensures name in StatusLookup(es) && IsOut(StatusLookup(es)[name]) && StatusLookup(es)[name].outTime == o.outTime
    ensures name in FallbackLookup(es) && IsOut(FallbackLookup(es)[name]) && FallbackLookup(es)[name].outTime == o.outTime
  {
    OutAfterReplace(a, o, b);
    PrimaryOut(es, name, o, a + [o] + b);
    FallbackClaim(es, name, a, o, b);
  }

  /** A claiming entry followed by no claiming entry of the student decides the fallback map. */
  lemma FallbackClaim(es: seq<Entry>, name: string, a: seq<Entry>, o: Entry, b: seq<Entry>)
    requires EntriesFor(es, name) == a + [o] + b
    requires Claims(o) && forall e :: e in b ==> !Claims(e)
    ensures name in FallbackLookup(es) && FallbackLookup(es)[name] == ClaimStatus(o)
  {
    var s := a + [o] + b;
    assert s[|a|] == o;
    forall j | |a| < j < |s| ensures !Claims(s[j]) {
      assert s[j] == b[j - |a| - 1];
      assert s[j] in b;
    }
    ClaimDecides(s, |a|);
    FallbackHas(es, name, ClaimStatus(o));
  }

  /** The primary map holds an Out status for a student whose fold decides Out. */
  lemma PrimaryOut(es: seq<Entry>, name: string, o: Entry, s: seq<Entry>)
    requires EntriesFor(es, name) == s && o in es && o.name == name
    requires Decide(Fold(s)) == Some(Status(LastGender(s), LastTeacher(s), o.outTime, "", ""))
    requires o.outTime != ""
    ensures name in StatusLookup(es) && IsOut(StatusLookup(es)[name]) && StatusLookup(es)[name].outTime == o.outTime
  {
    assert o.name in Names(es);
    PrimaryHas(es, name);
  }

  /**
   * Back in place: `_logBackEntry` for a student who is Out closes the
   * student's newest open out row, and the student leaves the primary map.
   */
  lemma BackFreesOutStudent(rows: seq<Row>, now: Now, name: string, id: string, gender: string, teacher: string)
    requires ValidNow(now)
    requires var es := TodaysEntries(rows, now.today); name in StatusLookup(es) && IsOut(StatusLookup(es)[name])
    ensures name !in StatusLookup(TodaysEntries(ClosedRows(rows, now, name, id, gender, teacher), now.today))
  {
    var today := now.today;
    var es := TodaysEntries(rows, today);
    var s := EntriesFor(es, name);
    FoldDecides(s);
    var u := LastOut(s).value;
    var h := s[u];
    EntriesForMembers(es, name);
    assert h in es && h.name == name;
    EntryRow(rows, today, h);
    assert IsOpenOutRow(rows[h.rowIndex], today, name);
    var k := LastOpenOutRow(rows, today, name).value;
    InRun(rows, today, h, k);
    var row := rows[k].(backTime := TimeText(now));
    var rows' := rows[k := row];
    assert ClosedRows(rows, now, name, id, gender, teacher) == rows';
    var t := ReplacedInRun(rows, today, k, row);
    var es' := TodaysEntries(rows', today);
    var o' := EntryOf(rows', k);
    EntriesForReplace(es, t, o', name);
    var a, b := EntriesFor(es[..t], name), EntriesFor(es[t + 1..], name);
    assert EntriesFor(es', name) == a + [o'] + b;
    TimeTextPresent(now);
    TodaysShape(rows, today);
    LaterInRun(es, t, name);
    forall e: Entry | e in b && e.outTime != "" ensures e.backTime != "" {
      EntryRow(rows, today, e);
      assert !IsOpenOutRow(rows[e.rowIndex], today, name);
    }
    NoneAfterClose(a, o', b);
  }

  // ---------------------------------------------------------------------------
  // What a writer does to the other students

  /** A student has the same status in both maps over two lists of entries. */
  predicate SameStatuses(es: seq<Entry>, es': seq<Entry>, n: string)
  {
    && (n in StatusLookup(es') <==> n in StatusLookup(es))
    && (n in StatusLookup(es) ==> StatusLookup(es')[n] == StatusLookup(es)[n])
    && (n in FallbackLookup(es') <==> n in FallbackLookup(es))
    && (n in FallbackLookup(es) ==> FallbackLookup(es')[n] == FallbackLookup(es)[n])
  }

  /** Both derivations decide a student from that student's entries alone. */
  lemma SameGroupSameStatus(es: seq<Entry>, es': seq<Entry>, n: string)
    requires EntriesFor(es', n) == EntriesFor(es, n)
    ensures SameStatuses(es, es', n)
  {
    if StudentStatus(es, n).Some? {
      StatusNeedsEntries(es, n);
      StatusNeedsEntries(es', n);
    }
    FallbackPerStudent(es, n);
    FallbackPerStudent(es', n);
  }

  /** Entries that agree on every name, and on every entry of one student, give that student the same entries. */
  lemma {:induction false} EntriesForPointwise(es: seq<Entry>, es': seq<Entry>, n: string)
    requires |es'| == |es|
    requires forall t :: 0 <= t < |es| ==> es'[t].name == es[t].name && (es[t].name == n ==> es'[t] == es[t])
    ensures EntriesFor(es', n) == EntriesFor(es, n)
  {
    if es != [] {
      EntriesForPointwise(es[1..], es'[1..], n);
    }
  }

  /** Overwriting cells of another student's row, keeping its date and name, leaves a student's entries as they were. */
  lemma OtherAfterReplace(rows: seq<Row>, today: int, k: nat, row: Row, n: string)
    requires k < |rows| && SameDateAndName(rows[k], row) && rows[k].name != n
    ensures SameStatuses(TodaysEntries(rows, today), TodaysEntries(rows[k := row], today), n)
  {
    var rows' := rows[k := row];
    var es, es' := TodaysEntries(rows, today), TodaysEntries(rows', today);
    ReplaceRowKeepsRun(rows, today, k, row);
    TodaysShape(rows, today);
    TodaysShape(rows', today);
    forall t | 0 <= t < |es| ensures es'[t].name == es[t].name && (es[t].name == n ==> es'[t] == es[t]) {
      if es[t].rowIndex == k {
        assert es[t] == EntryOf(rows, k);
        assert es'[t] == EntryOf(rows', k);
      }
    }
    EntriesForPointwise(es, es', n);
    SameGroupSameStatus(es, es', n);
  }

  /**
   * Appending another student's today row leaves a student's statuses as
   * they were when the run is open; when it is not, the student is in
   * neither map afterwards.
   */
  lemma OtherAfterAppend(rows: seq<Row>, today: int, row: Row, n: string)
    requires TodayRow(row, today) && row.name != n
    ensures var es, es' := TodaysEntries(rows, today), TodaysEntries(rows + [row], today);
      && (RunOpen(rows, today) ==> SameStatuses(es, es', n))
      && (!RunOpen(rows, today) ==> n !in StatusLookup(es') && n !in FallbackLookup(es'))
  {
    var es, es' := TodaysEntries(rows, today), TodaysEntries(rows + [row], today);
    var prefix := if RunOpen(rows, today) then es else [];
    AppendedEntries(rows, today, row, n);
    assert EntriesFor(es', n) == EntriesFor(prefix, n) + [];
    assert EntriesFor(prefix, n) + [] == EntriesFor(prefix, n);
    SameGroupSameStatus(prefix, es', n);
  }

  /**
   * A back request promotes no one: every other student keeps their
   * statuses in both maps, or, when the back-only row starts a new run,
   * is in neither map. In particular nobody who was not Out becomes Out,
   * and a Waiting student stays Waiting while the run is open.
   */
  lemma BackPromotesNoOne(rows: seq<Row>, now: Now, name: string, id: string, gender: string, teacher: string, n: string)
    requires ValidNow(now) && name != "" && n != name
    ensures var es, es' := TodaysEntries(rows, now.today), TodaysEntries(ClosedRows(rows, now, name, id, gender, teacher), now.today);
      && (SameStatuses(es, es', n) || (n !in StatusLookup(es') && n !in FallbackLookup(es')))
      && (RunOpen(rows, now.today) ==> SameStatuses(es, es', n))
  {
    match LastOpenOutRow(rows, now.today, name)
    case Some(k) =>
      OtherAfterReplace(rows, now.today, k, rows[k].(backTime := TimeText(now)), n);
    case None =>
      TimeTextPresent(now);
      OtherAfterAppend(rows, now.today, BackOnlyRow(now, name, id, gender, teacher), n);
  }

  /** Promotion changes no other student's statuses either, with the same exception for a new run. */
  lemma PromoteKeepsOthers(rows: seq<Row>, now: Now, name: string, id: string, gender: string, teacher: string, n: string)
    requires ValidNow(now) && name != "" && n != name
    ensures var es, es' := TodaysEntries(rows, now.today), TodaysEntries(PromotedRows(rows, now, name, id, gender, teacher), now.today);
      && (SameStatuses(es, es', n) || (n !in StatusLookup(es') && n !in FallbackLookup(es')))
      && (RunOpen(rows, now.today) ==> SameStatuses(es, es', n))
  {
    match LastWaitingRow(rows, now.today, name)
    case Some(k) =>
      OtherAfterReplace(rows, now.today, k, rows[k].(outTime := TimeText(now), holdNotice := ""), n);
    case None =>
      OtherAfterAppend(rows, now.today, OutRow(now, name, id, gender, teacher), n);
  }

  /** A log of two today rows: both are today's entries, and the run is open. */
  lemma TwoTodayRows(rows: seq<Row>, today: int)
    requires |rows| == 2 && TodayRow(rows[0], today) && TodayRow(rows[1], today)
    ensures TodaysEntries(rows, today) == [EntryOf(rows, 0), EntryOf(rows, 1)]
    ensures RunOpen(rows, today)
  {
    LastTodayRowIs(rows, today, 1);
    TodaysEntriesAre(rows, today, 0, 1);
    EntriesStep(rows, 0, 2);
    EntriesStep(rows, 1, 2);
  }

  /** Two entries of different students: each is its student's only entry. */
  lemma TwoStudents(a: Entry, b: Entry)
    requires a.name != b.name
    ensures EntriesFor([a, b], a.name) == [a] && EntriesFor([a, b], b.name) == [b]
  {
    assert [a, b][1..] == [b] && [b][1..] == [];
    assert EntriesFor([b], a.name) == [] + EntriesFor([], a.name);
    assert EntriesFor([b], b.name) == [b] + EntriesFor([], b.name);
    assert EntriesFor([a, b], a.name) == [a] + EntriesFor([b], a.name);
    assert EntriesFor([a, b], b.name) == [] + EntriesFor([b], b.name);
  }

  /** A student whose only entry is an open out entry is Out in the primary map with that entry's gender. */
  lemma OnlyEntryOut(es: seq<Entry>, e: Entry)
    requires EntriesFor(es, e.name) == [e] && e in es
    requires e.outTime != "" && e.backTime == "" && e.gender != ""
    ensures e.name in StatusLookup(es) && IsOut(StatusLookup(es)[e.name]) && StatusLookup(es)[e.name].gender == e.gender
  {
    FoldDecides([e]);
    PrimaryHas(es, e.name);
  }

  /** A student whose only entry is a waiting entry is Waiting in the primary map with that entry's gender. */
  lemma OnlyEntryWaiting(es: seq<Entry>, e: Entry)
    requires EntriesFor(es, e.name) == [e] && e in es
    requires e.outTime == "" && e.backTime == "" && e.holdNotice != "" && e.gender != ""
    ensures e.name in StatusLookup(es) && IsWaiting(StatusLookup(es)[e.name]) && StatusLookup(es)[e.name].gender == e.gender
  {
    FoldDecides([e]);
    PrimaryHas(es, e.name);
  }

  /**
   * Promotion ignores the lane: when x is out in lane g and y waits in it,
   * an out request for y reads y as Waiting and promotes y's row without
   * asking whether the lane is free, so afterwards both are Out in lane g.
   */
  lemma PromotionIgnoresLane(now: Now, x: string, y: string, g: string, teacher: string, outTime: string, notice: string)
    requires ValidNow(now) && x != "" && y != "" && x != y && g != "" && outTime != "" && notice != ""
    ensures var rows := [Row(Some(now.today), x, "", g, teacher, outTime, "", ""),
                         Row(Some(now.today), y, "", g, teacher, "", "", notice)];
      var m := StatusOfLog(rows, now.today, NoFaults);
      var m' := StatusLookup(TodaysEntries(OutRows(rows, now, y, "", g, teacher, NoFaults), now.today));
      && LaneOccupied(m, g)
      && OutDecision(m, y, g) == Promote
      && x in m' && IsOut(m'[x]) && m'[x].gender == g
      && y in m' && IsOut(m'[y]) && m'[y].gender == g
  {
    var today := now.today;
    var rows := [Row(Some(today), x, "", g, teacher, outTime, "", ""),
                 Row(Some(today), y, "", g, teacher, "", "", notice)];
    TwoTodayRows(rows, today);
    var ex, ey := EntryOf(rows, 0), EntryOf(rows, 1);
    var es := TodaysEntries(rows, today);
    TwoStudents(ex, ey);
    OnlyEntryOut(es, ex);
    OnlyEntryWaiting(es, ey);
    var m := StatusLookup(es);
    assert OutDecision(m, y, g) == Promote;
    assert OutRows(rows, now, y, "", g, teacher, NoFaults) == PromotedRows(rows, now, y, "", g, teacher);
    PromoteKeepsOthers(rows, now, y, "", g, teacher, x);
    PromotedSecondRow(rows, now);
  }

  /** Promoting the waiting row below another student's row makes its student Out in its lane. */
  lemma PromotedSecondRow(rows: seq<Row>, now: Now)
    requires ValidNow(now) && |rows| == 2 && TodayRow(rows[0], now.today) && rows[0].name != rows[1].name
    requires TodayRow(rows[1], now.today) && IsWaitingRow(rows[1], now.today, rows[1].name) && rows[1].gender != ""
    ensures var y, g, teacher := rows[1].name, rows[1].gender, rows[1].teacher;
      var m' := StatusLookup(TodaysEntries(PromotedRows(rows, now, y, "", g, teacher), now.today));
      y in m' && IsOut(m'[y]) && m'[y].gender == g
  {
    var y := rows[1].name;
    assert LastWaitingRow(rows, now.today, y) == Some(1);
    var rows' := rows[1 := rows[1].(outTime := TimeText(now), holdNotice := "")];
    assert PromotedRows(rows, now, y, "", rows[1].gender, rows[1].teacher) == rows';
    TwoTodayRows(rows', now.today);
    TwoStudents(EntryOf(rows', 0), EntryOf(rows', 1));
    TimeTextPresent(now);
    OnlyEntryOut(TodaysEntries(rows', now.today), EntryOf(rows', 1));
  }

  /** The smallest instance: X is out and Y waits in lane G; after Y's out request both are Out in lane G. */
  lemma TwoOutInOneLane()
    ensures var rows := [Row(Some(0), "X", "", "G", "T", "9:00 AM", "", ""),
                         Row(Some(0), "Y", "", "G", "T", "", "", "Waiting in line. Position 1.")];
      var m' := StatusLookup(TodaysEntries(OutRows(rows, Now(0, 9, 5), "Y", "", "G", "T", NoFaults), 0));
      && "X" in m' && IsOut(m'["X"]) && m'["X"].gender == "G"
      && "Y" in m' && IsOut(m'["Y"]) && m'["Y"].gender == "G"
  {
    PromotionIgnoresLane(Now(0, 9, 5), "X", "Y", "G", "T", "9:00 AM", "Waiting in line. Position 1.");
  }
}
