/**
 * Rows of the "Log" sheet and the run of them that `getTodaysLogEntries`
 * treats as today's. The sheet's header row is not part of `rows`: `rows[i]`
 * is the i-th data row, and an entry's `rowIndex` is that `i`.
 */
module LogRows {
  import opened Basics

  /**
   * One Log row, columns A to H. `date` is the day the date cell denotes, or
   * `None` when the cell is blank or does not parse as a date; every other
   * cell is text, with "" standing for an empty cell.
   */
  datatype Row = Row(date: Option<int>, name: string, id: string, gender: string, teacher: string,
                     outTime: string, backTime: string, holdNotice: string)

  /** One of today's log entries, as `getTodaysLogEntries` builds it. */
  datatype Entry = Entry(rowIndex: nat, name: string, id: string, gender: string, teacher: string,
                         outTime: string, backTime: string, holdNotice: string)

  /** A row with a student name; rows without one are skipped by every scan. */
  predicate Named(row: Row) { row.name != "" }

  predicate TodayRow(row: Row, today: int) { Named(row) && row.date == Some(today) }

  /** A named row of another (or no) date: once a today row has been seen, the scan stops here. */
  predicate Ends(row: Row, today: int) { Named(row) && row.date != Some(today) }

  function EntryOf(rows: seq<Row>, i: nat): (e: Entry)
    requires i < |rows|
    ensures e.rowIndex == i && e.name == rows[i].name
  {
    var r := rows[i];
    Entry(i, r.name, r.id, r.gender, r.teacher, r.outTime, r.backTime, r.holdNotice)
  }

  /** The bottom-most today row below `hi`. */
  function LastTodayRow(rows: seq<Row>, today: int, hi: nat): (r: Option<nat>)
    requires hi <= |rows|
    ensures r.Some? ==> r.value < hi && TodayRow(rows[r.value], today)
    ensures r.Some? ==> forall j :: r.value < j < hi ==> !TodayRow(rows[j], today)
    ensures r.None? ==> forall j :: 0 <= j < hi ==> !TodayRow(rows[j], today)
  {
    if hi == 0 then None
    else if TodayRow(rows[hi - 1], today) then Some(hi - 1)
    else LastTodayRow(rows, today, hi - 1)
  }

  /** Where the run ending just above `hi` begins: just below the nearest row that ends it. */
  function RunStart(rows: seq<Row>, today: int, hi: nat): (lo: nat)
    requires hi <= |rows|
    ensures lo <= hi
    ensures forall j :: lo <= j < hi ==> !Ends(rows[j], today)
    ensures lo > 0 ==> Ends(rows[lo - 1], today)
  {
    if hi == 0 then 0
    else if Ends(rows[hi - 1], today) then hi
    else RunStart(rows, today, hi - 1)
  }

  /** The named rows of `rows[lo..hi]` as entries, in ascending row order. */
  function Entries(rows: seq<Row>, lo: nat, hi: nat): seq<Entry>
    requires lo <= hi <= |rows|
    decreases hi - lo
  {
    if lo == hi then []
    else (if Named(rows[lo]) then [EntryOf(rows, lo)] else []) + Entries(rows, lo + 1, hi)
  }

  /** Every entry of a span is a named row of the span, read as it stands. */
  lemma {:induction false} EntriesInSpan(rows: seq<Row>, lo: nat, hi: nat)
    requires lo <= hi <= |rows|
    decreases hi - lo
    ensures forall e :: e in Entries(rows, lo, hi) ==>
        lo <= e.rowIndex < hi && Named(rows[e.rowIndex]) && e == EntryOf(rows, e.rowIndex)
  {
    if lo < hi {
      EntriesInSpan(rows, lo + 1, hi);
      var rest := Entries(rows, lo + 1, hi);
      var head := if Named(rows[lo]) then [EntryOf(rows, lo)] else [];
      var es := head + rest;
      assert Entries(rows, lo, hi) == es;
    }
  }

  /** The entries of a span are in strictly ascending row order. */
  lemma {:induction false} EntriesAscending(rows: seq<Row>, lo: nat, hi: nat)
    requires lo <= hi <= |rows|
    decreases hi - lo
    ensures forall k, l :: 0 <= k < l < |Entries(rows, lo, hi)| ==>
      Entries(rows, lo, hi)[k].rowIndex < Entries(rows, lo, hi)[l].rowIndex
  {
    if lo < hi {
      EntriesAscending(rows, lo + 1, hi);
      EntriesInSpan(rows, lo + 1, hi);
      var rest := Entries(rows, lo + 1, hi);
      var head := if Named(rows[lo]) then [EntryOf(rows, lo)] else [];
      var es := head + rest;
      assert Entries(rows, lo, hi) == es;
      forall k, l | 0 <= k < l < |es|
        ensures es[k].rowIndex < es[l].rowIndex
      {
        assert es[l] == rest[l - |head|] && es[l] in rest;
        if k >= |head| {
          assert es[k] == rest[k - |head|];
        }
      }
    }
  }

  /** No named row of a span is missing from its entries. */
  lemma {:induction false} EntriesComplete(rows: seq<Row>, lo: nat, hi: nat)
    requires lo <= hi <= |rows|
    decreases hi - lo
    ensures forall i :: lo <= i < hi && Named(rows[i]) ==> EntryOf(rows, i) in Entries(rows, lo, hi)
  {
    if lo < hi {
      EntriesComplete(rows, lo + 1, hi);
    }
  }

  lemma EntriesFacts(rows: seq<Row>, lo: nat, hi: nat)
    requires lo <= hi <= |rows|
    ensures var es := Entries(rows, lo, hi);
      && (forall k :: 0 <= k < |es| ==>
            lo <= es[k].rowIndex < hi && Named(rows[es[k].rowIndex]) && es[k] == EntryOf(rows, es[k].rowIndex))
      && (forall k, l :: 0 <= k < l < |es| ==> es[k].rowIndex < es[l].rowIndex)
      && (forall i :: lo <= i < hi && Named(rows[i]) ==> EntryOf(rows, i) in es)
  {
    var es := Entries(rows, lo, hi);
    EntriesInSpan(rows, lo, hi);
    EntriesAscending(rows, lo, hi);
    EntriesComplete(rows, lo, hi);
    assert forall k :: 0 <= k < |es| ==> es[k] in es;
  }

  /** `getTodaysLogEntries`: the named rows of the today run that ends at the bottom-most today row. */
  function TodaysEntries(rows: seq<Row>, today: int): (es: seq<Entry>)
    ensures forall k :: 0 <= k < |es| ==> es[k].rowIndex < |rows|
  {
    match LastTodayRow(rows, today, |rows|)
    case None => []
    case Some(last) =>
      RunFacts(rows, today, last);
      Entries(rows, RunStart(rows, today, last), last + 1)
  }

  /** Today's entries are today rows, read as they stand, in ascending row order. */
  lemma TodaysShape(rows: seq<Row>, today: int)
    ensures TodayShaped(rows, today, TodaysEntries(rows, today))
  {
    match LastTodayRow(rows, today, |rows|)
    case None =>
    case Some(last) =>
      TodaysEntriesSpan(rows, today, last);
      RunFacts(rows, today, last);
  }

  /** The entries are today rows, read as they stand, in ascending row order. */
  predicate TodayShaped(rows: seq<Row>, today: int, es: seq<Entry>)
  {
    && (forall k :: 0 <= k < |es| ==>
          es[k].rowIndex < |rows| && TodayRow(rows[es[k].rowIndex], today) && es[k] == EntryOf(rows, es[k].rowIndex))
    && (forall k, l :: 0 <= k < l < |es| ==> es[k].rowIndex < es[l].rowIndex)
  }

  /** The run that ends at the bottom-most today row holds only today rows. */
  lemma RunFacts(rows: seq<Row>, today: int, last: nat)
    requires LastTodayRow(rows, today, |rows|) == Some(last)
    ensures TodayShaped(rows, today, Entries(rows, RunStart(rows, today, last), last + 1))
  {
    var lo := RunStart(rows, today, last);
    EntriesFacts(rows, lo, last + 1);
    var es := Entries(rows, lo, last + 1);
    forall k | 0 <= k < |es| ensures TodayRow(rows[es[k].rowIndex], today) {
      RunRowIsToday(rows, today, last, es[k].rowIndex);
    }
  }

  lemma RunRowIsToday(rows: seq<Row>, today: int, last: nat, i: nat)
    requires LastTodayRow(rows, today, |rows|) == Some(last)
    requires RunStart(rows, today, last) <= i <= last && Named(rows[i])
    ensures TodayRow(rows[i], today)
  {
    if i < last {
      assert !Ends(rows[i], today);
    }
  }

  /** The run start is determined by where the nearest ending row sits. */
  lemma {:induction false} RunStartIs(rows: seq<Row>, today: int, lo: nat, hi: nat)
    requires lo <= hi <= |rows|
    requires forall j :: lo <= j < hi ==> !Ends(rows[j], today)
    requires lo == 0 || Ends(rows[lo - 1], today)
    ensures RunStart(rows, today, hi) == lo
  {
    if hi > lo {
      RunStartIs(rows, today, lo, hi - 1);
    }
  }

  /**
   * What the newest-first scan of `getTodaysLogEntries` knows after reading
   * the rows from `r` down: before a today row is met there is none below
   * `r`; afterwards `entries` are the named rows from `r` down to the
   * bottom-most today row `last`, and no row between ends the run.
   */
  predicate ScanSoFar(rows: seq<Row>, today: int, r: nat, last: nat, entries: seq<Entry>)
  {
    && r <= |rows|
    && (entries == [] ==> forall j :: r <= j < |rows| ==> !TodayRow(rows[j], today))
    && (entries != [] ==>
          && r <= last < |rows| && LastTodayRow(rows, today, |rows|) == Some(last)
          && (forall j :: r <= j < last ==> !Ends(rows[j], today))
          && entries == Entries(rows, r, last + 1))
  }

  /** The scan passes over a row without a name. */
  lemma ScanSkipUnnamed(rows: seq<Row>, today: int, r: nat, last: nat, entries: seq<Entry>)
    requires ScanSoFar(rows, today, r, last, entries) && 0 < r && !Named(rows[r - 1])
    ensures ScanSoFar(rows, today, r - 1, last, entries)
  {
    if entries != [] {
      EntriesStep(rows, r - 1, last + 1);
    }
  }

  /** Before the first today row, the scan passes over rows of other dates. */
  lemma ScanSkipOther(rows: seq<Row>, today: int, r: nat, last: nat)
    requires ScanSoFar(rows, today, r, last, []) && 0 < r && !TodayRow(rows[r - 1], today)
    ensures ScanSoFar(rows, today, r - 1, last, [])
  {
  }

  /** The scan takes a today row in front of what it has. */
  lemma ScanTake(rows: seq<Row>, today: int, r: nat, last: nat, entries: seq<Entry>)
    requires ScanSoFar(rows, today, r, last, entries) && 0 < r && TodayRow(rows[r - 1], today)
    ensures ScanSoFar(rows, today, r - 1, if entries == [] then r - 1 else last, [EntryOf(rows, r - 1)] + entries)
  {
    if entries == [] {
      LastTodayRowIs(rows, today, r - 1);
      EntriesStep(rows, r - 1, r);
    } else {
      EntriesStep(rows, r - 1, last + 1);
    }
  }

  /** The scan stops at the top of the sheet or at a named row of another date below a today row. */
  lemma ScanDone(rows: seq<Row>, today: int, r: nat, last: nat, entries: seq<Entry>)
    requires ScanSoFar(rows, today, r, last, entries)
    requires r == 0 || (entries != [] && Ends(rows[r - 1], today))
    ensures entries == TodaysEntries(rows, today)
  {
    if entries != [] {
      TodaysEntriesAre(rows, today, r, last);
    } else {
      TodaysEntriesEmptyIff(rows, today);
    }
  }

  /** One row of a span, read from the top of the span. */
  lemma EntriesStep(rows: seq<Row>, lo: nat, hi: nat)
    requires lo < hi <= |rows|
    ensures Entries(rows, lo, hi) == (if Named(rows[lo]) then [EntryOf(rows, lo)] else []) + Entries(rows, lo + 1, hi)
  {
  }

  /** A today row with no today row below it is the bottom-most one. */
  lemma LastTodayRowIs(rows: seq<Row>, today: int, k: nat)
    requires k < |rows| && TodayRow(rows[k], today)
    requires forall j :: k < j < |rows| ==> !TodayRow(rows[j], today)
    ensures LastTodayRow(rows, today, |rows|) == Some(k)
  {
  }

  /** Today's entries are the named rows from the run start down to the bottom-most today row. */
  lemma TodaysEntriesAre(rows: seq<Row>, today: int, lo: nat, last: nat)
    requires lo <= last < |rows| && LastTodayRow(rows, today, |rows|) == Some(last)
    requires forall j :: lo <= j < last ==> !Ends(rows[j], today)
    requires lo == 0 || Ends(rows[lo - 1], today)
    ensures TodaysEntries(rows, today) == Entries(rows, lo, last + 1)
  {
    RunStartIs(rows, today, lo, last);
  }

  lemma FirstIsLowest(es: seq<Entry>, e: Entry)
    requires forall k, l :: 0 <= k < l < |es| ==> es[k].rowIndex < es[l].rowIndex
    requires e in es
    ensures es[0].rowIndex <= e.rowIndex
  {
  }

  /** Today's entries are empty exactly when the log has no today row at all. */
  lemma TodaysEntriesEmptyIff(rows: seq<Row>, today: int)
    ensures TodaysEntries(rows, today) == [] <==> forall j :: 0 <= j < |rows| ==> !TodayRow(rows[j], today)
  {
    match LastTodayRow(rows, today, |rows|)
    case None =>
    case Some(last) =>
      EntriesComplete(rows, RunStart(rows, today, last), last + 1);
  }

  /** The last of today's entries is the bottom-most today row of the log. */
  lemma TodaysEntriesEndAtLastToday(rows: seq<Row>, today: int)
    requires TodaysEntries(rows, today) != []
    ensures var es := TodaysEntries(rows, today);
      forall j :: es[|es| - 1].rowIndex < j < |rows| ==> !TodayRow(rows[j], today)
  {
    TodaysShape(rows, today);
    var es := TodaysEntries(rows, today);
    var last := LastTodayRow(rows, today, |rows|).value;
    var lo := RunStart(rows, today, last);
    EntriesInSpan(rows, lo, last + 1);
    EntriesComplete(rows, lo, last + 1);
    assert es[|es| - 1] in es;
  }

  /** Every named row between the first and the last of today's entries is one of them. */
  lemma TodaysEntriesContiguous(rows: seq<Row>, today: int)
    requires TodaysEntries(rows, today) != []
    ensures var es := TodaysEntries(rows, today);
      forall j :: es[0].rowIndex <= j <= es[|es| - 1].rowIndex && Named(rows[j]) ==> EntryOf(rows, j) in es
  {
    var es := TodaysEntries(rows, today);
    var last := LastTodayRow(rows, today, |rows|).value;
    var lo := RunStart(rows, today, last);
    EntriesInSpan(rows, lo, last + 1);
    EntriesComplete(rows, lo, last + 1);
    assert es[0] in es && es[|es| - 1] in es;
  }

  /** A today row above the first of today's entries is cut off by a named row of another date in between. */
  lemma TodaysEntriesCutOff(rows: seq<Row>, today: int)
    requires TodaysEntries(rows, today) != []
    ensures var es := TodaysEntries(rows, today);
      forall j :: 0 <= j < es[0].rowIndex && TodayRow(rows[j], today) ==>
        exists k :: j < k < es[0].rowIndex && Ends(rows[k], today)
  {
    TodaysShape(rows, today);
    var es := TodaysEntries(rows, today);
    var last := LastTodayRow(rows, today, |rows|).value;
    var lo := RunStart(rows, today, last);
    EntriesInSpan(rows, lo, last + 1);
    EntriesComplete(rows, lo, last + 1);
    assert es[0] in es;
    forall j | 0 <= j < es[0].rowIndex && TodayRow(rows[j], today)
      ensures exists k :: j < k < es[0].rowIndex && Ends(rows[k], today)
    {
      if j >= lo {
        FirstIsLowest(es, EntryOf(rows, j));
        assert false;
      }
      assert j < lo - 1 < es[0].rowIndex && Ends(rows[lo - 1], today);
    }
  }

  /**
   * Today's entries are exactly the named rows between the first and the last
   * entry; there is no today row below the last one, and a today row above
   * the first one is cut off by a named row of another date in between.
   */
  lemma TodaysEntriesAreTheRun(rows: seq<Row>, today: int)
    ensures var es := TodaysEntries(rows, today);
      && (es == [] <==> forall j :: 0 <= j < |rows| ==> !TodayRow(rows[j], today))
      && (es != [] ==> forall j :: es[|es| - 1].rowIndex < j < |rows| ==> !TodayRow(rows[j], today))
      && (es != [] ==> forall j :: es[0].rowIndex <= j <= es[|es| - 1].rowIndex && Named(rows[j]) ==>
            EntryOf(rows, j) in es)
      && (es != [] ==> forall j :: 0 <= j < es[0].rowIndex && TodayRow(rows[j], today) ==>
            exists k :: j < k < es[0].rowIndex && Ends(rows[k], today))
  {
    TodaysEntriesEmptyIff(rows, today);
    if TodaysEntries(rows, today) != [] {
      TodaysEntriesEndAtLastToday(rows, today);
      TodaysEntriesContiguous(rows, today);
      TodaysEntriesCutOff(rows, today);
    }
  }

  /** Two rows that agree on the cells every scan keys on. */
  predicate SameDateAndName(a: Row, b: Row) { a.date == b.date && a.name == b.name }

  lemma {:induction false} LastTodayRowSameKeys(rows: seq<Row>, rows': seq<Row>, today: int, hi: nat)
    requires hi <= |rows| && hi <= |rows'|
    requires forall i :: 0 <= i < hi ==> SameDateAndName(rows[i], rows'[i])
    ensures LastTodayRow(rows', today, hi) == LastTodayRow(rows, today, hi)
  {
    if hi > 0 {
      LastTodayRowSameKeys(rows, rows', today, hi - 1);
    }
  }

  lemma {:induction false} RunStartSameKeys(rows: seq<Row>, rows': seq<Row>, today: int, hi: nat)
    requires hi <= |rows| && hi <= |rows'|
    requires forall i :: 0 <= i < hi ==> SameDateAndName(rows[i], rows'[i])
    ensures RunStart(rows', today, hi) == RunStart(rows, today, hi)
  {
    if hi > 0 {
      RunStartSameKeys(rows, rows', today, hi - 1);
    }
  }

  /** Rows with the same names yield entries for the same row indices. */
  lemma {:induction false} EntriesSameKeys(rows: seq<Row>, rows': seq<Row>, lo: nat, hi: nat)
    requires lo <= hi <= |rows| && hi <= |rows'|
    requires forall i :: lo <= i < hi ==> SameDateAndName(rows[i], rows'[i])
    ensures |Entries(rows', lo, hi)| == |Entries(rows, lo, hi)|
    ensures forall t :: 0 <= t < |Entries(rows, lo, hi)| ==>
      Entries(rows', lo, hi)[t].rowIndex == Entries(rows, lo, hi)[t].rowIndex
    decreases hi - lo
  {
    if lo < hi {
      EntriesSameKeys(rows, rows', lo + 1, hi);
      EntriesStep(rows, lo, hi);
      EntriesStep(rows', lo, hi);
      var es, es' := Entries(rows, lo, hi), Entries(rows', lo, hi);
      var tl, tl' := Entries(rows, lo + 1, hi), Entries(rows', lo + 1, hi);
      if Named(rows[lo]) {
        assert es == [EntryOf(rows, lo)] + tl && es' == [EntryOf(rows', lo)] + tl';
        forall t | 0 < t < |es| ensures es'[t].rowIndex == es[t].rowIndex {
          assert es[t] == tl[t - 1] && es'[t] == tl'[t - 1];
        }
      } else {
        assert es == tl && es' == tl';
      }
    }
  }

  lemma {:induction false} EntriesSplit(rows: seq<Row>, lo: nat, mid: nat, hi: nat)
    requires lo <= mid <= hi <= |rows|
    ensures Entries(rows, lo, hi) == Entries(rows, lo, mid) + Entries(rows, mid, hi)
    decreases mid - lo
  {
    if lo < mid {
      EntriesSplit(rows, lo + 1, mid, hi);
      var head := if Named(rows[lo]) then [EntryOf(rows, lo)] else [];
      assert Entries(rows, lo, hi) == head + Entries(rows, lo + 1, hi);
      assert Entries(rows, lo, mid) == head + Entries(rows, lo + 1, mid);
    }
  }

  lemma {:induction false} EntriesFrame(rows: seq<Row>, rows': seq<Row>, lo: nat, hi: nat)
    requires lo <= hi <= |rows| && hi <= |rows'|
    requires forall i :: lo <= i < hi ==> rows'[i] == rows[i]
    ensures Entries(rows', lo, hi) == Entries(rows, lo, hi)
    decreases hi - lo
  {
    if lo < hi {
      EntriesFrame(rows, rows', lo + 1, hi);
      EntriesStep(rows, lo, hi);
      EntriesStep(rows', lo, hi);
      assert rows'[lo] == rows[lo];
      assert EntryOf(rows', lo) == EntryOf(rows, lo);
    }
  }

  /**
   * Overwriting cells of one row other than its date and name keeps today's
   * run: the same rows are today's entries, and only the entry of the
   * overwritten row can differ.
   */
  lemma ReplaceRowKeepsRun(rows: seq<Row>, today: int, k: nat, row: Row)
    requires k < |rows| && SameDateAndName(rows[k], row)
    ensures var es, es' := TodaysEntries(rows, today), TodaysEntries(rows[k := row], today);
      && |es'| == |es|
      && forall t :: 0 <= t < |es| ==> es'[t].rowIndex == es[t].rowIndex && (es[t].rowIndex != k ==> es'[t] == es[t])
  {
    var rows' := rows[k := row];
    ReplaceKeepsKeys(rows, k, row);
    LastTodayRowSameKeys(rows, rows', today, |rows|);
    match LastTodayRow(rows, today, |rows|)
    case None =>
    case Some(last) =>
      RunStartSameKeys(rows, rows', today, last);
      var lo := RunStart(rows, today, last);
      TodaysEntriesSpan(rows, today, last);
      TodaysEntriesSpan(rows', today, last);
      SpanReplace(rows, k, row, lo, last + 1);
  }

  lemma TodaysEntriesSpan(rows: seq<Row>, today: int, last: nat)
    requires LastTodayRow(rows, today, |rows|) == Some(last)
    ensures last < |rows| && TodaysEntries(rows, today) == Entries(rows, RunStart(rows, today, last), last + 1)
  {
    var lo := RunStart(rows, today, last);
    var es := Entries(rows, lo, last + 1);
    assert TodaysEntries(rows, today) == es by {
      match LastTodayRow(rows, today, |rows|)
      case Some(l) =>
        assert l == last;
    }
  }

  lemma ReplaceKeepsKeys(rows: seq<Row>, k: nat, row: Row)
    requires k < |rows| && SameDateAndName(rows[k], row)
    ensures forall i :: 0 <= i < |rows| ==> SameDateAndName(rows[i], rows[k := row][i])
  {
  }

  /** Overwriting one row keeps a span's entries, except the entry of that row. */
  lemma SpanReplace(rows: seq<Row>, k: nat, row: Row, lo: nat, hi: nat)
    requires k < |rows| && SameDateAndName(rows[k], row) && lo <= hi <= |rows|
    ensures var es, es' := Entries(rows, lo, hi), Entries(rows[k := row], lo, hi);
      && |es'| == |es|
      && forall t :: 0 <= t < |es| ==> es'[t].rowIndex == es[t].rowIndex && (es[t].rowIndex != k ==> es'[t] == es[t])
  {
    var rows' := rows[k := row];
    ReplaceKeepsKeys(rows, k, row);
    EntriesSameKeys(rows, rows', lo, hi);
    EntriesFacts(rows, lo, hi);
    EntriesFacts(rows', lo, hi);
    var es, es' := Entries(rows, lo, hi), Entries(rows', lo, hi);
    forall t | 0 <= t < |es| && es[t].rowIndex != k
      ensures es'[t] == es[t]
    {
      var i := es[t].rowIndex;
      assert es'[t] == EntryOf(rows', i) && es[t] == EntryOf(rows, i);
      assert rows'[i] == rows[i];
    }
  }

  /** Today's run is still open: below the bottom-most today row there is no named row of another date. */
  predicate RunOpen(rows: seq<Row>, today: int)
  {
    match LastTodayRow(rows, today, |rows|)
    case None => false
    case Some(last) => forall j :: last < j < |rows| ==> !Ends(rows[j], today)
  }

  /**
   * Appending a today row extends today's entries when the run is still open,
   * and otherwise starts a new run holding only the new row.
   */
  lemma AppendTodayRow(rows: seq<Row>, today: int, row: Row)
    requires TodayRow(row, today)
    ensures TodaysEntries(rows + [row], today)
      == (if RunOpen(rows, today) then TodaysEntries(rows, today) else []) + [EntryOf(rows + [row], |rows|)]
  {
    var lo := RunStart(rows, today, |rows|);
    AppendedRun(rows, today, row);
    AppendedSpan(rows, row, lo);
    OpenRunTail(rows, today);
  }

  /** Below an appended today row, today's run reaches up to where the old log's bottom run starts. */
  lemma AppendedRun(rows: seq<Row>, today: int, row: Row)
    requires TodayRow(row, today)
    ensures TodaysEntries(rows + [row], today) == Entries(rows + [row], RunStart(rows, today, |rows|), |rows| + 1)
  {
    var rows' := rows + [row];
    var n := |rows|;
    assert LastTodayRow(rows', today, n + 1) == Some(n);
    forall i | 0 <= i < n ensures SameDateAndName(rows[i], rows'[i]) {
      assert rows'[i] == rows[i];
    }
    RunStartSameKeys(rows, rows', today, n);
  }

  /** A span that reaches an appended named row: the old span's entries, then the new row's. */
  lemma AppendedSpan(rows: seq<Row>, row: Row, lo: nat)
    requires lo <= |rows| && Named(row)
    ensures Entries(rows + [row], lo, |rows| + 1) == Entries(rows, lo, |rows|) + [EntryOf(rows + [row], |rows|)]
  {
    var rows' := rows + [row];
    var n := |rows|;
    EntriesSplit(rows', lo, n, n + 1);
    forall i | lo <= i < n ensures rows'[i] == rows[i] {
    }
    EntriesFrame(rows, rows', lo, n);
    EntriesStep(rows', n, n + 1);
    assert Entries(rows', n + 1, n + 1) == [];
  }

  /** The named rows below the nearest ending row: today's entries when the run is open, otherwise none. */
  lemma OpenRunTail(rows: seq<Row>, today: int)
    ensures Entries(rows, RunStart(rows, today, |rows|), |rows|)
      == if RunOpen(rows, today) then TodaysEntries(rows, today) else []
  {
    var n := |rows|;
    var lo := RunStart(rows, today, n);
    match LastTodayRow(rows, today, n)
    case None =>
      forall j | lo <= j < n ensures !Named(rows[j]) {
        assert !TodayRow(rows[j], today) && !Ends(rows[j], today);
      }
      UnnamedSpan(rows, lo, n);
    case Some(last) =>
      if RunOpen(rows, today) {
        OpenTail(rows, today, last);
      } else {
        var j :| last < j < n && Ends(rows[j], today);
        ClosedTail(rows, today, last, j);
      }
  }

  lemma OpenTail(rows: seq<Row>, today: int, last: nat)
    requires LastTodayRow(rows, today, |rows|) == Some(last)
    requires forall j :: last < j < |rows| ==> !Ends(rows[j], today)
    ensures Entries(rows, RunStart(rows, today, |rows|), |rows|) == TodaysEntries(rows, today)
  {
    var n := |rows|;
    var lo := RunStart(rows, today, last);
    RunStartIs(rows, today, lo, n);
    assert TodaysEntries(rows, today) == Entries(rows, lo, last + 1);
    EntriesSplit(rows, lo, last + 1, n);
    forall j | last + 1 <= j < n ensures !Named(rows[j]) {
      assert !TodayRow(rows[j], today) && !Ends(rows[j], today);
    }
    UnnamedSpan(rows, last + 1, n);
  }

  lemma ClosedTail(rows: seq<Row>, today: int, last: nat, k: nat)
    requires LastTodayRow(rows, today, |rows|) == Some(last)
    requires last < k < |rows| && Ends(rows[k], today)
    ensures Entries(rows, RunStart(rows, today, |rows|), |rows|) == []
  {
    var n := |rows|;
    var lo := RunStart(rows, today, n);
    assert lo > k;
    forall j | lo <= j < n ensures !Named(rows[j]) {
      assert !TodayRow(rows[j], today) && !Ends(rows[j], today);
    }
    UnnamedSpan(rows, lo, n);
  }

  /** A span with no named row holds no entries. */
  lemma {:induction false} UnnamedSpan(rows: seq<Row>, lo: nat, hi: nat)
    requires lo <= hi <= |rows|
    requires forall j :: lo <= j < hi ==> !Named(rows[j])
    ensures Entries(rows, lo, hi) == []
    decreases hi - lo
  {
    if lo < hi {
      UnnamedSpan(rows, lo + 1, hi);
    }
  }

  /**
   * A named row whose date cell does not parse ends today's run like a row of
   * another day: once a today row is appended below it, every today row above
   * it has left today's entries.
   */
  lemma UnparseableDateCutsRun(rows: seq<Row>, today: int, bad: Row, row: Row)
    requires Named(bad) && bad.date == None && TodayRow(row, today)
    ensures TodaysEntries(rows + [bad, row], today) == [EntryOf(rows + [bad, row], |rows| + 1)]
  {
    var rows' := rows + [bad, row];
    assert LastTodayRow(rows', today, |rows| + 2) == Some(|rows| + 1);
    assert RunStart(rows', today, |rows| + 1) == |rows| + 1;
    EntriesStep(rows', |rows| + 1, |rows| + 2);
  }
}
