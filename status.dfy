/**
 * Deriving each student's current status from today's log entries: the
 * chronological fold of `_getStatusLookupMap`, the newest-first scan of
 * `_getCurrentRestroomStatusFallback`, where the two disagree, the
 * occupancy gate `_checkOtherOut` and the queue views.
 */
module Statuses {
  import opened Basics
  import opened LogRows

  /** A status object as the status map holds it; Out and Waiting are shapes of it. */
  datatype Status = Status(gender: string, teacher: string, outTime: string, backTime: string, holdNotice: string)

  const NoStatus := Status("", "", "", "", "")

  /** An out student: an out time, no back time, no hold notice. */
  predicate IsOut(st: Status) { st.outTime != "" && st.backTime == "" && st.holdNotice == "" }

  /** A waiting student: a hold notice and no times. */
  predicate IsWaiting(st: Status) { st.holdNotice != "" && st.outTime == "" && st.backTime == "" }

  // ---------------------------------------------------------------------------
  // Grouping by student

  /** The names that occur among the entries. */
  function Names(es: seq<Entry>): set<string>
  {
    set e | e in es :: e.name
  }

  /** One student's entries, in the order of `es`. */
  function EntriesFor(es: seq<Entry>, name: string): seq<Entry>
  {
    if es == [] then []
    else (if es[0].name == name then [es[0]] else []) + EntriesFor(es[1..], name)
  }

  /** A student's entries are exactly the entries carrying the student's name. */
  lemma {:induction false} EntriesForMembers(es: seq<Entry>, name: string)
    ensures |EntriesFor(es, name)| <= |es|
    ensures forall e :: e in EntriesFor(es, name) <==> e in es && e.name == name
  {
    if es != [] {
      EntriesForMembers(es[1..], name);
      assert es == [es[0]] + es[1..];
    }
  }

  /** A name that occurs nowhere has no entries. */
  lemma EntriesForAbsent(es: seq<Entry>, name: string)
    requires name !in Names(es)
    ensures EntriesFor(es, name) == []
  {
    EntriesForMembers(es, name);
  }

  /** Grouping distributes over concatenation. */
  lemma {:induction false} EntriesForAppend(a: seq<Entry>, b: seq<Entry>, name: string)
    ensures EntriesFor(a + b, name) == EntriesFor(a, name) + EntriesFor(b, name)
  {
    if a != [] {
      assert (a + b)[0] == a[0];
      assert (a + b)[1..] == a[1..] + b;
      EntriesForAppend(a[1..], b, name);
    } else {
      assert a + b == b;
    }
  }

  lemma {:induction false} EntriesForSnoc(es: seq<Entry>, e: Entry, name: string)
    ensures EntriesFor(es + [e], name) == EntriesFor(es, name) + (if e.name == name then [e] else [])
  {
    if es != [] {
      assert (es + [e])[1..] == es[1..] + [e];
      EntriesForSnoc(es[1..], e, name);
    } else {
      assert EntriesFor([e][1..], name) == [];
    }
  }

  // ---------------------------------------------------------------------------
  // The primary derivation: a chronological fold per student

  /** `currentStatus`, `hasOutTime` and `hasBackTime` of the per-student loop. */
  datatype FoldState = FoldState(current: Status, hasOutTime: bool, hasBackTime: bool)

  /** One iteration of the per-student loop. */
  function Step(s: FoldState, e: Entry): FoldState
  {
    var gender := if e.gender != "" then e.gender else s.current.gender;
    var teacher := if e.teacher != "" then e.teacher else s.current.teacher;
    var outTime := if e.outTime != "" then e.outTime else s.current.outTime;
    var hasOut := e.outTime != "" || s.hasOutTime;
    var backTime := if e.backTime != "" then e.backTime else if e.outTime != "" then "" else s.current.backTime;
    var hasBack := e.backTime != "" || (e.outTime == "" && s.hasBackTime);
    var hold := if e.holdNotice != "" && !hasOut then e.holdNotice else if hasOut then "" else s.current.holdNotice;
    FoldState(Status(gender, teacher, outTime, backTime, hold), hasOut, hasBack)
  }

  /** The loop run over a student's entries in row order. */
  function Fold(es: seq<Entry>): FoldState
  {
    if es == [] then FoldState(NoStatus, false, false) else Step(Fold(es[..|es| - 1]), es[|es| - 1])
  }

  /** The final decision: a full cycle or nothing is "available" (no status), else Out or Waiting. */
  function Decide(s: FoldState): Option<Status>
  {
    if s.hasOutTime && s.hasBackTime then None
    else if s.hasOutTime then Some(Status(s.current.gender, s.current.teacher, s.current.outTime, "", ""))
    else if s.current.holdNotice != "" then Some(Status(s.current.gender, s.current.teacher, "", "", s.current.holdNotice))
    else None
  }

  function StudentStatus(es: seq<Entry>, name: string): Option<Status>
  {
    Decide(Fold(EntriesFor(es, name)))
  }

  /** The status map of `_getStatusLookupMap`: students without a status are absent (available). */
  function StatusLookup(es: seq<Entry>): map<string, Status>
  {
    map n | n in Names(es) && StudentStatus(es, n).Some? :: StudentStatus(es, n).value
  }

  // Reference definitions the fold is proved against.

  /** The index of the last entry carrying an out time. */
  function LastOut(es: seq<Entry>): (r: Option<nat>)
    ensures r.Some? ==> r.value < |es| && es[r.value].outTime != ""
    ensures r.Some? ==> forall j :: r.value < j < |es| ==> es[j].outTime == ""
    ensures r.None? ==> forall j :: 0 <= j < |es| ==> es[j].outTime == ""
  {
    if es == [] then None
    else if es[|es| - 1].outTime != "" then Some(|es| - 1)
    else LastOut(es[..|es| - 1])
  }

  /** Some entry at or after `k` carries a back time. */
  predicate BackSince(es: seq<Entry>, k: nat)
  {
    exists j :: k <= j < |es| && es[j].backTime != ""
  }

  /** The last non-empty gender, or "". */
  function LastGender(es: seq<Entry>): string
  {
    if es == [] then ""
    else if es[|es| - 1].gender != "" then es[|es| - 1].gender
    else LastGender(es[..|es| - 1])
  }

  /** The last non-empty teacher, or "". */
  function LastTeacher(es: seq<Entry>): string
  {
    if es == [] then ""
    else if es[|es| - 1].teacher != "" then es[|es| - 1].teacher
    else LastTeacher(es[..|es| - 1])
  }

  /** The last non-empty hold notice, or "". */
  function LastHold(es: seq<Entry>): (r: string)
    ensures r != "" <==> exists j :: 0 <= j < |es| && es[j].holdNotice != ""
  {
    if es == [] then ""
    else if es[|es| - 1].holdNotice != "" then es[|es| - 1].holdNotice
    else
      var r := LastHold(es[..|es| - 1]);
      assert forall j :: 0 <= j < |es| - 1 ==> es[..|es| - 1][j] == es[j];
      r
  }

  /** What the fold state holds after a student's entries. */
  lemma {:induction false} FoldSummary(es: seq<Entry>)
    ensures var f := Fold(es);
      && f.current.gender == LastGender(es)
      && f.current.teacher == LastTeacher(es)
      && f.hasOutTime == LastOut(es).Some?
      && (LastOut(es).Some? ==>
            && f.current.outTime == es[LastOut(es).value].outTime
            && f.hasBackTime == BackSince(es, LastOut(es).value)
            && f.current.holdNotice == "")
      && (LastOut(es).None? ==> f.current.holdNotice == LastHold(es))
  {
    FoldNames(es);
    FoldTrip(es);
  }

  lemma {:induction false} FoldNames(es: seq<Entry>)
    ensures Fold(es).current.gender == LastGender(es) && Fold(es).current.teacher == LastTeacher(es)
  {
    if es != [] {
      FoldNames(es[..|es| - 1]);
    }
  }

  lemma {:induction false} FoldTrip(es: seq<Entry>)
    ensures var f := Fold(es);
      && f.hasOutTime == LastOut(es).Some?
      && (LastOut(es).Some? ==>
            && f.current.outTime == es[LastOut(es).value].outTime
            && f.hasBackTime == BackSince(es, LastOut(es).value)
            && f.current.holdNotice == "")
      && (LastOut(es).None? ==> f.current.holdNotice == LastHold(es))
  {
    if es != [] {
      var p := es[..|es| - 1];
      var e := es[|es| - 1];
      FoldTrip(p);
      match LastOut(es)
      case None =>
        assert LastOut(p).None?;
      case Some(k) =>
        BackSinceSnoc(es, k);
        if k < |es| - 1 {
          assert p[k] == es[k];
          assert LastOut(p) == Some(k);
        }
    }
  }

  /** A back time at or after `k` is either in the older entries or on the newest one. */
  lemma BackSinceSnoc(es: seq<Entry>, k: nat)
    requires k < |es|
    ensures BackSince(es, k) <==>
      (k < |es| - 1 && BackSince(es[..|es| - 1], k)) || es[|es| - 1].backTime != ""
  {
    var p := es[..|es| - 1];
    if BackSince(es, k) {
      var j :| k <= j < |es| && es[j].backTime != "";
      if j < |es| - 1 {
        assert p[j] == es[j];
      }
    }
    if k < |es| - 1 && BackSince(p, k) {
      var j :| k <= j < |p| && p[j].backTime != "";
      assert es[j] == p[j];
    }
    if es[|es| - 1].backTime != "" {
      assert k <= |es| - 1;
    }
  }

  /**
   * A student's derived status, stated without the fold: Out with the last
   * out time when no back time follows the last out row; otherwise, if no
   * row has an out time, Waiting with the last hold notice; otherwise none.
   * Gender and teacher are the last non-empty ones.
   */
  lemma FoldDecides(es: seq<Entry>)
    ensures Decide(Fold(es)) ==
      match LastOut(es)
      case Some(k) =>
        if BackSince(es, k) then None
        else Some(Status(LastGender(es), LastTeacher(es), es[k].outTime, "", ""))
      case None =>
        if LastHold(es) != "" then Some(Status(LastGender(es), LastTeacher(es), "", "", LastHold(es)))
        else None
  {
    FoldSummary(es);
  }

  /** A student who occurs in the entries and has a derived status is in the status map with it. */
  lemma PrimaryHas(es: seq<Entry>, n: string)
    requires n in Names(es) && StudentStatus(es, n).Some?
    ensures n in StatusLookup(es) && StatusLookup(es)[n] == StudentStatus(es, n).value
  {
  }

  /** Every status the primary derivation keeps is either Out or Waiting. */
  lemma LookupShapes(es: seq<Entry>)
    ensures forall n :: n in StatusLookup(es) ==>
      IsOut(StatusLookup(es)[n]) != IsWaiting(StatusLookup(es)[n])
  {
    forall n | n in StatusLookup(es)
      ensures IsOut(StatusLookup(es)[n]) != IsWaiting(StatusLookup(es)[n])
    {
      FoldDecides(EntriesFor(es, n));
    }
  }

  /**
   * The grouping loop of `_getStatusLookupMap`: every student's entries in
   * row order, and the students in order of first appearance.
   */
  method GroupByName(entries: seq<Entry>) returns (groups: map<string, seq<Entry>>, names: seq<string>)
    ensures groups.Keys == Names(entries)
    ensures forall n :: n in groups ==> groups[n] == EntriesFor(entries, n)
    ensures forall n :: n in names <==> n in groups
  {
    groups := map[];
    names := [];
    for i := 0 to |entries|
      invariant groups.Keys == Names(entries[..i])
      invariant forall n :: n in groups ==> groups[n] == EntriesFor(entries[..i], n)
      invariant forall n :: n in names <==> n in groups
    {
      var e := entries[i];
      GroupStep(entries[..i], e);
      assert entries[..i + 1] == entries[..i] + [e];
      if e.name in groups {
        groups := groups[e.name := groups[e.name] + [e]];
      } else {
        EntriesForAbsent(entries[..i], e.name);
        groups := groups[e.name := [e]];
        names := names + [e.name];
      }
    }
    assert entries[..|entries|] == entries;
  }

  /** What appending one entry does to the names and to each student's entries. */
  lemma GroupStep(es: seq<Entry>, e: Entry)
    ensures Names(es + [e]) == Names(es) + {e.name}
    ensures forall n :: n != e.name ==> EntriesFor(es + [e], n) == EntriesFor(es, n)
    ensures EntriesFor(es + [e], e.name) == EntriesFor(es, e.name) + [e]
  {
    forall n ensures EntriesFor(es + [e], n) == EntriesFor(es, n) + (if e.name == n then [e] else []) {
      EntriesForSnoc(es, e, n);
    }
    assert forall x :: x in es + [e] <==> x in es || x == e;
  }

  /** The per-student loop of `_getStatusLookupMap`, run over one student's entries. */
  method FoldStudent(es: seq<Entry>) returns (state: FoldState)
    ensures state == Fold(es)
  {
    var current := NoStatus;
    var hasOutTime := false;
    var hasBackTime := false;
    for j := 0 to |es|
      invariant FoldState(current, hasOutTime, hasBackTime) == Fold(es[..j])
    {
      var e := es[j];
      assert es[..j + 1][..j] == es[..j];
      if e.gender != "" { current := current.(gender := e.gender); }
      if e.teacher != "" { current := current.(teacher := e.teacher); }
      if e.outTime != "" {
        current := current.(outTime := e.outTime, backTime := "");
        hasOutTime := true;
        hasBackTime := false;
      }
      if e.backTime != "" {
        current := current.(backTime := e.backTime);
        hasBackTime := true;
      }
      if e.holdNotice != "" && !hasOutTime {
        current := current.(holdNotice := e.holdNotice);
      } else if hasOutTime {
        current := current.(holdNotice := "");
      }
    }
    assert es[..|es|] == es;
    state := FoldState(current, hasOutTime, hasBackTime);
  }

  /**
   * `_getStatusLookupMap`: group today's entries by student, fold each
   * student's entries in row order, keep the students who end Out or Waiting.
   */
  method BuildStatusLookup(entries: seq<Entry>) returns (lookup: map<string, Status>)
    ensures lookup == StatusLookup(entries)
  {
    var groups, names := GroupByName(entries);
    lookup := map[];
    for k := 0 to |names|
      invariant forall n :: n in lookup <==> n in names[..k] && StudentStatus(entries, n).Some?
      invariant forall n :: n in lookup ==> lookup[n] == StudentStatus(entries, n).value
    {
      var name := names[k];
      var state := FoldStudent(groups[name]);
      ghost var before := lookup;
      if state.hasOutTime && state.hasBackTime {
      } else if state.hasOutTime {
        lookup := lookup[name := Status(state.current.gender, state.current.teacher, state.current.outTime, "", "")];
      } else if state.current.holdNotice != "" {
        lookup := lookup[name := Status(state.current.gender, state.current.teacher, "", "", state.current.holdNotice)];
      }
      assert lookup == if Decide(state).Some? then before[name := Decide(state).value] else before;
      assert name in groups;
      assert Decide(state) == StudentStatus(entries, name);
      LookupStep(entries, names, k, before, lookup);
    }
    assert names[..|names|] == names;
    LookupExtensional(entries, lookup);
  }

  /** One student of the grouping loop: their status is added to the map when they have one. */
  lemma LookupStep(es: seq<Entry>, names: seq<string>, k: nat, before: map<string, Status>, after: map<string, Status>)
    requires k < |names|
    requires forall n :: n in before <==> n in names[..k] && StudentStatus(es, n).Some?
    requires forall n :: n in before ==> before[n] == StudentStatus(es, n).value
    requires after == if StudentStatus(es, names[k]).Some? then before[names[k] := StudentStatus(es, names[k]).value] else before
    ensures forall n :: n in after <==> n in names[..k + 1] && StudentStatus(es, n).Some?
    ensures forall n :: n in after ==> after[n] == StudentStatus(es, n).value
  {
    assert names[..k + 1] == names[..k] + [names[k]];
    forall n ensures n in names[..k + 1] <==> n in names[..k] || n == names[k] {
    }
  }

  /** A map that agrees with `StudentStatus` on every name of the entries is the status map. */
  lemma LookupExtensional(es: seq<Entry>, lookup: map<string, Status>)
    requires forall n :: n in lookup <==> n in Names(es) && StudentStatus(es, n).Some?
    requires forall n :: n in lookup ==> lookup[n] == StudentStatus(es, n).value
    ensures lookup == StatusLookup(es)
  {
    var spec := StatusLookup(es);
    forall n ensures n in lookup <==> n in spec {
      assert n in spec <==> n in Names(es) && StudentStatus(es, n).Some?;
    }
    assert lookup.Keys == spec.Keys;
    forall n | n in lookup ensures lookup[n] == spec[n] {
      assert spec[n] == StudentStatus(es, n).value;
    }
  }

  // ---------------------------------------------------------------------------
  // The fallback derivation: newest entry first, first claim wins

  /** An entry that gives its student a status in the fallback: no back time, and an out time or a hold notice. */
  predicate Claims(e: Entry)
  {
    e.backTime == "" && (e.outTime != "" || e.holdNotice != "")
  }

  /** The status a claiming entry gives: Out when it has an out time, Waiting otherwise. */
  function ClaimStatus(e: Entry): (st: Status)
    requires Claims(e)
    ensures IsOut(st) != IsWaiting(st)
    ensures st.gender == e.gender && st.teacher == e.teacher
  {
    if e.outTime != "" then Status(e.gender, e.teacher, e.outTime, "", "")
    else Status(e.gender, e.teacher, "", "", e.holdNotice)
  }

  /**
   * The status map of `_getCurrentRestroomStatusFallback` over today's entries
   * (oldest first): the newer entries are scanned first and the first entry
   * that claims a student decides; an entry with a back time claims nothing
   * and does not stop older entries from claiming.
   */
  function FallbackLookup(es: seq<Entry>): map<string, Status>
  {
    if es == [] then map[]
    else
      var m := FallbackLookup(es[1..]);
      if es[0].name in m || !Claims(es[0]) then m else m[es[0].name := ClaimStatus(es[0])]
  }

  /** One step of the newest-first scan: an older entry claims its student only if no newer entry did. */
  lemma FallbackCons(e: Entry, es: seq<Entry>)
    ensures FallbackLookup([e] + es) ==
      var m := FallbackLookup(es);
      if e.name in m || !Claims(e) then m else m[e.name := ClaimStatus(e)]
  {
    assert ([e] + es)[1..] == es;
  }

  /** The branches of one step of the fallback scan are the claim rule. */
  lemma ClaimStep(before: map<string, Status>, after: map<string, Status>, e: Entry)
    requires after ==
      if e.name in before || e.backTime != "" then before
      else if e.outTime != "" then before[e.name := Status(e.gender, e.teacher, e.outTime, "", "")]
      else if e.holdNotice != "" then before[e.name := Status(e.gender, e.teacher, "", "", e.holdNotice)]
      else before
    ensures after == if e.name in before || !Claims(e) then before else before[e.name := ClaimStatus(e)]
  {
  }

  /** The index of the newest claiming entry. */
  function LastClaim(es: seq<Entry>): (r: Option<nat>)
    ensures r.Some? ==> r.value < |es| && Claims(es[r.value])
    ensures r.Some? ==> forall j :: r.value < j < |es| ==> !Claims(es[j])
    ensures r.None? ==> forall j :: 0 <= j < |es| ==> !Claims(es[j])
  {
    if es == [] then None
    else if Claims(es[|es| - 1]) then Some(|es| - 1)
    else LastClaim(es[..|es| - 1])
  }

  /** One student's fallback status: the newest claiming entry decides. */
  function FallbackOf(es: seq<Entry>): Option<Status>
  {
    match LastClaim(es)
    case None => None
    case Some(k) => Some(ClaimStatus(es[k]))
  }

  /** Seen from the front, the newest claim is in the tail when there is one there. */
  lemma LastClaimCons(e: Entry, es: seq<Entry>)
    ensures LastClaim([e] + es) ==
      match LastClaim(es)
      case Some(j) => Some(j + 1)
      case None => if Claims(e) then Some(0) else None
  {
    match LastClaim(es)
    case Some(j) => LastClaimInTail(e, es, j);
    case None => NoClaimInTail(e, es);
  }

  lemma LastClaimInTail(e: Entry, es: seq<Entry>, j: nat)
    requires j < |es| && Claims(es[j])
    requires forall i :: j < i < |es| ==> !Claims(es[i])
    ensures LastClaim([e] + es) == Some(j + 1)
  {
    var all := [e] + es;
    ConsShift(e, es);
    assert Claims(all[j + 1]);
    LastClaimIs(all, j + 1);
  }

  lemma NoClaimInTail(e: Entry, es: seq<Entry>)
    requires forall i :: 0 <= i < |es| ==> !Claims(es[i])
    ensures LastClaim([e] + es) == if Claims(e) then Some(0) else None
  {
    var all := [e] + es;
    NoClaimAfterHead(e, es);
    if Claims(e) {
      LastClaimIs(all, 0);
    } else {
      assert !Claims(all[0]);
      NoClaimIsNone(all);
    }
  }

  lemma NoClaimAfterHead(e: Entry, es: seq<Entry>)
    requires forall i :: 0 <= i < |es| ==> !Claims(es[i])
    ensures forall i :: 0 < i < |[e] + es| ==> !Claims(([e] + es)[i])
  {
    ConsShift(e, es);
  }

  lemma ConsShift(e: Entry, es: seq<Entry>)
    ensures forall i :: 0 < i < |[e] + es| ==> ([e] + es)[i] == es[i - 1]
  {
  }

  lemma NoClaimIsNone(s: seq<Entry>)
    requires forall i :: 0 <= i < |s| ==> !Claims(s[i])
    ensures LastClaim(s) == None
  {
  }

  /** The newest claiming entry is the one with no claiming entry after it. */
  lemma LastClaimIs(s: seq<Entry>, k: nat)
    requires k < |s| && Claims(s[k])
    requires forall j :: k < j < |s| ==> !Claims(s[j])
    ensures LastClaim(s) == Some(k)
  {
  }

  /** A claiming entry with no claiming entry after it decides the student's fallback status. */
  lemma ClaimDecides(s: seq<Entry>, k: nat)
    requires k < |s| && Claims(s[k])
    requires forall j :: k < j < |s| ==> !Claims(s[j])
    ensures FallbackOf(s) == Some(ClaimStatus(s[k]))
  {
  }

  /** The fallback map, student by student: each student's newest claiming entry decides. */
  lemma {:induction false} FallbackPerStudent(es: seq<Entry>, n: string)
    ensures n in FallbackLookup(es) <==> FallbackOf(EntriesFor(es, n)).Some?
    ensures n in FallbackLookup(es) ==> FallbackLookup(es)[n] == FallbackOf(EntriesFor(es, n)).value
  {
    if es != [] {
      var e := es[0];
      var rest := es[1..];
      var m := FallbackLookup(rest);
      FallbackPerStudent(rest, n);
      assert FallbackLookup(es) == if e.name in m || !Claims(e) then m else m[e.name := ClaimStatus(e)];
      if e.name == n {
        var t := EntriesFor(rest, n);
        assert EntriesFor(es, n) == [e] + t;
        LastClaimCons(e, t);
        if LastClaim(t).Some? {
          assert FallbackOf([e] + t) == FallbackOf(t) by {
            assert ([e] + t)[LastClaim(t).value + 1] == t[LastClaim(t).value];
          }
        }
      } else {
        assert EntriesFor(es, n) == EntriesFor(rest, n);
      }
    }
  }

  /** The fallback map holds the status a student's newest claim gives. */
  lemma FallbackHas(es: seq<Entry>, n: string, st: Status)
    requires FallbackOf(EntriesFor(es, n)) == Some(st)
    ensures n in FallbackLookup(es) && FallbackLookup(es)[n] == st
  {
    FallbackPerStudent(es, n);
  }

  /** Every status the fallback keeps is either Out or Waiting. */
  lemma {:induction false} FallbackShapes(es: seq<Entry>)
    ensures forall n :: n in FallbackLookup(es) ==>
      IsOut(FallbackLookup(es)[n]) != IsWaiting(FallbackLookup(es)[n])
  {
    if es != [] {
      FallbackShapes(es[1..]);
    }
  }

  /** A student's last log row is an open out row. */
  predicate OpenOutLast(s: seq<Entry>)
  {
    s != [] && s[|s| - 1].outTime != "" && s[|s| - 1].backTime == ""
  }

  /**
   * Where the two derivations agree: a student whose newest row is an open
   * out row is Out in both, with that row's out time.
   */
  lemma AgreeOnOpenTrip(es: seq<Entry>, n: string)
    requires OpenOutLast(EntriesFor(es, n))
    ensures n in StatusLookup(es) && n in FallbackLookup(es)
    ensures IsOut(StatusLookup(es)[n]) && IsOut(FallbackLookup(es)[n])
    ensures StatusLookup(es)[n].outTime == FallbackLookup(es)[n].outTime
  {
    var s := EntriesFor(es, n);
    ClaimDecides(s, |s| - 1);
    FallbackHas(es, n, ClaimStatus(s[|s| - 1]));
    EntriesForMembers(es, n);
    assert s[|s| - 1] in s;
    FoldDecides(s);
    assert !BackSince(s, |s| - 1);
    PrimaryHas(es, n);
  }

  /**
   * Where they disagree: a student who finished a trip and then queued again
   * (the newest row is a hold row) is absent from the primary map, because
   * the earlier completed trip makes the fold report "available", while the
   * fallback reports them Waiting.
   */
  lemma QueuedAfterCompletedTrip(es: seq<Entry>, n: string)
    requires var s := EntriesFor(es, n);
      && LastOut(s).Some? && BackSince(s, LastOut(s).value)
      && s[|s| - 1].outTime == "" && s[|s| - 1].backTime == "" && s[|s| - 1].holdNotice != ""
    ensures n !in StatusLookup(es)
    ensures n in FallbackLookup(es) && IsWaiting(FallbackLookup(es)[n])
  {
    var s := EntriesFor(es, n);
    ClaimDecides(s, |s| - 1);
    FallbackHas(es, n, ClaimStatus(s[|s| - 1]));
    FoldDecides(s);
    assert StudentStatus(es, n) == None;
  }

  /**
   * Where they disagree: a student who is out and asks again (the newest row
   * is a hold row) stays Out in the primary map, because a hold notice after
   * an out time is dropped, while the fallback reports them Waiting.
   */
  lemma QueuedWhileOut(es: seq<Entry>, n: string)
    requires var s := EntriesFor(es, n);
      && LastOut(s).Some? && !BackSince(s, LastOut(s).value)
      && s[|s| - 1].outTime == "" && s[|s| - 1].holdNotice != ""
    ensures n in StatusLookup(es) && IsOut(StatusLookup(es)[n])
    ensures n in FallbackLookup(es) && IsWaiting(FallbackLookup(es)[n])
  {
    var s := EntriesFor(es, n);
    ClaimDecides(s, |s| - 1);
    FallbackHas(es, n, ClaimStatus(s[|s| - 1]));
    EntriesForMembers(es, n);
    assert s[|s| - 1] in s;
    FoldDecides(s);
    PrimaryHas(es, n);
  }

  /**
   * Where they disagree: an open out row followed only by rows that carry a
   * back time and no out time or hold (the rows the batch "back" appends)
   * closes the trip for the primary fold but not for the fallback, which
   * skips rows with a back time and still finds the open out row.
   */
  lemma BackOnlyRowsAfterOpenOut(es: seq<Entry>, n: string)
    requires var s := EntriesFor(es, n);
      && LastOut(s).Some? && s[LastOut(s).value].backTime == "" && BackSince(s, LastOut(s).value)
      && forall j :: LastOut(s).value < j < |s| ==> s[j].holdNotice == ""
    ensures n !in StatusLookup(es)
    ensures n in FallbackLookup(es) && IsOut(FallbackLookup(es)[n])
    ensures FallbackLookup(es)[n].outTime == EntriesFor(es, n)[LastOut(EntriesFor(es, n)).value].outTime
  {
    var s := EntriesFor(es, n);
    var k := LastOut(s).value;
    ClaimDecides(s, k);
    FallbackHas(es, n, ClaimStatus(s[k]));
    FoldDecides(s);
    assert StudentStatus(es, n) == None;
  }

  // ---------------------------------------------------------------------------
  // The occupancy gate and the queue

  /** `_checkOtherOut`: some student of that gender has an out time and no back time. */
  predicate LaneOccupied(status: map<string, Status>, gender: string)
  {
    exists n :: n in status && status[n].gender == gender && status[n].outTime != "" && status[n].backTime == ""
  }

  /** The loop of `_checkOtherOut` over the status map, returning at the first occupant. */
  method ScanForOccupant(status: map<string, Status>, gender: string) returns (occupied: bool)
    ensures occupied == LaneOccupied(status, gender)
  {
    var left := status.Keys;
    while left != {}
      invariant left <= status.Keys
      invariant forall n :: n in status.Keys - left ==>
        !(status[n].gender == gender && status[n].outTime != "" && status[n].backTime == "")
      decreases left
    {
      var n :| n in left;
      if status[n].gender == gender && status[n].outTime != "" && status[n].backTime == "" {
        return true;
      }
      left := left - {n};
    }
    return false;
  }

  /** A student's entries show a trip that has not ended. */
  predicate OpenTrip(s: seq<Entry>)
  {
    LastOut(s).Some? && !BackSince(s, LastOut(s).value)
  }

  /**
   * On the primary map, a lane is occupied exactly when some student of
   * that gender (their last non-empty gender) has an out row with no back
   * time on it or after it.
   */
  lemma OccupiedIffOpenTrip(es: seq<Entry>, gender: string)
    ensures LaneOccupied(StatusLookup(es), gender) <==>
      exists n :: n in Names(es) && OpenTrip(EntriesFor(es, n)) && LastGender(EntriesFor(es, n)) == gender
  {
    var m := StatusLookup(es);
    if LaneOccupied(m, gender) {
      var n :| n in m && m[n].gender == gender && m[n].outTime != "" && m[n].backTime == "";
      OccupantIffOpenTrip(es, gender, n);
    }
    if exists n :: n in Names(es) && OpenTrip(EntriesFor(es, n)) && LastGender(EntriesFor(es, n)) == gender {
      var n :| n in Names(es) && OpenTrip(EntriesFor(es, n)) && LastGender(EntriesFor(es, n)) == gender;
      OccupantIffOpenTrip(es, gender, n);
    }
  }

  /** One student occupies a lane of the primary map exactly when their trip is open and their gender is the lane's. */
  lemma OccupantIffOpenTrip(es: seq<Entry>, gender: string, n: string)
    ensures (n in StatusLookup(es) && StatusLookup(es)[n].gender == gender
             && StatusLookup(es)[n].outTime != "" && StatusLookup(es)[n].backTime == "") <==>
      (n in Names(es) && OpenTrip(EntriesFor(es, n)) && LastGender(EntriesFor(es, n)) == gender)
  {
    var s := EntriesFor(es, n);
    FoldDecides(s);
    if n in Names(es) && StudentStatus(es, n).Some? {
      PrimaryHas(es, n);
    } else {
      assert n !in StatusLookup(es);
    }
  }

  /** The waiting students of one gender: a hold notice and no out time. */
  function WaitingSet(status: map<string, Status>, gender: string): set<string>
  {
    set n | n in status && status[n].gender == gender && status[n].holdNotice != "" && status[n].outTime == ""
  }

  /**
   * On the primary map, a student waits for a lane exactly when none of
   * their rows has an out time, some row has a hold notice, and their last
   * non-empty gender is that lane's.
   */
  lemma WaitingIffQueuedOnly(es: seq<Entry>, gender: string, n: string)
    ensures n in WaitingSet(StatusLookup(es), gender) <==>
      var s := EntriesFor(es, n);
      n in Names(es) && LastOut(s).None? && LastHold(s) != "" && LastGender(s) == gender
  {
    FoldDecides(EntriesFor(es, n));
  }

  /** The waiting-count loop of the out request: how many students of that gender wait. */
  method CountWaiting(status: map<string, Status>, gender: string) returns (count: nat)
    ensures count == |WaitingSet(status, gender)|
  {
    var w := WaitingSet(status, gender);
    var left := status.Keys;
    count := 0;
    while left != {}
      invariant left <= status.Keys
      invariant count == |w - left|
      decreases left
    {
      var n :| n in left;
      if status[n].gender == gender && status[n].holdNotice != "" && status[n].outTime == "" {
        assert n in w;
        count := count + 1;
      } else {
        assert n !in w;
      }
      CountedOne(w, left, n);
      left := left - {n};
    }
    assert w - {} == w;
  }

  /** Taking one name out of the names still to visit adds it to the visited part of `w` when it is in `w`. */
  lemma CountedOne(w: set<string>, left: set<string>, n: string)
    requires n in left
    ensures |w - (left - {n})| == |w - left| + (if n in w then 1 else 0)
  {
    if n in w {
      assert w - (left - {n}) == (w - left) + {n};
    } else {
      assert w - (left - {n}) == w - left;
    }
  }

  /** The queue lists of `_getQueueList`, as sets: map iteration order is not modelled. */
  datatype Queue = Queue(girls: set<string>, boys: set<string>)

  /** `_getQueueList`: every waiting student goes to the list of their gender; other genders to none. */
  method QueueList(status: map<string, Status>) returns (q: Queue)
    ensures q.girls == WaitingSet(status, "G")
    ensures q.boys == WaitingSet(status, "B")
  {
    var left := status.Keys;
    q := Queue({}, {});
    while left != {}
      invariant left <= status.Keys
      invariant q.girls == WaitingSet(status, "G") - left
      invariant q.boys == WaitingSet(status, "B") - left
      decreases left
    {
      var n :| n in left;
      var st := status[n];
      if st.holdNotice != "" && st.outTime == "" {
        if st.gender == "G" {
          q := q.(girls := q.girls + {n});
        } else if st.gender == "B" {
          q := q.(boys := q.boys + {n});
        }
      }
      left := left - {n};
    }
  }
}
