/** The attendance table as the model `hr.attendance` keeps it: creating, writing and
    deleting records, each followed by the bookkeeping the source does around the ORM call
    (seconds cleaning, project-hour upserts and the recalculation of every affected
    (employee, month, year) cohort), and the read-only computations they use. */
module AttendanceStore {
  import opened Wrappers
  import opened AttendanceTime
  import opened Overtime
  import opened AttendanceCost
  import opened AttendanceRecords

  /** A `vals` dictionary over the fields the engine reads; `Keep` is an absent key. */
  datatype Vals = Vals(employee: Field<Option<nat>>, project: Field<Option<nat>>, date: Field<Option<Date>>,
                       checkIn: Field<Option<int>>, checkOut: Field<Option<int>>, misc: Field<real>)

  /** The write names a field of `_check_attendance_validations`. */
  predicate TouchesConstraint(v: Vals)
  {
    v.employee.Set? || v.project.Set? || v.date.Set? || v.checkIn.Set? || v.checkOut.Set?
  }

  /** The write names a field the stored overtime depends on. */
  predicate TouchesOvertime(v: Vals)
  {
    v.employee.Set? || v.date.Set? || v.checkIn.Set? || v.checkOut.Set?
  }

  /** A timestamp in `vals`, cleaned of seconds when it is set to a value. */
  function CleanStamp(f: Field<Option<int>>): (r: Field<Option<int>>)
    ensures r.Set? <==> f.Set?
    ensures f.Set? && f.value.Some? ==>
              (r.value.Some? && r.value.value % MicrosPerMinute == 0
               && r.value.value <= f.value.value < r.value.value + MicrosPerMinute)
    ensures !(f.Set? && f.value.Some?) ==> r == f
  {
    if f.Set? && f.value.Some? then Set(Some(RemoveSeconds(f.value.value))) else f
  }

  /** The `vals` `create` and `write` hand on to the ORM. */
  function CleanVals(v: Vals): Vals
  {
    v.(checkIn := CleanStamp(v.checkIn), checkOut := CleanStamp(v.checkOut))
  }

  /** Cleaning is idempotent: already cleaned `vals` are left as they are. */
  lemma CleanValsIdempotent(v: Vals)
    ensures CleanVals(CleanVals(v)) == CleanVals(v)
  {
    if v.checkIn.Set? && v.checkIn.value.Some? {
      RemoveSecondsIdempotent(v.checkIn.value.value);
    }
    if v.checkOut.Set? && v.checkOut.value.Some? {
      RemoveSecondsIdempotent(v.checkOut.value.value);
    }
  }

  /** The constrained fields after writing `v`. */
  function Apply(e: Entry, v: Vals): (r: Entry)
    ensures r.id == e.id
    ensures !TouchesConstraint(v) ==> r == e
  {
    Entry(e.id, Update(v.employee, e.employee), Update(v.project, e.project), Update(v.date, e.date),
          Update(v.checkIn, e.checkIn), Update(v.checkOut, e.checkOut))
  }

  /** The record `create` stores for one cleaned `vals`, before any computation. */
  function NewRecord(id: nat, v: Vals): Attendance
  {
    Attendance(Apply(Entry(id, None, None, None, None, None), CleanVals(v)), Update(v.misc, 0.0),
               NoOvertime(), NoCosts())
  }

  function NewRecords(vs: seq<Vals>, first: nat): (r: seq<Attendance>)
    ensures |r| == |vs|
    ensures forall j :: 0 <= j < |vs| ==> r[j] == NewRecord(first + j, vs[j])
  {
    seq(|vs|, j requires 0 <= j < |vs| => NewRecord(first + j, vs[j]))
  }

  function WriteOne(a: Attendance, ids: set<nat>, v: Vals): Attendance
  {
    if a.entry.id in ids then a.(entry := Apply(a.entry, v), misc := Update(v.misc, a.misc)) else a
  }

  /** The table after the ORM writes `v` on the records with ids in `ids`. */
  function WriteRecords(rs: seq<Attendance>, ids: set<nat>, v: Vals): (r: seq<Attendance>)
    ensures |r| == |rs|
  {
    seq(|rs|, i requires 0 <= i < |rs| => WriteOne(rs[i], ids, v))
  }

  /** The stored overtime of the records with ids in `ids`, recomputed against the table. */
  function RefreshOvertime(h: Host, rs: seq<Attendance>, ids: set<nat>): (r: seq<Attendance>)
    ensures |r| == |rs|
  {
    seq(|rs|, i requires 0 <= i < |rs| =>
      if rs[i].entry.id in ids then rs[i].(ot := FreshOvertime(h, Entries(rs), i)) else rs[i])
  }

  /** The records of `es` whose ids are in `ids`, in table order. */
  function Selected(es: seq<Entry>, ids: set<nat>): (r: seq<Entry>)
    ensures forall e :: e in r <==> e in es && e.id in ids
  {
    if es == [] then []
    else
      var e := es[|es| - 1];
      assert forall x :: x in es <==> x in es[..|es| - 1] || x == e;
      Selected(es[..|es| - 1], ids) + (if e.id in ids then [e] else [])
  }

  /** The table after the ORM deletes the records with ids in `ids`. */
  function Remaining(rs: seq<Attendance>, ids: set<nat>): (r: seq<Attendance>)
    ensures forall a :: a in r <==> a in rs && a.entry.id !in ids
  {
    if rs == [] then []
    else
      var a := rs[|rs| - 1];
      assert forall x :: x in rs <==> x in rs[..|rs| - 1] || x == a;
      Remaining(rs[..|rs| - 1], ids) + (if a.entry.id !in ids then [a] else [])
  }

  /** Project and date of the records that have both (estimation lines touched by `create`). */
  function DatesOf(es: seq<Entry>): (r: set<(nat, Date)>)
  {
    if es == [] then {}
    else
      var e := es[|es| - 1];
      DatesOf(es[..|es| - 1]) + (if e.project.Some? && e.date.Some? then {(e.project.value, e.date.value)} else {})
  }

  /** Project and date of the records that also have an employee (touched by `write` and `unlink`). */
  function FullDatesOf(es: seq<Entry>): (r: set<(nat, Date)>)
  {
    if es == [] then {}
    else
      var e := es[|es| - 1];
      FullDatesOf(es[..|es| - 1])
      + (if e.employee.Some? && e.project.Some? && e.date.Some? then {(e.project.value, e.date.value)} else {})
  }

  /** The cohorts of the records with employee and date (recalculated by `create` and `write`). */
  function MonthsOf(es: seq<Entry>): (r: set<Cohort>)
  {
    if es == [] then {}
    else
      var e := es[|es| - 1];
      MonthsOf(es[..|es| - 1]) + (if e.employee.Some? && e.date.Some? then {CohortOf(e)} else {})
  }

  /** The cohorts of the records that also have a project (recalculated by `unlink`). */
  function FullMonthsOf(es: seq<Entry>): (r: set<Cohort>)
  {
    if es == [] then {}
    else
      var e := es[|es| - 1];
      FullMonthsOf(es[..|es| - 1])
      + (if e.employee.Some? && e.project.Some? && e.date.Some? then {CohortOf(e)} else {})
  }

  /** A cohort is recalculated by `unlink` only for a deleted record that had a project and
      a date, and for every such record. */
  lemma FullMonthsOfExactly(es: seq<Entry>, c: Cohort)
    ensures c in FullMonthsOf(es) <==>
      exists i :: 0 <= i < |es| && es[i].project.Some? && InCohort(es[i], c)
  {
    if es != [] {
      var p := es[..|es| - 1];
      FullMonthsOfExactly(p, c);
      if c in FullMonthsOf(p) {
        var i :| 0 <= i < |p| && p[i].project.Some? && InCohort(p[i], c);
        assert es[i] == p[i];
      }
      if exists i :: 0 <= i < |es| && es[i].project.Some? && InCohort(es[i], c) {
        var i :| 0 <= i < |es| && es[i].project.Some? && InCohort(es[i], c);
        if i < |p| {
          assert p[i] == es[i];
        }
      }
    }
  }

  // ---------------------------------------------------------------- the table invariant

  lemma EntriesOfWrite(rs: seq<Attendance>, ids: set<nat>, v: Vals)
    ensures forall i :: 0 <= i < |rs| ==>
      Entries(WriteRecords(rs, ids, v))[i] == (if rs[i].entry.id in ids then Apply(rs[i].entry, v) else rs[i].entry)
  {
  }

  lemma EntriesOfAppend(rs: seq<Attendance>, added: seq<Attendance>)
    ensures Entries(rs + added) == Entries(rs) + Entries(added)
  {
  }

  lemma RefreshOvertimeKeepsEntries(h: Host, rs: seq<Attendance>, ids: set<nat>)
    ensures Entries(RefreshOvertime(h, rs, ids)) == Entries(rs)
  {
  }

  /** Created records that pass validation against the whole table keep the table valid: overlap
      is symmetric, so no earlier record now meets an overlapping one. */
  lemma CreateKeepsValid(h: Host, es: seq<Entry>, news: seq<Entry>, next: nat)
    requires TableValid(h, es)
    requires forall i :: 0 <= i < |es| ==> es[i].id < next
    requires forall j :: 0 <= j < |news| ==> news[j].id == next + j
    requires forall e :: e in news ==> Validate(h, es + news, e) == Pass
    ensures TableValid(h, es + news)
  {
    var all := es + news;
    forall i, j | 0 <= i < j < |all|
      ensures all[i].id < all[j].id
    {
      if j < |es| {
        assert all[i] == es[i] && all[j] == es[j];
      } else if i < |es| {
        assert all[i] == es[i] && all[j] == news[j - |es|];
      } else {
        assert all[i] == news[i - |es|] && all[j] == news[j - |es|];
      }
    }
    forall n | n in news
      ensures Admissible(h, all, n)
    {
      ValidateIff(h, all, n);
    }
    forall e | e in es
      ensures Admissible(h, all, e)
    {
      forall ex | ex in all && ex.id != e.id && SameSlot(ex, e)
        ensures Closed(ex) && !Overlaps(e, ex)
      {
        if ex !in es {
          assert ex in news;
          assert Admissible(h, all, ex);
          assert e in all;
          OverlapSymmetric(e, ex);
        }
      }
    }
  }

  /** A write whose records pass validation against the new table keeps the table valid. */
  lemma WriteKeepsValid(h: Host, rs: seq<Attendance>, ids: set<nat>, v: Vals)
    requires TableValid(h, Entries(rs))
    requires TouchesConstraint(v) ==>
      forall e :: e in Selected(Entries(WriteRecords(rs, ids, v)), ids) ==> Validate(h, Entries(WriteRecords(rs, ids, v)), e) == Pass
    ensures TableValid(h, Entries(WriteRecords(rs, ids, v)))
  {
    var es, es2 := Entries(rs), Entries(WriteRecords(rs, ids, v));
    EntriesOfWrite(rs, ids, v);
    if !TouchesConstraint(v) {
      assert es2 == es;
    } else {
      forall x | x in Selected(es2, ids)
        ensures Admissible(h, es2, x)
      {
        ValidateIff(h, es2, x);
      }
      forall x | x in es2 && x.id !in ids
        ensures x in es
      {
        var i :| 0 <= i < |es2| && es2[i] == x;
        assert x == es[i];
      }
      forall e | e in es2
        ensures Admissible(h, es2, e)
      {
        if e.id in ids {
          assert e in Selected(es2, ids);
        } else {
          UnwrittenAdmissible(h, es, es2, ids, e);
        }
      }
    }
  }

  /** A record the write left alone still meets every record it may clash with: the old ones
      as before, and the written ones because they passed validation and overlap is symmetric. */
  lemma UnwrittenAdmissible(h: Host, es: seq<Entry>, es2: seq<Entry>, ids: set<nat>, e: Entry)
    requires forall x :: x in es ==> Admissible(h, es, x)
    requires forall x :: x in Selected(es2, ids) ==> Admissible(h, es2, x)
    requires forall x :: x in es2 && x.id !in ids ==> x in es
    requires e in es2 && e.id !in ids
    ensures Admissible(h, es2, e)
  {
    assert e in es && Admissible(h, es, e);
    forall ex | ex in es2 && ex.id != e.id && SameSlot(ex, e)
      ensures Closed(ex) && !Overlaps(e, ex)
    {
      if ex.id in ids {
        assert ex in Selected(es2, ids);
        OverlapSymmetric(e, ex);
      } else {
        assert ex in es;
      }
    }
  }

  predicate RecordIdsIncreasing(rs: seq<Attendance>)
  {
    forall i, j :: 0 <= i < j < |rs| ==> rs[i].entry.id < rs[j].entry.id
  }

  lemma {:induction false} RemainingIncreasing(rs: seq<Attendance>, ids: set<nat>)
    requires RecordIdsIncreasing(rs)
    ensures RecordIdsIncreasing(Remaining(rs, ids))
  {
    if rs != [] {
      var p, a := rs[..|rs| - 1], rs[|rs| - 1];
      assert RecordIdsIncreasing(p) by {
        forall i, j | 0 <= i < j < |p| ensures p[i].entry.id < p[j].entry.id {
          assert p[i] == rs[i] && p[j] == rs[j];
        }
      }
      RemainingIncreasing(p, ids);
      var q := Remaining(p, ids);
      if a.entry.id !in ids {
        forall x | x in q
          ensures x.entry.id < a.entry.id
        {
          var k :| 0 <= k < |p| && p[k] == x;
          assert rs[k] == x;
        }
        var r := q + [a];
        forall i, j | 0 <= i < j < |r|
          ensures r[i].entry.id < r[j].entry.id
        {
          assert r[i] == q[i];
          if j < |q| {
            assert r[j] == q[j];
          } else {
            assert q[i] in q;
          }
        }
      }
    }
  }

  lemma EntriesOfRemaining(rs: seq<Attendance>, ids: set<nat>)
    ensures forall e :: e in Entries(Remaining(rs, ids)) ==> e in Entries(rs) && e.id !in ids
    ensures IdsIncreasing(Entries(rs)) ==> IdsIncreasing(Entries(Remaining(rs, ids)))
  {
    RemainingEntryMembers(rs, ids);
    if IdsIncreasing(Entries(rs)) {
      assert RecordIdsIncreasing(rs);
      RemainingIncreasing(rs, ids);
      RecordIdsAreEntryIds(Remaining(rs, ids));
    }
  }

  lemma RemainingEntryMembers(rs: seq<Attendance>, ids: set<nat>)
    ensures forall e :: e in Entries(Remaining(rs, ids)) ==> e in Entries(rs) && e.id !in ids
  {
    var r := Remaining(rs, ids);
    forall e | e in Entries(r)
      ensures e in Entries(rs) && e.id !in ids
    {
      var i :| 0 <= i < |r| && Entries(r)[i] == e;
      assert r[i] in rs;
      var k :| 0 <= k < |rs| && rs[k] == r[i];
      assert Entries(rs)[k] == e;
    }
  }

  lemma RecordIdsAreEntryIds(rs: seq<Attendance>)
    requires RecordIdsIncreasing(rs)
    ensures IdsIncreasing(Entries(rs))
  {
  }

  /** Deleting records keeps the table valid: a record clashes with no fewer records. */
  lemma UnlinkKeepsValid(h: Host, rs: seq<Attendance>, ids: set<nat>)
    requires TableValid(h, Entries(rs))
    ensures TableValid(h, Entries(Remaining(rs, ids)))
  {
    EntriesOfRemaining(rs, ids);
  }

  // ---------------------------------------------------------------- the store

  class Store {
    const host: Host
    /** The attendance table, in id order. */
    var records: seq<Attendance>
    /** `project.employee`: `employee_total_work` by (employee, project). */
    var projectHours: map<(nat, nat), real>
    /** `project.estimation.line`: `estimate_man_hrs` by (project, working date). */
    var estimateHours: map<(nat, Date), real>
    /** The id the next created record gets. */
    var nextId: nat

    predicate Valid()
      reads this
    {
      TableValid(host, Entries(records))
      && forall i :: 0 <= i < |records| ==> records[i].entry.id < nextId
    }

    /** An empty attendance table beside existing project rows. */
    constructor (h: Host, hours: map<(nat, nat), real>, estimates: map<(nat, Date), real>)
      ensures Valid()
      ensures host == h && records == [] && projectHours == hours && estimateHours == estimates && nextId == 0
    {
      host := h;
      records := [];
      projectHours := hours;
      estimateHours := estimates;
      nextId := 0;
    }

    /** `get_working_days_for_month`: the number of distinct dates on which the employee has a
        record in the month. */
    method WorkingDaysForMonth(emp: nat, month: int, year: int) returns (n: nat)
      ensures n == WorkingDays(Entries(records), emp, month, year)
    {
      var dates: set<Date> := {};
      var k := 0;
      while k < |records|
        invariant 0 <= k <= |records|
        invariant dates == set j | 0 <= j < k && InMonth(records[j].entry, emp, month, year) :: records[j].entry.date.value
      {
        var e := records[k].entry;
        if e.employee == Some(emp) && e.date.Some? && e.date.value.month == month && e.date.value.year == year {
          dates := dates + {e.date.value};
        }
        k := k + 1;
      }
      assert dates == WorkingDates(Entries(records), emp, month, year);
      n := |dates|;
    }

    /** `_compute_overtime_hours` for record `i`: walks the employee's closed records of the
        date in check-in order, summing the hours of those before record `i`, and splits the
        record's hours beyond what is left of the daily limit into the bucket of its day kind. */
    method ComputeOvertime(i: nat) returns (b: Buckets)
      requires Valid()
      requires i < |records|
      ensures b == FreshOvertime(host, Entries(records), i)
      ensures b.weekday == 0.0 || b.weekend == 0.0
    {
      b := DayOvertime(host, Entries(records), i);
    }

    /** `_calculate_attendance_costs` for record `i`. */
    method CalculateCosts(i: nat)
      requires Valid()
      requires i < |records|
      modifies this
      ensures Valid()
      ensures records == old(records)[i := old(records)[i].(costs := CostsFor(host, Entries(old(records)), old(records)[i]))]
      ensures projectHours == old(projectHours) && estimateHours == old(estimateHours) && nextId == old(nextId)
    {
      var a := records[i];
      var e := a.entry;
      if e.employee.None? || e.date.None? {
        assert records == records[i := a.(costs := a.costs)];
        return;
      }
      var days := WorkingDaysForMonth(e.employee.value, e.date.value.month, e.date.value.year);
      var c := CostsOf(host, Entries(records), a, days);
      records := records[i := a.(costs := c)];
      assert Entries(records) == Entries(old(records));
    }

    /** `_recalculate_month_attendances`: the costs of every record of the cohort. */
    method RecalculateMonth(c: Cohort)
      requires Valid()
      modifies this
      ensures Valid()
      ensures records == Recalc(host, old(records), {c})
      ensures projectHours == old(projectHours) && estimateHours == old(estimateHours) && nextId == old(nextId)
    {
      var k := 0;
      while k < |records|
        invariant 0 <= k <= |records| == |old(records)|
        invariant Valid()
        invariant Entries(records) == Entries(old(records))
        invariant forall j :: 0 <= j < k ==> records[j] == RecalcOne(host, Entries(old(records)), {c}, old(records)[j])
        invariant forall j :: k <= j < |records| ==> records[j] == old(records)[j]
        invariant projectHours == old(projectHours) && estimateHours == old(estimateHours) && nextId == old(nextId)
      {
        var e := records[k].entry;
        if e.employee == Some(c.employee) && e.date.Some? && e.date.value.month == c.month && e.date.value.year == c.year {
          CalculateCosts(k);
        }
        k := k + 1;
      }
    }

    /** The recalculation loop over a set of cohorts, in whatever order the set yields them. */
    method RecalculateMonths(cs: set<Cohort>)
      requires Valid()
      modifies this
      ensures Valid()
      ensures records == Recalc(host, old(records), cs)
      ensures projectHours == old(projectHours) && estimateHours == old(estimateHours) && nextId == old(nextId)
    {
      var todo, done := cs, {};
      assert records == Recalc(host, records, {}) by {
        forall j | 0 <= j < |records| ensures records[j] == Recalc(host, records, {})[j] { }
      }
      while todo != {}
        invariant todo + done == cs && todo !! done
        invariant Valid()
        invariant records == Recalc(host, old(records), done)
        invariant projectHours == old(projectHours) && estimateHours == old(estimateHours) && nextId == old(nextId)
        decreases |todo|
      {
        var c :| c in todo;
        RecalculateMonth(c);
        RecalcCompose(host, old(records), done, {c});
        todo, done := todo - {c}, done + {c};
      }
    }

    /** `_update_project_employee_hours`: the pair's row holds its hours, or goes when it has none. */
    method UpdateProjectEmployeeHours(emp: nat, proj: nat)
      modifies this
      ensures projectHours == Upserted(old(projectHours), (emp, proj), PairHours(Entries(records), emp, proj))
      ensures records == old(records) && estimateHours == old(estimateHours) && nextId == old(nextId)
    {
      var total := PairHours(Entries(records), emp, proj);
      if total > 0.0 {
        projectHours := projectHours[(emp, proj) := total];
      } else if (emp, proj) in projectHours {
        projectHours := projectHours - {(emp, proj)};
      }
    }

    /** `_update_project_estimation_line`: the line holds the hours of the project on the date,
        or goes when there are none. */
    method UpdateEstimationLine(proj: nat, date: Date)
      modifies this
      ensures estimateHours == Upserted(old(estimateHours), (proj, date), DateHours(Entries(records), proj, date))
      ensures records == old(records) && projectHours == old(projectHours) && nextId == old(nextId)
    {
      var total := DateHours(Entries(records), proj, date);
      if total > 0.0 {
        estimateHours := estimateHours[(proj, date) := total];
      } else if (proj, date) in estimateHours {
        estimateHours := estimateHours - {(proj, date)};
      }
    }

    method UpdatePairs(keys: set<(nat, nat)>)
      modifies this
      ensures projectHours == RefreshedPairs(old(projectHours), Entries(records), keys)
      ensures records == old(records) && estimateHours == old(estimateHours) && nextId == old(nextId)
    {
      projectHours := RefreshPairs(projectHours, Entries(records), keys);
    }

    method UpdateDates(keys: set<(nat, Date)>)
      modifies this
      ensures estimateHours == RefreshedDates(old(estimateHours), Entries(records), keys)
      ensures records == old(records) && projectHours == old(projectHours) && nextId == old(nextId)
    {
      estimateHours := RefreshDates(estimateHours, Entries(records), keys);
    }

    /** Stores the overtime buckets `b` on record `k`. */
    method SetOvertime(k: nat, b: Buckets)
      requires Valid()
      requires k < |records|
      modifies this
      ensures Valid()
      ensures records == old(records)[k := old(records)[k].(ot := b)]
      ensures Entries(records) == Entries(old(records))
      ensures projectHours == old(projectHours) && estimateHours == old(estimateHours) && nextId == old(nextId)
    {
      records := records[k := records[k].(ot := b)];
      assert Entries(records) == Entries(old(records));
    }

    /** The ORM's recomputation of the stored overtime of the records with ids in `ids`. */
    method RefreshStoredOvertime(ids: set<nat>)
      requires Valid()
      modifies this
      ensures Valid()
      ensures records == RefreshOvertime(host, old(records), ids)
      ensures projectHours == old(projectHours) && estimateHours == old(estimateHours) && nextId == old(nextId)
    {
      var k := 0;
      while k < |records|
        invariant 0 <= k <= |records| == |old(records)|
        invariant Valid()
        invariant Entries(records) == Entries(old(records))
        invariant forall j :: 0 <= j < k ==> records[j] == RefreshOvertime(host, old(records), ids)[j]
        invariant forall j :: k <= j < |records| ==> records[j] == old(records)[j]
        invariant projectHours == old(projectHours) && estimateHours == old(estimateHours) && nextId == old(nextId)
      {
        if records[k].entry.id in ids {
          var b := ComputeOvertime(k);
          SetOvertime(k, b);
        }
        k := k + 1;
      }
    }

    /** `create`: cleans the seconds of each `vals`, stores the records, validates each against
        the whole table (a failure rolls everything back), then refreshes the project rows of
        every new record and recalculates the cohort of every new record with an employee
        and a date. */
    method Create(valsList: seq<Vals>) returns (out: Outcome<AttError>)
      requires Valid()
      modifies this
      ensures Valid()
      ensures var added := NewRecords(valsList, old(nextId));
        out == FirstFailure(host, Entries(old(records) + added), Entries(added))
      ensures out.Fail? ==> records == old(records) && projectHours == old(projectHours)
                            && estimateHours == old(estimateHours) && nextId == old(nextId)
      ensures out.Pass? ==>
        var added := NewRecords(valsList, old(nextId));
        var news := Entries(added);
        var stored := RefreshOvertime(host, old(records) + added, set j | 0 <= j < |news| :: news[j].id);
        records == Recalc(host, stored, MonthsOf(news))
        && projectHours == RefreshedPairs(old(projectHours), Entries(stored), PairsOf(news))
        && estimateHours == RefreshedDates(old(estimateHours), Entries(stored), DatesOf(news))
        && nextId == old(nextId) + |valsList|
    {
      var added := NewRecords(valsList, nextId);
      var news := Entries(added);
      EntriesOfAppend(records, added);
      out := FirstFailure(host, Entries(records + added), news);
      if out.Fail? {
        return;
      }
      StoreCreated(added);
      var months := RefreshCreated(news);
      RecalculateMonths(months);
    }

    /** The ORM part of `create`: the validated records `added` are stored and their
        overtime computed. */
    method StoreCreated(added: seq<Attendance>)
      requires Valid()
      requires forall j :: 0 <= j < |added| ==> added[j].entry.id == nextId + j
      requires forall e :: e in Entries(added) ==> Validate(host, Entries(records + added), e) == Pass
      modifies this
      ensures Valid()
      ensures var news := Entries(added);
        records == RefreshOvertime(host, old(records) + added, set j | 0 <= j < |news| :: news[j].id)
      ensures Entries(records) == Entries(old(records) + added)
      ensures projectHours == old(projectHours) && estimateHours == old(estimateHours)
      ensures nextId == old(nextId) + |added|
    {
      var news := Entries(added);
      EntriesOfAppend(records, added);
      CreateKeepsValid(host, Entries(records), news, nextId);
      records := records + added;
      nextId := nextId + |added|;
      RefreshStoredOvertime(set j | 0 <= j < |news| :: news[j].id);
      RefreshOvertimeKeepsEntries(host, old(records) + added, set j | 0 <= j < |news| :: news[j].id);
    }

    /** The loop of `create` over the new records: the project rows of each, and the cohorts
        to recalculate. */
    method RefreshCreated(news: seq<Entry>) returns (months: set<Cohort>)
      modifies this
      ensures months == MonthsOf(news)
      ensures projectHours == RefreshedPairs(old(projectHours), Entries(records), PairsOf(news))
      ensures estimateHours == RefreshedDates(old(estimateHours), Entries(records), DatesOf(news))
      ensures records == old(records) && nextId == old(nextId)
    {
      ghost var es := Entries(records);
      months := {};
      var k := 0;
      while k < |news|
        invariant 0 <= k <= |news|
        invariant records == old(records) && nextId == old(nextId)
        invariant months == MonthsOf(news[..k])
        invariant Refreshed(projectHours, old(projectHours), es, PairsOf(news[..k]))
        invariant DatesRefreshed(estimateHours, old(estimateHours), es, DatesOf(news[..k]))
      {
        var e := news[k];
        assert news[..k + 1] == news[..k] + [e];
        RefreshRecordRows(old(projectHours), old(estimateHours), es, news[..k], e);
        if e.employee.Some? && e.date.Some? {
          months := months + {CohortOf(e)};
        }
        k := k + 1;
      }
      assert news[..|news|] == news;
      PairsPointwise(projectHours, old(projectHours), es, PairsOf(news));
      DatesPointwise(estimateHours, old(estimateHours), es, DatesOf(news));
    }

    /** The project rows of one new record `e`, after those of the records `prior`. */
    method RefreshRecordRows(ghost pairs0: map<(nat, nat), real>, ghost dates0: map<(nat, Date), real>,
                             ghost es: seq<Entry>, ghost prior: seq<Entry>, e: Entry)
      requires es == Entries(records)
      requires Refreshed(projectHours, pairs0, es, PairsOf(prior))
      requires DatesRefreshed(estimateHours, dates0, es, DatesOf(prior))
      modifies this
      ensures Refreshed(projectHours, pairs0, es, PairsOf(prior + [e]))
      ensures DatesRefreshed(estimateHours, dates0, es, DatesOf(prior + [e]))
      ensures records == old(records) && nextId == old(nextId)
    {
      RefreshRecordPair(pairs0, es, prior, e);
      RefreshRecordDate(dates0, es, prior, e);
    }

    /** The `project.employee` row of one new record `e`, after those of the records `prior`. */
    method RefreshRecordPair(ghost pairs0: map<(nat, nat), real>, ghost es: seq<Entry>, ghost prior: seq<Entry>, e: Entry)
      requires es == Entries(records)
      requires Refreshed(projectHours, pairs0, es, PairsOf(prior))
      modifies this
      ensures Refreshed(projectHours, pairs0, es, PairsOf(prior + [e]))
      ensures records == old(records) && estimateHours == old(estimateHours) && nextId == old(nextId)
    {
      assert (prior + [e])[..|prior|] == prior;
      if e.employee.Some? && e.project.Some? {
        ghost var m0 := projectHours;
        UpdateProjectEmployeeHours(e.employee.value, e.project.value);
        RefreshedUpsert(m0, pairs0, es, PairsOf(prior), (e.employee.value, e.project.value));
      }
    }

    /** The estimation line of one new record `e`, after those of the records `prior`. */
    method RefreshRecordDate(ghost dates0: map<(nat, Date), real>, ghost es: seq<Entry>, ghost prior: seq<Entry>, e: Entry)
      requires es == Entries(records)
      requires DatesRefreshed(estimateHours, dates0, es, DatesOf(prior))
      modifies this
      ensures DatesRefreshed(estimateHours, dates0, es, DatesOf(prior + [e]))
      ensures records == old(records) && projectHours == old(projectHours) && nextId == old(nextId)
    {
      assert (prior + [e])[..|prior|] == prior;
      if e.project.Some? && e.date.Some? {
        ghost var m0 := estimateHours;
        UpdateEstimationLine(e.project.value, e.date.value);
        DatesRefreshedUpsert(m0, dates0, es, DatesOf(prior), (e.project.value, e.date.value));
      }
    }

    /** `write`: under `skip_recalculation` only the ORM write happens. Otherwise the old cohorts
        are noted, the check-in and check-out of `vals` are cleaned of seconds, the records are
        written and validated (a failure rolls everything back), and the project rows of the
        old and new pairs and dates and the old and new cohorts are refreshed. */
    method Write(ids: set<nat>, vals: Vals, skip: bool) returns (out: Outcome<AttError>)
      requires Valid()
      modifies this
      ensures Valid()
      ensures nextId == old(nextId)
      ensures var v := if skip then vals else CleanVals(vals);
        var written := WriteRecords(old(records), ids, v);
        out == if TouchesConstraint(v) then FirstFailure(host, Entries(written), Selected(Entries(written), ids)) else Pass
      ensures out.Fail? ==> records == old(records) && projectHours == old(projectHours) && estimateHours == old(estimateHours)
      ensures out.Pass? && skip ==>
        records == RefreshOvertime(host, WriteRecords(old(records), ids, vals), if TouchesOvertime(vals) then ids else {})
        && projectHours == old(projectHours) && estimateHours == old(estimateHours)
      ensures out.Pass? && !skip ==>
        var v := CleanVals(vals);
        var written := WriteRecords(old(records), ids, v);
        var stored := RefreshOvertime(host, written, if TouchesOvertime(v) then ids else {});
        var before, after := Selected(Entries(old(records)), ids), Selected(Entries(written), ids);
        records == Recalc(host, stored, MonthsOf(before) + MonthsOf(after))
        && projectHours == RefreshedPairs(old(projectHours), Entries(written), PairsOf(before) + PairsOf(after))
        && estimateHours == RefreshedDates(old(estimateHours), Entries(written), FullDatesOf(before) + FullDatesOf(after))
    {
      var v := if skip then vals else CleanVals(vals);
      var before := Selected(Entries(records), ids);
      ghost var written := WriteRecords(records, ids, v);
      out := StoreWrite(ids, v);
      if out.Fail? || skip {
        return;
      }
      RefreshOvertimeKeepsEntries(host, written, if TouchesOvertime(v) then ids else {});
      var after := Selected(Entries(records), ids);
      RefreshRows(PairsOf(before) + PairsOf(after), FullDatesOf(before) + FullDatesOf(after), MonthsOf(before) + MonthsOf(after));
    }

    /** The ORM part of `write`: the records are written and validated, and their stored
        overtime is recomputed when the write touches what it depends on. */
    method StoreWrite(ids: set<nat>, v: Vals) returns (out: Outcome<AttError>)
      requires Valid()
      modifies this
      ensures Valid()
      ensures var written := WriteRecords(old(records), ids, v);
        out == if TouchesConstraint(v) then FirstFailure(host, Entries(written), Selected(Entries(written), ids)) else Pass
      ensures out.Fail? ==> records == old(records)
      ensures out.Pass? ==> records == RefreshOvertime(host, WriteRecords(old(records), ids, v), if TouchesOvertime(v) then ids else {})
      ensures projectHours == old(projectHours) && estimateHours == old(estimateHours) && nextId == old(nextId)
    {
      var written := WriteRecords(records, ids, v);
      if TouchesConstraint(v) {
        out := FirstFailure(host, Entries(written), Selected(Entries(written), ids));
        if out.Fail? {
          return;
        }
      } else {
        out := Pass;
      }
      WriteKeepsValid(host, records, ids, v);
      records := written;
      if TouchesOvertime(v) {
        RefreshStoredOvertime(ids);
      } else {
        assert records == RefreshOvertime(host, written, {});
      }
    }

    /** The refresh that follows a write or a delete: the project rows of `pairs` and `dates`
        from the records as they stand, then the cohorts of `months`. */
    method RefreshRows(pairs: set<(nat, nat)>, dates: set<(nat, Date)>, months: set<Cohort>)
      requires Valid()
      modifies this
      ensures Valid()
      ensures records == Recalc(host, old(records), months)
      ensures projectHours == RefreshedPairs(old(projectHours), Entries(old(records)), pairs)
      ensures estimateHours == RefreshedDates(old(estimateHours), Entries(old(records)), dates)
      ensures nextId == old(nextId)
    {
      UpdatePairs(pairs);
      UpdateDates(dates);
      RecalculateMonths(months);
    }

    /** `unlink`: notes the pairs of the deleted records with employee and project, and the dates
        and cohorts of those that also have a date, deletes the records, refreshes those rows
        and recalculates those cohorts among the remaining records. */
    method Unlink(ids: set<nat>)
      requires Valid()
      modifies this
      ensures Valid()
      ensures var gone := Selected(Entries(old(records)), ids);
        var rest := Remaining(old(records), ids);
        records == Recalc(host, rest, FullMonthsOf(gone))
        && projectHours == RefreshedPairs(old(projectHours), Entries(rest), PairsOf(gone))
        && estimateHours == RefreshedDates(old(estimateHours), Entries(rest), FullDatesOf(gone))
        && nextId == old(nextId)
    {
      var gone := Selected(Entries(records), ids);
      var combos := PairsOf(gone);
      var dates := FullDatesOf(gone);
      var months := FullMonthsOf(gone);
      UnlinkKeepsValid(host, records, ids);
      EntriesOfRemaining(records, ids);
      var rest := Remaining(records, ids);
      forall i | 0 <= i < |rest|
        ensures rest[i].entry.id < nextId
      {
        assert rest[i] in records;
      }
      records := rest;
      RefreshRows(combos, dates, months);
    }
  }

  /** The loop over the touched (employee, project) pairs, each refreshed as
      `_update_project_employee_hours` does. */
  method RefreshPairs(t: map<(nat, nat), real>, es: seq<Entry>, keys: set<(nat, nat)>) returns (m: map<(nat, nat), real>)
    ensures m == RefreshedPairs(t, es, keys)
  {
    m := t;
    var todo, done := keys, {};
    while todo != {}
      invariant todo + done == keys
      invariant Refreshed(m, t, es, done)
      decreases |todo|
    {
      var k :| k in todo;
      RefreshedUpsert(m, t, es, done, k);
      m := Upserted(m, k, PairHours(es, k.0, k.1));
      todo, done := todo - {k}, done + {k};
    }
    PairsPointwise(m, t, es, keys);
  }


  /** The loop over the touched (project, date) keys, each refreshed as
      `_update_project_estimation_line` does. */
  method RefreshDates(t: map<(nat, Date), real>, es: seq<Entry>, keys: set<(nat, Date)>) returns (m: map<(nat, Date), real>)
    ensures m == RefreshedDates(t, es, keys)
  {
    m := t;
    var todo, done := keys, {};
    while todo != {}
      invariant todo + done == keys
      invariant DatesRefreshed(m, t, es, done)
      decreases |todo|
    {
      var k :| k in todo;
      DatesRefreshedUpsert(m, t, es, done, k);
      m := Upserted(m, k, DateHours(es, k.0, k.1));
      todo, done := todo - {k}, done + {k};
    }
    DatesPointwise(m, t, es, keys);
  }


  /** The walk of `_compute_overtime_hours` over the table `es` for its record `i`. */
  method DayOvertime(host: Host, es: seq<Entry>, i: nat) returns (b: Buckets)
    requires IdsIncreasing(es) && i < |es|
    ensures b == FreshOvertime(host, es, i)
    ensures b.weekday == 0.0 || b.weekend == 0.0
  {
    var e := es[i];
    b := NoOvertime();
    if e.checkIn.None? || e.employee.None? || e.date.None? {
      return;
    }
    var cal := host.employee(e.employee.value).calendar;
    if cal.None? {
      return;
    }
    b := WalkRecordDay(host, es, i, cal.value);
  }

  /** The walk itself, for a record with a check-in, an employee, a date and a calendar. */
  method WalkRecordDay(host: Host, es: seq<Entry>, i: nat, cal: Calendar) returns (b: Buckets)
    requires IdsIncreasing(es) && i < |es|
    requires es[i].checkIn.Some? && es[i].employee.Some? && es[i].date.Some?
    requires host.employee(es[i].employee.value).calendar == Some(cal)
    ensures b == FreshOvertime(host, es, i)
  {
    var e := es[i];
    var kind := CheckInDayKind(host.localWeekday(e.checkIn.value));
    var day := Sort(SameDay(es, e.employee.value, e.date.value));
    var k;
    k, b := WalkDay(day, e.id, DailyLimit(cal, kind), IsWeekend(kind));
    if k < |day| {
      OvertimeAtHit(host, es, i, day, k);
    } else {
      OvertimeAtMiss(host, es, i, day);
    }
  }

  /** The computation of `_calculate_attendance_costs` for a record with an employee and a
      date, given the employee's working days that month. */
  method CostsOf(host: Host, ghost es: seq<Entry>, a: Attendance, days: nat) returns (c: CostFields)
    requires a.entry.employee.Some? && a.entry.date.Some?
    requires days == WorkingDays(es, a.entry.employee.value, a.entry.date.value.month, a.entry.date.value.year)
    ensures c == CostsFor(host, es, a)
  {
    var e := a.entry;
    var emp := host.employee(e.employee.value);
    var department: Option<nat> := None;
    if e.project.Some? && host.projectDepartment(e.project.value).Some? {
      department := host.projectDepartment(e.project.value);
    }
    c := AttendanceCosts(Worked(e), a.ot.weekday, a.ot.weekend, emp.ratePerHour, emp.salaryRatePerHour,
                         emp.monthly, days, department, a.misc);
  }

  // ---------------------------------------------------------------- proof steps of ComputeOvertime

  predicate SegmentIdsIncreasing(s: seq<Segment>)
  {
    forall i, j :: 0 <= i < j < |s| ==> s[i].id < s[j].id
  }

  lemma SameDayAbove(es: seq<Entry>, emp: nat, date: Date, bound: int)
    requires forall j :: 0 <= j < |es| ==> es[j].id > bound
    ensures forall x :: x in SameDay(es, emp, date) ==> x.id > bound
  {
    SameDayMembers(es, emp, date);
    forall x | x in SameDay(es, emp, date)
      ensures x.id > bound
    {
      var e :| e in es && OnDay(e, emp, date) && x == SegmentOf(e);
      var j :| 0 <= j < |es| && es[j] == e;
    }
  }

  /** The day's segments keep the table's id order. */
  lemma {:induction false} SameDayIncreasing(es: seq<Entry>, emp: nat, date: Date)
    requires IdsIncreasing(es)
    ensures SegmentIdsIncreasing(SameDay(es, emp, date))
  {
    if es != [] {
      var rest := es[1..];
      TailIncreasing(es);
      SameDayIncreasing(rest, emp, date);
      var tail := SameDay(rest, emp, date);
      if OnDay(es[0], emp, date) {
        SameDayAbove(rest, emp, date, es[0].id);
        ConsIncreasing(SegmentOf(es[0]), tail);
        assert SameDay(es, emp, date) == [SegmentOf(es[0])] + tail;
      } else {
        assert SameDay(es, emp, date) == [] + tail;
        assert [] + tail == tail;
      }
    }
  }

  lemma TailIncreasing(es: seq<Entry>)
    requires IdsIncreasing(es) && es != []
    ensures IdsIncreasing(es[1..])
    ensures forall j :: 0 <= j < |es[1..]| ==> es[1..][j].id > es[0].id
  {
    var rest := es[1..];
    forall i, j | 0 <= i < j < |rest| ensures rest[i].id < rest[j].id {
      assert es[1 + i] == rest[i] && es[1 + j] == rest[j];
    }
    forall j | 0 <= j < |rest| ensures rest[j].id > es[0].id {
      assert es[1 + j] == rest[j];
    }
  }

  lemma ConsIncreasing(x: Segment, tail: seq<Segment>)
    requires SegmentIdsIncreasing(tail)
    requires forall y :: y in tail ==> y.id > x.id
    ensures SegmentIdsIncreasing([x] + tail)
  {
    var day := [x] + tail;
    forall i, j | 0 <= i < j < |day|
      ensures day[i].id < day[j].id
    {
      assert day[j] == tail[j - 1];
      if i > 0 {
        assert day[i] == tail[i - 1];
      } else {
        assert tail[j - 1] in tail;
      }
    }
  }

  /** A closed record of the table is among its day's sorted segments. */
  lemma FoundIfClosed(es: seq<Entry>, i: nat, day: seq<Segment>)
    requires i < |es| && es[i].employee.Some? && es[i].date.Some?
    requires day == Sort(SameDay(es, es[i].employee.value, es[i].date.value))
    ensures Closed(es[i]) ==> exists j :: 0 <= j < |day| && day[j].id == es[i].id
  {
    var e := es[i];
    if Closed(e) {
      SameDayMembers(es, e.employee.value, e.date.value);
      assert e in es && OnDay(e, e.employee.value, e.date.value);
      assert SegmentOf(e) in multiset(day);
      var j :| 0 <= j < |day| && day[j] == SegmentOf(e);
    }
  }

  /** The sorted segment carrying the record's id is the record's own segment. */
  lemma SegmentAt(es: seq<Entry>, i: nat, day: seq<Segment>, k: nat)
    requires IdsIncreasing(es) && i < |es| && es[i].employee.Some? && es[i].date.Some?
    requires day == Sort(SameDay(es, es[i].employee.value, es[i].date.value))
    requires k < |day| && day[k].id == es[i].id
    ensures Closed(es[i]) && day[k] == SegmentOf(es[i])
  {
    var e := es[i];
    var unsorted := SameDay(es, e.employee.value, e.date.value);
    SameDayMembers(es, e.employee.value, e.date.value);
    assert day[k] in multiset(unsorted);
    assert day[k] in unsorted;
    var e2 :| e2 in es && OnDay(e2, e.employee.value, e.date.value) && day[k] == SegmentOf(e2);
    assert e in es;
    UniqueId(es, e, e2);
  }

  /** At the record's own place in the sorted day, what the walk has summed is what the
      day's earlier segments worked, so the allocation there is the record's fresh overtime. */
  lemma OvertimeAtHit(h: Host, es: seq<Entry>, i: nat, day: seq<Segment>, k: nat)
    requires IdsIncreasing(es) && i < |es|
    requires es[i].checkIn.Some? && es[i].employee.Some? && es[i].date.Some?
    requires h.employee(es[i].employee.value).calendar.Some?
    requires day == Sort(SameDay(es, es[i].employee.value, es[i].date.value))
    requires k < |day| && day[k].id == es[i].id
    ensures var kind := CheckInDayKind(h.localWeekday(es[i].checkIn.value));
      FreshOvertime(h, es, i)
      == Allocate(day[k].worked, Max0(DailyLimit(h.employee(es[i].employee.value).calendar.value, kind) - SumWorked(day[..k])),
                  IsWeekend(kind))
  {
    var e := es[i];
    var unsorted := SameDay(es, e.employee.value, e.date.value);
    SegmentAt(es, i, day, k);
    DaySorted(es, e.employee.value, e.date.value);
    SumBeforeSorted(day, k);
    SumBeforeSort(unsorted, day[k]);
  }

  /** A record missing from its sorted day is not closed and has no overtime. */
  lemma OvertimeAtMiss(h: Host, es: seq<Entry>, i: nat, day: seq<Segment>)
    requires i < |es| && es[i].employee.Some? && es[i].date.Some?
    requires day == Sort(SameDay(es, es[i].employee.value, es[i].date.value))
    requires forall j :: 0 <= j < |day| ==> day[j].id != es[i].id
    ensures FreshOvertime(h, es, i) == NoOvertime()
  {
    FoundIfClosed(es, i, day);
  }

  lemma DaySorted(es: seq<Entry>, emp: nat, date: Date)
    requires IdsIncreasing(es)
    ensures StrictlySorted(Sort(SameDay(es, emp, date)))
  {
    SameDayIncreasing(es, emp, date);
    SortSorted(SameDay(es, emp, date));
  }
}
