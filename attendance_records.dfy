/** The attendance table and the rules that read it: the constrained fields of a record,
    its validation, the fresh overtime of a record among its same-day siblings, the
    employee's distinct working dates in a month, the cost recomputation of
    (employee, month, year) cohorts, and the derived project-hour tables. */
module AttendanceRecords {
  import opened Wrappers
  import opened AttendanceTime
  import opened Overtime
  import opened AttendanceCost

  /** What an attendance reads from its employee (`hr.employee`): the pay rates, the ten
      monthly overheads and the working calendar. */
  datatype Employee = Employee(ratePerHour: real, salaryRatePerHour: real, monthly: Overheads,
                               calendar: Option<Calendar>)

  /** A leave request (`hr.leave`); `validated` is state `validate`. */
  datatype Leave = Leave(employee: nat, validated: bool, dateFrom: Date, dateTo: Date)

  /** What the attendance engine reads from the rest of the database and the user's session:
      employees by id, each project's department, the leave requests, and the weekday
      (`%w`, Sunday 0) of a UTC timestamp in the user's timezone. */
  datatype Host = Host(employee: nat -> Employee, projectDepartment: nat -> Option<nat>,
                       localWeekday: int -> WeekdayNumber, leaves: seq<Leave>)

  /** The fields of an attendance record that its constraint watches. Timestamps are UTC
      microseconds; `None` is an unset (`False`) field. */
  datatype Entry = Entry(id: nat, employee: Option<nat>, project: Option<nat>, date: Option<Date>,
                         checkIn: Option<int>, checkOut: Option<int>)

  /** A stored attendance record: its constrained fields, `misc_amount`, the stored overtime
      fields and the cost fields the engine writes. */
  datatype Attendance = Attendance(entry: Entry, misc: real, ot: Buckets, costs: CostFields)

  function Entries(rs: seq<Attendance>): (es: seq<Entry>)
    ensures |es| == |rs|
    ensures forall i :: 0 <= i < |rs| ==> es[i] == rs[i].entry
  {
    seq(|rs|, i requires 0 <= i < |rs| => rs[i].entry)
  }

  predicate Closed(e: Entry)
  {
    e.checkIn.Some? && e.checkOut.Some?
  }

  /** The stored `worked_hours` of a record. */
  function Worked(e: Entry): real
  {
    WorkedHours(e.checkIn, e.checkOut)
  }

  function SegmentOf(e: Entry): Segment
    requires Closed(e)
  {
    Segment(e.id, e.checkIn.value, Worked(e))
  }

  /** Same employee and same attendance date. */
  predicate SameSlot(a: Entry, b: Entry)
  {
    a.employee == b.employee && a.date == b.date
  }

  predicate OnDay(e: Entry, emp: nat, date: Date)
  {
    e.employee == Some(emp) && e.date == Some(date) && Closed(e)
  }

  /** The employee's records on `date` with both times set, as segments, in table order. */
  function SameDay(es: seq<Entry>, emp: nat, date: Date): seq<Segment>
  {
    if es == [] then []
    else (if OnDay(es[0], emp, date) then [SegmentOf(es[0])] else []) + SameDay(es[1..], emp, date)
  }

  /** The day's segments are exactly those of the employee's closed records of that date. */
  lemma {:induction false} SameDayMembers(es: seq<Entry>, emp: nat, date: Date)
    ensures forall x :: x in SameDay(es, emp, date) ==> exists e :: e in es && OnDay(e, emp, date) && x == SegmentOf(e)
    ensures forall e :: e in es && OnDay(e, emp, date) ==> SegmentOf(e) in SameDay(es, emp, date)
  {
    if es != [] {
      SameDayMembers(es[1..], emp, date);
      assert forall e :: e in es ==> e == es[0] || e in es[1..];
    }
  }

  /** Record ids increase along the table, so no id appears twice. */
  predicate IdsIncreasing(es: seq<Entry>)
  {
    forall i, j :: 0 <= i < j < |es| ==> es[i].id < es[j].id
  }

  lemma UniqueIdAt(es: seq<Entry>, i: nat, j: nat)
    requires IdsIncreasing(es)
    requires i < |es| && j < |es| && es[i].id == es[j].id
    ensures i == j
  {
  }

  /** An id picks out one record. */
  lemma UniqueId(es: seq<Entry>, a: Entry, b: Entry)
    requires IdsIncreasing(es)
    requires a in es && b in es && a.id == b.id
    ensures a == b
  {
    var i :| 0 <= i < |es| && es[i] == a;
    var j :| 0 <= j < |es| && es[j] == b;
    UniqueIdAt(es, i, j);
  }

  /** `_compute_overtime_hours` for record `i`, against the table as it is: nothing without a
      check-in, employee, date or calendar; otherwise the day kind of the local check-in
      decides limit and bucket, and the record's allowance is what its employee's earlier
      closed segments of that date leave of the limit. A record without check-out is not
      among the closed segments and gets no overtime. */
  function FreshOvertime(h: Host, es: seq<Entry>, i: nat): Buckets
    requires i < |es|
  {
    var e := es[i];
    if e.checkIn.None? || e.employee.None? || e.date.None? then NoOvertime()
    else
      var cal := h.employee(e.employee.value).calendar;
      if cal.None? || e.checkOut.None? then NoOvertime()
      else
        var kind := CheckInDayKind(h.localWeekday(e.checkIn.value));
        SegmentOvertime(SameDay(es, e.employee.value, e.date.value), SegmentOf(e),
                        DailyLimit(cal.value, kind), IsWeekend(kind))
  }

  /** The error `_check_attendance_validations` raises, in the order it checks. */
  datatype AttError =
    | MissingFields(employee: bool, project: bool, date: bool)
    | MissingTimes
    | LeaveConflict
    | InvalidTimeRange
    | OverlapSameProject(existing: nat)
    | OverlapOtherProject(existing: nat)
    | UnreadableTimes(existing: nat)

  /** A validated leave of the employee covers the date. */
  predicate OnLeave(h: Host, emp: nat, date: Date)
  {
    exists k :: 0 <= k < |h.leaves| && h.leaves[k].employee == emp && h.leaves[k].validated
      && DateLe(h.leaves[k].dateFrom, date) && DateLe(date, h.leaves[k].dateTo)
  }

  /** Two closed segments share time: each starts before the other ends. */
  predicate Overlaps(a: Entry, b: Entry)
    requires Closed(a) && Closed(b)
  {
    a.checkIn.value < b.checkOut.value && a.checkOut.value > b.checkIn.value
  }

  /** Overlap does not depend on which record is being saved. */
  lemma OverlapSymmetric(a: Entry, b: Entry)
    requires Closed(a) && Closed(b)
    ensures Overlaps(a, b) <==> Overlaps(b, a)
  {
  }

  /** A segment that ends exactly when the next starts does not overlap it. */
  lemma BackToBackAllowed(a: Entry, b: Entry)
    requires Closed(a) && Closed(b)
    requires a.checkOut.value == b.checkIn.value
    ensures !Overlaps(a, b)
  {
  }

  /** `_check_overlapping_attendance`: the first other record of the employee on that date that
      has no times to compare (the source then fails on the missing value) or overlaps `e`. */
  function CheckOverlap(es: seq<Entry>, e: Entry): Outcome<AttError>
    requires Closed(e)
  {
    if es == [] then Pass
    else
      var ex := es[0];
      if ex.id != e.id && SameSlot(ex, e) then
        if !Closed(ex) then Fail(UnreadableTimes(ex.id))
        else if Overlaps(e, ex) then
          if ex.project == e.project then Fail(OverlapSameProject(ex.id)) else Fail(OverlapOtherProject(ex.id))
        else CheckOverlap(es[1..], e)
      else CheckOverlap(es[1..], e)
  }

  /** `_check_attendance_validations` for one record against the table `es`. */
  function Validate(h: Host, es: seq<Entry>, e: Entry): Outcome<AttError>
  {
    if e.employee.None? || e.project.None? || e.date.None? then
      Fail(MissingFields(e.employee.None?, e.project.None?, e.date.None?))
    else if !Closed(e) then Fail(MissingTimes)
    else if OnLeave(h, e.employee.value, e.date.value) then Fail(LeaveConflict)
    else if e.checkOut.value <= e.checkIn.value then Fail(InvalidTimeRange)
    else CheckOverlap(es, e)
  }

  /** No other same-slot record of `es` is open or overlaps `e`. */
  predicate NoClash(es: seq<Entry>, e: Entry)
    requires Closed(e)
  {
    forall ex :: ex in es && ex.id != e.id && SameSlot(ex, e) ==> Closed(ex) && !Overlaps(e, ex)
  }

  /** What a record that passes validation satisfies. */
  predicate Admissible(h: Host, es: seq<Entry>, e: Entry)
  {
    e.employee.Some? && e.project.Some? && e.date.Some? && Closed(e)
    && !OnLeave(h, e.employee.value, e.date.value)
    && e.checkIn.value < e.checkOut.value
    && NoClash(es, e)
  }

  lemma {:induction false} CheckOverlapIff(es: seq<Entry>, e: Entry)
    requires Closed(e)
    ensures CheckOverlap(es, e) == Pass <==> NoClash(es, e)
  {
    if es != [] {
      CheckOverlapIff(es[1..], e);
      assert forall ex :: ex in es <==> ex == es[0] || ex in es[1..];
    }
  }

  /** Validation passes exactly for admissible records: mandatory fields and both times set,
      no validated leave on the date, check-out after check-in, and no other record of the
      employee on that date overlapping it, whether on the same project or another. */
  lemma ValidateIff(h: Host, es: seq<Entry>, e: Entry)
    ensures Validate(h, es, e) == Pass <==> Admissible(h, es, e)
  {
    if e.employee.Some? && e.project.Some? && e.date.Some? && Closed(e) {
      CheckOverlapIff(es, e);
    }
  }

  /** The first failure among the records `cands`, validated in order against `es`. */
  function FirstFailure(h: Host, es: seq<Entry>, cands: seq<Entry>): (r: Outcome<AttError>)
    ensures r == Pass <==> forall e :: e in cands ==> Validate(h, es, e) == Pass
  {
    if cands == [] then Pass
    else if Validate(h, es, cands[0]).Fail? then Validate(h, es, cands[0])
    else
      assert forall e :: e in cands <==> e == cands[0] || e in cands[1..];
      FirstFailure(h, es, cands[1..])
  }

  /** The table invariant: ids increase and every record is admissible against the table. */
  predicate TableValid(h: Host, es: seq<Entry>)
  {
    IdsIncreasing(es) && forall e :: e in es ==> Admissible(h, es, e)
  }

  // ---------------------------------------------------------------- working days

  predicate InMonth(e: Entry, emp: nat, month: int, year: int)
  {
    e.employee == Some(emp) && e.date.Some? && e.date.value.month == month && e.date.value.year == year
  }

  /** The distinct attendance dates of the employee in the month. */
  function WorkingDates(es: seq<Entry>, emp: nat, month: int, year: int): set<Date>
  {
    set i | 0 <= i < |es| && InMonth(es[i], emp, month, year) :: es[i].date.value
  }

  /** `get_working_days_for_month`. */
  function WorkingDays(es: seq<Entry>, emp: nat, month: int, year: int): nat
  {
    |WorkingDates(es, emp, month, year)|
  }

  /** A further record adds its date to the month's working dates, and nothing else. */
  lemma WorkingDatesAppend(es: seq<Entry>, e: Entry, emp: nat, month: int, year: int)
    ensures WorkingDates(es + [e], emp, month, year)
            == WorkingDates(es, emp, month, year) + (if InMonth(e, emp, month, year) then {e.date.value} else {})
  {
    var s := es + [e];
    forall d | d in WorkingDates(s, emp, month, year)
      ensures d in WorkingDates(es, emp, month, year) + (if InMonth(e, emp, month, year) then {e.date.value} else {})
    {
      var i :| 0 <= i < |s| && InMonth(s[i], emp, month, year) && s[i].date.value == d;
      if i < |es| {
        assert es[i] == s[i];
      }
    }
    forall d | d in WorkingDates(es, emp, month, year)
      ensures d in WorkingDates(s, emp, month, year)
    {
      var i :| 0 <= i < |es| && InMonth(es[i], emp, month, year) && es[i].date.value == d;
      assert s[i] == es[i];
    }
    if InMonth(e, emp, month, year) {
      assert s[|es|] == e;
    }
  }

  /** A second segment on a day already worked does not add a working day; a segment on a
      new day of the month adds exactly one. */
  lemma SameDayCountsOnce(es: seq<Entry>, e: Entry, emp: nat, month: int, year: int)
    requires InMonth(e, emp, month, year)
    ensures e.date.value in WorkingDates(es, emp, month, year) ==>
              WorkingDays(es + [e], emp, month, year) == WorkingDays(es, emp, month, year)
    ensures e.date.value !in WorkingDates(es, emp, month, year) ==>
              WorkingDays(es + [e], emp, month, year) == WorkingDays(es, emp, month, year) + 1
  {
    WorkingDatesAppend(es, e, emp, month, year);
  }

  // ---------------------------------------------------------------- costs

  /** An (employee, month, year) whose records' costs are recalculated together. */
  datatype Cohort = Cohort(employee: nat, month: int, year: int)

  predicate InCohort(e: Entry, c: Cohort)
  {
    InMonth(e, c.employee, c.month, c.year)
  }

  /** The cohort of a record with an employee and a date. */
  function CohortOf(e: Entry): (c: Cohort)
    requires e.employee.Some? && e.date.Some?
    ensures InCohort(e, c)
  {
    Cohort(e.employee.value, e.date.value.month, e.date.value.year)
  }

  predicate InSomeCohort(e: Entry, cs: set<Cohort>)
  {
    e.employee.Some? && e.date.Some? && CohortOf(e) in cs
  }

  /** `_calculate_attendance_costs` for one record: nothing changes without employee or date;
      otherwise the cost fields follow from the record's worked hours, its stored overtime,
      its employee, its project's department, its misc amount and the employee's working
      days in the record's month. */
  function CostsFor(h: Host, es: seq<Entry>, a: Attendance): CostFields
  {
    var e := a.entry;
    if e.employee.None? || e.date.None? then a.costs
    else
      var emp := h.employee(e.employee.value);
      var dept := if e.project.Some? then h.projectDepartment(e.project.value) else None;
      AttendanceCosts(Worked(e), a.ot.weekday, a.ot.weekend, emp.ratePerHour, emp.salaryRatePerHour,
                      emp.monthly, WorkingDays(es, e.employee.value, e.date.value.month, e.date.value.year),
                      dept, a.misc)
  }

  /** What recalculating the cohorts `cs` leaves in one record. */
  function RecalcOne(h: Host, es: seq<Entry>, cs: set<Cohort>, a: Attendance): Attendance
  {
    if InSomeCohort(a.entry, cs) then a.(costs := CostsFor(h, es, a)) else a
  }

  /** `_recalculate_month_attendances` for every cohort of `cs`. */
  function Recalc(h: Host, rs: seq<Attendance>, cs: set<Cohort>): (r: seq<Attendance>)
    ensures |r| == |rs|
  {
    seq(|rs|, i requires 0 <= i < |rs| => RecalcOne(h, Entries(rs), cs, rs[i]))
  }

  /** Recalculation writes cost fields only. */
  lemma RecalcKeepsEntries(h: Host, rs: seq<Attendance>, cs: set<Cohort>)
    ensures Entries(Recalc(h, rs, cs)) == Entries(rs)
    ensures forall i :: 0 <= i < |rs| ==> Recalc(h, rs, cs)[i].misc == rs[i].misc && Recalc(h, rs, cs)[i].ot == rs[i].ot
  {
  }

  /** Recalculating cohort after cohort is recalculating them all at once, in any order. */
  lemma RecalcCompose(h: Host, rs: seq<Attendance>, a: set<Cohort>, b: set<Cohort>)
    ensures Recalc(h, Recalc(h, rs, a), b) == Recalc(h, rs, a + b)
  {
    RecalcKeepsEntries(h, rs, a);
    var r1 := Recalc(h, rs, a);
    forall i | 0 <= i < |rs|
      ensures Recalc(h, r1, b)[i] == Recalc(h, rs, a + b)[i]
    {
      assert r1[i].entry == rs[i].entry && r1[i].misc == rs[i].misc && r1[i].ot == rs[i].ot;
      if InSomeCohort(rs[i].entry, b) {
        assert CostsFor(h, Entries(r1), r1[i]) == CostsFor(h, Entries(rs), rs[i]);
      }
    }
  }

  /** Recalculating twice leaves what recalculating once left: the misc amount is written
      back unchanged and nothing the calculation reads is written by it. */
  lemma RecalcIdempotent(h: Host, rs: seq<Attendance>, cs: set<Cohort>)
    ensures Recalc(h, Recalc(h, rs, cs), cs) == Recalc(h, rs, cs)
  {
    RecalcCompose(h, rs, cs, cs);
    assert cs + cs == cs;
  }

  // ---------------------------------------------------------------- project tables

  predicate OfPair(e: Entry, emp: nat, proj: nat)
  {
    e.employee == Some(emp) && e.project == Some(proj)
  }

  predicate OfProjectDate(e: Entry, proj: nat, date: Date)
  {
    e.project == Some(proj) && e.date == Some(date)
  }

  /** Hours the employee worked on the project, over all its records. */
  function PairHours(es: seq<Entry>, emp: nat, proj: nat): real
  {
    if es == [] then 0.0
    else (if OfPair(es[0], emp, proj) then Worked(es[0]) else 0.0) + PairHours(es[1..], emp, proj)
  }

  /** Hours all employees worked on the project on the date. */
  function DateHours(es: seq<Entry>, proj: nat, date: Date): real
  {
    if es == [] then 0.0
    else (if OfProjectDate(es[0], proj, date) then Worked(es[0]) else 0.0) + DateHours(es[1..], proj, date)
  }

  /** `project.employee` rows (`employee_total_work` by employee and project) after
      `_update_project_employee_hours` for every pair of `keys`: a pair with hours gets them,
      a pair without loses its row, other rows stay as they were. */
  function RefreshedPairs(t: map<(nat, nat), real>, es: seq<Entry>, keys: set<(nat, nat)>): map<(nat, nat), real>
  {
    map k | k in t.Keys + keys && (k in keys ==> PairHours(es, k.0, k.1) > 0.0)
      :: if k in keys then PairHours(es, k.0, k.1) else t[k]
  }

  /** `project.estimation.line` rows (`estimate_man_hrs` by project and working date) after
      `_update_project_estimation_line` for every key of `keys`. */
  function RefreshedDates(t: map<(nat, Date), real>, es: seq<Entry>, keys: set<(nat, Date)>): map<(nat, Date), real>
  {
    map k | k in t.Keys + keys && (k in keys ==> DateHours(es, k.0, k.1) > 0.0)
      :: if k in keys then DateHours(es, k.0, k.1) else t[k]
  }

  /** One row upserted: kept with the total when it is positive, removed otherwise. */
  function Upserted<K(!new)>(t: map<K, real>, k: K, total: real): (r: map<K, real>)
    ensures k in r <==> total > 0.0
    ensures k in r ==> r[k] == total
    ensures forall q :: q != k ==> (q in r <==> q in t) && (q in r ==> r[q] == t[q])
  {
    if total > 0.0 then t[k := total] else t - {k}
  }

  /** `m` holds the refreshed hours of the pairs `keys` and the rows of `t` elsewhere. */
  ghost predicate Refreshed(m: map<(nat, nat), real>, t: map<(nat, nat), real>, es: seq<Entry>, keys: set<(nat, nat)>)
  {
    (forall q :: q in keys ==> (q in m <==> PairHours(es, q.0, q.1) > 0.0) && (q in m ==> m[q] == PairHours(es, q.0, q.1)))
    && (forall q :: q !in keys ==> (q in m <==> q in t) && (q in m ==> m[q] == t[q]))
  }

  /** The same for the estimation lines of the (project, date) keys. */
  ghost predicate DatesRefreshed(m: map<(nat, Date), real>, t: map<(nat, Date), real>, es: seq<Entry>, keys: set<(nat, Date)>)
  {
    (forall q :: q in keys ==> (q in m <==> DateHours(es, q.0, q.1) > 0.0) && (q in m ==> m[q] == DateHours(es, q.0, q.1)))
    && (forall q :: q !in keys ==> (q in m <==> q in t) && (q in m ==> m[q] == t[q]))
  }

  /** One more upserted pair extends the refreshed keys by that pair. */
  lemma RefreshedUpsert(m: map<(nat, nat), real>, t: map<(nat, nat), real>, es: seq<Entry>, keys: set<(nat, nat)>, k: (nat, nat))
    requires Refreshed(m, t, es, keys)
    ensures Refreshed(Upserted(m, k, PairHours(es, k.0, k.1)), t, es, keys + {k})
  {
  }

  lemma DatesRefreshedUpsert(m: map<(nat, Date), real>, t: map<(nat, Date), real>, es: seq<Entry>, keys: set<(nat, Date)>, k: (nat, Date))
    requires DatesRefreshed(m, t, es, keys)
    ensures DatesRefreshed(Upserted(m, k, DateHours(es, k.0, k.1)), t, es, keys + {k})
  {
  }

  /** A table agrees with the refreshed one key by key. */
  lemma PairsPointwise(m: map<(nat, nat), real>, t: map<(nat, nat), real>, es: seq<Entry>, keys: set<(nat, nat)>)
    requires Refreshed(m, t, es, keys)
    ensures m == RefreshedPairs(t, es, keys)
  {
  }

  lemma DatesPointwise(m: map<(nat, Date), real>, t: map<(nat, Date), real>, es: seq<Entry>, keys: set<(nat, Date)>)
    requires DatesRefreshed(m, t, es, keys)
    ensures m == RefreshedDates(t, es, keys)
  {
  }

  /** Refreshing one more pair after a set of pairs is refreshing them all. */
  lemma RefreshedPairsStep(t: map<(nat, nat), real>, es: seq<Entry>, keys: set<(nat, nat)>, k: (nat, nat))
    ensures RefreshedPairs(RefreshedPairs(t, es, keys), es, {k}) == RefreshedPairs(t, es, keys + {k})
  {
  }

  lemma RefreshedDatesStep(t: map<(nat, Date), real>, es: seq<Entry>, keys: set<(nat, Date)>, k: (nat, Date))
    ensures RefreshedDates(RefreshedDates(t, es, keys), es, {k}) == RefreshedDates(t, es, keys + {k})
  {
  }

  /** The pairs of the table, with their hours: what the rows would hold if only attendances
      wrote them. */
  function PairTable(es: seq<Entry>): map<(nat, nat), real>
  {
    map k | k in (set i | 0 <= i < |es| && es[i].employee.Some? && es[i].project.Some?
                    :: (es[i].employee.value, es[i].project.value))
            && PairHours(es, k.0, k.1) > 0.0
      :: PairHours(es, k.0, k.1)
  }

  /** A pair none of whose records is in the table has no hours. */
  lemma {:induction false} PairHoursAbsent(es: seq<Entry>, emp: nat, proj: nat)
    requires forall i :: 0 <= i < |es| ==> !OfPair(es[i], emp, proj)
    ensures PairHours(es, emp, proj) == 0.0
  {
    if es != [] {
      PairHoursAbsent(es[1..], emp, proj);
    }
  }

  lemma {:induction false} PairHoursConcat(a: seq<Entry>, b: seq<Entry>, emp: nat, proj: nat)
    ensures PairHours(a + b, emp, proj) == PairHours(a, emp, proj) + PairHours(b, emp, proj)
  {
    if a == [] {
      assert a + b == b;
    } else {
      assert (a + b)[0] == a[0];
      assert (a + b)[1..] == a[1..] + b;
      PairHoursConcat(a[1..], b, emp, proj);
    }
  }

  /** If every pair whose hours differ between two tables is refreshed, rows that agreed with
      the old table agree with the new one. */
  lemma RefreshKeepsPairTable(es: seq<Entry>, es2: seq<Entry>, keys: set<(nat, nat)>)
    requires forall k :: k !in keys ==> PairHours(es, k.0, k.1) == PairHours(es2, k.0, k.1)
    ensures RefreshedPairs(PairTable(es), es2, keys) == PairTable(es2)
  {
    var l, r := RefreshedPairs(PairTable(es), es2, keys), PairTable(es2);
    forall k | k in l
      ensures k in r && l[k] == r[k]
    {
      PairInTable(es2, k);
      if k !in keys {
        PairInTable(es, k);
      }
    }
    forall k | k in r
      ensures k in l
    {
      PairInTable(es2, k);
      if k !in keys {
        PairInTable(es, k);
      }
    }
  }

  /** A pair is a row of the table exactly when it has hours. */
  lemma PairInTable(es: seq<Entry>, k: (nat, nat))
    ensures k in PairTable(es) <==> PairHours(es, k.0, k.1) > 0.0
    ensures k in PairTable(es) ==> PairTable(es)[k] == PairHours(es, k.0, k.1)
  {
    if PairHours(es, k.0, k.1) > 0.0 {
      if forall i :: 0 <= i < |es| ==> !OfPair(es[i], k.0, k.1) {
        PairHoursAbsent(es, k.0, k.1);
      }
      var i :| 0 <= i < |es| && OfPair(es[i], k.0, k.1);
      assert k == (es[i].employee.value, es[i].project.value);
    }
  }

  /** The (employee, project) pairs of the records that have both. */
  function PairsOf(es: seq<Entry>): (r: set<(nat, nat)>)
    ensures forall e :: e in es && e.employee.Some? && e.project.Some? ==> (e.employee.value, e.project.value) in r
  {
    if es == [] then {}
    else
      var e := es[|es| - 1];
      assert forall x :: x in es ==> x in es[..|es| - 1] || x == e;
      PairsOf(es[..|es| - 1]) + (if e.employee.Some? && e.project.Some? then {(e.employee.value, e.project.value)} else {})
  }

  /** Adding records changes the hours of their own pairs only, so the rows stay in step with
      the attendances when exactly those pairs are refreshed. */
  lemma CreateKeepsPairTable(es: seq<Entry>, news: seq<Entry>)
    ensures RefreshedPairs(PairTable(es), es + news, PairsOf(news)) == PairTable(es + news)
  {
    forall k | k !in PairsOf(news)
      ensures PairHours(es, k.0, k.1) == PairHours(es + news, k.0, k.1)
    {
      PairHoursConcat(es, news, k.0, k.1);
      forall i | 0 <= i < |news| ensures !OfPair(news[i], k.0, k.1) {
        assert news[i].employee.Some? && news[i].project.Some? ==>
          (news[i].employee.value, news[i].project.value) in PairsOf(news);
      }
      PairHoursAbsent(news, k.0, k.1);
    }
    RefreshKeepsPairTable(es, es + news, PairsOf(news));
  }
}
