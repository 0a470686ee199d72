/** The overtime allocator: attendance segments of one employee on one date consume the
    day's normal-hours budget in check-in order, and each segment's excess goes wholly to
    the weekday or to the weekend bucket. */
module Overtime {

  /** One closed attendance segment as the allocator reads it: its record id, its check-in
      and its worked hours. */
  datatype Segment = Segment(id: nat, checkIn: int, worked: real)

  /** The three overtime fields of an attendance record. */
  datatype Buckets = Buckets(overtime: real, weekday: real, weekend: real)

  /** The value every record starts from: no overtime at all. */
  function NoOvertime(): (b: Buckets)
    ensures b.overtime == 0.0 && b.weekday == 0.0 && b.weekend == 0.0
  {
    Buckets(0.0, 0.0, 0.0)
  }

  function Max0(x: real): real
  {
    if x < 0.0 then 0.0 else x
  }

  function Min(x: real, y: real): real
  {
    if x <= y then x else y
  }

  /** The order of `search(..., order='check_in ASC')`; segments with equal check-ins are
      taken in record-id order. */
  predicate Before(a: Segment, b: Segment)
  {
    a.checkIn < b.checkIn || (a.checkIn == b.checkIn && a.id < b.id)
  }

  predicate StrictlySorted(s: seq<Segment>)
  {
    forall i, j :: 0 <= i < j < |s| ==> Before(s[i], s[j])
  }

  /** Total worked hours of a run of segments. */
  function SumWorked(s: seq<Segment>): real
  {
    if s == [] then 0.0 else s[0].worked + SumWorked(s[1..])
  }

  /** Worked hours of the segments of `s` that come before `x`, in whatever order `s` is. */
  function SumBefore(s: seq<Segment>, x: Segment): real
  {
    if s == [] then 0.0
    else (if Before(s[0], x) then s[0].worked else 0.0) + SumBefore(s[1..], x)
  }

  /** How a segment with `worked` hours and `remaining` normal hours left splits its excess:
      none when it fits, otherwise the whole excess into the bucket of the day kind. */
  function Allocate(worked: real, remaining: real, weekend: bool): (b: Buckets)
    ensures b.weekday == 0.0 || b.weekend == 0.0
    ensures b.overtime == b.weekday + b.weekend
    ensures b.overtime == (if worked <= remaining then 0.0 else worked - remaining)
    ensures weekend ==> b.weekday == 0.0
    ensures !weekend ==> b.weekend == 0.0
  {
    if worked <= remaining then NoOvertime()
    else if weekend then Buckets(worked - remaining, 0.0, worked - remaining)
    else Buckets(worked - remaining, worked - remaining, 0.0)
  }

  /** The overtime of segment `x` among the day's segments `day`: what is left of the daily
      limit after every earlier segment, clamped at zero, is its normal allowance. */
  function SegmentOvertime(day: seq<Segment>, x: Segment, limit: real, weekend: bool): Buckets
  {
    Allocate(x.worked, Max0(limit - SumBefore(day, x)), weekend)
  }

  /** A segment never carries more overtime than it worked, and none when nothing came before
      it and it stays within the limit. */
  lemma OvertimeBounds(day: seq<Segment>, x: Segment, limit: real, weekend: bool)
    requires x.worked >= 0.0
    ensures var b := SegmentOvertime(day, x, limit, weekend);
      0.0 <= b.overtime <= x.worked
      && (limit <= SumBefore(day, x) ==> b.overtime == x.worked)
      && (SumBefore(day, x) == 0.0 && x.worked <= limit ==> b.overtime == 0.0)
  {
  }

  /** `sorted(s)`: insertion of one segment into a sorted run. */
  function Insert(x: Segment, s: seq<Segment>): (r: seq<Segment>)
    ensures multiset(r) == multiset(s) + multiset{x}
    ensures |r| == |s| + 1
  {
    if s == [] then [x]
    else if Before(s[0], x) then
      assert s == [s[0]] + s[1..];
      [s[0]] + Insert(x, s[1..])
    else
      assert s == [s[0]] + s[1..];
      [x] + s
  }

  /** The segments in check-in order. */
  function Sort(s: seq<Segment>): (r: seq<Segment>)
    ensures multiset(r) == multiset(s)
    ensures |r| == |s|
  {
    if s == [] then []
    else
      assert s == [s[0]] + s[1..];
      Insert(s[0], Sort(s[1..]))
  }

  /** `Before` is a strict total order on segments with distinct ids. */
  lemma BeforeTotal(a: Segment, b: Segment)
    requires a.id != b.id
    ensures Before(a, b) != Before(b, a)
  {
  }

  predicate DistinctIds(s: seq<Segment>)
  {
    forall i, j :: 0 <= i < j < |s| ==> s[i].id != s[j].id
  }

  lemma {:induction false} InsertSorted(x: Segment, s: seq<Segment>)
    requires StrictlySorted(s)
    requires forall i :: 0 <= i < |s| ==> s[i].id != x.id
    ensures StrictlySorted(Insert(x, s))
  {
    if s != [] && Before(s[0], x) {
      InsertSorted(x, s[1..]);
      var r := Insert(x, s[1..]);
      forall j | 0 <= j < |r|
        ensures Before(s[0], r[j])
      {
        InsertElement(x, s[1..], j);
      }
    } else if s != [] {
      BeforeTotal(x, s[0]);
      forall j | 0 < j < |s|
        ensures Before(x, s[j])
      {
        assert Before(s[0], s[j]);
      }
    }
  }

  /** Every element of an insertion is the inserted segment or one of the run's. */
  lemma InsertElement(x: Segment, s: seq<Segment>, j: nat)
    requires j < |s| + 1
    ensures Insert(x, s)[j] == x || exists k :: 0 <= k < |s| && s[k] == Insert(x, s)[j]
  {
    var y := Insert(x, s)[j];
    assert y in multiset(s) + multiset{x};
    if y != x {
      assert y in multiset(s);
      assert y in s;
    }
  }

  /** Sorting gives a strictly increasing run when ids are distinct. */
  lemma {:induction false} SortSorted(s: seq<Segment>)
    requires DistinctIds(s)
    ensures StrictlySorted(Sort(s))
  {
    if s != [] {
      assert DistinctIds(s[1..]) by {
        forall i, j | 0 <= i < j < |s[1..]| ensures s[1..][i].id != s[1..][j].id {
          assert s[1 + i].id != s[1 + j].id;
        }
      }
      SortSorted(s[1..]);
      var t := Sort(s[1..]);
      forall i | 0 <= i < |t|
        ensures t[i].id != s[0].id
      {
        assert t[i] in multiset(s[1..]);
        var k :| 0 <= k < |s[1..]| && s[1..][k] == t[i];
        assert s[1 + k] == t[i];
      }
      InsertSorted(s[0], t);
    }
  }

  /** Inserting a segment adds its hours to the count before `y` exactly when it precedes `y`. */
  lemma {:induction false} SumBeforeInsert(x: Segment, s: seq<Segment>, y: Segment)
    ensures SumBefore(Insert(x, s), y) == SumBefore(s, y) + (if Before(x, y) then x.worked else 0.0)
  {
    if s != [] && Before(s[0], x) {
      SumBeforeInsert(x, s[1..], y);
      assert ([s[0]] + Insert(x, s[1..]))[1..] == Insert(x, s[1..]);
    } else if s != [] {
      assert ([x] + s)[1..] == s;
    }
  }

  /** Sorting does not change which segments come before a given one. */
  lemma {:induction false} SumBeforeSort(s: seq<Segment>, y: Segment)
    ensures SumBefore(Sort(s), y) == SumBefore(s, y)
  {
    if s != [] {
      SumBeforeSort(s[1..], y);
      SumBeforeInsert(s[0], Sort(s[1..]), y);
    }
  }

  lemma {:induction false} SumWorkedConcat(a: seq<Segment>, b: seq<Segment>)
    ensures SumWorked(a + b) == SumWorked(a) + SumWorked(b)
  {
    if a == [] {
      assert a + b == b;
    } else {
      assert (a + b)[0] == a[0];
      assert (a + b)[1..] == a[1..] + b;
      SumWorkedConcat(a[1..], b);
    }
  }

  lemma {:induction false} SumBeforeConcat(a: seq<Segment>, b: seq<Segment>, y: Segment)
    ensures SumBefore(a + b, y) == SumBefore(a, y) + SumBefore(b, y)
  {
    if a == [] {
      assert a + b == b;
    } else {
      assert (a + b)[0] == a[0];
      assert (a + b)[1..] == a[1..] + b;
      SumBeforeConcat(a[1..], b, y);
    }
  }

  lemma {:induction false} SumBeforeAll(s: seq<Segment>, y: Segment)
    requires forall i :: 0 <= i < |s| ==> Before(s[i], y)
    ensures SumBefore(s, y) == SumWorked(s)
  {
    if s != [] {
      SumBeforeAll(s[1..], y);
    }
  }

  lemma {:induction false} SumBeforeNone(s: seq<Segment>, y: Segment)
    requires forall i :: 0 <= i < |s| ==> !Before(s[i], y)
    ensures SumBefore(s, y) == 0.0
  {
    if s != [] {
      SumBeforeNone(s[1..], y);
    }
  }

  /** In a run sorted by check-in, the segments before the one at `k` are exactly the prefix
      `s[..k]`: walking the sorted list and summing until the record is met computes the
      order-free allowance. */
  lemma SumBeforeSorted(s: seq<Segment>, k: nat)
    requires StrictlySorted(s)
    requires k < |s|
    ensures SumBefore(s, s[k]) == SumWorked(s[..k])
  {
    assert s == s[..k] + s[k..];
    SumBeforeConcat(s[..k], s[k..], s[k]);
    SumBeforeAll(s[..k], s[k]);
    forall i | 0 <= i < |s[k..]|
      ensures !Before(s[k..][i], s[k])
    {
      if i > 0 {
        assert Before(s[k], s[k + i]);
      }
    }
    SumBeforeNone(s[k..], s[k]);
  }

  /** Normal (non-overtime) hours of a segment with `worked` hours and `remaining` allowance. */
  function NormalPart(worked: real, remaining: real): real
  {
    worked - Allocate(worked, remaining, false).overtime
  }

  /** Normal hours of a run walked in order, `before` hours having been worked already. */
  function RunNormal(s: seq<Segment>, before: real, limit: real): real
  {
    if s == [] then 0.0
    else NormalPart(s[0].worked, Max0(limit - before)) + RunNormal(s[1..], before + s[0].worked, limit)
  }

  /** Walking a run, the normal hours add up to what was left of the limit, or to everything
      worked when that is less. */
  lemma {:induction false} RunNormalBudget(s: seq<Segment>, before: real, limit: real)
    requires before >= 0.0
    requires forall i :: 0 <= i < |s| ==> s[i].worked >= 0.0
    ensures SumWorked(s) >= 0.0
    ensures RunNormal(s, before, limit) == Min(Max0(limit - before), SumWorked(s))
  {
    if s != [] {
      RunNormalBudget(s[1..], before + s[0].worked, limit);
      var w, rest := s[0].worked, SumWorked(s[1..]);
      assert NormalPart(w, Max0(limit - before)) == Min(w, Max0(limit - before));
      if limit - before <= w {
        assert Max0(limit - before - w) == 0.0;
      }
    }
  }

  /** Normal hours of the segments `xs`, each allocated within the whole day `day`. */
  function DayNormal(day: seq<Segment>, xs: seq<Segment>, limit: real, weekend: bool): real
  {
    if xs == [] then 0.0
    else xs[0].worked - SegmentOvertime(day, xs[0], limit, weekend).overtime + DayNormal(day, xs[1..], limit, weekend)
  }

  lemma {:induction false} DayNormalSuffix(day: seq<Segment>, k: nat, limit: real, weekend: bool)
    requires StrictlySorted(day)
    requires k <= |day|
    ensures DayNormal(day, day[k..], limit, weekend) == RunNormal(day[k..], SumWorked(day[..k]), limit)
    decreases |day| - k
  {
    if k < |day| {
      var x, before := day[k], SumWorked(day[..k]);
      assert day[k..][1..] == day[k + 1..];
      DayNormalSuffix(day, k + 1, limit, weekend);
      SumWorkedStep(day, k);
      SumBeforeSorted(day, k);
      assert SegmentOvertime(day, x, limit, weekend).overtime == Allocate(x.worked, Max0(limit - before), false).overtime;
    }
  }

  /** The day budget: over one employee's closed segments on one date that share a daily
      limit, the normal hours sum to the limit, or to the hours worked when they are fewer;
      the rest of the day is overtime. */
  lemma DayBudget(day: seq<Segment>, limit: real, weekend: bool)
    requires StrictlySorted(day)
    requires forall i :: 0 <= i < |day| ==> day[i].worked >= 0.0
    ensures DayNormal(day, day, limit, weekend) == Min(Max0(limit), SumWorked(day))
  {
    DayNormalSuffix(day, 0, limit, weekend);
    assert day[0..] == day && day[..0] == [];
    RunNormalBudget(day, 0.0, limit);
  }

  lemma SumWorkedStep(s: seq<Segment>, k: nat)
    requires k < |s|
    ensures SumWorked(s[..k + 1]) == SumWorked(s[..k]) + s[k].worked
  {
    assert s[..k + 1] == s[..k] + [s[k]];
    SumWorkedConcat(s[..k], [s[k]]);
  }

  /** The walk over the day's sorted segments: hours are summed until the segment with id
      `id`, whose allocation is made from what the sum leaves of the limit. `k` is where the
      walk stopped, `|day|` when no segment carries the id. */
  method WalkDay(day: seq<Segment>, id: nat, limit: real, weekend: bool) returns (k: nat, b: Buckets)
    ensures k <= |day|
    ensures forall j :: 0 <= j < k ==> day[j].id != id
    ensures k < |day| ==> day[k].id == id && b == Allocate(day[k].worked, Max0(limit - SumWorked(day[..k])), weekend)
    ensures k == |day| ==> b == NoOvertime()
  {
    b := NoOvertime();
    var cumulative := 0.0;
    k := 0;
    while k < |day|
      invariant 0 <= k <= |day|
      invariant cumulative == SumWorked(day[..k])
      invariant forall j :: 0 <= j < k ==> day[j].id != id
    {
      var att := day[k];
      if att.id == id {
        var remaining := Max0(limit - cumulative);
        if att.worked <= remaining {
          b := NoOvertime();
        } else {
          var overtime := att.worked - remaining;
          if weekend {
            b := Buckets(overtime, 0.0, overtime);
          } else {
            b := Buckets(overtime, overtime, 0.0);
          }
        }
        return;
      }
      SumWorkedStep(day, k);
      cumulative := cumulative + att.worked;
      k := k + 1;
    }
  }
}
