/** Projects and their estimation lines (`project.project`, `project.estimation.line`): the
    per-line cost and value formulas, the running percent-pending and pending-amount figures
    over a project's lines in id order, the clamped project completion, and the project number. */
module ProjectEstimation {
  import opened Wrappers
  import opened Text

  /** The inputs of an estimation line; unset monetary and float fields are 0. */
  datatype Line = Line(id: nat, estimateManHrs: real, ratePerHr: real, totalProjectValue: real,
                       poAmount: real, vorNotApproved: real, percentCompleted: real)

  /** `est_man_power_cost`. */
  function ManPowerCost(l: Line): (c: real)
    ensures c == 0.0 <==> l.estimateManHrs == 0.0 || l.ratePerHr == 0.0
  {
    l.estimateManHrs * l.ratePerHr
  }

  /** `total_project_value_2`: the project value with the P.O. amount and the VOR. */
  function TotalValue(l: Line): real
  {
    l.totalProjectValue + l.poAmount + l.vorNotApproved
  }

  /** `wip_value`: the completed share of the line's total value. */
  function Wip(l: Line): real
  {
    TotalValue(l) * (l.percentCompleted / 100.0)
  }

  /** The work in progress is nothing at 0%, the whole value at 100%, and lies between the two
      for a completion between them on a non-negative value. */
  lemma WipBounds(l: Line)
    ensures l.percentCompleted == 0.0 ==> Wip(l) == 0.0
    ensures l.percentCompleted == 100.0 ==> Wip(l) == TotalValue(l)
    ensures TotalValue(l) >= 0.0 && 0.0 <= l.percentCompleted <= 100.0 ==> 0.0 <= Wip(l) <= TotalValue(l)
  {
    var t, p := TotalValue(l), l.percentCompleted / 100.0;
    if t >= 0.0 && 0.0 <= p <= 1.0 {
      assert t * p <= t * 1.0;
    }
  }

  function SumPercent(ls: seq<Line>): real
  {
    if ls == [] then 0.0 else SumPercent(ls[..|ls| - 1]) + ls[|ls| - 1].percentCompleted
  }

  function SumWip(ls: seq<Line>): real
  {
    if ls == [] then 0.0 else SumWip(ls[..|ls| - 1]) + Wip(ls[|ls| - 1])
  }

  /** The lines the running totals cover for the line `id`: those up to and including it, or
      all of them when it is not among them. */
  function Through(ls: seq<Line>, id: nat): (r: seq<Line>)
    ensures |r| <= |ls| && r == ls[..|r|]
    ensures r != [] && r[|r| - 1].id == id ==> forall j :: 0 <= j < |r| - 1 ==> ls[j].id != id
  {
    if ls == [] then []
    else if ls[0].id == id then [ls[0]]
    else [ls[0]] + Through(ls[1..], id)
  }

  predicate IdsIncreasing(ls: seq<Line>)
  {
    forall i, j :: 0 <= i < j < |ls| ==> ls[i].id < ls[j].id
  }

  /** In a project's lines in id order, the totals for a line cover exactly the lines up to it. */
  lemma {:induction false} ThroughAt(ls: seq<Line>, i: nat)
    requires IdsIncreasing(ls) && i < |ls|
    ensures Through(ls, ls[i].id) == ls[..i + 1]
  {
    if i > 0 {
      assert ls[0].id < ls[i].id;
      var rest := ls[1..];
      assert IdsIncreasing(rest) by {
        forall a, b | 0 <= a < b < |rest| ensures rest[a].id < rest[b].id {
          assert rest[a] == ls[a + 1] && rest[b] == ls[b + 1];
        }
      }
      ThroughAt(rest, i - 1);
      assert rest[i - 1] == ls[i];
      assert [ls[0]] + rest[..i] == ls[..i + 1];
    }
  }

  /** A line's computed figures. */
  datatype Pending = Pending(percent: real, amount: real)

  function Max0(x: real): (r: real)
    ensures r >= 0.0 && r >= x && (r == 0.0 || r == x)
  {
    if x >= 0.0 then x else 0.0
  }

  /** `_compute_percent_calculation` for a line of a project with lines `ls`: what is left of
      100% after the completions up to the line, and the line's value less the work in
      progress up to it. */
  function LinePending(ls: seq<Line>, line: Line): Pending
  {
    var upto := Through(ls, line.id);
    Pending(Max0(100.0 - SumPercent(upto)), TotalValue(line) - SumWip(upto))
  }

  /** A line without a project: nothing is complete and its whole value is pending. */
  function OrphanPending(line: Line): (p: Pending)
    ensures p.percent == 100.0 && p.amount == TotalValue(line)
  {
    Pending(100.0, TotalValue(line))
  }

  /** `project_complete_percent`: the sum of all lines' completion, within 0 and 100. */
  function ProjectComplete(ls: seq<Line>): (c: real)
    ensures 0.0 <= c <= 100.0
    ensures 0.0 <= SumPercent(ls) <= 100.0 ==> c == SumPercent(ls)
    ensures SumPercent(ls) > 100.0 ==> c == 100.0
    ensures SumPercent(ls) < 0.0 ==> c == 0.0
  {
    var s := SumPercent(ls);
    if s < 0.0 then 0.0 else if s > 100.0 then 100.0 else s
  }

  lemma {:induction false} SumPercentPrefixGrows(ls: seq<Line>, i: nat, j: nat)
    requires i <= j <= |ls|
    requires forall k :: 0 <= k < |ls| ==> ls[k].percentCompleted >= 0.0
    ensures SumPercent(ls[..i]) <= SumPercent(ls[..j])
  {
    if i < j {
      SumPercentPrefixGrows(ls, i, j - 1);
      assert ls[..j][..j - 1] == ls[..j - 1];
    }
  }

  /** With non-negative completions, the percent pending never rises along the lines in id order. */
  lemma PendingNeverRises(ls: seq<Line>, i: nat, j: nat)
    requires IdsIncreasing(ls) && i <= j < |ls|
    requires forall k :: 0 <= k < |ls| ==> ls[k].percentCompleted >= 0.0
    ensures LinePending(ls, ls[j]).percent <= LinePending(ls, ls[i]).percent
  {
    ThroughAt(ls, i);
    ThroughAt(ls, j);
    SumPercentPrefixGrows(ls, i + 1, j + 1);
  }

  /** A line's pending amount is its value less the work in progress of the lines up to and
      including it. */
  lemma PendingAmountAt(ls: seq<Line>, i: nat)
    requires IdsIncreasing(ls) && i < |ls|
    ensures LinePending(ls, ls[i]).amount == TotalValue(ls[i]) - SumWip(ls[..i + 1])
    ensures LinePending(ls, ls[i]).percent == Max0(100.0 - SumPercent(ls[..i + 1]))
  {
    ThroughAt(ls, i);
  }

  /** At the last line the percent pending is what the project completion leaves of 100%. */
  lemma LastLineMatchesCompletion(ls: seq<Line>)
    requires IdsIncreasing(ls) && ls != []
    requires SumPercent(ls) >= 0.0
    ensures LinePending(ls, ls[|ls| - 1]).percent == 100.0 - ProjectComplete(ls)
  {
    ThroughAt(ls, |ls| - 1);
    assert ls[..|ls|] == ls;
  }

  /** `project_ref` for a new project: `{company code|CMP}-PRO-{year}-{n}` when it is unset or
      `New`, `n` being the last segment of the sequence value. The department code is looked
      up but not used. */
  function ProjectRef(ref: Option<string>, company: Option<Coded>, department: Option<Coded>, year: nat,
                      sequence: Option<string>): string
  {
    var deptCode := CodeOr(department, "DEPT");
    if !Truthy(ref) || ref == Some("New") then Reference(CodeOr(company, "CMP") + "-PRO", year, Or(sequence, "OT-000"))
    else ref.value
  }

  predicate NeedsRef(ref: Option<string>)
  {
    !Truthy(ref) || ref == Some("New")
  }

  /** The project number keeps the sequence's last segment, starts with the company code, and
      is the same whatever the department. */
  lemma ProjectRefShape(ref: Option<string>, company: Option<Coded>, d1: Option<Coded>, d2: Option<Coded>, year: nat,
                        sequence: Option<string>)
    ensures ProjectRef(ref, company, d1, year, sequence) == ProjectRef(ref, company, d2, year, sequence)
    ensures NeedsRef(ref) ==>
      LastSegment(ProjectRef(ref, company, d1, year, sequence)) == LastSegment(Or(sequence, "OT-000"))
      && StartsWith(ProjectRef(ref, company, d1, year, sequence), CodeOr(company, "CMP") + "-PRO" + "-")
    ensures !NeedsRef(ref) ==> ProjectRef(ref, company, d1, year, sequence) == ref.value
  {
    if NeedsRef(ref) {
      ReferenceShape(CodeOr(company, "CMP") + "-PRO", year, Or(sequence, "OT-000"));
    }
  }

  /** A project with its estimation lines in id order. */
  class Project {
    var ref: Option<string>
    var lines: seq<Line>
    var completePercent: real
    /** The stored `percent_pending` and `pending_amount` of each line, by id. */
    var pending: map<nat, Pending>

    /** `_order = 'id asc'`: the lines are read in increasing id order. */
    predicate Valid()
      reads this
    {
      IdsIncreasing(lines)
    }

    constructor (ls: seq<Line>)
      requires IdsIncreasing(ls)
      ensures Valid()
      ensures ref == Some("New") && lines == ls && completePercent == 0.0 && pending == map[]
    {
      ref, lines, completePercent, pending := Some("New"), ls, 0.0, map[];
    }

    /** `create`'s numbering of the project; `drew` tells whether a sequence value was taken. */
    method AssignRef(company: Option<Coded>, department: Option<Coded>, year: nat, sequence: Option<string>)
      returns (drew: bool)
      requires Valid()
      modifies this
      ensures Valid()
      ensures drew == NeedsRef(old(ref))
      ensures ref == Some(ProjectRef(old(ref), company, department, year, sequence))
      ensures unchanged(`lines, `completePercent, `pending)
    {
      drew := !Truthy(ref) || ref == Some("New");
      if drew {
        var seqCode := Or(sequence, "OT-000");
        ref := Some(Reference(CodeOr(company, "CMP") + "-PRO", year, seqCode));
      }
    }

    /** `_compute_percent_calculation` for one line of this project: the running totals up to the
        line, then the completion over all lines. */
    method ComputePercentCalculation(line: Line)
      requires Valid()
      modifies this
      ensures Valid()
      ensures pending == old(pending)[line.id := LinePending(old(lines), line)]
      ensures completePercent == ProjectComplete(old(lines))
      ensures unchanged(`lines, `ref)
    {
      var completed, wip := RunningTotals(lines, line.id);
      pending := pending[line.id := Pending(Max0(100.0 - completed), TotalValue(line) - wip)];
      var all := TotalCompleted(lines);
      completePercent := if all < 0.0 then 0.0 else if all > 100.0 then 100.0 else all;
    }
  }

  /** The walk over the lines in id order, summing completion and work in progress up to and
      including the line `id`. */
  method RunningTotals(ls: seq<Line>, id: nat) returns (completed: real, wip: real)
    ensures completed == SumPercent(Through(ls, id)) && wip == SumWip(Through(ls, id))
  {
    completed, wip := 0.0, 0.0;
    var k := 0;
    while k < |ls|
      invariant 0 <= k <= |ls|
      invariant completed == SumPercent(ls[..k]) && wip == SumWip(ls[..k])
      invariant forall j :: 0 <= j < k ==> ls[j].id != id
    {
      assert ls[..k + 1][..k] == ls[..k];
      completed := completed + ls[k].percentCompleted;
      wip := wip + Wip(ls[k]);
      if ls[k].id == id {
        ThroughPrefix(ls, id, k + 1);
        return;
      }
      k := k + 1;
    }
    ThroughPrefix(ls, id, k);
  }

  /** The completion summed over all lines. */
  method TotalCompleted(ls: seq<Line>) returns (all: real)
    ensures all == SumPercent(ls)
  {
    all := 0.0;
    var n := 0;
    while n < |ls|
      invariant 0 <= n <= |ls|
      invariant all == SumPercent(ls[..n])
    {
      assert ls[..n + 1][..n] == ls[..n];
      all := all + ls[n].percentCompleted;
      n := n + 1;
    }
    assert ls[..|ls|] == ls;
  }

  /** Where the walk stopped, the lines it summed are those the totals cover. */
  lemma {:induction false} ThroughPrefix(ls: seq<Line>, id: nat, k: nat)
    requires k <= |ls|
    requires (0 < k && ls[k - 1].id == id && forall j :: 0 <= j < k - 1 ==> ls[j].id != id)
             || (k == |ls| && forall j :: 0 <= j < |ls| ==> ls[j].id != id)
    ensures Through(ls, id) == ls[..k]
  {
    if ls != [] && ls[0].id != id {
      var rest := ls[1..];
      ThroughPrefix(rest, id, k - 1);
      assert [ls[0]] + rest[..k - 1] == ls[..k];
    }
  }
}
