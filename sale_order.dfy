/** Quotations (`sale.order`): the totals pipeline from line subtotals through discount and GST
    to the net amount, the boss/user approval gate, the invoice guard, the name given to a new
    quotation, and the margin of a line. */
module SaleOrder {
  import opened Wrappers
  import opened Text

  datatype DiscountType = Percent | Amount | NoDiscount
  datatype GstType = Gst9 | GstZero | NoGst
  datatype State = Draft | Approved | Sale | Cancel

  datatype QuoteError =
    | DiscountExceedsTotal
    | NoItems
    | NeedsBoss
    | NeedsUser
    | NotConfirmed

  /** The stored results of `_compute_service_amounts`. */
  datatype Amounts = Amounts(service: real, discount: real, afterDiscount: real, gst: real, net: real,
                             bossApprovalRequired: bool)

  /** Net amount above which `boss_approval_required` is set. */
  const BossFlagThreshold: real := 250000.0
  /** Net amount above which only the boss may approve. */
  const ApprovalThreshold: real := 25000.0

  function Sum(s: seq<real>): real
  {
    if s == [] then 0.0 else Sum(s[..|s| - 1]) + s[|s| - 1]
  }

  function GstRate(g: GstType): (rate: real)
    ensures g == Gst9 ==> rate == 0.09
    ensures g != Gst9 ==> rate == 0.0
  {
    if g == Gst9 then 9.0 / 100.0 else 0.0
  }

  function MinReal(a: real, b: real): (m: real)
    ensures m <= a && m <= b && (m == a || m == b)
  {
    if a <= b then a else b
  }

  /** `percent` per cent of `total`. */
  function PercentOf(total: real, percent: real): real
  {
    total * percent / 100.0
  }

  /** The discount for a total: a capped percentage of it, a fixed amount that may not exceed
      it, or nothing. */
  function Discount(total: real, t: DiscountType, percent: real, amount: real): (r: Result<real, QuoteError>)
    ensures r.Err? <==> t == Amount && amount > total
    ensures r.Ok? && t == Percent ==> r.value == PercentOf(total, MinReal(percent, 100.0))
    ensures r.Ok? && t == Amount ==> r.value == amount
    ensures t == NoDiscount ==> r == Ok(0.0)
  {
    match t
    case Percent => Ok(PercentOf(total, MinReal(percent, 100.0)))
    case Amount => if amount > total then Err(DiscountExceedsTotal) else Ok(amount)
    case NoDiscount => Ok(0.0)
  }

  /** The stored amounts once the total and the discount are known: GST on what is left after
      the discount, and the boss flag above the threshold. */
  function Charged(total: real, discount: real, g: GstType): Amounts
  {
    var after := total - discount;
    var gst := after * GstRate(g);
    var net := after + gst;
    Amounts(total, discount, after, gst, net, net > BossFlagThreshold)
  }

  /** `_compute_service_amounts` for one quotation. */
  function ServiceAmounts(subtotals: seq<real>, t: DiscountType, percent: real, amount: real, g: GstType): Result<Amounts, QuoteError>
  {
    var total := Sum(subtotals);
    match Discount(total, t, percent, amount)
    case Err(e) => Err(e)
    case Ok(discount) => Ok(Charged(total, discount, g))
  }

  /** The amounts fit together: the total is the sum of the line subtotals, the discount comes
      off it, GST is charged on what is left, and the boss flag is set exactly above 250000. */
  lemma AmountsFitTogether(subtotals: seq<real>, t: DiscountType, percent: real, amount: real, g: GstType)
    requires ServiceAmounts(subtotals, t, percent, amount, g).Ok?
    ensures var a := ServiceAmounts(subtotals, t, percent, amount, g).value;
      a.service == Sum(subtotals)
      && a.afterDiscount == a.service - a.discount
      && a.net == a.afterDiscount * (1.0 + GstRate(g))
      && (g != Gst9 ==> a.net == a.afterDiscount && a.gst == 0.0)
      && (a.bossApprovalRequired <==> a.net > 250000.0)
  {
  }

  /** The amounts fail to compute exactly when an amount discount exceeds the total. */
  lemma AmountsFailIff(subtotals: seq<real>, t: DiscountType, percent: real, amount: real, g: GstType)
    ensures ServiceAmounts(subtotals, t, percent, amount, g).Err? <==> t == Amount && amount > Sum(subtotals)
  {
  }

  /** With a non-negative total, a percentage discount never exceeds it, and a non-negative
      percentage gives a non-negative discount. */
  lemma PercentDiscountWithinTotal(total: real, percent: real, amount: real)
    requires total >= 0.0
    ensures Discount(total, Percent, percent, amount).value <= total
    ensures percent >= 0.0 ==> Discount(total, Percent, percent, amount).value >= 0.0
  {
    var p := MinReal(percent, 100.0);
    assert Discount(total, Percent, percent, amount).value == total * p / 100.0;
    assert total * p <= total * 100.0;
    if percent >= 0.0 {
      assert total * p >= 0.0;
    }
  }

  /** Any discount that computes leaves a non-negative amount when the total and the inputs
      are non-negative. */
  lemma AfterDiscountNonNegative(subtotals: seq<real>, t: DiscountType, percent: real, amount: real, g: GstType)
    requires Sum(subtotals) >= 0.0 && percent >= 0.0
    requires ServiceAmounts(subtotals, t, percent, amount, g).Ok?
    ensures ServiceAmounts(subtotals, t, percent, amount, g).value.afterDiscount >= 0.0
  {
    if t == Percent {
      PercentDiscountWithinTotal(Sum(subtotals), percent, amount);
    }
  }

  /** `action_approve_quotation` for one quotation. */
  function ApprovalCheck(hasLines: bool, net: real, isBoss: bool): Outcome<QuoteError>
  {
    if !hasLines then Fail(NoItems)
    else if net > ApprovalThreshold && !isBoss then Fail(NeedsBoss)
    else if net <= ApprovalThreshold && isBoss then Fail(NeedsUser)
    else Pass
  }

  /** Approval succeeds exactly for a quotation with lines whose size matches the approver:
      the boss above 25000, a user at or below it. */
  lemma ApprovalIff(hasLines: bool, net: real, isBoss: bool)
    ensures ApprovalCheck(hasLines, net, isBoss) == Pass <==> hasLines && ((net > 25000.0) == isBoss)
    ensures !hasLines ==> ApprovalCheck(hasLines, net, isBoss) == Fail(NoItems)
  {
  }

  /** The two thresholds disagree: every quotation whose net lies between them needs the boss
      to approve it while its `boss_approval_required` flag is off. */
  lemma ThresholdsDisagree(subtotals: seq<real>, t: DiscountType, percent: real, amount: real, g: GstType)
    requires ServiceAmounts(subtotals, t, percent, amount, g).Ok?
    requires 25000.0 < ServiceAmounts(subtotals, t, percent, amount, g).value.net <= 250000.0
    ensures var a := ServiceAmounts(subtotals, t, percent, amount, g).value;
      !a.bossApprovalRequired
      && ApprovalCheck(true, a.net, false) == Fail(NeedsBoss)
      && ApprovalCheck(true, a.net, true) == Pass
  {
    AmountsFitTogether(subtotals, t, percent, amount, g);
  }

  /** `action_create_invoice`'s guard. */
  function InvoiceGuard(s: State): Outcome<QuoteError>
  {
    if s != Sale then Fail(NotConfirmed) else Pass
  }

  /** Approving a quotation does not make it invoiceable: it must first be confirmed. */
  lemma ApprovedNotInvoiceable(hasLines: bool, net: real, isBoss: bool)
    requires ApprovalCheck(hasLines, net, isBoss) == Pass
    ensures InvoiceGuard(Approved) == Fail(NotConfirmed)
    ensures forall s :: InvoiceGuard(s) == Pass <==> s == Sale
  {
  }

  /** `_compute_margin` of a line: profit over cost, in percent, or 0 without a cost. */
  function LineMargin(subtotal: real, cost: real): (m: real)
    ensures cost == 0.0 ==> m == 0.0
  {
    if cost != 0.0 then (subtotal - cost) / cost * 100.0 else 0.0
  }

  /** With a cost, the margin recovers the subtotal: cost plus that percentage of it. */
  lemma MarginInverse(subtotal: real, cost: real)
    requires cost != 0.0
    ensures cost + cost * LineMargin(subtotal, cost) / 100.0 == subtotal
    ensures LineMargin(subtotal, cost) > 0.0 <==> (subtotal - cost) / cost > 0.0
  {
    var m := LineMargin(subtotal, cost);
    assert m / 100.0 == (subtotal - cost) / cost;
    assert cost * ((subtotal - cost) / cost) == subtotal - cost;
  }

  /** The `vals` of a new quotation, as far as its name reads them. */
  datatype QuoteVals = QuoteVals(name: Field<string>, company: Option<Coded>, department: Option<Coded>)

  predicate NeedsName(name: Field<string>)
  {
    name == Keep || name == Set("New")
  }

  /** The name `create` writes: `{company code|CMP}-QT-{department code|DEPT}-{year}-{n}`, `n`
      being the last segment of the sequence value (`OT-000` when the sequence gives none). */
  function QuotationName(company: Option<Coded>, department: Option<Coded>, year: nat, sequence: Option<string>): string
  {
    Reference(CodeOr(company, "CMP") + "-QT-" + CodeOr(department, "DEPT"), year, Or(sequence, "OT-000"))
  }

  /** The name keeps the sequence's last segment and starts with the codes, `CMP` and `DEPT`
      standing in for a missing company, department or code. */
  lemma QuotationNameShape(company: Option<Coded>, department: Option<Coded>, year: nat, sequence: Option<string>)
    ensures LastSegment(QuotationName(company, department, year, sequence)) == LastSegment(Or(sequence, "OT-000"))
    ensures StartsWith(QuotationName(company, department, year, sequence),
                       CodeOr(company, "CMP") + "-QT-" + CodeOr(department, "DEPT") + "-")
  {
    ReferenceShape(CodeOr(company, "CMP") + "-QT-" + CodeOr(department, "DEPT"), year, Or(sequence, "OT-000"));
  }

  /** The name ends in the number after the last hyphen of the sequence value, and in `000`
      when there is no sequence value. */
  lemma SequenceNumberKept(company: Option<Coded>, department: Option<Coded>, year: nat, prefix: string, number: string)
    requires '-' !in number
    ensures LastSegment(QuotationName(company, department, year, Some(prefix + "-" + number))) == number
    ensures LastSegment(QuotationName(company, department, year, None)) == "000"
  {
    var s := prefix + "-" + number;
    assert LastSegment(s) == number by {
      LastSegmentOfJoin(prefix, number);
    }
    QuotationNameShape(company, department, year, Some(s));
    QuotationNameShape(company, department, year, None);
    DefaultSequenceValue();
  }

  lemma DefaultSequenceValue()
    ensures LastSegment("OT-000") == "000"
  {
    assert "OT-000"[..5] == "OT-00" && "OT-00"[..4] == "OT-0" && "OT-0"[..3] == "OT-";
    assert LastHyphen("OT-000") == 2;
    assert "OT-000"[3..] == "000";
  }

  /** How many of the `vals` draw a sequence number. */
  function Draws(vs: seq<QuoteVals>): (n: nat)
    ensures n <= |vs|
  {
    if vs == [] then 0 else Draws(vs[..|vs| - 1]) + (if NeedsName(vs[|vs| - 1].name) then 1 else 0)
  }

  /** The name a new quotation gets from its `vals`: a given name other than `New` is kept;
      otherwise it is built with the sequence value `drawn`. */
  function NameFor(v: QuoteVals, year: nat, drawn: Option<string>): string
  {
    if NeedsName(v.name) then QuotationName(v.company, v.department, year, drawn) else v.name.value
  }

  /** The names `create` gives the quotations of `vs`, in order. */
  function Names(vs: seq<QuoteVals>, year: nat, sequence: nat -> Option<string>): (r: seq<string>)
    ensures |r| == |vs|
  {
    if vs == [] then []
    else
      var p := vs[..|vs| - 1];
      Names(p, year, sequence) + [NameFor(vs[|vs| - 1], year, sequence(Draws(p)))]
  }

  /** Each quotation's name is built with the sequence value drawn after those of the
      quotations before it that needed a name. */
  lemma {:induction false} NamesAt(vs: seq<QuoteVals>, year: nat, sequence: nat -> Option<string>, k: nat)
    requires k < |vs|
    ensures Names(vs, year, sequence)[k] == NameFor(vs[k], year, sequence(Draws(vs[..k])))
  {
    var p := vs[..|vs| - 1];
    if k < |p| {
      NamesAt(p, year, sequence, k);
      assert p[..k] == vs[..k] && p[k] == vs[k];
    }
  }

  lemma NamesStep(vs: seq<QuoteVals>, year: nat, sequence: nat -> Option<string>, k: nat)
    requires k < |vs|
    ensures Names(vs[..k + 1], year, sequence) == Names(vs[..k], year, sequence) + [NameFor(vs[k], year, sequence(Draws(vs[..k])))]
    ensures Draws(vs[..k + 1]) == Draws(vs[..k]) + (if NeedsName(vs[k].name) then 1 else 0)
  {
    assert vs[..k + 1][..k] == vs[..k];
  }

  /** `create`'s loop over the `vals`, given the current year and the sequence's successive
      values: one value is drawn for each quotation that needs a name. */
  method CreateNames(vs: seq<QuoteVals>, year: nat, sequence: nat -> Option<string>) returns (names: seq<string>)
    ensures |names| == |vs|
    ensures forall k :: 0 <= k < |vs| ==> names[k] == NameFor(vs[k], year, sequence(Draws(vs[..k])))
  {
    names := [];
    var drawn := 0;
    var k := 0;
    while k < |vs|
      invariant 0 <= k <= |vs|
      invariant drawn == Draws(vs[..k])
      invariant names == Names(vs[..k], year, sequence)
    {
      NamesStep(vs, year, sequence, k);
      var v := vs[k];
      names := names + [NameFor(v, year, sequence(drawn))];
      if NeedsName(v.name) {
        drawn := drawn + 1;
      }
      k := k + 1;
    }
    assert vs[..|vs|] == vs;
    forall k | 0 <= k < |vs|
      ensures names[k] == NameFor(vs[k], year, sequence(Draws(vs[..k])))
    {
      NamesAt(vs, year, sequence, k);
    }
  }

  /** The summing loop of `_compute_service_amounts`. */
  method SumLines(lines: seq<real>) returns (total: real)
    ensures total == Sum(lines)
  {
    total := 0.0;
    var k := 0;
    while k < |lines|
      invariant 0 <= k <= |lines|
      invariant total == Sum(lines[..k])
    {
      assert lines[..k + 1][..k] == lines[..k];
      total := total + lines[k];
      k := k + 1;
    }
    assert lines[..|lines|] == lines;
  }

  /** A quotation record. */
  class Quotation {
    /** `price_subtotal` of each order line. */
    var lines: seq<real>
    var discountType: DiscountType
    var discountPercent: real
    var discountAmt: real
    var gstType: GstType
    var amounts: Amounts
    var state: State

    constructor (subtotals: seq<real>, t: DiscountType, percent: real, amount: real, g: GstType)
      ensures lines == subtotals && discountType == t && discountPercent == percent && discountAmt == amount
      ensures gstType == g && state == Draft && amounts == Amounts(0.0, 0.0, 0.0, 0.0, 0.0, false)
    {
      lines, discountType, discountPercent, discountAmt, gstType := subtotals, t, percent, amount, g;
      amounts := Amounts(0.0, 0.0, 0.0, 0.0, 0.0, false);
      state := Draft;
    }

    /** `_compute_service_amounts`: sums the lines, then stores the amounts; an amount discount
        above the total resets `discount_amt` and fails. */
    method ComputeServiceAmounts() returns (out: Outcome<QuoteError>)
      modifies this
      ensures var r := ServiceAmounts(old(lines), old(discountType), old(discountPercent), old(discountAmt), old(gstType));
        (out == Pass <==> r.Ok?)
        && (r.Ok? ==> amounts == r.value && discountAmt == old(discountAmt))
        && (r.Err? ==> out == Fail(r.error) && amounts == old(amounts) && discountAmt == 0.0)
      ensures lines == old(lines) && discountType == old(discountType) && discountPercent == old(discountPercent)
      ensures gstType == old(gstType) && state == old(state)
    {
      ghost var r := ServiceAmounts(lines, discountType, discountPercent, discountAmt, gstType);
      var total := SumLines(lines);
      var discount := 0.0;
      if discountType == Percent {
        discount := PercentOf(total, MinReal(discountPercent, 100.0));
      } else if discountType == Amount {
        if discountAmt > total {
          assert r == Err(DiscountExceedsTotal);
          discountAmt := 0.0;
          return Fail(DiscountExceedsTotal);
        }
        discount := discountAmt;
      }
      assert r == Ok(Charged(total, discount, gstType));
      amounts := Charged(total, discount, gstType);
      out := Pass;
    }

    /** `action_approve_quotation` by a user who is the boss or not. */
    method ApproveQuotation(isBoss: bool) returns (out: Outcome<QuoteError>)
      modifies this
      ensures out == ApprovalCheck(|lines| > 0, amounts.net, isBoss)
      ensures state == if out == Pass then Approved else old(state)
      ensures unchanged(`lines, `amounts, `discountAmt, `discountType, `discountPercent, `gstType)
    {
      if |lines| == 0 {
        return Fail(NoItems);
      }
      if amounts.net > 25000.0 && !isBoss {
        return Fail(NeedsBoss);
      }
      if amounts.net <= 25000.0 && isBoss {
        return Fail(NeedsUser);
      }
      state := Approved;
      out := Pass;
    }

    /** The guard of `action_create_invoice`: only a confirmed order is invoiced. */
    method CreateInvoice() returns (out: Outcome<QuoteError>)
      ensures out == InvoiceGuard(state)
      ensures out == Pass <==> state == Sale
    {
      if state != Sale {
        return Fail(NotConfirmed);
      }
      out := Pass;
    }
  }
}
