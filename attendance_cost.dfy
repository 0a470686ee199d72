/** The per-record cost allocator: hour-rate pay with overtime premiums, the salary
    subtotal, and ten monthly overheads each split evenly over the employee's working days. */
module AttendanceCost {
  import opened Wrappers

  /** The ten monthly overheads of an employee, and equally the ten per-day shares written
      on an attendance record (CPF, levy, accommodation, transportation, insurance, admin
      cost, certification/audit cost, office rent, OH cost, others). */
  datatype Overheads = Overheads(
    cpf: real, levy: real, accommodation: real, transportation: real, insurance: real,
    adminCost: real, certificationAudit: real, officeRent: real, ohCost: real, others: real)

  function SumOverheads(o: Overheads): real
  {
    o.cpf + o.levy + o.accommodation + o.transportation + o.insurance
    + o.adminCost + o.certificationAudit + o.officeRent + o.ohCost + o.others
  }

  /** Every overhead split `d` ways. */
  function PerDay(o: Overheads, d: nat): Overheads
    requires d >= 1
  {
    var r := d as real;
    Overheads(o.cpf / r, o.levy / r, o.accommodation / r, o.transportation / r, o.insurance / r,
              o.adminCost / r, o.certificationAudit / r, o.officeRent / r, o.ohCost / r, o.others / r)
  }

  /** The fields `_calculate_attendance_costs` writes besides `misc_amount`, which it writes
      back unchanged. `department` is `enquiry_department_id`. */
  datatype CostFields = CostFields(
    totalHoursAmount: real, stSalaryTotalHour: real, department: Option<nat>,
    shares: Overheads, totalExpense: real)

  /** The values of a record no cost calculation has touched. */
  function NoCosts(): CostFields
  {
    CostFields(0.0, 0.0, None, Overheads(0.0, 0.0, 0.0, 0.0, 0.0, 0.0, 0.0, 0.0, 0.0, 0.0), 0.0)
  }

  /** The number of working days the overheads are split over: a month without any is
      treated as one day. */
  function Divisor(workingDays: nat): (d: nat)
    ensures d >= 1
    ensures workingDays >= 1 ==> d == workingDays
    ensures workingDays == 0 ==> d == 1
  {
    if workingDays == 0 then 1 else workingDays
  }

  /** Hours paid at the normal rate: worked hours less both overtime buckets, never negative. */
  function NormalHours(worked: real, weekdayOt: real, weekendOt: real): (n: real)
    ensures n >= 0.0 && n >= worked - weekdayOt - weekendOt
    ensures n == 0.0 || n == worked - weekdayOt - weekendOt
  {
    var n := worked - weekdayOt - weekendOt;
    if n < 0.0 then 0.0 else n
  }

  /** `total_hours_amount`: normal hours at the rate, weekday overtime at 1.5 times it and
      weekend overtime at twice it. */
  function HoursAmount(worked: real, weekdayOt: real, weekendOt: real, rate: real): real
  {
    NormalHours(worked, weekdayOt, weekendOt) * rate + weekdayOt * (rate * 1.5) + weekendOt * (rate * 2.0)
  }

  /** The cost fields of one attendance record. `workingDays` is the employee's distinct
      working dates that month; `misc` is the record's own `misc_amount`. */
  function AttendanceCosts(worked: real, weekdayOt: real, weekendOt: real, rate: real,
                           salaryRate: real, monthly: Overheads, workingDays: nat,
                           department: Option<nat>, misc: real): CostFields
  {
    var shares := PerDay(monthly, Divisor(workingDays));
    var st := worked * salaryRate;
    CostFields(HoursAmount(worked, weekdayOt, weekendOt, rate), st, department, shares,
               SumOverheads(shares) + st + misc)
  }

  /** The ten per-day shares add back up to the monthly overheads over the working days. */
  lemma SharesRecombine(monthly: Overheads, workingDays: nat)
    ensures SumOverheads(PerDay(monthly, Divisor(workingDays))) * Divisor(workingDays) as real
            == SumOverheads(monthly)
  {
    var d := Divisor(workingDays) as real;
    var s := PerDay(monthly, Divisor(workingDays));
    assert SumOverheads(s) == SumOverheads(monthly) / d;
  }

  /** `total_expense` is the day's share of the overheads, the salary subtotal and the misc
      amount; the hour-rate pay `total_hours_amount` is not part of it. */
  lemma ExpenseComposition(worked: real, weekdayOt: real, weekendOt: real, rate: real, rate2: real,
                           salaryRate: real, monthly: Overheads, workingDays: nat,
                           department: Option<nat>, misc: real)
    ensures var c := AttendanceCosts(worked, weekdayOt, weekendOt, rate, salaryRate, monthly, workingDays, department, misc);
      c.totalExpense == SumOverheads(monthly) / Divisor(workingDays) as real + worked * salaryRate + misc
      && c.totalExpense == AttendanceCosts(worked, weekdayOt, weekendOt, rate2, salaryRate, monthly, workingDays, department, misc).totalExpense
  {
    var d := Divisor(workingDays) as real;
    assert SumOverheads(PerDay(monthly, Divisor(workingDays))) == SumOverheads(monthly) / d;
  }

  /** With overtime buckets that fit in the worked hours, the pay is every worked hour at the
      rate plus a premium of half the rate per weekday overtime hour and a full rate per
      weekend overtime hour. */
  lemma PayPremiums(worked: real, weekdayOt: real, weekendOt: real, rate: real)
    requires 0.0 <= weekdayOt && 0.0 <= weekendOt && weekdayOt + weekendOt <= worked
    ensures HoursAmount(worked, weekdayOt, weekendOt, rate)
            == worked * rate + weekdayOt * rate * 0.5 + weekendOt * rate
  {
  }

  /** Overtime beyond the worked hours is still paid in full at its premium, while normal
      hours stop at zero. */
  lemma PayWhenOvertimeExceedsWorked(worked: real, weekdayOt: real, weekendOt: real, rate: real)
    requires weekdayOt + weekendOt > worked
    ensures HoursAmount(worked, weekdayOt, weekendOt, rate) == weekdayOt * rate * 1.5 + weekendOt * rate * 2.0
  {
  }
}
