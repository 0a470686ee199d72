# custom_unique, modelled in Dafny

This project models the business rules of the Odoo addon `custom_unique`. The addon adds
enquiries, quotations, projects and attendance with costing to an Odoo database.

Most of the model is the attendance engine of `hr.attendance`:

- minute-truncated check-in and check-out stamps;
- worked hours;
- the per-day normal-hours budget, which same-day segments consume in check-in order and whose
  excess goes to either the weekday or the weekend overtime bucket;
- the count of an employee's distinct working days in a month;
- the per-record cost allocator: hour pay, salary subtotal, ten monthly overheads split over
  the working days, and total expense;
- validation of mandatory fields, time order, leave and overlap;
- the `create`/`write`/`unlink` bookkeeping. This recomputes the affected (employee, month,
  year) cohorts and upserts or deletes the derived project-employee and estimation-line hour
  rows.

Around the engine sit the smaller record rules:

- quotation amounts, the approval gate, the invoice guard, quotation names and line margins
  (`sale.order`);
- estimation-line formulas, the prefix-cumulative pending figures, project completion and the
  project reference (`project.project`);
- the lead reference and its rebuild, the lead transitions and delete guard, the phone
  country-code prefix and the copying of a user's boss flag (`enquiry.lead`, `res.partner`,
  `res.users`);
- the sale-enquiry reference, the quotation and project it opens, its transitions and delete
  guard (`sale.enquiry`).

Files:

- `common.dfy`: `Option`, `Result`, `Outcome`, the `vals` key `Field`, and the string
  operations behind the reference numbers (`split('-')[-1]`, `str(n)`, `lstrip`,
  `split(' ', 1)[-1]`).
- `attendance_time.dfy`: timestamps as UTC microseconds, `_remove_seconds`, worked hours,
  weekdays, the calendar defaults and the day table, and `_format_hours`.
- `attendance_overtime.dfy`: the same-day segment order and the overtime allocator as pure
  functions, and the scan `WalkDay` that `_compute_overtime_hours` performs.
- `attendance_cost.dfy`: the cost formulas of `_calculate_attendance_costs`.
- `attendance_records.dfy`: the attendance table as a sequence of records, with its
  validation, working days, cohort recomputation and derived hour tables.
- `attendance_store.dfy`: the class `Store`, holding the table, the two derived tables and
  the id counter. Its methods `Create`, `Write` and `Unlink` change them as the overridden
  ORM methods do.
- `sale_order.dfy`, `project_estimation.dfy`, `crm_enquiry.dfy`, `sales_enquiry.dfy`: one
  module per model file.

Amounts and hours are Dafny `real`, so there is no float rounding. The year, the sequence
values, a new record's id and a fresh token are parameters. The local weekday of a UTC
check-in is an input function of the `Host` value, along with employees, project departments
and leaves.

A validation error rolls the whole transaction back. `Create` and `Write` model this by
leaving every field of the store as it was.

Where segments of one day have the same check-in, the model orders them by record id. The
source leaves that order to the database.

Overtime is a stored computed field. The source recomputes it only for the records whose own
dependencies (`check_in`, `check_out`, `worked_hours`, `employee_id`, `attendance_date`) are
written. So after a change of one segment, the other segments of that day keep the overtime
they had. Cohort recomputation (`_recalculate_month_attendances`) recomputes only the cost
fields. The model follows the code on both points (`RefreshOvertime`, `Recalc`).

The specification functions carry no contract of their own; the rows of the lemmas about them
say what they mean:

- `AttendanceTime.WorkedHours`: `WorkedWholeMinutes`. `AttendanceTime.NormalHour`:
  `NormalHourIsDailyLimit`, `EncodingsOffByOneDay`. `AttendanceTime.FormatHours`:
  `FormatWholeMinutes`, `FormatRoundTrip`.
- `Overtime.SegmentOvertime`: `OvertimeBounds`, `DayBudget`, `SumBeforeSort`; the loop that
  computes it is `WalkDay`.
- `AttendanceCost.HoursAmount`: `PayPremiums`, `PayWhenOvertimeExceedsWorked`.
  `AttendanceCost.AttendanceCosts`: `SharesRecombine`, `ExpenseComposition`, `NormalHours`.
- `AttendanceRecords.FreshOvertime`: `AttendanceStore.OvertimeAtHit`, `OvertimeAtMiss`,
  `DayOvertime`. `AttendanceRecords.CheckOverlap`: `CheckOverlapIff`.
  `AttendanceRecords.Validate`: `ValidateIff`, `FirstFailure`. `AttendanceRecords.WorkingDays`:
  `WorkingDatesAppend`, `SameDayCountsOnce`, `Store.WorkingDaysForMonth`.
  `AttendanceRecords.CostsFor`: `AttendanceStore.CostsOf`, `Store.CalculateCosts`.
  `AttendanceRecords.Recalc`: `RecalcKeepsEntries`, `RecalcCompose`, `RecalcIdempotent`,
  `Store.RecalculateMonths`.
- `SaleOrder.ServiceAmounts`: `AmountsFitTogether`, `AmountsFailIff`. `SaleOrder.ApprovalCheck`:
  `ApprovalIff`. `SaleOrder.InvoiceGuard`: `ApprovedNotInvoiceable`. `SaleOrder.QuotationName`:
  `QuotationNameShape`, `SequenceNumberKept`.
- `ProjectEstimation.LinePending`: `PendingAmountAt`, `PendingNeverRises`,
  `LastLineMatchesCompletion`, `OrphanPending`. `ProjectEstimation.ProjectRef`:
  `ProjectRefShape`.
- `CrmEnquiry.CreatedRef`: `CreatedRefShape`, `CreatedThenRebuilt`. `CrmEnquiry.RebuiltRef`:
  `RebuildIdempotent`. `CrmEnquiry.PrefixPhone`: `PrefixedStartsWithCode`,
  `PrefixKeepsCodedPhone`, `PrefixReplacesOtherCode`, `PrefixNationalNumber`, `PrefixIdempotent`.
- `SalesEnquiry.EnquiryRef`: `EnquiryRefShape`, `EnquiryRefNumber`.

## Model

| member | source | states |
|---|---|---|
| `AttendanceTime.RemoveSeconds` | my_addons_19/custom_unique/models/hr_employee.py:559-564 | the result is a whole minute and is the start of the minute holding the stamp |
| `AttendanceTime.RemoveSecondsIdempotent` | my_addons_19/custom_unique/models/hr_employee.py:559-564 | truncating twice is truncating once |
| `AttendanceTime.SameMinuteSameStamp` | my_addons_19/custom_unique/models/hr_employee.py:559-564 | two stamps in the same minute truncate to the same value, so they yield identical durations |
| `AttendanceTime.WorkedWholeMinutes` | my_addons_19/custom_unique/models/hr_employee.py:593-600 | worked hours of truncated stamps are a whole number of minutes divided by 60, and positive exactly when check-out is later than check-in |
| `AttendanceTime.IsoWeekday` | my_addons_19/custom_unique/models/hr_employee.py:575 | `date.weekday()` is within 0..6 (Monday 0); `Epoch` and `IsoWeekdayNext` pin it to the calendar for every date |
| `AttendanceTime.DefaultCalendar` | my_addons_19/custom_unique/models/hr_employee.py:1158-1162 | a calendar's defaults are 8 hours Monday to Friday and 4 hours on Saturday |
| `AttendanceTime.DayTable` | my_addons_19/custom_unique/models/hr_employee.py:616-627 | with the `%w` numbering (Sunday 0), weekdays 1..5 get the Monday-to-Friday limit and are not weekend, 6 gets the Saturday limit and is weekend, 0 gets limit 0 and is weekend |
| `AttendanceTime.NormalHourIsDailyLimit` | my_addons_19/custom_unique/models/hr_employee.py:572-583 | `normal_hour` is the daily limit of the same day once the Monday-0 weekday is shifted to the Sunday-0 numbering |
| `AttendanceTime.EncodingsOffByOneDay` | my_addons_19/custom_unique/models/hr_employee.py:575-581 | for every date, reading its `weekday()` number in the `%w` check-in table gives the budget of the day before: fed the same number, the two encodings are a day apart |
| `AttendanceTime.Epoch` | my_addons_19/custom_unique/models/hr_employee.py:575 | day 0 of the count is 1 January 1970, whose `weekday()` is 3 (a Thursday) |
| `AttendanceTime.IsoWeekdayNext` | my_addons_19/custom_unique/models/hr_employee.py:575 | from every valid date to the next one (month and year ends included), `weekday()` advances by one, Sunday wrapping to Monday |
| `AttendanceTime.Pad2` | my_addons_19/custom_unique/models/hr_employee.py:1155 | `{:02d}` gives at least two decimal digits |
| `AttendanceTime.Pad2Value` | my_addons_19/custom_unique/models/hr_employee.py:1155 | the padded digits read back as the number |
| `AttendanceTime.RoundHalfEven` | my_addons_19/custom_unique/models/hr_employee.py:1152 | `round` gives the integer nearest to x, and the even one on a tie |
| `AttendanceTime.HoursMinutes` | my_addons_19/custom_unique/models/hr_employee.py:1147-1155 | the minutes part is below 60 |
| `AttendanceTime.HoursMinutesNearest` | my_addons_19/custom_unique/models/hr_employee.py:1147-1155 | hours and minutes together are within half a minute of the input |
| `AttendanceTime.WholeMinuteParts` | my_addons_19/custom_unique/models/hr_employee.py:1147-1155 | n whole minutes split into n div 60 hours and n mod 60 minutes |
| `AttendanceTime.FormatWholeMinutes` | my_addons_19/custom_unique/models/hr_employee.py:1147-1155 | a positive whole number of minutes formats as `HH:MM` of its hours and minutes |
| `AttendanceTime.FormatRoundTrip` | my_addons_19/custom_unique/models/hr_employee.py:1147-1155 | parsing the `HH:MM` text of a whole number of minutes gives the number back (zero included) |
| `Overtime.Allocate` | my_addons_19/custom_unique/models/hr_employee.py:644-657 | overtime is the excess of worked over the remaining budget, 0 when it fits; all of it goes to the weekend bucket on a weekend and to the weekday bucket otherwise, so one bucket is always 0 |
| `Overtime.NoOvertime` | my_addons_19/custom_unique/models/hr_employee.py:605-614 | all three overtime fields are 0 |
| `Overtime.OvertimeBounds` | my_addons_19/custom_unique/models/hr_employee.py:629-657 | a segment's overtime lies between 0 and its worked hours; it is all of them once earlier segments used up the limit, and none for a first segment within the limit |
| `Overtime.Insert` | my_addons_19/custom_unique/models/hr_employee.py:629-635 | inserting a segment adds exactly it to the sequence |
| `Overtime.Sort` | my_addons_19/custom_unique/models/hr_employee.py:629-635 | the check-in order is a permutation of the same-day segments |
| `Overtime.SortSorted` | my_addons_19/custom_unique/models/hr_employee.py:629-635 | the result is strictly ordered by check-in, then by id |
| `Overtime.BeforeTotal` | my_addons_19/custom_unique/models/hr_employee.py:629-635 | of two distinct segments exactly one comes first |
| `Overtime.SumBeforeSort` | my_addons_19/custom_unique/models/hr_employee.py:629-659 | the hours before a segment do not depend on the order the search returned |
| `Overtime.SumBeforeSorted` | my_addons_19/custom_unique/models/hr_employee.py:639-659 | in the sorted day, the hours before the k-th segment are the worked hours of the first k |
| `Overtime.DayBudget` | my_addons_19/custom_unique/models/hr_employee.py:629-657 | the normal hours of a whole day are the smaller of the limit (clamped at 0) and the day's worked hours: the budget is shared, never counted twice |
| `Overtime.WalkDay` | my_addons_19/custom_unique/models/hr_employee.py:636-657 | the loop stops at the first segment with the record's id, and the buckets it assigns are the allocation of that segment's hours against the limit less the hours before it |
| `AttendanceCost.Divisor` | my_addons_19/custom_unique/models/hr_employee.py:253-254 | the divisor is at least 1, and equals the working-day count when that is not 0 |
| `AttendanceCost.NormalHours` | my_addons_19/custom_unique/models/hr_employee.py:263-265 | normal hours are worked less both overtimes, clamped at 0 |
| `AttendanceCost.SharesRecombine` | my_addons_19/custom_unique/models/hr_employee.py:278-288 | the ten per-day shares times the divisor give back the month's overheads |
| `AttendanceCost.ExpenseComposition` | my_addons_19/custom_unique/models/hr_employee.py:290-296 | total expense is the overheads over the divisor plus salary subtotal plus misc amount, and does not depend on the hour rate: hour pay is not part of it |
| `AttendanceCost.PayPremiums` | my_addons_19/custom_unique/models/hr_employee.py:267-271 | when overtime fits in the worked hours, hour pay is worked at the rate plus half a rate per weekday overtime hour and a full rate per weekend overtime hour |
| `AttendanceCost.PayWhenOvertimeExceedsWorked` | my_addons_19/custom_unique/models/hr_employee.py:263-271 | when overtime exceeds worked hours, the clamp drops normal pay and only the premium pay remains |
| `AttendanceRecords.SameDayMembers` | my_addons_19/custom_unique/models/hr_employee.py:629-635 | the same-day segments are exactly the closed records of that employee and date |
| `AttendanceRecords.OverlapSymmetric` | my_addons_19/custom_unique/models/hr_employee.py:772 | overlap does not depend on which of the two records is being saved |
| `AttendanceRecords.BackToBackAllowed` | my_addons_19/custom_unique/models/hr_employee.py:772 | a segment that ends when the next begins does not overlap it |
| `AttendanceRecords.CheckOverlapIff` | my_addons_19/custom_unique/models/hr_employee.py:759-816 | the overlap check passes exactly when every other record of the employee on that date has both times and does not overlap, whatever its project |
| `AttendanceRecords.ValidateIff` | my_addons_19/custom_unique/models/hr_employee.py:665-843 | validation passes exactly when the mandatory fields and both times are set, no validated leave covers the date, check-out is later than check-in and nothing overlaps |
| `AttendanceRecords.FirstFailure` | my_addons_19/custom_unique/models/hr_employee.py:665-694 | the records pass together exactly when each one passes |
| `AttendanceRecords.WorkingDatesAppend` | my_addons_19/custom_unique/models/hr_employee.py:91-106 | a further record adds its date to the month's date set when it belongs to that employee and month, and nothing otherwise |
| `AttendanceRecords.SameDayCountsOnce` | my_addons_19/custom_unique/models/hr_employee.py:100-106 | a second segment on a date already worked leaves the day count as it was; a new date adds one |
| `AttendanceRecords.CohortOf` | my_addons_19/custom_unique/models/hr_employee.py:319-336 | a record with employee and date lies in its own (employee, month, year) cohort |
| `AttendanceRecords.RecalcKeepsEntries` | my_addons_19/custom_unique/models/hr_employee.py:298-317 | recomputation writes only the cost fields: constrained fields, misc amount and overtime are kept |
| `AttendanceRecords.RecalcCompose` | my_addons_19/custom_unique/models/hr_employee.py:319-336 | recomputing cohorts a and then b is recomputing a and b together |
| `AttendanceRecords.RecalcIdempotent` | my_addons_19/custom_unique/models/hr_employee.py:237-336 | recomputing the same cohorts twice gives the same records as once; misc amount is written back unchanged |
| `AttendanceRecords.Upserted` | my_addons_19/custom_unique/models/hr_employee.py:500-528 | a positive total writes or creates the row, a zero total deletes it, and no other row changes |
| `AttendanceRecords.PairHoursConcat` | my_addons_19/custom_unique/models/hr_employee.py:505-510 | the employee-project total of a table is the sum over its parts |
| `AttendanceRecords.PairInTable` | my_addons_19/custom_unique/models/hr_employee.py:500-528 | a pair has a row exactly when its total is positive, and the row holds that total |
| `AttendanceRecords.RefreshKeepsPairTable` | my_addons_19/custom_unique/models/hr_employee.py:500-528 | refreshing every pair whose total changed turns the table of the old records into the table of the new ones |
| `AttendanceRecords.CreateKeepsPairTable` | my_addons_19/custom_unique/models/hr_employee.py:356-362 | refreshing the pairs of the created records keeps the project-employee rows equal to the totals of the grown table |
| `AttendanceRecords.PairsOf` | my_addons_19/custom_unique/models/hr_employee.py:358-359 | every record with employee and project contributes its pair |
| `AttendanceStore.CleanStamp` | my_addons_19/custom_unique/models/hr_employee.py:341-348 | a set stamp is truncated to its minute, an absent or unset one is passed on as it is |
| `AttendanceStore.CleanValsIdempotent` | my_addons_19/custom_unique/models/hr_employee.py:405-408 | cleaning the values twice is cleaning them once |
| `AttendanceStore.Apply` | my_addons_19/custom_unique/models/hr_employee.py:411 | writing keeps the id, and values that do not touch a constrained field leave the record as it was |
| `AttendanceStore.NewRecords` | my_addons_19/custom_unique/models/hr_employee.py:351 | the created records take consecutive ids from the counter, in the order of the values |
| `AttendanceStore.Selected` | my_addons_19/custom_unique/models/hr_employee.py:385-391 | the written or deleted records are exactly those of the table whose id is given |
| `AttendanceStore.Remaining` | my_addons_19/custom_unique/models/hr_employee.py:480 | after deletion exactly the records whose id was not given remain |
| `AttendanceStore.FullMonthsOfExactly` | my_addons_19/custom_unique/models/hr_employee.py:461-478 | `unlink` recomputes the month of a deleted record exactly when it had a project (besides employee and date) |
| `AttendanceStore.CreateKeepsValid` | my_addons_19/custom_unique/models/hr_employee.py:350-351 | created records that pass validation keep every record of the table admissible |
| `AttendanceStore.WriteKeepsValid` | my_addons_19/custom_unique/models/hr_employee.py:409-411 | a write whose records pass validation keeps every record admissible, the untouched ones included |
| `AttendanceStore.UnlinkKeepsValid` | my_addons_19/custom_unique/models/hr_employee.py:480 | deleting records keeps the rest admissible and their ids increasing |
| `AttendanceStore.DaySorted` | my_addons_19/custom_unique/models/hr_employee.py:629-635 | the same-day segments of the table, sorted, are in strict check-in order |
| `AttendanceStore.OvertimeAtHit` | my_addons_19/custom_unique/models/hr_employee.py:602-659 | when the record is found at position k of its sorted day, its overtime is its hours allocated against the day-kind limit less the hours of the k segments before it |
| `AttendanceStore.OvertimeAtMiss` | my_addons_19/custom_unique/models/hr_employee.py:636-659 | a record missing from its sorted day (an open one) gets no overtime |
| `AttendanceStore.DayOvertime` | my_addons_19/custom_unique/models/hr_employee.py:602-659 | the buckets the loop assigns are the fresh overtime of the record, one of the two always 0 |
| `AttendanceStore.WalkRecordDay` | my_addons_19/custom_unique/models/hr_employee.py:629-659 | the search, sort and walk over the record's same-day segments assign exactly the record's fresh overtime |
| `AttendanceStore.CostsOf` | my_addons_19/custom_unique/models/hr_employee.py:237-317 | the cost fields are those the engine computes from the record's hours, the employee's rates and overheads, and the working days of its month |
| `AttendanceStore.RefreshPairs` | my_addons_19/custom_unique/models/hr_employee.py:438-442 | the loop over the affected pairs upserts each pair's total and leaves every other row alone |
| `AttendanceStore.RefreshDates` | my_addons_19/custom_unique/models/hr_employee.py:444-447 | the loop over the affected dates upserts each project-date total and leaves every other row alone |
| `AttendanceStore.Store.WorkingDaysForMonth` | my_addons_19/custom_unique/models/hr_employee.py:91-106 | the loop counts the distinct dates of the employee in the month |
| `AttendanceStore.Store.ComputeOvertime` | my_addons_19/custom_unique/models/hr_employee.py:602-659 | the overtime computed for record i is its fresh overtime against the current table, and at most one bucket is nonzero |
| `AttendanceStore.Store.CalculateCosts` | my_addons_19/custom_unique/models/hr_employee.py:237-317 | without employee or date nothing changes; otherwise only record i's cost fields change, to the engine's costs |
| `AttendanceStore.Store.RecalculateMonth` | my_addons_19/custom_unique/models/hr_employee.py:319-336 | every record of the cohort gets fresh costs, and nothing else changes |
| `AttendanceStore.Store.RecalculateMonths` | my_addons_19/custom_unique/models/hr_employee.py:374-375 | the table is the recomputation of all the given cohorts |
| `AttendanceStore.Store.UpdateProjectEmployeeHours` | my_addons_19/custom_unique/models/hr_employee.py:500-528 | the project-employee row of the pair is upserted with the total of its records |
| `AttendanceStore.Store.UpdateEstimationLine` | my_addons_19/custom_unique/models/hr_employee.py:530-557 | the estimation line of the project and date is upserted with the total of its records |
| `AttendanceStore.Store.RefreshStoredOvertime` | my_addons_19/custom_unique/models/hr_employee.py:602-659 | the written records get fresh overtime, and the others keep theirs |
| `AttendanceStore.Store.SetOvertime` | my_addons_19/custom_unique/models/hr_employee.py:644-657 | only record k's three overtime fields change, to the given buckets; its constrained fields and the derived tables stay |
| `AttendanceStore.Store.UpdatePairs` | my_addons_19/custom_unique/models/hr_employee.py:438-442 | the project-employee rows become the old rows with every given pair upserted from the current records; nothing else changes |
| `AttendanceStore.Store.UpdateDates` | my_addons_19/custom_unique/models/hr_employee.py:444-447 | the estimation rows become the old rows with every given project-date upserted from the current records; nothing else changes |
| `AttendanceStore.Store.Create` | my_addons_19/custom_unique/models/hr_employee.py:338-377 | the result is the first validation failure of the new records; on failure nothing changes. Otherwise the table grows by the cleaned records with consecutive ids and their overtime, their pairs and dates are upserted, and their cohorts are recomputed |
| `AttendanceStore.Store.RefreshCreated` | my_addons_19/custom_unique/models/hr_employee.py:356-372 | the loop collects the cohorts of the new records and refreshes the rows of their pairs and dates |
| `AttendanceStore.Store.Write` | my_addons_19/custom_unique/models/hr_employee.py:379-453 | under the re-entrancy flag only the write happens, without cleaning stamps. Otherwise the stamps are cleaned, the records written and validated (nothing changes on failure), the old and new pairs, dates and cohorts refreshed, and the counter kept |
| `AttendanceStore.Store.StoreWrite` | my_addons_19/custom_unique/models/hr_employee.py:411 | the write succeeds exactly when the written records pass validation, and then their overtime is refreshed |
| `AttendanceStore.Store.RefreshRows` | my_addons_19/custom_unique/models/hr_employee.py:438-451 | the given pairs and dates are upserted and the given cohorts recomputed |
| `AttendanceStore.Store.Unlink` | my_addons_19/custom_unique/models/hr_employee.py:455-498 | the given records are removed, the rows of their pairs and dates are refreshed, and the months of those with a project and a date are recomputed |
| `SaleOrder.GstRate` | my_addons_19/custom_unique/models/sale_order.py:175 | GST is 9 percent for `gst_9` and 0 otherwise |
| `SaleOrder.Discount` | my_addons_19/custom_unique/models/sale_order.py:160-170 | an amount discount above the total is an error; a percent discount is the total times the percent capped at 100; otherwise the amount, or 0 with no discount type |
| `SaleOrder.PercentDiscountWithinTotal` | my_addons_19/custom_unique/models/sale_order.py:163-165 | with a non-negative total a percent discount never exceeds the total, and a non-negative percent gives a non-negative discount |
| `SaleOrder.AmountsFitTogether` | my_addons_19/custom_unique/models/sale_order.py:156-184 | service amount is the sum of the subtotals, after-discount is total less discount, net is after-discount plus GST (no GST unless `gst_9`), and boss approval is required exactly when net exceeds 250000 |
| `SaleOrder.AmountsFailIff` | my_addons_19/custom_unique/models/sale_order.py:166-169 | the amounts fail exactly for an amount discount above the total |
| `SaleOrder.AfterDiscountNonNegative` | my_addons_19/custom_unique/models/sale_order.py:173 | with non-negative subtotals and percent, the amount after discount is not negative |
| `SaleOrder.SumLines` | my_addons_19/custom_unique/models/sale_order.py:160 | the loop's total is the sum of the line subtotals |
| `SaleOrder.Quotation.ComputeServiceAmounts` | my_addons_19/custom_unique/models/sale_order.py:156-184 | the stored amounts become the computed ones; on an excessive amount discount the error is returned and the discount amount is reset to 0 |
| `SaleOrder.ApprovalIff` | my_addons_19/custom_unique/models/sale_order.py:186-194 | approval passes exactly when there are lines and the user is a boss precisely for nets above 25000; with no lines it fails for that reason |
| `SaleOrder.Quotation.ApproveQuotation` | my_addons_19/custom_unique/models/sale_order.py:186-194 | the quotation becomes approved exactly when the gate passes |
| `SaleOrder.ThresholdsDisagree` | my_addons_19/custom_unique/models/sale_order.py:184-191 | for every quotation whose net lies above 25000 and at most 250000, no boss approval is flagged, yet only a boss can approve it |
| `SaleOrder.ApprovedNotInvoiceable` | my_addons_19/custom_unique/models/sale_order.py:207-208 | an invoice can be created only in state `sale`; an approved quotation cannot be invoiced |
| `SaleOrder.Quotation.CreateInvoice` | my_addons_19/custom_unique/models/sale_order.py:203-208 | invoicing passes exactly in state `sale` |
| `SaleOrder.QuotationNameShape` | my_addons_19/custom_unique/models/sale_order.py:128-152 | the name starts with company code (CMP), `-QT-`, department code (DEPT) and ends with the last segment of the sequence value |
| `SaleOrder.SequenceNumberKept` | my_addons_19/custom_unique/models/sale_order.py:137-152 | the name ends in the number after the sequence value's last hyphen, and in `000` without a sequence value |
| `SaleOrder.CreateNames` | my_addons_19/custom_unique/models/sale_order.py:125-154 | each name left `New` (or absent) is built from the next sequence value, and given names are kept |
| `SaleOrder.NamesStep` | my_addons_19/custom_unique/models/sale_order.py:127-152 | one more value adds its name, and draws one sequence value exactly when it needs a name |
| `SaleOrder.LineMargin` | my_addons_19/custom_unique/models/sale_order.py:345-351 | the margin is 0 without a cost |
| `SaleOrder.MarginInverse` | my_addons_19/custom_unique/models/sale_order.py:345-351 | marking the cost up by the margin gives the subtotal back, and the margin is positive exactly when the subtotal exceeds the cost relative to it |
| `ProjectEstimation.ManPowerCost` | my_addons_19/custom_unique/models/project_project.py:108-111 | the cost is 0 exactly when the man hours or the rate are 0 (missing counts as 0) |
| `ProjectEstimation.WipBounds` | my_addons_19/custom_unique/models/project_project.py:113-118 | WIP is 0 at 0 percent, the whole value at 100 percent, and between the two in between |
| `ProjectEstimation.Through` | my_addons_19/custom_unique/models/project_project.py:132-137 | the loop reads a prefix of the lines in id order, ending at the line itself |
| `ProjectEstimation.ThroughAt` | my_addons_19/custom_unique/models/project_project.py:132-137 | for the i-th line of distinct ids that prefix is the first i+1 lines |
| `ProjectEstimation.RunningTotals` | my_addons_19/custom_unique/models/project_project.py:129-137 | the running totals are the percent and WIP sums of that prefix |
| `ProjectEstimation.PendingAmountAt` | my_addons_19/custom_unique/models/project_project.py:139-143 | percent pending is 100 less the cumulative percent, clamped at 0, and pending amount is the line's value less the cumulative WIP |
| `ProjectEstimation.PendingNeverRises` | my_addons_19/custom_unique/models/project_project.py:126-139 | with non-negative percents, percent pending never rises along id order |
| `ProjectEstimation.ProjectComplete` | my_addons_19/custom_unique/models/project_project.py:146-147 | completion is the sum of all percents clamped to 0..100 |
| `ProjectEstimation.TotalCompleted` | my_addons_19/custom_unique/models/project_project.py:146 | the loop's total is the sum of all lines' percents |
| `ProjectEstimation.LastLineMatchesCompletion` | my_addons_19/custom_unique/models/project_project.py:139-148 | with non-negative percents, the last line's pending percent is 100 less the project's completion |
| `ProjectEstimation.OrphanPending` | my_addons_19/custom_unique/models/project_project.py:149-151 | a line without a project is 100 percent pending for its whole value |
| `ProjectEstimation.Project.ComputePercentCalculation` | my_addons_19/custom_unique/models/project_project.py:120-151 | on lines kept in increasing id order (`Valid`), the line's pending figures become those of `LinePending` and the project's completion the clamped sum; nothing else is written |
| `ProjectEstimation.ProjectRefShape` | my_addons_19/custom_unique/models/project_project.py:69-82 | the reference does not depend on the department; when unset or `New` it starts with the company code (CMP) and `-PRO-` and ends with the sequence's last segment, otherwise it is kept |
| `ProjectEstimation.Project.AssignRef` | my_addons_19/custom_unique/models/project_project.py:72-81 | a reference is drawn exactly when it is unset or `New` |
| `CrmEnquiry.CodeIfPresent` | my_addons_19/custom_unique/models/crm_enquiry.py:98-99 | `CMP` or `DEPT` without a record; with a record its code, rendered `False` when missing |
| `CrmEnquiry.CodeOf` | my_addons_19/custom_unique/models/crm_enquiry.py:111-112 | the code of the record, rendered `False` when the record or its code is missing |
| `CrmEnquiry.CreatedRefShape` | my_addons_19/custom_unique/models/crm_enquiry.py:92-103 | a created reference starts with the company code (CMP), `-LEAD-` and the department code (DEPT), and ends with the last segment of the sequence value (`001` without one) |
| `CrmEnquiry.CreatedThenRebuilt` | my_addons_19/custom_unique/models/crm_enquiry.py:92-115 | with company and department set, rebuilding a created reference for the same records and year gives it back: `write` keeps the number `create` drew |
| `CrmEnquiry.Lead.EnsureToken` | my_addons_19/custom_unique/models/crm_enquiry.py:90-91 | a lead without a token gets the fresh one, and one with a token keeps it |
| `CrmEnquiry.Lead.Number` | my_addons_19/custom_unique/models/crm_enquiry.py:92-103 | a reference is built exactly when it is unset or `New`, from the codes, the year and the sequence's last segment (`001` without a sequence) |
| `CrmEnquiry.Lead.Write` | my_addons_19/custom_unique/models/crm_enquiry.py:106-117 | a write touching company or department rebuilds the reference from the new codes, keeping the old last segment; other writes leave it |
| `CrmEnquiry.RebuildIdempotent` | my_addons_19/custom_unique/models/crm_enquiry.py:110-115 | rebuilding a rebuilt reference with the same codes and year gives it back: the number survives |
| `CrmEnquiry.Lead.Approve` | my_addons_19/custom_unique/models/crm_enquiry.py:157-165 | the lead becomes approved and is linked to the newly created sale enquiry |
| `CrmEnquiry.Lead.Reject` | my_addons_19/custom_unique/models/crm_enquiry.py:167-169 | the lead becomes rejected and keeps its link |
| `CrmEnquiry.UnlinkGuard` | my_addons_19/custom_unique/models/crm_enquiry.py:185-189 | deletion passes exactly when no lead is approved, and otherwise fails naming an approved one |
| `CrmEnquiry.CodeText` | my_addons_19/custom_unique/models/crm_enquiry.py:243 | code 0 renders as nothing, any other as its digits |
| `CrmEnquiry.PrefixedStartsWithCode` | my_addons_19/custom_unique/models/crm_enquiry.py:239-251 | with a country the phone always ends up set and starting with `+code` |
| `CrmEnquiry.PrefixKeepsCodedPhone` | my_addons_19/custom_unique/models/crm_enquiry.py:244-251 | a phone already starting with `+code` is kept, and an empty or missing phone becomes `+code` |
| `CrmEnquiry.PrefixReplacesOtherCode` | my_addons_19/custom_unique/models/crm_enquiry.py:246-249 | a phone with another code in front of a space gets this code in its place, the rest kept |
| `CrmEnquiry.PrefixNationalNumber` | my_addons_19/custom_unique/models/crm_enquiry.py:246-249 | a phone without `+` or spaces (not starting with the code) gets `+code ` in front |
| `CrmEnquiry.PrefixIdempotent` | my_addons_19/custom_unique/models/crm_enquiry.py:359-371 | applying the country prefix twice gives what applying it once gives (the same rule in `res.partner` and `res.users`) |
| `CrmEnquiry.WriteIsBoss` | my_addons_19/custom_unique/models/crm_enquiry.py:352-357 | writing `is_boss` sets it on the user and copies it to the partner; a write without it changes neither |
| `CrmEnquiry.CreateAccountsAsWritten` | my_addons_19/custom_unique/models/crm_enquiry.py:345-350 | one account per value dictionary, as the code creates them |
| `CrmEnquiry.CreateAsWrittenNeverCopies` | my_addons_19/custom_unique/models/crm_enquiry.py:348-349 | the key test on the list of dictionaries never holds, so the partner never gets the flag on creation |
| `CrmEnquiry.CreateAsWrittenDiffersFromWrite` | my_addons_19/custom_unique/models/crm_enquiry.py:345-357 | creating a boss user leaves the partner a non-boss, while writing the flag copies it |
| `CrmEnquiry.CreateAccounts` | my_addons_19/custom_unique/models/crm_enquiry.py:345-357 | each created account is a fresh account with the flag written, as `write` does |
| `CrmEnquiry.CreateAgreesWithWrite` | my_addons_19/custom_unique/models/crm_enquiry.py:345-357 | after the corrected creation the partner's flag equals the user's, and creation agrees with a write on a fresh account |
| `SalesEnquiry.EnquiryRefShape` | my_addons_19/custom_unique/models/sales_enquiry.py:80-93 | the reference starts with company code (CMP), `-ENQ-`, department code (DEPT) and ends with the last segment of the sequence value |
| `SalesEnquiry.EnquiryRefNumber` | my_addons_19/custom_unique/models/sales_enquiry.py:88-92 | the reference ends in the number after the sequence value's last hyphen, and in `000` (from `SENQ-000`) without a sequence value |
| `SalesEnquiry.SaleEnquiry.Number` | my_addons_19/custom_unique/models/sales_enquiry.py:83-92 | a reference is built exactly when it is unset or `New`; nothing else changes |
| `SalesEnquiry.ProjectTitle` | my_addons_19/custom_unique/models/sales_enquiry.py:107-111 | the title is the vessel name if set, else the project name if set, else none |
| `SalesEnquiry.SaleEnquiry.CreateQuotation` | my_addons_19/custom_unique/models/sales_enquiry.py:97-119 | the quotation carries the enquiry's lead, id, contact, company and department and is linked; a project is created exactly when there is a title |
| `SalesEnquiry.ActionCreateQuotation` | my_addons_19/custom_unique/models/sales_enquiry.py:95-126 | the loop returns on its first pass: only the first enquiry gets a quotation, and the window shows it; with no enquiries nothing is returned |
| `SalesEnquiry.SaleEnquiry.Approve` | my_addons_19/custom_unique/models/sales_enquiry.py:140-144 | the state becomes approved and `is_approved` is cleared |
| `SalesEnquiry.SaleEnquiry.Reject` | my_addons_19/custom_unique/models/sales_enquiry.py:146-150 | the state becomes rejected and `is_approved` is cleared as well |
| `SalesEnquiry.UnlinkGuard` | my_addons_19/custom_unique/models/sales_enquiry.py:152-156 | deletion passes exactly when no enquiry is approved, and otherwise fails naming an approved one |
| `Text.LastSegment` | my_addons_19/custom_unique/models/sales_enquiry.py:89 | `split('-')[-1]` is the hyphen-free tail after the last hyphen, or the whole text without one |
| `Text.ReferenceShape` | my_addons_19/custom_unique/models/sales_enquiry.py:92 | a reference starts with its prefix and ends with the sequence's number |
| `Text.NatToStringRoundTrip` | my_addons_19/custom_unique/models/sales_enquiry.py:92 | the rendered year reads back as the year |
| `Text.LStrip` | my_addons_19/custom_unique/models/crm_enquiry.py:248 | `lstrip('+')` removes exactly the leading plus signs |
| `Text.AfterFirstSpace` | my_addons_19/custom_unique/models/crm_enquiry.py:248 | `split(' ', 1)[-1]` is the text after the first space, or all of it without one |

## Left out

- Timezone conversion (`convert_utc_to_local_time_only`, pytz): the local weekday of a check-in is the input `Host.localWeekday`, whose values are limited to the `%w` range 0..6.
- `datetime.now().year`, `ir.sequence.next_by_code`, `uuid.uuid4()`, and the ids the ORM gives new records: these become parameters.
- The ORM's searches, `browse` and recompute triggers. Searches are filters over the record sequence. The recompute of stored computed fields is modelled only where the core relies on it (overtime of the written records).
- Record ids drawn by a create that is then rolled back: the counter is restored with everything else.
- Ids in a `write` or `unlink` that name no record are ignored, as a recordset would never hold them.
- The `_onchange_*` warnings, `print` calls, the Excel export, e-mail, bus notifications and HTTP routes: these are user interface and I/O.
- Leave requests are a list on `Host`. `_check_leave_conflict`'s search is the predicate `OnLeave` (a validated leave whose dates cover the attendance date).
- `_check_public_holiday`, `_check_mandatory_attendance`, `_check_validity` and `_compute_total_hours_amount`: these are unwired code.
- `SaleOrder.Quotation.ComputeServiceAmounts`: when the discount is too large the model keeps the reset of `discount_amt` to 0 and returns the error. The transaction rollback that would undo the reset is the caller's concern.
- `CrmEnquiry.Lead.Approve`: the id of the created sale enquiry is a parameter.
- `action_view_quotations`, `action_view_project`, `_compute_sale_quotations_count`, `_compute_net_amount_total_words` and `action_cancel_approval`: these are window actions, counts or text.
- `_compute_pending_amount` in project_project.py: it is unreferenced.
- `SaleOrder.QuotationNameShape`: the `CMP`/`DEPT` fallback of `hasattr(company, 'code') and company.code` is stated through `CodeOr`, which treats a missing and an empty code alike.
- `CrmEnquiry.CreateAccountsAsWritten`: `vals_list['is_boss']` would raise a TypeError if it were reached, but its guard never holds, so the model has no error path for it.
- `AttendanceStore.RefreshPairs`: the loops over the `affected_combinations` and `affected_estimation_dates` sets are module-level methods that work on a local copy of the derived table. The store assigns their result (`AttendanceStore.RefreshDates` likewise).
- Float arithmetic and Python's float `round`: amounts are exact reals. `_format_hours` rounds half to even on reals, and its round trip is proved for whole numbers of minutes.
- String dates passed to `_remove_seconds`: stamps are always integers here.
- The `account_move.py`, `import_attendance.py` and report wizard modules: account_move.py and import_attendance.py are not part of this model.
- `_update_project_employee_hours` creates a new `project.employee` row with the project's `location`, and both upserts take the first row their `search(..., limit=1)` finds. The derived tables here are maps with one row per key holding only the hour total, so the location and any duplicate rows are not modelled.

## Findings

| source | as written | input that shows it | evidently intended | confidence | as-written member | corrected member |
|---|---|---|---|---|---|---|
| my_addons_19/custom_unique/models/crm_enquiry.py:345-350 | `ResUsers.create` tests `'is_boss' in vals_list`, asking whether a list of dictionaries contains the string, so the flag is never copied to the new user's partner | `create([{'is_boss': True}])`: the user is a boss, the partner is not | copy each dictionary's `is_boss` to its user's partner, as `write` does at lines 352-357 | not executed | `CrmEnquiry.CreateAsWrittenDiffersFromWrite` | `CrmEnquiry.CreateAgreesWithWrite` |
