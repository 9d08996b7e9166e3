/** Worked instances of the billing clock, computed on the model. */
module BillingExamples {
  import opened Wrappers
  import opened JsDates
  import opened Ledger
  import opened Billing

  // ---------------------------------------------------------------------------
  // Counting from the individual steps

  lemma CountIs1(lb: JsDate, today: CalDate)
    requires Good(lb) && DueAfter(lb, 1, today) && !DueAfter(lb, 2, today)
    ensures MonthsToBill(lb, today) == 1
  {
    forall j | 1 <= j <= 1
      ensures DueAfter(lb, j, today)
    {
      assert j == 1;
    }
    MonthsToBillUnique(lb, today, 1);
  }

  lemma CountIs2(lb: JsDate, today: CalDate)
    requires Good(lb) && DueAfter(lb, 1, today) && DueAfter(lb, 2, today) && !DueAfter(lb, 3, today)
    ensures MonthsToBill(lb, today) == 2
  {
    forall j | 1 <= j <= 2
      ensures DueAfter(lb, j, today)
    {
      assert j == 1 || j == 2;
    }
    MonthsToBillUnique(lb, today, 2);
  }

  lemma CountIs3(lb: JsDate, today: CalDate)
    requires Good(lb) && DueAfter(lb, 1, today) && DueAfter(lb, 2, today) && DueAfter(lb, 3, today)
    requires !DueAfter(lb, 4, today)
    ensures MonthsToBill(lb, today) == 3
  {
    forall j | 1 <= j <= 3
      ensures DueAfter(lb, j, today)
    {
      assert j == 1 || j == 2 || j == 3;
    }
    MonthsToBillUnique(lb, today, 3);
  }

  // ---------------------------------------------------------------------------
  // Checkpoint 2024-01-15, billed on 2024-04-20

  lemma MidMonthSteps()
    ensures Step(Valid(CalDate(2024, 1, 15)), 1) == Valid(CalDate(2024, 2, 15))
    ensures Step(Valid(CalDate(2024, 1, 15)), 2) == Valid(CalDate(2024, 3, 15))
    ensures Step(Valid(CalDate(2024, 1, 15)), 3) == Valid(CalDate(2024, 4, 15))
    ensures Step(Valid(CalDate(2024, 1, 15)), 4) == Valid(CalDate(2024, 5, 15))
  {
    var c := CalDate(2024, 1, 15);
    ShortDayStepsAgree(c, 1);
    ShortDayStepsAgree(c, 2);
    ShortDayStepsAgree(c, 3);
    ShortDayStepsAgree(c, 4);
  }

  lemma MidMonthDue()
    ensures DueAfter(Valid(CalDate(2024, 1, 15)), 1, CalDate(2024, 4, 20))
    ensures DueAfter(Valid(CalDate(2024, 1, 15)), 2, CalDate(2024, 4, 20))
    ensures DueAfter(Valid(CalDate(2024, 1, 15)), 3, CalDate(2024, 4, 20))
    ensures !DueAfter(Valid(CalDate(2024, 1, 15)), 4, CalDate(2024, 4, 20))
    ensures !DueAfter(Valid(CalDate(2024, 1, 15)), 1, CalDate(2024, 2, 14))
  {
    var today := CalDate(2024, 4, 20);
    MidMonthSteps();
    DueByChronological(CalDate(2024, 2, 15), today);
    DueByChronological(CalDate(2024, 3, 15), today);
    DueByChronological(CalDate(2024, 4, 15), today);
    DueByChronological(CalDate(2024, 5, 15), today);
    DueByChronological(CalDate(2024, 2, 15), CalDate(2024, 2, 14));
  }

  /** Three months have passed: three cycles are billed. */
  lemma CatchUpCount()
    ensures MonthsToBill(Valid(CalDate(2024, 1, 15)), CalDate(2024, 4, 20)) == 3
  {
    MidMonthDue();
    CountIs3(Valid(CalDate(2024, 1, 15)), CalDate(2024, 4, 20));
  }

  /** One day short of the first month nothing is billed. */
  lemma NotYetDue()
    ensures MonthsToBill(Valid(CalDate(2024, 1, 15)), CalDate(2024, 2, 14)) == 0
  {
    MidMonthDue();
    MonthsToBillUnique(Valid(CalDate(2024, 1, 15)), CalDate(2024, 2, 14), 0);
  }

  /** A stored checkpoint text that some in-range date prints as is read back as that date. */
  lemma ReadsAs(s: Student, c: CalDate)
    requires IsDate(c) && c.year >= 100 && CheckpointText(s) == Format(Valid(c))
    ensures LastBill(s) == Valid(c)
  {
    FormatParseRoundTrip(c);
  }

  /**
   * A student last billed on 2024-01-15 is charged three monthly fees on
   * 2024-04-20 and checkpointed at 2024-04-15.
   */
  lemma CatchUpStudent(s: Student, today: CalDate)
    requires s.lastBilledDate == Some(Format(Valid(CalDate(2024, 1, 15)))) && today == CalDate(2024, 4, 20)
    ensures BillStudent(s, today).pendingFees == s.pendingFees + 3 * s.totalFees
    ensures BillStudent(s, today).lastBilledDate == Some(Format(Valid(CalDate(2024, 4, 15))))
  {
    var c := CalDate(2024, 1, 15);
    ReadsAs(s, c);
    CatchUpCount();
    AddMonthsShortDay(c, 3);
  }

  // ---------------------------------------------------------------------------
  // Checkpoint 2023-01-31, billed on 2023-05-02

  /** `setMonth` overflows instead of clamping: January 31 plus a month is March 2 in a leap year, March 3 otherwise. */
  lemma SetMonthOverflows()
    ensures AddMonths(Valid(CalDate(2024, 1, 31)), 1) == Valid(CalDate(2024, 3, 2))
    ensures AddMonths(Valid(CalDate(2023, 1, 31)), 1) == Valid(CalDate(2023, 3, 3))
  {
    assert CarryDays(2024, 2, 31) == CarryDays(2024, 3, 2);
    assert CarryDays(2023, 2, 31) == CarryDays(2023, 3, 3);
  }

  lemma MonthEndSteps()
    ensures AddMonths(Valid(CalDate(2023, 1, 31)), 1) == Valid(CalDate(2023, 3, 3))
    ensures AddMonths(Valid(CalDate(2023, 1, 31)), 2) == Valid(CalDate(2023, 3, 31))
    ensures AddMonths(Valid(CalDate(2023, 3, 3)), 1) == Valid(CalDate(2023, 4, 3))
    ensures AddMonths(Valid(CalDate(2023, 4, 3)), 1) == Valid(CalDate(2023, 5, 3))
    ensures AddMonths(Valid(CalDate(2023, 3, 31)), 1) == Valid(CalDate(2023, 5, 1))
    ensures AddMonths(Valid(CalDate(2023, 5, 1)), 1) == Valid(CalDate(2023, 6, 1))
  {
    assert CarryDays(2023, 2, 31) == CarryDays(2023, 3, 3);
    assert CarryDays(2023, 4, 31) == CarryDays(2023, 5, 1);
  }

  /** Two steps on or before today and a third after it, read off the calendar, make the count 2. */
  lemma CountIs2On(lb: JsDate, today: CalDate, d1: CalDate, d2: CalDate, d3: CalDate)
    requires Good(lb) && IsDate(today) && 1000 <= today.year <= 9999
    requires Step(lb, 1) == Valid(d1) && Step(lb, 2) == Valid(d2) && Step(lb, 3) == Valid(d3)
    requires IsDate(d1) && IsDate(d2) && IsDate(d3)
    requires 1000 <= d1.year <= 9999 && 1000 <= d2.year <= 9999 && 1000 <= d3.year <= 9999
    requires NotAfter(d1, today) && NotAfter(d2, today) && !NotAfter(d3, today)
    ensures MonthsToBill(lb, today) == 2
  {
    DueByChronological(d1, today);
    DueByChronological(d2, today);
    DueByChronological(d3, today);
    CountIs2(lb, today);
  }

  /** The loop's steps from 2023-01-31. */
  lemma MonthEndStepDates()
    ensures Step(Valid(CalDate(2023, 1, 31)), 1) == Valid(CalDate(2023, 3, 3))
    ensures Step(Valid(CalDate(2023, 1, 31)), 2) == Valid(CalDate(2023, 4, 3))
    ensures Step(Valid(CalDate(2023, 1, 31)), 3) == Valid(CalDate(2023, 5, 3))
  {
    var lb := Valid(CalDate(2023, 1, 31));
    MonthEndSteps();
    StepSucc(lb, 1);
    StepSucc(lb, 2);
  }

  /** From 2023-01-31 the steps 2023-03-03 and 2023-04-03 are due on 2023-05-02 and 2023-05-03 is not. */
  lemma MonthEndCount()
    ensures MonthsToBill(Valid(CalDate(2023, 1, 31)), CalDate(2023, 5, 2)) == 2
  {
    MonthEndStepDates();
    CountIs2On(Valid(CalDate(2023, 1, 31)), CalDate(2023, 5, 2), CalDate(2023, 3, 3), CalDate(2023, 4, 3), CalDate(2023, 5, 3));
  }

  /** One step on or before today and a second after it make the count 1. */
  lemma CountIs1On(lb: JsDate, today: CalDate, d1: CalDate, d2: CalDate)
    requires Good(lb) && IsDate(today) && 1000 <= today.year <= 9999
    requires Step(lb, 1) == Valid(d1) && Step(lb, 2) == Valid(d2)
    requires IsDate(d1) && IsDate(d2) && 1000 <= d1.year <= 9999 && 1000 <= d2.year <= 9999
    requires NotAfter(d1, today) && !NotAfter(d2, today)
    ensures MonthsToBill(lb, today) == 1
  {
    DueByChronological(d1, today);
    DueByChronological(d2, today);
    CountIs1(lb, today);
  }

  /** From 2023-03-31 the step 2023-05-01 is due on 2023-05-02 and 2023-06-01 is not. */
  lemma MonthEndRecount()
    ensures MonthsToBill(Valid(CalDate(2023, 3, 31)), CalDate(2023, 5, 2)) == 1
  {
    var again := Valid(CalDate(2023, 3, 31));
    MonthEndSteps();
    StepSucc(again, 1);
    CountIs1On(again, CalDate(2023, 5, 2), CalDate(2023, 5, 1), CalDate(2023, 6, 1));
  }

  /** The first pass: two months, checkpointed by one `setMonth` at 2023-03-31. */
  lemma MonthEndFirstPass(s: Student)
    requires s.lastBilledDate == Some(Format(Valid(CalDate(2023, 1, 31))))
    ensures MonthsDue(s, CalDate(2023, 5, 2)) == 2
    ensures BillStudent(s, CalDate(2023, 5, 2)).lastBilledDate == Some(Format(Valid(CalDate(2023, 3, 31))))
  {
    ReadsAs(s, CalDate(2023, 1, 31));
    MonthEndCount();
    MonthEndSteps();
  }

  /** The second pass: the stored 2023-03-31 steps to 2023-05-01, which is due again. */
  lemma MonthEndSecondPass(r: Student)
    requires r.lastBilledDate == Some(Format(Valid(CalDate(2023, 3, 31))))
    ensures MonthsDue(r, CalDate(2023, 5, 2)) == 1
  {
    ReadsAs(r, CalDate(2023, 3, 31));
    MonthEndRecount();
  }

  /**
   * The code as written re-bills a month-end checkpoint: on 2023-05-02 a
   * student last billed on 2023-01-31 is charged two months and checkpointed
   * at 2023-03-31, from which the re-fired pass charges one more month.
   */
  lemma MonthEndRebills(s: Student)
    requires s.lastBilledDate == Some(Format(Valid(CalDate(2023, 1, 31))))
    ensures MonthsDue(s, CalDate(2023, 5, 2)) == 2
    ensures MonthsDue(BillStudent(s, CalDate(2023, 5, 2)), CalDate(2023, 5, 2)) == 1
    ensures s.totalFees != 0 ==>
              BillStudent(BillStudent(s, CalDate(2023, 5, 2)), CalDate(2023, 5, 2)) != BillStudent(s, CalDate(2023, 5, 2))
  {
    MonthEndFirstPass(s);
    MonthEndSecondPass(BillStudent(s, CalDate(2023, 5, 2)));
  }

  /**
   * With the corrected checkpoint the same student is checkpointed at the
   * loop's last step, 2023-04-03, and the re-fired pass charges nothing.
   */
  lemma MonthEndStepwiseSettles(s: Student)
    requires s.lastBilledDate == Some(Format(Valid(CalDate(2023, 1, 31))))
    ensures BillStudentStepwise(s, CalDate(2023, 5, 2)).lastBilledDate == Some(Format(Valid(CalDate(2023, 4, 3))))
    ensures MonthsDue(BillStudentStepwise(s, CalDate(2023, 5, 2)), CalDate(2023, 5, 2)) == 0
  {
    ReadsAs(s, CalDate(2023, 1, 31));
    MonthEndCount();
    MonthEndStepDates();
    StepwiseIdempotent(s, CalDate(2023, 5, 2));
  }
}
