/**
 * The monthly billing clock of `performBilling` (useStorage.js): for each
 * student, count the one-month `setMonth` steps from the checkpoint whose
 * printed date is not after today's, add that many monthly fees to the
 * pending balance, and move the checkpoint forward by that many months.
 */
module Billing {
  import opened Wrappers
  import opened Text
  import opened JsDates
  import opened Ledger
  import opened Seqs

  /** The loop guard `getLocalDateString(d) <= todayStr`: a comparison of texts, not of dates. */
  predicate DueBy(jd: JsDate, today: CalDate) {
    StrLeq(Format(jd), Format(Valid(today)))
  }

  /** For four-digit years the text comparison is the calendar order. */
  lemma DueByChronological(c: CalDate, today: CalDate)
    requires IsDate(c) && IsDate(today)
    requires 1000 <= c.year <= 9999 && 1000 <= today.year <= 9999
    ensures DueBy(Valid(c), today) <==> NotAfter(c, today)
  {
    FormatOrder(today, c);
  }

  /** How many months of representable dates remain from `jd`: the loop's termination measure. */
  function MonthsLeft(jd: JsDate): nat {
    if jd.Valid? && IsDate(jd.date) then MonthIndex(MaxDate) - MonthIndex(jd.date) + 1 else 0
  }

  /** How many one-month steps from `temp` on pass the guard `p` before the first that fails. */
  function CountRun(temp: JsDate, p: JsDate -> bool): nat
    requires Good(temp) && !p(Invalid)
    decreases MonthsLeft(temp)
  {
    if p(temp) then
      AddMonthAdvances(temp.date);
      1 + CountRun(AddMonths(temp, 1), p)
    else
      0
  }

  /** The counted steps all pass the guard and the step after them fails. */
  lemma {:induction false} CountRunSpec(temp: JsDate, p: JsDate -> bool)
    requires Good(temp) && !p(Invalid)
    ensures forall j :: 0 <= j < CountRun(temp, p) ==> p(Step(temp, j))
    ensures !p(Step(temp, CountRun(temp, p)))
    decreases MonthsLeft(temp)
  {
    if p(temp) {
      AddMonthAdvances(temp.date);
      var next := AddMonths(temp, 1);
      CountRunSpec(next, p);
      StepsAfter(temp, CountRun(next, p), p);
    }
  }

  /** The run counted from the step after `lastBill`: steps 1..count pass the guard and the next one fails. */
  function CountAfter(lastBill: JsDate, p: JsDate -> bool): (n: nat)
    requires Good(lastBill) && !p(Invalid)
    ensures forall j :: 1 <= j <= n ==> p(Step(lastBill, j))
    ensures !p(Step(lastBill, n + 1))
  {
    var next := AddMonths(lastBill, 1);
    CountRunSpec(next, p);
    var n := CountRun(next, p);
    StepsAfter(lastBill, n, p);
    n
  }

  /** Moves the guard's run from the step after `lastBill` back onto `lastBill`'s own steps. */
  lemma StepsAfter(lastBill: JsDate, n: nat, p: JsDate -> bool)
    requires forall j :: 0 <= j < n ==> p(Step(AddMonths(lastBill, 1), j))
    requires !p(Step(AddMonths(lastBill, 1), n))
    ensures forall j :: 1 <= j <= n ==> p(Step(lastBill, j))
    ensures !p(Step(lastBill, n + 1))
  {
    forall j | 1 <= j <= n
      ensures p(Step(lastBill, j))
    {
      StepShift(lastBill, j);
    }
    StepShift(lastBill, n + 1);
  }

  /** Counting again from the last counted step finds nothing. */
  lemma CountAfterComplete(lastBill: JsDate, p: JsDate -> bool)
    requires Good(lastBill) && !p(Invalid)
    ensures Good(Step(lastBill, CountAfter(lastBill, p)))
    ensures CountAfter(Step(lastBill, CountAfter(lastBill, p)), p) == 0
  {
    var n := CountAfter(lastBill, p);
    StepForward(lastBill, n);
    StepSucc(lastBill, n);
    var last := Step(lastBill, n);
    assert !p(Step(last, 1));
  }

  /** The loop guard for today's text, as a predicate on dates. */
  function DueByToday(today: CalDate): JsDate -> bool {
    (d: JsDate) => DueBy(d, today)
  }

  /** The invalid date never passes the guard. */
  lemma InvalidNeverDue(today: CalDate)
    ensures !DueByToday(today)(Invalid)
  {
    InvalidPrintsLast(today);
  }

  /** The `j`-th one-month step from the checkpoint is due by today. */
  predicate DueAfter(lastBill: JsDate, j: nat, today: CalDate) {
    DueByToday(today)(Step(lastBill, j))
  }

  /** `monthsToBill`: the one-month steps from the checkpoint that are due by today, counted until one is not. */
  function MonthsToBill(lastBill: JsDate, today: CalDate): (n: nat)
    requires Good(lastBill)
    ensures forall j :: 1 <= j <= n ==> DueAfter(lastBill, j, today)
    ensures !DueAfter(lastBill, n + 1, today)
  {
    InvalidNeverDue(today);
    CountAfter(lastBill, DueByToday(today))
  }

  /** The two properties of MonthsToBill pin its value down. */
  lemma MonthsToBillUnique(lastBill: JsDate, today: CalDate, n: nat)
    requires Good(lastBill)
    requires forall j :: 1 <= j <= n ==> DueAfter(lastBill, j, today)
    requires !DueAfter(lastBill, n + 1, today)
    ensures n == MonthsToBill(lastBill, today)
  {
  }

  /**
   * The counting loop of `performBilling` for any guard the invalid date
   * fails: count and step one month while the guard holds.
   */
  method CountSteps(start: JsDate, due: JsDate -> bool) returns (n: nat)
    requires Good(start) && !due(Invalid)
    ensures n == CountRun(start, due)
  {
    n := 0;
    var temp := start;
    while due(temp)
      invariant Good(temp)
      invariant n + CountRun(temp, due) == CountRun(start, due)
      decreases MonthsLeft(temp)
    {
      AddMonthAdvances(temp.date);
      n := n + 1;
      temp := AddMonths(temp, 1);
    }
  }

  /** The loop as `performBilling` runs it: from one month after the checkpoint, guarded by today's text. */
  method CountMonthsToBill(lastBill: JsDate, today: CalDate) returns (monthsToBill: nat)
    requires Good(lastBill)
    ensures monthsToBill == MonthsToBill(lastBill, today)
    ensures forall j :: 1 <= j <= monthsToBill ==> DueAfter(lastBill, j, today)
    ensures !DueAfter(lastBill, monthsToBill + 1, today)
  {
    var nextBill := AddMonths(lastBill, 1);
    InvalidNeverDue(today);
    monthsToBill := CountSteps(nextBill, DueByToday(today));
  }

  // ---------------------------------------------------------------------------
  // One student

  /** The checkpoint a student is billed from: `lastBilledDate`, else `admissionDate`, parsed. */
  function LastBill(s: Student): (d: JsDate)
    ensures Good(d)
  {
    ParseDate(CheckpointText(s))
  }

  /** Months a student is billed for today. */
  function MonthsDue(s: Student, today: CalDate): nat {
    MonthsToBill(LastBill(s), today)
  }

  /** Adds `months` monthly fees to the balance and records `checkpoint` as the new billing date. */
  function Accrue(s: Student, months: nat, checkpoint: JsDate): (r: Student)
    ensures r.pendingFees - s.pendingFees == months * s.totalFees
    ensures r.(pendingFees := s.pendingFees, lastBilledDate := s.lastBilledDate) == s
    ensures r.lastBilledDate == Some(Format(checkpoint))
  {
    s.(pendingFees := s.pendingFees + months * s.totalFees, lastBilledDate := Some(Format(checkpoint)))
  }

  /**
   * A checkpoint text that does not read as a date (a non-numeric piece, too
   * few pieces, a year past the representable range) bills nothing: the invalid date prints as
   * "NaN-NaN-NaN", which is never `<=` today's text, so there is no error path.
   */
  lemma UnreadableCheckpointBillsNothing(s: Student, today: CalDate)
    requires LastBill(s).Invalid?
    ensures MonthsDue(s, today) == 0
    ensures BillStudent(s, today) == s && BillStudentStepwise(s, today) == s
  {
  }

  /**
   * One student's turn in `performBilling`, as written: the new checkpoint is
   * the old one moved by `monthsToBill` months in a single `setMonth` call.
   */
  function BillStudent(s: Student, today: CalDate): (r: Student)
    ensures MonthsDue(s, today) == 0 ==> r == s
    ensures r.pendingFees - s.pendingFees == MonthsDue(s, today) * s.totalFees
    ensures r.(pendingFees := s.pendingFees, lastBilledDate := s.lastBilledDate) == s
    ensures MonthsDue(s, today) > 0 ==>
              r.lastBilledDate == Some(Format(AddMonths(LastBill(s), MonthsDue(s, today))))
  {
    var months := MonthsDue(s, today);
    if months > 0 then Accrue(s, months, AddMonths(LastBill(s), months)) else s
  }

  /**
   * The corrected turn: the new checkpoint is the last date the loop stepped
   * to, so a second run on the same day finds nothing to bill.
   */
  function BillStudentStepwise(s: Student, today: CalDate): (r: Student)
    ensures MonthsDue(s, today) == 0 ==> r == s
    ensures r.pendingFees - s.pendingFees == MonthsDue(s, today) * s.totalFees
    ensures r.(pendingFees := s.pendingFees, lastBilledDate := s.lastBilledDate) == s
    ensures MonthsDue(s, today) > 0 ==>
              r.lastBilledDate == Some(Format(Step(LastBill(s), MonthsDue(s, today))))
  {
    var months := MonthsDue(s, today);
    if months > 0 then Accrue(s, months, Step(LastBill(s), months)) else s
  }

  /** A checkpoint the model can reread unchanged: invalid, or a year the constructor does not remap. */
  predicate RereadSafe(d: JsDate) {
    d.Valid? ==> d.date.year >= 100
  }

  /** Only a valid date can be due: the invalid date prints after every real one. */
  lemma DueIsValid(jd: JsDate, today: CalDate)
    requires DueBy(jd, today)
    ensures jd.Valid?
  {
    InvalidPrintsLast(today);
  }

  /** Counting again from the last date the loop stepped to finds nothing more due. */
  lemma CountIsComplete(lastBill: JsDate, today: CalDate)
    requires Good(lastBill)
    ensures Good(Step(lastBill, MonthsToBill(lastBill, today)))
    ensures MonthsToBill(Step(lastBill, MonthsToBill(lastBill, today)), today) == 0
  {
    InvalidNeverDue(today);
    CountAfterComplete(lastBill, DueByToday(today));
  }

  /** A checkpoint written as text reads back as the same date when its year is at least 100. */
  lemma CheckpointRereads(s: Student, months: nat, checkpoint: JsDate)
    requires checkpoint.Valid? && IsDate(checkpoint.date) && checkpoint.date.year >= 100
    ensures LastBill(Accrue(s, months, checkpoint)) == checkpoint
  {
    FormatParseRoundTrip(checkpoint.date);
    assert CheckpointText(Accrue(s, months, checkpoint)) == Format(checkpoint);
  }

  /**
   * After billing a student whose checkpoint is rereadable, the stored
   * checkpoint reads back as the last stepped date and nothing more is due today.
   */
  lemma StepwiseSettles(s: Student, today: CalDate, checkpoint: JsDate)
    requires RereadSafe(LastBill(s)) && MonthsDue(s, today) > 0
    requires checkpoint == Step(LastBill(s), MonthsDue(s, today))
    ensures LastBill(Accrue(s, MonthsDue(s, today), checkpoint)) == checkpoint
    ensures MonthsDue(Accrue(s, MonthsDue(s, today), checkpoint), today) == 0
  {
    var lb, months := LastBill(s), MonthsDue(s, today);
    assert DueAfter(lb, months, today);
    DueIsValid(checkpoint, today);
    StepForward(lb, months);
    CheckpointRereads(s, months, checkpoint);
    CountIsComplete(lb, today);
  }

  /**
   * The corrected turn is idempotent for every day of the month: billing twice
   * on the same day bills once.
   */
  lemma StepwiseIdempotent(s: Student, today: CalDate)
    requires RereadSafe(LastBill(s))
    ensures MonthsDue(BillStudentStepwise(s, today), today) == 0
    ensures BillStudentStepwise(BillStudentStepwise(s, today), today) == BillStudentStepwise(s, today)
  {
    if MonthsDue(s, today) > 0 {
      StepwiseSettles(s, today, Step(LastBill(s), MonthsDue(s, today)));
    }
  }

  /** For checkpoints on days 1..28 the code as written and the corrected turn agree. */
  lemma ShortDayBillingAgrees(s: Student, today: CalDate)
    requires LastBill(s).Valid? ==> LastBill(s).date.day <= 28
    ensures BillStudent(s, today) == BillStudentStepwise(s, today)
  {
    var lb := LastBill(s);
    if lb.Valid? {
      ShortDayStepsAgree(lb.date, MonthsDue(s, today));
    }
  }

  /**
   * The code as written is idempotent when the checkpoint falls on days 1..28:
   * the effect that re-runs billing after its own state update finds nothing due.
   */
  lemma BillStudentIdempotent(s: Student, today: CalDate)
    requires RereadSafe(LastBill(s))
    requires LastBill(s).Valid? ==> LastBill(s).date.day <= 28
    ensures MonthsDue(BillStudent(s, today), today) == 0
    ensures BillStudent(BillStudent(s, today), today) == BillStudent(s, today)
  {
    ShortDayBillingAgrees(s, today);
    StepwiseIdempotent(s, today);
  }

  // ---------------------------------------------------------------------------
  // All students

  /** The store write issued for a billed student: `{ pendingFees, lastBilledDate }` by id. */
  datatype BillingUpdate = BillingUpdate(id: Id, pendingFees: int, lastBilledDate: string)

  /** The outcome of one `performBilling` pass: the mapped students, the writes, and whether state is replaced. */
  datatype BillingPass = BillingPass(students: seq<Student>, updates: seq<BillingUpdate>, changed: bool)

  function UpdateFor(r: Student): BillingUpdate {
    BillingUpdate(r.id, r.pendingFees, r.lastBilledDate.GetOr(""))
  }

  /** The write for a student after a turn `bill`. */
  function WriteVia(bill: Student -> Student): Student -> BillingUpdate {
    s => UpdateFor(bill(s))
  }

  /**
   * The shape of `performBilling` for any per-student turn `bill`, where
   * `billed` tells which students the turn charges: every student goes through
   * `bill`, a write goes out for each charged student (only with a signed-in
   * session), and `changed` is raised by the first charged student.
   */
  function Pass(students: seq<Student>, bill: Student -> Student, billed: Student -> bool, signedIn: bool): (p: BillingPass)
    ensures |p.students| == |students|
    ensures forall i :: 0 <= i < |students| ==> p.students[i] == bill(students[i])
    ensures !signedIn ==> p.updates == []
  {
    if |students| == 0 then BillingPass([], [], false)
    else
      var rest := Pass(students[1..], bill, billed, signedIn);
      var r := bill(students[0]);
      MapPrepend(students, rest.students, bill);
      BillingPass([r] + rest.students, (if billed(students[0]) && signedIn then [UpdateFor(r)] else []) + rest.updates,
                  billed(students[0]) || rest.changed)
  }

  /** The pass replaces state exactly when it charges some student. */
  lemma {:induction false} PassChanged(students: seq<Student>, bill: Student -> Student, billed: Student -> bool, signedIn: bool)
    ensures Pass(students, bill, billed, signedIn).changed <==> exists i :: 0 <= i < |students| && billed(students[i])
  {
    if |students| > 0 {
      PassChanged(students[1..], bill, billed, signedIn);
      assert forall i :: 1 <= i < |students| ==> students[i] == students[1..][i - 1];
      assert forall i :: 0 <= i < |students| - 1 ==> students[1..][i] == students[i + 1];
    }
  }

  /** With a session, the writes are those of the charged students, one each, in list order. */
  lemma {:induction false} PassUpdates(students: seq<Student>, bill: Student -> Student, billed: Student -> bool)
    ensures Pass(students, bill, billed, true).updates == Map(Filter(students, billed), WriteVia(bill))
  {
    if |students| > 0 {
      var x, rest := students[0], students[1..];
      PassUpdates(rest, bill, billed);
      assert students == [x] + rest;
      if billed(x) {
        var f := Filter(rest, billed);
        assert Filter(students, billed) == [x] + f;
        assert ([x] + f)[1..] == f;
        assert Map([x] + f, WriteVia(bill)) == [UpdateFor(bill(x))] + Map(f, WriteVia(bill));
      } else {
        assert Filter(students, billed) == Filter(rest, billed);
      }
    }
  }

  /** A pass that charges nobody returns every student unchanged, so skipping `setData` loses nothing. */
  lemma UnchangedPassIsIdentity(students: seq<Student>, bill: Student -> Student, billed: Student -> bool, signedIn: bool)
    requires forall s :: !billed(s) ==> bill(s) == s
    requires !Pass(students, bill, billed, signedIn).changed
    ensures Pass(students, bill, billed, signedIn).students == students
    ensures Pass(students, bill, billed, signedIn).updates == []
  {
    PassChanged(students, bill, billed, signedIn);
    if signedIn {
      FilterNone(students, billed);
      PassUpdates(students, bill, billed);
    }
  }

  /** A student the as-written pass bills: at least one month is due. */
  predicate Billed(s: Student, today: CalDate) {
    MonthsDue(s, today) > 0
  }

  function BilledOn(today: CalDate): Student -> bool {
    s => Billed(s, today)
  }

  function BillOn(today: CalDate): Student -> Student {
    s => BillStudent(s, today)
  }

  function BillStepwiseOn(today: CalDate): Student -> Student {
    s => BillStudentStepwise(s, today)
  }

  /** `performBilling` as written. */
  function PerformBilling(students: seq<Student>, today: CalDate, signedIn: bool): BillingPass {
    Pass(students, BillOn(today), BilledOn(today), signedIn)
  }

  /** `performBilling` with the corrected checkpoint. */
  function PerformBillingStepwise(students: seq<Student>, today: CalDate, signedIn: bool): BillingPass {
    Pass(students, BillStepwiseOn(today), BilledOn(today), signedIn)
  }

  /**
   * The billing effect re-fires after its own state update. With the corrected
   * checkpoint that second pass changes nothing, whatever days the checkpoints fall on.
   */
  lemma StepwiseReconcileSettles(students: seq<Student>, today: CalDate, signedIn: bool)
    requires forall i :: 0 <= i < |students| ==> RereadSafe(LastBill(students[i]))
    ensures !PerformBillingStepwise(PerformBillingStepwise(students, today, signedIn).students, today, signedIn).changed
  {
    var p := PerformBillingStepwise(students, today, signedIn);
    forall i | 0 <= i < |students|
      ensures !Billed(p.students[i], today)
    {
      StepwiseIdempotent(students[i], today);
    }
    PassChanged(p.students, BillStepwiseOn(today), BilledOn(today), signedIn);
  }

  /**
   * With the code as written the second pass changes nothing as long as every
   * checkpoint falls on days 1..28.
   */
  lemma ReconcileSettles(students: seq<Student>, today: CalDate, signedIn: bool)
    requires forall i :: 0 <= i < |students| ==> RereadSafe(LastBill(students[i]))
    requires forall i :: 0 <= i < |students| ==>
               LastBill(students[i]).Valid? ==> LastBill(students[i]).date.day <= 28
    ensures !PerformBilling(PerformBilling(students, today, signedIn).students, today, signedIn).changed
  {
    var p := PerformBilling(students, today, signedIn);
    forall i | 0 <= i < |students|
      ensures !Billed(p.students[i], today)
    {
      BillStudentIdempotent(students[i], today);
    }
    PassChanged(p.students, BillOn(today), BilledOn(today), signedIn);
  }
}
