/**
 * Receiving a payment: `updateFees` (useStorage.js) and the two places the
 * dashboard shows its effect before the store answers, the preview in the
 * payment form and the refresh of the open student card (App.jsx).
 */
module Payments {
  import opened Wrappers
  import opened Ledger
  import opened JsDates
  import opened Billing

  /** `Math.max(0, x)`. */
  function Floor0(x: int): (r: int)
    ensures r >= 0 && r >= x
    ensures r == 0 || r == x
  {
    if x < 0 then 0 else x
  }

  /** The fields `updateFees` writes, computed from the student it found. */
  datatype PaymentWrite = PaymentWrite(paidFees: int, pendingFees: int, paymentHistory: seq<Payment>, lastPaidDate: string)

  /**
   * The write for a payment of `amount` on `date`: the paid total grows by the
   * amount, the balance drops by it but never below zero, and the payment goes
   * in front of the history.
   */
  function PaymentFor(s: Student, amount: int, date: string): (w: PaymentWrite)
    ensures w.paidFees == s.paidFees + amount
    ensures w.pendingFees >= 0 && w.pendingFees >= s.pendingFees - amount
    ensures w.pendingFees == 0 || w.pendingFees == s.pendingFees - amount
    ensures |w.paymentHistory| == |s.paymentHistory| + 1
    ensures w.paymentHistory[0] == Payment(amount, date) && w.paymentHistory[1..] == s.paymentHistory
    ensures w.lastPaidDate == date
  {
    PaymentWrite(s.paidFees + amount, Floor0(s.pendingFees - amount), [Payment(amount, date)] + s.paymentHistory, date)
  }

  /** `{ ...s, paidFees, pendingFees, paymentHistory, lastPaidDate }`. */
  function Apply(s: Student, w: PaymentWrite): (r: Student)
    ensures r.paidFees == w.paidFees && r.pendingFees == w.pendingFees
    ensures r.paymentHistory == w.paymentHistory && r.lastPaidDate == Some(w.lastPaidDate)
    ensures r.(paidFees := s.paidFees, pendingFees := s.pendingFees, paymentHistory := s.paymentHistory,
               lastPaidDate := s.lastPaidDate) == s
  {
    s.(paidFees := w.paidFees, pendingFees := w.pendingFees, paymentHistory := w.paymentHistory,
       lastPaidDate := Some(w.lastPaidDate))
  }

  /** One student after a payment; every field other than the four payment fields is kept. */
  function RecordPayment(s: Student, amount: int, date: string): (r: Student)
    ensures r.paidFees == s.paidFees + amount
    ensures r.pendingFees >= 0 && r.pendingFees >= s.pendingFees - amount
    ensures r.pendingFees == 0 || r.pendingFees == s.pendingFees - amount
    ensures |r.paymentHistory| == |s.paymentHistory| + 1
    ensures r.paymentHistory[0] == Payment(amount, date) && r.paymentHistory[1..] == s.paymentHistory
    ensures r.lastPaidDate == Some(date)
    ensures r.(paidFees := s.paidFees, pendingFees := s.pendingFees, paymentHistory := s.paymentHistory,
               lastPaidDate := s.lastPaidDate) == s
  {
    Apply(s, PaymentFor(s, amount, date))
  }

  /** A payment keeps the ledger consistent: the paid total still sums the history. */
  lemma PaymentKeepsLedger(s: Student, amount: int, date: string)
    requires LedgerConsistent(s)
    ensures LedgerConsistent(RecordPayment(s, amount, date))
  {
    var r := RecordPayment(s, amount, date);
    assert r.paymentHistory == [Payment(amount, date)] + s.paymentHistory;
    assert ([Payment(amount, date)] + s.paymentHistory)[1..] == s.paymentHistory;
  }

  /** Payments of 100, 200 and 300 leave the history newest first and 600 paid. */
  lemma ThreePayments(s: Student, d1: string, d2: string, d3: string)
    requires s.paymentHistory == [] && s.paidFees == 0
    ensures RecordPayment(RecordPayment(RecordPayment(s, 100, d1), 200, d2), 300, d3).paymentHistory ==
              [Payment(300, d3), Payment(200, d2), Payment(100, d1)]
    ensures RecordPayment(RecordPayment(RecordPayment(s, 100, d1), 200, d2), 300, d3).paidFees == 600
  {
  }

  // ---------------------------------------------------------------------------
  // The store operation

  /** What the cloud store says to the write: no session, or a session whose write succeeds or fails. */
  datatype Session = SignedOut | SignedIn(writeSucceeds: bool)

  /** The outcome of `updateFees`: the new student list and the write sent to the cloud, if any. */
  datatype PaymentOutcome = PaymentOutcome(students: seq<Student>, write: Option<(Id, PaymentWrite)>)

  /** `students.find(s => s.id === id)`, as the position of the first match. */
  function FindById(students: seq<Student>, id: Id): (r: Option<nat>)
    ensures r.None? <==> forall k :: 0 <= k < |students| ==> students[k].id != id
    ensures r.Some? ==> r.value < |students| && students[r.value].id == id
    ensures r.Some? ==> forall k :: 0 <= k < r.value ==> students[k].id != id
  {
    if |students| == 0 then None
    else if students[0].id == id then Some(0)
    else
      match FindById(students[1..], id)
      case None => None
      case Some(k) => Some(k + 1)
  }

  /** `prev.students.map(s => s.id === id ? { ...s, ...w } : s)`. */
  function ApplyWhere(students: seq<Student>, id: Id, w: PaymentWrite): (r: seq<Student>)
    ensures |r| == |students|
    ensures forall k :: 0 <= k < |students| ==> r[k] == if students[k].id == id then Apply(students[k], w) else students[k]
  {
    if |students| == 0 then []
    else [if students[0].id == id then Apply(students[0], w) else students[0]] + ApplyWhere(students[1..], id, w)
  }

  /**
   * `updateFees(id, amount)`: an unknown id changes nothing; otherwise the
   * write is computed from the first student with that id, sent when signed in,
   * and applied locally unless the cloud rejected it.
   */
  function UpdateFees(students: seq<Student>, id: Id, amount: int, date: string, session: Session): (o: PaymentOutcome)
    ensures |o.students| == |students|
    ensures forall k :: 0 <= k < |students| && students[k].id != id ==> o.students[k] == students[k]
    ensures FindById(students, id).None? ==> o == PaymentOutcome(students, None)
    ensures session == SignedIn(false) ==> o.students == students
    ensures o.write.Some? <==> session.SignedIn? && FindById(students, id).Some?
    ensures o.write.Some? ==> o.write.value == (id, PaymentFor(students[FindById(students, id).value], amount, date))
    ensures FindById(students, id).Some? && session != SignedIn(false) ==>
              forall k :: 0 <= k < |students| && students[k].id == id ==>
                o.students[k] == Apply(students[k], PaymentFor(students[FindById(students, id).value], amount, date))
  {
    match FindById(students, id)
    case None => PaymentOutcome(students, None)
    case Some(i) =>
      var w := PaymentFor(students[i], amount, date);
      var write := if session.SignedIn? then Some((id, w)) else None;
      if session == SignedIn(false) then PaymentOutcome(students, write)
      else PaymentOutcome(ApplyWhere(students, id, w), write)
  }

  /** With unique ids, a recorded payment changes exactly the one student it names, as RecordPayment does. */
  lemma UpdateFeesTouchesOne(students: seq<Student>, id: Id, amount: int, date: string, session: Session, i: nat)
    requires UniqueIds(students) && i < |students| && students[i].id == id && session != SignedIn(false)
    ensures UpdateFees(students, id, amount, date, session).students ==
              students[i := RecordPayment(students[i], amount, date)]
  {
    assert FindById(students, id) == Some(i);
  }

  /** Recording a payment keeps every student's ledger consistent and the ids unique. */
  lemma UpdateFeesKeepsLedger(students: seq<Student>, id: Id, amount: int, date: string, session: Session)
    requires UniqueIds(students)
    requires forall k :: 0 <= k < |students| ==> LedgerConsistent(students[k])
    ensures UniqueIds(UpdateFees(students, id, amount, date, session).students)
    ensures forall k :: 0 <= k < |students| ==> LedgerConsistent(UpdateFees(students, id, amount, date, session).students[k])
  {
    var o := UpdateFees(students, id, amount, date, session);
    match FindById(students, id)
    case None =>
    case Some(i) =>
      if session != SignedIn(false) {
        UpdateFeesTouchesOne(students, id, amount, date, session, i);
        PaymentKeepsLedger(students[i], amount, date);
      }
  }

  // ---------------------------------------------------------------------------
  // Billing and payments together

  /** A payment leaves the billing checkpoint alone, so it does not change how many months are due. */
  lemma PaymentKeepsMonthsDue(s: Student, amount: int, date: string, today: CalDate)
    ensures MonthsDue(RecordPayment(s, amount, date), today) == MonthsDue(s, today)
  {
    assert CheckpointText(RecordPayment(s, amount, date)) == CheckpointText(s);
  }

  lemma MulNonNeg(a: nat, b: int)
    requires b >= 0
    ensures a * b >= 0
  {
  }

  /**
   * Billing and a payment that does not exceed the balance commute: either
   * order leaves the same student, provided the monthly fee is not negative.
   */
  lemma PaymentCommutesWithBilling(s: Student, amount: int, date: string, today: CalDate)
    requires 0 <= amount <= s.pendingFees && s.totalFees >= 0
    ensures RecordPayment(BillStudent(s, today), amount, date) == BillStudent(RecordPayment(s, amount, date), today)
  {
    var paid := RecordPayment(s, amount, date);
    PaymentKeepsMonthsDue(s, amount, date, today);
    assert LastBill(paid) == LastBill(s);
    var m := MonthsDue(s, today);
    if m > 0 {
      var checkpoint := AddMonths(LastBill(s), m);
      assert BillStudent(s, today) == Accrue(s, m, checkpoint);
      assert BillStudent(paid, today) == Accrue(paid, m, checkpoint);
      AccrueCommutesWithPayment(s, m, checkpoint, amount, date);
    }
  }

  /** Adding months of fees and a payment not exceeding the balance commute, for a non-negative fee. */
  lemma AccrueCommutesWithPayment(s: Student, months: nat, checkpoint: JsDate, amount: int, date: string)
    requires 0 <= amount <= s.pendingFees && s.totalFees >= 0
    ensures RecordPayment(Accrue(s, months, checkpoint), amount, date) == Accrue(RecordPayment(s, amount, date), months, checkpoint)
  {
    var a, b := RecordPayment(Accrue(s, months, checkpoint), amount, date), Accrue(RecordPayment(s, amount, date), months, checkpoint);
    MulNonNeg(months, s.totalFees);
    assert a.pendingFees == b.pendingFees;
    assert a.paymentHistory == b.paymentHistory;
  }

  lemma MulPos(a: nat, b: int)
    requires a > 0 && b > 0
    ensures a * b > 0
  {
  }

  /**
   * Overpaying does not commute with billing: the floor at zero swallows the
   * excess when the payment comes first, and billing first lets it offset the new months.
   */
  lemma OverpaymentOrderMatters(s: Student, amount: int, date: string, today: CalDate)
    requires MonthsDue(s, today) > 0 && s.totalFees > 0 && amount > s.pendingFees
    ensures RecordPayment(BillStudent(s, today), amount, date).pendingFees <
              BillStudent(RecordPayment(s, amount, date), today).pendingFees
  {
    PaymentKeepsMonthsDue(s, amount, date, today);
    MulPos(MonthsDue(s, today), s.totalFees);
  }

  /** With no month due, billing leaves the student as it is, so any payment, overpayment included, commutes with it. */
  lemma OverpaymentCommutesWhenNothingDue(s: Student, amount: int, date: string, today: CalDate)
    requires MonthsDue(s, today) == 0
    ensures RecordPayment(BillStudent(s, today), amount, date) == BillStudent(RecordPayment(s, amount, date), today)
  {
    PaymentKeepsMonthsDue(s, amount, date, today);
  }

  // ---------------------------------------------------------------------------
  // What the dashboard shows

  /**
   * The "After Payment" preview of the payment form: the balance less the
   * typed amount, floored at zero, where text that is no number counts as 0.
   */
  function PaymentPreview(pending: int, typed: Option<int>): (r: int)
    ensures r >= 0
    ensures typed.None? ==> r == Floor0(pending)
  {
    Floor0(pending - typed.GetOr(0))
  }

  /** The preview shows the balance the store will record. */
  lemma PreviewMatchesStore(s: Student, amount: int, date: string)
    ensures PaymentPreview(s.pendingFees, Some(amount)) == RecordPayment(s, amount, date).pendingFees
  {
  }

  /** The refresh of the open student card after a payment, as written: both totals moved by the amount. */
  function LocalRefresh(s: Student, amount: int): (r: Student)
    ensures r.paidFees == s.paidFees + amount
    ensures r.pendingFees + amount == s.pendingFees
    ensures r.(paidFees := s.paidFees, pendingFees := s.pendingFees) == s
  {
    s.(paidFees := s.paidFees + amount, pendingFees := s.pendingFees - amount)
  }

  /** The corrected refresh: the balance is floored at zero as the store floors it. */
  function LocalRefreshFloored(s: Student, amount: int): (r: Student)
    ensures r.paidFees == s.paidFees + amount
    ensures r.pendingFees >= 0
    ensures r.(paidFees := s.paidFees, pendingFees := s.pendingFees) == s
  {
    s.(paidFees := s.paidFees + amount, pendingFees := Floor0(s.pendingFees - amount))
  }

  /** As written, the card shows a negative balance whenever the payment exceeds it, unlike the store. */
  lemma LocalRefreshDisagrees(s: Student, amount: int, date: string)
    requires amount > s.pendingFees
    ensures LocalRefresh(s, amount).pendingFees < 0
    ensures LocalRefresh(s, amount).pendingFees != RecordPayment(s, amount, date).pendingFees
  {
  }

  /**
   * The whole payment handler of the open student card, as written. The card
   * holds the store's own entry `i` (the list is filtered, not copied), so
   * `updateFees` computes its write from the entry and the refresh then moves
   * both totals on that same object. A stored or local write replaces the four
   * payment fields and so hides the refresh; a write the cloud refuses, or one
   * that throws, leaves the refreshed entry in the store.
   */
  function CardPayment(students: seq<Student>, i: nat, amount: int, date: string, session: Session): (r: seq<Student>)
    requires i < |students|
    ensures |r| == |students|
    ensures session != SignedIn(false) ==> r == UpdateFees(students, students[i].id, amount, date, session).students
    ensures session == SignedIn(false) ==>
              r[i].paidFees == students[i].paidFees + amount && r[i].pendingFees == students[i].pendingFees - amount &&
              r[i].paymentHistory == students[i].paymentHistory &&
              forall k :: 0 <= k < |students| && k != i ==> r[k] == students[k]
  {
    var id := students[i].id;
    var w := PaymentFor(students[FindById(students, id).value], amount, date);
    var aliased := students[i := LocalRefresh(students[i], amount)];
    if session == SignedIn(false) then aliased
    else
      assert forall k :: 0 <= k < |students| ==>
        (if aliased[k].id == id then Apply(aliased[k], w) else aliased[k]) ==
        (if students[k].id == id then Apply(students[k], w) else students[k]);
      ApplyWhere(aliased, id, w)
  }

  /** A refused payment of a non-zero amount leaves the store's entry with a paid total its history does not sum to. */
  lemma CardRefusedBreaksLedger(students: seq<Student>, i: nat, amount: int, date: string)
    requires i < |students| && LedgerConsistent(students[i]) && amount != 0
    ensures !LedgerConsistent(CardPayment(students, i, amount, date, SignedIn(false))[i])
    ensures amount > students[i].pendingFees ==> CardPayment(students, i, amount, date, SignedIn(false))[i].pendingFees < 0
  {
  }

  /** The corrected handler: the card refreshes a copy of the student, so the store holds what `updateFees` left. */
  function CardPaymentCopied(students: seq<Student>, i: nat, amount: int, date: string, session: Session): (r: seq<Student>)
    requires i < |students|
    ensures |r| == |students|
    ensures session == SignedIn(false) ==> r == students
    ensures session != SignedIn(false) && UniqueIds(students) ==> r == students[i := RecordPayment(students[i], amount, date)]
  {
    var o := UpdateFees(students, students[i].id, amount, date, session);
    assert session != SignedIn(false) && UniqueIds(students) ==> o.students == students[i := RecordPayment(students[i], amount, date)] by {
      if session != SignedIn(false) && UniqueIds(students) {
        UpdateFeesTouchesOne(students, students[i].id, amount, date, session, i);
      }
    }
    o.students
  }

  /** With the copy, every outcome of the card's payment keeps every ledger consistent. */
  lemma CardPaymentCopiedKeepsLedger(students: seq<Student>, i: nat, amount: int, date: string, session: Session)
    requires i < |students| && UniqueIds(students)
    requires forall k :: 0 <= k < |students| ==> LedgerConsistent(students[k])
    ensures forall k :: 0 <= k < |students| ==> LedgerConsistent(CardPaymentCopied(students, i, amount, date, session)[k])
  {
    UpdateFeesKeepsLedger(students, students[i].id, amount, date, session);
  }

  /** The corrected card always shows the totals the store records. */
  lemma LocalRefreshFlooredAgrees(s: Student, amount: int, date: string)
    ensures LocalRefreshFloored(s, amount).paidFees == RecordPayment(s, amount, date).paidFees
    ensures LocalRefreshFloored(s, amount).pendingFees == RecordPayment(s, amount, date).pendingFees
  {
  }
}
