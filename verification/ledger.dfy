/** The records the van-fee app keeps for its owner: schools, students and their payments. */
module Ledger {
  import opened Wrappers

  /** Identifiers are opaque text handed out by the store. */
  type Id = string

  /** One entry of a payment history; `date` is the locale-formatted text shown to the user. */
  datatype Payment = Payment(amount: int, date: string)

  /**
   * A student row. Fees are whole rupees. `admissionDate` and `lastBilledDate`
   * are `YYYY-MM-DD` texts; `lastBilledDate` is the billing checkpoint and may be
   * absent on rows written by older versions. `paymentHistory` is newest first.
   */
  datatype Student = Student(
    id: Id,
    schoolId: Id,
    name: string,
    parentPhone: string,
    totalFees: int,
    admissionDate: string,
    lastBilledDate: Option<string>,
    paidFees: int,
    pendingFees: int,
    paymentHistory: seq<Payment>,
    lastPaidDate: Option<string>)

  datatype School = School(id: Id, name: string)

  /** The app's whole state: `{ schools, students }`. */
  datatype Store = Store(schools: seq<School>, students: seq<Student>)

  /** `s.lastBilledDate || s.admissionDate`: an absent or empty checkpoint falls back to the admission date. */
  function CheckpointText(s: Student): string {
    if s.lastBilledDate.Some? && s.lastBilledDate.value != "" then s.lastBilledDate.value else s.admissionDate
  }

  /** The sum of the amounts in a payment history. */
  function HistoryTotal(h: seq<Payment>): int {
    if |h| == 0 then 0 else h[0].amount + HistoryTotal(h[1..])
  }

  /** The ledger's bookkeeping invariant: nothing owed is negative and the paid total is the history's sum. */
  predicate LedgerConsistent(s: Student) {
    s.pendingFees >= 0 && s.paidFees == HistoryTotal(s.paymentHistory)
  }

  predicate UniqueIds(students: seq<Student>) {
    forall i, j :: 0 <= i < j < |students| ==> students[i].id != students[j].id
  }
}
