/**
 * The pure rules of the dashboard (App.jsx): the WhatsApp phone number, the
 * bulk-reminder queue, the student lists it filters, the PIN gate and the
 * guards of the add forms.
 */
module Dashboard {
  import opened Wrappers
  import opened Seqs
  import opened Text
  import opened Ledger
  import opened Collections

  // ---------------------------------------------------------------------------
  // WhatsApp number

  /** `phone.replace(/\D/g, '')`: the digits of the text, in order. */
  function Digits(p: string): (d: string)
    ensures AllDigits(d)
    ensures forall c :: c in d <==> c in p && IsDigit(c)
    ensures forall c :: multiset(d)[c] == if IsDigit(c) then multiset(p)[c] else 0
  {
    var d := Filter(p, (c: char) => IsDigit(c));
    assert forall i :: 0 <= i < |d| ==> d[i] in d;
    d
  }

  /** The number `sendWhatsApp` dials: the digits, with the country code 91 put in front of exactly ten digits. */
  function NormalizePhone(p: string): (r: string)
    ensures AllDigits(r)
    ensures |r| == |Digits(p)| || |r| == |Digits(p)| + 2
    ensures r[|r| - |Digits(p)|..] == Digits(p)
    ensures r != Digits(p) <==> |Digits(p)| == 10
    ensures |Digits(p)| == 10 ==> r[..2] == "91"
  {
    var d := Digits(p);
    if |d| == 10 then "91" + d else d
  }

  /** The digits of two pieces of text joined are the digits of each, in the same order. */
  lemma DigitsAppend(a: string, b: string)
    ensures Digits(a + b) == Digits(a) + Digits(b)
  {
    FilterAppend(a, b, (c: char) => IsDigit(c));
  }

  /** Digits only are left as they are. */
  lemma DigitsOfDigits(p: string)
    requires AllDigits(p)
    ensures Digits(p) == p
  {
    FilterAll(p, (c: char) => IsDigit(c));
  }

  /** Normalising a number that is already normalised changes nothing. */
  lemma NormalizeIdempotent(p: string)
    ensures NormalizePhone(NormalizePhone(p)) == NormalizePhone(p)
  {
    DigitsOfDigits(NormalizePhone(p));
  }

  // ---------------------------------------------------------------------------
  // Bulk reminders

  /** The reminder queue and whether its modal is open. */
  datatype Queue = Queue(items: seq<Student>, open: bool)

  /** What one "Open WhatsApp" tap does: the new queue and the student messaged, if any. */
  datatype Sent = Sent(queue: Queue, message: Option<Student>)

  /** The modal shows only while open with someone left to message. */
  predicate Showing(q: Queue) {
    q.open && |q.items| > 0
  }

  /** `startBulkWhatsApp`: an empty list is refused; otherwise the queue is the list and the modal opens. */
  function StartBulk(q: Queue, students: seq<Student>): (r: Queue)
    ensures |students| == 0 ==> r == q
    ensures |students| > 0 ==> r.items == students && Showing(r)
  {
    if |students| == 0 then q else Queue(students, true)
  }

  /**
   * `processNextInQueue`: message the head and drop it, closing the modal
   * exactly when nobody is left; an empty queue does nothing.
   */
  function ProcessNext(q: Queue): (r: Sent)
    ensures |q.items| == 0 ==> r == Sent(q, None)
    ensures |q.items| > 0 ==> r.message == Some(q.items[0]) && [q.items[0]] + r.queue.items == q.items
    ensures |q.items| > 0 ==> (r.queue.open <==> q.open && |q.items| > 1)
  {
    if |q.items| == 0 then Sent(q, None)
    else
      var remaining := q.items[1..];
      Sent(Queue(remaining, if |remaining| == 0 then false else q.open), Some(q.items[0]))
  }

  /** "Skip Student": drop the head without messaging; the modal's flag is left alone. */
  function Skip(q: Queue): (r: Queue)
    ensures r.open == q.open
    ensures |q.items| > 0 ==> [q.items[0]] + r.items == q.items
    ensures |q.items| == 0 ==> r.items == []
  {
    q.(items := if |q.items| == 0 then [] else q.items[1..])
  }

  /**
   * Tapping "Open WhatsApp" while the modal shows: an open queue is messaged
   * in full, in order, and the modal closes; a closed one shows nothing to tap.
   */
  method SendAll(q: Queue) returns (sent: seq<Student>, last: Queue)
    ensures !Showing(last)
    ensures q.open ==> sent == q.items && last.items == []
    ensures !q.open ==> sent == [] && last == q
    ensures |q.items| > 0 ==> !last.open
    ensures |q.items| == 0 ==> sent == [] && last == q
  {
    sent := [];
    last := q;
    while Showing(last)
      invariant sent + last.items == q.items
      invariant |last.items| > 0 ==> last.open == q.open
      invariant |q.items| > 0 && |last.items| == 0 ==> !last.open
      invariant |q.items| == 0 ==> last == q
      invariant !q.open ==> sent == [] && last == q
      decreases |last.items|
    {
      var r := ProcessNext(last);
      var head := r.message.value;
      assert [head] + r.queue.items == last.items;
      assert (sent + [head]) + r.queue.items == sent + ([head] + r.queue.items);
      sent := sent + [head];
      last := r.queue;
    }
  }

  // ---------------------------------------------------------------------------
  // Lists

  /** "Month Ended!": billed today and still owing. */
  predicate DueToday(s: Student, todayStr: string) {
    s.lastBilledDate == Some(todayStr) && s.pendingFees > 0
  }

  predicate Unpaid(s: Student) {
    s.pendingFees > 0
  }

  /** The badge on a student card. */
  function Badge(s: Student): string {
    if s.pendingFees <= 0 then "Paid" else "Pending"
  }

  function DueOn(todayStr: string): Student -> bool {
    s => DueToday(s, todayStr)
  }

  function IsUnpaid(): Student -> bool {
    s => Unpaid(s)
  }

  function BilledToday(todayStr: string): Student -> bool {
    (s: Student) => s.lastBilledDate == Some(todayStr)
  }

  /** `dueStudents`: the students the dashboard asks to remind today. */
  function DueStudents(students: seq<Student>, todayStr: string): (r: seq<Student>)
    ensures forall s :: s in r <==> s in students && DueToday(s, todayStr)
    ensures forall s :: multiset(r)[s] == if DueToday(s, todayStr) then multiset(students)[s] else 0
  {
    Filter(students, DueOn(todayStr))
  }

  /** The students the "remind unpaid" button queues. */
  function UnpaidStudents(students: seq<Student>): (r: seq<Student>)
    ensures forall s :: s in r <==> s in students && Unpaid(s)
    ensures forall s :: multiset(r)[s] == if Unpaid(s) then multiset(students)[s] else 0
  {
    Filter(students, IsUnpaid())
  }

  /** The unpaid list is exactly the students whose badge reads "Pending". */
  lemma UnpaidMeansPendingBadge(students: seq<Student>, s: Student)
    ensures s in UnpaidStudents(students) <==> s in students && Badge(s) == "Pending"
  {
    assert "Paid" != "Pending";
  }

  /** The due list is the unpaid list narrowed to students billed today, in the same order. */
  lemma {:induction false} DueIsUnpaidBilledToday(students: seq<Student>, todayStr: string)
    ensures DueStudents(students, todayStr) == Filter(UnpaidStudents(students), BilledToday(todayStr))
  {
    if |students| > 0 {
      var x, rest := students[0], students[1..];
      DueIsUnpaidBilledToday(rest, todayStr);
      assert students == [x] + rest;
      var u := Filter(rest, IsUnpaid());
      if Unpaid(x) {
        assert UnpaidStudents(students) == [x] + u;
        assert ([x] + u)[1..] == u;
        assert Filter([x] + u, BilledToday(todayStr)) ==
                 (if BilledToday(todayStr)(x) then [x] else []) + Filter(u, BilledToday(todayStr));
      } else {
        assert UnpaidStudents(students) == u;
        assert DueStudents(students, todayStr) == DueStudents(rest, todayStr);
      }
    }
  }

  /** `s.schoolId === activeSchool?.id`: with no school open nobody matches. */
  function InSchool(active: Option<School>): Student -> bool {
    (s: Student) => active.Some? && s.schoolId == active.value.id
  }

  /** The students of the open school; with no school open the list is empty. */
  function SchoolStudents(students: seq<Student>, active: Option<School>): (r: seq<Student>)
    ensures forall s :: s in r <==> s in students && active.Some? && s.schoolId == active.value.id
    ensures forall s :: multiset(r)[s] == if active.Some? && s.schoolId == active.value.id then multiset(students)[s] else 0
    ensures active.None? ==> r == []
  {
    if active.None? then
      FilterNone(students, InSchool(active));
      Filter(students, InSchool(active))
    else
      Filter(students, InSchool(active))
  }

  // ---------------------------------------------------------------------------
  // Search

  /** `toLowerCase` on the ASCII letters. */
  function Lower(c: char): (r: char)
    ensures 'A' <= c <= 'Z' ==> 'a' <= r <= 'z' && r as int == c as int + 32
    ensures !('A' <= c <= 'Z') ==> r == c
  {
    if 'A' <= c <= 'Z' then (c as int - 'A' as int + 'a' as int) as char else c
  }

  function LowerStr(s: string): (r: string)
    ensures |r| == |s|
    ensures forall i :: 0 <= i < |s| ==> r[i] == Lower(s[i])
  {
    if |s| == 0 then "" else [Lower(s[0])] + LowerStr(s[1..])
  }

  /** `q` occurs in `s` starting at position `i`. */
  predicate OccursAt(s: string, q: string, i: int) {
    0 <= i && i + |q| <= |s| && s[i..i + |q|] == q
  }

  /** `s.includes(q)`. */
  predicate Contains(s: string, q: string) {
    exists i :: 0 <= i <= |s| - |q| && OccursAt(s, q, i)
  }

  /** A student the search box keeps: the name contains the query ignoring case, or the phone contains it. */
  predicate MatchesQuery(s: Student, query: string) {
    Contains(LowerStr(s.name), LowerStr(query)) || Contains(s.parentPhone, query)
  }

  function Matching(query: string): Student -> bool {
    s => MatchesQuery(s, query)
  }

  function Search(students: seq<Student>, query: string): (r: seq<Student>)
    ensures forall s :: s in r <==> s in students && MatchesQuery(s, query)
    ensures forall s :: multiset(r)[s] == if MatchesQuery(s, query) then multiset(students)[s] else 0
  {
    Filter(students, Matching(query))
  }

  /** An empty search box hides nobody. */
  lemma EmptyQueryKeepsAll(students: seq<Student>)
    ensures Search(students, "") == students
  {
    forall k | 0 <= k < |students|
      ensures MatchesQuery(students[k], "")
    {
      assert OccursAt(students[k].parentPhone, "", 0);
    }
    FilterAll(students, Matching(""));
  }

  /** Lowercasing twice is lowercasing once, so the case of the query's letters does not matter. */
  lemma LowerIdempotent(s: string)
    ensures LowerStr(LowerStr(s)) == LowerStr(s)
  {
  }

  // ---------------------------------------------------------------------------
  // PIN gate

  /** The saved PIN (absent before one is set), the text in the PIN box, and whether the dashboard is locked. */
  datatype Gate = Gate(saved: Option<string>, entry: string, locked: bool)

  /** The lock screen shows when a non-empty PIN is saved and the dashboard is locked. */
  predicate LockShown(g: Gate) {
    g.saved.Some? && g.saved.value != "" && g.locked
  }

  /** `handleSetPin`: a four-character entry is saved and unlocks; anything else changes nothing. */
  function SetPin(g: Gate): (r: Gate)
    ensures |g.entry| == 4 ==> r.saved == Some(g.entry) && !r.locked && r.entry == g.entry
    ensures |g.entry| != 4 ==> r == g
  {
    if |g.entry| == 4 then g.(saved := Some(g.entry), locked := false) else g
  }

  /** `handlePinSubmit`: the saved PIN unlocks; a wrong one empties the box and changes nothing else. */
  function SubmitPin(g: Gate): (r: Gate)
    ensures g.saved == Some(g.entry) ==> r == g.(locked := false)
    ensures g.saved != Some(g.entry) ==> r == g.(entry := "")
  {
    if g.saved == Some(g.entry) then g.(locked := false) else g.(entry := "")
  }

  /** Past a lock screen only with the saved PIN: submitting unlocks exactly when the entry equals it. */
  lemma UnlockOnlyWithPin(g: Gate)
    requires LockShown(g)
    ensures !SubmitPin(g).locked <==> g.entry == g.saved.value
    ensures SubmitPin(g).saved == g.saved
  {
  }

  /** A PIN just set opens the lock with the same entry, and a saved PIN always has four characters. */
  lemma SetPinThenSubmit(g: Gate)
    requires |g.entry| == 4
    ensures !SubmitPin(SetPin(g).(locked := true)).locked
    ensures |SetPin(g).saved.value| == 4
  {
  }

  // ---------------------------------------------------------------------------
  // Add forms

  /** `handleAddSchool`: an empty name adds nothing. */
  function HandleAddSchool(st: Store, name: string, id: Id, accepted: bool): (r: Store)
    ensures r != st <==> name != "" && accepted
    ensures r != st ==> r.schools == st.schools + [School(id, name)] && r.students == st.students
  {
    if name == "" then st else AddSchool(st, name, id, accepted)
  }

  /** `handleAddStudent`: a name, a phone and an open school are all needed; the student joins the open school. */
  function HandleAddStudent(st: Store, name: string, phone: string, fees: int, admission: string,
                            active: Option<School>, id: Id, accepted: bool): (r: Store)
    ensures r != st <==> name != "" && phone != "" && active.Some? && accepted
    ensures r.schools == st.schools
    ensures r != st ==> r.students == st.students + [NewStudent(StudentForm(name, phone, fees, active.value.id, admission), id)]
  {
    if name == "" || phone == "" || active.None? then st
    else AddStudent(st, StudentForm(name, phone, fees, active.value.id, admission), id, accepted)
  }
}
