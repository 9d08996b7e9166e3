# Van-fee ledger: a Dafny model

The app keeps a school-van driver's fee records. For each student it stores:

- a monthly fee;
- a running pending balance;
- a paid total with a payment history;
- a billing checkpoint (`lastBilledDate`, a `YYYY-MM-DD` text).

This project models the ledger's logic and proves properties of it. It covers:

- **the monthly billing clock** (`performBilling` in `src/useStorage.js`):
  - it reads the checkpoint text back into a JavaScript `Date`;
  - it counts one-month `setMonth` steps whose printed date is not after today's;
  - it adds that many fees to the balance;
  - it moves the checkpoint forward and issues a store write for each student it changed;
- **the payment recorder** (`updateFees`);
- **the collection operations** (`addSchool`, `addStudent`, `deleteSchool`, `deleteStudent`, and the school-id remap in `migrateToCloud`);
- **the small rules of the dashboard** (`src/App.jsx`):
  - WhatsApp phone normalisation;
  - the bulk-reminder queue;
  - the "due" and "unpaid" lists;
  - the payment preview and the card refresh;
  - search;
  - the PIN gate;
  - the guards of the add forms.

Date arithmetic follows JavaScript's `Date`, not a calendar rule:

- Months carry into years.
- A day past the end of its month carries into the next month. 31 January plus one month is 3 March, or 2 March in a leap year.
- `new Date(y, m, d)` reads years 0..99 as 1900..1999.
- A date outside the representable range is the invalid date, which prints as `NaN-NaN-NaN`.

The billing loop compares printed texts, so the model compares texts too. It then proves that for four-digit years the text order is the calendar order.

Modules (one file each):

- `Wrappers` (Option).
- `Seqs` (filter and map).
- `Text`:
  - `String(n)`, `padStart`, `split`, `Number`;
  - string `<`.
- `JsDates` (the `Date` model, `getLocalDateString` and the split-parse).
- `Ledger` (records).
- `Billing`.
- `BillingExamples` (worked instances).
- `Payments`.
- `Collections`.
- `Dashboard`.

"Today" is a parameter. The cloud store's answer is a parameter: `accepted` for an insert, `Session` for a payment write. Fees are integers (whole rupees).

Three behaviours of the code shape the model:

- **Month arithmetic.** `setMonth` does not clamp to the month's last day; the surplus days overflow into the following month. 31 January plus one month is 3 March, or 2 March in a leap year (`JsDates.AddMonths`, `BillingExamples.SetMonthOverflows`).
- **Accrual and payment.** A payment floors the balance at zero, so billing and a payment commute whenever the payment does not exceed the balance and the monthly fee is not negative (`Payments.PaymentCommutesWithBilling`). When a month with a positive fee is due, an overpayment made before billing leaves a larger balance than the same payment made after (`Payments.OverpaymentOrderMatters`); with nothing due, billing changes nothing and the two orders agree (`Payments.OverpaymentCommutesWhenNothingDue`).
- **No error paths.** The code raises no error for a bad date or a bad amount:
  - An unreadable checkpoint becomes the invalid date and simply bills nothing (`Billing.UnreadableCheckpointBillsNothing`).
  - Any amount is accepted by `updateFees`.

## Model

| member | source | states |
|---|---|---|
| Text.NatStr | src/useStorage.js:89-91 | `String(n)` of a non-negative number is a non-empty run of digits, one character long exactly for n < 10 |
| Text.PadStart2 | src/useStorage.js:90-91 | `padStart(2, '0')` yields at least two characters, ends with the original text and has only zeros in front of it |
| Text.ToNumber | src/useStorage.js:105 | `Number` of a date piece is a number exactly when the piece is all digits, that number is the digits' decimal value, and the empty piece is 0 |
| Text.NatStrValue | src/useStorage.js:89-105 | reading back the digits `String(n)` printed gives n |
| Text.PadNatValue | src/useStorage.js:90-91 | zero padding keeps a digit string's value |
| Text.Split | src/useStorage.js:105 | `split('-')` gives at least one piece and no piece contains the separator |
| Text.SplitJoin | src/useStorage.js:105 | joining the pieces of a split with the separator rebuilds the text |
| Text.SplitThree | src/useStorage.js:92-105 | three dash-free pieces joined by dashes split into exactly those three pieces |
| Text.DigitsOrder | src/useStorage.js:116 | equal-width digit strings compare as text exactly as their values compare, both ways, and are equal exactly when their values are |
| Text.DashedLess | src/useStorage.js:116 | two `a-b-c` texts with equal-width heads compare piece by piece, lexicographically |
| JsDates.DaysInMonth | src/useStorage.js:110 | a month has 28..31 days, and 28 exactly for February of a common year |
| JsDates.CarryDays | src/useStorage.js:110 | day normalisation always lands on a real calendar day, leaves a day already inside its month alone, and runs up to 28 surplus days into the next month |
| JsDates.MakeDate | src/useStorage.js:106-110 | the normalised date is representable or invalid; in-range components are taken as given, and up to 28 surplus days run into the next month |
| JsDates.MakeDateCarries | src/useStorage.js:105-106 | for any month and day, `new Date(y, m0, d)` is the day d − 1 days after the first of the month m0 months after January of y, in either direction, or the invalid date outside the range |
| JsDates.MakeDateCarriesMonths | src/useStorage.js:105-106 | month −1 is December of the year before, month 12 is January of the next, and day 0 is the last day of the month before |
| JsDates.AddMonths | src/useStorage.js:110 | `setMonth(getMonth() + k)` keeps an invalid date invalid; on a real date it lands k months on, on the same day when the target month has it, otherwise on the surplus day of the month after (31 January + 1 is 2 or 3 March), or on the invalid date outside the range |
| JsDates.Landing | src/useStorage.js:110 | the day a k-month `setMonth` aims at is always a real calendar day |
| JsDates.CarryDaysDayNumber | src/useStorage.js:106-110 | for any day, however far outside its month, normalisation lands the given number of days after the first of the month, in either direction |
| JsDates.CarryDaysUnique | src/useStorage.js:106-110 | normalisation gives the only real calendar day with that day count |
| JsDates.DayNumberOrder | src/useStorage.js:106-110 | for real calendar days, the day count increases exactly along calendar order, so it names one day |
| JsDates.ParseDate | src/useStorage.js:105-106 | the split-parse yields a representable or invalid date, never anything else |
| JsDates.FormatPieces | src/useStorage.js:88-93 | the printed pieces of a date are its digits, month and day are two digits each, and each reads back as its component |
| JsDates.FormatParseRoundTrip | src/useStorage.js:88-106 | printing a representable date with year from 100 on and parsing the text back gives the same date |
| JsDates.InvalidPrintsLast | src/useStorage.js:116 | the invalid date's text is never `<=` a real date's text, so the loop stops on it |
| JsDates.FormatOrder | src/useStorage.js:116 | for four-digit years, text `<`, `==` and `<=` on printed dates coincide with calendar before, same day and not-after |
| JsDates.AddMonthAdvances | src/useStorage.js:118 | one month step moves a date one or two months later, and two exactly when the day does not exist in the next month |
| JsDates.StepForward | src/useStorage.js:116-118 | after j steps a valid date is at least j months after the start, and only a valid start leads to one |
| JsDates.StepSucc | src/useStorage.js:118 | j + 1 steps is j steps and one more |
| JsDates.StepAdd | src/useStorage.js:118 | a steps then b steps is a + b steps |
| JsDates.Shift | src/useStorage.js:124 | the same-day shift by k months moves the month index by exactly k |
| JsDates.AddMonthsShortDay | src/useStorage.js:124 | for days 1..28 a k-month `setMonth` keeps the day and moves exactly k months, or leaves the range |
| JsDates.ShiftZero | src/useStorage.js:124 | a zero-month `setMonth` leaves a date unchanged |
| JsDates.ShortDayStepsAgree | src/useStorage.js:118-124 | for days 1..28, k one-month steps and one k-month jump land on the same date |
| Billing.DueByChronological | src/useStorage.js:116 | for four-digit years the loop's text guard holds exactly when the stepped date is not after today |
| Billing.CountRunSpec | src/useStorage.js:116-119 | counting steps while a guard holds that the invalid date fails: every counted step passes and the next one fails |
| Billing.CountSteps | src/useStorage.js:112-119 | the `while` loop with its counter and stepped date, for any guard the invalid date fails, stops with exactly the guard's run as its count |
| Billing.CountAfter | src/useStorage.js:109-119 | counted from the date one month after the checkpoint, steps 1..n of the checkpoint pass the guard and step n + 1 fails |
| Billing.CountAfterComplete | src/useStorage.js:109-119 | counting again from the checkpoint's n-th step finds no step that passes |
| Billing.InvalidNeverDue | src/useStorage.js:116 | the invalid date's text "NaN-NaN-NaN" is never `<=` today's text, so the loop never counts it |
| Billing.MonthsToBill | src/useStorage.js:109-119 | `monthsToBill` is n with steps 1..n from the checkpoint all due by today and step n + 1 not due |
| Billing.MonthsToBillUnique | src/useStorage.js:109-119 | any n with steps 1..n due and step n + 1 not due is `monthsToBill` |
| Billing.CountMonthsToBill | src/useStorage.js:109-119 | the loop as written ends with a count whose steps 1..count are due and whose next step is not |
| Billing.LastBill | src/useStorage.js:104-106 | the checkpoint read from `lastBilledDate`, else `admissionDate`, is representable or invalid |
| Billing.UnreadableCheckpointBillsNothing | src/useStorage.js:105-121 | a checkpoint that does not parse bills no month and leaves the student as it was |
| Billing.Accrue | src/useStorage.js:127-141 | the balance grows by months × fee, the checkpoint is the new date's text, and every other field is copied |
| Billing.BillStudent | src/useStorage.js:121-143 | no month due returns the student as is; otherwise the balance grows by exactly months × fee, the checkpoint is the old one moved by all months in one `setMonth`, and nothing else changes |
| Billing.BillStudentStepwise | src/useStorage.js:118-141 | the corrected turn: the same charge, with the checkpoint set to the loop's last stepped date |
| Billing.DueIsValid | src/useStorage.js:116 | only a valid date passes the loop guard |
| Billing.CountIsComplete | src/useStorage.js:116-119 | counting again from the last stepped date finds nothing due |
| Billing.CheckpointRereads | src/useStorage.js:125-141 | a checkpoint written as text with year from 100 on reads back as the same date |
| Billing.StepwiseSettles | src/useStorage.js:118-141 | after the corrected turn the stored checkpoint is the last stepped date and no month is due |
| Billing.StepwiseIdempotent | src/useStorage.js:81-85 | the corrected turn applied twice on the same day is the turn applied once, for every day of the month |
| Billing.ShortDayBillingAgrees | src/useStorage.js:123-125 | for checkpoints on days 1..28 the code's single-jump checkpoint equals the loop's last stepped date, so both turns agree |
| Billing.BillStudentIdempotent | src/useStorage.js:81-85 | for checkpoints on days 1..28 the turn as written applied twice is the turn applied once |
| Billing.Pass | src/useStorage.js:99-144 | every student goes through the turn in order, the list keeps its length, and without a session no write goes out |
| Billing.PassChanged | src/useStorage.js:121-146 | state is replaced exactly when some student was charged |
| Billing.PassUpdates | src/useStorage.js:130-135 | with a session the writes are `{pendingFees, lastBilledDate}` of exactly the charged students, one each, in list order |
| Billing.UnchangedPassIsIdentity | src/useStorage.js:143-146 | a pass charging nobody returns every student unchanged and writes nothing, so skipping `setData` loses nothing |
| Billing.StepwiseReconcileSettles | src/useStorage.js:81-85 | with the corrected checkpoint, the pass the effect re-fires after its own update changes nothing |
| Billing.ReconcileSettles | src/useStorage.js:81-85 | with the code as written the re-fired pass changes nothing when every checkpoint falls on days 1..28 |
| BillingExamples.CountIs3 | src/useStorage.js:109-119 | three due steps followed by one that is not due make `monthsToBill` 3 |
| BillingExamples.CatchUpCount | src/useStorage.js:109-119 | checkpoint 2024-01-15, today 2024-04-20: three months |
| BillingExamples.NotYetDue | src/useStorage.js:109-119 | checkpoint 2024-01-15, today 2024-02-14: no month |
| BillingExamples.ReadsAs | src/useStorage.js:105-106 | a stored checkpoint that is the text of a date reads back as that date |
| BillingExamples.CatchUpStudent | src/useStorage.js:121-141 | the 2024-01-15 student is charged three fees on 2024-04-20 and checkpointed at 2024-04-15 |
| BillingExamples.SetMonthOverflows | src/useStorage.js:110 | 31 January plus one month is 2 March in 2024 and 3 March in 2023 |
| BillingExamples.MonthEndFirstPass | src/useStorage.js:109-125 | checkpoint 2023-01-31, today 2023-05-02: two months, new checkpoint 2023-03-31 |
| BillingExamples.MonthEndSecondPass | src/useStorage.js:109-119 | from checkpoint 2023-03-31 on 2023-05-02 one more month is due |
| BillingExamples.MonthEndRebills | src/useStorage.js:81-125 | as written, the re-fired pass bills the 2023-01-31 student a third month on the same day |
| BillingExamples.MonthEndStepwiseSettles | src/useStorage.js:118-125 | the corrected turn checkpoints that student at 2023-04-03 and leaves nothing due |
| Payments.Floor0 | src/useStorage.js:216 | `Math.max(0, x)` is at least 0 and at least x, and is one of them |
| Payments.PaymentFor | src/useStorage.js:215-218 | paid grows by the amount, pending is the old balance less the amount floored at zero, and the payment is prepended so history grows by one |
| Payments.Apply | src/useStorage.js:237-243 | the four payment fields are overwritten and every other field is copied |
| Payments.RecordPayment | src/useStorage.js:215-243 | one student after a payment: paid + amount, pending max(0, pending − amount), the new entry first, older history after it, and the other fields unchanged |
| Payments.PaymentKeepsLedger | src/useStorage.js:215-218 | a payment keeps the balance non-negative and the paid total equal to the history's sum |
| Payments.ThreePayments | src/useStorage.js:218 | payments of 100, 200, 300 leave the history [300, 200, 100] and 600 paid |
| Payments.FindById | src/useStorage.js:212-213 | the position of the first student with the id, or none exactly when no student has it |
| Payments.ApplyWhere | src/useStorage.js:237-243 | students with the id get the write and every other student is kept, in place |
| Payments.UpdateFees | src/useStorage.js:210-249 | an unknown id changes nothing and sends nothing; a write is sent exactly when signed in and the id is found, and it carries that id with the paid total, floored balance, extended history and date computed from the first student with the id; after a rejected write `updateFees` itself applies nothing locally (what the open card does to the store is `Payments.CardPayment`); otherwise only students with that id change |
| Payments.UpdateFeesTouchesOne | src/useStorage.js:235-244 | with unique ids, a recorded payment replaces exactly that student by its RecordPayment |
| Payments.UpdateFeesKeepsLedger | src/useStorage.js:210-249 | a payment keeps ids unique and every student's ledger consistent |
| Payments.PaymentKeepsMonthsDue | src/useStorage.js:237-243 | a payment leaves the checkpoint and so the months due unchanged |
| Payments.PaymentCommutesWithBilling | src/useStorage.js:216 | billing and a payment not exceeding the balance commute for a non-negative fee |
| Payments.AccrueCommutesWithPayment | src/useStorage.js:127-128 | adding months of fees and a payment not exceeding the balance give the same student in either order, for a non-negative fee |
| Payments.OverpaymentOrderMatters | src/useStorage.js:216 | when a month with a positive fee is due, an overpayment made before billing leaves a larger balance than the same payment after billing |
| Payments.OverpaymentCommutesWhenNothingDue | src/useStorage.js:121-143 | when no month is due, billing and any payment, an overpayment included, give the same student in either order |
| Payments.PaymentPreview | src/App.jsx:39 | the preview is never negative, and counts a non-number amount as 0 |
| Payments.PreviewMatchesStore | src/App.jsx:39 | the preview equals the balance the store records |
| Payments.LocalRefresh | src/App.jsx:529-530 | as written, the card's totals move by the amount with no floor, and the history and all other fields stay as they were |
| Payments.CardPayment | src/App.jsx:436-530 | the card handler with the card holding the store's own entry: on a stored or signed-out write the store ends as `updateFees` leaves it; on a refused or thrown write the entry keeps its history but both totals move by the amount, and nothing else changes |
| Payments.CardRefusedBreaksLedger | src/App.jsx:529-530 | after a refused write of a non-zero amount the store's entry has a paid total its history does not sum to, and a negative balance if the amount exceeded it |
| Payments.CardPaymentCopied | src/App.jsx:527-530 | the corrected handler refreshes a copy: a refused write leaves the store as it was, and any other write changes exactly the paying student as RecordPayment does |
| Payments.CardPaymentCopiedKeepsLedger | src/useStorage.js:210-249 | with the copy, every outcome of a card payment keeps every ledger consistent |
| Payments.LocalRefreshFloored | src/App.jsx:529-530 | the corrected card balance is never negative |
| Payments.LocalRefreshDisagrees | src/App.jsx:529-530 | when the amount exceeds the balance, the card as written shows a negative balance that differs from the store's |
| Payments.LocalRefreshFlooredAgrees | src/App.jsx:529-530 | the corrected card shows the store's paid and pending totals for every amount |
| Collections.NewStudent | src/useStorage.js:183-190 | a new student keeps the form's fields, is checkpointed at admission, has nothing paid or pending and an empty history |
| Collections.NewStudentConsistent | src/useStorage.js:183-190 | a new student's ledger is consistent and its checkpoint is its admission date |
| Collections.AddStudent | src/useStorage.js:192-203 | an accepted insert appends the new student and leaves schools alone; a refused one changes nothing |
| Collections.AddSchool | src/useStorage.js:149-162 | an accepted insert appends the school and leaves students alone; a refused one changes nothing |
| Collections.AddStudentKeepsInvariants | src/useStorage.js:199-202 | adding with a fresh id keeps ids unique and every ledger consistent |
| Collections.DeleteSchool | src/useStorage.js:174-178 | exactly that school and exactly the students enrolled in it go, and the other schools and students keep their multiplicity |
| Collections.DeleteStudent | src/useStorage.js:255-258 | exactly the students with that id go, schools are untouched |
| Collections.DeleteSchoolSplits | src/useStorage.js:177 | the survivors keep their order: deleting from a concatenation is deleting from each part |
| Collections.DeleteSchoolIdempotent | src/useStorage.js:174-178 | deleting a school twice is deleting it once |
| Collections.DeleteEmptySchool | src/useStorage.js:177 | deleting a school with no students leaves the student list as it was |
| Collections.DeleteUnknownStudent | src/useStorage.js:257 | deleting an id nobody has changes nothing |
| Collections.FindSchool | src/useStorage.js:66-67 | the found school is the first in the list that matches; none is found exactly when none matches |
| Collections.RemapSchoolId | src/useStorage.js:64-69 | a migrated student keeps its old school id or takes a non-empty id of an uploaded school, and keeps it when its old school is unknown |
| Collections.RemapFollowsName | src/useStorage.js:66-68 | with unique names, a student follows its school to the uploaded school with the same name |
| Dashboard.Digits | src/App.jsx:262 | stripping non-digits leaves only digits, each digit as many times as the text has it and no other character |
| Dashboard.DigitsAppend | src/App.jsx:262 | the digits of joined texts are the digits of each in turn, so their order is the text's |
| Dashboard.NormalizePhone | src/App.jsx:262-263 | the number is digits only, ends with the stripped digits, and gains a leading 91 exactly when ten digits remain |
| Dashboard.DigitsOfDigits | src/App.jsx:262 | stripping a digit-only number changes nothing |
| Dashboard.NormalizeIdempotent | src/App.jsx:262-263 | normalising a normalised number changes nothing |
| Dashboard.StartBulk | src/App.jsx:282-286 | an empty list is refused; otherwise the queue is the list and the modal shows |
| Dashboard.ProcessNext | src/App.jsx:288-297 | an empty queue does nothing; otherwise the head is messaged and dropped, and the modal closes exactly when nobody is left |
| Dashboard.Skip | src/App.jsx:666 | skip drops the head only, messages nobody, and leaves the modal flag alone |
| Dashboard.SendAll | src/App.jsx:54-55 | tapping "Open WhatsApp" while the modal shows: an open queue is messaged in full, in order, and ends closed; a closed queue shows nothing, so nobody is messaged |
| Dashboard.DueStudents | src/App.jsx:308-310 | a student is due exactly when billed today and still owing; each due student keeps its multiplicity and no other is listed |
| Dashboard.UnpaidStudents | src/App.jsx:468 | a student is unpaid exactly when something is pending; each unpaid student keeps its multiplicity and no other is listed |
| Dashboard.UnpaidMeansPendingBadge | src/App.jsx:490-491 | the unpaid list is exactly the students whose badge reads "Pending" |
| Dashboard.DueIsUnpaidBilledToday | src/App.jsx:308-310 | the due list is the unpaid list narrowed to students billed today, in order |
| Dashboard.SchoolStudents | src/App.jsx:436 | the listed students are exactly those of the open school, each with its multiplicity, and none with no school open |
| Dashboard.Lower | src/App.jsx:482 | `toLowerCase` maps an upper-case letter to its lower-case letter, 32 code units on, and leaves other characters alone |
| Dashboard.LowerStr | src/App.jsx:482 | lowercasing a text lowercases each character in place |
| Dashboard.Search | src/App.jsx:482 | a student is kept exactly when the lowercased name contains the lowercased query or the phone contains the query; each kept student keeps its multiplicity |
| Dashboard.EmptyQueryKeepsAll | src/App.jsx:482 | an empty query keeps every student in order |
| Dashboard.LowerIdempotent | src/App.jsx:482 | lowercasing twice is lowercasing once |
| Dashboard.SetPin | src/App.jsx:154-163 | a four-character entry is saved and unlocks; any other length changes nothing |
| Dashboard.SubmitPin | src/App.jsx:144-152 | the saved PIN unlocks; a wrong one clears the entry and changes nothing else |
| Dashboard.UnlockOnlyWithPin | src/App.jsx:144-170 | past the lock screen, submitting unlocks exactly when the entry is the saved PIN, which stays as it was |
| Dashboard.SetPinThenSubmit | src/App.jsx:144-163 | a PIN just set unlocks a relocked dashboard, and a saved PIN has four characters |
| Dashboard.HandleAddSchool | src/App.jsx:229-235 | the store changes exactly when the name is non-empty and the insert is accepted, by appending that school |
| Dashboard.HandleAddStudent | src/App.jsx:237-246 | the store changes exactly when name, phone and an open school are present and the insert is accepted, by appending the new student in the open school |

## Left out

- Supabase, `localStorage`, the async fetch and load plumbing, and alerts: these are I/O. An insert's outcome is the `accepted` flag, a payment write's outcome is `Session`, and billing's writes are returned as a list.
- The `try`/`catch` network-error paths: a thrown insert is modelled like a refused one (nothing changes). A thrown payment write is modelled like a refused one, `SignedIn(false)`: `updateFees` changes nothing itself, but the card's in-place refresh stays in the store (`Payments.CardPayment`).
- React rendering and effects beyond the re-fire of billing, `window.open`, `sms:` links, message texts and `encodeURIComponent`: these are UI and foreign calls.
- `toLocaleDateString('en-IN')` payment dates: locale-dependent, so they are an opaque text parameter.
- The "Next Billing" display, which parses with `new Date(string)`: this relies on the host's UTC parse and time zone, and can differ by a day from the component parse.
- The stale-snapshot race, where `performBilling` maps captured students but commits through `setData(prev => …)`, and `updateFees` computes its write from the captured `data.students` (src/useStorage.js:212) but commits through `prev` (src/useStorage.js:235-237): this is about interleaving with async updates.
- The effect's guard `data.students.length > 0`: an empty pass charges nobody and so changes nothing anyway.
- The admission-date parse at src/useStorage.js:101-102: its result is never used. The model types `admissionDate` as a string; a missing one makes `split` throw and abort the whole billing pass, which is not modelled.
- The `Date.now()` ids of signed-out inserts and the store-assigned ids: ids are parameters.
- JavaScript number semantics:
  - fees are integers, not floats;
  - `Number` on a date piece is modelled for digits and the empty text only;
  - signs, spaces, decimals and exponents are read as NaN, which makes the date invalid.
- Time zones: dates are local calendar components, and the representable range is taken in those components (20 April −271821 to 13 September 275760).
- `toLowerCase` beyond ASCII letters: only `A`–`Z` are lowered.
- `paymentHistory || []`: an absent history is modelled as the empty one.
- `Auth.jsx` and `ThemeToggle.jsx` are not part of this model.
- JsDates.MakeDate: its own contract covers months 0..11 with at most 28 surplus days; months outside 0..11 and days of 0 or less are stated for every input by JsDates.MakeDateCarries, which is kept out of the function's contract so that month steps do not carry the day count.
- Payments.CardPayment: models a card freshly picked from the store's list, so that it holds the store's own object. Once a stored payment or a billing pass replaces that object in the store (src/useStorage.js:235-243, 130-135), the open card holds a detached copy; a later refresh from it no longer reaches the store, and that case is not modelled.
- Billing.BillStudentIdempotent: holds only for checkpoints on days 1..28 with year from 100 on. On days 29..31 the code as written re-bills (see Findings), and years 0..99 are re-read as 1900..1999.
- Billing.ReconcileSettles: the same restriction, for the same reasons.
- Billing.StepwiseIdempotent: needs a checkpoint year from 100 on, because the constructor re-reads years 0..99 as 1900..1999.
- Billing.DueByChronological: stated for four-digit years only. For other widths, text order and calendar order differ, and the loop uses text order.

## Findings

| source | as written | input that shows it | evidently intended | confidence | as-written member | corrected member |
|---|---|---|---|---|---|---|
| src/useStorage.js:123-125 | the new checkpoint is the old one moved by `monthsToBill` months in one `setMonth`, which for days 29..31 can land before the loop's last stepped date | checkpoint 2023-01-31, today 2023-05-02: two months are billed and the checkpoint becomes 2023-03-31; the effect re-fires and bills a third month the same day | the checkpoint is the last date the loop stepped to (2023-04-03), so a second pass bills nothing | not executed | BillingExamples.MonthEndRebills | Billing.StepwiseIdempotent |
| src/App.jsx:529-530 | the open student card subtracts the amount from the pending balance without a floor | pending 100, payment 150: the card shows −50 while the store records 0 | the card shows `max(0, pending − amount)` as the store and the preview do | not executed | Payments.LocalRefreshDisagrees | Payments.LocalRefreshFlooredAgrees |
| src/App.jsx:529-530 | the card (picked from the filtered store list at src/App.jsx:436 and 484) refreshes the store's own student object in place, so when the cloud refuses the write (src/useStorage.js:229-232) or it throws (245-247), the refreshed totals stay in the store | paid 0, pending 100, empty history, refused payment of 150: the store keeps paid 150 with an empty history and pending −50, and the next `updateFees` computes from these | the card refreshes a copy, so a refused payment leaves the store as it was | not executed | Payments.CardRefusedBreaksLedger | Payments.CardPaymentCopiedKeepsLedger |
