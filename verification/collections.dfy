/**
 * Adding and deleting schools and students (`addSchool`, `addStudent`,
 * `deleteSchool`, `deleteStudent` in useStorage.js), and the school
 * remapping done when local data moves to the cloud.
 */
module Collections {
  import opened Wrappers
  import opened Seqs
  import opened Ledger

  /** The fields the add-student form supplies. */
  datatype StudentForm = StudentForm(name: string, parentPhone: string, totalFees: int, schoolId: Id, admissionDate: string)

  /**
   * A new student: the form's fields, billed up to its admission date,
   * nothing paid, nothing owed and no history. `id` is the one the store hands out.
   */
  function NewStudent(f: StudentForm, id: Id): (s: Student)
    ensures s.id == id && s.name == f.name && s.parentPhone == f.parentPhone
    ensures s.totalFees == f.totalFees && s.schoolId == f.schoolId
    ensures s.admissionDate == f.admissionDate && s.lastBilledDate == Some(f.admissionDate)
    ensures s.paidFees == 0 && s.pendingFees == 0 && s.paymentHistory == [] && s.lastPaidDate.None?
  {
    Student(id, f.schoolId, f.name, f.parentPhone, f.totalFees, f.admissionDate, Some(f.admissionDate), 0, 0, [], None)
  }

  /** A new student starts with a consistent ledger and is checkpointed at its admission date. */
  lemma NewStudentConsistent(f: StudentForm, id: Id)
    ensures LedgerConsistent(NewStudent(f, id))
    ensures f.admissionDate != "" ==> CheckpointText(NewStudent(f, id)) == f.admissionDate
  {
  }

  /**
   * `addStudent`: the new record is appended, unless the cloud insert was
   * refused (`accepted` is false), in which case nothing changes.
   */
  function AddStudent(st: Store, f: StudentForm, id: Id, accepted: bool): (r: Store)
    ensures r.schools == st.schools
    ensures accepted ==> r.students == st.students + [NewStudent(f, id)]
    ensures !accepted ==> r == st
  {
    if accepted then st.(students := st.students + [NewStudent(f, id)]) else st
  }

  /** `addSchool`: the new school is appended, unless the cloud insert was refused. */
  function AddSchool(st: Store, name: string, id: Id, accepted: bool): (r: Store)
    ensures r.students == st.students
    ensures accepted ==> r.schools == st.schools + [School(id, name)]
    ensures !accepted ==> r == st
  {
    if accepted then st.(schools := st.schools + [School(id, name)]) else st
  }

  /** Adding a student with a fresh id keeps the ids unique and every ledger consistent. */
  lemma AddStudentKeepsInvariants(st: Store, f: StudentForm, id: Id, accepted: bool)
    requires UniqueIds(st.students)
    requires forall k :: 0 <= k < |st.students| ==> st.students[k].id != id
    requires forall k :: 0 <= k < |st.students| ==> LedgerConsistent(st.students[k])
    ensures UniqueIds(AddStudent(st, f, id, accepted).students)
    ensures forall k :: 0 <= k < |AddStudent(st, f, id, accepted).students| ==>
              LedgerConsistent(AddStudent(st, f, id, accepted).students[k])
  {
  }

  function NotSchool(id: Id): School -> bool {
    (sc: School) => sc.id != id
  }

  function NotInSchool(id: Id): Student -> bool {
    (s: Student) => s.schoolId != id
  }

  function NotStudent(id: Id): Student -> bool {
    (s: Student) => s.id != id
  }

  /** `deleteSchool(id)`: that school goes, and with it every student enrolled in it. */
  function DeleteSchool(st: Store, id: Id): (r: Store)
    ensures forall sc :: sc in r.schools <==> sc in st.schools && sc.id != id
    ensures forall sc :: multiset(r.schools)[sc] == if sc.id != id then multiset(st.schools)[sc] else 0
    ensures forall s :: s in r.students <==> s in st.students && s.schoolId != id
    ensures forall s :: multiset(r.students)[s] == if s.schoolId != id then multiset(st.students)[s] else 0
  {
    Store(Filter(st.schools, NotSchool(id)), Filter(st.students, NotInSchool(id)))
  }

  /** `deleteStudent(id)`: the students with that id go and everything else stays. */
  function DeleteStudent(st: Store, id: Id): (r: Store)
    ensures r.schools == st.schools
    ensures forall s :: s in r.students <==> s in st.students && s.id != id
    ensures forall s :: multiset(r.students)[s] == if s.id != id then multiset(st.students)[s] else 0
  {
    st.(students := Filter(st.students, NotStudent(id)))
  }

  /** Deleting a school keeps the survivors in their order: deleting it from a concatenation deletes from each part. */
  lemma DeleteSchoolSplits(a: seq<Student>, b: seq<Student>, schools: seq<School>, id: Id)
    ensures DeleteSchool(Store(schools, a + b), id).students ==
              DeleteSchool(Store(schools, a), id).students + DeleteSchool(Store(schools, b), id).students
  {
    FilterAppend(a, b, NotInSchool(id));
  }

  /** Deleting a school twice is deleting it once. */
  lemma DeleteSchoolIdempotent(st: Store, id: Id)
    ensures DeleteSchool(DeleteSchool(st, id), id) == DeleteSchool(st, id)
  {
    var r := DeleteSchool(st, id);
    FilterAll(r.schools, NotSchool(id));
    FilterAll(r.students, NotInSchool(id));
  }

  /** Deleting a school nobody is enrolled in leaves the student list exactly as it was. */
  lemma DeleteEmptySchool(st: Store, id: Id)
    requires forall k :: 0 <= k < |st.students| ==> st.students[k].schoolId != id
    ensures DeleteSchool(st, id).students == st.students
  {
    FilterAll(st.students, NotInSchool(id));
  }

  /** Deleting a student id nobody has changes nothing. */
  lemma DeleteUnknownStudent(st: Store, id: Id)
    requires forall k :: 0 <= k < |st.students| ==> st.students[k].id != id
    ensures DeleteStudent(st, id) == st
  {
    FilterAll(st.students, NotStudent(id));
  }

  // ---------------------------------------------------------------------------
  // Moving local data to the cloud

  /** The first school satisfying `p`, as `schools.find(p)`; the migration searches by name. */
  function FindSchool(schools: seq<School>, p: School -> bool): (r: Option<School>)
    ensures r.Some? ==> r.value in schools && p(r.value)
    ensures r.None? <==> forall k :: 0 <= k < |schools| ==> !p(schools[k])
    ensures r.Some? ==> exists i :: 0 <= i < |schools| && schools[i] == r.value && forall k :: 0 <= k < i ==> !p(schools[k])
  {
    if |schools| == 0 then None
    else if p(schools[0]) then Some(schools[0])
    else FindSchool(schools[1..], p)
  }

  function HasId(id: Id): School -> bool {
    (sc: School) => sc.id == id
  }

  function HasName(name: string): School -> bool {
    (sc: School) => sc.name == name
  }

  /**
   * The school id a migrated student carries: the id of the uploaded school
   * whose name matches its old school's name, or the old id when there is no
   * such school or the new id is empty.
   */
  function RemapSchoolId(s: Student, oldSchools: seq<School>, newSchools: seq<School>): (id: Id)
    ensures id == s.schoolId || exists k :: 0 <= k < |newSchools| && newSchools[k].id == id && id != ""
    ensures FindSchool(oldSchools, HasId(s.schoolId)).None? ==> id == s.schoolId
  {
    match FindSchool(oldSchools, HasId(s.schoolId))
    case None => s.schoolId
    case Some(former) =>
      match FindSchool(newSchools, HasName(former.name))
      case None => s.schoolId
      case Some(uploaded) => if uploaded.id != "" then uploaded.id else s.schoolId
  }

  /** When names are unique on both sides, a student follows its school to the uploaded copy with the same name. */
  lemma RemapFollowsName(s: Student, oldSchools: seq<School>, newSchools: seq<School>, i: nat, j: nat)
    requires i < |oldSchools| && j < |newSchools|
    requires oldSchools[i].id == s.schoolId && newSchools[j].name == oldSchools[i].name && newSchools[j].id != ""
    requires forall k :: 0 <= k < |oldSchools| && oldSchools[k].id == s.schoolId ==> k == i
    requires forall k :: 0 <= k < |newSchools| && newSchools[k].name == oldSchools[i].name ==> k == j
    ensures RemapSchoolId(s, oldSchools, newSchools) == newSchools[j].id
  {
    var former := FindSchool(oldSchools, HasId(s.schoolId));
    assert former.Some?;
    assert former.value == oldSchools[i];
    var uploaded := FindSchool(newSchools, HasName(oldSchools[i].name));
    assert uploaded.Some?;
    assert uploaded.value == newSchools[j];
  }
}
