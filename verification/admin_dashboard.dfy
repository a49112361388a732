/** The admin dashboard hook (src/hooks/useAdminDashboard.ts): the guards
    it puts in front of the data provider, the form resets after a
    successful add, the list toggles of the group form and the CSV student
    import.

    Each handler is one atomic transition from the state before the call;
    a rejection is reported as a value and leaves the state as it was. */
module AdminDashboard {
  import opened Base
  import opened Text
  import opened Types
  import opened Engine
  import opened Membership

  /** Why a handler refused: some listed students already belong to a
      group (the ids, in list order), or the CSV header is malformed. */
  datatype Reason = MembershipConflict(ids: seq<string>) | InvalidCsvFormat

  /** What a handler did to the data: nothing (a guard was not met),
      refused with a message, or moved to a new state. */
  datatype Outcome = Ignored | Rejected(reason: Reason) | Applied(next: State)

  /** The data state after a handler's outcome. */
  function After(o: Outcome, st: State): State {
    if o.Applied? then o.next else st
  }

  /** A handler's outcome together with its form after the call. */
  datatype Step<F> = Step(outcome: Outcome, form: F)

  datatype ClassForm = ClassForm(name: string, teacherId: string, description: string)
  datatype StudentForm = StudentForm(name: string, email: string, classId: string)
  datatype TeacherForm = TeacherForm(name: string, email: string)

  /** The group form after a reset: empty name, description and lists. */
  const EmptyGroupForm := GroupDraft("", Some(""), [], [])

  // ---------------------------------------------------------------------
  // membership conflicts

  /** `students.find(s => s.id === id)?.groupId` is truthy. */
  predicate InGroup(students: seq<Student>, id: string) {
    match FindStudent(students, id)
    case Some(s) => HasGroup(s)
    case None => false
  }

  /** `student?.groupId && student.groupId !== gid`. */
  predicate InOtherGroup(students: seq<Student>, id: string, gid: string) {
    match FindStudent(students, id)
    case Some(s) => HasGroup(s) && s.groupId != Some(gid)
    case None => false
  }

  /** The ids, in list order, that already belong to a group. Ids that
      match no student are never conflicts. */
  function CreateConflicts(students: seq<Student>, ids: seq<string>): (r: seq<string>)
    ensures IsSubseq(r, ids)
    ensures forall id :: id in r <==> id in ids && InGroup(students, id)
  {
    Filter(ids, id => InGroup(students, id))
  }

  /** The ids, in list order, newly added to group `prior` that belong to
      a different group. */
  function UpdateConflicts(students: seq<Student>, prior: Group, ids: seq<string>): (r: seq<string>)
    ensures IsSubseq(r, ids)
    ensures forall id :: id in r <==> id in ids && id !in prior.studentIds && InOtherGroup(students, id, prior.id)
  {
    var added := Filter(ids, id => id !in prior.studentIds);
    var r := Filter(added, id => InOtherGroup(students, id, prior.id));
    SubseqTrans(r, added, ids);
    r
  }

  lemma {:induction false} SubseqTrans<T>(a: seq<T>, b: seq<T>, c: seq<T>)
    requires IsSubseq(a, b) && IsSubseq(b, c)
    ensures IsSubseq(a, c)
    decreases |c|
  {
    if |a| == 0 || |c| == 0 {
      return;
    }
    if b[0] == c[0] && IsSubseq(b[1..], c[1..]) {
      if a[0] == b[0] && IsSubseq(a[1..], b[1..]) {
        SubseqTrans(a[1..], b[1..], c[1..]);
      } else {
        SubseqTrans(a, b[1..], c[1..]);
      }
    } else {
      SubseqTrans(a, b, c[1..]);
    }
  }

  /** With distinct student ids, `find` by id returns the student itself. */
  lemma FindStudentById(students: seq<Student>, j: nat)
    requires StudentIdsDistinct(students) && j < |students|
    ensures FindStudent(students, students[j].id) == Some(students[j])
  {
  }

  // ---------------------------------------------------------------------
  // handleAddGroup

  /** `handleAddGroup`: nothing happens unless the trimmed name is
      non-empty and a class is selected; then the group is refused if a
      listed student already has a group, otherwise it is added and the
      form reset. */
  function HandleAddGroup(st: State, form: GroupDraft, newId: string, now: string): (r: Step<GroupDraft>)
    ensures r.outcome.Ignored? <==> !HasContent(form.name) || |form.classIds| == 0
    ensures r.outcome.Rejected? <==>
      HasContent(form.name) && |form.classIds| > 0 && exists id :: id in form.studentIds && InGroup(st.students, id)
    ensures r.outcome.Rejected? ==> r.outcome.reason == MembershipConflict(CreateConflicts(st.students, form.studentIds))
    ensures r.outcome.Applied? ==> r.outcome.next == AddGroup(st, form, newId, now) && r.form == EmptyGroupForm
    ensures !r.outcome.Applied? ==> r.form == form
  {
    if Trim(form.name) != "" && |form.classIds| > 0 then
      var conflicts := CreateConflicts(st.students, form.studentIds);
      if |conflicts| > 0 then
        assert conflicts[0] in conflicts;
        Step(Rejected(MembershipConflict(conflicts)), form)
      else
        Step(Applied(AddGroup(st, form, newId, now)), EmptyGroupForm)
    else
      Step(Ignored, form)
  }

  /** Guard and provider together keep the membership invariant. */
  lemma HandleAddGroupPreserves(st: State, form: GroupDraft, newId: string, now: string)
    requires Consistent(st) && Fresh(st, newId)
    ensures Consistent(After(HandleAddGroup(st, form, newId, now).outcome, st))
  {
    var o := HandleAddGroup(st, form, newId, now).outcome;
    if o.Applied? {
      forall j | 0 <= j < |st.students| && st.students[j].id in form.studentIds
        ensures !HasGroup(st.students[j])
      {
        FindStudentById(st.students, j);
        assert !InGroup(st.students, st.students[j].id);
      }
      AddGroupPreserves(st, form, newId, now);
    }
  }

  // ---------------------------------------------------------------------
  // handleUpdateGroup

  /** `handleUpdateGroup`: an unknown group id is ignored; an update that
      adds a student belonging to another group is refused as a whole
      (name and class edits are dropped too); otherwise the update goes
      through. */
  function HandleUpdateGroup(st: State, gid: string, u: GroupUpdate, now: string): (r: Outcome)
    ensures FindGroup(st.groups, gid).None? <==> r.Ignored?
    ensures r.Rejected? <==>
      FindGroup(st.groups, gid).Some? && u.studentIds.Some? &&
      exists id :: id in u.studentIds.value && id !in FindGroup(st.groups, gid).value.studentIds && InOtherGroup(st.students, id, gid)
    ensures r.Applied? ==> r.next == UpdateGroup(st, gid, u, now)
  {
    match FindGroup(st.groups, gid)
    case None => Ignored
    case Some(prior) =>
      var conflicts := UpdateConflicts(st.students, prior, u.studentIds.GetOr([]));
      if |conflicts| > 0 then
        assert conflicts[0] in conflicts;
        Rejected(MembershipConflict(conflicts))
      else
        Applied(UpdateGroup(st, gid, u, now))
  }

  lemma HandleUpdateGroupPreserves(st: State, gid: string, u: GroupUpdate, now: string)
    requires Consistent(st)
    ensures Consistent(After(HandleUpdateGroup(st, gid, u, now), st))
  {
    var o := HandleUpdateGroup(st, gid, u, now);
    if o.Applied? {
      var prior := FindGroup(st.groups, gid).value;
      if u.studentIds.Some? {
        forall j | 0 <= j < |st.students| && st.students[j].id in u.studentIds.value && st.students[j].id !in prior.studentIds
          ensures !HasGroup(st.students[j]) || st.students[j].groupId == Some(gid)
        {
          FindStudentById(st.students, j);
          assert !InOtherGroup(st.students, st.students[j].id, gid);
        }
      }
      assert AddsAreFree(st, gid, u);
      UpdateGroupPreserves(st, gid, u, now);
    }
  }

  // ---------------------------------------------------------------------
  // handleAddClass, handleAddStudent, handleAddTeacher

  /** `handleAddClass`: adds the class only when its trimmed name is
      non-empty, then clears name and description but keeps the teacher. */
  function HandleAddClass(st: State, form: ClassForm, newId: string): (r: Step<ClassForm>)
    ensures r.outcome.Applied? <==> HasContent(form.name)
    ensures !r.outcome.Rejected?
    ensures r.outcome.Applied? ==>
      r.outcome.next == AddClass(st, ClassDraft(form.name, form.teacherId, Some(form.description)), newId)
      && r.form == ClassForm("", form.teacherId, "")
    ensures r.outcome.Ignored? ==> r.form == form
  {
    if Trim(form.name) != "" then
      Step(Applied(AddClass(st, ClassDraft(form.name, form.teacherId, Some(form.description)), newId)), ClassForm("", form.teacherId, ""))
    else
      Step(Ignored, form)
  }

  /** `handleAddStudent`: needs a non-blank name and email and a non-empty
      class id; then clears the whole form, class id included. */
  function HandleAddStudent(st: State, form: StudentForm, newId: string): (r: Step<StudentForm>)
    ensures r.outcome.Applied? <==> HasContent(form.name) && HasContent(form.email) && form.classId != ""
    ensures !r.outcome.Rejected?
    ensures r.outcome.Applied? ==>
      r.outcome.next == AddStudent(st, StudentDraft(form.name, form.email, form.classId), newId)
      && r.form == StudentForm("", "", "")
    ensures r.outcome.Ignored? ==> r.form == form
  {
    if Trim(form.name) != "" && Trim(form.email) != "" && form.classId != "" then
      Step(Applied(AddStudent(st, StudentDraft(form.name, form.email, form.classId), newId)), StudentForm("", "", ""))
    else
      Step(Ignored, form)
  }

  /** `handleAddTeacher`: needs a non-blank name and email. */
  function HandleAddTeacher(st: State, form: TeacherForm, newId: string): (r: Step<TeacherForm>)
    ensures r.outcome.Applied? <==> HasContent(form.name) && HasContent(form.email)
    ensures !r.outcome.Rejected?
    ensures r.outcome.Applied? ==>
      r.outcome.next == AddTeacher(st, TeacherDraft(form.name, form.email), newId) && r.form == TeacherForm("", "")
    ensures r.outcome.Ignored? ==> r.form == form
  {
    if Trim(form.name) != "" && Trim(form.email) != "" then
      Step(Applied(AddTeacher(st, TeacherDraft(form.name, form.email), newId)), TeacherForm("", ""))
    else
      Step(Ignored, form)
  }

  // ---------------------------------------------------------------------
  // group form toggles

  /** `handleToggleStudentInGroup`: a present id is removed (every
      occurrence), an absent one appended; nothing else in the form moves. */
  function ToggleStudentInGroup(form: GroupDraft, id: string): (r: GroupDraft)
    ensures id in r.studentIds <==> id !in form.studentIds
    ensures forall y :: y != id ==> multiset(r.studentIds)[y] == multiset(form.studentIds)[y]
    ensures id !in form.studentIds ==> r.studentIds == form.studentIds + [id]
    ensures id in form.studentIds ==> IsSubseq(r.studentIds, form.studentIds)
    ensures r.(studentIds := form.studentIds) == form
  {
    form.(studentIds := Toggle(form.studentIds, id))
  }

  /** `handleToggleClassInGroup`, the same toggle on the class list. */
  function ToggleClassInGroup(form: GroupDraft, id: string): (r: GroupDraft)
    ensures id in r.classIds <==> id !in form.classIds
    ensures forall y :: y != id ==> multiset(r.classIds)[y] == multiset(form.classIds)[y]
    ensures id !in form.classIds ==> r.classIds == form.classIds + [id]
    ensures id in form.classIds ==> IsSubseq(r.classIds, form.classIds)
    ensures r.(classIds := form.classIds) == form
  {
    form.(classIds := Toggle(form.classIds, id))
  }

  /** Selecting an unselected student or class twice restores the form. */
  lemma ToggleTwiceRestoresForm(form: GroupDraft, id: string)
    ensures id !in form.studentIds ==> ToggleStudentInGroup(ToggleStudentInGroup(form, id), id) == form
    ensures id !in form.classIds ==> ToggleClassInGroup(ToggleClassInGroup(form, id), id) == form
  {
    if id !in form.studentIds {
      ToggleTwiceRestores(form.studentIds, id);
    }
    if id !in form.classIds {
      ToggleTwiceRestores(form.classIds, id);
    }
  }

  // ---------------------------------------------------------------------
  // CSV import

  /** `row[i]`; a missing field (undefined in the source) is the empty string here. */
  function Field(row: seq<string>, i: nat): string {
    if i < |row| then row[i] else ""
  }

  function RowToDraft(row: seq<string>): StudentDraft {
    StudentDraft(Field(row, 0), Field(row, 1), Field(row, 2))
  }

  /** The text-to-students part of `handleFileUpload`: split into lines on
      `\n` and each line on `,`; the first line is a header that must have
      exactly three fields and never becomes a student; every later line
      becomes one student, in order, with name, email and class id taken
      from fields 0, 1 and 2. */
  function ParseStudentsCsv(text: string): (r: Option<seq<StudentDraft>>)
    ensures r.None? <==> |Split(Split(text, '\n')[0], ',')| != 3
    ensures r.Some? ==> |r.value| == |Split(text, '\n')| - 1
    ensures r.Some? ==> forall i :: 0 <= i < |r.value| ==> r.value[i] == RowToDraft(Split(Split(text, '\n')[i + 1], ','))
  {
    var lines := Split(text, '\n');
    if |Split(lines[0], ',')| != 3 then None
    else Some(seq(|lines| - 1, i requires 0 <= i < |lines| - 1 => RowToDraft(Split(lines[i + 1], ','))))
  }

  /** One CSV line holding the three fields of a draft. */
  function CsvLine(d: StudentDraft): string {
    Join([d.name, d.email, d.classId], ',')
  }

  /** The lines of a CSV file: the header line, then one line per draft. */
  function CsvLines(header: seq<string>, drafts: seq<StudentDraft>): seq<string>
    requires |header| >= 1
  {
    [Join(header, ',')] + seq(|drafts|, i requires 0 <= i < |drafts| => CsvLine(drafts[i]))
  }

  /** A CSV file: the lines joined by line feeds. */
  function EncodeStudentsCsv(header: seq<string>, drafts: seq<StudentDraft>): string
    requires |header| >= 1
  {
    Join(CsvLines(header, drafts), '\n')
  }

  predicate CleanField(f: string) {
    ',' !in f && '\n' !in f
  }

  predicate CleanDraft(d: StudentDraft) {
    CleanField(d.name) && CleanField(d.email) && CleanField(d.classId)
  }

  /** A character in no piece and different from the separator is not in the joined string. */
  lemma {:induction false} JoinAvoids(parts: seq<string>, sep: char, c: char)
    requires |parts| >= 1 && c != sep
    requires forall i :: 0 <= i < |parts| ==> c !in parts[i]
    ensures c !in Join(parts, sep)
    decreases |parts|
  {
    if |parts| > 1 {
      JoinAvoids(parts[1..], sep, c);
    }
  }

  /** A clean draft's line has no line feed and splits back into its three fields. */
  lemma CsvLineSplits(d: StudentDraft)
    requires CleanDraft(d)
    ensures '\n' !in CsvLine(d)
    ensures Split(CsvLine(d), ',') == [d.name, d.email, d.classId]
  {
    var fields := [d.name, d.email, d.classId];
    JoinAvoids(fields, ',', '\n');
    SplitJoin(fields, ',');
  }

  /** Splitting a written file on line feeds gives back its lines. */
  lemma CsvLinesSplit(header: seq<string>, drafts: seq<StudentDraft>)
    requires |header| == 3 && forall i :: 0 <= i < 3 ==> CleanField(header[i])
    requires forall i :: 0 <= i < |drafts| ==> CleanDraft(drafts[i])
    ensures Split(EncodeStudentsCsv(header, drafts), '\n') == CsvLines(header, drafts)
    ensures Split(CsvLines(header, drafts)[0], ',') == header
  {
    var lines := CsvLines(header, drafts);
    JoinAvoids(header, ',', '\n');
    forall i | 0 <= i < |lines|
      ensures '\n' !in lines[i]
    {
      if i > 0 {
        assert lines[i] == CsvLine(drafts[i - 1]);
        CsvLineSplits(drafts[i - 1]);
      }
    }
    SplitJoin(lines, '\n');
    SplitJoin(header, ',');
  }

  /** Importing a file written from a three-field header and clean drafts
      gives back exactly those drafts: the header never becomes a student. */
  lemma ParseEncodeRoundTrip(header: seq<string>, drafts: seq<StudentDraft>)
    requires |header| == 3 && forall i :: 0 <= i < 3 ==> CleanField(header[i])
    requires forall i :: 0 <= i < |drafts| ==> CleanDraft(drafts[i])
    ensures ParseStudentsCsv(EncodeStudentsCsv(header, drafts)) == Some(drafts)
  {
    CsvLinesSplit(header, drafts);
    var lines := CsvLines(header, drafts);
    var r := ParseStudentsCsv(EncodeStudentsCsv(header, drafts));
    assert r.Some? && |r.value| == |drafts|;
    forall i | 0 <= i < |drafts|
      ensures r.value[i] == drafts[i]
    {
      CsvLineSplits(drafts[i]);
      assert lines[i + 1] == CsvLine(drafts[i]);
    }
    assert r.value == drafts;
  }

  /** `handleFileUpload` once the file text is read: a bad header is
      refused; otherwise every row is added as a new student. `ids(i)` is
      the id generated for the i-th row. */
  function ImportStudentsCsv(st: State, text: string, ids: nat -> string): (r: Outcome)
    ensures r.Rejected? <==> ParseStudentsCsv(text).None?
    ensures r.Rejected? ==> r.reason == InvalidCsvFormat
    ensures r.Applied? ==>
      && |r.next.students| == |st.students| + |Split(text, '\n')| - 1
      && r.next.students[..|st.students|] == st.students
      && (forall i :: 0 <= i < |Split(text, '\n')| - 1 ==>
            var row := Split(Split(text, '\n')[i + 1], ',');
            r.next.students[|st.students| + i] == Student(ids(i), Field(row, 0), Field(row, 1), Field(row, 2), None))
      && r.next.classes == st.classes && r.next.groups == st.groups && r.next.teachers == st.teachers
    ensures !r.Ignored?
  {
    match ParseStudentsCsv(text)
    case None => Rejected(InvalidCsvFormat)
    case Some(drafts) => Applied(AddStudents(st, drafts, ids))
  }

  /** The number of students a CSV text would add. */
  function CsvRowCount(text: string): nat {
    match ParseStudentsCsv(text)
    case None => 0
    case Some(drafts) => |drafts|
  }

  lemma ImportStudentsCsvPreserves(st: State, text: string, ids: nat -> string)
    requires Consistent(st) && FreshIds(st, ids, CsvRowCount(text))
    ensures Consistent(After(ImportStudentsCsv(st, text, ids), st))
  {
    match ParseStudentsCsv(text)
    case None =>
    case Some(drafts) => AddStudentsPreserves(st, drafts, ids);
  }

  // ---------------------------------------------------------------------
  // any sequence of admin actions

  /** One admin action, with the id and timestamp the source would generate. */
  datatype Command =
    | AddGroupCmd(groupForm: GroupDraft, newId: string, now: string)
    | UpdateGroupCmd(gid: string, update: GroupUpdate, now: string)
    | DeleteGroupCmd(gid: string)
    | AddClassCmd(classForm: ClassForm, newId: string)
    | AddStudentCmd(studentForm: StudentForm, newId: string)
    | AddTeacherCmd(teacherForm: TeacherForm, newId: string)
    | ImportCsvCmd(text: string, ids: nat -> string)

  /** The data state after one action. */
  function Apply(st: State, c: Command): State {
    match c
    case AddGroupCmd(f, id, now) => After(HandleAddGroup(st, f, id, now).outcome, st)
    case UpdateGroupCmd(gid, u, now) => After(HandleUpdateGroup(st, gid, u, now), st)
    case DeleteGroupCmd(gid) => DeleteGroup(st, gid)
    case AddClassCmd(f, id) => After(HandleAddClass(st, f, id).outcome, st)
    case AddStudentCmd(f, id) => After(HandleAddStudent(st, f, id).outcome, st)
    case AddTeacherCmd(f, id) => After(HandleAddTeacher(st, f, id).outcome, st)
    case ImportCsvCmd(text, ids) => After(ImportStudentsCsv(st, text, ids), st)
  }

  /** The generated ids an action uses are fresh in the state it runs on. */
  predicate FreshFor(st: State, c: Command) {
    match c
    case AddGroupCmd(_, id, _) => Fresh(st, id)
    case AddClassCmd(_, id) => Fresh(st, id)
    case AddStudentCmd(_, id) => Fresh(st, id)
    case ImportCsvCmd(text, ids) => FreshIds(st, ids, CsvRowCount(text))
    case _ => true
  }

  function Run(st: State, cs: seq<Command>): State
    decreases |cs|
  {
    if |cs| == 0 then st else Run(Apply(st, cs[0]), cs[1..])
  }

  predicate FreshAlong(st: State, cs: seq<Command>)
    decreases |cs|
  {
    |cs| == 0 || (FreshFor(st, cs[0]) && FreshAlong(Apply(st, cs[0]), cs[1..]))
  }

  lemma ApplyPreserves(st: State, c: Command)
    requires Consistent(st) && FreshFor(st, c)
    ensures Consistent(Apply(st, c))
  {
    match c
    case AddGroupCmd(f, id, now) => HandleAddGroupPreserves(st, f, id, now);
    case UpdateGroupCmd(gid, u, now) => HandleUpdateGroupPreserves(st, gid, u, now);
    case DeleteGroupCmd(gid) => DeleteGroupPreserves(st, gid);
    case AddClassCmd(f, id) =>
      if HandleAddClass(st, f, id).outcome.Applied? {
        AddClassPreserves(st, ClassDraft(f.name, f.teacherId, Some(f.description)), id);
      }
    case AddStudentCmd(f, id) =>
      if HandleAddStudent(st, f, id).outcome.Applied? {
        AddStudentPreserves(st, StudentDraft(f.name, f.email, f.classId), id);
      }
    case AddTeacherCmd(f, id) =>
      if HandleAddTeacher(st, f, id).outcome.Applied? {
        AddTeacherPreserves(st, TeacherDraft(f.name, f.email), id);
      }
    case ImportCsvCmd(text, ids) => ImportStudentsCsvPreserves(st, text, ids);
  }

  /** From any consistent state (the empty one included), every sequence of
      admin actions whose generated ids are fresh ends in a consistent
      state: in particular no student is ever claimed by two groups. */
  lemma {:induction false} RunPreserves(st: State, cs: seq<Command>)
    requires Consistent(st) && FreshAlong(st, cs)
    ensures Consistent(Run(st, cs))
    decreases |cs|
  {
    if |cs| > 0 {
      ApplyPreserves(st, cs[0]);
      RunPreserves(Apply(st, cs[0]), cs[1..]);
    }
  }
}
