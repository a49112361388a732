/** The in-memory data provider (src/context/data/DataProvider.tsx): one
    state holding the students, classes, groups and teachers, and the
    mutations and queries the admin and teacher screens call.

    Each mutation is a pure transition from the state before the call to
    the state after it. The randomly generated id and the `new Date()`
    timestamp of the source are parameters. The provider performs no
    membership check of its own: its callers guard it (see the
    AdminDashboard and GroupManagement modules). */
module Engine {
  import opened Base
  import opened Types

  datatype State = State(students: seq<Student>, classes: seq<Class>, groups: seq<Group>, teachers: seq<Teacher>)

  /** `Omit<Group, "id">` as the admin forms build it. */
  datatype GroupDraft = GroupDraft(name: string, description: Option<string>, studentIds: seq<string>, classIds: seq<string>)

  /** `Partial<Group>` restricted to the fields callers pass; None means "property absent". */
  datatype GroupUpdate = GroupUpdate(
    name: Option<string>,
    description: Option<string>,
    studentIds: Option<seq<string>>,
    classIds: Option<seq<string>>)

  datatype ClassDraft = ClassDraft(name: string, teacherId: string, description: Option<string>)
  datatype StudentDraft = StudentDraft(name: string, email: string, classId: string)
  datatype TeacherDraft = TeacherDraft(name: string, email: string)

  /** `s` and `t` agree on every field except possibly `groupId`. */
  predicate SameButGroup(s: Student, t: Student) {
    s.(groupId := t.groupId) == t
  }

  /** `c` and `d` agree on every field except possibly `groupIds`. */
  predicate SameButGroupIds(c: Class, d: Class) {
    c.(groupIds := d.groupIds) == d
  }

  // ---------------------------------------------------------------------
  // addGroup

  function JoinIfFree(s: Student, listed: seq<string>, gid: string): Student {
    if s.id in listed && !HasGroup(s) then s.(groupId := Some(gid)) else s
  }

  function AppendGroupId(c: Class, listed: seq<string>, gid: string): Class {
    if c.id in listed then c.(groupIds := Some(GroupIdsOf(c) + [gid])) else c
  }

  /** `addGroup`: the new group goes at the end; listed students without a
      group join it, listed students already in a group keep theirs; every
      listed class gets the new id appended to its (possibly missing)
      `groupIds`. */
  function AddGroup(st: State, draft: GroupDraft, newId: string, now: string): (r: State)
    ensures r.groups == st.groups + [Group(newId, draft.name, draft.description, draft.studentIds, draft.classIds, Some(now), None)]
    ensures r.teachers == st.teachers
    ensures |r.students| == |st.students|
    ensures forall i :: 0 <= i < |st.students| ==>
      if st.students[i].id in draft.studentIds && !HasGroup(st.students[i])
      then SameButGroup(r.students[i], st.students[i]) && r.students[i].groupId == Some(newId)
      else r.students[i] == st.students[i]
    ensures |r.classes| == |st.classes|
    ensures forall i :: 0 <= i < |st.classes| ==>
      if st.classes[i].id in draft.classIds
      then SameButGroupIds(r.classes[i], st.classes[i]) && r.classes[i].groupIds == Some(GroupIdsOf(st.classes[i]) + [newId])
      else r.classes[i] == st.classes[i]
  {
    var group := Group(newId, draft.name, draft.description, draft.studentIds, draft.classIds, Some(now), None);
    State(
      seq(|st.students|, i requires 0 <= i < |st.students| => JoinIfFree(st.students[i], draft.studentIds, newId)),
      seq(|st.classes|, i requires 0 <= i < |st.classes| => AppendGroupId(st.classes[i], draft.classIds, newId)),
      st.groups + [group],
      st.teachers)
  }

  // ---------------------------------------------------------------------
  // updateGroup

  /** `{ ...group, ...updates, updatedAt }`. */
  function Merge(g: Group, u: GroupUpdate, now: string): Group {
    g.(name := u.name.GetOr(g.name),
       description := if u.description.Some? then u.description else g.description,
       studentIds := u.studentIds.GetOr(g.studentIds),
       classIds := u.classIds.GetOr(g.classIds),
       updatedAt := Some(now))
  }

  function RelinkStudent(s: Student, oldIds: seq<string>, newIds: seq<string>, gid: string): (s': Student)
    ensures SameButGroup(s', s)
    ensures s.id in oldIds && s.id !in newIds ==> s'.groupId == None
    ensures s.id in newIds && s.id !in oldIds && !HasGroup(s) ==> s'.groupId == Some(gid)
    ensures s.id in newIds && s.id !in oldIds && HasGroup(s) ==> s' == s
    ensures (s.id in oldIds <==> s.id in newIds) ==> s' == s
  {
    if s.id in oldIds && s.id !in newIds then s.(groupId := None)
    else if s.id in newIds && s.id !in oldIds then (if HasGroup(s) then s else s.(groupId := Some(gid)))
    else s
  }

  function RelinkClass(c: Class, oldIds: seq<string>, newIds: seq<string>, gid: string): (c': Class)
    ensures SameButGroupIds(c', c)
    ensures c.id in oldIds && c.id !in newIds ==> c'.groupIds == Some(RemoveAll(GroupIdsOf(c), gid))
    ensures c.id in newIds && c.id !in oldIds ==> c'.groupIds == Some(GroupIdsOf(c) + [gid])
    ensures (c.id in oldIds <==> c.id in newIds) ==> c' == c
  {
    var was := c.id in oldIds;
    var now := c.id in newIds;
    if was && !now then c.(groupIds := Some(RemoveAll(GroupIdsOf(c), gid)))
    else if !was && now then c.(groupIds := Some(GroupIdsOf(c) + [gid]))
    else c
  }

  function MergeInto(gs: seq<Group>, gid: string, u: GroupUpdate, now: string): (r: seq<Group>)
    ensures |r| == |gs|
    ensures forall i :: 0 <= i < |gs| ==> r[i] == if gs[i].id == gid then Merge(gs[i], u, now) else gs[i]
  {
    seq(|gs|, i requires 0 <= i < |gs| => if gs[i].id == gid then Merge(gs[i], u, now) else gs[i])
  }

  function RelinkStudents(ss: seq<Student>, oldIds: seq<string>, newIds: seq<string>, gid: string): (r: seq<Student>)
    ensures |r| == |ss|
    ensures forall i :: 0 <= i < |ss| ==> r[i] == RelinkStudent(ss[i], oldIds, newIds, gid)
  {
    seq(|ss|, i requires 0 <= i < |ss| => RelinkStudent(ss[i], oldIds, newIds, gid))
  }

  function RelinkClasses(cs: seq<Class>, oldIds: seq<string>, newIds: seq<string>, gid: string): (r: seq<Class>)
    ensures |r| == |cs|
    ensures forall i :: 0 <= i < |cs| ==> r[i] == RelinkClass(cs[i], oldIds, newIds, gid)
  {
    seq(|cs|, i requires 0 <= i < |cs| => RelinkClass(cs[i], oldIds, newIds, gid))
  }

  /** `groups.find(g => g.id === gid)`. */
  function FindGroup(groups: seq<Group>, gid: string): (r: Option<Group>)
    ensures r.None? <==> forall i :: 0 <= i < |groups| ==> groups[i].id != gid
    ensures r.Some? ==> r.value.id == gid && r.value in groups
    ensures r.Some? ==> exists k :: 0 <= k < |groups| && groups[k] == r.value && forall j :: 0 <= j < k ==> groups[j].id != gid
  {
    Find(groups, (g: Group) => g.id == gid)
  }

  /** `updateGroup`: merges the update into every group with this id and
      refreshes `updatedAt`; with `studentIds` given, students dropped from
      the group lose their `groupId` and students added to it join it only
      when they have no group; with `classIds` given, classes dropped lose
      the group id and classes added gain it. An unknown id changes nothing. */
  function UpdateGroup(st: State, gid: string, u: GroupUpdate, now: string): (r: State)
    ensures FindGroup(st.groups, gid).None? ==> r == st
    ensures r.teachers == st.teachers
    ensures |r.groups| == |st.groups|
    ensures forall i :: 0 <= i < |st.groups| ==>
      r.groups[i] == if st.groups[i].id == gid then Merge(st.groups[i], u, now) else st.groups[i]
    ensures |r.students| == |st.students|
    ensures FindGroup(st.groups, gid).Some? && u.studentIds.Some? ==>
      var oldIds, newIds := FindGroup(st.groups, gid).value.studentIds, u.studentIds.value;
      forall i :: 0 <= i < |st.students| ==>
        var s, s' := st.students[i], r.students[i];
        && SameButGroup(s', s)
        && (s.id in oldIds && s.id !in newIds ==> s'.groupId == None)
        && (s.id in newIds && s.id !in oldIds && !HasGroup(s) ==> s'.groupId == Some(gid))
        && (s.id in newIds && s.id !in oldIds && HasGroup(s) ==> s' == s)
        && ((s.id in oldIds <==> s.id in newIds) ==> s' == s)
    ensures u.studentIds.None? ==> r.students == st.students
    ensures |r.classes| == |st.classes|
    ensures FindGroup(st.groups, gid).Some? && u.classIds.Some? ==>
      var oldIds, newIds := FindGroup(st.groups, gid).value.classIds, u.classIds.value;
      forall i :: 0 <= i < |st.classes| ==>
        var c, c' := st.classes[i], r.classes[i];
        && SameButGroupIds(c', c)
        && (c.id in oldIds && c.id !in newIds ==> c'.groupIds == Some(RemoveAll(GroupIdsOf(c), gid)))
        && (c.id in newIds && c.id !in oldIds ==> c'.groupIds == Some(GroupIdsOf(c) + [gid]))
        && ((c.id in oldIds <==> c.id in newIds) ==> c' == c)
    ensures u.classIds.None? ==> r.classes == st.classes
  {
    match FindGroup(st.groups, gid)
    case None =>
      assert MergeInto(st.groups, gid, u, now) == st.groups;
      st
    case Some(prior) =>
      var students' :=
        if u.studentIds.Some? then RelinkStudents(st.students, prior.studentIds, u.studentIds.value, gid)
        else st.students;
      var classes' :=
        if u.classIds.Some? then RelinkClasses(st.classes, prior.classIds, u.classIds.value, gid)
        else st.classes;
      State(students', classes', MergeInto(st.groups, gid, u, now), st.teachers)
  }

  // ---------------------------------------------------------------------
  // deleteGroup

  /** `{ ...cls, groupIds: cls.groupIds?.filter(id => id !== gid) || [] }`. */
  function StripGroupId(c: Class, gid: string): (d: Class)
    ensures SameButGroupIds(d, c) && d.groupIds.Some?
    ensures gid !in GroupIdsOf(d)
    ensures IsSubseq(GroupIdsOf(d), GroupIdsOf(c))
    ensures forall y :: y != gid ==> multiset(GroupIdsOf(d))[y] == multiset(GroupIdsOf(c))[y]
  {
    c.(groupIds := Some(RemoveAll(GroupIdsOf(c), gid)))
  }

  function Unlink(s: Student, gid: string): (s': Student)
    ensures SameButGroup(s', s)
    ensures s.groupId == Some(gid) ==> s'.groupId == None
    ensures s.groupId != Some(gid) ==> s' == s
  {
    if s.groupId == Some(gid) then s.(groupId := None) else s
  }

  function DropGroup(gs: seq<Group>, gid: string): (r: seq<Group>)
    ensures IsSubseq(r, gs)
    ensures forall g :: g in r <==> g in gs && g.id != gid
    ensures forall i :: 0 <= i < |r| ==> r[i].id != gid
    ensures forall g :: multiset(r)[g] == if g.id != gid then multiset(gs)[g] else 0
    ensures (forall i :: 0 <= i < |gs| ==> gs[i].id != gid) ==> r == gs
  {
    var keep := (g: Group) => g.id != gid;
    var r := Filter(gs, keep);
    assert forall i :: 0 <= i < |r| ==> r[i] in r;
    if forall i :: 0 <= i < |gs| ==> gs[i].id != gid then
      FilterKeepsAll(gs, keep);
      r
    else r
  }

  function UnlinkAll(ss: seq<Student>, gid: string): (r: seq<Student>)
    ensures |r| == |ss|
    ensures forall i :: 0 <= i < |ss| ==> r[i] == Unlink(ss[i], gid)
  {
    seq(|ss|, i requires 0 <= i < |ss| => Unlink(ss[i], gid))
  }

  function StripAll(cs: seq<Class>, gid: string): (r: seq<Class>)
    ensures |r| == |cs|
    ensures forall i :: 0 <= i < |cs| ==> r[i] == StripGroupId(cs[i], gid)
  {
    seq(|cs|, i requires 0 <= i < |cs| => StripGroupId(cs[i], gid))
  }

  /** No student, class or group refers to `gid` any more. */
  predicate NoReferenceTo(st: State, gid: string) {
    && (forall i :: 0 <= i < |st.students| ==> st.students[i].groupId != Some(gid))
    && (forall i :: 0 <= i < |st.classes| ==> gid !in GroupIdsOf(st.classes[i]))
    && (forall i :: 0 <= i < |st.groups| ==> st.groups[i].id != gid)
  }

  /** `deleteGroup`: drops the group, clears `groupId` on its students and
      strips the id from every class (each class's `groupIds` becomes a
      list, even where it was missing). */
  function DeleteGroup(st: State, gid: string): (r: State)
    ensures NoReferenceTo(r, gid)
    ensures IsSubseq(r.groups, st.groups)
    ensures forall g :: g in r.groups <==> g in st.groups && g.id != gid
    ensures forall g :: multiset(r.groups)[g] == if g.id != gid then multiset(st.groups)[g] else 0
    ensures r.teachers == st.teachers
    ensures |r.students| == |st.students|
    ensures forall i :: 0 <= i < |st.students| ==>
      SameButGroup(r.students[i], st.students[i])
      && (st.students[i].groupId == Some(gid) ==> r.students[i].groupId == None)
      && (st.students[i].groupId != Some(gid) ==> r.students[i] == st.students[i])
    ensures |r.classes| == |st.classes|
    ensures forall i :: 0 <= i < |st.classes| ==>
      && SameButGroupIds(r.classes[i], st.classes[i])
      && r.classes[i].groupIds.Some?
      && IsSubseq(GroupIdsOf(r.classes[i]), GroupIdsOf(st.classes[i]))
      && forall y :: y != gid ==> multiset(GroupIdsOf(r.classes[i]))[y] == multiset(GroupIdsOf(st.classes[i]))[y]
  {
    State(UnlinkAll(st.students, gid), StripAll(st.classes, gid), DropGroup(st.groups, gid), st.teachers)
  }

  /** Deleting a group twice is deleting it once. */
  lemma DeleteGroupIdempotent(st: State, gid: string)
    ensures DeleteGroup(DeleteGroup(st, gid), gid) == DeleteGroup(st, gid)
  {
    var once := DeleteGroup(st, gid);
    var twice := DeleteGroup(once, gid);
    assert twice.groups == once.groups;
    assert twice.students == once.students;
    forall i | 0 <= i < |st.classes|
      ensures twice.classes[i] == once.classes[i]
    {
      RemoveAbsent(GroupIdsOf(once.classes[i]), gid);
    }
  }

  // ---------------------------------------------------------------------
  // queries

  /** `getGroupsForClass`: the groups whose `classIds` list the class, in order. */
  function GroupsForClass(st: State, classId: string): (r: seq<Group>)
    ensures IsSubseq(r, st.groups)
    ensures forall g :: multiset(r)[g] == if classId in g.classIds then multiset(st.groups)[g] else 0
  {
    Filter(st.groups, (g: Group) => classId in g.classIds)
  }

  /** `getGroupsForStudent`: the groups whose `studentIds` list the student, in order. */
  function GroupsForStudent(st: State, studentId: string): (r: seq<Group>)
    ensures IsSubseq(r, st.groups)
    ensures forall g :: multiset(r)[g] == if studentId in g.studentIds then multiset(st.groups)[g] else 0
  {
    Filter(st.groups, (g: Group) => studentId in g.studentIds)
  }

  /** `getGroupById`: the first group with this id, if any. */
  function GroupById(st: State, gid: string): (r: Option<Group>)
    ensures r.None? <==> forall i :: 0 <= i < |st.groups| ==> st.groups[i].id != gid
    ensures r.Some? ==> r.value.id == gid && r.value in st.groups
    ensures r.Some? ==> exists k :: 0 <= k < |st.groups| && st.groups[k] == r.value && forall j :: 0 <= j < k ==> st.groups[j].id != gid
  {
    FindGroup(st.groups, gid)
  }

  /** `getStudentsByClass`: the students whose `classId` matches, in order. */
  function StudentsByClass(st: State, classId: string): (r: seq<Student>)
    ensures IsSubseq(r, st.students)
    ensures forall s :: multiset(r)[s] == if s.classId == classId then multiset(st.students)[s] else 0
  {
    Filter(st.students, (s: Student) => s.classId == classId)
  }

  /** `getStudentsByGroup`: the students whose `groupId` matches, in order. */
  function StudentsByGroup(st: State, gid: string): (r: seq<Student>)
    ensures IsSubseq(r, st.students)
    ensures forall s :: multiset(r)[s] == if s.groupId == Some(gid) then multiset(st.students)[s] else 0
  {
    Filter(st.students, (s: Student) => s.groupId == Some(gid))
  }

  /** `students.find(s => s.id === id)`. */
  function FindStudent(students: seq<Student>, id: string): (r: Option<Student>)
    ensures r.None? <==> forall i :: 0 <= i < |students| ==> students[i].id != id
    ensures r.Some? ==> r.value.id == id && r.value in students
    ensures r.Some? ==> exists k :: 0 <= k < |students| && students[k] == r.value && forall j :: 0 <= j < k ==> students[j].id != id
  {
    Find(students, (s: Student) => s.id == id)
  }

  // ---------------------------------------------------------------------
  // addClass, addStudent(s), addTeacher

  /** `addClass`: one class appended, with an empty group list. */
  function AddClass(st: State, draft: ClassDraft, newId: string): (r: State)
    ensures r.classes == st.classes + [Class(newId, draft.name, draft.teacherId, draft.description, Some([]))]
    ensures r.students == st.students && r.groups == st.groups && r.teachers == st.teachers
  {
    st.(classes := st.classes + [Class(newId, draft.name, draft.teacherId, draft.description, Some([]))])
  }

  function NewStudent(draft: StudentDraft, id: string): Student {
    Student(id, draft.name, draft.email, draft.classId, None)
  }

  /** `addStudent`: one group-less student appended. */
  function AddStudent(st: State, draft: StudentDraft, newId: string): (r: State)
    ensures |r.students| == |st.students| + 1 && r.students[..|st.students|] == st.students
    ensures r.students[|st.students|] == Student(newId, draft.name, draft.email, draft.classId, None)
    ensures r.classes == st.classes && r.groups == st.groups && r.teachers == st.teachers
  {
    st.(students := st.students + [NewStudent(draft, newId)])
  }

  /** `addStudents`: the drafts become group-less students appended after
      the existing ones, in input order; `ids(i)` is the id generated for
      the i-th draft. */
  function AddStudents(st: State, drafts: seq<StudentDraft>, ids: nat -> string): (r: State)
    ensures |r.students| == |st.students| + |drafts|
    ensures r.students[..|st.students|] == st.students
    ensures forall i :: 0 <= i < |drafts| ==>
      r.students[|st.students| + i] == Student(ids(i), drafts[i].name, drafts[i].email, drafts[i].classId, None)
    ensures r.classes == st.classes && r.groups == st.groups && r.teachers == st.teachers
  {
    st.(students := st.students + seq(|drafts|, i requires 0 <= i < |drafts| => NewStudent(drafts[i], ids(i))))
  }

  /** `addTeacher`: one teacher appended. */
  function AddTeacher(st: State, draft: TeacherDraft, newId: string): (r: State)
    ensures r.teachers == st.teachers + [Teacher(newId, draft.name, draft.email)]
    ensures r.students == st.students && r.classes == st.classes && r.groups == st.groups
  {
    st.(teachers := st.teachers + [Teacher(newId, draft.name, draft.email)])
  }
}
