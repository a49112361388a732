/** The teacher dashboard hook (src/hooks/useTeacherDashboard.ts): the
    group/class/date selection, the lists it derives from the selection,
    and the guard on recording attendance.

    The hook reads the teacher's classes and groups and several lookups
    (`getStudentsByGroup`, `getAttendanceByClass`, …) from the data
    context; they are parameters here. */
module TeacherDashboard {
  import opened Base
  import opened Types
  import opened Engine
  import opened Membership

  /** `selectedGroupId`, `selectedClassId`, `selectedDate`; "" is "none". */
  datatype Selection = Selection(groupId: string, classId: string, date: string)

  /** Never a group and a class selected at the same time. */
  predicate Exclusive(sel: Selection) {
    sel.groupId == "" || sel.classId == ""
  }

  /** The initial selection: no group, the teacher's first class (or
      none), and today's date. */
  function InitialSelection(teacherClasses: seq<Class>, today: string): (r: Selection)
    ensures r.groupId == "" && r.date == today && Exclusive(r)
    ensures |teacherClasses| == 0 ==> r.classId == ""
    ensures |teacherClasses| > 0 ==> r.classId == teacherClasses[0].id
  {
    Selection("", if |teacherClasses| > 0 then teacherClasses[0].id else "", today)
  }

  /** A change of the selection. */
  datatype SelectionEvent = GroupChange(groupId: string) | ClassChange(classId: string) | DateChange(date: string)

  /** `handleGroupChange` clears the class, `handleClassChange` clears the
      group, `setSelectedDate` touches neither. */
  function Select(sel: Selection, e: SelectionEvent): (r: Selection)
    ensures e.GroupChange? ==> r.groupId == e.groupId && r.classId == "" && r.date == sel.date
    ensures e.ClassChange? ==> r.classId == e.classId && r.groupId == "" && r.date == sel.date
    ensures e.DateChange? ==> r.date == e.date && r.groupId == sel.groupId && r.classId == sel.classId
    ensures !e.DateChange? ==> Exclusive(r)
  {
    match e
    case GroupChange(g) => sel.(groupId := g, classId := "")
    case ClassChange(c) => sel.(classId := c, groupId := "")
    case DateChange(d) => sel.(date := d)
  }

  function SelectAll(sel: Selection, es: seq<SelectionEvent>): Selection
    decreases |es|
  {
    if |es| == 0 then sel else SelectAll(Select(sel, es[0]), es[1..])
  }

  /** From the initial selection, whatever the teacher does, a group and a
      class are never both selected. */
  lemma {:induction false} SelectionStaysExclusive(sel: Selection, es: seq<SelectionEvent>)
    requires Exclusive(sel)
    ensures Exclusive(SelectAll(sel, es))
    decreases |es|
  {
    if |es| > 0 {
      SelectionStaysExclusive(Select(sel, es[0]), es[1..]);
    }
  }

  lemma InitialStaysExclusive(teacherClasses: seq<Class>, today: string, es: seq<SelectionEvent>)
    ensures Exclusive(SelectAll(InitialSelection(teacherClasses, today), es))
  {
    SelectionStaysExclusive(InitialSelection(teacherClasses, today), es);
  }

  /** `filteredClasses`: all the teacher's classes without a group
      selection; otherwise those the selected group lists, in order, and
      none when the group is not among the teacher's groups. */
  function FilteredClasses(sel: Selection, teacherClasses: seq<Class>, teacherGroups: seq<Group>): (r: seq<Class>)
    ensures IsSubseq(r, teacherClasses)
    ensures sel.groupId == "" ==> r == teacherClasses
    ensures sel.groupId != "" && FindGroup(teacherGroups, sel.groupId).None? ==> r == []
    ensures sel.groupId != "" && FindGroup(teacherGroups, sel.groupId).Some? ==>
      forall c :: c in r <==> c in teacherClasses && c.id in FindGroup(teacherGroups, sel.groupId).value.classIds
    ensures sel.groupId != "" && FindGroup(teacherGroups, sel.groupId).Some? ==>
      forall c :: multiset(r)[c] == if c.id in FindGroup(teacherGroups, sel.groupId).value.classIds then multiset(teacherClasses)[c] else 0
  {
    if sel.groupId == "" then
      SubseqRefl(teacherClasses);
      teacherClasses
    else
      match FindGroup(teacherGroups, sel.groupId)
      case None =>
        var r := Filter(teacherClasses, (c: Class) => false);
        assert forall c :: c !in r;
        r
      case Some(g) => Filter(teacherClasses, (c: Class) => c.id in g.classIds)
  }

  /** Under the membership invariant, the classes shown for a group are the
      teacher's classes whose own `groupIds` list the group. */
  lemma FilteredClassesByClassIndex(st: State, sel: Selection, teacherClasses: seq<Class>, teacherGroups: seq<Group>)
    requires Consistent(st)
    requires sel.groupId != "" && FindGroup(teacherGroups, sel.groupId).Some?
    requires FindGroup(teacherGroups, sel.groupId).value in st.groups
    requires forall c :: c in teacherClasses ==> c in st.classes
    ensures forall c :: c in FilteredClasses(sel, teacherClasses, teacherGroups) <==>
      c in teacherClasses && sel.groupId in GroupIdsOf(c)
  {
    var g := FindGroup(teacherGroups, sel.groupId).value;
    var i :| 0 <= i < |st.groups| && st.groups[i] == g;
    forall c | c in teacherClasses
      ensures c.id in g.classIds <==> sel.groupId in GroupIdsOf(c)
    {
      var j :| 0 <= j < |st.classes| && st.classes[j] == c;
    }
  }

  /** `students`: from the group when one is selected, else from the class,
      else none. */
  function DisplayedStudents(sel: Selection, byGroup: string -> seq<Student>, byClass: string -> seq<Student>): (r: seq<Student>)
    ensures sel.groupId != "" ==> r == byGroup(sel.groupId)
    ensures sel.groupId == "" && sel.classId != "" ==> r == byClass(sel.classId)
    ensures sel.groupId == "" && sel.classId == "" ==> r == []
  {
    if sel.groupId != "" then byGroup(sel.groupId)
    else if sel.classId != "" then byClass(sel.classId)
    else []
  }

  /** `classAttendance`: the opposite precedence, class first. */
  function ClassAttendance(sel: Selection, byClass: string -> seq<AttendanceRecord>, byGroup: string -> seq<AttendanceRecord>): (r: seq<AttendanceRecord>)
    ensures sel.classId != "" ==> r == byClass(sel.classId)
    ensures sel.classId == "" && sel.groupId != "" ==> r == byGroup(sel.groupId)
    ensures sel.classId == "" && sel.groupId == "" ==> r == []
  {
    if sel.classId != "" then byClass(sel.classId)
    else if sel.groupId != "" then byGroup(sel.groupId)
    else []
  }

  /** With the provider's lookup, the students shown for a selected group
      are, under the invariant, exactly the existing students it lists. */
  lemma DisplayedGroupStudentsAreMembers(st: State, sel: Selection, i: nat)
    requires Consistent(st) && i < |st.groups| && sel.groupId == st.groups[i].id
    ensures forall s :: s in DisplayedStudents(sel, gid => StudentsByGroup(st, gid), cid => StudentsByClass(st, cid)) <==>
      s in st.students && s.id in st.groups[i].studentIds
  {
    StudentsByGroupAreMembers(st, i);
  }

  /** "group" or "class". */
  datatype ContextKind = GroupContext | ClassContext

  /** `contextType`: "group" iff a group is selected. */
  function ContextType(sel: Selection): (r: ContextKind)
    ensures r == GroupContext <==> sel.groupId != ""
  {
    if sel.groupId != "" then GroupContext else ClassContext
  }

  /** `contextId`: the group id when set, else the class id. */
  function ContextId(sel: Selection): (r: string)
    ensures sel.groupId != "" ==> r == sel.groupId
    ensures sel.groupId == "" ==> r == sel.classId
  {
    if sel.groupId != "" then sel.groupId else sel.classId
  }

  /** On every selection the handlers can reach, the students, the
      attendance and the statistics all come from the same context
      (`contextType`, `contextId`), despite their opposite precedence. */
  lemma ExclusiveContextsAgree(sel: Selection, byGroup: string -> seq<Student>, byClass: string -> seq<Student>,
                               attByClass: string -> seq<AttendanceRecord>, attByGroup: string -> seq<AttendanceRecord>,
                               statsOf: string -> AttendanceStats)
    requires Exclusive(sel) && ContextId(sel) != ""
    ensures DisplayedStudents(sel, byGroup, byClass) ==
      (if ContextType(sel) == GroupContext then byGroup(ContextId(sel)) else byClass(ContextId(sel)))
    ensures ClassAttendance(sel, attByClass, attByGroup) ==
      (if ContextType(sel) == GroupContext then attByGroup(ContextId(sel)) else attByClass(ContextId(sel)))
    ensures Stats(sel, statsOf) == statsOf(ContextId(sel))
  {
  }

  /** With both a group and a class selected (a state the handlers never
      produce), students come from the group but attendance from the class. */
  lemma BothSelectedMixesContexts(sel: Selection, byGroup: string -> seq<Student>, byClass: string -> seq<Student>,
                                  attByClass: string -> seq<AttendanceRecord>, attByGroup: string -> seq<AttendanceRecord>)
    requires sel.groupId != "" && sel.classId != ""
    ensures DisplayedStudents(sel, byGroup, byClass) == byGroup(sel.groupId)
    ensures ClassAttendance(sel, attByClass, attByGroup) == attByClass(sel.classId)
    ensures !Exclusive(sel)
  {
  }

  /** `todayAttendance`: the records dated exactly the selected date, in order. */
  function TodayAttendance(recs: seq<AttendanceRecord>, date: string): (r: seq<AttendanceRecord>)
    ensures IsSubseq(r, recs)
    ensures forall a :: multiset(r)[a] == if a.date == date then multiset(recs)[a] else 0
  {
    Filter(recs, (a: AttendanceRecord) => a.date == date)
  }

  /** Every record of the day is kept exactly once. */
  lemma TodayAttendanceComplete(recs: seq<AttendanceRecord>, date: string)
    ensures forall a :: a in TodayAttendance(recs, date) <==> a in recs && a.date == date
    ensures |TodayAttendance(recs, date)| == |recs| <==> forall i :: 0 <= i < |recs| ==> recs[i].date == date
  {
    var r := TodayAttendance(recs, date);
    if forall i :: 0 <= i < |recs| ==> recs[i].date == date {
      FilterKeepsAll(recs, (a: AttendanceRecord) => a.date == date);
    }
    if |r| == |recs| {
      FilterFull(recs, (a: AttendanceRecord) => a.date == date);
    }
  }

  /** `stats`: the statistics of the class, or else the group, selected;
      zeros with neither. */
  function Stats(sel: Selection, statsOf: string -> AttendanceStats): (r: AttendanceStats)
    ensures sel.classId != "" ==> r == statsOf(sel.classId)
    ensures sel.classId == "" && sel.groupId != "" ==> r == statsOf(sel.groupId)
    ensures sel.classId == "" && sel.groupId == "" ==> r == AttendanceStats(0, 0, 0, 0)
  {
    if sel.classId != "" then statsOf(sel.classId)
    else if sel.groupId != "" then statsOf(sel.groupId)
    else AttendanceStats(0, 0, 0, 0)
  }

  /** The mark `handleAttendanceChange` hands to `markAttendance`. */
  datatype Mark = Mark(studentId: string, classId: string, groupId: string, date: string, status: AttendanceStatus, notes: Option<string>)

  /** `handleAttendanceChange`: records only with a class or group and a
      date selected, carrying the current class, group and date. */
  function HandleAttendanceChange(sel: Selection, studentId: string, status: AttendanceStatus, notes: Option<string>): (r: Option<Mark>)
    ensures r.Some? <==> (sel.classId != "" || sel.groupId != "") && sel.date != ""
    ensures r.Some? ==> r.value.studentId == studentId && r.value.status == status && r.value.notes == notes
    ensures r.Some? ==> r.value.classId == sel.classId && r.value.groupId == sel.groupId && r.value.date == sel.date
  {
    if (sel.classId != "" || sel.groupId != "") && sel.date != "" then
      Some(Mark(studentId, sel.classId, sel.groupId, sel.date, status, notes))
    else None
  }

  /** A mark recorded on a reachable selection names exactly one of a class
      and a group: the one `contextId` names. */
  lemma MarkNamesContext(sel: Selection, studentId: string, status: AttendanceStatus, notes: Option<string>)
    requires Exclusive(sel)
    ensures var m := HandleAttendanceChange(sel, studentId, status, notes);
            m.Some? ==> (m.value.classId == "") != (m.value.groupId == "") && ContextId(sel) in {m.value.classId, m.value.groupId}
  {
  }
}
