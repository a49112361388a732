/** The teacher's group list (src/components/teacher/GroupView.tsx): which
    groups are shown for the selected class and which member names each
    group shows. */
module GroupView {
  import opened Base
  import opened Types
  import opened Engine
  import opened Membership

  /** `filteredGroups`: every group when no class is selected, otherwise
      the groups whose `classIds` list the class, in their original order. */
  function FilteredGroups(groups: seq<Group>, selectedClassId: string): (r: seq<Group>)
    ensures IsSubseq(r, groups)
    ensures selectedClassId == "" ==> r == groups
    ensures selectedClassId != "" ==>
      forall g :: multiset(r)[g] == if selectedClassId in g.classIds then multiset(groups)[g] else 0
  {
    if selectedClassId == "" then
      SubseqRefl(groups);
      groups
    else
      Filter(groups, (g: Group) => selectedClassId in g.classIds)
  }

  /** Under the membership invariant, the groups shown for an existing
      class are exactly the groups named in that class's own `groupIds`. */
  lemma FilteredGroupsByClassIndex(st: State, j: nat)
    requires Consistent(st) && j < |st.classes| && st.classes[j].id != ""
    ensures forall g :: g in FilteredGroups(st.groups, st.classes[j].id) <==>
      g in st.groups && g.id in GroupIdsOf(st.classes[j])
  {
    var c := st.classes[j];
    forall g | g in st.groups
      ensures c.id in g.classIds <==> g.id in GroupIdsOf(c)
    {
      var i :| 0 <= i < |st.groups| && st.groups[i] == g;
    }
  }

  /** Some student has this id. */
  predicate Known(students: seq<Student>, id: string) {
    FindStudent(students, id).Some?
  }

  /** The member list of a group card: for each listed id, in order, the
      first student with that id; ids with no student are skipped. */
  function ResolveStudents(ids: seq<string>, students: seq<Student>): (r: seq<Student>)
    ensures IsSubseq(StudentIds(r), ids)
    ensures forall id :: id in StudentIds(r) <==> id in ids && Known(students, id)
    ensures forall id :: multiset(StudentIds(r))[id] == if Known(students, id) then multiset(ids)[id] else 0
    ensures forall k :: 0 <= k < |r| ==> r[k] in students && FindStudent(students, r[k].id) == Some(r[k])
  {
    ResolveAll(Filter(ids, (id: string) => Known(students, id)), students)
  }

  /** The first student of each id, for ids that all have one. */
  function ResolveAll(found: seq<string>, students: seq<Student>): (r: seq<Student>)
    requires forall id :: id in found ==> Known(students, id)
    ensures StudentIds(r) == found
    ensures forall k :: 0 <= k < |r| ==> r[k] in students && FindStudent(students, r[k].id) == Some(r[k])
  {
    assert forall k :: 0 <= k < |found| ==> FindStudent(students, found[k]).Some? by {
      forall k | 0 <= k < |found|
        ensures FindStudent(students, found[k]).Some?
      {
        assert found[k] in found;
        assert Known(students, found[k]);
      }
    }
    seq(|found|, k requires 0 <= k < |found| => FindStudent(students, found[k]).value)
  }

  /** The ids of a list of students, in order. */
  function StudentIds(ss: seq<Student>): (r: seq<string>)
    ensures |r| == |ss| && forall i :: 0 <= i < |ss| ==> r[i] == ss[i].id
  {
    seq(|ss|, i requires 0 <= i < |ss| => ss[i].id)
  }

  /** Under the invariant, every name a group card shows is a student that
      belongs to that group. */
  lemma ResolvedAreMembers(st: State, i: nat)
    requires Consistent(st) && i < |st.groups|
    ensures forall s :: s in ResolveStudents(st.groups[i].studentIds, st.students) ==> s.groupId == Some(st.groups[i].id)
  {
    var g := st.groups[i];
    forall s | s in ResolveStudents(g.studentIds, st.students)
      ensures s.groupId == Some(g.id)
    {
      var j :| 0 <= j < |st.students| && st.students[j] == s;
    }
  }
}
