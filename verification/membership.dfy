/** The membership consistency invariant of the data provider's state and
    the proofs that the provider's mutations keep it, given the conditions
    its callers check first (AdminDashboard proves that the callers' guards
    establish them).

    The invariant ties the three cross-references together:
    `Student.groupId`, `Group.studentIds`/`classIds` and `Class.groupIds`. */
module Membership {
  import opened Base
  import opened Types
  import opened Engine

  predicate GroupIdsDistinct(gs: seq<Group>) {
    forall i, j :: 0 <= i < |gs| && 0 <= j < |gs| && gs[i].id == gs[j].id ==> i == j
  }

  predicate StudentIdsDistinct(ss: seq<Student>) {
    forall i, j :: 0 <= i < |ss| && 0 <= j < |ss| && ss[i].id == ss[j].id ==> i == j
  }

  /** Group ids are never the empty string, so a student pointing at a group is "in a group" in the JavaScript sense. */
  predicate GroupIdsNonEmpty(gs: seq<Group>) {
    forall i :: 0 <= i < |gs| ==> gs[i].id != ""
  }

  /** Every existing student a group lists points back at that group. */
  predicate ListedPointBack(st: State) {
    forall i, j :: 0 <= i < |st.groups| && 0 <= j < |st.students| && st.students[j].id in st.groups[i].studentIds ==>
      st.students[j].groupId == Some(st.groups[i].id)
  }

  /** Every student pointing at an existing group is listed by it. */
  predicate LinkedAreListed(st: State) {
    forall i, j :: 0 <= i < |st.groups| && 0 <= j < |st.students| && st.students[j].groupId == Some(st.groups[i].id) ==>
      st.students[j].id in st.groups[i].studentIds
  }

  /** `Class.groupIds` is the inverse of `Group.classIds` on existing classes and groups. */
  predicate ClassIndexInverse(st: State) {
    forall i, j :: 0 <= i < |st.groups| && 0 <= j < |st.classes| ==>
      (st.classes[j].id in st.groups[i].classIds <==> st.groups[i].id in GroupIdsOf(st.classes[j]))
  }

  predicate Consistent(st: State) {
    && GroupIdsDistinct(st.groups)
    && GroupIdsNonEmpty(st.groups)
    && StudentIdsDistinct(st.students)
    && ListedPointBack(st)
    && LinkedAreListed(st)
    && ClassIndexInverse(st)
  }

  /** A generated id that occurs nowhere in the state. */
  predicate Fresh(st: State, id: string) {
    && id != ""
    && (forall j :: 0 <= j < |st.students| ==> st.students[j].id != id && st.students[j].groupId != Some(id))
    && (forall j :: 0 <= j < |st.classes| ==> st.classes[j].id != id && id !in GroupIdsOf(st.classes[j]))
    && (forall i :: 0 <= i < |st.groups| ==> st.groups[i].id != id && id !in st.groups[i].studentIds && id !in st.groups[i].classIds)
  }

  /** The state the provider starts from holds nothing, and is consistent. */
  lemma EmptyConsistent()
    ensures Consistent(State([], [], [], []))
  {
  }

  /** At most one group per student: two groups listing the same existing
      student are the same group. */
  lemma AtMostOneGroup(st: State, j: nat, i1: nat, i2: nat)
    requires Consistent(st)
    requires j < |st.students| && i1 < |st.groups| && i2 < |st.groups|
    requires st.students[j].id in st.groups[i1].studentIds && st.students[j].id in st.groups[i2].studentIds
    ensures i1 == i2
  {
  }

  /** Under the invariant, the students whose `groupId` names a group are
      exactly the existing students that group lists. */
  lemma StudentsByGroupAreMembers(st: State, i: nat)
    requires Consistent(st) && i < |st.groups|
    ensures forall s :: s in StudentsByGroup(st, st.groups[i].id) <==> s in st.students && s.id in st.groups[i].studentIds
  {
    var g := st.groups[i];
    forall s
      ensures s in StudentsByGroup(st, g.id) <==> s in st.students && s.id in g.studentIds
    {
      if s in st.students {
        var j :| 0 <= j < |st.students| && st.students[j] == s;
        assert s.groupId == Some(g.id) ==> s.id in g.studentIds;
        assert s.id in g.studentIds ==> s.groupId == Some(g.id);
      }
    }
  }

  /** With distinct group ids, `getGroupById` finds every stored group by
      its own id. */
  lemma GroupByIdFindsEach(st: State, i: nat)
    requires GroupIdsDistinct(st.groups) && i < |st.groups|
    ensures GroupById(st, st.groups[i].id) == Some(st.groups[i])
  {
    var r := GroupById(st, st.groups[i].id);
    var k :| 0 <= k < |st.groups| && st.groups[k] == r.value;
    assert k == i;
  }

  // ---------------------------------------------------------------------
  // addGroup

  /** The condition the callers' guards establish before `addGroup`: no
      listed existing student already has a group. */
  predicate ListedAreFree(st: State, listed: seq<string>) {
    forall j :: 0 <= j < |st.students| && st.students[j].id in listed ==> !HasGroup(st.students[j])
  }

  lemma AddGroupPreserves(st: State, draft: GroupDraft, newId: string, now: string)
    requires Consistent(st) && Fresh(st, newId) && ListedAreFree(st, draft.studentIds)
    ensures Consistent(AddGroup(st, draft, newId, now))
  {
    var r := AddGroup(st, draft, newId, now);
    var n := |st.groups|;
    assert forall j :: 0 <= j < |st.students| ==> r.students[j].id == st.students[j].id;
    assert forall i :: 0 <= i < n ==> r.groups[i] == st.groups[i];
    assert r.groups[n].id == newId;
    forall i, j | 0 <= i < |r.groups| && 0 <= j < |r.students| && r.students[j].id in r.groups[i].studentIds
      ensures r.students[j].groupId == Some(r.groups[i].id)
    {
      if i < n {
        assert HasGroup(st.students[j]);
      }
    }
    forall i, j | 0 <= i < |r.groups| && 0 <= j < |r.students| && r.students[j].groupId == Some(r.groups[i].id)
      ensures r.students[j].id in r.groups[i].studentIds
    {
    }
    forall i, j | 0 <= i < |r.groups| && 0 <= j < |r.classes|
      ensures r.classes[j].id in r.groups[i].classIds <==> r.groups[i].id in GroupIdsOf(r.classes[j])
    {
      if st.classes[j].id in draft.classIds {
        assert GroupIdsOf(r.classes[j]) == GroupIdsOf(st.classes[j]) + [newId];
      }
    }
  }

  // ---------------------------------------------------------------------
  // updateGroup

  /** The condition the callers' guards establish before `updateGroup`:
      every existing student newly added to the group either has no group
      or already points at this one. */
  predicate AddsAreFree(st: State, gid: string, u: GroupUpdate) {
    match FindGroup(st.groups, gid)
    case None => true
    case Some(prior) =>
      u.studentIds.Some? ==>
        forall j :: 0 <= j < |st.students| && st.students[j].id in u.studentIds.value && st.students[j].id !in prior.studentIds ==>
          !HasGroup(st.students[j]) || st.students[j].groupId == Some(gid)
  }

  /** The index of the group `FindGroup` returns; under distinct ids, the only one with that id. */
  lemma FoundIndex(st: State, gid: string) returns (k: nat)
    requires GroupIdsDistinct(st.groups) && FindGroup(st.groups, gid).Some?
    ensures k < |st.groups| && st.groups[k] == FindGroup(st.groups, gid).value
    ensures forall i :: 0 <= i < |st.groups| && st.groups[i].id == gid ==> i == k
  {
    k :| 0 <= k < |st.groups| && st.groups[k] == FindGroup(st.groups, gid).value;
  }

  lemma UpdateGroupStudentsConsistent(st: State, gid: string, u: GroupUpdate, now: string)
    requires Consistent(st) && AddsAreFree(st, gid, u)
    ensures ListedPointBack(UpdateGroup(st, gid, u, now)) && LinkedAreListed(UpdateGroup(st, gid, u, now))
  {
    UpdateGroupPointBack(st, gid, u, now);
    UpdateGroupLinkedAreListed(st, gid, u, now);
  }

  lemma UpdateGroupPointBack(st: State, gid: string, u: GroupUpdate, now: string)
    requires Consistent(st) && AddsAreFree(st, gid, u)
    ensures ListedPointBack(UpdateGroup(st, gid, u, now))
  {
    var r := UpdateGroup(st, gid, u, now);
    if FindGroup(st.groups, gid).None? {
      return;
    }
    var k := FoundIndex(st, gid);
    var prior := st.groups[k];
    if u.studentIds.None? {
      assert r.students == st.students;
      assert forall i :: 0 <= i < |st.groups| ==> r.groups[i].studentIds == st.groups[i].studentIds && r.groups[i].id == st.groups[i].id;
      return;
    }
    var newIds := u.studentIds.value;
    assert r.groups[k].studentIds == newIds;
    forall i, j | 0 <= i < |r.groups| && 0 <= j < |r.students| && r.students[j].id in r.groups[i].studentIds
      ensures r.students[j].groupId == Some(r.groups[i].id)
    {
      var s := st.students[j];
      if i != k {
        assert r.groups[i] == st.groups[i];
        assert s.groupId == Some(st.groups[i].id);
        assert HasGroup(s);
        assert s.id !in prior.studentIds;
      } else if s.id in prior.studentIds {
        assert s.groupId == Some(gid);
      }
    }
  }

  lemma UpdateGroupLinkedAreListed(st: State, gid: string, u: GroupUpdate, now: string)
    requires Consistent(st)
    ensures LinkedAreListed(UpdateGroup(st, gid, u, now))
  {
    var r := UpdateGroup(st, gid, u, now);
    if FindGroup(st.groups, gid).None? {
      return;
    }
    var k := FoundIndex(st, gid);
    var prior := st.groups[k];
    if u.studentIds.None? {
      assert r.students == st.students;
      assert forall i :: 0 <= i < |st.groups| ==> r.groups[i].studentIds == st.groups[i].studentIds && r.groups[i].id == st.groups[i].id;
      return;
    }
    assert r.groups[k].studentIds == u.studentIds.value;
    forall i, j | 0 <= i < |r.groups| && 0 <= j < |r.students| && r.students[j].groupId == Some(r.groups[i].id)
      ensures r.students[j].id in r.groups[i].studentIds
    {
      var s := st.students[j];
      if i != k {
        assert r.groups[i] == st.groups[i];
        assert r.students[j] == s;
      } else if r.students[j] == s {
        assert s.id in prior.studentIds;
      }
    }
  }

  /** One class and one group after `updateGroup`: the class lists the group
      iff the group lists the class. */
  lemma UpdateGroupClassPair(st: State, gid: string, u: GroupUpdate, now: string, k: nat, i: nat, j: nat)
    requires Consistent(st) && FindGroup(st.groups, gid).Some? && u.classIds.Some?
    requires k < |st.groups| && st.groups[k] == FindGroup(st.groups, gid).value
    requires forall i' :: 0 <= i' < |st.groups| && st.groups[i'].id == gid ==> i' == k
    requires i < |st.groups| && j < |st.classes|
    ensures var r := UpdateGroup(st, gid, u, now);
            r.classes[j].id in r.groups[i].classIds <==> r.groups[i].id in GroupIdsOf(r.classes[j])
  {
    var r := UpdateGroup(st, gid, u, now);
    var prior := st.groups[k];
    var newIds := u.classIds.value;
    var c := st.classes[j];
    var before := GroupIdsOf(c);
    var after := GroupIdsOf(r.classes[j]);
    var x := st.groups[i].id;
    assert r.groups[i].id == x;
    // the class's list changes only in occurrences of `gid`
    assert x != gid ==> (x in after <==> x in before) by {
      if x != gid && c.id in prior.classIds && c.id !in newIds {
        assert multiset(after)[x] == multiset(before)[x];
      }
    }
    if i != k {
      assert r.groups[i] == st.groups[i];
    }
  }

  lemma UpdateGroupClassesConsistent(st: State, gid: string, u: GroupUpdate, now: string)
    requires Consistent(st)
    ensures ClassIndexInverse(UpdateGroup(st, gid, u, now))
  {
    var r := UpdateGroup(st, gid, u, now);
    if FindGroup(st.groups, gid).None? {
      return;
    }
    var k := FoundIndex(st, gid);
    if u.classIds.None? {
      assert r.classes == st.classes;
      assert forall i :: 0 <= i < |st.groups| ==> r.groups[i].classIds == st.groups[i].classIds && r.groups[i].id == st.groups[i].id;
      return;
    }
    forall i, j | 0 <= i < |r.groups| && 0 <= j < |r.classes|
      ensures r.classes[j].id in r.groups[i].classIds <==> r.groups[i].id in GroupIdsOf(r.classes[j])
    {
      UpdateGroupClassPair(st, gid, u, now, k, i, j);
    }
  }

  lemma UpdateGroupPreserves(st: State, gid: string, u: GroupUpdate, now: string)
    requires Consistent(st) && AddsAreFree(st, gid, u)
    ensures Consistent(UpdateGroup(st, gid, u, now))
  {
    var r := UpdateGroup(st, gid, u, now);
    assert forall i :: 0 <= i < |st.groups| ==> r.groups[i].id == st.groups[i].id;
    assert forall j :: 0 <= j < |st.students| ==> r.students[j].id == st.students[j].id;
    UpdateGroupStudentsConsistent(st, gid, u, now);
    UpdateGroupClassesConsistent(st, gid, u, now);
  }

  // ---------------------------------------------------------------------
  // deleteGroup

  /** A subsequence of a list with distinct group ids has distinct group ids. */
  lemma {:induction false} SubseqKeepsIdsDistinct(a: seq<Group>, b: seq<Group>)
    requires IsSubseq(a, b) && GroupIdsDistinct(b)
    ensures GroupIdsDistinct(a)
    decreases |b|
  {
    if |a| == 0 {
      return;
    }
    assert GroupIdsDistinct(b[1..]) by {
      forall x, y | 0 <= x < |b[1..]| && 0 <= y < |b[1..]| && b[1..][x].id == b[1..][y].id
        ensures x == y
      {
        assert b[x + 1].id == b[y + 1].id;
      }
    }
    if a[0] == b[0] && IsSubseq(a[1..], b[1..]) {
      SubseqKeepsIdsDistinct(a[1..], b[1..]);
      SubseqMembers(a[1..], b[1..]);
      forall m | 1 <= m < |a|
        ensures a[m].id != a[0].id
      {
        assert a[m] == a[1..][m - 1] && a[m] in b[1..];
        var m0 :| 0 <= m0 < |b[1..]| && b[1..][m0] == a[m];
        assert b[m0 + 1] == a[m];
      }
      forall x, y | 0 <= x < |a| && 0 <= y < |a| && a[x].id == a[y].id
        ensures x == y
      {
        if x > 0 && y > 0 {
          assert a[1..][x - 1].id == a[1..][y - 1].id;
        }
      }
    } else {
      SubseqKeepsIdsDistinct(a, b[1..]);
    }
  }

  lemma DeleteGroupPreserves(st: State, gid: string)
    requires Consistent(st)
    ensures Consistent(DeleteGroup(st, gid))
  {
    var r := DeleteGroup(st, gid);
    assert forall j :: 0 <= j < |st.students| ==> r.students[j].id == st.students[j].id;
    SubseqKeepsIdsDistinct(r.groups, st.groups);
    SubseqMembers(r.groups, st.groups);
    DeleteGroupLinks(st, gid);
  }

  lemma DeleteGroupLinks(st: State, gid: string)
    requires Consistent(st)
    ensures ListedPointBack(DeleteGroup(st, gid)) && LinkedAreListed(DeleteGroup(st, gid)) && ClassIndexInverse(DeleteGroup(st, gid))
  {
    DeleteGroupPointBack(st, gid);
    DeleteGroupLinkedAreListed(st, gid);
    DeleteGroupClassIndex(st, gid);
  }

  lemma DeleteGroupPointBack(st: State, gid: string)
    requires Consistent(st)
    ensures ListedPointBack(DeleteGroup(st, gid))
  {
    var r := DeleteGroup(st, gid);
    forall i, j | 0 <= i < |r.groups| && 0 <= j < |r.students| && r.students[j].id in r.groups[i].studentIds
      ensures r.students[j].groupId == Some(r.groups[i].id)
    {
      assert r.groups[i] in st.groups;
      var i0 :| 0 <= i0 < |st.groups| && st.groups[i0] == r.groups[i];
      assert st.students[j].groupId == Some(st.groups[i0].id);
    }
  }

  lemma DeleteGroupLinkedAreListed(st: State, gid: string)
    requires Consistent(st)
    ensures LinkedAreListed(DeleteGroup(st, gid))
  {
    var r := DeleteGroup(st, gid);
    forall i, j | 0 <= i < |r.groups| && 0 <= j < |r.students| && r.students[j].groupId == Some(r.groups[i].id)
      ensures r.students[j].id in r.groups[i].studentIds
    {
      assert r.groups[i] in st.groups;
      var i0 :| 0 <= i0 < |st.groups| && st.groups[i0] == r.groups[i];
      assert r.students[j] == st.students[j];
    }
  }

  lemma DeleteGroupClassIndex(st: State, gid: string)
    requires Consistent(st)
    ensures ClassIndexInverse(DeleteGroup(st, gid))
  {
    var r := DeleteGroup(st, gid);
    forall i, j | 0 <= i < |r.groups| && 0 <= j < |r.classes|
      ensures r.classes[j].id in r.groups[i].classIds <==> r.groups[i].id in GroupIdsOf(r.classes[j])
    {
      assert r.groups[i] in st.groups;
      var i0 :| 0 <= i0 < |st.groups| && st.groups[i0] == r.groups[i];
      var x := r.groups[i].id;
      assert multiset(GroupIdsOf(r.classes[j]))[x] == multiset(GroupIdsOf(st.classes[j]))[x];
    }
  }

  // ---------------------------------------------------------------------
  // addClass, addStudent(s), addTeacher

  lemma AddClassPreserves(st: State, draft: ClassDraft, newId: string)
    requires Consistent(st) && Fresh(st, newId)
    ensures Consistent(AddClass(st, draft, newId))
  {
  }

  lemma AddStudentPreserves(st: State, draft: StudentDraft, newId: string)
    requires Consistent(st) && Fresh(st, newId)
    ensures Consistent(AddStudent(st, draft, newId))
  {
    var r := AddStudent(st, draft, newId);
    var n := |st.students|;
    assert forall j :: 0 <= j < n ==> r.students[j] == st.students[j];
  }

  /** The generated ids are fresh and pairwise distinct. */
  predicate FreshIds(st: State, ids: nat -> string, count: nat) {
    && (forall i :: 0 <= i < count ==> Fresh(st, ids(i)))
    && (forall i, j :: 0 <= i < count && 0 <= j < count && ids(i) == ids(j) ==> i == j)
  }

  lemma AddStudentsPreserves(st: State, drafts: seq<StudentDraft>, ids: nat -> string)
    requires Consistent(st) && FreshIds(st, ids, |drafts|)
    ensures Consistent(AddStudents(st, drafts, ids))
  {
    var r := AddStudents(st, drafts, ids);
    var n := |st.students|;
    forall j | 0 <= j < |r.students|
      ensures j < n ==> r.students[j] == st.students[j]
      ensures n <= j ==> r.students[j].id == ids(j - n) && Fresh(st, ids(j - n)) && r.students[j].groupId == None
    {
      if j < n {
        assert r.students[j] == r.students[..n][j];
      }
    }
    forall i, j | 0 <= i < |r.groups| && 0 <= j < |r.students| && r.students[j].id in r.groups[i].studentIds
      ensures r.students[j].groupId == Some(r.groups[i].id)
    {
    }
    forall i, j | 0 <= i < |r.groups| && 0 <= j < |r.students| && r.students[j].groupId == Some(r.groups[i].id)
      ensures r.students[j].id in r.groups[i].studentIds
    {
    }
    AddStudentsIdsDistinct(st, drafts, ids);
  }

  lemma AddStudentsIdsDistinct(st: State, drafts: seq<StudentDraft>, ids: nat -> string)
    requires StudentIdsDistinct(st.students) && FreshIds(st, ids, |drafts|)
    ensures StudentIdsDistinct(AddStudents(st, drafts, ids).students)
  {
    var r := AddStudents(st, drafts, ids).students;
    var n := |st.students|;
    forall a | n <= a < |r|
      ensures r[a].id == ids(a - n) && Fresh(st, ids(a - n))
    {
    }
    forall a | 0 <= a < n
      ensures r[a] == st.students[a]
    {
    }
  }

  lemma AddTeacherPreserves(st: State, draft: TeacherDraft, newId: string)
    requires Consistent(st)
    ensures Consistent(AddTeacher(st, draft, newId))
  {
  }
}
