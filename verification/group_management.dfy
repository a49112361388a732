/** The group management panel (src/components/admin/GroupMangement.tsx)
    and how the admin page wires it to the admin hook
    (src/pages/AdminDashboard.tsx).

    The panel keeps its own form (`newGroup`) and the id of the group being
    edited. It runs its own membership check before calling the hook, and
    the hook checks again before calling the data provider.

    Four behaviours of the code as written are modelled next to their
    corrected forms:
    - creating from the panel: the page passes the hook's argument-less
      `handleAddGroup`, which reads the hook's own form, never the panel's;
    - the edit handlers: in edit mode every change starts from the stored
      group, not from the form, so earlier changes are lost;
    - entering edit mode: the form is not loaded from the group, so saving
      an untouched edit submits whatever the form last held;
    - opening the dialog for an edit: the "Edit" button's synthetic click
      either misses the dialog or goes through the create trigger, which
      leaves edit mode, so the dialog never shows in edit mode. The two
      edit-mode behaviours above matter once that is corrected. */
module GroupManagement {
  import opened Base
  import opened Text
  import opened Types
  import opened Engine
  import opened Membership
  import opened AdminDashboard

  /** The panel's state: its form and `editingGroupId` (`null` is `None`). */
  datatype Panel = Panel(form: GroupDraft, editingGroupId: Option<string>)

  const InitialPanel := Panel(EmptyGroupForm, None)

  /** `editingGroupId` is truthy. */
  predicate Editing(p: Panel) {
    p.editingGroupId.Some? && p.editingGroupId.value != ""
  }

  /** `editingGroup`: the stored group with the edited id, when editing. */
  function EditingGroup(p: Panel, groups: seq<Group>): (r: Option<Group>)
    ensures r.Some? ==> Editing(p) && r.value in groups && r.value.id == p.editingGroupId.value
    ensures r.Some? ==> exists k :: 0 <= k < |groups| && groups[k] == r.value && forall j :: 0 <= j < k ==> groups[j].id != p.editingGroupId.value
    ensures r.None? <==> !Editing(p) || forall g :: g in groups ==> g.id != p.editingGroupId.value
  {
    if Editing(p) then FindGroup(groups, p.editingGroupId.value) else None
  }

  /** The four form fields of a stored group. */
  function DraftOf(g: Group): GroupDraft {
    GroupDraft(g.name, g.description, g.studentIds, g.classIds)
  }

  // ---------------------------------------------------------------------
  // submitting

  /** What a panel button hands to the hook. */
  datatype Submission =
    | NoSubmission
    | Conflict(ids: seq<string>)
    | CreateSubmitted(draft: GroupDraft)
    | UpdateSubmitted(gid: string, update: GroupUpdate)

  datatype PanelStep = PanelStep(submission: Submission, panel: Panel)

  /** The panel's `handleCreateGroup`. Unlike the hook, it checks for
      members of other groups BEFORE looking at the name and classes, and it
      lists the offending ids. */
  function PanelCreate(students: seq<Student>, p: Panel): (r: PanelStep)
    ensures r.submission.Conflict? <==> exists id :: id in p.form.studentIds && InGroup(students, id)
    ensures r.submission.Conflict? ==> r.submission.ids == CreateConflicts(students, p.form.studentIds) && r.panel == p
    ensures r.submission.CreateSubmitted? <==>
      (forall id :: id in p.form.studentIds ==> !InGroup(students, id)) && HasContent(p.form.name) && |p.form.classIds| > 0
    ensures r.submission.CreateSubmitted? ==> r.submission.draft == p.form && r.panel == p.(form := EmptyGroupForm)
    ensures r.submission.NoSubmission? ==> r.panel == p
    ensures !r.submission.UpdateSubmitted?
  {
    var conflicts := CreateConflicts(students, p.form.studentIds);
    if |conflicts| > 0 then
      assert conflicts[0] in conflicts;
      PanelStep(Conflict(conflicts), p)
    else if Trim(p.form.name) != "" && |p.form.classIds| > 0 then
      PanelStep(CreateSubmitted(p.form), p.(form := EmptyGroupForm))
    else
      PanelStep(NoSubmission, p)
  }

  /** The panel's `handleUpdateGroup`: only when editing a group that
      exists; newly added students must not belong to another group; on
      success all four fields are submitted and the panel leaves edit mode
      with an empty form. */
  function PanelUpdate(st: State, p: Panel): (r: PanelStep)
    ensures r.submission.UpdateSubmitted? <==>
      Editing(p) && FindGroup(st.groups, p.editingGroupId.value).Some? &&
      forall id :: id in p.form.studentIds && id !in FindGroup(st.groups, p.editingGroupId.value).value.studentIds
        ==> !InOtherGroup(st.students, id, p.editingGroupId.value)
    ensures r.submission.UpdateSubmitted? ==>
      && r.submission.gid == p.editingGroupId.value
      && r.submission.update == GroupUpdate(Some(p.form.name), p.form.description, Some(p.form.studentIds), Some(p.form.classIds))
      && r.panel == InitialPanel
    ensures !r.submission.UpdateSubmitted? ==> r.panel == p
    ensures !r.submission.CreateSubmitted?
  {
    if !Editing(p) then PanelStep(NoSubmission, p)
    else
      var gid := p.editingGroupId.value;
      match FindGroup(st.groups, gid)
      case None => PanelStep(NoSubmission, p)
      case Some(prior) =>
        var conflicts := UpdateConflicts(st.students, prior, p.form.studentIds);
        if |conflicts| > 0 then
          assert conflicts[0] in conflicts;
          PanelStep(Conflict(conflicts), p)
        else
          PanelStep(UpdateSubmitted(gid, GroupUpdate(Some(p.form.name), p.form.description, Some(p.form.studentIds), Some(p.form.classIds))), InitialPanel)
  }

  // ---------------------------------------------------------------------
  // create, as wired and corrected

  /** "Create Group" as the page wires it: the panel calls
      `onCreateGroup(newGroup)`, but `onCreateGroup` is the hook's
      `handleAddGroup`, which ignores its argument and reads the hook's own
      form. Nothing on the page writes that form, so it keeps its initial
      empty value. */
  function CreateAsWired(st: State, p: Panel, newId: string, now: string): (r: (State, Panel))
    ensures r.1 == PanelCreate(st.students, p).panel
  {
    var step := PanelCreate(st.students, p);
    if step.submission.CreateSubmitted? then
      (After(HandleAddGroup(st, EmptyGroupForm, newId, now).outcome, st), step.panel)
    else
      (st, step.panel)
  }

  /** As wired, creating a group from the panel never changes the data. */
  lemma CreateAsWiredNeverAdds(st: State, p: Panel, newId: string, now: string)
    ensures CreateAsWired(st, p, newId, now).0 == st
  {
    assert !HasContent(EmptyGroupForm.name);
  }

  /** A valid request the panel accepts and clears, yet no group appears. */
  lemma CreateAsWiredLosesGroup()
    ensures var st := State([], [], [], []);
            var p := Panel(GroupDraft("Math", Some(""), [], ["c1"]), None);
            && PanelCreate(st.students, p).submission.CreateSubmitted?
            && CreateAsWired(st, p, "g1", "2024-01-01").1.form == EmptyGroupForm
            && CreateAsWired(st, p, "g1", "2024-01-01").0.groups == []
  {
    var st := State([], [], [], []);
    var p := Panel(GroupDraft("Math", Some(""), [], ["c1"]), None);
    assert !IsWhitespace(p.form.name[0]);
    CreateAsWiredNeverAdds(st, p, "g1", "2024-01-01");
  }

  /** "Create Group" with the panel's form passed through to the hook. */
  function CreateCorrected(st: State, p: Panel, newId: string, now: string): (r: (State, Panel))
    ensures r.1 == PanelCreate(st.students, p).panel
    ensures PanelCreate(st.students, p).submission.CreateSubmitted? ==> r.0 == AddGroup(st, p.form, newId, now)
    ensures !PanelCreate(st.students, p).submission.CreateSubmitted? ==> r.0 == st
  {
    var step := PanelCreate(st.students, p);
    if step.submission.CreateSubmitted? then
      (After(HandleAddGroup(st, step.submission.draft, newId, now).outcome, st), step.panel)
    else
      (st, step.panel)
  }

  /** Corrected, an accepted request appends exactly one group with the
      form's fields and keeps the membership invariant. */
  lemma CreateCorrectedAdds(st: State, p: Panel, newId: string, now: string)
    requires Consistent(st) && Fresh(st, newId)
    ensures Consistent(CreateCorrected(st, p, newId, now).0)
    ensures PanelCreate(st.students, p).submission.CreateSubmitted? ==>
      CreateCorrected(st, p, newId, now).0.groups ==
        st.groups + [Group(newId, p.form.name, p.form.description, p.form.studentIds, p.form.classIds, Some(now), None)]
  {
    var step := PanelCreate(st.students, p);
    if step.submission.CreateSubmitted? {
      HandleAddGroupPreserves(st, p.form, newId, now);
    }
  }

  // ---------------------------------------------------------------------
  // update, as wired

  /** "Update Group": the panel's check, then the hook's. */
  function UpdateWired(st: State, p: Panel, now: string): (r: (State, Panel))
    ensures r.1 == PanelUpdate(st, p).panel
  {
    var step := PanelUpdate(st, p);
    match step.submission
    case UpdateSubmitted(gid, u) => (After(HandleUpdateGroup(st, gid, u, now), st), step.panel)
    case _ => (st, step.panel)
  }

  /** The hook never refuses an update the panel accepted, and the wired
      update keeps the membership invariant. */
  lemma UpdateWiredApplies(st: State, p: Panel, now: string)
    requires Consistent(st)
    ensures PanelUpdate(st, p).submission.UpdateSubmitted? ==>
      UpdateWired(st, p, now).0 == UpdateGroup(st, p.editingGroupId.value, PanelUpdate(st, p).submission.update, now)
    ensures Consistent(UpdateWired(st, p, now).0)
  {
    var step := PanelUpdate(st, p);
    if step.submission.UpdateSubmitted? {
      var u := step.submission.update;
      var o := HandleUpdateGroup(st, step.submission.gid, u, now);
      assert !o.Rejected?;
      HandleUpdateGroupPreserves(st, step.submission.gid, u, now);
    }
  }

  // ---------------------------------------------------------------------
  // form edits

  /** One change in the dialog: typing a name or description, choosing a
      class or student in a select (which toggles it), or removing one with
      its chip's close button. */
  datatype Edit =
    | SetName(text: string)
    | SetDescription(text: string)
    | SelectClass(id: string)
    | RemoveClass(id: string)
    | SelectStudent(id: string)
    | RemoveStudent(id: string)

  /** Which form field an edit addresses: 0 name, 1 description, 2 classes, 3 students. */
  function Target(e: Edit): nat {
    match e
    case SetName(_) => 0
    case SetDescription(_) => 1
    case SelectClass(_) => 2
    case RemoveClass(_) => 2
    case SelectStudent(_) => 3
    case RemoveStudent(_) => 3
  }

  /** An edit applied to a draft: it sets, toggles or removes in its own
      field and leaves the other three as they were. */
  function ApplyEdit(f: GroupDraft, e: Edit): (r: GroupDraft)
    ensures Target(e) != 0 ==> r.name == f.name
    ensures Target(e) != 1 ==> r.description == f.description
    ensures Target(e) != 2 ==> r.classIds == f.classIds
    ensures Target(e) != 3 ==> r.studentIds == f.studentIds
    ensures e.SetName? ==> r.name == e.text
    ensures e.SetDescription? ==> r.description == Some(e.text)
    ensures e.SelectClass? ==> (e.id in r.classIds <==> e.id !in f.classIds)
    ensures e.SelectStudent? ==> (e.id in r.studentIds <==> e.id !in f.studentIds)
    ensures e.RemoveClass? ==> e.id !in r.classIds && IsSubseq(r.classIds, f.classIds)
    ensures e.RemoveClass? ==> forall y :: y != e.id ==> multiset(r.classIds)[y] == multiset(f.classIds)[y]
    ensures e.RemoveStudent? ==> e.id !in r.studentIds && IsSubseq(r.studentIds, f.studentIds)
    ensures e.RemoveStudent? ==> forall y :: y != e.id ==> multiset(r.studentIds)[y] == multiset(f.studentIds)[y]
  {
    match e
    case SetName(v) => f.(name := v)
    case SetDescription(v) => f.(description := Some(v))
    case SelectClass(id) => ToggleClassInGroup(f, id)
    case RemoveClass(id) =>
      var rest := RemoveAll(f.classIds, id);
      f.(classIds := rest)
    case SelectStudent(id) => ToggleStudentInGroup(f, id)
    case RemoveStudent(id) =>
      var rest := RemoveAll(f.studentIds, id);
      f.(studentIds := rest)
  }

  /** `editingGroup || newGroup`: what the handlers as written start from. */
  function Basis(p: Panel, groups: seq<Group>): (r: GroupDraft)
    ensures EditingGroup(p, groups).None? ==> r == p.form
    ensures EditingGroup(p, groups).Some? ==> r == DraftOf(EditingGroup(p, groups).value)
  {
    match EditingGroup(p, groups)
    case Some(g) => DraftOf(g)
    case None => p.form
  }

  /** A dialog edit as written: `setNewGroup({...(editingGroup || newGroup), field: …})`. */
  function EditAsWritten(p: Panel, groups: seq<Group>, e: Edit): (r: Panel)
    ensures r.editingGroupId == p.editingGroupId
  {
    p.(form := ApplyEdit(Basis(p, groups), e))
  }

  /** A dialog edit applied to the panel's own form. */
  function EditCorrected(p: Panel, e: Edit): (r: Panel)
    ensures r.editingGroupId == p.editingGroupId
  {
    p.(form := ApplyEdit(p.form, e))
  }

  /** Outside edit mode (or when the edited group is gone) both versions agree. */
  lemma EditAsWrittenOutsideEditing(p: Panel, groups: seq<Group>, e: Edit)
    requires EditingGroup(p, groups).None?
    ensures EditAsWritten(p, groups, e) == EditCorrected(p, e)
  {
  }

  /** While editing a group with no classes, choosing class c1 then class c2
      leaves only c2 selected; with edits on the form both stay. */
  lemma EditAsWrittenLosesEarlierEdit()
    ensures var groups := [Group("g1", "Math", None, [], [], None, None)];
            var p := Panel(EmptyGroupForm, Some("g1"));
            && EditAsWritten(EditAsWritten(p, groups, SelectClass("c1")), groups, SelectClass("c2")).form.classIds == ["c2"]
            && EditCorrected(EditCorrected(p, SelectClass("c1")), SelectClass("c2")).form.classIds == ["c1", "c2"]
  {
    var groups := [Group("g1", "Math", None, [], [], None, None)];
    var p := Panel(EmptyGroupForm, Some("g1"));
    assert FindGroup(groups, "g1") == Some(groups[0]);
    var p1 := EditAsWritten(p, groups, SelectClass("c1"));
    assert p1.editingGroupId == Some("g1");
    var q1 := EditCorrected(p, SelectClass("c1"));
    assert q1.form.classIds == ["c1"];
    var q2 := EditCorrected(q1, SelectClass("c2"));
    assert "c2" != "c1";
    assert q2.form.classIds == ["c1", "c2"];
  }

  /** With edits on the form, two edits of different fields commute: no
      change is lost, whatever the order. */
  lemma EditCorrectedCommute(p: Panel, e1: Edit, e2: Edit)
    requires Target(e1) != Target(e2)
    ensures EditCorrected(EditCorrected(p, e1), e2) == EditCorrected(EditCorrected(p, e2), e1)
  {
    var a := EditCorrected(EditCorrected(p, e1), e2).form;
    var b := EditCorrected(EditCorrected(p, e2), e1).form;
    assert a.name == b.name;
    assert a.description == b.description;
    assert a.classIds == b.classIds;
    assert a.studentIds == b.studentIds;
  }

  // ---------------------------------------------------------------------
  // entering edit mode

  /** "Create New Group": leaves edit mode, keeps the form. */
  function OpenCreate(p: Panel): (r: Panel)
    ensures !Editing(r) && r.form == p.form
  {
    p.(editingGroupId := None)
  }

  /** The row's "Edit" button as written: sets the edited id only. */
  function OpenEditAsWritten(p: Panel, gid: string): (r: Panel)
    ensures r.form == p.form && r.editingGroupId == Some(gid)
  {
    p.(editingGroupId := Some(gid))
  }

  /** "Edit" loading the stored group's fields into the form. */
  function OpenEditCorrected(p: Panel, groups: seq<Group>, gid: string): (r: Panel)
    ensures r.editingGroupId == Some(gid)
    ensures FindGroup(groups, gid).Some? ==> r.form == DraftOf(FindGroup(groups, gid).value)
    ensures FindGroup(groups, gid).None? ==> r.form == p.form
  {
    match FindGroup(groups, gid)
    case Some(g) => Panel(DraftOf(g), Some(gid))
    case None => p.(editingGroupId := Some(gid))
  }

  /** One class, one group and the group's one student. */
  function EditExample(): State {
    State(
      [Student("s1", "Ann", "ann@example.com", "c1", Some("g1"))],
      [Class("c1", "Algebra", "1", None, Some(["g1"]))],
      [Group("g1", "Math", None, ["s1"], ["c1"], None, None)],
      [])
  }

  lemma EditExampleConsistent()
    ensures Consistent(EditExample())
  {
    var st := EditExample();
    assert ListedPointBack(st) && LinkedAreListed(st);
    assert ClassIndexInverse(st);
  }

  /** As written, opening a one-member group for editing and saving at once
      (from the initial panel) unlinks the member and empties the group. */
  lemma UntouchedEditAsWrittenEmptiesGroup()
    ensures var r := UpdateWired(EditExample(), OpenEditAsWritten(InitialPanel, "g1"), "2024-01-02").0;
            && Consistent(EditExample())
            && r.students[0].groupId == None
            && r.groups[0].studentIds == [] && r.groups[0].classIds == [] && r.groups[0].name == ""
  {
    var st := EditExample();
    EditExampleConsistent();
    var p := OpenEditAsWritten(InitialPanel, "g1");
    assert FindGroup(st.groups, "g1") == Some(st.groups[0]);
    assert PanelUpdate(st, p).submission.UpdateSubmitted?;
    UpdateWiredApplies(st, p, "2024-01-02");
    var u := GroupUpdate(Some(""), Some(""), Some([]), Some([]));
    assert PanelUpdate(st, p).submission.update == u;
    var r := UpdateGroup(st, "g1", u, "2024-01-02");
    assert r.groups[0] == Merge(st.groups[0], u, "2024-01-02");
    assert "s1" !in [];
  }

  /** The update a group's own fields make. */
  function SelfUpdate(g: Group): GroupUpdate {
    GroupUpdate(Some(g.name), g.description, Some(g.studentIds), Some(g.classIds))
  }

  /** Updating a group with its own fields relinks nothing. */
  lemma SelfUpdateKeepsLinks(st: State, gid: string, now: string)
    requires FindGroup(st.groups, gid).Some?
    ensures var r := UpdateGroup(st, gid, SelfUpdate(FindGroup(st.groups, gid).value), now);
            r.students == st.students && r.classes == st.classes
  {
    var g := FindGroup(st.groups, gid).value;
    var r := UpdateGroup(st, gid, SelfUpdate(g), now);
    assert |r.students| == |st.students|;
    assert |r.classes| == |st.classes|;
  }

  /** Updating the only group with this id with its own fields keeps every
      group's form fields. */
  lemma SelfUpdateKeepsGroups(st: State, gid: string, now: string)
    requires GroupIdsDistinct(st.groups) && FindGroup(st.groups, gid).Some?
    ensures var r := UpdateGroup(st, gid, SelfUpdate(FindGroup(st.groups, gid).value), now);
            |r.groups| == |st.groups| && forall i :: 0 <= i < |st.groups| ==> DraftOf(r.groups[i]) == DraftOf(st.groups[i])
  {
    var g := FindGroup(st.groups, gid).value;
    var r := UpdateGroup(st, gid, SelfUpdate(g), now);
    forall i | 0 <= i < |st.groups|
      ensures DraftOf(r.groups[i]) == DraftOf(st.groups[i])
    {
      if st.groups[i].id == gid {
        var k :| 0 <= k < |st.groups| && st.groups[k] == g;
        assert st.groups[i] == g;
      }
    }
  }

  /** Corrected, saving an untouched edit of a group leaves every student
      and class as it was and keeps every group's name, description and
      lists. */
  lemma UntouchedEditCorrectedKeepsGroup(st: State, p: Panel, gid: string, now: string)
    requires Consistent(st) && gid != "" && FindGroup(st.groups, gid).Some?
    ensures var r := UpdateWired(st, OpenEditCorrected(p, st.groups, gid), now).0;
            && r.students == st.students
            && r.classes == st.classes
            && |r.groups| == |st.groups|
            && forall i :: 0 <= i < |st.groups| ==> DraftOf(r.groups[i]) == DraftOf(st.groups[i])
  {
    var g := FindGroup(st.groups, gid).value;
    var q := OpenEditCorrected(p, st.groups, gid);
    assert UpdateConflicts(st.students, g, g.studentIds) == [];
    assert PanelUpdate(st, q).submission == UpdateSubmitted(gid, SelfUpdate(g));
    UpdateWiredApplies(st, q, now);
    SelfUpdateKeepsLinks(st, gid, now);
    SelfUpdateKeepsGroups(st, gid, now);
  }

  // ---------------------------------------------------------------------
  // the dialog and the "Edit" button's synthetic click

  /** The first `button[data-state="closed"]` in the document when "Edit"
      is clicked: none, this panel's "Create New Group" trigger, or a closed
      trigger of another component placed before it (on the admin page the
      header's menu trigger comes first). */
  datatype FirstClosed = NoClosedButton | CreateTrigger | OtherTrigger

  /** The panel together with whether its dialog is open. */
  datatype DialogState = DialogState(panel: Panel, open: bool)

  const InitialDialog := DialogState(InitialPanel, false)

  /** "Create New Group": `setEditingGroupId(null)`, then the trigger opens
      the dialog. */
  function ClickCreate(d: DialogState): (r: DialogState)
    ensures r.open && !Editing(r.panel) && r.panel.form == d.panel.form
  {
    DialogState(OpenCreate(d.panel), true)
  }

  /** "Edit" as written: `setEditingGroupId(gid)`, then a synthetic click on
      the first closed trigger. Both writes to `editingGroupId` belong to one
      event and apply in order, so the create trigger's `null` wins; another
      component's trigger does not open this dialog (a menu trigger opens on
      press-down, not on a click). */
  function ClickEditAsWritten(d: DialogState, gid: string, first: FirstClosed): (r: DialogState)
    ensures first.CreateTrigger? ==> r.open && !Editing(r.panel) && r.panel.form == d.panel.form
    ensures !first.CreateTrigger? ==> r.open == d.open && r.panel == OpenEditAsWritten(d.panel, gid)
  {
    var edited := DialogState(OpenEditAsWritten(d.panel, gid), d.open);
    if first.CreateTrigger? then ClickCreate(edited) else edited
  }

  /** One user action on the panel. The table's buttons sit behind the
      modal dialog while it is open; the dialog's controls exist only while
      it is open. `Submit` is "Update Group" in edit mode and "Create Group"
      otherwise. */
  datatype DialogEvent =
    | PressCreate
    | PressEdit(gid: string, first: FirstClosed)
    | CloseDialog
    | Change(e: Edit)
    | Submit

  /** One action as written, on the data state `st` of that moment. */
  function DialogStepAsWritten(st: State, d: DialogState, ev: DialogEvent): DialogState {
    match ev
    case PressCreate => if d.open then d else ClickCreate(d)
    case PressEdit(gid, first) => if d.open then d else ClickEditAsWritten(d, gid, first)
    case CloseDialog => d.(open := false)
    case Change(e) => if d.open then d.(panel := EditAsWritten(d.panel, st.groups, e)) else d
    case Submit =>
      if !d.open then d
      else if Editing(d.panel) then d.(panel := PanelUpdate(st, d.panel).panel)
      else d.(panel := PanelCreate(st.students, d.panel).panel)
  }

  /** A sequence of actions, each with the data state it sees. */
  function DialogRunAsWritten(d: DialogState, evs: seq<(State, DialogEvent)>): DialogState
    decreases |evs|
  {
    if |evs| == 0 then d
    else DialogRunAsWritten(DialogStepAsWritten(evs[0].0, d, evs[0].1), evs[1..])
  }

  /** The dialog is never open in edit mode. */
  predicate NoOpenEdit(d: DialogState) {
    d.open ==> !Editing(d.panel)
  }

  lemma DialogStepKeepsNoOpenEdit(st: State, d: DialogState, ev: DialogEvent)
    requires NoOpenEdit(d)
    ensures NoOpenEdit(DialogStepAsWritten(st, d, ev))
  {
    if ev.Submit? && d.open {
      var step := PanelCreate(st.students, d.panel);
      assert step.panel.editingGroupId == d.panel.editingGroupId;
    }
  }

  /** As written, whatever the user does and whichever closed trigger comes
      first in the document, the dialog never shows in edit mode. */
  lemma {:induction false} EditDialogNeverOpens(d: DialogState, evs: seq<(State, DialogEvent)>)
    requires NoOpenEdit(d)
    ensures NoOpenEdit(DialogRunAsWritten(d, evs))
    decreases |evs|
  {
    if |evs| > 0 {
      DialogStepKeepsNoOpenEdit(evs[0].0, d, evs[0].1);
      EditDialogNeverOpens(DialogStepAsWritten(evs[0].0, d, evs[0].1), evs[1..]);
    }
  }

  /** "Edit" as intended: load the stored group into the form and open the
      dialog in edit mode. */
  function ClickEditCorrected(d: DialogState, groups: seq<Group>, gid: string): (r: DialogState)
    ensures r.open && r.panel == OpenEditCorrected(d.panel, groups, gid)
  {
    DialogState(OpenEditCorrected(d.panel, groups, gid), true)
  }

  /** Corrected, "Edit" on a stored group opens the dialog in edit mode with
      that group's fields in the form. */
  lemma ClickEditCorrectedOpensEditMode(d: DialogState, groups: seq<Group>, gid: string)
    requires gid != "" && FindGroup(groups, gid).Some?
    ensures var r := ClickEditCorrected(d, groups, gid);
            && r.open && Editing(r.panel) && !NoOpenEdit(r)
            && EditingGroup(r.panel, groups) == FindGroup(groups, gid)
            && r.panel.form == DraftOf(FindGroup(groups, gid).value)
  {
  }
}
