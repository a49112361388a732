# Class attendance: a Dafny model of the group membership engine

This project models the core of a class-attendance dashboard written in
TypeScript and React. Admins manage classes, teachers, students and
*groups*; teachers pick a group or a class and view its attendance.

The heart of the model is the group membership engine of the data
provider: `addGroup`, `updateGroup`, `deleteGroup` and the queries. Three
cross-references must agree:

- `Student.groupId`;
- `Group.studentIds` / `Group.classIds`;
- `Class.groupIds`.

The engine does not refuse conflicting memberships itself. Its callers do:
the admin hook `useAdminDashboard` and the group management panel. The
model composes guard and engine and proves that every sequence of admin
actions keeps the membership invariant `Membership.Consistent` (see
`AdminDashboard.RunPreserves`). The invariant says:

- group ids are distinct and non-empty;
- student ids are distinct;
- a group lists exactly the students that point at it;
- `Class.groupIds` is the inverse of `Group.classIds`.

Around the engine sit smaller pure pieces:

- the attendance matrix (column dates, cell symbols, P/A/L counts, rates);
- the teacher dashboard's selection state machine;
- the group list filter;
- the route guard;
- the mock login.

Every operation is a pure function over immutable datatypes. Each handler
is one atomic transition from the state before the call. Generated ids and
timestamps are parameters, and fresh ids are a precondition of the
preservation lemmas. A refusal is a value (`AdminDashboard.Outcome`), not
a toast.

Modules, one per file:

| file | module | models |
|---|---|---|
| base.dfy | Base | `Option`, order-preserving `Filter`, `find`/`findIndex`, remove-all and toggle on lists, subsequences |
| text.dfy | Text | `String.prototype.trim`, `split`/`join` on one character, string order |
| types.dfy | Types | the record shapes of src/types/index.ts |
| engine.dfy | Engine | the data provider's mutations and queries |
| membership.dfy | Membership | the membership invariant and its preservation by the engine |
| admin_dashboard.dfy | AdminDashboard | the admin hook's guards, form resets, toggles and CSV import |
| group_management.dfy | GroupManagement | the group panel, its wiring to the hook, and corrected variants |
| attendance_statistics.dfy | AttendanceStatistics | the attendance matrix |
| teacher_dashboard.dfy | TeacherDashboard | the teacher hook's selection and derived lists |
| group_view.dfy | GroupView | the teacher's group list |
| auth.dfy | Auth | login, logout, restoring the stored user |
| routing.dfy | Routing | the route table and the protected-route guard |

## Model

| member | source | states |
|---|---|---|
| Base.Filter | src/context/data/DataProvider.tsx:254-260 | `Array.prototype.filter`: the result is a subsequence of the input; it keeps every element satisfying the predicate exactly as often as it occurs, and no other element |
| Base.FilterKeepsAll | src/hooks/useTeacherDashboard.ts:54-56 | a filter whose predicate holds everywhere returns its input unchanged |
| Base.FilterFull | src/hooks/useTeacherDashboard.ts:54-56 | a filter that keeps as many elements as it is given kept every element |
| Base.FilterIdempotent | src/components/teacher/GroupView.tsx:15-17 | filtering twice by the same predicate is filtering once |
| Base.Find | src/context/data/DataProvider.tsx:262-264 | `Array.prototype.find`: none iff no element matches; otherwise the first matching element |
| Base.FindIndex | src/components/teacher/AttendanceStatistics.tsx:39-42 | the index of the first match, or none iff nothing matches |
| Base.RemoveAll | src/components/admin/GroupMangement.tsx:216-224 | `filter(id => id !== x)`: x is gone, every other element keeps its count, order is kept |
| Base.Toggle | src/hooks/useAdminDashboard.ts:162-180 | an absent id is appended at the end; a present id is removed entirely and the rest keep their order; other ids keep their counts |
| Base.ToggleTwiceRestores | src/hooks/useAdminDashboard.ts:162-180 | toggling an absent id twice restores the original list |
| Text.Trim | src/hooks/useAdminDashboard.ts:57 | `trim()`: the result is a slice of the input with only whitespace cut off on either side; it starts and ends with non-whitespace, and it is empty iff the input is all ECMAScript whitespace |
| Text.TrimIdempotent | src/hooks/useAdminDashboard.ts:69-70 | trimming twice is trimming once |
| Text.Split | src/hooks/useAdminDashboard.ts:188 | `split(sep)`: at least one piece, no piece contains the separator, and joining the pieces gives the input back |
| Text.SplitJoin | src/hooks/useAdminDashboard.ts:188 | splitting a join of separator-free pieces returns exactly those pieces |
| Text.LexTransitive | src/components/teacher/AttendanceStatistics.tsx:33-35 | the date order is transitive |
| Text.LexTotal | src/components/teacher/AttendanceStatistics.tsx:33-35 | two different date strings are always ordered one way or the other |
| Text.LexAsymmetric | src/components/teacher/AttendanceStatistics.tsx:33-35 | the date order is asymmetric |
| Engine.AddGroup | src/context/data/DataProvider.tsx:132-164 | exactly one group is appended, with `createdAt` set; listed students without a group join it and all others are unchanged; listed classes get the id appended to their `groupIds` (a missing list counts as empty), other classes are unchanged |
| Engine.FindGroup | src/context/data/DataProvider.tsx:176 | `groups.find` by id: none iff no group has the id; otherwise the first group with it |
| Engine.UpdateGroup | src/context/data/DataProvider.tsx:166-235 | an unknown id changes nothing; the matching group gets the update merged and `updatedAt` refreshed, other groups are unchanged; students dropped lose `groupId`; added students join only when they have none; classes dropped lose the id, classes added gain it; everything else is unchanged |
| Engine.DeleteGroup | src/context/data/DataProvider.tsx:237-252 | afterwards no student, class or group refers to the id; every group with another id stays, in order and as often as before; students pointing at the group end with no group, and no other student or field changes |
| Engine.DeleteGroupIdempotent | src/context/data/DataProvider.tsx:237-252 | deleting twice is deleting once |
| Engine.StripGroupId | src/context/data/DataProvider.tsx:244-247 | a class's `groupIds` loses the id, becomes a list even when it was missing, and keeps every other id in order |
| Engine.GroupsForClass | src/context/data/DataProvider.tsx:254-256 | the in-order subsequence of groups whose `classIds` contain the class, with multiplicities |
| Engine.GroupsForStudent | src/context/data/DataProvider.tsx:258-260 | the in-order subsequence of groups whose `studentIds` contain the student |
| Engine.GroupById | src/context/data/DataProvider.tsx:262-264 | the first group with the id, or none iff there is no such group |
| Engine.StudentsByClass | src/context/data/DataProvider.tsx:327-330 | the in-order subsequence of students in the class |
| Engine.StudentsByGroup | src/context/data/DataProvider.tsx:364-367 | the in-order subsequence of students whose `groupId` is the group |
| Engine.FindStudent | src/hooks/useAdminDashboard.ts:100 | `students.find` by id: none iff no student has the id; otherwise the first student with it |
| Engine.AddClass | src/context/data/DataProvider.tsx:267-274 | one class appended, with an empty `groupIds`; existing classes unchanged |
| Engine.AddStudent | src/context/data/DataProvider.tsx:276-283 | one student appended with no group; existing students unchanged |
| Engine.AddStudents | src/context/data/DataProvider.tsx:285-292 | the new students follow the existing ones in input order, each with its generated id and no group |
| Engine.AddTeacher | src/context/data/DataProvider.tsx:294-300 | one teacher appended; nothing else changes |
| Membership.EmptyConsistent | src/context/data/DataProvider.tsx:132-164 | the empty state satisfies the membership invariant |
| Membership.AtMostOneGroup | src/types/index.ts:18-24 | under the invariant, two groups that list the same existing student are the same group |
| Membership.StudentsByGroupAreMembers | src/context/data/DataProvider.tsx:364-367 | under the invariant, the students pointing at a group are exactly the existing students it lists |
| Membership.GroupByIdFindsEach | src/context/data/DataProvider.tsx:262-264 | with distinct group ids, looking up a stored group's id returns that group |
| Membership.AddGroupPreserves | src/context/data/DataProvider.tsx:132-164 | with a fresh id and no listed student already in a group, `addGroup` keeps the invariant |
| Membership.UpdateGroupPreserves | src/context/data/DataProvider.tsx:166-235 | when every newly listed student is free or already in this group, `updateGroup` keeps the invariant, class index included |
| Membership.DeleteGroupPreserves | src/context/data/DataProvider.tsx:237-252 | `deleteGroup` keeps the invariant, for any id |
| Membership.AddClassPreserves | src/context/data/DataProvider.tsx:267-274 | `addClass` with a fresh id keeps the invariant |
| Membership.AddStudentPreserves | src/context/data/DataProvider.tsx:276-283 | `addStudent` with a fresh id keeps the invariant |
| Membership.AddStudentsPreserves | src/context/data/DataProvider.tsx:285-292 | `addStudents` with fresh, pairwise distinct ids keeps the invariant |
| Membership.AddTeacherPreserves | src/context/data/DataProvider.tsx:294-300 | `addTeacher` keeps the invariant |
| AdminDashboard.CreateConflicts | src/hooks/useAdminDashboard.ts:99-102 | the listed ids, in list order, that resolve to a student with a truthy `groupId`; ids matching no student are never conflicts |
| AdminDashboard.UpdateConflicts | src/hooks/useAdminDashboard.ts:127-135 | the ids, in list order, that are new to the group and belong to a student in a different group |
| AdminDashboard.FindStudentById | src/hooks/useAdminDashboard.ts:100 | with distinct student ids, looking up a stored student's id returns that student |
| AdminDashboard.HandleAddGroup | src/hooks/useAdminDashboard.ts:96-117 | nothing happens unless the trimmed name is non-empty and a class is chosen; then it is refused iff a listed student already has a group; otherwise `addGroup` runs on the form and the form is reset |
| AdminDashboard.HandleAddGroupPreserves | src/hooks/useAdminDashboard.ts:96-117 | the guarded `addGroup` keeps the membership invariant: the guard establishes what the engine needs |
| AdminDashboard.HandleUpdateGroup | src/hooks/useAdminDashboard.ts:119-143 | unknown group: nothing happens; refused iff some id new to the group belongs to a student in another group, and then no field is updated; otherwise `updateGroup` runs |
| AdminDashboard.HandleUpdateGroupPreserves | src/hooks/useAdminDashboard.ts:119-143 | the guarded `updateGroup` keeps the membership invariant |
| AdminDashboard.HandleAddClass | src/hooks/useAdminDashboard.ts:56-65 | adds iff the trimmed name is non-empty; the reset keeps the teacher |
| AdminDashboard.HandleAddStudent | src/hooks/useAdminDashboard.ts:67-80 | adds iff name and email are non-blank and a class id is given; the whole form, class id included, is cleared |
| AdminDashboard.HandleAddTeacher | src/hooks/useAdminDashboard.ts:86-94 | adds iff name and email are non-blank; the form is cleared |
| AdminDashboard.ToggleStudentInGroup | src/hooks/useAdminDashboard.ts:162-170 | an absent student id is appended at the end; a present one is removed entirely and the rest keep their order and counts; nothing else in the form changes |
| AdminDashboard.ToggleClassInGroup | src/hooks/useAdminDashboard.ts:172-180 | the same toggle on the class list: appended at the end when absent, removed with the rest in order when present |
| AdminDashboard.ToggleTwiceRestoresForm | src/hooks/useAdminDashboard.ts:162-180 | selecting an unselected student or class twice restores the form |
| AdminDashboard.ParseStudentsCsv | src/hooks/useAdminDashboard.ts:187-198 | refused iff the first line does not split into exactly three fields; otherwise one student per later line, in order |
| AdminDashboard.ParseEncodeRoundTrip | src/hooks/useAdminDashboard.ts:187-198 | parsing a file written from a three-field header and comma- and newline-free rows returns exactly those rows; the header never becomes a student |
| AdminDashboard.ImportStudentsCsv | src/hooks/useAdminDashboard.ts:182-203 | a bad header is refused and adds nothing; otherwise data line i becomes the i-th appended student, with id `ids(i)`, fields 0, 1 and 2 of the line as name, email and class id, and no group |
| AdminDashboard.ImportStudentsCsvPreserves | src/hooks/useAdminDashboard.ts:182-203 | the import keeps the membership invariant |
| AdminDashboard.RunPreserves | src/hooks/useAdminDashboard.ts:56-203 | any sequence of admin actions with fresh generated ids keeps the membership invariant; in particular no student ever belongs to two groups |
| GroupManagement.EditingGroup | src/components/admin/GroupMangement.tsx:55-58 | the first stored group with the edited id; none iff `editingGroupId` is falsy or no group has it |
| GroupManagement.PanelCreate | src/components/admin/GroupMangement.tsx:60-85 | the conflict check comes first, reports the offending ids in selection order and keeps the form; a create is submitted iff there is no conflict, the trimmed name is non-empty and a class is chosen, and then the form is reset |
| GroupManagement.PanelUpdate | src/components/admin/GroupMangement.tsx:87-125 | submits iff editing an existing group and no newly added student is in another group; submits all four fields, then leaves edit mode with an empty form |
| GroupManagement.CreateAsWiredNeverAdds | src/pages/AdminDashboard.tsx:54 | as wired, creating a group from the panel never changes the data |
| GroupManagement.CreateAsWiredLosesGroup | src/hooks/useAdminDashboard.ts:96-97 | a valid request is accepted and the panel is cleared, yet no group exists afterwards |
| GroupManagement.CreateCorrected | src/components/admin/GroupMangement.tsx:76-77 | with the panel's form passed through, an accepted request is `addGroup` of that form, and any other request changes nothing |
| GroupManagement.CreateCorrectedAdds | src/components/admin/GroupMangement.tsx:76-83 | corrected, an accepted request appends exactly the requested group, and the invariant holds |
| GroupManagement.UpdateWiredApplies | src/components/admin/GroupMangement.tsx:102-116 | the hook never refuses an update the panel accepted; the wired update keeps the invariant |
| GroupManagement.ApplyEdit | src/components/admin/GroupMangement.tsx:146-254 | each dialog change sets, toggles or removes in its own field and leaves the other three fields alone; a chip's removal drops only that id, keeping the other ids in order and count |
| GroupManagement.Basis | src/components/admin/GroupMangement.tsx:151 | `editingGroup \|\| newGroup`: the stored group while editing it, otherwise the form |
| GroupManagement.EditAsWrittenOutsideEditing | src/components/admin/GroupMangement.tsx:176-193 | outside edit mode the handlers as written and the corrected ones agree |
| GroupManagement.EditAsWrittenLosesEarlierEdit | src/components/admin/GroupMangement.tsx:176-193 | while editing a group, choosing class c1 then c2 leaves only c2 as written; corrected, both stay |
| GroupManagement.EditCorrectedCommute | src/components/admin/GroupMangement.tsx:146-254 | with edits on the form, changes to different fields commute, so none is lost |
| GroupManagement.OpenCreate | src/components/admin/GroupMangement.tsx:133 | "Create New Group" leaves edit mode and keeps the form |
| GroupManagement.OpenEditAsWritten | src/components/admin/GroupMangement.tsx:360-366 | "Edit" sets only the edited id; the form keeps what it held |
| GroupManagement.OpenEditCorrected | src/components/admin/GroupMangement.tsx:360-366 | "Edit" loading the stored group's fields into the form |
| GroupManagement.UntouchedEditAsWrittenEmptiesGroup | src/components/admin/GroupMangement.tsx:111-116 | as written, opening a group for editing and saving at once unlinks its member and empties its name and lists |
| GroupManagement.UntouchedEditCorrectedKeepsGroup | src/components/admin/GroupMangement.tsx:111-116 | corrected, saving an untouched edit leaves every student, class and group's fields as they were |
| GroupManagement.ClickCreate | src/components/admin/GroupMangement.tsx:130-136 | "Create New Group" leaves edit mode and opens the dialog, keeping the form |
| GroupManagement.ClickEditAsWritten | src/components/admin/GroupMangement.tsx:360-366 | "Edit" sets the edited id and clicks the first closed trigger: through the create trigger the dialog opens outside edit mode; otherwise it stays as it was |
| GroupManagement.EditDialogNeverOpens | src/components/admin/GroupMangement.tsx:130-136 | as written, from a dialog not open in edit mode, no sequence of actions opens it in edit mode, whichever closed trigger comes first |
| GroupManagement.ClickEditCorrectedOpensEditMode | src/components/admin/GroupMangement.tsx:360-366 | corrected, "Edit" on a stored group opens the dialog in edit mode with that group's fields in the form |
| GroupManagement.SelfUpdateKeepsLinks | src/context/data/DataProvider.tsx:179-234 | updating a group with its own lists relinks no student and no class |
| AttendanceStatistics.UniqueDates | src/components/teacher/AttendanceStatistics.tsx:31-36 | strictly newest first, and a date is a column iff some record has it |
| AttendanceStatistics.DescDistinct | src/components/teacher/AttendanceStatistics.tsx:33 | a newest-first column list repeats no date |
| AttendanceStatistics.DescUnique | src/components/teacher/AttendanceStatistics.tsx:31-36 | two newest-first lists of the same dates are equal |
| AttendanceStatistics.UniqueDatesCharacterized | src/components/teacher/AttendanceStatistics.tsx:31-36 | the column dates equal any strictly descending list of exactly the record dates |
| AttendanceStatistics.InsertDesc | src/components/teacher/AttendanceStatistics.tsx:33-35 | inserting a date keeps the list strictly newest first and adds exactly that date |
| AttendanceStatistics.StatusSymbol | src/components/teacher/AttendanceStatistics.tsx:43-52 | present, absent and late map one-to-one to "P", "A" and "L", never to "-" |
| AttendanceStatistics.StatusForStudentOnDate | src/components/teacher/AttendanceStatistics.tsx:38-53 | "-" iff no record of the student on the date; otherwise the symbol of the first such record |
| AttendanceStatistics.StatusRecords | src/components/teacher/AttendanceStatistics.tsx:115-138 | the student's records with one status, in order, each as often as in the input, and no other record |
| AttendanceStatistics.StudentRecords | src/components/teacher/AttendanceStatistics.tsx:115-138 | the student's records, in order, each as often as in the input |
| AttendanceStatistics.StatusCountsSum | src/components/teacher/AttendanceStatistics.tsx:115-138 | a student's P, A and L counts add up to that student's number of records |
| AttendanceStatistics.CellCounted | src/components/teacher/AttendanceStatistics.tsx:93-138 | a cell showing P, A or L implies a non-zero count in that column |
| AttendanceStatistics.RatePercent | src/components/teacher/AttendanceStatistics.tsx:163-165 | 0 when the total is 0; otherwise rate times total equals part times 100, within 0 to 100 when the part is at most the total |
| AttendanceStatistics.RatesSum | src/components/teacher/AttendanceStatistics.tsx:162-195 | when every record is present, absent or late, the three rates add up to 100 |
| TeacherDashboard.InitialSelection | src/hooks/useTeacherDashboard.ts:23-29 | no group, the teacher's first class or none, and today's date |
| TeacherDashboard.Select | src/hooks/useTeacherDashboard.ts:81-91 | choosing a group clears the class, choosing a class clears the group, and the date is untouched |
| TeacherDashboard.SelectionStaysExclusive | src/hooks/useTeacherDashboard.ts:81-91 | from a selection with at most one of group and class, every sequence of changes keeps it so |
| TeacherDashboard.InitialStaysExclusive | src/hooks/useTeacherDashboard.ts:23-26 | from the initial selection, a group and a class are never both selected |
| TeacherDashboard.FilteredClasses | src/hooks/useTeacherDashboard.ts:32-38 | all classes with no group; with a group, the in-order subsequence of the classes it lists, each as often as in the input; none when the group is unknown |
| TeacherDashboard.FilteredClassesByClassIndex | src/hooks/useTeacherDashboard.ts:32-38 | under the invariant, the classes shown for a group are those whose own `groupIds` name it |
| TeacherDashboard.DisplayedStudents | src/hooks/useTeacherDashboard.ts:41-45 | group first, then class, else nothing |
| TeacherDashboard.DisplayedGroupStudentsAreMembers | src/hooks/useTeacherDashboard.ts:41-42 | with the provider's lookup, a group's displayed students are exactly its existing listed students |
| TeacherDashboard.ClassAttendance | src/hooks/useTeacherDashboard.ts:48-52 | class first, then group, else nothing |
| TeacherDashboard.ExclusiveContextsAgree | src/hooks/useTeacherDashboard.ts:41-62 | on reachable selections, students, attendance and statistics all come from the context that `contextType` and `contextId` name |
| TeacherDashboard.BothSelectedMixesContexts | src/hooks/useTeacherDashboard.ts:41-52 | with both selected, students come from the group but attendance from the class |
| TeacherDashboard.TodayAttendance | src/hooks/useTeacherDashboard.ts:54-56 | the in-order records dated exactly the selected day, with multiplicities |
| TeacherDashboard.TodayAttendanceComplete | src/hooks/useTeacherDashboard.ts:54-56 | a record is kept iff it is dated that day; nothing is dropped iff every record is |
| TeacherDashboard.Stats | src/hooks/useTeacherDashboard.ts:59-62 | the class's statistics, else the group's, else zeros |
| TeacherDashboard.HandleAttendanceChange | src/hooks/useTeacherDashboard.ts:64-79 | records iff a class or group and a date are selected; the mark carries the current class, group and date |
| TeacherDashboard.MarkNamesContext | src/hooks/useTeacherDashboard.ts:64-79 | on reachable selections, a recorded mark names exactly one of class and group, the one `contextId` names |
| TeacherDashboard.ContextType | src/hooks/useTeacherDashboard.ts:109 | "group" iff a group is selected |
| TeacherDashboard.ContextId | src/hooks/useTeacherDashboard.ts:110 | the group id if set, else the class id |
| GroupView.FilteredGroups | src/components/teacher/GroupView.tsx:15-17 | all groups with no class selected; otherwise the in-order subsequence listing the class |
| GroupView.FilteredGroupsByClassIndex | src/components/teacher/GroupView.tsx:15-17 | under the invariant, the groups shown for a class are exactly those its `groupIds` name |
| GroupView.ResolveStudents | src/components/teacher/GroupView.tsx:37-44 | member names in `studentIds` order; an id is shown iff some student has it, once per occurrence in `studentIds`, as the first such student |
| GroupView.ResolvedAreMembers | src/components/teacher/GroupView.tsx:37-44 | under the invariant, every member shown on a group card belongs to that group |
| Routing.Protected | src/App.tsx:18-36 | loading first; a missing user or a role not allowed goes to /login; otherwise the page |
| Routing.Route | src/App.tsx:38-82 | /login redirects a logged-in admin to /admin and anyone else to /teacher, and shows the login page with no user; /admin and /teacher admit only their role; / goes to /login |
| Routing.RoutesSettle | src/App.tsx:38-82 | once loading is over, every route lands within three redirects on the user's own page, or on the login page with no user |
| Routing.LoadingHidesDashboards | src/App.tsx:27-29 | while loading, both dashboards show the placeholder whoever is logged in |
| Routing.AdminLoginLandsOnDashboard | src/App.tsx:44-55 | after the admin logs in and the page reloads, /login lands on the admin dashboard |
| Auth.Mount | src/context/auth/AuthProvider.tsx:9-16 | a stored user is restored if present; loading ends either way |
| Auth.Login | src/context/auth/AuthProvider.tsx:36-49 | succeeds iff some demo account has exactly this email and password; the first such account becomes the user and is stored; a failure changes nothing |
| Auth.Logout | src/context/auth/AuthProvider.tsx:51-54 | no current user and nothing stored |
| Auth.LoginSurvivesReload | src/context/auth/AuthProvider.tsx:9-48 | after a successful login, the next mount restores the same user |
| Auth.LogoutSurvivesReload | src/context/auth/AuthProvider.tsx:9-54 | after logout, the next mount restores nobody |
| Auth.DemoAccounts | src/context/auth/AuthProvider.tsx:19-34 | the demo credentials log in with the matching role; a wrong password fails |

## Left out

- HTTP loading of classes, students, teachers and groups and its JSON mapping (src/context/data/DataProvider.tsx:34-126): network I/O; the model starts from a given state.
- The camera capture component (src/components/SmartCamera.tsx): browser media, canvas, upload and timers.
- Id generation (`Math.random`) and timestamps (`new Date()`): they are parameters. The preservation lemmas require fresh ids, which the source only makes likely.
- Browser storage and its JSON encoding: the stored user is a field of `Auth.AuthState`.
- `FileReader` and the file input: the CSV import starts from the file's text.
- Toast texts, React state batching and re-rendering: each handler is one atomic transition from the state before the call, and a refusal is a result value.
- Rendering-only components (admin and teacher pages, layout, class, student, teacher and attendance management, login page) and the context's `useData` guard.
- The form field setters (`handleGroupChange`, `handleClassChange`, `handleStudentChange`, `handleTeacherChange`): the handlers take the form value as a parameter instead.
- `toLocaleDateString` and `toFixed(1)`: the rate is the exact rational number before rounding, and date labels are not modelled.
- AttendanceStatistics.UniqueDates: sorts by string order, which is the `Date` order only for well-formed `YYYY-MM-DD` strings; invalid dates (NaN comparisons) are not modelled.
- AdminDashboard.ParseStudentsCsv: a short row's missing fields are `undefined` in the source and the empty string here.
- Engine.UpdateGroup: an update whose `description` is present but undefined clears the description in the source; here an absent description keeps the stored one. The panel submits an undefined description only when its form was last filled from a group with none.
- Engine.DeleteGroup: for an unknown id the source still rewrites every class's missing `groupIds` to an empty list; the model does the same, so deleting an unknown id is not a literal no-op.
- ClickEditAsWritten: which button is the document's first `button[data-state="closed"]` is a parameter, because the page's other components are not part of this model. Three library behaviours are assumed, not modelled: React applies both writes to `editingGroupId` from one event in order; a menu trigger does not open on a synthetic click; the modal dialog keeps the table's buttons from being clicked.
- The teacher hook's lookups (`getGroupsForTeacher`, `getAttendanceByClass`, `getAttendanceByGroup`, `getAttendanceStats`, `markAttendance`): they are missing from the data context, so they are parameters.
- The admin hook's `handleDeleteGroup` only forwards to `deleteGroup` and is modelled by `Engine.DeleteGroup` directly.

## Findings

| source | as written | input that shows it | evidently intended | confidence | as-written member | corrected member |
|---|---|---|---|---|---|---|
| src/pages/AdminDashboard.tsx:54 | the panel's `onCreateGroup` is the hook's `handleAddGroup`, which takes no argument and reads the hook's own `newGroup`; the page never writes that form, so it stays empty | panel form name "Math", class c1, no students: the panel accepts and clears the form, and no group is added | the panel's form is what gets added | high, not executed | GroupManagement.CreateAsWiredLosesGroup | GroupManagement.CreateCorrectedAdds |
| src/components/admin/GroupMangement.tsx:362-365 | "Edit" sets `editingGroupId` and clicks the document's first closed trigger; if that is the dialog's own trigger, its handler sets `editingGroupId` back to null in the same event; any other trigger leaves the dialog closed, and the only way to open it then is "Create New Group", which also sets null | any group, any first closed trigger: after "Edit" the dialog is either closed or open as "Create New Group" | "Edit" opens the dialog in edit mode on that group | medium, not executed; rests on the React and Radix behaviour listed under Left out | GroupManagement.EditDialogNeverOpens | GroupManagement.ClickEditCorrectedOpensEditMode |
| src/components/admin/GroupMangement.tsx:151-193 | in edit mode every change starts from the stored group (`editingGroup \|\| newGroup`), so only the last change survives | once the dialog can open in edit mode (previous row): editing a group with no classes, choose c1, then c2; the form holds [c2] | changes accumulate on the form | low, not executed; unreachable until "Edit" opens the dialog in edit mode | GroupManagement.EditAsWrittenLosesEarlierEdit | GroupManagement.EditCorrectedCommute |
| src/components/admin/GroupMangement.tsx:360-366 | "Edit" sets the edited id but does not load the group into the form | once the dialog can open in edit mode: group g1 with student s1 and class c1, "Edit" from a fresh panel, then "Update Group" at once: s1 loses its group and g1's name and lists become empty | saving an untouched edit changes nothing | low, not executed; unreachable until "Edit" opens the dialog in edit mode | GroupManagement.UntouchedEditAsWrittenEmptiesGroup | GroupManagement.UntouchedEditCorrectedKeepsGroup |
