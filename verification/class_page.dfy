/**
  The pure parts of the admin's class page: reading a student's class id
  from a populated or raw reference, the edit-form draft, the per-class
  student counts, the selected class and its students, and the CSV export
  of that class.
 */
module ClassPage {
  import opened Common
  import opened Csv

  /** An ObjectId string; populated references always carry one. */
  type NonEmpty = s: string | s != [] witness "0"

  /** `student.classId` as the listing sends it: missing, a raw id string, or the populated class. */
  datatype ClassRef = Absent | Raw(raw: string) | Populated(populatedId: NonEmpty)

  /** The populated `userId` of a student. */
  datatype Account = Account(username: Option<string>, email: Option<string>)

  datatype StudentItem = StudentItem(account: Option<Account>, enrollmentNumber: Option<string>, classRef: ClassRef)

  datatype ClassItem = ClassItem(id: string, name: Option<string>, section: Option<string>, incharge: Option<string>)

  /** The edit form of one student. */
  datatype Draft = Draft(username: string, email: string, enrollmentNumber: string, classId: string, password: string)

  /** One line of the class table. */
  datatype ClassRow = ClassRow(id: string, name: Option<string>, section: Option<string>, totalStudents: nat, incharge: Option<string>)

  /** `getStudentClassId`: the populated class's id, else the raw id, else "". */
  function GetStudentClassId(st: StudentItem): (id: string)
    ensures st.classRef.Populated? ==> id == st.classRef.populatedId
    ensures st.classRef.Raw? ==> id == st.classRef.raw
    ensures id == "" <==> st.classRef.Absent? || st.classRef == Raw("")
  {
    match st.classRef
    case Absent => ""
    case Raw(id) => id
    case Populated(id) => id
  }

  /** `student?.userId?.username || ''`. */
  function UsernameOf(st: StudentItem): string {
    if st.account.Some? then st.account.value.username.GetOr("") else ""
  }

  /** `student?.userId?.email || ''`. */
  function EmailOf(st: StudentItem): string {
    if st.account.Some? then st.account.value.email.GetOr("") else ""
  }

  /**
    `buildStudentDraft`: the form shows what was loaded, "" where nothing
    was, and always starts with a blank password, so that saving an
    untouched form asks for no password change.
   */
  function BuildStudentDraft(st: StudentItem): (d: Draft)
    ensures d.password == ""
    ensures d.classId == GetStudentClassId(st)
    ensures st.enrollmentNumber.Some? ==> d.enrollmentNumber == st.enrollmentNumber.value
    ensures st.enrollmentNumber.None? ==> d.enrollmentNumber == ""
    ensures st.account.None? ==> d.username == "" && d.email == ""
    ensures st.account.Some? && st.account.value.username.Some? ==> d.username == st.account.value.username.value
    ensures st.account.Some? && st.account.value.email.Some? ==> d.email == st.account.value.email.value
    ensures st.account.Some? && st.account.value.username.None? ==> d.username == ""
    ensures st.account.Some? && st.account.value.email.None? ==> d.email == ""
    ensures d.username == "" <==> st.account.None? || !Truthy(st.account.value.username)
    ensures d.email == "" <==> st.account.None? || !Truthy(st.account.value.email)
    ensures d.enrollmentNumber == "" <==> !Truthy(st.enrollmentNumber)
  {
    Draft(UsernameOf(st), EmailOf(st), st.enrollmentNumber.GetOr(""), GetStudentClassId(st), "")
  }

  // ---------------------------------------------------------------------------
  // Class rows and the selected class

  /** `selectedClassStudents`: the students whose class id is exactly `selectedId`, in list order. */
  function SelectedClassStudents(students: seq<StudentItem>, selectedId: string): (r: seq<StudentItem>)
    ensures |r| <= |students|
    ensures forall st :: st in r <==> st in students && GetStudentClassId(st) == selectedId
  {
    if students == [] then []
    else
      var st := students[|students| - 1];
      var earlier := SelectedClassStudents(students[..|students| - 1], selectedId);
      assert forall x :: x in students <==> x in students[..|students| - 1] || x == st by {
        assert students == students[..|students| - 1] + [st];
      }
      earlier + (if GetStudentClassId(st) == selectedId then [st] else [])
  }

  /**
    `filter` works element by element: selecting from a list made of two
    parts selects from each part and keeps them in that order, so the
    selection keeps the list order of the students it keeps.
   */
  lemma {:induction false} SelectionOfConcat(a: seq<StudentItem>, b: seq<StudentItem>, selectedId: string)
    ensures SelectedClassStudents(a + b, selectedId) == SelectedClassStudents(a, selectedId) + SelectedClassStudents(b, selectedId)
    decreases |b|
  {
    if b == [] {
      assert a + b == a;
    } else {
      var b' := b[..|b| - 1];
      var last := b[|b| - 1];
      assert (a + b)[..|a + b| - 1] == a + b';
      assert (a + b)[|a + b| - 1] == last;
      SelectionOfConcat(a, b', selectedId);
    }
  }

  /** A one-student list selects that student exactly when its class id is the selected one. */
  lemma SelectionOfOne(st: StudentItem, selectedId: string)
    ensures SelectedClassStudents([st], selectedId) == if GetStudentClassId(st) == selectedId then [st] else []
  {
    assert [st][..0] == [];
  }

  /** Each student of the class is kept as often as it occurs in the list; every other student is dropped. */
  lemma {:induction false} SelectionCounts(students: seq<StudentItem>, selectedId: string)
    ensures forall st ::
      multiset(SelectedClassStudents(students, selectedId))[st] == if GetStudentClassId(st) == selectedId then multiset(students)[st] else 0
    decreases |students|
  {
    if students != [] {
      var init := students[..|students| - 1];
      var last := students[|students| - 1];
      SelectionCounts(init, selectedId);
      assert students == init + [last];
      assert multiset(students) == multiset(init) + multiset{last};
    }
  }

  /** The `reduce` of `classRows`: a count per class id, students without a class id skipped. */
  function CountByClass(students: seq<StudentItem>): map<string, nat> {
    if students == [] then map[]
    else
      var counts := CountByClass(students[..|students| - 1]);
      var id := GetStudentClassId(students[|students| - 1]);
      if id == "" then counts else counts[id := CountOf(counts, id) + 1]
  }

  /** `studentCountByClass[id] || 0`. */
  function CountOf(counts: map<string, nat>, id: string): nat {
    if id in counts then counts[id] else 0
  }

  /** `classRows`: one row per class, in list order, with its student count. */
  function ClassRows(classes: seq<ClassItem>, students: seq<StudentItem>): (rows: seq<ClassRow>)
    ensures |rows| == |classes|
    ensures forall i :: 0 <= i < |classes| ==>
      && rows[i].id == classes[i].id && rows[i].name == classes[i].name
      && rows[i].section == classes[i].section && rows[i].incharge == classes[i].incharge
  {
    var counts := CountByClass(students);
    seq(|classes|, i requires 0 <= i < |classes| =>
      ClassRow(classes[i].id, classes[i].name, classes[i].section, CountOf(counts, classes[i].id), classes[i].incharge))
  }

  /** The count the reduce builds for an id is the size of that id's selection; "" is never counted. */
  lemma {:induction false} CountsMatchSelection(students: seq<StudentItem>, id: string)
    ensures CountOf(CountByClass(students), id) == if id == "" then 0 else |SelectedClassStudents(students, id)|
    decreases |students|
  {
    if students != [] {
      CountsMatchSelection(students[..|students| - 1], id);
    }
  }

  /**
    Each class row counts exactly the students whose class id is the
    class's id, which is what selecting the class lists; a class without
    students shows 0.
   */
  lemma ClassRowCounts(classes: seq<ClassItem>, students: seq<StudentItem>, i: nat)
    requires i < |classes|
    ensures classes[i].id != "" ==> ClassRows(classes, students)[i].totalStudents == |SelectedClassStudents(students, classes[i].id)|
    ensures (forall st :: st in students ==> GetStudentClassId(st) != classes[i].id) ==> ClassRows(classes, students)[i].totalStudents == 0
  {
    CountsMatchSelection(students, classes[i].id);
    if classes[i].id != "" && forall st :: st in students ==> GetStudentClassId(st) != classes[i].id {
      var sel := SelectedClassStudents(students, classes[i].id);
      if sel != [] {
        assert sel[0] in sel;
      }
    }
  }

  /** The position of the first class at or after `from` whose id is `selectedId`. */
  function FindClass(classes: seq<ClassItem>, selectedId: string, from: nat): (i: Option<nat>)
    ensures i.Some? ==> from <= i.value < |classes| && classes[i.value].id == selectedId
    ensures i.Some? ==> forall j :: from <= j < i.value ==> classes[j].id != selectedId
    ensures i.None? ==> forall j :: from <= j < |classes| ==> classes[j].id != selectedId
    decreases |classes| - from
  {
    if from >= |classes| then None
    else if classes[from].id == selectedId then Some(from)
    else FindClass(classes, selectedId, from + 1)
  }

  /** `classes.find(item => item._id === selectedId) || null`: the first class with that id. */
  function SelectedClass(classes: seq<ClassItem>, selectedId: string): (c: Option<ClassItem>)
    ensures c.None? <==> forall i :: 0 <= i < |classes| ==> classes[i].id != selectedId
    ensures c.Some? ==> exists i :: (0 <= i < |classes| && classes[i] == c.value && c.value.id == selectedId
      && forall j :: 0 <= j < i ==> classes[j].id != selectedId)
  {
    match FindClass(classes, selectedId, 0)
    case None => None
    case Some(i) => Some(classes[i])
  }

  // ---------------------------------------------------------------------------
  // CSV export

  const Header: seq<string> := ["Username", "Email", "Enrollment Number", "Class", "Section"]

  /** One exported line: the student's fields and the class's, "" for anything missing. */
  function ExportRow(cls: ClassItem, st: StudentItem): (row: seq<string>)
    ensures |row| == |Header|
    ensures row[0] == BuildStudentDraft(st).username && row[1] == BuildStudentDraft(st).email
    ensures row[2] == BuildStudentDraft(st).enrollmentNumber
    ensures row[3] == cls.name.GetOr("") && row[4] == cls.section.GetOr("")
  {
    [UsernameOf(st), EmailOf(st), st.enrollmentNumber.GetOr(""), cls.name.GetOr(""), cls.section.GetOr("")]
  }

  function ExportRows(cls: ClassItem, students: seq<StudentItem>): (rows: seq<seq<string>>)
    ensures |rows| == |students|
    ensures forall i :: 0 <= i < |students| ==> rows[i] == ExportRow(cls, students[i])
  {
    seq(|students|, i requires 0 <= i < |students| => ExportRow(cls, students[i]))
  }

  /** `handleDownloadSelectedClass`: no file without a selected class, else the header and one line per student. */
  function ExportCsv(classes: seq<ClassItem>, students: seq<StudentItem>, selectedId: string): (csv: Option<string>)
    ensures csv.None? <==> SelectedClass(classes, selectedId).None?
  {
    match SelectedClass(classes, selectedId)
    case None => None
    case Some(cls) => Some(EncodeTable([Header] + ExportRows(cls, SelectedClassStudents(students, selectedId))))
  }

  /**
    Reading the exported file back gives the five-column header and then
    exactly one line per student of the selected class, in list order,
    holding that student's fields: quotes, commas or line breaks inside a
    field do not shift a cell or a line.
   */
  lemma ExportCsvReadsBack(classes: seq<ClassItem>, students: seq<StudentItem>, selectedId: string)
    requires SelectedClass(classes, selectedId).Some?
    ensures var sel := SelectedClassStudents(students, selectedId);
      var lines := ParseTable(ExportCsv(classes, students, selectedId).value);
      && lines.Some? && |lines.value| == 1 + |sel|
      && lines.value[0] == Header
      && forall i :: 0 <= i < |sel| ==> lines.value[i + 1] == ExportRow(SelectedClass(classes, selectedId).value, sel[i])
  {
    var cls := SelectedClass(classes, selectedId).value;
    var rows := [Header] + ExportRows(cls, SelectedClassStudents(students, selectedId));
    TableRoundTrip(rows);
  }
}
