/**
  `getMyResults`: a student reads their own profile, the results recorded
  for them, and those results aggregated into one sheet per exam.
 */
module StudentResults {
  import opened Common
  import opened Schema
  import opened Grouping
  import opened ResultSheets

  /** The `student` object of the answer; username and email default to "". */
  datatype Profile = Profile(id: Id, username: string, email: string, enrollmentNumber: string, classId: Id)

  /** What the handler answers; the profile and lists are empty unless the status is 200. */
  datatype MyResults = MyResults(status: Status, student: Option<Profile>, sheets: seq<FinalSheet>, results: seq<Id>)

  /** `Result.find({ studentId })`: the ids of the student's results below `bound`, in natural (id) order. */
  function ResultsOf(m: map<Id, Result>, student: Id, bound: nat): (ids: seq<Id>)
    ensures forall id :: id in ids <==> id < bound && id in m && m[id].studentId == student
    ensures forall i, j :: 0 <= i < j < |ids| ==> ids[i] < ids[j]
  {
    if bound == 0 then []
    else
      var earlier := ResultsOf(m, student, bound - 1);
      forall i | 0 <= i < |earlier|
        ensures earlier[i] < bound - 1
      {
        assert earlier[i] in earlier;
      }
      earlier + (if bound - 1 in m && m[bound - 1].studentId == student then [bound - 1] else [])
  }

  /** A result with its exam, offering and subject populated; a dangling reference populates to nothing. */
  function RowOf(s: Store, id: Id): ResultRow
    requires id in s.results
  {
    var r := s.results[id];
    var exam := if r.examId in s.exams then Some(ExamRef(r.examId, s.exams[r.examId].name, s.exams[r.examId].academicYear, s.exams[r.examId].date)) else None;
    var offering := if r.classSubjectId in s.classSubjects then Some(s.classSubjects[r.classSubjectId]) else None;
    var subject := if offering.Some? && offering.value.subjectId in s.subjects then Some(s.subjects[offering.value.subjectId].name) else None;
    ResultRow(id, exam, subject, if offering.Some? then Some(offering.value.maxMarks) else None, Some(r.marksObtained), Some(r.grade))
  }

  function RowsOf(s: Store, ids: seq<Id>): (rows: seq<ResultRow>)
    requires forall id :: id in ids ==> id in s.results
    ensures |rows| == |ids|
    ensures forall i :: 0 <= i < |ids| ==> rows[i] == RowOf(s, ids[i])
  {
    seq(|ids|, i requires 0 <= i < |ids| => RowOf(s, ids[i]))
  }

  function ProfileOf(s: Store, id: Id): Profile
    requires id in s.students
  {
    var st := s.students[id];
    var account := if st.userId in s.users then Some(s.users[st.userId]) else None;
    Profile(id, if account.Some? then account.value.username else "", if account.Some? then account.value.email else "",
            st.enrollmentNumber, st.classId)
  }

  /** The profile belonging to user `userId`, if there is one. */
  function StudentOf(s: Store, userId: Id): Option<Id> {
    FindOne(s, s.students, (st: Student) => st.userId == userId)
  }

  function GetMyResults(s: Store, user: Option<Caller>): (a: MyResults)
    ensures a.status == Forbidden <==> !Ensure(user, StudentRole)
    ensures a.status == NotFound <==> Ensure(user, StudentRole) && StudentOf(s, user.value.userId).None?
    ensures a.status in {Forbidden, NotFound, Ok}
    ensures a.status != Ok ==> a.student.None? && a.sheets == [] && a.results == []
    ensures a.status == Ok ==>
      && a.student.Some? && a.student.value.id in s.students
      && s.students[a.student.value.id].userId == user.value.userId
  {
    if !Ensure(user, StudentRole) then MyResults(Forbidden, None, [], [])
    else
      match StudentOf(s, user.value.userId)
      case None => MyResults(NotFound, None, [], [])
      case Some(sid) =>
        var ids := ResultsOf(s.results, sid, s.nextId);
        MyResults(Ok, Some(ProfileOf(s, sid)), ResultSheetsOf(RowsOf(s, ids)), ids)
  }

  /**
    A student sees exactly their own results, in id order, and nothing of
    anyone else's: with every id below `nextId`, the list holds each
    result of their profile once.
   */
  lemma MyResultsAreMine(s: Store, user: Option<Caller>)
    requires Valid(s)
    requires GetMyResults(s, user).status == Ok
    ensures var a := GetMyResults(s, user);
      forall id :: id in a.results <==> id in s.results && s.results[id].studentId == a.student.value.id
    ensures var a := GetMyResults(s, user);
      forall i, j :: 0 <= i < j < |a.results| ==> a.results[i] < a.results[j]
  {
  }

  /** The profile is the one for the caller's account, with its enrollment number and class. */
  lemma MyProfile(s: Store, user: Option<Caller>)
    requires GetMyResults(s, user).status == Ok
    ensures var p := GetMyResults(s, user).student.value;
      && p.id in s.students
      && p.enrollmentNumber == s.students[p.id].enrollmentNumber
      && p.classId == s.students[p.id].classId
      && (user.value.userId in s.users ==> p.username == s.users[user.value.userId].username && p.email == s.users[user.value.userId].email)
      && (user.value.userId !in s.users ==> p.username == "" && p.email == "")
  {
  }

  /**
    The sheets are the aggregation of the student's results: one sheet per
    exam that resolves, and every result whose exam resolves appears as
    exactly one entry.
   */
  lemma MySheets(s: Store, user: Option<Caller>)
    requires GetMyResults(s, user).status == Ok
    ensures var a := GetMyResults(s, user);
      forall id :: id in a.results ==> id in s.results
    ensures var a := GetMyResults(s, user);
      var rows := RowsOf(s, a.results);
      && a.sheets == ResultSheetsOf(rows)
      && |a.sheets| == |Order(rows, SheetKey)|
      && EntryCount(Aggregate(rows)) == |Keyed(rows, SheetKey)|
  {
    var a := GetMyResults(s, user);
    var rows := RowsOf(s, a.results);
    ResultSheetsCorrect(rows);
    EveryResolvedRowCounted(rows);
  }

  /** When every result's exam exists, every result of the student is on some sheet. */
  lemma ResolvedResultsAllCounted(s: Store, user: Option<Caller>)
    requires GetMyResults(s, user).status == Ok
    requires forall id :: id in s.results ==> s.results[id].examId in s.exams
    ensures var a := GetMyResults(s, user);
      EntryCount(Aggregate(RowsOf(s, a.results))) == |a.results|
  {
    var a := GetMyResults(s, user);
    var rows := RowsOf(s, a.results);
    EveryResolvedRowCounted(rows);
    AllKeyed(rows);
  }

  /** When every row has a key, every row is keyed. */
  lemma {:induction false} AllKeyed(rows: seq<ResultRow>)
    requires forall i :: 0 <= i < |rows| ==> rows[i].exam.Some?
    ensures Keyed(rows, SheetKey) == rows
    decreases |rows|
  {
    if rows != [] {
      var init := rows[..|rows| - 1];
      AllKeyed(init);
      assert rows == init + [rows[|rows| - 1]];
    }
  }

  /** A caller without the student role learns nothing. */
  lemma NonStudentIsForbidden(s: Store, user: Option<Caller>)
    requires user.None? || user.value.role != Some(StudentRole)
    ensures GetMyResults(s, user) == MyResults(Forbidden, None, [], [])
  {
  }
}
