/**
  The instructor's controller: recording one mark (`addResult`) behind an
  ordered chain of checks, and the class-teaching gate in front of the two
  per-class listings.
 */
module Teacher {
  import opened Common
  import opened Text
  import opened Schema
  import opened Grading

  /**
    The body of an `addResult` request. An id is `None` when it is falsy
    (absent, null or empty); the marks keep `undefined` and `null` apart.
   */
  datatype ResultRequest = ResultRequest(
    studentId: Option<Id>,
    classSubjectId: Option<Id>,
    examId: Option<Id>,
    marksObtained: Field<int>)

  /**
    The three ids must be truthy and the marks merely defined, so marks of
    zero, and an explicit `null`, count as given.
   */
  predicate HasAllFields(req: ResultRequest) {
    req.studentId.Some? && req.classSubjectId.Some? && req.examId.Some? && req.marksObtained.Defined()
  }

  /** The number the range check compares: JavaScript's `<` and `>` read `null` as 0. */
  function MarksNumber(req: ResultRequest): int
    requires HasAllFields(req)
  {
    if req.marksObtained.Given? then req.marksObtained.value else 0
  }

  /** The class subject, student and exam named by a complete request all exist. */
  predicate Resolves(s: Store, req: ResultRequest)
    requires HasAllFields(req)
  {
    req.classSubjectId.value in s.classSubjects && req.studentId.value in s.students && req.examId.value in s.exams
  }

  /** The caller teaches the offering, and student and exam both belong to its class. */
  predicate Consistent(s: Store, c: Caller, req: ResultRequest)
    requires HasAllFields(req) && Resolves(s, req)
  {
    var cs := s.classSubjects[req.classSubjectId.value];
    && cs.teacherId == c.userId
    && s.students[req.studentId.value].classId == cs.classId
    && s.exams[req.examId.value].classId == cs.classId
  }

  /** The marks lie within the offering's range. */
  predicate InRange(s: Store, req: ResultRequest)
    requires HasAllFields(req) && req.classSubjectId.value in s.classSubjects
  {
    0 <= MarksNumber(req) <= s.classSubjects[req.classSubjectId.value].maxMarks
  }

  /** Every check `addResult` makes before it writes. */
  predicate Admissible(s: Store, c: Caller, req: ResultRequest) {
    HasAllFields(req) && Resolves(s, req) && Consistent(s, c, req) && InRange(s, req)
  }

  /** The result document an admissible request asks for, graded from the offering's maximum. */
  function RequestedResult(s: Store, req: ResultRequest): (r: Result)
    requires HasAllFields(req) && req.marksObtained.Given? && req.classSubjectId.value in s.classSubjects
    ensures ResultKey(r) == (req.studentId.value, req.classSubjectId.value, req.examId.value)
    ensures r.marksObtained == req.marksObtained.value
    ensures r.grade == GradeFromMarks(req.marksObtained.value, s.classSubjects[req.classSubjectId.value].maxMarks).Label()
  {
    var g := GradeFromMarks(req.marksObtained.value, s.classSubjects[req.classSubjectId.value].maxMarks);
    LabelTrimmed(g);
    NewResult(req.studentId.value, req.classSubjectId.value, req.examId.value, req.marksObtained.value, g.Label())
  }

  /** Grade labels pass through the result schema's `trim` setter unchanged. */
  lemma LabelTrimmed(g: Grade)
    ensures Trim(g.Label()) == g.Label()
  {
    var l := g.Label();
    assert !IsWhitespace(l[0]) && !IsWhitespace(l[|l| - 1]);
    TrimOfTrimmed(l);
  }

  /** Whether a result for the same (student, class subject, exam) already exists. */
  predicate AlreadyGraded(s: Store, req: ResultRequest)
    requires HasAllFields(req)
  {
    TakenBy(s.results, ResultKey, (req.studentId.value, req.classSubjectId.value, req.examId.value), None)
  }

  function AddResult(s: Store, user: Option<Caller>, req: ResultRequest): (r: Reply)
    ensures r.status != Created ==> r.store == s
    ensures r.status == Forbidden <==>
      !Ensure(user, InstructorRole)
      || (HasAllFields(req) && Resolves(s, req) && s.classSubjects[req.classSubjectId.value].teacherId != user.value.userId)
    ensures r.status == BadRequest <==>
      Ensure(user, InstructorRole)
      && (!HasAllFields(req)
          || (Resolves(s, req) && s.classSubjects[req.classSubjectId.value].teacherId == user.value.userId
              && (!Consistent(s, user.value, req) || !InRange(s, req))))
    ensures r.status == NotFound <==> Ensure(user, InstructorRole) && HasAllFields(req) && !Resolves(s, req)
    ensures r.status == ServerError <==> Ensure(user, InstructorRole) && Admissible(s, user.value, req) && req.marksObtained.Null?
    ensures r.status == Conflict <==>
      Ensure(user, InstructorRole) && Admissible(s, user.value, req) && req.marksObtained.Given? && AlreadyGraded(s, req)
    ensures r.status == Created <==>
      Ensure(user, InstructorRole) && Admissible(s, user.value, req) && req.marksObtained.Given? && !AlreadyGraded(s, req)
    ensures r.status == Created ==> r.store == PutResult(s, RequestedResult(s, req))
  {
    if !Ensure(user, InstructorRole) then Reply(Forbidden, s)
    else if !HasAllFields(req) then Reply(BadRequest, s)
    else if req.classSubjectId.value !in s.classSubjects then Reply(NotFound, s)
    else if req.studentId.value !in s.students then Reply(NotFound, s)
    else if req.examId.value !in s.exams then Reply(NotFound, s)
    else
      var cs := s.classSubjects[req.classSubjectId.value];
      if cs.teacherId != user.value.userId then Reply(Forbidden, s)
      else if s.students[req.studentId.value].classId != cs.classId then Reply(BadRequest, s)
      else if s.exams[req.examId.value].classId != cs.classId then Reply(BadRequest, s)
      else if MarksNumber(req) < 0 || MarksNumber(req) > cs.maxMarks then Reply(BadRequest, s)
      // `Result.create` refuses null marks through `required`, before the unique index is consulted
      else if req.marksObtained.Null? then Reply(ServerError, s)
      else
        match InsertResult(s, RequestedResult(s, req))
        case Written(_, s') => Reply(Created, s')
        case Duplicate => Reply(Conflict, s)
        case Invalid => assert false; Reply(ServerError, s)
  }

  /** The role check comes before anything else: a non-instructor learns nothing about the store. */
  lemma AddResultRoleFirst(s: Store, s': Store, user: Option<Caller>, req: ResultRequest, req': ResultRequest)
    requires !Ensure(user, InstructorRole)
    ensures AddResult(s, user, req) == Reply(Forbidden, s)
    ensures AddResult(s, user, req).status == AddResult(s', user, req').status
  {
  }

  /** Missing fields are reported before any lookup, whatever the store holds. */
  lemma AddResultFieldsBeforeLookups(s: Store, s': Store, user: Option<Caller>, req: ResultRequest)
    requires Ensure(user, InstructorRole) && !HasAllFields(req)
    ensures AddResult(s, user, req).status == BadRequest
    ensures AddResult(s', user, req).status == BadRequest
  {
  }

  /**
    The three lookups are reported in order class subject, student, exam,
    and an unresolved one wins over every ownership or range problem.
   */
  lemma AddResultLookupOrder(s: Store, user: Option<Caller>, req: ResultRequest)
    requires Ensure(user, InstructorRole) && HasAllFields(req)
    ensures req.classSubjectId.value !in s.classSubjects ==> AddResult(s, user, req).status == NotFound
    ensures req.classSubjectId.value in s.classSubjects && req.studentId.value !in s.students
      ==> AddResult(s, user, req).status == NotFound
    ensures req.classSubjectId.value in s.classSubjects && req.studentId.value in s.students && req.examId.value !in s.exams
      ==> AddResult(s, user, req).status == NotFound
  {
  }

  /** A request that asks for marks of zero is complete, and so is one with null marks; only absent marks are missing. */
  lemma ZeroMarksAreGiven(sid: Id, csid: Id, eid: Id)
    ensures HasAllFields(ResultRequest(Some(sid), Some(csid), Some(eid), Given(0)))
    ensures HasAllFields(ResultRequest(Some(sid), Some(csid), Some(eid), Null))
    ensures !HasAllFields(ResultRequest(Some(sid), Some(csid), Some(eid), Undefined))
  {
  }

  /**
    `addResult` answers 500 only for null marks. A number that clears the
    controller's checks always builds a document the result schema accepts;
    null marks clear every check, the range check included since null
    compares as 0, and are then refused by `required`, whether or not the
    same result already exists.
   */
  lemma AddResultFailsOnlyForNull(s: Store, user: Option<Caller>, req: ResultRequest)
    ensures req.marksObtained.Given? || req.marksObtained.Undefined? ==> AddResult(s, user, req).status != ServerError
    ensures Ensure(user, InstructorRole) && Admissible(s, user.value, req) && req.marksObtained.Null?
      ==> AddResult(s, user, req) == Reply(ServerError, s)
  {
  }

  /** Every result `addResult` stores has non-negative marks within the offering's maximum. */
  lemma AddResultStoresGradedMarks(s: Store, user: Option<Caller>, req: ResultRequest)
    requires AddResult(s, user, req).status == Created
    ensures var r := AddResult(s, user, req).store.results[s.nextId];
      && r.studentId == req.studentId.value && r.classSubjectId == req.classSubjectId.value && r.examId == req.examId.value
      && 0 <= r.marksObtained <= s.classSubjects[r.classSubjectId].maxMarks
      && r.grade == GradeFromMarks(r.marksObtained, s.classSubjects[r.classSubjectId].maxMarks).Label()
  {
  }

  /** Recording a result keeps every schema rule and unique index, and adds exactly one result. */
  lemma AddResultKeepsValid(s: Store, user: Option<Caller>, req: ResultRequest)
    requires Valid(s)
    ensures Valid(AddResult(s, user, req).store)
    ensures AddResult(s, user, req).status == Created ==>
      |AddResult(s, user, req).store.results| == |s.results| + 1
  {
    var r := AddResult(s, user, req);
    if r.status == Created {
      var doc := RequestedResult(s, req);
      assert InsertResult(s, doc).Written?;
      InsertResultKeepsValid(s, doc);
      assert s.nextId !in s.results;
    }
  }

  /** Repeating a successful request is refused as a duplicate, and stores nothing more. */
  lemma AddResultTwiceConflicts(s: Store, user: Option<Caller>, req: ResultRequest)
    requires AddResult(s, user, req).status == Created
    ensures var s' := AddResult(s, user, req).store;
      AddResult(s', user, req) == Reply(Conflict, s')
  {
    var s' := AddResult(s, user, req).store;
    assert s'.results[s.nextId] == RequestedResult(s, req);
    assert AlreadyGraded(s', req);
  }

  // ---------------------------------------------------------------------------
  // The class-teaching gate of `listStudentsByClass` and `listExamsByClass`

  /** What a listing answers: its status and the ids it returns. */
  datatype Listing = Listing(status: Status, ids: set<Id>)

  /** `ClassSubject.exists({ teacherId, classId })`. */
  predicate Teaches(s: Store, teacher: Id, classId: Id) {
    exists id | id in s.classSubjects :: s.classSubjects[id].teacherId == teacher && s.classSubjects[id].classId == classId
  }

  /** The checks the two listings share, in order: role, `classId` present, caller teaches there. */
  function ClassGate(s: Store, user: Option<Caller>, classId: Option<Id>): (st: Status)
    ensures st == Forbidden <==> !Ensure(user, InstructorRole) || (classId.Some? && !Teaches(s, user.value.userId, classId.value))
    ensures st == BadRequest <==> Ensure(user, InstructorRole) && classId.None?
    ensures st == Ok <==> Ensure(user, InstructorRole) && classId.Some? && Teaches(s, user.value.userId, classId.value)
  {
    if !Ensure(user, InstructorRole) then Forbidden
    else if classId.None? then BadRequest
    else if !Teaches(s, user.value.userId, classId.value) then Forbidden
    else Ok
  }

  function ListStudentsByClass(s: Store, user: Option<Caller>, classId: Option<Id>): (l: Listing)
    ensures l.status == ClassGate(s, user, classId)
    ensures l.status != Ok ==> l.ids == {}
    ensures l.status == Ok ==> forall id :: id in l.ids <==> id in s.students && s.students[id].classId == classId.value
  {
    var st := ClassGate(s, user, classId);
    if st != Ok then Listing(st, {})
    else Listing(Ok, set id | id in s.students && s.students[id].classId == classId.value)
  }

  function ListExamsByClass(s: Store, user: Option<Caller>, classId: Option<Id>): (l: Listing)
    ensures l.status == ClassGate(s, user, classId)
    ensures l.status != Ok ==> l.ids == {}
    ensures l.status == Ok ==> forall id :: id in l.ids <==> id in s.exams && s.exams[id].classId == classId.value
  {
    var st := ClassGate(s, user, classId);
    if st != Ok then Listing(st, {})
    else Listing(Ok, set id | id in s.exams && s.exams[id].classId == classId.value)
  }

  /**
    An instructor who recorded a mark for an offering may list that
    offering's class: the gate in front of the listings admits everyone
    `addResult` admitted.
   */
  lemma GradingImpliesListing(s: Store, user: Option<Caller>, req: ResultRequest)
    requires AddResult(s, user, req).status == Created
    ensures var classId := s.classSubjects[req.classSubjectId.value].classId;
      ListStudentsByClass(s, user, Some(classId)).status == Ok
      && req.studentId.value in ListStudentsByClass(s, user, Some(classId)).ids
      && req.examId.value in ListExamsByClass(s, user, Some(classId)).ids
  {
    var csid := req.classSubjectId.value;
    assert s.classSubjects[csid].teacherId == user.value.userId;
    assert Teaches(s, user.value.userId, s.classSubjects[csid].classId);
  }
}
