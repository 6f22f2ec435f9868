/**
  The admin controller's state transitions: creating instructors and
  students, editing, moving and deleting students, creating classes,
  subjects, class subjects (offerings) and exams, and reassigning class
  incharges and offerings. Every handler is one atomic step from a store to
  a status and a store.
 */
module Admin {
  import opened Common
  import opened Text
  import opened Schema
  import opened Auth

  /** `userModel.findById(id)` found a user whose role is instructor. */
  predicate IsInstructor(s: Store, id: Id) {
    id in s.users && s.users[id].role == InstructorRole
  }

  // ---------------------------------------------------------------------------
  // createTeacher

  function CreateTeacher(s: Store, user: Option<Caller>, req: Credentials, hash: string -> string): (r: Reply)
    ensures r.status != Created ==> r.store == s
    ensures r.status == Forbidden <==> !Ensure(user, AdminRole)
    ensures Ensure(user, AdminRole) ==> r == Register(s, req, hash, InstructorRole)
    ensures r.status == Created ==> r.store.users[s.nextId].role == InstructorRole
  {
    if !Ensure(user, AdminRole) then Reply(Forbidden, s)
    else Register(s, req, hash, InstructorRole)
  }

  lemma CreateTeacherKeepsValid(s: Store, user: Option<Caller>, req: Credentials, hash: string -> string)
    requires Valid(s)
    ensures Valid(CreateTeacher(s, user, req, hash).store)
  {
    RegisterKeepsValid(s, req, hash, InstructorRole);
  }

  // ---------------------------------------------------------------------------
  // createStudent

  /** The body of `createStudent` and of `updateStudent`. */
  datatype StudentRequest = StudentRequest(
    username: Option<string>,
    email: Option<string>,
    password: Option<string>,
    enrollmentNumber: Option<string>,
    classId: Option<Id>)

  predicate StudentRequestComplete(req: StudentRequest) {
    Truthy(req.username) && Truthy(req.email) && Truthy(req.password) && Truthy(req.enrollmentNumber) && req.classId.Some?
  }

  /** `Student.findOne({ enrollmentNumber })`: the trim setter runs on the filter, so the trimmed number is compared. */
  predicate EnrollmentInUse(s: Store, e: string) {
    exists id | id in s.students :: s.students[id].enrollmentNumber == Trim(e)
  }

  /** The user document for a new student, setters applied. */
  function StudentAccount(req: StudentRequest, hash: string -> string): (u: User)
    requires StudentRequestComplete(req)
    ensures u.role == StudentRole && u.email == NormalEmail(req.email.value)
  {
    NewUser(req.username.value, req.email.value, hash(req.password.value), StudentRole)
  }

  /** The student document linking the user stored under `userId` to the requested class. */
  function EnrollmentRecord(req: StudentRequest, userId: Id): (st: Student)
    requires StudentRequestComplete(req)
    ensures st.userId == userId && st.classId == req.classId.value
    ensures st.enrollmentNumber == Trim(req.enrollmentNumber.value)
  {
    NewStudent(userId, req.enrollmentNumber.value, req.classId.value)
  }

  /** The checks `createStudent` makes before its first write all pass. */
  predicate StudentAdmissible(s: Store, req: StudentRequest) {
    && StudentRequestComplete(req)
    && !EmailInUse(s, req.email.value) && !EnrollmentInUse(s, req.enrollmentNumber.value)
    && req.classId.value in s.classes
  }

  /**
    `createStudent`, with its two writes in sequence: the user first, then
    the student record pointing at it. When the second write fails the
    first one stays, and the answer is a 500.
   */
  function CreateStudent(s: Store, user: Option<Caller>, req: StudentRequest, hash: string -> string): (r: Reply)
    ensures r.status in {Forbidden, BadRequest, Conflict, NotFound, Created, ServerError}
    ensures r.status != Created && r.status != ServerError ==> r.store == s
    ensures r.status == Forbidden <==> !Ensure(user, AdminRole)
    ensures r.status == BadRequest <==> Ensure(user, AdminRole) && !StudentRequestComplete(req)
    ensures r.status == Conflict <==>
      Ensure(user, AdminRole) && StudentRequestComplete(req)
      && (EmailInUse(s, req.email.value) || EnrollmentInUse(s, req.enrollmentNumber.value))
    ensures r.status == NotFound <==>
      Ensure(user, AdminRole) && StudentRequestComplete(req)
      && !EmailInUse(s, req.email.value) && !EnrollmentInUse(s, req.enrollmentNumber.value)
      && req.classId.value !in s.classes
    ensures r.status == Created ==>
      && StudentAdmissible(s, req)
      && r.store == PutStudent(PutUser(s, StudentAccount(req, hash)), EnrollmentRecord(req, s.nextId))
    ensures r.status == ServerError ==>
      && StudentAdmissible(s, req)
      && (r.store == s || r.store == PutUser(s, StudentAccount(req, hash)))
  {
    if !Ensure(user, AdminRole) then Reply(Forbidden, s)
    else if !StudentRequestComplete(req) then Reply(BadRequest, s)
    else if EmailInUse(s, req.email.value) then Reply(Conflict, s)
    else if EnrollmentInUse(s, req.enrollmentNumber.value) then Reply(Conflict, s)
    else if req.classId.value !in s.classes then Reply(NotFound, s)
    else EnrolNewAccount(s, req, hash)
  }

  /**
    The two writes of `createStudent`: the user, then the student record
    pointing at it. When the second write fails the first one stays.
   */
  function EnrolNewAccount(s: Store, req: StudentRequest, hash: string -> string): (r: Reply)
    requires StudentRequestComplete(req)
    ensures r.status == Created || r.status == ServerError
    ensures r.status == Created <==>
      && InsertUser(s, StudentAccount(req, hash)).Written?
      && InsertStudent(PutUser(s, StudentAccount(req, hash)), EnrollmentRecord(req, s.nextId)).Written?
    ensures r.status == Created ==> r.store == PutStudent(PutUser(s, StudentAccount(req, hash)), EnrollmentRecord(req, s.nextId))
    ensures r.status == ServerError ==>
      r.store == (if InsertUser(s, StudentAccount(req, hash)).Written? then PutUser(s, StudentAccount(req, hash)) else s)
  {
    var account := InsertUser(s, StudentAccount(req, hash));
    if !account.Written? then Reply(ServerError, s)
    else
      var record := InsertStudent(account.store, EnrollmentRecord(req, account.id));
      if record.Written? then Reply(Created, record.store) else Reply(ServerError, account.store)
  }

  lemma CreateStudentKeepsValid(s: Store, user: Option<Caller>, req: StudentRequest, hash: string -> string)
    requires Valid(s)
    ensures Valid(CreateStudent(s, user, req, hash).store)
  {
    var r := CreateStudent(s, user, req, hash);
    if r.status == Created || r.status == ServerError {
      var u := StudentAccount(req, hash);
      if InsertUser(s, u).Written? {
        InsertUserKeepsValid(s, u);
        var s1 := PutUser(s, u);
        if InsertStudent(s1, EnrollmentRecord(req, s.nextId)).Written? {
          InsertStudentKeepsValid(s1, EnrollmentRecord(req, s.nextId));
        }
      }
    }
  }

  /**
    On success exactly one user and one student record are added: the user
    is a student, and the record points at it and at the requested class.
   */
  lemma CreateStudentLinksUser(s: Store, user: Option<Caller>, req: StudentRequest, hash: string -> string)
    requires CreateStudent(s, user, req, hash).status == Created
    ensures var s' := CreateStudent(s, user, req, hash).store;
      && s.nextId in s'.users && s'.users[s.nextId].role == StudentRole
      && s.nextId + 1 in s'.students && s'.students[s.nextId + 1].userId == s.nextId
      && req.classId.Some? && s'.students[s.nextId + 1].classId == req.classId.value
      && s'.users.Keys == s.users.Keys + {s.nextId}
      && s'.students.Keys == s.students.Keys + {s.nextId + 1}
  {
    var u := StudentAccount(req, hash);
    var st := EnrollmentRecord(req, s.nextId);
    PutAccountThenStudent(s, u, st);
  }

  lemma PutAccountThenStudent(s: Store, u: User, st: Student)
    ensures var s' := PutStudent(PutUser(s, u), st);
      && s'.users == s.users[s.nextId := u] && s'.students == s.students[s.nextId + 1 := st]
      && s'.users.Keys == s.users.Keys + {s.nextId}
      && s'.students.Keys == s.students.Keys + {s.nextId + 1}
  {
  }

  /** On a valid store, no stored enrollment number is blank: they are all non-empty and trimmed. */
  lemma BlankEnrollmentNotInUse(s: Store, e: string)
    requires Valid(s)
    ensures Trim(e) == "" ==> !EnrollmentInUse(s, e)
  {
    if Trim(e) == "" {
      forall id | id in s.students
        ensures s.students[id].enrollmentNumber != e
      {
        assert StudentOk(s.students[id]);
      }
    }
  }

  /**
    An enrollment number made only of whitespace passes every check of
    `createStudent`, the user is created, and then the student schema
    refuses the trimmed, empty number: the answer is 500 and the new user
    stays behind without a student record.
   */
  lemma CreateStudentOrphansUser(s: Store, user: Option<Caller>, req: StudentRequest, hash: string -> string)
    requires Valid(s) && Ensure(user, AdminRole) && StudentRequestComplete(req)
    requires Trim(req.enrollmentNumber.value) == ""
    requires !EmailInUse(s, req.email.value) && req.classId.value in s.classes
    requires InsertUser(s, StudentAccount(req, hash)).Written?
    ensures CreateStudent(s, user, req, hash) == Reply(ServerError, PutUser(s, StudentAccount(req, hash)))
    ensures s.nextId in CreateStudent(s, user, req, hash).store.users
  {
    BlankEnrollmentNotInUse(s, req.enrollmentNumber.value);
    CreateStudentAdmitted(s, user, req, hash);
    BlankEnrollmentOrphans(s, req, hash);
  }

  /** The student write refuses a blank enrollment number after the user write has gone through. */
  lemma BlankEnrollmentOrphans(s: Store, req: StudentRequest, hash: string -> string)
    requires StudentRequestComplete(req) && Trim(req.enrollmentNumber.value) == ""
    requires InsertUser(s, StudentAccount(req, hash)).Written?
    ensures EnrolNewAccount(s, req, hash) == Reply(ServerError, PutUser(s, StudentAccount(req, hash)))
  {
    BlankEnrollmentRefused(s, req, hash);
  }

  lemma BlankEnrollmentRefused(s: Store, req: StudentRequest, hash: string -> string)
    requires StudentRequestComplete(req) && Trim(req.enrollmentNumber.value) == ""
    ensures !InsertStudent(PutUser(s, StudentAccount(req, hash)), EnrollmentRecord(req, s.nextId)).Written?
  {
  }

  /** Past the pre-checks, `createStudent` is exactly its two writes. */
  lemma CreateStudentAdmitted(s: Store, user: Option<Caller>, req: StudentRequest, hash: string -> string)
    requires Ensure(user, AdminRole) && StudentAdmissible(s, req)
    ensures CreateStudent(s, user, req, hash) == EnrolNewAccount(s, req, hash)
  {
  }

  /**
    `createStudent` as evidently intended: the same checks, then both
    documents are checked against their schemas and indexes before either
    is written, so a refusal leaves the store as it was.
   */
  function CreateStudentChecked(s: Store, user: Option<Caller>, req: StudentRequest, hash: string -> string): (r: Reply)
    ensures r.status != Created ==> r.store == s
  {
    if !Ensure(user, AdminRole) then Reply(Forbidden, s)
    else if !StudentRequestComplete(req) then Reply(BadRequest, s)
    else if EmailInUse(s, req.email.value) then Reply(Conflict, s)
    else if EnrollmentInUse(s, req.enrollmentNumber.value) then Reply(Conflict, s)
    else if req.classId.value !in s.classes then Reply(NotFound, s)
    else EnrolAtomically(s, req, hash)
  }

  /** Both writes of `createStudent`, or neither. */
  function EnrolAtomically(s: Store, req: StudentRequest, hash: string -> string): (r: Reply)
    requires StudentRequestComplete(req)
    ensures r.status != Created ==> r == Reply(ServerError, s)
    ensures r.status == Created <==> EnrolNewAccount(s, req, hash).status == Created
    ensures r.status == Created ==> r == EnrolNewAccount(s, req, hash)
  {
    var u := StudentAccount(req, hash);
    var st := EnrollmentRecord(req, s.nextId);
    if InsertUser(s, u).Written? && InsertStudent(PutUser(s, u), st).Written? then Reply(Created, PutStudent(PutUser(s, u), st))
    else Reply(ServerError, s)
  }

  /**
    The corrected handler answers with the same status as the original on
    every input, and with the same store except where the original leaves
    an orphan user behind.
   */
  lemma CreateStudentCheckedAgrees(s: Store, user: Option<Caller>, req: StudentRequest, hash: string -> string)
    ensures CreateStudentChecked(s, user, req, hash).status == CreateStudent(s, user, req, hash).status
    ensures CreateStudent(s, user, req, hash).status != ServerError ==>
      CreateStudentChecked(s, user, req, hash) == CreateStudent(s, user, req, hash)
  {
    if Ensure(user, AdminRole) && StudentAdmissible(s, req) {
      CreateStudentAdmitted(s, user, req, hash);
    }
  }

  /** The blank enrollment number that orphans a user with the original is refused cleanly by the corrected handler. */
  lemma CreateStudentCheckedNoOrphan(s: Store, user: Option<Caller>, req: StudentRequest, hash: string -> string)
    requires Valid(s) && Ensure(user, AdminRole) && StudentRequestComplete(req)
    requires Trim(req.enrollmentNumber.value) == ""
    requires !EmailInUse(s, req.email.value) && req.classId.value in s.classes
    ensures CreateStudentChecked(s, user, req, hash) == Reply(ServerError, s)
  {
    BlankEnrollmentNotInUse(s, req.enrollmentNumber.value);
    BlankEnrollmentRefused(s, req, hash);
  }

  // ---------------------------------------------------------------------------
  // updateStudent

  /** The user after the edits the request asks for; absent fields keep their values, present ones pass the setters. */
  function EditedUser(u: User, req: StudentRequest, hash: string -> string): User {
    u.(email := if Truthy(req.email) then NormalEmail(req.email.value) else u.email,
       username := if Truthy(req.username) then Trim(req.username.value) else u.username,
       password := if Truthy(req.password) then hash(req.password.value) else u.password)
  }

  /** The student record after the edits; a class change keeps the record's other fields. */
  function EditedStudent(st: Student, req: StudentRequest): Student {
    st.(enrollmentNumber := if Truthy(req.enrollmentNumber) then Trim(req.enrollmentNumber.value) else st.enrollmentNumber,
        classId := req.classId.GetOr(st.classId))
  }

  /** Another user already has the normalised email the request asks for. */
  predicate EmailClash(s: Store, req: StudentRequest, userId: Id) {
    Truthy(req.email) && TakenBy(s.users, UserEmail, NormalEmail(req.email.value), Some(userId))
  }

  /** Another student already has the trimmed enrollment number the request asks for. */
  predicate EnrollmentClash(s: Store, req: StudentRequest, studentId: Id) {
    Truthy(req.enrollmentNumber) && TakenBy(s.students, Enrollment, Trim(req.enrollmentNumber.value), Some(studentId))
  }

  /** The student and the user account behind it both exist. */
  predicate AccountFound(s: Store, studentId: Id) {
    studentId in s.students && s.students[studentId].userId in s.users
  }

  function UpdateStudent(s: Store, user: Option<Caller>, studentId: Id, req: StudentRequest, hash: string -> string): (r: Reply)
    ensures r.status in {Forbidden, NotFound, Conflict, Ok, ServerError}
    ensures r.status != Ok ==> r.store == s
    ensures r.status == Forbidden <==> !Ensure(user, AdminRole)
    ensures r.status == Conflict <==>
      Ensure(user, AdminRole) && AccountFound(s, studentId)
      && (EmailClash(s, req, s.students[studentId].userId) || EnrollmentClash(s, req, studentId))
    ensures r.status == NotFound <==>
      Ensure(user, AdminRole)
      && (!AccountFound(s, studentId)
          || (!EmailClash(s, req, s.students[studentId].userId) && !EnrollmentClash(s, req, studentId)
              && req.classId.Some? && req.classId.value !in s.classes))
    ensures r.status == Ok ==>
      var st := s.students[studentId];
      r.store == SetUserAndStudent(s, st.userId, EditedUser(s.users[st.userId], req, hash), studentId, EditedStudent(st, req))
  {
    if !Ensure(user, AdminRole) then Reply(Forbidden, s)
    else if studentId !in s.students then Reply(NotFound, s)
    else
      var st := s.students[studentId];
      if st.userId !in s.users then Reply(NotFound, s)
      else if EmailClash(s, req, st.userId) then Reply(Conflict, s)
      else if EnrollmentClash(s, req, studentId) then Reply(Conflict, s)
      else if req.classId.Some? && req.classId.value !in s.classes then Reply(NotFound, s)
      else
        match SaveUserAndStudent(s, st.userId, EditedUser(s.users[st.userId], req, hash), studentId, EditedStudent(st, req))
        case Written(_, s') => Reply(Ok, s')
        case _ => Reply(ServerError, s)
  }

  lemma UpdateStudentKeepsValid(s: Store, user: Option<Caller>, studentId: Id, req: StudentRequest, hash: string -> string)
    requires Valid(s)
    ensures Valid(UpdateStudent(s, user, studentId, req, hash).store)
  {
    if UpdateStudent(s, user, studentId, req, hash).status == Ok {
      var st := s.students[studentId];
      SaveUserAndStudentKeepsValid(s, st.userId, EditedUser(s.users[st.userId], req, hash), studentId, EditedStudent(st, req));
    }
  }

  /**
    A successful edit stores the email trimmed and lower-cased and the
    username and enrollment number trimmed, keeps every field the request
    leaves out, keeps the user's role, and leaves the results alone.
   */
  lemma UpdateStudentStoresNormalised(s: Store, user: Option<Caller>, studentId: Id, req: StudentRequest, hash: string -> string)
    requires UpdateStudent(s, user, studentId, req, hash).status == Ok
    ensures AccountFound(s, studentId)
    ensures var s' := UpdateStudent(s, user, studentId, req, hash).store;
      var st := s.students[studentId];
      var u := s.users[st.userId];
      && st.userId in s'.users && studentId in s'.students
      && s'.users[st.userId].email == (if Truthy(req.email) then ToLower(Trim(req.email.value)) else u.email)
      && s'.users[st.userId].username == (if Truthy(req.username) then Trim(req.username.value) else u.username)
      && s'.users[st.userId].password == (if Truthy(req.password) then hash(req.password.value) else u.password)
      && s'.users[st.userId].role == u.role
      && s'.students[studentId].userId == st.userId
      && s'.students[studentId].enrollmentNumber == (if Truthy(req.enrollmentNumber) then Trim(req.enrollmentNumber.value) else st.enrollmentNumber)
      && s'.students[studentId].classId == (if req.classId.Some? then req.classId.value else st.classId)
      && s'.results == s.results
  {
  }

  /**
    The uniqueness pre-checks leave out the record being edited: re-sending
    a student's own email (in any case) and own enrollment number is no
    conflict.
   */
  lemma UpdateStudentExcludesSelf(s: Store, studentId: Id, req: StudentRequest)
    requires Valid(s) && AccountFound(s, studentId)
    requires Truthy(req.email) && NormalEmail(req.email.value) == s.users[s.students[studentId].userId].email
    requires Truthy(req.enrollmentNumber) && Trim(req.enrollmentNumber.value) == s.students[studentId].enrollmentNumber
    ensures !EmailClash(s, req, s.students[studentId].userId)
    ensures !EnrollmentClash(s, req, studentId)
  {
    assert Unique(s.users, UserEmail) && Unique(s.students, Enrollment);
    var userId := s.students[studentId].userId;
    forall id | id in s.users && UserEmail(s.users[id]) == NormalEmail(req.email.value)
      ensures id == userId
    {
      assert UserEmail(s.users[id]) == UserEmail(s.users[userId]);
    }
    forall id | id in s.students && Enrollment(s.students[id]) == Trim(req.enrollmentNumber.value)
      ensures id == studentId
    {
      assert Enrollment(s.students[id]) == Enrollment(s.students[studentId]);
    }
  }

  // ---------------------------------------------------------------------------
  // deleteStudent

  function DeleteStudent(s: Store, user: Option<Caller>, studentId: Id): (r: Reply)
    ensures r.status in {Forbidden, NotFound, Ok}
    ensures r.status != Ok ==> r.store == s
    ensures r.status == Forbidden <==> !Ensure(user, AdminRole)
    ensures r.status == NotFound <==> Ensure(user, AdminRole) && studentId !in s.students
    ensures r.status == Ok ==>
      && studentId !in r.store.students && s.students[studentId].userId !in r.store.users
      && (forall id :: id in r.store.students <==> id in s.students && id != studentId)
      && (forall id :: id in r.store.users <==> id in s.users && id != s.students[studentId].userId)
      && (forall id :: id in r.store.students ==> r.store.students[id] == s.students[id])
      && (forall id :: id in r.store.users ==> r.store.users[id] == s.users[id])
      && r.store.results == s.results && r.store.classSubjects == s.classSubjects && r.store.exams == s.exams
      && r.store.classes == s.classes && r.store.subjects == s.subjects
  {
    if !Ensure(user, AdminRole) then Reply(Forbidden, s)
    else if studentId !in s.students then Reply(NotFound, s)
    else Reply(Ok, RemoveStudentAndUser(s, studentId, s.students[studentId].userId))
  }

  lemma DeleteStudentKeepsValid(s: Store, user: Option<Caller>, studentId: Id)
    requires Valid(s)
    ensures Valid(DeleteStudent(s, user, studentId).store)
  {
    if DeleteStudent(s, user, studentId).status == Ok {
      RemoveKeepsValid(s, studentId, s.students[studentId].userId);
    }
  }

  // ---------------------------------------------------------------------------
  // shiftStudentClass

  function ShiftStudentClass(s: Store, user: Option<Caller>, studentId: Id, classId: Option<Id>): (r: Reply)
    ensures r.status in {Forbidden, BadRequest, NotFound, Ok, ServerError}
    ensures r.status != Ok ==> r.store == s
    ensures r.status == Forbidden <==> !Ensure(user, AdminRole)
    ensures r.status == BadRequest <==> Ensure(user, AdminRole) && classId.None?
    ensures r.status == NotFound <==>
      Ensure(user, AdminRole) && classId.Some? && (studentId !in s.students || classId.value !in s.classes)
    ensures r.status == Ok ==>
      r.store == SetStudent(s, studentId, s.students[studentId].(classId := classId.value))
  {
    if !Ensure(user, AdminRole) then Reply(Forbidden, s)
    else if classId.None? then Reply(BadRequest, s)
    else if studentId !in s.students then Reply(NotFound, s)
    else if classId.value !in s.classes then Reply(NotFound, s)
    else
      match SaveStudent(s, studentId, s.students[studentId].(classId := classId.value))
      case Written(_, s') => Reply(Ok, s')
      case _ => Reply(ServerError, s)
  }

  /**
    On a valid store a move never fails, keeps the store valid, and leaves
    the student's results exactly as they were.
   */
  lemma ShiftStudentClassKeepsValid(s: Store, user: Option<Caller>, studentId: Id, classId: Option<Id>)
    requires Valid(s)
    ensures ShiftStudentClass(s, user, studentId, classId).status != ServerError
    ensures Valid(ShiftStudentClass(s, user, studentId, classId).store)
    ensures ShiftStudentClass(s, user, studentId, classId).store.results == s.results
  {
    if Ensure(user, AdminRole) && classId.Some? && studentId in s.students && classId.value in s.classes {
      SaveStudentSameKeys(s, studentId, s.students[studentId].(classId := classId.value));
    }
  }

  // ---------------------------------------------------------------------------
  // createClass

  /** The class name and section as the controller normalises them. */
  function ClassNameOf(name: string): string { Trim(name) }
  function SectionOf(section: string): string { ToUpper(Trim(section)) }

  function CreateClass(s: Store, user: Option<Caller>, name: Option<string>, section: Option<string>, incharge: Option<Id>): (r: Reply)
    ensures r.status in {Forbidden, BadRequest, Conflict, Created, ServerError}
    ensures r.status != Created ==> r.store == s
    ensures r.status == Forbidden <==> !Ensure(user, AdminRole)
    ensures r.status == Conflict <==>
      Ensure(user, AdminRole) && Truthy(name) && Truthy(section)
      && TakenBy(s.classes, ClassKey, (ClassNameOf(name.value), SectionOf(section.value)), None)
    ensures r.status == BadRequest <==>
      Ensure(user, AdminRole)
      && (!Truthy(name) || !Truthy(section)
          || (!TakenBy(s.classes, ClassKey, (ClassNameOf(name.value), SectionOf(section.value)), None)
              && incharge.Some? && !IsInstructor(s, incharge.value)))
    ensures r.status == Created ==>
      && Truthy(name) && Truthy(section)
      && r.store == PutClass(s, NewClass(ClassNameOf(name.value), SectionOf(section.value), incharge))
      && IsSection(r.store.classes[s.nextId].section)
      && r.store.classes[s.nextId].inchargeId == incharge
      && (incharge.Some? ==> IsInstructor(s, incharge.value))
  {
    if !Ensure(user, AdminRole) then Reply(Forbidden, s)
    else if !Truthy(name) || !Truthy(section) then Reply(BadRequest, s)
    else
      var n := ClassNameOf(name.value);
      var sec := SectionOf(section.value);
      if TakenBy(s.classes, ClassKey, (n, sec), None) then Reply(Conflict, s)
      else if incharge.Some? && !IsInstructor(s, incharge.value) then Reply(BadRequest, s)
      else
        match InsertClass(s, NewClass(n, sec, incharge))
        case Written(_, s') => Reply(Created, s')
        case _ => Reply(ServerError, s)
  }

  lemma CreateClassKeepsValid(s: Store, user: Option<Caller>, name: Option<string>, section: Option<string>, incharge: Option<Id>)
    requires Valid(s)
    ensures Valid(CreateClass(s, user, name, section, incharge).store)
  {
    if CreateClass(s, user, name, section, incharge).status == Created {
      InsertClassKeepsValid(s, NewClass(ClassNameOf(name.value), SectionOf(section.value), incharge));
    }
  }

  /**
    Past the pre-checks, the class is stored exactly with the normalised
    name and section the duplicate check looked for. The schema then
    decides: an all-blank name or a section outside A-D is refused, and
    the controller answers 500 rather than 400.
   */
  lemma CreateClassOutcome(s: Store, user: Option<Caller>, name: Option<string>, section: Option<string>, incharge: Option<Id>)
    requires Ensure(user, AdminRole) && Truthy(name) && Truthy(section)
    requires !TakenBy(s.classes, ClassKey, (ClassNameOf(name.value), SectionOf(section.value)), None)
    requires incharge.None? || IsInstructor(s, incharge.value)
    ensures var r := CreateClass(s, user, name, section, incharge);
      && (r.status == Created <==> ClassNameOf(name.value) != "" && IsSection(SectionOf(section.value)))
      && (r.status != Created ==> r.status == ServerError)
      && (r.status == Created ==> r.store.classes[s.nextId] == Class(ClassNameOf(name.value), SectionOf(section.value), incharge))
  {
    var c := NewClass(ClassNameOf(name.value), SectionOf(section.value), incharge);
    ClassWriteDecides(s, user, name, section, incharge);
    NormalisedClass(name.value, section.value, incharge);
  }

  /** Past the pre-checks, the schema's verdict on the normalised class is the handler's answer. */
  lemma ClassWriteDecides(s: Store, user: Option<Caller>, name: Option<string>, section: Option<string>, incharge: Option<Id>)
    requires Ensure(user, AdminRole) && Truthy(name) && Truthy(section)
    requires !TakenBy(s.classes, ClassKey, (ClassNameOf(name.value), SectionOf(section.value)), None)
    requires incharge.None? || IsInstructor(s, incharge.value)
    ensures var c := NewClass(ClassNameOf(name.value), SectionOf(section.value), incharge);
      var r := CreateClass(s, user, name, section, incharge);
      && (r.status == Created <==> InsertClass(s, c).Written?)
      && (r.status != Created ==> r.status == ServerError)
      && (r.status == Created ==> r.store == PutClass(s, c))
  {
  }

  /** Normalising again changes nothing; the schema accepts the class iff the name is non-blank and the section is A-D. */
  lemma NormalisedClass(name: string, section: string, incharge: Option<Id>)
    ensures var c := NewClass(ClassNameOf(name), SectionOf(section), incharge);
      && c == Class(ClassNameOf(name), SectionOf(section), incharge)
      && (ClassOk(c) <==> ClassNameOf(name) != "" && IsSection(SectionOf(section)))
  {
    TrimIdempotent(name);
    UpperOfTrimmed(section);
  }

  /** Sections are upper-cased before the schema's A-D check: "b" is stored as "B", "e" is refused. */
  lemma SectionExamples()
    ensures SectionOf("b") == "B" && IsSection(SectionOf("b"))
    ensures SectionOf("e") == "E" && !IsSection(SectionOf("e"))
  {
    TrimOfTrimmed("b");
    UpperB();
    TrimOfTrimmed("e");
    UpperE();
  }

  lemma UpperB()
    ensures ToUpper("b") == "B"
  {
  }

  lemma UpperE()
    ensures ToUpper("e") == "E"
  {
  }

  // ---------------------------------------------------------------------------
  // updateClassIncharge

  function UpdateClassIncharge(s: Store, user: Option<Caller>, classId: Option<Id>, incharge: Option<Id>): (r: Reply)
    ensures r.status in {Forbidden, BadRequest, NotFound, Ok, ServerError}
    ensures r.status != Ok ==> r.store == s
    ensures r.status == Forbidden <==> !Ensure(user, AdminRole)
    ensures r.status == NotFound <==> Ensure(user, AdminRole) && classId.Some? && incharge.Some? && classId.value !in s.classes
    ensures r.status == BadRequest <==>
      Ensure(user, AdminRole)
      && (classId.None? || incharge.None? || (classId.value in s.classes && !IsInstructor(s, incharge.value)))
    ensures r.status == Ok ==>
      IsInstructor(s, incharge.value)
      && r.store == SetClass(s, classId.value, s.classes[classId.value].(inchargeId := incharge))
  {
    if !Ensure(user, AdminRole) then Reply(Forbidden, s)
    else if classId.None? then Reply(BadRequest, s)
    else if incharge.None? then Reply(BadRequest, s)
    else if classId.value !in s.classes then Reply(NotFound, s)
    else if !IsInstructor(s, incharge.value) then Reply(BadRequest, s)
    else
      match SaveClass(s, classId.value, s.classes[classId.value].(inchargeId := incharge))
      case Written(_, s') => Reply(Ok, s')
      case _ => Reply(ServerError, s)
  }

  lemma UpdateClassInchargeKeepsValid(s: Store, user: Option<Caller>, classId: Option<Id>, incharge: Option<Id>)
    requires Valid(s)
    ensures UpdateClassIncharge(s, user, classId, incharge).status != ServerError
    ensures Valid(UpdateClassIncharge(s, user, classId, incharge).store)
  {
    if Ensure(user, AdminRole) && classId.Some? && incharge.Some? && classId.value in s.classes && IsInstructor(s, incharge.value) {
      var c := s.classes[classId.value].(inchargeId := incharge);
      SaveClassSameKey(s, classId.value, c);
      InchargeSaved(s, user, classId, incharge);
    } else {
      InchargeRefused(s, user, classId, incharge);
    }
  }

  lemma InchargeSaved(s: Store, user: Option<Caller>, classId: Option<Id>, incharge: Option<Id>)
    requires Ensure(user, AdminRole) && classId.Some? && incharge.Some? && classId.value in s.classes && IsInstructor(s, incharge.value)
    requires SaveClass(s, classId.value, s.classes[classId.value].(inchargeId := incharge)).Written?
    ensures UpdateClassIncharge(s, user, classId, incharge) == Reply(Ok, SetClass(s, classId.value, s.classes[classId.value].(inchargeId := incharge)))
  {
  }

  lemma InchargeRefused(s: Store, user: Option<Caller>, classId: Option<Id>, incharge: Option<Id>)
    requires !(Ensure(user, AdminRole) && classId.Some? && incharge.Some? && classId.value in s.classes && IsInstructor(s, incharge.value))
    ensures UpdateClassIncharge(s, user, classId, incharge).store == s
    ensures UpdateClassIncharge(s, user, classId, incharge).status != ServerError
  {
  }

  // ---------------------------------------------------------------------------
  // createSubject

  /** `Subject.findOne({ name })`: the trim setter runs on the filter, so the trimmed name is compared. */
  predicate SubjectNameInUse(s: Store, name: string) {
    exists id | id in s.subjects :: s.subjects[id].name == Trim(name)
  }

  function CreateSubject(s: Store, user: Option<Caller>, name: Option<string>): (r: Reply)
    ensures r.status in {Forbidden, BadRequest, Conflict, Created, ServerError}
    ensures r.status != Created ==> r.store == s
    ensures r.status == Forbidden <==> !Ensure(user, AdminRole)
    ensures r.status == BadRequest <==> Ensure(user, AdminRole) && !Truthy(name)
    ensures r.status == Conflict <==> Ensure(user, AdminRole) && Truthy(name) && SubjectNameInUse(s, name.value)
    ensures r.status == Created ==> Truthy(name) && r.store == PutSubject(s, NewSubject(name.value))
  {
    if !Ensure(user, AdminRole) then Reply(Forbidden, s)
    else if !Truthy(name) then Reply(BadRequest, s)
    else if SubjectNameInUse(s, name.value) then Reply(Conflict, s)
    else
      match InsertSubject(s, NewSubject(name.value))
      case Written(_, s') => Reply(Created, s')
      case _ => Reply(ServerError, s)
  }

  lemma CreateSubjectKeepsValid(s: Store, user: Option<Caller>, name: Option<string>)
    requires Valid(s)
    ensures Valid(CreateSubject(s, user, name).store)
  {
    if CreateSubject(s, user, name).status == Created {
      InsertSubjectKeepsValid(s, NewSubject(name.value));
    }
  }

  // ---------------------------------------------------------------------------
  // createClassSubject

  /** The body of `createClassSubject`: ids are tested for truthiness, `maxMarks` with `=== undefined`. */
  datatype OfferingRequest = OfferingRequest(subjectId: Option<Id>, classId: Option<Id>, teacherId: Option<Id>, maxMarks: Field<int>)

  /** An explicit `null` for `maxMarks` passes this check. */
  predicate OfferingRequestComplete(req: OfferingRequest) {
    req.subjectId.Some? && req.classId.Some? && req.teacherId.Some? && req.maxMarks.Defined()
  }

  /** The schema's `required`, `min` and `max` accept the requested `maxMarks`. */
  predicate MaxMarksAccepted(req: OfferingRequest) {
    req.maxMarks.Given? && 0 <= req.maxMarks.value <= 100
  }

  /** Subject and class exist and the teacher is an instructor. */
  predicate OfferingResolves(s: Store, req: OfferingRequest)
    requires OfferingRequestComplete(req)
  {
    req.subjectId.value in s.subjects && req.classId.value in s.classes && IsInstructor(s, req.teacherId.value)
  }

  function RequestedOffering(req: OfferingRequest): ClassSubject
    requires OfferingRequestComplete(req) && req.maxMarks.Given?
  {
    ClassSubject(req.subjectId.value, req.classId.value, req.maxMarks.value, req.teacherId.value)
  }

  /**
    `createClassSubject`. The controller never looks at the size of
    `maxMarks`; the schema's bounds refuse an out-of-range value, and its
    `required` refuses `null`, and either surfaces as a 500.
   */
  function CreateClassSubject(s: Store, user: Option<Caller>, req: OfferingRequest): (r: Reply)
    ensures r.status in {Forbidden, BadRequest, NotFound, Conflict, Created, ServerError}
    ensures r.status != Created ==> r.store == s
    ensures r.status == Forbidden <==> !Ensure(user, AdminRole)
    ensures r.status == NotFound <==>
      Ensure(user, AdminRole) && OfferingRequestComplete(req)
      && (req.subjectId.value !in s.subjects || req.classId.value !in s.classes)
    ensures r.status == BadRequest <==>
      Ensure(user, AdminRole)
      && (!OfferingRequestComplete(req)
          || (req.subjectId.value in s.subjects && req.classId.value in s.classes && !IsInstructor(s, req.teacherId.value)))
    ensures r.status == Conflict <==>
      Ensure(user, AdminRole) && OfferingRequestComplete(req) && OfferingResolves(s, req)
      && TakenBy(s.classSubjects, OfferingKey, (req.subjectId.value, req.classId.value), None)
    ensures r.status == ServerError <==>
      Ensure(user, AdminRole) && OfferingRequestComplete(req) && OfferingResolves(s, req)
      && !TakenBy(s.classSubjects, OfferingKey, (req.subjectId.value, req.classId.value), None)
      && !MaxMarksAccepted(req)
    ensures r.status == Created ==>
      OfferingRequestComplete(req) && MaxMarksAccepted(req)
      && r.store == PutClassSubject(s, RequestedOffering(req))
  {
    if !Ensure(user, AdminRole) then Reply(Forbidden, s)
    else if !OfferingRequestComplete(req) then Reply(BadRequest, s)
    else if req.subjectId.value !in s.subjects then Reply(NotFound, s)
    else if req.classId.value !in s.classes then Reply(NotFound, s)
    else if !IsInstructor(s, req.teacherId.value) then Reply(BadRequest, s)
    else if TakenBy(s.classSubjects, OfferingKey, (req.subjectId.value, req.classId.value), None) then Reply(Conflict, s)
    else if req.maxMarks.Null? then Reply(ServerError, s)
    else
      match InsertClassSubject(s, RequestedOffering(req))
      case Written(_, s') => Reply(Created, s')
      case _ => Reply(ServerError, s)
  }

  lemma CreateClassSubjectKeepsValid(s: Store, user: Option<Caller>, req: OfferingRequest)
    requires Valid(s)
    ensures Valid(CreateClassSubject(s, user, req).store)
  {
    if CreateClassSubject(s, user, req).status == Created {
      InsertClassSubjectKeepsValid(s, RequestedOffering(req));
    }
  }

  // ---------------------------------------------------------------------------
  // updateClassSubject

  /** The offering after the edits; an absent field keeps its value. */
  function EditedOffering(cs: ClassSubject, teacherId: Option<Id>, maxMarks: Option<int>): (e: ClassSubject)
    ensures e.subjectId == cs.subjectId && e.classId == cs.classId
    ensures e.teacherId == teacherId.GetOr(cs.teacherId) && e.maxMarks == maxMarks.GetOr(cs.maxMarks)
  {
    cs.(teacherId := teacherId.GetOr(cs.teacherId), maxMarks := maxMarks.GetOr(cs.maxMarks))
  }

  /** `Number(maxMarks)` of a defined field, where `Number(null)` is 0; nothing when the field is undefined. */
  function ParsedMaxMarks(maxMarks: Field<int>): (n: Option<int>)
    ensures n.None? <==> maxMarks.Undefined?
    ensures maxMarks.Null? ==> n == Some(0)
    ensures maxMarks.Given? ==> n == Some(maxMarks.value)
  {
    match maxMarks
    case Undefined => None
    case Null => Some(0)
    case Given(m) => Some(m)
  }

  /** A defined `teacherId` names an instructor; `findById(null)` finds nobody. */
  predicate TeacherEditOk(s: Store, teacherId: Field<Id>) {
    teacherId.Defined() ==> teacherId.Given? && IsInstructor(s, teacherId.value)
  }

  /** A defined `maxMarks` converts to a number in [0, 100]. */
  predicate MaxMarksEditOk(maxMarks: Field<int>) {
    maxMarks.Defined() ==> 0 <= ParsedMaxMarks(maxMarks).value <= 100
  }

  /** The offering `updateClassSubject` saves: the found teacher and the converted `maxMarks`. */
  function OfferingAfterEdit(s: Store, classSubjectId: Id, teacherId: Field<Id>, maxMarks: Field<int>): ClassSubject
    requires classSubjectId in s.classSubjects
  {
    EditedOffering(s.classSubjects[classSubjectId], teacherId.ToOption(), ParsedMaxMarks(maxMarks))
  }

  function UpdateClassSubject(s: Store, user: Option<Caller>, classSubjectId: Id, teacherId: Field<Id>, maxMarks: Field<int>): (r: Reply)
    ensures r.status in {Forbidden, BadRequest, NotFound, Ok, ServerError}
    ensures r.status != Ok ==> r.store == s
    ensures r.status == Forbidden <==> !Ensure(user, AdminRole)
    ensures r.status == NotFound <==>
      Ensure(user, AdminRole) && (teacherId.Defined() || maxMarks.Defined()) && classSubjectId !in s.classSubjects
    ensures r.status == BadRequest <==>
      Ensure(user, AdminRole)
      && ((teacherId.Undefined? && maxMarks.Undefined?)
          || (classSubjectId in s.classSubjects
              && ((teacherId.Defined() && !(teacherId.Given? && IsInstructor(s, teacherId.value)))
                  || (maxMarks.Defined() && !(0 <= ParsedMaxMarks(maxMarks).value <= 100)))))
    ensures r.status == Ok ==>
      && classSubjectId in s.classSubjects
      && (teacherId.Defined() ==> teacherId.Given? && IsInstructor(s, teacherId.value))
      && r.store == SetClassSubject(s, classSubjectId, OfferingAfterEdit(s, classSubjectId, teacherId, maxMarks))
      && classSubjectId in r.store.classSubjects
      && (maxMarks.Null? ==> r.store.classSubjects[classSubjectId].maxMarks == 0)
      && (maxMarks.Given? ==> 0 <= maxMarks.value <= 100 && r.store.classSubjects[classSubjectId].maxMarks == maxMarks.value)
  {
    if !Ensure(user, AdminRole) then Reply(Forbidden, s)
    else if teacherId.Undefined? && maxMarks.Undefined? then Reply(BadRequest, s)
    else if classSubjectId !in s.classSubjects then Reply(NotFound, s)
    else if teacherId.Defined() && !(teacherId.Given? && IsInstructor(s, teacherId.value)) then Reply(BadRequest, s)
    else if maxMarks.Defined() && (ParsedMaxMarks(maxMarks).value < 0 || ParsedMaxMarks(maxMarks).value > 100) then Reply(BadRequest, s)
    else
      var cs := OfferingAfterEdit(s, classSubjectId, teacherId, maxMarks);
      match SaveClassSubject(s, classSubjectId, cs)
      case Written(_, s') => Reply(Ok, s')
      case _ => Reply(ServerError, s)
  }

  /** On a valid store an edit of an offering never fails and keeps the store valid. */
  lemma UpdateClassSubjectKeepsValid(s: Store, user: Option<Caller>, classSubjectId: Id, teacherId: Field<Id>, maxMarks: Field<int>)
    requires Valid(s)
    ensures UpdateClassSubject(s, user, classSubjectId, teacherId, maxMarks).status != ServerError
    ensures Valid(UpdateClassSubject(s, user, classSubjectId, teacherId, maxMarks).store)
  {
    if EditAccepted(s, user, classSubjectId, teacherId, maxMarks) {
      var cs := s.classSubjects[classSubjectId];
      assert ClassSubjectOk(cs);
      SaveClassSubjectSameKey(s, classSubjectId, OfferingAfterEdit(s, classSubjectId, teacherId, maxMarks));
      OfferingSaved(s, user, classSubjectId, teacherId, maxMarks);
    } else {
      OfferingRefused(s, user, classSubjectId, teacherId, maxMarks);
    }
  }

  /** Every check of `updateClassSubject` before its save passes. */
  predicate EditAccepted(s: Store, user: Option<Caller>, classSubjectId: Id, teacherId: Field<Id>, maxMarks: Field<int>) {
    && Ensure(user, AdminRole) && (teacherId.Defined() || maxMarks.Defined()) && classSubjectId in s.classSubjects
    && TeacherEditOk(s, teacherId) && MaxMarksEditOk(maxMarks)
  }

  lemma OfferingSaved(s: Store, user: Option<Caller>, classSubjectId: Id, teacherId: Field<Id>, maxMarks: Field<int>)
    requires EditAccepted(s, user, classSubjectId, teacherId, maxMarks)
    requires SaveClassSubject(s, classSubjectId, OfferingAfterEdit(s, classSubjectId, teacherId, maxMarks)).Written?
    ensures UpdateClassSubject(s, user, classSubjectId, teacherId, maxMarks)
      == Reply(Ok, SetClassSubject(s, classSubjectId, OfferingAfterEdit(s, classSubjectId, teacherId, maxMarks)))
  {
  }

  lemma OfferingRefused(s: Store, user: Option<Caller>, classSubjectId: Id, teacherId: Field<Id>, maxMarks: Field<int>)
    requires !EditAccepted(s, user, classSubjectId, teacherId, maxMarks)
    ensures UpdateClassSubject(s, user, classSubjectId, teacherId, maxMarks).store == s
    ensures UpdateClassSubject(s, user, classSubjectId, teacherId, maxMarks).status != ServerError
  {
  }

  /**
    An explicit `null` is a value for `updateClassSubject`. `{ maxMarks: null }`
    converts to 0 and is saved, and `{ teacherId: null }` looks up no teacher
    and is refused, whatever `maxMarks` comes with it.
   */
  lemma NullOfferingEdits(s: Store, user: Option<Caller>, classSubjectId: Id, maxMarks: Field<int>)
    requires Valid(s) && Ensure(user, AdminRole) && classSubjectId in s.classSubjects
    ensures UpdateClassSubject(s, user, classSubjectId, Undefined, Null)
      == Reply(Ok, SetClassSubject(s, classSubjectId, s.classSubjects[classSubjectId].(maxMarks := 0)))
    ensures UpdateClassSubject(s, user, classSubjectId, Null, maxMarks) == Reply(BadRequest, s)
  {
    var cs := s.classSubjects[classSubjectId];
    assert ClassSubjectOk(cs);
    assert OfferingAfterEdit(s, classSubjectId, Undefined, Null) == cs.(maxMarks := 0);
    SaveClassSubjectSameKey(s, classSubjectId, cs.(maxMarks := 0));
    OfferingSaved(s, user, classSubjectId, Undefined, Null);
  }

  /**
    Lowering an offering's `maxMarks` does not revisit the results already
    recorded for it: a result above the new maximum stays in the store,
    which the store invariant still accepts.
   */
  lemma LoweringMaxMarksStrandsResults(s: Store, user: Option<Caller>, classSubjectId: Id, maxMarks: int, resultId: Id)
    requires Valid(s) && Ensure(user, AdminRole) && classSubjectId in s.classSubjects && 0 <= maxMarks <= 100
    requires resultId in s.results && s.results[resultId].classSubjectId == classSubjectId
    requires s.results[resultId].marksObtained > maxMarks
    ensures var r := UpdateClassSubject(s, user, classSubjectId, Undefined, Given(maxMarks));
      && r.status == Ok && Valid(r.store)
      && resultId in r.store.results && r.store.results[resultId].classSubjectId == classSubjectId
      && classSubjectId in r.store.classSubjects
      && r.store.results[resultId].marksObtained > r.store.classSubjects[classSubjectId].maxMarks
  {
    var cs := s.classSubjects[classSubjectId];
    assert ClassSubjectOk(cs);
    SaveClassSubjectSameKey(s, classSubjectId, OfferingAfterEdit(s, classSubjectId, Undefined, Given(maxMarks)));
    OfferingSaved(s, user, classSubjectId, Undefined, Given(maxMarks));
  }

  // ---------------------------------------------------------------------------
  // createExam

  /** The body of `createExam`. */
  datatype ExamRequest = ExamRequest(name: Option<string>, classId: Option<Id>, academicYear: Option<string>, date: Option<string>)

  predicate ExamRequestComplete(req: ExamRequest) {
    Truthy(req.name) && req.classId.Some? && Truthy(req.academicYear) && Truthy(req.date)
  }

  /** `Exam.findOne({ name, classId, academicYear })`: the trim setters run on the filter, so name and year are compared trimmed. */
  predicate ExamInUse(s: Store, req: ExamRequest)
    requires ExamRequestComplete(req)
  {
    exists id | id in s.exams :: ExamKey(s.exams[id]) == (Trim(req.name.value), req.classId.value, Trim(req.academicYear.value))
  }

  function RequestedExam(req: ExamRequest): (e: Exam)
    requires ExamRequestComplete(req)
    ensures e.classId == req.classId.value && e.date == req.date.value
    ensures e.name == Trim(req.name.value) && e.academicYear == Trim(req.academicYear.value)
  {
    NewExam(req.name.value, req.classId.value, req.academicYear.value, req.date.value)
  }

  function CreateExam(s: Store, user: Option<Caller>, req: ExamRequest): (r: Reply)
    ensures r.status in {Forbidden, BadRequest, NotFound, Conflict, Created, ServerError}
    ensures r.status != Created ==> r.store == s
    ensures r.status == Forbidden <==> !Ensure(user, AdminRole)
    ensures r.status == BadRequest <==> Ensure(user, AdminRole) && !ExamRequestComplete(req)
    ensures r.status == NotFound <==> Ensure(user, AdminRole) && ExamRequestComplete(req) && req.classId.value !in s.classes
    ensures r.status == Conflict <==>
      Ensure(user, AdminRole) && ExamRequestComplete(req) && req.classId.value in s.classes && ExamInUse(s, req)
    ensures r.status == Created ==> ExamRequestComplete(req) && r.store == PutExam(s, RequestedExam(req))
  {
    if !Ensure(user, AdminRole) then Reply(Forbidden, s)
    else if !ExamRequestComplete(req) then Reply(BadRequest, s)
    else if req.classId.value !in s.classes then Reply(NotFound, s)
    else if ExamInUse(s, req) then Reply(Conflict, s)
    else
      match InsertExam(s, RequestedExam(req))
      case Written(_, s') => Reply(Created, s')
      case _ => Reply(ServerError, s)
  }

  lemma CreateExamKeepsValid(s: Store, user: Option<Caller>, req: ExamRequest)
    requires Valid(s)
    ensures Valid(CreateExam(s, user, req).store)
  {
    if CreateExam(s, user, req).status == Created {
      InsertExamKeepsValid(s, RequestedExam(req));
    }
  }

  // ---------------------------------------------------------------------------
  // The admin check comes first everywhere

  /** A caller who is not an admin is refused with 403 by every mutating admin handler, and nothing changes. */
  lemma NonAdminChangesNothing(s: Store, user: Option<Caller>, hash: string -> string, id: Id,
                               creds: Credentials, sreq: StudentRequest, oreq: OfferingRequest, ereq: ExamRequest,
                               name: Option<string>, section: Option<string>, ref: Option<Id>,
                               teacherRef: Field<Id>, marks: Field<int>)
    requires !Ensure(user, AdminRole)
    ensures CreateTeacher(s, user, creds, hash) == Reply(Forbidden, s)
    ensures CreateStudent(s, user, sreq, hash) == Reply(Forbidden, s)
    ensures UpdateStudent(s, user, id, sreq, hash) == Reply(Forbidden, s)
    ensures DeleteStudent(s, user, id) == Reply(Forbidden, s)
    ensures ShiftStudentClass(s, user, id, ref) == Reply(Forbidden, s)
    ensures CreateClass(s, user, name, section, ref) == Reply(Forbidden, s)
    ensures UpdateClassIncharge(s, user, ref, ref) == Reply(Forbidden, s)
    ensures CreateSubject(s, user, name) == Reply(Forbidden, s)
    ensures CreateClassSubject(s, user, oreq) == Reply(Forbidden, s)
    ensures UpdateClassSubject(s, user, id, teacherRef, marks) == Reply(Forbidden, s)
    ensures CreateExam(s, user, ereq) == Reply(Forbidden, s)
  {
  }
}
