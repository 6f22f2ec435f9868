/**
  The document store behind the controllers: one map from id to document
  per collection, the schema setters that normalise a document when it is
  built, the validators and unique indexes the database enforces on every
  write, and the writes themselves.
 */
module Schema {
  import opened Common
  import opened Text

  datatype User = User(username: string, email: string, password: string, role: Role)
  datatype Class = Class(name: string, section: string, inchargeId: Option<Id>)
  datatype Subject = Subject(name: string)
  datatype ClassSubject = ClassSubject(subjectId: Id, classId: Id, maxMarks: int, teacherId: Id)
  datatype Exam = Exam(name: string, classId: Id, academicYear: string, date: string)
  datatype Student = Student(userId: Id, enrollmentNumber: string, classId: Id)
  datatype Result = Result(studentId: Id, classSubjectId: Id, examId: Id, marksObtained: int, grade: string)

  /** The whole database; `nextId` is the next id the database hands out. */
  datatype Store = Store(
    users: map<Id, User>,
    classes: map<Id, Class>,
    subjects: map<Id, Subject>,
    classSubjects: map<Id, ClassSubject>,
    exams: map<Id, Exam>,
    students: map<Id, Student>,
    results: map<Id, Result>,
    nextId: Id)

  /** What a create or save answers: the written id and the new store, or why it failed. */
  datatype Write = Written(id: Id, store: Store) | Invalid | Duplicate

  /** What a mutating handler answers: its status code and the store afterwards. */
  datatype Reply = Reply(status: Status, store: Store)

  // ---------------------------------------------------------------------------
  // Setters

  /** The `lowercase` and `trim` setters of the user schema's email. */
  function NormalEmail(e: string): (r: string)
    ensures r == ToLower(Trim(e))
  {
    LowerTrimCommute(e);
    Trim(ToLower(e))
  }

  predicate IsTrimmed(s: string) {
    Trim(s) == s
  }

  lemma NormalEmailIdempotent(e: string)
    ensures NormalEmail(NormalEmail(e)) == NormalEmail(e)
    ensures IsTrimmed(NormalEmail(e))
  {
    var x := NormalEmail(e);
    TrimIdempotent(e);
    ToLowerIdempotent(Trim(e));
    LowerTrimCommute(x);
    assert ToLower(x) == x;
    TrimIdempotent(ToLower(e));
  }

  lemma TrimIsTrimmed(s: string)
    ensures IsTrimmed(Trim(s))
  {
    TrimIdempotent(s);
  }

  function NewUser(username: string, email: string, password: string, role: Role): (u: User)
    ensures IsTrimmed(u.username) && u.email == NormalEmail(u.email)
    ensures u.username == Trim(username) && u.email == NormalEmail(email)
    ensures u.password == password && u.role == role
  {
    TrimIsTrimmed(username);
    NormalEmailIdempotent(email);
    User(Trim(username), NormalEmail(email), password, role)
  }

  function NewClass(name: string, section: string, inchargeId: Option<Id>): (c: Class)
    ensures IsTrimmed(c.name) && IsTrimmed(c.section)
    ensures c.name == Trim(name) && c.section == Trim(section) && c.inchargeId == inchargeId
  {
    TrimIsTrimmed(name);
    TrimIsTrimmed(section);
    Class(Trim(name), Trim(section), inchargeId)
  }

  function NewSubject(name: string): (s: Subject)
    ensures IsTrimmed(s.name) && s.name == Trim(name)
  {
    TrimIsTrimmed(name);
    Subject(Trim(name))
  }

  function NewExam(name: string, classId: Id, academicYear: string, date: string): (e: Exam)
    ensures IsTrimmed(e.name) && IsTrimmed(e.academicYear)
    ensures e.name == Trim(name) && e.academicYear == Trim(academicYear)
    ensures e.classId == classId && e.date == date
  {
    TrimIsTrimmed(name);
    TrimIsTrimmed(academicYear);
    Exam(Trim(name), classId, Trim(academicYear), date)
  }

  function NewStudent(userId: Id, enrollmentNumber: string, classId: Id): (s: Student)
    ensures IsTrimmed(s.enrollmentNumber) && s.enrollmentNumber == Trim(enrollmentNumber)
    ensures s.userId == userId && s.classId == classId
  {
    TrimIsTrimmed(enrollmentNumber);
    Student(userId, Trim(enrollmentNumber), classId)
  }

  function NewResult(studentId: Id, classSubjectId: Id, examId: Id, marks: int, grade: string): (r: Result)
    ensures IsTrimmed(r.grade) && r.grade == Trim(grade)
    ensures r.studentId == studentId && r.classSubjectId == classSubjectId && r.examId == examId
    ensures r.marksObtained == marks
  {
    TrimIsTrimmed(grade);
    Result(studentId, classSubjectId, examId, marks, Trim(grade))
  }

  // ---------------------------------------------------------------------------
  // Validators: `required`, `enum`, `min`/`max`, `match`, plus the setters' effect

  predicate UserOk(u: User) {
    && u.username != "" && IsTrimmed(u.username)
    && u.email != "" && u.email == NormalEmail(u.email) && EmailShapeOk(u.email)
    && u.password != ""
  }

  predicate IsSection(s: string) {
    s == "A" || s == "B" || s == "C" || s == "D"
  }

  predicate ClassOk(c: Class) {
    c.name != "" && IsTrimmed(c.name) && IsSection(c.section)
  }

  predicate SubjectOk(s: Subject) {
    s.name != "" && IsTrimmed(s.name)
  }

  predicate ClassSubjectOk(cs: ClassSubject) {
    0 <= cs.maxMarks <= 100
  }

  predicate ExamOk(e: Exam) {
    e.name != "" && IsTrimmed(e.name) && e.academicYear != "" && IsTrimmed(e.academicYear) && e.date != ""
  }

  predicate StudentOk(s: Student) {
    s.enrollmentNumber != "" && IsTrimmed(s.enrollmentNumber)
  }

  predicate ResultOk(r: Result) {
    r.marksObtained >= 0 && r.grade != "" && IsTrimmed(r.grade)
  }

  // ---------------------------------------------------------------------------
  // Unique indexes

  /** No two documents of `m` share a `key`. */
  ghost predicate Unique<T, K>(m: map<Id, T>, key: T -> K) {
    forall a, b :: a in m && b in m && key(m[a]) == key(m[b]) ==> a == b
  }

  /** Some document of `m` other than `self` has key `k`. */
  predicate TakenBy<T, K(==)>(m: map<Id, T>, key: T -> K, k: K, self: Option<Id>) {
    exists id | id in m :: Some(id) != self && key(m[id]) == k
  }

  function UserEmail(u: User): string { u.email }
  function ClassKey(c: Class): (string, string) { (c.name, c.section) }
  function SubjectName(s: Subject): string { s.name }
  function OfferingKey(cs: ClassSubject): (Id, Id) { (cs.subjectId, cs.classId) }
  function ExamKey(e: Exam): (string, Id, string) { (e.name, e.classId, e.academicYear) }
  function StudentUser(s: Student): Id { s.userId }
  function Enrollment(s: Student): string { s.enrollmentNumber }
  function ResultKey(r: Result): (Id, Id, Id) { (r.studentId, r.classSubjectId, r.examId) }

  // ---------------------------------------------------------------------------
  // The store invariant

  ghost predicate Below<T>(m: map<Id, T>, bound: Id) {
    forall id :: id in m ==> id < bound
  }

  ghost predicate KeysBelow(s: Store) {
    && Below(s.users, s.nextId) && Below(s.classes, s.nextId) && Below(s.subjects, s.nextId)
    && Below(s.classSubjects, s.nextId) && Below(s.exams, s.nextId)
    && Below(s.students, s.nextId) && Below(s.results, s.nextId)
  }

  /** Every document of `m` passes `ok`. */
  ghost predicate All<T>(m: map<Id, T>, ok: T -> bool) {
    forall id :: id in m ==> ok(m[id])
  }

  ghost predicate UsersOk(m: map<Id, User>) {
    All(m, UserOk) && Unique(m, UserEmail)
  }

  ghost predicate ClassesOk(m: map<Id, Class>) {
    All(m, ClassOk) && Unique(m, ClassKey)
  }

  ghost predicate SubjectsOk(m: map<Id, Subject>) {
    All(m, SubjectOk) && Unique(m, SubjectName)
  }

  ghost predicate ClassSubjectsOk(m: map<Id, ClassSubject>) {
    All(m, ClassSubjectOk) && Unique(m, OfferingKey)
  }

  ghost predicate ExamsOk(m: map<Id, Exam>) {
    All(m, ExamOk) && Unique(m, ExamKey)
  }

  ghost predicate StudentsOk(m: map<Id, Student>) {
    All(m, StudentOk) && Unique(m, StudentUser) && Unique(m, Enrollment)
  }

  ghost predicate ResultsOk(m: map<Id, Result>) {
    All(m, ResultOk) && Unique(m, ResultKey)
  }

  /**
    Every state the database can be in: ids below `nextId`, every document
    passes its schema's validators, every unique index holds. Referential
    integrity is NOT part of it: the schemas declare references without
    enforcing them.
   */
  ghost predicate Valid(s: Store) {
    && KeysBelow(s)
    && UsersOk(s.users) && ClassesOk(s.classes) && SubjectsOk(s.subjects)
    && ClassSubjectsOk(s.classSubjects) && ExamsOk(s.exams)
    && StudentsOk(s.students) && ResultsOk(s.results)
  }

  function Empty(): (s: Store)
    ensures Valid(s)
  {
    Store(map[], map[], map[], map[], map[], map[], map[], 0)
  }

  // ---------------------------------------------------------------------------
  // Generic facts about unique indexes

  lemma UniqueInsert<T, K>(m: map<Id, T>, key: T -> K, id: Id, v: T)
    ensures Unique(m, key) && id !in m && (forall other :: other in m ==> key(m[other]) != key(v))
      ==> Unique(m[id := v], key)
  {
  }

  lemma UniqueReplace<T, K>(m: map<Id, T>, key: T -> K, id: Id, v: T)
    ensures Unique(m, key) && (forall other :: other in m && other != id ==> key(m[other]) != key(v))
      ==> Unique(m[id := v], key)
  {
  }

  lemma AllInsert<T>(m: map<Id, T>, ok: T -> bool, id: Id, v: T)
    ensures All(m, ok) && ok(v) ==> All(m[id := v], ok)
  {
  }

  lemma AllRemove<T>(m: map<Id, T>, ok: T -> bool, id: Id)
    ensures All(m, ok) ==> All(m - {id}, ok)
  {
  }

  lemma UniqueRemove<T, K>(m: map<Id, T>, key: T -> K, id: Id)
    ensures Unique(m, key) ==> Unique(m - {id}, key)
  {
  }

  // ---------------------------------------------------------------------------
  // The store after a successful write

  function PutUser(s: Store, u: User): Store {
    s.(users := s.users[s.nextId := u], nextId := s.nextId + 1)
  }

  function PutClass(s: Store, c: Class): Store {
    s.(classes := s.classes[s.nextId := c], nextId := s.nextId + 1)
  }

  function PutSubject(s: Store, sub: Subject): Store {
    s.(subjects := s.subjects[s.nextId := sub], nextId := s.nextId + 1)
  }

  function PutClassSubject(s: Store, cs: ClassSubject): Store {
    s.(classSubjects := s.classSubjects[s.nextId := cs], nextId := s.nextId + 1)
  }

  function PutExam(s: Store, e: Exam): Store {
    s.(exams := s.exams[s.nextId := e], nextId := s.nextId + 1)
  }

  function PutStudent(s: Store, st: Student): Store {
    s.(students := s.students[s.nextId := st], nextId := s.nextId + 1)
  }

  function PutResult(s: Store, r: Result): Store {
    s.(results := s.results[s.nextId := r], nextId := s.nextId + 1)
  }

  function SetUserAndStudent(s: Store, userId: Id, u: User, studentId: Id, st: Student): Store {
    s.(users := s.users[userId := u], students := s.students[studentId := st])
  }

  function SetStudent(s: Store, id: Id, st: Student): Store {
    s.(students := s.students[id := st])
  }

  function SetClass(s: Store, id: Id, c: Class): Store {
    s.(classes := s.classes[id := c])
  }

  function SetClassSubject(s: Store, id: Id, cs: ClassSubject): Store {
    s.(classSubjects := s.classSubjects[id := cs])
  }

  // ---------------------------------------------------------------------------
  // Writes: validators run first, then the unique indexes

  function InsertUser(s: Store, u: User): (w: Write)
    ensures w.Written? <==> UserOk(u) && !TakenBy(s.users, UserEmail, u.email, None)
    ensures w.Written? ==> w.id == s.nextId && w.store == PutUser(s, u)
    ensures w.Duplicate? <==> UserOk(u) && TakenBy(s.users, UserEmail, u.email, None)
  {
    if !UserOk(u) then Invalid
    else if TakenBy(s.users, UserEmail, u.email, None) then Duplicate
    else
      Written(s.nextId, PutUser(s, u))
  }

  function InsertClass(s: Store, c: Class): (w: Write)
    ensures w.Written? <==> ClassOk(c) && !TakenBy(s.classes, ClassKey, ClassKey(c), None)
    ensures w.Written? ==> w.id == s.nextId && w.store == PutClass(s, c)
  {
    if !ClassOk(c) then Invalid
    else if TakenBy(s.classes, ClassKey, ClassKey(c), None) then Duplicate
    else
      Written(s.nextId, PutClass(s, c))
  }

  function InsertSubject(s: Store, sub: Subject): (w: Write)
    ensures w.Written? <==> SubjectOk(sub) && !TakenBy(s.subjects, SubjectName, sub.name, None)
    ensures w.Written? ==> w.id == s.nextId && w.store == PutSubject(s, sub)
  {
    if !SubjectOk(sub) then Invalid
    else if TakenBy(s.subjects, SubjectName, sub.name, None) then Duplicate
    else
      Written(s.nextId, PutSubject(s, sub))
  }

  function InsertClassSubject(s: Store, cs: ClassSubject): (w: Write)
    ensures w.Written? <==> ClassSubjectOk(cs) && !TakenBy(s.classSubjects, OfferingKey, OfferingKey(cs), None)
    ensures w.Written? ==> w.id == s.nextId && w.store == PutClassSubject(s, cs)
  {
    if !ClassSubjectOk(cs) then Invalid
    else if TakenBy(s.classSubjects, OfferingKey, OfferingKey(cs), None) then Duplicate
    else
      Written(s.nextId, PutClassSubject(s, cs))
  }

  function InsertExam(s: Store, e: Exam): (w: Write)
    ensures w.Written? <==> ExamOk(e) && !TakenBy(s.exams, ExamKey, ExamKey(e), None)
    ensures w.Written? ==> w.id == s.nextId && w.store == PutExam(s, e)
  {
    if !ExamOk(e) then Invalid
    else if TakenBy(s.exams, ExamKey, ExamKey(e), None) then Duplicate
    else
      Written(s.nextId, PutExam(s, e))
  }

  /** Both unique indexes of the student schema: `userId` and `enrollmentNumber`. */
  predicate StudentClash(m: map<Id, Student>, st: Student, self: Option<Id>) {
    TakenBy(m, StudentUser, st.userId, self) || TakenBy(m, Enrollment, st.enrollmentNumber, self)
  }

  function InsertStudent(s: Store, st: Student): (w: Write)
    ensures w.Written? <==> StudentOk(st) && !StudentClash(s.students, st, None)
    ensures w.Written? ==> w.id == s.nextId && w.store == PutStudent(s, st)
  {
    if !StudentOk(st) then Invalid
    else if StudentClash(s.students, st, None) then Duplicate
    else
      Written(s.nextId, PutStudent(s, st))
  }

  function InsertResult(s: Store, r: Result): (w: Write)
    ensures w.Written? <==> ResultOk(r) && !TakenBy(s.results, ResultKey, ResultKey(r), None)
    ensures w.Written? ==> w.id == s.nextId && w.store == PutResult(s, r)
    ensures w.Duplicate? <==> ResultOk(r) && TakenBy(s.results, ResultKey, ResultKey(r), None)
  {
    if !ResultOk(r) then Invalid
    else if TakenBy(s.results, ResultKey, ResultKey(r), None) then Duplicate
    else
      Written(s.nextId, PutResult(s, r))
  }

  /** `doc.save()` of an existing user and its student record, as one step. */
  function SaveUserAndStudent(s: Store, userId: Id, u: User, studentId: Id, st: Student): (w: Write)
    requires userId in s.users && studentId in s.students
    ensures w.Written? <==>
      UserOk(u) && StudentOk(st) && !TakenBy(s.users, UserEmail, u.email, Some(userId)) && !StudentClash(s.students, st, Some(studentId))
    ensures w.Written? ==> w.store == SetUserAndStudent(s, userId, u, studentId, st)
  {
    if !UserOk(u) || !StudentOk(st) then Invalid
    else if TakenBy(s.users, UserEmail, u.email, Some(userId)) || StudentClash(s.students, st, Some(studentId)) then Duplicate
    else
      Written(studentId, SetUserAndStudent(s, userId, u, studentId, st))
  }

  function SaveStudent(s: Store, id: Id, st: Student): (w: Write)
    requires id in s.students
    ensures w.Written? <==> StudentOk(st) && !StudentClash(s.students, st, Some(id))
    ensures w.Written? ==> w.store == SetStudent(s, id, st)
  {
    if !StudentOk(st) then Invalid
    else if StudentClash(s.students, st, Some(id)) then Duplicate
    else
      Written(id, SetStudent(s, id, st))
  }

  function SaveClass(s: Store, id: Id, c: Class): (w: Write)
    requires id in s.classes
    ensures w.Written? <==> ClassOk(c) && !TakenBy(s.classes, ClassKey, ClassKey(c), Some(id))
    ensures w.Written? ==> w.store == SetClass(s, id, c)
  {
    if !ClassOk(c) then Invalid
    else if TakenBy(s.classes, ClassKey, ClassKey(c), Some(id)) then Duplicate
    else
      Written(id, SetClass(s, id, c))
  }

  function SaveClassSubject(s: Store, id: Id, cs: ClassSubject): (w: Write)
    requires id in s.classSubjects
    ensures w.Written? <==> ClassSubjectOk(cs) && !TakenBy(s.classSubjects, OfferingKey, OfferingKey(cs), Some(id))
    ensures w.Written? ==> w.store == SetClassSubject(s, id, cs)
  {
    if !ClassSubjectOk(cs) then Invalid
    else if TakenBy(s.classSubjects, OfferingKey, OfferingKey(cs), Some(id)) then Duplicate
    else
      Written(id, SetClassSubject(s, id, cs))
  }

  /** `findByIdAndDelete` of a student and then of its user. */
  function RemoveStudentAndUser(s: Store, studentId: Id, userId: Id): Store {
    s.(students := s.students - {studentId}, users := s.users - {userId})
  }

  // ---------------------------------------------------------------------------
  // Queries

  /**
    `findOne`: the first document (in id order, the database's natural
    order) among ids `from .. bound-1` that satisfies `p`.
   */
  function FindFirst<T>(m: map<Id, T>, p: T -> bool, from: nat, bound: nat): (r: Option<Id>)
    ensures r.Some? ==> r.value in m && p(m[r.value]) && from <= r.value < bound
    ensures r.Some? ==> forall id :: from <= id < r.value && id in m ==> !p(m[id])
    ensures r.None? ==> forall id :: from <= id < bound && id in m ==> !p(m[id])
    decreases bound - from
  {
    if from >= bound then None
    else if from in m && p(m[from]) then Some(from)
    else FindFirst(m, p, from + 1, bound)
  }

  /** `findOne(filter)` on a collection of store `s`: searches every id `s` has handed out. */
  function FindOne<T>(s: Store, m: map<Id, T>, p: T -> bool): (r: Option<Id>)
    ensures r.Some? ==> r.value in m && p(m[r.value])
    ensures r.Some? ==> forall id :: id < r.value && id in m ==> !p(m[id])
    ensures Below(m, s.nextId) ==> (r.None? <==> forall id :: id in m ==> !p(m[id]))
  {
    FindFirst(m, p, 0, s.nextId)
  }

  // ---------------------------------------------------------------------------
  // Every write keeps the store invariant

  lemma BelowInsert<T>(m: map<Id, T>, n: Id, v: T)
    ensures Below(m, n) ==> Below(m[n := v], n + 1)
  {
  }

  lemma BelowGrow<T>(m: map<Id, T>, n: Id)
    ensures Below(m, n) ==> Below(m, n + 1)
  {
  }

  /** Growing `nextId` by one keeps every collection below it. */
  lemma KeysBelowGrow(s: Store)
    ensures KeysBelow(s) ==> KeysBelow(s.(nextId := s.nextId + 1))
  {
    BelowGrow(s.users, s.nextId);
    BelowGrow(s.classes, s.nextId);
    BelowGrow(s.subjects, s.nextId);
    BelowGrow(s.classSubjects, s.nextId);
    BelowGrow(s.exams, s.nextId);
    BelowGrow(s.students, s.nextId);
    BelowGrow(s.results, s.nextId);
  }

  lemma UsersInsertOk(m: map<Id, User>, n: Id, u: User)
    requires UsersOk(m) && n !in m && UserOk(u) && !TakenBy(m, UserEmail, u.email, None)
    ensures UsersOk(m[n := u])
  {
    AllInsert(m, UserOk, n, u);
    UniqueInsert(m, UserEmail, n, u);
  }

  lemma WithUsers(s: Store, m: map<Id, User>)
    requires Valid(s) && UsersOk(m) && Below(m, s.nextId + 1)
    ensures Valid(s.(users := m, nextId := s.nextId + 1))
  {
    KeysBelowGrow(s);
  }

  lemma PutUserValid(s: Store, u: User)
    requires Valid(s) && UserOk(u) && !TakenBy(s.users, UserEmail, u.email, None)
    ensures Valid(PutUser(s, u))
  {
    UsersInsertOk(s.users, s.nextId, u);
    BelowInsert(s.users, s.nextId, u);
    WithUsers(s, s.users[s.nextId := u]);
  }

  lemma InsertUserKeepsValid(s: Store, u: User)
    requires Valid(s) && InsertUser(s, u).Written?
    ensures Valid(InsertUser(s, u).store)
  {
    assert UserOk(u) && !TakenBy(s.users, UserEmail, u.email, None);
    PutUserValid(s, u);
  }

  lemma PutClassValid(s: Store, c: Class)
    requires Valid(s) && ClassOk(c) && !TakenBy(s.classes, ClassKey, ClassKey(c), None)
    ensures Valid(PutClass(s, c))
  {
    AllInsert(s.classes, ClassOk, s.nextId, c);
    UniqueInsert(s.classes, ClassKey, s.nextId, c);
  }

  lemma InsertClassKeepsValid(s: Store, c: Class)
    requires Valid(s) && InsertClass(s, c).Written?
    ensures Valid(InsertClass(s, c).store)
  {
    assert ClassOk(c) && !TakenBy(s.classes, ClassKey, ClassKey(c), None);
    PutClassValid(s, c);
  }

  lemma PutSubjectValid(s: Store, sub: Subject)
    requires Valid(s) && SubjectOk(sub) && !TakenBy(s.subjects, SubjectName, sub.name, None)
    ensures Valid(PutSubject(s, sub))
  {
    AllInsert(s.subjects, SubjectOk, s.nextId, sub);
    UniqueInsert(s.subjects, SubjectName, s.nextId, sub);
  }

  lemma InsertSubjectKeepsValid(s: Store, sub: Subject)
    requires Valid(s) && InsertSubject(s, sub).Written?
    ensures Valid(InsertSubject(s, sub).store)
  {
    assert SubjectOk(sub) && !TakenBy(s.subjects, SubjectName, sub.name, None);
    PutSubjectValid(s, sub);
  }

  lemma PutClassSubjectValid(s: Store, cs: ClassSubject)
    requires Valid(s) && ClassSubjectOk(cs) && !TakenBy(s.classSubjects, OfferingKey, OfferingKey(cs), None)
    ensures Valid(PutClassSubject(s, cs))
  {
    AllInsert(s.classSubjects, ClassSubjectOk, s.nextId, cs);
    UniqueInsert(s.classSubjects, OfferingKey, s.nextId, cs);
  }

  lemma InsertClassSubjectKeepsValid(s: Store, cs: ClassSubject)
    requires Valid(s) && InsertClassSubject(s, cs).Written?
    ensures Valid(InsertClassSubject(s, cs).store)
  {
    assert ClassSubjectOk(cs) && !TakenBy(s.classSubjects, OfferingKey, OfferingKey(cs), None);
    PutClassSubjectValid(s, cs);
  }

  lemma ExamsInsertOk(m: map<Id, Exam>, n: Id, e: Exam)
    requires ExamsOk(m) && n !in m && ExamOk(e) && !TakenBy(m, ExamKey, ExamKey(e), None)
    ensures ExamsOk(m[n := e])
  {
    AllInsert(m, ExamOk, n, e);
    UniqueInsert(m, ExamKey, n, e);
  }

  lemma WithExams(s: Store, m: map<Id, Exam>)
    requires Valid(s) && ExamsOk(m) && Below(m, s.nextId + 1)
    ensures Valid(s.(exams := m, nextId := s.nextId + 1))
  {
    KeysBelowGrow(s);
  }

  lemma PutExamValid(s: Store, e: Exam)
    requires Valid(s) && ExamOk(e) && !TakenBy(s.exams, ExamKey, ExamKey(e), None)
    ensures Valid(PutExam(s, e))
  {
    ExamsInsertOk(s.exams, s.nextId, e);
    BelowInsert(s.exams, s.nextId, e);
    WithExams(s, s.exams[s.nextId := e]);
  }

  lemma InsertExamKeepsValid(s: Store, e: Exam)
    requires Valid(s) && InsertExam(s, e).Written?
    ensures Valid(InsertExam(s, e).store)
  {
    assert ExamOk(e) && !TakenBy(s.exams, ExamKey, ExamKey(e), None);
    PutExamValid(s, e);
  }

  lemma PutStudentValid(s: Store, st: Student)
    requires Valid(s) && StudentOk(st) && !StudentClash(s.students, st, None)
    ensures Valid(PutStudent(s, st))
  {
    AllInsert(s.students, StudentOk, s.nextId, st);
    UniqueInsert(s.students, StudentUser, s.nextId, st);
    UniqueInsert(s.students, Enrollment, s.nextId, st);
  }

  lemma InsertStudentKeepsValid(s: Store, st: Student)
    requires Valid(s) && InsertStudent(s, st).Written?
    ensures Valid(InsertStudent(s, st).store)
  {
    assert StudentOk(st) && !StudentClash(s.students, st, None);
    PutStudentValid(s, st);
  }

  lemma PutResultValid(s: Store, r: Result)
    requires Valid(s) && ResultOk(r) && !TakenBy(s.results, ResultKey, ResultKey(r), None)
    ensures Valid(PutResult(s, r))
  {
    AllInsert(s.results, ResultOk, s.nextId, r);
    UniqueInsert(s.results, ResultKey, s.nextId, r);
  }

  lemma InsertResultKeepsValid(s: Store, r: Result)
    requires Valid(s) && InsertResult(s, r).Written?
    ensures Valid(InsertResult(s, r).store)
  {
    assert ResultOk(r) && !TakenBy(s.results, ResultKey, ResultKey(r), None);
    PutResultValid(s, r);
  }

  lemma UsersReplaceOk(m: map<Id, User>, id: Id, u: User)
    requires UsersOk(m) && UserOk(u) && !TakenBy(m, UserEmail, u.email, Some(id))
    ensures UsersOk(m[id := u])
  {
    AllInsert(m, UserOk, id, u);
    UniqueReplace(m, UserEmail, id, u);
  }

  lemma StudentsReplaceOk(m: map<Id, Student>, id: Id, st: Student)
    requires StudentsOk(m) && StudentOk(st) && !StudentClash(m, st, Some(id))
    ensures StudentsOk(m[id := st])
  {
    AllInsert(m, StudentOk, id, st);
    UniqueReplace(m, StudentUser, id, st);
    UniqueReplace(m, Enrollment, id, st);
  }

  lemma BelowReplace<T>(m: map<Id, T>, id: Id, v: T, n: Id)
    ensures Below(m, n) && id in m ==> Below(m[id := v], n)
  {
  }

  lemma WithUsersAndStudents(s: Store, userId: Id, u: User, studentId: Id, st: Student)
    requires userId in s.users && studentId in s.students
    requires Valid(s) && UsersOk(s.users[userId := u]) && StudentsOk(s.students[studentId := st])
    ensures Valid(SetUserAndStudent(s, userId, u, studentId, st))
  {
    BelowReplace(s.users, userId, u, s.nextId);
    BelowReplace(s.students, studentId, st, s.nextId);
  }

  lemma ReplaceUserAndStudentValid(s: Store, userId: Id, u: User, studentId: Id, st: Student)
    requires userId in s.users && studentId in s.students
    requires Valid(s) && UserOk(u) && StudentOk(st)
    requires !TakenBy(s.users, UserEmail, u.email, Some(userId)) && !StudentClash(s.students, st, Some(studentId))
    ensures Valid(SetUserAndStudent(s, userId, u, studentId, st))
  {
    UsersReplaceOk(s.users, userId, u);
    StudentsReplaceOk(s.students, studentId, st);
    WithUsersAndStudents(s, userId, u, studentId, st);
  }

  lemma SaveUserAndStudentKeepsValid(s: Store, userId: Id, u: User, studentId: Id, st: Student)
    requires userId in s.users && studentId in s.students
    requires Valid(s) && SaveUserAndStudent(s, userId, u, studentId, st).Written?
    ensures Valid(SaveUserAndStudent(s, userId, u, studentId, st).store)
  {
    assert UserOk(u) && StudentOk(st);
    assert !TakenBy(s.users, UserEmail, u.email, Some(userId)) && !StudentClash(s.students, st, Some(studentId));
    ReplaceUserAndStudentValid(s, userId, u, studentId, st);
  }

  lemma ReplaceStudentValid(s: Store, id: Id, st: Student)
    requires id in s.students
    requires Valid(s) && StudentOk(st) && !StudentClash(s.students, st, Some(id))
    ensures Valid(SetStudent(s, id, st))
  {
    AllInsert(s.students, StudentOk, id, st);
    UniqueReplace(s.students, StudentUser, id, st);
    UniqueReplace(s.students, Enrollment, id, st);
  }

  lemma SaveStudentKeepsValid(s: Store, id: Id, st: Student)
    requires id in s.students
    requires Valid(s) && SaveStudent(s, id, st).Written?
    ensures Valid(SaveStudent(s, id, st).store)
  {
    assert StudentOk(st) && !StudentClash(s.students, st, Some(id));
    ReplaceStudentValid(s, id, st);
  }

  lemma ReplaceClassValid(s: Store, id: Id, c: Class)
    requires id in s.classes
    requires Valid(s) && ClassOk(c) && !TakenBy(s.classes, ClassKey, ClassKey(c), Some(id))
    ensures Valid(SetClass(s, id, c))
  {
    AllInsert(s.classes, ClassOk, id, c);
    UniqueReplace(s.classes, ClassKey, id, c);
  }

  lemma SaveClassKeepsValid(s: Store, id: Id, c: Class)
    requires id in s.classes
    requires Valid(s) && SaveClass(s, id, c).Written?
    ensures Valid(SaveClass(s, id, c).store)
  {
    assert ClassOk(c) && !TakenBy(s.classes, ClassKey, ClassKey(c), Some(id));
    ReplaceClassValid(s, id, c);
  }

  lemma ReplaceClassSubjectValid(s: Store, id: Id, cs: ClassSubject)
    requires id in s.classSubjects
    requires Valid(s) && ClassSubjectOk(cs) && !TakenBy(s.classSubjects, OfferingKey, OfferingKey(cs), Some(id))
    ensures Valid(SetClassSubject(s, id, cs))
  {
    AllInsert(s.classSubjects, ClassSubjectOk, id, cs);
    UniqueReplace(s.classSubjects, OfferingKey, id, cs);
  }

  lemma SaveClassSubjectKeepsValid(s: Store, id: Id, cs: ClassSubject)
    requires id in s.classSubjects
    requires Valid(s) && SaveClassSubject(s, id, cs).Written?
    ensures Valid(SaveClassSubject(s, id, cs).store)
  {
    assert ClassSubjectOk(cs) && !TakenBy(s.classSubjects, OfferingKey, OfferingKey(cs), Some(id));
    ReplaceClassSubjectValid(s, id, cs);
  }

  /** Replacing a document by one with the same key never clashes on that key. */
  lemma SameKeyNotTaken<T, K>(m: map<Id, T>, key: T -> K, id: Id, v: T)
    requires Unique(m, key) && id in m && key(v) == key(m[id])
    ensures !TakenBy(m, key, key(v), Some(id))
  {
  }

  /** A save that keeps a class's name and section succeeds and keeps the store valid. */
  lemma SaveClassSameKey(s: Store, id: Id, c: Class)
    requires Valid(s) && id in s.classes && ClassKey(c) == ClassKey(s.classes[id])
    ensures SaveClass(s, id, c).Written? && Valid(SetClass(s, id, c))
  {
    assert ClassOk(s.classes[id]);
    SameKeyNotTaken(s.classes, ClassKey, id, c);
    ReplaceClassValid(s, id, c);
  }

  /** A save that keeps an offering's subject and class succeeds, when its `maxMarks` is in range, and keeps the store valid. */
  lemma SaveClassSubjectSameKey(s: Store, id: Id, cs: ClassSubject)
    requires Valid(s) && id in s.classSubjects && OfferingKey(cs) == OfferingKey(s.classSubjects[id]) && ClassSubjectOk(cs)
    ensures SaveClassSubject(s, id, cs).Written? && Valid(SetClassSubject(s, id, cs))
  {
    SameKeyNotTaken(s.classSubjects, OfferingKey, id, cs);
    ReplaceClassSubjectValid(s, id, cs);
  }

  /** A save that keeps a student's user and enrollment number succeeds and keeps the store valid. */
  lemma SaveStudentSameKeys(s: Store, id: Id, st: Student)
    requires Valid(s) && id in s.students
    requires StudentUser(st) == StudentUser(s.students[id]) && Enrollment(st) == Enrollment(s.students[id])
    ensures SaveStudent(s, id, st).Written? && Valid(SetStudent(s, id, st))
  {
    assert StudentOk(s.students[id]);
    SameKeyNotTaken(s.students, StudentUser, id, st);
    SameKeyNotTaken(s.students, Enrollment, id, st);
    ReplaceStudentValid(s, id, st);
  }

  lemma RemoveKeepsValid(s: Store, studentId: Id, userId: Id)
    requires Valid(s)
    ensures Valid(RemoveStudentAndUser(s, studentId, userId))
  {
    AllRemove(s.students, StudentOk, studentId);
    UniqueRemove(s.students, StudentUser, studentId);
    UniqueRemove(s.students, Enrollment, studentId);
    AllRemove(s.users, UserOk, userId);
    UniqueRemove(s.users, UserEmail, userId);
  }
}
