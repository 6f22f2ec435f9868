# Student result management: a Dafny model of the service core

This project models the core of a school results service in Dafny and
proves properties about that model. The service has an Express/Mongoose
backend and a React admin front end. The model covers:

- **The document store** (`schema.dfy`): users, classes, subjects, class
  subjects ("offerings": a subject taught in a class by an instructor, with
  a `maxMarks`), exams, students and results. Each collection is a map from
  id to record. Besides the maps the store holds:
  - the schema setters (`trim`, `lowercase`);
  - the validators (`required`, `enum`, `min`/`max`, the email `match`);
  - the unique indexes.

  `Valid` is the invariant every write keeps. Creates and saves answer
  `Written`, `Invalid` (a validator refused) or `Duplicate` (a unique index
  refused).
- **Handlers as state transitions.** Each one is a pure function from the
  store, the caller and the request to a status and the store afterwards:
  - the admin controller (`admin.dfy`): creating instructors, students,
    classes, subjects, offerings and exams; editing, moving and deleting
    students; reassigning class incharges and offerings;
  - `signup` and `login` (`auth.dfy`);
  - the instructor's `addResult` check chain and the class-teaching gate
    of its two listings (`teacher.dfy`);
  - the student's `getMyResults` (`student.dfy`).
- **Pure logic.**
  - Grading (`grading.dfy`).
  - The role middleware (`role_gate.dfy`).
  - The result-sheet aggregation of `getMyResults` with its rounded
    percentage (`result_sheets.dfy`).
  - The front end's class page: student class ids, edit drafts, per-class
    counts, the selected class and its CSV export (`class_page.dfy`,
    `csv.dfy`).
  - The subject page's grouping of offerings by class, sorted by label
    (`subject_page.dfy`).
- **Shared pieces.** String helpers: JavaScript `trim`, ASCII case mapping,
  the email pattern and decimal rendering (`text.dfy`). Grouping in
  first-seen order, used by both aggregations (`grouping.dfy`).
  Vocabulary: optional values, statuses, roles and the caller
  (`common.dfy`).

Modelling choices:

- **Ids** are naturals handed out in increasing order from `Store.nextId`,
  as ObjectIds are. "The first match" of `findOne` is therefore the
  smallest matching id.
- **Request fields** the source tests for truthiness are `Option`s, and
  `None` stands for an absent, null or empty value. The four fields tested
  with `=== undefined` are `Field`s, which keep `Undefined`, `Null` and
  `Given` apart: `addResult`'s `marksObtained`, `createClassSubject`'s
  `maxMarks`, and `updateClassSubject`'s `teacherId` and `maxMarks`.
  `Truthy` is JavaScript truthiness of a string field.
- **Hashing, signing and comparison.** Password hashing (bcrypt) and
  password comparison are function parameters. The JWT is not modelled; only
  the identity it would carry is.
- **Percentages.** The percentage of a result sheet is an exact rational,
  rounded to hundredths with ties away from zero.
- **Sorting.** `localeCompare` is an abstract comparator `le`, and lemmas
  that need it to be a total preorder require that.
- **Handlers are atomic**, except `createStudent`: it is modelled with its
  two sequential writes, because its partial failure is observable (see
  Findings).
- **Lookups go through the setters.** Mongoose runs a path's setters on query
  filter values as well as on documents. So `findOne({ email })` compares the
  trimmed, lower-cased email. The enrollment-number, subject-name and
  exam-name/year lookups compare trimmed values. A case or whitespace
  variant of a stored value is therefore a 409, as the stored value itself is
  (`Auth.CaseVariantEmailConflicts`, `Auth.RegisterSeesNormalEmail`).
- **Schema bounds on offerings.** `createClassSubject` never range-checks
  `maxMarks`; the schema bound refuses the value, `required` refuses a
  null, and the answer is 500.
  Lowering `maxMarks` with `updateClassSubject` does not revisit results
  already recorded (`Admin.LoweringMaxMarksStrandsResults`).
- **Class moves.** Moving a student to another class leaves their results
  untouched.
- **Referential integrity** is not part of `Valid`: the schemas declare
  references without enforcing them.

## Model

| member | source | states |
|---|---|---|
| Common.Ensure | backend/src/controllers/AdminController.js:9-18 | the admin/instructor/student guard passes exactly when a caller is present and its role is the required one |
| RoleGate.AuthorizeRoles | backend/src/middleware/roleMiddleware.js:1-27 | 401 exactly when the user or its role is missing; 403 exactly when the role is present but not allowed; `next` exactly when it is present and allowed; nothing else |
| RoleGate.UnauthorizedBeforeForbidden | backend/src/middleware/roleMiddleware.js:5-17 | a missing user or role is 401 even on a route that allows every role, and on one that allows none |
| RoleGate.SingleRoleAgreesWithEnsure | backend/src/middleware/roleMiddleware.js:5-19 | a route guarded for one role admits exactly the callers the controller guard admits; a caller with another role gets 403 |
| RoleGate.MoreRolesAdmitMore | backend/src/middleware/roleMiddleware.js:12-19 | allowing more roles never turns a pass into a denial |
| Grading.PercentageAtLeast | backend/src/controllers/TeacherController.js:19-24 | with a positive maximum, the percentage reaches a threshold t exactly when 100·marks ≥ t·maxMarks |
| Grading.GradeFromMarks | backend/src/controllers/TeacherController.js:17-26 | "N/A" exactly when maxMarks ≤ 0; otherwise A+ exactly at ≥ 90 %, A in [80, 90), B in [70, 80), C in [60, 70), D in [50, 60), F below 50 |
| Grading.LetterWhenMaxPositive | backend/src/controllers/TeacherController.js:19-25 | with a positive maximum the grade is one of the six letters |
| Grading.GradeMonotone | backend/src/controllers/TeacherController.js:19-25 | for a fixed positive maximum, more marks never give a lower grade |
| Grading.GradeBoundaries | backend/src/controllers/TeacherController.js:18-25 | examples: the band edges land on the higher grade (90 → A+, 89 → A, 50 → D, 49 → F, 76/80 → A+) and a zero or negative maximum is N/A |
| Text.Trim | backend/src/models/user.js:14 | the result is the slice of the input left after removing whitespace from both ends, and it neither starts nor ends with whitespace |
| Text.TrimIdempotent | backend/src/models/user.js:14 | trimming twice is trimming once |
| Text.ToLower | backend/src/models/user.js:13 | same length; each upper-case ASCII letter becomes its lower-case letter and every other character is kept, so no upper-case letter remains |
| Text.LowerTrimCommute | backend/src/models/user.js:13-14 | lower-casing and trimming commute, so the order of the two email setters does not matter |
| Text.ToUpper | backend/src/controllers/AdminController.js:336 | same length; each lower-case ASCII letter becomes its upper-case letter and every other character is kept, so no lower-case letter remains |
| Text.UpperOfTrimmed | backend/src/controllers/AdminController.js:336 | an upper-cased trimmed section is still trimmed, so the schema's trim setter leaves it alone |
| Text.EmailShapeCorrect | backend/src/models/user.js:15 | the scanning validator accepts exactly the strings that contain a match of `.+@.+\..+` inside one line |
| Text.DecimalRoundTrip | frontend/src/pages/SubjectPage.jsx:85 | the decimal digits written for a max-marks value read back as that value |
| Text.IntToDecimal | frontend/src/pages/SubjectPage.jsx:85 | `String(n)`: digits with no leading zero that read back as n, preceded by "-" exactly when n is negative |
| Schema.NormalEmail | backend/src/models/user.js:13-14 | the stored email is the trimmed, lower-cased input |
| Schema.NormalEmailIdempotent | backend/src/models/user.js:13-14 | normalising a stored email again changes nothing, and the result is trimmed |
| Schema.NewUser | backend/src/models/user.js:4-26 | the user stores the trimmed username, the trimmed lower-cased email, the password and the role it was given |
| Schema.NewClass | backend/src/models/class.js:5-20 | the class stores the trimmed name and section and the incharge it was given |
| Schema.NewExam | backend/src/models/exam.js:5-23 | the exam stores the trimmed name and academic year, and the class and date it was given |
| Schema.NewStudent | backend/src/models/student.js:5-21 | the record stores the trimmed enrollment number, and the user and class it was given |
| Schema.NewResult | backend/src/models/result.js:5-29 | the result stores the trimmed grade, and the student, offering, exam and marks it was given |
| Schema.InsertUser | backend/src/models/user.js:3-27 | a user is written exactly when it passes the validators and no user has its email; a valid user with a taken email is a duplicate |
| Schema.InsertClass | backend/src/models/class.js:3-26 | a class is written exactly when its name is non-empty, its section is A-D and no class has the same (name, section) |
| Schema.InsertSubject | backend/src/models/subject.js:3-13 | a subject is written exactly when its name is non-empty and unused |
| Schema.InsertClassSubject | backend/src/models/classSubject.js:3-34 | an offering is written exactly when maxMarks is in [0, 100] and no offering has the same (subject, class) |
| Schema.InsertExam | backend/src/models/exam.js:3-32 | an exam is written exactly when its fields pass and no exam has the same (name, class, academic year) |
| Schema.InsertStudent | backend/src/models/student.js:3-24 | a student record is written exactly when its enrollment number is non-empty and neither its user nor its enrollment number is in use |
| Schema.InsertResult | backend/src/models/result.js:3-38 | a result is written exactly when marks are ≥ 0, the grade is non-empty and no result has the same (student, offering, exam); a valid repeat is a duplicate |
| Schema.SaveUserAndStudent | backend/src/controllers/AdminController.js:229 | the two saves of an edit succeed exactly when both documents pass and neither clashes with another document |
| Schema.SaveStudent | backend/src/controllers/AdminController.js:308-309 | a student save succeeds exactly when the record passes and clashes with no other student |
| Schema.SaveClass | backend/src/controllers/AdminController.js:430-431 | a class save succeeds exactly when the class passes and clashes with no other class |
| Schema.SaveClassSubject | backend/src/controllers/AdminController.js:592 | an offering save succeeds exactly when maxMarks is in range and the offering clashes with no other |
| Schema.FindOne | backend/src/controllers/AdminController.js:32 | `findOne` answers the first matching document; on a store whose ids are below `nextId` it answers nothing exactly when nothing matches |
| Schema.InsertUserKeepsValid | backend/src/models/user.js:9-26 | writing a user keeps every schema rule and unique index of the store |
| Schema.InsertClassKeepsValid | backend/src/models/class.js:10-26 | writing a class keeps the store valid |
| Schema.InsertSubjectKeepsValid | backend/src/models/subject.js:5-10 | writing a subject keeps the store valid |
| Schema.InsertClassSubjectKeepsValid | backend/src/models/classSubject.js:15-34 | writing an offering keeps the store valid |
| Schema.InsertExamKeepsValid | backend/src/models/exam.js:29-32 | writing an exam keeps the store valid |
| Schema.InsertStudentKeepsValid | backend/src/models/student.js:5-16 | writing a student record keeps the store valid, both unique indexes included |
| Schema.InsertResultKeepsValid | backend/src/models/result.js:20-38 | writing a result keeps the store valid: marks never negative, one result per (student, offering, exam) |
| Schema.SaveUserAndStudentKeepsValid | backend/src/controllers/AdminController.js:229 | a successful edit save keeps the store valid |
| Schema.SaveStudentKeepsValid | backend/src/controllers/AdminController.js:309 | a successful student save keeps the store valid |
| Schema.SaveClassKeepsValid | backend/src/controllers/AdminController.js:431 | a successful class save keeps the store valid |
| Schema.SaveClassSubjectKeepsValid | backend/src/controllers/AdminController.js:592 | a successful offering save keeps the store valid |
| Schema.SaveClassSameKey | backend/src/controllers/AdminController.js:430-431 | changing only a class's incharge always saves and keeps the store valid |
| Schema.SaveClassSubjectSameKey | backend/src/controllers/AdminController.js:578-592 | changing an offering's teacher or an in-range maxMarks always saves and keeps the store valid |
| Schema.SaveStudentSameKeys | backend/src/controllers/AdminController.js:308-309 | changing only a student's class always saves and keeps the store valid |
| Schema.RemoveKeepsValid | backend/src/controllers/AdminController.js:257-261 | deleting a student record and its user keeps the store valid |
| Auth.Registered | backend/src/controllers/AuthController.js:29-34 | the new user carries the requested role, the normalised email, the trimmed username and the hashed password |
| Auth.Register | backend/src/controllers/AuthController.js:14-42 | 400 exactly when a field is missing; 409 exactly when the normalised email is in use; otherwise 201 when the user document passes its validators and 500 when it does not; a 201 adds exactly that user, anything else changes nothing |
| Auth.EmailIndexLookup | backend/src/models/user.js:12-15 | the unique index, comparing the normalised email, sees an email as taken exactly when the findOne pre-check does |
| Auth.RegisterKeepsValid | backend/src/controllers/AuthController.js:29-34 | registering keeps the store valid |
| Auth.Signup | backend/src/controllers/AuthController.js:5-43 | 403 exactly for a non-admin caller; an admin gets the registration outcome (409 for any spelling of a stored email); a created user is always a student |
| Auth.SignupKeepsValid | backend/src/controllers/AuthController.js:5-43 | signup keeps the store valid |
| Auth.SignupRoleFirst | backend/src/controllers/AuthController.js:7-12 | a non-admin gets 403 whatever the body, and nothing changes |
| Auth.CaseVariantEmailConflicts | backend/src/controllers/AuthController.js:22-25 | an email that differs from a stored one only in case or surrounding whitespace is answered 409 and changes nothing |
| Auth.RegisterSeesNormalEmail | backend/src/controllers/AuthController.js:14-42 | two requests whose emails normalise alike get the same answer and leave the same store |
| Auth.StoredEmailsAreNormal | backend/src/models/user.js:13-14 | every email in a valid store is its own normal form |
| Auth.Login | backend/src/controllers/AuthController.js:45-87 | 404 when no user has the normalised email; once a user is found, 500 exactly when the password is missing, 401 when it does not match, and otherwise 200 with that user's id, role and username |
| Auth.LoginIdentifiesTheUser | backend/src/controllers/AuthController.js:49-80 | on a valid store a login whose email normalises to a stored one succeeds exactly when a password is given and matches that user, and then names that user |
| Auth.RegisterThenLogin | backend/src/controllers/AuthController.js:27-80 | a registered user logs in with the email as typed and the password, and receives the registered role and trimmed username |
| Admin.CreateTeacher | backend/src/controllers/AdminController.js:20-59 | 403 exactly for a non-admin; otherwise the registration outcome (409 for any spelling of a stored email); a created user is an instructor; a refusal changes nothing |
| Admin.CreateTeacherKeepsValid | backend/src/controllers/AdminController.js:40-46 | creating an instructor keeps the store valid |
| Admin.StudentAccount | backend/src/controllers/AdminController.js:118-123 | the user written for a new student has the student role and the normalised email |
| Admin.EnrollmentRecord | backend/src/controllers/AdminController.js:125-129 | the student record links the new user to the requested class, with the trimmed enrollment number |
| Admin.CreateStudent | backend/src/controllers/AdminController.js:73-143 | in order: 403 non-admin, 400 missing field, 409 when the normalised email or the trimmed enrollment number is in use, 404 unknown class; each refusal changes nothing; 201 writes the user and then the linked record; a 500 may leave the user behind |
| Admin.EnrolNewAccount | backend/src/controllers/AdminController.js:117-129 | the two writes: 201 exactly when both go through; otherwise 500, with the user kept when only the second write failed |
| Admin.CreateStudentKeepsValid | backend/src/controllers/AdminController.js:117-129 | creating a student keeps the store valid, whether the request succeeds or fails halfway |
| Admin.CreateStudentLinksUser | backend/src/controllers/AdminController.js:118-129 | on success exactly one user (a student) and exactly one record pointing at it and at the requested class are added |
| Admin.CreateStudentOrphansUser | backend/src/controllers/AdminController.js:79-129 | a whitespace-only enrollment number passes every pre-check; the user is written, the trimmed empty number is refused, and the answer is 500 with the user left behind |
| Admin.CreateStudentChecked | backend/src/controllers/AdminController.js:73-143 | the corrected handler: a refusal of any kind leaves the store unchanged |
| Admin.EnrolAtomically | backend/src/controllers/AdminController.js:117-129 | both writes or neither; it succeeds exactly when the original's two writes do |
| Admin.CreateStudentCheckedAgrees | backend/src/controllers/AdminController.js:73-143 | the corrected handler answers with the original's status on every input, and with the original's store whenever that is not a 500 |
| Admin.CreateStudentCheckedNoOrphan | backend/src/controllers/AdminController.js:79-129 | with a whitespace-only enrollment number, the corrected handler answers 500 and leaves the store unchanged |
| Admin.BlankEnrollmentNotInUse | backend/src/models/student.js:11-16 | no record in a valid store has a blank enrollment number, so the pre-check never finds one |
| Admin.UpdateStudent | backend/src/controllers/AdminController.js:157-241 | 403 non-admin; 404 unknown student or account, or unknown class; 409 when another user has the normalised email or another record the trimmed number; a refusal changes nothing; 200 saves the edited user and record together |
| Admin.UpdateStudentKeepsValid | backend/src/controllers/AdminController.js:229 | editing a student keeps the store valid |
| Admin.UpdateStudentStoresNormalised | backend/src/controllers/AdminController.js:180-229 | on success the email is stored trimmed and lower-cased, username and enrollment number trimmed, absent fields and the role kept, results untouched |
| Admin.UpdateStudentExcludesSelf | backend/src/controllers/AdminController.js:180-216 | re-sending a student's own email (in any case) and own enrollment number is no conflict |
| Admin.DeleteStudent | backend/src/controllers/AdminController.js:243-273 | 403 non-admin; 404 exactly for an unknown id; otherwise the record and its user are removed and every other document is kept as it was |
| Admin.DeleteStudentKeepsValid | backend/src/controllers/AdminController.js:257-261 | deleting keeps the store valid |
| Admin.ShiftStudentClass | backend/src/controllers/AdminController.js:275-321 | 403 non-admin; 400 without classId; 404 for an unknown student or class; refusals change nothing; 200 changes only the record's class |
| Admin.ShiftStudentClassKeepsValid | backend/src/controllers/AdminController.js:308-309 | on a valid store a move never fails, keeps the store valid and leaves the results as they were |
| Admin.CreateClass | backend/src/controllers/AdminController.js:323-377 | 403 non-admin; 400 for a missing name or section; 409 exactly when the trimmed name and trimmed, upper-cased section are taken; 400 for an incharge who is not an instructor; a created class has a section A-D and the given incharge or none |
| Admin.CreateClassKeepsValid | backend/src/controllers/AdminController.js:361-365 | creating a class keeps the store valid |
| Admin.CreateClassOutcome | backend/src/controllers/AdminController.js:335-376 | past the pre-checks the class is created exactly when the trimmed name is non-empty and the normalised section is A-D, stored with them; otherwise 500 |
| Admin.ClassWriteDecides | backend/src/controllers/AdminController.js:361-376 | past the pre-checks the schema's verdict on the normalised class decides between 201 and 500 |
| Admin.NormalisedClass | backend/src/models/class.js:5-15 | the schema setters leave a normalised class as it is; the schema accepts it exactly when the name is non-empty and the section is A-D |
| Admin.SectionExamples | backend/src/controllers/AdminController.js:336 | example: section "b" is stored as "B"; "e" becomes "E", which the enum refuses |
| Admin.UpdateClassIncharge | backend/src/controllers/AdminController.js:390-443 | 403 non-admin; 400 for a missing class id or incharge; 404 unknown class; 400 for a non-instructor; a refusal changes nothing; 200 changes only the class's incharge |
| Admin.UpdateClassInchargeKeepsValid | backend/src/controllers/AdminController.js:430-431 | on a valid store the reassignment never fails and keeps the store valid |
| Admin.CreateSubject | backend/src/controllers/AdminController.js:445-478 | 403 non-admin; 400 missing name; 409 exactly when the trimmed name is in use; 201 adds the subject |
| Admin.CreateSubjectKeepsValid | backend/src/controllers/AdminController.js:466 | creating a subject keeps the store valid |
| Admin.CreateClassSubject | backend/src/controllers/AdminController.js:489-546 | in order: 403, 400 missing field, 404 unknown subject or class, 400 non-instructor teacher, 409 same (subject, class); a null maxMarks passes the missing-field test; an out-of-range or null maxMarks is never checked by the handler and ends as 500, after the 409 check |
| Admin.CreateClassSubjectKeepsValid | backend/src/controllers/AdminController.js:528-533 | creating an offering keeps the store valid |
| Admin.EditedOffering | backend/src/controllers/AdminController.js:570-590 | an edit keeps the subject and class and replaces only the fields given |
| Admin.UpdateClassSubject | backend/src/controllers/AdminController.js:548-604 | 403; 400 when both fields are undefined; 404 unknown offering; 400 for a defined teacherId that is null or not an instructor, or a defined maxMarks whose `Number` is outside [0, 100]; 200 saves the found teacher and the converted maxMarks (null saves 0) |
| Admin.NullOfferingEdits | backend/src/controllers/AdminController.js:555-592 | `{ maxMarks: null }` saves 0 with 200; `{ teacherId: null }` is 400 whatever maxMarks comes with it |
| Admin.UpdateClassSubjectKeepsValid | backend/src/controllers/AdminController.js:581-592 | on a valid store an offering edit never fails and keeps the store valid |
| Admin.LoweringMaxMarksStrandsResults | backend/src/controllers/AdminController.js:581-590 | lowering maxMarks below a recorded result succeeds and leaves that result above the new maximum |
| Admin.RequestedExam | backend/src/models/exam.js:5-23 | the exam written has the class and date sent and the trimmed name and year |
| Admin.CreateExam | backend/src/controllers/AdminController.js:624-661 | 403; 400 missing field; 404 unknown class; 409 exactly when (trimmed name, class, trimmed year) is in use; 201 adds the exam |
| Admin.CreateExamKeepsValid | backend/src/controllers/AdminController.js:649 | creating an exam keeps the store valid |
| Admin.NonAdminChangesNothing | backend/src/controllers/AdminController.js:9-18 | every mutating admin handler answers a non-admin with 403 before any lookup, and changes nothing |
| Teacher.RequestedResult | backend/src/controllers/TeacherController.js:84-92 | the result written carries the request's key and marks, and the grade computed from the offering's maximum |
| Teacher.AddResult | backend/src/controllers/TeacherController.js:28-111 | 403 for a non-instructor or another teacher's offering; 400 for a falsy id or undefined marks, a student or exam of another class, or marks outside [0, maxMarks] (null compares as 0); 404 for an unresolved reference; 500 for null marks that pass every check; 409 for a repeat; 201 adds exactly the graded result; any refusal changes nothing |
| Teacher.AddResultRoleFirst | backend/src/controllers/TeacherController.js:30 | a non-instructor gets 403 whatever the store or the request |
| Teacher.AddResultFieldsBeforeLookups | backend/src/controllers/TeacherController.js:32-38 | a missing field is 400 whatever the store holds |
| Teacher.AddResultLookupOrder | backend/src/controllers/TeacherController.js:40-54 | the offering, the student and the exam are resolved in that order, and an unresolved one is 404 before any ownership or range check |
| Teacher.ZeroMarksAreGiven | backend/src/controllers/TeacherController.js:33 | example: marks of 0 and null marks count as given; undefined marks do not |
| Teacher.AddResultFailsOnlyForNull | backend/src/controllers/TeacherController.js:77-110 | numeric or undefined marks never give 500, because the document built from a number always passes the result schema; null marks that pass every check give 500 with no change, even for a repeat |
| Teacher.AddResultStoresGradedMarks | backend/src/controllers/TeacherController.js:77-92 | a stored result has the requested key, marks within [0, maxMarks] and the grade of those marks |
| Teacher.AddResultKeepsValid | backend/src/controllers/TeacherController.js:86-92 | recording a result keeps the store valid and adds exactly one result |
| Teacher.AddResultTwiceConflicts | backend/src/controllers/TeacherController.js:99-105 | repeating a successful request is 409 and stores nothing more |
| Teacher.ClassGate | backend/src/controllers/TeacherController.js:125-143 | 403 for a non-instructor or one who teaches nothing in the class; 400 without classId; 200 otherwise |
| Teacher.ListStudentsByClass | backend/src/controllers/TeacherController.js:125-153 | past the gate, exactly the students of the class; nothing otherwise |
| Teacher.ListExamsByClass | backend/src/controllers/TeacherController.js:155-180 | past the gate, exactly the exams of the class; nothing otherwise |
| Teacher.GradingImpliesListing | backend/src/controllers/TeacherController.js:56-75 | an instructor who recorded a mark may list that class, and the student and exam are in the listings |
| Grouping.Order | backend/src/controllers/StudentController.js:43-59 | every key listed occurs in the input, and no key is listed twice |
| Grouping.Members | backend/src/controllers/StudentController.js:63-71 | a group holds only input items with its key |
| Grouping.OrderComplete | backend/src/controllers/StudentController.js:45-59 | every key that occurs is in the order |
| Grouping.OrderOfPrefix | backend/src/controllers/StudentController.js:45-59 | the order of a prefix is a prefix of the order: a later item never reorders earlier keys |
| Grouping.FirstSeenFirst | backend/src/controllers/StudentController.js:45-59 | of two keys, the one seen first comes first |
| Grouping.MembersSnoc | backend/src/controllers/StudentController.js:63-65 | appending an item extends its own key's group by that item and no other group |
| Grouping.GroupsCoverKeyed | backend/src/controllers/StudentController.js:45-71 | the groups' sizes add up to the number of items that have a key |
| ResultSheets.EntryDefaults | backend/src/controllers/StudentController.js:61-71 | a missing subject name or grade shows as "-", missing marks or maximum as 0, present values as they are |
| ResultSheets.Entries | backend/src/controllers/StudentController.js:65-71 | one entry per row, in row order |
| ResultSheets.IndexOfExam | backend/src/controllers/StudentController.js:49-63 | the sheet found is the exam's; none is found exactly when no sheet has that exam |
| ResultSheets.AggregateIsGrouping | backend/src/controllers/StudentController.js:43-74 | the loop yields one sheet per distinct resolved exam in first-seen order, each holding exactly that exam's rows in input order with their summed totals |
| ResultSheets.SheetOfSnoc | backend/src/controllers/StudentController.js:65-73 | one more row of an exam adds its entry and adds its numbers to the totals |
| ResultSheets.SheetIsOfItsExam | backend/src/controllers/StudentController.js:50-51 | a sheet carries the exam it was opened for |
| ResultSheets.EveryResolvedRowCounted | backend/src/controllers/StudentController.js:45-71 | the sheets hold exactly as many entries as there are rows with a resolved exam: those rows are each counted once and the others not at all |
| ResultSheets.Round2 | backend/src/controllers/StudentController.js:82 | `toFixed(2)`: a whole number of hundredths within 0.005 of the input, never negative for a non-negative input |
| ResultSheets.SheetPercentage | backend/src/controllers/StudentController.js:80-83 | 0 when the max total is not positive; otherwise within 0.005 of obtained/max·100, and within [0, 100] when obtained ≤ max |
| ResultSheets.PercentageExamples | backend/src/controllers/StudentController.js:80-83 | examples: 116 of 130 gives 89.23, 0 of 0 gives 0, 1 of 8 gives 12.5 |
| ResultSheets.Finalize | backend/src/controllers/StudentController.js:76-85 | finalising keeps the exam, the entries and both totals |
| ResultSheets.ResultSheetsOf | backend/src/controllers/StudentController.js:76-85 | one final sheet per aggregated sheet, in order |
| ResultSheets.ResultSheetsCorrect | backend/src/controllers/StudentController.js:43-85 | one returned sheet per distinct resolved exam in first-seen order; its entries are exactly that exam's rows; its totals are the sums of its entries; its percentage is the rounded ratio |
| StudentResults.ResultsOf | backend/src/controllers/StudentController.js:33 | exactly the student's results below the bound, in increasing id order |
| StudentResults.RowsOf | backend/src/controllers/StudentController.js:33-41 | one populated row per result, in order |
| StudentResults.GetMyResults | backend/src/controllers/StudentController.js:15-105 | 403 exactly for a non-student; 404 exactly when the caller has no profile; otherwise 200 with the caller's own profile; nothing is returned on a refusal |
| StudentResults.MyResultsAreMine | backend/src/controllers/StudentController.js:33 | on a valid store the results listed are exactly the caller's, in id order |
| StudentResults.MyProfile | backend/src/controllers/StudentController.js:87-95 | the profile has the record's enrollment number and class, and the account's username and email or "" when the account is gone |
| StudentResults.MySheets | backend/src/controllers/StudentController.js:43-96 | the sheets are the aggregation of the caller's rows: one per distinct resolved exam, with as many entries in all as the caller has rows with a resolved exam |
| StudentResults.ResolvedResultsAllCounted | backend/src/controllers/StudentController.js:45-74 | when every exam reference resolves, the sheets hold every result of the student |
| StudentResults.NonStudentIsForbidden | backend/src/controllers/StudentController.js:4-17 | a caller without the student role gets 403 and nothing else |
| ClassPage.GetStudentClassId | frontend/src/pages/ClassPage.jsx:8 | the populated class's id, else the raw id, else ""; "" exactly when there is no class id |
| ClassPage.BuildStudentDraft | frontend/src/pages/ClassPage.jsx:10-16 | the draft shows the loaded fields; username, email and enrollment number are "" exactly when missing or empty; the class id is the student's; the password is always blank |
| ClassPage.SelectedClassStudents | frontend/src/pages/ClassPage.jsx:133-136 | exactly the students whose class id equals the selected id |
| ClassPage.SelectionOfConcat | frontend/src/pages/ClassPage.jsx:133-136 | the filter distributes over concatenation, so the kept students stay in list order |
| ClassPage.SelectionOfOne | frontend/src/pages/ClassPage.jsx:135 | a single student is kept exactly when its class id is the selected one |
| ClassPage.SelectionCounts | frontend/src/pages/ClassPage.jsx:133-136 | a student of the class is kept as often as it occurs in the list; any other student is dropped |
| ClassPage.ClassRows | frontend/src/pages/ClassPage.jsx:119-125 | one row per class, in order, with the class's id, name, section and incharge |
| ClassPage.CountsMatchSelection | frontend/src/pages/ClassPage.jsx:112-117 | the count built for an id is the number of students selecting that id lists; students without a class id are not counted |
| ClassPage.ClassRowCounts | frontend/src/pages/ClassPage.jsx:111-126 | a row's total is the size of its class's selection, and 0 for a class without students |
| ClassPage.FindClass | frontend/src/pages/ClassPage.jsx:129 | the first position at or after `from` holding the selected id, or none |
| ClassPage.SelectedClass | frontend/src/pages/ClassPage.jsx:128-131 | no class exactly when no class has the id; otherwise the first class that has it |
| ClassPage.ExportRow | frontend/src/pages/ClassPage.jsx:236-242 | five cells: the username, email and enrollment number the edit draft shows, then the class's name and section, "" for a missing one |
| ClassPage.ExportCsv | frontend/src/pages/ClassPage.jsx:229-246 | no file exactly when no class is selected |
| ClassPage.ExportCsvReadsBack | frontend/src/pages/ClassPage.jsx:235-246 | the file reads back as the five-column header and then one line per selected student, in order, holding that student's fields |
| Csv.EscapeCsv | frontend/src/pages/ClassPage.jsx:18-21 | the cell starts and ends with a quote; a missing value is `""` |
| Csv.DoubleQuotes | frontend/src/pages/ClassPage.jsx:20 | a text without quotes is left as it is |
| Csv.QuotedRoundTrip | frontend/src/pages/ClassPage.jsx:20 | dropping the closing quote and collapsing `""` recovers the text exactly |
| Csv.CellRoundTrip | frontend/src/pages/ClassPage.jsx:18-21 | reading an escaped cell gives back the value ("" for a missing one) and leaves what follows |
| Csv.LineRoundTrip | frontend/src/pages/ClassPage.jsx:245 | a line of escaped cells joined by "," reads back as its cells |
| Csv.TableRoundTrip | frontend/src/pages/ClassPage.jsx:244-246 | lines joined by "\n" read back as the table, whatever the cells contain |
| SubjectPage.LabelShape | frontend/src/pages/SubjectPage.jsx:81 | the label is "name-section", with "-" for a missing part |
| SubjectPage.EntryShape | frontend/src/pages/SubjectPage.jsx:85 | an entry is "subject (maxMarks)", with "-" and 0 for missing values |
| SubjectPage.IndexOfClass | frontend/src/pages/SubjectPage.jsx:79 | the group found is the class's; none is found exactly when no group has that class |
| SubjectPage.GroupedIsGrouping | frontend/src/pages/SubjectPage.jsx:76-87 | the reduce yields one group per class id in first-seen order, labelled from its first offering and listing exactly that class's offerings in input order |
| SubjectPage.EveryClassedOfferingListed | frontend/src/pages/SubjectPage.jsx:77-85 | offerings without a populated class are dropped; every other offering is listed in exactly one group |
| SubjectPage.InsertSorted | frontend/src/pages/SubjectPage.jsx:89 | inserting into a sorted list keeps it sorted |
| SubjectPage.SortPermutes | frontend/src/pages/SubjectPage.jsx:89 | sorting neither loses nor duplicates a group |
| SubjectPage.SortStable | frontend/src/pages/SubjectPage.jsx:89 | groups whose labels compare equal keep their relative order |
| SubjectPage.ClassSubjectRowsCorrect | frontend/src/pages/SubjectPage.jsx:75-90 | the rows are the class groups, sorted by label, with nothing lost or duplicated and tied labels in first-seen order |

## Left out

- Database connection, server start-up, routing, `seedAdmin`: I/O and framework plumbing.
- bcrypt and JWT: hashing and comparison are function parameters; the token itself is not modelled.
- The list endpoints (`listTeachers`, `listStudents`, `listClasses`, `listSubjects`, `listClassSubjects`, `listExams`, `listMyClassSubjects`): database queries with `populate` and `sort`. Only the gate of the instructor's two per-class listings is modelled.
- `populate`: joins are given as already resolved; a dangling reference populates to nothing.
- `Promise.all` and the race between a pre-check and the write after it: every handler is one atomic step.
- `updateStudent` saves the user and the record in parallel; the two saves are modelled as one step, so a half-applied edit is not modelled.
- Admin.CreateStudent: a failure of the first write (an email the schema refuses) is a 500 that changes nothing; database errors other than validator and unique-index refusals are not modelled.
- Marks and `maxMarks` are integers; fractional marks and `Number(...)` parsing of strings (`NaN` included) are not modelled.
- Text.ToLower, Text.ToUpper: case mapping covers ASCII letters only, not the rest of Unicode.
- ResultSheets.Round2: the percentage is an exact rational rounded half away from zero; the binary floating-point artefacts of `toFixed(2)` are not modelled.
- SubjectPage.SortStable: `localeCompare` is an abstract comparator, required to be a total preorder; its locale-specific collation is not modelled.
- SubjectPage.GroupedIsGrouping: object keys keep insertion order, as they do for ObjectId strings; integer-like keys, which JavaScript enumerates first, and a `__proto__` key are not modelled.
- Csv.EscapeCsv: cells are strings; `String(...)` of numbers or objects is not modelled.
- ClassPage.GetStudentClassId: a populated class with an empty `_id` is not modelled; populated references always carry a non-empty id.
- Auth.Login: a login with no email at all is treated like one with an email no user has; a password that is not a string is not modelled.
- Schema.FindOne: searches only ids below `nextId`; on a valid store that is every id.
- Exam dates are strings; date parsing is not modelled, only that a date is required.
- Invalid ObjectId strings, which make `findById` throw (a 500), are not modelled: ids are naturals.
- The React state, effects, fetch calls, toasts and the Blob download of the pages, and the other pages and components: UI plumbing.

## Findings

| source | as written | input that shows it | evidently intended | confidence | as-written member | corrected member |
|---|---|---|---|---|---|---|
| backend/src/controllers/AdminController.js:79-129 | `createStudent` checks `!enrollmentNumber` on the number as sent, looks it up trimmed (a blank number becomes "" and matches nothing), writes the user, and only then writes the student record, whose schema trims the number to "" and requires it | an admin request with a fresh email, an existing class and enrollment number "   " (spaces only): the user is written, the record is refused, the answer is 500 and a student user without a record stays in the database | a refused request leaves no account behind: validate both documents, or undo the first write, before answering | not executed | Admin.CreateStudentOrphansUser | Admin.CreateStudentCheckedNoOrphan |
