/**
  The aggregation step of `getMyResults`: a student's result rows, already
  joined with their offering, subject and exam, are folded into one result
  sheet per exam, and each sheet's totals get a percentage rounded to two
  decimals.
 */
module ResultSheets {
  import opened Common
  import opened Grouping

  /** The populated exam of a result row. */
  datatype ExamRef = ExamRef(id: Id, name: string, academicYear: string, date: string)

  /**
    One result with its references resolved; `None` stands for a reference
    that did not resolve or a value that is missing or falsy.
   */
  datatype ResultRow = ResultRow(
    resultId: Id,
    exam: Option<ExamRef>,
    subjectName: Option<string>,
    maxMarks: Option<int>,
    marksObtained: Option<int>,
    grade: Option<string>)

  datatype Entry = Entry(resultId: Id, subject: string, marksObtained: int, maxMarks: int, grade: string)

  /** A sheet while the loop runs: the exam, its entries, and running totals. */
  datatype Sheet = Sheet(exam: ExamRef, subjects: seq<Entry>, obtainedMarks: int, maxMarks: int)

  /** The sheet as returned: the totals with their percentage. */
  datatype FinalSheet = FinalSheet(exam: ExamRef, subjects: seq<Entry>, obtainedMarks: int, maxMarks: int, percentage: real)

  /** The key a row is grouped under: its exam's id, when the exam resolved. */
  function SheetKey(row: ResultRow): Option<Id> {
    if row.exam.Some? then Some(row.exam.value.id) else None
  }

  /** The subject entry the loop pushes for a row. */
  function EntryOf(row: ResultRow): Entry {
    Entry(row.resultId, OrDash(row.subjectName), row.marksObtained.GetOr(0), row.maxMarks.GetOr(0), OrDash(row.grade))
  }

  /**
    A missing subject name or grade shows as "-" and a missing number as 0;
    a present value is kept as it is.
   */
  lemma EntryDefaults(row: ResultRow)
    ensures EntryOf(row).subject != [] && EntryOf(row).grade != []
    ensures EntryOf(row).subject == "-" <==> !Truthy(row.subjectName) || row.subjectName.value == "-"
    ensures EntryOf(row).grade == "-" <==> !Truthy(row.grade) || row.grade.value == "-"
    ensures row.maxMarks.None? ==> EntryOf(row).maxMarks == 0
    ensures row.marksObtained.None? ==> EntryOf(row).marksObtained == 0
    ensures row.marksObtained.Some? ==> EntryOf(row).marksObtained == row.marksObtained.value
    ensures row.maxMarks.Some? ==> EntryOf(row).maxMarks == row.maxMarks.value
    ensures EntryOf(row).resultId == row.resultId
  {
  }

  function Entries(rows: seq<ResultRow>): (es: seq<Entry>)
    ensures |es| == |rows|
    ensures forall i :: 0 <= i < |rows| ==> es[i] == EntryOf(rows[i])
  {
    if rows == [] then [] else Entries(rows[..|rows| - 1]) + [EntryOf(rows[|rows| - 1])]
  }

  function SumObtained(es: seq<Entry>): int {
    if es == [] then 0 else SumObtained(es[..|es| - 1]) + es[|es| - 1].marksObtained
  }

  function SumMax(es: seq<Entry>): int {
    if es == [] then 0 else SumMax(es[..|es| - 1]) + es[|es| - 1].maxMarks
  }

  // ---------------------------------------------------------------------------
  // The loop as written

  /** `resultSheetsMap.get(examId)`: the position of the sheet for exam `id`, if there is one. */
  function IndexOfExam(sheets: seq<Sheet>, id: Id): (i: Option<nat>)
    ensures i.Some? ==> i.value < |sheets| && sheets[i.value].exam.id == id
    ensures i.None? ==> forall j :: 0 <= j < |sheets| ==> sheets[j].exam.id != id
  {
    if sheets == [] then None
    else if sheets[0].exam.id == id then Some(0)
    else
      match IndexOfExam(sheets[1..], id)
      case None => None
      case Some(j) => Some(j + 1)
  }

  /** Push the row's entry and add its numbers to the running totals. */
  function AddEntry(sheet: Sheet, row: ResultRow): Sheet {
    var e := EntryOf(row);
    sheet.(subjects := sheet.subjects + [e],
           obtainedMarks := sheet.obtainedMarks + e.marksObtained,
           maxMarks := sheet.maxMarks + e.maxMarks)
  }

  /** One iteration of the loop: skip an unresolved exam, else open the exam's sheet if needed and add the entry. */
  function Step(sheets: seq<Sheet>, row: ResultRow): seq<Sheet> {
    match SheetKey(row)
    case None => sheets
    case Some(id) =>
      match IndexOfExam(sheets, id)
      case None => sheets + [AddEntry(Sheet(row.exam.value, [], 0, 0), row)]
      case Some(i) => sheets[i := AddEntry(sheets[i], row)]
  }

  /** The whole loop: a left fold of `Step` over the rows. */
  function Aggregate(rows: seq<ResultRow>): seq<Sheet> {
    if rows == [] then [] else Step(Aggregate(rows[..|rows| - 1]), rows[|rows| - 1])
  }

  // ---------------------------------------------------------------------------
  // What the loop computes, stated independently

  /** The sheet for a non-empty group of rows of one exam: the first row's exam, every row's entry, the sums. */
  function SheetOf(group: seq<ResultRow>): Sheet
    requires group != [] && group[0].exam.Some?
  {
    var es := Entries(group);
    Sheet(group[0].exam.value, es, SumObtained(es), SumMax(es))
  }

  /** The reference sheet for exam `id`: built from exactly the rows of that exam, in input order. */
  function SheetFor(rows: seq<ResultRow>, id: Id): Sheet
    requires id in Order(rows, SheetKey)
  {
    var group := Members(rows, SheetKey, id);
    ExamGroupNonEmpty(rows, id);
    SheetOf(group)
  }

  /** The group of an exam that occurs is non-empty and starts with a row of a resolved exam. */
  lemma ExamGroupNonEmpty(rows: seq<ResultRow>, id: Id)
    requires Occurs(rows, SheetKey, id)
    ensures Members(rows, SheetKey, id) != [] && Members(rows, SheetKey, id)[0].exam.Some?
  {
    OccursHasMembers(rows, SheetKey, id);
    var group := Members(rows, SheetKey, id);
    assert group[0] in group;
  }

  lemma EntriesSnoc(rows: seq<ResultRow>, row: ResultRow)
    ensures Entries(rows + [row]) == Entries(rows) + [EntryOf(row)]
  {
    LastOf(rows, row);
  }

  /** One more row of the same exam adds its entry and its numbers. */
  lemma SheetOfSnoc(group: seq<ResultRow>, row: ResultRow)
    requires group != [] && group[0].exam.Some?
    ensures SheetOf(group + [row]) == AddEntry(SheetOf(group), row)
  {
    EntriesSnoc(group, row);
    SumsSnoc(Entries(group), EntryOf(row));
    assert (group + [row])[0] == group[0];
  }

  lemma SumsSnoc(es: seq<Entry>, e: Entry)
    ensures SumObtained(es + [e]) == SumObtained(es) + e.marksObtained
    ensures SumMax(es + [e]) == SumMax(es) + e.maxMarks
  {
    LastOf(es, e);
  }

  /** The sheets match the exams in first-seen order, and each sheet is the reference sheet of its exam. */
  ghost predicate Matches(sheets: seq<Sheet>, rows: seq<ResultRow>) {
    && |sheets| == |Order(rows, SheetKey)|
    && forall i :: 0 <= i < |sheets| ==> sheets[i] == SheetFor(rows, Order(rows, SheetKey)[i])
  }

  /**
    The loop builds exactly one sheet per distinct resolved exam, in the
    order each exam first appears, and each sheet holds that exam's rows
    in input order with their sums.
   */
  lemma {:induction false} AggregateIsGrouping(rows: seq<ResultRow>)
    ensures Matches(Aggregate(rows), rows)
    decreases |rows|
  {
    if rows != [] {
      var init := rows[..|rows| - 1];
      var row := rows[|rows| - 1];
      assert rows == init + [row];
      AggregateIsGrouping(init);
      StepMatches(Aggregate(init), init, row);
    }
  }

  /** `Step` turns a match for `rows` into a match for `rows + [row]`. */
  lemma StepMatches(sheets: seq<Sheet>, rows: seq<ResultRow>, row: ResultRow)
    requires Matches(sheets, rows)
    ensures Matches(Step(sheets, row), rows + [row])
  {
    if SheetKey(row).None? {
      SkipMatches(sheets, rows, row);
    } else {
      var id := SheetKey(row).value;
      SheetsCarryTheirExam(sheets, rows);
      var j := IndexOfExam(sheets, id);
      if j.None? {
        OpenMatches(sheets, rows, row);
      } else {
        AddMatches(sheets, rows, row, j.value);
      }
    }
  }

  /** Sheet `i` of a match is the sheet of the `i`-th exam. */
  lemma SheetsCarryTheirExam(sheets: seq<Sheet>, rows: seq<ResultRow>)
    requires Matches(sheets, rows)
    ensures forall i :: 0 <= i < |sheets| ==> sheets[i].exam.id == Order(rows, SheetKey)[i]
  {
    forall i | 0 <= i < |sheets|
      ensures sheets[i].exam.id == Order(rows, SheetKey)[i]
    {
      SheetIsOfItsExam(rows, Order(rows, SheetKey)[i]);
    }
  }

  /** The groups of the exams already seen only change for the row's own exam. */
  lemma SeenGroupsSnoc(rows: seq<ResultRow>, row: ResultRow, k: Id)
    requires k in Order(rows, SheetKey) && SheetKey(row) != Some(k)
    ensures k in Order(rows + [row], SheetKey)
    ensures SheetFor(rows + [row], k) == SheetFor(rows, k)
  {
    OtherKeySnoc(rows, SheetKey, row, k);
  }

  lemma SkipMatches(sheets: seq<Sheet>, rows: seq<ResultRow>, row: ResultRow)
    requires Matches(sheets, rows) && SheetKey(row).None?
    ensures Matches(Step(sheets, row), rows + [row])
  {
    var o := Order(rows, SheetKey);
    OrderSnoc(rows, SheetKey, row);
    forall i | 0 <= i < |sheets|
      ensures sheets[i] == SheetFor(rows + [row], o[i])
    {
      SeenGroupsSnoc(rows, row, o[i]);
    }
  }

  /** The first row of an exam not seen yet makes that exam's reference sheet, at the end of the order. */
  lemma NewSheet(rows: seq<ResultRow>, row: ResultRow)
    requires SheetKey(row).Some? && SheetKey(row).value !in Order(rows, SheetKey)
    ensures Order(rows + [row], SheetKey) == Order(rows, SheetKey) + [SheetKey(row).value]
    ensures SheetFor(rows + [row], SheetKey(row).value) == AddEntry(Sheet(row.exam.value, [], 0, 0), row)
  {
    NewKeySnoc(rows, SheetKey, row, SheetKey(row).value);
    OpenedSheet(row);
  }

  lemma OpenMatches(sheets: seq<Sheet>, rows: seq<ResultRow>, row: ResultRow)
    requires Matches(sheets, rows) && SheetKey(row).Some?
    requires forall i :: 0 <= i < |sheets| ==> sheets[i].exam.id == Order(rows, SheetKey)[i]
    requires IndexOfExam(sheets, SheetKey(row).value).None?
    ensures Matches(Step(sheets, row), rows + [row])
  {
    var id := SheetKey(row).value;
    var o := Order(rows, SheetKey);
    assert id !in o;
    NewSheet(rows, row);
    var s' := sheets + [AddEntry(Sheet(row.exam.value, [], 0, 0), row)];
    assert Step(sheets, row) == s';
    forall i | 0 <= i < |sheets|
      ensures s'[i] == SheetFor(rows + [row], o[i])
    {
      SeenGroupsSnoc(rows, row, o[i]);
    }
  }

  /** A sheet opened for a row is the sheet of that one row. */
  lemma OpenedSheet(row: ResultRow)
    requires row.exam.Some?
    ensures SheetOf([row]) == AddEntry(Sheet(row.exam.value, [], 0, 0), row)
  {
    var e := EntryOf(row);
    assert Entries([row]) == [e] by { EntriesSnoc([], row); }
    SumsSnoc([], e);
    assert [] + [e] == [e];
  }

  /** A further row of an exam already seen extends that exam's reference sheet. */
  lemma GrownSheet(rows: seq<ResultRow>, row: ResultRow)
    requires SheetKey(row).Some? && SheetKey(row).value in Order(rows, SheetKey)
    ensures Order(rows + [row], SheetKey) == Order(rows, SheetKey)
    ensures SheetFor(rows + [row], SheetKey(row).value) == AddEntry(SheetFor(rows, SheetKey(row).value), row)
  {
    var id := SheetKey(row).value;
    SeenKeySnoc(rows, SheetKey, row, id);
    ExamGroupNonEmpty(rows, id);
    SheetOfSnoc(Members(rows, SheetKey, id), row);
  }

  lemma AddMatches(sheets: seq<Sheet>, rows: seq<ResultRow>, row: ResultRow, j: nat)
    requires Matches(sheets, rows) && SheetKey(row).Some?
    requires IndexOfExam(sheets, SheetKey(row).value) == Some(j)
    requires forall i :: 0 <= i < |sheets| ==> sheets[i].exam.id == Order(rows, SheetKey)[i]
    ensures Matches(Step(sheets, row), rows + [row])
  {
    var id := SheetKey(row).value;
    var o := Order(rows, SheetKey);
    assert o[j] == id;
    GrownSheet(rows, row);
    var s' := sheets[j := AddEntry(sheets[j], row)];
    assert Step(sheets, row) == s';
    forall i | 0 <= i < |s'| && i != j
      ensures s'[i] == SheetFor(rows + [row], o[i])
    {
      assert o[i] != id;
      SeenGroupsSnoc(rows, row, o[i]);
    }
  }

  /** The reference sheet of exam `id` carries that exam. */
  lemma SheetIsOfItsExam(rows: seq<ResultRow>, id: Id)
    requires id in Order(rows, SheetKey)
    ensures SheetFor(rows, id).exam.id == id
  {
    var group := Members(rows, SheetKey, id);
    ExamGroupNonEmpty(rows, id);
    assert group[0] in group;
  }

  /** How many entries the sheets hold together. */
  function EntryCount(sheets: seq<Sheet>): nat {
    if sheets == [] then 0 else EntryCount(sheets[..|sheets| - 1]) + |sheets[|sheets| - 1].subjects|
  }

  lemma {:induction false} EntryCountUpdate(sheets: seq<Sheet>, i: nat, s: Sheet)
    requires i < |sheets|
    ensures EntryCount(sheets[i := s]) == EntryCount(sheets) - |sheets[i].subjects| + |s.subjects|
    decreases |sheets|
  {
    var init := sheets[..|sheets| - 1];
    if i < |sheets| - 1 {
      assert sheets[i := s][..|sheets| - 1] == init[i := s];
      EntryCountUpdate(init, i, s);
    } else {
      assert sheets[i := s][..|sheets| - 1] == init;
    }
  }

  lemma EntryCountSnoc(sheets: seq<Sheet>, s: Sheet)
    ensures EntryCount(sheets + [s]) == EntryCount(sheets) + |s.subjects|
  {
    LastOf(sheets, s);
  }

  /** Rows whose exam does not resolve go nowhere; every other row lands in exactly one sheet. */
  lemma {:induction false} EveryResolvedRowCounted(rows: seq<ResultRow>)
    ensures EntryCount(Aggregate(rows)) == |Keyed(rows, SheetKey)|
    decreases |rows|
  {
    if rows != [] {
      var init := rows[..|rows| - 1];
      var row := rows[|rows| - 1];
      assert rows == init + [row];
      EveryResolvedRowCounted(init);
      KeyedSnoc(init, SheetKey, row);
      var a := Aggregate(init);
      match SheetKey(row)
      case None =>
      case Some(id) =>
        match IndexOfExam(a, id)
        case None =>
          EntryCountSnoc(a, AddEntry(Sheet(row.exam.value, [], 0, 0), row));
        case Some(j) =>
          EntryCountUpdate(a, j, AddEntry(a[j], row));
    }
  }

  // ---------------------------------------------------------------------------
  // Percentage

  /**
    `Number(x.toFixed(2))` without binary floating point: the nearest
    multiple of 0.01, ties away from zero (toFixed rounds the magnitude).
   */
  function Round2(x: real): (r: real)
    ensures -0.005 <= r - x <= 0.005
    ensures (r * 100.0).Floor as real == r * 100.0
    ensures x >= 0.0 ==> r >= 0.0
  {
    if x >= 0.0 then
      RoundMagnitude(x);
      RoundUp(x)
    else
      RoundMagnitude(-x);
      NegatedWhole(RoundUp(-x) * 100.0);
      -RoundUp(-x)
  }

  /** Half-up rounding of a magnitude to hundredths. */
  function RoundUp(m: real): real {
    ((m * 100.0 + 0.5).Floor as real) / 100.0
  }

  lemma RoundMagnitude(m: real)
    requires m >= 0.0
    ensures -0.005 <= RoundUp(m) - m <= 0.005
    ensures (RoundUp(m) * 100.0).Floor as real == RoundUp(m) * 100.0
    ensures RoundUp(m) >= 0.0
  {
    var n := (m * 100.0 + 0.5).Floor;
    assert n as real <= m * 100.0 + 0.5 < n as real + 1.0;
    assert RoundUp(m) * 100.0 == n as real;
  }

  /** The negation of a whole number is whole. */
  lemma NegatedWhole(w: real)
    requires w.Floor as real == w
    ensures (-w).Floor as real == -w
  {
    var k := w.Floor;
    assert -w == (-k) as real;
  }

  /** The percentage of a sheet: 0 when its max-marks total is not positive. */
  function SheetPercentage(obtained: int, max: int): (p: real)
    ensures max <= 0 ==> p == 0.0
    ensures max > 0 ==> -0.005 <= p - (obtained as real / max as real) * 100.0 <= 0.005
    ensures 0 <= obtained <= max ==> 0.0 <= p <= 100.0
  {
    if max > 0 then
      var exact := (obtained as real / max as real) * 100.0;
      assert 0 <= obtained <= max ==> exact <= 100.0 by {
        if 0 <= obtained <= max {
          assert obtained as real / max as real <= 1.0;
        }
      }
      RoundKeepsBounds(exact);
      Round2(exact)
    else 0.0
  }

  /** Rounding a value of [0, 100] to hundredths stays within [0, 100]. */
  lemma RoundKeepsBounds(x: real)
    ensures 0.0 <= x <= 100.0 ==> 0.0 <= Round2(x) <= 100.0
  {
    if 0.0 <= x <= 100.0 {
      var n := (x * 100.0 + 0.5).Floor;
      assert n <= 10000;
    }
  }

  /** 116 of 130 marks is 89.2307...%, shown as 89.23; 0 of 0 is 0. */
  lemma PercentageExamples()
    ensures SheetPercentage(116, 130) == 89.23
    ensures SheetPercentage(0, 0) == 0.0
    ensures SheetPercentage(1, 8) == 12.5
  {
    var x := (116 as real / 130 as real) * 100.0;
    assert x * 100.0 + 0.5 == 1160000.0 / 130.0 + 0.5;
    assert 8923.0 <= x * 100.0 + 0.5 < 8924.0;
    var y := (1 as real / 8 as real) * 100.0;
    assert y * 100.0 + 0.5 == 1250.5;
  }

  function Finalize(sheet: Sheet): (f: FinalSheet)
    ensures f.exam == sheet.exam && f.subjects == sheet.subjects
    ensures f.obtainedMarks == sheet.obtainedMarks && f.maxMarks == sheet.maxMarks
  {
    FinalSheet(sheet.exam, sheet.subjects, sheet.obtainedMarks, sheet.maxMarks, SheetPercentage(sheet.obtainedMarks, sheet.maxMarks))
  }

  /** `resultSheets`: the aggregated sheets, each with its percentage. */
  function ResultSheetsOf(rows: seq<ResultRow>): (fs: seq<FinalSheet>)
    ensures |fs| == |Aggregate(rows)|
    ensures forall i :: 0 <= i < |fs| ==> fs[i] == Finalize(Aggregate(rows)[i])
  {
    var sheets := Aggregate(rows);
    seq(|sheets|, i requires 0 <= i < |sheets| => Finalize(sheets[i]))
  }

  /**
    The returned sheets: one per distinct resolved exam in first-seen
    order, each holding exactly that exam's rows in input order, with
    totals that are the sums of its entries and the rounded percentage.
   */
  lemma ResultSheetsCorrect(rows: seq<ResultRow>)
    ensures |ResultSheetsOf(rows)| == |Order(rows, SheetKey)|
    ensures forall i :: 0 <= i < |ResultSheetsOf(rows)| ==>
      var f := ResultSheetsOf(rows)[i];
      var group := Members(rows, SheetKey, Order(rows, SheetKey)[i]);
      && f.exam.id == Order(rows, SheetKey)[i]
      && f.subjects == Entries(group)
      && f.obtainedMarks == SumObtained(f.subjects) && f.maxMarks == SumMax(f.subjects)
      && f.percentage == SheetPercentage(f.obtainedMarks, f.maxMarks)
  {
    AggregateIsGrouping(rows);
    forall i | 0 <= i < |ResultSheetsOf(rows)|
      ensures ResultSheetsOf(rows)[i].exam.id == Order(rows, SheetKey)[i]
    {
      SheetIsOfItsExam(rows, Order(rows, SheetKey)[i]);
    }
  }
}
