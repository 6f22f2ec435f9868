/**
  `gradeFromMarks`: the letter grade a teacher's result entry is stored
  with, from fixed thresholds on the percentage of marks obtained.
 */
module Grading {

  datatype Grade = APlus | A | B | C | D | F | NotApplicable {
    /** The string stored in the result document. */
    function Label(): (s: string)
      ensures s != [] && s[0] != ' ' && s[|s| - 1] != ' '
    {
      match this
      case APlus => "A+"
      case A => "A"
      case B => "B"
      case C => "C"
      case D => "D"
      case F => "F"
      case NotApplicable => "N/A"
    }
  }

  /** Position of a letter grade on the scale, F lowest. */
  function Rank(g: Grade): (r: nat)
    requires g != NotApplicable
    ensures r <= 5
  {
    match g
    case F => 0
    case D => 1
    case C => 2
    case B => 3
    case A => 4
    case APlus => 5
  }

  /** `(marks / maxMarks) * 100`, exactly. */
  function Percentage(marks: int, maxMarks: int): real
    requires maxMarks > 0
  {
    (marks as real / maxMarks as real) * 100.0
  }

  /** Comparing the percentage with a threshold needs no division. */
  lemma PercentageAtLeast(marks: int, maxMarks: int, t: int)
    requires maxMarks > 0
    ensures Percentage(marks, maxMarks) >= t as real <==> 100 * marks >= t * maxMarks
  {
    var p := Percentage(marks, maxMarks);
    var M := maxMarks as real;
    assert p * M == 100.0 * marks as real;
    if p >= t as real {
      assert p * M >= t as real * M;
    } else {
      assert p * M < t as real * M;
    }
  }

  function GradeFromMarks(marks: int, maxMarks: int): (g: Grade)
    ensures maxMarks <= 0 <==> g == NotApplicable
    ensures maxMarks > 0 ==> (g == APlus <==> 100 * marks >= 90 * maxMarks)
    ensures maxMarks > 0 ==> (g == A <==> 80 * maxMarks <= 100 * marks < 90 * maxMarks)
    ensures maxMarks > 0 ==> (g == B <==> 70 * maxMarks <= 100 * marks < 80 * maxMarks)
    ensures maxMarks > 0 ==> (g == C <==> 60 * maxMarks <= 100 * marks < 70 * maxMarks)
    ensures maxMarks > 0 ==> (g == D <==> 50 * maxMarks <= 100 * marks < 60 * maxMarks)
    ensures maxMarks > 0 ==> (g == F <==> 100 * marks < 50 * maxMarks)
  {
    if maxMarks <= 0 then NotApplicable
    else
      PercentageAtLeast(marks, maxMarks, 90);
      PercentageAtLeast(marks, maxMarks, 80);
      PercentageAtLeast(marks, maxMarks, 70);
      PercentageAtLeast(marks, maxMarks, 60);
      PercentageAtLeast(marks, maxMarks, 50);
      var percentage := Percentage(marks, maxMarks);
      if percentage >= 90.0 then APlus
      else if percentage >= 80.0 then A
      else if percentage >= 70.0 then B
      else if percentage >= 60.0 then C
      else if percentage >= 50.0 then D
      else F
  }

  /** With a positive maximum the grade is always one of the six letters. */
  lemma LetterWhenMaxPositive(marks: int, maxMarks: int)
    requires maxMarks > 0
    ensures GradeFromMarks(marks, maxMarks) in {APlus, A, B, C, D, F}
  {
  }

  /** For a fixed positive maximum, more marks never give a lower grade. */
  lemma GradeMonotone(m1: int, m2: int, maxMarks: int)
    requires maxMarks > 0 && m1 <= m2
    ensures Rank(GradeFromMarks(m1, maxMarks)) <= Rank(GradeFromMarks(m2, maxMarks))
  {
  }

  /** The boundary cases of the grading table, including an 80-mark paper. */
  lemma GradeBoundaries()
    ensures GradeFromMarks(90, 100) == APlus && GradeFromMarks(89, 100) == A
    ensures GradeFromMarks(70, 100) == B && GradeFromMarks(69, 100) == C
    ensures GradeFromMarks(60, 100) == C && GradeFromMarks(59, 100) == D
    ensures GradeFromMarks(50, 100) == D && GradeFromMarks(49, 100) == F
    ensures GradeFromMarks(76, 80) == APlus && GradeFromMarks(40, 50) == A
    ensures GradeFromMarks(0, 0) == NotApplicable && GradeFromMarks(5, -3) == NotApplicable
  {
  }
}
