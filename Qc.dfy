/** The checks `get_user_input` applies to what the technician types: the
    cosmetic and functional grades and the MMDDYY test date. */
module Qc {
  import opened Wrappers
  import opened Text

  const Cosmetic := "cosmetic"
  const Functional := "functional"

  /** Python's `s.startswith(p)`. */
  predicate StartsWith(s: string, p: string) {
    |p| <= |s| && s[..|p|] == p
  }

  /** `validate_grade` (ServerSpecstoCSV.py:177-194): the prefix test for the grade
      type, then the length, then a digit from 1 to 9 in second place. */
  function ValidateGrade(grade: string, gradeType: string): (ok: bool)
    ensures ok <==>
      |grade| == 2 && '1' <= grade[1] <= '9' &&
      (gradeType == Cosmetic ==> grade[0] == 'C') &&
      (gradeType == Functional ==> grade[0] == 'F')
  {
    if gradeType == Cosmetic && !StartsWith(grade, "C") then false
    else if gradeType == Functional && !StartsWith(grade, "F") then false
    else if |grade| != 2 then false
    else if !IsDigit(grade[1]) || DigitValue(grade[1]) < 1 || DigitValue(grade[1]) > 9 then false
    else true
  }

  /** The grades accepted for a type are exactly the letter followed by one of the
      digits 1 to 9 ("C1" to "C9", "F1" to "F9"). */
  lemma GradesOfType(grade: string, gradeType: string, letter: char)
    requires (gradeType == Cosmetic && letter == 'C') || (gradeType == Functional && letter == 'F')
    ensures ValidateGrade(grade, gradeType) <==> exists d :: 1 <= d <= 9 && grade == [letter, DigitChar(d)]
  {
    if ValidateGrade(grade, gradeType) {
      var d := DigitValue(grade[1]);
      assert grade == [letter, DigitChar(d)];
    }
  }

  /** The grade is read through `.upper()` (ServerSpecstoCSV.py:203, 210), so a
      lower-case letter is accepted as well. */
  lemma ValidateUpper(input: string, gradeType: string, letter: char)
    requires (gradeType == Cosmetic && letter == 'C') || (gradeType == Functional && letter == 'F')
    ensures ValidateGrade(Upper(input), gradeType) <==>
      |input| == 2 && (input[0] == letter || input[0] == LowerChar(letter)) && '1' <= input[1] <= '9'
  {
    if |input| == 2 {
      assert Upper(input)[0] == UpperChar(input[0]) && Upper(input)[1] == UpperChar(input[1]);
    }
  }

  /** The date test and formatting of `get_user_input` (ServerSpecstoCSV.py:221-223):
      six ASCII digits become "MM/DD/YY"; anything else is refused (`None`, and the
      prompt is repeated). The digits are not checked as a calendar date. */
  function FormatDate(testDate: string): (r: Option<string>)
    ensures r.Some? <==> |testDate| == 6 && IsDigitString(testDate)
    ensures r.Some? ==> |r.value| == 8 && r.value[2] == '/' && r.value[5] == '/'
    ensures r.Some? ==> r.value[..2] == testDate[..2] && r.value[3..5] == testDate[2..4] && r.value[6..] == testDate[4..]
  {
    if |testDate| == 6 && IsDigitString(testDate) then
      Some(testDate[..2] + "/" + testDate[2..4] + "/" + testDate[4..])
    else
      None
  }

  /** Deleting the slashes from a formatted date gives back what was typed. */
  lemma FormatDateUnslash(testDate: string)
    requires FormatDate(testDate).Some?
    ensures Remove(FormatDate(testDate).value, '/') == testDate
  {
    var mm, dd, yy := testDate[..2], testDate[2..4], testDate[4..];
    assert '/' !in mm && '/' !in dd && '/' !in yy;
    assert Remove(mm + "/" + dd, '/') == mm + dd by {
      RemoveAround(mm, dd, '/');
      RemoveAbsent(mm, '/');
      RemoveAbsent(dd, '/');
    }
    assert Remove(FormatDate(testDate).value, '/') == mm + dd + yy by {
      RemoveAround(mm + "/" + dd, yy, '/');
      RemoveAbsent(yy, '/');
    }
    assert mm + dd + yy == testDate;
  }

  /** Deleting `c` from `x + [c] + y` deletes it from both sides. */
  lemma RemoveAround(x: string, y: string, c: char)
    ensures Remove(x + [c] + y, c) == Remove(x, c) + Remove(y, c)
  {
    assert Remove([c], c) == [] by {
      assert [c][1..] == [];
    }
    assert Remove(x + [c], c) == Remove(x, c) by {
      RemoveConcat(x, [c], c);
      assert Remove(x, c) + [] == Remove(x, c);
    }
    RemoveConcat(x + [c], y, c);
  }

  /** Two accepted dates with the same formatted text were typed the same. */
  lemma FormatDateInjective(a: string, b: string)
    requires FormatDate(a).Some? && FormatDate(a) == FormatDate(b)
    ensures a == b
  {
    FormatDateUnslash(a);
    FormatDateUnslash(b);
  }
}
