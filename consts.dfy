/** Constants used when querying the examination archive. The wall clock is
    replaced by the `currentYear` parameter. */
module Consts {

  /** The archive's form endpoint; note the trailing '/'. */
  const ExamUrl: string := "https://www.examinations.ie/exammaterialarchive/"

  /** The first year offered for examination papers and for marking schemes. */
  const FirstPaperYear: nat := 1995
  const FirstSchemeYear: nat := 2001

  lemma ExamUrlEndsInSlash()
    ensures |ExamUrl| > 0 && ExamUrl[|ExamUrl| - 1] == '/'
  {
  }

  /** The half-open range `lo..hi`, ascending. */
  function YearRange(lo: nat, hi: int): (r: seq<nat>)
    ensures |r| == if hi > lo then hi - lo else 0
    ensures forall i :: 0 <= i < |r| ==> r[i] == lo + i
    decreases hi - lo
  {
    if hi <= lo then [] else [lo] + YearRange(lo + 1, hi)
  }

  /** The years for which examination papers are offered. */
  function ExamPaperYears(currentYear: int): (r: seq<nat>)
    ensures |r| == if currentYear > 1995 then currentYear - 1995 else 0
    ensures forall i :: 0 <= i < |r| ==> r[i] == 1995 + i
  {
    YearRange(FirstPaperYear, currentYear)
  }

  /** The years for which marking schemes are offered. */
  function MarkingSchemeYears(currentYear: int): (r: seq<nat>)
    ensures |r| == if currentYear > 2001 then currentYear - 2001 else 0
    ensures forall i :: 0 <= i < |r| ==> r[i] == 2001 + i
  {
    YearRange(FirstSchemeYear, currentYear)
  }

  predicate StrictlyIncreasing(s: seq<nat>)
  {
    forall i, j :: 0 <= i < j < |s| ==> s[i] < s[j]
  }

  /** A year is offered exactly when it lies in `lo..hi`. */
  lemma RangeMembers(lo: nat, hi: int, y: int)
    ensures y in YearRange(lo, hi) <==> lo <= y < hi
  {
    var r := YearRange(lo, hi);
    if lo <= y < hi {
      assert r[y - lo] == y;
    }
  }

  /** The paper years are exactly 1995 up to, but excluding, the current
      year, strictly ascending, and there are max(0, currentYear - 1995)
      of them. */
  lemma PaperYears(currentYear: int)
    ensures forall y :: y in ExamPaperYears(currentYear) <==> 1995 <= y < currentYear
    ensures currentYear !in ExamPaperYears(currentYear)
    ensures |ExamPaperYears(currentYear)| == if currentYear > 1995 then currentYear - 1995 else 0
    ensures StrictlyIncreasing(ExamPaperYears(currentYear))
  {
    forall y ensures y in ExamPaperYears(currentYear) <==> 1995 <= y < currentYear {
      RangeMembers(FirstPaperYear, currentYear, y);
    }
  }

  /** The marking-scheme years are exactly 2001 up to, but excluding, the
      current year, strictly ascending. */
  lemma SchemeYears(currentYear: int)
    ensures forall y :: y in MarkingSchemeYears(currentYear) <==> 2001 <= y < currentYear
    ensures currentYear !in MarkingSchemeYears(currentYear)
    ensures StrictlyIncreasing(MarkingSchemeYears(currentYear))
  {
    forall y ensures y in MarkingSchemeYears(currentYear) <==> 2001 <= y < currentYear {
      RangeMembers(FirstSchemeYear, currentYear, y);
    }
  }

  /** Every marking-scheme year list is the tail of the paper year list of
      the same current year. */
  lemma SchemeYearsAreSuffix(currentYear: int)
    ensures |MarkingSchemeYears(currentYear)| <= |ExamPaperYears(currentYear)|
    ensures ExamPaperYears(currentYear)[|ExamPaperYears(currentYear)| - |MarkingSchemeYears(currentYear)|..]
            == MarkingSchemeYears(currentYear)
  {
  }
}
