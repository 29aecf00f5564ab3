/** `CodeAnalyzer.analyze_diff`: a naive segment count of the diff text,
    reported in a fixed sentence. */
module CodeAnalyzer {
  import opened Wrappers
  import opened PyText

  const Newline: char := '\n'

  /** The fixed text before and after the count in the analysis sentence. */
  const Lead: string := "Analysis of diff: "
  const Trail: string := " lines changed"

  /** `len(diff.split('\n'))`: the number of newline-separated segments,
      which is the number of newlines plus one, whatever the diff holds. */
  function LinesChanged(diff: string): (n: nat)
    ensures n == Occurrences(diff, Newline) + 1
    ensures n >= 1
  {
    SplitLength(diff, Newline);
    |Split(diff, Newline)|
  }

  /** The analysis sentence: the fixed lead, the count in canonical decimal,
      the fixed trail, on a single line. */
  function AnalyzeDiff(diff: string): (sentence: string)
    ensures ReportedCount(sentence) == Some(Occurrences(diff, Newline) + 1)
    ensures Newline !in sentence
  {
    var digits := Decimal(LinesChanged(diff));
    ReportedCountOf(digits);
    DecimalRoundTrip(LinesChanged(diff));
    Lead + digits + Trail
  }

  /** The sentence is exactly "Analysis of diff: ", the decimal count of
      newlines plus one, and " lines changed". */
  lemma AnalysisSentence(diff: string)
    ensures AnalyzeDiff(diff) == Lead + Decimal(Occurrences(diff, Newline) + 1) + Trail
  {
    ReportedCountExact(AnalyzeDiff(diff), Occurrences(diff, Newline) + 1);
  }

  /** The count is 1 exactly when the diff holds no newline: the empty diff
      and a diff of one unterminated line both report 1. */
  lemma SingleSegment(diff: string)
    ensures LinesChanged(diff) == 1 <==> Newline !in diff
  {
    OccurrencesZero(diff, Newline);
  }

  /** Reads a sentence of the shape `AnalyzeDiff` produces back into its
      count; `None` for any other text. */
  function ReportedCount(sentence: string): Option<nat>
  {
    if |sentence| >= |Lead| + |Trail|
       && sentence[..|Lead|] == Lead
       && sentence[|sentence| - |Trail|..] == Trail
       && IsCanonicalDecimal(sentence[|Lead|..|sentence| - |Trail|])
    then Some(DecimalValue(sentence[|Lead|..|sentence| - |Trail|]))
    else None
  }

  /** A sentence built from a canonical count reads back as that count and
      holds no newline. */
  lemma ReportedCountOf(digits: string)
    requires IsCanonicalDecimal(digits)
    ensures ReportedCount(Lead + digits + Trail) == Some(DecimalValue(digits))
    ensures Newline !in Lead + digits + Trail
  {
    var s := Lead + digits + Trail;
    assert forall i :: 0 <= i < |digits| ==> digits[i] != Newline;
    assert s[..|Lead|] == Lead;
    assert s[|s| - |Trail|..] == Trail;
    assert s[|Lead|..|s| - |Trail|] == digits;
  }

  /** The count is recovered only from a sentence built from it: every
      sentence `ReportedCount` accepts is the analysis of some count. */
  lemma ReportedCountExact(sentence: string, n: nat)
    requires ReportedCount(sentence) == Some(n)
    ensures sentence == Lead + Decimal(n) + Trail
  {
    var digits := sentence[|Lead|..|sentence| - |Trail|];
    DecimalCanonical(digits);
    assert sentence == sentence[..|Lead|] + digits + sentence[|sentence| - |Trail|..];
  }

  /** A newline at the end of the diff adds one, empty, trailing segment. */
  lemma TrailingNewline(diff: string)
    ensures Split(diff + [Newline], Newline) == Split(diff, Newline) + [""]
    ensures LinesChanged(diff + [Newline]) == LinesChanged(diff) + 1
  {
    SplitTrailing(diff, Newline);
    SplitLength(diff + [Newline], Newline);
    SplitLength(diff, Newline);
  }

  /** Consecutive newlines are not merged: the empty text between them is a
      segment of its own. */
  lemma ConsecutiveNewlines(a: string, b: string)
    ensures Split(a + [Newline, Newline] + b, Newline) == Split(a, Newline) + [""] + Split(b, Newline)
    ensures LinesChanged(a + [Newline, Newline] + b) == LinesChanged(a) + LinesChanged(b) + 1
  {
    assert a + [Newline, Newline] + b == a + [Newline] + ([Newline] + b);
    SplitAround(a, [Newline] + b, Newline);
    assert [Newline] + b == "" + [Newline] + b;
    SplitAround("", b, Newline);
    SplitLength(a + [Newline, Newline] + b, Newline);
    SplitLength(a, Newline);
    SplitLength(b, Newline);
  }

  /** The empty diff is one empty segment. */
  lemma EmptyDiff()
    ensures Split("", Newline) == [""]
    ensures AnalyzeDiff("") == "Analysis of diff: 1 lines changed"
  {
  }

  lemma ThreeLines()
    ensures AnalyzeDiff("a\nb\nc") == "Analysis of diff: 3 lines changed"
  {
    assert Split("a\nb\nc", Newline) == ["a", "b", "c"] by {
      SplitAround("a", "b\nc", Newline);
      SplitAround("b", "c", Newline);
      SplitFree("a", Newline);
      SplitFree("b", Newline);
      SplitFree("c", Newline);
      assert "a\nb\nc" == "a" + [Newline] + "b\nc";
      assert "b\nc" == "b" + [Newline] + "c";
    }
  }
}
