/**
 * The score search on the match prompt's own example, "Overall Match: 85%", and on
 * texts that exercise each edge of the search: no digits, a digit with no '%'
 * after it, an earlier percentage, four digits, leading zeros and a value above 100.
 */
module ScoreExamples {
  import opened Wrappers
  import opened ScoreExtraction

  lemma OverallMatch(s: string)
    requires s == "Overall Match: 85%"
    ensures ExtractScore(s) == Some(85)
  {
    assert s[15..17] == "85" && "85"[..1] == "8" && s[14] == ' ';
    assert forall q :: 0 <= q < 17 ==> s[q] != '%';
    assert IsFirstMark(s, 17) && IsScoreWindow(s, 15, 17);
    ExtractScoreByDefinition(s, 15, 17);
  }

  /** A text without digits, such as "no numbers here", gives no score. */
  lemma NoNumbers(s: string)
    requires forall i :: 0 <= i < |s| ==> !IsDigit(s[i])
    ensures ExtractScore(s) == None
  {
  }

  /** A digit that no '%' follows is skipped. */
  lemma DigitWithoutPercentSkipped(s: string)
    requires s == "Skills: 3, Match: 72%"
    ensures ExtractScore(s) == Some(72)
  {
    assert s[18..20] == "72" && "72"[..1] == "7" && s[17] == ' ';
    assert forall q :: 0 <= q < 20 ==> s[q] != '%';
    assert IsFirstMark(s, 20) && IsScoreWindow(s, 18, 20);
    ExtractScoreByDefinition(s, 18, 20);
  }

  lemma GrowthTenPercent(a: string)
    requires a == "Growth 10%"
    ensures ExtractScore(a) == Some(10)
  {
    assert a[7..9] == "10" && "10"[..1] == "1" && a[6] == ' ';
    assert forall q :: 0 <= q < 9 ==> a[q] != '%';
    assert IsFirstMark(a, 9) && IsScoreWindow(a, 7, 9);
    ExtractScoreByDefinition(a, 7, 9);
  }

  /**
   * The earliest percentage wins whatever follows it, for instance
   * " ... Overall Match: 85%".
   */
  lemma EarlierPercentWins(rest: string)
    ensures ExtractScore("Growth 10%" + rest) == Some(10)
  {
    GrowthTenPercent("Growth 10%");
    assert PercentAfterDigit("Growth 10%", 9);
    FirstMatchWins("Growth 10%", rest);
  }

  /** Only the last three digits before the '%' are taken. */
  lemma FourDigitsTruncated(s: string)
    requires s == "1234%"
    ensures ExtractScore(s) == Some(234)
  {
    assert s[1..4] == "234" && "234"[..2] == "23" && "23"[..1] == "2";
    assert forall q :: 0 <= q < 4 ==> s[q] != '%';
    assert IsFirstMark(s, 4) && IsScoreWindow(s, 1, 4);
    ExtractScoreByDefinition(s, 1, 4);
  }

  lemma LeadingZerosDropped(s: string)
    requires s == "007%"
    ensures ExtractScore(s) == Some(7)
  {
    assert IsFirstMark(s, 3) && IsScoreWindow(s, 0, 3);
    assert s[0..3] == "007" && "007"[..2] == "00" && "00"[..1] == "0";
    ExtractScoreByDefinition(s, 0, 3);
  }

  /** Nothing clamps the score to 100. */
  lemma NotClampedToHundred(s: string)
    requires s == "Match: 150%"
    ensures ExtractScore(s) == Some(150)
  {
    assert IsFirstMark(s, 10) && IsScoreWindow(s, 7, 10);
    assert s[7..10] == "150" && "150"[..2] == "15" && "15"[..1] == "1";
    ExtractScoreByDefinition(s, 7, 10);
  }
}
