/** The qualitative band shown beside an extracted match score. */
module Band {
  datatype Band = StrongMatch | GoodMatch | SignificantGaps {
    /** Bands ordered from weakest to strongest. */
    function Rank(): nat {
      match this
      case SignificantGaps => 0
      case GoodMatch => 1
      case StrongMatch => 2
    }
  }

  const STRONG_THRESHOLD: nat := 80
  const GOOD_THRESHOLD: nat := 60

  /**
   * The if/elif chain on the percentage, tested against 80 and then against 60:
   * each band is exactly its score interval, both thresholds inclusive.
   */
  function Classify(percentage: nat): (r: Band)
    ensures r == StrongMatch <==> percentage >= 80
    ensures r == GoodMatch <==> 60 <= percentage < 80
    ensures r == SignificantGaps <==> percentage < 60
  {
    if percentage >= STRONG_THRESHOLD then StrongMatch
    else if percentage >= GOOD_THRESHOLD then GoodMatch
    else SignificantGaps
  }

  /** A higher score never lands in a weaker band. */
  lemma ClassifyMonotone(x: nat, y: nat)
    requires x <= y
    ensures Classify(x).Rank() <= Classify(y).Rank()
  {
  }

  lemma ClassifyBoundaries()
    ensures Classify(80) == StrongMatch && Classify(79) == GoodMatch
    ensures Classify(60) == GoodMatch && Classify(59) == SignificantGaps
  {
  }
}
