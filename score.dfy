/**
 * Score extraction for the match-percentage view: `re.search(r'(\d{1,3})%', text)`
 * followed by `int(match.group(1))`.
 *
 * The search is modelled the way the regular-expression engine runs it
 * (`SearchFrom`, `MatchAt`): start positions are tried from the left, and at each
 * start the group takes three digits greedily and gives them back one at a time
 * until a '%' follows. That engine is proved to agree with a declarative
 * definition: the score is the run of at most three digits ending right before
 * the first '%' that has a digit immediately before it.
 * `\d` is restricted to the ASCII digits.
 */
module ScoreExtraction {
  import opened Wrappers

  predicate IsDigit(c: char) {
    '0' <= c <= '9'
  }

  predicate AllDigits(s: string) {
    forall i :: 0 <= i < |s| ==> IsDigit(s[i])
  }

  function DigitValue(c: char): (d: nat)
    requires IsDigit(c)
    ensures d < 10
  {
    c as int - '0' as int
  }

  /**
   * Python's `int(ds)` on a run of ASCII digits: the base-ten value, leading zeros
   * included. n digits never exceed 10^n - 1, so three digits give at most 999.
   */
  function DecimalValue(ds: string): (v: nat)
    requires AllDigits(ds)
    ensures v < Pow10(|ds|)
  {
    if ds == [] then 0
    else
      var init := ds[..|ds| - 1];
      assert DecimalValue(init) * 10 <= (Pow10(|init|) - 1) * 10;
      DecimalValue(init) * 10 + DigitValue(ds[|ds| - 1])
  }

  function Pow10(n: nat): (r: nat)
    ensures r >= 1
  {
    if n == 0 then 1 else 10 * Pow10(n - 1)
  }

  /** `int` drops leading zeros: "007" and "7" have the same value. */
  lemma {:induction false} DecimalValueLeadingZero(ds: string)
    requires AllDigits(ds)
    ensures AllDigits("0" + ds) && DecimalValue("0" + ds) == DecimalValue(ds)
  {
    var zs := "0" + ds;
    if ds != [] {
      var init := ds[..|ds| - 1];
      assert zs[..|zs| - 1] == "0" + init;
      DecimalValueLeadingZero(init);
    }
  }

  // ---------------------------------------------------------------------------
  // The declarative definition

  /** Position p holds a '%' with a digit immediately before it. */
  predicate PercentAfterDigit(s: string, p: int) {
    0 < p < |s| && s[p] == '%' && IsDigit(s[p - 1])
  }

  /** Some '%' in the text is immediately preceded by a digit. */
  predicate HasScoreMark(s: string) {
    exists p :: 0 < p < |s| && PercentAfterDigit(s, p)
  }

  /** p is the first digit-preceded '%' whose digit lies at or after position lo. */
  predicate FirstMarkFrom(s: string, lo: nat, p: int) {
    lo < p && PercentAfterDigit(s, p) && forall q :: lo < q < p ==> !PercentAfterDigit(s, q)
  }

  /**
   * s[j..p] is the score window of the '%' at p when the text is read from
   * position lo on: the digits immediately before p, as many as there are but at
   * most three.
   */
  predicate WindowFrom(s: string, lo: nat, j: int, p: int) {
    && lo <= j < p <= |s|
    && p - j <= 3
    && AllDigits(s[j..p])
    && (p - j == 3 || j == lo || !IsDigit(s[j - 1]))
  }

  predicate IsFirstMark(s: string, p: int) {
    FirstMarkFrom(s, 0, p)
  }

  predicate IsScoreWindow(s: string, j: int, p: int) {
    WindowFrom(s, 0, j, p)
  }

  // ---------------------------------------------------------------------------
  // The regular-expression engine

  /** `s[i..i+n]` is n digits and a '%' follows them. */
  predicate DigitsThenPercent(s: string, i: nat, n: nat) {
    i + n < |s| && AllDigits(s[i..i + n]) && s[i + n] == '%'
  }

  /**
   * `(\d{1,3})%` anchored at position i, with at most n digits: the greedy group
   * tries n digits first and backtracks one digit at a time. The result is the
   * number of digits the group captured.
   */
  function MatchAt(s: string, i: nat, n: nat): (r: Option<nat>)
    ensures r.Some? ==> 1 <= r.value <= n && DigitsThenPercent(s, i, r.value)
    ensures r.None? <==> forall m :: 1 <= m <= n ==> !DigitsThenPercent(s, i, m)
    decreases n
  {
    if n == 0 then None
    else if DigitsThenPercent(s, i, n) then Some(n)
    else MatchAt(s, i, n - 1)
  }

  /** A digit at i in front of a digit run that ends in '%' gives a longer match at i. */
  lemma DigitRunExtendsLeft(s: string, i: nat, p: nat)
    requires i < p <= |s|
    ensures p < |s| && s[p] == '%' && p - i <= 3 && IsDigit(s[i]) && AllDigits(s[i + 1..p]) ==>
      DigitsThenPercent(s, i, p - i)
  {
    assert s[i..p] == [s[i]] + s[i + 1..p];
  }

  /** The span of group 1: `s[start..end]`, with the '%' at `end`. */
  datatype Span = Span(start: nat, end: nat)

  /** `re.search` from position i: the leftmost start at which the pattern matches. */
  function SearchFrom(s: string, i: nat): (r: Option<Span>)
    requires i <= |s|
    ensures r.None? <==> forall p :: i < p ==> !PercentAfterDigit(s, p)
    ensures r.Some? ==> FirstMarkFrom(s, i, r.value.end) && WindowFrom(s, i, r.value.start, r.value.end)
    decreases |s| - i
  {
    if i == |s| then None
    else match MatchAt(s, i, 3)
      case Some(n) =>
        assert forall q :: i < q < i + n ==> s[q] == s[i..i + n][q - i];
        assert s[i + n - 1] == s[i..i + n][n - 1];
        assert PercentAfterDigit(s, i + n);
        Some(Span(i, i + n))
      case None =>
        assert s[i..i + 1] == [s[i]];
        var r := SearchFrom(s, i + 1);
        DigitRunExtendsLeft(s, i, if r.Some? then r.value.end else i + 1);
        r
  }

  /** The score shown in the match-percentage view, or None when the pattern does not occur. */
  function ExtractScore(s: string): (r: Option<nat>)
    ensures r.None? <==> !HasScoreMark(s)
    ensures r.Some? ==> exists j, p :: IsFirstMark(s, p) && IsScoreWindow(s, j, p) && r.value == DecimalValue(s[j..p])
    ensures r.Some? ==> r.value <= 999
  {
    match SearchFrom(s, 0)
    case None => None
    case Some(span) =>
      Some(DecimalValue(s[span.start..span.end]))
  }

  // ---------------------------------------------------------------------------
  // The engine agrees with the definition

  lemma FirstMarkUnique(s: string, lo: nat, p: int, p': int)
    requires FirstMarkFrom(s, lo, p) && FirstMarkFrom(s, lo, p')
    ensures p == p'
  {
  }

  /** A '%' has one score window: the digit run is cut at three or where it begins. */
  lemma WindowUnique(s: string, lo: nat, j: int, j': int, p: int)
    requires WindowFrom(s, lo, j, p) && WindowFrom(s, lo, j', p)
    ensures j == j'
  {
  }

  /**
   * The other direction of ExtractScore's contract: whenever p is the first
   * digit-preceded '%' and s[j..p] its window, the extracted score is the value
   * of that window.
   */
  lemma ExtractScoreByDefinition(s: string, j: int, p: int)
    requires IsFirstMark(s, p) && IsScoreWindow(s, j, p)
    ensures ExtractScore(s) == Some(DecimalValue(s[j..p]))
  {
    assert HasScoreMark(s);
    var span := SearchFrom(s, 0).value;
    FirstMarkUnique(s, 0, span.end, p);
    WindowUnique(s, 0, span.start, j, p);
  }

  /** First match wins: text appended after a score mark never changes the score. */
  lemma FirstMatchWins(a: string, b: string)
    requires HasScoreMark(a)
    ensures ExtractScore(a + b) == ExtractScore(a)
  {
    var s := a + b;
    var span := SearchFrom(a, 0).value;
    var j, p := span.start, span.end;
    assert forall k :: 0 <= k < |a| ==> s[k] == a[k];
    assert forall q :: 0 < q < |a| ==> (PercentAfterDigit(s, q) <==> PercentAfterDigit(a, q));
    assert s[j..p] == a[j..p];
    assert IsFirstMark(s, p);
    assert IsScoreWindow(s, j, p);
    ExtractScoreByDefinition(s, j, p);
    ExtractScoreByDefinition(a, j, p);
  }

  /** Where a marker-free prefix is put before b, the score marks are those of b, shifted. */
  lemma MarksAfterPrefix(a: string, b: string)
    requires forall k :: 0 <= k < |a| ==> a[k] != '%'
    requires a == [] || !IsDigit(a[|a| - 1])
    ensures forall q :: 0 < q <= |a| ==> !PercentAfterDigit(a + b, q)
    ensures forall q :: |a| < q ==> (PercentAfterDigit(a + b, q) <==> PercentAfterDigit(b, q - |a|))
  {
    var s, n := a + b, |a|;
    assert forall k :: 0 <= k < n ==> s[k] == a[k];
    assert forall k :: n <= k < |s| ==> s[k] == b[k - n];
  }

  lemma FirstMarkAfterPrefix(a: string, b: string, p: int)
    requires forall k :: 0 <= k < |a| ==> a[k] != '%'
    requires a == [] || !IsDigit(a[|a| - 1])
    requires IsFirstMark(b, p)
    ensures IsFirstMark(a + b, p + |a|)
  {
    MarksAfterPrefix(a, b);
  }

  lemma WindowAfterPrefix(a: string, b: string, j: int, p: int)
    requires a == [] || !IsDigit(a[|a| - 1])
    requires IsScoreWindow(b, j, p)
    ensures IsScoreWindow(a + b, j + |a|, p + |a|) && (a + b)[j + |a|..p + |a|] == b[j..p]
  {
    var s, n := a + b, |a|;
    assert s[j + n..p + n] == b[j..p];
    assert j + n > 0 ==> s[j + n - 1] == if j == 0 then a[n - 1] else b[j - 1];
  }

  /**
   * Digits that no '%' follows are skipped: a prefix with no '%' that does not end
   * in a digit has no influence on the score.
   */
  lemma SkipsPrefixWithoutMark(a: string, b: string)
    requires forall k :: 0 <= k < |a| ==> a[k] != '%'
    requires a == [] || !IsDigit(a[|a| - 1])
    ensures ExtractScore(a + b) == ExtractScore(b)
  {
    if HasScoreMark(b) {
      var span := SearchFrom(b, 0).value;
      var j, p := span.start, span.end;
      FirstMarkAfterPrefix(a, b, p);
      WindowAfterPrefix(a, b, j, p);
      ExtractScoreByDefinition(a + b, j + |a|, p + |a|);
      ExtractScoreByDefinition(b, j, p);
    } else {
      MarksAfterPrefix(a, b);
      assert !HasScoreMark(a + b);
    }
  }
}
