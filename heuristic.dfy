/** The heuristic scorer `heuristic_analysis`: the share of the job's top
    keywords that occur in the lower-cased CV, and the first five that do not. */
module Heuristic {
  import opened Basics
  import opened Strings
  import opened Keywords
  import opened Results

  /** How many of the job's keywords are compared. */
  const KeywordLimit: nat := 20

  const NoKeywordsSummary := "Opis ogłoszenia jest zbyt krótki, aby wyciągnąć słowa kluczowe."
  const AdviceSummary := "Dodaj brakujące słowa kluczowe z ogłoszenia do CV."

  /** Python's `round(n / d)`, rounding half to even, on the exact quotient.
      The source divides in floating point; for the divisors used here (at
      most 20) an exact half is representable and the division yields it
      exactly, and any other quotient lies at least `1 / (2 * d)` from a half,
      far beyond the division's rounding error, so both give the same
      integer. */
  function RoundHalfEven(n: nat, d: nat): (r: nat)
    requires d > 0
    ensures n / d <= r <= n / d + 1
  {
    var q, m := n / d, n % d;
    if 2 * m < d then q
    else if 2 * m > d then q + 1
    else if q % 2 == 0 then q
    else q + 1
  }

  lemma Distribute(d: int, r: int)
    ensures d * (2 * r - 1) == 2 * (d * r) - d
    ensures d * (2 * r + 1) == 2 * (d * r) + d
    ensures d * (r + 1) == d * r + d
  {
  }

  lemma MulLe(k: int, a: int, b: int)
    requires k >= 0 && a <= b
    ensures k * a <= k * b
  {
    assert k * b - k * a == k * (b - a);
  }

  /** Rounding `n = d * q + m` to `q` or `q + 1` by the half-even rule gives a
      nearest integer. */
  lemma NearestOfParts(n: int, d: int, q: int, m: int, r: int)
    requires d > 0 && n == d * q + m && 0 <= m < d
    requires (r == q && 2 * m <= d && (2 * m == d ==> q % 2 == 0))
          || (r == q + 1 && 2 * m >= d && (2 * m == d ==> q % 2 == 1))
    ensures d * (2 * r - 1) <= 2 * n <= d * (2 * r + 1)
    ensures (2 * n == d * (2 * r - 1) || 2 * n == d * (2 * r + 1)) ==> r % 2 == 0
  {
    Distribute(d, r);
    Distribute(d, q);
    if r == q + 1 {
      assert d * r == d * q + d;
    }
  }

  /** The rounded value is a nearest integer to `n / d`, and an exact tie
      goes to the even neighbour. */
  lemma RoundHalfEvenNearest(n: nat, d: nat)
    requires d > 0
    ensures var r := RoundHalfEven(n, d);
      && d * (2 * r - 1) <= 2 * n <= d * (2 * r + 1)
      && ((2 * n == d * (2 * r - 1) || 2 * n == d * (2 * r + 1)) ==> r % 2 == 0)
  {
    var q, m := n / d, n % d;
    assert n == d * q + m && 0 <= m < d;
    NearestOfParts(n, d, q, m, RoundHalfEven(n, d));
  }

  /** `[kw for kw in keywords if kw in cv_lower]`. */
  function Present(keywords: seq<string>, hay: string): (r: seq<string>)
    ensures forall w :: w in r <==> w in keywords && Contains(hay, w)
    ensures |r| <= |keywords|
  {
    if keywords == [] then []
    else (if Contains(hay, keywords[0]) then [keywords[0]] else []) + Present(keywords[1..], hay)
  }

  /** `[kw for kw in keywords if kw not in cv_lower]`. */
  function Absent(keywords: seq<string>, hay: string): (r: seq<string>)
    ensures forall w :: w in r <==> w in keywords && !Contains(hay, w)
    ensures |Present(keywords, hay)| + |r| == |keywords|
  {
    if keywords == [] then []
    else (if Contains(hay, keywords[0]) then [] else [keywords[0]]) + Absent(keywords[1..], hay)
  }

  /** The comprehension keeps the keywords' order: filtering a concatenation
      filters each part. */
  lemma {:induction false} AbsentAppend(a: seq<string>, b: seq<string>, hay: string)
    ensures Absent(a + b, hay) == Absent(a, hay) + Absent(b, hay)
  {
    if a != [] {
      assert (a + b)[1..] == a[1..] + b;
      AbsentAppend(a[1..], b, hay);
    } else {
      assert a + b == b;
    }
  }

  /** Every keyword occurs exactly when all of them are counted as present,
      and none occurs exactly when none is. */
  lemma {:induction false} PresentCount(keywords: seq<string>, hay: string)
    ensures |Present(keywords, hay)| == |keywords| <==> forall w :: w in keywords ==> Contains(hay, w)
    ensures |Present(keywords, hay)| == 0 <==> forall w :: w in keywords ==> !Contains(hay, w)
  {
    if keywords != [] {
      var w0, rest := keywords[0], keywords[1..];
      PresentCount(rest, hay);
      assert keywords == [w0] + rest;
      assert Present(keywords, hay) == (if Contains(hay, w0) then [w0] else []) + Present(rest, hay);
      assert |Present(rest, hay)| <= |rest|;
      assert forall w :: w in keywords <==> w == w0 || w in rest;
      if !Contains(hay, w0) {
        assert !(forall w :: w in keywords ==> Contains(hay, w));
      }
    }
  }

  /** Scoring against a non-empty keyword list. */
  function ScoreAgainst(cv: string, keywords: seq<string>): (a: Analysis)
    requires keywords != []
    ensures |a.missing| <= MissingLimit
    ensures forall w :: w in a.missing ==> w in keywords && !Contains(Lower(cv), w)
    ensures a.summary == AdviceSummary
  {
    var cvLower := Lower(cv);
    var present := Present(keywords, cvLower);
    Analysis(RoundHalfEven(100 * |present|, |keywords|),
             Take(Absent(keywords, cvLower), MissingLimit), AdviceSummary)
  }

  /** `heuristic_analysis(cv_text, job_text)`. */
  function HeuristicAnalysis(cv: string, job: string): (a: Analysis)
    ensures WellFormed(a)
    ensures TopKeywords(job, KeywordLimit) == [] ==> a == Analysis(0, [], NoKeywordsSummary)
  {
    var keywords := TopKeywords(job, KeywordLimit);
    if keywords == [] then Analysis(0, [], NoKeywordsSummary)
    else
      KeywordsAreWords(job, KeywordLimit);
      ScoreAgainstWellFormed(cv, keywords);
      ScoreAgainst(cv, keywords)
  }

  lemma KeywordsAreWords(job: string, limit: nat)
    ensures forall w :: w in TopKeywords(job, limit) ==> |w| >= 3
  {
    TopKeywordsMembers(job, limit);
  }

  lemma ScoreAgainstWellFormed(cv: string, keywords: seq<string>)
    requires keywords != [] && forall w :: w in keywords ==> w != []
    ensures WellFormed(ScoreAgainst(cv, keywords))
  {
    var h := Lower(cv);
    ScoreBounds(|Present(keywords, h)|, |keywords|);
    var ab := Absent(keywords, h);
    forall w | w in Take(ab, MissingLimit) ensures w in ab {
    }
  }

  /** A share of `p` out of `k` keywords scores between 0 and 100, and a
      complete match scores 100. */
  lemma ScoreBounds(p: nat, k: nat)
    requires 0 < k && p <= k
    ensures 0 <= RoundHalfEven(100 * p, k) <= 100
    ensures p == k ==> RoundHalfEven(100 * p, k) == 100
  {
    var r := RoundHalfEven(100 * p, k);
    RoundHalfEvenNearest(100 * p, k);
    if r > 100 {
      MulLe(k, 201, 2 * r - 1);
      MulLe(200, p, k);
    }
    if p == k && r < 100 {
      MulLe(k, 2 * r + 1, 199);
    }
  }

  /** With fewer than 200 keywords, only a complete match rounds to 100 and
      only an empty one rounds to 0. */
  lemma ScoreExtremes(p: nat, k: nat)
    requires 0 < k < 200 && p <= k
    ensures RoundHalfEven(100 * p, k) == 100 <==> p == k
    ensures RoundHalfEven(100 * p, k) == 0 <==> p == 0
  {
    ScoreBounds(p, k);
    RoundHalfEvenNearest(100 * p, k);
  }

  /** The score of a non-empty keyword list is the share of keywords that
      occur in the lower-cased CV, rounded half to even (so a nearest integer
      to it, by RoundHalfEvenNearest); `missing` is the
      first five that do not occur, in ranked order. */
  lemma HeuristicScore(cv: string, job: string)
    requires TopKeywords(job, KeywordLimit) != []
    ensures var a, kws := HeuristicAnalysis(cv, job), TopKeywords(job, KeywordLimit);
      var p := |Present(kws, Lower(cv))|;
      && a.score == RoundHalfEven(100 * p, |kws|)
      && a.missing == Take(Absent(kws, Lower(cv)), MissingLimit)
      && (forall w :: w in a.missing ==> w in kws && !Contains(Lower(cv), w))
      && a.summary == AdviceSummary
  {
  }

  /** Nothing is missing exactly when every keyword occurs in the CV, and
      that is exactly when the score is 100; no keyword occurs exactly when
      the score is 0. */
  lemma HeuristicExtremes(cv: string, job: string)
    requires TopKeywords(job, KeywordLimit) != []
    ensures var a, kws := HeuristicAnalysis(cv, job), TopKeywords(job, KeywordLimit);
      && (a.score == 100 <==> a.missing == [])
      && (a.missing == [] <==> forall w :: w in kws ==> Contains(Lower(cv), w))
      && (a.score == 0 <==> forall w :: w in kws ==> !Contains(Lower(cv), w))
  {
    var kws := TopKeywords(job, KeywordLimit);
    var h := Lower(cv);
    TopKeywordsMembers(job, KeywordLimit);
    var p := |Present(kws, h)|;
    ScoreExtremes(p, |kws|);
    PresentCount(kws, h);
    var ab := Absent(kws, h);
    assert Take(ab, MissingLimit) == [] <==> ab == [];
  }

  /** Exact ties do occur: one keyword out of eight is 12.5%, which rounds
      down to 12, three out of eight is 37.5%, which rounds up to 38, and two
      out of sixteen is 12.5% again. */
  lemma RoundingTies()
    ensures RoundHalfEven(100 * 1, 8) == 12
    ensures RoundHalfEven(100 * 3, 8) == 38
    ensures RoundHalfEven(100 * 2, 16) == 12
  {
  }
}
