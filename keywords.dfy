/** The keyword ranker `top_keywords`: count the non-stopword tokens of a
    text, sort them by descending count with ties in ascending string order,
    and keep the first `limit`. */
module Keywords {
  import opened Basics
  import opened Strings
  import opened Normalizer

  /** `STOPWORDS`: fixed, never changed after start-up. */
  const Stopwords: set<string> := {
    "a", "an", "and", "are", "as", "at", "be", "by", "for", "from", "has", "have",
    "in", "is", "it", "its", "of", "on", "or", "that", "the", "this", "to", "was",
    "were", "with", "you", "your", "our", "we", "they", "their", "them", "i", "me",
    "my", "he", "she", "his", "her", "not", "but", "if", "then", "than", "so", "do",
    "does", "did", "done", "can", "could", "should", "would", "will", "just", "into",
    "about", "over", "under", "also", "such", "other", "more", "most", "less", "least",
    "up", "down", "out", "off", "no", "yes", "may", "might", "must", "within",
    "plus", "using", "use", "used", "via", "per", "etc"
  }

  /** The frequency table: every non-stopword token with the number of times
      it occurs. */
  function Counts(toks: seq<string>): (c: map<string, int>) {
    map w | w in toks && w !in Stopwords :: multiset(toks)[w]
  }

  /** The table counts exactly the non-stopword tokens, each at least once. */
  lemma CountsSpec(toks: seq<string>)
    ensures forall w :: w in Counts(toks) <==> w in toks && w !in Stopwords
    ensures forall w :: w in Counts(toks) ==> Counts(toks)[w] >= 1
  {
  }

  lemma CountsHas(toks: seq<string>, t: string)
    ensures t in Counts(toks) <==> t in FirstSeen(toks)
  {
  }

  /** One loop step for the key order: a new non-stopword token is appended. */
  lemma FirstSeenSnoc(toks: seq<string>, t: string)
    ensures var r := FirstSeen(toks);
      FirstSeen(toks + [t]) == if t in Stopwords || t in r then r else r + [t]
  {
    assert (toks + [t])[..|toks|] == toks;
  }

  /** The keys of the frequency table in the order a Python dict keeps them:
      the order in which each word was first counted. */
  function FirstSeen(toks: seq<string>): (r: seq<string>)
    ensures NoDuplicates(r)
    ensures forall w :: w in r <==> w in toks && w !in Stopwords
  {
    if toks == [] then []
    else
      var init, t := toks[..|toks| - 1], toks[|toks| - 1];
      assert toks == init + [t];
      var r := FirstSeen(init);
      if t in Stopwords || t in r then r else r + [t]
  }

  lemma CountsSnoc(toks: seq<string>, t: string)
    ensures var c := Counts(toks);
      Counts(toks + [t]) ==
        if t in Stopwords then c else c[t := (if t in c then c[t] else 0) + 1]
  {
    var c, c' := Counts(toks), Counts(toks + [t]);
    assert multiset(toks + [t]) == multiset(toks) + multiset{t};
    forall w ensures w in toks + [t] <==> w in toks || w == t {
    }
    if t in Stopwords {
      assert c'.Keys == c.Keys;
    } else {
      var d := c[t := (if t in c then c[t] else 0) + 1];
      assert c'.Keys == d.Keys;
      assert t !in c ==> multiset(toks)[t] == 0;
    }
  }

  /** The sort key of a word: higher count first, then the smaller string. */
  predicate RankBefore(c: map<string, int>, a: string, b: string)
    requires a in c && b in c
  {
    c[a] > c[b] || (c[a] == c[b] && LexLess(a, b))
  }

  lemma RankIsStrictTotalOrder(c: map<string, int>, a: string, b: string, d: string)
    requires a in c && b in c && d in c
    ensures !RankBefore(c, a, a)
    ensures a != b ==> RankBefore(c, a, b) || RankBefore(c, b, a)
    ensures RankBefore(c, a, b) ==> !RankBefore(c, b, a)
    ensures RankBefore(c, a, b) && RankBefore(c, b, d) ==> RankBefore(c, a, d)
  {
    LexLessIrreflexive(a);
    if a != b { LexLessTotal(a, b); }
    if LexLess(a, b) { LexLessAsymmetric(a, b); }
    if LexLess(a, b) && LexLess(b, d) { LexLessTransitive(a, b, d); }
  }

  predicate AllIn(c: map<string, int>, s: seq<string>) {
    forall w :: w in s ==> w in c
  }

  /** `s` is in ranked order, every word strictly before the later ones. */
  predicate RankedBy(c: map<string, int>, s: seq<string>)
    requires AllIn(c, s)
  {
    forall i, j :: 0 <= i < j < |s| ==> RankBefore(c, s[i], s[j])
  }

  function Insert(c: map<string, int>, x: string, s: seq<string>): (r: seq<string>)
    requires x in c && AllIn(c, s)
    ensures multiset(r) == multiset(s) + multiset{x}
    ensures AllIn(c, r)
  {
    if s == [] then [x]
    else if RankBefore(c, x, s[0]) then [x] + s
    else
      assert s == [s[0]] + s[1..];
      [s[0]] + Insert(c, x, s[1..])
  }

  /** `sorted(..., key=lambda x: (-x[1], x[0]))` on the dict's keys. */
  function SortByRank(c: map<string, int>, xs: seq<string>): (r: seq<string>)
    requires AllIn(c, xs)
    ensures multiset(r) == multiset(xs)
    ensures AllIn(c, r)
  {
    if xs == [] then []
    else
      assert xs == [xs[0]] + xs[1..];
      Insert(c, xs[0], SortByRank(c, xs[1..]))
  }

  lemma {:induction false} InsertRanked(c: map<string, int>, x: string, s: seq<string>)
    requires x in c && AllIn(c, s) && x !in s && RankedBy(c, s)
    ensures RankedBy(c, Insert(c, x, s))
  {
    if s == [] {
    } else if RankBefore(c, x, s[0]) {
      forall j | 0 < j < |s| ensures RankBefore(c, x, s[j]) {
        RankIsStrictTotalOrder(c, x, s[0], s[j]);
      }
    } else {
      var t := s[1..];
      assert RankedBy(c, t);
      InsertRanked(c, x, t);
      var r' := Insert(c, x, t);
      RankIsStrictTotalOrder(c, s[0], x, x);
      forall j | 0 <= j < |r'| ensures RankBefore(c, s[0], r'[j]) {
        assert r'[j] in multiset(t) + multiset{x};
        if r'[j] != x {
          var m :| 0 <= m < |t| && t[m] == r'[j];
          assert s[m + 1] == t[m];
        }
      }
    }
  }

  lemma {:induction false} SortRanked(c: map<string, int>, xs: seq<string>)
    requires AllIn(c, xs) && NoDuplicates(xs)
    ensures RankedBy(c, SortByRank(c, xs))
  {
    if xs != [] {
      var t := xs[1..];
      assert NoDuplicates(t);
      SortRanked(c, t);
      assert xs[0] !in multiset(SortByRank(c, t));
      InsertRanked(c, xs[0], SortByRank(c, t));
    }
  }

  /** All distinct non-stopword tokens in ranked order. */
  function Ranked(toks: seq<string>): (r: seq<string>) {
    SortByRank(Counts(toks), FirstSeen(toks))
  }

  /** `top_keywords(text, limit)`. */
  function TopKeywords(text: string, limit: nat): (r: seq<string>)
    ensures |r| <= limit && r <= Ranked(Tokenize(text))
  {
    Take(Ranked(Tokenize(text)), limit)
  }

  /** The ranking is a strictly ordered permutation of the distinct
      non-stopword tokens. */
  lemma RankedSpec(toks: seq<string>)
    ensures var r, c := Ranked(toks), Counts(toks);
      && AllIn(c, r) && RankedBy(c, r)
      && (forall w :: w in r <==> w in toks && w !in Stopwords)
      && |r| == |FirstSeen(toks)|
  {
    var c := Counts(toks);
    SortRanked(c, FirstSeen(toks));
    var r := Ranked(toks);
    assert |r| == |multiset(r)| == |multiset(FirstSeen(toks))|;
    forall w ensures w in r <==> w in FirstSeen(toks) {
      assert w in r <==> w in multiset(r);
    }
  }

  /** `top_keywords` keeps at most `limit` distinct words, each a non-stopword
      token of the text. */
  lemma TopKeywordsMembers(text: string, limit: nat)
    ensures var r, toks := TopKeywords(text, limit), Tokenize(text);
      && |r| <= limit
      && NoDuplicates(r)
      && (forall w :: w in r ==> w !in Stopwords && w in toks)
  {
    var toks := Tokenize(text);
    RankedSpec(toks);
    var c, full := Counts(toks), Ranked(toks);
    var r := TopKeywords(text, limit);
    forall i, j | 0 <= i < j < |r| ensures r[i] != r[j] {
      assert r[i] == full[i] && r[j] == full[j];
      RankIsStrictTotalOrder(c, full[i], full[j], full[j]);
    }
    forall w | w in r ensures w in full {
      var k :| 0 <= k < |r| && r[k] == w;
      assert full[k] == w;
    }
  }

  /** `top_keywords` lists words by descending count, ties in ascending
      string order. */
  lemma TopKeywordsOrdered(text: string, limit: nat)
    ensures var r, m := TopKeywords(text, limit), multiset(Tokenize(text));
      forall i, j :: 0 <= i < j < |r| ==>
        m[r[i]] > m[r[j]] || (m[r[i]] == m[r[j]] && LexLess(r[i], r[j]))
  {
    var toks := Tokenize(text);
    RankedSpec(toks);
    var c, full := Counts(toks), Ranked(toks);
    var r := TopKeywords(text, limit);
    forall i, j | 0 <= i < j < |r|
      ensures multiset(toks)[r[i]] > multiset(toks)[r[j]]
        || (multiset(toks)[r[i]] == multiset(toks)[r[j]] && LexLess(r[i], r[j]))
    {
      assert r[i] == full[i] && r[j] == full[j];
      assert RankBefore(c, full[i], full[j]);
    }
  }

  /** Nothing better is left out: a word that is not listed ranks after every
      listed one, and a list shorter than `limit` holds every candidate. */
  lemma TopKeywordsComplete(text: string, limit: nat)
    ensures var r, toks := TopKeywords(text, limit), Tokenize(text);
      var c := Counts(toks);
      && (forall w, i :: w in toks && w !in Stopwords && w !in r && 0 <= i < |r| ==>
            RankBefore(c, r[i], w))
      && (|r| < limit ==> forall w :: w in toks && w !in Stopwords ==> w in r)
  {
    var toks := Tokenize(text);
    RankedSpec(toks);
    var c, full := Counts(toks), Ranked(toks);
    var r := TopKeywords(text, limit);
    forall w, i | w in toks && w !in Stopwords && w !in r && 0 <= i < |r|
      ensures RankBefore(c, r[i], w)
    {
      var m :| 0 <= m < |full| && full[m] == w;
      assert r[i] == full[i];
    }
    if |r| < limit {
      assert r == full;
    }
  }

  /** The loop of `top_keywords`: fill the frequency table token by token,
      a new word going to the end of the dict's key order. */
  method CountTokens(tokens: seq<string>) returns (counts: map<string, int>, order: seq<string>)
    ensures counts == Counts(tokens)
    ensures order == FirstSeen(tokens)
  {
    counts := map[];
    order := [];
    var i := 0;
    while i < |tokens|
      invariant 0 <= i <= |tokens|
      invariant counts == Counts(tokens[..i])
      invariant order == FirstSeen(tokens[..i])
    {
      var token := tokens[i];
      assert tokens[..i + 1] == tokens[..i] + [token];
      CountsSnoc(tokens[..i], token);
      FirstSeenSnoc(tokens[..i], token);
      CountsHas(tokens[..i], token);
      if token !in Stopwords {
        if token !in counts {
          order := order + [token];
        }
        counts := counts[token := (if token in counts then counts[token] else 0) + 1];
      }
      i := i + 1;
    }
    assert tokens[..i] == tokens;
  }

  /** `top_keywords`: count the tokens, sort the table's entries and keep
      the first `limit`. */
  method ComputeTopKeywords(text: string, limit: nat) returns (r: seq<string>)
    ensures r == TopKeywords(text, limit)
  {
    var tokens := Tokenize(text);
    var counts, order := CountTokens(tokens);
    var ranked := SortByRank(counts, order);
    r := Take(ranked, limit);
  }

}
