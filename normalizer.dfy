/** The text normalizer: `trim_text` bounds a text to a character budget and
    `tokenize` splits a text into lower-case word-like tokens. */
module Normalizer {
  import opened Basics
  import opened Strings

  /** `MAX_CHARS`: the budget both inputs are cut to before scoring. */
  const MaxChars: nat := 12000

  /** `trim_text`: strip, then keep at most `maxChars` characters. */
  function TrimText(text: string, maxChars: nat): (r: string)
    ensures r <= Strip(text)
    ensures |r| == Min(|Strip(text)|, maxChars)
    ensures |Strip(text)| <= maxChars ==> r == Strip(text)
  {
    var t := Strip(text);
    if |t| <= maxChars then t else t[..maxChars]
  }

  /** The cut never leaves leading whitespace behind, so trimming a second
      time only removes whitespace at the end of the first result. */
  lemma TrimTwice(text: string, maxChars: nat)
    ensures TrimText(TrimText(text, maxChars), maxChars) == Strip(TrimText(text, maxChars))
  {
    var r := TrimText(text, maxChars);
    assert |Strip(r)| <= |r| <= maxChars;
  }

  /** Trimming is idempotent whenever the first result does not end in
      whitespace, in particular whenever the stripped text fits the budget. */
  lemma TrimIdempotent(text: string, maxChars: nat)
    requires |Strip(text)| <= maxChars || maxChars == 0 || !IsSpace(Strip(text)[maxChars - 1])
    ensures TrimText(TrimText(text, maxChars), maxChars) == TrimText(text, maxChars)
  {
    var t := Strip(text);
    var r := TrimText(text, maxChars);
    TrimTwice(text, maxChars);
    if r != [] {
      assert r[0] == t[0];
      assert r[|r| - 1] == t[|r| - 1];
    }
    StripTrimmed(r);
  }

  /** Trimming is not idempotent in general: the cut can end inside a run of
      whitespace, which the second strip removes. */
  lemma TrimNotIdempotent()
    ensures TrimText("ab cd", 3) == "ab "
    ensures TrimText(TrimText("ab cd", 3), 3) == "ab"
  {
    StripTrimmed("ab cd");
    TrimTwice("ab cd", 3);
    assert StrippedAt("ab ", "ab", 0);
    StripUnique("ab ", "ab", 0);
  }

  /** `[a-zA-Z]`. */
  predicate IsLetter(c: char) {
    'a' <= c <= 'z' || 'A' <= c <= 'Z'
  }

  /** `[a-zA-Z0-9+.#-]`, the class of the characters after the first. */
  predicate IsWordChar(c: char) {
    IsLetter(c) || '0' <= c <= '9' || c == '+' || c == '.' || c == '#' || c == '-'
  }

  /** What every token is: at least three word characters, the first a letter. */
  predicate IsTokenShape(t: string) {
    |t| >= 3 && IsLetter(t[0]) && forall k :: 0 <= k < |t| ==> IsWordChar(t[k])
  }

  /** Length of the longest run of word characters starting at `i`. */
  function RunLength(s: string, i: nat): (n: nat)
    requires i <= |s|
    ensures i + n <= |s|
    ensures forall k :: i <= k < i + n ==> IsWordChar(s[k])
    ensures i + n == |s| || !IsWordChar(s[i + n])
    decreases |s| - i
  {
    if i < |s| && IsWordChar(s[i]) then 1 + RunLength(s, i + 1) else 0
  }

  /** `re.findall(r"[a-zA-Z][a-zA-Z0-9+.#-]{2,}", s[i..])` as a left-to-right
      scan: at a letter the greedy repetition takes the whole run of word
      characters, and the match succeeds when that run has three or more
      characters; otherwise the scan moves on by one character. */
  function Scan(s: string, i: nat): (r: seq<string>)
    requires i <= |s|
    ensures forall t :: t in r ==> IsTokenShape(t)
    ensures NoUpper(s) ==> forall t :: t in r ==> NoUpper(t)
    decreases |s| - i
  {
    if i == |s| then []
    else if IsLetter(s[i]) && RunLength(s, i) >= 3 then
      var n := RunLength(s, i);
      [s[i..i + n]] + Scan(s, i + n)
    else
      Scan(s, i + 1)
  }

  /** `tokenize`: the matches in the lower-cased text. */
  function Tokenize(text: string): (r: seq<string>)
    ensures forall t :: t in r ==> IsTokenShape(t) && NoUpper(t) && 'a' <= t[0] <= 'z'
  {
    Scan(Lower(text), 0)
  }

  /** Token `t` sits at index `p` of `s` and ends where the run of word
      characters ends. */
  ghost predicate TokenAt(s: string, t: string, p: int) {
    0 <= p && p + |t| <= |s| && s[p..p + |t|] == t
    && (p + |t| == |s| || !IsWordChar(s[p + |t|]))
  }

  /** One step of the scan where no match starts. */
  lemma ScanSkip(s: string, i: nat)
    requires i < |s| && !(IsLetter(s[i]) && RunLength(s, i) >= 3)
    ensures Scan(s, i) == Scan(s, i + 1)
  {
  }

  /** One step of the scan where a match starts. */
  lemma ScanTake(s: string, i: nat)
    requires i < |s| && IsLetter(s[i]) && RunLength(s, i) >= 3
    ensures var n := RunLength(s, i); Scan(s, i) == [s[i..i + n]] + Scan(s, i + n)
  {
  }

  /** Where each match of `Scan(s, i)` starts. */
  ghost function ScanStarts(s: string, i: nat): seq<nat>
    requires i <= |s|
    decreases |s| - i
  {
    if i == |s| then []
    else if IsLetter(s[i]) && RunLength(s, i) >= 3 then
      [i] + ScanStarts(s, i + RunLength(s, i))
    else
      ScanStarts(s, i + 1)
  }

  /** One step of the start positions where no match starts. */
  lemma StartsSkip(s: string, i: nat)
    requires i < |s| && !(IsLetter(s[i]) && RunLength(s, i) >= 3)
    ensures ScanStarts(s, i) == ScanStarts(s, i + 1)
  {
  }

  /** One step of the start positions where a match starts. */
  lemma StartsTake(s: string, i: nat)
    requires i < |s| && IsLetter(s[i]) && RunLength(s, i) >= 3
    ensures ScanStarts(s, i) == [i] + ScanStarts(s, i + RunLength(s, i))
  {
  }

  /** `toks` sit at `starts` in `s`, at or after `i`, each ending where its
      run ends, in text order and without overlapping. */
  ghost predicate Positioned(s: string, i: nat, toks: seq<string>, starts: seq<nat>) {
    && |starts| == |toks|
    && (forall k :: 0 <= k < |toks| ==> i <= starts[k] && TokenAt(s, toks[k], starts[k]))
    && (forall k :: 0 <= k < |toks| - 1 ==> starts[k] + |toks[k]| <= starts[k + 1])
  }

  lemma PositionedCons(s: string, i: nat, t: string, toks: seq<string>, starts: seq<nat>)
    requires TokenAt(s, t, i) && Positioned(s, i + |t|, toks, starts)
    ensures Positioned(s, i, [t] + toks, [i] + starts)
  {
    var allToks, allStarts := [t] + toks, [i] + starts;
    forall k | 0 <= k < |allToks|
      ensures i <= allStarts[k] && TokenAt(s, allToks[k], allStarts[k])
    {
      if k > 0 {
        assert allToks[k] == toks[k - 1] && allStarts[k] == starts[k - 1];
      }
    }
    forall k | 0 <= k < |allToks| - 1
      ensures allStarts[k] + |allToks[k]| <= allStarts[k + 1]
    {
      if k > 0 {
        assert allToks[k] == toks[k - 1] && allStarts[k + 1] == starts[k];
      }
    }
  }

  lemma PositionedLater(s: string, i: nat, toks: seq<string>, starts: seq<nat>)
    requires Positioned(s, i + 1, toks, starts)
    ensures Positioned(s, i, toks, starts)
  {
  }

  /** Every token of the scan is a maximal run end-wise, the tokens come in
      the order of the text and do not overlap. */
  lemma {:induction false} ScanPositions(s: string, i: nat)
    requires i <= |s|
    ensures Positioned(s, i, Scan(s, i), ScanStarts(s, i))
    decreases |s| - i
  {
    if i == |s| {
    } else if IsLetter(s[i]) && RunLength(s, i) >= 3 {
      var n := RunLength(s, i);
      ScanPositions(s, i + n);
      var t := s[i..i + n];
      assert TokenAt(s, t, i);
      PositionedCons(s, i, t, Scan(s, i + n), ScanStarts(s, i + n));
      ScanTake(s, i);
      StartsTake(s, i);
    } else {
      ScanPositions(s, i + 1);
      PositionedLater(s, i, Scan(s, i + 1), ScanStarts(s, i + 1));
      ScanSkip(s, i);
      StartsSkip(s, i);
    }
  }

  /** `t` occurs in `s` as a run of word characters that cannot be extended
      to the right. */
  ghost predicate EndsARun(s: string, t: string) {
    exists p :: TokenAt(s, t, p)
  }

  /** The tokens of a text are runs of the lower-cased text that end where
      the run of word characters ends. */
  lemma TokensAreMaximalRuns(text: string)
    ensures forall t :: t in Tokenize(text) ==> EndsARun(Lower(text), t)
  {
    var s := Lower(text);
    ScanPositions(s, 0);
    var toks, starts := Scan(s, 0), ScanStarts(s, 0);
    assert Tokenize(text) == toks;
    forall t | t in toks ensures EndsARun(s, t) {
      var k :| 0 <= k < |toks| && toks[k] == t;
      assert TokenAt(s, toks[k], starts[k]);
    }
  }

  /** A run of word characters ends at the first non-word character. */
  lemma RunStops(s: string, i: nat, j: nat)
    requires i <= j < |s| && !IsWordChar(s[j])
    ensures i + RunLength(s, i) <= j
  {
  }

  /** Under the same conditions a match starts at `p` itself. */
  lemma {:induction false} StartsFinds(s: string, i: nat, q: nat, p: nat)
    requires i <= q <= p < |s|
    requires q == i || !IsWordChar(s[q - 1])
    requires forall k :: q <= k < p ==> IsWordChar(s[k]) && !IsLetter(s[k])
    requires IsLetter(s[p]) && RunLength(s, p) >= 3
    ensures p in ScanStarts(s, i)
    decreases p - i
  {
    if i < q {
      if IsLetter(s[i]) && RunLength(s, i) >= 3 {
        RunStops(s, i, q - 1);
        StartsFinds(s, i + RunLength(s, i), q, p);
        StartsTake(s, i);
      } else {
        StartsFinds(s, i + 1, q, p);
        StartsSkip(s, i);
      }
    } else if i < p {
      assert !IsLetter(s[i]);
      StartsFinds(s, i + 1, i + 1, p);
      StartsSkip(s, i);
    } else {
      StartsTake(s, i);
    }
  }

  /** A token that starts at `p` and ends where its run ends is the whole
      run from `p`. */
  lemma TokenIsRun(s: string, t: string, p: nat)
    requires TokenAt(s, t, p) && IsTokenShape(t)
    ensures p + RunLength(s, p) <= |s| && t == s[p..p + RunLength(s, p)]
  {
    assert forall k :: 0 <= k < |t| ==> s[p + k] == t[k];
  }

  /** Some token of `toks` is the run of `s` from `p`, at the index whose
      start is `p`. */
  ghost predicate FoundAt(s: string, toks: seq<string>, starts: seq<nat>, p: nat)
    requires p <= |s|
  {
    exists k :: 0 <= k < |toks| && k < |starts| && starts[k] == p
      && toks[k] == s[p..p + RunLength(s, p)]
  }

  /** In positioned tokens, the token at a start `p` is the run from `p`. */
  lemma PositionedFinds(s: string, i: nat, toks: seq<string>, starts: seq<nat>, p: nat)
    requires Positioned(s, i, toks, starts) && p in starts && p <= |s|
    requires forall t :: t in toks ==> IsTokenShape(t)
    ensures FoundAt(s, toks, starts, p)
  {
    var k :| 0 <= k < |starts| && starts[k] == p;
    assert IsTokenShape(toks[k]) by { assert toks[k] in toks; }
    TokenIsRun(s, toks[k], p);
  }

  /** No match is skipped. Take a maximal run of word characters starting at
      `q` (the scan's start, or a non-word character before it); the pattern
      matches at its first letter `p` when only digits and `+.#-` come before
      `p` in the run and the run from `p` has three or more characters. The
      match is then the scan's token at the index whose start is `p`; since
      the starts strictly increase (`ScanPositions`), a match that repeats
      earlier text is still a token of its own. */
  lemma ScanFinds(s: string, i: nat, q: nat, p: nat)
    requires i <= q <= p < |s|
    requires q == i || !IsWordChar(s[q - 1])
    requires forall k :: q <= k < p ==> IsWordChar(s[k]) && !IsLetter(s[k])
    requires IsLetter(s[p]) && RunLength(s, p) >= 3
    ensures s[p..p + RunLength(s, p)] in Scan(s, i)
    ensures FoundAt(s, Scan(s, i), ScanStarts(s, i), p)
  {
    var toks, starts := Scan(s, i), ScanStarts(s, i);
    StartsFinds(s, i, q, p);
    ScanPositions(s, i);
    PositionedFinds(s, i, toks, starts, p);
    var k :| 0 <= k < |toks| && k < |starts| && starts[k] == p
      && toks[k] == s[p..p + RunLength(s, p)];
    assert toks[k] in toks;
  }

  /** Every match of the pattern in the lower-cased text is a token, found at
      its own place. */
  lemma TokenizeFinds(text: string, s: string, q: nat, p: nat)
    requires s == Lower(text)
    requires q <= p < |s| && (q == 0 || !IsWordChar(s[q - 1]))
    requires forall k :: q <= k < p ==> IsWordChar(s[k]) && !IsLetter(s[k])
    requires IsLetter(s[p]) && RunLength(s, p) >= 3
    ensures FoundAt(s, Tokenize(text), ScanStarts(s, 0), p)
  {
    ScanFinds(s, 0, q, p);
    assert Tokenize(text) == Scan(s, 0);
  }

  /** A token may begin in the middle of a run, after leading digits. */
  lemma TokenAfterDigit()
    ensures Tokenize("3abc") == ["abc"]
  {
    var s := "3abc";
    assert Lower(s) == s by {
      assert forall k :: 0 <= k < |s| ==> LowerChar(s[k]) == s[k];
    }
    assert RunLength(s, 1) == 3 && s[1..4] == "abc";
    assert Scan(s, 4) == [];
    ScanTake(s, 1);
    ScanSkip(s, 0);
  }

  /** A repeated word gives one match per occurrence. */
  lemma RepeatedWord()
    ensures Scan("abc abc", 0) == ["abc", "abc"]
  {
    var s := "abc abc";
    var back := Scan(s, 4);
    assert RunLength(s, 4) == 3 && s[4..7] == "abc";
    ScanTake(s, 4);
    assert Scan(s, 7) == [];
    assert back == ["abc"];
    assert RunLength(s, 3) == 0;
    ScanSkip(s, 3);
    assert RunLength(s, 0) == 3 && s[0..3] == "abc";
    ScanTake(s, 0);
    assert Scan(s, 0) == ["abc"] + back;
  }
}
