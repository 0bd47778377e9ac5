/** Getting the two texts in: the markup removal that `fetch_job_text`
    applies to a fetched job advert (the HTTP request itself is not part of
    this model), and the file-name dispatch of `extract_text_from_upload`
    with the page loop of `extract_text_from_pdf`. */
module Ingestion {
  import opened Basics
  import opened Strings

  /** The three regular expressions of the markup removal.
      `Block(open, close)` is `open[^>]*>.*?close` with `re.S`, `Tag` is
      `<[^>]+>` and `Spaces` is `\s+`. */
  datatype Pattern = Block(open: string, close: string) | Tag | Spaces

  const ScriptBlock: Pattern := Block("<script", "</script>")
  const StyleBlock: Pattern := Block("<style", "</style>")

  /** Length of the run of whitespace starting at `i`. */
  function SpaceRun(s: string, i: nat): (n: nat)
    requires i <= |s|
    ensures i + n <= |s|
    ensures forall k :: i <= k < i + n ==> IsSpace(s[k])
    ensures i + n == |s| || !IsSpace(s[i + n])
    decreases |s| - i
  {
    if i < |s| && IsSpace(s[i]) then 1 + SpaceRun(s, i + 1) else 0
  }

  /** The length of the block match at `i`: the opening text, everything up
      to the first `>` after it (`[^>]*>`), and everything up to the end of
      the first closing text after that `>` (the lazy `.*?`, which with
      `re.S` also crosses line breaks). */
  function BlockLen(open: string, close: string, s: string, i: nat): (r: Option<nat>)
    requires i <= |s|
    ensures r.Some? ==> 0 < r.value && i + r.value <= |s|
  {
    if !OccursAt(s, open, i) then None
    else
      match IndexFrom(s, '>', i + |open|)
      case None => None
      case Some(k) =>
        match FindFrom(s, close, k + 1)
        case None => None
        case Some(e) => Some(e + |close| - i)
  }

  /** The length of the tag match at `i`: a `<`, at least one character
      other than `>`, and the first `>` after them. */
  function TagLen(s: string, i: nat): (r: Option<nat>)
    requires i <= |s|
    ensures r.Some? ==> 3 <= r.value && i + r.value <= |s|
  {
    if i + 1 < |s| && s[i] == '<' && s[i + 1] != '>' then
      match IndexFrom(s, '>', i + 2)
      case None => None
      case Some(k) => Some(k + 1 - i)
    else None
  }

  /** The length of the match of `p` that starts at index `i`, if any; none
      of the three patterns matches the empty string. */
  function MatchLen(p: Pattern, s: string, i: nat): (r: Option<nat>)
    requires i <= |s|
    ensures r.Some? ==> 0 < r.value && i + r.value <= |s|
  {
    match p
    case Block(open, close) => BlockLen(open, close, s, i)
    case Tag => TagLen(s, i)
    case Spaces => if SpaceRun(s, i) > 0 then Some(SpaceRun(s, i)) else None
  }

  /** `re.sub(p, " ", s[i..])`: scanning from the left, every match is
      replaced by one space and the scan resumes after it; a character where
      no match starts is kept. */
  function Sub(p: Pattern, s: string, i: nat): (r: string)
    requires i <= |s|
    ensures |r| <= |s| - i
    decreases |s| - i
  {
    if i == |s| then []
    else match MatchLen(p, s, i)
      case Some(n) => " " + Sub(p, s, i + n)
      case None => [s[i]] + Sub(p, s, i + 1)
  }

  /** The text `fetch_job_text` returns for a fetched page: script blocks,
      then style blocks, then tags become spaces, whitespace runs become one
      space, and the result is stripped. */
  function HtmlToText(html: string): (r: string)
    ensures |r| <= |html|
    ensures Trimmed(r)
  {
    var noScript := Sub(ScriptBlock, html, 0);
    var noStyle := Sub(StyleBlock, noScript, 0);
    var noTags := Sub(Tag, noStyle, 0);
    Strip(Sub(Spaces, noTags, 0))
  }

  /** A block match ends at the first closing text after the first `>` that
      follows the opening text. */
  lemma BlockMatch(open: string, close: string, s: string, i: nat, k: nat, e: nat)
    requires i <= |s| && OccursAt(s, open, i)
    requires i + |open| <= k < |s| && s[k] == '>'
    requires forall m :: i + |open| <= m < k ==> s[m] != '>'
    requires k < e && OccursAt(s, close, e)
    requires forall m :: k < m < e ==> !OccursAt(s, close, m)
    ensures MatchLen(Block(open, close), s, i) == Some(e + |close| - i)
  {
  }

  /** There is no block match where the opening text is absent, where no `>`
      follows it, or where no closing text follows that `>`. */
  lemma BlockNoMatch(open: string, close: string, s: string, i: nat)
    requires i <= |s|
    requires || !OccursAt(s, open, i)
             || (forall m :: i + |open| <= m < |s| ==> s[m] != '>')
             || (forall m :: i < m ==> !OccursAt(s, close, m))
    ensures MatchLen(Block(open, close), s, i) == None
  {
  }

  /** No tag starts at index `k` of `r`: a `<` there is followed directly by
      `>` or by no `>` at all. */
  predicate NoTagAt(r: string, k: nat)
    requires k < |r|
  {
    r[k] == '<' ==> (k + 1 < |r| && r[k + 1] == '>') || (forall m :: k < m < |r| ==> r[m] != '>')
  }

  predicate TagFreeFrom(r: string, i: nat) {
    forall k :: i <= k < |r| ==> NoTagAt(r, k)
  }

  /** `NoTagAt` is exactly where the tag pattern does not match. */
  lemma TagMatchIff(s: string, i: nat)
    requires i < |s|
    ensures MatchLen(Tag, s, i).None? <==> NoTagAt(s, i)
    ensures match MatchLen(Tag, s, i)
      case Some(n) => n >= 3 && s[i] == '<' && s[i + n - 1] == '>'
                      && forall m :: i < m < i + n - 1 ==> s[m] != '>'
      case None => true
  {
    if i + 1 < |s| && s[i] == '<' && s[i + 1] != '>' {
      match IndexFrom(s, '>', i + 2)
      case None =>
      case Some(k) =>
        assert !(forall m :: i < m < |s| ==> s[m] != '>') by {
          assert i < k < |s| && s[k] == '>';
        }
    }
  }

  /** No whitespace character other than the space, and never two whitespace
      characters side by side. */
  predicate Collapsed(r: string) {
    forall k :: 0 <= k < |r| && IsSpace(r[k]) ==> r[k] == ' ' && (k + 1 == |r| || !IsSpace(r[k + 1]))
  }

  /** `r` has no occurrence of `c`. */
  predicate Lacks(r: string, c: char) {
    forall m :: 0 <= m < |r| ==> r[m] != c
  }

  lemma LacksCons(h: char, rest: string, c: char)
    requires h != c && Lacks(rest, c)
    ensures Lacks([h] + rest, c)
  {
    var r := [h] + rest;
    forall m | 0 < m < |r| ensures r[m] != c {
      assert r[m] == rest[m - 1];
    }
  }

  /** The character one step of the substitution emits at `i`: a space for
      a match, the input's character otherwise. */
  function SubHead(p: Pattern, s: string, i: nat): (h: char)
    requires i < |s|
    ensures h == ' ' || h == s[i]
  {
    if MatchLen(p, s, i).Some? then ' ' else s[i]
  }

  /** Where the scan resumes after one step at `i`. */
  function SubNext(p: Pattern, s: string, i: nat): (j: nat)
    requires i < |s|
    ensures i < j <= |s|
  {
    match MatchLen(p, s, i)
    case Some(n) => i + n
    case None => i + 1
  }

  /** No match starts at `i`, or only a one-character space run does. */
  predicate KeptAt(p: Pattern, s: string, i: nat)
    requires i < |s|
  {
    MatchLen(p, s, i).None? || (MatchLen(p, s, i) == Some(1) && s[i] == ' ')
  }

  /** Where the character is kept, the step emits it and moves on by one. */
  lemma SubKeepsAt(p: Pattern, s: string, i: nat)
    requires i < |s| && KeptAt(p, s, i)
    ensures SubHead(p, s, i) == s[i] && SubNext(p, s, i) == i + 1
  {
  }

  /** One step of the substitution: a match becomes one space, any other
      character is kept. */
  lemma SubStep(p: Pattern, s: string, i: nat)
    requires i < |s|
    ensures Sub(p, s, i) == [SubHead(p, s, i)] + Sub(p, s, SubNext(p, s, i))
  {
  }

  /** A character the substitution does not produce and the input lacks is
      not in the output. */
  lemma {:induction false} SubLacks(p: Pattern, s: string, i: nat, c: char)
    requires i <= |s| && c != ' '
    requires forall k :: i <= k < |s| ==> s[k] != c
    ensures Lacks(Sub(p, s, i), c)
    decreases |s| - i
  {
    if i < |s| {
      var j := SubNext(p, s, i);
      SubStep(p, s, i);
      SubLacks(p, s, j, c);
      LacksCons(SubHead(p, s, i), Sub(p, s, j), c);
    }
  }

  /** A kept character is copied and the scan moves on to `n`, the next
      index. */
  lemma KeptStep(p: Pattern, s: string, j: nat, n: nat)
    requires j < |s| && n == j + 1 && KeptAt(p, s, j)
    ensures Sub(p, s, j) == [s[j]] + Sub(p, s, n)
  {
    SubStep(p, s, j);
    SubKeepsAt(p, s, j);
  }

  /** Where every character is kept, the substitution copies the text up to
      `i` and goes on from there. */
  lemma {:induction false} SubKeepsPrefix(p: Pattern, s: string, j: nat, i: nat)
    requires j <= i <= |s|
    requires forall m :: j <= m < i ==> KeptAt(p, s, m)
    ensures Sub(p, s, j) == s[j..i] + Sub(p, s, i)
    decreases i - j
  {
    if j < i {
      var n := j + 1;
      KeptStep(p, s, j, n);
      SubKeepsPrefix(p, s, n, i);
      ConsChain(Sub(p, s, j), s[j], Sub(p, s, n), s[n..i], Sub(p, s, i), s[j..i]);
    }
  }

  /** Where a match ending at `j` starts, the substitution emits one space
      and resumes at `j`. */
  lemma SubAtMatch(p: Pattern, s: string, i: nat, j: nat)
    requires i < j <= |s| && MatchLen(p, s, i) == Some(j - i)
    ensures Sub(p, s, i) == " " + Sub(p, s, j)
  {
    SubStep(p, s, i);
    assert SubHead(p, s, i) == ' ' && SubNext(p, s, i) == j;
    assert [SubHead(p, s, i)] == " ";
  }

  /** If `a` is `x` then `b`, and `b` is `c` then `r`, then `a` is `x`, `c`
      then `r`. */
  lemma ConsChain<T>(a: seq<T>, x: T, b: seq<T>, c: seq<T>, r: seq<T>, t: seq<T>)
    requires a == [x] + b && b == c + r && t == [x] + c
    ensures a == t + r
  {
    assert [x] + (c + r) == ([x] + c) + r;
  }

  /** No block starts where there is no `<`. */
  lemma NoOpenKept(open: string, close: string, s: string, j: nat, i: nat)
    requires |open| > 0 && open[0] == '<'
    requires j <= i <= |s| && forall m :: j <= m < i ==> s[m] != '<'
    ensures forall m :: j <= m < i ==> KeptAt(Block(open, close), s, m)
  {
    forall m | j <= m < i ensures KeptAt(Block(open, close), s, m) {
      assert !OccursAt(s, open, m) by { assert s[m] != open[0]; }
      BlockNoMatch(open, close, s, m);
    }
  }

  /** A block at `i` becomes one space and the scan resumes at `f`, just
      after the block. */
  lemma BlockAt(open: string, close: string, s: string, i: nat, k: nat, e: nat, f: nat)
    requires i <= |s| && OccursAt(s, open, i)
    requires i + |open| <= k < |s| && s[k] == '>'
    requires forall m :: i + |open| <= m < k ==> s[m] != '>'
    requires k < e && OccursAt(s, close, e) && f == e + |close|
    requires forall m :: k < m < e ==> !OccursAt(s, close, m)
    ensures f <= |s|
    ensures Sub(Block(open, close), s, i) == " " + Sub(Block(open, close), s, f)
  {
    IndexFromFirst(s, '>', i + |open|, k);
    FindFromFirst(s, close, k + 1, e);
    assert MatchLen(Block(open, close), s, i) == Some(f - i);
    SubAtMatch(Block(open, close), s, i, f);
  }

  /** The block pass removes a block: with no `<` in `s[j..i]`, the pass
      keeps that text, turns the whole block from its opening text at `i`
      through the end `f` of the first closing text after the first `>` into
      one space, and carries on after it. Whatever the block holds is gone. */
  lemma BlockDropped(open: string, close: string, s: string, j: nat, i: nat, k: nat, e: nat, f: nat)
    requires |open| > 0 && open[0] == '<'
    requires j <= i <= |s| && forall m :: j <= m < i ==> s[m] != '<'
    requires OccursAt(s, open, i)
    requires i + |open| <= k < |s| && s[k] == '>'
    requires forall m :: i + |open| <= m < k ==> s[m] != '>'
    requires k < e && OccursAt(s, close, e) && f == e + |close|
    requires forall m :: k < m < e ==> !OccursAt(s, close, m)
    ensures f <= |s|
    ensures Sub(Block(open, close), s, j) == s[j..i] + " " + Sub(Block(open, close), s, f)
  {
    NoOpenKept(open, close, s, j, i);
    SubKeepsPrefix(Block(open, close), s, j, i);
    BlockAt(open, close, s, i, k, e, f);
  }

  /** `<script ...>...</script>` is removed by the first pass; the text
      resumes at `f`, just after the closing tag. */
  lemma ScriptBlockDropped(s: string, i: nat, k: nat, e: nat, f: nat)
    requires i <= |s| && forall m :: 0 <= m < i ==> s[m] != '<'
    requires OccursAt(s, "<script", i)
    requires i + 7 <= k < |s| && s[k] == '>'
    requires forall m :: i + 7 <= m < k ==> s[m] != '>'
    requires k < e && OccursAt(s, "</script>", e) && f == e + 9
    requires forall m :: k < m < e ==> !OccursAt(s, "</script>", m)
    ensures f <= |s|
    ensures Sub(ScriptBlock, s, 0) == s[..i] + " " + Sub(ScriptBlock, s, f)
  {
    BlockDropped("<script", "</script>", s, 0, i, k, e, f);
  }

  /** `<style ...>...</style>` is removed by the second pass; the text
      resumes at `f`, just after the closing tag. */
  lemma StyleBlockDropped(s: string, i: nat, k: nat, e: nat, f: nat)
    requires i <= |s| && forall m :: 0 <= m < i ==> s[m] != '<'
    requires OccursAt(s, "<style", i)
    requires i + 6 <= k < |s| && s[k] == '>'
    requires forall m :: i + 6 <= m < k ==> s[m] != '>'
    requires k < e && OccursAt(s, "</style>", e) && f == e + 8
    requires forall m :: k < m < e ==> !OccursAt(s, "</style>", m)
    ensures f <= |s|
    ensures Sub(StyleBlock, s, 0) == s[..i] + " " + Sub(StyleBlock, s, f)
  {
    BlockDropped("<style", "</style>", s, 0, i, k, e, f);
  }

  /** Where no match starts, the substitution begins with the input's
      character. */
  lemma SubKeeps(p: Pattern, s: string, i: nat)
    requires i < |s| && MatchLen(p, s, i).None?
    ensures Sub(p, s, i) == [s[i]] + Sub(p, s, i + 1)
  {
  }

  lemma TagFreeCons(c: char, t: string)
    requires TagFreeFrom(t, 0)
    requires c == '<' ==> (t != [] && t[0] == '>') || (forall m :: 0 <= m < |t| ==> t[m] != '>')
    ensures TagFreeFrom([c] + t, 0)
  {
    var r := [c] + t;
    forall k | 0 <= k < |r| ensures NoTagAt(r, k) {
      if k > 0 {
        assert r[k] == t[k - 1];
        assert NoTagAt(t, k - 1);
        assert forall m :: k < m < |r| ==> r[m] == t[m - 1];
      }
    }
  }

  lemma TagFreeSlice(r: string, a: nat, b: nat)
    requires TagFreeFrom(r, 0) && a <= b <= |r|
    ensures TagFreeFrom(r[a..b], 0)
  {
    var t := r[a..b];
    forall k | 0 <= k < |t| ensures NoTagAt(t, k) {
      assert NoTagAt(r, a + k);
      assert forall m :: k < m < |t| ==> t[m] == r[a + m];
    }
  }

  lemma CollapsedCons(c: char, t: string)
    requires Collapsed(t)
    requires IsSpace(c) ==> c == ' ' && (t == [] || !IsSpace(t[0]))
    ensures Collapsed([c] + t)
  {
    var r := [c] + t;
    forall k | 0 <= k < |r| && IsSpace(r[k])
      ensures r[k] == ' ' && (k + 1 == |r| || !IsSpace(r[k + 1]))
    {
      if k > 0 {
        assert r[k] == t[k - 1];
      }
    }
  }

  lemma CollapsedSlice(r: string, a: nat, b: nat)
    requires Collapsed(r) && a <= b <= |r|
    ensures Collapsed(r[a..b])
  {
    var t := r[a..b];
    forall k | 0 <= k < |t| && IsSpace(t[k])
      ensures t[k] == ' ' && (k + 1 == |t| || !IsSpace(t[k + 1]))
    {
      assert t[k] == r[a + k];
      if k + 1 < |t| {
        assert t[k + 1] == r[a + k + 1];
      }
    }
  }

  /** After the tag substitution no tag is left. */
  lemma {:induction false} TagSubIsTagFree(s: string, i: nat)
    requires i <= |s|
    ensures TagFreeFrom(Sub(Tag, s, i), 0)
    decreases |s| - i
  {
    if i < |s| {
      match MatchLen(Tag, s, i)
      case Some(n) =>
        TagSubIsTagFree(s, i + n);
        TagFreeCons(' ', Sub(Tag, s, i + n));
      case None =>
        var t := Sub(Tag, s, i + 1);
        TagSubIsTagFree(s, i + 1);
        if s[i] == '<' {
          TagMatchIff(s, i);
          if i + 1 < |s| && s[i + 1] == '>' {
            SubKeeps(Tag, s, i + 1);
          } else {
            SubLacks(Tag, s, i + 1, '>');
          }
        }
        TagFreeCons(s[i], t);
    }
  }

  /** The whitespace substitution leaves a collapsed text, and its output
      starts with whitespace only where its input does. */
  lemma {:induction false} SpacesSubCollapses(s: string, i: nat)
    requires i <= |s|
    ensures var r := Sub(Spaces, s, i);
      Collapsed(r) && (r != [] && IsSpace(r[0]) ==> IsSpace(s[i]))
    decreases |s| - i
  {
    if i < |s| {
      match MatchLen(Spaces, s, i)
      case Some(n) =>
        SpacesSubCollapses(s, i + n);
        CollapsedCons(' ', Sub(Spaces, s, i + n));
      case None =>
        SpacesSubCollapses(s, i + 1);
        CollapsedCons(s[i], Sub(Spaces, s, i + 1));
    }
  }

  /** The whitespace substitution does not create a tag. */
  lemma {:induction false} SpacesSubKeepsTagFree(s: string, i: nat)
    requires i <= |s| && TagFreeFrom(s, i)
    ensures TagFreeFrom(Sub(Spaces, s, i), 0)
    decreases |s| - i
  {
    if i < |s| {
      match MatchLen(Spaces, s, i)
      case Some(n) =>
        SpacesSubKeepsTagFree(s, i + n);
        TagFreeCons(' ', Sub(Spaces, s, i + n));
      case None =>
        var t := Sub(Spaces, s, i + 1);
        SpacesSubKeepsTagFree(s, i + 1);
        if s[i] == '<' {
          assert NoTagAt(s, i);
          if i + 1 < |s| && s[i + 1] == '>' {
            SubKeeps(Spaces, s, i + 1);
          } else {
            SubLacks(Spaces, s, i + 1, '>');
          }
        }
        TagFreeCons(s[i], t);
    }
  }

  /** Stripping a collapsed, tag-free text keeps it collapsed and tag-free. */
  lemma StripKeepsShape(spaced: string)
    requires Collapsed(spaced) && TagFreeFrom(spaced, 0)
    ensures var h := Strip(spaced);
      Trimmed(h) && Collapsed(h) && TagFreeFrom(h, 0)
  {
    var h := Strip(spaced);
    StripSpec(spaced);
    var a := StripStart(spaced, 0);
    assert h == spaced[a..a + |h|];
    CollapsedSlice(spaced, a, a + |h|);
    TagFreeSlice(spaced, a, a + |h|);
  }

  /** The page text has no whitespace at either end, no whitespace other than
      single spaces, and no tag: the tag pattern matches nowhere in it. */
  lemma HtmlToTextShape(html: string)
    ensures var h := HtmlToText(html);
      && Trimmed(h)
      && Collapsed(h)
      && TagFreeFrom(h, 0)
      && forall k :: 0 <= k < |h| ==> MatchLen(Tag, h, k) == None
  {
    var noTags := Sub(Tag, Sub(StyleBlock, Sub(ScriptBlock, html, 0), 0), 0);
    TagSubIsTagFree(Sub(StyleBlock, Sub(ScriptBlock, html, 0), 0), 0);
    var spaced := Sub(Spaces, noTags, 0);
    SpacesSubCollapses(noTags, 0);
    SpacesSubKeepsTagFree(noTags, 0);
    StripKeepsShape(spaced);
    var h := Strip(spaced);
    assert h == HtmlToText(html);
    forall k | 0 <= k < |h| ensures MatchLen(Tag, h, k) == None {
      TagMatchIff(h, k);
    }
  }

  /** A substitution that finds nothing to replace but single spaces leaves
      the text as it is. */
  lemma SubIdentity(p: Pattern, s: string, i: nat)
    requires i <= |s|
    requires forall k :: i <= k < |s| ==> KeptAt(p, s, k)
    ensures Sub(p, s, i) == s[i..]
  {
    SubKeepsPrefix(p, s, i, |s|);
    assert Sub(p, s, |s|) == [];
  }

  /** A block whose opening text is a `<` and a character other than `>`
      cannot start in a tag-free text. */
  lemma TagFreeHasNoBlock(open: string, close: string, s: string)
    requires |open| >= 2 && open[0] == '<' && open[1] != '>'
    requires TagFreeFrom(s, 0)
    ensures forall k :: 0 <= k < |s| ==> MatchLen(Block(open, close), s, k) == None
  {
    forall k | 0 <= k < |s| ensures MatchLen(Block(open, close), s, k) == None {
      if OccursAt(s, open, k) {
        assert s[k] == open[0] && s[k + 1] == open[1];
        assert NoTagAt(s, k);
        BlockNoMatch(open, close, s, k);
      }
    }
  }

  /** In a collapsed text every whitespace match is a single space. */
  lemma CollapsedSpaces(s: string)
    requires Collapsed(s)
    ensures forall k :: 0 <= k < |s| ==>
      MatchLen(Spaces, s, k).None? || (MatchLen(Spaces, s, k) == Some(1) && s[k] == ' ')
  {
    forall k | 0 <= k < |s| && IsSpace(s[k])
      ensures MatchLen(Spaces, s, k) == Some(1) && s[k] == ' '
    {
      assert SpaceRun(s, k) == 1 + SpaceRun(s, k + 1);
    }
  }

  /** A trimmed, collapsed, tag-free text is left as it is by the transform. */
  lemma HtmlToTextOfClean(h: string)
    requires Trimmed(h) && Collapsed(h) && TagFreeFrom(h, 0)
    ensures HtmlToText(h) == h
  {
    assert h[0..] == h;
    TagFreeHasNoBlock("<script", "</script>", h);
    SubIdentity(ScriptBlock, h, 0);
    TagFreeHasNoBlock("<style", "</style>", h);
    SubIdentity(StyleBlock, h, 0);
    forall k | 0 <= k < |h| ensures MatchLen(Tag, h, k) == None {
      TagMatchIff(h, k);
    }
    SubIdentity(Tag, h, 0);
    CollapsedSpaces(h);
    SubIdentity(Spaces, h, 0);
    StripTrimmed(h);
  }

  /** The page text is a fixed point of the transform: running it on its own
      output changes nothing. */
  lemma HtmlToTextIdempotent(html: string)
    ensures HtmlToText(HtmlToText(html)) == HtmlToText(html)
  {
    HtmlToTextShape(html);
    HtmlToTextOfClean(HtmlToText(html));
  }


  /** How `extract_text_from_upload` treats a file, by its lower-cased name. */
  datatype UploadKind = PdfFile | TextFile | OtherFile

  /** The dispatch on the file name; a file without a name counts as `""`. */
  function KindOf(name: Option<string>): (k: UploadKind)
    ensures var n := Lower(name.GetOr(""));
      && (k == PdfFile <==> EndsWith(n, ".pdf"))
      && (k == TextFile <==> EndsWith(n, ".txt"))
  {
    var n := Lower(name.GetOr(""));
    if EndsWith(n, ".pdf") then PdfFile
    else if EndsWith(n, ".txt") then TextFile
    else OtherFile
  }

  /** The suffix test ignores case. */
  lemma KindIgnoresCase(name: string)
    ensures KindOf(Some(Lower(name))) == KindOf(Some(name))
  {
    LowerIdempotent(name);
  }

  /** `page.extract_text() or ""` for every page. */
  function PageTexts(pages: seq<Option<string>>): (r: seq<string>)
    ensures |r| == |pages|
    ensures forall k :: 0 <= k < |pages| ==> r[k] == pages[k].GetOr("")
  {
    if pages == [] then [] else PageTexts(pages[..|pages| - 1]) + [pages[|pages| - 1].GetOr("")]
  }

  /** `sep.join(parts)`. */
  function Join(sep: string, parts: seq<string>): (r: string) {
    if |parts| == 0 then ""
    else if |parts| == 1 then parts[0]
    else Join(sep, parts[..|parts| - 1]) + sep + parts[|parts| - 1]
  }

  /** A join of a non-empty list starts with the first part and ends with the
      last. */
  lemma {:induction false} JoinEnds(sep: string, parts: seq<string>)
    requires |parts| > 0
    ensures parts[0] <= Join(sep, parts)
    ensures EndsWith(Join(sep, parts), parts[|parts| - 1])
    decreases |parts|
  {
    if |parts| > 1 {
      var init := parts[..|parts| - 1];
      JoinEnds(sep, init);
      assert init[0] == parts[0];
      assert Join(sep, parts) == Join(sep, init) + sep + parts[|parts| - 1];
    }
  }

  /** Joining two non-empty lists puts one separator between their joins. */
  lemma {:induction false} JoinAppend(sep: string, a: seq<string>, b: seq<string>)
    requires a != [] && b != []
    ensures Join(sep, a + b) == Join(sep, a) + sep + Join(sep, b)
    decreases |b|
  {
    var ab := a + b;
    assert ab[..|ab| - 1] == a + b[..|b| - 1];
    if |b| == 1 {
      assert ab[..|ab| - 1] == a;
    } else {
      JoinAppend(sep, a, b[..|b| - 1]);
    }
  }

  /** The text of a PDF: the pages joined by line breaks, then stripped. */
  function PdfText(pages: seq<Option<string>>): (r: string)
    ensures Trimmed(r)
  {
    Strip(Join("\n", PageTexts(pages)))
  }

  lemma {:induction false} EmptyPagesJoin(pages: seq<Option<string>>)
    requires forall k :: 0 <= k < |pages| ==> pages[k].GetOr("") == ""
    ensures AllSpace(Join("\n", PageTexts(pages)))
  {
    if |pages| > 1 {
      EmptyPagesJoin(pages[..|pages| - 1]);
      var init := PageTexts(pages[..|pages| - 1]);
      assert PageTexts(pages) == init + [""];
      assert (init + [""])[..|init|] == init;
    } else if |pages| == 1 {
      assert PageTexts(pages) == [""];
    }
  }

  /** A PDF whose pages carry no text layer yields the empty text. */
  lemma PdfWithoutText(pages: seq<Option<string>>)
    requires forall k :: 0 <= k < |pages| ==> pages[k].GetOr("") == ""
    ensures PdfText(pages) == ""
  {
    var j := Join("\n", PageTexts(pages));
    EmptyPagesJoin(pages);
    assert j[..0] == [] && j[0..] == j;
    assert StrippedAt(j, "", 0);
    StripUnique(j, "", 0);
  }

  /** The page loop of `extract_text_from_pdf`: collect each page's text
      (`""` for a page without one), join them with line breaks and strip. */
  method ExtractPdfText(pages: seq<Option<string>>) returns (text: string)
    ensures text == PdfText(pages)
    ensures Trimmed(text)
  {
    var parts: seq<string> := [];
    var i := 0;
    while i < |pages|
      invariant 0 <= i <= |pages|
      invariant parts == PageTexts(pages[..i])
    {
      assert pages[..i + 1][..i] == pages[..i];
      parts := parts + [pages[i].GetOr("")];
      i := i + 1;
    }
    assert pages[..i] == pages;
    text := Strip(Join("\n", parts));
  }

  /** `extract_text_from_upload`: `pages` stands for what the PDF reader
      finds, `decoded` for the file's bytes decoded as UTF-8. */
  function ExtractUpload(name: Option<string>, pages: seq<Option<string>>, decoded: string): (r: string)
    ensures Trimmed(r)
    ensures KindOf(name) == PdfFile ==> r == PdfText(pages)
    ensures KindOf(name) == TextFile ==> r == Strip(decoded)
    ensures KindOf(name) == OtherFile ==> r == ""
  {
    match KindOf(name)
    case PdfFile => PdfText(pages)
    case TextFile => Strip(decoded)
    case OtherFile => ""
  }
}
