/** The string primitives of Python that the pipeline relies on, restricted to
    ASCII: `str.isspace`, `str.lower`, `str.strip`, the substring test `in`,
    `str.endswith` and the code-point order `<` on strings. */
module Strings {
  import opened Basics

  /** Python's `str.isspace` on ASCII: tab, line feed, vertical tab, form feed,
      carriage return, the separators 0x1C-0x1F and the space. The same set is
      what `\s` matches, so `strip` and the whitespace regex share it. */
  predicate IsSpace(c: char)
    ensures IsSpace(c) ==> 9 <= c as int <= 32 && !IsUpper(c)
  {
    (9 <= c as int <= 13) || (28 <= c as int <= 32)
  }

  predicate IsUpper(c: char) {
    'A' <= c <= 'Z'
  }

  predicate AllSpace(s: string) {
    forall i :: 0 <= i < |s| ==> IsSpace(s[i])
  }

  predicate NoUpper(s: string) {
    forall i :: 0 <= i < |s| ==> !IsUpper(s[i])
  }

  /** The string has no whitespace at either end. */
  predicate Trimmed(s: string) {
    s == [] || (!IsSpace(s[0]) && !IsSpace(s[|s| - 1]))
  }

  function LowerChar(c: char): (d: char)
    ensures !IsUpper(d)
    ensures IsUpper(c) ==> d as int == c as int + 32
    ensures !IsUpper(c) ==> d == c
  {
    if IsUpper(c) then (c as int + 32) as char else c
  }

  /** `str.lower()`: maps A-Z to a-z and leaves every other character alone. */
  function Lower(s: string): (r: string)
    ensures |r| == |s|
    ensures forall i :: 0 <= i < |s| ==> r[i] == LowerChar(s[i])
    ensures NoUpper(r)
  {
    if s == [] then [] else [LowerChar(s[0])] + Lower(s[1..])
  }

  lemma LowerIdempotent(s: string)
    ensures Lower(Lower(s)) == Lower(s)
  {
  }

  /** Every character of `s` from index `i` up to `j` is whitespace. */
  predicate SpaceBetween(s: string, i: int, j: int)
    requires 0 <= i && j <= |s|
  {
    forall k :: i <= k < j ==> IsSpace(s[k])
  }

  /** Where the text left after `str.lstrip()` starts: the first index at or
      after `i` that does not hold whitespace. */
  function StripStart(s: string, i: nat): (a: nat)
    requires i <= |s|
    ensures i <= a <= |s|
    ensures SpaceBetween(s, i, a)
    ensures a == |s| || !IsSpace(s[a])
    decreases |s| - i
  {
    if i < |s| && IsSpace(s[i]) then StripStart(s, i + 1) else i
  }

  /** Where the text left after `str.rstrip()` ends, not looking before
      index `a`: the last index after which only whitespace follows. */
  function StripEnd(s: string, a: nat, j: nat): (b: nat)
    requires a <= j <= |s|
    ensures a <= b <= j
    ensures SpaceBetween(s, b, j)
    ensures b == a || !IsSpace(s[b - 1])
    decreases j
  {
    if a < j && IsSpace(s[j - 1]) then StripEnd(s, a, j - 1) else j
  }

  /** `r` is what is left of `s` once the whitespace at both ends is removed,
      `r` starting at index `a` of `s`. */
  predicate StrippedAt(s: string, r: string, a: int) {
    0 <= a && a + |r| <= |s| && r == s[a..a + |r|]
    && SpaceBetween(s, 0, a) && SpaceBetween(s, a + |r|, |s|) && Trimmed(r)
  }

  /** `str.strip()`. */
  function Strip(s: string): (r: string)
    ensures |r| <= |s|
    ensures Trimmed(r)
  {
    var a := StripStart(s, 0);
    var b := StripEnd(s, a, |s|);
    assert b > a ==> !IsSpace(s[a]);
    s[a..b]
  }

  /** What `Strip` removes is whitespace at the two ends and nothing else. */
  lemma StripSpec(s: string)
    ensures StrippedAt(s, Strip(s), StripStart(s, 0))
  {
    var a := StripStart(s, 0);
    var b := StripEnd(s, a, |s|);
    assert Strip(s) == s[a..b];
  }

  lemma {:induction false} StripStartOf(s: string, i: nat, a: nat)
    requires i <= a <= |s| && SpaceBetween(s, i, a) && (a == |s| || !IsSpace(s[a]))
    ensures StripStart(s, i) == a
    decreases a - i
  {
    if i < a {
      StripStartOf(s, i + 1, a);
    }
  }

  lemma {:induction false} StripEndOf(s: string, a: nat, j: nat, b: nat)
    requires a <= b <= j <= |s| && SpaceBetween(s, b, j) && (b == a || !IsSpace(s[b - 1]))
    ensures StripEnd(s, a, j) == b
    decreases j
  {
    if b < j {
      StripEndOf(s, a, j - 1, b);
    }
  }

  /** Strip has exactly one possible outcome: any trimmed slice of `s` whose
      surroundings are whitespace is `Strip(s)`. */
  lemma StripUnique(s: string, r: string, a: int)
    requires StrippedAt(s, r, a)
    ensures Strip(s) == r
  {
    if r == [] {
      StripStartOf(s, 0, |s|);
      StripEndOf(s, |s|, |s|, |s|);
    } else {
      assert s[a] == r[0];
      StripStartOf(s, 0, a);
      assert s[a + |r| - 1] == r[|r| - 1];
      StripEndOf(s, a, |s|, a + |r|);
    }
  }

  lemma StripTrimmed(s: string)
    requires Trimmed(s)
    ensures Strip(s) == s
  {
    assert s[0..0 + |s|] == s;
    StripUnique(s, s, 0);
  }

  lemma StripIdempotent(s: string)
    ensures Strip(Strip(s)) == Strip(s)
  {
    StripTrimmed(Strip(s));
  }

  /** `s` holds `needle` starting at index `i`. */
  predicate OccursAt(hay: string, needle: string, i: int) {
    0 <= i && i + |needle| <= |hay| && hay[i..i + |needle|] == needle
  }

  /** Python's substring test `needle in hay`. */
  predicate Contains(hay: string, needle: string)
    ensures Contains(hay, needle) ==> |needle| <= |hay|
  {
    needle <= hay || (|hay| > 0 && Contains(hay[1..], needle))
  }

  /** The recursive test agrees with "occurs at some index". */
  lemma {:induction false} ContainsIffOccurs(hay: string, needle: string)
    ensures Contains(hay, needle) <==> exists i :: OccursAt(hay, needle, i)
  {
    if needle <= hay {
      assert OccursAt(hay, needle, 0);
    } else if |hay| > 0 {
      ContainsIffOccurs(hay[1..], needle);
      if Contains(hay[1..], needle) {
        var i :| OccursAt(hay[1..], needle, i);
        assert hay[1..][i..i + |needle|] == hay[i + 1..i + 1 + |needle|];
        assert OccursAt(hay, needle, i + 1);
      }
      if i :| OccursAt(hay, needle, i) {
        assert i != 0;
        assert hay[1..][i - 1..i - 1 + |needle|] == hay[i..i + |needle|];
        assert OccursAt(hay[1..], needle, i - 1);
      }
    }
  }

  /** The first index at or after `i` holding `c`. */
  function IndexFrom(s: string, c: char, i: nat): (r: Option<nat>)
    requires i <= |s|
    ensures r.Some? ==> i <= r.value < |s| && s[r.value] == c
    ensures r.Some? ==> forall k :: i <= k < r.value ==> s[k] != c
    ensures r.None? ==> forall k :: i <= k < |s| ==> s[k] != c
    decreases |s| - i
  {
    if i == |s| then None
    else if s[i] == c then Some(i)
    else IndexFrom(s, c, i + 1)
  }

  /** The first index at or after `i` where `needle` occurs. */
  function FindFrom(hay: string, needle: string, i: nat): (r: Option<nat>)
    requires i <= |hay|
    ensures r.Some? ==> i <= r.value && OccursAt(hay, needle, r.value)
    ensures r.Some? ==> forall k :: i <= k < r.value ==> !OccursAt(hay, needle, k)
    ensures r.None? ==> forall k :: i <= k ==> !OccursAt(hay, needle, k)
    decreases |hay| - i
  {
    if OccursAt(hay, needle, i) then Some(i)
    else if i == |hay| then None
    else FindFrom(hay, needle, i + 1)
  }

  /** `IndexFrom` finds the first `c` at or after `i`. */
  lemma IndexFromFirst(s: string, c: char, i: nat, k: nat)
    requires i <= k < |s| && s[k] == c
    requires forall m :: i <= m < k ==> s[m] != c
    ensures IndexFrom(s, c, i) == Some(k)
  {
  }

  /** `FindFrom` finds the first occurrence at or after `i`. */
  lemma FindFromFirst(hay: string, needle: string, i: nat, e: nat)
    requires i <= e && i <= |hay| && OccursAt(hay, needle, e)
    requires forall m :: i <= m < e ==> !OccursAt(hay, needle, m)
    ensures FindFrom(hay, needle, i) == Some(e)
  {
  }

  /** `s.endswith(suffix)`. */
  predicate EndsWith(s: string, suffix: string)
    ensures EndsWith(s, suffix) <==>
      |suffix| <= |s| && forall k :: 0 <= k < |suffix| ==> s[|s| - |suffix| + k] == suffix[k]
  {
    |suffix| <= |s| && s[|s| - |suffix|..] == suffix
  }

  /** Python's `a < b` on strings: code-point lexicographic order, a proper
      prefix coming first. */
  predicate LexLess(a: string, b: string)
    ensures LexLess(a, b) ==> a != b
  {
    if |a| == 0 then |b| > 0
    else if |b| == 0 then false
    else if a[0] != b[0] then a[0] < b[0]
    else LexLess(a[1..], b[1..])
  }

  lemma {:induction false} LexLessIrreflexive(a: string)
    ensures !LexLess(a, a)
  {
    if |a| > 0 { LexLessIrreflexive(a[1..]); }
  }

  lemma {:induction false} LexLessTransitive(a: string, b: string, c: string)
    requires LexLess(a, b) && LexLess(b, c)
    ensures LexLess(a, c)
  {
    if |a| > 0 && |b| > 0 && |c| > 0 && a[0] == b[0] && b[0] == c[0] {
      LexLessTransitive(a[1..], b[1..], c[1..]);
    }
  }

  lemma {:induction false} LexLessTotal(a: string, b: string)
    requires a != b
    ensures LexLess(a, b) || LexLess(b, a)
  {
    if |a| > 0 && |b| > 0 && a[0] == b[0] {
      assert a == [a[0]] + a[1..] && b == [b[0]] + b[1..];
      LexLessTotal(a[1..], b[1..]);
    }
  }

  lemma {:induction false} LexLessAsymmetric(a: string, b: string)
    requires LexLess(a, b)
    ensures !LexLess(b, a)
  {
    if |a| > 0 && |b| > 0 && a[0] == b[0] {
      LexLessAsymmetric(a[1..], b[1..]);
    }
  }
}
