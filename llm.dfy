/** The language-model scorer's handling of the model's reply: `parse_json`
    with its fallback to the outermost brace span, and the coercions that
    turn the decoded object into a result. The model call itself and the
    JSON decoder are parameters. */
module LlmAdapter {
  import opened Basics
  import opened Strings
  import opened Results

  /** What the decoded reply holds under `missing_keywords`. */
  datatype MissingField = NoField | NotAList | Items(items: seq<string>)

  /** A decoded JSON object, its fields already converted by `int()` and
      `str()`; an absent field is `None`. */
  datatype Reply = Reply(score: Option<int>, missing: MissingField, summary: Option<string>)

  /** What `json.loads` produced: an object, or some other JSON value. */
  datatype Decoded = Object(reply: Reply) | OtherValue

  datatype LlmError =
    | SdkMissing                 // `genai is None`
    | Undecodable(message: string) // the decode error that `parse_json` lets through
    | NotAnObject                // `data.get` on a value that is not a dict

  /** `s[i]` is the first `{` of `s`, `s[j]` its last `}`, and `j` comes
      after `i`: the span `\{.*\}` matches with `re.S`. */
  ghost predicate IsGreedySpan(s: string, i: int, j: int) {
    && 0 <= i < j < |s| && s[i] == '{' && s[j] == '}'
    && (forall k :: 0 <= k < i ==> s[k] != '{')
    && (forall k :: j < k < |s| ==> s[k] != '}')
  }

  /** Some `{` of `s` has a `}` after it. */
  ghost predicate HasBracePair(s: string) {
    exists i, j :: 0 <= i < j < |s| && s[i] == '{' && s[j] == '}'
  }

  function LastIndexOf(s: string, c: char): (r: Option<nat>)
    ensures r.Some? ==> r.value < |s| && s[r.value] == c
    ensures r.Some? ==> forall k :: r.value < k < |s| ==> s[k] != c
    ensures r.None? ==> forall k :: 0 <= k < |s| ==> s[k] != c
  {
    if s == [] then None
    else if s[|s| - 1] == c then Some(|s| - 1)
    else LastIndexOf(s[..|s| - 1], c)
  }

  /** `re.search(r"\{.*\}", s, flags=re.S)`: the leftmost match starts at the
      first `{` and the greedy `.*` runs to the last `}`; there is no match
      exactly when no `{` has a `}` after it. */
  function BraceSpan(s: string): (r: Option<(nat, nat)>)
    ensures r.Some? ==> IsGreedySpan(s, r.value.0, r.value.1)
    ensures r.None? <==> !HasBracePair(s)
  {
    match IndexFrom(s, '{', 0)
    case None => None
    case Some(i) =>
      match LastIndexOf(s, '}')
      case Some(j) => if i < j then Some((i, j)) else None
      case None => None
  }

  /** `parse_json(text)`, `decode` standing for `json.loads`. The text is
      stripped; when decoding it fails, the outermost brace span is decoded
      instead, and without such a span the first error propagates. */
  function ParseJson<T>(text: string, decode: string -> Result<T, string>): (r: Result<T, string>)
    ensures var t := Strip(text);
      && (decode(t).Success? ==> r == decode(t))
      && (decode(t).Failure? && !HasBracePair(t) ==> r == decode(t))
      && (forall i, j :: decode(t).Failure? && IsGreedySpan(t, i, j) ==> r == decode(t[i..j + 1]))
  {
    var t := Strip(text);
    match decode(t)
    case Success(v) => Success(v)
    case Failure(e) =>
      match BraceSpan(t)
      case None => Failure(e)
      case Some(span) =>
        GreedySpanUnique(t, span.0, span.1);
        decode(t[span.0..span.1 + 1])
  }

  lemma GreedySpanUnique(s: string, i: int, j: int)
    requires IsGreedySpan(s, i, j)
    ensures forall i', j' :: IsGreedySpan(s, i', j') ==> i' == i && j' == j
  {
  }

  /** `max(0, min(100, score))`. */
  function Clamp(x: int): (r: int)
    ensures 0 <= r <= 100
    ensures 0 <= x <= 100 ==> r == x
    ensures x < 0 ==> r == 0
    ensures x > 100 ==> r == 100
  {
    if x < 0 then 0 else if x > 100 then 100 else x
  }

  /** `[str(item).strip() for item in missing if str(item).strip()]`. */
  function CleanItems(xs: seq<string>): (r: seq<string>)
    ensures |r| <= |xs|
    ensures forall e :: e in r ==> e != [] && Trimmed(e)
    ensures forall e :: e in r ==> exists i :: 0 <= i < |xs| && e == Strip(xs[i])
  {
    if xs == [] then []
    else
      var e := Strip(xs[0]);
      (if e != [] then [e] else []) + CleanItems(xs[1..])
  }

  /** No entry with text is dropped. */
  lemma {:induction false} CleanItemsKeeps(xs: seq<string>, i: int)
    requires 0 <= i < |xs| && Strip(xs[i]) != []
    ensures Strip(xs[i]) in CleanItems(xs)
  {
    if i > 0 {
      assert xs[i] == xs[1..][i - 1];
      CleanItemsKeeps(xs[1..], i - 1);
    }
  }

  /** Cleaning keeps the entries' order: cleaning a concatenation cleans each
      part. */
  lemma {:induction false} CleanItemsAppend(a: seq<string>, b: seq<string>)
    ensures CleanItems(a + b) == CleanItems(a) + CleanItems(b)
  {
    if a == [] {
      assert a + b == b;
    } else {
      var e := Strip(a[0]);
      var head := if e != [] then [e] else [];
      assert (a + b)[0] == a[0];
      assert (a + b)[1..] == a[1..] + b;
      CleanItemsAppend(a[1..], b);
      calc {
        CleanItems(a + b);
        head + CleanItems(a[1..] + b);
        head + (CleanItems(a[1..]) + CleanItems(b));
        (head + CleanItems(a[1..])) + CleanItems(b);
        CleanItems(a) + CleanItems(b);
      }
    }
  }

  /** The coercions of `gemini_analysis` on a decoded object. */
  function Coerce(reply: Reply): (a: Analysis)
    ensures WellFormed(a)
    ensures a.score == Clamp(reply.score.GetOr(0))
    ensures reply.missing.Items? ==> a.missing == Take(CleanItems(reply.missing.items), MissingLimit)
    ensures !reply.missing.Items? ==> a.missing == []
    ensures forall e :: e in a.missing ==> Trimmed(e)
    ensures Trimmed(a.summary)
    ensures a.summary == Strip(reply.summary.GetOr(""))
  {
    var missing := match reply.missing
      case Items(xs) => CleanItems(xs)
      case _ => [];
    var m := Take(missing, MissingLimit);
    assert forall e :: e in m ==> e in missing;
    Analysis(Clamp(reply.score.GetOr(0)), m, Strip(reply.summary.GetOr("")))
  }

  /** `gemini_analysis` from the model's reply text on: the model call is
      replaced by its `response` and `json.loads` by `decode`. */
  function GeminiAnalysis(sdkInstalled: bool, response: string,
                          decode: string -> Result<Decoded, string>): (r: Result<Analysis, LlmError>)
    ensures !sdkInstalled ==> r == Failure(SdkMissing)
    ensures r.Success? ==> WellFormed(r.value)
    ensures sdkInstalled ==> match ParseJson<Decoded>(response, decode)
      case Failure(e) => r == Failure(Undecodable(e))
      case Success(OtherValue) => r == Failure(NotAnObject)
      case Success(Object(reply)) => r == Success(Coerce(reply))
  {
    if !sdkInstalled then Failure(SdkMissing)
    else match ParseJson<Decoded>(response, decode)
      case Failure(e) => Failure(Undecodable(e))
      case Success(OtherValue) => Failure(NotAnObject)
      case Success(Object(reply)) => Success(Coerce(reply))
  }

  /** A reply wrapped in prose is still read: its brace span is decoded and
      coerced. */
  lemma FallbackRecovers(response: string, decode: string -> Result<Decoded, string>,
                         i: int, j: int, reply: Reply)
    requires var t := Strip(response);
      decode(t).Failure? && IsGreedySpan(t, i, j) && decode(t[i..j + 1]) == Success(Object(reply))
    ensures GeminiAnalysis(true, response, decode) == Success(Coerce(reply))
  {
  }

  /** An out-of-range score is clamped and a `missing_keywords` that is not a
      list becomes empty. */
  lemma CoerceExample()
    ensures Coerce(Reply(Some(150), NotAList, Some("ok"))) == Analysis(100, [], "ok")
  {
    StripTrimmed("ok");
  }

  /** Cleaning leaves a list of non-empty trimmed entries as it is. */
  lemma {:induction false} CleanItemsOfClean(xs: seq<string>)
    requires forall i :: 0 <= i < |xs| ==> xs[i] != [] && Trimmed(xs[i])
    ensures CleanItems(xs) == xs
  {
    if xs != [] {
      var x, rest := xs[0], xs[1..];
      StripTrimmed(x);
      assert Strip(xs[0]) == x && x != [];
      assert CleanItems(xs) == [x] + CleanItems(rest);
      assert forall i :: 0 <= i < |rest| ==> rest[i] == xs[i + 1];
      CleanItemsOfClean(rest);
      assert CleanItems(xs) == [x] + rest;
      SplitFirst(xs);
    }
  }

  lemma SplitFirst<T>(xs: seq<T>)
    requires xs != []
    ensures xs == [xs[0]] + xs[1..]
  {
  }

  /** A reply that already is a well-formed result comes through unchanged. */
  lemma CoerceWellFormed(score: int, items: seq<string>, summary: string)
    requires 0 <= score <= 100 && |items| <= MissingLimit && Trimmed(summary)
    requires forall i :: 0 <= i < |items| ==> items[i] != [] && Trimmed(items[i])
    ensures Coerce(Reply(Some(score), Items(items), Some(summary))) == Analysis(score, items, summary)
  {
    CleanItemsOfClean(items);
    StripTrimmed(summary);
    assert Take(items, MissingLimit) == items;
  }
}
