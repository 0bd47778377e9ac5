/** What happens when the user asks for an analysis: choose the CV text and
    the job text from the sources given, collect the input errors, and score
    the two texts only when there is none. Whether a file was uploaded and
    what reading it gave, what fetching the job advert's address gave, the
    model's reply and the JSON decoder are all parameters. */
module Orchestration {
  import opened Basics
  import opened Strings
  import opened Normalizer
  import opened Results
  import opened Heuristic
  import opened LlmAdapter
  import opened Ingestion

  /** The placeholder that stands for "no API key configured". */
  const DefaultApiKey := "PASTE_YOUR_GEMINI_API_KEY_HERE"
  const DefaultModel := "gemini-1.5-flash"

  /** The settings read from the environment: the key and the model name,
      stripped, with the placeholders standing in for unset variables. */
  datatype Settings = Settings(apiKey: string, modelName: string, hasKey: bool)

  /** `resolve_gemini_settings`, the two environment variables given as
      values (`None` when unset). The language model is used exactly when a
      key other than the placeholder is set. */
  function ResolveSettings(envKey: Option<string>, envModel: Option<string>): (s: Settings)
    ensures s.hasKey <==> |s.apiKey| > 0 && s.apiKey != DefaultApiKey
    ensures s.apiKey == Strip(envKey.GetOr(DefaultApiKey))
    ensures s.modelName == Strip(envModel.GetOr(DefaultModel))
  {
    var key := Strip(envKey.GetOr(DefaultApiKey));
    Settings(key, Strip(envModel.GetOr(DefaultModel)), |key| > 0 && key != DefaultApiKey)
  }

  /** Without a key in the environment, or with only whitespace around the
      placeholder, the heuristic scorer is used. */
  lemma UnsetKeyMeansHeuristic(envModel: Option<string>, pad: string)
    requires AllSpace(pad)
    ensures !ResolveSettings(None, envModel).hasKey
    ensures !ResolveSettings(Some(pad + DefaultApiKey + pad), envModel).hasKey
  {
    var key := DefaultApiKey;
    assert Trimmed(key) by {
      assert key[0] == 'P' && key[|key| - 1] == 'E';
    }
    StripTrimmed(key);
    var s := pad + key + pad;
    assert s[|pad|..|pad| + |key|] == key;
    assert s[..|pad|] == pad && s[|pad| + |key|..] == pad;
    StripUnique(s, key, |pad|);
  }

  /** The input errors, in the order they are reported. Each carries the
      text of the exception where there is one. */
  datatype InputError =
    | UploadUnreadable(reason: string)   // reading the uploaded CV raised
    | FetchFailed(reason: string)        // fetching the job advert raised
    | MissingCv
    | MissingJob

  /** What an attempt to read an input gave: `None` when it was not made,
      `Some(Success(t))` when it gave the text `t`, `Some(Failure(e))` when
      it raised an exception with the text `e`. */
  type Attempt = Option<Result<string, string>>

  /** The text an attempt contributes: what it gave, or nothing when it was
      not made or raised. */
  function TextOf(a: Attempt): (r: string)
    ensures |r| > 0 ==> a == Some(Success(r))
    ensures a.None? || a.value.Failure? ==> |r| == 0
  {
    if a.Some? && a.value.Success? then a.value.value else ""
  }

  /** `fetch_job_text(url)`: `get` stands for the HTTP request with its
      status check, giving the response body or the exception's text; the
      body is turned into plain text. */
  function FetchJobText(url: string, get: string -> Result<string, string>): (r: Result<string, string>)
    ensures get(url).Failure? ==> r == Failure(get(url).error)
    ensures get(url).Success? ==> r == Success(HtmlToText(get(url).value))
  {
    match get(url)
    case Success(body) => Success(HtmlToText(body))
    case Failure(e) => Failure(e)
  }

  /** The address the job advert is fetched from: only when no job text is
      pasted and the address is not blank. */
  function FetchUrl(jobUrl: string, jobText: string): (r: Option<string>)
    ensures r.Some? <==> |Strip(jobText)| == 0 && |Strip(jobUrl)| > 0
    ensures r.Some? ==> r.value == Strip(jobUrl)
  {
    if |Strip(jobText)| == 0 && |Strip(jobUrl)| > 0 then Some(Strip(jobUrl)) else None
  }

  /** The CV text: the upload's text when it has any, the pasted CV
      otherwise. */
  function CvPayload(upload: Attempt, cvText: string): (r: string)
    ensures |TextOf(upload)| > 0 ==> r == TextOf(upload)
    ensures |TextOf(upload)| == 0 ==> r == Strip(cvText)
  {
    if |TextOf(upload)| > 0 then TextOf(upload) else Strip(cvText)
  }

  /** The job text: the pasted text, or what the fetch gave when one was
      made (the pasted text being empty then). */
  function JobPayload(jobText: string, fetched: Attempt): (r: string)
    ensures fetched.None? ==> r == Strip(jobText)
    ensures fetched.Some? && |Strip(jobText)| == 0 ==> r == TextOf(fetched)
  {
    if fetched.Some? then TextOf(fetched) else Strip(jobText)
  }

  /** What the CV branch appends: the upload's exception, if reading raised. */
  function UploadError(upload: Attempt): (r: seq<InputError>)
    ensures forall e :: UploadUnreadable(e) in r <==> upload == Some(Failure(e))
    ensures forall x :: x in r ==> x.UploadUnreadable?
    ensures |r| <= 1
  {
    if upload.Some? && upload.value.Failure? then [UploadUnreadable(upload.value.error)] else []
  }

  /** What the job branch appends: the fetch's exception, if fetching raised. */
  function FetchError(fetched: Attempt): (r: seq<InputError>)
    ensures forall e :: FetchFailed(e) in r <==> fetched == Some(Failure(e))
    ensures forall x :: x in r ==> x.FetchFailed?
    ensures |r| <= 1
  {
    if fetched.Some? && fetched.value.Failure? then [FetchFailed(fetched.value.error)] else []
  }

  /** What an emptiness check appends: `e` when the chosen text is empty. */
  function MissingError(text: string, e: InputError): (r: seq<InputError>)
    ensures forall x :: x in r <==> |text| == 0 && x == e
    ensures |r| <= 1
  {
    if |text| == 0 then [e] else []
  }

  /** The error list of the click handler, built from what the two attempts
      gave and the two chosen texts. */
  function Report(upload: Attempt, fetched: Attempt, cv: string, job: string): (r: seq<InputError>) {
    UploadError(upload) + FetchError(fetched) + MissingError(cv, MissingCv) + MissingError(job, MissingJob)
  }

  /** Where an error stands in the report. */
  function Stage(e: InputError): (n: nat) {
    match e
    case UploadUnreadable(_) => 0
    case FetchFailed(_) => 1
    case MissingCv => 2
    case MissingJob => 3
  }

  /** Every error of `s` stands strictly before the later ones. */
  predicate InStageOrder(s: seq<InputError>) {
    forall i, j :: 0 <= i < j < |s| ==> Stage(s[i]) < Stage(s[j])
  }

  lemma StageOrderAppend(a: seq<InputError>, b: seq<InputError>, n: nat)
    requires InStageOrder(a) && InStageOrder(b)
    requires forall x :: x in a ==> Stage(x) < n
    requires forall y :: y in b ==> n <= Stage(y)
    ensures InStageOrder(a + b)
  {
    var s := a + b;
    forall i, j | 0 <= i < j < |s| ensures Stage(s[i]) < Stage(s[j]) {
      if j < |a| {
        assert s[i] == a[i] && s[j] == a[j];
      } else if i >= |a| {
        assert s[i] == b[i - |a|] && s[j] == b[j - |a|];
      } else {
        assert s[i] == a[i] && s[j] == b[j - |a|];
        assert a[i] in a && b[j - |a|] in b;
      }
    }
  }


  /** The errors are reported at most one of each kind, in the order
      upload, fetch, missing CV, missing job. */
  lemma ReportOrder(upload: Attempt, fetched: Attempt, cv: string, job: string)
    ensures InStageOrder(Report(upload, fetched, cv, job))
  {
    var up, fe := UploadError(upload), FetchError(fetched);
    var mc, mj := MissingError(cv, MissingCv), MissingError(job, MissingJob);
    StageOrderAppend(up, fe, 1);
    var upFe := up + fe;
    StageOrderAppend(upFe, mc, 2);
    var upFeMc := upFe + mc;
    StageOrderAppend(upFeMc, mj, 3);
  }

  /** Which errors are reported: the upload's exception exactly when reading
      it raised, the fetch's exception exactly when the fetch raised, a
      missing CV exactly when the chosen CV text is empty, a missing job
      exactly when the chosen job text is empty. */
  lemma ReportCauses(upload: Attempt, fetched: Attempt, cv: string, job: string)
    ensures var r := Report(upload, fetched, cv, job);
      && (forall e :: UploadUnreadable(e) in r <==> upload == Some(Failure(e)))
      && (forall e :: FetchFailed(e) in r <==> fetched == Some(Failure(e)))
      && (MissingCv in r <==> |cv| == 0)
      && (MissingJob in r <==> |job| == 0)
      && (|job| == 0 ==> r[|r| - 1] == MissingJob)
  {
    var up, fe := UploadError(upload), FetchError(fetched);
    var mc, mj := MissingError(cv, MissingCv), MissingError(job, MissingJob);
    if |job| == 0 {
      assert mj == [MissingJob];
    }
  }

  /** The report is empty exactly when neither attempt raised and both chosen
      texts are non-empty: the gate in front of the scorers. */
  lemma ReportEmpty(upload: Attempt, fetched: Attempt, cv: string, job: string)
    ensures |Report(upload, fetched, cv, job)| == 0 <==>
      !(upload.Some? && upload.value.Failure?) && !(fetched.Some? && fetched.value.Failure?)
      && |cv| > 0 && |job| > 0
  {
    ReportCauses(upload, fetched, cv, job);
    var r := Report(upload, fetched, cv, job);
    if upload.Some? && upload.value.Failure? {
      assert UploadUnreadable(upload.value.error) in r;
    }
    if fetched.Some? && fetched.value.Failure? {
      assert FetchFailed(fetched.value.error) in r;
    }
  }

  /** The outcome of choosing the inputs: the errors, the two texts, and the
      address the job advert was fetched from, if a fetch was made. */
  datatype Selection = Selection(errors: seq<InputError>, cv: string, job: string,
                                 fetchedFrom: Option<string>)

  /** The choice of inputs and their validation. */
  function Select(upload: Attempt, cvText: string, jobUrl: string, jobText: string,
                  get: string -> Result<string, string>): (r: Selection)
    ensures r.fetchedFrom.Some? <==> |Strip(jobText)| == 0 && |Strip(jobUrl)| > 0
    ensures |r.errors| == 0 ==> |r.cv| > 0 && |r.job| > 0
  {
    var url := FetchUrl(jobUrl, jobText);
    var fetched := if url.Some? then Some(FetchJobText(url.value, get)) else None;
    var cv, job := CvPayload(upload, cvText), JobPayload(jobText, fetched);
    Selection(Report(upload, fetched, cv, job), cv, job, url)
  }

  /** Reading the uploaded CV, falling back on the pasted CV. */
  method ReadCv(upload: Attempt, cvText: string)
    returns (errors: seq<InputError>, cvPayload: string)
    ensures cvPayload == CvPayload(upload, cvText)
    ensures errors == UploadError(upload)
  {
    errors := [];
    cvPayload := "";
    if upload.Some? {
      match upload.value
      case Success(text) => cvPayload := text;
      case Failure(e) => errors := [UploadUnreadable(e)];
    }
    if |cvPayload| == 0 {
      cvPayload := Strip(cvText);
    }
  }

  /** Taking the pasted job text, or fetching the advert when there is none. */
  method ReadJob(jobUrl: string, jobText: string, get: string -> Result<string, string>)
    returns (errors: seq<InputError>, jobPayload: string, fetchedFrom: Option<string>,
             ghost fetched: Attempt)
    ensures fetchedFrom == FetchUrl(jobUrl, jobText)
    ensures fetched == if fetchedFrom.Some? then Some(FetchJobText(fetchedFrom.value, get)) else None
    ensures jobPayload == JobPayload(jobText, fetched)
    ensures errors == FetchError(fetched)
  {
    errors := [];
    jobPayload := Strip(jobText);
    fetchedFrom := None;
    fetched := None;
    if |jobPayload| == 0 && |Strip(jobUrl)| > 0 {
      var url := Strip(jobUrl);
      fetchedFrom := Some(url);
      var response := FetchJobText(url, get);
      fetched := Some(response);
      match response
      case Success(text) => jobPayload := text;
      case Failure(e) => errors := [FetchFailed(e)];
    }
  }

  /** The step-by-step form of the choice, as the click handler runs it:
      the errors, the CV text and the job text are updated in turn. */
  method SelectInputs(upload: Attempt, cvText: string, jobUrl: string, jobText: string,
                      get: string -> Result<string, string>)
    returns (errors: seq<InputError>, cvPayload: string, jobPayload: string,
             fetchedFrom: Option<string>)
    ensures Selection(errors, cvPayload, jobPayload, fetchedFrom)
            == Select(upload, cvText, jobUrl, jobText, get)
  {
    var uploadErrors, fetchErrors;
    uploadErrors, cvPayload := ReadCv(upload, cvText);
    ghost var fetched;
    fetchErrors, jobPayload, fetchedFrom, fetched := ReadJob(jobUrl, jobText, get);
    errors := ReportMissing(uploadErrors + fetchErrors, cvPayload, jobPayload);
  }

  /** The two checks for an empty CV and an empty job text. */
  method ReportMissing(errors: seq<InputError>, cv: string, job: string)
    returns (errors': seq<InputError>)
    ensures errors' == errors + MissingError(cv, MissingCv) + MissingError(job, MissingJob)
  {
    errors' := errors;
    if |cv| == 0 {
      errors' := errors' + [MissingCv];
    }
    if |job| == 0 {
      errors' := errors' + [MissingJob];
    }
  }

  /** How a click on "analyse" ends: input errors shown, the scorer failing,
      or a result. */
  datatype Outcome =
    | Rejected(errors: seq<InputError>)
    | ScoringFailed(error: LlmError)
    | Scored(analysis: Analysis)

  /** The scorer in use: the language model when `use_gemini and api_key`,
      the heuristic otherwise. `respond` stands for the model's reply to the
      prompt built from the two texts. */
  function Score(settings: Settings, sdkInstalled: bool, cv: string, job: string,
                 respond: (string, string) -> string,
                 decode: string -> Result<Decoded, string>): (o: Outcome)
    ensures !o.Rejected?
    ensures o.Scored? ==> WellFormed(o.analysis)
    ensures !(settings.hasKey && |settings.apiKey| > 0) ==> o == Scored(HeuristicAnalysis(cv, job))
    ensures settings.hasKey && |settings.apiKey| > 0 ==>
      var g := GeminiAnalysis(sdkInstalled, respond(cv, job), decode);
      o == if g.Success? then Scored(g.value) else ScoringFailed(g.error)
  {
    if settings.hasKey && |settings.apiKey| > 0 then
      match GeminiAnalysis(sdkInstalled, respond(cv, job), decode)
      case Success(a) => Scored(a)
      case Failure(e) => ScoringFailed(e)
    else Scored(HeuristicAnalysis(cv, job))
  }

  /** The whole click handler: choose and validate the inputs; with no
      error, bound both texts to `MaxChars` and score them. */
  function Analyze(settings: Settings, sdkInstalled: bool,
                   upload: Attempt, cvText: string,
                   jobUrl: string, jobText: string,
                   get: string -> Result<string, string>,
                   respond: (string, string) -> string,
                   decode: string -> Result<Decoded, string>): (o: Outcome)
    ensures var sel := Select(upload, cvText, jobUrl, jobText, get);
      && (o.Rejected? <==> sel.errors != [])
      && (o.Rejected? ==> o.errors == sel.errors)
      && (!o.Rejected? ==>
            o == Score(settings, sdkInstalled, TrimText(sel.cv, MaxChars),
                       TrimText(sel.job, MaxChars), respond, decode))
  {
    var sel := Select(upload, cvText, jobUrl, jobText, get);
    if sel.errors != [] then Rejected(sel.errors)
    else Score(settings, sdkInstalled, TrimText(sel.cv, MaxChars),
               TrimText(sel.job, MaxChars), respond, decode)
  }

  /** Scoring runs only when nothing went wrong: whenever the handler gets
      to a scorer, neither attempt raised and both chosen texts have content. */
  lemma ScoredOnlyWithoutErrors(settings: Settings, sdkInstalled: bool,
                                upload: Attempt, cvText: string, jobUrl: string, jobText: string,
                                get: string -> Result<string, string>,
                                respond: (string, string) -> string,
                                decode: string -> Result<Decoded, string>)
    requires !Analyze(settings, sdkInstalled, upload, cvText, jobUrl, jobText, get, respond, decode).Rejected?
    ensures var sel := Select(upload, cvText, jobUrl, jobText, get);
      && |sel.cv| > 0 && |sel.job| > 0
      && !(upload.Some? && upload.value.Failure?)
      && (sel.fetchedFrom.Some? ==> get(sel.fetchedFrom.value).Success?)
  {
    var sel := Select(upload, cvText, jobUrl, jobText, get);
    var url := FetchUrl(jobUrl, jobText);
    var fetched := if url.Some? then Some(FetchJobText(url.value, get)) else None;
    ReportCauses(upload, fetched, sel.cv, sel.job);
  }

  lemma AllSpaceStrip(s: string)
    requires AllSpace(s)
    ensures |Strip(s)| == 0
  {
    assert s[..|s|] == s && s[|s|..] == [];
    StripUnique(s, "", |s|);
  }

  /** With neither a CV nor a job advert given, both missing inputs are
      reported, in that order, and nothing is scored. */
  lemma NothingGiven(settings: Settings, sdkInstalled: bool, cvText: string,
                     jobUrl: string, jobText: string,
                     get: string -> Result<string, string>,
                     respond: (string, string) -> string,
                     decode: string -> Result<Decoded, string>)
    requires AllSpace(cvText) && AllSpace(jobUrl) && AllSpace(jobText)
    ensures Analyze(settings, sdkInstalled, None, cvText, jobUrl, jobText, get, respond, decode)
            == Rejected([MissingCv, MissingJob])
  {
    AllSpaceStrip(cvText);
    AllSpaceStrip(jobUrl);
    AllSpaceStrip(jobText);
  }

  /** A failed fetch is reported and nothing is scored; as the fetch is only
      made when no job text was pasted, the job is reported missing too,
      last. */
  lemma FetchFailureStops(settings: Settings, sdkInstalled: bool,
                          upload: Attempt, cvText: string, jobUrl: string, jobText: string,
                          get: string -> Result<string, string>,
                          respond: (string, string) -> string,
                          decode: string -> Result<Decoded, string>)
    requires AllSpace(jobText) && |Strip(jobUrl)| > 0 && get(Strip(jobUrl)).Failure?
    ensures var o := Analyze(settings, sdkInstalled, upload, cvText, jobUrl, jobText, get, respond, decode);
      && o.Rejected?
      && FetchFailed(get(Strip(jobUrl)).error) in o.errors
      && o.errors[|o.errors| - 1] == MissingJob
  {
    AllSpaceStrip(jobText);
    var url := Strip(jobUrl);
    var fetched: Attempt := Some(Failure(get(url).error));
    assert FetchJobText(url, get) == fetched.value;
    var sel := Select(upload, cvText, jobUrl, jobText, get);
    assert sel.errors == Report(upload, fetched, sel.cv, "");
    ReportCauses(upload, fetched, sel.cv, "");
  }

  /** An uploaded file that yields text makes the pasted CV irrelevant. */
  lemma UploadOverridesPaste(upload: Attempt, cvText: string, cvText': string,
                             jobUrl: string, jobText: string,
                             get: string -> Result<string, string>)
    requires |TextOf(upload)| > 0
    ensures Select(upload, cvText, jobUrl, jobText, get)
         == Select(upload, cvText', jobUrl, jobText, get)
  {
  }

  /** Pasted job text makes the address irrelevant: nothing is fetched. */
  lemma PasteOverridesUrl(upload: Attempt, cvText: string,
                          jobUrl: string, jobUrl': string, jobText: string,
                          get: string -> Result<string, string>,
                          get': string -> Result<string, string>)
    requires |Strip(jobText)| > 0
    ensures Select(upload, cvText, jobUrl, jobText, get)
         == Select(upload, cvText, jobUrl', jobText, get')
  {
  }
}
