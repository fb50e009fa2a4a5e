/** The analysis pipeline: pick the posting text (fetching the URL when the text is
    missing), normalise it, and run every stage over it. */
module JobProfile {
  import opened Wrappers
  import opened Text
  import opened Schemas
  import opened Normalization
  import opened Extraction
  import opened Enrichment
  import opened Critique
  import opened Profiling
  import opened ResumeMatch

  /** What fetching a URL gives: the cleaned text (`None` for an empty page), or the
      `ValueError` raised when the request fails. */
  datatype FetchOutcome = Fetched(text: Option<string>) | FetchFailed(reason: string)

  /** Python truthiness of an optional string: present and not empty. */
  predicate Truthy(s: Option<string>) { s.Some? && s.value != [] }

  const Summary: string := "Generated profile with focus areas and inferred skills."

  /** `raw_text` once the URL fallback and the `""` default have been applied, or the
      fetch failure, which propagates out of the pipeline. */
  function RawText(posting: JobPostingInput, fetch: string -> FetchOutcome): (r: Result<string>)
    ensures Truthy(posting.text) ==> r == Ok(posting.text.value)
    ensures !Truthy(posting.text) && !Truthy(posting.url) ==> r == Ok("")
    ensures r.Err? <==> !Truthy(posting.text) && Truthy(posting.url) && fetch(posting.url.value).FetchFailed?
  {
    if Truthy(posting.text) then Ok(posting.text.value)
    else if Truthy(posting.url) then
      match fetch(posting.url.value)
      case FetchFailed(e) => Err(e)
      case Fetched(t) => Ok(if Truthy(t) then t.value else "")
    else Ok("")
  }

  /** The response for an analysed text: every stage runs on the normalised text, except
      the resume alignment, which compares the resume with the explicit skills. */
  function Profile(raw: string, resume: Option<string>): AnalyzeResponse {
    var normalized := NormalizeText(raw);
    var explicit := ExtractSkills(normalized);
    AnalyzeResponse(
      None,
      FocusAreas(explicit),
      explicit,
      HiddenSkills(explicit),
      Critiques(normalized),
      if Truthy(resume) then Some(ResumeAlignment(resume.value, explicit)) else None,
      Summary)
  }

  /** `build_job_profile`, with the URL fetch as a parameter. */
  function BuildJobProfile(request: AnalyzeRequest, fetch: string -> FetchOutcome): Result<AnalyzeResponse> {
    match RawText(request.jobPosting, fetch)
    case Err(e) => Err(e)
    case Ok(raw) => Ok(Profile(raw, request.resumeText))
  }

  /** A non-empty text is analysed as given and the URL is never fetched: the result is
      the same whatever the fetch would do. */
  lemma TextTakesPrecedence(request: AnalyzeRequest, f: string -> FetchOutcome, g: string -> FetchOutcome)
    requires Truthy(request.jobPosting.text)
    ensures BuildJobProfile(request, f) == BuildJobProfile(request, g)
    ensures BuildJobProfile(request, f) == Ok(Profile(request.jobPosting.text.value, request.resumeText))
  {
  }

  /** Without text, a failed fetch fails the whole request with its error; an empty page
      is analysed as the empty text. */
  lemma FetchOutcomes(request: AnalyzeRequest, fetch: string -> FetchOutcome)
    requires !Truthy(request.jobPosting.text) && Truthy(request.jobPosting.url)
    ensures fetch(request.jobPosting.url.value).FetchFailed? ==>
      BuildJobProfile(request, fetch) == Err(fetch(request.jobPosting.url.value).reason)
    ensures fetch(request.jobPosting.url.value).Fetched? && !Truthy(fetch(request.jobPosting.url.value).text) ==>
      BuildJobProfile(request, fetch) == Ok(Profile("", request.resumeText))
    ensures fetch(request.jobPosting.url.value).Fetched? && Truthy(fetch(request.jobPosting.url.value).text) ==>
      BuildJobProfile(request, fetch) == Ok(Profile(fetch(request.jobPosting.url.value).text.value, request.resumeText))
  {
    var o := fetch(request.jobPosting.url.value);
    match o
    case FetchFailed(e) =>
      assert RawText(request.jobPosting, fetch) == Err(e);
    case Fetched(t) =>
      assert RawText(request.jobPosting, fetch) == Ok(if Truthy(t) then t.value else "");
  }

  lemma EmptyTextStages()
    ensures NormalizeText("") == ""
    ensures ExtractSkills("") == []
    ensures Critiques("") == [CritiqueItem(Info, ConsistentInfo)]
  {
    NormalizeBlank("");
    ExtractSkillsEmpty();
    assert !Contains(Lower(""), "years") && !Contains(Lower(""), "cloud");
  }

  /** Nothing to analyse gives the empty profile: no skills, the general area alone and
      the consistent-requirements note. */
  lemma EmptyProfile(resume: Option<string>)
    ensures Profile("", resume).explicitSkills == []
    ensures Profile("", resume).hiddenSkills == []
    ensures Profile("", resume).focusAreas == [FocusArea("general", 100, [])]
    ensures Profile("", resume).critiques == [CritiqueItem(Info, ConsistentInfo)]
    ensures Truthy(resume) ==> Profile("", resume).resumeAlignment == Some(0)
  {
    EmptyTextStages();
    HiddenSkillsEmpty();
    FocusAreasGeneral([]);
  }

  /** The stages' guarantees, as they show in the response. */
  lemma ProfileShape(raw: string, resume: Option<string>)
    ensures Profile(raw, resume).title.None? && Profile(raw, resume).summary == Summary
    ensures Profile(raw, resume).resumeAlignment.Some? <==> Truthy(resume)
    ensures Profile(raw, resume).resumeAlignment.Some? ==> Profile(raw, resume).resumeAlignment.value <= 100
    ensures NoDuplicates(Profile(raw, resume).explicitSkills) && |Profile(raw, resume).explicitSkills| <= 15
    ensures forall s :: s in Profile(raw, resume).explicitSkills ==> s in SkillKeywords
    ensures StrictlySorted(Profile(raw, resume).hiddenSkills)
    ensures |Profile(raw, resume).focusAreas| >= 1
    ensures forall i :: 0 <= i < |Profile(raw, resume).focusAreas| ==> Profile(raw, resume).focusAreas[i].weight <= 100
    ensures 1 <= |Profile(raw, resume).critiques| <= 2
  {
    var normalized := NormalizeText(raw);
    var explicit := ExtractSkills(normalized);
    ExtractSkillsKeywords(normalized);
    HiddenSkillsSorted(explicit);
    FocusAreasNonEmpty(explicit);
    FocusAreaWeights(explicit);
    CritiquesCount(normalized);
    if Truthy(resume) {
      AlignmentBound(resume.value, explicit);
    }
  }

  /** Whitespace layout of the posting does not matter: skills, areas, hidden skills and
      critiques are those of the normalised text. */
  lemma NormalizedInput(raw: string, resume: Option<string>)
    ensures Profile(NormalizeText(raw), resume) == Profile(raw, resume)
  {
    NormalizeIdempotent(raw);
  }
}
