/** The request and response records of the HTTP schema, as values. */
module Schemas {
  import opened Wrappers

  datatype JobPostingInput = JobPostingInput(url: Option<string>, text: Option<string>)

  datatype AnalyzeRequest = AnalyzeRequest(jobPosting: JobPostingInput, resumeText: Option<string>)

  /** A focus area; `weight` is the source's two-decimal float, in hundredths (1.0 is 100). */
  datatype FocusArea = FocusArea(name: string, weight: nat, skills: seq<string>)

  /** The three severities the schema's pattern `^(info|warning|critical)$` admits. */
  datatype Severity = Info | Warning | Critical

  function SeverityName(s: Severity): string {
    match s
    case Info => "info"
    case Warning => "warning"
    case Critical => "critical"
  }

  datatype CritiqueItem = CritiqueItem(severity: Severity, message: string)

  /** `resumeAlignment` is in hundredths, like `FocusArea.weight`. */
  datatype AnalyzeResponse = AnalyzeResponse(
    title: Option<string>,
    focusAreas: seq<FocusArea>,
    explicitSkills: seq<string>,
    hiddenSkills: seq<string>,
    critiques: seq<CritiqueItem>,
    resumeAlignment: Option<nat>,
    summary: string)
}
