# ajips job-posting analysis, modelled in Dafny

ajips (Automated Job Intelligence Profiling System) analyses a job posting. It takes the
posting's text, or fetches its URL when the text is missing. It normalises the whitespace
and extracts the skill keywords, ranked by how often they occur. It then derives the
following from those skills and the text:

- focus areas (backend, cloud, frontend, data, or "general"), each weighted by its share of
  the skills;
- hidden skills that the explicit skills imply;
- requirement critiques;
- optionally, how well a resume aligns with the skills.

Further extractors find a salary range, the interview stages and the interview duration. An
environment-driven settings record configures the service.

The model has one module per source file, plus four helper modules:

- `Wrappers` holds `Option` and `Result`.
- `Text` holds ASCII character classes, `str.lower`/`str.upper`, `str.strip`,
  `str.split()`, substring search, digit runs and a lexicographic order on strings.
- `Decimal` holds Python's `round(x, 2)` on a ratio, as integer hundredths.
- `Schemas` holds the request and response records.

Code that updates state step by step is written as Dafny methods with loops:
`split_sections`, the stage loop of `detect_interview_stages`, `critique_requirements`,
`build_focus_areas`, `infer_hidden_skills` and `Settings.from_env`. Each method's `ensures`
ties its result to a specification function. The properties are proved as lemmas about
those functions. Pure code is written as functions and lemmas.

Regular expressions are modelled by hand-written scanners. Every pattern used starts with
`\d+` or `\$`. A `\d+` that the pattern follows with `\s*` and a non-digit can only match a
whole run of digits, so the leftmost match is unique. `SearchWholeRun` proves that this
match starts a maximal digit run.

## Model

| member | source | states |
|---|---|---|
| Normalization.NormalizeShape | ajips/app/services/normalization.py:6-8 | the normalised text has no whitespace other than single spaces, and none at either end |
| Normalization.NormalizePreservesText | ajips/app/services/normalization.py:6-8 | normalisation keeps every non-whitespace character, in order, and adds none |
| Normalization.NormalizeIdempotent | ajips/app/services/normalization.py:6-8 | normalising twice is the same as normalising once |
| Normalization.NormalizeBlank | ajips/app/services/normalization.py:6-8 | empty or all-whitespace text normalises to "" |
| Normalization.HeadingMatchAt | ajips/app/services/normalization.py:14-15 | the match end of `heading\s*[:\-]` at a position, case-insensitive, exists exactly when the pattern matches there |
| Normalization.FindHeading | ajips/app/services/normalization.py:15 | the leftmost position where the heading pattern matches: no match starts before it, and none exists when it is None |
| Normalization.SectionKeyNames | ajips/app/services/normalization.py:17 | each section key is its heading lower-cased |
| Normalization.SectionKeysDistinct | ajips/app/services/normalization.py:12-17 | the three section keys differ from each other and from "body" |
| Normalization.SplitSections | ajips/app/services/normalization.py:11-18 | "body" maps to the whole text; a heading's key is present exactly when the heading pattern matches; its value is the stripped text after the first match; there are no other keys |
| Extraction.KeywordTokens | ajips/app/services/extraction.py:26 | the tokens fed to the counter are exactly the keyword tokens, each with its number of occurrences |
| Extraction.SkillKeywordsCount | ajips/app/services/extraction.py:5-21 | the keyword set has fifteen distinct members |
| Extraction.KeywordTokensOrder | ajips/app/services/extraction.py:26 | filtering the tokens keeps the order of first occurrences |
| Extraction.FirstSeen | ajips/app/services/extraction.py:26 | the counter's keys are the distinct keyword tokens, in order of first occurrence |
| Extraction.MostCommon | ajips/app/services/extraction.py:27 | `most_common()` is a permutation of the counter's keys |
| Extraction.ExtractSkillsKeywords | ajips/app/services/extraction.py:5-27 | every extracted skill is one of the fifteen keywords, none occurs twice, and there are at most fifteen |
| Extraction.ExtractSkillsMembership | ajips/app/services/extraction.py:25-27 | a keyword is extracted exactly when it is a whole token of the lower-cased text after stripping `.,;:()[]{}` |
| Extraction.ExtractSkillsRanking | ajips/app/services/extraction.py:26-27 | occurrence counts never increase along the result, and skills with equal counts keep the order of first occurrence |
| Extraction.ExtractSkillsEmpty | ajips/app/services/extraction.py:24-27 | empty text yields no skills |
| Extraction.ExtractSkillsCaseInsensitive | ajips/app/services/extraction.py:25 | the result depends only on the lower-cased text |
| Extraction.NoKeywordNoSkills | ajips/app/services/extraction.py:26-27 | text none of whose tokens is a keyword yields no skills |
| Extraction.SingleWordTokens | ajips/app/services/extraction.py:25 | a single word with nothing to strip at its ends is one lower-cased token |
| Extraction.WholeTokenExample | ajips/app/services/extraction.py:25-27 | "javascript" yields "javascript" and not "java" |
| Extraction.JoinedTokenExample | ajips/app/services/extraction.py:25-27 | "Python/Django" is one token and yields no skill |
| Enrichment.InferHiddenSkills | ajips/app/services/enrichment.py:12-16 | the loop that extends the inferred list, followed by the sort, yields the hidden skills of the explicit skills |
| Enrichment.HiddenSkillsSorted | ajips/app/services/enrichment.py:16 | the hidden skills are strictly increasing, so none repeats |
| Enrichment.HiddenSkillsMembership | ajips/app/services/enrichment.py:3-16 | a skill is hidden exactly when some explicit skill maps to it |
| Enrichment.HiddenSkillsSetOnly | ajips/app/services/enrichment.py:14-16 | the result depends only on the set of explicit skills, not on their order or repeats |
| Enrichment.UnmappedSkillIgnored | ajips/app/services/enrichment.py:15 | a skill missing from the map contributes nothing |
| Enrichment.HiddenSkillsEmpty | ajips/app/services/enrichment.py:12-16 | no explicit skills give no hidden skills |
| Enrichment.HiddenSkillsBound | ajips/app/services/enrichment.py:3-9 | hidden skills are drawn from the thirteen map values |
| Profiling.Matched | ajips/app/services/profiling.py:16 | an area's matched skills are at most as many as the explicit skills |
| Profiling.MatchedCounts | ajips/app/services/profiling.py:16 | an area's matched skills are the explicit skills in the area's keyword set, with their repeats |
| Profiling.BuildFocusAreas | ajips/app/services/profiling.py:13-22 | the loop over the area map, followed by the general fallback, yields the focus areas of the skills |
| Profiling.FocusAreasOrder | ajips/app/services/profiling.py:5-19 | areas appear in map order: backend, cloud, frontend, data |
| Profiling.FocusAreaPresence | ajips/app/services/profiling.py:15-19 | an area is listed exactly when some explicit skill is in its keyword set |
| Profiling.FocusAreaContents | ajips/app/services/profiling.py:16-19 | a listed area holds its matched skills and the weight round(matched / total, 2) |
| Profiling.FocusAreaWeights | ajips/app/services/profiling.py:18-21 | every weight is at most 1.0 |
| Profiling.FocusAreaSets | ajips/app/services/profiling.py:5-10 | the four keyword sets are pairwise disjoint and together are exactly the skill keywords |
| Profiling.FocusAreasGeneral | ajips/app/services/profiling.py:20-21 | "general" is listed exactly when no skill is a keyword, and then it is alone with weight 1.0 and all the skills |
| Profiling.FocusAreasNonEmpty | ajips/app/services/profiling.py:13-22 | there is always at least one focus area |
| Profiling.FocusAreasTotal | ajips/app/services/profiling.py:15-21 | the areas together hold no more skills than were given |
| Profiling.ExtractedSkillsAreas | ajips/app/services/profiling.py:20-21 | for extracted skills, "general" appears exactly when nothing was extracted |
| Critique.CritiqueRequirements | ajips/app/services/critique.py:6-29 | the appends, in order, yield the critiques of the text |
| Critique.CritiquesCount | ajips/app/services/critique.py:6-29 | there are always one or two critiques |
| Critique.ExperienceWarningIff | ajips/app/services/critique.py:8-14 | the warning is present exactly when the lower-cased text contains "years" and "entry" |
| Critique.CloudInfoIff | ajips/app/services/critique.py:15-21 | the cloud note is present exactly when "cloud" occurs and none of aws, azure and gcp does |
| Critique.FallbackIff | ajips/app/services/critique.py:22-28 | the fallback is present exactly when neither check fires, and then it is the only critique |
| Critique.BothInOrder | ajips/app/services/critique.py:8-21 | when both checks fire, the warning comes before the cloud note |
| Critique.NoCriticalCritiques | ajips/app/services/critique.py:11-25 | only the info and warning severities are produced |
| Critique.CritiquesCaseInsensitive | ajips/app/services/critique.py:8-15 | the checks see only the lower-cased text |
| Decimal.RoundHundredthsNearest | ajips/app/services/resume_match.py:9 | the result is the hundredth nearest to the ratio n/d; ties go to the even hundredth |
| Decimal.RoundHundredthsBounds | ajips/app/services/profiling.py:18 | a ratio of at most 1 rounds to at most 1.0; 0 rounds to 0.0 and 1 to 1.0 |
| ResumeMatch.CountPresent | ajips/app/services/resume_match.py:8 | the number of skills found among the tokens, with repeats: at most all of them, all of them exactly when every skill is found, and none exactly when none is |
| ResumeMatch.Share | ajips/app/services/resume_match.py:6-9 | 0.0 when there are no skills or no matches, at most 1.0, and 1.0 when all match |
| ResumeMatch.ShareNearest | ajips/app/services/resume_match.py:9 | with skills to count, the share is the hundredth nearest to matches / total |
| ResumeMatch.AlignmentNearest | ajips/app/services/resume_match.py:4-9 | with skills, the alignment is the hundredth nearest to the share of skills found among the resume's tokens |
| ResumeMatch.AlignmentBound | ajips/app/services/resume_match.py:4-9 | the alignment lies between 0.0 and 1.0 |
| ResumeMatch.AlignmentExtremes | ajips/app/services/resume_match.py:6-9 | every skill found gives 1.0; no skill found, or no skills at all, gives 0.0 |
| ResumeMatch.UppercaseSkillNeverMatches | ajips/app/services/resume_match.py:5-8 | the resume's tokens are lower-cased but the skills are not, so a skill with an upper-case letter never matches |
| ResumeMatch.UppercaseSkillsAlignment | ajips/app/services/resume_match.py:5-9 | skills that all contain an upper-case letter give 0.0 |
| EnhancedExtraction.DollarMatches | ajips/app/services/enhanced_extraction.py:28 | each `$[\d,]+` match is a non-empty run of digits and commas; there are none exactly when no `$` is followed by a digit or a comma |
| EnhancedExtraction.ParseAmount | ajips/app/services/enhanced_extraction.py:30 | `int` of a match with its commas removed, which fails exactly when the match is commas only |
| EnhancedExtraction.ParseAmounts | ajips/app/services/enhanced_extraction.py:30 | the list of amounts fails exactly when some match fails; otherwise each amount is its match's value |
| EnhancedExtraction.FirstPositiveK | ajips/app/services/enhanced_extraction.py:39-46 | the first k-match with a positive upper value, times 1000, or None when there is none |
| EnhancedExtraction.DollarPrecedence | ajips/app/services/enhanced_extraction.py:28-34 | when a dollar amount occurs, the dollar amounts alone decide the result |
| EnhancedExtraction.DollarRangeBounds | ajips/app/services/enhanced_extraction.py:30-34 | the dollar branch fails exactly when a match has no digit; otherwise min and max are amounts of the text that bound all the others |
| EnhancedExtraction.SingleAmount | ajips/app/services/enhanced_extraction.py:33-34 | one amount gives min equal to max |
| EnhancedExtraction.KPath | ajips/app/services/enhanced_extraction.py:36-46 | without a dollar amount, the first k-match with a positive upper value decides; the result is None exactly when there is none |
| EnhancedExtraction.NoDigitNoSalary | ajips/app/services/enhanced_extraction.py:15-46 | text with no digit and no `$` has no salary |
| EnhancedExtraction.CommaOnlyFails | ajips/app/services/enhanced_extraction.py:28-30 | "$," raises the conversion error |
| EnhancedExtraction.KNotReordered | ajips/app/services/enhanced_extraction.py:39-44 | "100k-50k" gives min 100000 and max 50000, unordered |
| EnhancedExtraction.CaptureAt | ajips/app/services/enhanced_extraction.py:67-69 | a match at a position captures a whole digit run there; the second group is non-empty exactly for a range pattern |
| EnhancedExtraction.Search | ajips/app/services/enhanced_extraction.py:67-69 | a position `re.search` reports lies in the text, and the pattern matches there with the reported groups |
| EnhancedExtraction.SearchLeftmost | ajips/app/services/enhanced_extraction.py:67-69 | no match starts before the reported position, and None means no position matches |
| EnhancedExtraction.SearchWholeRun | ajips/app/services/enhanced_extraction.py:67-69 | the leftmost match starts a maximal digit run, so "12 rounds" reads 12 |
| EnhancedExtraction.DetectInterviewStages | ajips/app/services/enhanced_extraction.py:49-73 | the loop appends every mentioned stage in table order, then the rounds note; the result is the stages of the text |
| EnhancedExtraction.StagesOrder | ajips/app/services/constants.py:57-62 | detected stages follow the table order: phone, technical, system_design, behavioral |
| EnhancedExtraction.StagePresence | ajips/app/services/enhanced_extraction.py:62-64 | a stage is reported exactly when one of its keywords occurs in the lower-cased text |
| EnhancedExtraction.RoundsNoteAppended | ajips/app/services/enhanced_extraction.py:67-71 | the detected stages come first, unchanged; "total_N_rounds" is appended, last, exactly when the first rounds mention gives N larger than the number of stages |
| EnhancedExtraction.RoundsNoteNotStage | ajips/app/services/enhanced_extraction.py:71 | the rounds note is never a stage name |
| EnhancedExtraction.StagesDistinct | ajips/app/services/enhanced_extraction.py:59-73 | no entry repeats, and there are at most five |
| EnhancedExtraction.NoStagesFound | ajips/app/services/enhanced_extraction.py:59-73 | no keyword and no rounds mention give an empty list |
| EnhancedExtraction.PhoneStageExample | ajips/app/services/enhanced_extraction.py:62-64 | "phone screen" is reported as the phone stage |
| EnhancedExtraction.FirstDurationSpec | ajips/app/services/enhanced_extraction.py:94-104 | the first pattern that matches decides; None exactly when none matches |
| EnhancedExtraction.DescribeUnits | ajips/app/services/enhanced_extraction.py:97-102 | the three description forms: "A-B weeks", "A-B months" and "A days" |
| EnhancedExtraction.DurationOrder | ajips/app/services/enhanced_extraction.py:88-104 | a week range wins over a month range, which wins over days; the captured digits appear verbatim; None exactly when nothing matches |
| JobProfile.RawText | ajips/core/pipelines/job_profile.py:14-18 | non-empty text is used as given; with no text and no URL the text is ""; it fails exactly when there is no text, there is a URL and the fetch fails |
| JobProfile.TextTakesPrecedence | ajips/core/pipelines/job_profile.py:14-16 | with non-empty text the URL is never used: the result is the same whatever the fetch does |
| JobProfile.FetchOutcomes | ajips/core/pipelines/job_profile.py:15-18 | a failed fetch fails the request with its error; an empty page is analysed as ""; a fetched text is analysed as given |
| JobProfile.EmptyProfile | ajips/core/pipelines/job_profile.py:20-40 | "" gives no skills, the general area alone, the consistent note and alignment 0.0 |
| JobProfile.ProfileShape | ajips/core/pipelines/job_profile.py:20-40 | the response has no title and the fixed summary; an alignment is present exactly when a resume is, and is at most 1.0; its skills, areas, hidden skills and critiques keep the stages' guarantees |
| JobProfile.NormalizedInput | ajips/core/pipelines/job_profile.py:20-24 | normalising the posting beforehand does not change the response: only the normalised text is analysed |
| Config.SplitComma | ajips/app/config.py:51 | `str.split(",")` gives at least one part, and no part contains a comma |
| Config.JoinSplit | ajips/app/config.py:51 | joining the parts with commas gives back the original string |
| Config.SplitJoin | ajips/app/config.py:51 | splitting comma-joined, comma-free parts gives back the parts |
| Config.CleanItemsMembers | ajips/app/config.py:50-52 | an item is kept exactly when some part strips to it and it is non-empty |
| Config.CommaListClean | ajips/app/config.py:50-52 | every list item is non-empty, has no surrounding whitespace and no comma |
| Config.CommaListRoundTrip | ajips/app/config.py:50-52 | a non-empty list of clean items, comma-joined, parses back to itself |
| Config.BlankCommaList | ajips/app/config.py:50-52 | a value of only commas and whitespace gives an empty list |
| Config.FromEnv | ajips/app/config.py:43-69 | the field-by-field overrides give the settings of the environment |
| Config.UnsetGivesDefaults | ajips/app/config.py:8-41 | with none of the five variables set, every field keeps its default |
| Config.OtherVariablesIgnored | ajips/app/config.py:10-21 | only the five variables matter; the API and the fixed CORS fields keep their defaults |
| Config.LogCase | ajips/app/config.py:54-59 | the log level is LOG_LEVEL upper-cased when that is set and non-empty, else "INFO"; the log format is LOG_FORMAT lower-cased likewise, else "json"; each depends on its own variable alone; the level has no lower-case letter and the format no upper-case letter |
| Config.TimeoutAccepted | ajips/app/config.py:61-63 | the timeout takes the variable's value exactly when it is a non-empty digit string, and otherwise keeps 10 |
| Config.TimeoutRoundTrip | ajips/app/config.py:61-63 | setting the variable to the decimal form of N gives timeout N |
| Config.ListsRoundTrip | ajips/app/config.py:47-52 | setting the origins or the netlocs variable to a comma-joined list of clean items gives that list |
| Config.LogAndTimeoutExample | ajips/app/config.py:54-63 | "debug", "text" and "15" give level "DEBUG", format "text" and timeout 15, with everything else unchanged |

## Left out

- Character classes are ASCII only. Python's `\s`, `str.split()`, `str.isdigit()`, `\d`, `lower()` and `upper()` also act on non-ASCII characters; the model treats all of those as ordinary characters. In particular `re.IGNORECASE` in the heading pattern also folds a few non-ASCII letters onto ASCII ones (the long s onto `s`, the Kelvin sign onto `k`); the model does not.
- Normalization.SplitSections: returns a `map`, so the insertion order of the source's dict ("body" first, then the headings in table order) is not modelled; only the keys and their values are.
- Decimal.RoundHundredths: rounds the exact ratio half to even. Python rounds the nearest binary double. The two can differ only for exact halfway ratios whose reduced denominator is 40 or more. Weights and alignments are hundredths (`nat`), not floats.
- The optional "per year" and "annum" suffixes of the k-salary pattern are not modelled. They consume no digits, so they change neither where a match starts nor its groups, and so they cannot change the result.
- The optional plural `s` of the rounds and duration patterns is not modelled, for the same reason.
- `fetch_job_posting` is an oracle parameter: a function from URL to fetched text or failure. Its internals are not modelled: HTTP, HTML extraction, URL and network-location validation, its cache and its timeout. `ingestion.py` is not part of this model.
- Environment variables are a `map` from name to value, in place of `os.getenv`.
- `Settings` is a value record built by the method `FromEnv`, where the source uses a mutable class instance. The global instance built at import time is not modelled.
- Python's `ValueError` from `int("")` is `Err` in a `Result`.
- Pydantic validation, the HTTP routes, the application entry point and logging setup are not modelled.
- Severity values are a closed datatype, reflecting the schema's pattern constraint, not run-time validation.
- The constants `SALARY_PATTERN`, `SALARY_K_PATTERN` and `YEARS_PATTERN` are not modelled. The modelled functions never use them: the salary code imports two of them but uses inline patterns.
- EnhancedExtraction.DetectInterviewStages: the source runs the rounds search twice. The model runs it once, because both calls give the same match.
- EnhancedExtraction.DurationOrder: states the dispatch for every text, but no concrete mixed-unit example such as "3 days, 1-2 weeks" is proved.
- The salary extractor, as the code is written:
  - The `$` amounts are tried first, and when there is one they alone decide (`DollarPrecedence`).
  - A k-range is not reordered, so "100k-50k" gives min 100000 and max 50000 (`KNotReordered`).
  - A `$` match with no digit, such as "$,", raises the `int("")` error (`CommaOnlyFails`). This contradicts the docstring's "None if not found" (ajips/app/services/enhanced_extraction.py:23), which the model does not follow.
