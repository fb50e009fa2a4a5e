/** Requirement critiques: two substring checks on the lower-cased text and a fallback. */
module Critique {
  import opened Text
  import opened Schemas

  const ExperienceWarning: string := "Entry-level role mentions years of experience; clarify the expectation."
  const CloudInfo: string := "Cloud requirement is unspecified; clarify preferred provider."
  const ConsistentInfo: string := "Requirements appear consistent; consider adding role-specific detail."

  /** `"years" in text.lower() and "entry" in text.lower()`. */
  predicate EntryWithYears(text: string) {
    Contains(Lower(text), "years") && Contains(Lower(text), "entry")
  }

  /** `"cloud" in text.lower()` and none of "aws", "azure", "gcp" in it. */
  predicate CloudWithoutProvider(text: string) {
    var l := Lower(text);
    Contains(l, "cloud") && !(Contains(l, "aws") || Contains(l, "azure") || Contains(l, "gcp"))
  }

  /** The checks that fire, in the order they are made. */
  function Findings(text: string): seq<CritiqueItem> {
    (if EntryWithYears(text) then [CritiqueItem(Warning, ExperienceWarning)] else []) +
    (if CloudWithoutProvider(text) then [CritiqueItem(Info, CloudInfo)] else [])
  }

  /** `critique_requirements`, as a value. */
  function Critiques(text: string): seq<CritiqueItem> {
    var found := Findings(text);
    if found == [] then [CritiqueItem(Info, ConsistentInfo)] else found
  }

  /** `critique_requirements`: append each item whose check fires, then the fallback when
      nothing was appended. */
  method CritiqueRequirements(text: string) returns (critiques: seq<CritiqueItem>)
    ensures critiques == Critiques(text)
  {
    critiques := [];
    var lowered := Lower(text);
    if Contains(lowered, "years") && Contains(lowered, "entry") {
      critiques := critiques + [CritiqueItem(Warning, ExperienceWarning)];
    }
    if Contains(lowered, "cloud") &&
      !(Contains(lowered, "aws") || Contains(lowered, "azure") || Contains(lowered, "gcp"))
    {
      critiques := critiques + [CritiqueItem(Info, CloudInfo)];
    }
    if critiques == [] {
      critiques := critiques + [CritiqueItem(Info, ConsistentInfo)];
    }
  }

  lemma MessagesDistinct()
    ensures ExperienceWarning != CloudInfo && ExperienceWarning != ConsistentInfo && CloudInfo != ConsistentInfo
  {
    assert |ExperienceWarning| == 71 && |CloudInfo| == 61 && |ConsistentInfo| == 69;
  }

  /** There are always one or two critiques. */
  lemma CritiquesCount(text: string)
    ensures 1 <= |Critiques(text)| <= 2
  {
  }

  /** The warning is given exactly when the text mentions both "years" and "entry". */
  lemma ExperienceWarningIff(text: string)
    ensures CritiqueItem(Warning, ExperienceWarning) in Critiques(text) <==> EntryWithYears(text)
  {
    MessagesDistinct();
  }

  /** The cloud note is given exactly when "cloud" occurs and no provider does. */
  lemma CloudInfoIff(text: string)
    ensures CritiqueItem(Info, CloudInfo) in Critiques(text) <==> CloudWithoutProvider(text)
  {
    MessagesDistinct();
  }

  /** The fallback is given exactly when neither check fires, and then it is alone. */
  lemma FallbackIff(text: string)
    ensures CritiqueItem(Info, ConsistentInfo) in Critiques(text) <==>
      !EntryWithYears(text) && !CloudWithoutProvider(text)
    ensures CritiqueItem(Info, ConsistentInfo) in Critiques(text) ==>
      Critiques(text) == [CritiqueItem(Info, ConsistentInfo)]
  {
    MessagesDistinct();
  }

  /** When both checks fire, the warning comes first. */
  lemma BothInOrder(text: string)
    requires EntryWithYears(text) && CloudWithoutProvider(text)
    ensures Critiques(text) == [CritiqueItem(Warning, ExperienceWarning), CritiqueItem(Info, CloudInfo)]
  {
  }

  /** Only the info and warning severities are produced. */
  lemma NoCriticalCritiques(text: string)
    ensures forall c :: c in Critiques(text) ==> c.severity == Info || c.severity == Warning
  {
  }

  /** The checks see only the lower-cased text. */
  lemma CritiquesCaseInsensitive(text: string)
    ensures Critiques(Lower(text)) == Critiques(text)
  {
    LowerIdempotent(text);
  }
}
