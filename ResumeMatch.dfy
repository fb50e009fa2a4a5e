/** Resume alignment: the share of explicit skills that occur among the resume's tokens. */
module ResumeMatch {
  import opened Text
  import opened Decimal
  import opened Extraction

  /** `{token.strip(".,;:()[]{}") for token in resume_text.lower().split()}`. */
  function ResumeTokens(resume: string): set<string> {
    set t | t in Tokens(resume)
  }

  /** `sum(1 for skill in skills if skill in tokens)`: skills are counted with repeats. */
  function CountPresent(skills: seq<string>, tokens: set<string>): (n: nat)
    ensures n <= |skills|
    ensures n == |skills| <==> forall s :: s in skills ==> s in tokens
    ensures n == 0 <==> forall s :: s in skills ==> s !in tokens
  {
    if skills == [] then 0
    else
      assert skills == [skills[0]] + skills[1..];
      (if skills[0] in tokens then 1 else 0) + CountPresent(skills[1..], tokens)
  }

  /** `round(matches / total, 2)` in hundredths, or 0 when there is nothing to count. */
  function Share(matches: nat, total: nat): (r: nat)
    ensures total == 0 ==> r == 0
    ensures matches <= total ==> r <= 100
    ensures total > 0 && matches == total ==> r == 100
    ensures matches == 0 ==> r == 0
  {
    if total == 0 then 0 else RoundHundredthsBounds(matches, total); RoundHundredths(matches, total)
  }

  /** `compute_resume_alignment`, in hundredths: no skills gives 0, otherwise the hundredth
      nearest to the share of skills found among the resume's tokens. */
  function ResumeAlignment(resume: string, skills: seq<string>): nat {
    Share(CountPresent(skills, ResumeTokens(resume)), |skills|)
  }

  /** With something to count, the share is the hundredth nearest to `matches / total`. */
  lemma ShareNearest(matches: nat, total: nat)
    requires total > 0
    ensures NearestHundredth(Share(matches, total), matches, total)
  {
    RoundHundredthsNearest(matches, total);
  }

  /** With skills to count, the alignment is the hundredth nearest to the share of skills
      found. */
  lemma AlignmentNearest(resume: string, skills: seq<string>)
    requires skills != []
    ensures NearestHundredth(ResumeAlignment(resume, skills), CountPresent(skills, ResumeTokens(resume)), |skills|)
  {
    ShareNearest(CountPresent(skills, ResumeTokens(resume)), |skills|);
  }

  /** The alignment lies between 0.0 and 1.0. */
  lemma AlignmentBound(resume: string, skills: seq<string>)
    ensures ResumeAlignment(resume, skills) <= 100
  {
  }

  /** Every skill present gives 1.0; none present gives 0.0. */
  lemma AlignmentExtremes(resume: string, skills: seq<string>)
    ensures skills != [] && (forall s :: s in skills ==> s in ResumeTokens(resume)) ==>
      ResumeAlignment(resume, skills) == 100
    ensures (forall s :: s in skills ==> s !in ResumeTokens(resume)) ==> ResumeAlignment(resume, skills) == 0
  {
  }

  /** A repeated skill is counted once per occurrence. */
  lemma CountPresentAppend(skills: seq<string>, s: string, tokens: set<string>)
    ensures CountPresent(skills + [s], tokens) == CountPresent(skills, tokens) + (if s in tokens then 1 else 0)
    decreases |skills|
  {
    if skills != [] {
      assert (skills + [s])[1..] == skills[1..] + [s];
      CountPresentAppend(skills[1..], s, tokens);
    } else {
      assert skills + [s] == [s];
    }
  }

  /** Every character of every word of `s` is a character of `s`. */
  lemma {:induction false} WordsChars(s: string)
    ensures forall k, j :: 0 <= k < |Words(s)| && 0 <= j < |Words(s)[k]| ==> Words(s)[k][j] in s
    decreases |s|
  {
    if s != [] {
      if IsSpace(s[0]) {
        WordsChars(s[1..]);
        forall c | c in s[1..] ensures c in s { }
      } else {
        var w := TakeWord(s);
        WordsChars(s[|w|..]);
        assert Words(s) == [w] + Words(s[|w|..]);
        forall k, j | 0 <= k < |Words(s)| && 0 <= j < |Words(s)[k]| ensures Words(s)[k][j] in s {
          if k == 0 {
            assert Words(s)[k][j] == s[j];
          } else {
            assert Words(s)[k] == Words(s[|w|..])[k - 1];
            var c := Words(s)[k][j];
            assert c in s[|w|..];
            var m :| 0 <= m < |s[|w|..]| && s[|w|..][m] == c;
            assert s[|w| + m] == c;
          }
        }
      }
    }
  }

  /** One token, the `k`-th word of the lower-cased text stripped, has no upper-case letter. */
  lemma TokenNoUpper(text: string, k: nat)
    requires k < |Words(Lower(text))|
    ensures NoUpper(Strip(Words(Lower(text))[k], TokenStripChars))
  {
    var l := Lower(text);
    WordsChars(l);
    assert NoUpper(l);
    StrippedNoUpper(l, Words(l)[k], TokenStripChars);
  }

  /** A word drawn from a text without upper-case letters keeps none once stripped. */
  lemma StrippedNoUpper(l: string, w: string, chars: set<char>)
    requires NoUpper(l)
    requires forall j :: 0 <= j < |w| ==> w[j] in l
    ensures NoUpper(Strip(w, chars))
  {
    var t := Strip(w, chars);
    var off := StripOffset(w, chars);
    forall j | 0 <= j < |t| ensures !IsUpper(t[j]) {
      assert t[j] == w[off + j];
      var m :| 0 <= m < |l| && l[m] == t[j];
    }
  }

  /** Tokens are drawn from the lower-cased text, so they hold no upper-case letter. */
  lemma TokensNoUpper(text: string)
    ensures forall t :: t in Tokens(text) ==> NoUpper(t)
  {
    var ts := Tokens(text);
    forall t | t in ts ensures NoUpper(t) {
      var k :| 0 <= k < |ts| && ts[k] == t;
      TokenNoUpper(text, k);
    }
  }

  /** Skills are not lower-cased: a skill with an upper-case letter never matches. */
  lemma UppercaseSkillNeverMatches(resume: string, skill: string)
    requires !NoUpper(skill)
    ensures skill !in ResumeTokens(resume)
  {
    TokensNoUpper(resume);
  }

  /** In particular, skills that all carry an upper-case letter give 0.0. */
  lemma UppercaseSkillsAlignment(resume: string, skills: seq<string>)
    requires forall s :: s in skills ==> !NoUpper(s)
    ensures ResumeAlignment(resume, skills) == 0
  {
    forall s | s in skills ensures s !in ResumeTokens(resume) {
      UppercaseSkillNeverMatches(resume, s);
    }
  }
}
