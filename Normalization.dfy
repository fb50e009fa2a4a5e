/** Whitespace normalisation and section splitting of job-posting text. */
module Normalization {
  import opened Wrappers
  import opened Text

  /** `re.sub(r"\s+", " ", s)`: every maximal whitespace run becomes one space. */
  function CollapseSpace(s: string): string
    decreases |s|
  {
    if s == [] then []
    else if IsSpace(s[0]) then " " + CollapseSpace(StripLeft(s[1..], Whitespace))
    else [s[0]] + CollapseSpace(s[1..])
  }

  /** `normalize_text`: collapse whitespace runs, then strip both ends. */
  function NormalizeText(s: string): string {
    Strip(CollapseSpace(s), Whitespace)
  }

  /** Whitespace occurs only as single ' ' characters. */
  ghost predicate SingleSpaced(r: string) {
    && (forall i :: 0 <= i < |r| && IsSpace(r[i]) ==> r[i] == ' ')
    && (forall i :: 0 <= i < |r| - 1 ==> !(IsSpace(r[i]) && IsSpace(r[i + 1])))
  }

  /** No whitespace at either end. */
  ghost predicate Trimmed(r: string) {
    r != [] ==> !IsSpace(r[0]) && !IsSpace(r[|r| - 1])
  }

  /** The characters of `s` that are not whitespace, in order. */
  function RemoveSpaces(s: string): string {
    if s == [] then [] else (if IsSpace(s[0]) then [] else [s[0]]) + RemoveSpaces(s[1..])
  }

  /** A space before a single-spaced text that does not start with whitespace keeps it
      single-spaced. */
  lemma SpaceConsSingleSpaced(t: string)
    requires SingleSpaced(t) && (t != [] ==> !IsSpace(t[0]))
    ensures SingleSpaced(" " + t)
  {
    var r := " " + t;
    assert forall i :: 1 <= i < |r| ==> r[i] == t[i - 1];
  }

  /** So does a character that is not whitespace. */
  lemma CharConsSingleSpaced(c: char, t: string)
    requires !IsSpace(c) && SingleSpaced(t)
    ensures SingleSpaced([c] + t)
  {
    var r := [c] + t;
    assert forall i :: 1 <= i < |r| ==> r[i] == t[i - 1];
  }

  lemma {:induction false} CollapseSingleSpaced(s: string)
    ensures SingleSpaced(CollapseSpace(s))
    ensures |CollapseSpace(s)| == 0 <==> |s| == 0
    ensures CollapseSpace(s) != [] ==> (IsSpace(CollapseSpace(s)[0]) <==> IsSpace(s[0]))
    decreases |s|
  {
    if s != [] {
      if IsSpace(s[0]) {
        var t := StripLeft(s[1..], Whitespace);
        CollapseSingleSpaced(t);
        assert CollapseSpace(s) == " " + CollapseSpace(t);
        SpaceConsSingleSpaced(CollapseSpace(t));
      } else {
        CollapseSingleSpaced(s[1..]);
        assert CollapseSpace(s) == [s[0]] + CollapseSpace(s[1..]);
        CharConsSingleSpaced(s[0], CollapseSpace(s[1..]));
      }
    }
  }

  /** The output of `normalize_text` has no whitespace other than single spaces between
      non-whitespace characters, and none at either end. */
  lemma NormalizeShape(s: string)
    ensures SingleSpaced(NormalizeText(s))
    ensures Trimmed(NormalizeText(s))
  {
    var c := CollapseSpace(s);
    CollapseSingleSpaced(s);
    StripSingleSpaced(c);
  }

  /** Stripping a single-spaced text leaves it single-spaced, and trimmed. */
  lemma StripSingleSpaced(c: string)
    requires SingleSpaced(c)
    ensures SingleSpaced(Strip(c, Whitespace)) && Trimmed(Strip(c, Whitespace))
  {
    var r := Strip(c, Whitespace);
    var a := StripOffset(c, Whitespace);
    SliceSingleSpaced(c, a, a + |r|, r);
    StripTrimmed(c);
  }

  lemma StripTrimmed(c: string)
    ensures Trimmed(Strip(c, Whitespace))
  {
    var r := Strip(c, Whitespace);
    assert r != [] ==> r[0] !in Whitespace && r[|r| - 1] !in Whitespace;
  }

  lemma SliceSingleSpaced(c: string, a: nat, b: nat, r: string)
    requires a <= b <= |c| && SingleSpaced(c) && r == c[a..b]
    ensures SingleSpaced(r)
  {
    assert forall i :: 0 <= i < |r| ==> r[i] == c[a + i];
  }

  lemma {:induction false} RemoveSpacesConcat(a: string, b: string)
    ensures RemoveSpaces(a + b) == RemoveSpaces(a) + RemoveSpaces(b)
  {
    if a == [] {
      assert a + b == b;
    } else {
      assert (a + b)[0] == a[0];
      assert (a + b)[1..] == a[1..] + b;
      RemoveSpacesConcat(a[1..], b);
    }
  }

  lemma {:induction false} RemoveSpacesBlank(s: string)
    requires forall i :: 0 <= i < |s| ==> IsSpace(s[i])
    ensures RemoveSpaces(s) == []
  {
    if s != [] {
      RemoveSpacesBlank(s[1..]);
    }
  }

  lemma RemoveSpacesStripLeft(s: string)
    ensures RemoveSpaces(StripLeft(s, Whitespace)) == RemoveSpaces(s)
  {
    var r := StripLeft(s, Whitespace);
    var k := |s| - |r|;
    assert s == s[..k] + r;
    RemoveSpacesConcat(s[..k], r);
    RemoveSpacesBlank(s[..k]);
  }

  lemma RemoveSpacesStripRight(s: string)
    ensures RemoveSpaces(StripRight(s, Whitespace)) == RemoveSpaces(s)
  {
    var r := StripRight(s, Whitespace);
    assert s == r + s[|r|..];
    RemoveSpacesConcat(r, s[|r|..]);
    RemoveSpacesBlank(s[|r|..]);
  }

  lemma {:induction false} RemoveSpacesCollapse(s: string)
    ensures RemoveSpaces(CollapseSpace(s)) == RemoveSpaces(s)
    decreases |s|
  {
    if s != [] {
      if IsSpace(s[0]) {
        var t := StripLeft(s[1..], Whitespace);
        RemoveSpacesCollapse(t);
        RemoveSpacesStripLeft(s[1..]);
        RemoveSpacesConcat(" ", CollapseSpace(t));
      } else {
        RemoveSpacesCollapse(s[1..]);
        RemoveSpacesConcat([s[0]], CollapseSpace(s[1..]));
      }
    }
  }

  /** Normalisation keeps every non-whitespace character, in order, and adds none. */
  lemma NormalizePreservesText(s: string)
    ensures RemoveSpaces(NormalizeText(s)) == RemoveSpaces(s)
  {
    var c := CollapseSpace(s);
    RemoveSpacesCollapse(s);
    RemoveSpacesStripLeft(c);
    RemoveSpacesStripRight(StripLeft(c, Whitespace));
  }

  lemma {:induction false} CollapseFixpoint(s: string)
    requires SingleSpaced(s)
    ensures CollapseSpace(s) == s
    decreases |s|
  {
    if s != [] {
      var t := s[1..];
      assert SingleSpaced(t) by {
        assert forall i :: 0 <= i < |t| ==> t[i] == s[i + 1];
      }
      CollapseFixpoint(t);
      assert s == [s[0]] + t;
      if IsSpace(s[0]) {
        assert s[0] == ' ';
        if t != [] {
          assert t[0] == s[1];
          assert !IsSpace(t[0]);
        }
        assert StripLeft(t, Whitespace) == t;
        assert CollapseSpace(s) == " " + CollapseSpace(t);
      } else {
        assert CollapseSpace(s) == [s[0]] + CollapseSpace(t);
      }
    }
  }

  /** `normalize_text` is idempotent. */
  lemma NormalizeIdempotent(s: string)
    ensures NormalizeText(NormalizeText(s)) == NormalizeText(s)
  {
    var r := NormalizeText(s);
    NormalizeShape(s);
    CollapseFixpoint(r);
    assert StripLeft(r, Whitespace) == r;
    assert StripRight(r, Whitespace) == r;
  }

  /** Empty or all-whitespace input normalises to "". */
  lemma NormalizeBlank(s: string)
    requires forall i :: 0 <= i < |s| ==> IsSpace(s[i])
    ensures NormalizeText(s) == ""
  {
    var r := NormalizeText(s);
    NormalizePreservesText(s);
    RemoveSpacesBlank(s);
    NormalizeShape(s);
  }

  /** The headings `split_sections` looks for, in the order it tries them. */
  const SectionHeadings: seq<string> := ["Responsibilities", "Qualifications", "Requirements"]

  /** The pattern `heading\s*[:\-]` (case-insensitive) matches `text[i..j + 1]`:
      the heading in any ASCII case at `i`, whitespace up to `j`, and ':' or '-' at `j`. */
  ghost predicate HeadingAt(text: string, heading: string, i: int, j: int) {
    && 0 <= i && i + |heading| <= j < |text|
    && Lower(text[i..i + |heading|]) == Lower(heading)
    && (forall k :: i + |heading| <= k < j ==> IsSpace(text[k]))
    && (text[j] == ':' || text[j] == '-')
  }

  /** The end of a match of the heading pattern that starts at `i`, if there is one. */
  function HeadingMatchAt(text: string, heading: string, i: nat): (e: Option<nat>)
    ensures e.Some? ==> HeadingAt(text, heading, i, e.value - 1)
    ensures forall j :: HeadingAt(text, heading, i, j) ==> e == Some(j + 1)
  {
    if i + |heading| <= |text| && Lower(text[i..i + |heading|]) == Lower(heading) then
      var j := SkipSpaces(text, i + |heading|);
      if j < |text| && (text[j] == ':' || text[j] == '-') then Some(j + 1) else None
    else None
  }

  /** `re.search(heading\s*[:\-], text, re.IGNORECASE)` from position `i`: the leftmost
      match as (start, end). */
  function FindHeading(text: string, heading: string, i: nat): (r: Option<(nat, nat)>)
    requires i <= |text|
    ensures r.Some? ==> i <= r.value.0 && HeadingAt(text, heading, r.value.0, r.value.1 - 1)
    ensures forall k, j :: i <= k && HeadingAt(text, heading, k, j) ==> r.Some? && r.value.0 <= k
    decreases |text| - i
  {
    if i + |heading| >= |text| then None
    else match HeadingMatchAt(text, heading, i)
      case Some(e) => Some((i, e))
      case None => FindHeading(text, heading, i + 1)
  }

  /** The keys `split_sections` stores found headings under. */
  const SectionKeys: seq<string> := ["responsibilities", "qualifications", "requirements"]

  /** Each key is `heading.lower()`. */
  lemma SectionKeyNames()
    ensures |SectionKeys| == |SectionHeadings|
    ensures forall k :: 0 <= k < |SectionKeys| ==> SectionKeys[k] == Lower(SectionHeadings[k])
  {
    assert Lower(SectionHeadings[0]) == SectionKeys[0];
    assert Lower(SectionHeadings[1]) == SectionKeys[1];
    assert Lower(SectionHeadings[2]) == SectionKeys[2];
  }

  lemma SectionKeysDistinct()
    ensures forall k, m :: 0 <= k < m < |SectionKeys| ==> SectionKeys[k] != SectionKeys[m]
    ensures forall k :: 0 <= k < |SectionKeys| ==> SectionKeys[k] != "body"
  {
    assert |SectionKeys[0]| == 16 && |SectionKeys[1]| == 14 && |SectionKeys[2]| == 12;
  }

  /** The value `split_sections` stores for `heading`: the text after the first match,
      stripped; None when the heading does not occur. */
  function SectionValue(text: string, heading: string): Option<string> {
    match FindHeading(text, heading, 0)
    case Some(m) => Some(Strip(text[m.1..], Whitespace))
    case None => None
  }

  /** `key` is present exactly when a value is expected, and then maps to that value. */
  predicate StoredAs(sections: map<string, string>, key: string, expected: Option<string>) {
    && (key in sections <==> expected.Some?)
    && (key in sections ==> expected == Some(sections[key]))
  }

  /** The key of heading `k` is present exactly when the heading occurs, and then maps to
      its section value. */
  ghost predicate Recorded(text: string, sections: map<string, string>, k: nat)
    requires k < |SectionHeadings|
  {
    StoredAs(sections, SectionKeys[k], SectionValue(text, SectionHeadings[k]))
  }

  /** Every key is "body" or the key of a heading. */
  ghost predicate KeysAllowed(sections: map<string, string>) {
    forall key :: key in sections ==> key == "body" || key in SectionKeys
  }

  /** What the loop of `split_sections` has built after the first `n` headings: "body" is
      the text, the first `n` headings are recorded and the others' keys are absent. */
  ghost predicate SectionsUpTo(text: string, sections: map<string, string>, n: nat)
    requires n <= |SectionHeadings|
  {
    && "body" in sections && sections["body"] == text
    && KeysAllowed(sections)
    && (forall k :: n <= k < |SectionHeadings| ==> SectionKeys[k] !in sections)
    && (forall k :: 0 <= k < n ==> Recorded(text, sections, k))
  }

  /** `split_sections`: "body" holds the whole text; each heading found (case-insensitive,
      followed by optional whitespace and ':' or '-') adds its lower-cased name mapped to the
      stripped text after the first match. */
  method SplitSections(text: string) returns (sections: map<string, string>)
    ensures "body" in sections && sections["body"] == text
    ensures forall key :: key in sections ==> key == "body" || key in SectionKeys
    ensures forall k :: 0 <= k < |SectionHeadings| ==> Recorded(text, sections, k)
  {
    sections := map["body" := text];
    SectionsStart(text);
    for n := 0 to |SectionHeadings|
      invariant SectionsUpTo(text, sections, n)
    {
      var heading := SectionHeadings[n];
      var key := SectionKeys[n];
      var found := SectionValue(text, heading);
      if found.Some? {
        SectionsStore(text, sections, n, found.value);
        sections := sections[key := found.value];
      } else {
        SectionsSkip(text, sections, n);
      }
    }
  }

  lemma SectionsStart(text: string)
    ensures SectionsUpTo(text, map["body" := text], 0)
  {
    SectionKeysDistinct();
  }

  /** A heading that does not occur adds nothing. */
  lemma SectionsSkip(text: string, sections: map<string, string>, n: nat)
    requires n < |SectionHeadings| && SectionsUpTo(text, sections, n)
    requires SectionValue(text, SectionHeadings[n]).None?
    ensures SectionsUpTo(text, sections, n + 1)
  {
    assert Recorded(text, sections, n);
  }

  /** A heading that occurs stores its value under its key. */
  lemma SectionsStore(text: string, sections: map<string, string>, n: nat, value: string)
    requires n < |SectionHeadings| && SectionsUpTo(text, sections, n)
    requires SectionValue(text, SectionHeadings[n]) == Some(value)
    ensures SectionsUpTo(text, sections[SectionKeys[n] := value], n + 1)
  {
    var updated := sections[SectionKeys[n] := value];
    SectionKeysDistinct();
    RecordedKept(text, sections, n, value, updated);
    assert Recorded(text, updated, n);
    forall k | n + 1 <= k < |SectionHeadings| ensures SectionKeys[k] !in updated {
      assert SectionKeys[k] != SectionKeys[n];
    }
    assert KeysAllowed(updated);
  }

  /** Storing heading `n`'s key leaves the other headings' records as they were. */
  lemma RecordedKept(text: string, sections: map<string, string>, n: nat, value: string, updated: map<string, string>)
    requires n < |SectionHeadings| && updated == sections[SectionKeys[n] := value]
    requires forall k :: 0 <= k < n ==> Recorded(text, sections, k)
    ensures forall k :: 0 <= k < n ==> Recorded(text, updated, k)
  {
    SectionKeysDistinct();
    forall k | 0 <= k < n ensures Recorded(text, updated, k) {
      assert SectionKeys[k] != SectionKeys[n] && Recorded(text, sections, k);
      StoredAsKept(sections, SectionKeys[k], SectionValue(text, SectionHeadings[k]), SectionKeys[n], value);
    }
  }

  /** Storing under another key keeps what is stored under `key`. */
  lemma StoredAsKept(sections: map<string, string>, key: string, expected: Option<string>, other: string, value: string)
    requires StoredAs(sections, key, expected) && key != other
    ensures StoredAs(sections[other := value], key, expected)
  {
  }
}
