/** Explicit-skill extraction: tokenise, keep skill keywords, rank by frequency. */
module Extraction {
  import opened Text

  /** The fifteen skill keywords the extractor recognises. */
  const SkillKeywords: set<string> := {
    "python", "java", "javascript", "sql", "postgresql", "mysql", "aws", "gcp", "azure",
    "kubernetes", "docker", "react", "fastapi", "spark", "airflow"
  }

  /** The characters stripped from both ends of every token. */
  const TokenStripChars: set<char> := {'.', ',', ';', ':', '(', ')', '[', ']', '{', '}'}

  /** `[token.strip(".,;:()[]{}") for token in text.lower().split()]`. */
  function Tokens(text: string): (ts: seq<string>)
  {
    var ws := Words(Lower(text));
    seq(|ws|, i requires 0 <= i < |ws| => Strip(ws[i], TokenStripChars))
  }

  /** The tokens the `Counter` is fed: those that are keywords, in text order. */
  function KeywordTokens(ts: seq<string>, keys: set<string>): (m: seq<string>)
    ensures forall x :: x in m <==> x in ts && x in keys
    ensures forall x :: x in keys ==> multiset(m)[x] == multiset(ts)[x]
  {
    if ts == [] then []
    else
      assert ts == [ts[0]] + ts[1..];
      (if ts[0] in keys then [ts[0]] else []) + KeywordTokens(ts[1..], keys)
  }

  /** Index of the first occurrence of `x` in `s`, or |s| when there is none. */
  function IndexOf(s: seq<string>, x: string): (r: nat)
    ensures r <= |s|
    ensures r < |s| <==> x in s
    ensures r < |s| ==> s[r] == x
    ensures forall k :: 0 <= k < r ==> s[k] != x
  {
    if s == [] then 0 else if s[0] == x then 0 else 1 + IndexOf(s[1..], x)
  }

  lemma {:induction false} IndexOfAppend(p: seq<string>, x: string, y: string)
    ensures y in p ==> IndexOf(p + [x], y) == IndexOf(p, y)
    ensures y !in p && y == x ==> IndexOf(p + [x], y) == |p|
  {
    if p != [] {
      assert (p + [x])[1..] == p[1..] + [x];
      IndexOfAppend(p[1..], x, y);
    }
  }

  /** The keys of `Counter(m)` in insertion order: each distinct element at its first occurrence. */
  function FirstSeen(m: seq<string>): (d: seq<string>)
    ensures NoDuplicates(d)
    ensures forall x :: x in d <==> x in m
    ensures forall i, j :: 0 <= i < j < |d| ==> IndexOf(m, d[i]) < IndexOf(m, d[j])
  {
    if m == [] then []
    else
      var p := m[..|m| - 1];
      var x := m[|m| - 1];
      assert m == p + [x];
      var d := FirstSeen(p);
      IndexOfAppendAll(p, x);
      if x in d then d else d + [x]
  }

  lemma IndexOfAppendAll(p: seq<string>, x: string)
    ensures forall y :: y in p ==> IndexOf(p + [x], y) == IndexOf(p, y)
    ensures x !in p ==> IndexOf(p + [x], x) == |p|
  {
    forall y | y in p {
      IndexOfAppend(p, x, y);
    }
    IndexOfAppend(p, x, x);
  }

  /** `Counter(m)[x]`. */
  function Count(m: seq<string>, x: string): nat {
    multiset(m)[x]
  }

  /** `a` precedes `b` in `most_common()`: a higher count, or an equal count and an
      earlier first occurrence. */
  predicate RanksBefore(m: seq<string>, a: string, b: string) {
    Count(m, a) > Count(m, b) || (Count(m, a) == Count(m, b) && IndexOf(m, a) < IndexOf(m, b))
  }

  ghost predicate Ranked(m: seq<string>, r: seq<string>) {
    forall i, j :: 0 <= i < j < |r| ==> RanksBefore(m, r[i], r[j])
  }

  /** One step of the stable sort by descending count: `x` goes after every element
      whose count is strictly greater. */
  function InsertByCount(m: seq<string>, x: string, r: seq<string>): (r': seq<string>)
    ensures multiset(r') == multiset(r) + multiset{x}
  {
    if r == [] || Count(m, x) >= Count(m, r[0]) then [x] + r
    else
      assert r == [r[0]] + r[1..];
      [r[0]] + InsertByCount(m, x, r[1..])
  }

  /** `most_common()`: `sorted(items, key=count, reverse=True)` over the keys in insertion
      order `d`; Python's sort is stable, so equal counts keep the order of `d`. */
  function MostCommon(m: seq<string>, d: seq<string>): (r: seq<string>)
    ensures multiset(r) == multiset(d)
  {
    if d == [] then []
    else
      assert d == [d[0]] + d[1..];
      InsertByCount(m, d[0], MostCommon(m, d[1..]))
  }

  /** `extract_skills`. */
  function ExtractSkills(text: string): seq<string> {
    var m := KeywordTokens(Tokens(text), SkillKeywords);
    MostCommon(m, FirstSeen(m))
  }

  lemma {:induction false} InsertRanked(m: seq<string>, x: string, r: seq<string>)
    requires Ranked(m, r)
    requires forall y :: y in r ==> IndexOf(m, x) < IndexOf(m, y)
    ensures Ranked(m, InsertByCount(m, x, r))
  {
    var r' := InsertByCount(m, x, r);
    if r == [] || Count(m, x) >= Count(m, r[0]) {
      forall j | 0 < j < |r'| ensures RanksBefore(m, x, r'[j]) {
        assert r'[j] == r[j - 1];
        if j > 1 { assert RanksBefore(m, r[0], r[j - 1]); }
      }
    } else {
      InsertRanked(m, x, r[1..]);
      var t := InsertByCount(m, x, r[1..]);
      assert r' == [r[0]] + t;
      forall j | 0 <= j < |t| ensures RanksBefore(m, r[0], t[j]) {
        assert t[j] in multiset(t);
        assert t[j] == x || t[j] in r[1..];
      }
    }
  }

  lemma {:induction false} MostCommonRanked(m: seq<string>, d: seq<string>)
    requires forall i, j :: 0 <= i < j < |d| ==> IndexOf(m, d[i]) < IndexOf(m, d[j])
    ensures Ranked(m, MostCommon(m, d))
  {
    if d != [] {
      MostCommonRanked(m, d[1..]);
      var r := MostCommon(m, d[1..]);
      forall y | y in r ensures IndexOf(m, d[0]) < IndexOf(m, y) {
        assert y in multiset(r);
        var j :| 0 <= j < |d[1..]| && d[1..][j] == y;
        assert d[j + 1] == y;
      }
      InsertRanked(m, d[0], r);
    }
  }

  lemma {:induction false} NoDuplicatesCount(s: seq<string>)
    requires NoDuplicates(s)
    ensures forall x :: multiset(s)[x] <= 1
  {
    if s != [] {
      assert s == [s[0]] + s[1..];
      NoDuplicatesCount(s[1..]);
    }
  }

  lemma CountNoDuplicates(s: seq<string>)
    requires forall x :: multiset(s)[x] <= 1
    ensures NoDuplicates(s)
  {
    forall i, j | 0 <= i < j < |s| ensures s[i] != s[j] {
      assert s == s[..j] + [s[j]] + s[j + 1..];
      assert multiset(s) == multiset(s[..j]) + multiset([s[j]]) + multiset(s[j + 1..]);
      assert multiset(s)[s[j]] <= 1;
      assert multiset(s[..j])[s[j]] == 0;
      assert s[..j][i] == s[i];
    }
  }

  /** The keywords grouped by length, for counting them. */
  const ShortKeywords: set<string> := {"sql", "aws", "gcp", "java"}
  const MiddleKeywords: set<string> := {"mysql", "azure", "react", "spark"}
  const LongKeywords: set<string> := {"python", "docker", "fastapi", "airflow"}
  const LongestKeywords: set<string> := {"javascript", "postgresql", "kubernetes"}

  lemma SkillKeywordsCount()
    ensures |SkillKeywords| == 15
  {
    KeywordGroupsCount();
    KeywordGroupsDisjoint();
    KeywordGroupsCover();
    DisjointUnionCount(ShortKeywords, MiddleKeywords);
    DisjointUnionCount(ShortKeywords + MiddleKeywords, LongKeywords);
    DisjointUnionCount(ShortKeywords + MiddleKeywords + LongKeywords, LongestKeywords);
  }

  lemma KeywordGroupsCount()
    ensures |ShortKeywords| == 4 && |MiddleKeywords| == 4 && |LongKeywords| == 4 && |LongestKeywords| == 3
  {
  }

  lemma KeywordGroupsDisjoint()
    ensures ShortKeywords * MiddleKeywords == {}
    ensures (ShortKeywords + MiddleKeywords) * LongKeywords == {}
    ensures (ShortKeywords + MiddleKeywords + LongKeywords) * LongestKeywords == {}
  {
  }

  lemma KeywordGroupsCover()
    ensures SkillKeywords == ShortKeywords + MiddleKeywords + LongKeywords + LongestKeywords
  {
  }

  lemma DisjointUnionCount(a: set<string>, b: set<string>)
    requires a * b == {}
    ensures |a + b| == |a| + |b|
  {
  }

  lemma KeywordLengths()
    ensures forall k :: k in SkillKeywords ==> 3 <= |k| <= 10
  {
  }

  /** Every skill `extract_skills` returns is one of the keywords and none twice,
      so there are at most fifteen. */
  lemma ExtractSkillsKeywords(text: string)
    ensures forall x :: x in ExtractSkills(text) ==> x in SkillKeywords
    ensures NoDuplicates(ExtractSkills(text))
    ensures |ExtractSkills(text)| <= 15
  {
    var m := KeywordTokens(Tokens(text), SkillKeywords);
    var d := FirstSeen(m);
    var r := ExtractSkills(text);
    assert forall x :: x in r <==> x in multiset(d);
    NoDuplicatesCount(d);
    CountNoDuplicates(r);
    DistinctBound(r, SkillKeywords);
    SkillKeywordsCount();
  }

  /** A keyword is returned exactly when some token of the lower-cased text, stripped of
      ".,;:()[]{}" at both ends, equals it. */
  lemma ExtractSkillsMembership(text: string, x: string)
    ensures x in ExtractSkills(text) <==> x in SkillKeywords && x in Tokens(text)
  {
    var m := KeywordTokens(Tokens(text), SkillKeywords);
    var d := FirstSeen(m);
    assert x in ExtractSkills(text) <==> x in multiset(d);
  }

  /** Filtering keeps the relative order of first occurrences. */
  lemma {:induction false} KeywordTokensOrder(ts: seq<string>, keys: set<string>, a: string, b: string)
    requires a in KeywordTokens(ts, keys) && b in KeywordTokens(ts, keys)
    requires IndexOf(KeywordTokens(ts, keys), a) < IndexOf(KeywordTokens(ts, keys), b)
    ensures IndexOf(ts, a) < IndexOf(ts, b)
  {
    var m := KeywordTokens(ts, keys);
    var m' := KeywordTokens(ts[1..], keys);
    assert a != b;
    if ts[0] == a {
      assert IndexOf(ts, a) == 0;
    } else if ts[0] == b {
      // impossible: b would then come first in m
    } else {
      assert IndexOf(ts, a) == 1 + IndexOf(ts[1..], a);
      assert IndexOf(ts, b) == 1 + IndexOf(ts[1..], b);
      if ts[0] in keys {
        assert m == [ts[0]] + m';
        assert IndexOf(m, a) == 1 + IndexOf(m', a);
        assert IndexOf(m, b) == 1 + IndexOf(m', b);
      } else {
        assert m == m';
      }
      KeywordTokensOrder(ts[1..], keys, a, b);
    }
  }

  /** Occurrence counts never increase along the result, and skills with equal counts
      appear in the order of their first occurrence among the tokens. */
  lemma ExtractSkillsRanking(text: string)
    ensures var r, ts := ExtractSkills(text), Tokens(text);
      forall i, j :: 0 <= i < j < |r| ==> multiset(ts)[r[i]] >= multiset(ts)[r[j]]
    ensures var r, ts := ExtractSkills(text), Tokens(text);
      forall i, j :: 0 <= i < j < |r| && multiset(ts)[r[i]] == multiset(ts)[r[j]] ==>
        IndexOf(ts, r[i]) < IndexOf(ts, r[j])
  {
    var ts := Tokens(text);
    var m := KeywordTokens(ts, SkillKeywords);
    var d := FirstSeen(m);
    var r := ExtractSkills(text);
    MostCommonRanked(m, d);
    ExtractSkillsKeywords(text);
    forall i, j | 0 <= i < j < |r|
      ensures multiset(ts)[r[i]] >= multiset(ts)[r[j]]
      ensures multiset(ts)[r[i]] == multiset(ts)[r[j]] ==> IndexOf(ts, r[i]) < IndexOf(ts, r[j])
    {
      assert RanksBefore(m, r[i], r[j]);
      assert r[i] in multiset(d) && r[j] in multiset(d);
      RankedTokens(ts, SkillKeywords, r[i], r[j]);
    }
  }

  /** Two keywords ranked in this order among the keyword tokens have counts, and first
      occurrences among all the tokens, in the same order. */
  lemma RankedTokens(ts: seq<string>, keys: set<string>, a: string, b: string)
    requires a in keys && b in keys
    requires a in KeywordTokens(ts, keys) && b in KeywordTokens(ts, keys)
    requires RanksBefore(KeywordTokens(ts, keys), a, b)
    ensures multiset(ts)[a] >= multiset(ts)[b]
    ensures multiset(ts)[a] == multiset(ts)[b] ==> IndexOf(ts, a) < IndexOf(ts, b)
  {
    var m := KeywordTokens(ts, keys);
    if Count(m, a) == Count(m, b) {
      KeywordTokensOrder(ts, keys, a, b);
    }
  }

  /** Text without tokens yields no skills. */
  lemma ExtractSkillsEmpty()
    ensures ExtractSkills("") == []
  {
    assert Lower("") == "";
  }

  /** The result depends only on the lower-cased text. */
  lemma ExtractSkillsCaseInsensitive(text: string)
    ensures ExtractSkills(Lower(text)) == ExtractSkills(text)
  {
    LowerIdempotent(text);
  }

  lemma {:induction false} TakeWordWhole(s: string)
    requires forall i :: 0 <= i < |s| ==> !IsSpace(s[i])
    ensures TakeWord(s) == s
  {
    if s != [] {
      TakeWordWhole(s[1..]);
    }
  }

  /** A text that is one word, with nothing to strip at its ends, is one token. */
  lemma SingleWordTokens(w: string)
    requires IsWord(Lower(w))
    requires Lower(w)[0] !in TokenStripChars && Lower(w)[|w| - 1] !in TokenStripChars
    ensures Tokens(w) == [Lower(w)]
  {
    var l := Lower(w);
    TakeWordWhole(l);
    assert l[|l|..] == [];
    assert Words(l) == [l];
  }

  /** Matching is by whole token: "javascript" yields "javascript" and not "java". */
  lemma WholeTokenExample()
    ensures ExtractSkills("javascript") == ["javascript"]
  {
    JavascriptTokens("javascript");
    SingleKeywordSkills("javascript", SkillKeywords);
  }

  lemma JavascriptTokens(w: string)
    requires w == "javascript"
    ensures Tokens(w) == [w]
  {
    assert Lower(w) == w;
    assert IsWord(w);
    SingleWordTokens(w);
  }

  /** A single token that is a keyword is ranked alone. */
  lemma SingleKeywordSkills(w: string, keys: set<string>)
    requires w in keys
    ensures KeywordTokens([w], keys) == [w]
    ensures MostCommon([w], FirstSeen([w])) == [w]
  {
    var m := [w];
    assert m[1..] == [] && m[..0] == [];
    assert KeywordTokens(m, keys) == [w] + KeywordTokens([], keys);
    assert FirstSeen(m) == FirstSeen([]) + [w];
    assert MostCommon(m, m) == InsertByCount(m, w, MostCommon(m, []));
  }

  /** Text none of whose tokens is a keyword yields no skills. */
  lemma NoKeywordNoSkills(text: string)
    requires forall t :: t in Tokens(text) ==> t !in SkillKeywords
    ensures ExtractSkills(text) == []
  {
    NoKeywordTokens(Tokens(text), SkillKeywords);
  }

  lemma NoKeywordTokens(ts: seq<string>, keys: set<string>)
    requires forall t :: t in ts ==> t !in keys
    ensures KeywordTokens(ts, keys) == []
  {
    var m := KeywordTokens(ts, keys);
    assert forall i :: 0 <= i < |m| ==> m[i] in m;
  }

  /** "Python/Django" is one token, and no keyword. */
  lemma JoinedTokenExample()
    ensures ExtractSkills("Python/Django") == []
  {
    JoinedTokens();
    KeywordLengths();
    NoKeywordNoSkills("Python/Django");
  }

  lemma JoinedTokens()
    ensures Tokens("Python/Django") == ["python/django"]
  {
    JoinedLower("Python/Django");
    SingleWordTokens("Python/Django");
  }

  lemma JoinedLower(w: string)
    requires w == "Python/Django"
    ensures Lower(w) == "python/django" && IsWord(Lower(w))
    ensures Lower(w)[0] !in TokenStripChars && Lower(w)[|w| - 1] !in TokenStripChars
  {
    assert Lower(w) == "python/django";
    assert IsWord("python/django");
  }
}
