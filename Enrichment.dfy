/** Hidden-skill inference: the skills commonly implied by the explicit ones. */
module Enrichment {
  import opened Text

  /** `HIDDEN_SKILL_MAP`. */
  const HiddenSkillMap: map<string, seq<string>> := map[
    "kubernetes" := ["helm", "rbac", "service mesh"],
    "aws" := ["iam", "vpc", "cloudwatch"],
    "python" := ["testing", "packaging", "type hints"],
    "react" := ["state management", "component design"],
    "sql" := ["query optimization", "data modeling"]
  ]

  /** The thirteen distinct values that occur in `HIDDEN_SKILL_MAP`. */
  const HiddenValues: set<string> := {
    "helm", "rbac", "service mesh", "iam", "vpc", "cloudwatch", "testing", "packaging",
    "type hints", "state management", "component design", "query optimization", "data modeling"
  }

  /** `HIDDEN_SKILL_MAP.get(skill, [])`. */
  function Implied(skill: string): seq<string> {
    if skill in HiddenSkillMap then HiddenSkillMap[skill] else []
  }

  /** The `inferred` list after the loop has extended it for every skill of `skills`. */
  function ImpliedAll(skills: seq<string>): seq<string>
    decreases |skills|
  {
    if skills == [] then []
    else ImpliedAll(skills[..|skills| - 1]) + Implied(skills[|skills| - 1])
  }

  ghost predicate StrictlySorted(s: seq<string>) {
    forall i, j :: 0 <= i < j < |s| ==> StrLess(s[i], s[j])
  }

  /** Inserts `x` into a strictly sorted list, unless it is already there. */
  function InsertSorted(x: string, s: seq<string>): (r: seq<string>)
    ensures forall y :: y in r <==> y == x || y in s
  {
    if s == [] then [x]
    else if x == s[0] then s
    else if StrLess(x, s[0]) then [x] + s
    else [s[0]] + InsertSorted(x, s[1..])
  }

  /** `sorted(set(s))`. */
  function SortedUnique(s: seq<string>): (r: seq<string>)
    ensures forall y :: y in r <==> y in s
  {
    if s == [] then [] else InsertSorted(s[0], SortedUnique(s[1..]))
  }

  /** `infer_hidden_skills`, as a value. */
  function HiddenSkills(skills: seq<string>): seq<string> {
    SortedUnique(ImpliedAll(skills))
  }

  /** `infer_hidden_skills`: extend `inferred` skill by skill, then sort the distinct values. */
  method InferHiddenSkills(skills: seq<string>) returns (r: seq<string>)
    ensures r == HiddenSkills(skills)
  {
    var inferred: seq<string> := [];
    for i := 0 to |skills|
      invariant inferred == ImpliedAll(skills[..i])
    {
      assert skills[..i + 1][..i] == skills[..i];
      inferred := inferred + Implied(skills[i]);
    }
    assert skills[..|skills|] == skills;
    r := SortedUnique(inferred);
  }

  lemma {:induction false} InsertSortedSorted(x: string, s: seq<string>)
    requires StrictlySorted(s)
    ensures StrictlySorted(InsertSorted(x, s))
  {
    if s == [] {
    } else if x == s[0] {
    } else if StrLess(x, s[0]) {
      var r := [x] + s;
      forall j | 1 <= j < |r| ensures StrLess(x, r[j]) {
        assert r[j] == s[j - 1];
        if j > 1 { StrLessTransitive(x, s[0], s[j - 1]); }
      }
      forall i, j | 1 <= i < j < |r| ensures StrLess(r[i], r[j]) {
        assert r[i] == s[i - 1] && r[j] == s[j - 1];
      }
    } else {
      StrLessTotal(x, s[0]);
      InsertSortedSorted(x, s[1..]);
      var t := InsertSorted(x, s[1..]);
      forall j | 0 <= j < |t| ensures StrLess(s[0], t[j]) {
        assert t[j] in t;
        if t[j] != x {
          var k :| 0 <= k < |s[1..]| && s[1..][k] == t[j];
          assert s[k + 1] == t[j];
        }
      }
    }
  }

  lemma {:induction false} SortedUniqueSorted(s: seq<string>)
    ensures StrictlySorted(SortedUnique(s))
  {
    if s != [] {
      SortedUniqueSorted(s[1..]);
      InsertSortedSorted(s[0], SortedUnique(s[1..]));
    }
  }

  /** A strictly sorted list is determined by its elements. */
  lemma {:induction false} StrictlySortedUnique(a: seq<string>, b: seq<string>)
    requires StrictlySorted(a) && StrictlySorted(b)
    requires forall x :: x in a <==> x in b
    ensures a == b
  {
    assert forall i :: 0 <= i < |a| ==> a[i] in b;
    assert forall j :: 0 <= j < |b| ==> b[j] in a;
    if a != [] && b != [] {
      assert a[0] in b && b[0] in a;
      if a[0] != b[0] {
        var i :| 0 <= i < |a| && a[i] == b[0];
        var j :| 0 <= j < |b| && b[j] == a[0];
        assert StrLess(a[0], a[i]) && StrLess(b[0], b[j]);
        StrLessAsymmetric(a[0], b[0]);
      } else {
        forall x | x in a[1..] ensures x in b[1..] && x != a[0] {
          var i :| 0 <= i < |a[1..]| && a[1..][i] == x;
          assert StrLess(a[0], a[i + 1]);
          StrLessIrreflexive(a[0]);
          assert x in b;
          var j :| 0 <= j < |b| && b[j] == x;
          assert j != 0;
          assert b[1..][j - 1] == x;
        }
        forall x | x in b[1..] ensures x in a[1..] {
          var j :| 0 <= j < |b[1..]| && b[1..][j] == x;
          assert StrLess(b[0], b[j + 1]);
          StrLessIrreflexive(b[0]);
          assert x in a;
          var i :| 0 <= i < |a| && a[i] == x;
          assert i != 0;
          assert a[1..][i - 1] == x;
        }
        StrictlySortedUnique(a[1..], b[1..]);
        assert a == [a[0]] + a[1..] && b == [b[0]] + b[1..];
      }
    }
  }

  lemma {:induction false} ImpliedAllMembership(skills: seq<string>, x: string)
    ensures x in ImpliedAll(skills) <==> exists i :: 0 <= i < |skills| && x in Implied(skills[i])
    decreases |skills|
  {
    if skills != [] {
      var p := skills[..|skills| - 1];
      ImpliedAllMembership(p, x);
      if x in ImpliedAll(skills) && x !in Implied(skills[|skills| - 1]) {
        var i :| 0 <= i < |p| && x in Implied(p[i]);
        assert skills[i] == p[i];
      }
      if exists i :: 0 <= i < |skills| && x in Implied(skills[i]) {
        var i :| 0 <= i < |skills| && x in Implied(skills[i]);
        if i < |p| {
          assert p[i] == skills[i];
        }
      }
    }
  }

  /** The result is strictly increasing, hence sorted and without duplicates. */
  lemma HiddenSkillsSorted(skills: seq<string>)
    ensures StrictlySorted(HiddenSkills(skills))
    ensures NoDuplicates(HiddenSkills(skills))
  {
    var r := HiddenSkills(skills);
    SortedUniqueSorted(ImpliedAll(skills));
    forall i, j | 0 <= i < j < |r| ensures r[i] != r[j] {
      StrLessIrreflexive(r[i]);
    }
  }

  /** A skill is inferred exactly when it is implied by some explicit skill that has an
      entry in the map. */
  lemma HiddenSkillsMembership(skills: seq<string>, x: string)
    ensures x in HiddenSkills(skills) <==>
      exists i :: 0 <= i < |skills| && skills[i] in HiddenSkillMap && x in HiddenSkillMap[skills[i]]
  {
    ImpliedAllMembership(skills, x);
  }

  /** Reordering or repeating the explicit skills changes nothing. */
  lemma HiddenSkillsSetOnly(a: seq<string>, b: seq<string>)
    requires forall s :: s in a <==> s in b
    ensures HiddenSkills(a) == HiddenSkills(b)
  {
    forall x ensures x in HiddenSkills(a) <==> x in HiddenSkills(b) {
      HiddenSkillsMembership(a, x);
      HiddenSkillsMembership(b, x);
      if x in HiddenSkills(a) {
        var i :| 0 <= i < |a| && a[i] in HiddenSkillMap && x in HiddenSkillMap[a[i]];
        assert a[i] in b;
      }
      if x in HiddenSkills(b) {
        var i :| 0 <= i < |b| && b[i] in HiddenSkillMap && x in HiddenSkillMap[b[i]];
        assert b[i] in a;
      }
    }
    HiddenSkillsSorted(a);
    HiddenSkillsSorted(b);
    StrictlySortedUnique(HiddenSkills(a), HiddenSkills(b));
  }

  /** A skill without an entry contributes nothing. */
  lemma UnmappedSkillIgnored(skills: seq<string>, u: string)
    requires u !in HiddenSkillMap
    ensures HiddenSkills(skills + [u]) == HiddenSkills(skills)
  {
    var t := skills + [u];
    assert t[..|t| - 1] == skills && t[|t| - 1] == u;
    assert ImpliedAll(t) == ImpliedAll(skills) + Implied(u);
    assert ImpliedAll(skills) + [] == ImpliedAll(skills);
  }

  /** No explicit skills, no hidden skills. */
  lemma HiddenSkillsEmpty()
    ensures HiddenSkills([]) == []
  {
  }

  lemma HiddenValuesCount()
    ensures |HiddenValues| == 13
  {
  }

  lemma MapValuesInHiddenValues(s: string, x: string)
    ensures x in Implied(s) ==> x in HiddenValues
  {
  }

  /** Every inferred skill is one of the thirteen map values, so there are at most thirteen. */
  lemma HiddenSkillsBound(skills: seq<string>)
    ensures forall x :: x in HiddenSkills(skills) ==> x in HiddenValues
    ensures |HiddenSkills(skills)| <= 13
  {
    var r := HiddenSkills(skills);
    forall x | x in r ensures x in HiddenValues {
      ImpliedAllMembership(skills, x);
      var i :| 0 <= i < |skills| && x in Implied(skills[i]);
      MapValuesInHiddenValues(skills[i], x);
    }
    HiddenSkillsSorted(skills);
    DistinctBound(r, HiddenValues);
    HiddenValuesCount();
  }
}
