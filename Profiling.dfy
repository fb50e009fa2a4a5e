/** Focus areas: group the explicit skills by the area whose keyword set contains them. */
module Profiling {
  import opened Decimal
  import opened Schemas
  import opened Extraction

  /** `FOCUS_AREA_MAP`, in its insertion order. */
  const FocusAreaMap: seq<(string, set<string>)> := [
    ("backend", {"python", "java", "sql", "postgresql", "mysql", "fastapi"}),
    ("cloud", {"aws", "gcp", "azure", "kubernetes", "docker"}),
    ("frontend", {"javascript", "react"}),
    ("data", {"spark", "airflow"})
  ]

  const AreaNames: seq<string> := ["backend", "cloud", "frontend", "data"]

  /** `[skill for skill in explicit_skills if skill in keywords]`. */
  function Matched(skills: seq<string>, keywords: set<string>): (m: seq<string>)
    ensures |m| <= |skills|
  {
    if skills == [] then []
    else
      assert skills == [skills[0]] + skills[1..];
      (if skills[0] in keywords then [skills[0]] else []) + Matched(skills[1..], keywords)
  }

  /** The share of `matched` skills among `total`, as `build_focus_areas` rounds it. */
  function Weight(matched: nat, total: nat): nat {
    RoundHundredths(matched, if total > 1 then total else 1)
  }

  /** The area for entry `k` of `table`, if any explicit skill is in its set. */
  function AreaAt(table: seq<(string, set<string>)>, skills: seq<string>, k: nat): seq<FocusArea>
    requires k < |table|
  {
    if Matched(skills, table[k].1) == [] then [] else [AreaOf(table, skills, k)]
  }

  /** The area entry `k` of `table` builds: its name, the skills in its set, their share. */
  function AreaOf(table: seq<(string, set<string>)>, skills: seq<string>, k: nat): FocusArea
    requires k < |table|
  {
    var matched := Matched(skills, table[k].1);
    FocusArea(table[k].0, Weight(|matched|, |skills|), matched)
  }

  /** The areas the loop has appended after visiting the first `n` entries of `table`. */
  function MatchedAreas(table: seq<(string, set<string>)>, skills: seq<string>, n: nat): seq<FocusArea>
    requires n <= |table|
  {
    if n == 0 then [] else MatchedAreas(table, skills, n - 1) + AreaAt(table, skills, n - 1)
  }

  /** `build_focus_areas`, as a value. */
  function FocusAreas(skills: seq<string>): seq<FocusArea> {
    AreasOf(FocusAreaMap, skills)
  }

  /** The loop's list for `table`, or the single "general" area when that is empty. */
  function AreasOf(table: seq<(string, set<string>)>, skills: seq<string>): seq<FocusArea> {
    var areas := MatchedAreas(table, skills, |table|);
    if areas == [] then [FocusArea("general", 100, skills)] else areas
  }

  /** `build_focus_areas`: append one area per matching map entry, then the fallback. */
  method BuildFocusAreas(skills: seq<string>) returns (areas: seq<FocusArea>)
    ensures areas == FocusAreas(skills)
  {
    areas := [];
    for k := 0 to |FocusAreaMap|
      invariant areas == MatchedAreas(FocusAreaMap, skills, k)
    {
      var matched := Matched(skills, FocusAreaMap[k].1);
      if matched != [] {
        var weight := RoundHundredths(|matched|, if |skills| > 1 then |skills| else 1);
        areas := areas + [FocusArea(FocusAreaMap[k].0, weight, matched)];
      }
    }
    if areas == [] {
      areas := areas + [FocusArea("general", 100, skills)];
    }
  }

  /** A skill is kept exactly when it is in the set, as often as it occurs in the input. */
  lemma {:induction false} MatchedCounts(skills: seq<string>, keywords: set<string>)
    ensures forall x :: x in Matched(skills, keywords) <==> x in skills && x in keywords
    ensures forall x :: x in keywords ==> multiset(Matched(skills, keywords))[x] == multiset(skills)[x]
    ensures forall x :: x !in keywords ==> multiset(Matched(skills, keywords))[x] == 0
  {
    if skills != [] {
      assert skills == [skills[0]] + skills[1..];
      MatchedCounts(skills[1..], keywords);
    }
  }

  /** Filtering distributes over concatenation, so it keeps the input order. */
  lemma {:induction false} MatchedAppend(a: seq<string>, b: seq<string>, keywords: set<string>)
    ensures Matched(a + b, keywords) == Matched(a, keywords) + Matched(b, keywords)
  {
    if a != [] {
      assert (a + b)[1..] == a[1..] + b;
      MatchedAppend(a[1..], b, keywords);
    } else {
      assert a + b == b;
    }
  }

  /** Entry `k` of `table` yields an area: some explicit skill is in its set. */
  ghost predicate Yields(table: seq<(string, set<string>)>, skills: seq<string>, k: nat)
    requires k < |table|
  {
    Matched(skills, table[k].1) != []
  }

  /** The positions of the entries, among the first `n` of `table`, that yield an area. */
  ghost function Positions(table: seq<(string, set<string>)>, skills: seq<string>, n: nat): seq<nat>
    requires n <= |table|
  {
    if n == 0 then []
    else Positions(table, skills, n - 1) + (if Yields(table, skills, n - 1) then [n - 1] else [])
  }

  ghost predicate Increasing(ps: seq<nat>) {
    forall i, j :: 0 <= i < j < |ps| ==> ps[i] < ps[j]
  }

  lemma {:induction false} PositionsSorted(table: seq<(string, set<string>)>, skills: seq<string>, n: nat)
    requires n <= |table|
    ensures forall i :: 0 <= i < |Positions(table, skills, n)| ==> Positions(table, skills, n)[i] < n
    ensures Increasing(Positions(table, skills, n))
  {
    if n > 0 {
      PositionsSorted(table, skills, n - 1);
      var ps' := Positions(table, skills, n - 1);
      var ps := Positions(table, skills, n);
      if !Yields(table, skills, n - 1) {
        assert ps == ps';
      } else {
        assert ps == ps' + [n - 1];
        forall i, j | 0 <= i < j < |ps| ensures ps[i] < ps[j] {
          assert ps[i] == ps'[i];
          if j < |ps'| { assert ps[j] == ps'[j]; }
        }
      }
    }
  }

  lemma {:induction false} PositionsComplete(table: seq<(string, set<string>)>, skills: seq<string>, n: nat)
    requires n <= |table|
    ensures forall k :: 0 <= k < n && Yields(table, skills, k) ==> k in Positions(table, skills, n)
  {
    if n > 0 {
      PositionsComplete(table, skills, n - 1);
      forall k | 0 <= k < n && Yields(table, skills, k) ensures k in Positions(table, skills, n) {
        PositionsGrow(table, skills, n, k);
      }
    }
  }

  /** One more entry keeps the earlier positions and adds its own when it yields an area. */
  lemma PositionsGrow(table: seq<(string, set<string>)>, skills: seq<string>, n: nat, k: nat)
    requires k < n <= |table| && Yields(table, skills, k)
    requires k < n - 1 ==> k in Positions(table, skills, n - 1)
    ensures k in Positions(table, skills, n)
  {
    var ps', ps := Positions(table, skills, n - 1), Positions(table, skills, n);
    if k < n - 1 {
      assert ps == ps' + (if Yields(table, skills, n - 1) then [n - 1] else []);
    } else {
      assert ps == ps' + [n - 1];
      assert ps[|ps| - 1] == k;
    }
  }

  /** Area `i` of `areas` is the one entry `ps[i]` of `table` yields. */
  ghost predicate Aligned(table: seq<(string, set<string>)>, skills: seq<string>, ps: seq<nat>, areas: seq<FocusArea>) {
    && |areas| == |ps|
    && forall i :: 0 <= i < |ps| ==> BuiltBy(table, skills, ps[i], areas[i])
  }

  /** `area` is the one entry `k` of `table` yields. */
  ghost predicate BuiltBy(table: seq<(string, set<string>)>, skills: seq<string>, k: nat, area: FocusArea) {
    k < |table| && Yields(table, skills, k) && area == AreaOf(table, skills, k)
  }

  /** The loop's list holds one area per position, each as `AreaOf` builds it. */
  lemma {:induction false} MatchedAreasPositions(table: seq<(string, set<string>)>, skills: seq<string>, n: nat)
    requires n <= |table|
    ensures Aligned(table, skills, Positions(table, skills, n), MatchedAreas(table, skills, n))
  {
    if n > 0 {
      MatchedAreasPositions(table, skills, n - 1);
      AlignedGrow(table, skills, n);
    }
  }

  /** Entry `n - 1` adds its position and its area together, or neither. */
  lemma PositionsStep(table: seq<(string, set<string>)>, skills: seq<string>, n: nat)
    requires 0 < n <= |table|
    ensures !Yields(table, skills, n - 1) ==>
      Positions(table, skills, n) == Positions(table, skills, n - 1) &&
      MatchedAreas(table, skills, n) == MatchedAreas(table, skills, n - 1)
    ensures Yields(table, skills, n - 1) ==>
      Positions(table, skills, n) == Positions(table, skills, n - 1) + [n - 1] &&
      MatchedAreas(table, skills, n) == MatchedAreas(table, skills, n - 1) + [AreaOf(table, skills, n - 1)]
  {
    if !Yields(table, skills, n - 1) {
      assert MatchedAreas(table, skills, n) == MatchedAreas(table, skills, n - 1) + [];
    }
  }

  /** Entry `n - 1` keeps the alignment: it adds no area, or its area at its position. */
  lemma AlignedGrow(table: seq<(string, set<string>)>, skills: seq<string>, n: nat)
    requires 0 < n <= |table|
    requires Aligned(table, skills, Positions(table, skills, n - 1), MatchedAreas(table, skills, n - 1))
    ensures Aligned(table, skills, Positions(table, skills, n), MatchedAreas(table, skills, n))
  {
    PositionsStep(table, skills, n);
    if Yields(table, skills, n - 1) {
      var ps, ps2 := Positions(table, skills, n - 1), Positions(table, skills, n);
      forall i | 0 <= i < |ps2| ensures BuiltBy(table, skills, ps2[i], MatchedAreas(table, skills, n)[i]) {
        if i < |ps| {
          BuiltByKept(table, skills, n, i);
        } else {
          BuiltByAdded(table, skills, n, i);
        }
      }
    }
  }

  /** An earlier area keeps its position. */
  lemma BuiltByKept(table: seq<(string, set<string>)>, skills: seq<string>, n: nat, i: nat)
    requires 0 < n <= |table|
    requires Aligned(table, skills, Positions(table, skills, n - 1), MatchedAreas(table, skills, n - 1))
    requires Yields(table, skills, n - 1) && i < |Positions(table, skills, n - 1)|
    ensures i < |Positions(table, skills, n)| && i < |MatchedAreas(table, skills, n)|
    ensures BuiltBy(table, skills, Positions(table, skills, n)[i], MatchedAreas(table, skills, n)[i])
  {
    PositionsStep(table, skills, n);
    var ps, areas := Positions(table, skills, n - 1), MatchedAreas(table, skills, n - 1);
    var ps2, areas2 := Positions(table, skills, n), MatchedAreas(table, skills, n);
    assert BuiltBy(table, skills, ps[i], areas[i]);
    assert ps2[i] == ps[i] && areas2[i] == areas[i];
  }

  /** The new area sits at the new position. */
  lemma BuiltByAdded(table: seq<(string, set<string>)>, skills: seq<string>, n: nat, i: nat)
    requires 0 < n <= |table|
    requires Aligned(table, skills, Positions(table, skills, n - 1), MatchedAreas(table, skills, n - 1))
    requires Yields(table, skills, n - 1) && i == |Positions(table, skills, n - 1)|
    ensures i < |Positions(table, skills, n)| && i < |MatchedAreas(table, skills, n)|
    ensures BuiltBy(table, skills, Positions(table, skills, n)[i], MatchedAreas(table, skills, n)[i])
  {
    PositionsStep(table, skills, n);
    NewLast(Positions(table, skills, n - 1), n - 1, Positions(table, skills, n));
    NewLast(MatchedAreas(table, skills, n - 1), AreaOf(table, skills, n - 1), MatchedAreas(table, skills, n));
  }

  /** The element appended last sits at the old length. */
  lemma NewLast<T>(s: seq<T>, x: T, t: seq<T>)
    requires t == s + [x]
    ensures |s| < |t| && t[|s|] == x
  {
  }

  /** Each area of the loop's list carries the name of the entry it comes from and a
      weight of at most 1.0. */
  lemma AreaFields(table: seq<(string, set<string>)>, skills: seq<string>)
    ensures |MatchedAreas(table, skills, |table|)| == |Positions(table, skills, |table|)|
    ensures forall i :: 0 <= i < |Positions(table, skills, |table|)| ==>
      Positions(table, skills, |table|)[i] < |table| &&
      MatchedAreas(table, skills, |table|)[i].name == table[Positions(table, skills, |table|)[i]].0 &&
      MatchedAreas(table, skills, |table|)[i].weight <= 100
  {
    var n := |table|;
    MatchedAreasPositions(table, skills, n);
    var r, ps := MatchedAreas(table, skills, n), Positions(table, skills, n);
    forall i | 0 <= i < |ps| ensures r[i].name == table[ps[i]].0 && r[i].weight <= 100 {
      var m := Matched(skills, table[ps[i]].1);
      assert BuiltBy(table, skills, ps[i], r[i]);
      RoundHundredthsBounds(|m|, if |skills| > 1 then |skills| else 1);
    }
  }

  lemma FocusAreaMapNames()
    ensures forall k :: 0 <= k < |FocusAreaMap| ==> FocusAreaMap[k].0 == AreaNames[k]
    ensures forall k :: 0 <= k < |AreaNames| ==> IndexOf(AreaNames, AreaNames[k]) == k
    ensures "general" !in AreaNames
  {
  }

  /** A name occurs among the areas. */
  ghost predicate HasArea(areas: seq<FocusArea>, name: string) {
    exists i :: 0 <= i < |areas| && areas[i].name == name
  }

  /** Every area's name is in `names`, and the areas come in the order of `names`. */
  ghost predicate InNameOrder(areas: seq<FocusArea>, names: seq<string>) {
    forall i, j :: 0 <= i < j < |areas| ==>
      areas[i].name in names && areas[j].name in names &&
      IndexOf(names, areas[i].name) < IndexOf(names, areas[j].name)
  }

  /** With `names` listing the entries' names, distinct, the loop's list follows the
      order of `names`. */
  lemma MatchedAreasOrdered(table: seq<(string, set<string>)>, names: seq<string>, skills: seq<string>)
    requires |names| == |table|
    requires forall k :: 0 <= k < |table| ==> table[k].0 == names[k]
    requires forall k :: 0 <= k < |names| ==> IndexOf(names, names[k]) == k
    ensures InNameOrder(MatchedAreas(table, skills, |table|), names)
  {
    var n := |table|;
    AreaFields(table, skills);
    PositionsSorted(table, skills, n);
    var r, ps := MatchedAreas(table, skills, n), Positions(table, skills, n);
    forall i, j | 0 <= i < j < |r|
      ensures r[i].name in names && r[j].name in names
      ensures IndexOf(names, r[i].name) < IndexOf(names, r[j].name)
    {
      assert r[i].name == names[ps[i]] && r[j].name == names[ps[j]];
    }
  }

  /** The same holds once the fallback area is added. */
  lemma AreasOrdered(table: seq<(string, set<string>)>, names: seq<string>, skills: seq<string>)
    requires |names| == |table|
    requires forall k :: 0 <= k < |table| ==> table[k].0 == names[k]
    requires forall k :: 0 <= k < |names| ==> IndexOf(names, names[k]) == k
    ensures InNameOrder(AreasOf(table, skills), names)
  {
    if MatchedAreas(table, skills, |table|) == [] {
      assert |AreasOf(table, skills)| == 1;
    } else {
      MatchedAreasOrdered(table, names, skills);
    }
  }

  /** Areas follow the map order backend, cloud, frontend, data, each at most once. */
  lemma FocusAreasOrder(skills: seq<string>)
    ensures InNameOrder(FocusAreas(skills), AreaNames)
  {
    FocusAreaMapNames();
    AreasOrdered(FocusAreaMap, AreaNames, skills);
  }

  ghost predicate DistinctNames(table: seq<(string, set<string>)>) {
    forall k, l :: 0 <= k < |table| && 0 <= l < |table| && table[k].0 == table[l].0 ==> k == l
  }

  /** An area of the loop's list that carries entry `k`'s name is entry `k`'s area. */
  lemma NamedAreaIsAt(table: seq<(string, set<string>)>, skills: seq<string>, k: nat, i: nat)
    requires DistinctNames(table) && k < |table|
    requires i < |MatchedAreas(table, skills, |table|)| && MatchedAreas(table, skills, |table|)[i].name == table[k].0
    ensures [MatchedAreas(table, skills, |table|)[i]] == AreaAt(table, skills, k)
  {
    var n := |table|;
    MatchedAreasPositions(table, skills, n);
    var r, ps := MatchedAreas(table, skills, n), Positions(table, skills, n);
    assert BuiltBy(table, skills, ps[i], r[i]);
    assert ps[i] == k;
  }

  /** Entry `k`'s area, when it yields one, is in the loop's list under its name. */
  lemma AreaAtNamed(table: seq<(string, set<string>)>, skills: seq<string>, k: nat)
    requires k < |table| && AreaAt(table, skills, k) != []
    ensures HasArea(MatchedAreas(table, skills, |table|), table[k].0)
  {
    var n := |table|;
    MatchedAreasPositions(table, skills, n);
    PositionsComplete(table, skills, n);
    var r, ps := MatchedAreas(table, skills, n), Positions(table, skills, n);
    assert Yields(table, skills, k);
    assert k in ps;
    var i :| 0 <= i < |ps| && ps[i] == k;
    assert BuiltBy(table, skills, ps[i], r[i]);
  }

  /** In a table with distinct names, the entry named like entry `k` yields an area
      exactly when entry `k` does, and that area is the one `AreaAt` builds. */
  lemma MatchedAreasNamed(table: seq<(string, set<string>)>, skills: seq<string>, k: nat)
    requires DistinctNames(table) && k < |table|
    ensures HasArea(MatchedAreas(table, skills, |table|), table[k].0) <==> AreaAt(table, skills, k) != []
    ensures forall i ::
      (0 <= i < |MatchedAreas(table, skills, |table|)| && MatchedAreas(table, skills, |table|)[i].name == table[k].0) ==>
      [MatchedAreas(table, skills, |table|)[i]] == AreaAt(table, skills, k)
  {
    var r := MatchedAreas(table, skills, |table|);
    forall i | 0 <= i < |r| && r[i].name == table[k].0 ensures [r[i]] == AreaAt(table, skills, k) {
      NamedAreaIsAt(table, skills, k, i);
    }
    if AreaAt(table, skills, k) != [] {
      AreaAtNamed(table, skills, k);
    }
  }

  /** `FocusAreas` is the loop's list, or the single "general" area when that is empty. */
  lemma FocusAreasCases(skills: seq<string>)
    ensures DistinctNames(FocusAreaMap)
    ensures forall k :: 0 <= k < |FocusAreaMap| ==> FocusAreaMap[k].0 != "general"
    ensures FocusAreas(skills) == MatchedAreas(FocusAreaMap, skills, |FocusAreaMap|) ||
      FocusAreas(skills) == [FocusArea("general", 100, skills)]
  {
  }

  /** Some skill survives the filter exactly when some skill is in the set. */
  lemma {:induction false} MatchedNonEmpty(skills: seq<string>, keywords: set<string>)
    ensures Matched(skills, keywords) != [] <==> exists x :: x in skills && x in keywords
  {
    if skills != [] {
      MatchedNonEmpty(skills[1..], keywords);
      if skills[0] in keywords {
        assert skills[0] in skills;
      } else {
        assert Matched(skills, keywords) == Matched(skills[1..], keywords);
        forall x | x in skills && x in keywords ensures x in skills[1..] {
          assert x != skills[0];
        }
      }
    }
  }

  /** In a table with distinct names, entry `k`'s area is in the loop's list exactly when
      some skill is in its set. */
  lemma AreaPresence(table: seq<(string, set<string>)>, skills: seq<string>, k: nat)
    requires DistinctNames(table) && k < |table|
    ensures HasArea(MatchedAreas(table, skills, |table|), table[k].0) <==> exists x :: x in skills && x in table[k].1
  {
    MatchedAreasNamed(table, skills, k);
    MatchedNonEmpty(skills, table[k].1);
  }

  /** An area appears exactly when some explicit skill is in its set. */
  lemma FocusAreaPresence(skills: seq<string>, k: nat)
    requires k < |FocusAreaMap|
    ensures HasArea(FocusAreas(skills), FocusAreaMap[k].0) <==> exists x :: x in skills && x in FocusAreaMap[k].1
  {
    FocusAreasCases(skills);
    AreaPresence(FocusAreaMap, skills, k);
    if MatchedAreas(FocusAreaMap, skills, |FocusAreaMap|) == [] {
      assert !HasArea(FocusAreas(skills), FocusAreaMap[k].0) by {
        assert FocusAreas(skills) == [FocusArea("general", 100, skills)];
      }
    }
  }

  /** An area's skills are the input's skills in its set, in input order and with repeats,
      and its weight is their share of the input rounded to hundredths. */
  lemma FocusAreaContents(skills: seq<string>, k: nat)
    requires k < |FocusAreaMap|
    ensures forall i :: (0 <= i < |FocusAreas(skills)| && FocusAreas(skills)[i].name == FocusAreaMap[k].0) ==>
      FocusAreas(skills)[i].skills == Matched(skills, FocusAreaMap[k].1) &&
      FocusAreas(skills)[i].weight == Weight(|Matched(skills, FocusAreaMap[k].1)|, |skills|)
  {
    FocusAreasCases(skills);
    MatchedAreasNamed(FocusAreaMap, skills, k);
  }

  /** Every weight is at most 1.0. */
  lemma FocusAreaWeights(skills: seq<string>)
    ensures forall i :: 0 <= i < |FocusAreas(skills)| ==> FocusAreas(skills)[i].weight <= 100
  {
    AreaFields(FocusAreaMap, skills);
  }

  /** The four keyword sets are pairwise disjoint and together are the extractor's keywords. */
  lemma FocusAreaSets()
    ensures forall k, l :: 0 <= k < l < |FocusAreaMap| ==> FocusAreaMap[k].1 * FocusAreaMap[l].1 == {}
    ensures FocusAreaMap[0].1 + FocusAreaMap[1].1 + FocusAreaMap[2].1 + FocusAreaMap[3].1 == SkillKeywords
    ensures forall k :: 0 <= k < |FocusAreaMap| ==> FocusAreaMap[k].1 <= SkillKeywords
  {
  }

  /** A skill in some entry's set gives the loop's list an area. */
  lemma EntryYieldsArea(table: seq<(string, set<string>)>, skills: seq<string>, k: nat, x: string)
    requires k < |table| && x in skills && x in table[k].1
    ensures MatchedAreas(table, skills, |table|) != []
  {
    var n := |table|;
    MatchedNonEmpty(skills, table[k].1);
    PositionsComplete(table, skills, n);
    assert k in Positions(table, skills, n);
    MatchedAreasPositions(table, skills, n);
  }

  /** A skill that is a keyword lands in some area, so the loop's list is not empty. */
  lemma KeywordYieldsArea(skills: seq<string>, x: string)
    requires x in skills && x in SkillKeywords
    ensures MatchedAreas(FocusAreaMap, skills, |FocusAreaMap|) != []
  {
    FocusAreaSets();
    var k := if x in FocusAreaMap[0].1 then 0 else if x in FocusAreaMap[1].1 then 1
      else if x in FocusAreaMap[2].1 then 2 else 3;
    EntryYieldsArea(FocusAreaMap, skills, k, x);
  }

  /** Every area of a non-empty loop list is a named map entry met by some keyword skill. */
  lemma MatchedAreasNotGeneral(skills: seq<string>)
    requires MatchedAreas(FocusAreaMap, skills, |FocusAreaMap|) != []
    ensures !HasArea(MatchedAreas(FocusAreaMap, skills, |FocusAreaMap|), "general")
    ensures exists x :: x in skills && x in SkillKeywords
  {
    var n := |FocusAreaMap|;
    var areas := MatchedAreas(FocusAreaMap, skills, n);
    var ps := Positions(FocusAreaMap, skills, n);
    FocusAreasCases(skills);
    FocusAreaSets();
    MatchedAreasPositions(FocusAreaMap, skills, n);
    forall i | 0 <= i < |areas| ensures areas[i].name != "general" {
      assert BuiltBy(FocusAreaMap, skills, ps[i], areas[i]);
    }
    var m := Matched(skills, FocusAreaMap[ps[0]].1);
    assert BuiltBy(FocusAreaMap, skills, ps[0], areas[0]);
    MatchedCounts(skills, FocusAreaMap[ps[0]].1);
    assert m[0] in m;
    assert m[0] in skills && m[0] in SkillKeywords;
  }

  /** The fallback "general" area is emitted exactly when no explicit skill is a keyword of
      any area, and it is then the only area: weight 1.0 and all the explicit skills. */
  lemma FocusAreasGeneral(skills: seq<string>)
    ensures HasArea(FocusAreas(skills), "general") <==> forall x :: x in skills ==> x !in SkillKeywords
    ensures HasArea(FocusAreas(skills), "general") ==> FocusAreas(skills) == [FocusArea("general", 100, skills)]
  {
    var areas := MatchedAreas(FocusAreaMap, skills, |FocusAreaMap|);
    if exists x :: x in skills && x in SkillKeywords {
      var x :| x in skills && x in SkillKeywords;
      KeywordYieldsArea(skills, x);
    }
    if areas != [] {
      MatchedAreasNotGeneral(skills);
    } else {
      assert FocusAreas(skills)[0].name == "general";
    }
  }

  /** The result is never empty. */
  lemma FocusAreasNonEmpty(skills: seq<string>)
    ensures |FocusAreas(skills)| >= 1
  {
  }

  /** The number of skills listed over all areas. */
  function TotalSkills(areas: seq<FocusArea>): nat {
    if areas == [] then 0 else |areas[0].skills| + TotalSkills(areas[1..])
  }

  lemma {:induction false} TotalSkillsAppend(a: seq<FocusArea>, b: seq<FocusArea>)
    ensures TotalSkills(a + b) == TotalSkills(a) + TotalSkills(b)
  {
    if a != [] {
      assert (a + b)[1..] == a[1..] + b;
      TotalSkillsAppend(a[1..], b);
    } else {
      assert a + b == b;
    }
  }

  ghost predicate DisjointSets(table: seq<(string, set<string>)>) {
    forall k, l :: 0 <= k < l < |table| ==> table[k].1 * table[l].1 == {}
  }

  /** The keywords of the first `n` entries. */
  ghost function UnionUpTo(table: seq<(string, set<string>)>, n: nat): set<string>
    requires n <= |table|
  {
    if n == 0 then {} else UnionUpTo(table, n - 1) + table[n - 1].1
  }

  lemma {:induction false} UnionUpToDisjoint(table: seq<(string, set<string>)>, n: nat, m: nat)
    requires DisjointSets(table) && n <= m < |table|
    ensures UnionUpTo(table, n) * table[m].1 == {}
  {
    if n > 0 {
      UnionUpToDisjoint(table, n - 1, m);
      assert table[n - 1].1 * table[m].1 == {};
      var u := UnionUpTo(table, n - 1);
      forall x | x in table[m].1 ensures x !in UnionUpTo(table, n) {
        assert x !in u * table[m].1;
        assert x !in table[n - 1].1 * table[m].1;
      }
    }
  }

  /** For disjoint sets, filtering by their union keeps as many skills as both filters. */
  lemma {:induction false} MatchedUnion(skills: seq<string>, a: set<string>, b: set<string>)
    requires a * b == {}
    ensures |Matched(skills, a + b)| == |Matched(skills, a)| + |Matched(skills, b)|
  {
    if skills != [] {
      MatchedUnion(skills[1..], a, b);
      assert skills[0] !in a * b;
    }
  }

  lemma {:induction false} MatchedAreasTotal(table: seq<(string, set<string>)>, skills: seq<string>, n: nat)
    requires DisjointSets(table) && n <= |table|
    ensures TotalSkills(MatchedAreas(table, skills, n)) == |Matched(skills, UnionUpTo(table, n))|
  {
    if n > 0 {
      MatchedAreasTotal(table, skills, n - 1);
      var p, a := MatchedAreas(table, skills, n - 1), AreaAt(table, skills, n - 1);
      var u, k := UnionUpTo(table, n - 1), table[n - 1].1;
      assert TotalSkills(MatchedAreas(table, skills, n)) == TotalSkills(p) + TotalSkills(a) by {
        assert MatchedAreas(table, skills, n) == p + a;
        TotalSkillsAppend(p, a);
      }
      assert |Matched(skills, UnionUpTo(table, n))| == |Matched(skills, u)| + |Matched(skills, k)| by {
        assert UnionUpTo(table, n) == u + k;
        UnionUpToDisjoint(table, n - 1, n - 1);
        MatchedUnion(skills, u, k);
      }
      AreaAtTotal(table, skills, n - 1);
    } else {
      MatchedNothing(skills);
      assert UnionUpTo(table, 0) == {};
      assert MatchedAreas(table, skills, 0) == [];
    }
  }

  lemma AreaAtTotal(table: seq<(string, set<string>)>, skills: seq<string>, k: nat)
    requires k < |table|
    ensures TotalSkills(AreaAt(table, skills, k)) == |Matched(skills, table[k].1)|
  {
    var a := AreaAt(table, skills, k);
    if a != [] {
      assert a[1..] == [];
    }
  }

  lemma {:induction false} MatchedNothing(skills: seq<string>)
    ensures Matched(skills, {}) == []
  {
    if skills != [] {
      MatchedNothing(skills[1..]);
    }
  }

  /** Since a skill lands in at most one area, the areas list at most as many skills as the
      input has (exactly as many when the fallback is taken). */
  lemma FocusAreasTotal(skills: seq<string>)
    ensures TotalSkills(FocusAreas(skills)) <= |skills|
  {
    FocusAreaSets();
    assert DisjointSets(FocusAreaMap);
    MatchedAreasTotal(FocusAreaMap, skills, |FocusAreaMap|);
    assert TotalSkills([FocusArea("general", 100, skills)]) == |skills|;
  }

  /** For the extractor's output, "general" is emitted only when no skill was found. */
  lemma ExtractedSkillsAreas(text: string)
    ensures HasArea(FocusAreas(ExtractSkills(text)), "general") <==> ExtractSkills(text) == []
  {
    var skills := ExtractSkills(text);
    ExtractSkillsKeywords(text);
    FocusAreasGeneral(skills);
    if skills != [] {
      assert skills[0] in skills;
    }
  }
}
