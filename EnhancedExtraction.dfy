/** Salary ranges, interview stages and interview duration, found by fixed regular
    expressions. Each expression is modelled by a scanner: every one of them starts with
    `\d+` (or `\$`), and a `\d+` that is followed by something other than a digit can only
    match a whole digit run. */
module EnhancedExtraction {
  import opened Wrappers
  import opened Text
  import opened Extraction

  // ---------------------------------------------------------------- salary

  datatype SalaryRange = SalaryRange(min: nat, max: nat)

  predicate IsAmountChar(c: char) { IsDigit(c) || c == ',' }

  /** Length of the maximal run of `[\d,]` characters starting at `i`. */
  function AmountRun(s: string, i: nat): (n: nat)
    requires i <= |s|
    ensures i + n <= |s|
    ensures forall k :: i <= k < i + n ==> IsAmountChar(s[k])
    ensures i + n == |s| || !IsAmountChar(s[i + n])
    decreases |s| - i
  {
    if i < |s| && IsAmountChar(s[i]) then 1 + AmountRun(s, i + 1) else 0
  }

  /** A `$` at `p` that `\$[\d,]+` matches: one followed by a digit or a comma. */
  predicate DollarAt(s: string, p: int) {
    0 <= p && p + 1 < |s| && s[p] == '$' && IsAmountChar(s[p + 1])
  }

  /** `re.findall(r"\$[\d,]+", s[i..])`, each match without its `$`. */
  function DollarMatches(s: string, i: nat): (ms: seq<string>)
    requires i <= |s|
    ensures forall k :: 0 <= k < |ms| ==> ms[k] != [] && forall j :: 0 <= j < |ms[k]| ==> IsAmountChar(ms[k][j])
    ensures ms == [] <==> forall p :: i <= p < |s| ==> !DollarAt(s, p)
    decreases |s| - i
  {
    if i == |s| then []
    else if DollarAt(s, i) then
      var n := AmountRun(s, i + 1);
      var rest := DollarMatches(s, i + 1 + n);
      assert forall p :: i < p < i + 1 + n ==> !DollarAt(s, p);
      [s[i + 1..i + 1 + n]] + rest
    else
      DollarMatches(s, i + 1)
  }

  /** A match made of commas only, which leaves nothing to convert. */
  predicate CommasOnly(m: string) { forall j :: 0 <= j < |m| ==> m[j] == ',' }

  /** `match.replace("$", "").replace(",", "")`. */
  function RemoveCommas(m: string): (d: string)
    ensures |d| <= |m|
    ensures forall j :: 0 <= j < |d| ==> d[j] != ','
    ensures (forall j :: 0 <= j < |m| ==> IsAmountChar(m[j])) ==> AllDigits(d)
    ensures d == [] <==> CommasOnly(m)
  {
    if m == [] then []
    else (if m[0] == ',' then [] else [m[0]]) + RemoveCommas(m[1..])
  }

  /** The error `int("")` raises. */
  const EmptyIntError: string := "invalid literal for int() with base 10: ''"

  /** `int(match.replace("$", "").replace(",", ""))`. */
  function ParseAmount(m: string): (r: Result<nat>)
    ensures r.Err? <==> CommasOnly(m)
  {
    var d := RemoveCommas(m);
    if d == [] then Err(EmptyIntError) else Ok(DigitsValue(d))
  }

  /** The amounts list comprehension: the first failing conversion raises. */
  function ParseAmounts(ms: seq<string>): (r: Result<seq<nat>>)
    ensures r.Ok? <==> forall k :: 0 <= k < |ms| ==> ParseAmount(ms[k]).Ok?
    ensures r.Ok? ==> |r.value| == |ms| && forall k :: 0 <= k < |ms| ==> r.value[k] == ParseAmount(ms[k]).value
  {
    if ms == [] then Ok([])
    else
      match ParseAmount(ms[0])
      case Err(e) => Err(e)
      case Ok(a) =>
        match ParseAmounts(ms[1..])
        case Err(e) => Err(e)
        case Ok(rest) => Ok([a] + rest)
  }

  function SeqMin(s: seq<nat>): (m: nat)
    requires s != []
    ensures m in s && forall x :: x in s ==> m <= x
  {
    if |s| == 1 then s[0]
    else
      var m := SeqMin(s[1..]);
      assert forall x :: x in s ==> x == s[0] || x in s[1..];
      if s[0] <= m then s[0] else m
  }

  function SeqMax(s: seq<nat>): (m: nat)
    requires s != []
    ensures m in s && forall x :: x in s ==> x <= m
  {
    if |s| == 1 then s[0]
    else
      var m := SeqMax(s[1..]);
      assert forall x :: x in s ==> x == s[0] || x in s[1..];
      if s[0] >= m then s[0] else m
  }

  /** One match of `(\d+)\s*k(?:\s*[-–]\s*(\d+)\s*k)?`: the digits of each group, the second
      absent when the optional part does not match. The optional `per year` / `annum`
      suffixes consume no digit and change neither the groups nor later matches. */
  datatype KMatch = KMatch(low: string, high: Option<string>)

  predicate IsDash(c: char) { c == '-' || c == '\U{2013}' }

  /** The optional `\s*[-–]\s*(\d+)\s*k` part at `e`: its digits and where it ends. */
  function KUpperAt(s: string, e: nat): (r: Option<(string, nat)>)
    requires e <= |s|
    ensures r.Some? ==> e < r.value.1 <= |s| && r.value.0 != [] && AllDigits(r.value.0)
  {
    var a := SkipSpaces(s, e);
    if a < |s| && IsDash(s[a]) then
      var b := SkipSpaces(s, a + 1);
      var n := DigitRun(s, b);
      var c := SkipSpaces(s, b + n);
      DigitRunAllDigits(s, b);
      if n > 0 && c < |s| && s[c] == 'k' then Some((s[b..b + n], c + 1)) else None
    else None
  }

  /** The k-pattern matched at `i`, if it matches there, and where the match ends. */
  function KMatchAt(s: string, i: nat): (r: Option<(KMatch, nat)>)
    requires i <= |s|
    ensures r.Some? ==> i < r.value.1 <= |s|
    ensures r.Some? ==> (r.value.0.low != [] && AllDigits(r.value.0.low) &&
      i + |r.value.0.low| <= |s| && r.value.0.low == s[i..i + |r.value.0.low|])
    ensures r.Some? && r.value.0.high.Some? ==> r.value.0.high.value != [] && AllDigits(r.value.0.high.value)
  {
    var n := DigitRun(s, i);
    var j := SkipSpaces(s, i + n);
    if n > 0 && j < |s| && s[j] == 'k' then
      match KUpperAt(s, j + 1)
      case Some((hi, e)) => Some((KMatch(s[i..i + n], Some(hi)), e))
      case None => Some((KMatch(s[i..i + n], None), j + 1))
    else None
  }

  /** `re.findall(k_pattern, s[i..])`: scan left to right, resuming after each match. */
  function KMatches(s: string, i: nat): (ms: seq<KMatch>)
    requires i <= |s|
    decreases |s| - i
  {
    if i == |s| then []
    else
      match KMatchAt(s, i)
      case Some((m, e)) => [m] + KMatches(s, e)
      case None => KMatches(s, i + 1)
  }

  /** `int(match[1]) if match[1] else min_k`. */
  function UpperK(m: KMatch): nat {
    if m.high.Some? then DigitsValue(m.high.value) else DigitsValue(m.low)
  }

  /** The loop over `k_matches`: the first match whose upper value is positive. */
  function FirstPositiveK(ms: seq<KMatch>): (r: Option<SalaryRange>)
    ensures r.None? <==> forall k :: 0 <= k < |ms| ==> UpperK(ms[k]) == 0
    ensures r.Some? ==>
      exists k :: (0 <= k < |ms| && UpperK(ms[k]) > 0 &&
        (forall j :: 0 <= j < k ==> UpperK(ms[j]) == 0) &&
        r.value == SalaryRange(DigitsValue(ms[k].low) * 1000, UpperK(ms[k]) * 1000))
  {
    if ms == [] then None
    else if UpperK(ms[0]) > 0 then Some(SalaryRange(DigitsValue(ms[0].low) * 1000, UpperK(ms[0]) * 1000))
    else
      var r := FirstPositiveK(ms[1..]);
      assert forall k :: 1 <= k < |ms| ==> ms[k] == ms[1..][k - 1];
      r
  }

  /** The dollar branch: the smallest and the largest amount, or the conversion error. */
  function DollarRange(dollars: seq<string>): (r: Result<SalaryRange>)
    requires dollars != []
  {
    match ParseAmounts(dollars)
    case Err(e) => Err(e)
    case Ok(amounts) => Ok(SalaryRange(SeqMin(amounts), SeqMax(amounts)))
  }

  /** `extract_salary_range`: `Ok(None)` for Python's `None`, `Err` for the `ValueError`
      that `int("")` raises on a match such as `$,`. */
  function ExtractSalaryRange(text: string): Result<Option<SalaryRange>> {
    var l := Lower(text);
    var dollars := DollarMatches(l, 0);
    if dollars != [] then
      match DollarRange(dollars)
      case Err(e) => Err(e)
      case Ok(range) => Ok(Some(range))
    else
      Ok(FirstPositiveK(KMatches(l, 0)))
  }

  /** The `$` amounts of the text. */
  function Dollars(text: string): seq<string> {
    DollarMatches(Lower(text), 0)
  }

  /** Lower-casing changes neither digits nor the characters `$` and `,`. */
  lemma LowerKeepsAmountChars(text: string)
    ensures forall i :: 0 <= i < |text| ==>
      (IsDigit(Lower(text)[i]) <==> IsDigit(text[i])) &&
      (Lower(text)[i] == '$' <==> text[i] == '$') && (Lower(text)[i] == ',' <==> text[i] == ',')
  {
  }

  /** Where a `$` amount occurs, the dollar amounts alone decide the result: the
      k-notation is never consulted. */
  lemma DollarPrecedence(text: string)
    requires Dollars(text) != []
    ensures ExtractSalaryRange(text).Err? <==> DollarRange(Dollars(text)).Err?
    ensures ExtractSalaryRange(text).Ok? ==> ExtractSalaryRange(text).value == Some(DollarRange(Dollars(text)).value)
  {
  }

  /** The dollar branch fails exactly when some match holds no digit, and otherwise its
      minimum and maximum are amounts of the text (commas removed, no multiplier) that
      bound every other amount. */
  lemma DollarRangeBounds(dollars: seq<string>)
    requires dollars != []
    ensures DollarRange(dollars).Err? <==> exists k :: 0 <= k < |dollars| && CommasOnly(dollars[k])
    ensures DollarRange(dollars).Ok? ==>
      DollarRange(dollars).value.min <= DollarRange(dollars).value.max &&
      (exists k :: 0 <= k < |dollars| && DollarRange(dollars).value.min == DigitsValue(RemoveCommas(dollars[k]))) &&
      (exists k :: 0 <= k < |dollars| && DollarRange(dollars).value.max == DigitsValue(RemoveCommas(dollars[k]))) &&
      forall k :: 0 <= k < |dollars| ==>
        DollarRange(dollars).value.min <= DigitsValue(RemoveCommas(dollars[k])) <= DollarRange(dollars).value.max
  {
    var pa := ParseAmounts(dollars);
    if pa.Ok? {
      var amounts := pa.value;
      var lo, hi := SeqMin(amounts), SeqMax(amounts);
      assert DollarRange(dollars) == Ok(SalaryRange(lo, hi));
      forall k | 0 <= k < |dollars| ensures lo <= DigitsValue(RemoveCommas(dollars[k])) <= hi {
        assert ParseAmount(dollars[k]).Ok?;
        assert amounts[k] == DigitsValue(RemoveCommas(dollars[k]));
        assert amounts[k] in amounts;
      }
      var a :| 0 <= a < |amounts| && amounts[a] == lo;
      assert ParseAmount(dollars[a]).Ok? && lo == DigitsValue(RemoveCommas(dollars[a]));
      var b :| 0 <= b < |amounts| && amounts[b] == hi;
      assert ParseAmount(dollars[b]).Ok? && hi == DigitsValue(RemoveCommas(dollars[b]));
      forall k | 0 <= k < |dollars| ensures !CommasOnly(dollars[k]) {
        assert ParseAmount(dollars[k]).Ok?;
      }
    } else {
      assert DollarRange(dollars).Err?;
      var k :| 0 <= k < |dollars| && ParseAmount(dollars[k]).Err?;
      assert CommasOnly(dollars[k]);
    }
  }

  /** A single amount gives min = max. */
  lemma SingleAmount(dollars: seq<string>)
    requires |dollars| == 1 && DollarRange(dollars).Ok?
    ensures DollarRange(dollars).value.min == DollarRange(dollars).value.max == DigitsValue(RemoveCommas(dollars[0]))
  {
    DollarRangeBounds(dollars);
  }

  /** Without a `$` amount the k-notation decides: `None` exactly when no k-match has a
      positive upper value, and otherwise the first such match, times 1000 and in the
      order written. */
  lemma KPath(text: string)
    requires Dollars(text) == []
    ensures ExtractSalaryRange(text) == Ok(FirstPositiveK(KMatches(Lower(text), 0)))
    ensures ExtractSalaryRange(text).Ok? &&
      (ExtractSalaryRange(text).value.None? <==>
        forall k :: 0 <= k < |KMatches(Lower(text), 0)| ==> UpperK(KMatches(Lower(text), 0)[k]) == 0)
  {
    var ms := KMatches(Lower(text), 0);
    var r := FirstPositiveK(ms);
    assert r.None? <==> forall k :: 0 <= k < |ms| ==> UpperK(ms[k]) == 0;
  }

  /** Without a digit there is no k-match. */
  lemma {:induction false} NoDigitNoKMatch(s: string, i: nat)
    requires i <= |s|
    requires forall p :: i <= p < |s| ==> !IsDigit(s[p])
    ensures KMatches(s, i) == []
    decreases |s| - i
  {
    if i < |s| {
      assert KMatchAt(s, i).None?;
      NoDigitNoKMatch(s, i + 1);
    }
  }

  /** A text with no digit and no `$` has no salary. */
  lemma NoDigitNoSalary(text: string)
    requires forall i :: 0 <= i < |text| ==> !IsDigit(text[i]) && text[i] != '$'
    ensures ExtractSalaryRange(text) == Ok(None)
  {
    LowerKeepsAmountChars(text);
    NoDigitNoKMatch(Lower(text), 0);
  }

  /** `$,` is a dollar match without digits: `int("")` raises. */
  lemma CommaOnlyFails()
    ensures ExtractSalaryRange("$,") == Err(EmptyIntError)
  {
    var l := Lower("$,");
    assert l == "$,";
    assert DollarAt(l, 0);
    assert DollarMatches(l, 0) == [","] by {
      assert AmountRun(l, 1) == 1;
      assert DollarMatches(l, 2) == [];
      assert l[1..2] == ",";
      assert DollarMatches(l, 0) == [l[1..2]] + DollarMatches(l, 2);
    }
    assert RemoveCommas(",") == [];
  }

  lemma KExampleScan(l: string)
    requires l == "100k-50k"
    ensures SkipSpaces(l, 4) == 4 && SkipSpaces(l, 5) == 5 && SkipSpaces(l, 7) == 7
    ensures DigitRun(l, 5) == 2 && l[5..7] == "50"
  {
    assert l[4] == '-' && l[5] == '5' && l[6] == '0' && l[7] == 'k';
    SkipStops(l, 4);
    SkipStops(l, 5);
    SkipStops(l, 7);
    DigitRunStep(l, 5);
    DigitRunStep(l, 6);
    assert DigitRun(l, 7) == 0;
  }

  lemma KExampleUpper()
    ensures KUpperAt("100k-50k", 4) == Some(("50", 8))
  {
    var l := "100k-50k";
    KExampleScan(l);
    assert IsDash(l[4]) && l[7] == 'k';
  }

  lemma KExampleMatches()
    ensures KMatches("100k-50k", 0) == [KMatch("100", Some("50"))]
  {
    var l := "100k-50k";
    KExampleFirst();
    assert KMatches(l, 8) == [];
  }

  lemma KExampleFirst()
    ensures KMatchAt("100k-50k", 0) == Some((KMatch("100", Some("50")), 8))
  {
    KExampleLow("100k-50k");
    KExampleUpper();
  }

  lemma KExampleLow(l: string)
    requires l == "100k-50k"
    ensures DigitRun(l, 0) == 3 && SkipSpaces(l, 3) == 3 && l[3] == 'k' && l[0..3] == "100"
  {
    assert l[0] == '1' && l[1] == '0' && l[2] == '0' && l[3] == 'k';
    DigitRunStep(l, 0);
    DigitRunStep(l, 1);
    DigitRunStep(l, 2);
    assert DigitRun(l, 3) == 0;
    SkipStops(l, 3);
  }

  lemma KExampleValues()
    ensures DigitsValue("100") == 100 && DigitsValue("50") == 50
  {
    assert "100"[..2] == "10" && "10"[..1] == "1" && "1"[..0] == "";
    assert "50"[..1] == "5" && "5"[..0] == "";
  }

  /** The k-notation is not reordered: "100k-50k" gives min 100000 and max 50000. */
  lemma KNotReordered()
    ensures ExtractSalaryRange("100k-50k") == Ok(Some(SalaryRange(100000, 50000)))
  {
    var l := Lower("100k-50k");
    assert l == "100k-50k";
    assert Dollars("100k-50k") == [] by {
      assert forall p :: 0 <= p < |l| ==> l[p] != '$';
    }
    KExampleMatches();
    KExampleValues();
  }

  // ---------------------------------------------------------------- digit patterns

  /** `(\d+)\s*<word>s?` (`Single`) and `(\d+)\s*-\s*(\d+)\s*<word>s?` (`Range`). The
      optional plural `s` changes neither whether nor where a match starts, nor its groups. */
  datatype Pattern = Single(word: string) | Range(word: string)

  /** The groups of a match; `second` is empty for a `Single` pattern. */
  datatype Capture = Capture(first: string, second: string)

  /** What the pattern demands once its first group has ended at `e`: `\s*<word>` for
      `Single`, `\s*-\s*(\d+)\s*<word>` for `Range`. The result is the second group, empty
      for `Single`. */
  function PatternTail(s: string, e: nat, p: Pattern): (r: Option<string>)
    requires e <= |s|
    ensures r.Some? ==> AllDigits(r.value) && (p.Range? <==> r.value != [])
  {
    var a := SkipSpaces(s, e);
    match p
    case Single(w) => if OccursAt(s, w, a) then Some([]) else None
    case Range(w) =>
      if a < |s| && s[a] == '-' then
        var b := SkipSpaces(s, a + 1);
        var m := DigitRun(s, b);
        DigitRunAllDigits(s, b);
        if m > 0 && OccursAt(s, w, SkipSpaces(s, b + m)) then Some(s[b..b + m]) else None
      else None
  }

  /** Where the run of digits that starts at `i` ends. */
  function RunEnd(s: string, i: nat): (e: nat)
    requires i <= |s|
    ensures i <= e <= |s|
  {
    i + DigitRun(s, i)
  }

  /** The pattern matched at `i`, if it matches there. A `\d+` followed by `\s*` and then a
      non-digit must take the whole run of digits, so the matching is deterministic. */
  function CaptureAt(s: string, i: nat, p: Pattern): (r: Option<Capture>)
    requires i <= |s|
    ensures r.Some? ==> (r.value.first != [] && AllDigits(r.value.first) &&
      i + |r.value.first| <= |s| && r.value.first == s[i..i + |r.value.first|] &&
      (i + |r.value.first| == |s| || !IsDigit(s[i + |r.value.first|])))
    ensures r.Some? ==> (p.Range? <==> r.value.second != [])
    ensures r.Some? ==> AllDigits(r.value.second)
  {
    var n := DigitRun(s, i);
    if n == 0 then None
    else
      DigitRunAllDigits(s, i);
      match PatternTail(s, RunEnd(s, i), p)
      case Some(second) => Some(Capture(s[i..i + n], second))
      case None => None
  }

  /** `re.search(pattern, s[i..])`: the leftmost position where the pattern matches. */
  function Search(s: string, i: nat, p: Pattern): (r: Option<(nat, Capture)>)
    requires i <= |s|
    ensures r.Some? ==> i <= r.value.0 <= |s| && CaptureAt(s, r.value.0, p) == Some(r.value.1)
    decreases |s| - i
  {
    match CaptureAt(s, i, p)
    case Some(c) => Some((i, c))
    case None => if i == |s| then None else Search(s, i + 1, p)
  }

  /** `r` is a search result from `i` that no earlier match precedes: the pattern matches
      nowhere from `i` up to the position found, or nowhere from `i` on when nothing is. */
  ghost predicate NoMatchBefore(s: string, i: nat, p: Pattern, r: Option<(nat, Capture)>) {
    (r.Some? ==> forall j :: i <= j < r.value.0 && j <= |s| ==> CaptureAt(s, j, p).None?) &&
    (r.None? ==> forall j :: i <= j <= |s| ==> CaptureAt(s, j, p).None?)
  }

  /** The match found is the leftmost: the pattern matches nowhere before it, and nowhere
      at all when nothing is found. */
  lemma {:induction false} SearchLeftmost(s: string, i: nat, p: Pattern)
    requires i <= |s|
    ensures NoMatchBefore(s, i, p, Search(s, i, p))
    decreases |s| - i
  {
    if CaptureAt(s, i, p).Some? {
      SearchHere(s, i, p);
    } else if i == |s| {
      SearchAtEnd(s, i, p);
    } else {
      SearchLeftmost(s, i + 1, p);
      SearchSkips(s, i, p);
      LeftmostStep(s, i, p, Search(s, i + 1, p));
    }
  }

  lemma SearchHere(s: string, i: nat, p: Pattern)
    requires i <= |s| && CaptureAt(s, i, p).Some?
    ensures NoMatchBefore(s, i, p, Search(s, i, p))
  {
    assert Search(s, i, p).value.0 == i;
  }

  lemma SearchAtEnd(s: string, i: nat, p: Pattern)
    requires i == |s| && CaptureAt(s, i, p).None?
    ensures NoMatchBefore(s, i, p, Search(s, i, p))
  {
    assert Search(s, i, p).None?;
  }

  lemma SearchSkips(s: string, i: nat, p: Pattern)
    requires i < |s| && CaptureAt(s, i, p).None?
    ensures Search(s, i, p) == Search(s, i + 1, p)
  {
  }

  /** No match at `i` extends the stretch without matches that starts at `i + 1`. */
  lemma LeftmostStep(s: string, i: nat, p: Pattern, r: Option<(nat, Capture)>)
    requires i < |s| && CaptureAt(s, i, p).None? && NoMatchBefore(s, i + 1, p, r)
    ensures NoMatchBefore(s, i, p, r)
  {
  }

  /** The pattern matches at `i`: a run of digits, then the rest of the pattern. */
  predicate MatchesAt(s: string, i: nat, p: Pattern)
    requires i <= |s|
  {
    DigitRun(s, i) > 0 && PatternTail(s, RunEnd(s, i), p).Some?
  }

  lemma CaptureIffTail(s: string, i: nat, p: Pattern)
    requires i <= |s|
    ensures CaptureAt(s, i, p).Some? <==> MatchesAt(s, i, p)
  {
  }

  /** A match that starts inside a run of digits extends to the digit before it: whether
      the pattern matches depends only on where the run ends. */
  lemma MatchExtendsLeft(s: string, i: nat, p: Pattern)
    requires 0 < i <= |s| && IsDigit(s[i - 1]) && CaptureAt(s, i, p).Some?
    ensures CaptureAt(s, i - 1, p).Some?
  {
    DigitRunStep(s, i - 1);
    assert RunEnd(s, i - 1) == RunEnd(s, i);
    CaptureIffTail(s, i, p);
    CaptureIffTail(s, i - 1, p);
  }

  /** The leftmost match starts a maximal run of digits, so its first group is a whole
      number of the text: "12 rounds" reads 12, never 2. */
  lemma SearchWholeRun(s: string, p: Pattern)
    requires Search(s, 0, p).Some?
    ensures RunStart(s, Search(s, 0, p).value.0)
  {
    var j := Search(s, 0, p).value.0;
    SearchLeftmost(s, 0, p);
    if j > 0 && IsDigit(s[j - 1]) {
      MatchExtendsLeft(s, j, p);
      assert false;
    }
  }

  // ---------------------------------------------------------------- interview stages

  /** `INTERVIEW_STAGES`, in its insertion order. */
  const InterviewStages: seq<(string, seq<string>)> := [
    ("phone", ["phone screen", "initial call", "screening call"]),
    ("technical", ["coding challenge", "technical assessment", "coding test", "technical interview"]),
    ("system_design", ["system design", "architecture", "design interview"]),
    ("behavioral", ["behavioral", "culture fit", "team lunch", "onsite"])
  ]

  const StageNames: seq<string> := ["phone", "technical", "system_design", "behavioral"]

  /** `any(keyword in text_lower for keyword in keywords)`. */
  predicate Mentioned(l: string, keywords: seq<string>) {
    exists j :: 0 <= j < |keywords| && Contains(l, keywords[j])
  }

  /** The names of the entries, among the first `n` of `table`, that `l` mentions. */
  function StagesFound(l: string, table: seq<(string, seq<string>)>, n: nat): (r: seq<string>)
    requires n <= |table|
    ensures |r| <= n
  {
    if n == 0 then []
    else StagesFound(l, table, n - 1) + (if Mentioned(l, table[n - 1].1) then [table[n - 1].0] else [])
  }

  /** The stages the text mentions, before the rounds check. */
  function Stages(text: string): seq<string> {
    StagesFound(Lower(text), InterviewStages, |InterviewStages|)
  }

  /** `f"total_{rounds}_rounds"`. */
  function RoundsNote(rounds: nat): string {
    "total_" + NatToString(rounds) + "_rounds"
  }

  /** `re.search(r"(\d+)\s*rounds?", text_lower)`. */
  function RoundsMention(text: string): Option<(nat, Capture)> {
    Search(Lower(text), 0, Single("round"))
  }

  /** `detect_interview_stages`, as a value. */
  function InterviewStagesOf(text: string): seq<string> {
    var found := Stages(text);
    match RoundsMention(text)
    case Some((_, c)) =>
      if DigitsValue(c.first) > |found| then found + [RoundsNote(DigitsValue(c.first))] else found
    case None => found
  }

  /** `detect_interview_stages`: append each stage the text mentions, in table order, then
      the rounds note when the first rounds mention exceeds the stages found. */
  method DetectInterviewStages(text: string) returns (detected: seq<string>)
    ensures detected == InterviewStagesOf(text)
  {
    detected := [];
    var lowered := Lower(text);
    for k := 0 to |InterviewStages|
      invariant detected == StagesFound(lowered, InterviewStages, k)
    {
      if Mentioned(lowered, InterviewStages[k].1) {
        detected := detected + [InterviewStages[k].0];
      }
    }
    var m := Search(lowered, 0, Single("round"));
    if m.Some? {
      var rounds := DigitsValue(m.value.1.first);
      if rounds > |detected| {
        detected := detected + [RoundsNote(rounds)];
      }
    }
  }

  /** The table positions of the entries, among the first `n`, that `l` mentions. */
  ghost function StagePositions(l: string, table: seq<(string, seq<string>)>, n: nat): seq<nat>
    requires n <= |table|
  {
    if n == 0 then []
    else StagePositions(l, table, n - 1) + (if Mentioned(l, table[n - 1].1) then [n - 1] else [])
  }

  /** The found names are the names at increasing positions, exactly the mentioned ones. */
  lemma {:induction false} StagePositionsFacts(l: string, table: seq<(string, seq<string>)>, n: nat)
    requires n <= |table|
    ensures |StagePositions(l, table, n)| == |StagesFound(l, table, n)|
    ensures forall i :: 0 <= i < |StagePositions(l, table, n)| ==>
      StagePositions(l, table, n)[i] < n &&
      StagesFound(l, table, n)[i] == table[StagePositions(l, table, n)[i]].0 &&
      Mentioned(l, table[StagePositions(l, table, n)[i]].1)
    ensures forall i, j :: 0 <= i < j < |StagePositions(l, table, n)| ==>
      StagePositions(l, table, n)[i] < StagePositions(l, table, n)[j]
    ensures forall k :: 0 <= k < n && Mentioned(l, table[k].1) ==> k in StagePositions(l, table, n)
  {
    if n > 0 {
      StagePositionsFacts(l, table, n - 1);
      var ps', fs' := StagePositions(l, table, n - 1), StagesFound(l, table, n - 1);
      var ps, fs := StagePositions(l, table, n), StagesFound(l, table, n);
      if Mentioned(l, table[n - 1].1) {
        assert ps == ps' + [n - 1] && fs == fs' + [table[n - 1].0];
        forall i, j | 0 <= i < j < |ps| ensures ps[i] < ps[j] {
          assert ps[i] == ps'[i];
          if j < |ps'| { assert ps[j] == ps'[j]; }
        }
      } else {
        assert ps == ps' && fs == fs';
      }
    }
  }

  lemma StageNamesFacts()
    ensures |InterviewStages| == |StageNames| == 4
    ensures forall k :: 0 <= k < 4 ==> InterviewStages[k].0 == StageNames[k] && |StageNames[k]| <= 13
    ensures forall k :: 0 <= k < 4 ==> IndexOf(StageNames, StageNames[k]) == k
  {
  }

  /** The rounds note is longer than every stage name, so it is none of them. */
  lemma RoundsNoteNotStage(rounds: nat)
    ensures |RoundsNote(rounds)| >= 14
    ensures RoundsNote(rounds) !in StageNames
  {
    StageNamesFacts();
  }

  /** Stages appear in the order phone, technical, system_design, behavioral. */
  lemma StagesOrder(text: string)
    ensures forall i :: 0 <= i < |Stages(text)| ==> Stages(text)[i] in StageNames
    ensures forall i, j :: 0 <= i < j < |Stages(text)| ==>
      IndexOf(StageNames, Stages(text)[i]) < IndexOf(StageNames, Stages(text)[j])
  {
    StageNamesFacts();
    var l := Lower(text);
    StagePositionsFacts(l, InterviewStages, 4);
    var ps, fs := StagePositions(l, InterviewStages, 4), Stages(text);
    forall i | 0 <= i < |fs| ensures fs[i] in StageNames && IndexOf(StageNames, fs[i]) == ps[i] {
      assert fs[i] == StageNames[ps[i]];
    }
  }

  /** Every name found is the name of one of the first `n` entries. */
  lemma {:induction false} FoundNames(l: string, table: seq<(string, seq<string>)>, n: nat)
    requires n <= |table|
    ensures forall x :: x in StagesFound(l, table, n) ==> exists i :: 0 <= i < n && x == table[i].0
  {
    if n > 0 {
      FoundNames(l, table, n - 1);
    }
  }

  /** With distinct names, an entry's name is found exactly when the entry is mentioned. */
  lemma {:induction false} FoundIff(l: string, table: seq<(string, seq<string>)>, n: nat, k: nat)
    requires k < n <= |table|
    requires forall i, j :: 0 <= i < j < n ==> table[i].0 != table[j].0
    ensures table[k].0 in StagesFound(l, table, n) <==> Mentioned(l, table[k].1)
  {
    var prev := StagesFound(l, table, n - 1);
    assert StagesFound(l, table, n) == prev + (if Mentioned(l, table[n - 1].1) then [table[n - 1].0] else []);
    if k < n - 1 {
      FoundIff(l, table, n - 1, k);
      assert table[k].0 != table[n - 1].0;
    } else {
      FoundNames(l, table, n - 1);
      assert table[k].0 !in prev;
    }
  }

  /** Before the rounds check, a stage is listed exactly when one of its keywords occurs. */
  lemma StageFound(l: string, k: nat)
    requires k < |InterviewStages|
    ensures InterviewStages[k].0 in StagesFound(l, InterviewStages, 4) <==> Mentioned(l, InterviewStages[k].1)
  {
    StageNamesFacts();
    assert forall i, j :: 0 <= i < j < 4 ==> InterviewStages[i].0 != InterviewStages[j].0;
    FoundIff(l, InterviewStages, 4, k);
  }

  /** The rounds check adds no stage name and removes none. */
  lemma StageNameKept(text: string, x: string)
    requires x in StageNames
    ensures x in InterviewStagesOf(text) <==> x in Stages(text)
  {
    match RoundsMention(text)
    case Some((_, c)) => RoundsNoteNotStage(DigitsValue(c.first));
    case None =>
  }

  /** A stage is reported exactly when one of its keywords occurs in the lower-cased text. */
  lemma StagePresence(text: string, k: nat)
    requires k < |InterviewStages|
    ensures InterviewStages[k].0 in InterviewStagesOf(text) <==> Mentioned(Lower(text), InterviewStages[k].1)
  {
    StageNamesFacts();
    StageFound(Lower(text), k);
    StageNameKept(text, InterviewStages[k].0);
  }

  /** The stages found come first, unchanged; the rounds note is appended, as the last
      element, exactly when the first rounds mention gives more rounds than stages found. */
  lemma RoundsNoteAppended(text: string)
    ensures |Stages(text)| <= |InterviewStagesOf(text)| <= |Stages(text)| + 1
    ensures InterviewStagesOf(text)[..|Stages(text)|] == Stages(text)
    ensures |InterviewStagesOf(text)| == |Stages(text)| + 1 <==>
      RoundsMention(text).Some? && DigitsValue(RoundsMention(text).value.1.first) > |Stages(text)|
    ensures |InterviewStagesOf(text)| == |Stages(text)| + 1 ==>
      InterviewStagesOf(text)[|Stages(text)|] == RoundsNote(DigitsValue(RoundsMention(text).value.1.first))
  {
  }

  /** Each stage at most once, and at most five entries. */
  lemma StagesDistinct(text: string)
    ensures NoDuplicates(InterviewStagesOf(text))
    ensures |InterviewStagesOf(text)| <= 5
  {
    var fs, r := Stages(text), InterviewStagesOf(text);
    RoundsNoteAppended(text);
    StagesOrder(text);
    assert NoDuplicates(fs) by {
      forall i, j | 0 <= i < j < |fs| ensures fs[i] != fs[j] {
        assert IndexOf(StageNames, fs[i]) < IndexOf(StageNames, fs[j]);
      }
    }
    if |r| > |fs| {
      var note := r[|fs|];
      assert note !in StageNames by {
        RoundsNoteNotStage(DigitsValue(RoundsMention(text).value.1.first));
      }
      assert r == fs + [note];
      forall i, j | 0 <= i < j < |r| ensures r[i] != r[j] {
        if j < |fs| {
          assert r[i] == fs[i] && r[j] == fs[j];
        } else {
          assert r[i] == fs[i] && r[j] == note;
        }
      }
    } else {
      assert r == fs;
    }
  }

  lemma {:induction false} NothingMentioned(l: string, table: seq<(string, seq<string>)>, n: nat)
    requires n <= |table|
    requires forall k :: 0 <= k < n ==> !Mentioned(l, table[k].1)
    ensures StagesFound(l, table, n) == []
  {
    if n > 0 {
      NothingMentioned(l, table, n - 1);
    }
  }

  /** No keyword and no rounds mention: nothing is detected. */
  lemma NoStagesFound(text: string)
    requires forall k :: 0 <= k < |InterviewStages| ==> !Mentioned(Lower(text), InterviewStages[k].1)
    requires RoundsMention(text).None?
    ensures InterviewStagesOf(text) == []
  {
    NothingMentioned(Lower(text), InterviewStages, |InterviewStages|);
  }

  // ---------------------------------------------------------------- interview duration

  /** `duration_patterns`: each pattern with the unit its description names. */
  const DurationPatterns: seq<(Pattern, string)> :=
    [(Range("week"), "weeks"), (Range("month"), "months"), (Single("day"), "days")]

  /** The returned description: the captured digit strings, verbatim, and the unit. */
  function Describe(p: Pattern, c: Capture, unit: string): string {
    if p.Range? then c.first + "-" + c.second + " " + unit else c.first + " " + unit
  }

  /** The loop over the patterns: the first that matches anywhere in `l` wins. */
  function FirstDuration(l: string, patterns: seq<(Pattern, string)>): Option<string> {
    if patterns == [] then None
    else
      match Search(l, 0, patterns[0].0)
      case Some((_, c)) => Some(Describe(patterns[0].0, c, patterns[0].1))
      case None => FirstDuration(l, patterns[1..])
  }

  /** None of the first `k` patterns matches anywhere in `l`. */
  ghost predicate NoneBefore(l: string, patterns: seq<(Pattern, string)>, k: nat)
    requires k <= |patterns|
  {
    forall j :: 0 <= j < k ==> Search(l, 0, patterns[j].0).None?
  }

  /** The `k`-th pattern is the first that matches, and `value` describes its capture. */
  ghost predicate WinsAt(l: string, patterns: seq<(Pattern, string)>, k: nat, value: string) {
    k < |patterns| && NoneBefore(l, patterns, k) && Search(l, 0, patterns[k].0).Some? &&
    value == Describe(patterns[k].0, Search(l, 0, patterns[k].0).value.1, patterns[k].1)
  }

  /** The description is `None` exactly when no pattern matches, and otherwise comes
      from the first pattern that does. */
  lemma {:induction false} FirstDurationSpec(l: string, patterns: seq<(Pattern, string)>)
    ensures FirstDuration(l, patterns).None? <==> NoneBefore(l, patterns, |patterns|)
    ensures FirstDuration(l, patterns).Some? ==> exists k :: WinsAt(l, patterns, k, FirstDuration(l, patterns).value)
    decreases |patterns|
  {
    if patterns != [] {
      var found := Search(l, 0, patterns[0].0);
      if found.Some? {
        assert WinsAt(l, patterns, 0, FirstDuration(l, patterns).value);
      } else {
        FirstDurationSpec(l, patterns[1..]);
        NoneBeforeShift(l, patterns);
        if FirstDuration(l, patterns).Some? {
          var k :| WinsAt(l, patterns[1..], k, FirstDuration(l, patterns).value);
          WinsAtShift(l, patterns, k, FirstDuration(l, patterns).value);
        }
      }
    }
  }

  /** Past a first pattern that does not match, no match among all the patterns is no
      match among the rest. */
  lemma NoneBeforeShift(l: string, patterns: seq<(Pattern, string)>)
    requires patterns != [] && Search(l, 0, patterns[0].0).None?
    ensures NoneBefore(l, patterns, |patterns|) <==> NoneBefore(l, patterns[1..], |patterns| - 1)
  {
    assert forall j :: 1 <= j < |patterns| ==> patterns[j] == patterns[1..][j - 1];
  }

  /** Past a first pattern that does not match, the first match among the rest is the first
      match among all the patterns, one position later. */
  lemma WinsAtShift(l: string, patterns: seq<(Pattern, string)>, k: nat, value: string)
    requires patterns != [] && Search(l, 0, patterns[0].0).None?
    requires WinsAt(l, patterns[1..], k, value)
    ensures WinsAt(l, patterns, k + 1, value)
  {
    assert patterns[k + 1] == patterns[1..][k];
    forall j | 1 <= j < k + 1 ensures Search(l, 0, patterns[j].0).None? {
      assert patterns[j] == patterns[1..][j - 1];
    }
  }

  /** `estimate_interview_duration`. */
  function EstimateInterviewDuration(text: string): Option<string> {
    FirstDuration(Lower(text), DurationPatterns)
  }

  /** The weeks range is tried first, then the months range, then days; the first that
      matches anywhere wins, and its digit strings are echoed as written. */
  lemma DescribeUnits(c: Capture)
    ensures Describe(Range("week"), c, "weeks") == c.first + "-" + c.second + " weeks"
    ensures Describe(Range("month"), c, "months") == c.first + "-" + c.second + " months"
    ensures Describe(Single("day"), c, "days") == c.first + " days"
  {
    assert c.first + "-" + c.second + " " + "weeks" == c.first + "-" + c.second + (" " + "weeks");
    assert c.first + "-" + c.second + " " + "months" == c.first + "-" + c.second + (" " + "months");
    assert c.first + " " + "days" == c.first + (" " + "days");
  }

  lemma DurationOrder(text: string)
    ensures Search(Lower(text), 0, Range("week")).Some? ==>
      EstimateInterviewDuration(text) == Some(Search(Lower(text), 0, Range("week")).value.1.first + "-" +
        Search(Lower(text), 0, Range("week")).value.1.second + " weeks")
    ensures Search(Lower(text), 0, Range("week")).None? && Search(Lower(text), 0, Range("month")).Some? ==>
      EstimateInterviewDuration(text) == Some(Search(Lower(text), 0, Range("month")).value.1.first + "-" +
        Search(Lower(text), 0, Range("month")).value.1.second + " months")
    ensures (Search(Lower(text), 0, Range("week")).None? && Search(Lower(text), 0, Range("month")).None? &&
      Search(Lower(text), 0, Single("day")).Some?) ==>
      EstimateInterviewDuration(text) == Some(Search(Lower(text), 0, Single("day")).value.1.first + " days")
    ensures EstimateInterviewDuration(text).None? <==>
      Search(Lower(text), 0, Range("week")).None? && Search(Lower(text), 0, Range("month")).None? &&
      Search(Lower(text), 0, Single("day")).None?
  {
    var l := Lower(text);
    var ps := DurationPatterns;
    var w, m, d := Search(l, 0, Range("week")), Search(l, 0, Range("month")), Search(l, 0, Single("day"));
    assert ps[0].0 == Range("week") && ps[0].1 == "weeks";
    assert ps[1..] == [(Range("month"), "months"), (Single("day"), "days")];
    assert ps[1..][1..] == [(Single("day"), "days")];
    assert ps[1..][1..][1..] == [];
    if w.Some? {
      DescribeUnits(w.value.1);
      assert FirstDuration(l, ps) == Some(Describe(Range("week"), w.value.1, "weeks"));
    } else {
      assert FirstDuration(l, ps) == FirstDuration(l, ps[1..]);
      if m.Some? {
        DescribeUnits(m.value.1);
        assert FirstDuration(l, ps[1..]) == Some(Describe(Range("month"), m.value.1, "months"));
      } else {
        assert FirstDuration(l, ps[1..]) == FirstDuration(l, ps[1..][1..]);
        if d.Some? {
          DescribeUnits(d.value.1);
          assert FirstDuration(l, ps[1..][1..]) == Some(Describe(Single("day"), d.value.1, "days"));
        } else {
          assert FirstDuration(l, ps[1..][1..]) == FirstDuration(l, []);
        }
      }
    }
  }

  /** "phone screen" is reported as the phone stage. */
  lemma PhoneStageExample()
    ensures "phone" in InterviewStagesOf("phone screen")
  {
    var l := Lower("phone screen");
    assert l == "phone screen";
    assert OccursAt(l, InterviewStages[0].1[0], 0);
    StagePresence("phone screen", 0);
  }
}
