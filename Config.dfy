/** Application settings: the defaults of the `Settings` class and their override from the
    process environment, which is given here as a map from variable names to values. */
module Config {
  import opened Text

  datatype Settings = Settings(
    apiTitle: string,
    apiVersion: string,
    apiDescription: string,
    corsOrigins: seq<string>,
    corsAllowCredentials: bool,
    corsAllowMethods: seq<string>,
    corsAllowHeaders: seq<string>,
    logLevel: string,
    logFormat: string,
    ingestionTimeoutS: nat,
    ingestionAllowedNetlocs: seq<string>)

  /** The class attributes, which `cls()` starts from. */
  const DefaultSettings: Settings := Settings(
    "AJIPS - Automated Job Intelligence Profiling System",
    "1.1.0",
    "Analyze job postings with AI-powered insights",
    ["http://127.0.0.1:8000", "http://localhost:8000"],
    true,
    ["GET", "POST"],
    ["*"],
    "INFO",
    "json",
    10,
    ["linkedin.com", "indeed.com", "glassdoor.com", "monster.com", "ziprecruiter.com",
     "careerbuilder.com", "jobs.eu.lever.co", "boards.greenhouse.io", "jobs.github.com", "wellfound.com"])

  // ---------------------------------------------------------------- comma lists

  /** `s.split(",")`: the pieces between commas, one more than there are commas. */
  function SplitComma(s: string): (parts: seq<string>)
    ensures |parts| >= 1
    ensures forall k :: 0 <= k < |parts| ==> ',' !in parts[k]
  {
    if s == [] then [""]
    else
      var rest := SplitComma(s[1..]);
      if s[0] == ',' then [""] + rest else [[s[0]] + rest[0]] + rest[1..]
  }

  /** `",".join(parts)`, the inverse of `SplitComma`. */
  function JoinComma(parts: seq<string>): string
    requires parts != []
  {
    if |parts| == 1 then parts[0] else parts[0] + "," + JoinComma(parts[1..])
  }

  lemma {:induction false} JoinSplit(s: string)
    ensures JoinComma(SplitComma(s)) == s
  {
    if s != [] {
      JoinSplit(s[1..]);
      var rest := SplitComma(s[1..]);
      if s[0] == ',' {
        assert SplitComma(s) == [""] + rest;
        assert s == "" + "," + s[1..];
      } else {
        var parts := SplitComma(s);
        assert parts == [[s[0]] + rest[0]] + rest[1..];
        if |rest| == 1 {
          assert s == [s[0]] + s[1..];
        } else {
          assert parts[1..] == rest[1..];
          assert JoinComma(rest) == rest[0] + "," + JoinComma(rest[1..]);
          assert s == [s[0]] + s[1..];
        }
      }
    }
  }

  lemma {:induction false} SplitJoin(parts: seq<string>)
    requires parts != [] && forall k :: 0 <= k < |parts| ==> ',' !in parts[k]
    ensures SplitComma(JoinComma(parts)) == parts
    decreases |parts|, |parts[0]|
  {
    var p := parts[0];
    if |parts| == 1 {
      SplitNoComma(p);
    } else {
      var j := JoinComma(parts);
      assert j == p + "," + JoinComma(parts[1..]);
      if p == [] {
        SplitJoin(parts[1..]);
        assert j[1..] == JoinComma(parts[1..]);
      } else {
        var parts' := [p[1..]] + parts[1..];
        assert parts'[1..] == parts[1..];
        assert JoinComma(parts') == p[1..] + "," + JoinComma(parts[1..]);
        assert j[1..] == JoinComma(parts');
        assert ',' !in p[1..] by { assert forall c :: c in p[1..] ==> c in p; }
        SplitJoin(parts');
        assert [p[0]] + p[1..] == p;
      }
    }
  }

  lemma {:induction false} SplitNoComma(s: string)
    requires ',' !in s
    ensures SplitComma(s) == [s]
  {
    if s != [] {
      assert ',' !in s[1..] by { assert forall c :: c in s[1..] ==> c in s; }
      SplitNoComma(s[1..]);
      assert [s[0]] + s[1..] == s;
    }
  }

  /** A string with nothing to strip at either end is its own `strip`. */
  lemma StripTrimmed(s: string, chars: set<char>)
    requires s != [] && s[0] !in chars && s[|s| - 1] !in chars
    ensures Strip(s, chars) == s
  {
  }

  /** An item of a cleaned list: not empty, no surrounding whitespace, no comma. */
  predicate CleanItem(x: string) {
    x != [] && !IsSpace(x[0]) && !IsSpace(x[|x| - 1]) && ',' !in x
  }

  /** `[p.strip() for p in parts if p.strip()]`. */
  function CleanItems(parts: seq<string>): (items: seq<string>)
    ensures |items| <= |parts|
  {
    if parts == [] then []
    else
      var t := Strip(parts[0], Whitespace);
      (if t != [] then [t] else []) + CleanItems(parts[1..])
  }

  /** `[p.strip() for p in parts]`. */
  function StripAll(parts: seq<string>): (r: seq<string>)
    ensures |r| == |parts|
    ensures forall k :: 0 <= k < |parts| ==> r[k] == Strip(parts[k], Whitespace)
  {
    if parts == [] then [] else [Strip(parts[0], Whitespace)] + StripAll(parts[1..])
  }

  /** An item is kept exactly when some part strips to it and it is not empty. */
  lemma {:induction false} CleanItemsMembers(parts: seq<string>)
    ensures forall x :: x in CleanItems(parts) <==> x != [] && x in StripAll(parts)
  {
    if parts != [] {
      CleanItemsMembers(parts[1..]);
      var t := Strip(parts[0], Whitespace);
      assert CleanItems(parts) == (if t != [] then [t] else []) + CleanItems(parts[1..]);
      assert StripAll(parts) == [t] + StripAll(parts[1..]);
    }
  }

  /** The value of a comma-separated variable as `from_env` reads it. */
  function CommaList(s: string): seq<string> {
    CleanItems(SplitComma(s))
  }

  /** Stripping keeps a string free of commas. */
  lemma StripNoComma(p: string, chars: set<char>)
    requires ',' !in p
    ensures ',' !in Strip(p, chars)
  {
    var x := Strip(p, chars);
    var o := StripOffset(p, chars);
    forall m | 0 <= m < |x| ensures x[m] != ',' {
      assert x[m] == p[o + m];
    }
  }

  /** A comma-free part that does not strip to nothing strips to a clean item. */
  lemma StripClean(p: string)
    requires ',' !in p && Strip(p, Whitespace) != []
    ensures CleanItem(Strip(p, Whitespace))
  {
    StripEnds(p, Whitespace);
  }

  /** What `strip` leaves of a comma-free part: comma-free, with neither end in `chars`. */
  lemma StripEnds(p: string, chars: set<char>)
    requires ',' !in p && Strip(p, chars) != []
    ensures Strip(p, chars)[0] !in chars && Strip(p, chars)[|Strip(p, chars)| - 1] !in chars
    ensures ',' !in Strip(p, chars)
  {
    StripNoComma(p, chars);
  }

  /** Every item of a comma list is a clean item. */
  lemma CommaListClean(s: string)
    ensures forall x :: x in CommaList(s) ==> CleanItem(x)
  {
    var parts := SplitComma(s);
    var ts := StripAll(parts);
    CleanItemsMembers(parts);
    forall x | x in CommaList(s) ensures CleanItem(x) {
      var k :| 0 <= k < |ts| && ts[k] == x;
      StripClean(parts[k]);
    }
  }

  /** Joining clean items with commas and reading the list back gives the items. */
  lemma CommaListRoundTrip(items: seq<string>)
    requires items != [] && forall k :: 0 <= k < |items| ==> CleanItem(items[k])
    ensures CommaList(JoinComma(items)) == items
  {
    SplitJoin(items);
    CleanItemsFixed(items);
  }

  lemma {:induction false} CleanItemsFixed(items: seq<string>)
    requires forall k :: 0 <= k < |items| ==> CleanItem(items[k])
    ensures CleanItems(items) == items
  {
    if items != [] {
      StripTrimmed(items[0], Whitespace);
      CleanItemsFixed(items[1..]);
    }
  }

  lemma {:induction false} BlankPieces(s: string)
    requires forall i :: 0 <= i < |s| ==> IsSpace(s[i]) || s[i] == ','
    ensures forall k :: 0 <= k < |SplitComma(s)| ==> forall i :: 0 <= i < |SplitComma(s)[k]| ==> IsSpace(SplitComma(s)[k][i])
  {
    if s != [] {
      BlankPieces(s[1..]);
    }
  }

  /** A value made only of commas and whitespace gives the empty list, not the default. */
  lemma BlankCommaList(s: string)
    requires forall i :: 0 <= i < |s| ==> IsSpace(s[i]) || s[i] == ','
    ensures CommaList(s) == []
  {
    var parts := SplitComma(s);
    BlankPieces(s);
    forall k | 0 <= k < |parts| ensures Strip(parts[k], Whitespace) == [] {
      StripLeftBlank(parts[k], Whitespace);
    }
    CleanItemsBlank(parts);
  }

  lemma {:induction false} StripLeftBlank(p: string, chars: set<char>)
    requires forall i :: 0 <= i < |p| ==> p[i] in chars
    ensures StripLeft(p, chars) == []
  {
    if p != [] {
      StripLeftBlank(p[1..], chars);
    }
  }

  lemma {:induction false} CleanItemsBlank(parts: seq<string>)
    requires forall k :: 0 <= k < |parts| ==> Strip(parts[k], Whitespace) == []
    ensures CleanItems(parts) == []
  {
    if parts != [] {
      CleanItemsBlank(parts[1..]);
    }
  }

  // ---------------------------------------------------------------- environment

  /** `os.getenv(name)` is truthy: the variable is set and not empty. */
  predicate EnvSet(env: map<string, string>, name: string) {
    name in env && env[name] != []
  }

  /** `str.isdigit()`: not empty and all digits. */
  predicate IsDigitString(s: string) {
    s != [] && AllDigits(s)
  }

  /** The override of `cors_origins`: the parsed variable when it is set. */
  function WithOrigins(env: map<string, string>, s: Settings): Settings {
    if EnvSet(env, "CORS_ORIGINS") then s.(corsOrigins := CommaList(env["CORS_ORIGINS"])) else s
  }

  /** The override of `log_level`: the variable upper-cased when it is set. */
  function WithLogLevel(env: map<string, string>, s: Settings): Settings {
    if EnvSet(env, "LOG_LEVEL") then s.(logLevel := Upper(env["LOG_LEVEL"])) else s
  }

  /** The override of `log_format`: the variable lower-cased when it is set. */
  function WithLogFormat(env: map<string, string>, s: Settings): Settings {
    if EnvSet(env, "LOG_FORMAT") then s.(logFormat := Lower(env["LOG_FORMAT"])) else s
  }

  /** The override of `ingestion_timeout_s`: the number written, when the variable is set
      and all digits. */
  function WithTimeout(env: map<string, string>, s: Settings): Settings {
    if EnvSet(env, "INGESTION_TIMEOUT_S") && IsDigitString(env["INGESTION_TIMEOUT_S"])
    then s.(ingestionTimeoutS := DigitsValue(env["INGESTION_TIMEOUT_S"])) else s
  }

  /** The override of `ingestion_allowed_netlocs`: the parsed variable when it is set. */
  function WithNetlocs(env: map<string, string>, s: Settings): Settings {
    if EnvSet(env, "INGESTION_ALLOWED_NETLOCS")
    then s.(ingestionAllowedNetlocs := CommaList(env["INGESTION_ALLOWED_NETLOCS"])) else s
  }

  /** `Settings.from_env`, as a value: the defaults with the five overrides applied in turn. */
  function SettingsFromEnv(env: map<string, string>): Settings {
    WithNetlocs(env, WithTimeout(env, WithLogFormat(env, WithLogLevel(env, WithOrigins(env, DefaultSettings)))))
  }

  /** `Settings.from_env`: start from the defaults and overwrite each field whose variable
      is set, one after the other. */
  method FromEnv(env: map<string, string>) returns (settings: Settings)
    ensures settings == SettingsFromEnv(env)
  {
    settings := DefaultSettings;
    if "CORS_ORIGINS" in env && env["CORS_ORIGINS"] != [] {
      settings := settings.(corsOrigins := CommaList(env["CORS_ORIGINS"]));
    }
    assert settings == WithOrigins(env, DefaultSettings);
    if "LOG_LEVEL" in env && env["LOG_LEVEL"] != [] {
      settings := settings.(logLevel := Upper(env["LOG_LEVEL"]));
    }
    assert settings == WithLogLevel(env, WithOrigins(env, DefaultSettings));
    if "LOG_FORMAT" in env && env["LOG_FORMAT"] != [] {
      settings := settings.(logFormat := Lower(env["LOG_FORMAT"]));
    }
    assert settings == WithLogFormat(env, WithLogLevel(env, WithOrigins(env, DefaultSettings)));
    if "INGESTION_TIMEOUT_S" in env && env["INGESTION_TIMEOUT_S"] != [] && AllDigits(env["INGESTION_TIMEOUT_S"]) {
      settings := settings.(ingestionTimeoutS := DigitsValue(env["INGESTION_TIMEOUT_S"]));
    }
    assert settings == WithTimeout(env, WithLogFormat(env, WithLogLevel(env, WithOrigins(env, DefaultSettings))));
    if "INGESTION_ALLOWED_NETLOCS" in env && env["INGESTION_ALLOWED_NETLOCS"] != [] {
      settings := settings.(ingestionAllowedNetlocs := CommaList(env["INGESTION_ALLOWED_NETLOCS"]));
    }
  }

  /** The variables `from_env` reads. */
  const EnvNames: set<string> :=
    {"CORS_ORIGINS", "LOG_LEVEL", "LOG_FORMAT", "INGESTION_TIMEOUT_S", "INGESTION_ALLOWED_NETLOCS"}

  /** With none of its variables set, `from_env` gives the defaults. */
  lemma UnsetGivesDefaults(env: map<string, string>)
    requires forall name :: name in EnvNames ==> !EnvSet(env, name)
    ensures SettingsFromEnv(env) == DefaultSettings
  {
    assert !EnvSet(env, "CORS_ORIGINS") && !EnvSet(env, "LOG_LEVEL") && !EnvSet(env, "LOG_FORMAT");
    assert !EnvSet(env, "INGESTION_TIMEOUT_S") && !EnvSet(env, "INGESTION_ALLOWED_NETLOCS");
  }

  /** Only the five variables matter, and the API and CORS flag fields never change. */
  lemma OtherVariablesIgnored(env: map<string, string>, env': map<string, string>)
    requires forall name :: name in EnvNames ==>
      (name in env <==> name in env') && (name in env ==> env[name] == env'[name])
    ensures SettingsFromEnv(env) == SettingsFromEnv(env')
    ensures FixedFields(SettingsFromEnv(env))
  {
    assert "CORS_ORIGINS" in EnvNames && "LOG_LEVEL" in EnvNames && "LOG_FORMAT" in EnvNames;
    assert "INGESTION_TIMEOUT_S" in EnvNames && "INGESTION_ALLOWED_NETLOCS" in EnvNames;
    var s1 := WithOrigins(env, DefaultSettings);
    assert s1 == WithOrigins(env', DefaultSettings) && FixedFields(s1);
    var s2 := WithLogLevel(env, s1);
    assert s2 == WithLogLevel(env', s1) && FixedFields(s2);
    var s3 := WithLogFormat(env, s2);
    assert s3 == WithLogFormat(env', s2) && FixedFields(s3);
    var s4 := WithTimeout(env, s3);
    assert s4 == WithTimeout(env', s3) && FixedFields(s4);
    assert WithNetlocs(env, s4) == WithNetlocs(env', s4);
  }

  /** The API fields and the CORS flags keep their defaults: no variable sets them. */
  predicate FixedFields(s: Settings) {
    && s.apiTitle == DefaultSettings.apiTitle
    && s.apiVersion == DefaultSettings.apiVersion
    && s.apiDescription == DefaultSettings.apiDescription
    && s.corsAllowCredentials
    && s.corsAllowMethods == ["GET", "POST"]
    && s.corsAllowHeaders == ["*"]
  }

  /** The log level is the variable upper-cased and the log format the variable lower-cased,
      each read from its own variable alone, with "INFO" and "json" when unset. */
  lemma LogCase(env: map<string, string>)
    ensures SettingsFromEnv(env).logLevel == if EnvSet(env, "LOG_LEVEL") then Upper(env["LOG_LEVEL"]) else "INFO"
    ensures SettingsFromEnv(env).logFormat == if EnvSet(env, "LOG_FORMAT") then Lower(env["LOG_FORMAT"]) else "json"
    ensures forall i :: 0 <= i < |SettingsFromEnv(env).logLevel| ==> !IsLower(SettingsFromEnv(env).logLevel[i])
    ensures NoUpper(SettingsFromEnv(env).logFormat)
    ensures EnvSet(env, "LOG_LEVEL") ==> |SettingsFromEnv(env).logLevel| == |env["LOG_LEVEL"]|
  {
    var s := SettingsFromEnv(env);
    if !EnvSet(env, "LOG_LEVEL") {
      assert s.logLevel == "INFO";
    }
    if !EnvSet(env, "LOG_FORMAT") {
      assert s.logFormat == "json";
    }
  }

  /** The timeout is taken exactly when the variable is a non-empty digit string, and then
      it is the number written; anything else keeps 10. */
  lemma TimeoutAccepted(env: map<string, string>)
    ensures "INGESTION_TIMEOUT_S" in env && IsDigitString(env["INGESTION_TIMEOUT_S"]) ==>
      SettingsFromEnv(env).ingestionTimeoutS == DigitsValue(env["INGESTION_TIMEOUT_S"])
    ensures !("INGESTION_TIMEOUT_S" in env && IsDigitString(env["INGESTION_TIMEOUT_S"])) ==>
      SettingsFromEnv(env).ingestionTimeoutS == 10
  {
  }

  /** Writing a number as the variable's value reads that number back. */
  lemma TimeoutRoundTrip(env: map<string, string>, n: nat)
    ensures SettingsFromEnv(env["INGESTION_TIMEOUT_S" := NatToString(n)]).ingestionTimeoutS == n
  {
    var e := env["INGESTION_TIMEOUT_S" := NatToString(n)];
    assert EnvSet(e, "INGESTION_TIMEOUT_S") && IsDigitString(e["INGESTION_TIMEOUT_S"]);
  }

  /** The origins field: the parsed variable when it is set, the default otherwise. */
  lemma OriginsField(env: map<string, string>)
    ensures SettingsFromEnv(env).corsOrigins ==
      if EnvSet(env, "CORS_ORIGINS") then CommaList(env["CORS_ORIGINS"]) else DefaultSettings.corsOrigins
  {
  }

  /** The netlocs field: the parsed variable when it is set, the default otherwise. */
  lemma NetlocsField(env: map<string, string>)
    ensures SettingsFromEnv(env).ingestionAllowedNetlocs ==
      if EnvSet(env, "INGESTION_ALLOWED_NETLOCS") then CommaList(env["INGESTION_ALLOWED_NETLOCS"])
      else DefaultSettings.ingestionAllowedNetlocs
  {
  }

  /** Origins and netlocs written as a comma list of clean items are read back as that list. */
  lemma ListsRoundTrip(env: map<string, string>, origins: seq<string>, netlocs: seq<string>)
    requires origins != [] && forall k :: 0 <= k < |origins| ==> CleanItem(origins[k])
    requires netlocs != [] && forall k :: 0 <= k < |netlocs| ==> CleanItem(netlocs[k])
    ensures SettingsFromEnv(env["CORS_ORIGINS" := JoinComma(origins)]).corsOrigins == origins
    ensures SettingsFromEnv(env["INGESTION_ALLOWED_NETLOCS" := JoinComma(netlocs)]).ingestionAllowedNetlocs == netlocs
  {
    var o, n := JoinComma(origins), JoinComma(netlocs);
    CommaListRoundTrip(origins);
    CommaListRoundTrip(netlocs);
    assert o != [] by { NonEmptyJoin(origins); }
    assert n != [] by { NonEmptyJoin(netlocs); }
    var e1 := env["CORS_ORIGINS" := o];
    assert e1["CORS_ORIGINS"] == o;
    OriginsField(e1);
    var e2 := env["INGESTION_ALLOWED_NETLOCS" := n];
    assert e2["INGESTION_ALLOWED_NETLOCS"] == n;
    NetlocsField(e2);
  }

  lemma NonEmptyJoin(items: seq<string>)
    requires items != [] && items[0] != []
    ensures JoinComma(items) != []
  {
  }

  /** The log and timeout values of the settings test: "debug", "text" and "15". */
  lemma LogAndTimeoutExample()
    ensures SettingsFromEnv(map["LOG_LEVEL" := "debug", "LOG_FORMAT" := "text", "INGESTION_TIMEOUT_S" := "15"]) ==
      DefaultSettings.(logLevel := "DEBUG", logFormat := "text", ingestionTimeoutS := 15)
  {
    var env := map["LOG_LEVEL" := "debug", "LOG_FORMAT" := "text", "INGESTION_TIMEOUT_S" := "15"];
    assert Upper("debug") == "DEBUG";
    assert Lower("text") == "text";
    assert DigitsValue("15") == 15 by {
      assert "15"[..1] == "1" && "1"[..0] == "";
    }
    assert !EnvSet(env, "CORS_ORIGINS") && !EnvSet(env, "INGESTION_ALLOWED_NETLOCS");
  }
}
