/** The per-warehouse table of dialect fingerprint rules
    (`WAREHOUSE_PATTERNS`) and the label a scan reports for a rule that
    fires. Each rule is the source text of a case-insensitive regular
    expression; the comments beside the rules in the table are not part of
    the strings. */
module Catalog {
  import opened Strings
  import opened Paths
  import opened Project

  /** The warehouse tags, in the table's key order. */
  const Warehouses: seq<string> := ["snowflake", "bigquery", "redshift", "postgres"]

  const SnowflakeRules: seq<string> := [
    @"\bIFF\s*\(",
    @"\bFLATTEN\s*\(",
    @"\bLATERAL\s+FLATTEN",
    @"\bVARIANT\b",
    @"\bQUALIFY\b",
    @"\$\d+",
    @"::\s*VARIANT",
    @"ARRAY_AGG\s*\([^)]*\)\s+WITHIN\s+GROUP"
  ]

  const BigQueryRules: seq<string> := [
    @"\bSTRUCT\s*\(",
    @"\bARRAY\s*\[",
    @"\bUNNEST\s*\(",
    @"\bSAFE_CAST\s*\(",
    @"\bFORMAT_DATE\s*\(",
    @"\bPARSE_DATE\s*\(",
    @"`[^`]+\.[^`]+\.[^`]+`",
    @"\bGENERATE_UUID\s*\("
  ]

  const RedshiftRules: seq<string> := [
    @"\bDISTKEY\b",
    @"\bSORTKEY\b",
    @"\bCOPY\s+",
    @"\bUNLOAD\s+",
    @"\bLISTAGG\s*\(",
    @"\bDATEADD\s*\(",
    @"\bDATEDIFF\s*\(",
    @"\bGETDATE\s*\("
  ]

  const PostgresRules: seq<string> := [
    @"::\s*\w+",
    @"\bGENERATE_SERIES\s*\(",
    @"\bARRAY_AGG\s*\(",
    @"\bSTRING_AGG\s*\(",
    @"\bREGEXP_MATCHES\s*\(",
    @"\bJSONB\b",
    @"\bCROSSTAB\s*\("
  ]

  /** `WAREHOUSE_PATTERNS` itself. */
  const Patterns: map<string, seq<string>> := map[
    "snowflake" := SnowflakeRules,
    "bigquery" := BigQueryRules,
    "redshift" := RedshiftRules,
    "postgres" := PostgresRules
  ]

  /** `WAREHOUSE_PATTERNS.get(key)`: the rules of a warehouse, or None for a
      key the table does not have (the lookup is exact; callers lower-case
      first). */
  function PatternsFor(key: string): (r: Option<seq<string>>)
    ensures r.Some? <==> key in Warehouses
    ensures r.Some? ==> 0 < |r.value| <= 8
  {
    if key in Patterns then Some(Patterns[key]) else None
  }

  /** No two entries of `s` are equal. */
  predicate Distinct(s: seq<string>)
  {
    forall i, j :: 0 <= i < j < |s| ==> s[i] != s[j]
  }

  /** Python's whitespace for `str.strip`, restricted to ASCII. */
  predicate IsSpace(c: char)
  {
    c == ' ' || c == '\t' || c == '\n' || c == '\r' || c == '\U{B}' || c == '\U{C}'
    || c == '\U{1C}' || c == '\U{1D}' || c == '\U{1E}' || c == '\U{1F}'
  }

  /** `r` is `s[i..j]`, and everything of `s` outside `i..j` is
      whitespace. */
  ghost predicate TrimmedTo(s: string, r: string, i: int, j: int)
  {
    && 0 <= i <= j <= |s| && r == s[i..j]
    && (forall k :: 0 <= k < i ==> IsSpace(s[k]))
    && (forall k :: j <= k < |s| ==> IsSpace(s[k]))
  }

  /** `s.strip()`. */
  function Strip(s: string): (r: string)
    ensures |r| <= |s|
    ensures r != [] ==> !IsSpace(r[0]) && !IsSpace(r[|r| - 1])
    decreases |s|
  {
    if s == [] then s
    else if IsSpace(s[0]) then Strip(s[1..])
    else if IsSpace(s[|s| - 1]) then Strip(s[..|s| - 1])
    else s
  }

  /** `strip()` removes whitespace from the two ends of `s` and nothing
      else: its result is a slice of `s` with only whitespace around it. */
  lemma {:induction false} StripTrimsEnds(s: string)
    ensures exists i, j :: TrimmedTo(s, Strip(s), i, j)
    decreases |s|
  {
    if s == [] {
      assert TrimmedTo(s, Strip(s), 0, 0);
    } else if IsSpace(s[0]) {
      StripTrimsEnds(s[1..]);
      var i, j :| TrimmedTo(s[1..], Strip(s[1..]), i, j);
      TrimmedBehindSpace(s, Strip(s), i, j);
    } else if IsSpace(s[|s| - 1]) {
      StripTrimsEnds(s[..|s| - 1]);
      var i, j :| TrimmedTo(s[..|s| - 1], Strip(s[..|s| - 1]), i, j);
      TrimmedBeforeSpace(s, Strip(s), i, j);
    } else {
      assert Strip(s) == s == s[0..|s|];
      assert TrimmedTo(s, Strip(s), 0, |s|);
    }
  }

  /** A leading space widens the trimmed margin by one. */
  lemma TrimmedBehindSpace(s: string, r: string, i: int, j: int)
    requires s != [] && IsSpace(s[0]) && TrimmedTo(s[1..], r, i, j)
    ensures TrimmedTo(s, r, i + 1, j + 1)
  {
    assert r == s[i + 1..j + 1];
    forall k | 0 < k < i + 1
      ensures IsSpace(s[k])
    {
      assert s[k] == s[1..][k - 1];
    }
    forall k | j + 1 <= k < |s|
      ensures IsSpace(s[k])
    {
      assert s[k] == s[1..][k - 1];
    }
  }

  /** A trailing space widens the trimmed margin by one. */
  lemma TrimmedBeforeSpace(s: string, r: string, i: int, j: int)
    requires s != [] && IsSpace(s[|s| - 1]) && TrimmedTo(s[..|s| - 1], r, i, j)
    ensures TrimmedTo(s, r, i, j)
  {
    assert r == s[i..j];
    forall k | 0 <= k < i
      ensures IsSpace(s[k])
    {
      assert s[k] == s[..|s| - 1][k];
    }
    forall k | j <= k < |s| - 1
      ensures IsSpace(s[k])
    {
      assert s[k] == s[..|s| - 1][k];
    }
  }

  /** The label reported for a rule that fires: the stripped text after the
      last `#` when the rule string has one, else the rule string itself. */
  function Label(rule: string): (r: string)
    ensures '#' !in rule ==> r == rule
    ensures '#' in rule ==> r == Strip(rule[LastIndexOf(rule, '#') + 1..])
    ensures '#' !in r
  {
    if '#' in rule then
      var t := rule[LastIndexOf(rule, '#') + 1..];
      var r := Strip(t);
      assert '#' !in r by {
        StripTrimsEnds(t);
        var i, j :| TrimmedTo(t, r, i, j);
        assert forall k :: 0 <= k < |r| ==> r[k] == t[i + k];
      }
      r
    else rule
  }

  /** The table has the four warehouse keys, with 8, 8, 8 and 7 rules. */
  lemma PatternsShape()
    ensures Patterns.Keys == set w | w in Warehouses
    ensures |Patterns["snowflake"]| == 8 && |Patterns["bigquery"]| == 8
    ensures |Patterns["redshift"]| == 8 && |Patterns["postgres"]| == 7
  {
  }

  /** No rule string of the table contains `#`. */
  predicate NoHash(rules: seq<string>)
  {
    forall r :: r in rules ==> '#' !in r
  }

  lemma SnowflakeRulesDistinct()
    ensures Distinct(SnowflakeRules)
  {
  }

  lemma SnowflakeRulesHaveNoHash()
    ensures NoHash(SnowflakeRules)
  {
  }

  lemma BigQueryRulesDistinct()
    ensures Distinct(BigQueryRules)
  {
  }

  lemma BigQueryRulesHaveNoHash()
    ensures NoHash(BigQueryRules)
  {
  }

  lemma RedshiftRulesDistinct()
    ensures Distinct(RedshiftRules)
  {
  }

  lemma RedshiftRulesHaveNoHash()
    ensures NoHash(RedshiftRules)
  {
  }

  lemma PostgresRulesDistinct()
    ensures Distinct(PostgresRules)
  {
  }

  lemma PostgresRulesHaveNoHash()
    ensures NoHash(PostgresRules)
  {
  }

  /** Within each warehouse the rule strings are pairwise different, and none
      contains `#`, so the label of each is the rule string itself. */
  lemma RulesAreTheirOwnLabels(key: string)
    requires key in Patterns
    ensures Distinct(Patterns[key]) && NoHash(Patterns[key])
    ensures forall r :: r in Patterns[key] ==> Label(r) == r
  {
    SnowflakeRulesDistinct();
    SnowflakeRulesHaveNoHash();
    BigQueryRulesDistinct();
    BigQueryRulesHaveNoHash();
    RedshiftRulesDistinct();
    RedshiftRulesHaveNoHash();
    PostgresRulesDistinct();
    PostgresRulesHaveNoHash();
  }
}
