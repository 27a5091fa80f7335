/** The schema classifier (`analyze_dbt_schema`): walks the compiled SQL of
    a dbt project, keeps three scores from token tests on the lower-cased
    text of every `.sql` file, and guesses the modelling style with the
    highest score. The walk of `<project>/target/compiled` is the input; a
    directory that does not exist walks as nothing. */
module Classifier {
  import opened Strings
  import opened Project

  /** One file met by the walk: its name and what reading it gives. */
  datatype CompiledFile = CompiledFile(name: string, content: ReadResult)

  /** One `(root, dirs, files)` step of `os.walk`: the directory and the
      files directly in it. */
  datatype WalkStep = WalkStep(dirPath: string, files: seq<CompiledFile>)

  /** The `patterns` dictionary: one score per modelling style. */
  datatype Scores = Scores(star: nat, snowflake: nat, vault: nat)

  /** The dictionary's keys, in the order they were inserted. */
  const Keys: seq<string> := ["star_schema", "snowflake_schema", "data_vault"]

  /** Every score starts at 0. */
  const Zero := Scores(0, 0, 0)

  /** `patterns[key]`. */
  function Score(s: Scores, key: string): nat
  {
    if key == "star_schema" then s.star
    else if key == "snowflake_schema" then s.snowflake
    else if key == "data_vault" then s.vault
    else 0
  }

  datatype Result<T> = Ok(value: T) | Err(reason: string)

  /** What the classifier returns, or the exception of a failed read, which
      is not caught and ends the analysis. */
  datatype Outcome = Analyzed(analysis: Scores, likelyModelingPattern: string) | Failed(reason: string)

  /** Some token of `tags` occurs in `sql`. */
  predicate AnyIn(tags: seq<string>, sql: string)
  {
    exists t :: t in tags && Contains(sql, t)
  }

  /** What one lower-cased `.sql` text adds to the scores: up to 2 to the
      star score (a join with an `on`, and a dimension or fact table, are
      credited separately) and up to 1 to each of the others. */
  function Delta(sql: string): (d: Scores)
    ensures d.star <= 2 && d.snowflake <= 1 && d.vault <= 1
  {
    Scores(
      (if Contains(sql, "join") && Contains(sql, " on ") then 1 else 0)
        + (if AnyIn(["dim_", "fact_"], sql) then 1 else 0),
      if AnyIn(["bridge_", "snowflake_"], sql) then 1 else 0,
      if AnyIn(["hub_", "link_", "sat_"], sql) then 1 else 0)
  }

  function Add(a: Scores, b: Scores): Scores
  {
    Scores(a.star + b.star, a.snowflake + b.snowflake, a.vault + b.vault)
  }

  /** The file is counted: its name ends with `.sql`. */
  predicate IsSql(f: CompiledFile)
  {
    EndsWith(f.name, ".sql")
  }

  /** The scores after the files of one directory, starting from `acc`;
      the first unreadable `.sql` file ends everything. The scores only
      grow. */
  function TallyFiles(files: seq<CompiledFile>, acc: Scores): (r: Result<Scores>)
    ensures r.Ok? ==> acc.star <= r.value.star && acc.snowflake <= r.value.snowflake && acc.vault <= r.value.vault
    decreases |files|
  {
    if files == [] then Ok(acc)
    else if !IsSql(files[0]) then TallyFiles(files[1..], acc)
    else
      match files[0].content
      case ReadFailed(e) => Err(e)
      case Read(text) => TallyFiles(files[1..], Add(acc, Delta(Lower(text))))
  }

  /** The scores after the whole walk, starting from `acc`. The scores only
      grow. */
  function TallyWalk(walk: seq<WalkStep>, acc: Scores): (r: Result<Scores>)
    ensures r.Ok? ==> acc.star <= r.value.star && acc.snowflake <= r.value.snowflake && acc.vault <= r.value.vault
    decreases |walk|
  {
    if walk == [] then Ok(acc)
    else
      match TallyFiles(walk[0].files, acc)
      case Err(e) => Err(e)
      case Ok(s) => TallyWalk(walk[1..], s)
  }

  /** `max(patterns, key=patterns.get)`: the first key, in insertion order,
      whose score is largest. */
  function Guess(s: Scores): (r: string)
    ensures r in Keys
  {
    if s.star >= s.snowflake && s.star >= s.vault then "star_schema"
    else if s.snowflake >= s.vault then "snowflake_schema"
    else "data_vault"
  }

  /** What `analyze_dbt_schema` gives for a walk. */
  function Analyze(walk: seq<WalkStep>): (o: Outcome)
    ensures o.Analyzed? ==> o.likelyModelingPattern in Keys
  {
    match TallyWalk(walk, Zero)
    case Err(e) => Failed(e)
    case Ok(s) => Analyzed(s, Guess(s))
  }

  /** The classifier: the nested walk and file loops updating the scores,
      then the guess. */
  method AnalyzeSchema(walk: seq<WalkStep>) returns (outcome: Outcome)
    ensures outcome == Analyze(walk)
  {
    var patterns := Zero;
    for i := 0 to |walk|
      invariant TallyWalk(walk, Zero) == TallyWalk(walk[i..], patterns)
    {
      var files := walk[i].files;
      ghost var before := patterns;
      for j := 0 to |files|
        invariant TallyFiles(files, before) == TallyFiles(files[j..], patterns)
      {
        var file := files[j];
        assert files[j..][1..] == files[j + 1..];
        if EndsWith(file.name, ".sql") {
          match file.content {
            case ReadFailed(e) =>
              outcome := Failed(e);
              return;
            case Read(text) =>
              var sql := Lower(text);
              var delta := Delta(sql);
              patterns := Scores(patterns.star + delta.star, patterns.snowflake + delta.snowflake,
                                 patterns.vault + delta.vault);
          }
        }
      }
      assert walk[i..][1..] == walk[i + 1..];
    }
    outcome := Analyzed(patterns, Guess(patterns));
  }

  // ---------------------------------------------------------------------
  // The guess

  /** The guess is one of the three keys, its score is the largest, and
      every key before it in insertion order scores strictly less. */
  lemma GuessIsFirstMaximal(s: Scores)
    ensures Guess(s) in Keys
    ensures forall k :: k in Keys ==> Score(s, k) <= Score(s, Guess(s))
    ensures forall i, j :: 0 <= i < j < |Keys| && Keys[j] == Guess(s) ==> Score(s, Keys[i]) < Score(s, Guess(s))
  {
  }

  // ---------------------------------------------------------------------
  // Which files count

  /** The number of `.sql` files among `files`. */
  function SqlCount(files: seq<CompiledFile>): nat
    decreases |files|
  {
    if files == [] then 0 else (if IsSql(files[0]) then 1 else 0) + SqlCount(files[1..])
  }

  /** The number of `.sql` files in the whole walk. */
  function WalkSqlCount(walk: seq<WalkStep>): nat
    decreases |walk|
  {
    if walk == [] then 0 else SqlCount(walk[0].files) + WalkSqlCount(walk[1..])
  }

  /** A file whose name does not end with `.sql` changes nothing, wherever
      it appears. */
  lemma {:induction false} OtherFilesIgnored(before: seq<CompiledFile>, f: CompiledFile, after: seq<CompiledFile>,
                                             acc: Scores)
    requires !IsSql(f)
    ensures TallyFiles(before + [f] + after, acc) == TallyFiles(before + after, acc)
    decreases |before|
  {
    if before == [] {
      assert before + [f] + after == [f] + after;
      assert ([f] + after)[1..] == after;
      assert before + after == after;
    } else {
      var b := before[0];
      assert (before + [f] + after)[0] == b && (before + [f] + after)[1..] == before[1..] + [f] + after;
      assert (before + after)[0] == b && (before + after)[1..] == before[1..] + after;
      if IsSql(b) && b.content.Read? {
        OtherFilesIgnored(before[1..], f, after, Add(acc, Delta(Lower(b.content.text))));
      } else if !IsSql(b) {
        OtherFilesIgnored(before[1..], f, after, acc);
      }
    }
  }

  /** A walk without `.sql` files, including the empty walk of a missing
      directory, leaves every score at 0 and guesses `star_schema`. */
  lemma NoSqlFilesDefault(walk: seq<WalkStep>)
    requires WalkSqlCount(walk) == 0
    ensures Analyze(walk) == Analyzed(Zero, "star_schema")
  {
    NoSqlWalkKeeps(walk, Zero);
  }

  lemma {:induction false} NoSqlFilesKeep(files: seq<CompiledFile>, acc: Scores)
    requires SqlCount(files) == 0
    ensures TallyFiles(files, acc) == Ok(acc)
    decreases |files|
  {
    if files != [] {
      NoSqlFilesKeep(files[1..], acc);
    }
  }

  lemma {:induction false} NoSqlWalkKeeps(walk: seq<WalkStep>, acc: Scores)
    requires WalkSqlCount(walk) == 0
    ensures TallyWalk(walk, acc) == Ok(acc)
    decreases |walk|
  {
    if walk != [] {
      NoSqlFilesKeep(walk[0].files, acc);
      NoSqlWalkKeeps(walk[1..], acc);
    }
  }

  // ---------------------------------------------------------------------
  // Bounds

  /** `hi` exceeds `lo` by at most `n` files' worth: 2 per file for the star
      score and 1 per file for the others. */
  predicate WithinFiles(lo: Scores, hi: Scores, n: nat)
  {
    && lo.star <= hi.star <= lo.star + 2 * n
    && lo.snowflake <= hi.snowflake <= lo.snowflake + n
    && lo.vault <= hi.vault <= lo.vault + n
  }

  lemma {:induction false} TallyFilesBounds(files: seq<CompiledFile>, acc: Scores)
    requires TallyFiles(files, acc).Ok?
    ensures WithinFiles(acc, TallyFiles(files, acc).value, SqlCount(files))
    decreases |files|
  {
    if files != [] {
      if !IsSql(files[0]) {
        TallyFilesBounds(files[1..], acc);
      } else {
        var next := Add(acc, Delta(Lower(files[0].content.text)));
        TallyFilesBounds(files[1..], next);
      }
    }
  }

  lemma {:induction false} TallyWalkBounds(walk: seq<WalkStep>, acc: Scores)
    requires TallyWalk(walk, acc).Ok?
    ensures WithinFiles(acc, TallyWalk(walk, acc).value, WalkSqlCount(walk))
    decreases |walk|
  {
    if walk != [] {
      TallyFilesBounds(walk[0].files, acc);
      var s := TallyFiles(walk[0].files, acc).value;
      TallyWalkBounds(walk[1..], s);
    }
  }

  /** With `n` `.sql` files the star score is at most `2n` and each other
      score at most `n`. */
  lemma ScoresBounded(walk: seq<WalkStep>)
    requires Analyze(walk).Analyzed?
    ensures var s := Analyze(walk).analysis;
            s.star <= 2 * WalkSqlCount(walk) && s.snowflake <= WalkSqlCount(walk) && s.vault <= WalkSqlCount(walk)
  {
    TallyWalkBounds(walk, Zero);
  }

  /** A text with a join, an ` on ` and a dimension or fact table adds 2 to
      the star score: the two credits are not merged. */
  lemma JoinAndDimensionCountTwice(sql: string)
    requires Contains(sql, "join") && Contains(sql, " on ")
    requires Contains(sql, "dim_") || Contains(sql, "fact_")
    ensures Delta(sql).star == 2
  {
    if Contains(sql, "dim_") {
      assert "dim_" in ["dim_", "fact_"];
    } else {
      assert "fact_" in ["dim_", "fact_"];
    }
  }

  // ---------------------------------------------------------------------
  // Failures

  /** An unreadable `.sql` file among `files`. */
  ghost predicate HasUnreadable(files: seq<CompiledFile>)
  {
    exists j :: 0 <= j < |files| && IsSql(files[j]) && files[j].content.ReadFailed?
  }

  lemma {:induction false} TallyFilesFails(files: seq<CompiledFile>, acc: Scores)
    ensures TallyFiles(files, acc).Err? <==> HasUnreadable(files)
    decreases |files|
  {
    if files != [] {
      var next := if IsSql(files[0]) && files[0].content.Read? then Add(acc, Delta(Lower(files[0].content.text))) else acc;
      TallyFilesFails(files[1..], next);
      if HasUnreadable(files[1..]) {
        var j :| 0 <= j < |files[1..]| && IsSql(files[1..][j]) && files[1..][j].content.ReadFailed?;
        assert IsSql(files[j + 1]) && files[j + 1].content.ReadFailed?;
      }
      if HasUnreadable(files) && !(IsSql(files[0]) && files[0].content.ReadFailed?) {
        var j :| 0 <= j < |files| && IsSql(files[j]) && files[j].content.ReadFailed?;
        assert j != 0;
        assert IsSql(files[1..][j - 1]) && files[1..][j - 1].content.ReadFailed?;
      }
    }
  }

  lemma {:induction false} TallyWalkFails(walk: seq<WalkStep>, acc: Scores)
    ensures TallyWalk(walk, acc).Err? <==> exists i :: 0 <= i < |walk| && HasUnreadable(walk[i].files)
    decreases |walk|
  {
    if walk != [] {
      TallyFilesFails(walk[0].files, acc);
      if TallyFiles(walk[0].files, acc).Ok? {
        var s := TallyFiles(walk[0].files, acc).value;
        TallyWalkFails(walk[1..], s);
        if exists i :: 0 <= i < |walk[1..]| && HasUnreadable(walk[1..][i].files) {
          var i :| 0 <= i < |walk[1..]| && HasUnreadable(walk[1..][i].files);
          assert HasUnreadable(walk[i + 1].files);
        }
        if exists i :: 0 <= i < |walk| && HasUnreadable(walk[i].files) {
          var i :| 0 <= i < |walk| && HasUnreadable(walk[i].files);
          assert i != 0;
          assert HasUnreadable(walk[1..][i - 1].files);
        }
      } else {
        assert HasUnreadable(walk[0].files);
      }
    }
  }

  /** The analysis fails exactly when some `.sql` file of the walk cannot
      be read; otherwise it returns the scores and their guess. */
  lemma FailsOnUnreadableSql(walk: seq<WalkStep>)
    ensures Analyze(walk).Failed? <==> exists i :: 0 <= i < |walk| && HasUnreadable(walk[i].files)
    ensures Analyze(walk).Analyzed? ==> Analyze(walk).likelyModelingPattern == Guess(Analyze(walk).analysis)
  {
    TallyWalkFails(walk, Zero);
  }

  // ---------------------------------------------------------------------
  // Case does not matter

  /** Two file lists that differ only in the case of the texts. */
  ghost predicate SameFilesUpToCase(a: seq<CompiledFile>, b: seq<CompiledFile>)
  {
    && |a| == |b|
    && forall j :: 0 <= j < |a| ==>
         && a[j].name == b[j].name
         && a[j].content.Read? == b[j].content.Read?
         && (a[j].content.ReadFailed? ==> a[j].content == b[j].content)
         && (a[j].content.Read? ==> Lower(a[j].content.text) == Lower(b[j].content.text))
  }

  /** Two walks that differ only in the case of the texts. */
  ghost predicate SameWalkUpToCase(a: seq<WalkStep>, b: seq<WalkStep>)
  {
    |a| == |b| && forall i :: 0 <= i < |a| ==> SameFilesUpToCase(a[i].files, b[i].files)
  }

  lemma {:induction false} TallyFilesIgnoresCase(a: seq<CompiledFile>, b: seq<CompiledFile>, acc: Scores)
    requires SameFilesUpToCase(a, b)
    ensures TallyFiles(a, acc) == TallyFiles(b, acc)
    decreases |a|
  {
    if a != [] {
      assert SameFilesUpToCase(a[1..], b[1..]) by {
        forall j | 0 <= j < |a[1..]|
          ensures a[1..][j].name == b[1..][j].name
        {
          assert a[1..][j] == a[j + 1] && b[1..][j] == b[j + 1];
        }
        forall j | 0 <= j < |a[1..]| && a[1..][j].content.Read?
          ensures Lower(a[1..][j].content.text) == Lower(b[1..][j].content.text)
        {
          assert a[1..][j] == a[j + 1] && b[1..][j] == b[j + 1];
        }
      }
      var next := if IsSql(a[0]) && a[0].content.Read? then Add(acc, Delta(Lower(a[0].content.text))) else acc;
      TallyFilesIgnoresCase(a[1..], b[1..], next);
    }
  }

  /** The token tests run on lower-cased text, so changing the case of any
      file's text changes neither the scores nor the guess. */
  lemma AnalysisIgnoresCase(a: seq<WalkStep>, b: seq<WalkStep>)
    requires SameWalkUpToCase(a, b)
    ensures Analyze(a) == Analyze(b)
  {
    TallyWalkIgnoresCase(a, b, Zero);
  }

  lemma {:induction false} TallyWalkIgnoresCase(a: seq<WalkStep>, b: seq<WalkStep>, acc: Scores)
    requires SameWalkUpToCase(a, b)
    ensures TallyWalk(a, acc) == TallyWalk(b, acc)
    decreases |a|
  {
    if a != [] {
      TallyFilesIgnoresCase(a[0].files, b[0].files, acc);
      assert SameWalkUpToCase(a[1..], b[1..]) by {
        forall i | 0 <= i < |a[1..]| ensures SameFilesUpToCase(a[1..][i].files, b[1..][i].files) {
          assert a[1..][i] == a[i + 1] && b[1..][i] == b[i + 1];
        }
      }
      if TallyFiles(a[0].files, acc).Ok? {
        TallyWalkIgnoresCase(a[1..], b[1..], TallyFiles(a[0].files, acc).value);
      }
    }
  }

  // ---------------------------------------------------------------------
  // A star-schema project

  /** Every `.sql` file is readable and names a dimension or fact table but
      no hub, link, satellite, bridge or snowflake table. */
  ghost predicate StarOnly(files: seq<CompiledFile>)
  {
    forall j :: 0 <= j < |files| && IsSql(files[j]) ==>
      && files[j].content.Read?
      && AnyIn(["dim_", "fact_"], Lower(files[j].content.text))
      && !AnyIn(["hub_", "link_", "sat_"], Lower(files[j].content.text))
      && !AnyIn(["bridge_", "snowflake_"], Lower(files[j].content.text))
  }

  lemma {:induction false} StarOnlyFiles(files: seq<CompiledFile>, acc: Scores)
    requires StarOnly(files)
    ensures TallyFiles(files, acc).Ok?
    ensures var s := TallyFiles(files, acc).value;
            s.star >= acc.star + SqlCount(files) && s.snowflake == acc.snowflake && s.vault == acc.vault
    decreases |files|
  {
    if files != [] {
      assert StarOnly(files[1..]) by {
        forall j | 0 <= j < |files[1..]| && IsSql(files[1..][j])
          ensures files[1..][j] == files[j + 1]
        {
        }
      }
      if IsSql(files[0]) {
        StarOnlyFiles(files[1..], Add(acc, Delta(Lower(files[0].content.text))));
      } else {
        StarOnlyFiles(files[1..], acc);
      }
    }
  }

  lemma {:induction false} StarOnlyWalk(walk: seq<WalkStep>, acc: Scores)
    requires forall i :: 0 <= i < |walk| ==> StarOnly(walk[i].files)
    ensures TallyWalk(walk, acc).Ok?
    ensures var s := TallyWalk(walk, acc).value;
            s.star >= acc.star + WalkSqlCount(walk) && s.snowflake == acc.snowflake && s.vault == acc.vault
    decreases |walk|
  {
    if walk != [] {
      StarOnlyFiles(walk[0].files, acc);
      assert forall i :: 0 <= i < |walk[1..]| ==> walk[1..][i] == walk[i + 1];
      StarOnlyWalk(walk[1..], TallyFiles(walk[0].files, acc).value);
    }
  }

  /** A project whose compiled files all name dimension or fact tables and
      none of the other styles' tables is classified as a star schema, with
      a star score of at least the number of files and the other scores 0. */
  lemma StarProjectIsStar(walk: seq<WalkStep>)
    requires forall i :: 0 <= i < |walk| ==> StarOnly(walk[i].files)
    ensures Analyze(walk).Analyzed?
    ensures Analyze(walk).likelyModelingPattern == "star_schema"
    ensures var s := Analyze(walk).analysis;
            s.star >= WalkSqlCount(walk) && s.snowflake == 0 && s.vault == 0
  {
    StarOnlyWalk(walk, Zero);
  }
}
