/** The dialect scanner (`dbt_identify_translation_candidates`): validates a
    warehouse tag against the catalog, tests every `.sql` file below the
    search directories against that warehouse's rules, and reports the files
    with at least one hit, most hits first. Whether a rule's regular
    expression occurs in a text (case-insensitively, anywhere) is the
    parameter `fires`; no regular-expression engine is modelled. */
module Scanner {
  import opened Strings
  import opened Paths
  import opened Project
  import opened Catalog

  /** One entry of `candidates`: the relative path, the full path, the
      distinct labels that fired (the source lists them in an unspecified
      order, so the model keeps a set) and `pattern_count`. */
  datatype Candidate = Candidate(file: string, fullPath: string, detectedSyntax: set<string>, patternCount: nat)

  /** The result dictionary. An unknown tag gives status `error` and an
      empty candidate list; a known one gives status `success`, with
      `total_files` present only when some file was found. */
  datatype ScanReport =
    | UnknownWarehouse(message: string)
    | Scanned(message: string, candidates: seq<Candidate>, totalFiles: Option<nat>,
              sourceWarehouse: string, targetWarehouse: Option<string>)
  {
    function Status(): string
    {
      if UnknownWarehouse? then "error" else "success"
    }

    function Candidates(): seq<Candidate>
    {
      if UnknownWarehouse? then [] else candidates
    }
  }

  /** Some rule of `rules` fires on `text`. */
  predicate AnyFires(rules: seq<string>, fires: (string, string) -> bool, text: string)
  {
    exists k :: 0 <= k < |rules| && fires(rules[k], text)
  }

  /** Labels of the rules that fire on `content`, in rule order: none
      exactly when no rule fires. */
  function Detected(rules: seq<string>, fires: (string, string) -> bool, content: string): (r: seq<string>)
    ensures r == [] <==> !AnyFires(rules, fires, content)
    decreases |rules|
  {
    if rules == [] then []
    else
      var r := rules[|rules| - 1];
      Detected(rules[..|rules| - 1], fires, content) + (if fires(r, content) then [Label(r)] else [])
  }

  /** The candidate a file yields: none when it cannot be read or no rule
      fires on its text; otherwise one for its own path, with at least one
      hit. */
  function CandidateFor(root: string, f: File, rules: seq<string>, fires: (string, string) -> bool): (r: Option<Candidate>)
    ensures r.Some? <==> f.content.Read? && AnyFires(rules, fires, f.content.text)
    ensures r.Some? ==> r.value.file == f.relPath && r.value.fullPath == Join(root, f.relPath)
                        && r.value.patternCount >= 1
  {
    match f.content
    case ReadFailed(_) => None
    case Read(text) =>
      var d := Detected(rules, fires, text);
      if |d| == 0 then None
      else Some(Candidate(f.relPath, Join(root, f.relPath), Elements(d), |d|))
  }

  /** The per-file step of the walk of `dir`, as a value: a `.sql` file
      below `dir` yields its candidate, any other file nothing. */
  function Yield(root: string, rules: seq<string>, fires: (string, string) -> bool): (File, string) -> Option<Candidate>
  {
    (f, dir) => if Globbed(f, dir, ".sql") then CandidateFor(root, f, rules, fires) else None
  }

  /** Candidates appended while walking `files` for `dir`: those `step`
      gives. */
  function FileCandidates(files: seq<File>, dir: string, step: (File, string) -> Option<Candidate>): seq<Candidate>
    decreases |files|
  {
    if files == [] then []
    else
      var f := files[|files| - 1];
      FileCandidates(files[..|files| - 1], dir, step)
        + (if step(f, dir).Some? then [step(f, dir).value] else [])
  }

  /** Candidates appended for the directories `dirs`, one after the other. */
  function Collected(tree: Tree, dirs: seq<string>, step: (File, string) -> Option<Candidate>): seq<Candidate>
    decreases |dirs|
  {
    if dirs == [] then []
    else Collected(tree, dirs[..|dirs| - 1], step) + FileCandidates(tree, dirs[|dirs| - 1], step)
  }

  /** `pattern_count` never increases along `cs`. */
  predicate NonIncreasing(cs: seq<Candidate>)
  {
    forall i, j :: 0 <= i < j < |cs| ==> cs[i].patternCount >= cs[j].patternCount
  }

  /** Puts `c` in front of the first element of a non-increasing list whose
      count does not exceed its own. */
  function InsertByCount(c: Candidate, s: seq<Candidate>): (r: seq<Candidate>)
    ensures exists i :: InsertedAt(r, c, s, i)
    decreases |s|
  {
    if s == [] || s[0].patternCount <= c.patternCount then
      assert InsertedAt([c] + s, c, s, 0);
      [c] + s
    else
      var rest := InsertByCount(c, s[1..]);
      var r := [s[0]] + rest;
      assert exists j :: InsertedAt(r, c, s, j) by {
        var i :| InsertedAt(rest, c, s[1..], i);
        assert s[..i + 1] == [s[0]] + s[1..][..i];
        assert s[i + 1..] == s[1..][i..];
        assert InsertedAt(r, c, s, i + 1);
      }
      r
  }

  /** `r` is `s` with `c` put in at index `i`. */
  ghost predicate InsertedAt(r: seq<Candidate>, c: Candidate, s: seq<Candidate>, i: int)
  {
    0 <= i <= |s| && r == s[..i] + [c] + s[i..]
  }

  /** `candidates.sort(key=pattern_count, reverse=True)`: a stable sort,
      most hits first (see `SortByCountDescOrders` and `SortIsStable`). */
  function SortByCountDesc(cs: seq<Candidate>): (r: seq<Candidate>)
    ensures multiset(r) == multiset(cs)
    decreases |cs|
  {
    if cs == [] then []
    else
      var rest := SortByCountDesc(cs[1..]);
      InsertByCountPermutes(cs[0], rest);
      assert multiset(cs) == multiset(cs[1..]) + multiset{cs[0]} by {
        assert cs == [cs[0]] + cs[1..];
      }
      InsertByCount(cs[0], rest)
  }

  /** The elements of `cs` whose count is `k`, in their order in `cs`. */
  function WithCount(cs: seq<Candidate>, k: nat): seq<Candidate>
    decreases |cs|
  {
    if cs == [] then []
    else (if cs[0].patternCount == k then [cs[0]] else []) + WithCount(cs[1..], k)
  }

  const UnknownOpening := "Unknown source warehouse '"
  const NothingFoundTail :=
    "-specific syntax detected in the dbt project. Your project may already be warehouse-agnostic or using a different warehouse syntax."
  const FoundTail := "-specific syntax that may need translation"

  /** `", ".join(...)` of the known tags, for the error message. */
  function UnknownMessage(source: string): string
  {
    UnknownOpening + source + "'. Supported: " + JoinWith(", ", Warehouses)
  }

  function NothingFoundMessage(source: string): string
  {
    "No " + source + NothingFoundTail
  }

  /** `" to <target>"` when a non-empty target was given. */
  function TargetSuffix(target: Option<string>): string
  {
    if target.Some? && target.value != "" then " to " + target.value else ""
  }

  /** The summary names the number of files found and the source tag. */
  function FoundMessage(count: nat, source: string, target: Option<string>): (r: string)
    ensures "Found " + NatToString(count) + " " <= r
    ensures Contains(r, source)
  {
    var head := "Found " + NatToString(count) + " file(s) with ";
    var tail := FoundTail + TargetSuffix(target) + ".";
    ContainsMiddle(head, source, tail);
    head + source + tail
  }

  /** The report a scan of `tree` (the project below `root`) returns. */
  function Scan(root: string, tree: Tree, source: string, target: Option<string>,
                fires: (string, string) -> bool): (r: ScanReport)
    ensures r.UnknownWarehouse? <==> Lower(source) !in Warehouses
    ensures r.Scanned? ==> (r.totalFiles.Some? <==> r.candidates != [])
  {
    match PatternsFor(Lower(source))
    case None => UnknownWarehouse(UnknownMessage(source))
    case Some(rules) =>
      var cs := SortByCountDesc(Collected(tree, SearchDirs, Yield(root, rules, fires)));
      if cs == [] then Scanned(NothingFoundMessage(source), [], None, source, target)
      else Scanned(FoundMessage(|cs|, source, target), cs, Some(|cs|), source, target)
  }

  /** The inner loop over the compiled rules: the labels of those that fire. */
  method DetectPatterns(rules: seq<string>, fires: (string, string) -> bool, content: string)
    returns (detected: seq<string>)
    ensures detected == Detected(rules, fires, content)
    ensures |detected| <= |rules|
  {
    detected := [];
    for i := 0 to |rules|
      invariant detected == Detected(rules[..i], fires, content)
      invariant |detected| <= i
    {
      assert rules[..i + 1][..i] == rules[..i];
      if fires(rules[i], content) {
        detected := detected + [Label(rules[i])];
      }
    }
    assert rules[..|rules|] == rules;
  }

  /** `step` is the source's per-file step: read the file and test it
      against every rule. */
  ghost predicate YieldsCandidates(step: (File, string) -> Option<Candidate>, root: string, rules: seq<string>,
                                   fires: (string, string) -> bool)
  {
    forall f, dir :: step(f, dir) == if Globbed(f, dir, ".sql") then CandidateFor(root, f, rules, fires) else None
  }

  lemma YieldIsTheStep(root: string, rules: seq<string>, fires: (string, string) -> bool)
    ensures YieldsCandidates(Yield(root, rules, fires), root, rules, fires)
  {
  }

  /** One `rglob('*.sql')` walk of `dir`: unreadable files are skipped,
      files with at least one hit become candidates, in walk order. */
  method WalkForCandidates(root: string, tree: Tree, dir: string, rules: seq<string>, fires: (string, string) -> bool,
                           ghost step: (File, string) -> Option<Candidate>)
    returns (found: seq<Candidate>)
    requires YieldsCandidates(step, root, rules, fires)
    ensures found == FileCandidates(tree, dir, step)
  {
    found := [];
    for j := 0 to |tree|
      invariant found == FileCandidates(tree[..j], dir, step)
    {
      var f := tree[j];
      FileCandidatesStep(tree, j, dir, step);
      assert step(f, dir) == if Globbed(f, dir, ".sql") then CandidateFor(root, f, rules, fires) else None;
      if Globbed(f, dir, ".sql") {
        match f.content {
          case ReadFailed(_) =>
          case Read(content) =>
            var detected := DetectPatterns(rules, fires, content);
            if |detected| > 0 {
              found := found + [Candidate(f.relPath, Join(root, f.relPath), Elements(detected), |detected|)];
            }
        }
      }
    }
    assert tree[..|tree|] == tree;
  }

  lemma FileCandidatesStep(files: seq<File>, j: nat, dir: string, step: (File, string) -> Option<Candidate>)
    requires j < |files|
    ensures FileCandidates(files[..j + 1], dir, step)
            == FileCandidates(files[..j], dir, step)
               + (if step(files[j], dir).Some? then [step(files[j], dir).value] else [])
  {
    assert files[..j + 1][..j] == files[..j];
  }

  /** The walk of every directory of `dirs` in turn. */
  method WalkDirectories(root: string, tree: Tree, dirs: seq<string>, rules: seq<string>, fires: (string, string) -> bool,
                         ghost step: (File, string) -> Option<Candidate>)
    returns (candidates: seq<Candidate>)
    requires YieldsCandidates(step, root, rules, fires)
    ensures candidates == Collected(tree, dirs, step)
  {
    candidates := [];
    for i := 0 to |dirs|
      invariant candidates == Collected(tree, dirs[..i], step)
    {
      var found := WalkForCandidates(root, tree, dirs[i], rules, fires, step);
      assert dirs[..i + 1][..i] == dirs[..i];
      candidates := candidates + found;
    }
    assert dirs[..|dirs|] == dirs;
  }

  /** The scan: reject an unknown tag before touching the tree, collect,
      sort by count (most first, stable), and build the report. */
  method IdentifyCandidates(root: string, tree: Tree, sourceWarehouse: string, targetWarehouse: Option<string>,
                            fires: (string, string) -> bool)
    returns (report: ScanReport)
    ensures report == Scan(root, tree, sourceWarehouse, targetWarehouse, fires)
  {
    var key := Lower(sourceWarehouse);
    if key !in Patterns {
      report := UnknownWarehouse(UnknownMessage(sourceWarehouse));
      return;
    }
    var rules := Patterns[key];
    YieldIsTheStep(root, rules, fires);
    var candidates := WalkDirectories(root, tree, SearchDirs, rules, fires, Yield(root, rules, fires));
    candidates := SortByCountDesc(candidates);
    if |candidates| == 0 {
      report := Scanned(NothingFoundMessage(sourceWarehouse), [], None, sourceWarehouse, targetWarehouse);
      return;
    }
    report := Scanned(FoundMessage(|candidates|, sourceWarehouse, targetWarehouse), candidates,
                      Some(|candidates|), sourceWarehouse, targetWarehouse);
  }

  // ---------------------------------------------------------------------
  // What a candidate records

  /** The elements of a sequence, as a set. */
  function Elements(d: seq<string>): set<string>
  {
    set x | x in d
  }

  lemma ElementsSnoc(d: seq<string>, x: string)
    ensures Elements(d + [x]) == Elements(d) + {x}
  {
    assert forall y :: y in d + [x] <==> y in d || y == x;
  }

  lemma FiredSnoc(init: seq<string>, last: string, fires: (string, string) -> bool, content: string)
    ensures Fired(init + [last], fires, content)
            == Fired(init, fires, content) + (if fires(last, content) then {last} else {})
  {
    assert forall r :: r in init + [last] <==> r in init || r == last;
  }

  lemma DistinctInit(rules: seq<string>)
    requires rules != [] && Distinct(rules) && NoHash(rules)
    ensures var init := rules[..|rules| - 1];
            Distinct(init) && NoHash(init) && rules[|rules| - 1] !in init
  {
    var init, last := rules[..|rules| - 1], rules[|rules| - 1];
    forall i | 0 <= i < |init| ensures init[i] == rules[i] {}
  }

  /** With distinct rules that have no `#`, so that each is its own label,
      the labels that fire are exactly the rules that fire, each once. */
  lemma {:induction false} DetectedAreFiredRules(rules: seq<string>, fires: (string, string) -> bool, content: string)
    requires Distinct(rules)
    requires NoHash(rules)
    ensures Elements(Detected(rules, fires, content)) == Fired(rules, fires, content)
    ensures |Detected(rules, fires, content)| == |Fired(rules, fires, content)|
    decreases |rules|
  {
    if rules != [] {
      var init, last := rules[..|rules| - 1], rules[|rules| - 1];
      assert rules == init + [last];
      assert Label(last) == last;
      DistinctInit(rules);
      DetectedAreFiredRules(init, fires, content);
      var d := Detected(init, fires, content);
      FiredSnoc(init, last, fires, content);
      assert last !in Fired(init, fires, content);
      if fires(last, content) {
        assert Detected(rules, fires, content) == d + [last];
        ElementsSnoc(d, last);
      } else {
        assert Detected(rules, fires, content) == d;
      }
    }
  }

  /** What every candidate found with a warehouse's rules satisfies: at
      least one and at most all the rules fired, the count equals the
      number of distinct labels, and the labels are the rules that fired. */
  ghost predicate WellFormed(c: Candidate, rules: seq<string>)
  {
    1 <= c.patternCount <= |rules|
    && c.patternCount == |c.detectedSyntax|
    && forall x :: x in c.detectedSyntax ==> x in rules
  }

  lemma CandidateWellFormed(root: string, f: File, key: string, fires: (string, string) -> bool)
    requires key in Patterns
    requires CandidateFor(root, f, Patterns[key], fires).Some?
    ensures WellFormed(CandidateFor(root, f, Patterns[key], fires).value, Patterns[key])
  {
    var rules := Patterns[key];
    RulesAreTheirOwnLabels(key);
    var text := f.content.text;
    DetectedAreFiredRules(rules, fires, text);
    DetectedBound(rules, fires, text);
  }

  lemma {:induction false} DetectedBound(rules: seq<string>, fires: (string, string) -> bool, content: string)
    ensures |Detected(rules, fires, content)| <= |rules|
    decreases |rules|
  {
    if rules != [] {
      DetectedBound(rules[..|rules| - 1], fires, content);
    }
  }

  /** The rules of `rules` that fire on `text`. */
  function Fired(rules: seq<string>, fires: (string, string) -> bool, text: string): set<string>
  {
    set r | r in rules && fires(r, text)
  }

  /** A file yields a candidate exactly when it can be read and some rule
      fires on its text; the candidate then carries the file's relative and
      full paths, the rules that fired, and their number. */
  lemma CandidateRecordsFiredRules(root: string, f: File, rules: seq<string>, fires: (string, string) -> bool)
    requires Distinct(rules) && NoHash(rules)
    ensures var c := CandidateFor(root, f, rules, fires);
            && (c.Some? <==> f.content.Read? && Fired(rules, fires, f.content.text) != {})
            && (c.Some? ==> c.value == Candidate(f.relPath, Join(root, f.relPath),
                                                 Fired(rules, fires, f.content.text),
                                                 |Fired(rules, fires, f.content.text)|))
  {
    if f.content.Read? {
      DetectedAreFiredRules(rules, fires, f.content.text);
    }
  }

  lemma {:induction false} FileCandidatesMembers(files: seq<File>, dir: string, step: (File, string) -> Option<Candidate>,
                                                 c: Candidate)
    ensures c in FileCandidates(files, dir, step) <==>
            exists f :: f in files && step(f, dir) == Some(c)
    decreases |files|
  {
    if files != [] {
      var init := files[..|files| - 1];
      FileCandidatesMembers(init, dir, step, c);
      assert files == init + [files[|files| - 1]];
    }
  }

  /** `step` gives `c` for `f` in the walk of one of `dirs`. */
  ghost predicate YieldedFor(f: File, dirs: seq<string>, step: (File, string) -> Option<Candidate>, c: Candidate)
  {
    exists d :: d in dirs && step(f, d) == Some(c)
  }

  lemma {:induction false} CollectedMembers(tree: Tree, dirs: seq<string>, step: (File, string) -> Option<Candidate>, c: Candidate)
    ensures c in Collected(tree, dirs, step) <==> exists f :: f in tree && YieldedFor(f, dirs, step, c)
    decreases |dirs|
  {
    if dirs != [] {
      var init := dirs[..|dirs| - 1];
      var last := dirs[|dirs| - 1];
      CollectedMembers(tree, init, step, c);
      FileCandidatesMembers(tree, last, step, c);
      assert dirs == init + [last];
      forall f ensures YieldedFor(f, dirs, step, c) <==>
                       YieldedFor(f, init, step, c) || step(f, last) == Some(c)
      {
        if YieldedFor(f, dirs, step, c) {
          var d :| d in dirs && step(f, d) == Some(c);
          if d != last {
            assert d in init;
          }
        }
        if YieldedFor(f, init, step, c) {
          var d :| d in init && step(f, d) == Some(c);
          assert d in dirs;
        }
        if step(f, last) == Some(c) {
          assert last in dirs;
        }
      }
    }
  }

  /** `c` is what the scan reports for `f`: `f` is readable, some rule
      fires on its text, and `c` holds its paths, the rules that fired and
      their number. */
  ghost predicate ReportsFile(root: string, rules: seq<string>, fires: (string, string) -> bool, f: File, c: Candidate)
  {
    && f.content.Read?
    && Fired(rules, fires, f.content.text) != {}
    && c == Candidate(f.relPath, Join(root, f.relPath), Fired(rules, fires, f.content.text),
                      |Fired(rules, fires, f.content.text)|)
  }

  /** For a known tag the reported candidates are the collected ones. */
  lemma ScanKeepsCollected(root: string, tree: Tree, source: string, target: Option<string>,
                           fires: (string, string) -> bool, c: Candidate)
    requires Lower(source) in Warehouses
    ensures c in Scan(root, tree, source, target, fires).Candidates() <==>
            c in Collected(tree, SearchDirs, Yield(root, Patterns[Lower(source)], fires))
  {
    var collected := Collected(tree, SearchDirs, Yield(root, Patterns[Lower(source)], fires));
    SortByCountDescOrders(collected);
    assert c in SortByCountDesc(collected) <==> c in multiset(collected);
  }

  /** A scan with a known tag reports exactly the readable `.sql` files
      below a search directory on which some rule fires, each with the
      rules that fired and their number. */
  /** The candidates gathered by the walk, before sorting, are the records
      of the `.sql` files under a search directory that fire a rule. */
  lemma CollectedReportsHitFiles(root: string, tree: Tree, rules: seq<string>,
                                 fires: (string, string) -> bool, c: Candidate)
    requires Distinct(rules) && NoHash(rules)
    ensures c in Collected(tree, SearchDirs, Yield(root, rules, fires)) <==>
            exists f, d :: f in tree && d in SearchDirs && Globbed(f, d, ".sql")
                           && ReportsFile(root, rules, fires, f, c)
  {
    var step := Yield(root, rules, fires);
    CollectedMembers(tree, SearchDirs, step, c);
    if c in Collected(tree, SearchDirs, step) {
      var f :| f in tree && YieldedFor(f, SearchDirs, step, c);
      var d :| d in SearchDirs && step(f, d) == Some(c);
      CandidateRecordsFiredRules(root, f, rules, fires);
      assert Globbed(f, d, ".sql") && ReportsFile(root, rules, fires, f, c);
    }
    if exists f, d :: f in tree && d in SearchDirs && Globbed(f, d, ".sql") && ReportsFile(root, rules, fires, f, c) {
      var f, d :| f in tree && d in SearchDirs && Globbed(f, d, ".sql") && ReportsFile(root, rules, fires, f, c);
      CandidateRecordsFiredRules(root, f, rules, fires);
      assert step(f, d) == Some(c);
      assert YieldedFor(f, SearchDirs, step, c);
    }
  }

  lemma ScanReportsHitFiles(root: string, tree: Tree, source: string, target: Option<string>,
                            fires: (string, string) -> bool, c: Candidate)
    requires Lower(source) in Warehouses
    ensures c in Scan(root, tree, source, target, fires).Candidates() <==>
            exists f, d :: f in tree && d in SearchDirs && Globbed(f, d, ".sql")
                           && ReportsFile(root, Patterns[Lower(source)], fires, f, c)
  {
    RulesAreTheirOwnLabels(Lower(source));
    ScanKeepsCollected(root, tree, source, target, fires, c);
    CollectedReportsHitFiles(root, tree, Patterns[Lower(source)], fires, c);
  }

  /** Every candidate a scan reports is well formed. */
  lemma ScanCandidatesWellFormed(root: string, tree: Tree, source: string, target: Option<string>,
                                 fires: (string, string) -> bool)
    requires Lower(source) in Warehouses
    ensures forall c :: c in Scan(root, tree, source, target, fires).Candidates() ==>
              WellFormed(c, Patterns[Lower(source)])
  {
    var key := Lower(source);
    var step := Yield(root, Patterns[key], fires);
    forall c | c in Scan(root, tree, source, target, fires).Candidates() ensures WellFormed(c, Patterns[key]) {
      ScanKeepsCollected(root, tree, source, target, fires, c);
      CollectedMembers(tree, SearchDirs, step, c);
      var f :| f in tree && YieldedFor(f, SearchDirs, step, c);
      var d :| d in SearchDirs && step(f, d) == Some(c);
      CandidateWellFormed(root, f, key, fires);
    }
  }

  // ---------------------------------------------------------------------
  // The sort orders and permutes

  lemma {:induction false} InsertByCountPermutes(c: Candidate, s: seq<Candidate>)
    ensures multiset(InsertByCount(c, s)) == multiset(s) + multiset{c}
    decreases |s|
  {
    if s != [] && s[0].patternCount > c.patternCount {
      InsertByCountPermutes(c, s[1..]);
      assert s == [s[0]] + s[1..];
    }
  }

  lemma {:induction false} InsertByCountOrders(c: Candidate, s: seq<Candidate>)
    requires NonIncreasing(s)
    ensures NonIncreasing(InsertByCount(c, s))
    decreases |s|
  {
    if s != [] && s[0].patternCount > c.patternCount {
      var rest := InsertByCount(c, s[1..]);
      InsertByCountOrders(c, s[1..]);
      var i :| InsertedAt(rest, c, s[1..], i);
      forall k | 0 <= k < |rest| ensures rest[k].patternCount <= s[0].patternCount {
        if k < i {
          assert rest[k] == s[k + 1];
        } else if k > i {
          assert rest[k] == s[k];
        }
      }
      var r := [s[0]] + rest;
      forall a, b | 0 <= a < b < |r| ensures r[a].patternCount >= r[b].patternCount {
        assert r[b] == rest[b - 1];
        if a > 0 {
          assert r[a] == rest[a - 1];
        }
      }
      assert InsertByCount(c, s) == r;
    }
  }

  /** The sorted list holds exactly the input candidates, with the number
      of hits never increasing along it. */
  lemma {:induction false} SortByCountDescOrders(cs: seq<Candidate>)
    ensures NonIncreasing(SortByCountDesc(cs))
    ensures multiset(SortByCountDesc(cs)) == multiset(cs)
    decreases |cs|
  {
    if cs != [] {
      SortByCountDescOrders(cs[1..]);
      InsertByCountOrders(cs[0], SortByCountDesc(cs[1..]));
      InsertByCountPermutes(cs[0], SortByCountDesc(cs[1..]));
      assert cs == [cs[0]] + cs[1..];
    }
  }

  // ---------------------------------------------------------------------
  // The sort is stable

  /** `WithCount` of a sequence with a known head. */
  lemma WithCountCons(x: Candidate, s: seq<Candidate>, k: nat)
    ensures WithCount([x] + s, k) == (if x.patternCount == k then [x] else []) + WithCount(s, k)
  {
    assert ([x] + s)[1..] == s;
  }

  lemma {:induction false} InsertByCountStable(c: Candidate, s: seq<Candidate>, k: nat)
    ensures WithCount(InsertByCount(c, s), k) == (if c.patternCount == k then [c] else []) + WithCount(s, k)
    decreases |s|
  {
    if s == [] || s[0].patternCount <= c.patternCount {
      WithCountCons(c, s, k);
    } else {
      InsertByCountStable(c, s[1..], k);
      WithCountCons(s[0], InsertByCount(c, s[1..]), k);
      WithCountCons(s[0], s[1..], k);
      assert [s[0]] + s[1..] == s;
    }
  }

  /** Candidates with equal counts keep their walk order: for every count,
      the candidates having it appear in the sorted list in the same order
      as in the input. */
  lemma {:induction false} SortIsStable(cs: seq<Candidate>, k: nat)
    ensures WithCount(SortByCountDesc(cs), k) == WithCount(cs, k)
    decreases |cs|
  {
    if cs != [] {
      SortIsStable(cs[1..], k);
      InsertByCountStable(cs[0], SortByCountDesc(cs[1..]), k);
    }
  }

  // ---------------------------------------------------------------------
  // The report

  /** An unknown tag (after lower-casing) is rejected before any scanning:
      status `error`, no candidates, and a report that does not depend on
      the tree or on the rule engine. */
  lemma UnknownWarehouseRejected(root: string, tree: Tree, tree': Tree, source: string, target: Option<string>,
                                 fires: (string, string) -> bool, fires': (string, string) -> bool)
    requires Lower(source) !in Warehouses
    ensures Scan(root, tree, source, target, fires) == UnknownWarehouse(UnknownMessage(source))
    ensures Scan(root, tree, source, target, fires).Status() == "error"
    ensures Scan(root, tree, source, target, fires).Candidates() == []
    ensures Scan(root, tree, source, target, fires) == Scan(root, tree', source, target, fires')
  {
  }

  /** For a known tag the status is `success`; `total_files` is absent
      exactly when nothing was found and otherwise equals the number of
      candidates; the candidates are the collected ones, most hits first,
      ties in walk order. */
  lemma KnownWarehouseReport(root: string, tree: Tree, source: string, target: Option<string>,
                             fires: (string, string) -> bool, k: nat)
    requires Lower(source) in Warehouses
    ensures var report := Scan(root, tree, source, target, fires);
            var collected := Collected(tree, SearchDirs, Yield(root, Patterns[Lower(source)], fires));
            && report.Scanned?
            && report.Status() == "success"
            && (report.totalFiles.None? <==> report.candidates == [])
            && (report.totalFiles.Some? ==> report.totalFiles.value == |report.candidates|)
            && multiset(report.candidates) == multiset(collected)
            && NonIncreasing(report.candidates)
            && WithCount(report.candidates, k) == WithCount(collected, k)
  {
    var collected := Collected(tree, SearchDirs, Yield(root, Patterns[Lower(source)], fires));
    SortIsStable(collected, k);
    SortByCountDescOrders(collected);
  }
}
