/** The file resolver (`_search_for_files`): turns a loose search term into
    the sorted, duplicate-free list of project paths it could mean. The
    `dbt_root` argument of the source is never read (the source takes the
    root from the environment instead); the model takes the tree found
    under that root. */
module Resolver {
  import opened Strings
  import opened Paths
  import opened Ordering
  import opened Project

  /** The extensions searched when the caller passes none. */
  const DefaultExtensions: seq<string> := [".sql"]

  /** `search_term.lower().replace('.sql', '')` */
  function CleanTerm(term: string): (r: string)
    ensures |r| <= |term|
  {
    RemoveAll(Lower(term), ".sql")
  }

  /** `Path(search_term).name.lower().replace('.sql', '')` */
  function CleanName(term: string): (r: string)
    ensures |r| <= |PathName(term)|
  {
    RemoveAll(Lower(PathName(term)), ".sql")
  }

  /** The three tests of the source, in its order, on the cleaned term and
      cleaned name: the name against the lower-cased stem (equal or
      contained), the term against the stem (equal or contained), the term
      against the lower-cased relative path. A cleaned term that is empty
      is contained in every path, so it matches every file. */
  predicate MatchesCleaned(searchClean: string, searchFilename: string, f: File): (b: bool)
    ensures searchClean == [] ==> b
  {
    assert Lower(f.relPath)[..0] == [];
    var stem := Lower(Stem(FileName(f.relPath)));
    (searchFilename == stem || Contains(stem, searchFilename))
    || (searchClean == stem || Contains(stem, searchClean))
    || Contains(Lower(f.relPath), searchClean)
  }

  /** `f` matches the search term. A term that the clean-up empties, such
      as `.sql` itself, matches every file. */
  predicate IsMatch(term: string, f: File): (b: bool)
    ensures CleanTerm(term) == [] ==> b
  {
    MatchesCleaned(CleanTerm(term), CleanName(term), f)
  }

  /** The match test with the cleaned term and name fixed, as a value. */
  function Tester(searchClean: string, searchFilename: string): File -> bool
  {
    f => MatchesCleaned(searchClean, searchFilename, f)
  }

  /** The walk of `dir` for `ext` yields `f` (`rglob`) and `f` passes `test`. */
  function Picks(test: File -> bool): (File, string, string) -> bool
  {
    (f, dir, ext) => Globbed(f, dir, ext) && test(f)
  }

  /** Paths appended to `matches` while walking `files` for one directory
      and one extension: those of the files `pick` selects. */
  function FileHits(files: seq<File>, dir: string, ext: string, pick: (File, string, string) -> bool): seq<string>
    decreases |files|
  {
    if files == [] then []
    else
      var f := files[|files| - 1];
      FileHits(files[..|files| - 1], dir, ext, pick) + (if pick(f, dir, ext) then [f.relPath] else [])
  }

  /** Paths appended for one directory, extension by extension. */
  function ExtHits(tree: Tree, dir: string, exts: seq<string>, pick: (File, string, string) -> bool): seq<string>
    decreases |exts|
  {
    if exts == [] then []
    else ExtHits(tree, dir, exts[..|exts| - 1], pick) + FileHits(tree, dir, exts[|exts| - 1], pick)
  }

  /** Paths appended for the directories `dirs`, one after the other. */
  function DirHits(tree: Tree, dirs: seq<string>, exts: seq<string>, pick: (File, string, string) -> bool): seq<string>
    decreases |dirs|
  {
    if dirs == [] then []
    else DirHits(tree, dirs[..|dirs| - 1], exts, pick) + ExtHits(tree, dirs[|dirs| - 1], exts, pick)
  }

  /** The list `matches` once every search directory has been walked. */
  function Matches(tree: Tree, term: string, exts: seq<string>): seq<string>
  {
    DirHits(tree, SearchDirs, exts, Picks(Tester(CleanTerm(term), CleanName(term))))
  }

  /** What `_search_for_files` returns: `sorted(set(matches))`. */
  function Resolve(tree: Tree, term: string, exts: seq<string>): (r: seq<string>)
    ensures StrictlySorted(r)
  {
    SortedSet(Matches(tree, term, exts))
  }

  /** `f` lies below a search directory and its name ends with one of `exts`. */
  ghost predicate InScope(f: File, exts: seq<string>)
  {
    exists d, e :: d in SearchDirs && e in exts && Globbed(f, d, e)
  }

  /** The resolver walks `models`, `macros`, `analyses` and `tests` in turn,
      for each extension, appends every matching file's relative path, and
      returns the sorted set of what it appended. */
  method SearchForFiles(tree: Tree, term: string, exts: seq<string>) returns (result: seq<string>)
    ensures result == Resolve(tree, term, exts)
    ensures StrictlySorted(result)
    ensures forall p :: p in result <==>
              exists f :: f in tree && f.relPath == p && InScope(f, exts) && IsMatch(term, f)
  {
    var searchClean := RemoveAll(Lower(term), ".sql");
    var searchFilename := RemoveAll(Lower(PathName(term)), ".sql");
    var matches := WalkDirectories(tree, SearchDirs, exts, searchClean, searchFilename,
                                   Picks(Tester(searchClean, searchFilename)));
    result := SortedSet(matches);
    ResolveMembers(tree, term, exts);
  }

  /** `pick` is the source's selection: the walk yields the file and one of
      the three tests on the cleaned term and name succeeds. */
  ghost predicate SelectsMatches(pick: (File, string, string) -> bool, searchClean: string, searchFilename: string)
  {
    forall f, dir, ext :: pick(f, dir, ext) == (Globbed(f, dir, ext) && MatchesCleaned(searchClean, searchFilename, f))
  }

  /** The outer loop of the resolver: for each directory of `dirs`, the
      paths its walks append, one directory after the other. */
  method WalkDirectories(tree: Tree, dirs: seq<string>, exts: seq<string>, searchClean: string, searchFilename: string,
                         ghost pick: (File, string, string) -> bool)
    returns (matches: seq<string>)
    requires SelectsMatches(pick, searchClean, searchFilename)
    ensures matches == DirHits(tree, dirs, exts, pick)
  {
    matches := [];
    for i := 0 to |dirs|
      invariant matches == DirHits(tree, dirs[..i], exts, pick)
    {
      var found := WalkExtensions(tree, dirs[i], exts, searchClean, searchFilename, pick);
      DirHitsStep(tree, dirs, i, exts, pick);
      matches := matches + found;
    }
    assert dirs[..|dirs|] == dirs;
  }

  /** The loop over the extensions for one directory: the paths of the
      matching files, extension by extension, in walk order. */
  method WalkExtensions(tree: Tree, dir: string, exts: seq<string>, searchClean: string, searchFilename: string,
                        ghost pick: (File, string, string) -> bool)
    returns (found: seq<string>)
    requires SelectsMatches(pick, searchClean, searchFilename)
    ensures found == ExtHits(tree, dir, exts, pick)
  {
    found := [];
    for k := 0 to |exts|
      invariant found == ExtHits(tree, dir, exts[..k], pick)
    {
      var hits := WalkForExtension(tree, dir, exts[k], searchClean, searchFilename, pick);
      ExtHitsStep(tree, dir, exts, k, pick);
      found := found + hits;
    }
    assert exts[..|exts|] == exts;
  }

  /** One `rglob` walk of `dir` for `ext`: the paths of the matching files,
      in walk order. */
  method WalkForExtension(tree: Tree, dir: string, ext: string, searchClean: string, searchFilename: string,
                          ghost pick: (File, string, string) -> bool)
    returns (found: seq<string>)
    requires SelectsMatches(pick, searchClean, searchFilename)
    ensures found == FileHits(tree, dir, ext, pick)
  {
    found := [];
    for j := 0 to |tree|
      invariant found == FileHits(tree[..j], dir, ext, pick)
    {
      var f := tree[j];
      assert tree[..j + 1][..j] == tree[..j];
      if Globbed(f, dir, ext) {
        var stem := Lower(Stem(FileName(f.relPath)));
        if searchFilename == stem || Contains(stem, searchFilename) {
          found := found + [f.relPath];
        } else if searchClean == stem || Contains(stem, searchClean) {
          found := found + [f.relPath];
        } else if Contains(Lower(f.relPath), searchClean) {
          found := found + [f.relPath];
        }
      }
    }
    assert tree[..|tree|] == tree;
  }

  lemma ExtHitsStep(tree: Tree, dir: string, exts: seq<string>, k: nat, pick: (File, string, string) -> bool)
    requires k < |exts|
    ensures ExtHits(tree, dir, exts[..k + 1], pick) == ExtHits(tree, dir, exts[..k], pick) + FileHits(tree, dir, exts[k], pick)
  {
    assert exts[..k + 1][..k] == exts[..k];
  }

  lemma DirHitsStep(tree: Tree, dirs: seq<string>, i: nat, exts: seq<string>, pick: (File, string, string) -> bool)
    requires i < |dirs|
    ensures DirHits(tree, dirs[..i + 1], exts, pick) == DirHits(tree, dirs[..i], exts, pick) + ExtHits(tree, dirs[i], exts, pick)
  {
    assert dirs[..i + 1][..i] == dirs[..i];
  }

  /** `pick` selects `f` for one of `dirs` and one of `exts`. */
  ghost predicate PickedBy(f: File, dirs: seq<string>, exts: seq<string>, pick: (File, string, string) -> bool)
  {
    exists d, e :: d in dirs && e in exts && pick(f, d, e)
  }

  lemma {:induction false} FileHitsMembers(files: seq<File>, dir: string, ext: string,
                                           pick: (File, string, string) -> bool, p: string)
    ensures p in FileHits(files, dir, ext, pick) <==>
            exists f :: f in files && f.relPath == p && pick(f, dir, ext)
    decreases |files|
  {
    if files != [] {
      var init := files[..|files| - 1];
      FileHitsMembers(init, dir, ext, pick, p);
      assert files == init + [files[|files| - 1]];
    }
  }

  lemma {:induction false} ExtHitsMembers(tree: Tree, dir: string, exts: seq<string>,
                                          pick: (File, string, string) -> bool, p: string)
    ensures p in ExtHits(tree, dir, exts, pick) <==>
            exists f :: f in tree && f.relPath == p && PickedBy(f, [dir], exts, pick)
    decreases |exts|
  {
    if exts != [] {
      var init := exts[..|exts| - 1];
      var last := exts[|exts| - 1];
      ExtHitsMembers(tree, dir, init, pick, p);
      FileHitsMembers(tree, dir, last, pick, p);
      assert exts == init + [last];
      forall f ensures PickedBy(f, [dir], exts, pick) <==> PickedBy(f, [dir], init, pick) || pick(f, dir, last)
      {
        if PickedBy(f, [dir], exts, pick) {
          var d, e :| d in [dir] && e in exts && pick(f, d, e);
          if e != last {
            assert e in init;
          }
        }
        if pick(f, dir, last) {
          assert dir in [dir] && last in exts;
        }
      }
    }
  }

  lemma {:induction false} DirHitsMembers(tree: Tree, dirs: seq<string>, exts: seq<string>,
                                          pick: (File, string, string) -> bool, p: string)
    ensures p in DirHits(tree, dirs, exts, pick) <==>
            exists f :: f in tree && f.relPath == p && PickedBy(f, dirs, exts, pick)
    decreases |dirs|
  {
    if dirs != [] {
      var init := dirs[..|dirs| - 1];
      var last := dirs[|dirs| - 1];
      DirHitsMembers(tree, init, exts, pick, p);
      ExtHitsMembers(tree, last, exts, pick, p);
      assert dirs == init + [last];
      forall f ensures PickedBy(f, dirs, exts, pick) <==> PickedBy(f, init, exts, pick) || PickedBy(f, [last], exts, pick)
      {
        if PickedBy(f, dirs, exts, pick) {
          var d, e :| d in dirs && e in exts && pick(f, d, e);
          if d != last {
            assert d in init;
          } else {
            assert d in [last];
          }
        }
        if PickedBy(f, [last], exts, pick) {
          var d, e :| d in [last] && e in exts && pick(f, d, e);
          assert d in dirs;
        }
      }
    }
  }

  /** Nothing is resolved exactly when no file of the tree lies in scope and
      matches the term. */
  lemma ResolveEmpty(tree: Tree, term: string, exts: seq<string>)
    ensures Resolve(tree, term, exts) == [] <==>
            forall f :: f in tree ==> !(InScope(f, exts) && IsMatch(term, f))
  {
    ResolveMembers(tree, term, exts);
    var r := Resolve(tree, term, exts);
    forall f | f in tree && InScope(f, exts) && IsMatch(term, f) ensures f.relPath in r {
    }
    if r != [] {
      assert r[0] in r;
    }
  }

  /** A path is resolved exactly when some file of the tree has it, lies
      below a search directory with one of the extensions, and matches the
      term. */
  lemma ResolveMembers(tree: Tree, term: string, exts: seq<string>)
    ensures forall p :: p in Resolve(tree, term, exts) <==>
              exists f :: f in tree && f.relPath == p && InScope(f, exts) && IsMatch(term, f)
  {
    var pick := Picks(Tester(CleanTerm(term), CleanName(term)));
    forall f ensures PickedBy(f, SearchDirs, exts, pick) <==> InScope(f, exts) && IsMatch(term, f)
    {
      if InScope(f, exts) && IsMatch(term, f) {
        var d, e :| d in SearchDirs && e in exts && Globbed(f, d, e);
        assert pick(f, d, e);
      }
    }
    forall p ensures p in Resolve(tree, term, exts) <==>
                     exists f :: f in tree && f.relPath == p && InScope(f, exts) && IsMatch(term, f)
    {
      DirHitsMembers(tree, SearchDirs, exts, pick, p);
    }
  }

  /** The equality tests of the source are subsumed by its containment
      tests: a file matches exactly when the cleaned name occurs in the
      lower-cased stem, or the cleaned term occurs in the stem or in the
      lower-cased relative path. */
  lemma MatchByContainment(term: string, f: File)
    ensures IsMatch(term, f) <==>
              var stem := Lower(Stem(FileName(f.relPath)));
              Contains(stem, CleanName(term)) || Contains(stem, CleanTerm(term))
              || Contains(Lower(f.relPath), CleanTerm(term))
  {
    ContainsSelf(Lower(Stem(FileName(f.relPath))));
  }

  /** With the default extension every resolved path lies below `models`,
      `macros`, `analyses` or `tests` and ends with `.sql`. */
  lemma ResolvedAreSqlSources(tree: Tree, term: string, p: string)
    requires p in Resolve(tree, term, DefaultExtensions)
    ensures exists d :: d in SearchDirs && d + "/" <= p
    ensures EndsWith(p, ".sql")
  {
    ResolveMembers(tree, term, DefaultExtensions);
    var f :| f in tree && f.relPath == p && InScope(f, DefaultExtensions) && IsMatch(term, f);
    InScopeIsSqlSource(f);
  }

  /** A file the default walk meets lies below a search directory and its
      path ends with `.sql`. */
  lemma InScopeIsSqlSource(f: File)
    requires InScope(f, DefaultExtensions)
    ensures exists d :: d in SearchDirs && d + "/" <= f.relPath
    ensures EndsWith(f.relPath, ".sql")
  {
    var d, e :| d in SearchDirs && e in DefaultExtensions && Globbed(f, d, e);
    assert e == ".sql";
    EndsWithTransitive(f.relPath, FileName(f.relPath), ".sql");
  }

  /** The result depends on the set of files only, not on the order the
      walk meets them in; in particular a repeated call on an unchanged tree
      gives the same list. */
  lemma ResolveIgnoresWalkOrder(tree1: Tree, tree2: Tree, term: string, exts: seq<string>)
    requires forall f :: f in tree1 <==> f in tree2
    ensures Resolve(tree1, term, exts) == Resolve(tree2, term, exts)
  {
    ResolveMembers(tree1, term, exts);
    ResolveMembers(tree2, term, exts);
    SortedUnique(Resolve(tree1, term, exts), Resolve(tree2, term, exts));
  }

  /** A term with no `.sql` in it (in any case) is only lower-cased. */
  lemma CleanTermWithoutSql(term: string)
    requires !Contains(Lower(term), ".sql")
    ensures CleanTerm(term) == Lower(term)
  {
    RemoveAllWithoutOccurrence(Lower(term), ".sql");
  }

  /** A `.sql` in the middle of the term is removed as well, not only a
      trailing one: with no other `.sql` around it, `a.sqlb` is cleaned to
      `ab` (lower-cased). */
  lemma CleanTermRemovesInnerSql(a: string, b: string)
    requires forall i :: 0 <= i < |a| ==> !OccursAt(Lower(a) + ".sql" + Lower(b), ".sql", i)
    requires !Contains(Lower(b), ".sql")
    ensures CleanTerm(a + ".sql" + b) == Lower(a) + Lower(b)
  {
    assert Lower(a + ".sql" + b) == Lower(a) + ".sql" + Lower(b);
    RemoveAllDropsFirstOccurrence(Lower(a), ".sql", Lower(b));
    RemoveAllWithoutOccurrence(Lower(b), ".sql");
  }

  /** The parts of `my.sql_model` as `CleanTermRemovesInnerSql` needs
      them. */
  lemma MySqlModelParts()
    ensures "my.sql_model" == "my" + ".sql" + "_model"
    ensures Lower("my") == "my" && Lower("_model") == "_model"
    ensures !OccursAt("my.sql_model", ".sql", 0) && !OccursAt("my.sql_model", ".sql", 1)
    ensures !Contains("_model", ".sql")
  {
    assert "my.sql_model"[0..4][0] == 'm';
    assert "my.sql_model"[1..5][0] == 'y';
    assert "_model"[..4][0] != '.';
    assert "_model"[1..][..4][0] != '.';
    assert "_model"[1..][1..][..4][0] != '.';
    assert |"_model"[1..][1..][1..]| < 4;
  }

  /** `my.sql_model` is cleaned to `my_model`. */
  lemma CleanTermOfMySqlModel()
    ensures CleanTerm("my.sql_model") == "my_model"
  {
    MySqlModelParts();
    CleanTermRemovesInnerSql("my", "_model");
  }
}
