# dbt warehouse translation and schema analysis, in Dafny

This project models the decision logic of the dbt helper tools in
`dbt_data_scientist`:

- **Pattern catalog** (`Catalog`). This is `WAREHOUSE_PATTERNS`: four warehouse tags, each with an ordered list of
  case-insensitive regular expressions that fingerprint its SQL dialect.
  The model also covers the label a scan reports for a rule that fires.
- **File resolver** (`Resolver`). This is `_search_for_files`. It turns a loose search term into the
  sorted, duplicate-free list of project paths below `models`, `macros`,
  `analyses` and `tests` that the term could mean.
- **Dialect scanner** (`Scanner`). This is `dbt_identify_translation_candidates`. It rejects an
  unknown tag, tests every `.sql` file of the search directories against the
  tag's rules, and reports the files with at least one hit, most hits first.
- **Translation router** (`Router`). This is `dbt_translate`. It resolves the requested path
  (exact path, else the single match, else "not found" or a clarification
  request), reads the file, asks the language model for a translation, and
  writes it to `<root>/translated/<target>/<path>`. Each failure has its own
  report.
- **Schema classifier** (`Classifier`). This is `analyze_dbt_schema`. It scores the compiled
  `.sql` files for star schema, snowflake schema and data vault tokens, and
  guesses the style with the highest score. Ties go to the first key.

The supporting modules hold the Python operations the core relies on:
- `Strings`: `lower`, substring `in`, `endswith`, `replace(x, '')`, `join`, `str(n)`;
- `Paths`: `Path.name`, `Path.stem`, `parent`, joining;
- `Ordering`: string order and `sorted(set(...))`;
- `Project`: the project tree as a walk-ordered sequence of files, each with
  the outcome of reading it.

Imperative code keeps its shape. The resolver, the scanner, the router and the
classifier are methods with the source's loops and early returns. Each is
proved equal to a specification function (`Resolve`, `Scan`, `Translate`,
`Analyze`). The lemmas state what the source promises about those functions.

The file system, the regular-expression engine and the language model are
parameters:
- a `Tree` of files with their read outcomes;
- a `fires(rule, text)` predicate;
- the `present`, `read`, `generate`, `makeDirs`, `openForWrite` and `write`
  fields of the router's `Env`.

## Model

| member | source | states |
|---|---|---|
| Catalog.PatternsFor | dbt_data_scientist/tools/dbt_translate.py:11-51 | A tag has rules exactly when it is one of snowflake, bigquery, redshift, postgres. Its list is non-empty with at most 8 rules. |
| Catalog.PatternsShape | dbt_data_scientist/tools/dbt_translate.py:11-51 | The table has exactly the four tags as keys, with 8, 8, 8 and 7 rules. |
| Catalog.SnowflakeRulesDistinct | dbt_data_scientist/tools/dbt_translate.py:12-21 | The snowflake rules are pairwise distinct. |
| Catalog.SnowflakeRulesHaveNoHash | dbt_data_scientist/tools/dbt_translate.py:12-21 | No snowflake rule contains `#`. |
| Catalog.BigQueryRulesDistinct | dbt_data_scientist/tools/dbt_translate.py:22-31 | The bigquery rules are pairwise distinct. |
| Catalog.BigQueryRulesHaveNoHash | dbt_data_scientist/tools/dbt_translate.py:22-31 | No bigquery rule contains `#`. |
| Catalog.RedshiftRulesDistinct | dbt_data_scientist/tools/dbt_translate.py:32-41 | The redshift rules are pairwise distinct. |
| Catalog.RedshiftRulesHaveNoHash | dbt_data_scientist/tools/dbt_translate.py:32-41 | No redshift rule contains `#`. |
| Catalog.PostgresRulesDistinct | dbt_data_scientist/tools/dbt_translate.py:42-50 | The postgres rules are pairwise distinct. |
| Catalog.PostgresRulesHaveNoHash | dbt_data_scientist/tools/dbt_translate.py:42-50 | No postgres rule contains `#`. |
| Catalog.RulesAreTheirOwnLabels | dbt_data_scientist/tools/dbt_translate.py:286-291 | For every tag, the label reported for a rule that fires is the rule string itself, and the rules are distinct. |
| Catalog.Strip | dbt_data_scientist/tools/dbt_translate.py:290 | `strip()` never lengthens a string and leaves no leading or trailing whitespace. |
| Catalog.StripTrimsEnds | dbt_data_scientist/tools/dbt_translate.py:290 | `strip()` returns a slice `s[i..j]` of its input, and everything outside `i..j` is whitespace. With the previous row, this is exactly `strip`. |
| Catalog.Label | dbt_data_scientist/tools/dbt_translate.py:290 | A rule without `#` is its own label. A rule with `#` is labelled by the stripped text after its last `#`, which is `split('#')[-1].strip()`. A label never contains `#`. |
| Strings.Lower | dbt_data_scientist/tools/dbt_translate.py:74 | `lower()` keeps the length and maps each character through the ASCII lower-case map. |
| Strings.RemoveAll | dbt_data_scientist/tools/dbt_translate.py:74 | `replace(pat, '')` never lengthens its input, and leaves it unchanged when `pat` is empty or longer than the input. |
| Strings.RemoveAllDropsFirstOccurrence | dbt_data_scientist/tools/dbt_translate.py:74 | When `pat` first occurs right after `a`, `replace` keeps `a`, drops that occurrence and carries on with the rest. So every occurrence is removed, not only a trailing one. |
| Strings.JoinWith | dbt_data_scientist/tools/dbt_translate.py:160 | `sep.join(parts)` starts with the first part and ends with the last. |
| Strings.JoinWithContainsEach | dbt_data_scientist/tools/dbt_translate.py:160 | Every part occurs in `sep.join(parts)`. |
| Strings.NatToString | dbt_data_scientist/tools/dbt_translate.py:163 | `str(n)` is a non-empty string of decimal digits, with no leading zero unless `n` is 0. |
| Strings.NatToStringRoundTrip | dbt_data_scientist/tools/dbt_translate.py:163 | Reading the digits of `str(n)` back as a decimal number gives `n`. |
| Strings.ContainsIff | dbt_data_scientist/tools/dbt_translate.py:93 | The substring test `p in s` holds exactly when `p` occurs in `s` at some index. |
| Strings.RemoveAllWithoutOccurrence | dbt_data_scientist/tools/dbt_translate.py:74 | A term without `.sql` in it is left unchanged by the clean-up. |
| Strings.EndsWithTransitive | dbt_data_scientist/tools/dbt_translate.py:88 | A suffix of a file's name is a suffix of its path. |
| Paths.LastIndexOf | dbt_data_scientist/tools/dbt_translate.py:290 | The result is the last index of the character, or -1 when the character does not occur. |
| Paths.FileName | dbt_data_scientist/tools/dbt_translate.py:88 | The file name has no `/` and is a suffix of the path. |
| Paths.FileNameIsLastComponent | dbt_data_scientist/tools/dbt_translate.py:88 | The name is the whole path when it has no `/`, and otherwise the proper suffix right after a `/`. With the previous row, this is all of the text after the last `/`. |
| Paths.PathName | dbt_data_scientist/tools/dbt_translate.py:76 | `Path(term).name` has no `/` and is never `.`. |
| Paths.SqlStem | dbt_data_scientist/tools/dbt_translate.py:90 | The stem of `<x>.sql` is `<x>` when `<x>` is non-empty. |
| Paths.Stem | dbt_data_scientist/tools/dbt_translate.py:90 | `Path(name).stem` is a prefix of the name: the whole name, or the text before a final `.` that is neither its first nor its last character. It is the whole name exactly when the name is empty, ends with `.`, or has no `.` after its first character. |
| Paths.Join | dbt_data_scientist/tools/dbt_translate.py:132 | `Path(a) / b` is one character longer than `a` and `b` together, with the separator right after `a`. |
| Paths.JoinSplits | dbt_data_scientist/tools/dbt_translate.py:208-210 | When `b` is a single component, the parent of `Path(a) / b` is `a` and its name is `b`. |
| Paths.Parent | dbt_data_scientist/tools/dbt_translate.py:210 | `parent` is `.` for a name without `/`, and otherwise the proper prefix before the last `/`. |
| Paths.PathNameOfBareName | dbt_data_scientist/tools/dbt_translate.py:76 | A name without `/` (and not `.`) is its own `Path(...).name`. |
| Paths.PathNameOfRelativePath | dbt_data_scientist/tools/dbt_translate.py:76 | For a non-empty `name` without `/` that is not `.`, `Path(dir + "/" + name).name` is `name`. |
| Ordering.LessIrreflexive | dbt_data_scientist/tools/dbt_translate.py:102 | No string sorts before itself. |
| Ordering.LessTransitive | dbt_data_scientist/tools/dbt_translate.py:102 | String order is transitive. |
| Ordering.LessTotal | dbt_data_scientist/tools/dbt_translate.py:102 | Any two different strings are ordered one way or the other. |
| Ordering.Insert | dbt_data_scientist/tools/dbt_translate.py:102 | Inserting into a strictly sorted list keeps it strictly sorted. The members become those of the list plus the new one. |
| Ordering.SortedSet | dbt_data_scientist/tools/dbt_translate.py:102 | `sorted(set(xs))` is strictly increasing and has exactly the members of `xs`. |
| Ordering.SortedHeadLeast | dbt_data_scientist/tools/dbt_translate.py:102 | The head of a strictly sorted list sorts before every other member. |
| Ordering.SortedUnique | dbt_data_scientist/tools/dbt_translate.py:102 | Two strictly sorted lists with the same members are equal. |
| Resolver.SearchForFiles | dbt_data_scientist/tools/dbt_translate.py:54-102 | The resolver's result is strictly sorted. A path is in it exactly when a file of the tree has it, lies below a search directory, ends with one of the extensions and matches the term. |
| Resolver.Resolve | dbt_data_scientist/tools/dbt_translate.py:54-102 | The specification function of the resolver. Its result is strictly sorted, and `ResolveMembers` gives its members. |
| Resolver.WalkDirectories | dbt_data_scientist/tools/dbt_translate.py:81-100 | The nested loop appends, directory by directory and extension by extension, the paths of the matching files in walk order. |
| Resolver.WalkExtensions | dbt_data_scientist/tools/dbt_translate.py:87-100 | The `for ext in extensions` loop for one directory appends, extension by extension, what each `rglob` pass yields. |
| Resolver.WalkForExtension | dbt_data_scientist/tools/dbt_translate.py:88-100 | One `rglob` pass appends the paths of the files that pass one of the three tests, in walk order. |
| Resolver.DirHitsMembers | dbt_data_scientist/tools/dbt_translate.py:81-100 | A path is appended exactly when some file with that path is yielded for some directory and extension and matches. |
| Resolver.ResolveMembers | dbt_data_scientist/tools/dbt_translate.py:78-102 | A path is resolved exactly when some file in scope has it and matches the term. |
| Resolver.ResolveEmpty | dbt_data_scientist/tools/dbt_translate.py:102 | Nothing is resolved exactly when no file in scope matches the term. |
| Resolver.MatchByContainment | dbt_data_scientist/tools/dbt_translate.py:93-100 | A file matches exactly when the cleaned name or term occurs in the lower-cased stem, or the cleaned term occurs in the lower-cased relative path. The equality tests add nothing. |
| Resolver.MatchesCleaned | dbt_data_scientist/tools/dbt_translate.py:93-100 | The three tests of the loop body. An empty cleaned term occurs in every path, so it matches every file. |
| Resolver.IsMatch | dbt_data_scientist/tools/dbt_translate.py:73-100 | A file matches a term by those tests on the cleaned term and name. A term that the clean-up empties, such as `.sql`, matches every file. |
| Resolver.ResolvedAreSqlSources | dbt_data_scientist/tools/dbt_translate.py:79-88 | With the default extension, every resolved path lies below a search directory and ends with `.sql`. |
| Resolver.ResolveIgnoresWalkOrder | dbt_data_scientist/tools/dbt_translate.py:102 | The result depends only on the set of files, not on walk order. Repeated calls on the same tree agree. |
| Resolver.CleanTermWithoutSql | dbt_data_scientist/tools/dbt_translate.py:74 | A term whose lower-cased form has no `.sql` is only lower-cased by the clean-up. |
| Resolver.CleanTerm | dbt_data_scientist/tools/dbt_translate.py:74 | The cleaned term is never longer than the term. `CleanTermWithoutSql` and `CleanTermRemovesInnerSql` give its value. |
| Resolver.CleanName | dbt_data_scientist/tools/dbt_translate.py:76 | The cleaned file name is never longer than `Path(term).name`. |
| Resolver.CleanTermRemovesInnerSql | dbt_data_scientist/tools/dbt_translate.py:74 | A `.sql` in the middle of the term is removed as well: with no other `.sql` around it, `a.sqlb` is cleaned to the lower-cased `ab`. |
| Resolver.CleanTermOfMySqlModel | dbt_data_scientist/tools/dbt_translate.py:74 | `my.sql_model` is cleaned to `my_model`. |
| Resolver.InScopeIsSqlSource | dbt_data_scientist/tools/dbt_translate.py:79-88 | A file the default walk meets lies below a search directory, and its path ends with `.sql`. |
| Scanner.DetectPatterns | dbt_data_scientist/tools/dbt_translate.py:286-291 | The rule loop collects the labels of the rules that fire, in rule order, never more than there are rules. |
| Scanner.Detected | dbt_data_scientist/tools/dbt_translate.py:286-291 | The labels of the rules that fire, in rule order. The list is empty exactly when no rule fires on the text. |
| Scanner.CandidateFor | dbt_data_scientist/tools/dbt_translate.py:281-300 | A file yields a candidate exactly when it can be read and some rule fires on its text. The candidate carries the file's relative and full paths and a count of at least 1. |
| Scanner.WalkForCandidates | dbt_data_scientist/tools/dbt_translate.py:280-304 | One walk of a directory skips unreadable files and appends a candidate for each `.sql` file with a hit, in walk order. |
| Scanner.WalkDirectories | dbt_data_scientist/tools/dbt_translate.py:274-304 | The walk covers the directories in order and concatenates their candidates. |
| Scanner.IdentifyCandidates | dbt_data_scientist/tools/dbt_translate.py:234-329 | The scan returns the report `Scan` describes. |
| Scanner.Scan | dbt_data_scientist/tools/dbt_translate.py:234-329 | The specification function of the scanner. The report is the unknown-warehouse error exactly when the lower-cased tag is not a known one. A scan reports `total_files` exactly when it found candidates. |
| Scanner.DetectedAreFiredRules | dbt_data_scientist/tools/dbt_translate.py:286-299 | With distinct rules that are their own labels, the distinct labels reported are exactly the rules that fired. Their number is the count of labels. |
| Scanner.DetectedBound | dbt_data_scientist/tools/dbt_translate.py:286-291 | No more labels are reported than there are rules. |
| Scanner.CandidateWellFormed | dbt_data_scientist/tools/dbt_translate.py:293-300 | A candidate's `pattern_count` is between 1 and the number of rules. It equals the number of distinct labels, and every label is one of the rules. |
| Scanner.CandidateRecordsFiredRules | dbt_data_scientist/tools/dbt_translate.py:281-304 | For rules that are pairwise distinct and contain no `#`, a file yields a candidate exactly when it is readable and some rule fires on it. The candidate holds its relative and full paths, the rules that fired, and their number. |
| Scanner.CollectedReportsHitFiles | dbt_data_scientist/tools/dbt_translate.py:274-304 | For such rules, the walk collects exactly the records of the readable `.sql` files below a search directory on which some rule fires. |
| Scanner.FileCandidatesMembers | dbt_data_scientist/tools/dbt_translate.py:280-300 | A candidate is appended for a directory exactly when some `.sql` file below it yields that candidate. |
| Scanner.CollectedMembers | dbt_data_scientist/tools/dbt_translate.py:274-304 | The collected candidates are exactly those yielded by `.sql` files below some search directory. |
| Scanner.ScanKeepsCollected | dbt_data_scientist/tools/dbt_translate.py:307 | Sorting reports exactly the collected candidates. |
| Scanner.ScanReportsHitFiles | dbt_data_scientist/tools/dbt_translate.py:274-304 | A known tag's scan reports exactly the readable `.sql` files below a search directory on which some rule fires, each with the fired rules and their number. |
| Scanner.ScanCandidatesWellFormed | dbt_data_scientist/tools/dbt_translate.py:293-300 | Every reported candidate has a count from 1 to the number of rules, equal to its number of distinct labels. |
| Scanner.InsertByCountPermutes | dbt_data_scientist/tools/dbt_translate.py:307 | An insertion step adds the new candidate and loses none. |
| Scanner.InsertByCountOrders | dbt_data_scientist/tools/dbt_translate.py:307 | An insertion step keeps the list ordered by count, most first. |
| Scanner.SortByCountDescOrders | dbt_data_scientist/tools/dbt_translate.py:307 | The sorted candidates are a permutation of the input, with counts never increasing. |
| Scanner.InsertByCountStable | dbt_data_scientist/tools/dbt_translate.py:307 | An insertion step places the new candidate before the equal-count ones already in the list. |
| Scanner.SortByCountDesc | dbt_data_scientist/tools/dbt_translate.py:307 | The sort is a permutation of its input. `SortByCountDescOrders` and `SortIsStable` give the order. |
| Scanner.InsertByCount | dbt_data_scientist/tools/dbt_translate.py:307 | One insertion step of the sort: the result is the list with the candidate put in at some index. |
| Scanner.FoundMessage | dbt_data_scientist/tools/dbt_translate.py:319-320 | The summary starts with `Found <n> ` for the number of candidates, and names the source tag. |
| Scanner.SortIsStable | dbt_data_scientist/tools/dbt_translate.py:307 | Candidates with equal counts keep their walk order. |
| Scanner.UnknownWarehouseRejected | dbt_data_scientist/tools/dbt_translate.py:258-264 | An unknown tag, after lower-casing, gives status `error` and no candidates. The report depends neither on the tree nor on the rule engine. |
| Scanner.KnownWarehouseReport | dbt_data_scientist/tools/dbt_translate.py:306-329 | A known tag gives status `success`. `total_files` is absent exactly when nothing was found and otherwise equals the number of candidates. The candidates are the collected ones, sorted most hits first, with stable ties. |
| Router.FirstTen | dbt_data_scientist/tools/dbt_translate.py:166 | `suggestions[:10]` is a prefix with at most ten entries, and the whole list when it has at most ten. |
| Router.NotFoundMessage | dbt_data_scientist/tools/dbt_translate.py:146 | The not-found message names the requested path. |
| Router.ClarificationMessage | dbt_data_scientist/tools/dbt_translate.py:160-163 | The clarification message names the requested path. `ClarificationCountsAllMatches` and `ClarificationListsSuggestions` give the count and the list. |
| Router.ClarificationListsSuggestions | dbt_data_scientist/tools/dbt_translate.py:160-163 | Each of the first ten matches appears in the clarification message. |
| Router.DbtTranslate | dbt_data_scientist/tools/dbt_translate.py:105-231 | The router's outcome is the one `Translate` describes, for every environment. |
| Router.Translate | dbt_data_scientist/tools/dbt_translate.py:105-231 | The specification function of the router. "Not found" and clarification happen only when the given path does not exist. |
| Router.Actual | dbt_data_scientist/tools/dbt_translate.py:131-171 | The path the router settles on. It is the given path when that exists. Otherwise it is the single match, when the resolver returns exactly one. There is none exactly when the path is missing and the number of matches is not 1. |
| Router.Proceed | dbt_data_scientist/tools/dbt_translate.py:173-231 | The steps after resolution. A read error is reported exactly when reading the file fails. An exception escapes only when creating the output directory fails, and it carries that failure's reason. These steps never report "not found" and never ask for clarification. |
| Router.Prompt | dbt_data_scientist/tools/dbt_translate.py:188-192 | The prompt starts with the instruction naming the source warehouse, and ends with ` to <target>`, then the instructions, then the file's text. |
| Router.OutputPath | dbt_data_scientist/tools/dbt_translate.py:208-209 | The output path is `<root>/translated/<target>/<actual>`: it starts with `<root>/translated/<target>/`, ends with `/<actual>`, and is exactly as long as those parts together. |
| Router.ExactPathWins | dbt_data_scientist/tools/dbt_translate.py:131-171 | When the exact path exists, the tree is not consulted, the report is neither "not found" nor a clarification, and no original path is reported. |
| Router.NoSimilarFile | dbt_data_scientist/tools/dbt_translate.py:143-150 | A missing path with no matching file gives status `error` with the not-found message. |
| Router.SeveralMatchesNeedClarification | dbt_data_scientist/tools/dbt_translate.py:158-168 | Two or more matches give status `clarification_needed` and no saved path. The message is the clarification for all matches, and it states their full number. The suggestions are the first ten of the sorted matches, each a matching `.sql` file of the tree, and the original path is returned. |
| Router.ClarificationCountsAllMatches | dbt_data_scientist/tools/dbt_translate.py:163 | The clarification message contains `Found <n> possible matches:` with `n` the number of all matches, not only of the ten listed. |
| Router.SingleMatchIsUsed | dbt_data_scientist/tools/dbt_translate.py:153-157 | A single match is used as the path to translate. |
| Router.SuccessWritesUnderTranslated | dbt_data_scientist/tools/dbt_translate.py:173-231 | On success the content is the model's answer to the prompt built from the file's text, and that answer has text. It was written to `<root>/translated/<target>/<actual>` after the parent directory was created and the file was opened. `source_file` is `<root>/<actual>`. The original path is reported exactly when a match replaced it. |
| Router.ActualProceeds | dbt_data_scientist/tools/dbt_translate.py:131-171 | Unless the router reports "not found" or asks for clarification, it has settled on a file and goes on with `Proceed` for it. |
| Router.ProceedStopsEarly | dbt_data_scientist/tools/dbt_translate.py:173-205 | A read error carries `Error reading file: ` and the read failure's reason. A translation error is returned exactly when the file was read and the model call failed, and its message is `Error during translation: ` with that failure's reason. An escaping exception means the file was read and the model answered. |
| Router.ProceedSucceeds | dbt_data_scientist/tools/dbt_translate.py:173-231 | For a given actual path, a success means that the file was read and the model answered the prompt for its text with text. It also means that the output directory was created and the output file opened and written. The saved path, `source_file` and original path are as in `SuccessWritesUnderTranslated`. |
| Router.ProceedWriteFails | dbt_data_scientist/tools/dbt_translate.py:207-222 | For a given actual path, a write error means that the file was read, the model answered, and the output directory was created. Then opening the output file failed, or the answer had no text, or writing it failed. The report carries the answer. |
| Router.WriteFailureKeepsTranslation | dbt_data_scientist/tools/dbt_translate.py:207-222 | A write error returns the model's answer as the translated content, after the output directory was created. Opening the output file failed, or the answer had no text, or writing it failed. |
| Router.NoTextFailsTheWrite | dbt_data_scientist/tools/dbt_translate.py:198-222 | An answer without text passes the translation step. The directory is created and the output file opened, and so truncated. Then `write(None)` fails with a `TypeError`, and the router returns `error` with no content. |
| Router.OnlyMakeDirsRaises | dbt_data_scientist/tools/dbt_translate.py:207-210 | In the model, where `present` never raises, the only exception that escapes is the one from creating the output directory, and it carries that failure's reason. |
| Router.OriginalPathMeansSubstitution | dbt_data_scientist/tools/dbt_translate.py:230 | When every file of the tree exists at its full path, a success reports an original path exactly when the given path did not exist. |
| Classifier.AnalyzeSchema | dbt_data_scientist/sub_agents/dbt_model_analyzer.py:41-72 | The nested loops compute the scores and guess that `Analyze` describes, or the first read failure. |
| Classifier.Analyze | dbt_data_scientist/sub_agents/dbt_model_analyzer.py:41-72 | The specification function of the classifier. A successful analysis guesses one of the three keys. |
| Classifier.Delta | dbt_data_scientist/sub_agents/dbt_model_analyzer.py:58-66 | One file adds at most 2 to the star score and at most 1 to each of the others. |
| Classifier.TallyFiles | dbt_data_scientist/sub_agents/dbt_model_analyzer.py:54-66 | The tally of one directory's files. On success no score is below its starting value. `TallyFilesFails` says when it fails. |
| Classifier.TallyWalk | dbt_data_scientist/sub_agents/dbt_model_analyzer.py:53-66 | The tally over the whole walk. On success no score is below its starting value. `TallyWalkFails` says when it fails. |
| Classifier.Guess | dbt_data_scientist/sub_agents/dbt_model_analyzer.py:68 | The guess is one of the three keys. `GuessIsFirstMaximal` says which one. |
| Classifier.GuessIsFirstMaximal | dbt_data_scientist/sub_agents/dbt_model_analyzer.py:68 | The guess is one of the three keys and has the largest score. Every key before it in insertion order scores strictly less. |
| Classifier.OtherFilesIgnored | dbt_data_scientist/sub_agents/dbt_model_analyzer.py:55 | A file whose name does not end with `.sql` changes nothing, wherever it appears. |
| Classifier.NoSqlFilesDefault | dbt_data_scientist/sub_agents/dbt_model_analyzer.py:47-68 | A walk without `.sql` files, including a missing directory, gives all-zero scores and `star_schema`. |
| Classifier.TallyFilesBounds | dbt_data_scientist/sub_agents/dbt_model_analyzer.py:54-66 | Within one directory, scores only grow: by at most 2 per `.sql` file for the star score and 1 per file for the others. |
| Classifier.TallyWalkBounds | dbt_data_scientist/sub_agents/dbt_model_analyzer.py:53-66 | Over the walk, scores only grow, within the same per-file limits. |
| Classifier.ScoresBounded | dbt_data_scientist/sub_agents/dbt_model_analyzer.py:58-66 | With N `.sql` files the star score is at most 2N, and the snowflake and vault scores at most N. |
| Classifier.JoinAndDimensionCountTwice | dbt_data_scientist/sub_agents/dbt_model_analyzer.py:59-64 | A text with `join`, ` on ` and a `dim_` or `fact_` token adds exactly 2 to the star score. |
| Classifier.TallyFilesFails | dbt_data_scientist/sub_agents/dbt_model_analyzer.py:55-57 | A directory's tally fails exactly when one of its `.sql` files is unreadable. |
| Classifier.TallyWalkFails | dbt_data_scientist/sub_agents/dbt_model_analyzer.py:53-57 | The walk's tally fails exactly when some directory has an unreadable `.sql` file. |
| Classifier.FailsOnUnreadableSql | dbt_data_scientist/sub_agents/dbt_model_analyzer.py:57 | The analysis fails exactly when some `.sql` file cannot be read. Otherwise the guess is that of the scores. |
| Classifier.TallyFilesIgnoresCase | dbt_data_scientist/sub_agents/dbt_model_analyzer.py:57 | Within a directory, texts that differ only in case give the same tally. |
| Classifier.AnalysisIgnoresCase | dbt_data_scientist/sub_agents/dbt_model_analyzer.py:57 | Changing the case of any file's text changes neither the scores nor the guess. |
| Classifier.StarProjectIsStar | dbt_data_scientist/sub_agents/dbt_model_analyzer.py:53-68 | If every `.sql` file names a `dim_`/`fact_` table and no table of the other styles, the guess is `star_schema`, with star score at least the file count and the other scores 0. |

## Left out

- The comment at `dbt_data_scientist/tools/dbt_translate.py:73` says the clean-up removes `.sql` "if present". The code calls `replace`, which removes every occurrence in the lower-cased term, not just a trailing one. `CleanTerm` follows the code, so `my.sql_model` becomes `my_model` (`Resolver.CleanTermOfMySqlModel`).
- The schema classifier's `open` and `read` (`dbt_data_scientist/sub_agents/dbt_model_analyzer.py:57`) are not inside a `try`. A read failure therefore ends the analysis with the exception, and the model reports it as `Failed`.
- Regular-expression matching is the parameter `fires(rule, text)`. The model does not contain a regex engine, so it does not say which texts a given rule matches.
- The language model call is the `generate` field of `Env`. Failures creating the client and failures generating both give `GenerationFailed`. A response without text is `Generated(None)`. The text of the `TypeError` that `write(None)` raises is taken to be CPython's message.
- The router's file system is modelled as outcomes (`present`, `read`, `makeDirs`, `openForWrite`, `write`). `openForWrite` and `write` are independent parameters, although a real `write` can only follow a successful `open`. The written file is not tracked as new state, and a later call does not see it.
- `load_dotenv` and the `DBT_PROJECT_LOCATION` and `os.getcwd` defaults are not modelled. The project location is the `root` parameter, and the files below it are the `tree`. The resolver's `dbt_root` argument is unused in the source, and the model has no such parameter.
- The `project_dir` selection of `analyze_dbt_schema` and the `target/compiled` join are not modelled. The classifier takes the walk of that directory.
- `print` output and warnings are not modelled.
- `dbt_compile`, the agents and the prompts are not part of this model.
- `Strings.Lower`: maps only ASCII letters. Python's `lower` also maps other Unicode letters.
- `Catalog.Strip`: strips only ASCII whitespace. No rule of the table contains `#`, so `strip` is never reached with the table as written.
- Paths are joined with `/` without normalisation. `..` and `.` components, absolute paths given to the router, and doubled separators are not resolved as `pathlib` would resolve them.
- A directory whose name ends with `.sql` is never yielded by `rglob` in the model. The tree holds files only.
- `rglob('*' + ext)` is modelled as "the name ends with `ext`". Glob metacharacters inside an extension are not interpreted.
- `Scanner.Candidate`: keeps `detected_syntax` as a set. The source builds a list from a set, and its order is not specified.
- `Path.exists()` at `dbt_data_scientist/tools/dbt_translate.py:83`, `:136` and `:276` is outside any `try`. On CPython up to 3.12 it re-raises errors other than a missing file or directory, a `PermissionError` for instance. The model does not capture those exceptions: the router's `present` is a total predicate, and the search directories are read from the tree.
- The router's `Env.present` is independent of the tree. `Router.OriginalPathMeansSubstitution` assumes the link between them (`Consistent`) explicitly.
