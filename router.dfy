/** The translation router (`dbt_translate`): resolves the file the caller
    names, reads it, asks the language model for a translation, and writes
    the result below `translated/<target>/`. The file system and the model
    call are the fields of an `Env`; the router never looks at them except
    through those fields. */
module Router {
  import opened Strings
  import opened Paths
  import opened Project
  import opened Resolver

  /** What the language model call gives: the response's `text`, which is
      `None` when the response carries no text (a blocked answer, say), or
      the message of the exception raised while creating the client or
      generating. */
  datatype Generation = Generated(text: Option<string>) | GenerationFailed(reason: string)

  /** What creating directories or writing a file gives. */
  datatype IoStatus = Done | IoFailed(reason: string)

  /** The world the router runs in. `root` is the project location; `tree`
      the files a recursive walk of it meets; `present(p)` is
      `Path(p).exists()`; `read(p)` opens and reads `p`; `generate(prompt)`
      is the model call; `makeDirs(d)` is `mkdir(parents=True,
      exist_ok=True)`; `openForWrite(p)` is `open(p, 'w')`, which creates
      or truncates `p`; `write(p, text)` writes `text` to the file opened
      at `p`. */
  datatype Env = Env(
    root: string,
    tree: Tree,
    present: string -> bool,
    read: string -> ReadResult,
    generate: string -> Generation,
    makeDirs: string -> IoStatus,
    openForWrite: string -> IoStatus,
    write: (string, string) -> IoStatus)

  /** The result dictionary, one variant per way the router returns. */
  datatype Report =
    | NotFound(message: string)
    | Clarification(message: string, suggestions: seq<string>, originalPath: Option<string>)
    | ReadError(message: string)
    | TranslationError(message: string)
    | WriteError(message: string, translatedContent: Option<string>)
    | Translated(message: string, translatedContent: Option<string>, savedPath: string, sourceFile: string,
                 originalPath: Option<string>)
  {
    function Status(): string
    {
      if Clarification? then "clarification_needed" else if Translated? then "success" else "error"
    }

    /** `saved_path`: set only on success. */
    function SavedPath(): Option<string>
    {
      if Translated? then Some(savedPath) else None
    }
  }

  /** The router returns a report, or the exception of `mkdir` escapes. */
  datatype Outcome = Returned(report: Report) | Raised(reason: string)

  /** `suggestions[:10]`. */
  function FirstTen(s: seq<string>): (r: seq<string>)
    ensures |r| <= 10 && r <= s
    ensures |s| <= 10 ==> r == s
  {
    if |s| <= 10 then s else s[..10]
  }

  const NotFoundOpening := "File not found at '"
  const NotFoundAdvice :=
    "'. No similar files found in the dbt project. Please provide the full path relative to the dbt project root."
  const ClarificationOpening := "File not found at exact path '"
  const Bullet := "\n  - "
  const ClarificationAdvice :=
    "\n\nPlease specify which file you want to translate using the full path from the list above."

  /** The not-found message names the path that was asked for. */
  function NotFoundMessage(filePath: string): (r: string)
    ensures Contains(r, filePath)
  {
    ContainsMiddle(NotFoundOpening, filePath, NotFoundAdvice);
    NotFoundOpening + filePath + NotFoundAdvice
  }

  /** The sentence of the clarification message that gives the number of
      matches. */
  function MatchCount(n: nat): string
  {
    "Found " + NatToString(n) + " possible matches:"
  }

  /** The clarification message states the number of all matches, not only
      of the ten it lists. */
  lemma ClarificationCountsAllMatches(filePath: string, suggestions: seq<string>)
    ensures Contains(ClarificationMessage(filePath, suggestions), MatchCount(|suggestions|))
  {
    var count := MatchCount(|suggestions|);
    var shown := "'. " + count + Bullet;
    var list := JoinWith(Bullet, FirstTen(suggestions));
    ContainsMiddle("'. ", count, Bullet);
    ContainsExtended(shown, list, count);
    ContainsExtended(shown + list, ClarificationAdvice, count);
    ContainsBehind(ClarificationOpening + filePath, shown + list + ClarificationAdvice, count);
  }

  /** The clarification message names the path that was asked for, gives
      the number of matches, and lists the first ten of them (see
      `ClarificationCountsAllMatches` and `ClarificationListsSuggestions`). */
  function ClarificationMessage(filePath: string, suggestions: seq<string>): (r: string)
    ensures Contains(r, filePath)
  {
    var tail := "'. " + MatchCount(|suggestions|) + Bullet + JoinWith(Bullet, FirstTen(suggestions)) + ClarificationAdvice;
    ContainsMiddle(ClarificationOpening, filePath, tail);
    ClarificationOpening + filePath + tail
  }

  /** Each suggestion shown to the caller appears in the message. */
  lemma ClarificationListsSuggestions(filePath: string, suggestions: seq<string>, i: nat)
    requires i < |FirstTen(suggestions)|
    ensures Contains(ClarificationMessage(filePath, suggestions), suggestions[i])
  {
    var list := JoinWith(Bullet, FirstTen(suggestions));
    var tail := "'. " + MatchCount(|suggestions|) + Bullet + list + ClarificationAdvice;
    JoinWithContainsEach(Bullet, FirstTen(suggestions), i);
    ContainsWithin("'. " + MatchCount(|suggestions|) + Bullet, list, ClarificationAdvice, suggestions[i]);
    ContainsBehind(ClarificationOpening + filePath, tail, suggestions[i]);
  }

  const PromptOpening := "Translate this dbt code from "
  const PromptInstructions := " syntax.\nOnly return the translated SQL/code, no explanations.\n\nOriginal code:\n"

  /** The instruction sent to the model; the original code comes last. */
  function Prompt(source: string, target: string, content: string): (r: string)
    ensures PromptOpening + source <= r
    ensures EndsWith(r, " to " + target + PromptInstructions + content)
  {
    PromptOpening + source + " to " + target + PromptInstructions + content
  }

  /** Where the translation of `actual` is written. */
  function OutputPath(root: string, target: string, actual: string): (r: string)
    ensures Join(Join(root, "translated"), target) + "/" <= r
    ensures EndsWith(r, "/" + actual)
    ensures |r| == |root| + |target| + |actual| + 13
  {
    Join(Join(Join(root, "translated"), target), actual)
  }

  const ReadFailedText := "Error reading file: "
  const TranslationFailed := "Error during translation: "
  const WriteFailed := "Error writing translated file: "
  /** The message of the `TypeError` that `write(None)` raises. */
  const NoTextWriteError := "write() argument must be str, not None"

  /** The steps after resolution: read `actual`, translate, create the
      output directory, open the output file, write. */
  function Proceed(env: Env, filePath: string, actual: string, source: string, target: string): (o: Outcome)
    ensures env.read(Join(env.root, actual)).ReadFailed? <==> o.Returned? && o.report.ReadError?
    ensures o.Raised? ==> env.makeDirs(Parent(OutputPath(env.root, target, actual))) == IoFailed(o.reason)
    ensures o.Returned? ==> !o.report.NotFound? && !o.report.Clarification?
  {
    var sourceFile := Join(env.root, actual);
    match env.read(sourceFile)
    case ReadFailed(e) => Returned(ReadError(ReadFailedText + e))
    case Read(content) =>
      match env.generate(Prompt(source, target, content))
      case GenerationFailed(e) => Returned(TranslationError(TranslationFailed + e))
      case Generated(translated) =>
        var outFile := OutputPath(env.root, target, actual);
        match env.makeDirs(Parent(outFile))
        case IoFailed(e) => Raised(e)
        case Done =>
          match env.openForWrite(outFile)
          case IoFailed(e) => Returned(WriteError(WriteFailed + e, translated))
          case Done =>
            match translated
            case None => Returned(WriteError(WriteFailed + NoTextWriteError, None))
            case Some(text) =>
              match env.write(outFile, text)
              case IoFailed(e) => Returned(WriteError(WriteFailed + e, translated))
              case Done =>
                Returned(Translated("Successfully translated " + actual + " from " + source + " to " + target,
                                    translated, outFile, sourceFile,
                                    if filePath != actual then Some(filePath) else None))
  }

  /** What `dbt_translate(filePath, source, target)` does in `env`: the
      exact path wins; otherwise the resolver's matches decide between
      "not found", the single match, and a clarification request. */
  function Translate(env: Env, filePath: string, source: string, target: string): (o: Outcome)
    ensures o.Returned? && (o.report.NotFound? || o.report.Clarification?) ==> !env.present(Join(env.root, filePath))
  {
    if env.present(Join(env.root, filePath)) then Proceed(env, filePath, filePath, source, target)
    else
      var suggestions := Resolve(env.tree, filePath, DefaultExtensions);
      if |suggestions| == 0 then Returned(NotFound(NotFoundMessage(filePath)))
      else if |suggestions| == 1 then Proceed(env, filePath, suggestions[0], source, target)
      else Returned(Clarification(ClarificationMessage(filePath, suggestions), FirstTen(suggestions), Some(filePath)))
  }

  /** The router, step by step, returning as soon as a step fails. */
  method DbtTranslate(env: Env, filePath: string, sourceWarehouse: string, targetWarehouse: string)
    returns (outcome: Outcome)
    ensures outcome == Translate(env, filePath, sourceWarehouse, targetWarehouse)
  {
    var sourceFile := Join(env.root, filePath);
    var actualFilePath := filePath;
    if !env.present(sourceFile) {
      var suggestions := SearchForFiles(env.tree, filePath, DefaultExtensions);
      if |suggestions| == 0 {
        outcome := Returned(NotFound(NotFoundMessage(filePath)));
        return;
      }
      if |suggestions| == 1 {
        actualFilePath := suggestions[0];
        sourceFile := Join(env.root, actualFilePath);
      } else {
        outcome := Returned(Clarification(ClarificationMessage(filePath, suggestions), FirstTen(suggestions), Some(filePath)));
        return;
      }
    }
    var readResult := env.read(sourceFile);
    if readResult.ReadFailed? {
      outcome := Returned(ReadError(ReadFailedText + readResult.reason));
      return;
    }
    var sourceContent := readResult.text;
    var response := env.generate(Prompt(sourceWarehouse, targetWarehouse, sourceContent));
    if response.GenerationFailed? {
      outcome := Returned(TranslationError(TranslationFailed + response.reason));
      return;
    }
    var translatedContent := response.text;
    var translatedFile := OutputPath(env.root, targetWarehouse, actualFilePath);
    var made := env.makeDirs(Parent(translatedFile));
    if made.IoFailed? {
      outcome := Raised(made.reason);
      return;
    }
    var openResult := env.openForWrite(translatedFile);
    if openResult.IoFailed? {
      outcome := Returned(WriteError(WriteFailed + openResult.reason, translatedContent));
      return;
    }
    if translatedContent.None? {
      outcome := Returned(WriteError(WriteFailed + NoTextWriteError, None));
      return;
    }
    var written := env.write(translatedFile, translatedContent.value);
    if written.IoFailed? {
      outcome := Returned(WriteError(WriteFailed + written.reason, translatedContent));
      return;
    }
    outcome := Returned(Translated("Successfully translated " + actualFilePath + " from " + sourceWarehouse
                                   + " to " + targetWarehouse,
                                   translatedContent, translatedFile, sourceFile,
                                   if filePath != actualFilePath then Some(filePath) else None));
  }

  // ---------------------------------------------------------------------
  // Resolution

  /** When the exact path exists the walk is never consulted: the outcome
      does not depend on the tree, and it is never "not found" or a
      clarification request. */
  lemma ExactPathWins(env: Env, tree': Tree, filePath: string, source: string, target: string)
    requires env.present(Join(env.root, filePath))
    ensures Translate(env, filePath, source, target) == Translate(env.(tree := tree'), filePath, source, target)
    ensures var o := Translate(env, filePath, source, target);
            o.Returned? ==> !o.report.NotFound? && !o.report.Clarification?
    ensures var o := Translate(env, filePath, source, target);
            o.Returned? && o.report.Translated? ==> o.report.originalPath == None
  {
  }

  /** A missing path with no similar file gives status `error` and no
      suggestions, before anything is read. */
  lemma NoSimilarFile(env: Env, filePath: string, source: string, target: string)
    requires !env.present(Join(env.root, filePath))
    requires forall f :: f in env.tree ==> !(InScope(f, DefaultExtensions) && IsMatch(filePath, f))
    ensures Translate(env, filePath, source, target) == Returned(NotFound(NotFoundMessage(filePath)))
    ensures Translate(env, filePath, source, target).report.Status() == "error"
  {
    ResolveEmpty(env.tree, filePath, DefaultExtensions);
  }

  /** A missing path with two or more matches asks for clarification: at
      most ten suggestions, the first of the sorted matches, each the path
      of a matching `.sql` file below a search directory, and the path as
      given. Nothing is read or written. */
  lemma SeveralMatchesNeedClarification(env: Env, filePath: string, source: string, target: string)
    requires !env.present(Join(env.root, filePath))
    requires |Resolve(env.tree, filePath, DefaultExtensions)| >= 2
    ensures var o := Translate(env, filePath, source, target);
            var all := Resolve(env.tree, filePath, DefaultExtensions);
            && o.Returned? && o.report.Clarification?
            && o.report.Status() == "clarification_needed"
            && o.report.message == ClarificationMessage(filePath, all)
            && Contains(o.report.message, MatchCount(|all|))
            && o.report.SavedPath() == None
            && o.report.suggestions == FirstTen(all)
            && |o.report.suggestions| <= 10
            && o.report.originalPath == Some(filePath)
            && (forall p :: p in o.report.suggestions ==>
                  EndsWith(p, ".sql") && exists f :: f in env.tree && f.relPath == p && IsMatch(filePath, f))
  {
    var all := Resolve(env.tree, filePath, DefaultExtensions);
    ClarificationCountsAllMatches(filePath, all);
    ResolveMembers(env.tree, filePath, DefaultExtensions);
    forall p | p in FirstTen(all)
      ensures EndsWith(p, ".sql") && exists f :: f in env.tree && f.relPath == p && IsMatch(filePath, f)
    {
      assert p in all;
      ResolvedAreSqlSources(env.tree, filePath, p);
    }
  }

  /** A missing path with exactly one match proceeds with that match, as if
      it had been given, except that the original path is reported back. */
  lemma SingleMatchIsUsed(env: Env, filePath: string, source: string, target: string)
    requires !env.present(Join(env.root, filePath))
    requires |Resolve(env.tree, filePath, DefaultExtensions)| == 1
    ensures var actual := Resolve(env.tree, filePath, DefaultExtensions)[0];
            Translate(env, filePath, source, target) == Proceed(env, filePath, actual, source, target)
  {
  }

  // ---------------------------------------------------------------------
  // After resolution

  /** The file the router works on: the given path when it exists, else the
      single match (when there is one). */
  function Actual(env: Env, filePath: string): (r: Option<string>)
    ensures env.present(Join(env.root, filePath)) ==> r == Some(filePath)
    ensures r.Some? ==> r.value == filePath || Resolve(env.tree, filePath, DefaultExtensions) == [r.value]
    ensures r.None? <==> !env.present(Join(env.root, filePath)) && |Resolve(env.tree, filePath, DefaultExtensions)| != 1
  {
    if env.present(Join(env.root, filePath)) then Some(filePath)
    else
      var suggestions := Resolve(env.tree, filePath, DefaultExtensions);
      if |suggestions| == 1 then Some(suggestions[0]) else None
  }

  /** Once resolution has settled on a file, the router goes on with
      `Proceed` for it. */
  lemma ActualProceeds(env: Env, filePath: string, source: string, target: string)
    requires var o := Translate(env, filePath, source, target);
             o.Raised? || !(o.report.NotFound? || o.report.Clarification?)
    ensures Actual(env, filePath).Some?
    ensures Translate(env, filePath, source, target)
            == Proceed(env, filePath, Actual(env, filePath).value, source, target)
  {
  }

  /** The two early returns of `Proceed`: a read error exactly when reading
      the file fails, and a translation error exactly when the file was
      read and the model call failed, each with the failure's reason in
      its message. An escaping exception means both steps succeeded. */
  lemma ProceedStopsEarly(env: Env, filePath: string, actual: string, source: string, target: string)
    ensures var o := Proceed(env, filePath, actual, source, target);
            var c := env.read(Join(env.root, actual));
            && (o.Returned? && o.report.ReadError? ==> c.ReadFailed? && o.report.message == ReadFailedText + c.reason)
            && ((o.Returned? && o.report.TranslationError?)
                <==> c.Read? && env.generate(Prompt(source, target, c.text)).GenerationFailed?)
            && (o.Returned? && o.report.TranslationError? ==>
                  o.report.message == TranslationFailed + env.generate(Prompt(source, target, c.text)).reason)
            && (o.Raised? ==> c.Read? && env.generate(Prompt(source, target, c.text)).Generated?)
  {
  }

  /** The steps `Proceed` took when it reports success. */
  lemma ProceedSucceeds(env: Env, filePath: string, actual: string, source: string, target: string)
    requires var o := Proceed(env, filePath, actual, source, target); o.Returned? && o.report.Translated?
    ensures var r := Proceed(env, filePath, actual, source, target).report;
            var content := env.read(Join(env.root, actual));
            && content.Read?
            && env.generate(Prompt(source, target, content.text)) == Generated(r.translatedContent)
            && r.savedPath == OutputPath(env.root, target, actual)
            && r.translatedContent.Some?
            && env.makeDirs(Parent(r.savedPath)) == Done
            && env.openForWrite(r.savedPath) == Done
            && env.write(r.savedPath, r.translatedContent.value) == Done
            && r.sourceFile == Join(env.root, actual)
            && (r.originalPath.None? <==> actual == filePath)
            && (r.originalPath.Some? ==> r.originalPath.value == filePath)
  {
  }

  /** The steps `Proceed` took when it reports a write error. */
  lemma ProceedWriteFails(env: Env, filePath: string, actual: string, source: string, target: string)
    requires var o := Proceed(env, filePath, actual, source, target); o.Returned? && o.report.WriteError?
    ensures var content := env.read(Join(env.root, actual));
            var out := OutputPath(env.root, target, actual);
            var answer := Proceed(env, filePath, actual, source, target).report.translatedContent;
            && content.Read?
            && env.generate(Prompt(source, target, content.text)) == Generated(answer)
            && env.makeDirs(Parent(out)) == Done
            && (env.openForWrite(out).IoFailed? || answer.None? || env.write(out, answer.value).IoFailed?)
  {
  }

  /** On success the translation is the model's answer to the prompt built
      from the file's text, it was written to
      `<root>/translated/<target>/<actual>` after that directory's parent
      was created, `source_file` is `<root>/<actual>`, and the original
      path is reported exactly when a match replaced it. */
  lemma SuccessWritesUnderTranslated(env: Env, filePath: string, source: string, target: string)
    requires var o := Translate(env, filePath, source, target); o.Returned? && o.report.Translated?
    ensures Actual(env, filePath).Some?
    ensures var actual := Actual(env, filePath).value;
            var r := Translate(env, filePath, source, target).report;
            var content := env.read(Join(env.root, actual));
            && content.Read?
            && env.generate(Prompt(source, target, content.text)) == Generated(r.translatedContent)
            && r.savedPath == OutputPath(env.root, target, actual)
            && r.translatedContent.Some?
            && env.makeDirs(Parent(r.savedPath)) == Done
            && env.openForWrite(r.savedPath) == Done
            && env.write(r.savedPath, r.translatedContent.value) == Done
            && r.sourceFile == Join(env.root, actual)
            && (r.originalPath.None? <==> actual == filePath)
            && (r.originalPath.Some? ==> r.originalPath.value == filePath)
  {
    ActualProceeds(env, filePath, source, target);
    ProceedSucceeds(env, filePath, Actual(env, filePath).value, source, target);
  }

  /** A failed write still hands back the model's answer: the output file
      could not be opened, or the answer had no text, or writing it
      failed. */
  lemma WriteFailureKeepsTranslation(env: Env, filePath: string, source: string, target: string)
    requires var o := Translate(env, filePath, source, target); o.Returned? && o.report.WriteError?
    ensures Actual(env, filePath).Some?
    ensures var actual := Actual(env, filePath).value;
            var content := env.read(Join(env.root, actual));
            var out := OutputPath(env.root, target, actual);
            var answer := Translate(env, filePath, source, target).report.translatedContent;
            && content.Read?
            && env.generate(Prompt(source, target, content.text)) == Generated(answer)
            && env.makeDirs(Parent(out)) == Done
            && (env.openForWrite(out).IoFailed? || answer.None? || env.write(out, answer.value).IoFailed?)
  {
    ActualProceeds(env, filePath, source, target);
    ProceedWriteFails(env, filePath, Actual(env, filePath).value, source, target);
  }

  /** An answer without text is not a translation error: the output
      directory is still created and the output file opened (and so
      truncated), and only then does `write(None)` fail, which the router
      reports as a write error without content. */
  lemma NoTextFailsTheWrite(env: Env, filePath: string, source: string, target: string)
    requires Actual(env, filePath).Some?
    requires var actual := Actual(env, filePath).value;
             var content := env.read(Join(env.root, actual));
             var out := OutputPath(env.root, target, actual);
             && content.Read?
             && env.generate(Prompt(source, target, content.text)) == Generated(None)
             && env.makeDirs(Parent(out)) == Done
             && env.openForWrite(out) == Done
    ensures var o := Translate(env, filePath, source, target);
            && o == Returned(WriteError(WriteFailed + NoTextWriteError, None))
            && o.report.Status() == "error"
  {
  }

  /** Only a failed directory creation escapes as an exception. */
  lemma OnlyMakeDirsRaises(env: Env, filePath: string, source: string, target: string)
    requires Translate(env, filePath, source, target).Raised?
    ensures Actual(env, filePath).Some?
    ensures env.makeDirs(Parent(OutputPath(env.root, target, Actual(env, filePath).value)))
            == IoFailed(Translate(env, filePath, source, target).reason)
  {
    ActualProceeds(env, filePath, source, target);
  }

  /** The tree and the file system agree: every file of the walk exists at
      its full path. */
  ghost predicate Consistent(env: Env)
  {
    forall f :: f in env.tree ==> env.present(Join(env.root, f.relPath))
  }

  /** With a consistent environment, a successful translation reports an
      original path exactly when the given path did not exist. */
  lemma OriginalPathMeansSubstitution(env: Env, filePath: string, source: string, target: string)
    requires Consistent(env)
    requires var o := Translate(env, filePath, source, target); o.Returned? && o.report.Translated?
    ensures Translate(env, filePath, source, target).report.originalPath.None?
            <==> env.present(Join(env.root, filePath))
  {
    SuccessWritesUnderTranslated(env, filePath, source, target);
    if !env.present(Join(env.root, filePath)) {
      var all := Resolve(env.tree, filePath, DefaultExtensions);
      assert Actual(env, filePath) == Some(all[0]);
      ResolveMembers(env.tree, filePath, DefaultExtensions);
      assert all[0] in all;
      var f :| f in env.tree && f.relPath == all[0] && InScope(f, DefaultExtensions) && IsMatch(filePath, f);
      assert all[0] != filePath;
    }
  }
}
