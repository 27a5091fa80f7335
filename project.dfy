/** The dbt project tree as the core sees it: the files under the project
    root, in the order a recursive directory walk meets them, each with its
    path relative to the root and the outcome of reading it. */
module Project {
  import opened Strings
  import opened Paths

  datatype Option<T> = None | Some(value: T)

  /** What opening and reading a file gives: its text, or the message of
      the exception raised. */
  datatype ReadResult = Read(text: string) | ReadFailed(reason: string)

  datatype File = File(relPath: string, content: ReadResult)

  /** The files of the project, in walk order. */
  type Tree = seq<File>

  /** The project sub-directories searched for SQL sources, in search order. */
  const SearchDirs: seq<string> := ["models", "macros", "analyses", "tests"]

  /** `f` lies somewhere below the top-level directory `dir`. */
  predicate Under(f: File, dir: string)
  {
    dir + "/" <= f.relPath
  }

  /** `(root / dir).rglob('*' + ext)` yields `f`: it lies below `dir` and
      its name ends with `ext`. */
  predicate Globbed(f: File, dir: string, ext: string)
  {
    Under(f, dir) && EndsWith(FileName(f.relPath), ext)
  }
}
