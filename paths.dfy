/** POSIX path strings as `pathlib` reads them: the last separator, the
    final component (`name`), the name without its suffix (`stem`), the
    parent, and joining with `/`. */
module Paths {
  import opened Strings

  /** `s.rfind(c)`: the index of the last `c` in `s`, or -1. */
  function LastIndexOf(s: string, c: char): (r: int)
    ensures -1 <= r < |s|
    ensures r >= 0 ==> s[r] == c
    ensures forall j :: r < j < |s| ==> s[j] != c
    decreases |s|
  {
    if s == [] then -1
    else if s[|s| - 1] == c then |s| - 1
    else LastIndexOf(s[..|s| - 1], c)
  }

  /** The last component of a relative file path, as `rglob` yields it. */
  function FileName(path: string): (r: string)
    ensures '/' !in r
    ensures EndsWith(path, r)
  {
    path[LastIndexOf(path, '/') + 1..]
  }

  /** The name is all of the path after its last `/`: the whole path when
      there is none, else a proper suffix that a `/` precedes. */
  lemma FileNameIsLastComponent(path: string)
    ensures var r := FileName(path);
            r == path || (|r| < |path| && path[|path| - |r| - 1] == '/')
  {
  }

  /** `Path(s).name`: the last component of `s` once empty components and
      `.` components are dropped, or the empty string when none is left. */
  function PathName(s: string): (r: string)
    ensures '/' !in r
    ensures r != "."
    decreases |s|
  {
    var i := LastIndexOf(s, '/');
    var last := s[i + 1..];
    if last != "" && last != "." then last
    else if i < 0 then ""
    else PathName(s[..i])
  }

  /** `Path(name).stem`: the name without its final suffix, where a suffix
      is a dot that is neither the first nor the last character, with what
      follows it. The name is kept whole exactly when it is empty, ends
      with a dot, or has no dot after its first character. */
  function Stem(name: string): (r: string)
    ensures r <= name
    ensures r == name || (name[|r|] == '.' && 0 < |r| && |r| < |name| - 1 && '.' !in name[|r| + 1..])
    ensures r == name <==> name == [] || name[|name| - 1] == '.' || '.' !in name[1..]
  {
    var i := LastIndexOf(name, '.');
    if 0 < i < |name| - 1 then name[..i] else name
  }

  /** `str(Path(a) / b)` for a relative `b`: `a` and `b` with one
      separator between them (see `JoinSplits`). */
  function Join(a: string, b: string): (r: string)
    ensures |r| == |a| + 1 + |b| && r[|a|] == '/'
  {
    a + "/" + b
  }

  /** When `b` is a single component, `a` is the parent of `a/b` and `b`
      its name. */
  lemma JoinSplits(a: string, b: string)
    requires '/' !in b
    ensures Parent(Join(a, b)) == a && FileName(Join(a, b)) == b
  {
    var r := Join(a, b);
    assert forall j :: |a| < j < |r| ==> r[j] == b[j - |a| - 1];
    assert LastIndexOf(r, '/') == |a|;
  }

  /** `str(Path(p).parent)`: `.` for a bare name, else everything before
      the last `/`. */
  function Parent(p: string): (r: string)
    ensures '/' !in p ==> r == "."
    ensures '/' in p ==> r < p && p[|r|] == '/' && '/' !in p[|r| + 1..]
  {
    var i := LastIndexOf(p, '/');
    if i < 0 then "." else p[..i]
  }

  /** The stem of a file named `<x>.sql` is `<x>` whenever `<x>` is not
      empty. */
  lemma SqlStem(name: string)
    requires EndsWith(name, ".sql") && |name| > 4
    ensures Stem(name) == name[..|name| - 4]
  {
    var i := LastIndexOf(name, '.');
    assert name[|name| - 4] == '.';
    assert i == |name| - 4;
  }

  /** A bare file name is its own `Path(..).name`. */
  lemma PathNameOfBareName(s: string)
    requires s != "" && s != "." && '/' !in s
    ensures PathName(s) == s
  {
    assert LastIndexOf(s, '/') == -1;
  }

  /** A path's name is its text after the last separator, when that text
      is a real component. */
  lemma PathNameOfRelativePath(dir: string, name: string)
    requires name != "" && name != "." && '/' !in name
    ensures PathName(dir + "/" + name) == name
  {
    var s := dir + "/" + name;
    assert s[|dir|] == '/';
    assert forall j :: |dir| < j < |s| ==> s[j] == name[j - |dir| - 1];
    assert LastIndexOf(s, '/') == |dir|;
    assert s[|dir| + 1..] == name;
  }
}
