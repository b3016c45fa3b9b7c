/**
 * The parts of Node's POSIX `path` module that the barrel builder and the
 * command builder use: `extname`, `basename` with a suffix to strip, `join`
 * of a directory name with a file name, and `dirname`.
 */
module NodePath {
  import opened Text

  /** A component of a resolved path, as `readdir` and `path.resolve` produce them. */
  predicate IsName(s: string) {
    s != "" && '/' !in s && s != "." && s != ".."
  }

  /** The position of the last `c` in `s`, or -1. */
  function LastIndexOfChar(s: string, c: char): (r: int)
    ensures -1 <= r < |s|
    ensures r >= 0 ==> s[r] == c
    ensures forall k :: r < k < |s| ==> s[k] != c
  {
    if |s| == 0 then -1
    else if s[|s| - 1] == c then |s| - 1
    else LastIndexOfChar(s[..|s| - 1], c)
  }

  /** A `c` after which `s` holds no other `c` is the last one. */
  lemma LastIndexOfCharIs(s: string, c: char, i: int)
    requires 0 <= i < |s| && s[i] == c && forall k :: i < k < |s| ==> s[k] != c
    ensures LastIndexOfChar(s, c) == i
  {
  }

  /**
   * `path.extname` of a component: from its last `.` to its end, or empty
   * when there is no `.`, when the only `.` that could start it is the first
   * character (a dot-file such as `.ts`), or when the component is `..`.
   */
  function ExtName(base: string): (r: string)
    ensures r == [] || (0 < |base| - |r| && EndsWith(base, r) && r[0] == '.')
    ensures forall k :: 0 < k < |r| ==> r[k] != '.'
    ensures r == [] <==> base == ".." || LastIndexOfChar(base, '.') <= 0
  {
    if base == ".." then ""
    else
      var d := LastIndexOfChar(base, '.');
      if d <= 0 then "" else base[d..]
  }

  /**
   * `path.basename(p, suffix)` for a component: the suffix is stripped when
   * the component ends with it and is longer than it; a component equal to
   * the suffix is kept whole.
   */
  function StripSuffix(base: string, suffix: string): (r: string)
    ensures r == base || (r != [] && r + suffix == base)
    ensures suffix != [] && |suffix| < |base| && EndsWith(base, suffix) ==> r + suffix == base
  {
    if suffix != [] && |suffix| < |base| && EndsWith(base, suffix) then base[..|base| - |suffix|]
    else base
  }

  /**
   * `path.join(parent, child)` for two components with the normalisation
   * Node applies: an empty parent is skipped, `.` names the parent itself
   * and `..` climbs out of it.
   */
  function JoinName(parent: string, child: string): string {
    if parent == "" then child
    else if child == "." then parent
    else if child == ".." then "."
    else parent + "/" + child
  }

  /**
   * `path.dirname(p)` of a path with no trailing `/` and no empty component:
   * everything before its last `/`, or `.` when it has none.
   */
  function DirName(p: string): (r: string)
    ensures '/' !in p ==> r == "."
  {
    var i := LastIndexOfChar(p, '/');
    if i < 0 then "." else if i == 0 then "/" else p[..i]
  }

  /** A relative path with a `/` is its directory name, a `/`, and a last component free of `/`. */
  lemma DirNameSplits(p: string)
    requires '/' in p && p[0] != '/'
    ensures var i := LastIndexOfChar(p, '/');
      DirName(p) + "/" + p[i + 1..] == p && '/' !in p[i + 1..]
  {
    var i := LastIndexOfChar(p, '/');
    assert p[i] == '/' by { var j :| 0 <= j < |p| && p[j] == '/'; }
    assert DirName(p) == p[..i];
    CutRejoins(p, i);
    AfterLastFree(p, i);
  }

  /** Cutting a sequence around one of its elements and putting it back together. */
  lemma CutRejoins(p: string, i: int)
    requires 0 <= i < |p| && p[i] == '/'
    ensures p[..i] + "/" + p[i + 1..] == p
  {
    assert p[..i] + "/" == p[..i + 1];
    assert p[..i + 1] + p[i + 1..] == p;
  }

  /** Nothing after the last `/` is a `/`. */
  lemma AfterLastFree(p: string, i: int)
    requires -1 <= i < |p| && i == LastIndexOfChar(p, '/')
    ensures '/' !in p[i + 1..]
  {
    var tail := p[i + 1..];
    forall k | 0 <= k < |tail| ensures tail[k] != '/' {
      assert tail[k] == p[i + 1 + k];
    }
  }

  /** The last component of a `/`-separated path, ignoring trailing slashes, as `path.basename` gives it. */
  function LastComponent(p: string): (r: string)
    ensures '/' !in r
  {
    if |p| > 0 && p[|p| - 1] == '/' then LastComponent(p[..|p| - 1])
    else
      var parts := Split(p, '/');
      SplitPartsFree(p, '/');
      parts[|parts| - 1]
  }

  /** `path.extname` of a whole path. */
  function PathExtName(p: string): string {
    ExtName(LastComponent(p))
  }

  /** The extension of a name `x.e` with a non-empty stem and a non-empty `e` free of dots is `.e`. */
  lemma ExtNameOf(stem: string, ext: string)
    requires stem != [] && |ext| > 1 && ext[0] == '.' && '.' !in ext[1..]
    ensures ExtName(stem + ext) == ext
  {
    var base := stem + ext;
    var d := LastIndexOfChar(base, '.');
    assert base[|stem|] == '.';
    assert forall k :: |stem| < k < |base| ==> base[k] == ext[1..][k - |stem| - 1];
    assert d == |stem|;
    assert base[d..] == ext;
  }

  /** Appending a suffix to a non-empty stem and stripping it again gives the stem back. */
  lemma StripSuffixAppended(stem: string, suffix: string)
    requires stem != [] && suffix != []
    ensures StripSuffix(stem + suffix, suffix) == stem
  {
    assert (stem + suffix)[|stem|..] == suffix;
    assert (stem + suffix)[..|stem|] == stem;
  }
}
