/**
 * The directory walk of `generateIndexForDirectory` (`recursivePaths` in
 * src/utils/index.ts): a depth-first traversal, in the order `readdir`
 * lists the entries, that collects every regular `.ts` file except the
 * barrels named `index.ts`. Absolute paths are sequences of components.
 */
module SourceTree {
  import opened Text

  /**
   * A directory entry as `readdir` reports it with its file type: a regular
   * file with its lines, a directory with its entries, or anything else
   * (a symbolic link, a socket, ...), which the walk ignores.
   */
  datatype Entry =
    | File(name: string, lines: seq<string>)
    | Dir(name: string, entries: seq<Entry>)
    | Other(name: string)

  /** A file the walk collected: its absolute path and its lines. */
  datatype Source = Source(path: seq<string>, lines: seq<string>)

  /** The name of a file the walk collects: it ends with `.ts` and is not `index.ts`. */
  predicate Eligible(name: string) {
    EndsWith(name, ".ts") && name != "index.ts"
  }

  /** What the walk of the entries `es` of the directory `realpath` returns, entry by entry. */
  function Walk(realpath: seq<string>, es: seq<Entry>): seq<Source>
    decreases es
  {
    if |es| == 0 then []
    else
      var e := es[|es| - 1];
      Walk(realpath, es[..|es| - 1]) +
        (if e.Dir? then Walk(realpath + [e.name], e.entries)
         else if e.File? && Eligible(e.name) then [Source(realpath + [e.name], e.lines)]
         else [])
  }

  /**
   * `recursivePaths(realpath)`: for each entry in order, a directory
   * contributes the paths found beneath it and an eligible file its own path.
   */
  method RecursivePaths(realpath: seq<string>, es: seq<Entry>) returns (paths: seq<Source>)
    ensures paths == Walk(realpath, es)
    decreases es
  {
    paths := [];
    for i := 0 to |es|
      invariant paths == Walk(realpath, es[..i])
    {
      var item := es[i];
      assert es[..i + 1][..i] == es[..i];
      if item.Dir? {
        var below := RecursivePaths(realpath + [item.name], item.entries);
        paths := paths + below;
      } else if item.File? && Eligible(item.name) {
        paths := paths + [Source(realpath + [item.name], item.lines)];
      }
    }
    assert es[..|es|] == es;
  }

  /**
   * Following the directories named by `rel` from the entries `es` leads to
   * a file, named by the last component of `rel`, whose lines are `lines`.
   */
  ghost predicate Reaches(es: seq<Entry>, rel: seq<string>, lines: seq<string>)
    decreases es
  {
    exists k :: 0 <= k < |es| && ReachesVia(es, k, rel, lines)
  }

  ghost predicate ReachesVia(es: seq<Entry>, k: int, rel: seq<string>, lines: seq<string>)
    requires 0 <= k < |es|
    decreases es, 0
  {
    |rel| >= 1 && es[k].name == rel[0] &&
    if |rel| == 1 then es[k].File? && es[k].lines == lines
    else es[k].Dir? && Reaches(es[k].entries, rel[1..], lines)
  }

  /** Every collected path lies below `realpath` and names an eligible file. */
  lemma {:induction false} WalkUnder(realpath: seq<string>, es: seq<Entry>)
    ensures forall s :: s in Walk(realpath, es) ==>
      |s.path| > |realpath| && s.path[..|realpath|] == realpath && Eligible(s.path[|s.path| - 1])
    decreases es
  {
    if |es| > 0 {
      var e := es[|es| - 1];
      WalkUnder(realpath, es[..|es| - 1]);
      if e.Dir? {
        WalkUnder(realpath + [e.name], e.entries);
        forall s | s in Walk(realpath + [e.name], e.entries)
          ensures s.path[..|realpath|] == realpath
        {
          assert s.path[..|realpath|] == s.path[..|realpath| + 1][..|realpath|];
        }
      }
    }
  }

  /** A collected file is reached through the tree by the path below `realpath`, and its name is eligible. */
  lemma {:induction false} WalkSound(realpath: seq<string>, es: seq<Entry>, s: Source)
    requires s in Walk(realpath, es)
    ensures |s.path| > |realpath| && s.path[..|realpath|] == realpath
    ensures Reaches(es, s.path[|realpath|..], s.lines) && Eligible(s.path[|s.path| - 1])
    decreases es
  {
    WalkUnder(realpath, es);
    var init := es[..|es| - 1];
    var e := es[|es| - 1];
    var rel := s.path[|realpath|..];
    if s in Walk(realpath, init) {
      WalkSound(realpath, init, s);
      var k :| 0 <= k < |init| && ReachesVia(init, k, rel, s.lines);
      ReachesInInit(es, k, rel, s.lines);
    } else if e.Dir? {
      var sub := realpath + [e.name];
      WalkSound(sub, e.entries, s);
      BelowSubdirectory(realpath, e.name, s.path);
      ReachesLast(es, rel, s.lines);
    } else {
      assert s.path == realpath + [e.name];
      assert rel == [e.name];
      ReachesLast(es, rel, s.lines);
    }
  }

  /** A path below `realpath + [name]` continues, below `realpath`, with `name`. */
  lemma BelowSubdirectory(realpath: seq<string>, name: string, path: seq<string>)
    requires |path| > |realpath| + 1 && path[..|realpath| + 1] == realpath + [name]
    ensures path[|realpath|..][0] == name
    ensures path[|realpath|..][1..] == path[|realpath| + 1..]
  {
    assert path[|realpath|] == (realpath + [name])[|realpath|];
  }

  /** What an entry but the last reaches, it reaches among all of them. */
  lemma ReachesInInit(es: seq<Entry>, k: int, rel: seq<string>, lines: seq<string>)
    requires 0 <= k < |es| - 1 && ReachesVia(es[..|es| - 1], k, rel, lines)
    ensures ReachesVia(es, k, rel, lines)
  {
    assert es[..|es| - 1][k] == es[k];
  }

  /** What the last entry reaches, the entries reach. */
  lemma ReachesLast(es: seq<Entry>, rel: seq<string>, lines: seq<string>)
    requires |es| > 0 && |rel| >= 1 && es[|es| - 1].name == rel[0]
    requires if |rel| == 1 then es[|es| - 1].File? && es[|es| - 1].lines == lines
      else es[|es| - 1].Dir? && Reaches(es[|es| - 1].entries, rel[1..], lines)
    ensures Reaches(es, rel, lines)
  {
    assert ReachesVia(es, |es| - 1, rel, lines);
  }

  /** Every eligible file the tree holds is collected. */
  lemma {:induction false} WalkComplete(realpath: seq<string>, es: seq<Entry>, rel: seq<string>, lines: seq<string>)
    requires |rel| >= 1 && Reaches(es, rel, lines) && Eligible(rel[|rel| - 1])
    ensures Source(realpath + rel, lines) in Walk(realpath, es)
    decreases es
  {
    var k :| 0 <= k < |es| && ReachesVia(es, k, rel, lines);
    var init := es[..|es| - 1];
    if k < |es| - 1 {
      assert ReachesVia(init, k, rel, lines);
      WalkComplete(realpath, init, rel, lines);
    } else {
      var e := es[k];
      if |rel| == 1 {
        assert Source(realpath + rel, lines) == Source(realpath + [e.name], e.lines);
      } else {
        WalkComplete(realpath + [e.name], e.entries, rel[1..], lines);
        assert realpath + [e.name] + rel[1..] == realpath + rel;
      }
    }
  }
}
