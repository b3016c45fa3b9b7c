/**
 * The two names `generateIndexForDirectory` derives from a collected file:
 * the module specifier its barrel line imports from, and the namespace
 * under which a foreign file is re-exported. A file is given by its path
 * relative to the barrel's directory (`rel`) or by its absolute path, both
 * as sequences of components.
 */
module ImportPaths {
  import opened Text
  import opened NodePath

  /** Components joined by `/`, as a relative path is written. */
  function RelativePath(rel: seq<string>): string {
    Join(rel, "/")
  }

  /** The length of the longest common prefix of two paths. */
  function CommonPrefixLength(a: seq<string>, b: seq<string>): (c: nat)
    ensures c <= |a| && c <= |b| && a[..c] == b[..c]
    ensures c < |a| && c < |b| ==> a[c] != b[c]
  {
    if |a| == 0 || |b| == 0 || a[0] != b[0] then 0
    else
      var c := CommonPrefixLength(a[1..], b[1..]);
      assert a[..c + 1] == [a[0]] + a[1..][..c];
      assert b[..c + 1] == [b[0]] + b[1..][..c];
      1 + c
  }

  /**
   * `path.relative(from, to)` for two resolved absolute paths: one `..` for
   * each component of `from` past their common prefix, then the rest of `to`.
   */
  function Relative(from: seq<string>, to: seq<string>): (rel: seq<string>)
  {
    var c := CommonPrefixLength(from, to);
    seq(|from| - c, _ => "..") + to[c..]
  }

  /** The relative path from a directory to a path below it is the part below it. */
  lemma RelativeBelow(dir: seq<string>, rel: seq<string>)
    ensures Relative(dir, dir + rel) == rel
  {
    assert (dir + rel)[|dir|..] == rel;
  }

  /** `path.basename` of a resolved path: its last component, empty for the root. */
  function Basename(p: seq<string>): string {
    if |p| == 0 then "" else p[|p| - 1]
  }

  /** The base name of a path below a directory is that of the part below it. */
  lemma BasenameBelow(dir: seq<string>, rel: seq<string>)
    requires |rel| >= 1
    ensures Basename(dir + rel) == rel[|rel| - 1]
  {
    assert (dir + rel)[|dir| + |rel| - 1] == rel[|rel| - 1];
  }

  /** All components but the last. */
  function Front(rel: seq<string>): seq<string> {
    if |rel| == 0 then [] else rel[..|rel| - 1]
  }

  /**
   * The specifier as the code computes it for the file `file` below the
   * directory `dir`: for a file directly in the directory,
   * `./<name without .ts>.js`; otherwise `./` and the relative path in which
   * the FIRST occurrence of `.ts` has become `.js`.
   */
  function ImportPathAsWritten(dir: seq<string>, file: seq<string>): string
  {
    SpecifierAsWritten(Relative(dir, file), StripSuffix(Basename(file), ".ts"))
  }

  /** The code's specifier for a relative path `rel` whose file name without `.ts` is `stem`. */
  function SpecifierAsWritten(rel: seq<string>, stem: string): string
  {
    var relativePath := ReplaceFirst(RelativePath(rel), ".ts", ".js");
    var relativeDir := DirName(relativePath);
    if relativeDir == "." then "./" + stem + ".js" else "./" + relativePath
  }

  /**
   * The specifier the barrel needs: the relative path with the file's own
   * `.ts` extension replaced by `.js`, the directories left as they are.
   */
  function ImportPath(dir: seq<string>, file: seq<string>): string
  {
    Specifier(Relative(dir, file), StripSuffix(Basename(file), ".ts"))
  }

  /** The corrected specifier for a relative path `rel` whose file name without `.ts` is `stem`. */
  function Specifier(rel: seq<string>, stem: string): string
  {
    "./" + RelativePath(Front(rel) + [stem + ".js"])
  }

  /** The corrected specifier names the same directories as the file, and the file by its stem and `.js`. */
  lemma ImportPathComponents(dir: seq<string>, rel: seq<string>)
    requires |rel| >= 1 && forall k :: 0 <= k < |rel| ==> '/' !in rel[k]
    ensures var stem := StripSuffix(rel[|rel| - 1], ".ts");
      Split(ImportPath(dir, dir + rel)[2..], '/') == rel[..|rel| - 1] + [stem + ".js"]
  {
    CorrectedBelow(dir, rel);
    var last := rel[|rel| - 1];
    var stem := StripSuffix(last, ".ts");
    assert '/' !in stem by {
      assert forall k :: 0 <= k < |stem| ==> stem[k] == last[k];
    }
    SpecifierComponents(rel, stem);
  }

  /** `ImportPathComponents` on the relative path itself. */
  lemma SpecifierComponents(rel: seq<string>, stem: string)
    requires |rel| >= 1 && forall k :: 0 <= k < |rel| ==> '/' !in rel[k]
    requires '/' !in stem
    ensures Split(Specifier(rel, stem)[2..], '/') == rel[..|rel| - 1] + [stem + ".js"]
  {
    var parts := rel[..|rel| - 1] + [stem + ".js"];
    assert Specifier(rel, stem)[2..] == RelativePath(parts);
    assert '/' !in stem + ".js";
    forall k | 0 <= k < |parts| ensures '/' !in parts[k] {
      if k < |rel| - 1 {
        assert parts[k] == rel[k];
      }
    }
    SplitJoin(parts, '/');
  }

  /**
   * A directory whose name holds `.ts` (such as `v1.tsx`) makes the code
   * rewrite the directory instead of the file: `v1.tsx/user.ts` is imported
   * as `./v1.jsx/user.ts`, a module that does not exist, where the file is
   * reachable as `./v1.tsx/user.js`.
   */
  lemma ImportPathRewritesDirectory(dir: seq<string>, d: string, f: string)
    requires Contains(d, ".ts") && '/' !in f
    ensures ImportPathAsWritten(dir, dir + [d, f]) == "./" + ReplaceFirst(d, ".ts", ".js") + "/" + f
    ensures ImportPathAsWritten(dir, dir + [d, f]) != ImportPath(dir, dir + [d, f])
  {
    AsWrittenBelow(dir, [d, f]);
    CorrectedBelow(dir, [d, f]);
    RewritesBelow(d, f, StripSuffix(f, ".ts"));
  }

  /** `ImportPathRewritesDirectory` on the relative path itself. */
  lemma RewritesBelow(d: string, f: string, stem: string)
    requires Contains(d, ".ts") && '/' !in f
    ensures SpecifierAsWritten([d, f], stem) == "./" + ReplaceFirst(d, ".ts", ".js") + "/" + f
    ensures SpecifierAsWritten([d, f], stem) != Specifier([d, f], stem)
  {
    var rd := ReplaceFirst(d, ".ts", ".js");
    RewrittenSpecifier(d, f, stem);
    assert |rd| == |d| && rd != d by { RewriteInDirectory(d, f); }
    CorrectedTwo(d, f, stem);
    DirectoryDiffers(rd, d, f, stem + ".js");
  }

  /** The code's specifier for `d/f` when `d` holds `.ts`. */
  lemma RewrittenSpecifier(d: string, f: string, stem: string)
    requires Contains(d, ".ts") && '/' !in f
    ensures SpecifierAsWritten([d, f], stem) == "./" + ReplaceFirst(d, ".ts", ".js") + "/" + f
  {
    var rd := ReplaceFirst(d, ".ts", ".js");
    RewriteInDirectory(d, f);
    assert |rd| >= 3 by {
      assert OccursAt(d, ".ts", IndexOf(d, ".ts"));
    }
    DirNameAfterSlash(rd, f);
    assert SpecifierAsWritten([d, f], stem) == "./" + (rd + "/" + f);
    assert "./" + (rd + "/" + f) == "./" + rd + "/" + f;
  }

  /** The corrected specifier for `d/f`. */
  lemma CorrectedTwo(d: string, f: string, stem: string)
    ensures Specifier([d, f], stem) == "./" + d + "/" + (stem + ".js")
  {
    assert Front([d, f]) + [stem + ".js"] == [d, stem + ".js"];
    JoinTwo(d, stem + ".js");
    assert "./" + (d + "/" + (stem + ".js")) == "./" + d + "/" + (stem + ".js");
  }

  /** Replacing the first `.ts` of `d/f` replaces the one in `d`. */
  lemma RewriteInDirectory(d: string, f: string)
    requires Contains(d, ".ts")
    ensures var rd := ReplaceFirst(d, ".ts", ".js");
      ReplaceFirst(RelativePath([d, f]), ".ts", ".js") == rd + "/" + f
      && |rd| == |d| && rd != d
  {
    var k := IndexOf(d, ".ts");
    var p := RelativePath([d, f]);
    JoinTwo(d, f);
    assert p == d + ("/" + f);
    IndexOfExtend(d, "/" + f, ".ts");
    var rd := ReplaceFirst(d, ".ts", ".js");
    assert p[..k] == d[..k];
    assert p[k + 3..] == d[k + 3..] + "/" + f;
    assert rd[k + 1] == 'j';
    assert d[k + 1] == d[k..][..3][1] == 't';
  }

  /** Two specifiers whose directory parts have the same length and differ are different. */
  lemma DirectoryDiffers(x: string, d: string, f: string, g: string)
    requires |x| == |d| && x != d
    ensures "./" + x + "/" + f != "./" + d + "/" + g
  {
    var a, b := "./" + x + "/" + f, "./" + d + "/" + g;
    assert a[2..2 + |x|] == x;
    assert b[2..2 + |d|] == d;
  }

  lemma JoinTwo(a: string, b: string)
    ensures RelativePath([a, b]) == a + "/" + b
  {
    JoinAppend([a], "/", b);
    assert [a] + [b] == [a, b];
  }

  /**
   * When the only `.ts` in the relative path is the file's extension, the
   * code's specifier is the corrected one.
   */
  lemma ImportPathAgrees(dir: seq<string>, rel: seq<string>)
    requires |rel| >= 1 && forall k :: 0 <= k < |rel| ==> IsName(rel[k])
    requires |rel[|rel| - 1]| > 3
    requires IndexOf(RelativePath(rel), ".ts") == |RelativePath(rel)| - 3
    ensures ImportPathAsWritten(dir, dir + rel) == ImportPath(dir, dir + rel)
  {
    AsWrittenBelow(dir, rel);
    CorrectedBelow(dir, rel);
    AgreesBelow(rel);
  }

  /**
   * A file directly in the directory is imported as `./<name without .ts>.js`
   * whatever other `.ts` its name holds: the replacement of the first `.ts`
   * matters only for files in subdirectories.
   */
  lemma DirectSpecifier(dir: seq<string>, f: string)
    requires '/' !in f
    ensures ImportPathAsWritten(dir, dir + [f]) == "./" + StripSuffix(f, ".ts") + ".js"
  {
    AsWrittenBelow(dir, [f]);
    assert RelativePath([f]) == f;
    ReplaceKeepsSlashFree(f);
  }

  /** Replacing `.ts` by `.js` in a name free of `/` leaves it free of `/`. */
  lemma ReplaceKeepsSlashFree(f: string)
    requires '/' !in f
    ensures '/' !in ReplaceFirst(f, ".ts", ".js")
  {
    var k := IndexOf(f, ".ts");
    if k >= 0 {
      var r := ReplaceFirst(f, ".ts", ".js");
      forall i | 0 <= i < |r| ensures r[i] != '/' {
        if i < k {
          assert r[i] == f[i];
        } else if i >= k + 3 {
          assert r[i] == f[i];
        }
      }
    }
  }

  /** The specifier as written of a file below the directory, in terms of the path below it. */
  lemma AsWrittenBelow(dir: seq<string>, rel: seq<string>)
    requires |rel| >= 1
    ensures ImportPathAsWritten(dir, dir + rel) == SpecifierAsWritten(rel, StripSuffix(rel[|rel| - 1], ".ts"))
  {
    RelativeBelow(dir, rel);
    BasenameBelow(dir, rel);
  }

  /** The corrected specifier of a file below the directory, in terms of the path below it. */
  lemma CorrectedBelow(dir: seq<string>, rel: seq<string>)
    requires |rel| >= 1
    ensures ImportPath(dir, dir + rel) == Specifier(rel, StripSuffix(rel[|rel| - 1], ".ts"))
  {
    RelativeBelow(dir, rel);
    BasenameBelow(dir, rel);
  }

  /** `ImportPathAgrees` on the relative path itself. */
  lemma AgreesBelow(rel: seq<string>)
    requires |rel| >= 1 && forall k :: 0 <= k < |rel| ==> IsName(rel[k])
    requires |rel[|rel| - 1]| > 3
    requires IndexOf(RelativePath(rel), ".ts") == |RelativePath(rel)| - 3
    ensures var stem := StripSuffix(rel[|rel| - 1], ".ts");
      SpecifierAsWritten(rel, stem) == Specifier(rel, stem)
  {
    var n := |rel| - 1;
    var front := rel[..n];
    var stem := StripSuffix(rel[n], ".ts");
    var replaced := ReplaceFirst(RelativePath(rel), ".ts", ".js");
    ReplaceExtension(rel);
    assert replaced == RelativePath(front + [stem + ".js"]);
    assert '/' !in stem + ".js" by {
      assert forall k :: 0 <= k < |stem| ==> stem[k] == rel[n][k];
    }
    if n == 0 {
      assert replaced == stem + ".js";
    } else {
      assert forall k :: 0 <= k < |front| ==> IsName(front[k]);
      DirNameOfJoin(front, stem + ".js");
      JoinNotDot(front);
    }
  }

  /** Replacing the final `.ts` of the relative path replaces the file's extension. */
  lemma ReplaceExtension(rel: seq<string>)
    requires |rel| >= 1 && |rel[|rel| - 1]| > 3
    requires IndexOf(RelativePath(rel), ".ts") == |RelativePath(rel)| - 3
    ensures EndsWith(rel[|rel| - 1], ".ts")
    ensures var stem := StripSuffix(rel[|rel| - 1], ".ts");
      stem + ".ts" == rel[|rel| - 1]
      && ReplaceFirst(RelativePath(rel), ".ts", ".js") == RelativePath(rel[..|rel| - 1] + [stem + ".js"])
  {
    var n := |rel| - 1;
    var front, last := rel[..n], rel[n];
    LastEndsWithExtension(rel);
    var stem := StripSuffix(last, ".ts");
    assert rel == front + [stem + ".ts"];
    SwapExtension(front, stem);
  }

  /** When the path's first `.ts` ends it, its last component ends with `.ts`. */
  lemma LastEndsWithExtension(rel: seq<string>)
    requires |rel| >= 1 && |rel[|rel| - 1]| > 3
    requires IndexOf(RelativePath(rel), ".ts") == |RelativePath(rel)| - 3
    ensures EndsWith(rel[|rel| - 1], ".ts")
    ensures StripSuffix(rel[|rel| - 1], ".ts") + ".ts" == rel[|rel| - 1]
  {
    var p := RelativePath(rel);
    JoinEndsWithLast(rel, "/");
    ReplaceAtEnd(p);
    EndsWithTransitive(p, rel[|rel| - 1], ".ts");
  }

  /** Replacing a final `.ts` that is the path's first one swaps the last component's extension. */
  lemma SwapExtension(front: seq<string>, stem: string)
    requires var p := Join(front + [stem + ".ts"], "/"); IndexOf(p, ".ts") == |p| - 3
    ensures ReplaceFirst(Join(front + [stem + ".ts"], "/"), ".ts", ".js") == Join(front + [stem + ".js"], "/")
  {
    var p := Join(front + [stem + ".ts"], "/");
    var j := Join(front + [stem], "/");
    JoinWithExtension(front, stem, ".ts");
    assert p == j + ".ts";
    ReplaceAtEnd(p);
    assert p[..|p| - 3] == j;
    JoinWithExtension(front, stem, ".js");
  }

  /** When the first `.ts` of `p` is its last three characters, replacing it swaps the extension. */
  lemma ReplaceAtEnd(p: string)
    requires |p| >= 3 && IndexOf(p, ".ts") == |p| - 3
    ensures EndsWith(p, ".ts") && ReplaceFirst(p, ".ts", ".js") == p[..|p| - 3] + ".js"
  {
    assert OccursAt(p, ".ts", |p| - 3);
    assert p[|p| - 3..][..3] == p[|p| - 3..];
  }

  lemma EndsWithTransitive(p: string, last: string, suffix: string)
    requires EndsWith(p, last) && EndsWith(p, suffix) && |last| >= |suffix|
    ensures EndsWith(last, suffix)
  {
    assert forall j :: |last| - |suffix| <= j < |last| ==> last[j] == p[j + |p| - |last|];
  }

  /** Joining with an extension on the last part extends the joined string by the extension. */
  lemma JoinWithExtension(front: seq<string>, stem: string, ext: string)
    ensures Join(front + [stem + ext], "/") == Join(front + [stem], "/") + ext
  {
    var parts := front + [stem];
    assert parts[..|front|] == front;
    JoinExtendLast(parts, "/", ext);
  }

  /** The joined parts end with the last part. */
  lemma JoinEndsWithLast(parts: seq<string>, sep: string)
    requires |parts| >= 1
    ensures EndsWith(Join(parts, sep), parts[|parts| - 1])
  {
  }

  /** Removing the last component of a join of names leaves the join of the others. */
  lemma DirNameOfJoin(front: seq<string>, last: string)
    requires |front| >= 1 && forall k :: 0 <= k < |front| ==> IsName(front[k])
    requires '/' !in last
    ensures DirName(Join(front + [last], "/")) == Join(front, "/")
  {
    var f := Join(front, "/");
    JoinAppend(front, "/", last);
    JoinStartsWithFirst(front, "/");
    DirNameAfterSlash(f, last);
  }

  lemma DirNameAfterSlash(f: string, last: string)
    requires |f| > 0 && '/' !in last
    ensures DirName(f + "/" + last) == f
  {
    var p := f + "/" + last;
    assert p[|f|] == '/';
    assert forall k :: |f| < k < |p| ==> p[k] == last[k - |f| - 1];
    LastIndexOfCharIs(p, '/', |f|);
    assert p[..|f|] == f;
  }

  lemma {:induction false} JoinStartsWithFirst(parts: seq<string>, sep: string)
    requires |parts| >= 1
    ensures IsPrefix(parts[0], Join(parts, sep))
  {
    if |parts| > 1 {
      JoinStartsWithFirst(parts[..|parts| - 1], sep);
    }
  }

  /** A join of names is never `.`. */
  lemma JoinNotDot(parts: seq<string>)
    requires |parts| >= 1 && forall k :: 0 <= k < |parts| ==> IsName(parts[k])
    ensures Join(parts, "/") != "."
  {
    if |parts| > 1 {
      assert |Join(parts, "/")| >= 1 + |parts[|parts| - 1]| + 1;
    }
  }

  /** The first replacement pass: `/` and `\` become `_`. */
  function ReplaceSeparators(s: string): string {
    seq(|s|, k requires 0 <= k < |s| => if s[k] == '/' || s[k] == '\\' then '_' else s[k])
  }

  /** The second replacement pass: every character other than `[A-Za-z0-9_$]` becomes `_`. */
  function ReplaceNonIdentifier(s: string): string {
    seq(|s|, k requires 0 <= k < |s| => if IsWordChar(s[k]) || s[k] == '$' then s[k] else '_')
  }

  /**
   * The namespace of a foreign file: `path.join` of its parent directory's
   * name and its name without extension, passed through both replacements.
   */
  function Namespace(path: seq<string>): (ns: string)
  {
    var name := Basename(path);
    var fileName := StripSuffix(name, ExtName(name));
    var parentDirName := if |path| >= 2 then path[|path| - 2] else "";
    ReplaceNonIdentifier(ReplaceSeparators(JoinName(parentDirName, fileName)))
  }

  /**
   * The two passes amount to one: the namespace keeps each character of
   * the joined name that may occur in an identifier and has `_` in place
   * of every other one.
   */
  lemma NamespaceChars(path: seq<string>)
    ensures var name := Basename(path);
      var joined := JoinName(if |path| >= 2 then path[|path| - 2] else "", StripSuffix(name, ExtName(name)));
      var ns := Namespace(path);
      |ns| == |joined|
      && forall k :: 0 <= k < |ns| ==>
        (IsWordChar(ns[k]) || ns[k] == '$')
        && (ns[k] == joined[k] <==> IsWordChar(joined[k]) || joined[k] == '$')
        && (ns[k] != joined[k] ==> ns[k] == '_')
  {
  }

  /**
   * The namespace is built from the file's immediate parent directory:
   * `vendor/foo/bar.ts` below the barrel becomes `foo_bar`.
   */
  lemma NamespaceUsesParent()
    ensures Namespace(["srv", "vendor", "foo", "bar.ts"]) == "foo_bar"
  {
    assert LastIndexOfChar("bar.ts", '.') == 3;
    assert ExtName("bar.ts") == ".ts";
    assert StripSuffix("bar.ts", ".ts") == "bar";
    assert JoinName("foo", "bar") == "foo/bar";
    assert ReplaceSeparators("foo/bar") == "foo_bar";
  }
}
