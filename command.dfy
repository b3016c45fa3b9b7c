/**
 * The two helpers every protoc command builder of src/command/index.ts
 * shares: `iPath`, the list of the project's own schema files as one
 * argument string, and `externalImports`, the schema files of the own
 * package found in dependencies, grouped by the package they come from.
 * The results of `glob` and the contents of the files are given as inputs:
 * `contents` maps a path to the text of the file, and a path absent from
 * it names a file that cannot be read.
 */
module Command {
  import opened Text
  import opened Wrappers
  import opened NodePath
  import Ownership
  import Lists

  datatype Platform = Ts | Java

  const NodeModules: string := "node_modules"
  /** The single key under which the Java platform groups every import. */
  const JavaPackage: string := "@diia-inhouse/types"
  /** How a JavaScript template literal renders an array element past the end. */
  const Undefined: string := "undefined"

  /**
   * `iPath()`: the schema files, each preceded by a blank, with white space
   * trimmed from both ends.
   */
  function IPath(protoFiles: seq<string>): (r: string)
    ensures r == [] || (!IsJsSpace(r[0]) && !IsJsSpace(r[|r| - 1]))
  {
    var iPath := if |protoFiles| > 0 then " " + Join(protoFiles, " ") else "";
    Trim(iPath)
  }

  /** A file name with no white space at either end. */
  predicate Unpadded(f: string) {
    f != [] && !IsJsSpace(f[0]) && !IsJsSpace(f[|f| - 1])
  }

  /** The joined list starts with the first file and ends with the last one. */
  lemma {:induction false} JoinEnds(files: seq<string>)
    requires |files| >= 1 && forall k :: 0 <= k < |files| ==> Unpadded(files[k])
    ensures var j := Join(files, " "); var last := files[|files| - 1];
      Unpadded(files[0]) && Unpadded(last) && |j| > 0 && j[0] == files[0][0] && j[|j| - 1] == last[|last| - 1]
  {
    if |files| > 1 {
      JoinEnds(files[..|files| - 1]);
    }
  }

  /**
   * With no file name empty or padded by white space, `iPath` is exactly
   * the files separated by single blanks, and nothing when there is none.
   */
  lemma IPathJoins(protoFiles: seq<string>)
    requires forall k :: 0 <= k < |protoFiles| ==> Unpadded(protoFiles[k])
    ensures IPath(protoFiles) == Join(protoFiles, " ")
  {
    if |protoFiles| > 0 {
      JoinEnds(protoFiles);
      TrimBlankThen(Join(protoFiles, " "));
    }
  }

  /** Splitting `iPath` at its blanks gives the files back when none contains a blank. */
  lemma IPathSplit(protoFiles: seq<string>)
    requires |protoFiles| >= 1
    requires forall k :: 0 <= k < |protoFiles| ==> Unpadded(protoFiles[k]) && ' ' !in protoFiles[k]
    ensures Split(IPath(protoFiles), ' ') == protoFiles
  {
    IPathJoins(protoFiles);
    SplitJoin(protoFiles, ' ');
  }

  /** How many components of `parts` equal `x`. */
  function CountOf(parts: seq<string>, x: string): nat {
    if |parts| == 0 then 0
    else CountOf(parts[..|parts| - 1], x) + (if parts[|parts| - 1] == x then 1 else 0)
  }

  /** A path that passes through more than one `node_modules` directory. */
  predicate Nested(file: string) {
    CountOf(Split(file, '/'), NodeModules) > 1
  }

  /** The files that do not pass through nested `node_modules` directories, in order. */
  function DropNested(files: seq<string>): (r: seq<string>)
    ensures forall f :: f in r <==> f in files && !Nested(f)
    ensures |r| <= |files|
  {
    if |files| == 0 then []
    else
      var last := files[|files| - 1];
      DropNested(files[..|files| - 1]) + (if Nested(last) then [] else [last])
  }

  /** The files `externalImports` goes through: nested dependencies are dropped when the pattern searches `node_modules`. */
  function Candidates(dependenciesPattern: string, files: seq<string>): (r: seq<string>)
    ensures !Contains(dependenciesPattern, NodeModules) ==> r == files
    ensures Contains(dependenciesPattern, NodeModules) ==>
      forall f :: f in r <==> f in files && !Nested(f)
  {
    if Contains(dependenciesPattern, NodeModules) then DropNested(files) else files
  }

  /**
   * Dropping nested files keeps the others in the order `glob` returned
   * them: the files of `a` before those of `b`, each file kept exactly when
   * it is not nested.
   */
  lemma DropNestedInOrder(a: seq<string>, b: seq<string>, f: string)
    ensures DropNested(a + b) == DropNested(a) + DropNested(b)
    ensures DropNested([f]) == if Nested(f) then [] else [f]
  {
    forall s, x ensures DropNested(s + [x]) == DropNested(s) + DropNested([x]) {
      DropNestedSnoc(s, x);
      DropNestedSnoc([], x);
      assert [] + [x] == [x];
    }
    Lists.AppendHomomorphic(DropNested, a, b);
    DropNestedSnoc([], f);
    assert [] + [f] == [f];
  }

  /** One more file is kept after the others exactly when it is not nested. */
  lemma DropNestedSnoc(s: seq<string>, x: string)
    ensures DropNested(s + [x]) == DropNested(s) + if Nested(x) then [] else [x]
  {
    assert (s + [x])[..|s|] == s;
  }

  /** `Candidates` keeps the files it does not drop in the order `glob` returned them. */
  lemma CandidatesInOrder(dependenciesPattern: string, a: seq<string>, b: seq<string>, f: string)
    ensures Candidates(dependenciesPattern, a + b) == Candidates(dependenciesPattern, a) + Candidates(dependenciesPattern, b)
    ensures Candidates(dependenciesPattern, [f])
      == if Contains(dependenciesPattern, NodeModules) && Nested(f) then [] else [f]
  {
    DropNestedInOrder(a, b, f);
  }

  /** `parts.indexOf(x)`: the first position of `x`, or -1. */
  function IndexOfPart(parts: seq<string>, x: string): (r: int)
    ensures -1 <= r < |parts|
    ensures r >= 0 ==> parts[r] == x && x !in parts[..r]
    ensures r == -1 <==> x !in parts
  {
    if |parts| == 0 then -1
    else if parts[0] == x then 0
    else
      var r := IndexOfPart(parts[1..], x);
      assert r >= 0 ==> parts[..r + 1] == [parts[0]] + parts[1..][..r];
      if r == -1 then -1 else r + 1
  }

  /** `parts[i]` as a template literal renders it. */
  function At(parts: seq<string>, i: int): string {
    if 0 <= i < |parts| then parts[i] else Undefined
  }

  /** The key an import is grouped under: the fixed Java package, or the two components after the first `node_modules`. */
  function PackageName(platform: Platform, parts: seq<string>, idx: int): string {
    if platform == Java then JavaPackage else At(parts, idx + 1) + "/" + At(parts, idx + 2)
  }

  /** A component the import path keeps: one not listed in `subpaths`, or a schema file. */
  predicate Kept(subpaths: seq<string>, part: string) {
    part !in subpaths || EndsWith(part, ".proto")
  }

  /** The kept components, in order. */
  function KeptParts(subpaths: seq<string>, parts: seq<string>): (r: seq<string>)
    ensures forall p :: p in r <==> p in parts && Kept(subpaths, p)
    ensures |r| <= |parts|
  {
    if |parts| == 0 then []
    else
      var last := parts[|parts| - 1];
      KeptParts(subpaths, parts[..|parts| - 1]) + (if Kept(subpaths, last) then [last] else [])
  }

  /**
   * Keeping components keeps their order in the path, so `join('/')` writes
   * them as they appear: those of `a` before those of `b`, each component
   * kept exactly when `Kept` holds.
   */
  lemma KeptPartsInOrder(subpaths: seq<string>, a: seq<string>, b: seq<string>, p: string)
    ensures KeptParts(subpaths, a + b) == KeptParts(subpaths, a) + KeptParts(subpaths, b)
    ensures KeptParts(subpaths, [p]) == if Kept(subpaths, p) then [p] else []
  {
    forall s, x ensures KeptParts(subpaths, s + [x]) == KeptParts(subpaths, s) + KeptParts(subpaths, [x]) {
      KeptPartsSnoc(subpaths, s, x);
      KeptPartsSnoc(subpaths, [], x);
      assert [] + [x] == [x];
    }
    Lists.AppendHomomorphic(parts => KeptParts(subpaths, parts), a, b);
    KeptPartsSnoc(subpaths, [], p);
    assert [] + [p] == [p];
  }

  /** One more component is kept after the others exactly when `Kept` holds. */
  lemma KeptPartsSnoc(subpaths: seq<string>, s: seq<string>, x: string)
    ensures KeptParts(subpaths, s + [x]) == KeptParts(subpaths, s) + if Kept(subpaths, x) then [x] else []
  {
    assert (s + [x])[..|s|] == s;
  }

  /** The import path of a file: its components after the first `node_modules`, less the subpaths, joined by `/`. */
  function FileName(subpaths: seq<string>, parts: seq<string>, idx: int): string
    requires -1 <= idx < |parts|
  {
    Join(KeptParts(subpaths, parts[idx + 1..]), "/")
  }

  /** The key of the file `value`. */
  function KeyOf(platform: Platform, value: string): string {
    var parts := Split(value, '/');
    PackageName(platform, parts, IndexOfPart(parts, NodeModules))
  }

  /** The import path of the file `value`. */
  function NameOf(subpaths: seq<string>, value: string): string {
    var parts := Split(value, '/');
    FileName(subpaths, parts, IndexOfPart(parts, NodeModules))
  }

  /** A schema file that cannot be read: reading it throws, and `externalImports` with it. */
  predicate Missing(value: string, contents: map<string, string>) {
    PathExtName(value) == ".proto" && value !in contents
  }

  /** A schema file of the own package: it is grouped under its key. */
  predicate Accepted(value: string, contents: map<string, string>) {
    PathExtName(value) == ".proto" && value in contents && Contains(contents[value], Ownership.OwnPackage)
  }

  /** One step of the `reduce`: a file of the own package is put in front of its key's list. */
  function AddImport(acc: Result<map<string, seq<string>>, string>, value: string, subpaths: seq<string>,
                     platform: Platform, contents: map<string, string>): Result<map<string, seq<string>>, string>
  {
    if acc.Failure? then acc
    else if PathExtName(value) != ".proto" then acc
    else if value !in contents then Failure(value)
    else if !Contains(contents[value], Ownership.OwnPackage) then acc
    else
      var splittedPath := Split(value, '/');
      var idx := IndexOfPart(splittedPath, NodeModules);
      var packageName := PackageName(platform, splittedPath, idx);
      var filename := FileName(subpaths, splittedPath, idx);
      var previous := if packageName in acc.value then acc.value[packageName] else [];
      Success(acc.value[packageName := [filename] + previous])
  }

  /** The `reduce` over `files`, from the empty object. */
  function Imports(files: seq<string>, subpaths: seq<string>, platform: Platform,
                   contents: map<string, string>): Result<map<string, seq<string>>, string>
  {
    if |files| == 0 then Success(map[])
    else AddImport(Imports(files[..|files| - 1], subpaths, platform, contents), files[|files| - 1], subpaths, platform, contents)
  }

  /** `externalImports(dependenciesPattern, subpaths, platform)` for the files `glob` found. */
  function ExternalImports(dependenciesPattern: string, files: seq<string>, subpaths: seq<string>,
                           platform: Platform, contents: map<string, string>): Result<map<string, seq<string>>, string>
  {
    Imports(Candidates(dependenciesPattern, files), subpaths, platform, contents)
  }

  /** The import paths of the accepted files with key `key`, in the order of `files`. */
  function NamesFor(files: seq<string>, key: string, subpaths: seq<string>, platform: Platform,
                    contents: map<string, string>): seq<string>
  {
    if |files| == 0 then []
    else
      var last := files[|files| - 1];
      NamesFor(files[..|files| - 1], key, subpaths, platform, contents)
        + (if Accepted(last, contents) && KeyOf(platform, last) == key then [NameOf(subpaths, last)] else [])
  }

  function Reverse<T>(s: seq<T>): (r: seq<T>)
    ensures |r| == |s| && forall i :: 0 <= i < |s| ==> r[i] == s[|s| - 1 - i]
  {
    if |s| == 0 then [] else [s[|s| - 1]] + Reverse(s[..|s| - 1])
  }

  lemma ReverseSnoc<T>(s: seq<T>, x: T)
    ensures Reverse(s + [x]) == [x] + Reverse(s)
  {
    assert (s + [x])[..|s|] == s;
  }

  /** One step fails when the files before it failed, or when it meets a schema file that cannot be read. */
  lemma AddImportOutcome(acc: Result<map<string, seq<string>>, string>, value: string, subpaths: seq<string>,
                         platform: Platform, contents: map<string, string>)
    ensures var r := AddImport(acc, value, subpaths, platform, contents);
      && (r.Failure? <==> acc.Failure? || Missing(value, contents))
      && (r.Failure? ==> r.error == if acc.Failure? then acc.error else value)
  {
  }

  /** A step that succeeds puts the import path of an accepted file in front of its key's list and changes nothing else. */
  lemma AddImportEntry(acc: Result<map<string, seq<string>>, string>, value: string, subpaths: seq<string>,
                       platform: Platform, contents: map<string, string>)
    requires AddImport(acc, value, subpaths, platform, contents).Success?
    ensures acc.Success?
    ensures var m := acc.value; var key := KeyOf(platform, value);
      AddImport(acc, value, subpaths, platform, contents).value
        == if Accepted(value, contents)
           then m[key := [NameOf(subpaths, value)] + (if key in m then m[key] else [])]
           else m
  {
  }

  /** The reduce succeeds exactly when every schema file among `files` can be read. */
  lemma {:induction false} ImportsSuccess(files: seq<string>, subpaths: seq<string>, platform: Platform,
                                          contents: map<string, string>)
    ensures Imports(files, subpaths, platform, contents).Success?
      <==> forall k :: 0 <= k < |files| ==> !Missing(files[k], contents)
  {
    if |files| > 0 {
      var init := files[..|files| - 1];
      ImportsSuccess(init, subpaths, platform, contents);
      assert files == init + [files[|files| - 1]];
      SuccessStep(Imports(init, subpaths, platform, contents), files, init, files[|files| - 1], subpaths, platform, contents);
    }
  }

  /** `ImportsSuccess` is kept by one more step of the reduce. */
  lemma SuccessStep(acc: Result<map<string, seq<string>>, string>, files: seq<string>, init: seq<string>, last: string,
                    subpaths: seq<string>, platform: Platform, contents: map<string, string>)
    requires files == init + [last]
    requires acc.Success? <==> forall k :: 0 <= k < |init| ==> !Missing(init[k], contents)
    ensures AddImport(acc, last, subpaths, platform, contents).Success?
      <==> forall k :: 0 <= k < |files| ==> !Missing(files[k], contents)
  {
    AddImportOutcome(acc, last, subpaths, platform, contents);
    AllSnoc(files, init, last, f => !Missing(f, contents));
  }

  /** Every element of `init + [last]` satisfies `p` exactly when every one of `init` and `last` do. */
  lemma AllSnoc<T>(s: seq<T>, init: seq<T>, last: T, p: T -> bool)
    requires s == init + [last]
    ensures (forall k :: 0 <= k < |s| ==> p(s[k]))
      <==> (forall k :: 0 <= k < |init| ==> p(init[k])) && p(last)
  {
    if forall k :: 0 <= k < |s| ==> p(s[k]) {
      assert p(s[|init|]);
      forall k | 0 <= k < |init| ensures p(init[k]) {
        assert s[k] == init[k];
      }
    }
  }

  /** When the reduce fails, it fails with the first schema file that cannot be read. */
  lemma {:induction false} ImportsFailure(files: seq<string>, subpaths: seq<string>, platform: Platform,
                                          contents: map<string, string>)
    requires Imports(files, subpaths, platform, contents).Failure?
    ensures exists j ::
              && 0 <= j < |files| && files[j] == Imports(files, subpaths, platform, contents).error
              && Missing(files[j], contents) && forall k :: 0 <= k < j ==> !Missing(files[k], contents)
  {
    var init := files[..|files| - 1];
    var acc := Imports(init, subpaths, platform, contents);
    var err := Imports(files, subpaths, platform, contents).error;
    AddImportOutcome(acc, files[|files| - 1], subpaths, platform, contents);
    if acc.Failure? {
      ImportsFailure(init, subpaths, platform, contents);
      var j :| 0 <= j < |init| && init[j] == err
        && Missing(init[j], contents) && forall k :: 0 <= k < j ==> !Missing(init[k], contents);
      assert files[j] == init[j];
      assert forall k :: 0 <= k < j ==> files[k] == init[k];
    } else {
      ImportsSuccess(init, subpaths, platform, contents);
      assert forall k :: 0 <= k < |init| ==> files[k] == init[k];
      assert files[|files| - 1] == err;
    }
  }

  /**
   * When it succeeds, the reduce holds a key exactly when some accepted file
   * has it, and under each key the import paths of its accepted files, the
   * latest first.
   */
  lemma {:induction false} ImportsContents(files: seq<string>, subpaths: seq<string>, platform: Platform,
                                           contents: map<string, string>, key: string)
    requires Imports(files, subpaths, platform, contents).Success?
    ensures var m := Imports(files, subpaths, platform, contents).value;
      && (key in m <==> NamesFor(files, key, subpaths, platform, contents) != [])
      && (key in m ==> m[key] == Reverse(NamesFor(files, key, subpaths, platform, contents)))
  {
    if |files| > 0 {
      var init := files[..|files| - 1];
      var last := files[|files| - 1];
      var acc := Imports(init, subpaths, platform, contents);
      assert acc.Success? by {
        AddImportOutcome(acc, last, subpaths, platform, contents);
      }
      ImportsContents(init, subpaths, platform, contents, key);
      ContentsStep(acc, last, subpaths, platform, contents, key, NamesFor(init, key, subpaths, platform, contents));
    }
  }

  /** `ImportsContents` is kept by one more step of the reduce. */
  lemma ContentsStep(acc: Result<map<string, seq<string>>, string>, last: string, subpaths: seq<string>,
                     platform: Platform, contents: map<string, string>, key: string, names0: seq<string>)
    requires AddImport(acc, last, subpaths, platform, contents).Success?
    requires acc.Success? && (key in acc.value <==> names0 != [])
    requires key in acc.value ==> acc.value[key] == Reverse(names0)
    ensures var m := AddImport(acc, last, subpaths, platform, contents).value;
      var names := names0 + (if Accepted(last, contents) && KeyOf(platform, last) == key then [NameOf(subpaths, last)] else []);
      && (key in m <==> names != [])
      && (key in m ==> m[key] == Reverse(names))
  {
    AddImportEntry(acc, last, subpaths, platform, contents);
    var m0 := acc.value;
    var m := AddImport(acc, last, subpaths, platform, contents).value;
    var k := KeyOf(platform, last);
    if Accepted(last, contents) && k == key {
      ReverseSnoc(names0, NameOf(subpaths, last));
    } else {
      assert names0 + [] == names0;
    }
  }

  /** Every key of the Java platform is the fixed package. */
  lemma JavaSingleKey(files: seq<string>, subpaths: seq<string>, contents: map<string, string>, key: string)
    requires Imports(files, subpaths, Java, contents).Success?
    requires key in Imports(files, subpaths, Java, contents).value
    ensures key == JavaPackage
  {
    ImportsContents(files, subpaths, Java, contents, key);
    NamesForKey(files, key, subpaths, Java, contents);
  }

  /** A key with import paths is the key of some accepted file. */
  lemma {:induction false} NamesForKey(files: seq<string>, key: string, subpaths: seq<string>, platform: Platform,
                                       contents: map<string, string>)
    requires NamesFor(files, key, subpaths, platform, contents) != []
    ensures exists k :: 0 <= k < |files| && Accepted(files[k], contents) && KeyOf(platform, files[k]) == key
  {
    var init := files[..|files| - 1];
    var last := files[|files| - 1];
    if Accepted(last, contents) && KeyOf(platform, last) == key {
      assert files[|files| - 1] == last;
    } else {
      NamesForKey(init, key, subpaths, platform, contents);
      var k :| 0 <= k < |init| && Accepted(init[k], contents) && KeyOf(platform, init[k]) == key;
      assert files[k] == init[k];
    }
  }

  /**
   * On the TypeScript platform a file below `node_modules` is grouped under
   * the two components that follow the first `node_modules`, and its import
   * path starts from there.
   */
  lemma KeyAfterNodeModules(subpaths: seq<string>, parts: seq<string>, i: int)
    requires 0 <= i && i + 2 < |parts| && parts[i] == NodeModules && NodeModules !in parts[..i]
    ensures PackageName(Ts, parts, IndexOfPart(parts, NodeModules)) == parts[i + 1] + "/" + parts[i + 2]
    ensures FileName(subpaths, parts, IndexOfPart(parts, NodeModules)) == Join(KeptParts(subpaths, parts[i + 1..]), "/")
  {
  }

  /**
   * When the first `node_modules` is the next to last component, the key
   * reads an array position past the end, so it ends in `undefined`.
   */
  lemma KeyPastTheEnd(parts: seq<string>)
    requires |parts| >= 2 && parts[|parts| - 2] == NodeModules && NodeModules !in parts[..|parts| - 2]
    ensures PackageName(Ts, parts, IndexOfPart(parts, NodeModules)) == parts[|parts| - 1] + "/" + Undefined
  {
  }

  /**
   * A path without a `node_modules` component is grouped under its first
   * two components, and its import path keeps all of its components.
   */
  lemma KeyWithoutNodeModules(subpaths: seq<string>, parts: seq<string>)
    requires |parts| >= 1 && NodeModules !in parts
    ensures PackageName(Ts, parts, IndexOfPart(parts, NodeModules)) == parts[0] + "/" + At(parts, 1)
    ensures FileName(subpaths, parts, IndexOfPart(parts, NodeModules)) == Join(KeptParts(subpaths, parts), "/")
  {
    assert parts[0..] == parts;
  }

  /** `externalImports` succeeds exactly when every schema file it goes through can be read. */
  lemma ExternalImportsSuccess(dependenciesPattern: string, files: seq<string>, subpaths: seq<string>,
                               platform: Platform, contents: map<string, string>)
    ensures ExternalImports(dependenciesPattern, files, subpaths, platform, contents).Success?
      <==> forall f :: f in Candidates(dependenciesPattern, files) ==> !Missing(f, contents)
  {
    var cs := Candidates(dependenciesPattern, files);
    ImportsSuccess(cs, subpaths, platform, contents);
    if forall k :: 0 <= k < |cs| ==> !Missing(cs[k], contents) {
      forall f | f in cs ensures !Missing(f, contents) {
        var k :| 0 <= k < |cs| && cs[k] == f;
      }
    }
  }

  /**
   * When it succeeds, `externalImports` holds a key exactly when some
   * accepted candidate has it, and under each key the import paths of its
   * accepted candidates in the reverse of the order `glob` returned them.
   */
  lemma ExternalImportsContents(dependenciesPattern: string, files: seq<string>, subpaths: seq<string>,
                                platform: Platform, contents: map<string, string>, key: string)
    requires ExternalImports(dependenciesPattern, files, subpaths, platform, contents).Success?
    ensures var m := ExternalImports(dependenciesPattern, files, subpaths, platform, contents).value;
      var names := NamesFor(Candidates(dependenciesPattern, files), key, subpaths, platform, contents);
      && (key in m <==> names != [])
      && (key in m ==> m[key] == Reverse(names))
  {
    ImportsContents(Candidates(dependenciesPattern, files), subpaths, platform, contents, key);
  }

  /** The import path splits back into the kept components. */
  lemma FileNameComponents(subpaths: seq<string>, value: string)
    requires KeptParts(subpaths, Split(value, '/')[IndexOfPart(Split(value, '/'), NodeModules) + 1..]) != []
    ensures Split(NameOf(subpaths, value), '/')
      == KeptParts(subpaths, Split(value, '/')[IndexOfPart(Split(value, '/'), NodeModules) + 1..])
  {
    var parts := Split(value, '/');
    var tail := parts[IndexOfPart(parts, NodeModules) + 1..];
    SplitPartsFree(value, '/');
    SuffixFree(parts, IndexOfPart(parts, NodeModules) + 1);
    KeptFree(subpaths, tail);
    SplitJoin(KeptParts(subpaths, tail), '/');
  }

  /** The components after some position of a path free of `/` are free of `/`. */
  lemma SuffixFree(parts: seq<string>, from: int)
    requires 0 <= from <= |parts| && forall i :: 0 <= i < |parts| ==> '/' !in parts[i]
    ensures forall i :: 0 <= i < |parts[from..]| ==> '/' !in parts[from..][i]
  {
    var tail := parts[from..];
    forall i | 0 <= i < |tail| ensures '/' !in tail[i] {
      assert tail[i] == parts[from + i];
    }
  }

  /** Keeping some components of a path keeps them free of `/`. */
  lemma KeptFree(subpaths: seq<string>, tail: seq<string>)
    requires forall i :: 0 <= i < |tail| ==> '/' !in tail[i]
    ensures forall i :: 0 <= i < |KeptParts(subpaths, tail)| ==> '/' !in KeptParts(subpaths, tail)[i]
  {
    var kept := KeptParts(subpaths, tail);
    forall i | 0 <= i < |kept| ensures '/' !in kept[i] {
      assert kept[i] in tail;
    }
  }
}
