/**
 * `generateIndexForDirectory` of src/utils/index.ts: the barrel file
 * `index.ts` written for a directory of generated TypeScript. Each collected
 * file contributes, in walk order, one block: a file of the project's own
 * package re-exports by name those of its exported names that no earlier
 * own file re-exported (values and type-only names on separate lines); any
 * other file is re-exported whole under a namespace. The directory is given
 * as its resolved absolute path and its tree of entries, and the schema
 * files as a map from reference to text; the result is the file written,
 * if any.
 */
module IndexBuilder {
  import opened Text
  import opened Lists
  import opened Wrappers
  import opened SourceTree
  import opened Ownership
  import opened ExportNames
  import opened ImportPaths
  import opened NodePath

  /** What one collected file adds to the barrel. */
  datatype Block =
    | Reexport(values: seq<string>, types: seq<string>, from: string)
    | Wildcard(namespace: string, from: string)

  /** A file written to disk: its absolute path and its text. */
  datatype IndexFile = IndexFile(path: seq<string>, text: string)

  /** Every name a file exports, values first. */
  function Exported(lines: seq<string>): seq<string> {
    ExportedNames(lines).0 + ExportedNames(lines).1
  }

  /** The names the file `src` registers: all it exports when it is own, none otherwise. */
  function OwnNames(schemas: map<string, string>, src: Source): (r: set<string>)
    ensures forall n :: n in r <==> Owned(src.lines, schemas) && n in Exported(src.lines)
  {
    if Owned(src.lines, schemas) then set n | n in Exported(src.lines) else {}
  }

  /**
   * The names an own file registers are exactly those its `export` lines
   * declare, as values or as types; a foreign file registers none.
   */
  lemma OwnNamesDeclared(schemas: map<string, string>, src: Source, n: string)
    ensures n in OwnNames(schemas, src)
      <==> Owned(src.lines, schemas) && (Declares(src.lines, ValueDecl(n)) || Declares(src.lines, TypeDecl(n)))
  {
    ExportedNamesDeclares(src.lines);
  }

  /** Some own file among `srcs` exports `n`. */
  ghost predicate ExportedIn(schemas: map<string, string>, srcs: seq<Source>, n: string) {
    exists j :: 0 <= j < |srcs| && n in OwnNames(schemas, srcs[j])
  }

  /** The names re-exported so far (`exportedNames`) after the files `srcs`. */
  function Registry(schemas: map<string, string>, srcs: seq<Source>): set<string> {
    if |srcs| == 0 then {}
    else Registry(schemas, srcs[..|srcs| - 1]) + OwnNames(schemas, srcs[|srcs| - 1])
  }

  /** The block of `src` when the names in `registry` are already re-exported; none when an own file adds nothing. */
  function BlockFor(dir: seq<string>, schemas: map<string, string>, registry: set<string>, src: Source): Option<Block>
  {
    var from := ImportPathAsWritten(dir, src.path);
    if Owned(src.lines, schemas) then
      var uniqueValues := RemoveAll(ExportedNames(src.lines).0, registry);
      var uniqueTypes := RemoveAll(ExportedNames(src.lines).1, registry);
      if |uniqueValues| == 0 && |uniqueTypes| == 0 then None
      else Some(Reexport(uniqueValues, uniqueTypes, from))
    else Some(Wildcard(Namespace(src.path), from))
  }

  /**
   * The block of each collected file, in walk order: each is built against
   * the registry the files before it leave.
   */
  function Plan(dir: seq<string>, schemas: map<string, string>, srcs: seq<Source>): (plan: seq<Option<Block>>)
  {
    Scan(srcs, BlockAfter(dir, schemas))
  }

  /** The block of a file given the files before it. */
  function BlockAfter(dir: seq<string>, schemas: map<string, string>): (seq<Source>, Source) -> Option<Block> {
    (before: seq<Source>, src: Source) => BlockFor(dir, schemas, Registry(schemas, before), src)
  }

  /** `f` of each element and the elements before it. */
  function Scan<T, U>(s: seq<T>, f: (seq<T>, T) -> U): (r: seq<U>)
  {
    seq(|s|, k requires 0 <= k < |s| => f(s[..k], s[k]))
  }

  /** Scanning one more element appends `f` of it and those before it. */
  lemma ScanSnoc<T, U>(s: seq<T>, f: (seq<T>, T) -> U)
    requires |s| > 0
    ensures Scan(s, f) == Scan(s[..|s| - 1], f) + [f(s[..|s| - 1], s[|s| - 1])]
  {
    var init := s[..|s| - 1];
    forall k | 0 <= k < |init|
      ensures Scan(s, f)[k] == Scan(init, f)[k]
    {
      assert init[..k] == s[..k];
    }
  }

  function ValueLine(values: seq<string>, from: string): string {
    "export { " + Join(values, ", ") + " } from '" + from + "';"
  }

  function TypeLine(types: seq<string>, from: string): string {
    "export type { " + Join(types, ", ") + " } from '" + from + "';"
  }

  function WildcardLine(namespace: string, from: string): string {
    "export * as " + namespace + " from '" + from + "';"
  }

  /** The value line and the type line of a re-export, each only when it lists a name. */
  function Parts(values: seq<string>, types: seq<string>, from: string): (parts: seq<string>)
    ensures |parts| > 0 <==> |values| > 0 || |types| > 0
  {
    (if |values| > 0 then [ValueLine(values, from)] else [])
      + (if |types| > 0 then [TypeLine(types, from)] else [])
  }

  /** The text of a block: its parts on separate lines, or the namespace line. */
  function Render(b: Block): string {
    match b
    case Reexport(values, types, from) => Join(Parts(values, types, from), "\n")
    case Wildcard(namespace, from) => WildcardLine(namespace, from)
  }

  /** The line a planned block adds to `exportLines`, if any. */
  function Rendered(b: Option<Block>): seq<string> {
    match b
    case Some(block) => [Render(block)]
    case None => []
  }

  /** The entries of `exportLines`: the rendered blocks, in order. */
  function ExportLines(plan: seq<Option<Block>>): (lines: seq<string>)
    ensures |lines| <= |plan|
  {
    if |plan| == 0 then []
    else ExportLines(plan[..|plan| - 1]) + Rendered(plan[|plan| - 1])
  }

  /** The barrel written for `lines`: nothing when there is no line. */
  function IndexOutput(dir: seq<string>, lines: seq<string>): Option<IndexFile> {
    if |lines| == 0 then None
    else Some(IndexFile(dir + ["index.ts"], Join(lines, "\n\n") + "\n"))
  }

  /** `for (const name of names) exportedNames.add(name)`. */
  method AddAll(exportedNames: set<string>, names: seq<string>) returns (r: set<string>)
    ensures r == exportedNames + set n | n in names
  {
    r := exportedNames;
    for j := 0 to |names|
      invariant r == exportedNames + set n | n in names[..j]
    {
      assert names[..j + 1] == names[..j] + [names[j]];
      r := r + {names[j]};
    }
    assert names[..|names|] == names;
  }

  /**
   * `generateIndexForDirectory(dir)`: walk the tree, decide each file's
   * ownership, build its block against the names re-exported so far, and
   * write the blocks separated by blank lines when there is one.
   */
  method GenerateIndexForDirectory(dir: seq<string>, tree: seq<Entry>, schemas: map<string, string>)
    returns (written: Option<IndexFile>)
    ensures written == IndexOutput(dir, ExportLines(Plan(dir, schemas, Walk(dir, tree))))
  {
    var exportLines: seq<string> := [];
    var exportedNames: set<string> := {};
    var paths := RecursivePaths(dir, tree);
    for i := 0 to |paths|
      invariant exportedNames == Registry(schemas, paths[..i])
      invariant exportLines == ExportLines(Plan(dir, schemas, paths[..i]))
    {
      PlanStep(dir, schemas, paths, i);
      exportedNames, exportLines := AddFile(dir, schemas, exportedNames, exportLines, paths[i]);
    }
    assert paths[..|paths|] == paths;
    if |exportLines| > 0 {
      written := Some(IndexFile(dir + ["index.ts"], Join(exportLines, "\n\n") + "\n"));
    } else {
      written := None;
    }
  }

  /**
   * The body of the loop over the collected files: read the file's
   * ownership, then either re-export its names not yet re-exported and
   * register them, or re-export it whole under its namespace.
   */
  method AddFile(dir: seq<string>, schemas: map<string, string>, exportedNames: set<string>,
                 exportLines: seq<string>, recPath: Source)
    returns (names: set<string>, lines: seq<string>)
    ensures names == exportedNames + OwnNames(schemas, recPath)
    ensures lines == exportLines + Rendered(BlockFor(dir, schemas, exportedNames, recPath))
  {
    names, lines := exportedNames, exportLines;
    var ownPackage := ScanOwnership(recPath.lines, schemas);
    var importPath := ImportPathAsWritten(dir, recPath.path);
    if ownPackage {
      var valueNames, typeNames := ExtractExportedNames(recPath.lines);
      var uniqueValues := RemoveAll(valueNames, names);
      var uniqueTypes := RemoveAll(typeNames, names);
      names := AddAll(names, uniqueValues + uniqueTypes);
      OwnStep(dir, schemas, exportedNames, recPath);
      var parts := Parts(uniqueValues, uniqueTypes, importPath);
      if |parts| > 0 {
        lines := lines + [Join(parts, "\n")];
      }
    } else {
      ForeignStep(dir, schemas, exportedNames, recPath);
      var namespace := Namespace(recPath.path);
      lines := lines + [WildcardLine(namespace, importPath)];
    }
  }

  /** What an own file adds: the names not yet registered, and its parts when it has any. */
  lemma OwnStep(dir: seq<string>, schemas: map<string, string>, registry: set<string>, src: Source)
    requires Owned(src.lines, schemas)
    ensures var uniqueValues := RemoveAll(ExportedNames(src.lines).0, registry);
      var uniqueTypes := RemoveAll(ExportedNames(src.lines).1, registry);
      var parts := Parts(uniqueValues, uniqueTypes, ImportPathAsWritten(dir, src.path));
      && registry + (set n | n in uniqueValues + uniqueTypes) == registry + OwnNames(schemas, src)
      && Rendered(BlockFor(dir, schemas, registry, src)) == if |parts| > 0 then [Join(parts, "\n")] else []
  {
    UniqueAdded(ExportedNames(src.lines).0, ExportedNames(src.lines).1, registry);
    OwnBlock(dir, schemas, registry, src);
  }

  /** What a foreign file adds: no name, and its namespace line. */
  lemma ForeignStep(dir: seq<string>, schemas: map<string, string>, registry: set<string>, src: Source)
    requires !Owned(src.lines, schemas)
    ensures OwnNames(schemas, src) == {}
    ensures Rendered(BlockFor(dir, schemas, registry, src)) == [WildcardLine(Namespace(src.path), ImportPathAsWritten(dir, src.path))]
  {
  }

  /** One more file extends the registry by its names when it is own, and the lines by its block. */
  lemma PlanStep(dir: seq<string>, schemas: map<string, string>, srcs: seq<Source>, i: int)
    requires 0 <= i < |srcs|
    ensures Registry(schemas, srcs[..i + 1]) == Registry(schemas, srcs[..i]) + OwnNames(schemas, srcs[i])
    ensures ExportLines(Plan(dir, schemas, srcs[..i + 1]))
      == ExportLines(Plan(dir, schemas, srcs[..i])) + Rendered(BlockFor(dir, schemas, Registry(schemas, srcs[..i]), srcs[i]))
  {
    var init := srcs[..i + 1];
    assert init[..i] == srcs[..i];
    ScanSnoc(init, BlockAfter(dir, schemas));
    ExportLinesSnoc(Plan(dir, schemas, srcs[..i]), BlockFor(dir, schemas, Registry(schemas, srcs[..i]), srcs[i]));
  }

  lemma ExportLinesSnoc(plan: seq<Option<Block>>, b: Option<Block>)
    ensures ExportLines(plan + [b]) == ExportLines(plan) + Rendered(b)
  {
    assert (plan + [b])[..|plan|] == plan;
  }

  /** The line an own file adds: its parts, when it has any. */
  lemma OwnBlock(dir: seq<string>, schemas: map<string, string>, registry: set<string>, src: Source)
    requires Owned(src.lines, schemas)
    ensures var uniqueValues := RemoveAll(ExportedNames(src.lines).0, registry);
      var uniqueTypes := RemoveAll(ExportedNames(src.lines).1, registry);
      var parts := Parts(uniqueValues, uniqueTypes, ImportPathAsWritten(dir, src.path));
      Rendered(BlockFor(dir, schemas, registry, src)) == if |parts| > 0 then [Join(parts, "\n")] else []
  {
  }

  /** Adding the names not yet registered registers every name of both lists. */
  lemma UniqueAdded(values: seq<string>, types: seq<string>, registry: set<string>)
    ensures registry + (set n | n in RemoveAll(values, registry) + RemoveAll(types, registry))
      == registry + set n | n in values + types
  {
  }

  /** The names a planned block re-exports by name, values first. */
  function BlockNames(b: Option<Block>): seq<string> {
    match b
    case Some(Reexport(values, types, _)) => values + types
    case _ => []
  }

  function BlockValues(b: Option<Block>): seq<string> {
    match b
    case Some(Reexport(values, _, _)) => values
    case _ => []
  }

  function BlockTypes(b: Option<Block>): seq<string> {
    match b
    case Some(Reexport(_, types, _)) => types
    case _ => []
  }

  /** A name is registered after `srcs` exactly when some own file among them exports it. */
  lemma {:induction false} RegistryIff(schemas: map<string, string>, srcs: seq<Source>, n: string)
    ensures n in Registry(schemas, srcs) <==> ExportedIn(schemas, srcs, n)
  {
    if |srcs| > 0 {
      RegistryIff(schemas, srcs[..|srcs| - 1], n);
      ExportedInSnoc(schemas, srcs, n);
    }
  }

  /** Some own file among `srcs` exports `n` exactly when one before the last does or the last does. */
  lemma ExportedInSnoc(schemas: map<string, string>, srcs: seq<Source>, n: string)
    requires |srcs| > 0
    ensures ExportedIn(schemas, srcs, n)
      <==> ExportedIn(schemas, srcs[..|srcs| - 1], n) || n in OwnNames(schemas, srcs[|srcs| - 1])
  {
    assert srcs == srcs[..|srcs| - 1] + [srcs[|srcs| - 1]];
    SomeSnoc(srcs, srcs[..|srcs| - 1], srcs[|srcs| - 1], src => n in OwnNames(schemas, src));
  }

  /** Some element of `init + [last]` satisfies `p` exactly when one of `init` does or `last` does. */
  lemma SomeSnoc<T>(s: seq<T>, init: seq<T>, last: T, p: T -> bool)
    requires s == init + [last]
    ensures (exists j :: 0 <= j < |s| && p(s[j]))
      <==> (exists j :: 0 <= j < |init| && p(init[j])) || p(last)
  {
    if exists j :: 0 <= j < |init| && p(init[j]) {
      var j :| 0 <= j < |init| && p(init[j]);
      assert p(s[j]);
    }
    if p(last) {
      assert p(s[|init|]);
    }
    if exists j :: 0 <= j < |s| && p(s[j]) {
      var j :| 0 <= j < |s| && p(s[j]);
      if j < |init| {
        assert p(init[j]);
      } else {
        assert s[j] == last;
      }
    }
  }

  /** The whole registry after `srcs`: the names some own file among them exports. */
  lemma RegistryAll(schemas: map<string, string>, srcs: seq<Source>)
    ensures forall m :: m in Registry(schemas, srcs) <==> ExportedIn(schemas, srcs, m)
  {
    forall m
      ensures m in Registry(schemas, srcs) <==> ExportedIn(schemas, srcs, m)
    {
      RegistryIff(schemas, srcs, m);
    }
  }

  /**
   * The block of an own file against the registry `registry`: a re-export
   * of exactly those of its value names and of its type names that are not
   * registered, or none when every name it exports is.
   */
  lemma OwnBlockNames(dir: seq<string>, schemas: map<string, string>, registry: set<string>, src: Source, n: string)
    requires Owned(src.lines, schemas)
    ensures var b := BlockFor(dir, schemas, registry, src);
      && (b.None? || b.value.Reexport?)
      && (b.None? <==> forall m :: m in Exported(src.lines) ==> m in registry)
      && (n in BlockValues(b) <==> n in ExportedNames(src.lines).0 && n !in registry)
      && (n in BlockTypes(b) <==> n in ExportedNames(src.lines).1 && n !in registry)
  {
    var (values, types) := ExportedNames(src.lines);
    var uniqueValues := RemoveAll(values, registry);
    var uniqueTypes := RemoveAll(types, registry);
    if |uniqueValues| == 0 && |uniqueTypes| == 0 {
      forall m | m in Exported(src.lines) ensures m in registry {
        assert m in values || m in types;
      }
    } else if |uniqueValues| > 0 {
      assert uniqueValues[0] in uniqueValues;
      assert uniqueValues[0] in Exported(src.lines) && uniqueValues[0] !in registry;
    } else {
      assert uniqueTypes[0] in uniqueTypes;
      assert uniqueTypes[0] in Exported(src.lines) && uniqueTypes[0] !in registry;
    }
  }

  /**
   * A block lists its value names in the order the file first declares
   * them as values, and its type names in the order it first declares them
   * as types.
   */
  lemma BlockOrder(dir: seq<string>, schemas: map<string, string>, registry: set<string>, src: Source)
    ensures var b := BlockFor(dir, schemas, registry, src);
      && InFirstOccurrenceOrder(BlockValues(b), ValueDecls(src.lines))
      && InFirstOccurrenceOrder(BlockTypes(b), TypeDecls(src.lines))
  {
    if Owned(src.lines, schemas) {
      var (values, types) := ExportedNames(src.lines);
      ExportedNamesSpec(src.lines);
      RemoveAllKeepsOrder(values, ValueDecls(src.lines), registry);
      RemoveAllKeepsOrder(types, TypeDecls(src.lines), registry);
    }
  }

  /**
   * A foreign file is re-exported whole under its namespace. An own file
   * re-exports by name exactly those of its value names and of its type
   * names that no earlier own file exports; it adds no block when there
   * are none.
   */
  lemma FirstWins(dir: seq<string>, schemas: map<string, string>, srcs: seq<Source>, k: int, n: string)
    requires 0 <= k < |srcs|
    ensures var b := Plan(dir, schemas, srcs)[k];
      && (!Owned(srcs[k].lines, schemas) ==>
            b == Some(Wildcard(Namespace(srcs[k].path), ImportPathAsWritten(dir, srcs[k].path))))
      && (Owned(srcs[k].lines, schemas) ==>
            && (b.None? || b.value.Reexport?)
            && (b.None? <==> forall m :: m in Exported(srcs[k].lines) ==> ExportedIn(schemas, srcs[..k], m))
            && (n in BlockValues(b) <==> n in ExportedNames(srcs[k].lines).0 && !ExportedIn(schemas, srcs[..k], n))
            && (n in BlockTypes(b) <==> n in ExportedNames(srcs[k].lines).1 && !ExportedIn(schemas, srcs[..k], n)))
  {
    var before := srcs[..k];
    assert Plan(dir, schemas, srcs)[k] == BlockFor(dir, schemas, Registry(schemas, before), srcs[k]);
    if Owned(srcs[k].lines, schemas) {
      OwnBlockAfter(dir, schemas, before, srcs[k], n);
    }
  }

  /** `FirstWins` for an own file after the files `before`. */
  lemma OwnBlockAfter(dir: seq<string>, schemas: map<string, string>, before: seq<Source>, src: Source, n: string)
    requires Owned(src.lines, schemas)
    ensures var b := BlockFor(dir, schemas, Registry(schemas, before), src);
      && (b.None? || b.value.Reexport?)
      && (b.None? <==> forall m :: m in Exported(src.lines) ==> ExportedIn(schemas, before, m))
      && (n in BlockValues(b) <==> n in ExportedNames(src.lines).0 && !ExportedIn(schemas, before, n))
      && (n in BlockTypes(b) <==> n in ExportedNames(src.lines).1 && !ExportedIn(schemas, before, n))
  {
    OwnBlockNames(dir, schemas, Registry(schemas, before), src, n);
    RegistryAll(schemas, before);
  }

  /**
   * Every block imports its file by the specifier the code computes. That
   * is the specifier the file needs (its own `.ts` replaced by `.js`) when
   * the only `.ts` in the file's path below the directory is its extension.
   */
  lemma PlanImportPath(dir: seq<string>, schemas: map<string, string>, srcs: seq<Source>, k: int, rel: seq<string>)
    requires 0 <= k < |srcs| && Plan(dir, schemas, srcs)[k].Some? && srcs[k].path == dir + rel
    ensures Plan(dir, schemas, srcs)[k].value.from == ImportPathAsWritten(dir, dir + rel)
    ensures |rel| >= 1 && (forall i :: 0 <= i < |rel| ==> IsName(rel[i])) && |rel[|rel| - 1]| > 3
              && IndexOf(RelativePath(rel), ".ts") == |RelativePath(rel)| - 3
            ==> Plan(dir, schemas, srcs)[k].value.from == ImportPath(dir, dir + rel)
  {
    assert Plan(dir, schemas, srcs)[k] == BlockFor(dir, schemas, Registry(schemas, srcs[..k]), srcs[k]);
    if |rel| >= 1 && (forall i :: 0 <= i < |rel| ==> IsName(rel[i])) && |rel[|rel| - 1]| > 3
       && IndexOf(RelativePath(rel), ".ts") == |RelativePath(rel)| - 3 {
      ImportPathAgrees(dir, rel);
    }
  }

  /** A name re-exported by one block is re-exported by no later block. */
  lemma NoNameTwice(dir: seq<string>, schemas: map<string, string>, srcs: seq<Source>, j: int, k: int, n: string)
    requires 0 <= j < k < |srcs|
    requires n in BlockNames(Plan(dir, schemas, srcs)[j])
    ensures n !in BlockNames(Plan(dir, schemas, srcs)[k])
  {
    var before := srcs[..k];
    assert Plan(dir, schemas, srcs)[j] == BlockFor(dir, schemas, Registry(schemas, srcs[..j]), srcs[j]);
    assert Plan(dir, schemas, srcs)[k] == BlockFor(dir, schemas, Registry(schemas, before), srcs[k]);
    ReexportedIsExported(dir, schemas, Registry(schemas, srcs[..j]), srcs[j], n);
    assert n in OwnNames(schemas, before[j]);
    RegistryIff(schemas, before, n);
    RegisteredNotReexported(dir, schemas, Registry(schemas, before), srcs[k], n);
  }

  /** A name a block re-exports by name is exported by its file, which is own. */
  lemma ReexportedIsExported(dir: seq<string>, schemas: map<string, string>, registry: set<string>, src: Source, n: string)
    requires n in BlockNames(BlockFor(dir, schemas, registry, src))
    ensures n in OwnNames(schemas, src)
  {
    assert Owned(src.lines, schemas);
    OwnBlockNames(dir, schemas, registry, src, n);
  }

  /** A registered name is not re-exported by name again. */
  lemma RegisteredNotReexported(dir: seq<string>, schemas: map<string, string>, registry: set<string>, src: Source, n: string)
    requires n in registry
    ensures n !in BlockNames(BlockFor(dir, schemas, registry, src))
  {
    if Owned(src.lines, schemas) {
      OwnBlockNames(dir, schemas, registry, src, n);
    }
  }

  /** Every name an own file exports is re-exported by that file or by an earlier one. */
  lemma EveryNameReexported(dir: seq<string>, schemas: map<string, string>, srcs: seq<Source>, k: int, n: string)
    requires 0 <= k < |srcs| && n in OwnNames(schemas, srcs[k])
    ensures exists j :: 0 <= j <= k && n in BlockNames(Plan(dir, schemas, srcs)[j])
  {
    var j := FirstExporter(schemas, srcs, k, n);
    FirstWins(dir, schemas, srcs, j, n);
    assert n in BlockNames(Plan(dir, schemas, srcs)[j]);
  }

  /** The earliest own file that exports `n`. */
  lemma {:induction false} FirstExporter(schemas: map<string, string>, srcs: seq<Source>, k: int, n: string) returns (j: int)
    requires 0 <= k < |srcs| && n in OwnNames(schemas, srcs[k])
    ensures 0 <= j <= k && n in OwnNames(schemas, srcs[j]) && !ExportedIn(schemas, srcs[..j], n)
    decreases k
  {
    if ExportedIn(schemas, srcs[..k], n) {
      var i :| 0 <= i < k && n in OwnNames(schemas, srcs[..k][i]);
      j := FirstExporter(schemas, srcs, i, n);
    } else {
      j := k;
    }
  }

  /** The names of one block are free of repetitions, and its values and types are disjoint. */
  lemma BlockDistinct(dir: seq<string>, schemas: map<string, string>, srcs: seq<Source>, k: int)
    requires 0 <= k < |srcs|
    ensures NoDups(BlockNames(Plan(dir, schemas, srcs)[k]))
  {
    var registry := Registry(schemas, srcs[..k]);
    assert Plan(dir, schemas, srcs)[k] == BlockFor(dir, schemas, registry, srcs[k]);
    BlockForDistinct(dir, schemas, registry, srcs[k]);
  }

  /** `BlockDistinct` for the block of one file against any registry. */
  lemma BlockForDistinct(dir: seq<string>, schemas: map<string, string>, registry: set<string>, src: Source)
    ensures NoDups(BlockNames(BlockFor(dir, schemas, registry, src)))
  {
    if Owned(src.lines, schemas) {
      var (values, types) := ExportedNames(src.lines);
      ExportedNamesSpec(src.lines);
      RemoveAllNoDups(values, registry);
      RemoveAllNoDups(types, registry);
      NoDupsAppend(RemoveAll(values, registry), RemoveAll(types, registry));
    }
  }

  lemma NoDupsAppend<T>(a: seq<T>, b: seq<T>)
    requires NoDups(a) && NoDups(b) && forall x :: x in a ==> x !in b
    ensures NoDups(a + b)
  {
    forall i, j | 0 <= i < j < |a + b|
      ensures (a + b)[i] != (a + b)[j]
    {
      if i < |a| && j >= |a| {
        assert (a + b)[i] in a;
        assert (a + b)[j] in b;
      }
    }
  }

  /** The barrel is written exactly when some file contributes a block, and then beside the walked directory. */
  lemma {:induction false} WrittenIff(dir: seq<string>, plan: seq<Option<Block>>)
    ensures IndexOutput(dir, ExportLines(plan)).Some? <==> exists k :: 0 <= k < |plan| && plan[k].Some?
    ensures IndexOutput(dir, ExportLines(plan)).Some? ==> IndexOutput(dir, ExportLines(plan)).value.path == dir + ["index.ts"]
  {
    if |plan| > 0 {
      var init := plan[..|plan| - 1];
      WrittenIff(dir, init);
      if exists k :: 0 <= k < |init| && init[k].Some? {
        var k :| 0 <= k < |init| && init[k].Some?;
        assert plan[k].Some?;
      }
      if exists k :: 0 <= k < |plan| && plan[k].Some? {
        var k :| 0 <= k < |plan| && plan[k].Some?;
        if k < |init| {
          assert init[k].Some?;
        }
      }
    }
  }
}
