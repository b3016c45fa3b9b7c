# be-genproto: barrel generation and protoc import helpers, in Dafny

This project models two parts of be-genproto, the tool that runs `protoc` over a
project's protobuf schemas and post-processes the generated TypeScript.

**`generateIndexForDirectory`** (src/utils/index.ts) writes the barrel
`index.ts` of a directory of generated code:

- It walks the directory depth-first and collects every `.ts` file except
  `index.ts` (module `SourceTree`).
- It reads each collected file line by line. The last `// source: <schema>`
  marker whose schema exists decides whether the file belongs to the own
  package `ua.gov.diia` (module `Ownership`).
- A file of the own package is re-exported by name. Its exported names are
  found by `extractExportedNames` (module `ExportNames`). Names an earlier
  own file already re-exported are skipped, and value names and type-only
  names go on separate lines.
- Any other file is re-exported whole under a namespace made from its parent
  directory and its name (module `ImportPaths`).
- Every block imports its file by the module specifier the code computes
  at src/utils/index.ts:85-88 (module `ImportPaths`).
- The blocks are joined by blank lines and written when there is at least one
  (module `IndexBuilder`).

**`CommandBuilder.iPath` and `CommandBuilder.externalImports`**
(src/command/index.ts) are modelled in module `Command`:

- `iPath` turns the found schema files into one argument string.
- `externalImports` groups the own-package schema files found among the
  dependencies by the package they come from.

Shared helpers:

- `Text`: JavaScript string operations (`includes`, `indexOf`,
  `replace` with a string pattern, `join`, `split`, `trim` and the `\s`
  white-space class).
- `Lists`: insertion-ordered sets and `filter`.
- `NodePath`: `path.extname`, `path.basename` with a suffix, `path.join` of
  two names, and `path.dirname`.
- `Wrappers`: `Option` and `Result`.

The operations that change state step by step are methods with loops proved
against specification functions:

- `ExportNames.ExtractExportedNames`
- `SourceTree.RecursivePaths`
- `Ownership.ScanOwnership`
- `IndexBuilder.GenerateIndexForDirectory` with its loop body
  `IndexBuilder.AddFile`, and `IndexBuilder.AddAll`

The properties are lemmas about those functions. The command helpers are
expressions over their inputs, so they are functions.

How inputs are represented:

- A file system tree is a sequence of `SourceTree.Entry` values, in the order
  `readdir` lists them.
- A file's text is the sequence of its lines.
- The schema files are a map from the marker's reference to the schema's text.
- Absolute paths are sequences of components.
- For `externalImports`, the files `glob` found are a sequence of path
  strings, and a map from path to text stands for `readFileSync`.

One point where the code and its description differ: the namespace of a
foreign file uses its immediate parent directory. `vendor/foo/bar.ts` becomes
`foo_bar`, not `vendor_bar`. The model follows the code, and
`ImportPaths.NamespaceUsesParent` states the behaviour.

The module specifier has a defect, listed under "## Findings": the code
replaces the first `.ts` in the relative path, which is in a directory name
when one holds `.ts`. The barrel builder uses the specifier as the code
computes it (`ImportPaths.ImportPathAsWritten`), so the modelled barrel is
the one the program writes. `ImportPaths.ImportPath` is the corrected
specifier, and `IndexBuilder.PlanImportPath` states that every block uses
the corrected one whenever the file's only `.ts` is its extension.

## Model

| member | source | states |
|---|---|---|
| ExportNames.MatchExportIff | src/utils/index.ts:16 | a line yields a value or type declaration exactly when it starts with `export`, white space, one of that kind's keywords, white space and a maximal word-character name |
| ExportNames.ExportedNamesSpec | src/utils/index.ts:12-29 | both lists are free of repetitions and disjoint; value names are exactly the names declared as values; type names are exactly those declared as types and never as values; both follow first-declaration order |
| ExportNames.ExtractExportedNames | src/utils/index.ts:11-30 | the scan loop, adding each recognised name to an insertion-ordered value set or type set and finally dropping the values from the types, returns exactly the pair `ExportedNames` specifies |
| ExportNames.ExportedNamesDeclares | src/utils/index.ts:11-30 | both lists are free of repetitions; a name is returned as a value name exactly when some line declares it as a value, and as a type name exactly when some line declares it as a type and none as a value |
| ExportNames.NoExportsNoNames | src/utils/index.ts:19-29 | text without a recognised export line yields two empty lists |
| Lists.DistinctSpec | src/utils/index.ts:12-29 | spreading an insertion-ordered `Set` keeps every element once, in order of first insertion |
| Lists.RemoveAllNoDups | src/utils/index.ts:27 | filtering out excluded names keeps a list free of repetitions |
| SourceTree.RecursivePaths | src/utils/index.ts:37-53 | the walk loop returns the specified depth-first, readdir-ordered list of collected files |
| SourceTree.WalkUnder | src/utils/index.ts:37-53 | every collected path lies strictly below the walked directory and names a `.ts` file other than `index.ts` |
| SourceTree.WalkSound | src/utils/index.ts:42-49 | every collected file is reached from the directory by following its path's components |
| SourceTree.WalkComplete | src/utils/index.ts:42-49 | every regular `.ts` file other than `index.ts` reachable through the tree is collected with its contents |
| Ownership.SourceRef | src/utils/index.ts:65-67 | a line is a marker exactly when it is `// source: ` followed by a non-empty reference with no line terminator, and the reference is the rest of the line |
| Ownership.ScanOwnership | src/utils/index.ts:63-79 | the read loop's verdict is the specified ownership of the file |
| Ownership.OwnedIff | src/utils/index.ts:63-79 | a file is own exactly when it has a last marker whose schema exists and that schema contains `package ua.gov.diia` |
| NodePath.ExtName | src/utils/index.ts:81 | `path.extname` is empty or a dot-led suffix with no further dot, and empty exactly for `..` and for names whose last dot is their first character or missing |
| NodePath.DirName | src/utils/index.ts:87 | `path.dirname` is `.` for a path with no `/` |
| NodePath.DirNameSplits | src/utils/index.ts:87 | for a relative path with a `/`, the directory name, a `/` and a last component free of `/` make up the path again |
| ImportPaths.RelativeBelow | src/utils/index.ts:86 | `path.relative` from the directory to a path below it is the part below it |
| ImportPaths.ImportPathComponents | src/utils/index.ts:85-88 | the corrected specifier splits back into the directories below the barrel and the file name with `.ts` replaced by `.js` |
| ImportPaths.DirectSpecifier | src/utils/index.ts:85-88 | a file directly in the directory is imported as `./` and its name without `.ts` and with `.js`, even when its name holds another `.ts` (such as `a.tsx.ts`) |
| ImportPaths.ImportPathAgrees | src/utils/index.ts:85-88 | when the only `.ts` in the relative path is the file's own extension, the specifier as written equals the corrected one |
| ImportPaths.ImportPathRewritesDirectory | src/utils/index.ts:86-88 | for a file in a subdirectory whose name contains `.ts`, the specifier as written rewrites the directory name, keeps the file's `.ts`, and differs from the corrected one |
| ImportPaths.NamespaceChars | src/utils/index.ts:117 | the namespace is as long as the joined name, consists of identifier characters only, and keeps exactly the characters of the joined name that are `[A-Za-z0-9_$]` |
| ImportPaths.NamespaceUsesParent | src/utils/index.ts:81-83 | a foreign file `vendor/foo/bar.ts` gets the namespace `foo_bar`, from its immediate parent directory |
| IndexBuilder.GenerateIndexForDirectory | src/utils/index.ts:33-129 | the method writes exactly the barrel of the specified plan: the rendered blocks of the walked files, in walk order, each built against the names registered before it and importing from the specifier the code computes |
| IndexBuilder.AddFile | src/utils/index.ts:55-120 | one iteration registers exactly an own file's names (none for a foreign file) and appends the rendered block of that file, which imports from the specifier as the code computes it |
| IndexBuilder.AddAll | src/utils/index.ts:99-101 | adding names one by one to the registry adds exactly the set of those names |
| IndexBuilder.OwnNamesDeclared | src/utils/index.ts:90-101 | a file registers a name exactly when it is own and one of its `export` lines declares the name, as a value or as a type |
| IndexBuilder.Parts | src/utils/index.ts:103-114 | an own file has a block line exactly when it has a unique value name or a unique type name |
| IndexBuilder.RegistryIff | src/utils/index.ts:35 | after any prefix of the files, a name is registered exactly when some own file among them exports it |
| IndexBuilder.OwnBlockNames | src/utils/index.ts:96-114 | an own file's block re-exports exactly its unregistered value names and its unregistered type names, and it is absent exactly when all its names are registered |
| IndexBuilder.BlockOrder | src/utils/index.ts:94-108 | a block lists its value names in the order the file first declares them as values, and its type names in the order it first declares them as types |
| IndexBuilder.FirstWins | src/utils/index.ts:85-120 | a foreign file gets the namespace line importing from the specifier the code computes; an own file re-exports exactly those of its value and type names that no earlier own file exports, and adds nothing when there are none |
| IndexBuilder.PlanImportPath | src/utils/index.ts:85-88 | every block imports its file by the specifier the code computes, and that is the corrected specifier when the only `.ts` in the file's path below the directory is its extension |
| IndexBuilder.NoNameTwice | src/utils/index.ts:96-101 | no name is re-exported by name by two blocks |
| IndexBuilder.EveryNameReexported | src/utils/index.ts:96-101 | every name an own file exports is re-exported by name by that file or an earlier one |
| IndexBuilder.BlockDistinct | src/utils/index.ts:96-97 | the names of one block contain no repetition, and its value and type names are disjoint |
| IndexBuilder.WrittenIff | src/utils/index.ts:123-128 | a barrel is written exactly when some file contributes a block, and it is `index.ts` in the walked directory |
| Command.IPath | src/command/index.ts:22-31 | the argument string has no white space at either end |
| Command.IPathJoins | src/command/index.ts:22-31 | for unpadded file names, the argument string is the files joined by single blanks, and empty when there is none |
| Command.IPathSplit | src/command/index.ts:22-31 | for unpadded file names with no blank in them, splitting the argument string at blanks gives the files back |
| Command.Candidates | src/command/index.ts:44-54 | when the pattern mentions `node_modules`, exactly the files through at most one `node_modules` remain; otherwise all files remain |
| Command.CandidatesInOrder | src/command/index.ts:44-54 | the filter keeps the remaining files in the order `glob` returned them: it distributes over concatenation and keeps a single file exactly when it is not dropped |
| Command.IndexOfPart | src/command/index.ts:70 | `indexOf` is the first position of the component, or -1 exactly when it is absent |
| Command.KeptParts | src/command/index.ts:73-76 | a component is kept exactly when it is not a listed subpath or ends with `.proto` |
| Command.KeptPartsInOrder | src/command/index.ts:73-76 | the kept components stay in path order for `join('/')`: the filter distributes over concatenation and keeps a single component exactly when `Kept` holds |
| Command.ImportsSuccess | src/command/index.ts:56-79 | the reduce succeeds exactly when every `.proto` file it visits can be read |
| Command.ImportsFailure | src/command/index.ts:56-79 | a failing reduce fails with the first `.proto` file that cannot be read |
| Command.ImportsContents | src/command/index.ts:56-79 | on success, a key is present exactly when some readable own-package `.proto` file has it, and its list holds those files' import paths, latest first |
| Command.ExternalImportsContents | src/command/index.ts:44-79 | on success, `externalImports` holds a key exactly when some accepted candidate has it, and under each key the import paths of its accepted candidates in the reverse of `glob`'s order |
| Command.ExternalImportsSuccess | src/command/index.ts:44-79 | `externalImports` succeeds exactly when every schema file among the filtered files can be read |
| Command.JavaSingleKey | src/command/index.ts:71 | on the Java platform every key is `@diia-inhouse/types` |
| Command.KeyAfterNodeModules | src/command/index.ts:69-76 | on the TypeScript platform, a file below `node_modules` is keyed by the two components after the first `node_modules`, and its import path starts after it |
| Command.KeyWithoutNodeModules | src/command/index.ts:69-76 | a path with no `node_modules` component is keyed by its first two components and keeps all kept components |
| Command.KeyPastTheEnd | src/command/index.ts:71 | when the first `node_modules` is the next to last component, the key ends in `/undefined` |
| Command.FileNameComponents | src/command/index.ts:73-76 | a non-empty import path splits back at `/` into the kept components |

## Left out

- The file system, `glob`, `readline` streams and `async`/`await` are not
  modelled as I/O. The directory tree, the lines of each file, the schema
  texts, the found files and their contents are inputs, and the barrel is
  returned instead of written.
- Read errors are not modelled: `readdir` and `readFile` failing inside
  `generateIndexForDirectory`, and `glob` rejecting.
- Failure in `externalImports` is modelled: a `.proto` file that cannot be
  read makes it fail.
- `path.resolve` and the working directory are not modelled:
  - the walked directory is taken as already resolved, and paths are
    sequences of components;
  - schema files are looked up by the reference text of their marker, not
    by the resolved path below `protoRoot`.
- `ExportNames.ExtractExportedNames` takes the text as lines, and the pattern
  is matched within one line. `\s+` in the source's regular expression can
  also cross a line break (`export` at the end of one line and `const X` on
  the next); that match is not modelled. Line breaks are also taken to be
  the same for the `m` flag's `^` and for `readline`. `readline` does not
  break at U+2028 and U+2029, while `^` does.
- `Buffer.includes` on a schema's bytes is modelled as a search in its text.
- The order of keys in the object `externalImports` returns is not
  modelled, because the result is a map. The order within each key's list
  is modelled.
- `if (!files) return {}` in `externalImports` is not modelled: `glob`
  always resolves to an array, so this branch never runs.
- `NodePath.DirName` is exact only for paths with no trailing `/` and no
  empty component. Those are the only paths `path.relative` produces here.
- ImportPaths.Namespace: names are taken to hold characters of the Basic
  Multilingual Plane only. Strings here are sequences of Unicode scalar
  values, where JavaScript counts UTF-16 code units, and the two differ for
  any other character. The namespace pass `/[^\w$]/g` has no `u` flag, so
  the code writes `__` for such a character where the model writes `_`.
- `protocCommand` and the platform-specific builders are not part of this
  model. The same holds for the CLI (src/genproto.ts) and the logger.

## Findings

| source | as written | input that shows it | evidently intended | confidence | as-written member | corrected member |
|---|---|---|---|---|---|---|
| src/utils/index.ts:86 | `path.relative(dir, recPaths).replace('.ts', '.js')` replaces the first `.ts` in the relative path, wherever it is; only files in subdirectories use the result, because files directly in the directory take the `relativeDir === '.'` branch | a file `v1.tsx/user.ts` below the barrel gets the specifier `./v1.jsx/user.ts` instead of `./v1.tsx/user.js` | replace only the file's own `.ts` extension | not executed | ImportPaths.ImportPathRewritesDirectory | ImportPaths.ImportPathComponents |
