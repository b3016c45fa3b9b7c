/**
 * How `generateIndexForDirectory` decides whether a generated file belongs to
 * the project's own schema package: it reads the file line by line, and
 * every `// source: <schema>` marker whose schema file exists replaces the
 * verdict with whether that schema declares the package `ua.gov.diia`.
 * The schema files are given as a map from the marker's reference text to
 * the schema's text; a reference absent from the map names a file that
 * does not exist.
 */
module Ownership {
  import opened Text
  import opened Wrappers

  const MarkerPrefix: string := "// source: "
  const OwnPackage: string := "package ua.gov.diia"

  /** The characters that `.` of a regular expression does not match. */
  predicate IsLineTerminator(c: char) {
    c == '\n' || c == '\r' || c == '\U{2028}' || c == '\U{2029}'
  }

  /** The reference of a marker line, as `/^\/\/ source: (.+)$/` captures it, if the line is one. */
  function SourceRef(line: string): (r: Option<string>)
    ensures r.Some? <==>
      IsPrefix(MarkerPrefix, line) && |line| > |MarkerPrefix|
      && forall k :: |MarkerPrefix| <= k < |line| ==> !IsLineTerminator(line[k])
    ensures r.Some? ==> MarkerPrefix + r.value == line && r.value != []
  {
    if IsPrefix(MarkerPrefix, line) && |line| > |MarkerPrefix|
       && forall k :: |MarkerPrefix| <= k < |line| ==> !IsLineTerminator(line[k])
    then Some(line[|MarkerPrefix|..])
    else None
  }

  /** `line` is a marker whose schema file exists. */
  predicate Resolves(line: string, schemas: map<string, string>) {
    SourceRef(line).Some? && SourceRef(line).value in schemas
  }

  /** The verdict after reading `lines`: the last resolvable marker decides, and without one the file is foreign. */
  function Owned(lines: seq<string>, schemas: map<string, string>): bool {
    if |lines| == 0 then false
    else
      var last := lines[|lines| - 1];
      if Resolves(last, schemas) then Contains(schemas[SourceRef(last).value], OwnPackage)
      else Owned(lines[..|lines| - 1], schemas)
  }

  /**
   * The read loop: `ownPackage` starts false, and each marker line whose
   * schema exists sets it to whether the schema's text holds the package
   * declaration.
   */
  method ScanOwnership(lines: seq<string>, schemas: map<string, string>) returns (ownPackage: bool)
    ensures ownPackage == Owned(lines, schemas)
  {
    ownPackage := false;
    for i := 0 to |lines|
      invariant ownPackage == Owned(lines[..i], schemas)
    {
      assert lines[..i + 1][..i] == lines[..i];
      var matchArr := SourceRef(lines[i]);
      if matchArr.Some? {
        var protoFile := matchArr.value;
        if protoFile in schemas {
          ownPackage := Contains(schemas[protoFile], OwnPackage);
        }
      }
    }
    assert lines[..|lines|] == lines;
  }

  /** Line `k` is the last resolvable marker of `lines`. */
  predicate LastResolvable(lines: seq<string>, schemas: map<string, string>, k: int) {
    0 <= k < |lines| && Resolves(lines[k], schemas)
    && forall j :: k < j < |lines| ==> !Resolves(lines[j], schemas)
  }

  /**
   * A file is owned exactly when it has a last resolvable marker and that
   * marker's schema declares the package.
   */
  lemma {:induction false} OwnedIff(lines: seq<string>, schemas: map<string, string>)
    ensures Owned(lines, schemas) <==>
      exists k :: LastResolvable(lines, schemas, k) && Contains(schemas[SourceRef(lines[k]).value], OwnPackage)
  {
    if |lines| > 0 {
      var init := lines[..|lines| - 1];
      var n := |lines| - 1;
      if Resolves(lines[n], schemas) {
        assert LastResolvable(lines, schemas, n);
        forall k | LastResolvable(lines, schemas, k)
          ensures k == n
        {
        }
      } else {
        OwnedIff(init, schemas);
        forall k | 0 <= k < n
          ensures LastResolvable(lines, schemas, k) <==> LastResolvable(init, schemas, k)
        {
        }
        if Owned(lines, schemas) {
          var k :| LastResolvable(init, schemas, k) && Contains(schemas[SourceRef(init[k]).value], OwnPackage);
          assert LastResolvable(lines, schemas, k);
        }
      }
    }
  }
}
