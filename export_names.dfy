/**
 * `extractExportedNames` of src/utils/index.ts: the lexical scan that finds
 * the names a generated TypeScript file exports, split into value names
 * (`const`, `let`, `var`, `function`, `enum`, `class`) and type-only names
 * (`interface`, `type`). The file's text is given as its lines; the regular
 * expression is replaced by an explicit matcher for one line.
 */
module ExportNames {
  import opened Text
  import opened Lists
  import opened Wrappers

  /** One recognised declaration: the name it exports and whether it is a value or a type only. */
  datatype Decl = ValueDecl(name: string) | TypeDecl(name: string)

  /** The keywords of the value alternative and of the type alternative of the pattern. */
  const ValueKeywords: seq<string> := ["const", "let", "var", "function", "enum", "class"]
  const TypeKeywords: seq<string> := ["interface", "type"]

  /** The length of the white space that starts `s` (what `\s+` consumes). */
  function SpaceRun(s: string): (n: nat)
    ensures n <= |s|
    ensures forall k :: 0 <= k < n ==> IsJsSpace(s[k])
    ensures n == |s| || !IsJsSpace(s[n])
  {
    if |s| > 0 && IsJsSpace(s[0]) then 1 + SpaceRun(s[1..]) else 0
  }

  /** The length of the word characters that start `s` (what a greedy `\w+` consumes). */
  function WordRun(s: string): (n: nat)
    ensures n <= |s|
    ensures forall k :: 0 <= k < n ==> IsWordChar(s[k])
    ensures n == |s| || !IsWordChar(s[n])
  {
    if |s| > 0 && IsWordChar(s[0]) then 1 + WordRun(s[1..]) else 0
  }

  /** `s` starts with the keyword `kw` followed by white space. */
  predicate KeywordAt(s: string, kw: string) {
    IsPrefix(kw, s) && |s| > |kw| && IsJsSpace(s[|kw|])
  }

  /** The first keyword of `kws` that starts `s` and is followed by white space. */
  function KeywordIn(s: string, kws: seq<string>): (r: Option<string>)
    ensures r.Some? ==> r.value in kws && KeywordAt(s, r.value)
    ensures r.None? ==> forall kw :: kw in kws ==> !KeywordAt(s, kw)
  {
    if |kws| == 0 then None
    else if KeywordAt(s, kws[0]) then Some(kws[0])
    else KeywordIn(s, kws[1..])
  }

  /** The identifier after the white space that follows a keyword (`\s+(\w+)`), if there is one. */
  function NameAfter(s: string): (r: Option<string>)
  {
    var w := SpaceRun(s);
    var n := WordRun(s[w..]);
    if w == 0 || n == 0 then None else Some(s[w..][..n])
  }

  /**
   * The declaration that a line exports, matched as the pattern
   * `^export\s+(?:(const|let|var|function|enum|class)\s+(\w+)|(interface|type)\s+(\w+))`
   * matches at the start of that line.
   */
  function MatchExport(line: string): (r: Option<Decl>)
  {
    if !IsPrefix("export", line) then None
    else
      var a := line[6..];
      var w := SpaceRun(a);
      if w == 0 then None else MatchDecl(a[w..], ValueKeywords, TypeKeywords)
  }

  /**
   * The declaration that follows `export` and its white space: a keyword of
   * the value alternative `vks` or, failing that, of the type alternative
   * `tks`, white space and a name.
   */
  function MatchDecl(b: string, vks: seq<string>, tks: seq<string>): (r: Option<Decl>)
  {
    match KeywordIn(b, vks)
    case Some(kw) =>
      (match NameAfter(b[|kw|..])
       case Some(n) => Some(ValueDecl(n))
       case None => None)
    case None =>
      match KeywordIn(b, tks)
      case Some(kw) =>
        (match NameAfter(b[|kw|..])
         case Some(n) => Some(TypeDecl(n))
         case None => None)
      case None => None
  }

  function KeywordsOf(d: Decl, vks: seq<string>, tks: seq<string>): seq<string> {
    if d.ValueDecl? then vks else tks
  }

  /**
   * The shape of a declaration by positions: the keyword `kw` starts `b`,
   * white space follows up to `j`, then `name`, a maximal run of word
   * characters.
   */
  ghost predicate DeclShapedAt(b: string, kw: string, name: string, j: int) {
    && |kw| < j && j + |name| <= |b|
    && b[..|kw|] == kw
    && (forall k :: |kw| <= k < j ==> IsJsSpace(b[k]))
    && b[j..j + |name|] == name
    && name != [] && (forall k :: 0 <= k < |name| ==> IsWordChar(name[k]))
    && (j + |name| == |b| || !IsWordChar(b[j + |name|]))
  }

  /** The shape of an export line: `export` at column 0, white space up to `i`, then a declaration. */
  ghost predicate ShapedAt(line: string, kw: string, name: string, i: int, j: int) {
    && IsPrefix("export", line)
    && 6 < i <= |line|
    && (forall k :: 6 <= k < i ==> IsJsSpace(line[k]))
    && DeclShapedAt(line[i..], kw, name, j)
  }

  /** `line` has the shape of the pattern with one of `d`'s keywords and `d`'s name. */
  ghost predicate Recognises(line: string, d: Decl) {
    exists kw, i, j :: kw in KeywordsOf(d, ValueKeywords, TypeKeywords) && ShapedAt(line, kw, d.name, i, j)
  }

  /** A keyword of the pattern: a non-empty run of lower-case letters. */
  predicate Keyword(kw: string) {
    kw != [] && forall k :: 0 <= k < |kw| ==> 'a' <= kw[k] <= 'z'
  }

  /** Both alternatives list keywords only, and they share none. */
  predicate KeywordsOk(vks: seq<string>, tks: seq<string>) {
    && (forall kw :: kw in vks ==> Keyword(kw))
    && (forall kw :: kw in tks ==> Keyword(kw))
    && (forall kw :: kw in vks ==> kw !in tks)
  }

  lemma ValueKeywordsOk()
    ensures forall kw :: kw in ValueKeywords ==> Keyword(kw)
  {
    assert Keyword("const") && Keyword("let") && Keyword("var");
    assert Keyword("function") && Keyword("enum") && Keyword("class");
  }

  lemma TypeKeywordsOk()
    ensures forall kw :: kw in TypeKeywords ==> Keyword(kw)
  {
    assert Keyword("interface") && Keyword("type");
  }

  lemma PatternKeywordsOk()
    ensures KeywordsOk(ValueKeywords, TypeKeywords)
  {
    ValueKeywordsOk();
    TypeKeywordsOk();
  }

  /** At most one keyword followed by white space can start a string. */
  lemma KeywordAtUnique(s: string, k1: string, k2: string)
    requires Keyword(k1) && Keyword(k2)
    requires KeywordAt(s, k1) && KeywordAt(s, k2)
    ensures k1 == k2
  {
  }

  lemma SpaceRunIs(s: string, n: nat)
    requires n < |s| && !IsJsSpace(s[n]) && forall k :: 0 <= k < n ==> IsJsSpace(s[k])
    ensures SpaceRun(s) == n
  {
    if n > 0 {
      SpaceRunIs(s[1..], n - 1);
    }
  }

  lemma WordRunIs(s: string, n: nat)
    requires n <= |s| && (n == |s| || !IsWordChar(s[n])) && forall k :: 0 <= k < n ==> IsWordChar(s[k])
    ensures WordRun(s) == n
  {
    if n > 0 {
      WordRunIs(s[1..], n - 1);
    }
  }

  lemma MatchDeclSound(b: string, vks: seq<string>, tks: seq<string>, d: Decl) returns (kw: string, j: int)
    requires MatchDecl(b, vks, tks) == Some(d)
    ensures kw in KeywordsOf(d, vks, tks) && DeclShapedAt(b, kw, d.name, j)
  {
    kw := KeywordIn(b, KeywordsOf(d, vks, tks)).value;
    var c := b[|kw|..];
    var w := SpaceRun(c);
    j := |kw| + w;
    assert b[j..] == c[w..];
  }

  lemma NameAfterShaped(b: string, kw: string, name: string, j: int)
    requires DeclShapedAt(b, kw, name, j)
    ensures NameAfter(b[|kw|..]) == Some(name)
  {
    var m := j - |kw|;
    var c := b[|kw|..];
    var e := b[j..];
    assert c[m..] == e;
    assert e[..|name|] == name by {
      assert b[j..j + |name|] == e[..|name|];
    }
    forall k | 0 <= k < m
      ensures IsJsSpace(c[k])
    {
      assert c[k] == b[|kw| + k];
    }
    assert !IsJsSpace(c[m]) by {
      assert c[m] == e[0] == name[0];
      assert IsWordChar(name[0]);
    }
    SpaceRunIs(c, m);
    forall k | 0 <= k < |name|
      ensures IsWordChar(e[k])
    {
      assert e[k] == name[k];
    }
    assert |name| == |e| || !IsWordChar(e[|name|]) by {
      if |name| < |e| {
        assert e[|name|] == b[j + |name|];
      }
    }
    WordRunIs(e, |name|);
  }

  lemma MatchDeclComplete(b: string, vks: seq<string>, tks: seq<string>, kw: string, d: Decl, j: int)
    requires KeywordsOk(vks, tks)
    requires kw in KeywordsOf(d, vks, tks) && DeclShapedAt(b, kw, d.name, j)
    ensures MatchDecl(b, vks, tks) == Some(d)
  {
    assert Keyword(kw);
    assert KeywordAt(b, kw);
    NameAfterShaped(b, kw, d.name, j);
    var v := KeywordIn(b, vks);
    if v.Some? {
      KeywordAtUnique(b, v.value, kw);
    } else {
      var t := KeywordIn(b, tks);
      KeywordAtUnique(b, t.value, kw);
    }
  }

  lemma MatchExportSound(line: string, d: Decl)
    requires MatchExport(line) == Some(d)
    ensures Recognises(line, d)
  {
    var a := line[6..];
    var w := SpaceRun(a);
    assert w > 0 && IsPrefix("export", line);
    var kw, j := MatchDeclSound(a[w..], ValueKeywords, TypeKeywords, d);
    ExportThenDecl(line, w, kw, d.name, j);
  }

  /** `export`, the white space that follows it, then a declaration: the shape of an export line. */
  lemma ExportThenDecl(line: string, w: nat, kw: string, name: string, j: int)
    requires IsPrefix("export", line) && 0 < w <= |line| - 6
    requires var a := line[6..]; forall k :: 0 <= k < w ==> IsJsSpace(a[k])
    requires DeclShapedAt(line[6..][w..], kw, name, j)
    ensures ShapedAt(line, kw, name, 6 + w, j)
  {
    var a := line[6..];
    assert a[w..] == line[6 + w..];
    forall k | 6 <= k < 6 + w
      ensures IsJsSpace(line[k])
    {
      assert line[k] == a[k - 6];
    }
  }

  lemma MatchExportComplete(line: string, d: Decl, kw: string, i: int, j: int)
    requires kw in KeywordsOf(d, ValueKeywords, TypeKeywords) && ShapedAt(line, kw, d.name, i, j)
    ensures MatchExport(line) == Some(d)
  {
    PatternKeywordsOk();
    var a := line[6..];
    assert forall k :: 0 <= k < i - 6 ==> a[k] == line[6 + k];
    assert Keyword(kw);
    assert a[i - 6] == line[i] == kw[0];
    SpaceRunIs(a, i - 6);
    assert a[i - 6..] == line[i..];
    MatchDeclComplete(line[i..], ValueKeywords, TypeKeywords, kw, d, j);
  }

  /**
   * A line is recognised as exporting `d` exactly when it has the shape of
   * the pattern with one of `d`'s keywords and `d`'s name.
   */
  lemma MatchExportIff(line: string, d: Decl)
    ensures MatchExport(line) == Some(d) <==> Recognises(line, d)
  {
    if MatchExport(line) == Some(d) {
      MatchExportSound(line, d);
    }
    if Recognises(line, d) {
      var kw, i, j :| kw in KeywordsOf(d, ValueKeywords, TypeKeywords) && ShapedAt(line, kw, d.name, i, j);
      MatchExportComplete(line, d, kw, i, j);
    }
  }

  /** What each line of `lines` exports, line by line. */
  function Decls(lines: seq<string>): (ms: seq<Option<Decl>>)
    ensures |ms| == |lines|
    ensures forall k :: 0 <= k < |lines| ==> ms[k] == MatchExport(lines[k])
  {
    seq(|lines|, k requires 0 <= k < |lines| => MatchExport(lines[k]))
  }

  /** Some line of `lines` exports `d`. */
  predicate Declares(lines: seq<string>, d: Decl) {
    Some(d) in Decls(lines)
  }

  /** The value names among `ms`, in order, repetitions included. */
  function ValueNames(ms: seq<Option<Decl>>): seq<string> {
    if |ms| == 0 then []
    else
      var init := ValueNames(ms[..|ms| - 1]);
      match ms[|ms| - 1]
      case Some(ValueDecl(n)) => init + [n]
      case _ => init
  }

  /** The type-only names among `ms`, in order, repetitions included. */
  function TypeNames(ms: seq<Option<Decl>>): seq<string> {
    if |ms| == 0 then []
    else
      var init := TypeNames(ms[..|ms| - 1]);
      match ms[|ms| - 1]
      case Some(TypeDecl(n)) => init + [n]
      case _ => init
  }

  /** One more element adds its name to the names of its kind and leaves the other kind's names as they were. */
  lemma NamesStep(ms: seq<Option<Decl>>, i: int)
    requires 0 <= i < |ms|
    ensures ValueNames(ms[..i + 1])
      == ValueNames(ms[..i]) + (if ms[i].Some? && ms[i].value.ValueDecl? then [ms[i].value.name] else [])
    ensures TypeNames(ms[..i + 1])
      == TypeNames(ms[..i]) + (if ms[i].Some? && ms[i].value.TypeDecl? then [ms[i].value.name] else [])
  {
    assert ms[..i + 1][..i] == ms[..i];
  }

  /** One more element adds its name to the distinct names of its kind when they lack it, and changes nothing else. */
  lemma DistinctStep(ms: seq<Option<Decl>>, i: int)
    requires 0 <= i < |ms|
    ensures var values := Distinct(ValueNames(ms[..i]));
      Distinct(ValueNames(ms[..i + 1]))
        == if ms[i].Some? && ms[i].value.ValueDecl? && ms[i].value.name !in values then values + [ms[i].value.name] else values
    ensures var types := Distinct(TypeNames(ms[..i]));
      Distinct(TypeNames(ms[..i + 1]))
        == if ms[i].Some? && ms[i].value.TypeDecl? && ms[i].value.name !in types then types + [ms[i].value.name] else types
  {
    NamesStep(ms, i);
    var values, types := ValueNames(ms[..i]), TypeNames(ms[..i]);
    if ms[i].Some? && ms[i].value.ValueDecl? {
      assert TypeNames(ms[..i + 1]) == types + [] == types;
      DistinctSnoc(values, ms[i].value.name);
    } else if ms[i].Some? {
      assert ValueNames(ms[..i + 1]) == values + [] == values;
      DistinctSnoc(types, ms[i].value.name);
    } else {
      assert ValueNames(ms[..i + 1]) == values + [] == values;
      assert TypeNames(ms[..i + 1]) == types + [] == types;
    }
  }

  /** The names of the value declarations of `lines`, line by line. */
  function ValueDecls(lines: seq<string>): seq<string> {
    ValueNames(Decls(lines))
  }

  /** The names of the type-only declarations of `lines`, line by line. */
  function TypeDecls(lines: seq<string>): seq<string> {
    TypeNames(Decls(lines))
  }

  /** A name is listed among the value (type) names exactly when some element declares it as a value (type). */
  lemma {:induction false} NamesMembers(ms: seq<Option<Decl>>, n: string)
    ensures n in ValueNames(ms) <==> Some(ValueDecl(n)) in ms
    ensures n in TypeNames(ms) <==> Some(TypeDecl(n)) in ms
  {
    if |ms| > 0 {
      var init := ms[..|ms| - 1];
      NamesMembers(init, n);
      assert ms == init + [ms[|ms| - 1]];
    }
  }

  /**
   * What `extractExportedNames` returns for `lines`: the value names in
   * order of first declaration, and the type names in order of first
   * declaration without those that are also values.
   */
  function ExportedNames(lines: seq<string>): (seq<string>, seq<string>) {
    var values := Distinct(ValueDecls(lines));
    (values, RemoveAll(Distinct(TypeDecls(lines)), set n | n in values))
  }

  /**
   * Both lists are free of repetitions and disjoint; a name is a value name
   * exactly when some line declares it as a value, and a type name exactly
   * when some line declares it as a type and none as a value; each list is
   * in the order in which the names are first declared.
   */
  lemma ExportedNamesSpec(lines: seq<string>)
    ensures var (values, types) := ExportedNames(lines);
      && NoDups(values) && NoDups(types)
      && (forall n :: n in values <==> n in ValueDecls(lines))
      && (forall n :: n in types <==> n in TypeDecls(lines) && n !in ValueDecls(lines))
      && (forall n :: n in values ==> n !in types)
      && InFirstOccurrenceOrder(values, ValueDecls(lines))
      && InFirstOccurrenceOrder(types, TypeDecls(lines))
  {
    DistinctSpec(ValueDecls(lines));
    DistinctSpec(TypeDecls(lines));
    var values := Distinct(ValueDecls(lines));
    RemoveAllNoDups(Distinct(TypeDecls(lines)), set n | n in values);
    RemoveAllKeepsOrder(Distinct(TypeDecls(lines)), TypeDecls(lines), set n | n in values);
  }

  /** Text with no recognised export line yields two empty lists. */
  lemma NoExportsNoNames(lines: seq<string>)
    requires forall k :: 0 <= k < |lines| ==> MatchExport(lines[k]) == None
    ensures ExportedNames(lines) == ([], [])
  {
    NoDeclsNoNames(Decls(lines));
  }

  lemma {:induction false} NoDeclsNoNames(ms: seq<Option<Decl>>)
    requires forall k :: 0 <= k < |ms| ==> ms[k] == None
    ensures ValueNames(ms) == [] && TypeNames(ms) == []
  {
    if |ms| > 0 {
      NoDeclsNoNames(ms[..|ms| - 1]);
    }
  }

  /**
   * `extractExportedNames(content)`: one pass over the lines, adding each
   * recognised name to an insertion-ordered value set or type set, then
   * dropping from the type names those that are also values.
   */
  method ExtractExportedNames(lines: seq<string>) returns (valueNames: seq<string>, typeNames: seq<string>)
    ensures (valueNames, typeNames) == ExportedNames(lines)
  {
    ghost var ms := Decls(lines);
    var valueSet: seq<string> := [];
    var typeSet: seq<string> := [];
    var i := 0;
    while i < |lines|
      invariant 0 <= i <= |lines|
      invariant valueSet == Distinct(ValueNames(ms[..i]))
      invariant typeSet == Distinct(TypeNames(ms[..i]))
    {
      var d := MatchExport(lines[i]);
      assert d == ms[i];
      DistinctStep(ms, i);
      match d {
        case Some(ValueDecl(n)) =>
          if n !in valueSet {
            valueSet := valueSet + [n];
          }
        case Some(TypeDecl(n)) =>
          if n !in typeSet {
            typeSet := typeSet + [n];
          }
        case None =>
      }
      i := i + 1;
    }
    assert ms[..i] == ms;
    valueNames := valueSet;
    typeNames := RemoveAll(typeSet, set n | n in valueSet);
  }

  /** `ExportedNamesSpec` in terms of the declarations of `lines`. */
  lemma ExportedNamesDeclares(lines: seq<string>)
    ensures var (values, types) := ExportedNames(lines);
      && NoDups(values) && NoDups(types)
      && (forall n :: n in values <==> Declares(lines, ValueDecl(n)))
      && (forall n :: n in types <==> Declares(lines, TypeDecl(n)) && !Declares(lines, ValueDecl(n)))
  {
    ExportedNamesSpec(lines);
    forall n
      ensures n in ValueDecls(lines) <==> Declares(lines, ValueDecl(n))
      ensures n in TypeDecls(lines) <==> Declares(lines, TypeDecl(n))
    {
      NamesMembers(Decls(lines), n);
    }
  }
}
