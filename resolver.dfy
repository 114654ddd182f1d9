/**
 * Type resolution (types.go isScalar, isEnum, isObject, Type, TypeHRef, href):
 * a field's declared type name is a scalar, an enum or an object found by
 * searching the enclosing scopes from the innermost outward, or unresolved.
 */
module Resolver {
  import opened Wrappers
  import opened GoStrings
  import opened DocModel

  /** The fifteen built-in scalar type names. */
  const ScalarTypes: set<string> := {
    "double", "float", "int32", "int64", "uint32", "uint64", "sint32", "sint64",
    "fixed32", "fixed64", "sfixed32", "sfixed64", "bool", "string", "bytes"
  }

  /** isScalar */
  predicate IsScalar(typ: string) {
    typ in ScalarTypes
  }

  function EnumNames(enums: seq<Enum>): (r: seq<string>)
    ensures |r| == |enums|
  {
    seq(|enums|, k requires 0 <= k < |enums| => enums[k].name)
  }

  function ObjectNames(objects: seq<Object>): (r: seq<string>)
    ensures |r| == |objects|
  {
    seq(|objects|, k requires 0 <= k < |objects| => objects[k].name)
  }

  /**
   * The qualified name tried at depth `i`: the first `i` segments of the
   * enclosing path joined by dots, then a dot and the type name (or the type
   * name alone when that prefix is empty).
   */
  function Candidate(scopes: seq<string>, i: nat, typ: string): string
    requires i <= |scopes|
  {
    var scope := Join(scopes[..i], ".");
    if scope != "" then scope + "." + typ else typ
  }

  /** Tries depths i, i - 1, ..., 0; the first candidate found in the catalog is the answer. */
  function SearchFrom(names: seq<string>, scopes: seq<string>, typ: string, i: nat): (r: Option<string>)
    requires i <= |scopes|
    ensures r.Some? ==> r.value in names
    decreases i
  {
    var q := Candidate(scopes, i, typ);
    if q in names then Some(q)
    else if i == 0 then None
    else SearchFrom(names, scopes, typ, i - 1)
  }

  /** What isEnum and isObject compute against a catalog of qualified names. */
  function ScopedLookup(names: seq<string>, enclosing: string, typ: string): (r: Option<string>)
    ensures r.Some? ==> r.value in names
  {
    var scopes := Split(enclosing, '.');
    SearchFrom(names, scopes, typ, |scopes|)
  }

  /**
   * The search answers the deepest candidate present in the catalog, and
   * answers nothing exactly when no candidate at any depth is present.
   */
  lemma {:induction false} SearchFromSpec(names: seq<string>, scopes: seq<string>, typ: string, i: nat)
    requires i <= |scopes|
    ensures SearchFrom(names, scopes, typ, i).None? <==>
      forall j :: 0 <= j <= i ==> Candidate(scopes, j, typ) !in names
    ensures forall j :: (0 <= j <= i && Candidate(scopes, j, typ) in names &&
      (forall m :: j < m <= i ==> Candidate(scopes, m, typ) !in names)) ==>
        SearchFrom(names, scopes, typ, i) == Some(Candidate(scopes, j, typ))
    decreases i
  {
    if i > 0 {
      SearchFromSpec(names, scopes, typ, i - 1);
    }
  }

  /** The full enclosing path is the first scope tried: the innermost declaration wins. */
  lemma InnermostWins(names: seq<string>, enclosing: string, typ: string)
    requires enclosing != ""
    requires enclosing + "." + typ in names
    ensures ScopedLookup(names, enclosing, typ) == Some(enclosing + "." + typ)
  {
    var scopes := Split(enclosing, '.');
    assert scopes[..|scopes|] == scopes;
    SplitJoin(enclosing, '.');
    assert Candidate(scopes, |scopes|, typ) == enclosing + "." + typ;
  }

  /** The bare type name is the last candidate: a name declared at top level is always found. */
  lemma RootScopeFallback(names: seq<string>, enclosing: string, typ: string)
    requires typ in names
    ensures ScopedLookup(names, enclosing, typ).Some?
  {
    var scopes := Split(enclosing, '.');
    SearchFromSpec(names, scopes, typ, |scopes|);
    assert Candidate(scopes, 0, typ) == typ;
  }

  /** A found name is the type name itself or ends with a dot followed by the type name. */
  lemma {:induction false} FoundNameEndsWithType(names: seq<string>, scopes: seq<string>, typ: string, i: nat)
    requires i <= |scopes|
    ensures var r := SearchFrom(names, scopes, typ, i);
      r.Some? ==> r.value == typ || (|r.value| > |typ| && r.value[|r.value| - |typ| - 1..] == "." + typ)
    decreases i
  {
    if Candidate(scopes, i, typ) !in names && i > 0 {
      FoundNameEndsWithType(names, scopes, typ, i - 1);
    }
  }

  /** isEnum: the scope search over the enum catalog, with a loop per depth. */
  method IsEnum(f: Field, enums: seq<Enum>) returns (typename: string, ok: bool)
    ensures ok <==> ScopedLookup(EnumNames(enums), f.enclosing, f.typ).Some?
    ensures typename == if ok then ScopedLookup(EnumNames(enums), f.enclosing, f.typ).value else ""
  {
    var scopes := Split(f.enclosing, '.');
    ghost var names := EnumNames(enums);
    SearchFromSpec(names, scopes, f.typ, |scopes|);
    var i := |scopes|;
    while i >= 0
      invariant -1 <= i <= |scopes|
      invariant forall m :: i < m <= |scopes| ==> Candidate(scopes, m, f.typ) !in names
      decreases i + 1
    {
      var scope := Join(scopes[..i], ".");
      var qualified := f.typ;
      if scope != "" {
        qualified := scope + "." + f.typ;
      }
      assert qualified == Candidate(scopes, i, f.typ);
      for j := 0 to |enums|
        invariant forall k :: 0 <= k < j ==> enums[k].name != qualified
      {
        if qualified == enums[j].name {
          assert names[j] == qualified;
          return enums[j].name, true;
        }
      }
      assert forall k :: 0 <= k < |names| ==> names[k] == enums[k].name;
      i := i - 1;
    }
    return "", false;
  }

  /** isObject: the same scope search over the object catalog. */
  method IsObject(f: Field, objects: seq<Object>) returns (typename: string, ok: bool)
    ensures ok <==> ScopedLookup(ObjectNames(objects), f.enclosing, f.typ).Some?
    ensures typename == if ok then ScopedLookup(ObjectNames(objects), f.enclosing, f.typ).value else ""
  {
    var scopes := Split(f.enclosing, '.');
    ghost var names := ObjectNames(objects);
    SearchFromSpec(names, scopes, f.typ, |scopes|);
    var i := |scopes|;
    while i >= 0
      invariant -1 <= i <= |scopes|
      invariant forall m :: i < m <= |scopes| ==> Candidate(scopes, m, f.typ) !in names
      decreases i + 1
    {
      var scope := Join(scopes[..i], ".");
      var qualified := f.typ;
      if scope != "" {
        qualified := scope + "." + f.typ;
      }
      assert qualified == Candidate(scopes, i, f.typ);
      for j := 0 to |objects|
        invariant forall k :: 0 <= k < j ==> objects[k].name != qualified
      {
        if qualified == objects[j].name {
          assert names[j] == qualified;
          return objects[j].name, true;
        }
      }
      assert forall k :: 0 <= k < |names| ==> names[k] == objects[k].name;
      i := i - 1;
    }
    return "", false;
  }

  /** href: the type name lower-cased with its dots removed, as a Markdown anchor. */
  function Href(typename: string): string
  {
    Join(Split(ToLower(typename), '.'), "")
  }

  /** An anchor is the lower-cased name without its dots, so it has neither dots nor capitals. */
  lemma HrefSpec(typename: string)
    ensures Href(typename) == Remove(ToLower(typename), '.')
    ensures '.' !in Href(typename)
    ensures forall k :: 0 <= k < |Href(typename)| ==> !IsUpper(Href(typename)[k])
  {
    SplitJoinEmpty(ToLower(typename), '.');
    RemoveKeepsLower(ToLower(typename), '.');
  }

  lemma {:induction false} RemoveKeepsLower(s: string, c: char)
    requires forall k :: 0 <= k < |s| ==> !IsUpper(s[k])
    ensures forall k :: 0 <= k < |Remove(s, c)| ==> !IsUpper(Remove(s, c)[k])
  {
    if s != [] {
      RemoveKeepsLower(s[1..], c);
    }
  }

  /** The "array of " marker that a repeated field's rendering starts with. */
  function ArrayOf(repeat: bool, s: string): string
  {
    if repeat then "array of " + s else s
  }

  /** Type: the plain-text rendering of a field's type. */
  function Type(f: Field, enums: seq<Enum>, objects: seq<Object>): (r: string)
    ensures f.typ == "" ==> r == "(nil)"
    ensures f.typ != "" ==> (f.repeat <==> |r| >= 9 && r[..9] == "array of ")
  {
    if f.typ == "" then "(nil)"
    else
      var base :=
        if IsScalar(f.typ) then f.typ
        else match ScopedLookup(EnumNames(enums), f.enclosing, f.typ)
          case Some(n) => "enum " + n
          case None =>
            match ScopedLookup(ObjectNames(objects), f.enclosing, f.typ)
            case Some(n) => "object " + n
            case None => "(" + f.typ + ")";
      assert base[0] != 'a';
      ArrayOf(f.repeat, base)
  }

  /** TypeHRef: the Markdown rendering, which links enums and objects to their anchors. */
  function TypeHRef(f: Field, enums: seq<Enum>, objects: seq<Object>): (r: string)
    ensures f.typ == "" ==> r == "(nil)"
    ensures f.typ != "" ==> (f.repeat <==> |r| >= 9 && r[..9] == "array of ")
  {
    if f.typ == "" then "(nil)"
    else
      var base :=
        if IsScalar(f.typ) then f.typ
        else match ScopedLookup(EnumNames(enums), f.enclosing, f.typ)
          case Some(n) => "[enum " + n + "](" + ("#enum-" + Href(n)) + ")"
          case None =>
            match ScopedLookup(ObjectNames(objects), f.enclosing, f.typ)
            case Some(n) => "[object " + n + "](" + ("#object-" + Href(n)) + ")"
            case None => "(" + f.typ + ")";
      assert base[0] != 'a';
      ArrayOf(f.repeat, base)
  }

  /** The four outcomes of resolving a type name, plus the missing type. */
  datatype Resolution = NilType | Scalar(name: string) | EnumRef(name: string) | ObjectRef(name: string) | Unresolved(raw: string)

  /** The classification both renderings share: scalar, then enum, then object. */
  function Classify(f: Field, enums: seq<Enum>, objects: seq<Object>): Resolution
  {
    if f.typ == "" then NilType
    else if IsScalar(f.typ) then Scalar(f.typ)
    else
      var e := ScopedLookup(EnumNames(enums), f.enclosing, f.typ);
      var o := ScopedLookup(ObjectNames(objects), f.enclosing, f.typ);
      if e.Some? then EnumRef(e.value)
      else if o.Some? then ObjectRef(o.value)
      else Unresolved(f.typ)
  }

  /** The plain-text label of a resolution. */
  function Label(k: Resolution): string
  {
    match k
    case NilType => "(nil)"
    case Scalar(n) => n
    case EnumRef(n) => "enum " + n
    case ObjectRef(n) => "object " + n
    case Unresolved(t) => "(" + t + ")"
  }

  /**
   * Type and TypeHRef apply the same classification; they differ only in how
   * an enum or object is written: TypeHRef wraps the label in a link to the
   * anchor of the qualified name.
   */
  lemma RenderingsShareClassification(f: Field, enums: seq<Enum>, objects: seq<Object>)
    ensures var k := Classify(f, enums, objects);
      && (k.NilType? ==> Type(f, enums, objects) == "(nil)" && TypeHRef(f, enums, objects) == "(nil)")
      && (!k.NilType? ==> Type(f, enums, objects) == ArrayOf(f.repeat, Label(k)))
      && (k.EnumRef? ==> TypeHRef(f, enums, objects) == ArrayOf(f.repeat, "[enum " + k.name + "](" + ("#enum-" + Href(k.name)) + ")"))
      && (k.ObjectRef? ==> TypeHRef(f, enums, objects) == ArrayOf(f.repeat, "[object " + k.name + "](" + ("#object-" + Href(k.name)) + ")"))
      && (!k.EnumRef? && !k.ObjectRef? ==> TypeHRef(f, enums, objects) == Type(f, enums, objects))
  {
  }

  /** A scalar type is rendered as its bare name, whatever the catalogs hold. */
  lemma ScalarIgnoresCatalogs(f: Field, enums: seq<Enum>, objects: seq<Object>, enums': seq<Enum>, objects': seq<Object>)
    requires IsScalar(f.typ)
    ensures Type(f, enums, objects) == Type(f, enums', objects') == ArrayOf(f.repeat, f.typ)
    ensures TypeHRef(f, enums, objects) == TypeHRef(f, enums', objects') == ArrayOf(f.repeat, f.typ)
  {
  }

  /** An enum found in scope wins over any object of the same name. */
  lemma EnumBeforeObject(f: Field, enums: seq<Enum>, objects: seq<Object>, objects': seq<Object>)
    requires f.typ != "" && !IsScalar(f.typ)
    requires ScopedLookup(EnumNames(enums), f.enclosing, f.typ).Some?
    ensures Type(f, enums, objects) == Type(f, enums, objects')
    ensures Type(f, enums, objects) == ArrayOf(f.repeat, "enum " + ScopedLookup(EnumNames(enums), f.enclosing, f.typ).value)
  {
  }

  /** A name found in neither catalog is shown in parentheses, in both renderings. */
  lemma UnresolvedInParentheses(f: Field, enums: seq<Enum>, objects: seq<Object>)
    requires f.typ != "" && !IsScalar(f.typ)
    requires ScopedLookup(EnumNames(enums), f.enclosing, f.typ).None?
    requires ScopedLookup(ObjectNames(objects), f.enclosing, f.typ).None?
    ensures Type(f, enums, objects) == TypeHRef(f, enums, objects) == ArrayOf(f.repeat, "(" + f.typ + ")")
  {
  }
}
