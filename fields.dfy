/**
 * Field extraction (types.go composeFields, composeEnumFields): one record per
 * field declared directly in a message (or constant declared in an enum), in
 * declaration order. Nested declarations are not fields.
 */
module FieldExtraction {
  import opened ProtoTree
  import opened DocModel
  import opened Comments

  /** The record composeFields makes of one message element: one field, or nothing. */
  function FieldOf(x: Visitee, enclosing: string): (r: seq<Field>)
    ensures |r| == if x.FieldDecl? then 1 else 0
  {
    if x.FieldDecl? then
      [Field(ComposeHeadAndInlineComment(x.comments, x.inlineComment, " "), x.fieldName, x.fieldType, x.isRepeated, enclosing)]
    else []
  }

  /** The fields of a message body, in order. */
  function Fields(body: seq<Visitee>, enclosing: string): (r: seq<Field>)
    ensures |r| <= |body|
    ensures forall k :: 0 <= k < |r| ==> r[k].enclosing == enclosing
  {
    if body == [] then [] else Fields(body[..|body| - 1], enclosing) + FieldOf(body[|body| - 1], enclosing)
  }

  /** composeFields: appends a record for each field element of the body. */
  method ComposeFields(body: seq<Visitee>, enclosing: string) returns (fs: seq<Field>)
    ensures fs == Fields(body, enclosing)
  {
    fs := [];
    for i := 0 to |body|
      invariant fs == Fields(body[..i], enclosing)
    {
      assert body[..i + 1][..i] == body[..i];
      var x := body[i];
      if x.FieldDecl? {
        var f := Field(ComposeHeadAndInlineComment(x.comments, x.inlineComment, " "), x.fieldName, x.fieldType, x.isRepeated, enclosing);
        fs := fs + [f];
      }
    }
    assert body[..|body|] == body;
  }

  /** Field extraction distributes over concatenation of bodies, so declaration order is kept. */
  lemma {:induction false} FieldsAppend(a: seq<Visitee>, b: seq<Visitee>, enclosing: string)
    ensures Fields(a + b, enclosing) == Fields(a, enclosing) + Fields(b, enclosing)
    decreases |b|
  {
    if b == [] {
      assert a + b == a;
    } else {
      assert (a + b)[..|a + b| - 1] == a + b[..|b| - 1];
      FieldsAppend(a, b[..|b| - 1], enclosing);
    }
  }

  /** Nested declarations and other elements between fields contribute no fields. */
  lemma NonFieldsIgnored(a: seq<Visitee>, x: Visitee, b: seq<Visitee>, enclosing: string)
    requires !x.FieldDecl?
    ensures Fields(a + [x] + b, enclosing) == Fields(a, enclosing) + Fields(b, enclosing)
  {
    assert [x][..0] == [];
    assert Fields([x], enclosing) == [];
    FieldsAppend(a, [x], enclosing);
    FieldsAppend(a + [x], b, enclosing);
  }

  /** No element of the body is a field declaration. */
  predicate DeclaresNoField(body: seq<Visitee>)
  {
    forall j :: 0 <= j < |body| ==> !body[j].FieldDecl?
  }

  /** A message has no fields exactly when its body declares none. */
  lemma {:induction false} FieldsEmpty(body: seq<Visitee>, enclosing: string)
    ensures Fields(body, enclosing) == [] <==> DeclaresNoField(body)
  {
    if body != [] {
      var n := |body| - 1;
      FieldsEmpty(body[..n], enclosing);
      assert forall j :: 0 <= j < n ==> body[..n][j] == body[j];
    }
  }

  /** The constant record composeEnumFields makes of one enum element. */
  function EnumFieldOf(x: EnumElement, enclosing: string): (r: seq<EnumField>)
    ensures |r| == if x.EnumFieldElement? then 1 else 0
  {
    if x.EnumFieldElement? then
      [EnumField(ComposeHeadAndInlineComment(x.comments, x.inlineComment, " "), x.ident, x.number, enclosing)]
    else []
  }

  /** The constants of an enum body, in order. */
  function EnumFields(body: seq<EnumElement>, enclosing: string): (r: seq<EnumField>)
    ensures |r| <= |body|
    ensures forall k :: 0 <= k < |r| ==> r[k].enclosing == enclosing
  {
    if body == [] then [] else EnumFields(body[..|body| - 1], enclosing) + EnumFieldOf(body[|body| - 1], enclosing)
  }

  /** composeEnumFields: appends a record for each constant of the enum body. */
  method ComposeEnumFields(body: seq<EnumElement>, enclosing: string) returns (fs: seq<EnumField>)
    ensures fs == EnumFields(body, enclosing)
  {
    fs := [];
    for i := 0 to |body|
      invariant fs == EnumFields(body[..i], enclosing)
    {
      assert body[..i + 1][..i] == body[..i];
      var x := body[i];
      if x.EnumFieldElement? {
        var f := EnumField(ComposeHeadAndInlineComment(x.comments, x.inlineComment, " "), x.ident, x.number, enclosing);
        fs := fs + [f];
      }
    }
    assert body[..|body|] == body;
  }

  /** Constant extraction distributes over concatenation of enum bodies. */
  lemma {:induction false} EnumFieldsAppend(a: seq<EnumElement>, b: seq<EnumElement>, enclosing: string)
    ensures EnumFields(a + b, enclosing) == EnumFields(a, enclosing) + EnumFields(b, enclosing)
    decreases |b|
  {
    if b == [] {
      assert a + b == a;
    } else {
      assert (a + b)[..|a + b| - 1] == a + b[..|b| - 1];
      EnumFieldsAppend(a, b[..|b| - 1], enclosing);
    }
  }
}
