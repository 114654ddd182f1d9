/**
 * Object and enum collection (types.go addObjectsAndEnums, composeObject,
 * composeEnum): a depth-first walk over the file that lists every enum and
 * every message under its dotted qualified name, leaving out the messages
 * used directly as rpc payloads together with everything declared inside them.
 */
module Catalog {
  import opened GoStrings
  import opened ProtoTree
  import opened DocModel
  import opened Comments
  import opened FieldExtraction

  /** The payload type names of a list of endpoints. */
  function PayloadTypes(infs: seq<Endpoint>): set<string>
  {
    if infs == [] then {}
    else PayloadTypes(infs[..|infs| - 1]) + {infs[|infs| - 1].req.typ, infs[|infs| - 1].res.typ}
  }

  /** The excludes set of addObjectsAndEnums: every request and response type of every endpoint. */
  function Excludes(services: seq<Service>): set<string>
  {
    if services == [] then {}
    else Excludes(services[..|services| - 1]) + PayloadTypes(services[|services| - 1].infs)
  }

  /** A name is a payload type exactly when some endpoint uses it as request or response. */
  lemma {:induction false} PayloadTypesSpec(infs: seq<Endpoint>, t: string)
    ensures t in PayloadTypes(infs) <==> exists k :: 0 <= k < |infs| && (infs[k].req.typ == t || infs[k].res.typ == t)
  {
    if infs != [] {
      var n := |infs| - 1;
      PayloadTypesSpec(infs[..n], t);
      assert forall k :: 0 <= k < n ==> infs[..n][k] == infs[k];
    }
  }

  /** A name is excluded exactly when some endpoint of some service uses it as request or response. */
  lemma {:induction false} ExcludesSpec(services: seq<Service>, t: string)
    ensures t in Excludes(services) <==>
      exists i, k :: 0 <= i < |services| && 0 <= k < |services[i].infs| &&
        (services[i].infs[k].req.typ == t || services[i].infs[k].res.typ == t)
  {
    if services != [] {
      var n := |services| - 1;
      ExcludesSpec(services[..n], t);
      PayloadTypesSpec(services[n].infs, t);
      assert forall i :: 0 <= i < n ==> services[..n][i] == services[i];
    }
  }

  /** The first loop of addObjectsAndEnums: marks both payload types of every endpoint. */
  method CollectExcludes(services: seq<Service>) returns (ex: set<string>)
    ensures ex == Excludes(services)
  {
    ex := {};
    for i := 0 to |services|
      invariant ex == Excludes(services[..i])
    {
      assert services[..i + 1][..i] == services[..i];
      var infs := services[i].infs;
      var seen := ex;
      for k := 0 to |infs|
        invariant ex == seen + PayloadTypes(infs[..k])
      {
        assert infs[..k + 1][..k] == infs[..k];
        ex := ex + {infs[k].req.typ, infs[k].res.typ};
      }
      assert infs[..|infs|] == infs;
    }
    assert services[..|services|] == services;
  }

  /**
   * composeObject: the enclosing name carries a leading dot, which is dropped;
   * the object is named by its scope and its own name, and its fields are
   * enclosed by that qualified name.
   */
  function ComposeObject(m: Visitee, enclosingName: string): (o: Object)
    requires m.MessageDecl? && enclosingName != ""
    ensures o.name == enclosingName[1..] + m.messageName
    ensures |o.attrs| <= |m.messageBody|
    ensures forall k :: 0 <= k < |o.attrs| ==> o.attrs[k].enclosing == o.name
  {
    var name := enclosingName[1..] + m.messageName;
    Object(HeadComment(m.comments), name, Fields(m.messageBody, name))
  }

  /** composeEnum: like composeObject, for an enum and its constants. */
  function ComposeEnum(e: Visitee, enclosingName: string): (r: Enum)
    requires e.EnumDecl? && enclosingName != ""
    ensures r.name == enclosingName[1..] + e.enumName
    ensures |r.constants| <= |e.enumBody|
    ensures forall k :: 0 <= k < |r.constants| ==> r.constants[k].enclosing == r.name
  {
    var name := enclosingName[1..] + e.enumName;
    Enum(HeadComment(e.comments), name, EnumFields(e.enumBody, name))
  }

  /** composeObject as a procedure: the head comment and the fields are collected by their loops. */
  method BuildObject(m: Visitee, enclosingName: string) returns (o: Object)
    requires m.MessageDecl? && enclosingName != ""
    ensures o == ComposeObject(m, enclosingName)
  {
    var scope := enclosingName[1..];
    var comment := ComposeHeadComment(m.comments);
    var name := scope + m.messageName;
    var attrs := ComposeFields(m.messageBody, name);
    o := Object(comment, name, attrs);
  }

  /** composeEnum as a procedure: the head comment and the constants are collected by their loops. */
  method BuildEnum(e: Visitee, enclosingName: string) returns (r: Enum)
    requires e.EnumDecl? && enclosingName != ""
    ensures r == ComposeEnum(e, enclosingName)
  {
    var scope := enclosingName[1..];
    var comment := ComposeHeadComment(e.comments);
    var name := scope + e.enumName;
    var constants := ComposeEnumFields(e.enumBody, name);
    r := Enum(comment, name, constants);
  }

  /** What a walk appends: objects and enums, each in the order met. */
  datatype Listing = Listing(objects: seq<Object>, enums: seq<Enum>)

  function Concat(a: Listing, b: Listing): Listing
  {
    Listing(a.objects + b.objects, a.enums + b.enums)
  }

  /** What extractMessagesAndEnums appends for a body, element after element. */
  function Walk(body: seq<Visitee>, enclosingName: string, ex: set<string>): Listing
    requires enclosingName != ""
    decreases body
  {
    if body == [] then Listing([], [])
    else Concat(Walk(body[..|body| - 1], enclosingName, ex), WalkItem(body[|body| - 1], enclosingName, ex))
  }

  /**
   * What one element contributes: an enum is listed; a message is listed and
   * then its body is walked one scope deeper, unless its qualified name is
   * excluded, in which case neither it nor anything inside it is listed.
   */
  function WalkItem(x: Visitee, enclosingName: string, ex: set<string>): Listing
    requires enclosingName != ""
    decreases x
  {
    if x.EnumDecl? then Listing([], [ComposeEnum(x, enclosingName)])
    else if x.MessageDecl? then
      var o := ComposeObject(x, enclosingName);
      if o.name in ex then Listing([], [])
      else Concat(Listing([o], []), Walk(x.messageBody, enclosingName + x.messageName + ".", ex))
    else Listing([], [])
  }

  lemma ConcatAssoc(x: Listing, y: Listing, z: Listing)
    ensures Concat(Concat(x, y), z) == Concat(x, Concat(y, z))
  {
    assert x.objects + y.objects + z.objects == x.objects + (y.objects + z.objects);
    assert x.enums + y.enums + z.enums == x.enums + (y.enums + z.enums);
  }

  /** Walking one more element appends that element's contribution. */
  lemma WalkSnoc(body: seq<Visitee>, x: Visitee, enclosingName: string, ex: set<string>)
    requires enclosingName != ""
    ensures Walk(body + [x], enclosingName, ex) == Concat(Walk(body, enclosingName, ex), WalkItem(x, enclosingName, ex))
  {
    assert (body + [x])[..|body|] == body;
  }

  /** Walking one element further into a body appends that element's contribution. */
  lemma WalkPrefixStep(body: seq<Visitee>, i: nat, enclosingName: string, ex: set<string>)
    requires i < |body| && enclosingName != ""
    ensures Walk(body[..i + 1], enclosingName, ex) == Concat(Walk(body[..i], enclosingName, ex), WalkItem(body[i], enclosingName, ex))
  {
    assert body[..i + 1] == body[..i] + [body[i]];
    WalkSnoc(body[..i], body[i], enclosingName, ex);
  }

  /** The walk distributes over concatenation of bodies: declaration order is kept. */
  lemma {:induction false} WalkAppend(a: seq<Visitee>, b: seq<Visitee>, enclosingName: string, ex: set<string>)
    requires enclosingName != ""
    ensures Walk(a + b, enclosingName, ex) == Concat(Walk(a, enclosingName, ex), Walk(b, enclosingName, ex))
    decreases |b|
  {
    if b == [] {
      assert a + b == a;
      assert Walk(a, enclosingName, ex).objects + [] == Walk(a, enclosingName, ex).objects;
      assert Walk(a, enclosingName, ex).enums + [] == Walk(a, enclosingName, ex).enums;
    } else {
      var n := |b| - 1;
      var init, last := b[..n], b[n];
      assert init + [last] == b;
      assert a + b == (a + init) + [last];
      WalkAppend(a, init, enclosingName, ex);
      WalkSnoc(a + init, last, enclosingName, ex);
      WalkSnoc(init, last, enclosingName, ex);
      var x, y, z := Walk(a, enclosingName, ex), Walk(init, enclosingName, ex), WalkItem(last, enclosingName, ex);
      ConcatAssoc(x, y, z);
    }
  }

  /**
   * The scope string the walk passes for a chain of ancestor messages: a dot,
   * then each ancestor name followed by a dot.
   */
  function Scope(ancestors: seq<string>): (r: string)
    ensures r != "" && r[0] == '.'
  {
    if ancestors == [] then "." else Scope(ancestors[..|ancestors| - 1]) + ancestors[|ancestors| - 1] + "."
  }

  /**
   * Qualified names are the ancestor names and the own name joined by dots,
   * with no leading dot; descending into a message extends the scope by it.
   */
  lemma {:induction false} ScopeQualifies(ancestors: seq<string>, name: string)
    ensures Scope(ancestors)[1..] + name == Join(ancestors + [name], ".")
    ensures Scope(ancestors) + name + "." == Scope(ancestors + [name])
  {
    assert (ancestors + [name])[..|ancestors + [name]| - 1] == ancestors;
    if ancestors == [] {
      assert ancestors + [name] == [name];
    } else {
      var n := |ancestors| - 1;
      var init, last := ancestors[..n], ancestors[n];
      assert init + [last] == ancestors;
      ScopeQualifies(init, last);
      JoinSnoc(ancestors, name, ".");
      assert Scope(ancestors)[1..] == Scope(init)[1..] + last + ".";
    }
  }

  /** A message whose qualified name is not excluded is listed, followed by what its body lists one scope deeper. */
  lemma WalkItemMessage(x: Visitee, enclosingName: string, ex: set<string>)
    requires enclosingName != "" && x.MessageDecl?
    requires enclosingName[1..] + x.messageName !in ex
    ensures var inner := Walk(x.messageBody, enclosingName + x.messageName + ".", ex);
      WalkItem(x, enclosingName, ex) == Listing([ComposeObject(x, enclosingName)] + inner.objects, inner.enums)
  {
  }

  /** A message whose qualified name is excluded contributes nothing. */
  lemma WalkItemExcluded(x: Visitee, enclosingName: string, ex: set<string>)
    requires enclosingName != "" && x.MessageDecl?
    requires enclosingName[1..] + x.messageName in ex
    ensures WalkItem(x, enclosingName, ex) == Listing([], [])
  {
  }

  /** An enum contributes itself and no object. */
  lemma WalkItemEnum(x: Visitee, enclosingName: string, ex: set<string>)
    requires enclosingName != "" && x.EnumDecl?
    ensures WalkItem(x, enclosingName, ex) == Listing([], [ComposeEnum(x, enclosingName)])
  {
  }

  /** No listed object has an excluded name. */
  lemma {:induction false} ExcludedNeverListed(body: seq<Visitee>, enclosingName: string, ex: set<string>)
    requires enclosingName != ""
    ensures forall k :: 0 <= k < |Walk(body, enclosingName, ex).objects| ==> Walk(body, enclosingName, ex).objects[k].name !in ex
    decreases body
  {
    if body != [] {
      var n := |body| - 1;
      var init, last := body[..n], body[n];
      assert init + [last] == body;
      WalkSnoc(init, last, enclosingName, ex);
      ExcludedNeverListed(init, enclosingName, ex);
      ExcludedItemNeverListed(last, enclosingName, ex);
    }
  }

  lemma {:induction false} ExcludedItemNeverListed(x: Visitee, enclosingName: string, ex: set<string>)
    requires enclosingName != ""
    ensures forall k :: 0 <= k < |WalkItem(x, enclosingName, ex).objects| ==> WalkItem(x, enclosingName, ex).objects[k].name !in ex
    decreases x
  {
    if x.MessageDecl? {
      if enclosingName[1..] + x.messageName in ex {
        WalkItemExcluded(x, enclosingName, ex);
      } else {
        WalkItemMessage(x, enclosingName, ex);
        ExcludedNeverListed(x.messageBody, enclosingName + x.messageName + ".", ex);
      }
    } else if x.EnumDecl? {
      WalkItemEnum(x, enclosingName, ex);
    }
  }

  /** Every object and enum of the listing has a name starting with `prefix`. */
  predicate NamedUnder(l: Listing, prefix: string)
  {
    && (forall k :: 0 <= k < |l.objects| ==> prefix <= l.objects[k].name)
    && (forall k :: 0 <= k < |l.enums| ==> prefix <= l.enums[k].name)
  }

  lemma NamedUnderConcat(a: Listing, b: Listing, prefix: string)
    requires NamedUnder(a, prefix) && NamedUnder(b, prefix)
    ensures NamedUnder(Concat(a, b), prefix)
  {
    var c := Concat(a, b);
    assert forall k :: |a.objects| <= k < |c.objects| ==> c.objects[k] == b.objects[k - |a.objects|];
    assert forall k :: |a.enums| <= k < |c.enums| ==> c.enums[k] == b.enums[k - |a.enums|];
  }

  lemma NamedUnderShorter(l: Listing, p: string, q: string)
    requires p <= q && NamedUnder(l, q)
    ensures NamedUnder(l, p)
  {
    forall k | 0 <= k < |l.objects|
      ensures p <= l.objects[k].name
    {
      assert l.objects[k].name[..|p|] == q[..|p|];
    }
    forall k | 0 <= k < |l.enums|
      ensures p <= l.enums[k].name
    {
      assert l.enums[k].name[..|p|] == q[..|p|];
    }
  }

  /** A declaration's qualified name, and the scope one level deeper, both start with the current scope. */
  lemma DeeperScope(enclosingName: string, name: string)
    requires enclosingName != ""
    ensures enclosingName[1..] <= enclosingName[1..] + name
    ensures enclosingName[1..] <= (enclosingName + name + ".")[1..]
  {
    assert (enclosingName + name + ".")[1..] == enclosingName[1..] + name + ".";
  }

  /** Everything listed by a walk is named inside the walk's scope. */
  lemma {:induction false} NamesUnderScope(body: seq<Visitee>, enclosingName: string, ex: set<string>)
    requires enclosingName != ""
    ensures NamedUnder(Walk(body, enclosingName, ex), enclosingName[1..])
    decreases body
  {
    if body != [] {
      var n := |body| - 1;
      var init, last := body[..n], body[n];
      assert init + [last] == body;
      WalkSnoc(init, last, enclosingName, ex);
      NamesUnderScope(init, enclosingName, ex);
      ItemNamesUnderScope(last, enclosingName, ex);
      NamedUnderConcat(Walk(init, enclosingName, ex), WalkItem(last, enclosingName, ex), enclosingName[1..]);
    }
  }

  lemma {:induction false} ItemNamesUnderScope(x: Visitee, enclosingName: string, ex: set<string>)
    requires enclosingName != ""
    ensures NamedUnder(WalkItem(x, enclosingName, ex), enclosingName[1..])
    decreases x
  {
    var scope := enclosingName[1..];
    if x.MessageDecl? {
      if scope + x.messageName in ex {
        WalkItemExcluded(x, enclosingName, ex);
      } else {
        var inner := enclosingName + x.messageName + ".";
        WalkItemMessage(x, enclosingName, ex);
        NamesUnderScope(x.messageBody, inner, ex);
        DeeperScope(enclosingName, x.messageName);
        NamedUnderShorter(Walk(x.messageBody, inner, ex), scope, inner[1..]);
        NamedUnderConcat(Listing([ComposeObject(x, enclosingName)], []), Walk(x.messageBody, inner, ex), scope);
      }
    } else if x.EnumDecl? {
      WalkItemEnum(x, enclosingName, ex);
      DeeperScope(enclosingName, x.enumName);
    }
  }

  /**
   * A message that is not excluded is listed right after what precedes it,
   * under its qualified name (its ancestors and its own name joined by dots),
   * with its fields enclosed by that name, and is followed by everything
   * declared inside it, walked one scope deeper.
   */
  lemma ListedMessage(a: seq<Visitee>, m: Visitee, b: seq<Visitee>, ancestors: seq<string>, ex: set<string>)
    requires m.MessageDecl?
    requires Join(ancestors + [m.messageName], ".") !in ex
    ensures var q := Join(ancestors + [m.messageName], ".");
      var inner := Walk(m.messageBody, Scope(ancestors + [m.messageName]), ex);
      Walk(a + [m] + b, Scope(ancestors), ex) ==
        Concat(Concat(Walk(a, Scope(ancestors), ex),
                      Listing([Object(HeadComment(m.comments), q, Fields(m.messageBody, q))] + inner.objects, inner.enums)),
               Walk(b, Scope(ancestors), ex))
  {
    var scope := Scope(ancestors);
    ScopeQualifies(ancestors, m.messageName);
    WalkAppend(a + [m], b, scope, ex);
    WalkSnoc(a, m, scope, ex);
    WalkItemMessage(m, scope, ex);
  }

  /** Every enum is listed under its qualified name, whatever the excludes set, with its constants enclosed by that name. */
  lemma ListedEnum(a: seq<Visitee>, e: Visitee, b: seq<Visitee>, ancestors: seq<string>, ex: set<string>)
    requires e.EnumDecl?
    ensures var q := Join(ancestors + [e.enumName], ".");
      Walk(a + [e] + b, Scope(ancestors), ex) ==
        Concat(Concat(Walk(a, Scope(ancestors), ex), Listing([], [Enum(HeadComment(e.comments), q, EnumFields(e.enumBody, q))])),
               Walk(b, Scope(ancestors), ex))
  {
    var scope := Scope(ancestors);
    ScopeQualifies(ancestors, e.enumName);
    WalkAppend(a + [e], b, scope, ex);
    WalkSnoc(a, e, scope, ex);
    WalkItemEnum(e, scope, ex);
  }

  /**
   * An excluded message contributes nothing: neither itself nor the messages
   * and enums declared inside it are listed.
   */
  lemma ExcludedSubtreeSkipped(a: seq<Visitee>, m: Visitee, b: seq<Visitee>, ancestors: seq<string>, ex: set<string>)
    requires m.MessageDecl?
    requires Join(ancestors + [m.messageName], ".") in ex
    ensures Walk(a + [m] + b, Scope(ancestors), ex) == Concat(Walk(a, Scope(ancestors), ex), Walk(b, Scope(ancestors), ex))
  {
    var scope := Scope(ancestors);
    ScopeQualifies(ancestors, m.messageName);
    WalkAppend(a + [m], b, scope, ex);
    WalkSnoc(a, m, scope, ex);
    WalkItemExcluded(m, scope, ex);
    var w := Walk(a, scope, ex);
    assert Concat(w, Listing([], [])) == w;
  }
}
