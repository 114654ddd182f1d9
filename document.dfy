/**
 * Properties of the whole documentation model of a file: how the services,
 * the catalog of objects and enums, and type resolution fit together.
 */
module Document {
  import opened Wrappers
  import opened ProtoTree
  import opened DocModel
  import opened Comments
  import opened FieldExtraction
  import opened Resolver
  import opened Endpoints
  import opened Catalog

  /** No message used directly as a request or response of an endpoint is listed as an object. */
  lemma PayloadsNeverListed(pp: seq<Visitee>)
    requires Services(pp).Success?
    ensures var ss := Services(pp).value;
      var objects := Walk(pp, ".", Excludes(ss)).objects;
      forall k, i, j :: 0 <= k < |objects| && 0 <= i < |ss| && 0 <= j < |ss[i].infs| ==>
        objects[k].name != ss[i].infs[j].req.typ && objects[k].name != ss[i].infs[j].res.typ
  {
    var ss := Services(pp).value;
    var objects := Walk(pp, ".", Excludes(ss)).objects;
    ExcludedNeverListed(pp, ".", Excludes(ss));
    forall k, i, j | 0 <= k < |objects| && 0 <= i < |ss| && 0 <= j < |ss[i].infs|
      ensures objects[k].name != ss[i].infs[j].req.typ && objects[k].name != ss[i].infs[j].res.typ
    {
      ExcludesSpec(ss, objects[k].name);
    }
  }

  /** A request message `Req` that declares an enum `Kind` and a field of that type. */
  function RequestWithNestedEnum(): Visitee
  {
    MessageDecl("Req", [], [
      EnumDecl("Kind", [], [EnumFieldElement("A", "0", [], None)]),
      FieldDecl("kind", "Kind", false, [], None)])
  }

  /** A file whose only rpc takes `Req` and returns an empty `Res`. */
  function FileWithNestedEnum(): seq<Visitee>
  {
    [ PackageDecl("pet"),
      RequestWithNestedEnum(),
      MessageDecl("Res", [], []),
      ServiceDecl("Pets", [], [RpcElement(Rpc("Get", [], None, RpcMessage("Req", false), RpcMessage("Res", false)))])]
  }

  /** The field `kind` of `Req`, with no comment, enclosed by `Req`. */
  function KindField(): Field
  {
    Field("", "kind", "Kind", false, "Req")
  }

  /** A field with no comments gets the empty comment. */
  lemma KindFieldOf()
    ensures FieldOf(RequestWithNestedEnum().messageBody[1], "Req") == [KindField()]
  {
    HeadCommentNone();
  }

  /** The request's fields: the enum declaration contributes none, the field `kind` one. */
  lemma NestedEnumRequestFields()
    ensures Fields(RequestWithNestedEnum().messageBody, "Req") == [KindField()]
  {
    var body := RequestWithNestedEnum().messageBody;
    assert body == [] + [body[0]] + [body[1]];
    NonFieldsIgnored([], body[0], [body[1]], "Req");
    KindFieldOf();
    assert [body[1]][..0] == [];
    assert Fields([body[1]], "Req") == Fields([], "Req") + FieldOf(body[1], "Req");
  }

  /** Both payload messages are declared at the top level of the file. */
  lemma NestedEnumMessages()
    ensures MessageNamed(FileWithNestedEnum(), "Req") == Some(RequestWithNestedEnum())
    ensures MessageNamed(FileWithNestedEnum(), "Res") == Some(MessageDecl("Res", [], []))
  {
    var pp := FileWithNestedEnum();
    assert MessageNamed(pp[2..], "Res") == Some(pp[2]);
    assert MessageNamed(pp[1..], "Res") == Some(pp[2]);
  }

  /** The request lists the field `kind`; the response lists nothing. */
  lemma NestedEnumPayloads()
    ensures ExtractRequest(RpcMessage("Req", false), FileWithNestedEnum()) == Success(Request([KindField()], "Req"))
    ensures ExtractResponse(RpcMessage("Res", false), FileWithNestedEnum()) == Success(Response([], "Res"))
  {
    NestedEnumMessages();
    NestedEnumRequestFields();
  }

  /** The endpoint of the unary rpc `Get(Req) returns (Res)` of service `Pets` in package `pet`. */
  function PetsEndpoint(): Endpoint
  {
    Validate(Endpoint("pet", "Pets", "Get", "", "", "", Unary, Request([KindField()], "Req"), Response([], "Res")))
  }

  /** The rpc `Get` has no comment and streams in neither direction. */
  lemma GetRpcPlain()
    ensures var rpc := FileWithNestedEnum()[3].serviceBody[0].rpc;
      && ComposeHeadAndInlineComment(rpc.comments, rpc.inlineComment, "\n") == ""
      && ExtractRPCType(rpc) == Unary
  {
    HeadCommentNone();
  }

  /** The one rpc of the file becomes that endpoint, whose request lists the field `kind`. */
  lemma NestedEnumEndpoint()
    ensures EndpointOf("pet", "Pets", FileWithNestedEnum()[3].serviceBody[0], FileWithNestedEnum()) == Success(PetsEndpoint())
  {
    var pp := FileWithNestedEnum();
    var rpc := pp[3].serviceBody[0].rpc;
    NestedEnumPayloads();
    GetRpcPlain();
    assert rpc.request == RpcMessage("Req", false) && rpc.response == RpcMessage("Res", false);
  }

  /** A service body of one element yields that element's endpoint. */
  lemma InterfacesOfOne(pkg: string, svc: string, body: seq<ServiceElement>, pp: seq<Visitee>)
    requires |body| == 1 && EndpointOf(pkg, svc, body[0], pp).Success?
    ensures Interfaces(pkg, svc, body, pp) == Success([EndpointOf(pkg, svc, body[0], pp).value])
  {
    assert body[..0] == [];
    assert [] + [EndpointOf(pkg, svc, body[0], pp).value] == [EndpointOf(pkg, svc, body[0], pp).value];
  }

  /** The service body yields exactly that endpoint. */
  lemma NestedEnumInterfaces()
    ensures Interfaces("pet", "Pets", FileWithNestedEnum()[3].serviceBody, FileWithNestedEnum()) == Success([PetsEndpoint()])
  {
    var pp := FileWithNestedEnum();
    NestedEnumEndpoint();
    InterfacesOfOne("pet", "Pets", pp[3].serviceBody, pp);
  }

  /** The service of the file, with its single endpoint. */
  function PetsService(): Service
  {
    Service("", "pet", "Pets", [PetsEndpoint()])
  }

  /** The file's only service is built. */
  lemma NestedEnumServiceOf()
    ensures ServiceOf(FileWithNestedEnum()[3], FileWithNestedEnum()) == Success(PetsService())
  {
    var pp := FileWithNestedEnum();
    NestedEnumInterfaces();
    HeadCommentNone();
    assert PackageName(pp) == "pet";
  }

  /** The file is three declarations that are not services followed by the service `Pets`. */
  lemma NestedEnumFileShape()
    ensures var pp := FileWithNestedEnum();
      && pp == pp[..3] + [pp[3]]
      && pp[3].ServiceDecl?
      && forall k :: 0 <= k < |pp[..3]| ==> !pp[..3][k].ServiceDecl?
  {
  }

  /** The file builds exactly that service. */
  lemma NestedEnumServices()
    ensures Services(FileWithNestedEnum()) == Success([PetsService()])
  {
    var pp := FileWithNestedEnum();
    NestedEnumServiceOf();
    NestedEnumFileShape();
    ServicesOfFirst(pp[..3], pp[3], pp);
  }

  /** Its payload types are the request and the response. */
  lemma PetsExcludes()
    ensures Excludes([PetsService()]) == {"Req", "Res"}
  {
    var ep := PetsEndpoint();
    assert [ep][..0] == [];
    assert PayloadTypes([ep]) == {"Req", "Res"};
    assert [PetsService()][..0] == [];
  }

  /** The file builds one service, and the excludes set is the two payload types. */
  lemma NestedEnumFileServices()
    ensures Services(FileWithNestedEnum()).Success?
    ensures var ss := Services(FileWithNestedEnum()).value;
      && |ss| == 1 && |ss[0].infs| == 1
      && ss[0].infs[0].req.params == [KindField()]
      && Excludes(ss) == {"Req", "Res"}
  {
    NestedEnumServices();
    PetsExcludes();
  }

  /** Both messages of the file are excluded, so nothing is listed. */
  lemma NestedEnumFileWalk()
    ensures Walk(FileWithNestedEnum(), ".", {"Req", "Res"}) == Listing([], [])
  {
    var pp := FileWithNestedEnum();
    var ex := {"Req", "Res"};
    assert "."[1..] + pp[1].messageName == "Req";
    assert "."[1..] + pp[2].messageName == "Res";
    WalkItemExcluded(pp[1], ".", ex);
    WalkItemExcluded(pp[2], ".", ex);
    assert pp[..0] == [];
    WalkPrefixStep(pp, 0, ".", ex);
    WalkPrefixStep(pp, 1, ".", ex);
    WalkPrefixStep(pp, 2, ".", ex);
    WalkPrefixStep(pp, 3, ".", ex);
    assert pp[..4] == pp;
  }

  /** `Kind` is none of the scalar names. */
  lemma KindIsNotScalar()
    ensures !IsScalar("Kind")
  {
  }

  /** Against empty catalogs `Kind` is unresolved; with `Req.Kind` listed it resolves to that enum. */
  lemma KindResolution()
    ensures Type(KindField(), [], []) == "(Kind)"
    ensures Type(KindField(), [Enum("", "Req.Kind", [])], []) == "enum Req.Kind"
  {
    KindIsNotScalar();
    assert EnumNames([Enum("", "Req.Kind", [])]) == ["Req.Kind"];
    assert "Req" + "." + "Kind" == "Req.Kind";
    InnermostWins(["Req.Kind"], "Req", "Kind");
  }

  /**
   * An enum declared inside a request message is never listed, because the
   * walk does not descend into excluded messages; the request's field of that
   * type is therefore rendered unresolved, although listing the enum under
   * its qualified name would have resolved it.
   */
  lemma NestedEnumOfRequestUnresolved()
    ensures Services(FileWithNestedEnum()).Success?
    ensures var ss := Services(FileWithNestedEnum()).value;
      var l := Walk(FileWithNestedEnum(), ".", Excludes(ss));
      && |ss| == 1 && |ss[0].infs| == 1
      && ss[0].infs[0].req.params == [KindField()]
      && l.enums == [] && l.objects == []
      && Type(KindField(), l.enums, l.objects) == "(Kind)"
      && Type(KindField(), [Enum("", "Req.Kind", [])], []) == "enum Req.Kind"
  {
    NestedEnumFileServices();
    NestedEnumFileWalk();
    KindResolution();
  }
}
