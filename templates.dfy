/**
 * The helpers the Markdown template calls on the model (templates.go): the
 * cross-reference anchors of services, methods, objects and enums, the
 * emptiness tests of payloads and objects, and the websocket test.
 */
module Templates {
  import opened GoStrings
  import opened ProtoTree
  import opened DocModel
  import opened FieldExtraction
  import opened Resolver
  import opened Endpoints
  import opened Catalog

  /** Service.HRef: "#service-" and the service name in lower case. */
  function ServiceHRef(s: Service): (r: string)
    ensures |r| == 9 + |s.serviceName| && r[..9] == "#service-"
    ensures forall k :: 0 <= k < |s.serviceName| ==> r[9 + k] == LowerChar(s.serviceName[k])
    ensures forall k :: 9 <= k < |r| ==> !IsUpper(r[k])
  {
    "#service-" + ToLower(s.serviceName)
  }

  /** Endpoint.HRef: "#method-", then the service name and the method name, each in lower case. */
  function EndpointHRef(e: Endpoint): (r: string)
    ensures |r| == 8 + |e.serviceName| + |e.methodName| && r[..8] == "#method-"
    ensures forall k :: 0 <= k < |e.serviceName| ==> r[8 + k] == LowerChar(e.serviceName[k])
    ensures forall k :: 0 <= k < |e.methodName| ==> r[8 + |e.serviceName| + k] == LowerChar(e.methodName[k])
    ensures forall k :: 8 <= k < |r| ==> !IsUpper(r[k])
  {
    "#method-" + ToLower(e.serviceName) + ToLower(e.methodName)
  }

  /** Object.HRef: "#object-" and the href of the qualified name. */
  function ObjectHRef(o: Object): (r: string)
    ensures r == "#object-" + Remove(ToLower(o.name), '.')
    ensures |r| >= 8 && r[..8] == "#object-" && '.' !in r[8..]
  {
    HrefSpec(o.name);
    "#object-" + Href(o.name)
  }

  /** Enum.HRef: "#enum-" and the href of the qualified name. */
  function EnumHRef(e: Enum): (r: string)
    ensures r == "#enum-" + Remove(ToLower(e.name), '.')
    ensures |r| >= 6 && r[..6] == "#enum-" && '.' !in r[6..]
  {
    HrefSpec(e.name);
    "#enum-" + Href(e.name)
  }

  /** Two services share an anchor exactly when their names differ at most in letter case. */
  lemma ServiceHRefIgnoresCase(a: Service, b: Service)
    ensures ServiceHRef(a) == ServiceHRef(b) <==> ToLower(a.serviceName) == ToLower(b.serviceName)
  {
    if ServiceHRef(a) == ServiceHRef(b) {
      assert ToLower(a.serviceName) == ServiceHRef(a)[9..];
    }
  }

  /** A method's anchor is the lower-cased concatenation of its service and method names. */
  lemma EndpointHRefConcatenates(e: Endpoint)
    ensures EndpointHRef(e) == "#method-" + ToLower(e.serviceName + e.methodName)
  {
    ToLowerAppend(e.serviceName, e.methodName);
  }

  /** Anchors are stable under lower-casing the names they are made from. */
  lemma AnchorsIgnoreCase(s: Service, e: Endpoint)
    ensures ServiceHRef(s) == ServiceHRef(s.(serviceName := ToLower(s.serviceName)))
    ensures EndpointHRef(e) == EndpointHRef(e.(serviceName := ToLower(e.serviceName), methodName := ToLower(e.methodName)))
  {
    ToLowerIdempotent(s.serviceName);
    ToLowerIdempotent(e.serviceName);
    ToLowerIdempotent(e.methodName);
  }

  /**
   * When a field resolves to an object, the link TypeHRef writes points at
   * the anchor Object.HRef gives the object of that name.
   */
  lemma ObjectLinkMatchesAnchor(f: Field, enums: seq<Enum>, objects: seq<Object>, o: Object)
    requires Classify(f, enums, objects) == ObjectRef(o.name)
    ensures TypeHRef(f, enums, objects) == ArrayOf(f.repeat, "[object " + o.name + "](" + ObjectHRef(o) + ")")
  {
    RenderingsShareClassification(f, enums, objects);
  }

  /**
   * When a field resolves to an enum, the link TypeHRef writes points at the
   * anchor Enum.HRef gives the enum of that name.
   */
  lemma EnumLinkMatchesAnchor(f: Field, enums: seq<Enum>, objects: seq<Object>, e: Enum)
    requires Classify(f, enums, objects) == EnumRef(e.name)
    ensures TypeHRef(f, enums, objects) == ArrayOf(f.repeat, "[enum " + e.name + "](" + EnumHRef(e) + ")")
  {
    RenderingsShareClassification(f, enums, objects);
  }

  /** A name a field resolves to always belongs to an entry of the catalog it was found in. */
  lemma ResolvedNamesAreListed(f: Field, enums: seq<Enum>, objects: seq<Object>)
    ensures Classify(f, enums, objects).EnumRef? ==> Classify(f, enums, objects).name in EnumNames(enums)
    ensures Classify(f, enums, objects).ObjectRef? ==> Classify(f, enums, objects).name in ObjectNames(objects)
  {
  }

  /** Request.Empty. */
  predicate RequestEmpty(r: Request) {
    |r.params| == 0
  }

  /** Response.Empty. */
  predicate ResponseEmpty(r: Response) {
    |r.params| == 0
  }

  /** Object.Empty. */
  predicate ObjectEmpty(o: Object) {
    |o.attrs| == 0
  }

  /** A request is shown as empty exactly when its message declares no field directly. */
  lemma RequestEmptyIffNoFields(rr: RpcMessage, pp: seq<Visitee>)
    requires ExtractRequest(rr, pp).Success?
    ensures var body := MessageNamed(pp, rr.messageType).value.messageBody;
      RequestEmpty(ExtractRequest(rr, pp).value) <==> DeclaresNoField(body)
  {
    var body := MessageNamed(pp, rr.messageType).value.messageBody;
    var params := ExtractRequest(rr, pp).value.params;
    assert params == Fields(body, rr.messageType);
    FieldsEmpty(body, rr.messageType);
    if RequestEmpty(ExtractRequest(rr, pp).value) {
      assert params == [];
    } else {
      assert params != [];
    }
  }

  /** A response is shown as empty exactly when its message declares no field directly. */
  lemma ResponseEmptyIffNoFields(rr: RpcMessage, pp: seq<Visitee>)
    requires ExtractResponse(rr, pp).Success?
    ensures var body := MessageNamed(pp, rr.messageType).value.messageBody;
      ResponseEmpty(ExtractResponse(rr, pp).value) <==> DeclaresNoField(body)
  {
    var body := MessageNamed(pp, rr.messageType).value.messageBody;
    var params := ExtractResponse(rr, pp).value.params;
    assert params == Fields(body, rr.messageType);
    FieldsEmpty(body, rr.messageType);
    if ResponseEmpty(ExtractResponse(rr, pp).value) {
      assert params == [];
    } else {
      assert params != [];
    }
  }

  /** An object is shown as empty exactly when its message declares no field directly, whatever it nests. */
  lemma ObjectEmptyIffNoFields(m: Visitee, enclosingName: string)
    requires m.MessageDecl? && enclosingName != ""
    ensures ObjectEmpty(ComposeObject(m, enclosingName)) <==> DeclaresNoField(m.messageBody)
  {
    FieldsEmpty(m.messageBody, enclosingName[1..] + m.messageName);
  }

  /** Endpoint.IsWebSocket: every streaming kind is served over a websocket. */
  predicate IsWebSocket(e: Endpoint) {
    e.typ != Unary
  }

  /** After validate, an endpoint is a websocket exactly when its verb is GET. */
  lemma WebSocketIffGet(e: Endpoint)
    ensures IsWebSocket(Validate(e)) <==> Validate(e).httpMethod == "GET"
  {
  }

  /** An rpc's endpoint is a websocket exactly when either side of the rpc streams. */
  lemma WebSocketIffStreaming(pkg: string, svc: string, x: ServiceElement, pp: seq<Visitee>)
    requires x.RpcElement? && EndpointOf(pkg, svc, x, pp).Success?
    ensures IsWebSocket(EndpointOf(pkg, svc, x, pp).value) <==> x.rpc.request.isStream || x.rpc.response.isStream
  {
    var t := ExtractRPCType(x.rpc);
    assert t == Unary <==> !RequestStreams(t) && !ResponseStreams(t);
  }
}
