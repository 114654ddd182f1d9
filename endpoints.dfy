/**
 * Endpoint construction (types.go composeInterfaces, validate, extractRPCType,
 * extractRPCRequest/Response, findMessage, extractPackageName, addService):
 * each element of a service body becomes an endpoint with a synthesised route
 * and HTTP verb, and each rpc's payload messages become its parameter lists.
 */
module Endpoints {
  import opened Wrappers
  import opened GoStrings
  import opened ProtoTree
  import opened DocModel
  import opened Comments
  import opened FieldExtraction

  /** The streaming kinds in which the client sends a stream. */
  predicate RequestStreams(t: RPCType) {
    t == ClientStreaming || t == BidirectionalStreaming
  }

  /** The streaming kinds in which the server sends a stream. */
  predicate ResponseStreams(t: RPCType) {
    t == ServerStreaming || t == BidirectionalStreaming
  }

  /** extractRPCType: the streaming kind is exactly the pair of stream flags. */
  function ExtractRPCType(rpc: Rpc): (r: RPCType)
    ensures RequestStreams(r) == rpc.request.isStream
    ensures ResponseStreams(r) == rpc.response.isStream
  {
    if rpc.request.isStream && rpc.response.isStream then BidirectionalStreaming
    else if rpc.request.isStream then ClientStreaming
    else if rpc.response.isStream then ServerStreaming
    else Unary
  }

  /** Two rpcs get the same streaming kind exactly when their stream flags agree. */
  lemma ExtractRPCTypeInjective(a: Rpc, b: Rpc)
    ensures ExtractRPCType(a) == ExtractRPCType(b) <==>
      a.request.isStream == b.request.isStream && a.response.isStream == b.response.isStream
  {
    var ta, tb := ExtractRPCType(a), ExtractRPCType(b);
    if RequestStreams(ta) == RequestStreams(tb) && ResponseStreams(ta) == ResponseStreams(tb) {
      assert ta == tb;
    }
  }

  /**
   * validate: the route is the package, service and method names each behind
   * a slash; the verb is POST for a unary endpoint and GET for every streaming
   * one. Nothing else changes.
   */
  function Validate(e: Endpoint): (r: Endpoint)
    ensures r.urlPath == Join(["", e.packageName, e.serviceName, e.methodName], "/")
    ensures r.httpMethod in {"POST", "GET"}
    ensures r.httpMethod == "POST" <==> e.typ == Unary
    ensures r == e.(urlPath := r.urlPath, httpMethod := r.httpMethod)
  {
    var path := "/" + e.packageName + "/" + e.serviceName + "/" + e.methodName;
    RouteJoin(e.packageName, e.serviceName, e.methodName);
    e.(urlPath := path, httpMethod := if e.typ != Unary then "GET" else "POST")
  }

  /** The route is the three names joined by slashes behind an empty first segment. */
  lemma RouteJoin(pkg: string, svc: string, m: string)
    ensures "/" + pkg + "/" + svc + "/" + m == Join(["", pkg, svc, m], "/")
  {
    var xs := ["", pkg, svc, m];
    assert xs[1..] == [pkg, svc, m];
    assert xs[1..][1..] == [svc, m];
    assert xs[1..][1..][1..] == [m];
    assert Join([svc, m], "/") == svc + "/" + m;
    assert Join([pkg, svc, m], "/") == pkg + "/" + (svc + "/" + m);
    assert "/" + pkg + "/" + svc + "/" + m == "" + "/" + (pkg + "/" + (svc + "/" + m));
  }

  /** When no name contains a slash, splitting the route on slashes gives the names back. */
  lemma RouteSplits(e: Endpoint)
    requires '/' !in e.packageName && '/' !in e.serviceName && '/' !in e.methodName
    ensures Split(Validate(e).urlPath, '/') == ["", e.packageName, e.serviceName, e.methodName]
  {
    JoinSplit(["", e.packageName, e.serviceName, e.methodName], '/');
  }

  /** Validating twice is the same as validating once. */
  lemma ValidateIdempotent(e: Endpoint)
    ensures Validate(Validate(e)) == Validate(e)
  {
  }

  /** The package name the file declares first, or "(missed-package)" when it declares none. */
  function PackageName(pp: seq<Visitee>): (r: string)
    ensures (forall i :: 0 <= i < |pp| ==> !pp[i].PackageDecl?) ==> r == "(missed-package)"
    ensures forall i :: 0 <= i < |pp| && pp[i].PackageDecl? && (forall j :: 0 <= j < i ==> !pp[j].PackageDecl?) ==>
      r == pp[i].packageName
  {
    if pp == [] then "(missed-package)"
    else if pp[0].PackageDecl? then pp[0].packageName
    else
      var r := PackageName(pp[1..]);
      assert forall i :: 1 <= i < |pp| ==> pp[i] == pp[1..][i - 1];
      r
  }

  /** extractPackageName: returns at the first package declaration. */
  method ExtractPackageName(pp: seq<Visitee>) returns (name: string)
    ensures name == PackageName(pp)
  {
    for i := 0 to |pp|
      invariant forall j :: 0 <= j < i ==> !pp[j].PackageDecl?
    {
      if pp[i].PackageDecl? {
        return pp[i].packageName;
      }
    }
    return "(missed-package)";
  }

  predicate IsMessageNamed(x: Visitee, mt: string) {
    x.MessageDecl? && x.messageName == mt
  }

  /** The first top-level message of the file with the given name, if any. */
  function MessageNamed(pp: seq<Visitee>, mt: string): (r: Option<Visitee>)
    ensures r.Some? ==> IsMessageNamed(r.value, mt)
    ensures r.None? <==> forall i :: 0 <= i < |pp| ==> !IsMessageNamed(pp[i], mt)
    ensures forall i :: 0 <= i < |pp| && IsMessageNamed(pp[i], mt) && (forall j :: 0 <= j < i ==> !IsMessageNamed(pp[j], mt)) ==>
      r == Some(pp[i])
  {
    if pp == [] then None
    else if IsMessageNamed(pp[0], mt) then Some(pp[0])
    else
      var r := MessageNamed(pp[1..], mt);
      assert forall i :: 1 <= i < |pp| ==> pp[i] == pp[1..][i - 1];
      r
  }

  /** findMessage: scans the top level of the file; a missing message stops the build. */
  method FindMessage(pp: seq<Visitee>, mt: string) returns (r: Result<Visitee, BuildError>)
    ensures MessageNamed(pp, mt).Some? ==> r == Success(MessageNamed(pp, mt).value)
    ensures MessageNamed(pp, mt).None? ==> r == Failure(MissingMessage(mt))
  {
    for i := 0 to |pp|
      invariant forall j :: 0 <= j < i ==> !IsMessageNamed(pp[j], mt)
    {
      if pp[i].MessageDecl? && pp[i].messageName == mt {
        return Success(pp[i]);
      }
    }
    return Failure(MissingMessage(mt));
  }

  /** extractRPCRequest: the request's fields, taken from the message of that name. */
  function ExtractRequest(rr: RpcMessage, pp: seq<Visitee>): (r: Result<Request, BuildError>)
    ensures r.Failure? <==> MessageNamed(pp, rr.messageType).None?
    ensures r.Failure? ==> r.error == MissingMessage(rr.messageType)
    ensures r.Success? ==> (r.value.typ == rr.messageType &&
      r.value.params == Fields(MessageNamed(pp, rr.messageType).value.messageBody, rr.messageType))
  {
    match MessageNamed(pp, rr.messageType)
    case None => Failure(MissingMessage(rr.messageType))
    case Some(msg) => Success(Request(Fields(msg.messageBody, msg.messageName), rr.messageType))
  }

  /** extractRPCRequest as a procedure: look the message up, then collect its fields. */
  method ExtractRPCRequest(rr: RpcMessage, pp: seq<Visitee>) returns (r: Result<Request, BuildError>)
    ensures r == ExtractRequest(rr, pp)
  {
    var msg := FindMessage(pp, rr.messageType);
    if msg.Failure? {
      return Failure(msg.error);
    }
    var params := ComposeFields(msg.value.messageBody, msg.value.messageName);
    return Success(Request(params, rr.messageType));
  }

  /** extractRPCResponse: the response's fields, taken from the message of that name. */
  function ExtractResponse(rr: RpcMessage, pp: seq<Visitee>): (r: Result<Response, BuildError>)
    ensures r.Failure? <==> MessageNamed(pp, rr.messageType).None?
    ensures r.Failure? ==> r.error == MissingMessage(rr.messageType)
    ensures r.Success? ==> (r.value.typ == rr.messageType &&
      r.value.params == Fields(MessageNamed(pp, rr.messageType).value.messageBody, rr.messageType))
  {
    match MessageNamed(pp, rr.messageType)
    case None => Failure(MissingMessage(rr.messageType))
    case Some(msg) => Success(Response(Fields(msg.messageBody, msg.messageName), rr.messageType))
  }

  /** extractRPCResponse as a procedure: look the message up, then collect its fields. */
  method ExtractRPCResponse(rr: RpcMessage, pp: seq<Visitee>) returns (r: Result<Response, BuildError>)
    ensures r == ExtractResponse(rr, pp)
  {
    var msg := FindMessage(pp, rr.messageType);
    if msg.Failure? {
      return Failure(msg.error);
    }
    var params := ComposeFields(msg.value.messageBody, msg.value.messageName);
    return Success(Response(params, rr.messageType));
  }

  /**
   * The endpoint composeInterfaces makes of one service-body element. An
   * element that is not an rpc still yields an endpoint, with no method name.
   */
  function EndpointOf(pkg: string, svc: string, x: ServiceElement, pp: seq<Visitee>): Result<Endpoint, BuildError>
  {
    if x.RpcElement? then
      var rpc := x.rpc;
      match ExtractRequest(rpc.request, pp)
      case Failure(e) => Failure(e)
      case Success(req) =>
        match ExtractResponse(rpc.response, pp)
        case Failure(e) => Failure(e)
        case Success(res) =>
          var comment := ComposeHeadAndInlineComment(rpc.comments, rpc.inlineComment, "\n");
          Success(Validate(Endpoint(pkg, svc, rpc.rpcName, "", "", comment, ExtractRPCType(rpc), req, res)))
    else
      Success(Validate(Endpoint(pkg, svc, "", "", "", "", Unary, Request([], ""), Response([], ""))))
  }

  /** The endpoints of a service body, in order; the first missing payload message stops it. */
  function Interfaces(pkg: string, svc: string, body: seq<ServiceElement>, pp: seq<Visitee>): Result<seq<Endpoint>, BuildError>
  {
    if body == [] then Success([])
    else
      match Interfaces(pkg, svc, body[..|body| - 1], pp)
      case Failure(e) => Failure(e)
      case Success(eps) =>
        match EndpointOf(pkg, svc, body[|body| - 1], pp)
        case Failure(e) => Failure(e)
        case Success(ep) => Success(eps + [ep])
  }

  /** Once a prefix of the body fails, the whole body fails with the same error. */
  lemma {:induction false} InterfacesFailureSticks(pkg: string, svc: string, body: seq<ServiceElement>, pp: seq<Visitee>, i: nat)
    requires i <= |body|
    requires Interfaces(pkg, svc, body[..i], pp).Failure?
    ensures Interfaces(pkg, svc, body, pp) == Interfaces(pkg, svc, body[..i], pp)
    decreases |body| - i
  {
    if i < |body| {
      assert body[..i + 1][..i] == body[..i];
      InterfacesFailureSticks(pkg, svc, body, pp, i + 1);
    } else {
      assert body[..i] == body;
    }
  }

  /** The body of composeInterfaces' loop: the endpoint of one service-body element. */
  method ComposeEndpoint(pkg: string, svc: string, x: ServiceElement, pp: seq<Visitee>) returns (r: Result<Endpoint, BuildError>)
    ensures r == EndpointOf(pkg, svc, x, pp)
  {
    var ep := Endpoint(pkg, svc, "", "", "", "", Unary, Request([], ""), Response([], ""));
    if x.RpcElement? {
      var rpc := x.rpc;
      var req := ExtractRPCRequest(rpc.request, pp);
      if req.Failure? {
        return Failure(req.error);
      }
      var res := ExtractRPCResponse(rpc.response, pp);
      if res.Failure? {
        return Failure(res.error);
      }
      ep := ep.(methodName := rpc.rpcName,
                comment := ComposeHeadAndInlineComment(rpc.comments, rpc.inlineComment, "\n"),
                typ := ExtractRPCType(rpc),
                req := req.value,
                res := res.value);
    }
    return Success(Validate(ep));
  }

  /** One more element either stops the build with its error or adds its endpoint. */
  lemma InterfacesStep(pkg: string, svc: string, body: seq<ServiceElement>, pp: seq<Visitee>, i: nat, eps: seq<Endpoint>)
    requires i < |body|
    requires Interfaces(pkg, svc, body[..i], pp) == Success(eps)
    ensures EndpointOf(pkg, svc, body[i], pp).Failure? ==>
      Interfaces(pkg, svc, body[..i + 1], pp) == Failure(EndpointOf(pkg, svc, body[i], pp).error)
    ensures EndpointOf(pkg, svc, body[i], pp).Success? ==>
      Interfaces(pkg, svc, body[..i + 1], pp) == Success(eps + [EndpointOf(pkg, svc, body[i], pp).value])
  {
    assert body[..i + 1][..i] == body[..i];
  }

  /** composeInterfaces: appends one endpoint per service-body element. */
  method ComposeInterfaces(s: Service, ps: Visitee, pp: seq<Visitee>) returns (r: Result<seq<Endpoint>, BuildError>)
    requires ps.ServiceDecl?
    ensures r == Interfaces(s.packageName, s.serviceName, ps.serviceBody, pp)
  {
    var body := ps.serviceBody;
    var eps: seq<Endpoint> := [];
    for i := 0 to |body|
      invariant Interfaces(s.packageName, s.serviceName, body[..i], pp) == Success(eps)
    {
      var ep := ComposeEndpoint(s.packageName, s.serviceName, body[i], pp);
      InterfacesStep(s.packageName, s.serviceName, body, pp, i, eps);
      if ep.Failure? {
        InterfacesFailureSticks(s.packageName, s.serviceName, body, pp, i + 1);
        return Failure(ep.error);
      }
      eps := eps + [ep.value];
    }
    assert body[..|body|] == body;
    return Success(eps);
  }

  /** The payload messages an element needs are declared at the top level of the file. */
  predicate PayloadsDeclared(x: ServiceElement, pp: seq<Visitee>)
  {
    x.RpcElement? ==>
      MessageNamed(pp, x.rpc.request.messageType).Some? && MessageNamed(pp, x.rpc.response.messageType).Some?
  }

  /**
   * What composeInterfaces makes of an element: the service's package and
   * name, the route and verb validate sets, and, for an rpc, its name, its
   * comments joined by a newline, its streaming kind and its request and
   * response with the fields of their messages; otherwise an unnamed unary
   * endpoint with no comment and empty payloads.
   */
  predicate EndpointShaped(ep: Endpoint, pkg: string, svc: string, x: ServiceElement, pp: seq<Visitee>)
  {
    && ep.packageName == pkg
    && ep.serviceName == svc
    && ep.urlPath == Join(["", pkg, svc, ep.methodName], "/")
    && (ep.httpMethod == "GET" <==> ep.typ != Unary)
    && (ep.httpMethod == "POST" <==> ep.typ == Unary)
    && (x.RpcElement? ==>
          && ep.methodName == x.rpc.rpcName
          && ep.comment == ComposeHeadAndInlineComment(x.rpc.comments, x.rpc.inlineComment, "\n")
          && ep.typ == ExtractRPCType(x.rpc)
          && ExtractRequest(x.rpc.request, pp) == Success(ep.req)
          && ExtractResponse(x.rpc.response, pp) == Success(ep.res))
    && (!x.RpcElement? ==>
          && ep.methodName == "" && ep.comment == "" && ep.typ == Unary
          && ep.req == Request([], "") && ep.res == Response([], ""))
  }

  /** An element's endpoint is built exactly when its payloads are declared, and then has that shape. */
  lemma EndpointOfSpec(pkg: string, svc: string, x: ServiceElement, pp: seq<Visitee>)
    ensures EndpointOf(pkg, svc, x, pp).Success? <==> PayloadsDeclared(x, pp)
    ensures EndpointOf(pkg, svc, x, pp).Success? ==> EndpointShaped(EndpointOf(pkg, svc, x, pp).value, pkg, svc, x, pp)
  {
  }

  /** Building the endpoints of one more element. */
  lemma InterfacesSnoc(pkg: string, svc: string, init: seq<ServiceElement>, x: ServiceElement, pp: seq<Visitee>)
    ensures Interfaces(pkg, svc, init + [x], pp).Success? <==>
      Interfaces(pkg, svc, init, pp).Success? && EndpointOf(pkg, svc, x, pp).Success?
    ensures Interfaces(pkg, svc, init + [x], pp).Success? ==>
      Interfaces(pkg, svc, init + [x], pp).value == Interfaces(pkg, svc, init, pp).value + [EndpointOf(pkg, svc, x, pp).value]
  {
    assert (init + [x])[..|init|] == init;
  }

  /**
   * A service's endpoints are built exactly when every rpc's request and
   * response messages are declared at the top level of the file.
   */
  lemma {:induction false} InterfacesSucceed(pkg: string, svc: string, body: seq<ServiceElement>, pp: seq<Visitee>)
    ensures Interfaces(pkg, svc, body, pp).Success? <==> forall k :: 0 <= k < |body| ==> PayloadsDeclared(body[k], pp)
  {
    if body != [] {
      var n := |body| - 1;
      var init, x := body[..n], body[n];
      assert body == init + [x];
      InterfacesSucceed(pkg, svc, init, pp);
      InterfacesSnoc(pkg, svc, init, x, pp);
      EndpointOfSpec(pkg, svc, x, pp);
      assert forall k :: 0 <= k < n ==> init[k] == body[k];
    }
  }

  /** Once built, there is one endpoint per element, in order, each shaped by its element. */
  lemma {:induction false} InterfacesShape(pkg: string, svc: string, body: seq<ServiceElement>, pp: seq<Visitee>)
    requires Interfaces(pkg, svc, body, pp).Success?
    ensures var eps := Interfaces(pkg, svc, body, pp).value;
      && |eps| == |body|
      && forall k :: 0 <= k < |eps| ==> EndpointShaped(eps[k], pkg, svc, body[k], pp)
  {
    if body != [] {
      var n := |body| - 1;
      var init, x := body[..n], body[n];
      assert body == init + [x];
      InterfacesSnoc(pkg, svc, init, x, pp);
      InterfacesShape(pkg, svc, init, pp);
      EndpointOfSpec(pkg, svc, x, pp);
      assert forall k :: 0 <= k < n ==> init[k] == body[k];
    }
  }

  /** addService's value: the service's head comment, the file's package name and its endpoints. */
  function ServiceOf(ps: Visitee, pp: seq<Visitee>): (r: Result<Service, BuildError>)
    requires ps.ServiceDecl?
    ensures r.Success? <==> Interfaces(PackageName(pp), ps.serviceName, ps.serviceBody, pp).Success?
    ensures r.Success? ==> && r.value.serviceName == ps.serviceName
                           && r.value.packageName == PackageName(pp)
                           && r.value.comment == HeadComment(ps.comments)
                           && r.value.infs == Interfaces(PackageName(pp), ps.serviceName, ps.serviceBody, pp).value
  {
    var pkg := PackageName(pp);
    match Interfaces(pkg, ps.serviceName, ps.serviceBody, pp)
    case Failure(e) => Failure(e)
    case Success(infs) => Success(Service(HeadComment(ps.comments), pkg, ps.serviceName, infs))
  }

  /** The services of the file, in declaration order; the first failing one stops it. */
  function Services(pp: seq<Visitee>): Result<seq<Service>, BuildError>
  {
    ServicesOf(pp, pp)
  }

  /** The services declared in `body`, with payload messages looked up in the file `pp`. */
  function ServicesOf(body: seq<Visitee>, pp: seq<Visitee>): Result<seq<Service>, BuildError>
  {
    if body == [] then Success([])
    else
      match ServicesOf(body[..|body| - 1], pp)
      case Failure(e) => Failure(e)
      case Success(ss) =>
        var x := body[|body| - 1];
        if x.ServiceDecl? then
          match ServiceOf(x, pp)
          case Failure(e) => Failure(e)
          case Success(s) => Success(ss + [s])
        else Success(ss)
  }

  /** One more element adds its service, stops the build with its error, or, if it is no service, changes nothing. */
  lemma ServicesStep(body: seq<Visitee>, pp: seq<Visitee>, i: nat)
    requires i < |body|
    requires ServicesOf(body[..i], pp).Success?
    ensures !body[i].ServiceDecl? ==> ServicesOf(body[..i + 1], pp) == ServicesOf(body[..i], pp)
    ensures body[i].ServiceDecl? && ServiceOf(body[i], pp).Success? ==>
      ServicesOf(body[..i + 1], pp) == Success(ServicesOf(body[..i], pp).value + [ServiceOf(body[i], pp).value])
    ensures body[i].ServiceDecl? && ServiceOf(body[i], pp).Failure? ==>
      ServicesOf(body[..i + 1], pp) == Failure(ServiceOf(body[i], pp).error)
  {
    assert body[..i + 1][..i] == body[..i];
  }

  /** Declarations that are not services contribute no service. */
  lemma {:induction false} ServicesOfNone(body: seq<Visitee>, pp: seq<Visitee>)
    requires forall k :: 0 <= k < |body| ==> !body[k].ServiceDecl?
    ensures ServicesOf(body, pp) == Success([])
  {
    if body != [] {
      var n := |body| - 1;
      assert forall k :: 0 <= k < n ==> body[..n][k] == body[k];
      ServicesOfNone(body[..n], pp);
    }
  }

  /** A service declared after declarations that are not services is the only one built. */
  lemma ServicesOfFirst(pre: seq<Visitee>, x: Visitee, pp: seq<Visitee>)
    requires forall k :: 0 <= k < |pre| ==> !pre[k].ServiceDecl?
    requires x.ServiceDecl? && ServiceOf(x, pp).Success?
    ensures ServicesOf(pre + [x], pp) == Success([ServiceOf(x, pp).value])
  {
    var body := pre + [x];
    assert body[..|pre|] == pre;
    assert body[|pre|] == x;
    assert body[..|pre| + 1] == body;
    ServicesOfNone(pre, pp);
    ServicesStep(body, pp, |pre|);
    var v := ServiceOf(x, pp).value;
    assert [] + [v] == [v];
  }

  /** Once a prefix of the file fails, the whole file fails with the same error. */
  lemma {:induction false} ServicesFailureSticks(body: seq<Visitee>, pp: seq<Visitee>, i: nat)
    requires i <= |body|
    requires ServicesOf(body[..i], pp).Failure?
    ensures ServicesOf(body, pp) == ServicesOf(body[..i], pp)
    decreases |body| - i
  {
    if i < |body| {
      assert body[..i + 1][..i] == body[..i];
      ServicesFailureSticks(body, pp, i + 1);
    } else {
      assert body[..i] == body;
    }
  }

  /**
   * The services are built exactly when each service of the file can be; all
   * of them then carry the file's package name.
   */
  lemma {:induction false} ServicesSucceed(body: seq<Visitee>, pp: seq<Visitee>)
    ensures ServicesOf(body, pp).Success? <==>
      forall k :: 0 <= k < |body| && body[k].ServiceDecl? ==> ServiceOf(body[k], pp).Success?
    ensures ServicesOf(body, pp).Success? ==>
      forall k :: 0 <= k < |ServicesOf(body, pp).value| ==> ServicesOf(body, pp).value[k].packageName == PackageName(pp)
  {
    if body != [] {
      var n := |body| - 1;
      ServicesSucceed(body[..n], pp);
      assert forall k :: 0 <= k < n ==> body[..n][k] == body[k];
    }
  }

  /** The service declarations of a body, in order. */
  function ServiceDecls(body: seq<Visitee>): (r: seq<Visitee>)
    ensures |r| <= |body|
    ensures forall k :: 0 <= k < |r| ==> r[k].ServiceDecl?
  {
    if body == [] then []
    else ServiceDecls(body[..|body| - 1]) + (if body[|body| - 1].ServiceDecl? then [body[|body| - 1]] else [])
  }

  /**
   * A file's services, once built, are exactly its service declarations,
   * each built by addService, in declaration order.
   */
  lemma {:induction false} ServicesAreServiceOf(body: seq<Visitee>, pp: seq<Visitee>)
    requires ServicesOf(body, pp).Success?
    ensures var ss, ds := ServicesOf(body, pp).value, ServiceDecls(body);
      && |ss| == |ds|
      && forall k :: 0 <= k < |ss| ==> ServiceOf(ds[k], pp) == Success(ss[k])
  {
    if body != [] {
      ServicesAreServiceOf(body[..|body| - 1], pp);
    }
  }
}
