# protodoc model: the documentation builder and the type resolver

`protodoc` reads one `.proto` schema, builds a documentation model of it, and
prints that model as plain text (main.go:31-32, output.go). The repository
also has a Markdown template, `generateMarkdown` (templates.go:120), which
`main` does not call. This project models the part of it that has real logic, in Dafny, and proves
properties of that model:

- **Model building** (`types.go`). A `ProtoFile` gathers the documentation model
  of a parsed file, appending as it goes:
  - the file's services, each with its endpoints (rpc methods), their streaming
    kind, route, HTTP verb and request/response field lists;
  - the standalone objects (messages) and enums, which are collected by a
    depth-first walk that builds dotted qualified names and leaves out the
    messages used directly as rpc payloads.
- **Comment composition** (`types.go`). Comment blocks are trimmed. Leading
  blocks are joined by a space, and an inline comment is attached with a separator.
- **Type resolution** (`types.go`). A field's declared type name is one of the
  following:
  - a scalar;
  - an enum or an object, found by trying the enclosing scopes from the
    innermost outward;
  - unresolved.

  It is rendered as plain text (`Type`) or as a Markdown link to the anchor of
  the enum or object (`TypeHRef`).
- **Template helpers** (`templates.go`). These are the anchors of services,
  methods, objects and enums, the emptiness tests of payloads and objects, and
  the websocket test.

Layout, one module per file:

| file | module | what it holds |
|---|---|---|
| `wrappers.dfy` | `Wrappers` | `Option`, `Result`, and `Outcome` (pass, or fail with an error) |
| `strings.dfy` | `GoStrings` | Go's `strings.ToLower`, `TrimSpace`, `Split` and `Join`, with their laws |
| `proto_tree.dfy` | `ProtoTree` | the parsed tree, reduced to what the builder reads |
| `doc_model.dfy` | `DocModel` | the documentation records and `RPCType.String` |
| `comments.dfy` | `Comments` | `extractComment`, `composeHeadComment`, `composeHeadAndInlineComment` |
| `fields.dfy` | `FieldExtraction` | `composeFields`, `composeEnumFields` |
| `resolver.dfy` | `Resolver` | `isScalar`, `isEnum`, `isObject`, `Type`, `TypeHRef`, `href` |
| `endpoints.dfy` | `Endpoints` | `extractPackageName`, `findMessage`, the payload extraction, `extractRPCType`, `validate`, `composeInterfaces`, and the services of a file |
| `catalog.dfy` | `Catalog` | the excludes set, `composeObject`, `composeEnum`, and the walk of `addObjectsAndEnums` |
| `builder.dfy` | `Builder` | class `ProtoFile`: `composeFrom`, `addService`, `addObjectsAndEnums` |
| `templates.dfy` | `Templates` | the `HRef`, `Empty` and `IsWebSocket` helpers |
| `document.dfy` | `Document` | whole-file properties and a worked example |

How the model is built:

- **Imperative source code stays imperative.** Every routine with a loop is
  a method with loop invariants. The appending loops are in `composeFrom`,
  `composeInterfaces`, `composeFields`, `composeEnumFields`,
  `composeHeadComment`, and the excludes loop and recursive closure of
  `addObjectsAndEnums`. The early-return searches are `extractPackageName`,
  `findMessage`, `isEnum` and `isObject`. `addService` has no loop; it is a
  method of the `ProtoFile` class that appends one service to its field.
  Each method is proved equal to a specification function, and the lemmas
  are stated about those functions.
- **Appending loops.** The specification functions of the appending loops
  recurse from the end of the sequence: `Fields`, `EnumFields`, `ExtractAll`,
  `Interfaces`, `ServicesOf`, `Excludes`, `PayloadTypes` and `Walk`. Each of
  those loops keeps the invariant "what has been built equals the function of
  the prefix read so far".
- **Early-return loops.** `extractPackageName`, `findMessage`, `isEnum` and
  `isObject` stop at their first match. Their functions `PackageName` and
  `MessageNamed` recurse from the front of the file, and `SearchFrom` counts
  the scope depth down. Each of these loops keeps the invariant "nothing
  looked at so far matches".
- **The panic becomes an error result.** When an rpc names a message that
  the file does not declare, `findMessage` calls `log.Panicf`. Here that is a
  `Failure(MissingMessage(type))` result, which stops the build.

## Model

| member | source | states |
|---|---|---|
| DocModel.RPCTypeString | types.go:112-124 | every streaming kind has its own label; "unknown" is never produced; the label is "unary" exactly for a unary rpc |
| DocModel.RPCTypeStringInjective | types.go:112-124 | different streaming kinds never share a label |
| GoStrings.TrimSpaceSpec | types.go:146-151 | trimming keeps a contiguous middle part of the text that neither starts nor ends with white space, and everything cut off on either side is white space |
| GoStrings.TrimSpaceIdempotent | types.go:146-151 | trimming an already trimmed comment changes nothing |
| GoStrings.SplitJoin | types.go:287-302 | splitting the enclosing path on "." and joining the pieces back with "." gives the path back |
| GoStrings.JoinSplit | types.go:202-208 | joining slash-free pieces with "/" and splitting on "/" gives the pieces back |
| GoStrings.SplitJoinEmpty | types.go:342-344 | splitting on "." and joining with nothing deletes every "." |
| GoStrings.ToLowerIdempotent | templates.go:130-136 | lower-casing twice is lower-casing once |
| Comments.ExtractedIsTrimmed | types.go:146-151 | about ExtractComment, the model of extractComment: a missing comment extracts to ""; a present one extracts to "" exactly when its lines hold only white space; a non-empty result neither starts nor ends with white space |
| Comments.ExtractAll | types.go:153-160 | there is one extracted text per leading comment block, in block order |
| Comments.ComposeHeadComment | types.go:153-160 | the loop's result is HeadComment, the extracted blocks joined by single spaces |
| Comments.HeadCommentSnoc | types.go:153-160 | about HeadComment, the specification function of composeHeadComment: one more leading block appends a space and that block's trimmed text |
| Comments.ComposeHeadAndInlineComment | types.go:162-172 | the result starts with the head and ends with the inline comment; the separator sits between them exactly when both are non-empty |
| Comments.ComposedEmpty | types.go:162-172 | the composed comment is empty if and only if both the head and the inline comment are empty |
| Comments.ComposedOneSide | types.go:162-172 | with an empty head the inline comment is returned as is, and with an empty inline comment the head is returned as is |
| FieldExtraction.FieldOf | types.go:249-260 | a field element yields exactly one record, and any other element yields none |
| FieldExtraction.Fields | types.go:247-262 | there is at most one record per element, and each record is enclosed by the given message name |
| FieldExtraction.ComposeFields | types.go:247-262 | the loop builds exactly the field records of the body, in declaration order |
| FieldExtraction.FieldsAppend | types.go:247-262 | the fields of two bodies placed one after the other are the fields of the first, then the fields of the second, so declaration order is kept |
| FieldExtraction.NonFieldsIgnored | types.go:249-251 | nested messages, enums and other elements between fields contribute no field |
| FieldExtraction.FieldsEmpty | types.go:247-262 | a message has no fields if and only if no element of its body is a field declaration (DeclaresNoField) |
| FieldExtraction.EnumFieldOf | types.go:414-423 | an enum constant yields exactly one record, and any other enum element yields none |
| FieldExtraction.EnumFields | types.go:412-425 | there is at most one record per element, and each record is enclosed by the enum's qualified name |
| FieldExtraction.ComposeEnumFields | types.go:412-425 | the loop builds exactly the constant records of the enum body, in order |
| FieldExtraction.EnumFieldsAppend | types.go:412-425 | constant extraction keeps declaration order across concatenated bodies |
| Endpoints.ExtractRPCType | types.go:210-221 | the request side streams exactly when the rpc's request is a stream, and likewise for the response; this gives the four-row truth table |
| Endpoints.ExtractRPCTypeInjective | types.go:210-221 | two rpcs get the same streaming kind if and only if their two stream flags agree |
| Endpoints.Validate | types.go:202-208 | the route is "/" + package + "/" + service + "/" + method; the verb is POST when the rpc is unary and GET otherwise; no other part of the endpoint changes |
| Endpoints.RouteSplits | types.go:202-208 | when the names contain no "/", the route splits back into "", the package, the service and the method |
| Endpoints.ValidateIdempotent | types.go:202-208 | validating twice is validating once |
| Endpoints.PackageName | types.go:174-181 | the result is the name of the first package declaration of the file, or "(missed-package)" when there is none |
| Endpoints.ExtractPackageName | types.go:174-181 | the loop returns that first package name, or "(missed-package)" |
| Endpoints.MessageNamed | types.go:237-245 | the result is the first top-level message with that name; there is none exactly when no top-level message has the name |
| Endpoints.FindMessage | types.go:237-245 | the loop returns that first message, or fails with MissingMessage(type) where the source panics |
| Endpoints.ExtractRequest | types.go:223-228 | the request fails exactly when the payload message is missing, and then names the type; otherwise it carries the type and the fields of that message, enclosed by its name |
| Endpoints.ExtractRPCRequest | types.go:223-228 | the procedure returns exactly that request, or that failure |
| Endpoints.ExtractResponse | types.go:230-235 | the same as ExtractRequest, for the response side |
| Endpoints.ExtractRPCResponse | types.go:230-235 | the procedure returns exactly that response, or that failure |
| Endpoints.ComposeEndpoint | types.go:186-197 | one loop step yields EndpointOf, the endpoint of one service element |
| Endpoints.EndpointOfSpec | types.go:186-197 | about EndpointOf: an element yields an endpoint exactly when both payload messages of its rpc are declared. The endpoint then has the package, the service, the rpc's name, its comments joined by a newline, its streaming kind, the validated route, the verb POST when unary and GET otherwise, and the request and response with the fields of their messages. A non-rpc element gives an unnamed unary endpoint with no comment and empty payloads |
| Endpoints.ComposeInterfaces | types.go:183-200 | the loop yields Interfaces, the endpoints of the service body, or the first missing-message failure |
| Endpoints.InterfacesSucceed | types.go:183-200 | about Interfaces: a service's endpoints are built if and only if every rpc of it names declared request and response messages |
| Endpoints.InterfacesShape | types.go:183-200 | on success there is one endpoint per service element, in order, each shaped as EndpointOfSpec states |
| Endpoints.InterfacesFailureSticks | types.go:183-200 | once an element fails, the whole service fails with that element's error |
| Endpoints.ServiceOf | types.go:136-144 | a service is built exactly when its endpoints are; it then carries the service's head comment, its name, the file's package name and exactly its composed endpoints |
| Endpoints.ServicesSucceed | types.go:126-134 | about Services and ServicesOf, the services of a file: they are built if and only if each service declaration is built, and every built service carries the file's package name |
| Endpoints.ServicesAreServiceOf | types.go:126-134 | once built, the services of a file are its service declarations, each built as addService builds it, in declaration order |
| Endpoints.ServicesFailureSticks | types.go:126-134 | the first service that fails decides the failure of the whole file |
| Resolver.SearchFromSpec | types.go:287-302 | the search finds nothing exactly when no scope prefix's candidate is in the catalog; otherwise it answers the candidate of the deepest prefix present |
| Resolver.ScopedLookup | types.go:287-302 | a name found is an entry of the catalog searched |
| Resolver.InnermostWins | types.go:287-302 | when the full enclosing path qualifies a catalog entry, that entry wins over any outer scope |
| Resolver.RootScopeFallback | types.go:287-302 | a bare type name present in the catalog is always found, from any scope |
| Resolver.FoundNameEndsWithType | types.go:287-302 | a name found is the type name itself, or ends with "." followed by the type name |
| Resolver.IsEnum | types.go:287-302 | the nested loops report success exactly when the scope search finds an enum, and then return the qualified name it finds |
| Resolver.IsObject | types.go:304-319 | the same for the object catalog |
| Resolver.HrefSpec | types.go:342-344 | about Href, the model of href: the anchor of a name is the lower-cased name with every "." removed, so it contains neither dots nor capitals |
| Resolver.Type | types.go:322-339 | an empty type renders as "(nil)" whatever the catalogs hold; otherwise the rendering starts with "array of " if and only if the field is repeated |
| Resolver.TypeHRef | types.go:347-364 | the same two facts for the linked rendering |
| Resolver.RenderingsShareClassification | types.go:322-364 | both renderings classify in the order scalar, enum, object, unresolved; they differ only in wrapping an enum or an object as a link to its anchor |
| Resolver.ScalarIgnoresCatalogs | types.go:264-285 | a type accepted by IsScalar, the model of isScalar (one of the fifteen scalar names), is rendered as the bare name by both renderings, whatever the enum and object catalogs hold |
| Resolver.EnumBeforeObject | types.go:326-331 | when an enum is found in scope, the object catalog makes no difference |
| Resolver.UnresolvedInParentheses | types.go:326-338 | a name found in neither catalog is rendered in parentheses, by both renderings |
| Catalog.PayloadTypesSpec | types.go:369-373 | about PayloadTypes: a name is collected from a service's endpoints if and only if some endpoint uses it as its request or its response type |
| Catalog.ExcludesSpec | types.go:368-374 | about Excludes, the excludes set: a name is excluded if and only if some endpoint of some service uses it as a payload type |
| Catalog.CollectExcludes | types.go:368-374 | the nested loops build exactly that excludes set |
| Catalog.ComposeObject | types.go:396-402 | the object is named by the scope without its leading dot, followed by the message name; it has at most one attribute per element, each enclosed by the object's own name |
| Catalog.ComposeEnum | types.go:404-410 | the same for an enum and its constants |
| Catalog.BuildObject | types.go:396-402 | the procedure builds exactly that object |
| Catalog.BuildEnum | types.go:404-410 | the procedure builds exactly that enum |
| Catalog.WalkAppend | types.go:378-390 | about Walk and WalkItem, what the recursive closure appends for a body and for one element: the walk of concatenated bodies is the walk of the first, followed by the walk of the second |
| Catalog.ScopeQualifies | types.go:388-393 | the scope passed for a chain of ancestors, with its leading dot dropped and the own name added, is the ancestors and the name joined by "."; descending into a message extends the scope by its name and a dot |
| Catalog.ListedMessage | types.go:382-389 | a message that is not excluded is listed right after what precedes it, with its head comment, its qualified name and its fields enclosed by that name; everything declared inside it, walked one scope deeper, follows it |
| Catalog.ListedEnum | types.go:379-381 | every enum is listed in place under its qualified name, whatever the excludes set, with its constants enclosed by that name |
| Catalog.ExcludedSubtreeSkipped | types.go:383-385 | an excluded message contributes nothing: neither it nor anything declared inside it is listed |
| Catalog.ExcludedNeverListed | types.go:376-391 | no listed object has an excluded name |
| Catalog.NamesUnderScope | types.go:376-391 | every object and enum a walk lists is named inside the walk's scope |
| Builder.ProtoFile.constructor | types.go:11-18 | a new proto file has no services, objects or enums |
| Builder.ProtoFile.AddService | types.go:136-144 | the built service is appended; when a payload message is missing the build fails with that error and the services are unchanged; objects and enums are never touched |
| Builder.ProtoFile.ExtractElement | types.go:378-389 | one element appends exactly its contribution to the walk, and services are unchanged |
| Builder.ProtoFile.ExtractMessagesAndEnums | types.go:376-391 | the recursive closure appends exactly the walk of the body to the objects and the enums |
| Builder.ProtoFile.AddObjectsAndEnums | types.go:367-394 | the excludes set is taken from the services present, and the walk of the whole file from the root scope "." is appended |
| Builder.ProtoFile.ComposeFrom | types.go:126-134 | on success every service of the file is appended in order, and then the objects and enums walked with their payloads excluded; when a service fails, the build stops with its error and no object or enum is added |
| Templates.ServiceHRef | templates.go:130-132 | the anchor is "#service-" followed by the service name with each letter lower-cased, so it has no capital letter |
| Templates.ServiceHRefIgnoresCase | templates.go:130-132 | two services share an anchor if and only if their names agree up to letter case |
| Templates.EndpointHRef | templates.go:134-136 | the anchor is "#method-" followed by the service name and then the method name, each letter lower-cased, so it has no capital letter |
| Templates.EndpointHRefConcatenates | templates.go:134-136 | the method anchor is the lower-cased concatenation of the service and method names |
| Templates.AnchorsIgnoreCase | templates.go:130-136 | lower-casing the names does not change the service or the method anchor |
| Templates.ObjectHRef | templates.go:138-140 | the anchor is "#object-" followed by the qualified name lower-cased with every "." removed (so "Foo.Bar" gets "#object-foobar"), hence dot-free |
| Templates.EnumHRef | templates.go:142-144 | the anchor is "#enum-" followed by the qualified name lower-cased with every "." removed, hence dot-free |
| Templates.ObjectLinkMatchesAnchor | templates.go:138-140 | when a field resolves to an object, the link TypeHRef writes targets that object's own anchor |
| Templates.EnumLinkMatchesAnchor | templates.go:142-144 | when a field resolves to an enum, the link TypeHRef writes targets that enum's own anchor |
| Templates.ResolvedNamesAreListed | types.go:287-319 | a resolved enum or object name is always the name of an entry of the catalog it was found in |
| Templates.RequestEmptyIffNoFields | templates.go:146-148 | about RequestEmpty, the model of Request.Empty: a request is empty if and only if its message declares no field directly |
| Templates.ResponseEmptyIffNoFields | templates.go:150-152 | about ResponseEmpty, the model of Response.Empty: a response is empty if and only if its message declares no field directly |
| Templates.ObjectEmptyIffNoFields | templates.go:154-156 | about ObjectEmpty, the model of Object.Empty: an object is empty if and only if its message declares no field directly, whatever it nests |
| Templates.WebSocketIffGet | templates.go:158-160 | about IsWebSocket, the model of Endpoint.IsWebSocket: after validation, an endpoint is a websocket if and only if its verb is GET |
| Templates.WebSocketIffStreaming | templates.go:158-160 | an rpc's endpoint is a websocket if and only if either side of the rpc streams |
| Document.PayloadsNeverListed | types.go:366-394 | no object listed for a file has the name of any endpoint's request or response type |
| Document.NestedEnumOfRequestUnresolved | types.go:383-388 | the model covers a file whose request message declares an enum and a field of that enum. Its enum is not listed, so the field renders as "(Kind)", although listing the enum under "Req.Kind" would render it as "enum Req.Kind" |

## Left out

- `main.go` is not part of this model. It holds the argument handling, the
  file reading and the call into the external `go-protoparser` library, which
  are all I/O or foreign code. The parsed tree is an input of the model.
- `output.go` is not part of this model. It only prints an already built model.
- `generateMarkdown` and the template text (templates.go:10-127) are not
  modelled. They are a thin wrapper over Go's `text/template`, whose code is
  not available. The helpers the template calls are modelled.
- The parser's types appear only as the `ProtoTree` datatypes, reduced to the
  parts the builder reads. `Comment.Lines()` is the comment's sequence of
  lines. Every declaration the builder ignores becomes `OtherDecl`,
  `OtherServiceElement` or `OtherEnumElement`.
- `GoStrings.ToLower` and `GoStrings.TrimSpace` handle ASCII letters and ASCII
  white space only. Unicode case mapping and Unicode white space are not modelled.
- `Endpoints.FindMessage` does not model the logging in `log.Panicf`, which
  aborts the program. The panic is a `Failure(MissingMessage(type))` result
  that every caller passes upward.
- `Builder.ProtoFile.ComposeFrom` states only that services may have been
  appended when a service fails. In the source that failure is a panic that
  ends the program, so what the file holds afterwards is never observed.
- A `Field` keeps no reference back to its `ProtoFile` (the `protoFile`
  member). The source follows it to reach the enum and object lists when
  rendering. Here,
  `Resolver.Type` and `Resolver.TypeHRef` receive those two lists as
  arguments. The result is the same, because rendering happens only after
  the lists are complete.
- The excludes map of `addObjectsAndEnums` is a set. The map only ever stores
  `true`, so membership is all that is read.
- The "unknown" branch of `RPCType.String` (types.go:123) is not reached by
  the program. `RPCType` is an `int` (types.go:52) and could hold any value,
  but every `RPCType` the program makes comes from `extractRPCType`
  (types.go:210-221) or is the zero value `Unary`. The model's `RPCType` has
  exactly those four values, and `DocModel.RPCTypeString` proves that it
  never returns "unknown".
- Integer widths play no part in this model: the only numbers are lengths
  and indices, and enum constant values are kept as text.

Behaviours of the code that this model keeps as written:

- **Excluded messages.** The comment at types.go:366 says that only the
  messages used directly by interfaces are excluded. The code skips the whole
  message with `continue` before the recursive call (types.go:384-388), so
  nothing declared inside it is listed.
  - `Catalog.ExcludedSubtreeSkipped` proves that behaviour.
  - `Document.NestedEnumOfRequestUnresolved` shows its effect: an enum declared
    inside a request message is never listed, and a field of that type renders
    as unresolved.
- **Payload lookup.** `findMessage` searches only the top level of the file
  (types.go:238-242). A nested message named as a payload therefore counts as
  missing.
- **Non-rpc service elements.** `composeInterfaces` gives every service
  element an endpoint, including options and empty statements. That endpoint
  has an empty method name, a unary kind, the route
  "/package/service/" and the verb POST (types.go:185-197).
