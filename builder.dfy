/**
 * The proto file being documented (types.go ProtoFile, composeFrom,
 * addService, addObjectsAndEnums): its services, objects and enums grow by
 * appending as the parsed file is walked.
 */
module Builder {
  import opened Wrappers
  import opened ProtoTree
  import opened DocModel
  import opened Comments
  import opened Endpoints
  import opened Catalog

  class ProtoFile {
    var services: seq<Service>
    var objects: seq<Object>
    var enums: seq<Enum>

    /** A proto file with nothing documented yet. */
    constructor ()
      ensures services == [] && objects == [] && enums == []
    {
      services := [];
      objects := [];
      enums := [];
    }

    /**
     * addService: appends the service with its head comment, the file's
     * package name and its endpoints. A payload message missing from the file
     * stops the build instead, leaving the proto file as it was.
     */
    method AddService(ps: Visitee, pp: seq<Visitee>) returns (r: Outcome<BuildError>)
      requires ps.ServiceDecl?
      modifies this
      ensures ServiceOf(ps, pp).Success? ==> r == Pass && services == old(services) + [ServiceOf(ps, pp).value]
      ensures ServiceOf(ps, pp).Failure? ==> r == Fail(ServiceOf(ps, pp).error) && services == old(services)
      ensures objects == old(objects) && enums == old(enums)
    {
      var comment := ComposeHeadComment(ps.comments);
      var pkg := ExtractPackageName(pp);
      var s := Service(comment, pkg, ps.serviceName, []);
      var infs := ComposeInterfaces(s, ps, pp);
      if infs.Failure? {
        return Fail(infs.error);
      }
      s := s.(infs := infs.value);
      services := services + [s];
      return Pass;
    }

    /**
     * The recursive walk inside addObjectsAndEnums: handles the elements of a
     * body in order.
     */
    method ExtractMessagesAndEnums(body: seq<Visitee>, enclosingName: string, ex: set<string>)
      requires enclosingName != ""
      modifies this
      ensures Listing(objects, enums) == Concat(Listing(old(objects), old(enums)), Walk(body, enclosingName, ex))
      ensures services == old(services)
      decreases body
    {
      ghost var start := Listing(objects, enums);
      for i := 0 to |body|
        invariant Listing(objects, enums) == Concat(start, Walk(body[..i], enclosingName, ex))
        invariant services == old(services)
      {
        ExtractElement(body[i], enclosingName, ex);
        WalkPrefixStep(body, i, enclosingName, ex);
        ConcatAssoc(start, Walk(body[..i], enclosingName, ex), WalkItem(body[i], enclosingName, ex));
      }
      assert body[..|body|] == body;
    }

    /**
     * One step of that walk: appends an enum; appends a message whose
     * qualified name is not excluded and then walks its body one scope
     * deeper; skips an excluded message together with its body.
     */
    method ExtractElement(x: Visitee, enclosingName: string, ex: set<string>)
      requires enclosingName != ""
      modifies this
      ensures Listing(objects, enums) == Concat(Listing(old(objects), old(enums)), WalkItem(x, enclosingName, ex))
      ensures services == old(services)
      decreases x
    {
      if x.EnumDecl? {
        WalkItemEnum(x, enclosingName, ex);
        var e := BuildEnum(x, enclosingName);
        enums := enums + [e];
      } else if x.MessageDecl? {
        var o := BuildObject(x, enclosingName);
        if o.name in ex {
          WalkItemExcluded(x, enclosingName, ex);
          return;
        }
        WalkItemMessage(x, enclosingName, ex);
        objects := objects + [o];
        ExtractMessagesAndEnums(x.messageBody, enclosingName + x.messageName + ".", ex);
      }
    }

    /**
     * addObjectsAndEnums: collects the payload types of the services added so
     * far, then walks the whole file from the root scope.
     */
    method AddObjectsAndEnums(pp: seq<Visitee>)
      modifies this
      ensures objects == old(objects) + Walk(pp, ".", Excludes(old(services))).objects
      ensures enums == old(enums) + Walk(pp, ".", Excludes(old(services))).enums
      ensures services == old(services)
    {
      var ex := CollectExcludes(services);
      ExtractMessagesAndEnums(pp, ".", ex);
    }

    /**
     * composeFrom: adds every service of the file in order, then the objects
     * and enums. When a service cannot be built the walk stops there and no
     * object or enum is added.
     */
    method ComposeFrom(pp: seq<Visitee>) returns (r: Outcome<BuildError>)
      modifies this
      ensures Services(pp).Success? ==> && r == Pass
                                        && services == old(services) + Services(pp).value
                                        && objects == old(objects) + Walk(pp, ".", Excludes(services)).objects
                                        && enums == old(enums) + Walk(pp, ".", Excludes(services)).enums
      ensures Services(pp).Failure? ==> && r == Fail(Services(pp).error)
                                        && old(services) <= services
                                        && objects == old(objects) && enums == old(enums)
    {
      for i := 0 to |pp|
        invariant ServicesOf(pp[..i], pp).Success?
        invariant services == old(services) + ServicesOf(pp[..i], pp).value
        invariant objects == old(objects) && enums == old(enums)
      {
        var x := pp[i];
        ServicesStep(pp, pp, i);
        if x.ServiceDecl? {
          var added := AddService(x, pp);
          if added.Fail? {
            ServicesFailureSticks(pp, pp, i + 1);
            return added;
          }
        }
      }
      assert pp[..|pp|] == pp;
      AddObjectsAndEnums(pp);
      return Pass;
    }
  }
}
