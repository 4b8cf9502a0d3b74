/**
 * IdempotencyKeyOperationFilter: adds a required idempotency-key header to
 * operations whose controller or action carries a service filter of type
 * IdempotencyFilterAttribute.
 */
module IdempotencyKey {
  import opened Wrappers
  import opened OpenApi
  import opened OperationFilterContextExtensions

  const IdempotencyFilterTypeName: string := "IdempotencyFilterAttribute"
  const DefaultParameterName: string := "Idempotency-Key"
  const IdempotencyKeyDescription: string := "Идентификатор запроса, используется для контроля идемпотентности."

  predicate IsIdempotencyAttribute(a: ServiceFilterAttribute)
  {
    a.serviceTypeName == IdempotencyFilterTypeName
  }

  /** The attributes whose service type is named IdempotencyFilterAttribute, in order. */
  function IdempotencyAttributes(attributes: seq<ServiceFilterAttribute>): (r: seq<ServiceFilterAttribute>)
    ensures |r| <= |attributes|
    ensures forall a :: a in r <==> a in attributes && IsIdempotencyAttribute(a)
  {
    if attributes == [] then []
    else
      assert attributes == [attributes[0]] + attributes[1..];
      (if IsIdempotencyAttribute(attributes[0]) then [attributes[0]] else []) + IdempotencyAttributes(attributes[1..])
  }

  /** The filter keeps the attributes' order: it distributes over concatenation. */
  lemma {:induction false} IdempotencyAttributesAppend(a: seq<ServiceFilterAttribute>, b: seq<ServiceFilterAttribute>)
    ensures IdempotencyAttributes(a + b) == IdempotencyAttributes(a) + IdempotencyAttributes(b)
    decreases |a|
  {
    if a == [] {
      assert a + b == b;
    } else {
      assert (a + b)[0] == a[0];
      assert (a + b)[1..] == a[1..] + b;
      IdempotencyAttributesAppend(a[1..], b);
    }
  }

  /** Whether the filter fires for this context: an idempotency service filter on the controller or on the action. */
  predicate ShouldBeIdempotent(context: OperationFilterContext)
  {
    IdempotencyAttributes(ControllerAndActionAttributes(context.controllerServiceFilters, context.actionServiceFilters)) != []
  }

  /** Either level suffices, and nothing else triggers the filter. */
  lemma ShouldBeIdempotentAtEitherLevel(context: OperationFilterContext)
    ensures ShouldBeIdempotent(context) <==>
              (exists a :: a in context.controllerServiceFilters && IsIdempotencyAttribute(a)) ||
              (exists a :: a in context.actionServiceFilters && IsIdempotencyAttribute(a))
  {
    IdempotencyAttributesAppend(context.controllerServiceFilters, context.actionServiceFilters);
    var c := IdempotencyAttributes(context.controllerServiceFilters);
    var a := IdempotencyAttributes(context.actionServiceFilters);
    if c != [] {
      assert c[0] in c;
    }
    if a != [] {
      assert a[0] in a;
    }
  }

  /** The header the filter appends; `guid` stands for the fresh Guid.NewGuid() default. */
  function IdempotencyKeyParameter(parameterName: string, guid: string): (p: Parameter)
    ensures IsStringHeader(p, parameterName) && p.required
    ensures p.schema.defaultValue == AString(guid)
  {
    Parameter(IdempotencyKeyDescription, Header, parameterName, true, ParameterSchema(AString(guid), "string"))
  }

  class IdempotencyKeyOperationFilter {
    const parameterName: string

    constructor (parameterName: string := DefaultParameterName)
      ensures this.parameterName == parameterName
    {
      this.parameterName := parameterName;
    }

    /** The class's private copy of GetControllerAndActionAttributes: a new list, then AddRange. */
    static method GetControllerAndActionAttributes(context: OperationFilterContext) returns (result: seq<ServiceFilterAttribute>)
      ensures result == ControllerAndActionAttributes(context.controllerServiceFilters, context.actionServiceFilters)
    {
      result := context.controllerServiceFilters;
      result := result + context.actionServiceFilters;
    }

    /**
     * Returns normally, leaving the operation alone (even a null one), unless
     * ShouldBeIdempotent; then a null operation is dereferenced and throws,
     * and otherwise a null parameter list is created and the idempotency-key
     * header appended to it. Applying it twice appends two headers
     * (AppendTwiceAddsTwo).
     */
    method Apply(operation: Operation?, context: OperationFilterContext, guid: string) returns (outcome: Outcome)
      modifies operation
      ensures !ShouldBeIdempotent(context) ==>
                outcome == Pass && (operation != null ==> operation.parameters == old(operation.parameters))
      ensures ShouldBeIdempotent(context) && operation == null ==> outcome == Fail(NullReference("operation"))
      ensures ShouldBeIdempotent(context) && operation != null ==>
                outcome == Pass &&
                operation.parameters == Some(AppendParameter(old(operation.parameters), IdempotencyKeyParameter(parameterName, guid)))
      ensures operation != null ==>
                operation.responses == old(operation.responses) && operation.security == old(operation.security)
    {
      var attributes := GetControllerAndActionAttributes(context);
      var idempotencyAttributes := IdempotencyAttributes(attributes);
      var shouldBeIdempotent := idempotencyAttributes != [];
      if !shouldBeIdempotent {
        return Pass;
      }
      if operation == null {
        return Fail(NullReference("operation"));
      }
      if operation.parameters.None? {
        operation.parameters := Some([]);
      }
      operation.parameters := Some(operation.parameters.value + [IdempotencyKeyParameter(parameterName, guid)]);
      return Pass;
    }
  }
}
