/** ClientRequestIdOperationFilter: adds a required client-request-id header to every operation. */
module ClientRequestId {
  import opened Wrappers
  import opened OpenApi
  import opened OperationFilterContextExtensions

  const DefaultParameterName: string := "x-client-request-id"
  const ClientRequestIdDescription: string := "Идентификатор клиентского запроса, используется для контроля идемпотентности."

  /** The header the filter appends; `guid` stands for the fresh Guid.NewGuid() default. */
  function ClientRequestIdParameter(parameterName: string, guid: string): (p: Parameter)
    ensures IsStringHeader(p, parameterName) && p.required
    ensures p.schema.defaultValue == AString(guid)
  {
    Parameter(ClientRequestIdDescription, Header, parameterName, true, ParameterSchema(AString(guid), "string"))
  }

  class ClientRequestIdOperationFilter {
    const parameterName: string

    constructor (parameterName: string := DefaultParameterName)
      ensures this.parameterName == parameterName
    {
      this.parameterName := parameterName;
    }

    /** Creates a null parameter list, then appends the header; nothing else changes. */
    method Apply(operation: Operation, context: OperationFilterContext, guid: string)
      modifies operation
      ensures operation.parameters == Some(AppendParameter(old(operation.parameters), ClientRequestIdParameter(parameterName, guid)))
      ensures operation.responses == old(operation.responses) && operation.security == old(operation.security)
    {
      if operation.parameters.None? {
        operation.parameters := Some([]);
      }
      operation.parameters := Some(operation.parameters.value + [ClientRequestIdParameter(parameterName, guid)]);
    }
  }
}
