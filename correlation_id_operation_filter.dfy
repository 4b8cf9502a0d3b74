/** CorrelationIdOperationFilter: adds a required correlation-id header to every operation. */
module CorrelationId {
  import opened Wrappers
  import opened OpenApi
  import opened OperationFilterContextExtensions

  const DefaultParameterName: string := "X-Correlation-ID"
  const CorrelationIdDescription: string := "Идентификатор корелляции: ИД объединяет HTTP-запрос между сервером и клиентом."

  /** The header the filter appends; `guid` stands for the fresh Guid.NewGuid() default. */
  function CorrelationIdParameter(parameterName: string, guid: string): (p: Parameter)
    ensures IsStringHeader(p, parameterName) && p.required
    ensures p.schema.defaultValue == AString(guid)
  {
    Parameter(CorrelationIdDescription, Header, parameterName, true, ParameterSchema(AString(guid), "string"))
  }

  class CorrelationIdOperationFilter {
    const parameterName: string

    constructor (parameterName: string := DefaultParameterName)
      ensures this.parameterName == parameterName
    {
      this.parameterName := parameterName;
    }

    /** Creates a null parameter list, then appends the header; nothing else changes. */
    method Apply(operation: Operation, context: OperationFilterContext, guid: string)
      modifies operation
      ensures operation.parameters == Some(AppendParameter(old(operation.parameters), CorrelationIdParameter(parameterName, guid)))
      ensures operation.responses == old(operation.responses) && operation.security == old(operation.security)
    {
      if operation.parameters.None? {
        operation.parameters := Some([]);
      }
      operation.parameters := Some(operation.parameters.value + [CorrelationIdParameter(parameterName, guid)]);
    }
  }
}
