/** ContentTypeOperationFilter: adds a Content-Type header parameter to every operation. */
module ContentType {
  import opened Wrappers
  import opened OpenApi
  import opened OperationFilterContextExtensions

  /** HeaderNames.ContentType */
  const ContentTypeHeaderName: string := "Content-Type"
  const DefaultRequired: bool := false
  const DefaultContentType: string := "application/json"
  const DefaultDescription: string := "Используется для правильной обработки клиентского запроса (напр. POST)."

  /** The header the filter appends, built from the filter's configuration. */
  function ContentTypeParameter(required: bool, contentType: string, description: string): (p: Parameter)
    ensures IsStringHeader(p, ContentTypeHeaderName)
    ensures p.required == required && p.description == description
    ensures p.schema.defaultValue == AString(contentType)
  {
    Parameter(description, Header, ContentTypeHeaderName, required, ParameterSchema(AString(contentType), "string"))
  }

  class ContentTypeOperationFilter {
    const required: bool
    const contentType: string
    const description: string

    constructor (required: bool := DefaultRequired, contentType: string := DefaultContentType,
                 responseDescription: string := DefaultDescription)
      ensures this.required == required && this.contentType == contentType && this.description == responseDescription
    {
      this.required := required;
      this.contentType := contentType;
      this.description := responseDescription;
    }

    /** Creates a null parameter list, then appends the Content-Type header; nothing else changes. */
    method Apply(operation: Operation, context: OperationFilterContext)
      modifies operation
      ensures operation.parameters == Some(AppendParameter(old(operation.parameters), ContentTypeParameter(required, contentType, description)))
      ensures operation.responses == old(operation.responses) && operation.security == old(operation.security)
    {
      if operation.parameters.None? {
        operation.parameters := Some([]);
      }
      operation.parameters := Some(operation.parameters.value + [ContentTypeParameter(required, contentType, description)]);
    }
  }
}
