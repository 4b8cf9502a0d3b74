/**
 * The parts of the OpenAPI object model that the filters read or write.
 * Only the fields the filters touch are kept.
 */
module OpenApi {
  import opened Wrappers

  /** An untyped OpenAPI value (OpenApiString, OpenApiArray, OpenApiObject). */
  datatype AnyValue =
    | AString(s: string)
    | AArray(items: seq<AnyValue>)
    | AObject(members: map<string, AnyValue>)

  /** A documented response: only its description is ever set. */
  datatype Response = Response(description: string)

  datatype ParameterLocation = Query | Header | Path | Cookie

  /** The schema attached to a parameter: a default value and a type name. */
  datatype ParameterSchema = ParameterSchema(defaultValue: AnyValue, schemaType: string)

  datatype Parameter = Parameter(
    description: string,
    location: ParameterLocation,
    name: string,
    required: bool,
    schema: ParameterSchema)

  datatype ReferenceType = SchemaReference | SecuritySchemeReference | OtherReference

  /** A security scheme given by reference to one declared elsewhere. */
  datatype SecurityScheme = SecurityScheme(referenceId: string, referenceType: ReferenceType)

  /** OpenApiSecurityRequirement: a dictionary from scheme to its scopes. */
  type SecurityRequirement = map<SecurityScheme, seq<string>>

  datatype ExternalDocs = ExternalDocs(description: string, url: string)

  /** The parameter list of an operation, with a null list read as empty. */
  function ParametersOrEmpty(parameters: Option<seq<Parameter>>): seq<Parameter>
  {
    match parameters
    case None => []
    case Some(ps) => ps
  }

  /**
   * The list after a header filter has created a missing list and added p to it:
   * never null, one longer, the old parameters first in their order, p last.
   */
  function AppendParameter(parameters: Option<seq<Parameter>>, p: Parameter): (r: seq<Parameter>)
    ensures |r| == |ParametersOrEmpty(parameters)| + 1
    ensures r[..|r| - 1] == ParametersOrEmpty(parameters)
    ensures r[|r| - 1] == p
  {
    ParametersOrEmpty(parameters) + [p]
  }

  /** A header parameter with the given name whose schema type is "string". */
  predicate IsStringHeader(p: Parameter, name: string)
  {
    p.location == Header && p.name == name && p.schema.schemaType == "string"
  }

  /** Appending is not idempotent: every call adds one more parameter. */
  lemma AppendTwiceAddsTwo(parameters: Option<seq<Parameter>>, p: Parameter, q: Parameter)
    ensures |AppendParameter(Some(AppendParameter(parameters, p)), q)| == |ParametersOrEmpty(parameters)| + 2
    ensures AppendParameter(Some(AppendParameter(parameters, p)), q) == ParametersOrEmpty(parameters) + [p, q]
  {
  }

  /**
   * Adding `response` under `key` only when the key is absent and the condition holds:
   * the key is present afterwards exactly when it was before or the condition
   * held, an existing entry is never replaced, and no other entry changes.
   */
  function AddIfAbsent(responses: map<string, Response>, key: string, response: Response, condition: bool): (r: map<string, Response>)
    ensures key in r <==> key in responses || condition
    ensures key in responses ==> r[key] == responses[key]
    ensures key !in responses && condition ==> r[key] == response
    ensures forall k :: k != key ==> (k in r <==> k in responses)
    ensures forall k :: k != key && k in r ==> r[k] == responses[k]
  {
    if key !in responses && condition then responses[key := response] else responses
  }

  /** Adding only when absent is idempotent. */
  lemma AddIfAbsentIdempotent(responses: map<string, Response>, key: string, response: Response, condition: bool)
    ensures AddIfAbsent(AddIfAbsent(responses, key, response, condition), key, response, condition)
            == AddIfAbsent(responses, key, response, condition)
  {
  }

  /** OpenApiOperation: the three collections the filters update in place. */
  class Operation {
    var responses: map<string, Response>
    var parameters: Option<seq<Parameter>>
    var security: seq<SecurityRequirement>

    constructor (responses: map<string, Response>, parameters: Option<seq<Parameter>>, security: seq<SecurityRequirement>)
      ensures this.responses == responses && this.parameters == parameters && this.security == security
    {
      this.responses := responses;
      this.parameters := parameters;
      this.security := security;
    }
  }

  /** OpenApiSchema: the three fields the schema filter assigns. */
  class Schema {
    var defaultValue: Option<AnyValue>
    var example: Option<AnyValue>
    var externalDocs: Option<ExternalDocs>

    constructor (defaultValue: Option<AnyValue>, example: Option<AnyValue>, externalDocs: Option<ExternalDocs>)
      ensures this.defaultValue == defaultValue && this.example == example && this.externalDocs == externalDocs
    {
      this.defaultValue := defaultValue;
      this.example := example;
      this.externalDocs := externalDocs;
    }
  }
}
