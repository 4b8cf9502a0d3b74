# Delobytes.AspNetCore.Swagger filters, modelled in Dafny

Delobytes.AspNetCore.Swagger is a set of operation and schema filters for
Swashbuckle, the OpenAPI document generator of ASP.NET Core. Each filter
receives one API operation (or schema) of the document being generated,
together with the metadata the framework has already resolved for it, and
edits the document in place:

- `GetPolicyRequirements` walks an action's filter descriptors from the last
  to the first, stops at the first `AllowAnonymousFilter`, and gathers the
  requirements of every `AuthorizeFilter` with a policy.
- The 401 and 403 filters add a documented `Unauthorized` / `Forbidden`
  response when the gathered requirements call for one and the status code
  is not documented yet.
- The claims filter replaces the operation's security list with one
  requirement whose scopes are the claim types the policies demand.
- The Content-Type, client-request-id, correlation-id and idempotency-key
  filters append one header parameter each, creating the parameter list when
  it is null; the idempotency-key filter only does so when the controller or
  the action carries a service-filter attribute whose service type's simple
  name is `IdempotencyFilterAttribute` (in any namespace).
- The security-requirements wrapper fixes the defaults and the policy selector
  of its generic inner filter.
- The JSON Patch schema filter gives every `JsonPatchDocument<T>` schema a
  fixed example of RFC 6902 operations and a link to jsonpatch.com.

The model has one module per source file. `OpenApi` holds the parts of the
OpenAPI object model that the filters touch: `Operation` and `Schema` are
classes whose fields the filters assign, and a dictionary or list that a filter
mutates is a `map` or `seq` field that the method reassigns. `Authorization`
holds the framework's authorization types as datatypes, and a C# `is` test
becomes a constructor test. Each filter is a class. Its readonly
configuration is `const` fields set by a constructor with the source's
default arguments, and its `Apply` is a method whose `ensures` gives the new
state of the operation as a function of the old one. The properties the
source promises are proved about those functions, as lemmas and as their own
`ensures`. `GetPolicyRequirements` and `HasAuthorizationRequirement` keep the
source's loops, with early `break` and `return`, and are proved against the
specification functions `PolicyRequirements` and `ContainsPermissionRequirement`.

`IdempotencyKeyOperationFilter` has a private copy of
`GetControllerAndActionAttributes`. It is modelled as a static method that
builds the list the same way (a new list, then the action attributes added),
and it is proved equal to the shared `ControllerAndActionAttributes`.

## Model

| member | source | states |
|---|---|---|
| `FilterDescriptorExtensions.GetPolicyRequirements` | src/FilterDescriptorExtensions.cs:10-32 | The backward loop with its early break returns exactly `PolicyRequirements` of the descriptors: the last descriptor's block first, cut off at an allow-anonymous filter. The input is a value, so it is left unchanged |
| `FilterDescriptorExtensions.LastAllowAnonymous` | src/FilterDescriptorExtensions.cs:14-20 | The index where the scan stops: an allow-anonymous descriptor with none after it, or -1 exactly when there is none |
| `FilterDescriptorExtensions.PolicyRequirementsBasics` | src/FilterDescriptorExtensions.cs:12-20 | No descriptors give no requirements. A trailing allow-anonymous filter gives none. A single other descriptor gives its own block |
| `FilterDescriptorExtensions.AppendWithoutAllowAnonymous` | src/FilterDescriptorExtensions.cs:14-26 | If the later descriptors have no allow-anonymous filter, their requirements come first and the earlier ones' follow. Each block keeps its own order |
| `FilterDescriptorExtensions.AppendWithAllowAnonymous` | src/FilterDescriptorExtensions.cs:14-20 | If the later descriptors hold an allow-anonymous filter, nothing before them contributes |
| `FilterDescriptorExtensions.PrefixThroughAllowAnonymousIgnored` | src/FilterDescriptorExtensions.cs:17-20 | Everything up to and including an allow-anonymous descriptor can be dropped without changing the result |
| `FilterDescriptorExtensions.NeutralDescriptorIgnored` | src/FilterDescriptorExtensions.cs:22-28 | A descriptor that is neither allow-anonymous nor contributes anything can be inserted anywhere without effect. This covers other filters and authorize filters with a null policy |
| `FilterDescriptorExtensions.PolicyRequirementsMembership` | src/FilterDescriptorExtensions.cs:14-28 | A requirement is collected if and only if a descriptor after the last allow-anonymous filter contributes it |
| `FilterDescriptorExtensions.PolicyRequirementsLength` | src/FilterDescriptorExtensions.cs:26 | The result length is the sum of the block sizes after the last allow-anonymous filter |
| `FilterDescriptorExtensions.ForwardScanAgrees` | src/FilterDescriptorExtensions.cs:14-31 | A front-to-back reading gives the same list as the source's back-to-front loop. In it, allow-anonymous discards what was gathered and each block goes in front |
| `OperationFilterContextExtensions.ControllerAndActionAttributes` | src/OperationFilterContextExtensions.cs:10-19 | The result is the controller attributes followed by the action attributes. Its length is the sum of both, the controller part is a prefix, and the multiset is the sum (no filtering, no deduplication) |
| `OpenApi.AddIfAbsent` | src/OperationFilters/UnauthorizedResponseOperationFilter.cs:31-35 | After a guarded `Add`, the key is present if and only if it was present before or the condition held. An existing entry is never replaced, an added one is the given response, and no other key changes |
| `OpenApi.AddIfAbsentIdempotent` | src/OperationFilters/ForbiddenResponseOperationFilter.cs:32-36 | A guarded add done twice gives the same map as done once |
| `OpenApi.AppendParameter` | src/OperationFilters/ContentTypeOperationFilter.cs:39-44 | A null parameter list becomes an empty one, then grows by exactly one. The old parameters keep their order and the new one is last |
| `OpenApi.AppendTwiceAddsTwo` | src/OperationFilters/ClientRequestIdOperationFilter.cs:31-36 | Appending is not idempotent: two applications add two parameters |
| `UnauthorizedResponse.UnauthorizedResponses` | src/OperationFilters/UnauthorizedResponseOperationFilter.cs:16-35 | "401" is present afterwards if and only if it was before or a deny-anonymous requirement applies. An existing "401" is kept, an added one is the fixed Unauthorized response, and other entries are unchanged |
| `UnauthorizedResponse.UnauthorizedResponsesIdempotent` | src/OperationFilters/UnauthorizedResponseOperationFilter.cs:31-35 | Applying the 401 filter twice equals applying it once |
| `UnauthorizedResponse.TrailingAllowAnonymousSuppressesUnauthorized` | src/OperationFilters/UnauthorizedResponseOperationFilter.cs:29-35 | A trailing allow-anonymous descriptor leaves the responses unchanged |
| `UnauthorizedResponse.DenyAnonymousAfterLastAllowAnonymousAdds401` | src/OperationFilters/UnauthorizedResponseOperationFilter.cs:29-35 | A deny-anonymous requirement in a policy after the last allow-anonymous filter always yields a documented "401" |
| `UnauthorizedResponse.UnauthorizedResponseOperationFilter.Apply` | src/OperationFilters/UnauthorizedResponseOperationFilter.cs:27-36 | Updates the responses in place to `UnauthorizedResponses` of the old ones. Parameters and security are unchanged |
| `ForbiddenResponse.HasAuthorizationRequirement` | src/OperationFilters/ForbiddenResponseOperationFilter.cs:39-53 | The early-return loop answers true if and only if some requirement is a claims, name, roles or assertion requirement. It answers false on an empty list |
| `ForbiddenResponse.OnlyPermissionRequirementsCount` | src/OperationFilters/ForbiddenResponseOperationFilter.cs:41-52 | A list of deny-anonymous (or unknown) requirements, or an empty list, has no permission requirement |
| `ForbiddenResponse.ForbiddenResponses` | src/OperationFilters/ForbiddenResponseOperationFilter.cs:17-36 | "403" is present afterwards if and only if it was before or a permission requirement applies. An existing "403" is kept, an added one is the fixed Forbidden response, and other entries are unchanged |
| `ForbiddenResponse.ForbiddenResponsesIdempotent` | src/OperationFilters/ForbiddenResponseOperationFilter.cs:32-36 | Applying the 403 filter twice equals applying it once |
| `ForbiddenResponse.NoPermissionRequirementNoForbidden` | src/OperationFilters/ForbiddenResponseOperationFilter.cs:30-36 | When no policy holds a claims, name, roles or assertion requirement (deny-anonymous only, say), the responses are unchanged |
| `ForbiddenResponse.ForbiddenResponseOperationFilter.Apply` | src/OperationFilters/ForbiddenResponseOperationFilter.cs:28-37 | Updates the responses in place to `ForbiddenResponses` of the old ones. Parameters and security are unchanged |
| `Claims.ClaimTypes` | src/OperationFilters/ClaimsOperationFilter.cs:36-39 | A claim type is listed if and only if some claims requirement names it. The list is no longer than the requirements |
| `Claims.ClaimTypesAppend` | src/OperationFilters/ClaimsOperationFilter.cs:36-39 | The projection keeps the requirements' order: it distributes over concatenation |
| `Claims.ClaimsSecurity` | src/OperationFilters/ClaimsOperationFilter.cs:41-58 | With no claim types, security is unchanged. Otherwise it is replaced by one requirement that maps the scheme reference with the configured id to exactly the claim types |
| `Claims.ClaimsAfterLastAllowAnonymousSetSecurity` | src/OperationFilters/ClaimsOperationFilter.cs:34-58 | A claims requirement in a policy after the last allow-anonymous filter always yields a one-element security list that names its claim type |
| `Claims.ClaimsOperationFilter.constructor` | src/OperationFilters/ClaimsOperationFilter.cs:21-24 | The reference id is the argument, by default "oauth2" |
| `Claims.ClaimsOperationFilter.Apply` | src/OperationFilters/ClaimsOperationFilter.cs:29-60 | A null operation or context is an ArgumentNull failure that changes nothing. Otherwise security becomes `ClaimsSecurity` of the old list, and responses and parameters are unchanged |
| `IdempotencyKey.IdempotencyAttributes` | src/OperationFilters/IdempotencyKeyOperationFilter.cs:35-36 | An attribute is kept if and only if it is in the input and its service type is named "IdempotencyFilterAttribute" |
| `IdempotencyKey.IdempotencyAttributesAppend` | src/OperationFilters/IdempotencyKeyOperationFilter.cs:35-36 | The filtering keeps order: it distributes over concatenation |
| `IdempotencyKey.ShouldBeIdempotentAtEitherLevel` | src/OperationFilters/IdempotencyKeyOperationFilter.cs:34-38 | The filter fires if and only if the controller or the action has an idempotency service filter |
| `IdempotencyKey.IdempotencyKeyParameter` | src/OperationFilters/IdempotencyKeyOperationFilter.cs:50-62 | The appended parameter is a required string header with the configured name and the given default |
| `IdempotencyKey.IdempotencyKeyOperationFilter.constructor` | src/OperationFilters/IdempotencyKeyOperationFilter.cs:20-23 | The parameter name is the argument, by default "Idempotency-Key" |
| `IdempotencyKey.IdempotencyKeyOperationFilter.GetControllerAndActionAttributes` | src/OperationFilters/IdempotencyKeyOperationFilter.cs:65-73 | The private copy builds the same list as `ControllerAndActionAttributes` |
| `IdempotencyKey.IdempotencyKeyOperationFilter.Apply` | src/OperationFilters/IdempotencyKeyOperationFilter.cs:32-63 | Without an idempotency attribute it returns normally and changes nothing, even for a null operation. With one, a null operation throws a null-reference failure; otherwise the idempotency-key header is appended (`AppendParameter`). Responses and security are unchanged |
| `ContentType.ContentTypeParameter` | src/OperationFilters/ContentTypeOperationFilter.cs:44-56 | The appended parameter is a string header named Content-Type. Its required flag, description and schema default are the configured ones |
| `ContentType.ContentTypeOperationFilter.constructor` | src/OperationFilters/ContentTypeOperationFilter.cs:23-30 | The configuration is the arguments, by default not required, "application/json" and the fixed description |
| `ContentType.ContentTypeOperationFilter.Apply` | src/OperationFilters/ContentTypeOperationFilter.cs:37-57 | Always appends the Content-Type header (`AppendParameter`). Responses and security are unchanged |
| `ClientRequestId.ClientRequestIdParameter` | src/OperationFilters/ClientRequestIdOperationFilter.cs:36-48 | The appended parameter is a required string header with the configured name and the given default |
| `ClientRequestId.ClientRequestIdOperationFilter.constructor` | src/OperationFilters/ClientRequestIdOperationFilter.cs:17-20 | The parameter name is the argument, by default "x-client-request-id" |
| `ClientRequestId.ClientRequestIdOperationFilter.Apply` | src/OperationFilters/ClientRequestIdOperationFilter.cs:29-49 | Always appends the client-request-id header (`AppendParameter`). Responses and security are unchanged |
| `CorrelationId.CorrelationIdParameter` | src/OperationFilters/CorellationIdOperationFilter.cs:36-48 | The appended parameter is a required string header with the configured name and the given default |
| `CorrelationId.CorrelationIdOperationFilter.constructor` | src/OperationFilters/CorellationIdOperationFilter.cs:21-24 | The parameter name is the argument, by default "X-Correlation-ID" |
| `CorrelationId.CorrelationIdOperationFilter.Apply` | src/OperationFilters/CorellationIdOperationFilter.cs:29-49 | Always appends the correlation-id header (`AppendParameter`). Responses and security are unchanged |
| `SecurityRequirements.PolicySelector` | src/OperationFilters/SecurityRequirementsOperationFilter.cs:33-36 | Every selected name is non-empty, and a name is selected if and only if some attribute carries it as a non-null, non-empty policy |
| `SecurityRequirements.PolicySelectorSingle` | src/OperationFilters/SecurityRequirementsOperationFilter.cs:34-36 | One attribute yields its policy when that is non-null and non-empty, and nothing otherwise |
| `SecurityRequirements.PolicySelectorAppend` | src/OperationFilters/SecurityRequirementsOperationFilter.cs:34-36 | The selector keeps the attributes' order: it distributes over concatenation |
| `SecurityRequirements.SecurityRequirementsOperationFilter.constructor` | src/OperationFilters/SecurityRequirementsOperationFilter.cs:28-39 | The inner filter gets the arguments as given (defaults true, "oauth2" and the two fixed descriptions) and `PolicySelector` |
| `JsonPatchSchema.JsonPatchExample` | src/SchemaFilters/JsonPatchDocumentSchemaFilter.cs:15-70 | The example has nine objects, each carrying the members section 4 of RFC 6902 requires for its operation, and together they use all six names. "remove" has no "value", and only "copy" and "move" carry "from" |
| `JsonPatchSchema.PatchedDocumentation` | src/SchemaFilters/JsonPatchDocumentSchemaFilter.cs:72-97 | For a constructed `JsonPatchDocument<T>`, the default and the example are both the fixed example and the external docs are the jsonpatch.com link. For other types the schema is unchanged |
| `JsonPatchSchema.PatchedDocumentationIdempotent` | src/SchemaFilters/JsonPatchDocumentSchemaFilter.cs:94-96 | Applying the schema filter twice equals applying it once |
| `JsonPatchSchema.JsonPatchDocumentSchemaFilter.Apply` | src/SchemaFilters/JsonPatchDocumentSchemaFilter.cs:79-98 | A null schema or context is an ArgumentNull failure. Otherwise the three fields become `PatchedDocumentation` of their old values |

## Left out

- src/SwaggerGenOptionsExtensions.cs is not part of this model. It checks for files on disk, looks up assembly locations and calls into Swashbuckle's XML-comment support: file-system I/O and foreign calls.
- Reflection is not modelled. This covers `GetCustomAttributes<T>`, `GetTypeInfo`, `GetGenericTypeDefinition` and the `is` tests on framework classes. Their results are inputs: the descriptor list and the two service-filter attribute lists in `OperationFilterContext`, and the generic definition and arguments in `ClrType`.
- `Guid.NewGuid()`, the default value of the client-request-id, correlation-id and idempotency-key headers, is nondeterministic. It is the `guid` argument of those `Apply` methods.
- SecurityRequirementsOperationFilter.Apply: not modelled. It hands the operation and context to the generic `SecurityRequirementsOperationFilter<AuthorizeAttribute>`, which is not part of this model. Only the arguments the wrapper gives that filter are modelled.
- The OpenAPI object model keeps only the fields the filters touch, and its objects are values, so sharing (aliasing) is not captured. This covers a parameter list or response dictionary shared with another object, the single static `Unauthorized` and `Forbidden` response objects that go into every operation, and the single static example array that becomes both the default and the example of every patched schema. A later change made through one of these references would reach every holder in the source, but not in the model.
- Descriptions are opaque string constants, copied as the source has them. Localisation is not modelled.
- Null-reference failures the source does not guard against are ruled out by non-null types, except in the idempotency-key filter. That filter's `Apply` takes a nullable operation: it returns normally when it does not fire and fails only when it fires. The cases ruled out are these. A null `Responses`, or a null `ServiceType` on a service-filter attribute, would throw. A null operation given to the 401, 403, Content-Type, client-request-id or correlation-id filter would throw. A null context given to the 401, 403 or idempotency-key filter would throw on its first access. The other header filters never read the context.
- `ForbiddenResponseOperationFilter` is written against Swashbuckle's older `Operation` and `Response` types, while the other filters use `OpenApiOperation`. It is modelled on the same `Operation` class.
- `Dictionary.Add` throws on a duplicate key. That case is not modelled because both response filters test `ContainsKey` first.
