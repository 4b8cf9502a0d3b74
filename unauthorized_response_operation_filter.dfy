/**
 * UnauthorizedResponseOperationFilter: documents a 401 response on every
 * operation whose applicable policies demand an authenticated user.
 */
module UnauthorizedResponse {
  import opened Authorization
  import opened OpenApi
  import opened FilterDescriptorExtensions
  import opened OperationFilterContextExtensions

  const UnauthorizedStatusCode: string := "401"
  const UnauthorizedResponse: Response :=
    Response("Unauthorized - The user has not supplied the necessary credentials to access the resource.")

  /** Some requirement is a deny-anonymous requirement. */
  predicate HasDenyAnonymous(requirements: seq<Requirement>)
  {
    DenyAnonymous in requirements
  }

  /**
   * The responses after the filter: "401" is present exactly when it was
   * before or a deny-anonymous requirement applies; an existing "401" keeps its
   * value, an added one is the fixed Unauthorized response, and every other
   * entry is as it was.
   */
  function UnauthorizedResponses(responses: map<string, Response>, descriptors: seq<FilterDescriptor>): (r: map<string, Response>)
    ensures UnauthorizedStatusCode in r <==>
              UnauthorizedStatusCode in responses || DenyAnonymous in PolicyRequirements(descriptors)
    ensures UnauthorizedStatusCode in responses ==> r[UnauthorizedStatusCode] == responses[UnauthorizedStatusCode]
    ensures UnauthorizedStatusCode !in responses && DenyAnonymous in PolicyRequirements(descriptors) ==>
              r[UnauthorizedStatusCode] == UnauthorizedResponse
    ensures forall k :: k != UnauthorizedStatusCode ==> (k in r <==> k in responses)
    ensures forall k :: k != UnauthorizedStatusCode && k in r ==> r[k] == responses[k]
  {
    AddIfAbsent(responses, UnauthorizedStatusCode, UnauthorizedResponse, HasDenyAnonymous(PolicyRequirements(descriptors)))
  }

  /** Applying the filter a second time changes nothing. */
  lemma UnauthorizedResponsesIdempotent(responses: map<string, Response>, descriptors: seq<FilterDescriptor>)
    ensures UnauthorizedResponses(UnauthorizedResponses(responses, descriptors), descriptors)
            == UnauthorizedResponses(responses, descriptors)
  {
    AddIfAbsentIdempotent(responses, UnauthorizedStatusCode, UnauthorizedResponse,
                          HasDenyAnonymous(PolicyRequirements(descriptors)));
  }

  /** A trailing allow-anonymous filter leaves the responses as they were. */
  lemma TrailingAllowAnonymousSuppressesUnauthorized(responses: map<string, Response>, descriptors: seq<FilterDescriptor>)
    requires descriptors != [] && IsAllowAnonymous(descriptors[|descriptors| - 1])
    ensures UnauthorizedResponses(responses, descriptors) == responses
  {
  }

  /**
   * A deny-anonymous requirement in a policy placed after every allow-anonymous
   * filter always leads to a documented 401.
   */
  lemma DenyAnonymousAfterLastAllowAnonymousAdds401(responses: map<string, Response>, descriptors: seq<FilterDescriptor>, k: nat)
    requires LastAllowAnonymous(descriptors) < k < |descriptors|
    requires DenyAnonymous in Contribution(descriptors[k])
    ensures UnauthorizedStatusCode in UnauthorizedResponses(responses, descriptors)
  {
    PolicyRequirementsMembership(descriptors, DenyAnonymous);
  }

  class UnauthorizedResponseOperationFilter {

    constructor ()
    {
    }

    /** Adds the 401 entry to the operation's responses in place, when absent and required. */
    method Apply(operation: Operation, context: OperationFilterContext)
      modifies operation
      ensures operation.responses == UnauthorizedResponses(old(operation.responses), context.filterDescriptors)
      ensures operation.parameters == old(operation.parameters)
      ensures operation.security == old(operation.security)
    {
      var filterDescriptors := context.filterDescriptors;
      var authorizationRequirements := GetPolicyRequirements(filterDescriptors);
      if UnauthorizedStatusCode !in operation.responses && HasDenyAnonymous(authorizationRequirements) {
        operation.responses := operation.responses[UnauthorizedStatusCode := UnauthorizedResponse];
      }
    }
  }
}
