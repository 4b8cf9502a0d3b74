/**
 * ForbiddenResponseOperationFilter: documents a 403 response on every
 * operation whose applicable policies hold a requirement a signed-in user can
 * still fail (claims, name, roles or an assertion).
 */
module ForbiddenResponse {
  import opened Authorization
  import opened OpenApi
  import opened FilterDescriptorExtensions
  import opened OperationFilterContextExtensions

  const ForbiddenStatusCode: string := "403"
  const ForbiddenResponse: Response :=
    Response("Forbidden - The user does not have the necessary permissions to access the resource.")

  /** The requirement kinds that can deny an authenticated user. */
  predicate IsPermissionRequirement(r: Requirement)
  {
    r.ClaimsRequirement? || r.NameRequirement? || r.RolesRequirement? || r.AssertionRequirement?
  }

  predicate ContainsPermissionRequirement(requirements: seq<Requirement>)
  {
    exists i :: 0 <= i < |requirements| && IsPermissionRequirement(requirements[i])
  }

  /** The source's early-return foreach over the requirements. */
  method HasAuthorizationRequirement(authorizationRequirements: seq<Requirement>) returns (found: bool)
    ensures found <==> ContainsPermissionRequirement(authorizationRequirements)
  {
    for i := 0 to |authorizationRequirements|
      invariant forall j :: 0 <= j < i ==> !IsPermissionRequirement(authorizationRequirements[j])
    {
      var authorizationRequirement := authorizationRequirements[i];
      if authorizationRequirement.ClaimsRequirement? ||
         authorizationRequirement.NameRequirement? ||
         authorizationRequirement.RolesRequirement? ||
         authorizationRequirement.AssertionRequirement?
      {
        return true;
      }
    }
    return false;
  }

  /** Deny-anonymous requirements (and unknown ones) never call for a 403; neither does an empty list. */
  lemma OnlyPermissionRequirementsCount(requirements: seq<Requirement>)
    requires forall i :: 0 <= i < |requirements| ==> requirements[i] == DenyAnonymous || requirements[i] == OtherRequirement
    ensures !ContainsPermissionRequirement(requirements)
  {
  }

  /**
   * The responses after the filter: "403" is present exactly when it was
   * before or a permission requirement applies; an existing "403" keeps its
   * value, an added one is the fixed Forbidden response, and every other
   * entry is as it was.
   */
  function ForbiddenResponses(responses: map<string, Response>, descriptors: seq<FilterDescriptor>): (r: map<string, Response>)
    ensures ForbiddenStatusCode in r <==>
              ForbiddenStatusCode in responses || ContainsPermissionRequirement(PolicyRequirements(descriptors))
    ensures ForbiddenStatusCode in responses ==> r[ForbiddenStatusCode] == responses[ForbiddenStatusCode]
    ensures ForbiddenStatusCode !in responses && ContainsPermissionRequirement(PolicyRequirements(descriptors)) ==>
              r[ForbiddenStatusCode] == ForbiddenResponse
    ensures forall k :: k != ForbiddenStatusCode ==> (k in r <==> k in responses)
    ensures forall k :: k != ForbiddenStatusCode && k in r ==> r[k] == responses[k]
  {
    AddIfAbsent(responses, ForbiddenStatusCode, ForbiddenResponse, ContainsPermissionRequirement(PolicyRequirements(descriptors)))
  }

  /** Applying the filter a second time changes nothing. */
  lemma ForbiddenResponsesIdempotent(responses: map<string, Response>, descriptors: seq<FilterDescriptor>)
    ensures ForbiddenResponses(ForbiddenResponses(responses, descriptors), descriptors)
            == ForbiddenResponses(responses, descriptors)
  {
    AddIfAbsentIdempotent(responses, ForbiddenStatusCode, ForbiddenResponse,
                          ContainsPermissionRequirement(PolicyRequirements(descriptors)));
  }

  /**
   * When no descriptor's policy holds a claims, name, roles or assertion
   * requirement (deny-anonymous ones only, say), no 403 is documented.
   */
  lemma NoPermissionRequirementNoForbidden(responses: map<string, Response>, descriptors: seq<FilterDescriptor>)
    requires forall k, x :: 0 <= k < |descriptors| && x in Contribution(descriptors[k]) ==> !IsPermissionRequirement(x)
    ensures ForbiddenResponses(responses, descriptors) == responses
  {
    var requirements := PolicyRequirements(descriptors);
    if ContainsPermissionRequirement(requirements) {
      var i :| 0 <= i < |requirements| && IsPermissionRequirement(requirements[i]);
      PolicyRequirementsMembership(descriptors, requirements[i]);
      assert false;
    }
  }

  class ForbiddenResponseOperationFilter {

    constructor ()
    {
    }

    /** Adds the 403 entry to the operation's responses in place, when absent and required. */
    method Apply(operation: Operation, context: OperationFilterContext)
      modifies operation
      ensures operation.responses == ForbiddenResponses(old(operation.responses), context.filterDescriptors)
      ensures operation.parameters == old(operation.parameters)
      ensures operation.security == old(operation.security)
    {
      var filterDescriptors := context.filterDescriptors;
      var authorizationRequirements := GetPolicyRequirements(filterDescriptors);
      if ForbiddenStatusCode !in operation.responses {
        var hasRequirement := HasAuthorizationRequirement(authorizationRequirements);
        if hasRequirement {
          operation.responses := operation.responses[ForbiddenStatusCode := ForbiddenResponse];
        }
      }
    }
  }
}
