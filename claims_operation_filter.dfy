/**
 * ClaimsOperationFilter: lists the claim types the applicable policies demand
 * as the scopes of a single security requirement on the operation.
 */
module Claims {
  import opened Wrappers
  import opened Authorization
  import opened OpenApi
  import opened FilterDescriptorExtensions
  import opened OperationFilterContextExtensions

  const DefaultReferenceId: string := "oauth2"

  /** Some claims requirement in the list is for claim type `c`. */
  predicate DemandsClaim(requirements: seq<Requirement>, c: string)
  {
    exists i :: 0 <= i < |requirements| && requirements[i].ClaimsRequirement? && requirements[i].claimType == c
  }

  /**
   * The claim types the policies demand: the claim type of every claims
   * requirement, in order; requirements of other kinds are skipped.
   */
  function ClaimTypes(requirements: seq<Requirement>): (claimTypes: seq<string>)
    ensures |claimTypes| <= |requirements|
    ensures forall c :: c in claimTypes <==> DemandsClaim(requirements, c)
  {
    if requirements == [] then []
    else
      var rest := ClaimTypes(requirements[1..]);
      assert forall c :: DemandsClaim(requirements[1..], c) ==> DemandsClaim(requirements, c) by {
        forall c | DemandsClaim(requirements[1..], c) ensures DemandsClaim(requirements, c) {
          var i :| 0 <= i < |requirements[1..]| && requirements[1..][i].ClaimsRequirement? && requirements[1..][i].claimType == c;
          assert requirements[i + 1] == requirements[1..][i];
        }
      }
      assert forall c :: DemandsClaim(requirements, c) && !(requirements[0].ClaimsRequirement? && requirements[0].claimType == c)
                         ==> DemandsClaim(requirements[1..], c) by {
        forall c | DemandsClaim(requirements, c) && !(requirements[0].ClaimsRequirement? && requirements[0].claimType == c)
          ensures DemandsClaim(requirements[1..], c)
        {
          var i :| 0 <= i < |requirements| && requirements[i].ClaimsRequirement? && requirements[i].claimType == c;
          assert i > 0 && requirements[1..][i - 1] == requirements[i];
        }
      }
      match requirements[0]
      case ClaimsRequirement(claimType, _) => [claimType] + rest
      case _ => rest
  }

  /** The projection keeps the order of the requirements: it distributes over concatenation. */
  lemma {:induction false} ClaimTypesAppend(a: seq<Requirement>, b: seq<Requirement>)
    ensures ClaimTypes(a + b) == ClaimTypes(a) + ClaimTypes(b)
    decreases |a|
  {
    if a != [] {
      assert (a + b)[0] == a[0];
      assert (a + b)[1..] == a[1..] + b;
      ClaimTypesAppend(a[1..], b);
    } else {
      assert a + b == b;
    }
  }

  /**
   * `operation.Security` after the filter: unchanged when there are no claim
   * types, otherwise replaced by one requirement that maps the scheme
   * reference `referenceId` to exactly those claim types.
   */
  function ClaimsSecurity(security: seq<SecurityRequirement>, referenceId: string, claimTypes: seq<string>): (r: seq<SecurityRequirement>)
    ensures claimTypes == [] ==> r == security
    ensures claimTypes != [] ==>
              |r| == 1 &&
              r[0].Keys == {SecurityScheme(referenceId, SecuritySchemeReference)} &&
              r[0][SecurityScheme(referenceId, SecuritySchemeReference)] == claimTypes
  {
    if claimTypes == [] then security
    else [map[SecurityScheme(referenceId, SecuritySchemeReference) := claimTypes]]
  }

  /**
   * A claims requirement in a policy placed after every allow-anonymous filter
   * always replaces the security list with a single requirement naming it.
   */
  lemma ClaimsAfterLastAllowAnonymousSetSecurity(security: seq<SecurityRequirement>, referenceId: string,
                                                descriptors: seq<FilterDescriptor>, k: nat, c: string, allowed: Option<seq<string>>)
    requires LastAllowAnonymous(descriptors) < k < |descriptors|
    requires ClaimsRequirement(c, allowed) in Contribution(descriptors[k])
    ensures var r := ClaimsSecurity(security, referenceId, ClaimTypes(PolicyRequirements(descriptors)));
            |r| == 1 && SecurityScheme(referenceId, SecuritySchemeReference) in r[0] &&
            c in r[0][SecurityScheme(referenceId, SecuritySchemeReference)]
  {
    var requirements := PolicyRequirements(descriptors);
    PolicyRequirementsMembership(descriptors, ClaimsRequirement(c, allowed));
    var i :| 0 <= i < |requirements| && requirements[i] == ClaimsRequirement(c, allowed);
    assert DemandsClaim(requirements, c);
  }

  class ClaimsOperationFilter {
    const referenceId: string

    constructor (securitySchemeReferenceId: string := DefaultReferenceId)
      ensures referenceId == securitySchemeReferenceId
    {
      referenceId := securitySchemeReferenceId;
    }

    /**
     * Throws on a null operation or context (leaving the operation alone);
     * otherwise sets `operation.Security` as ClaimsSecurity says and touches
     * nothing else.
     */
    method Apply(operation: Operation?, context: Option<OperationFilterContext>) returns (outcome: Outcome)
      modifies operation
      ensures operation == null ==> outcome == Fail(ArgumentNull("operation"))
      ensures operation != null && context.None? ==>
                outcome == Fail(ArgumentNull("context")) && operation.security == old(operation.security)
      ensures operation != null && context.Some? ==>
                outcome == Pass &&
                operation.security == ClaimsSecurity(old(operation.security), referenceId,
                                                     ClaimTypes(PolicyRequirements(context.value.filterDescriptors)))
      ensures operation != null ==>
                operation.responses == old(operation.responses) && operation.parameters == old(operation.parameters)
    {
      if operation == null {
        return Fail(ArgumentNull("operation"));
      }
      if context.None? {
        return Fail(ArgumentNull("context"));
      }
      var filterDescriptors := context.value.filterDescriptors;
      var authorizationRequirements := GetPolicyRequirements(filterDescriptors);
      var claimTypes := ClaimTypes(authorizationRequirements);
      if claimTypes != [] {
        operation.security := [map[SecurityScheme(referenceId, SecuritySchemeReference) := claimTypes]];
      }
      return Pass;
    }
  }
}
