/**
 * The authorization metadata the host framework hands to the filters:
 * policy requirements, authorization policies, action filters and their
 * descriptors, and the Authorize attribute. Reflection (`is` tests on the
 * framework's classes) becomes a match on these constructors.
 */
module Authorization {
  import opened Wrappers

  /** IAuthorizationRequirement, one constructor per class the filters test for. */
  datatype Requirement =
    | DenyAnonymous                                                          // DenyAnonymousAuthorizationRequirement
    | ClaimsRequirement(claimType: string, allowedValues: Option<seq<string>>) // ClaimsAuthorizationRequirement
    | NameRequirement(requiredName: string)                                  // NameAuthorizationRequirement
    | RolesRequirement(allowedRoles: seq<string>)                            // RolesAuthorizationRequirement
    | AssertionRequirement                                                   // AssertionRequirement (its handler is code)
    | OtherRequirement                                                       // any other implementation

  /** AuthorizationPolicy: only its requirement list is read. */
  datatype Policy = Policy(requirements: seq<Requirement>)

  /** The filter object of a descriptor: AllowAnonymousFilter, AuthorizeFilter (with a possibly null policy), or anything else. */
  datatype Filter =
    | AllowAnonymousFilter
    | AuthorizeFilter(policy: Option<Policy>)
    | OtherFilter

  datatype FilterDescriptor = FilterDescriptor(filter: Filter)

  /** AuthorizeAttribute: only its (possibly null) Policy name is read. */
  datatype AuthorizeAttribute = AuthorizeAttribute(policy: Option<string>)
}
