/**
 * SecurityRequirementsOperationFilter: the non-generic wrapper that fixes the
 * attribute type to AuthorizeAttribute, supplies the policy selector and the
 * defaults, and hands everything to the generic filter.
 */
module SecurityRequirements {
  import opened Authorization

  const DefaultIncludeUnauthorizedAndForbiddenResponses: bool := true
  const DefaultSecuritySchemaName: string := "oauth2"
  const DefaultUnauthorizedResponseDescription: string :=
    "Не авторизован - Пользователь не предоставил необходимых учётных данных для доступа к ресурсу."
  const DefaultForbiddenResponseDescription: string :=
    "Запрещено - Пользователь не имеет необходимых прав для доступа к ресурсу."

  /** The attribute's policy name is neither null nor empty. */
  predicate HasPolicy(a: AuthorizeAttribute)
  {
    a.policy.Some? && a.policy.value != ""
  }

  /** Some attribute in the list names policy `p`. */
  predicate NamesPolicy(authAttributes: seq<AuthorizeAttribute>, p: string)
  {
    exists i :: 0 <= i < |authAttributes| && HasPolicy(authAttributes[i]) && authAttributes[i].policy.value == p
  }

  /**
   * The policy selector: the policy name of each attribute that has one, in order.
   * Every name it yields is non-empty, and a name is yielded exactly when some
   * attribute carries it.
   */
  function PolicySelector(authAttributes: seq<AuthorizeAttribute>): (policies: seq<string>)
    ensures |policies| <= |authAttributes|
    ensures forall i :: 0 <= i < |policies| ==> policies[i] != ""
    ensures forall p :: p in policies <==> NamesPolicy(authAttributes, p)
  {
    if authAttributes == [] then []
    else
      var a, rest := authAttributes[0], authAttributes[1..];
      assert forall p :: NamesPolicy(rest, p) ==> NamesPolicy(authAttributes, p) by {
        forall p | NamesPolicy(rest, p) ensures NamesPolicy(authAttributes, p) {
          var i :| 0 <= i < |rest| && HasPolicy(rest[i]) && rest[i].policy.value == p;
          assert authAttributes[i + 1] == rest[i];
        }
      }
      assert forall p :: NamesPolicy(authAttributes, p) && !(HasPolicy(a) && a.policy.value == p) ==> NamesPolicy(rest, p) by {
        forall p | NamesPolicy(authAttributes, p) && !(HasPolicy(a) && a.policy.value == p) ensures NamesPolicy(rest, p) {
          var i :| 0 <= i < |authAttributes| && HasPolicy(authAttributes[i]) && authAttributes[i].policy.value == p;
          assert i > 0 && rest[i - 1] == authAttributes[i];
        }
      }
      (if HasPolicy(a) then [a.policy.value] else []) + PolicySelector(rest)
  }

  /** One attribute yields its policy name when it has one, and nothing otherwise. */
  lemma PolicySelectorSingle(a: AuthorizeAttribute)
    ensures PolicySelector([a]) == if HasPolicy(a) then [a.policy.value] else []
  {
  }

  /** The selector keeps the attributes' order: it distributes over concatenation. */
  lemma {:induction false} PolicySelectorAppend(a: seq<AuthorizeAttribute>, b: seq<AuthorizeAttribute>)
    ensures PolicySelector(a + b) == PolicySelector(a) + PolicySelector(b)
    decreases |a|
  {
    if a == [] {
      assert a + b == b;
    } else {
      assert (a + b)[0] == a[0];
      assert (a + b)[1..] == a[1..] + b;
      PolicySelectorAppend(a[1..], b);
    }
  }

  /** The arguments the wrapper passes to SecurityRequirementsOperationFilter<AuthorizeAttribute>. */
  datatype InnerFilter = InnerFilter(
    policySelector: seq<AuthorizeAttribute> -> seq<string>,
    includeUnauthorizedAndForbiddenResponses: bool,
    securitySchemaName: string,
    unauthorizedResponseDescription: string,
    forbiddenResponseDescription: string)

  class SecurityRequirementsOperationFilter {
    const filter: InnerFilter

    /** Builds the generic filter from the arguments as given and from PolicySelector. */
    constructor (includeUnauthorizedAndForbiddenResponses: bool := DefaultIncludeUnauthorizedAndForbiddenResponses,
                 securitySchemaName: string := DefaultSecuritySchemaName,
                 unauthorizedResponseDescription: string := DefaultUnauthorizedResponseDescription,
                 forbiddenResponseDescription: string := DefaultForbiddenResponseDescription)
      ensures filter.includeUnauthorizedAndForbiddenResponses == includeUnauthorizedAndForbiddenResponses
      ensures filter.securitySchemaName == securitySchemaName
      ensures filter.unauthorizedResponseDescription == unauthorizedResponseDescription
      ensures filter.forbiddenResponseDescription == forbiddenResponseDescription
      ensures forall attributes :: filter.policySelector(attributes) == PolicySelector(attributes)
    {
      filter := InnerFilter(PolicySelector, includeUnauthorizedAndForbiddenResponses, securitySchemaName,
                            unauthorizedResponseDescription, forbiddenResponseDescription);
    }
  }
}
