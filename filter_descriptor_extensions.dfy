/**
 * FilterDescriptorExtensions.GetPolicyRequirements: the requirements of the
 * authorization policies that still apply to an action, found by walking its
 * filter descriptors from the last one back to the first and stopping at the
 * first allow-anonymous filter met on the way.
 */
module FilterDescriptorExtensions {
  import opened Wrappers
  import opened Authorization

  predicate IsAllowAnonymous(d: FilterDescriptor)
  {
    d.filter.AllowAnonymousFilter?
  }

  /** The requirements one descriptor adds when the scan reaches it: those of an authorize filter with a non-null policy. */
  function Contribution(d: FilterDescriptor): seq<Requirement>
  {
    match d.filter
    case AuthorizeFilter(Some(policy)) => policy.requirements
    case _ => []
  }

  predicate HasAllowAnonymous(ds: seq<FilterDescriptor>)
  {
    exists k :: 0 <= k < |ds| && IsAllowAnonymous(ds[k])
  }

  /**
   * What GetPolicyRequirements returns: the last descriptor's contribution
   * first, then the rest of the list, cut off at an allow-anonymous filter.
   */
  function PolicyRequirements(ds: seq<FilterDescriptor>): seq<Requirement>
    decreases |ds|
  {
    if ds == [] then []
    else if IsAllowAnonymous(ds[|ds| - 1]) then []
    else Contribution(ds[|ds| - 1]) + PolicyRequirements(ds[..|ds| - 1])
  }

  /** Index of the last allow-anonymous descriptor, or -1 when there is none. */
  function LastAllowAnonymous(ds: seq<FilterDescriptor>): (r: int)
    ensures -1 <= r < |ds|
    ensures r >= 0 ==> IsAllowAnonymous(ds[r])
    ensures forall k :: r < k < |ds| ==> !IsAllowAnonymous(ds[k])
    ensures r == -1 <==> !HasAllowAnonymous(ds)
    decreases |ds|
  {
    if ds == [] then -1
    else if IsAllowAnonymous(ds[|ds| - 1]) then |ds| - 1
    else LastAllowAnonymous(ds[..|ds| - 1])
  }

  /** The sum of the sizes of the descriptors' contributions. */
  function ContributionSize(ds: seq<FilterDescriptor>): nat
    decreases |ds|
  {
    if ds == [] then 0 else ContributionSize(ds[..|ds| - 1]) + |Contribution(ds[|ds| - 1])|
  }

  /**
   * A reference definition that reads the descriptors front to back instead:
   * an allow-anonymous filter discards everything gathered so far, and every
   * other descriptor puts its contribution in front of what was gathered.
   */
  function ForwardScan(gathered: seq<Requirement>, ds: seq<FilterDescriptor>): seq<Requirement>
    decreases |ds|
  {
    if ds == [] then gathered
    else if IsAllowAnonymous(ds[0]) then ForwardScan([], ds[1..])
    else ForwardScan(Contribution(ds[0]) + gathered, ds[1..])
  }

  /**
   * The loop of the source: a descending index, a break at the first
   * allow-anonymous filter, and AddRange of each non-null policy's requirements.
   * The input is a value, so it is not changed, and the result is a new list.
   */
  method GetPolicyRequirements(filterDescriptors: seq<FilterDescriptor>) returns (policyRequirements: seq<Requirement>)
    ensures policyRequirements == PolicyRequirements(filterDescriptors)
  {
    policyRequirements := [];
    var i := |filterDescriptors| - 1;
    assert filterDescriptors[..i + 1] == filterDescriptors;
    while i >= 0
      invariant -1 <= i < |filterDescriptors|
      invariant policyRequirements + PolicyRequirements(filterDescriptors[..i + 1]) == PolicyRequirements(filterDescriptors)
      decreases i
    {
      var filterDescriptor := filterDescriptors[i];
      ghost var scanned := filterDescriptors[..i + 1];
      assert scanned[..i] == filterDescriptors[..i] && scanned[i] == filterDescriptor;
      if filterDescriptor.filter.AllowAnonymousFilter? {
        assert PolicyRequirements(scanned) == [];
        break;
      }
      ghost var rest := PolicyRequirements(filterDescriptors[..i]);
      assert PolicyRequirements(scanned) == Contribution(filterDescriptor) + rest;
      ghost var before := policyRequirements;
      if filterDescriptor.filter.AuthorizeFilter? {
        if filterDescriptor.filter.policy.Some? {
          policyRequirements := policyRequirements + filterDescriptor.filter.policy.value.requirements;
        }
      }
      ConcatAssociative(before, Contribution(filterDescriptor), rest);
      i := i - 1;
    }
  }

  lemma ConcatAssociative(a: seq<Requirement>, b: seq<Requirement>, c: seq<Requirement>)
    ensures (a + b) + c == a + (b + c)
  {
  }

  /** The simple cases: no descriptors, a trailing allow-anonymous filter, a single descriptor. */
  lemma PolicyRequirementsBasics(ds: seq<FilterDescriptor>, d: FilterDescriptor)
    ensures PolicyRequirements([]) == []
    ensures IsAllowAnonymous(d) ==> PolicyRequirements(ds + [d]) == []
    ensures !IsAllowAnonymous(d) ==> PolicyRequirements([d]) == Contribution(d)
  {
  }

  /**
   * When the later part holds no allow-anonymous filter, its requirements come
   * first and the earlier part's follow: later blocks precede earlier ones.
   */
  lemma {:induction false} AppendWithoutAllowAnonymous(a: seq<FilterDescriptor>, b: seq<FilterDescriptor>)
    requires !HasAllowAnonymous(b)
    ensures PolicyRequirements(a + b) == PolicyRequirements(b) + PolicyRequirements(a)
    decreases |b|
  {
    if b == [] {
      assert a + b == a;
    } else {
      var n := |b| - 1;
      assert (a + b)[..|a + b| - 1] == a + b[..n];
      assert (a + b)[|a + b| - 1] == b[n];
      assert !HasAllowAnonymous(b[..n]) by {
        forall k | 0 <= k < n ensures !IsAllowAnonymous(b[..n][k]) {
          assert b[..n][k] == b[k];
        }
      }
      assert !IsAllowAnonymous(b[n]);
      AppendWithoutAllowAnonymous(a, b[..n]);
    }
  }

  /** When the later part holds an allow-anonymous filter, the earlier part contributes nothing. */
  lemma {:induction false} AppendWithAllowAnonymous(a: seq<FilterDescriptor>, b: seq<FilterDescriptor>)
    requires HasAllowAnonymous(b)
    ensures PolicyRequirements(a + b) == PolicyRequirements(b)
    decreases |b|
  {
    var n := |b| - 1;
    assert (a + b)[..|a + b| - 1] == a + b[..n];
    assert (a + b)[|a + b| - 1] == b[n];
    if !IsAllowAnonymous(b[n]) {
      var k :| 0 <= k < |b| && IsAllowAnonymous(b[k]);
      assert b[..n][k] == b[k];
      AppendWithAllowAnonymous(a, b[..n]);
    }
  }

  /**
   * Nothing at or before an allow-anonymous filter contributes: whatever
   * precedes it, and the filter itself, can be dropped.
   */
  lemma PrefixThroughAllowAnonymousIgnored(a: seq<FilterDescriptor>, b: seq<FilterDescriptor>)
    requires a != [] && IsAllowAnonymous(a[|a| - 1])
    ensures PolicyRequirements(a + b) == PolicyRequirements(b)
  {
    if HasAllowAnonymous(b) {
      AppendWithAllowAnonymous(a, b);
    } else {
      AppendWithoutAllowAnonymous(a, b);
    }
  }

  /**
   * Descriptors that contribute nothing (filters of other kinds, authorize
   * filters with a null policy) can be inserted anywhere without effect.
   */
  lemma NeutralDescriptorIgnored(a: seq<FilterDescriptor>, d: FilterDescriptor, b: seq<FilterDescriptor>)
    requires !IsAllowAnonymous(d) && Contribution(d) == []
    ensures PolicyRequirements(a + [d] + b) == PolicyRequirements(a + b)
  {
    assert a + [d] + b == (a + [d]) + b;
    if HasAllowAnonymous(b) {
      AppendWithAllowAnonymous(a + [d], b);
      AppendWithAllowAnonymous(a, b);
    } else {
      AppendWithoutAllowAnonymous(a + [d], b);
      AppendWithoutAllowAnonymous(a, b);
      AppendWithoutAllowAnonymous(a, [d]);
    }
  }

  /** Some descriptor strictly after index `after` contributes `x`. */
  predicate ContributedAfter(ds: seq<FilterDescriptor>, after: int, x: Requirement)
  {
    exists k :: 0 <= k < |ds| && after < k && x in Contribution(ds[k])
  }

  /**
   * A requirement is collected exactly when some descriptor after the last
   * allow-anonymous filter contributes it.
   */
  lemma {:induction false} PolicyRequirementsMembership(ds: seq<FilterDescriptor>, x: Requirement)
    ensures x in PolicyRequirements(ds) <==> ContributedAfter(ds, LastAllowAnonymous(ds), x)
    decreases |ds|
  {
    if ds == [] {
    } else if IsAllowAnonymous(ds[|ds| - 1]) {
      assert LastAllowAnonymous(ds) == |ds| - 1;
    } else {
      var n := |ds| - 1;
      var init := ds[..n];
      var last := LastAllowAnonymous(init);
      PolicyRequirementsMembership(init, x);
      assert LastAllowAnonymous(ds) == last;
      assert PolicyRequirements(ds) == Contribution(ds[n]) + PolicyRequirements(init);
      if x in PolicyRequirements(ds) {
        if x in Contribution(ds[n]) {
          assert ContributedAfter(ds, last, x);
        } else {
          var k :| 0 <= k < |init| && last < k && x in Contribution(init[k]);
          assert init[k] == ds[k];
          assert ContributedAfter(ds, last, x);
        }
      }
      if ContributedAfter(ds, last, x) {
        var k :| 0 <= k < |ds| && last < k && x in Contribution(ds[k]);
        if k < n {
          assert init[k] == ds[k];
          assert ContributedAfter(init, last, x);
        }
      }
    }
  }

  /** The result length is the sum of the sizes of the blocks after the last allow-anonymous filter. */
  lemma {:induction false} PolicyRequirementsLength(ds: seq<FilterDescriptor>)
    ensures |PolicyRequirements(ds)| == ContributionSize(ds[LastAllowAnonymous(ds) + 1..])
    decreases |ds|
  {
    if ds == [] {
    } else if IsAllowAnonymous(ds[|ds| - 1]) {
      assert ds[|ds|..] == [];
    } else {
      var n := |ds| - 1;
      var init := ds[..n];
      var start := LastAllowAnonymous(ds) + 1;
      PolicyRequirementsLength(init);
      assert LastAllowAnonymous(init) + 1 == start;
      assert ds[start..][..|ds[start..]| - 1] == init[start..];
      assert ds[start..][|ds[start..]| - 1] == ds[n];
    }
  }

  /** The front-to-back reading agrees with the source's back-to-front loop. */
  lemma {:induction false} ForwardScanGathers(gathered: seq<Requirement>, ds: seq<FilterDescriptor>)
    ensures ForwardScan(gathered, ds) == PolicyRequirements(ds) + (if HasAllowAnonymous(ds) then [] else gathered)
    decreases |ds|
  {
    if ds != [] {
      var rest := ds[1..];
      assert ds == [ds[0]] + rest;
      assert HasAllowAnonymous(rest) ==> HasAllowAnonymous(ds) by {
        if HasAllowAnonymous(rest) {
          var k :| 0 <= k < |rest| && IsAllowAnonymous(rest[k]);
          assert ds[k + 1] == rest[k];
        }
      }
      if IsAllowAnonymous(ds[0]) {
        ForwardScanGathers([], rest);
        PrefixThroughAllowAnonymousIgnored([ds[0]], rest);
      } else {
        assert HasAllowAnonymous(ds) ==> HasAllowAnonymous(rest) by {
          if HasAllowAnonymous(ds) {
            var k :| 0 <= k < |ds| && IsAllowAnonymous(ds[k]);
            assert k > 0 && rest[k - 1] == ds[k];
          }
        }
        ForwardScanGathers(Contribution(ds[0]) + gathered, rest);
        if HasAllowAnonymous(rest) {
          AppendWithAllowAnonymous([ds[0]], rest);
        } else {
          AppendWithoutAllowAnonymous([ds[0]], rest);
          PolicyRequirementsBasics([], ds[0]);
        }
      }
    }
  }

  lemma ForwardScanAgrees(ds: seq<FilterDescriptor>)
    ensures ForwardScan([], ds) == PolicyRequirements(ds)
  {
    ForwardScanGathers([], ds);
  }
}
