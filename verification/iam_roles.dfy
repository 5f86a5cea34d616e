/** The IAM role cleaner and its orphaned-policy sweep (lib/iam-roles.js). */
module IamRoles {
  import opened Wrappers
  import opened Seqs
  import opened Cleanup
  import opened Text

  datatype Role = Role(roleName: string)

  /** An entry of a role's `AttachedPolicies`. */
  datatype AttachedPolicy = AttachedPolicy(policyArn: string)

  /** An entry of the account's policy listing. */
  datatype Policy = Policy(policyName: string, arn: string)

  function RoleName(r: Role): string { r.roleName }

  function PolicyName(p: Policy): string { p.policyName }

  function DeleteRoleCall(r: Role): Command { DeleteRole(r.roleName) }

  function DeletePolicyCall(p: Policy): Command { DeletePolicy(p.arn) }

  function DetachCall(roleName: string): AttachedPolicy -> Command {
    (a: AttachedPolicy) => DetachRolePolicy(roleName, a.policyArn)
  }

  predicate IsRoleCall(c: Command) {
    c.ListAttachedRolePolicies? || c.DetachRolePolicy? || c.DeleteRole?
  }

  predicate IsDeleteRole(c: Command) { c.DeleteRole? }

  predicate IsDeletePolicy(c: Command) { c.DeletePolicy? }

  // ---------------------------------------------------------------------------
  // Role selection

  /** The `appenders` of `clean`: the role-name suffixes of the tool's naming convention. */
  const RoleSuffixes := ["-manager", "-worker"]

  /** The search strings `query + appender`, one per non-empty appender, in appender order. */
  function RolePatterns(query: string, appenders: seq<string>): seq<string>
    decreases |appenders|
  {
    if |appenders| == 0 then []
    else
      var last := appenders[|appenders| - 1];
      RolePatterns(query, appenders[..|appenders| - 1]) + (if |last| > 0 then [query + last] else [])
  }

  /** With the shipped suffixes the search strings are `query + "-manager"` then `query + "-worker"`. */
  lemma DefaultPatterns(query: string)
    ensures RolePatterns(query, RoleSuffixes) == [query + "-manager", query + "-worker"]
  {
    var a := RoleSuffixes;
    assert a[..1] == ["-manager"];
    assert a[..1][..0] == [];
    assert RolePatterns(query, a[..1][..0]) == [];
    assert RolePatterns(query, a[..1]) == [query + "-manager"];
  }

  /** The loop over the shipped suffixes yields the `-manager` filter followed by the `-worker` filter. */
  lemma DefaultGroups(roles: seq<Role>, query: string)
    ensures FilterEach(roles, RoleName, RolePatterns(query, RoleSuffixes))
         == Filter(roles, NameContains(RoleName, query + "-manager"))
          + Filter(roles, NameContains(RoleName, query + "-worker"))
  {
    var patterns := RolePatterns(query, RoleSuffixes);
    DefaultPatterns(query);
    assert patterns[..1] == [query + "-manager"];
    assert patterns[..1][..0] == [];
    assert FilterEach(roles, RoleName, patterns[..1]) == Filter(roles, NameContains(RoleName, query + "-manager"));
  }

  /**
    The roles to delete: for each suffix in turn, the roles whose name contains
    `query + suffix`, concatenated without removing duplicates.
   */
  function Select(roles: seq<Role>, query: string): (r: seq<Role>)
    ensures forall x :: x in r <==>
      (x in roles && (Contains(x.roleName, query + "-manager") || Contains(x.roleName, query + "-worker")))
  {
    DefaultGroups(roles, query);
    FilterMembership(roles, NameContains(RoleName, query + "-manager"));
    FilterMembership(roles, NameContains(RoleName, query + "-worker"));
    FilterEach(roles, RoleName, RolePatterns(query, RoleSuffixes))
  }

  /** The `-manager` group followed by the `-worker` group, each in inventory order. */
  lemma SelectGroups(roles: seq<Role>, query: string)
    ensures Select(roles, query)
         == Filter(roles, NameContains(RoleName, query + "-manager"))
          + Filter(roles, NameContains(RoleName, query + "-worker"))
  {
    DefaultGroups(roles, query);
  }

  /** With the default empty query the groups are "contains `-manager`" then "contains `-worker`". */
  lemma DefaultSelection(roles: seq<Role>)
    ensures Select(roles, "")
         == Filter(roles, NameContains(RoleName, "-manager")) + Filter(roles, NameContains(RoleName, "-worker"))
  {
    SelectGroups(roles, "");
    assert "" + "-manager" == "-manager";
    assert "" + "-worker" == "-worker";
  }

  /** A role appears once per suffix it matches: twice when it matches both. */
  lemma SelectMultiplicity(roles: seq<Role>, query: string, x: Role)
    ensures multiset(Select(roles, query))[x]
         == multiset(roles)[x] * ((if Contains(x.roleName, query + "-manager") then 1 else 0)
                                + (if Contains(x.roleName, query + "-worker") then 1 else 0))
  {
    SelectGroups(roles, query);
    FilterMultiplicity(roles, NameContains(RoleName, query + "-manager"), x);
    FilterMultiplicity(roles, NameContains(RoleName, query + "-worker"), x);
  }

  /**
    Whatever the query, only roles following the naming convention are selected;
    a non-empty query narrows the selection further to names containing it.
   */
  lemma SelectFollowsConvention(roles: seq<Role>, query: string, x: Role)
    requires x in Select(roles, query)
    ensures Contains(x.roleName, "-manager") || Contains(x.roleName, "-worker")
    ensures Contains(x.roleName, query)
  {
    if Contains(x.roleName, query + "-manager") {
      ContainsParts(x.roleName, query, "-manager");
    } else {
      ContainsParts(x.roleName, query, "-worker");
    }
  }

  // ---------------------------------------------------------------------------
  // Orphaned policies

  /** The name infixes of the policies the tool considers its own. */
  const PolicyInfixes := ["constellation-", "orbs-", "manager-", "worker-"]

  /** The policy name carries one of the tool's infixes. */
  predicate IsOwnedPolicyName(n: string) {
    MatchesAny(n, PolicyInfixes)
  }

  /** Some entry of `s` has policy name `n`. */
  predicate HasName(s: seq<Policy>, n: string) {
    exists j :: 0 <= j < |s| && s[j].policyName == n
  }

  /** No two entries of `s` share a policy name. */
  ghost predicate UniqueNames(s: seq<Policy>) {
    forall i, j :: 0 <= i < j < |s| ==> s[i].policyName != s[j].policyName
  }

  /** `s[i]` is the first entry of `s` carrying its policy name. */
  ghost predicate FirstWithName(s: seq<Policy>, i: int) {
    0 <= i < |s| && forall k :: 0 <= k < i ==> s[k].policyName != s[i].policyName
  }

  /** `p` is the first entry of `s` with its policy name. */
  ghost predicate IsFirstOccurrence(s: seq<Policy>, p: Policy) {
    exists i :: FirstWithName(s, i) && s[i] == p
  }

  /** `r` is a de-duplication of `s` by policy name that keeps first occurrences. */
  ghost predicate IsUniqOf(s: seq<Policy>, r: seq<Policy>) {
    && UniqueNames(r)
    && (forall i :: 0 <= i < |s| ==> HasName(r, s[i].policyName))
    && (forall j :: 0 <= j < |r| ==> IsFirstOccurrence(s, r[j]))
  }

  /**
    The entries of `r` appear in the order of their first occurrences in `s`: when
    `r[j]` comes before `r[j']`, the first entry of `s` with `r[j]`'s name comes before
    the first entry with `r[j']`'s name.
   */
  ghost predicate KeepsFirstOrder(s: seq<Policy>, r: seq<Policy>) {
    forall j, j', i, i' ::
      (0 <= j < j' < |r| && FirstWithName(s, i) && s[i] == r[j] && FirstWithName(s, i') && s[i'] == r[j'])
      ==> i < i'
  }

  /** `uniqBy(s, 'PolicyName')`: keeps an entry when no earlier entry had its policy name. */
  function UniqByName(s: seq<Policy>): (r: seq<Policy>)
    ensures |r| <= |s|
    ensures forall x :: x in r ==> x in s
    decreases |s|
  {
    if |s| == 0 then []
    else
      var r := UniqByName(s[..|s| - 1]);
      if HasName(r, s[|s| - 1].policyName) then r else r + [s[|s| - 1]]
  }

  /**
    No two entries of `uniqBy`'s result share a name, every name of `s` is
    represented, and each entry kept is the first of `s` with its name.
   */
  lemma {:induction false} UniqByNameSpec(s: seq<Policy>)
    ensures IsUniqOf(s, UniqByName(s))
    decreases |s|
  {
    if |s| > 0 {
      var init, x := s[..|s| - 1], s[|s| - 1];
      var r := UniqByName(init);
      UniqByNameSpec(init);
      assert s == init + [x];
      if HasName(r, x.policyName) {
        UniqByNameSkip(init, x, r);
      } else {
        UniqByNameAppend(init, x, r);
      }
    }
  }

  /** `uniqBy` keeps the order of `s`. */
  lemma {:induction false} UniqByNameIsSubsequence(s: seq<Policy>)
    ensures IsSubsequence(UniqByName(s), s)
    decreases |s|
  {
    if |s| > 0 {
      var init, x := s[..|s| - 1], s[|s| - 1];
      var r := UniqByName(init);
      UniqByNameIsSubsequence(init);
      if HasName(r, x.policyName) {
        SubsequenceOfPrefix(r, init, s);
      } else {
        assert (r + [x])[..|r|] == r;
      }
    }
  }

  /** `uniqBy` lists the names of `s` in the order of their first occurrences. */
  lemma {:induction false} UniqByNameOrder(s: seq<Policy>)
    ensures KeepsFirstOrder(s, UniqByName(s))
    decreases |s|
  {
    if |s| > 0 {
      var init, x := s[..|s| - 1], s[|s| - 1];
      var r := UniqByName(init);
      UniqByNameOrder(init);
      UniqByNameSpec(init);
      assert s == init + [x];
      OrderStep(init, x, r);
    }
  }

  /** One step of `uniqBy` keeps the first-occurrence order. */
  lemma OrderStep(init: seq<Policy>, x: Policy, r: seq<Policy>)
    requires IsUniqOf(init, r) && KeepsFirstOrder(init, r)
    ensures KeepsFirstOrder(init + [x], if HasName(r, x.policyName) then r else r + [x])
  {
    var s := init + [x];
    var r' := if HasName(r, x.policyName) then r else r + [x];
    if !HasName(r, x.policyName) {
      NewNameAbsent(init, x, r);
    }
    forall j, j', i, i' | 0 <= j < j' < |r'| && FirstWithName(s, i) && s[i] == r'[j]
                          && FirstWithName(s, i') && s[i'] == r'[j']
      ensures i < i'
    {
      assert r'[j] == r[j];
      FirstInInit(init, x, r, j, i);
      if j' < |r| {
        assert r'[j'] == r[j'];
        FirstInInit(init, x, r, j', i');
      }
    }
  }

  /** The first entry of `init + [x]` with the name of a kept entry lies in `init` and is first there. */
  lemma FirstInInit(init: seq<Policy>, x: Policy, r: seq<Policy>, j: int, i: int)
    requires IsUniqOf(init, r) && 0 <= j < |r|
    requires FirstWithName(init + [x], i) && (init + [x])[i] == r[j]
    ensures i < |init| && FirstWithName(init, i) && init[i] == r[j]
  {
    var s := init + [x];
    assert IsFirstOccurrence(init, r[j]);
    var i0 :| FirstWithName(init, i0) && init[i0] == r[j];
    assert s[i0] == init[i0];
    assert FirstWithName(s, i0);
  }

  /** A name not represented in `r` occurs nowhere in `init`. */
  lemma NewNameAbsent(init: seq<Policy>, x: Policy, r: seq<Policy>)
    requires IsUniqOf(init, r) && !HasName(r, x.policyName)
    ensures forall k :: 0 <= k < |init| ==> init[k].policyName != x.policyName
  {
    forall k | 0 <= k < |init|
      ensures init[k].policyName != x.policyName
    {
      assert HasName(r, init[k].policyName);
    }
  }

  /** An entry whose name is already represented leaves the result unchanged. */
  lemma UniqByNameSkip(init: seq<Policy>, x: Policy, r: seq<Policy>)
    requires IsUniqOf(init, r) && HasName(r, x.policyName)
    ensures IsUniqOf(init + [x], r)
  {
    var s := init + [x];
    forall j | 0 <= j < |r|
      ensures IsFirstOccurrence(s, r[j])
    {
      var i :| FirstWithName(init, i) && init[i] == r[j];
      assert FirstWithName(s, i) && s[i] == r[j];
    }
    forall i | 0 <= i < |s|
      ensures HasName(r, s[i].policyName)
    {
      if i < |init| {
        assert s[i] == init[i];
      }
    }
  }

  /** An entry with a new name is appended, and is the first of its name. */
  lemma UniqByNameAppend(init: seq<Policy>, x: Policy, r: seq<Policy>)
    requires IsUniqOf(init, r) && !HasName(r, x.policyName)
    ensures IsUniqOf(init + [x], r + [x])
  {
    var s, r' := init + [x], r + [x];
    forall j | 0 <= j < |r'|
      ensures IsFirstOccurrence(s, r'[j])
    {
      if j < |r| {
        assert IsFirstOccurrence(init, r[j]);
        var i :| FirstWithName(init, i) && init[i] == r[j];
        assert FirstWithName(s, i) && s[i] == r'[j];
      } else {
        forall k | 0 <= k < |init|
          ensures s[k].policyName != x.policyName
        {
          assert s[k] == init[k];
          var j' :| 0 <= j' < |r| && r[j'].policyName == init[k].policyName;
        }
        assert FirstWithName(s, |init|);
      }
    }
    forall i | 0 <= i < |s|
      ensures HasName(r', s[i].policyName)
    {
      if i < |init| {
        var j :| 0 <= j < |r| && r[j].policyName == init[i].policyName;
        assert r'[j] == r[j];
      } else {
        assert r'[|r|] == x;
      }
    }
  }

  /** The infix filters of `getOrphanedPolicies`, concatenated in infix order. */
  function OrphanCandidates(policies: seq<Policy>): seq<Policy> {
    FilterEach(policies, PolicyName, PolicyInfixes)
  }

  /** `getOrphanedPolicies`: the candidates with duplicate names removed, first occurrence kept. */
  function OrphanedPolicies(policies: seq<Policy>): (r: seq<Policy>)
    ensures forall p :: p in r ==> p in policies && IsOwnedPolicyName(p.policyName)
  {
    FilterEachMembership(policies, PolicyName, PolicyInfixes);
    UniqByName(OrphanCandidates(policies))
  }

  /**
    The orphan list holds only listed policies with an owned name, no two sharing a
    name; every owned name of the listing is represented, by the first entry with
    that name in the infix-grouped candidate list.
   */
  lemma OrphanedPoliciesSpec(policies: seq<Policy>)
    ensures forall p :: p in OrphanedPolicies(policies) ==> p in policies && IsOwnedPolicyName(p.policyName)
    ensures UniqueNames(OrphanedPolicies(policies))
    ensures forall p :: p in policies && IsOwnedPolicyName(p.policyName) ==> HasName(OrphanedPolicies(policies), p.policyName)
    ensures forall j :: 0 <= j < |OrphanedPolicies(policies)| ==>
      IsFirstOccurrence(OrphanCandidates(policies), OrphanedPolicies(policies)[j])
  {
    var candidates := OrphanCandidates(policies);
    var r := UniqByName(candidates);
    FilterEachMembership(policies, PolicyName, PolicyInfixes);
    UniqByNameSpec(candidates);
    forall p | p in r
      ensures p in candidates
    {
      var j :| 0 <= j < |r| && r[j] == p;
      assert IsFirstOccurrence(candidates, r[j]);
    }
    forall p | p in candidates
      ensures HasName(r, p.policyName)
    {
      var i :| 0 <= i < |candidates| && candidates[i] == p;
    }
  }

  /**
    The orphans are listed in the order in which their names first occur in the
    infix-grouped candidate list: the `constellation-` group, then `orbs-`, then
    `manager-`, then `worker-`.
   */
  lemma OrphanedPoliciesOrder(policies: seq<Policy>)
    ensures KeepsFirstOrder(OrphanCandidates(policies), OrphanedPolicies(policies))
  {
    UniqByNameOrder(OrphanCandidates(policies));
  }

  /** The orphans actually deleted: all of them for an empty query, else those whose name contains it. */
  function FinalOrphans(policies: seq<Policy>, query: string): (r: seq<Policy>)
    ensures forall p :: p in r <==> p in OrphanedPolicies(policies) && (|query| == 0 || Contains(p.policyName, query))
    ensures |query| == 0 ==> r == OrphanedPolicies(policies)
  {
    QueryFilter(OrphanedPolicies(policies), PolicyName, query)
  }

  /**
    Every final orphan is a listed policy with an owned name, and contains the query
    when one is given; with an empty query the orphan list is deleted as it is.
   */
  lemma FinalOrphansSpec(policies: seq<Policy>, query: string)
    ensures forall p :: p in FinalOrphans(policies, query) ==>
      p in policies && IsOwnedPolicyName(p.policyName) && (|query| == 0 || Contains(p.policyName, query))
    ensures |query| == 0 ==> FinalOrphans(policies, query) == OrphanedPolicies(policies)
  {
    OrphanedPoliciesSpec(policies);
  }

  /** No two final orphans share a name, so no policy name is deleted twice. */
  lemma FinalOrphansUnique(policies: seq<Policy>, query: string)
    ensures UniqueNames(FinalOrphans(policies, query))
  {
    OrphanedPoliciesSpec(policies);
    if |query| > 0 {
      FilterKeepsUniqueNames(OrphanedPolicies(policies), NameContains(PolicyName, query));
    }
  }

  /** Filtering never introduces a repeated name. */
  lemma {:induction false} FilterKeepsUniqueNames(s: seq<Policy>, p: Policy -> bool)
    requires UniqueNames(s)
    ensures UniqueNames(Filter(s, p))
    decreases |s|
  {
    if |s| > 0 {
      var init, x := s[..|s| - 1], s[|s| - 1];
      assert s == init + [x];
      FilterKeepsUniqueNames(init, p);
      if p(x) {
        var f := Filter(init, p);
        FilterMembership(init, p);
        forall i | 0 <= i < |f|
          ensures f[i].policyName != x.policyName
        {
          assert f[i] in f;
          var k :| 0 <= k < |init| && init[k] == f[i];
          assert s[k] == init[k];
        }
      }
    }
  }

  // ---------------------------------------------------------------------------
  // Deletion plan

  /** `(...).AttachedPolicies || []`: a missing field counts as no policies. */
  function AttachedOrEmpty(attached: Option<seq<AttachedPolicy>>): seq<AttachedPolicy> {
    match attached
    case None => []
    case Some(policies) => policies
  }

  /**
    The calls made for one role: the attached-policy lookup, one detach per attached
    policy in lookup order, then the delete of the role, whatever the detaches returned.
   */
  function RoleCalls(role: Role, attached: Option<seq<AttachedPolicy>>): (r: seq<Command>)
    ensures |r| == |AttachedOrEmpty(attached)| + 2
    ensures r[0] == ListAttachedRolePolicies(role.roleName)
    ensures forall k :: 0 <= k < |AttachedOrEmpty(attached)| ==>
      r[k + 1] == DetachRolePolicy(role.roleName, AttachedOrEmpty(attached)[k].policyArn)
    ensures r[|AttachedOrEmpty(attached)| + 1] == DeleteRole(role.roleName)
    ensures attached.None? ==> r == [ListAttachedRolePolicies(role.roleName), DeleteRole(role.roleName)]
  {
    [ListAttachedRolePolicies(role.roleName)]
      + Map(AttachedOrEmpty(attached), DetachCall(role.roleName))
      + [DeleteRole(role.roleName)]
  }

  /** `attachedOf` is the answer of the attached-policy lookup for a role name. */
  function Step(attachedOf: string -> Option<seq<AttachedPolicy>>): Role -> seq<Command> {
    (r: Role) => RoleCalls(r, attachedOf(r.roleName))
  }

  /** The role loop of `_clean`. */
  function RolePhase(list: seq<Role>, attachedOf: string -> Option<seq<AttachedPolicy>>): (r: seq<Command>)
    ensures |list| == 0 <==> |r| == 0
    ensures |list| > 0 ==> r[|r| - 1] == DeleteRole(list[|list| - 1].roleName)
  {
    RolePhaseLast(list, attachedOf);
    ConcatMap(list, Step(attachedOf))
  }

  /** The last selected role's block closes the role loop. */
  lemma RolePhaseLast(list: seq<Role>, attachedOf: string -> Option<seq<AttachedPolicy>>)
    ensures |list| > 0 ==>
      var last := list[|list| - 1];
      ConcatMap(list, Step(attachedOf)) == ConcatMap(list[..|list| - 1], Step(attachedOf)) + RoleCalls(last, attachedOf(last.roleName))
  {
  }

  /** The orphan sweep of `_clean`: the policy listing, then one delete per final orphan, in order. */
  function SweepCalls(orphans: seq<Policy>): (r: seq<Command>)
    ensures |r| == |orphans| + 1
    ensures r[0] == ListPolicies
    ensures forall k :: 0 <= k < |orphans| ==> r[k + 1] == DeletePolicy(orphans[k].arn)
  {
    [ListPolicies] + Map(orphans, DeletePolicyCall)
  }

  /**
    The calls of `_clean`: the role loop, then the orphan sweep over `orphans`, the
    final orphan list. The sweep runs even when no role was selected.
   */
  function DeletePlan(list: seq<Role>, attachedOf: string -> Option<seq<AttachedPolicy>>, orphans: seq<Policy>): (r: seq<Command>)
    ensures |r| > |orphans|
    ensures r[|r| - |orphans| - 1] == ListPolicies
    ensures forall k :: 0 <= k < |orphans| ==> r[|r| - |orphans| + k] == DeletePolicy(orphans[k].arn)
    ensures |list| == 0 ==> r == SweepCalls(orphans)
  {
    RolePhase(list, attachedOf) + SweepCalls(orphans)
  }

  /** Roles are processed in selection order, each one's calls forming one uninterrupted block. */
  lemma DeletePlanBlocks(list: seq<Role>, attachedOf: string -> Option<seq<AttachedPolicy>>, orphans: seq<Policy>, i: nat)
    requires i < |list|
    ensures DeletePlan(list, attachedOf, orphans)
         == RolePhase(list[..i], attachedOf)
          + RoleCalls(list[i], attachedOf(list[i].roleName))
          + RolePhase(list[i + 1..], attachedOf)
          + SweepCalls(orphans)
  {
    ConcatMapBlock(list, Step(attachedOf), i);
  }

  /** The role loop issues only role calls: listings of attached policies, detaches and role deletes. */
  lemma {:induction false} RolePhaseIsRoleCalls(list: seq<Role>, attachedOf: string -> Option<seq<AttachedPolicy>>)
    ensures forall k :: 0 <= k < |RolePhase(list, attachedOf)| ==> IsRoleCall(RolePhase(list, attachedOf)[k])
    decreases |list|
  {
    if |list| > 0 {
      var init, last := list[..|list| - 1], list[|list| - 1];
      RolePhaseIsRoleCalls(init, attachedOf);
      var a, b := RolePhase(init, attachedOf), RoleCalls(last, attachedOf(last.roleName));
      assert RolePhase(list, attachedOf) == a + b by {
        RolePhaseLast(list, attachedOf);
      }
      assert forall k :: 0 <= k < |b| ==> IsRoleCall(b[k]) by {
        var n := |AttachedOrEmpty(attachedOf(last.roleName))|;
        assert forall k :: 1 <= k <= n ==> b[k] == b[(k - 1) + 1];
      }
    }
  }

  /** The sweep issues no role call. */
  lemma SweepHasNoRoleCalls(orphans: seq<Policy>)
    ensures forall k :: 0 <= k < |SweepCalls(orphans)| ==> !IsRoleCall(SweepCalls(orphans)[k])
  {
    var sweep := SweepCalls(orphans);
    assert forall k :: 1 <= k < |sweep| ==> sweep[k] == sweep[(k - 1) + 1];
  }

  /** Every call of the role loop comes before every delete-policy call of the sweep. */
  lemma SweepComesLast(list: seq<Role>, attachedOf: string -> Option<seq<AttachedPolicy>>, orphans: seq<Policy>)
    ensures var plan := DeletePlan(list, attachedOf, orphans);
      forall i, j :: 0 <= i < |plan| && 0 <= j < |plan| && IsRoleCall(plan[i]) && plan[j].DeletePolicy? ==> i < j
  {
    var roles := RolePhase(list, attachedOf);
    assert forall k :: 0 <= k < |roles| ==> !IsDeletePolicy(roles[k]) by {
      RolePhaseIsRoleCalls(list, attachedOf);
    }
    SweepHasNoRoleCalls(orphans);
    assert DeletePlan(list, attachedOf, orphans) == roles + SweepCalls(orphans);
    AppendOrdered(roles, SweepCalls(orphans), IsRoleCall, IsDeletePolicy);
  }

  /** The sweep deletes each final orphan exactly once, in order, and no other policy. */
  lemma SweepDeletes(list: seq<Role>, attachedOf: string -> Option<seq<AttachedPolicy>>, orphans: seq<Policy>)
    ensures Filter(DeletePlan(list, attachedOf, orphans), IsDeletePolicy) == Map(orphans, DeletePolicyCall)
  {
    RolePhaseDeletesNoPolicy(list, attachedOf);
    SweepPolicyDeletes(orphans);
    FilterAppend(RolePhase(list, attachedOf), SweepCalls(orphans), IsDeletePolicy);
  }

  /** The role loop deletes no policy: it only detaches them. */
  lemma RolePhaseDeletesNoPolicy(list: seq<Role>, attachedOf: string -> Option<seq<AttachedPolicy>>)
    ensures Filter(RolePhase(list, attachedOf), IsDeletePolicy) == []
  {
    RolePhaseIsRoleCalls(list, attachedOf);
    FilterDropsAll(RolePhase(list, attachedOf), IsDeletePolicy);
  }

  /** The sweep deletes each final orphan once, in order. */
  lemma SweepPolicyDeletes(orphans: seq<Policy>)
    ensures Filter(SweepCalls(orphans), IsDeletePolicy) == Map(orphans, DeletePolicyCall)
  {
    var deletes := Map(orphans, DeletePolicyCall);
    assert Filter([ListPolicies], IsDeletePolicy) == [] by {
      assert [ListPolicies] == [] + [ListPolicies];
    }
    FilterKeepsAll(deletes, IsDeletePolicy);
    FilterAppend([ListPolicies], deletes, IsDeletePolicy);
  }

  /** A role's block deletes that role exactly once. */
  lemma RoleCallsDeleteOnce(role: Role, attached: Option<seq<AttachedPolicy>>)
    ensures Filter(RoleCalls(role, attached), IsDeleteRole) == [DeleteRole(role.roleName)]
  {
    var head, mid, last := [ListAttachedRolePolicies(role.roleName)], Map(AttachedOrEmpty(attached), DetachCall(role.roleName)), DeleteRole(role.roleName);
    assert Filter(head, IsDeleteRole) == [] by {
      assert head == [] + [head[0]];
    }
    assert Filter(mid, IsDeleteRole) == [] by {
      FilterDropsAll(mid, IsDeleteRole);
    }
    assert Filter(head + mid, IsDeleteRole) == [] by {
      FilterAppend(head, mid, IsDeleteRole);
    }
    assert Filter(head + mid + [last], IsDeleteRole) == [last] by {
      FilterSnoc(head + mid, last, IsDeleteRole);
    }
  }

  /** The plan deletes each selected role exactly once, in selection order (duplicates included). */
  lemma RoleDeletes(list: seq<Role>, attachedOf: string -> Option<seq<AttachedPolicy>>, orphans: seq<Policy>)
    ensures Filter(DeletePlan(list, attachedOf, orphans), IsDeleteRole) == Map(list, DeleteRoleCall)
  {
    var sweep := SweepCalls(orphans);
    assert Filter(sweep, IsDeleteRole) == [] by {
      SweepHasNoRoleCalls(orphans);
      FilterDropsAll(sweep, IsDeleteRole);
    }
    assert Filter(RolePhase(list, attachedOf), IsDeleteRole) == Map(list, DeleteRoleCall) by {
      RolePhaseDeletes(list, attachedOf);
    }
    FilterAppend(RolePhase(list, attachedOf), sweep, IsDeleteRole);
  }

  /** The role loop deletes each selected role once, in selection order. */
  lemma {:induction false} RolePhaseDeletes(list: seq<Role>, attachedOf: string -> Option<seq<AttachedPolicy>>)
    ensures Filter(RolePhase(list, attachedOf), IsDeleteRole) == Map(list, DeleteRoleCall)
    decreases |list|
  {
    if |list| > 0 {
      var init, last := list[..|list| - 1], list[|list| - 1];
      RolePhaseDeletes(init, attachedOf);
      assert Filter(RolePhase(list, attachedOf), IsDeleteRole)
          == Filter(RolePhase(init, attachedOf), IsDeleteRole) + Filter(RoleCalls(last, attachedOf(last.roleName)), IsDeleteRole) by {
        FilterConcatMapSnoc(list, Step(attachedOf), IsDeleteRole);
      }
      RoleCallsDeleteOnce(last, attachedOf(last.roleName));
    }
  }

  /**
    `clean`: the prompt is shown unless auto-approve is set, even for an empty
    selection. When approved the plan always runs, and since the sweep is part of
    it there is at least the policy listing; otherwise nothing is called.
   */
  function Clean(roles: seq<Role>, query: string, autoApprove: bool, answer: string,
                 attachedOf: string -> Option<seq<AttachedPolicy>>, policies: seq<Policy>): (run: Run)
    ensures run.prompted <==> !autoApprove
    ensures run.calls != [] <==> Approved(autoApprove, answer)
    ensures Approved(autoApprove, answer) ==>
      run.calls == DeletePlan(Select(roles, query), attachedOf, FinalOrphans(policies, query))
    ensures Approved(autoApprove, answer) && |Select(roles, query)| == 0 ==>
      run.calls == SweepCalls(FinalOrphans(policies, query))
  {
    Run(!autoApprove,
        if Approved(autoApprove, answer) then DeletePlan(Select(roles, query), attachedOf, FinalOrphans(policies, query))
        else [])
  }

  /** `svc-worker` matches the worker convention and not the manager one. */
  lemma WorkerName()
    ensures Contains("svc-worker", "-worker")
    ensures !Contains("svc-worker", "-manager")
  {
    assert OccursAt("svc-worker", "-worker", 3);
    var s, sub := "svc-worker", "-manager";
    assert IndexOfFrom(s, sub, 3) == -1;
    assert s[2..10] != sub by { assert s[2..10][0] == 'c'; }
    assert s[1..9] != sub by { assert s[1..9][0] == 'v'; }
    assert s[0..8] != sub by { assert s[0..8][0] == 's'; }
    assert IndexOfFrom(s, sub, 2) == -1;
    assert IndexOfFrom(s, sub, 1) == -1;
    assert IndexOf(s, sub) == -1;
  }

  /** A one-role loop is that role's block. */
  lemma RolePhaseSingle(role: Role, attachedOf: string -> Option<seq<AttachedPolicy>>)
    ensures RolePhase([role], attachedOf) == RoleCalls(role, attachedOf(role.roleName))
  {
    var f := Step(attachedOf);
    assert [role][..0] == [];
    assert ConcatMap([role], f) == ConcatMap([], f) + f(role);
  }

  /**
    A single role following only the worker convention (such as `svc-worker`) with
    two attached policies, no query, auto-approved: the listing of its policies, two
    detaches in attached order, the delete of the role, then the orphan sweep.
   */
  lemma SingleWorkerScenario(role: Role, attachedOf: string -> Option<seq<AttachedPolicy>>,
                             first: AttachedPolicy, second: AttachedPolicy, policies: seq<Policy>)
    requires Contains(role.roleName, "-worker") && !Contains(role.roleName, "-manager")
    requires attachedOf(role.roleName) == Some([first, second])
    ensures var name := role.roleName;
      Clean([role], "", true, "", attachedOf, policies).calls
      == [ListAttachedRolePolicies(name),
          DetachRolePolicy(name, first.policyArn),
          DetachRolePolicy(name, second.policyArn),
          DeleteRole(name)]
       + SweepCalls(FinalOrphans(policies, ""))
  {
    var name := role.roleName;
    var block := RoleCalls(role, attachedOf(name));
    assert block == [ListAttachedRolePolicies(name), DetachRolePolicy(name, first.policyArn),
                     DetachRolePolicy(name, second.policyArn), DeleteRole(name)] by {
      assert AttachedOrEmpty(attachedOf(name)) == [first, second];
    }
    assert Clean([role], "", true, "", attachedOf, policies).calls
        == RolePhase([role], attachedOf) + SweepCalls(FinalOrphans(policies, "")) by {
      WorkerOnlySelection(role);
    }
    RolePhaseSingle(role, attachedOf);
  }

  /** With no query, a role following only the worker convention is selected once. */
  lemma WorkerOnlySelection(role: Role)
    requires Contains(role.roleName, "-worker") && !Contains(role.roleName, "-manager")
    ensures Select([role], "") == [role]
  {
    var roles := [role];
    DefaultSelection(roles);
    assert roles == [] + [role];
  }

  // ---------------------------------------------------------------------------
  // The loops of `_clean`

  /** The detach loop for one role: one detach per attached policy, in order; exit codes are only logged. */
  method DetachAll(roleName: string, attached: seq<AttachedPolicy>) returns (issued: seq<Command>)
    ensures issued == Map(attached, DetachCall(roleName))
    ensures |issued| == |attached|
    ensures forall k :: 0 <= k < |attached| ==> issued[k] == DetachRolePolicy(roleName, attached[k].policyArn)
  {
    issued := [];
    for j := 0 to |attached|
      invariant issued == Map(attached[..j], DetachCall(roleName))
    {
      var call := DetachRolePolicy(roleName, attached[j].policyArn);
      issued := issued + [call];
      assert attached[..j + 1] == attached[..j] + [attached[j]];
      MapSnoc(attached[..j], attached[j], DetachCall(roleName));
    }
    assert attached[..|attached|] == attached;
  }

  /** The sweep loop: one delete per final orphan, in order; a failure is only logged. */
  method SweepOrphans(orphans: seq<Policy>) returns (issued: seq<Command>)
    ensures issued == Map(orphans, DeletePolicyCall)
    ensures |issued| == |orphans|
    ensures forall k :: 0 <= k < |orphans| ==> issued[k] == DeletePolicy(orphans[k].arn)
  {
    issued := [];
    for o := 0 to |orphans|
      invariant issued == Map(orphans[..o], DeletePolicyCall)
    {
      var call := DeletePolicy(orphans[o].arn);
      issued := issued + [call];
      assert orphans[..o + 1] == orphans[..o] + [orphans[o]];
      MapSnoc(orphans[..o], orphans[o], DeletePolicyCall);
    }
    assert orphans[..|orphans|] == orphans;
  }

  /**
    `_clean` with `exitCode(i, c)` the exit code of call `c` for the `i`-th selected item: the calls made are the
    plan whatever the exit codes, and a success is reported for exactly the roles
    whose delete exited with 0.
   */
  method CleanSelected(list: seq<Role>, query: string, attachedOf: string -> Option<seq<AttachedPolicy>>,
                       policies: seq<Policy>, exitCode: ExitCodes)
    returns (issued: seq<Command>, deleted: seq<string>)
    ensures issued == DeletePlan(list, attachedOf, FinalOrphans(policies, query))
    ensures deleted == Reported(list, exitCode, DeleteRoleCall, RoleName)
  {
    issued, deleted := DeleteRoles(list, attachedOf, exitCode);
    var sweep := SweepOrphans(FinalOrphans(policies, query));
    issued := issued + ([ListPolicies] + sweep);
  }

  /**
    The role loop of `_clean`: the calls made are the role phase of the plan whatever
    the exit codes, and a success is reported for exactly the roles whose delete
    exited with 0.
   */
  method DeleteRoles(list: seq<Role>, attachedOf: string -> Option<seq<AttachedPolicy>>, exitCode: ExitCodes)
    returns (issued: seq<Command>, deleted: seq<string>)
    ensures issued == RolePhase(list, attachedOf)
    ensures deleted == Reported(list, exitCode, DeleteRoleCall, RoleName)
  {
    issued, deleted := [], [];
    for i := 0 to |list|
      invariant issued == RolePhase(list[..i], attachedOf)
      invariant deleted == Reported(list[..i], exitCode, DeleteRoleCall, RoleName)
    {
      var item := list[i];
      LoopStep(list, i, Step(attachedOf), exitCode, DeleteRoleCall, RoleName);
      var detaches := DetachAll(item.roleName, AttachedOrEmpty(attachedOf(item.roleName)));
      var call := DeleteRole(item.roleName);
      issued := issued + ([ListAttachedRolePolicies(item.roleName)] + detaches + [call]);
      if exitCode(i, call) == 0 {
        deleted := deleted + [item.roleName];
      }
    }
    assert list[..|list|] == list;
  }
}
