/** The IAM instance-profile cleaner (lib/iam-instance-profiles.js). */
module IamInstanceProfiles {
  import opened Seqs
  import opened Cleanup
  import opened Text

  /** A role as embedded in an instance-profile listing. */
  datatype ProfileRole = ProfileRole(roleName: string)

  datatype InstanceProfile = InstanceProfile(instanceProfileName: string, roles: seq<ProfileRole>)

  function ProfileName(p: InstanceProfile): string { p.instanceProfileName }

  function DeleteProfileCall(p: InstanceProfile): Command { DeleteInstanceProfile(p.instanceProfileName) }

  function RemoveRoleCall(profileName: string): ProfileRole -> Command {
    (r: ProfileRole) => RemoveRoleFromInstanceProfile(profileName, r.roleName)
  }

  predicate IsDeleteInstanceProfile(c: Command) { c.DeleteInstanceProfile? }

  /** Every profile when the query is empty, otherwise those whose name contains the query. */
  function Select(profiles: seq<InstanceProfile>, query: string): (r: seq<InstanceProfile>)
    ensures forall p :: p in r <==> p in profiles && (|query| == 0 || Contains(p.instanceProfileName, query))
    ensures |query| == 0 ==> r == profiles
  {
    QueryFilter(profiles, ProfileName, query)
  }

  /**
    The selection keeps inventory order and every copy of a selected item, so it is
    exactly the matching items, in inventory order.
   */
  lemma SelectIsOrderedAndComplete(profiles: seq<InstanceProfile>, query: string, x: InstanceProfile)
    ensures IsSubsequence(Select(profiles, query), profiles)
    ensures multiset(Select(profiles, query))[x]
         == if |query| == 0 || Contains(ProfileName(x), query) then multiset(profiles)[x] else 0
  {
    QueryFilterIsOrderedAndComplete(profiles, ProfileName, query, x);
  }

  /**
    The calls made for one profile: one role removal per embedded role, in listing
    order, then the delete of the profile, whatever the removals returned.
   */
  function ProfileCalls(p: InstanceProfile): (r: seq<Command>)
    ensures |r| == |p.roles| + 1
    ensures forall k :: 0 <= k < |p.roles| ==>
      r[k] == RemoveRoleFromInstanceProfile(p.instanceProfileName, p.roles[k].roleName)
    ensures r[|p.roles|] == DeleteInstanceProfile(p.instanceProfileName)
  {
    Map(p.roles, RemoveRoleCall(p.instanceProfileName)) + [DeleteInstanceProfile(p.instanceProfileName)]
  }

  /** The calls of `_clean` for the selected profiles. */
  function DeletePlan(list: seq<InstanceProfile>): (r: seq<Command>)
    ensures |list| == 0 <==> |r| == 0
    ensures |list| > 0 ==> r[|r| - 1] == DeleteInstanceProfile(list[|list| - 1].instanceProfileName)
  {
    DeletePlanLast(list);
    ConcatMap(list, ProfileCalls)
  }

  /** The last selected profile's block closes the plan. */
  lemma DeletePlanLast(list: seq<InstanceProfile>)
    ensures |list| > 0 ==>
      ConcatMap(list, ProfileCalls) == ConcatMap(list[..|list| - 1], ProfileCalls) + ProfileCalls(list[|list| - 1])
  {
  }

  /** The sum over `list` of the number of embedded roles plus one. */
  function CallCount(list: seq<InstanceProfile>): nat
    decreases |list|
  {
    if |list| == 0 then 0 else CallCount(list[..|list| - 1]) + |list[|list| - 1].roles| + 1
  }

  /** Profiles are processed in selection order, each one's calls forming one uninterrupted block. */
  lemma DeletePlanBlocks(list: seq<InstanceProfile>, i: nat)
    requires i < |list|
    ensures DeletePlan(list) == DeletePlan(list[..i]) + ProfileCalls(list[i]) + DeletePlan(list[i + 1..])
  {
    ConcatMapBlock(list, ProfileCalls, i);
  }

  /** A profile's block deletes that profile exactly once, as its last call. */
  lemma ProfileCallsDeleteOnce(p: InstanceProfile)
    ensures Filter(ProfileCalls(p), IsDeleteInstanceProfile) == [DeleteInstanceProfile(p.instanceProfileName)]
  {
    var removals, last := Map(p.roles, RemoveRoleCall(p.instanceProfileName)), DeleteInstanceProfile(p.instanceProfileName);
    assert Filter(removals, IsDeleteInstanceProfile) == [] by {
      FilterDropsAll(removals, IsDeleteInstanceProfile);
    }
    assert Filter(removals + [last], IsDeleteInstanceProfile) == [last] by {
      FilterSnoc(removals, last, IsDeleteInstanceProfile);
    }
  }

  /**
    The plan has exactly |Roles| + 1 calls per selected profile, and deletes each
    selected profile exactly once, in selection order.
   */
  lemma {:induction false} DeletePlanCounts(list: seq<InstanceProfile>)
    ensures |DeletePlan(list)| == CallCount(list)
    ensures Filter(DeletePlan(list), IsDeleteInstanceProfile) == Map(list, DeleteProfileCall)
    decreases |list|
  {
    if |list| > 0 {
      var init, last := list[..|list| - 1], list[|list| - 1];
      DeletePlanCounts(init);
      assert Filter(DeletePlan(list), IsDeleteInstanceProfile)
          == Filter(DeletePlan(init), IsDeleteInstanceProfile) + Filter(ProfileCalls(last), IsDeleteInstanceProfile) by {
        FilterConcatMapSnoc(list, ProfileCalls, IsDeleteInstanceProfile);
      }
      ProfileCallsDeleteOnce(last);
    }
  }

  /**
    `clean`: the prompt is shown unless auto-approve is set, even when nothing is
    selected (an empty selection yields no calls); the plan runs only when
    auto-approved or answered affirmatively.
   */
  function Clean(profiles: seq<InstanceProfile>, query: string, autoApprove: bool, answer: string): (run: Run)
    ensures run.prompted <==> !autoApprove
    ensures !Approved(autoApprove, answer) ==> run.calls == []
    ensures Approved(autoApprove, answer) ==> run.calls == DeletePlan(Select(profiles, query))
    ensures |Select(profiles, query)| == 0 ==> run.calls == []
  {
    Run(!autoApprove, if Approved(autoApprove, answer) then DeletePlan(Select(profiles, query)) else [])
  }

  /**
    The inner loop of `_clean`: one role removal per embedded role, in order; the
    results are never inspected.
   */
  method RemoveRoles(p: InstanceProfile) returns (issued: seq<Command>)
    ensures issued == Map(p.roles, RemoveRoleCall(p.instanceProfileName))
    ensures |issued| == |p.roles|
    ensures forall k :: 0 <= k < |p.roles| ==>
      issued[k] == RemoveRoleFromInstanceProfile(p.instanceProfileName, p.roles[k].roleName)
  {
    issued := [];
    for j := 0 to |p.roles|
      invariant issued == Map(p.roles[..j], RemoveRoleCall(p.instanceProfileName))
    {
      issued := issued + [RemoveRoleFromInstanceProfile(p.instanceProfileName, p.roles[j].roleName)];
      assert p.roles[..j + 1] == p.roles[..j] + [p.roles[j]];
      MapSnoc(p.roles[..j], p.roles[j], RemoveRoleCall(p.instanceProfileName));
    }
    assert p.roles[..|p.roles|] == p.roles;
  }

  /**
    The loops of `_clean` with `exitCode(i, c)` the exit code of call `c` for the `i`-th selected item: the
    calls made are the plan whatever the exit codes, and a success is reported for
    exactly the profiles whose delete exited with 0.
   */
  method CleanSelected(list: seq<InstanceProfile>, exitCode: ExitCodes)
    returns (issued: seq<Command>, deleted: seq<string>)
    ensures issued == DeletePlan(list)
    ensures deleted == Reported(list, exitCode, DeleteProfileCall, ProfileName)
  {
    issued, deleted := [], [];
    for i := 0 to |list|
      invariant issued == DeletePlan(list[..i])
      invariant deleted == Reported(list[..i], exitCode, DeleteProfileCall, ProfileName)
    {
      var item := list[i];
      var removals := RemoveRoles(item);
      var call := DeleteInstanceProfile(item.instanceProfileName);
      issued := issued + (removals + [call]);
      if exitCode(i, call) == 0 {
        deleted := deleted + [item.instanceProfileName];
      }
      LoopStep(list, i, ProfileCalls, exitCode, DeleteProfileCall, ProfileName);
    }
    assert list[..|list|] == list;
  }
}
