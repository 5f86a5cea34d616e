/** The Secrets Manager cleaner (lib/secrets.js). */
module Secrets {
  import opened Wrappers
  import opened Seqs
  import opened Cleanup
  import opened Text

  /** One entry of a secret's `SecretVersionsToStages` object: a version id and its stage labels. */
  datatype VersionStages = VersionStages(versionId: string, stages: seq<string>)

  /** A listed secret; its version entries are in the object's key order. */
  datatype Secret = Secret(name: string, versionsToStages: seq<VersionStages>)

  const CurrentStage := "AWSCURRENT"

  function SecretName(s: Secret): string { s.name }

  /** The stage list as `Array.prototype.toString` renders it. */
  function StageString(v: VersionStages): string {
    Join(v.stages, ",")
  }

  /** The version whose stage list stringifies to exactly `AWSCURRENT`. */
  predicate IsCurrent(v: VersionStages) {
    StageString(v) == CurrentStage
  }

  /** A version is current exactly when its only stage label is `AWSCURRENT`. */
  lemma IsCurrentIffSoleStage(v: VersionStages)
    ensures IsCurrent(v) <==> v.stages == [CurrentStage]
  {
    JoinIsWord(v.stages, ",", CurrentStage);
  }

  /** `IsCurrentIffSoleStage` for every entry of `versions`. */
  lemma SoleStageAll(versions: seq<VersionStages>)
    ensures forall i :: 0 <= i < |versions| ==> (IsCurrent(versions[i]) <==> versions[i].stages == [CurrentStage])
  {
    forall i | 0 <= i < |versions|
      ensures IsCurrent(versions[i]) <==> versions[i].stages == [CurrentStage]
    {
      IsCurrentIffSoleStage(versions[i]);
    }
  }

  /**
    The loop of `getSecretId` over the version entries: the id of the first current
    entry, or `None` (the `false` that `getSecretId` returns) when there is none.
   */
  function FirstCurrent(versions: seq<VersionStages>): (r: Option<string>)
    ensures r.None? <==> forall i :: 0 <= i < |versions| ==> !IsCurrent(versions[i])
    ensures r.Some? ==> exists i :: 0 <= i < |versions| && versions[i].versionId == r.value
                                     && IsCurrent(versions[i])
                                     && forall j :: 0 <= j < i ==> !IsCurrent(versions[j])
    decreases |versions|
  {
    if |versions| == 0 then None
    else if IsCurrent(versions[0]) then Some(versions[0].versionId)
    else
      var r := FirstCurrent(versions[1..]);
      assert forall i :: 1 <= i < |versions| ==> versions[i] == versions[1..][i - 1];
      r
  }

  /**
    `getSecretId`: the id of the first version whose only stage is `AWSCURRENT`, or
    `None` when no version has exactly that stage list.
   */
  function GetSecretId(s: Secret): (r: Option<string>)
    ensures r.None? <==> forall i :: 0 <= i < |s.versionsToStages| ==> s.versionsToStages[i].stages != [CurrentStage]
    ensures r.Some? ==> exists i :: 0 <= i < |s.versionsToStages| && s.versionsToStages[i].versionId == r.value
                                     && s.versionsToStages[i].stages == [CurrentStage]
  {
    SoleStageAll(s.versionsToStages);
    FirstCurrent(s.versionsToStages)
  }

  function DeleteCall(s: Secret): Command { DeleteSecret(GetSecretId(s)) }

  /** Every secret when the query is empty, otherwise those whose name contains the query. */
  function Select(secrets: seq<Secret>, query: string): (r: seq<Secret>)
    ensures forall s :: s in r <==> s in secrets && (|query| == 0 || Contains(s.name, query))
    ensures |query| == 0 ==> r == secrets
  {
    QueryFilter(secrets, SecretName, query)
  }

  /**
    The selection keeps inventory order and every copy of a selected item, so it is
    exactly the matching items, in inventory order.
   */
  lemma SelectIsOrderedAndComplete(secrets: seq<Secret>, query: string, x: Secret)
    ensures IsSubsequence(Select(secrets, query), secrets)
    ensures multiset(Select(secrets, query))[x]
         == if |query| == 0 || Contains(SecretName(x), query) then multiset(secrets)[x] else 0
  {
    QueryFilterIsOrderedAndComplete(secrets, SecretName, query, x);
  }

  /** One forced delete per selected secret, in order, addressed by `getSecretId`. */
  function DeletePlan(list: seq<Secret>): (r: seq<Command>)
    ensures |r| == |list|
    ensures forall i :: 0 <= i < |list| ==> r[i] == DeleteSecret(GetSecretId(list[i]))
  {
    Map(list, DeleteCall)
  }

  /**
    `clean`: there is no auto-approve, so the prompt is always shown, even for an
    empty selection; the deletes run only on an affirmative answer.
   */
  function Clean(secrets: seq<Secret>, query: string, answer: string): (run: Run)
    ensures run.prompted
    ensures !IsAffirmative(answer) ==> run.calls == []
    ensures IsAffirmative(answer) ==>
      |run.calls| == |Select(secrets, query)| &&
      forall i :: 0 <= i < |run.calls| ==> run.calls[i] == DeleteSecret(GetSecretId(Select(secrets, query)[i]))
  {
    Run(true, if IsAffirmative(answer) then DeletePlan(Select(secrets, query)) else [])
  }

  /** An empty inventory: the prompt is still shown, and no call is made whatever the answer. */
  lemma EmptyInventory(query: string, answer: string)
    ensures Clean([], query, answer) == Run(true, [])
  {
  }

  /**
    The deletion loop of `clean` with `exitCode(i, c)` the exit code of call `c` for the `i`-th selected item:
    the calls made are the plan whatever the exit codes, and a success is reported
    for exactly the secrets whose delete exited with 0.
   */
  method CleanSelected(list: seq<Secret>, exitCode: ExitCodes)
    returns (issued: seq<Command>, deleted: seq<string>)
    ensures issued == DeletePlan(list)
    ensures deleted == Reported(list, exitCode, DeleteCall, SecretName)
  {
    issued, deleted := [], [];
    for i := 0 to |list|
      invariant issued == DeletePlan(list[..i])
      invariant deleted == Reported(list[..i], exitCode, DeleteCall, SecretName)
    {
      var item := list[i];
      var call := DeleteSecret(GetSecretId(item));
      issued := issued + [call];
      if exitCode(i, call) == 0 {
        deleted := deleted + [item.name];
      }
      MapLoopStep(list, i, exitCode, DeleteCall, SecretName);
    }
    assert list[..|list|] == list;
  }
}
