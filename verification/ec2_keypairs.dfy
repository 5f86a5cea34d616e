/** The EC2 key-pair cleaner (lib/ec2-keypairs.js). */
module Ec2KeyPairs {
  import opened Text
  import opened Seqs
  import opened Cleanup

  datatype KeyPair = KeyPair(keyName: string)

  function KeyName(k: KeyPair): string { k.keyName }

  function DeleteCall(k: KeyPair): Command { DeleteKeyPair(k.keyName) }

  /** The naming convention that marks a key pair as the tool's own when no query is given. */
  const DeployerInfix := "-deployer"

  /** The filter applied: the query when one is given, otherwise the deployer convention. */
  function SelectionInfix(query: string): string {
    if |query| > 0 then query else DeployerInfix
  }

  /**
    The key pairs to delete: with no query those whose name contains `-deployer`;
    a non-empty query replaces that test by "name contains the query".
   */
  function Select(pairs: seq<KeyPair>, query: string): (r: seq<KeyPair>)
    ensures |query| == 0 ==> forall k :: k in r <==> k in pairs && Contains(k.keyName, DeployerInfix)
    ensures |query| > 0 ==> forall k :: k in r <==> k in pairs && Contains(k.keyName, query)
  {
    FilterMembership(pairs, NameContains(KeyName, SelectionInfix(query)));
    Filter(pairs, NameContains(KeyName, SelectionInfix(query)))
  }

  /**
    The selection keeps inventory order and every copy of a selected key pair, so it
    is exactly the matching key pairs, in inventory order.
   */
  lemma SelectIsOrderedAndComplete(pairs: seq<KeyPair>, query: string, k: KeyPair)
    ensures IsSubsequence(Select(pairs, query), pairs)
    ensures multiset(Select(pairs, query))[k]
         == if Contains(k.keyName, SelectionInfix(query)) then multiset(pairs)[k] else 0
  {
    FilterIsSubsequence(pairs, NameContains(KeyName, SelectionInfix(query)));
    FilterMultiplicity(pairs, NameContains(KeyName, SelectionInfix(query)), k);
  }

  /** The calls of `_clean`: exactly one delete per selected key pair, in selection order. */
  function DeletePlan(list: seq<KeyPair>): (r: seq<Command>)
    ensures |r| == |list|
    ensures forall i :: 0 <= i < |list| ==> r[i] == DeleteKeyPair(list[i].keyName)
  {
    Map(list, DeleteCall)
  }

  /**
    `clean`: the prompt is shown unless auto-approve is set, even for an empty
    selection; deletion runs when auto-approved or when the answer is affirmative.
   */
  function Clean(pairs: seq<KeyPair>, query: string, autoApprove: bool, answer: string): (run: Run)
    ensures run.prompted <==> !autoApprove
    ensures !Approved(autoApprove, answer) ==> run.calls == []
    ensures Approved(autoApprove, answer) ==>
      |run.calls| == |Select(pairs, query)| &&
      forall i :: 0 <= i < |run.calls| ==> run.calls[i] == DeleteKeyPair(Select(pairs, query)[i].keyName)
  {
    Run(!autoApprove, if Approved(autoApprove, answer) then DeletePlan(Select(pairs, query)) else [])
  }

  /**
    The loop of `_clean` with `exitCode(i, c)` the exit code of call `c` for the `i`-th selected item: the
    calls made do not depend on the exit codes, and a success is reported for
    exactly the key pairs whose delete exited with 0.
   */
  method CleanSelected(list: seq<KeyPair>, exitCode: ExitCodes)
    returns (issued: seq<Command>, deleted: seq<string>)
    ensures issued == DeletePlan(list)
    ensures deleted == Reported(list, exitCode, DeleteCall, KeyName)
  {
    issued, deleted := [], [];
    for i := 0 to |list|
      invariant issued == DeletePlan(list[..i])
      invariant deleted == Reported(list[..i], exitCode, DeleteCall, KeyName)
    {
      var item := list[i];
      var call := DeleteKeyPair(item.keyName);
      issued := issued + [call];
      if exitCode(i, call) == 0 {
        deleted := deleted + [item.keyName];
      }
      MapLoopStep(list, i, exitCode, DeleteCall, KeyName);
    }
    assert list[..|list|] == list;
  }

  /** Which of the scenario's key names follow the deployer convention. */
  lemma ScenarioNames()
    ensures Contains("app-deployer-1", DeployerInfix)
    ensures Contains("app-deployer-2", DeployerInfix)
    ensures !Contains("other-key", DeployerInfix)
  {
    assert OccursAt("app-deployer-1", DeployerInfix, 3);
    assert OccursAt("app-deployer-2", DeployerInfix, 3);
    var s, sub := "other-key", DeployerInfix;
    assert s[0] != sub[0];
    assert s[0..9] != sub;
    assert IndexOfFrom(s, sub, 1) == -1;
  }

  /**
    Three key pairs of which the first two follow the deployer convention, no query,
    auto-approved: the first two are deleted, in inventory order, and nothing else.
   */
  lemma DeployerSelection(pairs: seq<KeyPair>)
    requires |pairs| == 3
    requires Contains(pairs[0].keyName, DeployerInfix) && Contains(pairs[1].keyName, DeployerInfix)
    requires !Contains(pairs[2].keyName, DeployerInfix)
    ensures Clean(pairs, "", true, "").calls == [DeleteKeyPair(pairs[0].keyName), DeleteKeyPair(pairs[1].keyName)]
  {
    assert Select(pairs, "") == [pairs[0], pairs[1]] by {
      DeployerFilter(pairs);
    }
  }

  /** The filter step of `DeployerSelection`, kept apart from `Clean`. */
  lemma DeployerFilter(pairs: seq<KeyPair>)
    requires |pairs| == 3
    requires Contains(pairs[0].keyName, DeployerInfix) && Contains(pairs[1].keyName, DeployerInfix)
    requires !Contains(pairs[2].keyName, DeployerInfix)
    ensures Filter(pairs, NameContains(KeyName, DeployerInfix)) == [pairs[0], pairs[1]]
  {
    var p := NameContains(KeyName, DeployerInfix);
    var a, b, c := pairs[0], pairs[1], pairs[2];
    assert Filter([a], p) == [a] by {
      FilterSnoc([], a, p);
    }
    assert Filter([a, b], p) == [a, b] by {
      FilterSnoc([a], b, p);
    }
    assert pairs == [a, b] + [c];
    FilterSnoc([a, b], c, p);
  }

  /**
    Three key pairs named `app-deployer-1`, `app-deployer-2` and `other-key`, no query,
    auto-approved: the two deployer keys are deleted, in inventory order, and nothing else.
   */
  lemma DeployerScenario(pairs: seq<KeyPair>)
    requires |pairs| == 3
    requires pairs[0].keyName == "app-deployer-1" && pairs[1].keyName == "app-deployer-2"
    requires pairs[2].keyName == "other-key"
    ensures Clean(pairs, "", true, "").calls == [DeleteKeyPair("app-deployer-1"), DeleteKeyPair("app-deployer-2")]
  {
    ScenarioNames();
    DeployerSelection(pairs);
  }
}
