/**
  What the five cleaners share: the external calls they issue after listing an
  inventory, the outcome of one `clean` run, the confirmation gate and the
  query filter.
 */
module Cleanup {
  import opened Wrappers
  import opened Text
  import opened Seqs

  /**
    One call to the cloud command-line interface. The initial inventory listing of
    each cleaner is not a `Command`: its result is an input of the model. The
    listings made after confirmation (attached policies of a role, mount targets
    of a file system, all policies for the orphan sweep) are.
   */
  datatype Command =
    | ListAttachedRolePolicies(roleName: string)
    | DetachRolePolicy(roleName: string, policyArn: string)
    | DeleteRole(roleName: string)
    | ListPolicies
    | DeletePolicy(policyArn: string)
    | RemoveRoleFromInstanceProfile(profileName: string, roleName: string)
    | DeleteInstanceProfile(profileName: string)
    | DescribeMountTargets(fileSystemId: string)
    | DeleteMountTarget(mountTargetId: string)
    | DeleteFileSystem(fileSystemId: string)
    | DeleteKeyPair(keyName: string)
      /** `None` is the `false` that is passed when a secret has no current version. */
    | DeleteSecret(secretId: Option<string>)


  /**
    The observable result of one `clean` invocation: whether the operator was asked
    to confirm, and the calls issued after the inventory listing, in order.
   */
  datatype Run = Run(prompted: bool, calls: seq<Command>)

  /** The answers every cleaner's prompt callback accepts: `'y'`, `'Y'` and `'yes'`, compared exactly. */
  predicate IsAffirmative(answer: string): (b: bool)
    ensures b ==> |answer| > 0 && (answer[0] == 'y' || answer[0] == 'Y')
    ensures b ==> answer == "yes" || |answer| == 1
  {
    answer == "y" || answer == "Y" || answer == "yes"
  }

  /** The gate is case-sensitive: other spellings of yes, and the empty answer, decline. */
  lemma ConfirmationIsExact()
    ensures IsAffirmative("y") && IsAffirmative("Y") && IsAffirmative("yes")
    ensures !IsAffirmative("YES") && !IsAffirmative("Yes") && !IsAffirmative("n") && !IsAffirmative("")
  {
  }

  /** Deletion goes ahead when auto-approve is set or the operator answered affirmatively. */
  predicate Approved(autoApprove: bool, answer: string): (b: bool)
    ensures autoApprove ==> b
    ensures !IsAffirmative(answer) ==> (b <==> autoApprove)
    ensures IsAffirmative(answer) ==> b
  {
    autoApprove || IsAffirmative(answer)
  }

  /**
    The exit codes of a loop over `items` are an oracle `exitCode(i, c)`: the exit code
    of call `c` made for the item at position `i`. Indexing by position lets the same
    call fail for one item and succeed for another, as when a role selected twice is
    deleted by its first delete and not found by its second.
   */
  type ExitCodes = (nat, Command) -> int

  /** The success reports of a loop over `items`: the names of the items whose delete call exited with 0. */
  function Reported<T>(items: seq<T>, exitCode: ExitCodes, call: T -> Command, name: T -> string): (r: seq<string>)
    ensures |r| <= |items|
    decreases |items|
  {
    if |items| == 0 then []
    else
      var last := |items| - 1;
      Reported(items[..last], exitCode, call, name)
        + (if exitCode(last, call(items[last])) == 0 then [name(items[last])] else [])
  }

  /** A name is reported exactly when the delete call of some item with that name exited with 0. */
  lemma {:induction false} ReportedMembership<T>(items: seq<T>, exitCode: ExitCodes, call: T -> Command, name: T -> string, n: string)
    ensures n in Reported(items, exitCode, call, name)
        <==> exists i :: 0 <= i < |items| && exitCode(i, call(items[i])) == 0 && name(items[i]) == n
    decreases |items|
  {
    if |items| > 0 {
      var last := |items| - 1;
      var init := items[..last];
      ReportedMembership(init, exitCode, call, name, n);
      assert forall i :: 0 <= i < |init| ==> init[i] == items[i];
    }
  }

  /** Every exit code is 0: every item is reported, in loop order, duplicates included. */
  lemma {:induction false} ReportedAllSucceed<T>(items: seq<T>, exitCode: ExitCodes, call: T -> Command, name: T -> string)
    requires forall i :: 0 <= i < |items| ==> exitCode(i, call(items[i])) == 0
    ensures Reported(items, exitCode, call, name) == Map(items, name)
    decreases |items|
  {
    if |items| > 0 {
      var last := |items| - 1;
      ReportedAllSucceed(items[..last], exitCode, call, name);
    }
  }

  /**
    The same item twice, its first delete succeeding and its second failing: one
    success report, although the same call was made twice.
   */
  lemma RepeatedDeleteReportedOnce<T>(x: T, exitCode: ExitCodes, call: T -> Command, name: T -> string)
    requires exitCode(0, call(x)) == 0 && exitCode(1, call(x)) != 0
    ensures Reported([x, x], exitCode, call, name) == [name(x)]
  {
    assert [x, x][..1] == [x];
    assert [x][..0] == [];
  }

  /** One more loop iteration adds the item's name exactly when its delete call exited with 0. */
  lemma ReportedSnoc<T>(items: seq<T>, x: T, exitCode: ExitCodes, call: T -> Command, name: T -> string)
    ensures Reported(items + [x], exitCode, call, name)
         == Reported(items, exitCode, call, name) + (if exitCode(|items|, call(x)) == 0 then [name(x)] else [])
  {
    assert (items + [x])[..|items|] == items;
  }

  /**
    One iteration of a cleaner's main loop over `list`: the calls grow by item `i`'s
    block and the success reports by its name exactly when its delete exited with 0.
   */
  lemma LoopStep<T>(list: seq<T>, i: nat, block: T -> seq<Command>,
                    exitCode: ExitCodes, call: T -> Command, name: T -> string)
    requires i < |list|
    ensures ConcatMap(list[..i + 1], block) == ConcatMap(list[..i], block) + block(list[i])
    ensures Reported(list[..i + 1], exitCode, call, name)
         == Reported(list[..i], exitCode, call, name) + (if exitCode(i, call(list[i])) == 0 then [name(list[i])] else [])
  {
    assert list[..i + 1] == list[..i] + [list[i]];
    ConcatMapSnoc(list[..i], list[i], block);
    ReportedSnoc(list[..i], list[i], exitCode, call, name);
  }

  /**
    One iteration of a loop that issues one call per item: the calls grow by item
    `i`'s call and the success reports by its name exactly when that call exited with 0.
   */
  lemma MapLoopStep<T>(list: seq<T>, i: nat, exitCode: ExitCodes, call: T -> Command, name: T -> string)
    requires i < |list|
    ensures Map(list[..i + 1], call) == Map(list[..i], call) + [call(list[i])]
    ensures Reported(list[..i + 1], exitCode, call, name)
         == Reported(list[..i], exitCode, call, name) + (if exitCode(i, call(list[i])) == 0 then [name(list[i])] else [])
  {
    assert list[..i + 1] == list[..i] + [list[i]];
    MapSnoc(list[..i], list[i], call);
    ReportedSnoc(list[..i], list[i], exitCode, call, name);
  }

  /** The selection test `name(x).indexOf(query) !== -1` as a filter predicate. */
  function NameContains<T(!new)>(name: T -> string, query: string): (p: T -> bool)
    ensures forall x :: p(x) <==> Contains(name(x), query)
  {
    x => Contains(name(x), query)
  }

  /**
    The concatenation of one filter per pattern, in pattern order: an item matching
    several patterns appears once per matching pattern.
   */
  function FilterEach<T(!new)>(items: seq<T>, name: T -> string, patterns: seq<string>): seq<T>
    decreases |patterns|
  {
    if |patterns| == 0 then []
    else FilterEach(items, name, patterns[..|patterns| - 1]) + Filter(items, NameContains(name, patterns[|patterns| - 1]))
  }

  /** `n` contains at least one of `patterns`. */
  predicate MatchesAny(n: string, patterns: seq<string>)
    decreases |patterns|
  {
    |patterns| > 0 && (MatchesAny(n, patterns[..|patterns| - 1]) || Contains(n, patterns[|patterns| - 1]))
  }

  /** `MatchesAny` is "some pattern occurs in `n`". */
  lemma {:induction false} MatchesAnyIff(n: string, patterns: seq<string>)
    ensures MatchesAny(n, patterns) <==> exists k :: 0 <= k < |patterns| && Contains(n, patterns[k])
    decreases |patterns|
  {
    if |patterns| > 0 {
      var init := patterns[..|patterns| - 1];
      MatchesAnyIff(n, init);
      assert forall k :: 0 <= k < |init| ==> init[k] == patterns[k];
    }
  }

  /** An item is in the result of `FilterEach` exactly when its name contains one of the patterns. */
  lemma {:induction false} FilterEachMembership<T(!new)>(items: seq<T>, name: T -> string, patterns: seq<string>)
    ensures forall x :: x in FilterEach(items, name, patterns) <==> x in items && MatchesAny(name(x), patterns)
    decreases |patterns|
  {
    if |patterns| > 0 {
      var init, last := patterns[..|patterns| - 1], patterns[|patterns| - 1];
      FilterEachMembership(items, name, init);
      FilterMembership(items, NameContains(name, last));
    }
  }

  /**
    The query filter of the secrets, instance-profile and file-system cleaners: the
    whole inventory when the query is empty, otherwise the items whose name
    contains the query.
   */
  function QueryFilter<T(!new)>(items: seq<T>, name: T -> string, query: string): (r: seq<T>)
    ensures forall x :: x in r <==> x in items && (|query| == 0 || Contains(name(x), query))
    ensures |query| == 0 ==> r == items
  {
    if |query| > 0 then
      FilterMembership(items, NameContains(name, query));
      Filter(items, NameContains(name, query))
    else items
  }

  /**
    The query filter keeps inventory order and every copy of a matching item, so it
    is exactly the matching items, in inventory order.
   */
  lemma QueryFilterIsOrderedAndComplete<T(!new)>(items: seq<T>, name: T -> string, query: string, x: T)
    ensures IsSubsequence(QueryFilter(items, name, query), items)
    ensures multiset(QueryFilter(items, name, query))[x]
         == if |query| == 0 || Contains(name(x), query) then multiset(items)[x] else 0
  {
    if |query| > 0 {
      FilterIsSubsequence(items, NameContains(name, query));
      FilterMultiplicity(items, NameContains(name, query), x);
    } else {
      SubsequenceOfSelf(items);
    }
  }
}
