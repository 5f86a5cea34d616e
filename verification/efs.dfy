/** The EFS file-system cleaner (lib/efs.js). */
module Efs {
  import opened Seqs
  import opened Cleanup
  import opened Text

  datatype MountTarget = MountTarget(mountTargetId: string)

  datatype FileSystem = FileSystem(fileSystemId: string, name: string)

  function FileSystemName(f: FileSystem): string { f.name }

  function DeleteMountTargetCall(m: MountTarget): Command { DeleteMountTarget(m.mountTargetId) }

  function DeleteFileSystemCall(f: FileSystem): Command { DeleteFileSystem(f.fileSystemId) }

  predicate IsDeleteFileSystem(c: Command) { c.DeleteFileSystem? }

  predicate IsDeleteMountTarget(c: Command) { c.DeleteMountTarget? }

  /** Every file system when the query is empty, otherwise those whose name contains the query. */
  function Select(fileSystems: seq<FileSystem>, query: string): (r: seq<FileSystem>)
    ensures forall f :: f in r <==> f in fileSystems && (|query| == 0 || Contains(f.name, query))
    ensures |query| == 0 ==> r == fileSystems
  {
    QueryFilter(fileSystems, FileSystemName, query)
  }

  /**
    The selection keeps inventory order and every copy of a selected item, so it is
    exactly the matching items, in inventory order.
   */
  lemma SelectIsOrderedAndComplete(fileSystems: seq<FileSystem>, query: string, x: FileSystem)
    ensures IsSubsequence(Select(fileSystems, query), fileSystems)
    ensures multiset(Select(fileSystems, query))[x]
         == if |query| == 0 || Contains(FileSystemName(x), query) then multiset(fileSystems)[x] else 0
  {
    QueryFilterIsOrderedAndComplete(fileSystems, FileSystemName, query, x);
  }

  /**
    The calls made for one file system with mount targets `mountTargets`: the
    mount-target lookup, one delete per mount target in lookup order, then the
    delete of the file system itself.
   */
  function FileSystemCalls(f: FileSystem, mountTargets: seq<MountTarget>): (r: seq<Command>)
    ensures |r| == |mountTargets| + 2
    ensures r[0] == DescribeMountTargets(f.fileSystemId)
    ensures forall k :: 0 <= k < |mountTargets| ==> r[k + 1] == DeleteMountTarget(mountTargets[k].mountTargetId)
    ensures r[|mountTargets| + 1] == DeleteFileSystem(f.fileSystemId)
  {
    [DescribeMountTargets(f.fileSystemId)] + Map(mountTargets, DeleteMountTargetCall) + [DeleteFileSystem(f.fileSystemId)]
  }

  /** `mountTargetsOf` is the answer of the mount-target lookup for a file-system id. */
  function Step(mountTargetsOf: string -> seq<MountTarget>): FileSystem -> seq<Command> {
    (f: FileSystem) => FileSystemCalls(f, mountTargetsOf(f.fileSystemId))
  }

  /** The calls of `_clean` for the selected file systems. */
  function DeletePlan(list: seq<FileSystem>, mountTargetsOf: string -> seq<MountTarget>): (r: seq<Command>)
    ensures |list| == 0 <==> |r| == 0
    ensures |list| > 0 ==> r[|r| - 1] == DeleteFileSystem(list[|list| - 1].fileSystemId)
  {
    DeletePlanLast(list, mountTargetsOf);
    ConcatMap(list, Step(mountTargetsOf))
  }

  /** The last selected file system's block closes the plan. */
  lemma DeletePlanLast(list: seq<FileSystem>, mountTargetsOf: string -> seq<MountTarget>)
    ensures |list| > 0 ==>
      var last := list[|list| - 1];
      ConcatMap(list, Step(mountTargetsOf))
        == ConcatMap(list[..|list| - 1], Step(mountTargetsOf)) + FileSystemCalls(last, mountTargetsOf(last.fileSystemId))
  {
  }

  /** The number of mount targets the lookups report for the file systems of `list`. */
  function MountTargetTotal(list: seq<FileSystem>, mountTargetsOf: string -> seq<MountTarget>): nat
    decreases |list|
  {
    if |list| == 0 then 0
    else MountTargetTotal(list[..|list| - 1], mountTargetsOf) + |mountTargetsOf(list[|list| - 1].fileSystemId)|
  }

  /**
    File systems are processed in selection order, and each one's calls form one
    uninterrupted block of the plan.
   */
  lemma DeletePlanBlocks(list: seq<FileSystem>, mountTargetsOf: string -> seq<MountTarget>, i: nat)
    requires i < |list|
    ensures DeletePlan(list, mountTargetsOf)
         == DeletePlan(list[..i], mountTargetsOf)
          + FileSystemCalls(list[i], mountTargetsOf(list[i].fileSystemId))
          + DeletePlan(list[i + 1..], mountTargetsOf)
  {
    ConcatMapBlock(list, Step(mountTargetsOf), i);
  }

  /** A file system's block deletes that file system exactly once, as its last call. */
  lemma FileSystemCallsDeleteOnce(f: FileSystem, mountTargets: seq<MountTarget>)
    ensures Filter(FileSystemCalls(f, mountTargets), IsDeleteFileSystem) == [DeleteFileSystem(f.fileSystemId)]
  {
    var head, mid, last := [DescribeMountTargets(f.fileSystemId)], Map(mountTargets, DeleteMountTargetCall), DeleteFileSystem(f.fileSystemId);
    assert Filter(head, IsDeleteFileSystem) == [] by {
      assert head == [] + [head[0]];
    }
    assert Filter(mid, IsDeleteFileSystem) == [] by {
      FilterDropsAll(mid, IsDeleteFileSystem);
    }
    assert Filter(head + mid, IsDeleteFileSystem) == [] by {
      FilterAppend(head, mid, IsDeleteFileSystem);
    }
    assert Filter(head + mid + [last], IsDeleteFileSystem) == [last] by {
      FilterSnoc(head + mid, last, IsDeleteFileSystem);
    }
  }

  /** A file system's block deletes each of its mount targets once, in lookup order. */
  lemma FileSystemCallsMountTargets(f: FileSystem, mountTargets: seq<MountTarget>)
    ensures Filter(FileSystemCalls(f, mountTargets), IsDeleteMountTarget) == Map(mountTargets, DeleteMountTargetCall)
  {
    var head, mid, last := [DescribeMountTargets(f.fileSystemId)], Map(mountTargets, DeleteMountTargetCall), DeleteFileSystem(f.fileSystemId);
    assert Filter(head, IsDeleteMountTarget) == [] by {
      assert head == [] + [head[0]];
    }
    assert Filter(mid, IsDeleteMountTarget) == mid by {
      FilterKeepsAll(mid, IsDeleteMountTarget);
    }
    assert Filter(head + mid, IsDeleteMountTarget) == mid by {
      FilterAppend(head, mid, IsDeleteMountTarget);
    }
    assert Filter(head + mid + [last], IsDeleteMountTarget) == mid by {
      FilterSnoc(head + mid, last, IsDeleteMountTarget);
    }
  }

  /**
    The plan deletes each selected file system exactly once, in selection order, and
    issues exactly one mount-target delete per mount target reported.
   */
  lemma {:induction false} DeletePlanCounts(list: seq<FileSystem>, mountTargetsOf: string -> seq<MountTarget>)
    ensures Filter(DeletePlan(list, mountTargetsOf), IsDeleteFileSystem) == Map(list, DeleteFileSystemCall)
    ensures |Filter(DeletePlan(list, mountTargetsOf), IsDeleteMountTarget)| == MountTargetTotal(list, mountTargetsOf)
    decreases |list|
  {
    if |list| > 0 {
      var init, last := list[..|list| - 1], list[|list| - 1];
      DeletePlanCounts(init, mountTargetsOf);
      FilterConcatMapSnoc(list, Step(mountTargetsOf), IsDeleteFileSystem);
      FilterConcatMapSnoc(list, Step(mountTargetsOf), IsDeleteMountTarget);
      FileSystemCallsDeleteOnce(last, mountTargetsOf(last.fileSystemId));
      FileSystemCallsMountTargets(last, mountTargetsOf(last.fileSystemId));
    }
  }

  /**
    `clean`: an empty selection returns before the prompt with no calls; otherwise
    the prompt is shown unless auto-approve is set, and the plan runs only when
    auto-approved or answered affirmatively.
   */
  function Clean(fileSystems: seq<FileSystem>, query: string, autoApprove: bool, answer: string,
                 mountTargetsOf: string -> seq<MountTarget>): (run: Run)
    ensures |Select(fileSystems, query)| == 0 ==> !run.prompted && run.calls == []
    ensures |Select(fileSystems, query)| > 0 ==> (run.prompted <==> !autoApprove)
    ensures |Select(fileSystems, query)| > 0 ==> (run.calls != [] <==> Approved(autoApprove, answer))
    ensures !Approved(autoApprove, answer) ==> run.calls == []
    ensures Approved(autoApprove, answer) ==> run.calls == DeletePlan(Select(fileSystems, query), mountTargetsOf)
  {
    var list := Select(fileSystems, query);
    if |list| == 0 then Run(false, [])
    else Run(!autoApprove, if Approved(autoApprove, answer) then DeletePlan(list, mountTargetsOf) else [])
  }

  /**
    The inner loop of `_clean`: one delete per mount target, in lookup order; a
    failed delete is only logged and does not stop the loop.
   */
  method DeleteMountTargets(mountTargets: seq<MountTarget>) returns (issued: seq<Command>)
    ensures issued == Map(mountTargets, DeleteMountTargetCall)
    ensures |issued| == |mountTargets|
    ensures forall k :: 0 <= k < |mountTargets| ==> issued[k] == DeleteMountTarget(mountTargets[k].mountTargetId)
  {
    issued := [];
    for j := 0 to |mountTargets|
      invariant issued == Map(mountTargets[..j], DeleteMountTargetCall)
    {
      var call := DeleteMountTarget(mountTargets[j].mountTargetId);
      issued := issued + [call];
      assert mountTargets[..j + 1] == mountTargets[..j] + [mountTargets[j]];
      MapSnoc(mountTargets[..j], mountTargets[j], DeleteMountTargetCall);
    }
    assert mountTargets[..|mountTargets|] == mountTargets;
  }

  /**
    The loops of `_clean` with `exitCode(i, c)` the exit code of call `c` for the `i`-th selected item: a failed
    mount-target delete skips neither the remaining mount targets nor the file-system
    delete, so the calls made are the plan whatever the exit codes; a success is
    reported for exactly the file systems whose delete exited with 0.
   */
  method CleanSelected(list: seq<FileSystem>, mountTargetsOf: string -> seq<MountTarget>, exitCode: ExitCodes)
    returns (issued: seq<Command>, deleted: seq<string>)
    ensures issued == DeletePlan(list, mountTargetsOf)
    ensures deleted == Reported(list, exitCode, DeleteFileSystemCall, FileSystemName)
  {
    issued, deleted := [], [];
    for i := 0 to |list|
      invariant issued == DeletePlan(list[..i], mountTargetsOf)
      invariant deleted == Reported(list[..i], exitCode, DeleteFileSystemCall, FileSystemName)
    {
      var item := list[i];
      LoopStep(list, i, Step(mountTargetsOf), exitCode, DeleteFileSystemCall, FileSystemName);
      var removals := DeleteMountTargets(mountTargetsOf(item.fileSystemId));
      var call := DeleteFileSystem(item.fileSystemId);
      issued := issued + ([DescribeMountTargets(item.fileSystemId)] + removals + [call]);
      if exitCode(i, call) == 0 {
        deleted := deleted + [item.name];
      }
    }
    assert list[..|list|] == list;
  }
}
