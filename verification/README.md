# polygon-cleanup: selection and deletion plans of the five cleaners

`polygon-cleanup` removes leftover AWS resources of a Polygon/ORBS deployment.
Each of its five cleaners does the same four things:

1. It lists an inventory: IAM roles, IAM instance profiles, EFS file systems,
   EC2 key pairs or Secrets Manager secrets.
2. It narrows the inventory with a substring test (`indexOf(...) !== -1`).
3. It asks for confirmation, unless auto-approve is set.
4. It issues a fixed, dependency-ordered sequence of CLI calls. Dependents go
   first: detach the policies before deleting the role, remove the roles before
   deleting the instance profile, delete the mount targets before deleting the
   file system.

No exit code of a delete, detach or removal changes which later call is made.
Those exit codes only decide what gets logged. (A failed lookup whose output is not
JSON makes the parse throw and ends the run; "## Left out" lists that case.) So each cleaner is modelled as a pure function. It takes the listed
inventory, the dependent lookups (as functions from a name or id to a sequence),
the query, the auto-approve flag and the answer. It returns a `Run`: whether the
operator was prompted, and the sequence of `Command`s issued after the listing.

Each cleaner also has a `CleanSelected` method that mirrors the deletion loop of its lib/*.js file (`_clean`, or the prompt callback of `clean` in lib/secrets.js),
with exit codes supplied by an oracle: `exitCode(i, c)` is the exit code of call `c`
made for the `i`-th selected item. The position makes the oracle stateful enough
for one call to succeed for one item and fail for another. That happens when the
same role is selected twice and deleted twice. Its contract says two things:

- the calls made are exactly the pure plan, whatever the exit codes;
- the per-item success messages ("... was deleted successfully!") name exactly the
  items whose delete exited with 0.

Modules:

- `Wrappers`: the `Option` type.
- `Text`: `indexOf`, the substring test, and `Array.prototype.toString` as a
  comma join.
- `Seqs`: filter, map, the concatenation of per-item call blocks, and the
  subsequence relation.
- `Cleanup`: the `Command` and `Run` types, the confirmation gate, the query
  filter and the concatenated multi-pattern filter.
- `Ec2KeyPairs`, `Efs`, `IamInstanceProfiles`, `IamRoles`, `Secrets`: one module
  per cleaner.

The confirmation gate follows the code. It accepts exactly `y`, `Y` and `yes`,
compared case-sensitively, so `YES` and `Yes` decline.

## Model

| member | source | states |
|---|---|---|
| Text.IndexOf | lib/efs.js:61 | `indexOf` is -1 exactly when the search string occurs nowhere; otherwise it is the first position where it occurs |
| Text.Contains | lib/iam-instance-profiles.js:56 | the selection test holds exactly when the search string occurs somewhere in the name (the `> -1` and `!== -1` spellings agree) |
| Text.ContainsParts | lib/iam-roles.js:95-96 | a name containing `query + suffix` contains both the query and the suffix |
| Text.JoinIsWord | lib/secrets.js:29 | a comma-joined list equals a comma-free non-empty word exactly when the list is that one word |
| Cleanup.IsAffirmative | lib/efs.js:79 | every accepted answer is `yes` or a single character `y` or `Y`; with `Cleanup.ConfirmationIsExact`, the accepted answers are exactly `y`, `Y` and `yes` |
| Cleanup.Approved | lib/efs.js:68-85 | the run proceeds exactly when auto-approve is set or the answer is affirmative: auto-approve always proceeds, an affirmative answer always proceeds, and otherwise nothing proceeds |
| Cleanup.ConfirmationIsExact | lib/efs.js:79 | `y`, `Y` and `yes` approve; `YES`, `Yes`, `n` and the empty answer do not |
| Cleanup.Reported | lib/efs.js:47-50 | a loop reports at most one success per item |
| Cleanup.ReportedMembership | lib/iam-roles.js:60-63 | a name is reported exactly when the delete made for some item of that name exited with 0 |
| Cleanup.ReportedAllSucceed | lib/secrets.js:51-58 | when every delete exits with 0, every item is reported, in loop order, duplicates included |
| Cleanup.RepeatedDeleteReportedOnce | lib/iam-roles.js:60-63 | a role deleted twice whose first delete succeeds and second fails is reported once |
| Cleanup.LoopStep | lib/efs.js:31-52 | one iteration of a cleaner loop appends the item's block to the calls, and appends its name to the reports exactly when its delete exited with 0 |
| Cleanup.MatchesAnyIff | lib/iam-roles.js:26-29 | "matches one of the patterns" means some pattern occurs in the name |
| Cleanup.FilterEachMembership | lib/iam-roles.js:26-29 | an item is in the concatenated per-pattern filters exactly when it is listed and its name contains one of the patterns |
| Cleanup.QueryFilter | lib/efs.js:61 | an empty query keeps the whole inventory; otherwise an item is kept exactly when its name contains the query |
| Cleanup.QueryFilterIsOrderedAndComplete | lib/efs.js:61 | the query filter is a subsequence of the inventory that keeps every copy of a matching item and no copy of any other |
| Ec2KeyPairs.Select | lib/ec2-keypairs.js:42-43 | with no query, a key pair is selected exactly when its name contains `-deployer`; a non-empty query replaces that test by "name contains the query" |
| Ec2KeyPairs.SelectIsOrderedAndComplete | lib/ec2-keypairs.js:42-43 | the selection is a subsequence of the inventory and keeps every copy of a matching key pair and no copy of any other |
| Ec2KeyPairs.DeletePlan | lib/ec2-keypairs.js:23-27 | one delete per selected key pair, in selection order, and no other call |
| Ec2KeyPairs.Clean | lib/ec2-keypairs.js:36-67 | the prompt is shown exactly when auto-approve is off, even for an empty selection; unapproved runs make no call; approved runs delete each selected key pair in order |
| Ec2KeyPairs.CleanSelected | lib/ec2-keypairs.js:22-35 | the loop issues the plan whatever the exit codes, and reports exactly the key pairs whose delete exited with 0 |
| Ec2KeyPairs.ScenarioNames | lib/ec2-keypairs.js:43 | `app-deployer-1` and `app-deployer-2` contain `-deployer`; `other-key` does not |
| Ec2KeyPairs.DeployerFilter | lib/ec2-keypairs.js:42-43 | the `-deployer` name filter keeps the first two of three key pairs, in order, when only those two contain the infix |
| Ec2KeyPairs.DeployerSelection | lib/ec2-keypairs.js:42-43 | with no query and auto-approve, three key pairs of which only the first two contain `-deployer` yield exactly the deletes of those two, in order |
| Ec2KeyPairs.DeployerScenario | lib/ec2-keypairs.js:42-43 | with no query and auto-approve, the inventory `app-deployer-1`, `app-deployer-2`, `other-key` yields exactly the deletes of the first two, in order |
| Efs.Select | lib/efs.js:61 | an empty query selects every file system; otherwise exactly those whose `Name` contains the query |
| Efs.SelectIsOrderedAndComplete | lib/efs.js:61 | the selection is a subsequence of the inventory that keeps every copy of a matching item and no copy of any other (every copy when the query is empty) |
| Efs.FileSystemCalls | lib/efs.js:38-47 | a file system with N mount targets gets its mount-target lookup, then N mount-target deletes in lookup order, then its single delete |
| Efs.DeletePlan | lib/efs.js:30-55 | the plan is empty exactly when the selection is, and ends with the delete of the last selected file system |
| Efs.DeletePlanBlocks | lib/efs.js:31-52 | file systems are processed in selection order, and each one's calls form one uninterrupted block |
| Efs.FileSystemCallsDeleteOnce | lib/efs.js:47 | a file system's block deletes that file system exactly once |
| Efs.FileSystemCallsMountTargets | lib/efs.js:39-45 | a file system's block deletes each of its mount targets once, in lookup order |
| Efs.DeletePlanCounts | lib/efs.js:31-52 | the plan deletes each selected file system once, in selection order, and issues exactly as many mount-target deletes as the lookups report |
| Efs.Clean | lib/efs.js:56-86 | an empty selection returns before the prompt with no call; otherwise the prompt is shown exactly when auto-approve is off, and calls are made exactly when the run is approved |
| Efs.DeleteMountTargets | lib/efs.js:39-45 | one delete per mount target, in order, whatever the earlier deletes returned |
| Efs.CleanSelected | lib/efs.js:30-55 | a failed mount-target delete skips neither the remaining ones nor the file-system delete; successes are reported for exactly the file systems whose delete exited with 0 |
| IamInstanceProfiles.Select | lib/iam-instance-profiles.js:56 | an empty query selects every profile; otherwise exactly those whose name contains the query |
| IamInstanceProfiles.SelectIsOrderedAndComplete | lib/iam-instance-profiles.js:56 | the selection is a subsequence of the inventory that keeps every copy of a matching item and no copy of any other (every copy when the query is empty) |
| IamInstanceProfiles.ProfileCalls | lib/iam-instance-profiles.js:33-45 | one role removal per embedded role, in order, then one delete of the profile |
| IamInstanceProfiles.DeletePlan | lib/iam-instance-profiles.js:28-53 | the plan is empty exactly when the selection is, and ends with the delete of the last selected profile |
| IamInstanceProfiles.DeletePlanBlocks | lib/iam-instance-profiles.js:29-50 | profiles are processed in selection order, each one's calls forming one uninterrupted block |
| IamInstanceProfiles.ProfileCallsDeleteOnce | lib/iam-instance-profiles.js:44-45 | a profile's block deletes that profile exactly once |
| IamInstanceProfiles.DeletePlanCounts | lib/iam-instance-profiles.js:29-50 | the plan has the sum over selected profiles of `Roles.length + 1` calls, and deletes each selected profile once, in order |
| IamInstanceProfiles.Clean | lib/iam-instance-profiles.js:54-80 | the prompt is shown exactly when auto-approve is off; an empty selection does not short-circuit but yields no call; the plan runs only when approved |
| IamInstanceProfiles.RemoveRoles | lib/iam-instance-profiles.js:33-42 | one removal per embedded role, in order; the results are never inspected |
| IamInstanceProfiles.CleanSelected | lib/iam-instance-profiles.js:28-53 | the profile delete is always attempted; the loop issues the plan and reports exactly the profiles whose delete exited with 0 |
| IamRoles.DefaultPatterns | lib/iam-roles.js:90-95 | the search strings are `query + "-manager"` then `query + "-worker"` |
| IamRoles.DefaultGroups | lib/iam-roles.js:93-98 | the appender loop concatenates the `-manager` filter and then the `-worker` filter |
| IamRoles.Select | lib/iam-roles.js:89-98 | a role is selected exactly when its name contains `query + "-manager"` or `query + "-worker"` |
| IamRoles.SelectGroups | lib/iam-roles.js:93-98 | the selection is the `-manager` group followed by the `-worker` group, each in inventory order |
| IamRoles.DefaultSelection | lib/iam-roles.js:89-98 | with the empty query the groups are "name contains `-manager`" and then "name contains `-worker`" |
| IamRoles.SelectMultiplicity | lib/iam-roles.js:93-98 | a role appears once per suffix it matches, so twice when it matches both; nothing is de-duplicated |
| IamRoles.SelectFollowsConvention | lib/iam-roles.js:95-96 | every selected role name contains `-manager` or `-worker`, and contains the query |
| IamRoles.UniqByName | lib/iam-roles.js:30 | `uniqBy` never grows its input and keeps only entries of its input |
| IamRoles.UniqByNameSpec | lib/iam-roles.js:30 | `uniqBy` by policy name leaves no two entries with one name, represents every name, and keeps the first entry of each name |
| IamRoles.UniqByNameIsSubsequence | lib/iam-roles.js:30 | `uniqBy`'s result is a subsequence of its input |
| IamRoles.UniqByNameOrder | lib/iam-roles.js:30 | `uniqBy` lists the kept entries in the order in which their names first occur in its input |
| IamRoles.UniqByNameSkip | lib/iam-roles.js:30 | an entry whose name is already represented is dropped |
| IamRoles.UniqByNameAppend | lib/iam-roles.js:30 | an entry with a new name is kept, and it is the first of its name |
| IamRoles.OrphanedPolicies | lib/iam-roles.js:20-31 | every orphan is a listed policy whose name contains `constellation-`, `orbs-`, `manager-` or `worker-` |
| IamRoles.OrphanedPoliciesSpec | lib/iam-roles.js:20-31 | every orphan is a listed policy whose name contains `constellation-`, `orbs-`, `manager-` or `worker-`; no two orphans share a name; every such name is represented by its first occurrence in the infix-grouped concatenation |
| IamRoles.OrphanedPoliciesOrder | lib/iam-roles.js:26-30 | the orphans are listed in the order in which their names first occur in the infix-grouped candidate list |
| IamRoles.FilterKeepsUniqueNames | lib/iam-roles.js:69 | filtering the orphan list cannot introduce a repeated name |
| IamRoles.FinalOrphans | lib/iam-roles.js:69 | a policy is a final orphan exactly when it is an orphan and, for a non-empty query, its name contains the query; the empty query keeps the orphan list as it is |
| IamRoles.FinalOrphansSpec | lib/iam-roles.js:68-69 | every final orphan is an owned listed policy; with a non-empty query its name contains the query; with the empty query the orphan list is used unchanged |
| IamRoles.FinalOrphansUnique | lib/iam-roles.js:68-69 | no two final orphans share a name |
| IamRoles.RoleCalls | lib/iam-roles.js:35-60 | a role's block lists its attached policies, detaches each one in attached order, then deletes the role; a missing `AttachedPolicies` field counts as no policy |
| IamRoles.RolePhase | lib/iam-roles.js:46-65 | the role loop makes no call exactly when no role is selected, and otherwise ends with the delete of the last selected role |
| IamRoles.DeletePlan | lib/iam-roles.js:45-81 | the plan closes with the policy listing followed by one delete per orphan, in order; with no selected role it is the sweep alone |
| IamRoles.RolePhaseIsRoleCalls | lib/iam-roles.js:46-65 | the role loop issues only listings of attached policies, detaches and role deletes |
| IamRoles.DeletePlanBlocks | lib/iam-roles.js:46-65 | roles are processed in selection order, each one's calls forming one uninterrupted block before the sweep |
| IamRoles.SweepCalls | lib/iam-roles.js:67-81 | the sweep is the policy listing, then one delete per final orphan, in order |
| IamRoles.SweepHasNoRoleCalls | lib/iam-roles.js:67-81 | the sweep issues no role call |
| IamRoles.SweepComesLast | lib/iam-roles.js:45-81 | every role call comes before every policy delete |
| IamRoles.RolePhaseDeletesNoPolicy | lib/iam-roles.js:46-65 | the role loop detaches policies but deletes none |
| IamRoles.SweepPolicyDeletes | lib/iam-roles.js:74-81 | the sweep deletes each final orphan once, in order |
| IamRoles.SweepDeletes | lib/iam-roles.js:45-81 | the whole plan deletes exactly the final orphans, once each, in order |
| IamRoles.RoleCallsDeleteOnce | lib/iam-roles.js:60 | a role's block deletes that role exactly once |
| IamRoles.RolePhaseDeletes | lib/iam-roles.js:46-65 | the role loop deletes each selected role once, in selection order |
| IamRoles.RoleDeletes | lib/iam-roles.js:45-81 | the whole plan deletes each selected role once, in selection order, duplicates included |
| IamRoles.Clean | lib/iam-roles.js:85-122 | the prompt is shown exactly when auto-approve is off; calls are made exactly when approved; an approved run with no selected role still runs the orphan sweep |
| IamRoles.RolePhaseSingle | lib/iam-roles.js:46-65 | a one-role loop is that role's block |
| IamRoles.WorkerOnlySelection | lib/iam-roles.js:89-98 | with no query, a role matching only the worker suffix is selected once |
| IamRoles.WorkerName | lib/iam-roles.js:90-96 | `svc-worker` contains `-worker` and not `-manager` |
| IamRoles.SingleWorkerScenario | lib/iam-roles.js:45-84 | with no query and auto-approve, a single worker role with two attached policies gives: listing, two detaches in order, the role delete, then the orphan sweep |
| IamRoles.DetachAll | lib/iam-roles.js:53-58 | one detach per attached policy, in order, whatever the detaches return |
| IamRoles.SweepOrphans | lib/iam-roles.js:74-81 | one delete per final orphan, in order; a failure is logged and the loop continues |
| IamRoles.DeleteRoles | lib/iam-roles.js:46-65 | the role loop issues its plan whatever the exit codes, and reports exactly the roles whose delete exited with 0 |
| IamRoles.CleanSelected | lib/iam-roles.js:45-84 | the role loop and the sweep issue the plan whatever the exit codes |
| Secrets.IsCurrentIffSoleStage | lib/secrets.js:29 | a version's stage list stringifies to `AWSCURRENT` exactly when it is the single label `AWSCURRENT` |
| Secrets.GetSecretId | lib/secrets.js:27-35 | a secret's id is found exactly when one of its versions has the sole stage label `AWSCURRENT`, and it is such a version's id |
| Secrets.FirstCurrent | lib/secrets.js:27-35 | `getSecretId` returns the first version, in key order, whose stage list stringifies to `AWSCURRENT`, and `false` when no version does |
| Secrets.Select | lib/secrets.js:38 | an empty query selects every secret; otherwise exactly those whose `Name` contains the query |
| Secrets.SelectIsOrderedAndComplete | lib/secrets.js:38 | the selection is a subsequence of the inventory that keeps every copy of a matching item and no copy of any other (every copy when the query is empty) |
| Secrets.DeletePlan | lib/secrets.js:51-58 | one forced delete per selected secret, in order, addressed by `getSecretId` |
| Secrets.Clean | lib/secrets.js:36-64 | there is no auto-approve: the prompt is always shown; an affirmative answer deletes each selected secret in order, and any other answer makes no call |
| Secrets.EmptyInventory | lib/secrets.js:40-58 | an empty inventory still prompts and makes no call |
| Secrets.CleanSelected | lib/secrets.js:51-58 | the loop issues the plan whatever the exit codes, and reports exactly the secrets whose delete exited with 0 |

## Left out

- `exec`, the AWS CLI command strings and `JSON.parse` of their output are foreign I/O. Calls are abstract `Command` values, and listings are inputs.
- The `aws iam delete-key-pair` string at lib/ec2-keypairs.js:20 is an abstract `DeleteKeyPair` call. Whether the CLI accepts it is outside the model.
- The initial inventory listing of each cleaner is an input, not a `Command`. The lookups made after confirmation are `Command`s: attached policies, mount targets, and the policy listing of the sweep.
- The dependent lookups are functions of the role name or file-system id. The model does not cover a lookup whose answer changes between calls.
- `inquirer` prompt rendering and its `default: 'y'` for an empty answer are left out. The answer is taken after the library has applied its default.
- `chalk`, `console.log` and `prepareQuestion` only affect the display.
- `process.exit(0)` after the secrets loop (lib/secrets.js:61) is left out, as is the promise timing: `clean` returns before the prompt's callback runs.
- bin/polygon-cleanup.js is a thin CLI wrapper. The only detail used from it is that the query defaults to the empty string (bin/polygon-cleanup.js:12).
- The `region` and `awsProfile` fields never affect which calls are made, so they are omitted.
- The `for...in` loops (lib/iam-roles.js:74 and 93, lib/secrets.js:28) are modelled as walking the array indices or the object's keys in order. Key order is taken as given by the listing.
- Pagination of the AWS listings is not handled in lib/*.js and is not modelled.
- A failed lookup ends the run. The mount-target lookup (lib/efs.js:20-21), the attached-policy lookup (lib/iam-roles.js:36-37) and the policy listing of the sweep (lib/iam-roles.js:21-22) parse their output with `JSON.parse`. A failed lookup whose output is not JSON makes the parse throw, and the remaining items and the orphan sweep are skipped. The model's lookups always answer. One example: a role selected twice is deleted by its first block, so the second attached-policy lookup fails. The run then stops before the second `DeleteRole` and before the sweep.
- IamRoles.RoleDeletes, IamRoles.Clean, IamRoles.CleanSelected, IamRoles.DeleteRoles, Efs.CleanSelected: the predicted calls assume every lookup answers, for the reason given on the line above.
- A file system without a `Name` tag is not modelled: `FileSystem.name` is always a string. With a non-empty query, `k.Name.indexOf(query)` (lib/efs.js:61) throws for such a file system and the run ends before the prompt.
- The detach success message (lib/iam-roles.js:55-57) and the failure logs of the mount-target and policy deletes (lib/efs.js:42-44, lib/iam-roles.js:78-80) are not modelled. Only the per-item delete successes are.
