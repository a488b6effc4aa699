# Cross-account manager reconciliation core, modelled in Dafny

This project models how the cross-account manager keeps IAM roles in step
with its registries. A home ("master") account holds a `CrossAccountManager-*`
role for every managed role. Each such role's inline permission policy lists
the member-account roles it may assume. Each member account holds a copy of
the role, which trusts its home-account namesake. Three DynamoDB registries
record the state: Accounts, Roles, and Account-Roles bindings.

The model covers four handlers and the helpers they call:

- **Account lifecycle step** (`handleAccountEvent`). A member account reports
  ADD or REMOVE. The step rewrites the account row and adds or removes the
  account's role ARN in the policy of every matching role. An empty list
  deletes the policy. The step then marks the bindings, and on ADD it
  publishes one provisioning request per role.
- **Role provisioning step** (`handleRoleEvent`). In the member account the
  role is deleted. On ADD it is then recreated, trusting the home-account
  role. The binding becomes active after a successful creation. On REMOVE
  the binding becomes deleted.
- **Account file** (`handleAccountS3File`). The publish grant is replaced
  and each listed account is stored. An active account stays active; any
  other becomes pending.
- **Role file** (`handleRoleS3File`). Every entry is validated first, and
  one invalid entry rejects the whole file. The roles are then removed,
  announced and created.

Supporting pieces:

- the permission-policy builder `createPolicyDoc`;
- the IAM helpers, as state transitions with their failure conditions;
- the group filter of the registry scans, with paging;
- the registry upserts.

Every remote service is a value:

- registries are maps;
- the identity service of an account is a map of roles plus a set of calls it
  will refuse. Every refusal takes the code's error path for that call. A
  refused `getRolePolicy` reads as a missing policy. A refused `getRole`
  reads as a missing role in `deleteIamRole`, which then does nothing. It
  makes `updateRolePolicy` and `deleteRolePolicy` reject with no change;
- deleting a role that still holds its inline policy meets a conflict, as
  the identity service answers;
- the configuration bucket is a map of objects;
- the publish grant is an optional set of account ids.

The scan order of a registry is unspecified, so the model enumerates keys in
lexicographic order (`Ordering.Enumerate`).

Three behaviours of the code shape the model:

- **Group `*`.** An Accounts scan for group `*` returns every active account
  (ddb_helper.js, line 75). So a role file entry with group `*` targets every
  active account, grouped or not. A Roles scan for any group also returns
  the roles whose group is `*` (ddb_helper.js, lines 79-83).
- **Order of the role-file work.** Timers order the work (file_handler.js,
  lines 174-241):
  - removals happen at once;
  - bindings and requests go out after three seconds;
  - home-account creations run after ten seconds.

  The upload is deleted once the last entry's policy document has been read
  (lines 232-233 and 250-251). That is before that entry's requests are
  published and before any creation. A failed creation then ends the
  process, but the file is already gone. `FileHandler.HandleRoleS3File`
  follows this order. It assumes every remote call answers within the waits
  the code chose.
- **The wait after a stored role row.** After it stores a Roles row, the
  code calls `setTimeout(resolve(), 10000)` (file_handler.js, lines 187 and
  204). That calls `resolve()` at once and hands `undefined` to
  `setTimeout`, which rejects a callback that is not a function with a
  TypeError. The error is raised inside the DynamoDB callback and ends the
  invocation. `FileHandler.HandleRoleS3File` reads both calls as the plain
  `resolve()` the code evidently means, so the three phases run to the end.
  `FileHandler.HandleRoleS3FileAsWritten` models the text as it stands (see
  Findings):
  - a file with a REMOVE ends after that removal's row is stored, before any
    announcement, and keeps its upload;
  - a file of ADDs is announced and deleted, but ends after the first role
    is created.
- **Invalid entries.** Validation runs synchronously over every entry before
  any remote call has answered, and a failure ends the process
  (file_handler.js, lines 121-141). So nothing has been applied, and the file
  is kept.
- **A refused policy lookup.** When `getRolePolicy` fails, the lifecycle
  step treats the role as having no policy (event_handler.js, lines
  148-160). On ADD it then writes a policy naming only the new account,
  which replaces any list the role had, unless the role lookup inside
  `updateRolePolicy` fails too.

## Model

| member | source | states |
|---|---|---|
| Types.ParseKnownSpellings | code/cross-account-handler/lib/event_handler.js:40 | examples of `Types.ParseActionIgnoresCase`: `add`, `Add`, `remove` are accepted through upper-casing; `DELETE` and the empty text are not |
| Types.ParseActionIgnoresCase | code/cross-account-handler/lib/event_handler.js:40 | upper-casing the action text first changes nothing: any spelling of ADD or REMOVE is read the same way |
| ResourceLists.IndexOf | code/cross-account-handler/lib/event_handler.js:169 | -1 exactly when the ARN is absent, otherwise the position of its first occurrence |
| ResourceLists.Insert | code/cross-account-handler/lib/event_handler.js:168-176 | after ADD the ARN is present, the elements are the old ones plus the ARN, the old list is kept as a prefix, nothing changes when the ARN was there, and a duplicate-free list stays duplicate-free |
| ResourceLists.Erase | code/cross-account-handler/lib/event_handler.js:177-183 | REMOVE leaves an absent ARN's list unchanged; otherwise one occurrence goes, every other ARN keeps its count and the others keep their relative order; on a duplicate-free list the ARN is gone |
| ResourceLists.InsertIdempotent | code/cross-account-handler/lib/event_handler.js:168-172 | adding the same ARN twice equals adding it once |
| ResourceLists.InsertOnce | code/cross-account-handler/lib/event_handler.js:166-176 | on a duplicate-free list, after one or two ADDs of an ARN it occurs exactly once |
| ResourceLists.EraseIdempotent | code/cross-account-handler/lib/event_handler.js:177-183 | on a duplicate-free list a second REMOVE of the same ARN changes nothing |
| ResourceLists.EraseInsertRoundTrip | code/cross-account-handler/lib/event_handler.js:168-183 | REMOVE undoes an ADD of an absent ARN |
| ResourceLists.InsertAll | code/cross-account-handler/lib/event_handler.js:166-176 | a run of ADDs yields exactly the old ARNs plus the added ones, duplicate-free when the start was |
| ResourceLists.InsertOrderIrrelevant | code/cross-account-handler/lib/event_handler.js:166-176 | ADDs of the same accounts in any order or multiplicity give permutations of each other, each ARN once |
| PolicyDocs.RoleArns | code/cross-account-handler/lib/iam_helper.js:35-37 | one ARN `arn:aws:iam::<account>:role/<role>` per account, in input order |
| PolicyDocs.RoleArnInjective | code/cross-account-handler/lib/iam_helper.js:36 | for one role, different accounts never share an ARN |
| PolicyDocs.CreatePolicyDoc | code/cross-account-handler/lib/iam_helper.js:28-60 | no document exactly for an empty list; otherwise version 2012-10-17, Statement[0] allows `sts:AssumeRole` on the accounts' ARNs in order, Statement[1] is the S3 read-only grant |
| PolicyDocs.PolicyResourcesMatchAccounts | code/cross-account-handler/lib/iam_helper.js:35-47 | the resource list is duplicate-free exactly when the accounts are, and holds an account's ARN exactly when the account is listed |
| PolicyDocs.SingleAccountPolicy | code/cross-account-handler/lib/event_handler.js:153-156 | the policy built for a role with none equals an ADD onto an empty resource list |
| Iam.UpdateRolePolicy | code/cross-account-handler/lib/iam_helper.js:72-107 | the role is looked up first: a missing role or a refused lookup rejects with no change, as does a refused put; otherwise the role's policy is replaced and nothing else changes |
| Iam.UpdateRolePolicyIdempotent | code/cross-account-handler/lib/iam_helper.js:72-107 | putting the same policy twice leaves what one put leaves |
| Iam.DeleteRolePolicy | code/cross-account-handler/lib/iam_helper.js:112-145 | the role is looked up first: a missing role or a refused lookup rejects with no change, as do a missing policy and a refused delete; otherwise the role stays without a policy |
| Iam.DeleteIamRole | code/cross-account-handler/lib/iam_helper.js:151-198 | a missing role, or a refused lookup, is a success with no change; a policy-delete failure is ignored; the role is deleted exactly when its deletion is not refused and it no longer holds a policy; otherwise the call fails (refused, or a conflict) and the role remains, without its policy unless that delete was refused |
| Iam.CreateIamRole | code/cross-account-handler/lib/iam_helper.js:203-255 | an existing or refused role fails with no change; otherwise the role is created and the policy attached only when one is supplied; a refused attachment fails but leaves the role without a policy |
| Iam.DeleteIamRoleIdempotent | code/cross-account-handler/lib/iam_helper.js:163-170 | deleting a role twice equals deleting it once |
| Iam.CreateAfterDeleteSucceeds | code/cross-account-handler/lib/event_handler.js:72-75 | after a delete that leaves no role, an unrefused create gives exactly the requested role and policy |
| Iam.RecreateIdempotent | code/cross-account-handler/lib/event_handler.js:72-85 | delete-then-create repeated leaves what the first round left, except for a role the first round creates and the second cannot delete |
| Registry.ScanKeepsCases | code/cross-account-handler/lib/ddb_helper.js:60-84 | every scan keeps only active items; Accounts with group `*` keep all, other groups only equal ones; Roles keep group equal or `*`; Account-Roles have no group clause |
| Registry.AccountsByGroup | code/cross-account-handler/lib/ddb_helper.js:126-135 | the ids returned are duplicate-free and exactly the active accounts, of the given group unless it is `*` |
| Registry.RolesByGroup | code/cross-account-handler/lib/ddb_helper.js:142-151 | the names returned are duplicate-free and exactly the active roles whose group is the given one or `*` |
| Registry.ActiveAccountRoles | code/cross-account-handler/lib/ddb_helper.js:156-165 | exactly the bindings whose status is active |
| Registry.UpdateAccountRoles | code/cross-account-handler/lib/ddb_helper.js:170-191 | the binding of (role, account) holds the status afterwards and every other binding and registry is unchanged |
| Registry.UpdateAccounts | code/cross-account-handler/lib/ddb_helper.js:196-214 | the account's row is replaced whole and every other row is unchanged |
| Registry.UpdateAccountRolesIdempotent | code/cross-account-handler/lib/ddb_helper.js:170-180 | repeating a binding put with the same status changes nothing |
| Registry.UpdateAccountRolesCommute | code/cross-account-handler/lib/ddb_helper.js:170-180 | puts on different bindings commute |
| Registry.DrainScan | code/cross-account-handler/lib/ddb_helper.js:35-54 | the drained scan returns the items of every page, reading on while a page announces more |
| Registry.FirstPageOnlyPrefix | code/cross-account-handler/lib/ddb_helper.js:87-93 | what the scan's caller receives is a prefix of the drained items, and all of them exactly when nothing follows the first page |
| Registry.FirstPageOnlyMissesLaterPages | code/cross-account-handler/lib/ddb_helper.js:87-93 | a first page with no match followed by a page with one gives the caller no account at all |
| Cloud.PolicyRefRoundTrip | code/cross-account-handler/lib/file_handler.js:148 | the locator `bucket:policy` reads back as the same bucket and policy, whatever the policy name holds |
| Cloud.PolicyNameAsWrittenAgrees | code/cross-account-handler/lib/event_handler.js:199-200 | the `split(':')[1]` reading agrees with the round trip for policy names without a colon |
| Cloud.PolicyNameAsWrittenCuts | code/cross-account-handler/lib/event_handler.js:199-200 | a policy name with a colon is cut at that colon by the `split(':')[1]` reading |
| Cloud.PolicyNameAsWrittenTruncates | code/cross-account-handler/lib/event_handler.js:199-203 | the locator `config:team:admin.json` makes the lifecycle step fetch `custom_policy/team` |
| EventHandler.AdjustPolicy | code/cross-account-handler/lib/event_handler.js:145-191 | the lifecycle change touches only the named role's policy, never adds or removes a role, and keeps its trust principal |
| EventHandler.AdjustPolicyAdd | code/cross-account-handler/lib/event_handler.js:145-176 | on ADD a role whose policy is missing, or cannot be read, gets the policy of this account alone; an existing readable policy's list gets the account's ARN set-inserted; a refused role lookup before the write leaves everything unchanged |
| EventHandler.AdjustPolicyRemove | code/cross-account-handler/lib/event_handler.js:145-190 | on REMOVE a missing or unreadable policy, or a refused role lookup before the write, leaves everything unchanged; otherwise the ARN is erased, a non-empty list is written back and an empty one deletes the policy |
| EventHandler.AdjustPolicyReadRefused | code/cross-account-handler/lib/event_handler.js:145-160 | when the policy read is refused, ADD replaces the role's whole list by this account's ARN, unless the role lookup inside the write is refused too and nothing changes; REMOVE changes nothing |
| EventHandler.AdjustPolicyIdempotent | code/cross-account-handler/lib/event_handler.js:145-191 | applying the same lifecycle change to a role's policy twice equals applying it once |
| EventHandler.AdjustPolicyPreservesWellFormed | code/cross-account-handler/lib/event_handler.js:184-190 | no home policy ever ends with an empty or duplicated resource list |
| EventHandler.AdjustPolicies | code/cross-account-handler/lib/event_handler.js:141-191 | the change over all matching roles leaves other roles alone and keeps every policy non-empty and duplicate-free |
| EventHandler.AdjustPoliciesEach | code/cross-account-handler/lib/event_handler.js:141-191 | with each role listed once, every listed role ends as the single-role change leaves it |
| EventHandler.MarkBindings | code/cross-account-handler/lib/event_handler.js:196 | each matching role's binding for the account holds the status; no other binding changes |
| EventHandler.AddRequests | code/cross-account-handler/lib/event_handler.js:196-212 | a request goes out for exactly the matching roles whose policy document exists, carrying that document; with each role listed once, no role gets two |
| EventHandler.HandleAccountEvent | code/cross-account-handler/lib/event_handler.js:108-137 | an unknown account changes nothing; otherwise the account row keeps email and group and becomes active (ADD) or deleted (anything else); member accounts, objects and roles are untouched; home policies stay non-empty and duplicate-free; no request unless ADD |
| EventHandler.AccountEventEffects | code/cross-account-handler/lib/event_handler.js:137-214 | role by role: matching roles get their binding marked and their policy changed, other roles and bindings keep theirs, and requests exist exactly for matching roles with a document, no role getting two |
| EventHandler.RequestsOncePerRole | code/cross-account-handler/lib/event_handler.js:194-221 | a handled lifecycle event publishes at most one request per role |
| EventHandler.AccountEventIdempotent | code/cross-account-handler/lib/event_handler.js:108-214 | delivering the same lifecycle event twice leaves the registries and home policies as one delivery does |
| EventHandler.HandleRoleEvent | code/cross-account-handler/lib/event_handler.js:36-98 | without the admin role nothing changes; otherwise only that role in that member account and that binding change; ADD succeeds exactly when the create is not refused and the old role is absent, or its lookup is answered and it can be deleted, and then the role trusts the home role, carries the document, the binding is active and a notice goes out; a failed ADD leaves the binding alone; any other action marks it deleted, and the role is gone unless it existed and its lookup was refused or it could not be deleted |
| EventHandler.RoleEventIdempotent | code/cross-account-handler/lib/event_handler.js:72-89 | delivering the same provisioning request twice leaves the state one delivery leaves |
| EventHandler.RoleEventProvisions | code/cross-account-handler/lib/event_handler.js:62-85 | with the admin role in place and no refusal, ADD re-provisions the role from scratch and activates the binding |
| FileHandler.StoreAccountsEffect | code/cross-account-handler/lib/file_handler.js:59-83 | storing the listed accounts one by one gives each the row read before any put and leaves every other row alone |
| FileHandler.AccountFileRowStable | code/cross-account-handler/lib/file_handler.js:66-80 | the row written for an account reads back as the same row, so a second upload keeps it |
| FileHandler.HandleAccountS3File | code/cross-account-handler/lib/file_handler.js:37-99 | the grant is revoked; if regranting is refused nothing else happens; otherwise the grant is exactly the file's accounts, every file account gets its row, others keep theirs and the upload is deleted |
| FileHandler.AccountFileIdempotent | code/cross-account-handler/lib/file_handler.js:56-94 | handling the same account file twice equals handling it once |
| FileHandler.Tasks | code/cross-account-handler/lib/file_handler.js:121-141 | the file yields tasks exactly when every entry is valid, one per entry in order |
| FileHandler.EntryTaskRoles | code/cross-account-handler/lib/file_handler.js:126-141 | a valid entry's role carries the `CrossAccountManager-` prefix, is at most 64 characters, ends in the entry's name, and entries with different names get different roles |
| FileHandler.TaskRowLocatesPolicy | code/cross-account-handler/lib/file_handler.js:144-153 | the Roles row's locator leads back to the document the role file read |
| FileHandler.StoreRole | code/cross-account-handler/lib/file_handler.js:144-153 | the role's row is replaced whole and every other row and registry is unchanged |
| FileHandler.ClearRoles | code/cross-account-handler/lib/file_handler.js:174-211 | the removal phase never creates a role or adds a policy, keeps unnamed roles and rows, keeps home policies well formed, and publishes nothing; an abort keeps the policies already removed; after a stored row it goes on to the next task (see Left out) |
| FileHandler.ClearRolesAborts | code/cross-account-handler/lib/file_handler.js:196-210 | the removal phase aborts only when some REMOVE role is found but cannot be deleted (the deletion is refused, or a policy whose delete is refused blocks it); that role then remains, without its policy unless that delete was refused |
| FileHandler.ClearRolesAbortsAt | code/cross-account-handler/lib/file_handler.js:196-210 | a cut-short removal phase stopped at a REMOVE whose deletion failed: the state is what the earlier tasks left, run to the end, plus that failed deletion |
| FileHandler.ClearRolesAbortKeeps | code/cross-account-handler/lib/file_handler.js:196-210 | when the removal phase is cut short, every REMOVE before the stuck one keeps its effect: its role is gone unless the lookup was refused, and its row is deleted |
| FileHandler.ClearRolesEach | code/cross-account-handler/lib/file_handler.js:196-205 | after a completed removal phase each REMOVE role is gone unless its lookup was refused, and its row is deleted |
| FileHandler.MarkAccounts | code/cross-account-handler/lib/file_handler.js:215-218 | each target account's binding to the role holds the status; no other binding changes |
| FileHandler.Announce | code/cross-account-handler/lib/file_handler.js:212-241 | the announcement phase stops exactly when some task's document is missing and changes only bindings |
| FileHandler.AnnounceMarks | code/cross-account-handler/lib/file_handler.js:215-218 | with distinct roles, a completed announcement marks every target account's binding pending for ADD and deleting for REMOVE, and leaves bindings of unnamed roles alone |
| FileHandler.AnnounceAbortsAt | code/cross-account-handler/lib/file_handler.js:212-239 | a cut-short announcement phase stopped at the first task whose document is missing, and its state and requests are those of the earlier tasks run to the end |
| FileHandler.AnnounceAbortKeeps | code/cross-account-handler/lib/file_handler.js:212-239 | when the announcement phase is cut short, every task before the missing document has marked its targets' bindings pending or deleting and published their requests |
| FileHandler.AnnounceRequests | code/cross-account-handler/lib/file_handler.js:213-229 | every request carries a task's action and role, a target account of its group, and its document |
| FileHandler.AnnounceCovers | code/cross-account-handler/lib/file_handler.js:215-229 | a completed announcement phase published a request for every target account of every task; `FileHandler.AnnounceOnce` makes it exactly one |
| FileHandler.AnnounceOnce | code/cross-account-handler/lib/file_handler.js:213-230 | with no role named twice, no two requests share role and account: each target account of each task gets at most one |
| FileHandler.CreatedPolicyWellFormed | code/cross-account-handler/lib/file_handler.js:178-180 | a policy built over distinct accounts has a non-empty, duplicate-free resource list |
| FileHandler.CreateRoles | code/cross-account-handler/lib/file_handler.js:176-195 | the creation phase changes only home roles and Roles rows and keeps home policies well formed; after a stored row it goes on to the next task (see Left out) |
| FileHandler.CreateRolesKeeps | code/cross-account-handler/lib/file_handler.js:176-195 | the creation phase keeps existing roles, creates none that no ADD names, and keeps other rows |
| FileHandler.CreateRolesEach | code/cross-account-handler/lib/file_handler.js:177-188 | after a completed creation phase each ADD role trusts the directory service, holds the policy over its target accounts, and its row is active |
| FileHandler.CreateRolesAbortsAt | code/cross-account-handler/lib/file_handler.js:176-195 | a cut-short creation phase stopped at an ADD whose creation failed: the state is what the earlier tasks left, run to the end, plus that failed creation |
| FileHandler.CreateRolesAbortKeeps | code/cross-account-handler/lib/file_handler.js:176-195 | when the creation phase is cut short, the stuck ADD's role already existed or its creation or policy was refused, and every ADD before it has its role with the policy over its targets and an active row |
| FileHandler.HandleRoleS3File | code/cross-account-handler/lib/file_handler.js:108-257 | a file with an invalid entry is rejected with nothing changed; member accounts, grant and Accounts rows are never touched; home policies stay well formed; a completed non-empty file deletes the upload, an empty one changes nothing; the waits after a stored row are read as plain resolves (see Left out) |
| FileHandler.RoleFileRequests | code/cross-account-handler/lib/file_handler.js:212-241 | every request belongs to an entry of the file; a completed file sent one to every target account of every entry; with distinct entry names, no target gets two for one entry |
| FileHandler.RoleFileOnce | code/cross-account-handler/lib/file_handler.js:119-230 | entries with distinct names never give two requests the same role and account |
| FileHandler.HandleRoleS3FileAsWritten | code/cross-account-handler/lib/file_handler.js:108-257 | the run as the text reads: an invalid entry rejects with nothing changed; a file with a REMOVE ends with no request published and the upload kept; a non-empty valid file never completes |
| FileHandler.RemoveEndsRunAsWritten | code/cross-account-handler/lib/file_handler.js:196-209 | a REMOVE with a target account makes the run as written publish nothing and keep the upload, where the intended run, once complete, has published a request |
| FileHandler.RunAsWrittenAddOnly | code/cross-account-handler/lib/file_handler.js:176-195 | without a REMOVE the run as written publishes what the announcement phase publishes and leaves the bindings and bucket the three phases leave; only the creations stop after the first role |
| FileHandler.RoleFileKeepsUpload | code/cross-account-handler/lib/file_handler.js:196-252 | an abort in the removal phase or a missing policy document keeps the upload; the upload is deleted only after every entry's document was read, and nothing else in the bucket changes |
| FileHandler.RoleFileEntryEffect | code/cross-account-handler/lib/file_handler.js:144-218 | after a completed file with distinct names: an ADD's role is created afresh over its targets with an active row; a REMOVE's role is gone unless its lookup was refused, with a deleted row; every target binding is pending (ADD) or deleting (REMOVE) |
| FileHandler.CreatedPolicyCoversTargets | code/cross-account-handler/lib/file_handler.js:166-180 | the policy a new role gets names exactly the target accounts of its group, each once, and none exists when there are no targets |

## Left out

- The AWS SDK calls (IAM, STS, DynamoDB, SNS, S3) become updates of maps and sets. Remote refusals come from each account's `refused` set. DynamoDB reads and writes, S3 deletions and SNS publications never fail in the model.
- STS `assumeRole` becomes "the member account holds the admin role". The failure path's `callback(e, null)` refers to an undefined `e`; the model reports it simply as not handled.
- Timers and concurrency. The waits only order the work, and each handler is one sequential step. Entries of one role file run in file order within each phase. Concurrent invocations, and their read-modify-write races on one policy, are not modelled.
- YAML, JSON and `decodeURIComponent`. Files arrive parsed, and policy documents are structured values. A provisioning request's `Policy` is the document text, which `JSON.parse` gives back unchanged. A file whose top-level shape is wrong, or whose `email` is missing, is not modelled.
- Timestamps, logging and the anonymous metrics call. `process.exit` becomes an aborted outcome.
- A lifecycle event for an account with no row throws inside a callback in the code. The model leaves the state unchanged.
- `toUpperCase` is modelled on ASCII letters only. The 64-character limit counts characters, where the code counts UTF-16 code units.
- `getListOfItems` (ddb_helper.js, lines 104-119) is not called by the modelled handlers. The shared module-level scan accumulator is modelled as a local one.
- account_init.js, helper.js, accessLinks_handler.js, index.js, sns_helper.js and s3_helper.js are not part of this model.
- Iam.RecreateIdempotent: stated only when the first round leaves an existing role in place, or the second round can delete what the first created (lookup and deletion not refused, and the new policy's delete not refused when there is one). Otherwise the first round creates a role that the second round cannot remove.
- Iam.CreateAfterDeleteSucceeds: stated for a delete that leaves no role. A refused lookup, a refused deletion or a conflict leaves the role, and the create then fails.
- EventHandler.RoleEventIdempotent: stated for an ADD under the same condition, for the same reason. Any other action is covered without condition.
- Registry.AccountsByGroup: returns the matches of every page, the corrected reading of the scan. The code hands its caller the first page only (see Findings).
- Registry.RolesByGroup: returns the matches of every page, for the same reason.
- EventHandler.AddRequests: reads the policy name from the locator with `Cloud.PolicyNameOf`, the corrected reading. The code's `split(':')[1]` cuts a name at its first colon (see Findings).
- FileHandler.HandleAccountS3File: the revocation of the old publish grant always succeeds in the model. The code ignores a failed `removePermission` (sns_helper.js, lines 35-37), so after a failed revocation the old `CAM` grant stays and `addPermission` runs against it. How the topic service answers a grant under a label already in use is outside the model.
- FileHandler.HandleRoleS3File: reads each `setTimeout(resolve(), 10000)` after a stored row (file_handler.js, lines 187 and 204) as the plain `resolve()` the code evidently means. Its runs complete where the code's end with a TypeError after the first stored row. `FileHandler.HandleRoleS3FileAsWritten` models the text (see Findings).
- FileHandler.ClearRoles: goes on to the next task after a stored row, the same reading of line 204.
- FileHandler.CreateRoles: goes on to the next task after a stored row, the same reading of line 187.
- FileHandler.HandleRoleS3FileAsWritten: runs the tasks in file order, so the run ends at the first REMOVE in the file, or after the first ADD's creation. The code runs the entries concurrently: work that later entries start before the error is not modelled.
- EventHandler.AccountEventIdempotent: compares states only. The requests of a repeated ADD are published again.

## Findings

| source | as written | input that shows it | evidently intended | confidence | as-written member | corrected member |
|---|---|---|---|---|---|---|
| code/cross-account-handler/lib/event_handler.js:199-203 | the policy name is read back from the stored locator with `split(':')[1]`, which stops at the name's first colon | a role file in bucket `config` names policy `team:admin.json`; the Roles row holds `config:team:admin.json` and the lifecycle step fetches `custom_policy/team` | read everything after the first colon, giving back the name the role file stored | medium, not executed | Cloud.PolicyNameAsWrittenTruncates | Cloud.PolicyRefRoundTrip |
| code/cross-account-handler/lib/ddb_helper.js:87-93 | the scan's caller is handed the list right after the first page, before the later pages are fetched | the first page holds no match (the store filters page by page) and the second holds account 111111111111: the caller sees no account | hand over the items of every page, as the paging loop at lines 40-49 sets out to do | medium, not executed | Registry.FirstPageOnlyMissesLaterPages | Registry.DrainScan |
| code/cross-account-handler/lib/file_handler.js:187-204 | after a Roles row is stored, `setTimeout(resolve(), 10000)` calls `resolve()` at once and hands `undefined` to `setTimeout`, which throws a TypeError inside the DynamoDB callback and ends the invocation | a role file with one REMOVE entry whose role deletes cleanly and whose group has an active account: the row is stored and the run ends, so no binding is marked deleting, no request is published and the upload stays | `setTimeout(resolve, 10000)`, or a plain `resolve()`, so the announcements and creations go ahead | medium, not executed; rests on Node's argument check in `setTimeout` and on the SDK rethrowing an error raised in a request callback | FileHandler.RemoveEndsRunAsWritten | FileHandler.RoleFileRequests |

The rest of the model uses the corrected readings. `Cloud.PolicyObject`
reads the locator with `Cloud.PolicyNameOf`. The registry scans return every
matching item. The role file runs its three phases to the end.
