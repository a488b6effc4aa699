/** The two configuration-bucket handlers (file_handler.js): the account
    file `handleAccountS3File` and the role file `handleRoleS3File`. The
    YAML documents arrive already parsed. */
module FileHandler {
  import opened Types
  import opened Ordering
  import opened PolicyDocs
  import opened Iam
  import opened Registry
  import opened Cloud

  /** `accountgroup || "*"`: a missing or empty group means every group. */
  function GroupOrAll(g: Option<string>): (group: string)
    ensures g.Some? && g.value != "" ==> group == g.value
    ensures g.None? || g.value == "" ==> group == "*"
  {
    if g.None? || g.value == "" then "*" else g.value
  }

  // =====================================================================
  // Account file

  /** One entry of the account file: `<id>: {email, accountgroup}`. */
  datatype AccountProps = AccountProps(email: string, group: Option<string>)

  /** The row the account file writes for `account` (file_handler.js,
      lines 60-81): an account that is already active stays active, any
      other becomes pending, so the file never activates an account. */
  function AccountFileRow(reg: Registries, account: AccountId, props: AccountProps): (row: AccountRow)
    ensures row.email == props.email && row.group == GroupOrAll(props.group)
    ensures row.status == Active <==> account in reg.accounts && reg.accounts[account].status == Active
    ensures row.status != Active ==> row.status == Pending
  {
    var status := if account in reg.accounts && reg.accounts[account].status == Active then Active else Pending;
    AccountRow(props.email, GroupOrAll(props.group), status)
  }

  /** The row the account file writes is the row it would write again:
      reading it back changes neither status nor fields. */
  lemma AccountFileRowStable(reg: Registries, account: AccountId, props: AccountProps)
    ensures var row := AccountFileRow(reg, account, props);
            AccountFileRow(UpdateAccounts(reg, account, row.email, row.group, row.status), account, props) == row
  {
  }

  /** The puts of the account file, one account after the other, each
      reading the account's row as it stands. */
  function StoreAccounts(reg: Registries, file: map<AccountId, AccountProps>, ids: seq<AccountId>): (r: Registries)
    requires forall i :: 0 <= i < |ids| ==> ids[i] in file
    ensures r.roles == reg.roles && r.bindings == reg.bindings
    decreases |ids|
  {
    if ids == [] then reg
    else
      var a := ids[0];
      StoreAccounts(UpdateAccounts(reg, a, file[a].email, AccountFileRow(reg, a, file[a]).group,
                                   AccountFileRow(reg, a, file[a]).status), file, ids[1..])
  }

  /** With each account listed once, every listed account gets the row read
      from the registry before any put, and no other row changes. */
  lemma {:induction false} StoreAccountsEffect(reg: Registries, file: map<AccountId, AccountProps>, ids: seq<AccountId>)
    requires forall i :: 0 <= i < |ids| ==> ids[i] in file
    requires NoDup(ids)
    ensures var r := StoreAccounts(reg, file, ids);
            && (forall a :: a in r.accounts <==> a in reg.accounts || a in ids)
            && (forall a :: a in ids ==> r.accounts[a] == AccountFileRow(reg, a, file[a]))
            && (forall a :: a in reg.accounts && a !in ids ==> r.accounts[a] == reg.accounts[a])
    decreases |ids|
  {
    if ids != [] {
      var a := ids[0];
      var row := AccountFileRow(reg, a, file[a]);
      var reg1 := UpdateAccounts(reg, a, file[a].email, row.group, row.status);
      var rest := ids[1..];
      assert NoDup(rest);
      assert forall i :: 0 <= i < |rest| ==> rest[i] == ids[i + 1];
      StoreAccountsEffect(reg1, file, rest);
      forall b | b in rest
        ensures AccountFileRow(reg1, b, file[b]) == AccountFileRow(reg, b, file[b])
      {
        assert b != a;
      }
    }
  }

  /** `handleAccountS3File` (file_handler.js, lines 37-99) for the parsed
      file `file` uploaded at `upload`. The publish grant is removed (a
      failure there is ignored) and granted again to the file's accounts;
      `grantRefused` says whether the topic service refuses that grant, in
      which case nothing more happens. Otherwise every account of the file
      is stored and the file is deleted. */
  function HandleAccountS3File(w: World, upload: ObjectPath, file: map<AccountId, AccountProps>, grantRefused: bool): (s: World)
    ensures s.home == w.home && s.members == w.members
    ensures s.reg.roles == w.reg.roles && s.reg.bindings == w.reg.bindings
    ensures grantRefused ==> s == w.(publishers := None)
    ensures !grantRefused ==>
              && s.publishers == Some(file.Keys)
              && s.objects == w.objects - {upload}
              && (forall a :: a in s.reg.accounts <==> a in w.reg.accounts || a in file)
              && (forall a :: a in file ==> s.reg.accounts[a] == AccountFileRow(w.reg, a, file[a]))
              && (forall a :: a in w.reg.accounts && a !in file ==> s.reg.accounts[a] == w.reg.accounts[a])
  {
    var revoked := w.(publishers := None);
    if grantRefused then revoked
    else
      var ids := Enumerate(file.Keys);
      StoreAccountsEffect(w.reg, file, ids);
      revoked.(publishers := Some(file.Keys),
               reg := StoreAccounts(w.reg, file, ids),
               objects := w.objects - {upload})
  }

  /** Storing the same accounts again writes the rows the first round
      wrote. */
  lemma {:induction false} StoreAccountsIdempotent(reg: Registries, file: map<AccountId, AccountProps>, ids: seq<AccountId>)
    requires forall i :: 0 <= i < |ids| ==> ids[i] in file
    requires NoDup(ids)
    ensures var once := StoreAccounts(reg, file, ids);
            StoreAccounts(once, file, ids) == once
  {
    var once := StoreAccounts(reg, file, ids);
    var twice := StoreAccounts(once, file, ids);
    StoreAccountsEffect(reg, file, ids);
    StoreAccountsEffect(once, file, ids);
    assert twice.accounts.Keys == once.accounts.Keys;
    forall a | a in once.accounts
      ensures twice.accounts[a] == once.accounts[a]
    {
      if a in ids {
        assert AccountFileRow(once, a, file[a]) == AccountFileRow(reg, a, file[a]);
      }
    }
    assert twice.accounts == once.accounts;
  }

  /** The account-file step spelled out. */
  lemma AccountFileWorld(w: World, upload: ObjectPath, file: map<AccountId, AccountProps>)
    ensures HandleAccountS3File(w, upload, file, false)
         == w.(publishers := Some(file.Keys), reg := StoreAccounts(w.reg, file, Enumerate(file.Keys)),
               objects := w.objects - {upload})
  {
  }

  /** A state that already holds the file's grant and rows, without the
      upload, is left as it is. */
  lemma AccountFileFixed(v: World, upload: ObjectPath, file: map<AccountId, AccountProps>)
    requires v.publishers == Some(file.Keys) && upload !in v.objects
    requires StoreAccounts(v.reg, file, Enumerate(file.Keys)) == v.reg
    ensures HandleAccountS3File(v, upload, file, false) == v
  {
    AccountFileWorld(v, upload, file);
    assert v.objects - {upload} == v.objects;
  }

  /** Uploading the same account file again changes nothing more: accounts
      keep the status the first upload gave them. */
  lemma {:induction false} AccountFileIdempotent(w: World, upload: ObjectPath, file: map<AccountId, AccountProps>, grantRefused: bool)
    ensures var once := HandleAccountS3File(w, upload, file, grantRefused);
            HandleAccountS3File(once, upload, file, grantRefused) == once
  {
    if !grantRefused {
      var ids := Enumerate(file.Keys);
      var once := HandleAccountS3File(w, upload, file, false);
      AccountFileWorld(w, upload, file);
      assert once.publishers == Some(file.Keys);
      assert upload !in once.objects;
      assert once.reg == StoreAccounts(w.reg, file, ids);
      assert StoreAccounts(once.reg, file, ids) == once.reg by {
        StoreAccountsIdempotent(w.reg, file, ids);
      }
      AccountFileFixed(once, upload, file);
    }
  }

  // =====================================================================
  // Role file

  /** One entry of the role file: `<name>: {action, policy, accountgroup}`;
      a field missing from the YAML is None. */
  datatype RoleProps = RoleProps(action: Option<string>, policy: Option<string>, group: Option<string>)

  datatype RoleEntry = RoleEntry(name: string, props: RoleProps)

  /** A validated entry: the action is ADD or REMOVE, the policy is named,
      and the managed role name fits IAM's limit. */
  datatype Task = Task(action: Action, role: RoleName, policy: string, group: string)

  /** The service trusted by a home-account role. */
  const DirectoryService := "ds.amazonaws.com"

  /** The checks of file_handler.js, lines 122-141, for one entry: a
      missing action (whose upper-casing throws), an action other than ADD
      or REMOVE, a missing policy, or a role name longer than 64 characters
      make the whole file invalid. */
  function EntryTask(e: RoleEntry): (t: Option<Task>)
    ensures t.Some? <==>
              && e.props.action.Some? && ParseAction(e.props.action.value) != Unknown
              && e.props.policy.Some?
              && |RolePrefix + e.name| <= MaxRoleNameLength
    ensures t.Some? ==>
              && t.value.action == ParseAction(e.props.action.value)
              && t.value.role == RolePrefix + e.name
              && t.value.policy == e.props.policy.value
              && t.value.group == GroupOrAll(e.props.group)
  {
    if e.props.action.None? then None
    else
      var action := ParseAction(e.props.action.value);
      if action == Unknown || e.props.policy.None? || |RolePrefix + e.name| > MaxRoleNameLength then None
      else Some(Task(action, RolePrefix + e.name, e.props.policy.value, GroupOrAll(e.props.group)))
  }

  /** A valid entry's role is the managed prefix followed by the entry's
      name, fits IAM's limit, and two entries with different names never
      share a role. */
  lemma EntryTaskRoles(e1: RoleEntry, e2: RoleEntry)
    requires EntryTask(e1).Some? && EntryTask(e2).Some?
    ensures RolePrefix <= EntryTask(e1).value.role
    ensures |EntryTask(e1).value.role| <= MaxRoleNameLength
    ensures EntryTask(e1).value.role[|RolePrefix|..] == e1.name
    ensures e1.name != e2.name ==> EntryTask(e1).value.role != EntryTask(e2).value.role
  {
    var r1 := EntryTask(e1).value.role;
    var r2 := EntryTask(e2).value.role;
    assert r1[|RolePrefix|..] == e1.name;
    assert r2[|RolePrefix|..] == e2.name;
  }

  /** Every entry of the file as a task, or None as soon as one entry is invalid.
      The checks run synchronously over every entry before any remote call
      is answered, and a failed check ends the process. */
  function Tasks(entries: seq<RoleEntry>): (ts: Option<seq<Task>>)
    ensures ts.Some? <==> forall i :: 0 <= i < |entries| ==> EntryTask(entries[i]).Some?
    ensures ts.Some? ==> |ts.value| == |entries|
    ensures ts.Some? ==> forall i :: 0 <= i < |entries| ==> ts.value[i] == EntryTask(entries[i]).value
    decreases |entries|
  {
    if entries == [] then Some([])
    else
      var head := EntryTask(entries[0]);
      var rest := Tasks(entries[1..]);
      if head.Some? && rest.Some? then Some([head.value] + rest.value) else None
  }

  /** How far a phase of the role file got: `aborted` when a failure ended
      the process; `requests` are the provisioning messages published. */
  datatype Progress = Progress(world: World, requests: seq<Provision>, aborted: bool)

  /** The Roles row of a task: its policy locator, group and status. */
  function TaskRow(bucket: string, t: Task, status: Status): RoleRow
  {
    RoleRow(PolicyRef(bucket, t.policy), t.group, status)
  }

  /** The lifecycle handler, reading a row the role file stored, fetches
      the very document the role file announced (bucket names hold no
      colon). */
  lemma TaskRowLocatesPolicy(bucket: string, t: Task, status: Status)
    requires ':' !in bucket
    ensures PolicyObject(TaskRow(bucket, t, status).policy) == ObjectPath(bucket, PolicyFolder + t.policy)
  {
    PolicyRefRoundTrip(bucket, t.policy);
  }

  /** A whole-row put into the Roles registry (file_handler.js, lines
      144-153). */
  function StoreRole(reg: Registries, role: RoleName, row: RoleRow): (r: Registries)
    ensures r.accounts == reg.accounts && r.bindings == reg.bindings
    ensures r.roles.Keys == reg.roles.Keys + {role}
    ensures role in r.roles && r.roles[role] == row
    ensures forall x :: x in reg.roles && x != role ==> r.roles[x] == reg.roles[x]
  {
    reg.(roles := reg.roles[role := row])
  }

  /** First phase, in entry order (file_handler.js, lines 174-211): an ADD
      deletes any earlier home-account role of that name, whatever the
      outcome (the creation is scheduled without waiting on it); a REMOVE
      deletes the role, and only when that succeeds stores the row as
      deleted; a failed deletion ends the process, after the deletion has
      already removed the role's inline policy. After a stored row the
      phase goes on to the next task, reading line 204 as the resolve it
      means. */
  function ClearRoles(w: World, bucket: string, ts: seq<Task>): (p: Progress)
    requires forall i :: 0 <= i < |ts| ==> ts[i].action != Unknown
    ensures p.requests == []
    ensures p.world.reg.accounts == w.reg.accounts && p.world.reg.bindings == w.reg.bindings
    ensures p.world.members == w.members && p.world.objects == w.objects && p.world.publishers == w.publishers
    ensures p.world.home.refused == w.home.refused
    ensures forall r :: r in p.world.home.roles ==> r in w.home.roles && p.world.home.roles[r].inline in {None, w.home.roles[r].inline}
    ensures forall r :: r in w.home.roles && Unnamed(ts, r) ==>
              r in p.world.home.roles && p.world.home.roles[r] == w.home.roles[r]
    ensures HomePoliciesWellFormed(w.home) ==> HomePoliciesWellFormed(p.world.home)
    ensures forall r :: r in w.reg.roles ==> r in p.world.reg.roles
    ensures forall r :: r in w.reg.roles && Unnamed(ts, r) ==>
              p.world.reg.roles[r] == w.reg.roles[r]
    decreases |ts|
  {
    if ts == [] then Progress(w, [], false)
    else
      var t := ts[0];
      var d := DeleteIamRole(w.home, t.role);
      if t.action == Add then
        ClearRoles(w.(home := d.iam), bucket, ts[1..])
      else if d.outcome.Failed? then Progress(w.(home := d.iam), [], true)
      else ClearRoles(w.(home := d.iam, reg := StoreRole(w.reg, t.role, TaskRow(bucket, t, Deleted))), bucket, ts[1..])
  }

  /** The first phase ends the process exactly at a REMOVE whose role the
      service finds but will not delete (the deletion is refused, or the
      role keeps a policy whose delete is refused): when no REMOVE task can
      meet that the phase runs to the end, and when it is cut short the
      role of such a task is still in the home account, without its inline
      policy unless that deletion was refused. */
  lemma {:induction false} ClearRolesAborts(w: World, bucket: string, ts: seq<Task>)
    requires forall i :: 0 <= i < |ts| ==> ts[i].action != Unknown
    ensures var p := ClearRoles(w, bucket, ts);
            && ((forall i :: 0 <= i < |ts| && ts[i].action == Remove ==>
                   ReadRole(ts[i].role) in w.home.refused || RoleDeletable(w.home, ts[i].role)) ==> !p.aborted)
            && (p.aborted ==> exists i :: 0 <= i < |ts| && StuckRemove(w.home, p.world.home, ts[i]))
    decreases |ts|
  {
    if ts != [] {
      var t := ts[0];
      var rest := ts[1..];
      var p := ClearRoles(w, bucket, ts);
      var d := DeleteIamRole(w.home, t.role);
      if t.action == Remove && d.outcome.Failed? {
        assert StuckRemove(w.home, p.world.home, ts[0]);
      } else {
        var w1 := if t.action == Add then w.(home := d.iam)
                  else w.(home := d.iam, reg := StoreRole(w.reg, t.role, TaskRow(bucket, t, Deleted)));
        assert p == ClearRoles(w1, bucket, rest);
        assert w1.home.refused == w.home.refused;
        forall r | RoleDeletable(w.home, r)
          ensures RoleDeletable(w1.home, r)
        {
          DeleteIamRoleKeepsDeletable(w.home, t.role, r);
        }
        ClearRolesAborts(w1, bucket, rest);
        if p.aborted {
          var j :| 0 <= j < |rest| && StuckRemove(w1.home, p.world.home, rest[j]);
          assert StuckRemove(w.home, p.world.home, ts[j + 1]);
        }
      }
    }
  }

  /** Task `t` is a REMOVE that ended the first phase: its role's lookup
      was answered but the role could not be deleted, so the role is still
      there, without its inline policy unless that deletion was refused. */
  ghost predicate StuckRemove(before: Iam<PolicyDoc>, after: Iam<PolicyDoc>, t: Task)
  {
    && t.action == Remove
    && ReadRole(t.role) !in before.refused && !RoleDeletable(before, t.role)
    && t.role in after.roles
    && (DeleteInlinePolicy(t.role) !in before.refused ==> after.roles[t.role].inline.None?)
  }

  /** An account the scan for `group` returns: active, and of that group
      unless the group is '*'. */
  ghost predicate Targets(accounts: map<AccountId, AccountRow>, group: string, a: AccountId)
  {
    a in accounts && ScanKeeps(AccountsTable, group, accounts[a].status, accounts[a].group)
  }

  /** The status the second phase gives a target account's binding:
      pending for an ADD, deleting for a REMOVE (file_handler.js,
      line 216). */
  function BindingStatus(action: Action): Status
  {
    if action == Add then Pending else Deleting
  }

  /** Each target account's binding to `role` becomes `status`
      (file_handler.js, line 218). */
  function MarkAccounts(reg: Registries, role: RoleName, accounts: seq<AccountId>, status: Status): (r: Registries)
    ensures r.accounts == reg.accounts && r.roles == reg.roles
    ensures forall a :: a in accounts ==> Binding(role, a) in r.bindings && r.bindings[Binding(role, a)] == status
    ensures forall b :: b in r.bindings <==> b in reg.bindings || (b.role == role && b.account in accounts)
    ensures forall b :: b in reg.bindings && !(b.role == role && b.account in accounts) ==> r.bindings[b] == reg.bindings[b]
    decreases |accounts|
  {
    if accounts == [] then reg
    else MarkAccounts(UpdateAccountRoles(reg, role, accounts[0], status), role, accounts[1..], status)
  }

  /** Where a task's policy document is read from. */
  function PolicyPath(bucket: string, t: Task): ObjectPath
  {
    ObjectPath(bucket, PolicyFolder + t.policy)
  }

  /** `p` is a message the role file publishes for task `t`: same action
      and role, a target account of that task's group, and that task's
      policy document as read from the bucket. */
  ghost predicate Announced(accounts: map<AccountId, AccountRow>, objects: map<ObjectPath, string>,
                            bucket: string, t: Task, p: Provision)
  {
    && p.action == t.action && p.role == t.role
    && Targets(accounts, t.group, p.account)
    && PolicyPath(bucket, t) in objects && p.policy == objects[PolicyPath(bucket, t)]
  }

  /** Second phase, in entry order (file_handler.js, lines 212-241): read
      that task's policy document (a missing one ends the process), then
      for each target account mark the binding pending (ADD) or deleting
      (REMOVE) and publish a provisioning request. */
  function Announce(w: World, bucket: string, ts: seq<Task>): (p: Progress)
    ensures p.world.reg.accounts == w.reg.accounts && p.world.reg.roles == w.reg.roles
    ensures p.world.home == w.home && p.world.members == w.members
    ensures p.world.objects == w.objects && p.world.publishers == w.publishers
    ensures !p.aborted <==> forall i :: 0 <= i < |ts| ==> PolicyPath(bucket, ts[i]) in w.objects
    decreases |ts|
  {
    if ts == [] then Progress(w, [], false)
    else
      var t := ts[0];
      if PolicyPath(bucket, t) !in w.objects then Progress(w, [], true)
      else
        var accounts := AccountsByGroup(w.reg, t.group);
        assert forall k :: 0 <= k < |ts| - 1 ==> ts[1..][k] == ts[k + 1];
        var rest := Announce(w.(reg := MarkAccounts(w.reg, t.role, accounts, BindingStatus(t.action))),
                             bucket, ts[1..]);
        Progress(rest.world, Announcements(t, accounts, w.objects[PolicyPath(bucket, t)]) + rest.requests, rest.aborted)
  }

  /** The requests of one task, one per target account in scan order. */
  function Announcements(t: Task, accounts: seq<AccountId>, document: string): (ps: seq<Provision>)
    ensures |ps| == |accounts|
    ensures forall k :: 0 <= k < |ps| ==> ps[k] == Provision(t.action, accounts[k], t.role, document)
  {
    seq(|accounts|, k requires 0 <= k < |accounts| => Provision(t.action, accounts[k], t.role, document))
  }

  /** Every request the second phase publishes belongs to one of the listed tasks:
      its action and role, a target account of its group, and its policy
      document. */
  lemma {:induction false} AnnounceRequests(w: World, bucket: string, ts: seq<Task>)
    ensures forall q :: q in Announce(w, bucket, ts).requests ==>
              exists i :: 0 <= i < |ts| && Announced(w.reg.accounts, w.objects, bucket, ts[i], q)
    decreases |ts|
  {
    if ts != [] && PolicyPath(bucket, ts[0]) in w.objects {
      var t := ts[0];
      var accounts := AccountsByGroup(w.reg, t.group);
      var w1 := w.(reg := MarkAccounts(w.reg, t.role, accounts, BindingStatus(t.action)));
      var mine := Announcements(t, accounts, w.objects[PolicyPath(bucket, t)]);
      var rest := Announce(w1, bucket, ts[1..]);
      AnnounceRequests(w1, bucket, ts[1..]);
      forall q | q in Announce(w, bucket, ts).requests
        ensures exists i :: 0 <= i < |ts| && Announced(w.reg.accounts, w.objects, bucket, ts[i], q)
      {
        if q in mine {
          assert Announced(w.reg.accounts, w.objects, bucket, ts[0], q);
        } else {
          assert q in rest.requests;
          var j :| 0 <= j < |ts[1..]| && Announced(w1.reg.accounts, w1.objects, bucket, ts[1..][j], q);
          assert Announced(w.reg.accounts, w.objects, bucket, ts[j + 1], q);
        }
      }
    }
  }

  /** Every target account of every task gets its request, once the phase
      has read every policy document. */
  lemma {:induction false} AnnounceCovers(w: World, bucket: string, ts: seq<Task>)
    ensures var p := Announce(w, bucket, ts);
            !p.aborted ==> forall i, a :: 0 <= i < |ts| && Targets(w.reg.accounts, ts[i].group, a) ==>
              Provision(ts[i].action, a, ts[i].role, w.objects[PolicyPath(bucket, ts[i])]) in p.requests
    decreases |ts|
  {
    if ts != [] && PolicyPath(bucket, ts[0]) in w.objects {
      var t := ts[0];
      var accounts := AccountsByGroup(w.reg, t.group);
      var w1 := w.(reg := MarkAccounts(w.reg, t.role, accounts, BindingStatus(t.action)));
      var mine := Announcements(t, accounts, w.objects[PolicyPath(bucket, t)]);
      var p := Announce(w, bucket, ts);
      AnnounceCovers(w1, bucket, ts[1..]);
      if !p.aborted {
        forall i, a | 0 <= i < |ts| && Targets(w.reg.accounts, ts[i].group, a)
          ensures Provision(ts[i].action, a, ts[i].role, w.objects[PolicyPath(bucket, ts[i])]) in p.requests
        {
          if i == 0 {
            var k :| 0 <= k < |accounts| && accounts[k] == a;
            assert mine[k] == Provision(t.action, a, t.role, w.objects[PolicyPath(bucket, t)]);
          } else {
            assert ts[i] == ts[1..][i - 1];
          }
        }
      }
    }
  }

  /** No two requests share both role and account. */
  ghost predicate OncePerTarget(rs: seq<Provision>)
  {
    forall i, j :: 0 <= i < j < |rs| ==> rs[i].role != rs[j].role || rs[i].account != rs[j].account
  }

  lemma OncePerTargetAppend(mine: seq<Provision>, rest: seq<Provision>, role: RoleName)
    requires forall k :: 0 <= k < |mine| ==> mine[k].role == role
    requires forall i, j :: 0 <= i < j < |mine| ==> mine[i].account != mine[j].account
    requires forall q :: q in rest ==> q.role != role
    requires OncePerTarget(rest)
    ensures OncePerTarget(mine + rest)
  {
    var rs := mine + rest;
    forall i, j | 0 <= i < j < |rs|
      ensures rs[i].role != rs[j].role || rs[i].account != rs[j].account
    {
      if i >= |mine| {
        assert rs[i] == rest[i - |mine|] && rs[j] == rest[j - |mine|];
      } else if j >= |mine| {
        assert rs[j] in rest;
      }
    }
  }

  /** With no role named twice, the second phase sends each target account
      of each task at most one request. */
  lemma {:induction false} AnnounceOnce(w: World, bucket: string, ts: seq<Task>)
    requires DistinctRoles(ts)
    ensures OncePerTarget(Announce(w, bucket, ts).requests)
    decreases |ts|
  {
    if ts != [] && PolicyPath(bucket, ts[0]) in w.objects {
      var t := ts[0];
      var accounts := AccountsByGroup(w.reg, t.group);
      var w1 := w.(reg := MarkAccounts(w.reg, t.role, accounts, BindingStatus(t.action)));
      var mine := Announcements(t, accounts, w.objects[PolicyPath(bucket, t)]);
      var rest := Announce(w1, bucket, ts[1..]).requests;
      assert Announce(w, bucket, ts).requests == mine + rest;
      DistinctRolesTail(ts);
      AnnounceOnce(w1, bucket, ts[1..]);
      forall q | q in rest
        ensures q.role != t.role
      {
        AnnounceRequests(w1, bucket, ts[1..]);
        var k :| 0 <= k < |ts[1..]| && Announced(w1.reg.accounts, w1.objects, bucket, ts[1..][k], q);
      }
      OncePerTargetAppend(mine, rest, t.role);
    }
  }

  /** The second phase leaves alone every binding of a role no task names;
      once it has read every document, each target account's binding to
      each task's role holds that task's status (pending for ADD, deleting
      for REMOVE), provided no role is named twice. */
  lemma {:induction false} AnnounceMarks(w: World, bucket: string, ts: seq<Task>)
    requires DistinctRoles(ts)
    ensures var p := Announce(w, bucket, ts);
            && (forall b :: b in w.reg.bindings && Unnamed(ts, b.role) ==>
                  b in p.world.reg.bindings && p.world.reg.bindings[b] == w.reg.bindings[b])
            && (!p.aborted ==> forall i, a :: 0 <= i < |ts| && Targets(w.reg.accounts, ts[i].group, a) ==>
                  && Binding(ts[i].role, a) in p.world.reg.bindings
                  && p.world.reg.bindings[Binding(ts[i].role, a)] == BindingStatus(ts[i].action))
    decreases |ts|
  {
    if ts != [] && PolicyPath(bucket, ts[0]) in w.objects {
      var t := ts[0];
      var rest := ts[1..];
      var accounts := AccountsByGroup(w.reg, t.group);
      var w1 := w.(reg := MarkAccounts(w.reg, t.role, accounts, BindingStatus(t.action)));
      var p := Announce(w, bucket, ts);
      assert p.world == Announce(w1, bucket, rest).world && p.aborted == Announce(w1, bucket, rest).aborted;
      DistinctRolesTail(ts);
      AnnounceMarks(w1, bucket, rest);
      forall b | b in w.reg.bindings && Unnamed(ts, b.role)
        ensures b in p.world.reg.bindings && p.world.reg.bindings[b] == w.reg.bindings[b]
      {
        UnnamedTail(ts, b.role);
        assert ts[0].role != b.role;
      }
      if !p.aborted {
        forall i, a | 0 <= i < |ts| && Targets(w.reg.accounts, ts[i].group, a)
          ensures && Binding(ts[i].role, a) in p.world.reg.bindings
                  && p.world.reg.bindings[Binding(ts[i].role, a)] == BindingStatus(ts[i].action)
        {
          if i == 0 {
            assert a in accounts;
            assert Unnamed(rest, t.role);
          } else {
            assert ts[i] == rest[i - 1];
          }
        }
      }
    }
  }

  /** The home-account policy a creation attaches is well formed. */
  lemma CreatedPolicyWellFormed(role: RoleName, accounts: seq<AccountId>)
    requires NoDup(accounts)
    ensures var doc := CreatePolicyDoc(role, accounts);
            doc.Some? ==> doc.value.Resources() != [] && NoDup(doc.value.Resources())
  {
    if accounts != [] {
      PolicyResourcesMatchAccounts(role, accounts);
    }
  }

  /** Third phase, in entry order (file_handler.js, lines 177-195): for each
      ADD, build the policy over the target accounts and create the role
      trusting the directory service; a success stores the row as active, a
      failure ends the process. After a stored row the phase goes on to the
      next task, reading line 187 as the resolve it means. */
  function CreateRoles(w: World, bucket: string, ts: seq<Task>): (p: Progress)
    ensures p.requests == []
    ensures p.world.reg.accounts == w.reg.accounts && p.world.reg.bindings == w.reg.bindings
    ensures p.world.members == w.members && p.world.objects == w.objects && p.world.publishers == w.publishers
    ensures p.world.home.refused == w.home.refused
    ensures HomePoliciesWellFormed(w.home) ==> HomePoliciesWellFormed(p.world.home)
    decreases |ts|
  {
    if ts == [] then Progress(w, [], false)
    else
      var t := ts[0];
      if t.action != Add then CreateRoles(w, bucket, ts[1..])
      else
        var accounts := AccountsByGroup(w.reg, t.group);
        CreatedPolicyWellFormed(t.role, accounts);
        var c := CreateIamRole(w.home, t.role, Service(DirectoryService), CreatePolicyDoc(t.role, accounts));
        if c.outcome.Failed? then Progress(w.(home := c.iam), [], true)
        else CreateRoles(w.(home := c.iam, reg := StoreRole(w.reg, t.role, TaskRow(bucket, t, Active))), bucket, ts[1..])
  }

  datatype FileOutcome = Rejected | Aborted | Completed

  /** The state after the role file, the requests it published, and how it
      ended. */
  datatype RoleFileStep = RoleFileStep(world: World, requests: seq<Provision>, outcome: FileOutcome)

  /** `handleRoleS3File` (file_handler.js, lines 108-257) for the parsed
      entries of the file uploaded at `upload`, in file order, with each
      `setTimeout(resolve(), 10000)` after a stored row (lines 187 and 204)
      read as the plain `resolve()` it evidently means; the run as the text
      reads is `HandleRoleS3FileAsWritten`. The timers order the work in
      three phases: removals at once, announcements after three seconds,
      creations after ten. The upload is deleted once the last entry's
      policy document has been read (lines 232-233 and 250-251); the
      announcements touch no object, so the model deletes it after them,
      before the creations. */
  function HandleRoleS3File(w: World, upload: ObjectPath, entries: seq<RoleEntry>): (s: RoleFileStep)
    ensures s.outcome == Rejected <==> exists i :: 0 <= i < |entries| && EntryTask(entries[i]).None?
    ensures s.outcome == Rejected ==> s.world == w && s.requests == []
    ensures s.world.members == w.members && s.world.publishers == w.publishers
    ensures s.world.reg.accounts == w.reg.accounts
    ensures HomePoliciesWellFormed(w.home) ==> HomePoliciesWellFormed(s.world.home)
    ensures s.outcome == Completed ==>
              s.world.objects == if entries == [] then w.objects else w.objects - {upload}
    ensures s.outcome == Completed && entries == [] ==> s.world == w
  {
    match Tasks(entries)
    case None => RoleFileStep(w, [], Rejected)
    case Some(ts) =>
      var cleared := ClearRoles(w, upload.bucket, ts);
      if cleared.aborted then RoleFileStep(cleared.world, [], Aborted)
      else
        var announced := Announce(cleared.world, upload.bucket, ts);
        if announced.aborted then RoleFileStep(announced.world, announced.requests, Aborted)
        else
          var settled := if ts == [] then announced.world
                         else announced.world.(objects := announced.world.objects - {upload});
          var created := CreateRoles(settled, upload.bucket, ts);
          RoleFileStep(created.world, announced.requests, if created.aborted then Aborted else Completed)
  }

  /** No task names role `r`. */
  ghost predicate Unnamed(ts: seq<Task>, r: RoleName)
  {
    forall i :: 0 <= i < |ts| ==> ts[i].role != r
  }

  lemma UnnamedTail(ts: seq<Task>, r: RoleName)
    requires ts != [] && Unnamed(ts, r)
    ensures Unnamed(ts[1..], r)
  {
    forall k | 0 <= k < |ts[1..]|
      ensures ts[1..][k].role != r
    {
      assert ts[1..][k] == ts[k + 1];
    }
  }

  /** No two tasks name the same role (the file's entries are the keys of
      a YAML mapping). */
  ghost predicate DistinctRoles(ts: seq<Task>)
  {
    forall i, j :: 0 <= i < j < |ts| ==> ts[i].role != ts[j].role
  }

  lemma DistinctRolesTail(ts: seq<Task>)
    requires ts != [] && DistinctRoles(ts)
    ensures DistinctRoles(ts[1..])
    ensures forall k :: 0 <= k < |ts[1..]| ==> ts[1..][k].role != ts[0].role
  {
    forall i, j | 0 <= i < j < |ts[1..]|
      ensures ts[1..][i].role != ts[1..][j].role
    {
      assert ts[1..][i] == ts[i + 1] && ts[1..][j] == ts[j + 1];
    }
    forall k | 0 <= k < |ts[1..]|
      ensures ts[1..][k].role != ts[0].role
    {
      assert ts[1..][k] == ts[k + 1];
    }
  }

  /** After a third phase that ran to the end, each ADD task's role exists
      in the home account, trusts the directory service, carries the policy
      built over that task's target accounts, and its row is active. */
  lemma {:induction false} CreateRolesEach(w: World, bucket: string, ts: seq<Task>)
    requires DistinctRoles(ts)
    ensures var p := CreateRoles(w, bucket, ts);
            !p.aborted ==> forall i :: 0 <= i < |ts| && ts[i].action == Add ==>
              && ts[i].role in p.world.home.roles
              && p.world.home.roles[ts[i].role]
                   == IamRole(Service(DirectoryService), CreatePolicyDoc(ts[i].role, AccountsByGroup(w.reg, ts[i].group)))
              && ts[i].role in p.world.reg.roles
              && p.world.reg.roles[ts[i].role] == TaskRow(bucket, ts[i], Active)
    decreases |ts|
  {
    if ts != [] {
      var t := ts[0];
      var rest := ts[1..];
      DistinctRolesTail(ts);
      var p := CreateRoles(w, bucket, ts);
      if t.action != Add {
        CreateRolesEach(w, bucket, rest);
        if !p.aborted {
          forall i | 0 <= i < |ts| && ts[i].action == Add
            ensures && ts[i].role in p.world.home.roles
                    && p.world.home.roles[ts[i].role]
                         == IamRole(Service(DirectoryService), CreatePolicyDoc(ts[i].role, AccountsByGroup(w.reg, ts[i].group)))
                    && ts[i].role in p.world.reg.roles
                    && p.world.reg.roles[ts[i].role] == TaskRow(bucket, ts[i], Active)
          {
            assert ts[i] == rest[i - 1];
          }
        }
      } else {
        var accounts := AccountsByGroup(w.reg, t.group);
        var c := CreateIamRole(w.home, t.role, Service(DirectoryService), CreatePolicyDoc(t.role, accounts));
        if c.outcome == Done {
          var w1 := w.(home := c.iam, reg := StoreRole(w.reg, t.role, TaskRow(bucket, t, Active)));
          CreateRolesEach(w1, bucket, rest);
          CreateRolesKeeps(w1, bucket, rest);
          assert p == CreateRoles(w1, bucket, rest);
          if !p.aborted {
            forall i | 0 <= i < |ts| && ts[i].action == Add
              ensures && ts[i].role in p.world.home.roles
                      && p.world.home.roles[ts[i].role]
                           == IamRole(Service(DirectoryService), CreatePolicyDoc(ts[i].role, AccountsByGroup(w.reg, ts[i].group)))
                      && ts[i].role in p.world.reg.roles
                      && p.world.reg.roles[ts[i].role] == TaskRow(bucket, ts[i], Active)
            {
              if i > 0 {
                assert ts[i] == rest[i - 1];
                AccountsByGroupReadsAccounts(w1.reg, w.reg, ts[i].group);
              }
            }
          }
        }
      }
    }
  }

  /** No ADD task names role `r`. */
  ghost predicate NoAddFor(ts: seq<Task>, r: RoleName)
  {
    forall i :: 0 <= i < |ts| && ts[i].action == Add ==> ts[i].role != r
  }

  lemma NoAddForTail(ts: seq<Task>, r: RoleName)
    requires ts != [] && NoAddFor(ts, r)
    ensures NoAddFor(ts[1..], r)
  {
    forall k | 0 <= k < |ts[1..]| && ts[1..][k].action == Add
      ensures ts[1..][k].role != r
    {
      assert ts[1..][k] == ts[k + 1];
    }
  }

  /** The third phase leaves alone every role no ADD task names, and every
      role that already existed. */
  lemma {:induction false} CreateRolesKeeps(w: World, bucket: string, ts: seq<Task>)
    ensures var p := CreateRoles(w, bucket, ts);
            && (forall r :: r in w.home.roles ==> r in p.world.home.roles && p.world.home.roles[r] == w.home.roles[r])
            && (forall r :: r !in w.home.roles && NoAddFor(ts, r) ==> r !in p.world.home.roles)
            && (forall r :: r in w.reg.roles ==> r in p.world.reg.roles)
            && (forall r :: r in w.reg.roles && NoAddFor(ts, r) ==>
                  p.world.reg.roles[r] == w.reg.roles[r])
    decreases |ts|
  {
    if ts != [] {
      var t := ts[0];
      var rest := ts[1..];
      assert forall r :: NoAddFor(ts, r) ==> NoAddFor(rest, r) by {
        forall r | NoAddFor(ts, r)
          ensures NoAddFor(rest, r)
        {
          NoAddForTail(ts, r);
        }
      }
      if t.action != Add {
        CreateRolesKeeps(w, bucket, rest);
      } else {
        var accounts := AccountsByGroup(w.reg, t.group);
        var c := CreateIamRole(w.home, t.role, Service(DirectoryService), CreatePolicyDoc(t.role, accounts));
        if c.outcome == Done {
          CreateRolesKeeps(w.(home := c.iam, reg := StoreRole(w.reg, t.role, TaskRow(bucket, t, Active))), bucket, rest);
        }
      }
    }
  }

  /** After a first phase that ran to the end, each REMOVE task's row is
      stored as deleted, and its role is gone from the home account unless
      the service refused to look it up (a failed lookup counts as "no such
      role", so the role stays). */
  lemma {:induction false} ClearRolesEach(w: World, bucket: string, ts: seq<Task>)
    requires forall i :: 0 <= i < |ts| ==> ts[i].action != Unknown
    requires DistinctRoles(ts)
    ensures var p := ClearRoles(w, bucket, ts);
            !p.aborted ==> forall i :: 0 <= i < |ts| && ts[i].action == Remove ==>
              && (ts[i].role in p.world.home.roles <==> ts[i].role in w.home.roles && ReadRole(ts[i].role) in w.home.refused)
              && ts[i].role in p.world.reg.roles
              && p.world.reg.roles[ts[i].role] == TaskRow(bucket, ts[i], Deleted)
    decreases |ts|
  {
    if ts != [] {
      var t := ts[0];
      var rest := ts[1..];
      DistinctRolesTail(ts);
      var p := ClearRoles(w, bucket, ts);
      var d := DeleteIamRole(w.home, t.role);
      var w1 := if t.action == Add then w.(home := d.iam)
                else w.(home := d.iam, reg := StoreRole(w.reg, t.role, TaskRow(bucket, t, Deleted)));
      if t.action == Add || d.outcome == Done {
        assert p == ClearRoles(w1, bucket, rest);
        ClearRolesEach(w1, bucket, rest);
        if !p.aborted {
          forall i | 0 <= i < |ts| && ts[i].action == Remove
            ensures && (ts[i].role in p.world.home.roles <==> ts[i].role in w.home.roles && ReadRole(ts[i].role) in w.home.refused)
                    && ts[i].role in p.world.reg.roles
                    && p.world.reg.roles[ts[i].role] == TaskRow(bucket, ts[i], Deleted)
          {
            if i == 0 {
              assert Unnamed(rest, t.role);
              assert t.role in w1.home.roles <==> t.role in w.home.roles && ReadRole(t.role) in w.home.refused;
            } else {
              assert ts[i] == rest[i - 1];
              assert ts[i].role != t.role;
            }
          }
        }
      }
    }
  }

  /** The role-file step spelled out for a valid file. */
  lemma RoleFileWorld(w: World, upload: ObjectPath, entries: seq<RoleEntry>)
    requires Tasks(entries).Some?
    ensures var ts := Tasks(entries).value;
            var cleared := ClearRoles(w, upload.bucket, ts);
            var announced := Announce(cleared.world, upload.bucket, ts);
            var settled := if ts == [] then announced.world
                           else announced.world.(objects := announced.world.objects - {upload});
            var s := HandleRoleS3File(w, upload, entries);
            && (cleared.aborted ==> s == RoleFileStep(cleared.world, [], Aborted))
            && (!cleared.aborted && announced.aborted ==> s == RoleFileStep(announced.world, announced.requests, Aborted))
            && (!cleared.aborted && !announced.aborted ==>
                  && s.requests == announced.requests
                  && s.world == CreateRoles(settled, upload.bucket, ts).world
                  && (s.outcome == Completed <==> !CreateRoles(settled, upload.bucket, ts).aborted))
  {
  }

  /** The upload is deleted only after every task's document was read: a
      file cut short by a refused removal, or by a missing document, stays
      in the bucket, and otherwise exactly the upload goes. */
  lemma {:induction false} RoleFileKeepsUpload(w: World, upload: ObjectPath, entries: seq<RoleEntry>)
    ensures var s := HandleRoleS3File(w, upload, entries);
            && (Tasks(entries).Some? && ClearRoles(w, upload.bucket, Tasks(entries).value).aborted ==>
                  s.outcome == Aborted && s.requests == [] && s.world.objects == w.objects)
            && (Tasks(entries).Some? &&
                (exists i :: 0 <= i < |entries| && PolicyPath(upload.bucket, Tasks(entries).value[i]) !in w.objects) ==>
                  s.outcome == Aborted && s.world.objects == w.objects)
            && (s.world.objects != w.objects ==>
                  && s.world.objects == w.objects - {upload}
                  && forall i :: 0 <= i < |entries| ==> PolicyPath(upload.bucket, Tasks(entries).value[i]) in w.objects)
  {
    if Tasks(entries).Some? {
      var ts := Tasks(entries).value;
      var cleared := ClearRoles(w, upload.bucket, ts);
      RoleFileWorld(w, upload, entries);
      if !cleared.aborted {
        var announced := Announce(cleared.world, upload.bucket, ts);
        assert !announced.aborted <==> forall i :: 0 <= i < |ts| ==> PolicyPath(upload.bucket, ts[i]) in w.objects;
      }
    }
  }

  /** Entries with distinct names give each target account of each entry
      at most one request. */
  lemma RoleFileOnce(w: World, upload: ObjectPath, entries: seq<RoleEntry>)
    requires forall i, j :: 0 <= i < j < |entries| ==> entries[i].name != entries[j].name
    ensures OncePerTarget(HandleRoleS3File(w, upload, entries).requests)
  {
    if Tasks(entries).Some? {
      var ts := Tasks(entries).value;
      DistinctNamesDistinctRoles(entries);
      RoleFileWorld(w, upload, entries);
      AnnounceOnce(ClearRoles(w, upload.bucket, ts).world, upload.bucket, ts);
    }
  }

  /** Every request the role file publishes belongs to one of its entries:
      that entry's action and role, a target account of its group, and its
      policy document; a completed file published one for every target
      account of every entry, and, the entries being the keys of a mapping,
      no target gets two for the same entry. */
  lemma {:induction false} RoleFileRequests(w: World, upload: ObjectPath, entries: seq<RoleEntry>)
    ensures var s := HandleRoleS3File(w, upload, entries);
            && (forall q :: q in s.requests ==>
                  exists i :: 0 <= i < |entries| && EntryTask(entries[i]).Some? &&
                              Announced(w.reg.accounts, w.objects, upload.bucket, EntryTask(entries[i]).value, q))
            && (s.outcome == Completed ==> forall i, a ::
                  0 <= i < |entries| && EntryTask(entries[i]).Some? && Targets(w.reg.accounts, EntryTask(entries[i]).value.group, a) ==>
                  var t := EntryTask(entries[i]).value;
                  Provision(t.action, a, t.role, w.objects[PolicyPath(upload.bucket, t)]) in s.requests)
            && ((forall i, j :: 0 <= i < j < |entries| ==> entries[i].name != entries[j].name) ==>
                  OncePerTarget(s.requests))
  {
    RoleFileBelong(w, upload, entries);
    RoleFileCovers(w, upload, entries);
    if forall i, j :: 0 <= i < j < |entries| ==> entries[i].name != entries[j].name {
      RoleFileOnce(w, upload, entries);
    }
  }

  lemma RoleFileBelong(w: World, upload: ObjectPath, entries: seq<RoleEntry>)
    ensures forall q :: q in HandleRoleS3File(w, upload, entries).requests ==>
              exists i :: 0 <= i < |entries| && EntryTask(entries[i]).Some? &&
                          Announced(w.reg.accounts, w.objects, upload.bucket, EntryTask(entries[i]).value, q)
  {
    if Tasks(entries).Some? {
      var ts := Tasks(entries).value;
      var cleared := ClearRoles(w, upload.bucket, ts);
      RoleFileWorld(w, upload, entries);
      if !cleared.aborted {
        AnnounceRequests(cleared.world, upload.bucket, ts);
      }
    }
  }

  lemma RoleFileCovers(w: World, upload: ObjectPath, entries: seq<RoleEntry>)
    ensures var s := HandleRoleS3File(w, upload, entries);
            s.outcome == Completed ==> forall i, a ::
              0 <= i < |entries| && EntryTask(entries[i]).Some? && Targets(w.reg.accounts, EntryTask(entries[i]).value.group, a) ==>
              var t := EntryTask(entries[i]).value;
              Provision(t.action, a, t.role, w.objects[PolicyPath(upload.bucket, t)]) in s.requests
  {
    if Tasks(entries).Some? {
      var ts := Tasks(entries).value;
      var cleared := ClearRoles(w, upload.bucket, ts);
      RoleFileWorld(w, upload, entries);
      if !cleared.aborted {
        AnnounceCovers(cleared.world, upload.bucket, ts);
      }
    }
  }

  /** Distinct entry names give distinct role names. */
  lemma DistinctNamesDistinctRoles(entries: seq<RoleEntry>)
    requires Tasks(entries).Some?
    requires forall i, j :: 0 <= i < j < |entries| ==> entries[i].name != entries[j].name
    ensures DistinctRoles(Tasks(entries).value)
  {
    var ts := Tasks(entries).value;
    forall i, j | 0 <= i < j < |ts|
      ensures ts[i].role != ts[j].role
    {
      EntryTaskRoles(entries[i], entries[j]);
    }
  }

  /** What a completed role file leaves for one entry: an ADD's role is
      created afresh in the home account, trusting the directory service,
      with the policy built over the entry's target accounts, and its row is
      active; a REMOVE's row is deleted, and its role is gone unless the
      service refused to look it up. */
  lemma {:induction false} RoleFileEntryEffect(w: World, upload: ObjectPath, entries: seq<RoleEntry>, i: int)
    requires forall i, j :: 0 <= i < j < |entries| ==> entries[i].name != entries[j].name
    requires 0 <= i < |entries|
    requires HandleRoleS3File(w, upload, entries).outcome == Completed
    ensures var s := HandleRoleS3File(w, upload, entries);
            var t := EntryTask(entries[i]).value;
            && (t.action == Add ==>
                  && t.role in s.world.home.roles
                  && s.world.home.roles[t.role]
                       == IamRole(Service(DirectoryService), CreatePolicyDoc(t.role, AccountsByGroup(w.reg, t.group)))
                  && t.role in s.world.reg.roles
                  && s.world.reg.roles[t.role] == TaskRow(upload.bucket, t, Active))
            && (t.action == Remove ==>
                  && (t.role in s.world.home.roles <==> t.role in w.home.roles && ReadRole(t.role) in w.home.refused)
                  && t.role in s.world.reg.roles
                  && s.world.reg.roles[t.role] == TaskRow(upload.bucket, t, Deleted))
            && (forall a :: Targets(w.reg.accounts, t.group, a) ==>
                  && Binding(t.role, a) in s.world.reg.bindings
                  && s.world.reg.bindings[Binding(t.role, a)] == BindingStatus(t.action))
  {
    var ts := Tasks(entries).value;
    var t := ts[i];
    DistinctNamesDistinctRoles(entries);
    var cleared := ClearRoles(w, upload.bucket, ts);
    var announced := Announce(cleared.world, upload.bucket, ts);
    var settled := if ts == [] then announced.world
                   else announced.world.(objects := announced.world.objects - {upload});
    RoleFileWorld(w, upload, entries);
    var s := HandleRoleS3File(w, upload, entries);
    assert s.world.reg.bindings == announced.world.reg.bindings by {
      assert settled.reg == announced.world.reg;
    }
    AnnounceMarks(cleared.world, upload.bucket, ts);
    if t.action == Add {
      CreateRolesEach(settled, upload.bucket, ts);
      AccountsByGroupReadsAccounts(settled.reg, w.reg, t.group);
    } else {
      ClearRolesEach(w, upload.bucket, ts);
      CreateRolesKeeps(settled, upload.bucket, ts);
      assert NoAddFor(ts, t.role);
      assert settled.home == cleared.world.home;
    }
  }

  /** The policy a role file attaches to an ADD role names exactly the
      target accounts of its group, each once, and there is none when the
      group has no target account. */
  lemma CreatedPolicyCoversTargets(reg: Registries, role: RoleName, group: string)
    ensures var doc := CreatePolicyDoc(role, AccountsByGroup(reg, group));
            && (doc.None? ==> forall a :: !Targets(reg.accounts, group, a))
            && (doc.Some? ==> NoDup(doc.value.Resources()))
            && (doc.Some? ==> forall a :: RoleArn(a, role) in doc.value.Resources() <==> Targets(reg.accounts, group, a))
  {
    var accounts := AccountsByGroup(reg, group);
    if accounts != [] {
      PolicyResourcesMatchAccounts(role, accounts);
    }
  }

  // ---------------------------------------------------------------------
  // Cut-short phases. A failure ends the process in the middle of a
  // phase's loop (file_handler.js, lines 189-192, 206-209 and 236-239);
  // nothing already done is rolled back.

  /** The first phase stopped at task `k`: every earlier task ran to the
      end, and task `k` is a REMOVE whose deletion failed, leaving what
      that failed deletion left. */
  ghost predicate ClearStopsAt(w: World, bucket: string, ts: seq<Task>, k: int)
    requires forall i :: 0 <= i < |ts| ==> ts[i].action != Unknown
  {
    && 0 <= k < |ts| && ts[k].action == Remove
    && var done := ClearRoles(w, bucket, ts[..k]);
       var d := DeleteIamRole(done.world.home, ts[k].role);
       && !done.aborted && d.outcome.Failed?
       && ClearRoles(w, bucket, ts).world == done.world.(home := d.iam)
  }

  /** A cut-short first phase stopped at a failed REMOVE, and the state is
      the one the earlier tasks left plus that failed deletion. */
  lemma {:induction false} ClearRolesAbortsAt(w: World, bucket: string, ts: seq<Task>)
    requires forall i :: 0 <= i < |ts| ==> ts[i].action != Unknown
    ensures ClearRoles(w, bucket, ts).aborted ==> exists k :: ClearStopsAt(w, bucket, ts, k)
    decreases |ts|
  {
    if ts != [] && ClearRoles(w, bucket, ts).aborted {
      var t := ts[0];
      var d := DeleteIamRole(w.home, t.role);
      if t.action == Remove && d.outcome.Failed? {
        assert ts[..0] == [];
        assert ClearStopsAt(w, bucket, ts, 0);
      } else {
        var w1 := ClearStep(w, bucket, t);
        ClearRolesAbortsAt(w1, bucket, ts[1..]);
        var k :| ClearStopsAt(w1, bucket, ts[1..], k);
        ClearStopsAtStep(w, bucket, ts, k);
      }
    }
  }

  /** The state after the first task of the first phase, when it does not
      end the process. */
  function ClearStep(w: World, bucket: string, t: Task): World
  {
    var d := DeleteIamRole(w.home, t.role);
    if t.action == Add then w.(home := d.iam)
    else w.(home := d.iam, reg := StoreRole(w.reg, t.role, TaskRow(bucket, t, Deleted)))
  }

  /** Where the first phase stops does not move when one task that runs
      through is put in front. */
  lemma ClearStopsAtStep(w: World, bucket: string, ts: seq<Task>, k: int)
    requires forall i :: 0 <= i < |ts| ==> ts[i].action != Unknown
    requires ts != [] && !(ts[0].action == Remove && DeleteIamRole(w.home, ts[0].role).outcome.Failed?)
    requires ClearStopsAt(ClearStep(w, bucket, ts[0]), bucket, ts[1..], k)
    ensures ClearStopsAt(w, bucket, ts, k + 1)
  {
    var rest := ts[1..];
    var pre := ts[..k + 1];
    ClearRolesUnfold(w, bucket, ts);
    assert pre != [] && pre[0] == ts[0];
    ClearRolesUnfold(w, bucket, pre);
    assert pre[1..] == rest[..k];
    assert ts[k + 1] == rest[k];
  }

  /** The first phase, past a first task that does not end it. */
  lemma ClearRolesUnfold(w: World, bucket: string, ts: seq<Task>)
    requires forall i :: 0 <= i < |ts| ==> ts[i].action != Unknown
    requires ts != [] && !(ts[0].action == Remove && DeleteIamRole(w.home, ts[0].role).outcome.Failed?)
    ensures ClearRoles(w, bucket, ts) == ClearRoles(ClearStep(w, bucket, ts[0]), bucket, ts[1..])
  {
  }

  /** When the first phase is cut short, the REMOVE tasks before the one
      that stopped it keep their effect: the role is gone unless its lookup
      was refused, and its row is deleted. */
  lemma {:induction false} ClearRolesAbortKeeps(w: World, bucket: string, ts: seq<Task>)
    requires forall i :: 0 <= i < |ts| ==> ts[i].action != Unknown
    requires DistinctRoles(ts)
    ensures var p := ClearRoles(w, bucket, ts);
            p.aborted ==>
              exists k ::
                && 0 <= k < |ts| && StuckRemove(w.home, p.world.home, ts[k])
                && forall j :: 0 <= j < k && ts[j].action == Remove ==>
                     && (ts[j].role in p.world.home.roles <==> ts[j].role in w.home.roles && ReadRole(ts[j].role) in w.home.refused)
                     && ts[j].role in p.world.reg.roles
                     && p.world.reg.roles[ts[j].role] == TaskRow(bucket, ts[j], Deleted)
  {
    var p := ClearRoles(w, bucket, ts);
    if p.aborted {
      ClearRolesAbortsAt(w, bucket, ts);
      var k :| ClearStopsAt(w, bucket, ts, k);
      ClearStopsAtStuck(w, bucket, ts, k);
      ClearStopsAtKeeps(w, bucket, ts, k);
    }
  }

  /** The first phase never makes a role harder to delete: it removes
      policies and roles, and adds none. */
  lemma ClearRolesKeepsDeletable(w: World, bucket: string, ts: seq<Task>, r: RoleName)
    requires forall i :: 0 <= i < |ts| ==> ts[i].action != Unknown
    ensures RoleDeletable(w.home, r) ==> RoleDeletable(ClearRoles(w, bucket, ts).world.home, r)
  {
  }

  /** The entry the first phase stopped at is a stuck REMOVE. */
  lemma ClearStopsAtStuck(w: World, bucket: string, ts: seq<Task>, k: int)
    requires forall i :: 0 <= i < |ts| ==> ts[i].action != Unknown
    requires ClearStopsAt(w, bucket, ts, k)
    ensures StuckRemove(w.home, ClearRoles(w, bucket, ts).world.home, ts[k])
  {
    var done := ClearRoles(w, bucket, ts[..k]);
    ClearRolesKeepsDeletable(w, bucket, ts[..k], ts[k].role);
    assert done.world.home.refused == w.home.refused;
  }

  /** The REMOVE tasks before the one the first phase stopped at keep their
      effect, provided no role is named twice. */
  lemma ClearStopsAtKeeps(w: World, bucket: string, ts: seq<Task>, k: int)
    requires forall i :: 0 <= i < |ts| ==> ts[i].action != Unknown
    requires DistinctRoles(ts)
    requires ClearStopsAt(w, bucket, ts, k)
    ensures var p := ClearRoles(w, bucket, ts);
            forall j :: 0 <= j < k && ts[j].action == Remove ==>
              && (ts[j].role in p.world.home.roles <==> ts[j].role in w.home.roles && ReadRole(ts[j].role) in w.home.refused)
              && ts[j].role in p.world.reg.roles
              && p.world.reg.roles[ts[j].role] == TaskRow(bucket, ts[j], Deleted)
  {
    var p := ClearRoles(w, bucket, ts);
    var pre := ts[..k];
    assert DistinctRoles(pre);
    ClearRolesEach(w, bucket, pre);
    forall j | 0 <= j < k && ts[j].action == Remove
      ensures && (ts[j].role in p.world.home.roles <==> ts[j].role in w.home.roles && ReadRole(ts[j].role) in w.home.refused)
              && ts[j].role in p.world.reg.roles
              && p.world.reg.roles[ts[j].role] == TaskRow(bucket, ts[j], Deleted)
    {
      assert pre[j] == ts[j];
      assert ts[j].role != ts[k].role;
    }
  }

  /** The second phase stopped at task `k`: every document before it was
      read, the one of task `k` is missing, and the state and requests are
      those of the phase run over the earlier tasks alone. */
  ghost predicate AnnounceStopsAt(w: World, bucket: string, ts: seq<Task>, k: int)
  {
    && 0 <= k < |ts|
    && PolicyPath(bucket, ts[k]) !in w.objects
    && (forall j :: 0 <= j < k ==> PolicyPath(bucket, ts[j]) in w.objects)
    && var done := Announce(w, bucket, ts[..k]);
       var p := Announce(w, bucket, ts);
       !done.aborted && p.world == done.world && p.requests == done.requests
  }

  /** A cut-short second phase stopped at the first task whose document is
      missing, keeping all the earlier tasks did. */
  lemma {:induction false} AnnounceAbortsAt(w: World, bucket: string, ts: seq<Task>)
    ensures Announce(w, bucket, ts).aborted ==> exists k :: AnnounceStopsAt(w, bucket, ts, k)
    decreases |ts|
  {
    if ts != [] && Announce(w, bucket, ts).aborted {
      var t := ts[0];
      if PolicyPath(bucket, t) !in w.objects {
        assert ts[..0] == [];
        assert AnnounceStopsAt(w, bucket, ts, 0);
      } else {
        var accounts := AccountsByGroup(w.reg, t.group);
        var w1 := w.(reg := MarkAccounts(w.reg, t.role, accounts, BindingStatus(t.action)));
        var rest := ts[1..];
        AnnounceAbortsAt(w1, bucket, rest);
        var k :| AnnounceStopsAt(w1, bucket, rest, k);
        assert ts[..k + 1][1..] == rest[..k];
        assert ts[..k + 1][0] == t;
        assert ts[k + 1] == rest[k];
        forall j | 0 <= j < k + 1
          ensures PolicyPath(bucket, ts[j]) in w.objects
        {
          if j > 0 {
            assert ts[j] == rest[j - 1];
          }
        }
        assert AnnounceStopsAt(w, bucket, ts, k + 1);
      }
    }
  }

  /** When the second phase is cut short, every task before the one whose
      document is missing keeps its effect: every target account's binding
      holds that task's status and its request has been published. */
  lemma {:induction false} AnnounceAbortKeeps(w: World, bucket: string, ts: seq<Task>)
    requires DistinctRoles(ts)
    ensures var p := Announce(w, bucket, ts);
            p.aborted ==>
              exists k ::
                && 0 <= k < |ts| && PolicyPath(bucket, ts[k]) !in w.objects
                && (forall j :: 0 <= j < k ==> PolicyPath(bucket, ts[j]) in w.objects)
                && forall j, a :: 0 <= j < k && Targets(w.reg.accounts, ts[j].group, a) ==>
                     && Binding(ts[j].role, a) in p.world.reg.bindings
                     && p.world.reg.bindings[Binding(ts[j].role, a)] == BindingStatus(ts[j].action)
                     && Provision(ts[j].action, a, ts[j].role, w.objects[PolicyPath(bucket, ts[j])]) in p.requests
  {
    var p := Announce(w, bucket, ts);
    if p.aborted {
      AnnounceAbortsAt(w, bucket, ts);
      var k :| AnnounceStopsAt(w, bucket, ts, k);
      AnnounceStopsAtKeeps(w, bucket, ts, k);
    }
  }

  /** Every task before the one the second phase stopped at keeps its
      effect, provided no role is named twice. */
  lemma AnnounceStopsAtKeeps(w: World, bucket: string, ts: seq<Task>, k: int)
    requires DistinctRoles(ts)
    requires AnnounceStopsAt(w, bucket, ts, k)
    ensures var p := Announce(w, bucket, ts);
            forall j, a :: 0 <= j < k && Targets(w.reg.accounts, ts[j].group, a) ==>
              && Binding(ts[j].role, a) in p.world.reg.bindings
              && p.world.reg.bindings[Binding(ts[j].role, a)] == BindingStatus(ts[j].action)
              && Provision(ts[j].action, a, ts[j].role, w.objects[PolicyPath(bucket, ts[j])]) in p.requests
  {
    var p := Announce(w, bucket, ts);
    var pre := ts[..k];
    assert DistinctRoles(pre);
    AnnounceMarks(w, bucket, pre);
    AnnounceCovers(w, bucket, pre);
    forall j, a | 0 <= j < k && Targets(w.reg.accounts, ts[j].group, a)
      ensures && Binding(ts[j].role, a) in p.world.reg.bindings
              && p.world.reg.bindings[Binding(ts[j].role, a)] == BindingStatus(ts[j].action)
              && Provision(ts[j].action, a, ts[j].role, w.objects[PolicyPath(bucket, ts[j])]) in p.requests
    {
      assert pre[j] == ts[j];
    }
  }

  /** The third phase stopped at task `k`: every earlier task ran to the
      end, and task `k` is an ADD whose creation failed, leaving what that
      failed creation left. */
  ghost predicate CreateStopsAt(w: World, bucket: string, ts: seq<Task>, k: int)
  {
    && 0 <= k < |ts| && ts[k].action == Add
    && var done := CreateRoles(w, bucket, ts[..k]);
       var c := CreateIamRole(done.world.home, ts[k].role, Service(DirectoryService),
                              CreatePolicyDoc(ts[k].role, AccountsByGroup(done.world.reg, ts[k].group)));
       && !done.aborted && c.outcome.Failed?
       && CreateRoles(w, bucket, ts).world == done.world.(home := c.iam)
  }

  /** A cut-short third phase stopped at a failed creation, and the state
      is the one the earlier tasks left plus that failed creation. */
  lemma {:induction false} CreateRolesAbortsAt(w: World, bucket: string, ts: seq<Task>)
    ensures CreateRoles(w, bucket, ts).aborted ==> exists k :: CreateStopsAt(w, bucket, ts, k)
    decreases |ts|
  {
    if ts != [] && CreateRoles(w, bucket, ts).aborted {
      var t := ts[0];
      var rest := ts[1..];
      var accounts := AccountsByGroup(w.reg, t.group);
      var c := CreateIamRole(w.home, t.role, Service(DirectoryService), CreatePolicyDoc(t.role, accounts));
      if t.action == Add && c.outcome.Failed? {
        assert ts[..0] == [];
        assert CreateStopsAt(w, bucket, ts, 0);
      } else {
        var w1 := if t.action != Add then w
                  else w.(home := c.iam, reg := StoreRole(w.reg, t.role, TaskRow(bucket, t, Active)));
        assert CreateRoles(w, bucket, ts) == CreateRoles(w1, bucket, rest);
        CreateRolesAbortsAt(w1, bucket, rest);
        var k :| CreateStopsAt(w1, bucket, rest, k);
        assert ts[..k + 1][1..] == rest[..k];
        assert ts[..k + 1][0] == t;
        assert ts[k + 1] == rest[k];
        assert CreateRoles(w, bucket, ts[..k + 1]) == CreateRoles(w1, bucket, rest[..k]);
        assert CreateStopsAt(w, bucket, ts, k + 1);
      }
    }
  }

  /** When the third phase is cut short, it stopped at an ADD whose role
      already existed or whose creation or policy attachment was refused,
      and the ADD tasks before it keep their effect: the role exists with
      the policy over its target accounts and its row is active. */
  lemma {:induction false} CreateRolesAbortKeeps(w: World, bucket: string, ts: seq<Task>)
    requires DistinctRoles(ts)
    ensures var p := CreateRoles(w, bucket, ts);
            p.aborted ==>
              exists k ::
                && 0 <= k < |ts| && ts[k].action == Add
                && (|| ts[k].role in w.home.roles
                    || CreateRole(ts[k].role) in w.home.refused
                    || PutRolePolicy(ts[k].role) in w.home.refused)
                && forall j :: 0 <= j < k && ts[j].action == Add ==>
                     && ts[j].role in p.world.home.roles
                     && p.world.home.roles[ts[j].role]
                          == IamRole(Service(DirectoryService), CreatePolicyDoc(ts[j].role, AccountsByGroup(w.reg, ts[j].group)))
                     && ts[j].role in p.world.reg.roles
                     && p.world.reg.roles[ts[j].role] == TaskRow(bucket, ts[j], Active)
  {
    var p := CreateRoles(w, bucket, ts);
    if p.aborted {
      CreateRolesAbortsAt(w, bucket, ts);
      var k :| CreateStopsAt(w, bucket, ts, k);
      var pre := ts[..k];
      var done := CreateRoles(w, bucket, pre);
      assert DistinctRoles(pre);
      CreateRolesEach(w, bucket, pre);
      CreateRolesKeeps(w, bucket, pre);
      assert NoAddFor(pre, ts[k].role) by {
        forall j | 0 <= j < |pre| && pre[j].action == Add
          ensures pre[j].role != ts[k].role
        {
          assert pre[j] == ts[j];
        }
      }
      forall j | 0 <= j < k && ts[j].action == Add
        ensures && ts[j].role in p.world.home.roles
                && p.world.home.roles[ts[j].role]
                     == IamRole(Service(DirectoryService), CreatePolicyDoc(ts[j].role, AccountsByGroup(w.reg, ts[j].group)))
                && ts[j].role in p.world.reg.roles
                && p.world.reg.roles[ts[j].role] == TaskRow(bucket, ts[j], Active)
      {
        assert pre[j] == ts[j];
        assert ts[j].role != ts[k].role;
      }
    }
  }

  // =====================================================================
  // The role file as written

  /** Where the first REMOVE task stands, or `|ts|` when there is none. */
  function FirstRemove(ts: seq<Task>): (k: nat)
    ensures k <= |ts|
    ensures k < |ts| ==> ts[k].action == Remove
    ensures forall i :: 0 <= i < k ==> ts[i].action != Remove
    decreases |ts|
  {
    if ts == [] || ts[0].action == Remove then 0 else 1 + FirstRemove(ts[1..])
  }

  /** `handleRoleS3File` as its text reads. Once a Roles row is stored
      (file_handler.js, lines 187 and 204) the code calls
      `setTimeout(resolve(), 10000)`: `resolve()` runs at once and its
      `undefined` result is handed to `setTimeout`, whose argument check
      throws a TypeError inside the DynamoDB callback, and the invocation
      ends there. So the first REMOVE whose role is deleted ends the run
      before any announcement, with the upload still in the bucket; a file
      of ADDs is announced, and its upload deleted, but ends after the first
      role is created. Tasks past the one that ends the run are not reached. */
  function HandleRoleS3FileAsWritten(w: World, upload: ObjectPath, entries: seq<RoleEntry>): (s: RoleFileStep)
    ensures s.outcome == Rejected <==> exists i :: 0 <= i < |entries| && EntryTask(entries[i]).None?
    ensures s.outcome == Rejected ==> s.world == w && s.requests == []
    ensures s.outcome == Completed ==> entries == [] && s.world == w && s.requests == []
    ensures Tasks(entries).Some? && FirstRemove(Tasks(entries).value) < |entries| ==>
              s.outcome == Aborted && s.requests == [] && s.world.objects == w.objects
  {
    match Tasks(entries)
    case None => RoleFileStep(w, [], Rejected)
    case Some(ts) => RunAsWritten(w, upload, ts)
  }

  /** The run as written once every entry has passed its checks. */
  function RunAsWritten(w: World, upload: ObjectPath, ts: seq<Task>): (s: RoleFileStep)
    requires forall i :: 0 <= i < |ts| ==> ts[i].action != Unknown
    ensures s.outcome != Rejected
    ensures s.outcome == Completed ==> ts == [] && s.world == w && s.requests == []
    ensures FirstRemove(ts) < |ts| ==> s.outcome == Aborted && s.requests == [] && s.world.objects == w.objects
  {
    var k := FirstRemove(ts);
    if k < |ts| then RoleFileStep(ClearRoles(w, upload.bucket, ts[..k + 1]).world, [], Aborted)
    else
      var cleared := ClearRoles(w, upload.bucket, ts);
      if cleared.aborted then RoleFileStep(cleared.world, [], Aborted)
      else
        var announced := Announce(cleared.world, upload.bucket, ts);
        if announced.aborted then RoleFileStep(announced.world, announced.requests, Aborted)
        else if ts == [] then RoleFileStep(announced.world, announced.requests, Completed)
        else
          var settled := announced.world.(objects := announced.world.objects - {upload});
          RoleFileStep(CreateRoles(settled, upload.bucket, ts[..1]).world, announced.requests, Aborted)
  }

  /** The run as written loses the announcements of any file with a REMOVE:
      it publishes nothing and keeps the upload, where the intended run,
      once complete, has sent a request to every target account of that
      REMOVE. */
  lemma RemoveEndsRunAsWritten(w: World, upload: ObjectPath, entries: seq<RoleEntry>, i: int, a: AccountId)
    requires 0 <= i < |entries| && Tasks(entries).Some?
    requires Tasks(entries).value[i].action == Remove
    requires Targets(w.reg.accounts, Tasks(entries).value[i].group, a)
    ensures var s := HandleRoleS3FileAsWritten(w, upload, entries);
            s.requests == [] && s.world.objects == w.objects && s.outcome == Aborted
    ensures var s := HandleRoleS3File(w, upload, entries);
            s.outcome == Completed ==> s.requests != []
  {
    RoleFileCovers(w, upload, entries);
  }

  /** Without a REMOVE the run as written publishes the announcements of
      the three phases run to the end and leaves the same bindings and
      bucket: only the creations stop after the first role. */
  lemma RunAsWrittenAddOnly(w: World, upload: ObjectPath, ts: seq<Task>)
    requires forall i :: 0 <= i < |ts| ==> ts[i].action != Unknown
    requires FirstRemove(ts) == |ts|
    ensures var cleared := ClearRoles(w, upload.bucket, ts);
            var announced := Announce(cleared.world, upload.bucket, ts);
            var settled := if ts == [] then announced.world
                           else announced.world.(objects := announced.world.objects - {upload});
            var s := RunAsWritten(w, upload, ts);
            && (cleared.aborted ==> s == RoleFileStep(cleared.world, [], Aborted))
            && (!cleared.aborted && announced.aborted ==> s.world == announced.world && s.requests == announced.requests)
            && (!cleared.aborted && !announced.aborted ==>
                  && s.requests == announced.requests
                  && s.world.reg.bindings == CreateRoles(settled, upload.bucket, ts).world.reg.bindings
                  && s.world.objects == CreateRoles(settled, upload.bucket, ts).world.objects)
  {
  }
}
