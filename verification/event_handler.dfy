/** The two pub/sub handlers (event_handler.js): the account lifecycle step
    `handleAccountEvent` and the role provisioning step `handleRoleEvent`. */
module EventHandler {
  import opened Types
  import opened ResourceLists
  import opened PolicyDocs
  import opened Iam
  import opened Registry
  import opened Cloud

  // =====================================================================
  // Account lifecycle step

  /** A message on the account topic: {Action, SubAccountId}. */
  datatype LifecycleEvent = LifecycleEvent(action: string, account: AccountId)

  /** The state after the step and the provisioning requests it published;
      `handled` is false when the account row could not be read. */
  datatype AccountStep = AccountStep(world: World, requests: seq<Provision>, handled: bool)

  /** The change one lifecycle event makes to one role's home-account
      permission policy (event_handler.js, lines 145-191). */
  function AdjustPolicy(home: Iam<PolicyDoc>, role: RoleName, action: Action, account: AccountId): (h: Iam<PolicyDoc>)
    ensures OnlyTouches(home, h, role)
    ensures h.roles.Keys == home.roles.Keys
    ensures role in home.roles ==> h.roles[role].trusted == home.roles[role].trusted
  {
    match GetRolePolicy(home, role)
    case None =>
      if action == Add then
        var doc := CreatePolicyDoc(role, [account]);
        UpdateRolePolicy(home, role, doc.value).iam
      else home
    case Some(doc) =>
      var arn := RoleArn(account, role);
      var rs := doc.Resources();
      if action == Add then
        UpdateRolePolicy(home, role, doc.WithResources(Insert(rs, arn))).iam
      else if action == Remove then
        var rest := Erase(rs, arn);
        if |rest| > 0 then UpdateRolePolicy(home, role, doc.WithResources(rest)).iam
        else DeleteRolePolicy(home, role).iam
      else home
  }

  /** ADD: the account's ARN is added to the resource list read back, at
      most once; when no policy could be read, the policy built from this
      account alone is written. A refused role lookup makes the write fail,
      and nothing changes. */
  lemma AdjustPolicyAdd(home: Iam<PolicyDoc>, role: RoleName, account: AccountId)
    requires role in home.roles && PutRolePolicy(role) !in home.refused
    ensures ReadRole(role) in home.refused ==> AdjustPolicy(home, role, Add, account) == home
    ensures var h := AdjustPolicy(home, role, Add, account);
            var arn := RoleArn(account, role);
            ReadRole(role) !in home.refused ==>
            && InlineOf(h, role).Some?
            && (GetRolePolicy(home, role).None? ==>
                  InlineOf(h, role) == CreatePolicyDoc(role, [account]))
            && (GetRolePolicy(home, role).Some? ==>
                  InlineOf(h, role).value.Resources() == Insert(GetRolePolicy(home, role).value.Resources(), arn))
  {
  }

  /** REMOVE: the account's ARN leaves the resource list read back; when
      nothing is left the policy is deleted instead of written back empty;
      when no policy could be read, or the role lookup before the write is
      refused, nothing changes. */
  lemma AdjustPolicyRemove(home: Iam<PolicyDoc>, role: RoleName, account: AccountId)
    requires PutRolePolicy(role) !in home.refused && DeleteInlinePolicy(role) !in home.refused
    ensures var h := AdjustPolicy(home, role, Remove, account);
            var arn := RoleArn(account, role);
            && (GetRolePolicy(home, role).None? || ReadRole(role) in home.refused ==> h == home)
            && (GetRolePolicy(home, role).Some? && ReadRole(role) !in home.refused ==>
                  var rest := Erase(GetRolePolicy(home, role).value.Resources(), arn);
                  && (rest == [] ==> InlineOf(h, role).None? && role in h.roles)
                  && (rest != [] ==> InlineOf(h, role).Some? &&
                                     InlineOf(h, role).value.Resources() == rest))
  {
  }

  /** A refused policy read is taken for a missing policy: ADD then
      replaces the whole resource list by this account's ARN, dropping every
      account the role could reach before, unless the role lookup inside
      `updateRolePolicy` is refused too; REMOVE leaves the ARN in place. */
  lemma {:induction false} AdjustPolicyReadRefused(home: Iam<PolicyDoc>, role: RoleName, account: AccountId)
    requires role in home.roles && ReadInlinePolicy(role) in home.refused && PutRolePolicy(role) !in home.refused
    ensures ReadRole(role) !in home.refused ==>
              && InlineOf(AdjustPolicy(home, role, Add, account), role).Some?
              && InlineOf(AdjustPolicy(home, role, Add, account), role).value.Resources() == [RoleArn(account, role)]
    ensures ReadRole(role) in home.refused ==> AdjustPolicy(home, role, Add, account) == home
    ensures AdjustPolicy(home, role, Remove, account) == home
  {
    AdjustPolicyAdd(home, role, account);
  }

  lemma WithOwnResources(doc: PolicyDoc)
    ensures doc.WithResources(doc.Resources()) == doc
  {
  }

  /** Repeating the change of a lifecycle event on one role's policy
      changes nothing more. */
  lemma AdjustPolicyIdempotent(home: Iam<PolicyDoc>, role: RoleName, action: Action, account: AccountId)
    requires HomePoliciesWellFormed(home)
    ensures AdjustPolicy(AdjustPolicy(home, role, action, account), role, action, account)
         == AdjustPolicy(home, role, action, account)
  {
    var h1 := AdjustPolicy(home, role, action, account);
    var arn := RoleArn(account, role);
    if h1 != home {
      match GetRolePolicy(home, role)
      case None =>
        var d := CreatePolicyDoc(role, [account]).value;
        assert h1 == UpdateRolePolicy(home, role, d).iam;
        UpdateRolePolicyIdempotent(home, role, d);
        if GetRolePolicy(h1, role).Some? {
          assert GetRolePolicy(h1, role).value == d;
          assert d.Resources() == [arn];
          WithOwnResources(d);
        }
      case Some(doc) =>
        var rs := doc.Resources();
        if action == Add {
          var d := doc.WithResources(Insert(rs, arn));
          assert h1 == UpdateRolePolicy(home, role, d).iam;
          assert GetRolePolicy(h1, role) == Some(d);
          InsertIdempotent(rs, arn);
          WithOwnResources(d);
          UpdateRolePolicyIdempotent(home, role, d);
        } else {
          var rest := Erase(rs, arn);
          EraseIdempotent(rs, arn);
          if |rest| > 0 {
            var d := doc.WithResources(rest);
            assert h1 == UpdateRolePolicy(home, role, d).iam;
            assert GetRolePolicy(h1, role) == Some(d);
            WithOwnResources(d);
            UpdateRolePolicyIdempotent(home, role, d);
          } else {
            assert GetRolePolicy(h1, role).None?;
          }
        }
    }
  }

  /** The change keeps the changed role's own policy non-empty and free of
      duplicates. */
  lemma AdjustPolicyKeepsOwnWellFormed(home: Iam<PolicyDoc>, role: RoleName, action: Action, account: AccountId)
    requires InlineOf(home, role).Some? ==>
               InlineOf(home, role).value.Resources() != [] && NoDup(InlineOf(home, role).value.Resources())
    ensures var h := AdjustPolicy(home, role, action, account);
            InlineOf(h, role).Some? ==>
              InlineOf(h, role).value.Resources() != [] && NoDup(InlineOf(h, role).value.Resources())
  {
    var h := AdjustPolicy(home, role, action, account);
    var arn := RoleArn(account, role);
    if InlineOf(h, role).Some? && InlineOf(h, role) != InlineOf(home, role) {
      match GetRolePolicy(home, role)
      case None =>
        var d := CreatePolicyDoc(role, [account]).value;
        assert h == UpdateRolePolicy(home, role, d).iam;
        assert d.Resources() == [arn];
      case Some(doc) =>
        assert doc == InlineOf(home, role).value;
        var rs := doc.Resources();
        if action == Add {
          var d := doc.WithResources(Insert(rs, arn));
          assert h == UpdateRolePolicy(home, role, d).iam;
          assert d.Resources() == Insert(rs, arn);
        } else {
          var d := doc.WithResources(Erase(rs, arn));
          assert h == UpdateRolePolicy(home, role, d).iam;
          assert d.Resources() == Erase(rs, arn);
        }
    }
  }

  /** The account-event change keeps every home policy non-empty and free
      of duplicates. */
  lemma AdjustPolicyPreservesWellFormed(home: Iam<PolicyDoc>, role: RoleName, action: Action, account: AccountId)
    ensures HomePoliciesWellFormed(home) ==> HomePoliciesWellFormed(AdjustPolicy(home, role, action, account))
  {
    var h := AdjustPolicy(home, role, action, account);
    if HomePoliciesWellFormed(home) {
      AdjustPolicyKeepsOwnWellFormed(home, role, action, account);
      forall r | r in h.roles && h.roles[r].inline.Some?
        ensures h.roles[r].inline.value.Resources() != [] && NoDup(h.roles[r].inline.value.Resources())
      {
        if r != role {
          assert h.roles[r] == home.roles[r];
        }
      }
    }
  }

  /** The change applied to each matching role in turn (the `forEach` over
      the roles of event_handler.js, line 141). */
  function AdjustPolicies(home: Iam<PolicyDoc>, roles: seq<RoleName>, action: Action, account: AccountId): (h: Iam<PolicyDoc>)
    ensures h.refused == home.refused && h.roles.Keys == home.roles.Keys
    ensures forall r :: r in home.roles && r !in roles ==> h.roles[r] == home.roles[r]
    ensures HomePoliciesWellFormed(home) ==> HomePoliciesWellFormed(h)
    decreases |roles|
  {
    if roles == [] then home
    else
      AdjustPolicyPreservesWellFormed(home, roles[0], action, account);
      AdjustPolicies(AdjustPolicy(home, roles[0], action, account), roles[1..], action, account)
  }

  /** With each role listed once, every listed role ends up exactly as the
      single-role change leaves it. */
  lemma {:induction false} AdjustPoliciesEach(home: Iam<PolicyDoc>, roles: seq<RoleName>, action: Action, account: AccountId)
    requires NoDup(roles)
    ensures forall r :: r in roles && r in home.roles ==>
              AdjustPolicies(home, roles, action, account).roles[r] == AdjustPolicy(home, r, action, account).roles[r]
    decreases |roles|
  {
    if roles != [] {
      var first := AdjustPolicy(home, roles[0], action, account);
      var rest := roles[1..];
      assert NoDup(rest);
      AdjustPoliciesEach(first, rest, action, account);
      forall r | r in roles && r in home.roles
        ensures AdjustPolicies(home, roles, action, account).roles[r] == AdjustPolicy(home, r, action, account).roles[r]
      {
        if r == roles[0] {
          assert r !in rest;
        } else {
          assert r in rest;
          AdjustPolicyLocal(home, first, r, action, account);
        }
      }
    }
  }

  /** The change to a role's policy depends only on that role. */
  lemma AdjustPolicyLocal(h1: Iam<PolicyDoc>, h2: Iam<PolicyDoc>, role: RoleName, action: Action, account: AccountId)
    requires h1.refused == h2.refused
    requires role in h1.roles && role in h2.roles && h1.roles[role] == h2.roles[role]
    ensures AdjustPolicy(h1, role, action, account).roles[role] == AdjustPolicy(h2, role, action, account).roles[role]
  {
    assert GetRolePolicy(h1, role) == GetRolePolicy(h2, role);
    var arn := RoleArn(account, role);
    match GetRolePolicy(h1, role)
    case None =>
      if action == Add {
        var doc := CreatePolicyDoc(role, [account]).value;
        UpdateRolePolicyLocal(h1, h2, role, doc);
      }
    case Some(doc) =>
      if action == Add {
        var doc' := doc.WithResources(Insert(doc.Resources(), arn));
        UpdateRolePolicyLocal(h1, h2, role, doc');
      } else if action == Remove {
        var rest := Erase(doc.Resources(), arn);
        if |rest| > 0 {
          var doc' := doc.WithResources(rest);
          UpdateRolePolicyLocal(h1, h2, role, doc');
        } else {
          DeleteRolePolicyLocal(h1, h2, role);
        }
      }
  }

  /** Each matching role's binding becomes `status` (event_handler.js,
      line 196). */
  function MarkBindings(reg: Registries, roles: seq<RoleName>, account: AccountId, status: Status): (r: Registries)
    ensures r.accounts == reg.accounts && r.roles == reg.roles
    ensures forall role :: role in roles ==> Binding(role, account) in r.bindings && r.bindings[Binding(role, account)] == status
    ensures forall b :: b in r.bindings <==> b in reg.bindings || (b.account == account && b.role in roles)
    ensures forall b :: b in reg.bindings && !(b.account == account && b.role in roles) ==> r.bindings[b] == reg.bindings[b]
    decreases |roles|
  {
    if roles == [] then reg
    else MarkBindings(UpdateAccountRoles(reg, roles[0], account, status), roles[1..], account, status)
  }

  /** One provisioning request per matching role whose policy document
      could be read (event_handler.js, lines 197-212); with each role listed
      once, no role gets two. */
  function AddRequests(w: World, roles: seq<RoleName>, account: AccountId): (reqs: seq<Provision>)
    ensures forall p :: p in reqs ==>
              && p.action == Add && p.account == account && p.role in roles && p.role in w.reg.roles
              && PolicyObject(w.reg.roles[p.role].policy) in w.objects
              && p.policy == w.objects[PolicyObject(w.reg.roles[p.role].policy)]
    ensures forall r :: r in roles && r in w.reg.roles && PolicyObject(w.reg.roles[r].policy) in w.objects ==>
              exists p :: p in reqs && p.role == r
    ensures NoDup(roles) ==> forall i, j :: 0 <= i < j < |reqs| ==> reqs[i].role != reqs[j].role
    decreases |roles|
  {
    if roles == [] then []
    else
      var rest := AddRequests(w, roles[1..], account);
      var r := roles[0];
      if r in w.reg.roles && PolicyObject(w.reg.roles[r].policy) in w.objects then
        [Provision(Add, account, r, w.objects[PolicyObject(w.reg.roles[r].policy)])] + rest
      else rest
  }

  /** `handleAccountEvent` (event_handler.js, lines 108-225). */
  function HandleAccountEvent(w: World, ev: LifecycleEvent): (s: AccountStep)
    ensures !s.handled <==> ev.account !in w.reg.accounts
    ensures !s.handled ==> s.world == w && s.requests == []
    ensures s.world.reg.roles == w.reg.roles
    ensures s.world.members == w.members && s.world.objects == w.objects && s.world.publishers == w.publishers
    ensures HomePoliciesWellFormed(w.home) ==> HomePoliciesWellFormed(s.world.home)
    ensures s.handled ==>
              var row := w.reg.accounts[ev.account];
              var action := ParseAction(ev.action);
              && s.world.reg.accounts == w.reg.accounts[ev.account :=
                   AccountRow(row.email, row.group, if action == Add then Active else Deleted)]
              && (action != Add ==> s.requests == [])
  {
    if ev.account !in w.reg.accounts then AccountStep(w, [], false)
    else
      var row := w.reg.accounts[ev.account];
      var action := ParseAction(ev.action);
      var reg := UpdateAccounts(w.reg, ev.account, row.email, row.group, if action == Add then Active else Deleted);
      var roles := RolesByGroup(reg, row.group);
      var home := AdjustPolicies(w.home, roles, action, ev.account);
      var reg' := MarkBindings(reg, roles, ev.account, if action == Add then Pending else Deleted);
      var requests := if action == Add then AddRequests(w, roles, ev.account) else [];
      AccountStep(w.(reg := reg', home := home), requests, true)
  }

  /** The roles a lifecycle event for `account` touches: the active roles of
      the account's group or of group '*'. */
  ghost predicate RoleMatches(w: World, account: AccountId, role: RoleName)
    requires account in w.reg.accounts
  {
    role in w.reg.roles &&
    ScanKeeps(RolesTable, w.reg.accounts[account].group, w.reg.roles[role].status, w.reg.roles[role].group)
  }

  /** A handled lifecycle event publishes at most one request per role. */
  lemma RequestsOncePerRole(w: World, ev: LifecycleEvent)
    requires ev.account in w.reg.accounts
    ensures var s := HandleAccountEvent(w, ev);
            forall i, j :: 0 <= i < j < |s.requests| ==> s.requests[i].role != s.requests[j].role
  {
    var row := w.reg.accounts[ev.account];
    var reg := UpdateAccounts(w.reg, ev.account, row.email, row.group,
                              if ParseAction(ev.action) == Add then Active else Deleted);
    assert NoDup(RolesByGroup(reg, row.group));
  }

  /** What a handled lifecycle event does to bindings, policies and the
      requests it publishes, role by role: each matching role gets at most
      one request. */
  lemma {:induction false} AccountEventEffects(w: World, ev: LifecycleEvent)
    requires ev.account in w.reg.accounts
    ensures var s := HandleAccountEvent(w, ev);
            var action := ParseAction(ev.action);
            && (forall role :: RoleMatches(w, ev.account, role) ==>
                  && Binding(role, ev.account) in s.world.reg.bindings
                  && s.world.reg.bindings[Binding(role, ev.account)] == (if action == Add then Pending else Deleted)
                  && (role in w.home.roles ==>
                        s.world.home.roles[role] == AdjustPolicy(w.home, role, action, ev.account).roles[role]))
            && (forall role :: role in w.home.roles && !RoleMatches(w, ev.account, role) ==>
                  s.world.home.roles[role] == w.home.roles[role])
            && (forall b :: b in w.reg.bindings && !(b.account == ev.account && RoleMatches(w, ev.account, b.role)) ==>
                  b in s.world.reg.bindings && s.world.reg.bindings[b] == w.reg.bindings[b])
            && (forall p :: p in s.requests ==>
                  p.action == Add && p.account == ev.account && RoleMatches(w, ev.account, p.role))
            && (action == Add ==> forall role ::
                   (RoleMatches(w, ev.account, role) && PolicyObject(w.reg.roles[role].policy) in w.objects) ==>
                   exists p :: p in s.requests && p.role == role &&
                               p.policy == w.objects[PolicyObject(w.reg.roles[role].policy)])
            && (forall i, j :: 0 <= i < j < |s.requests| ==> s.requests[i].role != s.requests[j].role)
  {
    var row := w.reg.accounts[ev.account];
    var action := ParseAction(ev.action);
    var reg := UpdateAccounts(w.reg, ev.account, row.email, row.group, if action == Add then Active else Deleted);
    var roles := RolesByGroup(reg, row.group);
    assert forall role :: RoleMatches(w, ev.account, role) <==> role in roles;
    AdjustPoliciesEach(w.home, roles, action, ev.account);
    RequestsOncePerRole(w, ev);
  }

  lemma RolesByGroupReadsRoles(reg1: Registries, reg2: Registries, group: string)
    requires reg1.roles == reg2.roles
    ensures RolesByGroup(reg1, group) == RolesByGroup(reg2, group)
  {
    assert (set r | r in reg1.roles && ScanKeeps(RolesTable, group, reg1.roles[r].status, reg1.roles[r].group))
        == (set r | r in reg2.roles && ScanKeeps(RolesTable, group, reg2.roles[r].status, reg2.roles[r].group));
  }

  lemma MarkBindingsIdempotent(reg: Registries, roles: seq<RoleName>, account: AccountId, status: Status)
    ensures MarkBindings(MarkBindings(reg, roles, account, status), roles, account, status)
         == MarkBindings(reg, roles, account, status)
  {
    var once := MarkBindings(reg, roles, account, status);
    var twice := MarkBindings(once, roles, account, status);
    assert twice.bindings == once.bindings;
  }

  lemma {:induction false} AdjustPoliciesIdempotent(home: Iam<PolicyDoc>, roles: seq<RoleName>, action: Action, account: AccountId)
    requires HomePoliciesWellFormed(home) && NoDup(roles)
    ensures var once := AdjustPolicies(home, roles, action, account);
            AdjustPolicies(once, roles, action, account) == once
  {
    var once := AdjustPolicies(home, roles, action, account);
    var twice := AdjustPolicies(once, roles, action, account);
    AdjustPoliciesEach(home, roles, action, account);
    AdjustPoliciesEach(once, roles, action, account);
    forall r | r in once.roles
      ensures twice.roles[r] == once.roles[r]
    {
      if r in roles {
        AdjustPolicyIdempotent(home, r, action, account);
        AdjustPolicyLocal(once, AdjustPolicy(home, r, action, account), r, action, account);
      }
    }
    assert twice.roles == once.roles;
  }

  /** The state a handled lifecycle event leaves, spelled out. */
  lemma AccountEventWorld(w: World, ev: LifecycleEvent)
    requires ev.account in w.reg.accounts
    ensures var row := w.reg.accounts[ev.account];
            var action := ParseAction(ev.action);
            var reg := UpdateAccounts(w.reg, ev.account, row.email, row.group, if action == Add then Active else Deleted);
            var roles := RolesByGroup(reg, row.group);
            HandleAccountEvent(w, ev).world ==
              w.(reg := MarkBindings(reg, roles, ev.account, if action == Add then Pending else Deleted),
                 home := AdjustPolicies(w.home, roles, action, ev.account))
  {
  }

  /** A state whose account row, bindings and policies already carry the
      event's effect is left as it is. */
  lemma AccountEventFixed(v: World, ev: LifecycleEvent)
    requires ev.account in v.reg.accounts
    requires var row := v.reg.accounts[ev.account];
             var action := ParseAction(ev.action);
             var roles := RolesByGroup(v.reg, row.group);
             && row.status == (if action == Add then Active else Deleted)
             && MarkBindings(v.reg, roles, ev.account, if action == Add then Pending else Deleted) == v.reg
             && AdjustPolicies(v.home, roles, action, ev.account) == v.home
    ensures HandleAccountEvent(v, ev).world == v
  {
    var row := v.reg.accounts[ev.account];
    var action := ParseAction(ev.action);
    var roles := RolesByGroup(v.reg, row.group);
    assert HandleAccountEvent(v, ev).world
        == v.(reg := MarkBindings(v.reg, roles, ev.account, if action == Add then Pending else Deleted),
              home := AdjustPolicies(v.home, roles, action, ev.account)) by {
      AccountEventWorld(v, ev);
      assert UpdateAccounts(v.reg, ev.account, row.email, row.group, if action == Add then Active else Deleted) == v.reg;
    }
  }

  /** Delivering the same lifecycle event twice leaves the same registries
      and home-account policies as delivering it once. */
  lemma {:induction false} AccountEventIdempotent(w: World, ev: LifecycleEvent)
    requires HomePoliciesWellFormed(w.home)
    ensures var once := HandleAccountEvent(w, ev).world;
            HandleAccountEvent(once, ev).world == once
  {
    if ev.account in w.reg.accounts {
      var row := w.reg.accounts[ev.account];
      var action := ParseAction(ev.action);
      var bstatus := if action == Add then Pending else Deleted;
      var reg := UpdateAccounts(w.reg, ev.account, row.email, row.group, if action == Add then Active else Deleted);
      var roles := RolesByGroup(reg, row.group);
      var once := HandleAccountEvent(w, ev).world;
      assert once.reg == MarkBindings(reg, roles, ev.account, bstatus)
          && once.home == AdjustPolicies(w.home, roles, action, ev.account) by {
        AccountEventWorld(w, ev);
      }
      assert RolesByGroup(once.reg, row.group) == roles by {
        RolesByGroupReadsRoles(once.reg, reg, row.group);
      }
      assert MarkBindings(once.reg, roles, ev.account, bstatus) == once.reg by {
        MarkBindingsIdempotent(reg, roles, ev.account, bstatus);
      }
      assert AdjustPolicies(once.home, roles, action, ev.account) == once.home by {
        AdjustPoliciesIdempotent(w.home, roles, action, ev.account);
      }
      AccountEventFixed(once, ev);
    }
  }

  // =====================================================================
  // Role provisioning step

  /** A message on the access-links topic: {Action, SubAccountId, Role}. */
  datatype AccessNotice = AccessNotice(action: Action, account: AccountId, role: RoleName)

  /** The state after the step and the notices it published; `handled` is
      false when the member account's admin role could not be assumed. */
  datatype RoleStep = RoleStep(world: World, notices: seq<AccessNotice>, handled: bool)

  /** The trust principal of a provisioned member-account role: the role of
      the same name in the home account (event_handler.js, lines 62-69). */
  function TrustFor(master: AccountId, role: RoleName): (p: Principal)
    ensures p.AwsPrincipal? && p.arn == RoleArn(master, role)
  {
    AwsPrincipal(RoleArn(master, role))
  }

  /** The inline policy attached to a provisioned role: the uploaded
      document, or none when it is empty (an empty string is falsy for
      `createIamRole`, iam_helper.js, line 226). */
  function MemberPolicy(text: string): (p: Option<string>)
    ensures p.None? <==> text == ""
    ensures p.Some? ==> p.value == text
  {
    if text == "" then None else Some(text)
  }

  /** `handleRoleEvent` (event_handler.js, lines 36-98), with the home
      account's id `master`. Without the member account's admin role the
      step fails before any change. Otherwise the role is deleted whatever
      the outcome (the continuation is scheduled without waiting on it);
      then on ADD the role is created trusting the home-account role of the
      same name, and only a successful creation marks the binding active
      and publishes a notice; any other action marks the binding deleted. */
  function HandleRoleEvent(w: World, master: AccountId, p: Provision): (s: RoleStep)
    ensures !s.handled <==> p.account !in w.members || AdminRole !in w.members[p.account].roles
    ensures !s.handled ==> s.world == w && s.notices == []
    ensures s.world.home == w.home && s.world.objects == w.objects && s.world.publishers == w.publishers
    ensures s.world.reg.accounts == w.reg.accounts && s.world.reg.roles == w.reg.roles
    ensures s.world.members.Keys == w.members.Keys
    ensures forall a :: a in w.members && a != p.account ==> s.world.members[a] == w.members[a]
    ensures s.handled ==> OnlyTouches(w.members[p.account], s.world.members[p.account], p.role)
    ensures forall b :: b in w.reg.bindings && b != Binding(p.role, p.account) ==>
              b in s.world.reg.bindings && s.world.reg.bindings[b] == w.reg.bindings[b]
    ensures s.handled && p.action != Add ==>
              && s.notices == []
              && s.world.reg == UpdateAccountRoles(w.reg, p.role, p.account, Deleted)
              && (var iam := w.members[p.account];
                  p.role !in s.world.members[p.account].roles <==>
                    p.role !in iam.roles || (ReadRole(p.role) !in iam.refused && RoleDeletable(iam, p.role)))
    ensures s.handled && p.action == Add ==>
              && (var iam := w.members[p.account];
                  s.notices != [] <==>
                    && (p.role !in iam.roles || (ReadRole(p.role) !in iam.refused && RoleDeletable(iam, p.role)))
                    && CreateRole(p.role) !in iam.refused
                    && (p.policy != "" ==> PutRolePolicy(p.role) !in iam.refused))
              && (s.notices == [] ==> s.world.reg == w.reg)
              && (s.notices != [] ==>
                    && s.notices == [AccessNotice(Add, p.account, p.role)]
                    && s.world.reg == UpdateAccountRoles(w.reg, p.role, p.account, Active)
                    && p.role in s.world.members[p.account].roles
                    && s.world.members[p.account].roles[p.role] == IamRole(TrustFor(master, p.role), MemberPolicy(p.policy)))
  {
    if p.account !in w.members || AdminRole !in w.members[p.account].roles then RoleStep(w, [], false)
    else
      var cleared := DeleteIamRole(w.members[p.account], p.role).iam;
      if p.action == Add then
        var created := CreateIamRole(cleared, p.role, TrustFor(master, p.role), MemberPolicy(p.policy));
        var w' := w.(members := w.members[p.account := created.iam]);
        if created.outcome == Done then
          RoleStep(w'.(reg := UpdateAccountRoles(w.reg, p.role, p.account, Active)),
                   [AccessNotice(Add, p.account, p.role)], true)
        else RoleStep(w', [], true)
      else
        RoleStep(w.(members := w.members[p.account := cleared],
                    reg := UpdateAccountRoles(w.reg, p.role, p.account, Deleted)), [], true)
  }

  /** A provisioning request delivered twice leaves the state it left the
      first time, unless it is an ADD whose first delivery creates the role
      afresh while the second cannot clear it: the service refuses to look
      it up or to delete it, or refuses to delete the new policy so that
      the role deletion meets a conflict. */
  lemma {:induction false} RoleEventIdempotent(w: World, master: AccountId, p: Provision)
    requires p.action == Add && p.account in w.members ==>
               var iam := w.members[p.account];
               || (p.role in iam.roles && (ReadRole(p.role) in iam.refused || !RoleDeletable(iam, p.role)))
               || (&& ReadRole(p.role) !in iam.refused && DeleteRole(p.role) !in iam.refused
                   && (p.policy != "" ==> DeleteInlinePolicy(p.role) !in iam.refused))
    ensures var once := HandleRoleEvent(w, master, p).world;
            HandleRoleEvent(once, master, p).world == once
  {
    if p.account in w.members && AdminRole in w.members[p.account].roles {
      var iam := w.members[p.account];
      var once := HandleRoleEvent(w, master, p).world;
      var cleared := DeleteIamRole(iam, p.role).iam;
      if p.action == Add {
        var created := CreateIamRole(cleared, p.role, TrustFor(master, p.role), MemberPolicy(p.policy));
        var status := if created.outcome == Done then UpdateAccountRoles(w.reg, p.role, p.account, Active) else w.reg;
        assert once == w.(members := w.members[p.account := created.iam], reg := status);
        if AdminRole in created.iam.roles {
          assert once.members[p.account] == created.iam;
          assert CreateIamRole(DeleteIamRole(created.iam, p.role).iam, p.role, TrustFor(master, p.role), MemberPolicy(p.policy))
              == created by {
            RecreateIdempotent(iam, p.role, TrustFor(master, p.role), MemberPolicy(p.policy));
          }
          UpdateAccountRolesIdempotent(w.reg, p.role, p.account, Active);
        }
      } else {
        assert once == w.(members := w.members[p.account := cleared],
                          reg := UpdateAccountRoles(w.reg, p.role, p.account, Deleted));
        if AdminRole in cleared.roles {
          assert once.members[p.account] == cleared;
          DeleteIamRoleIdempotent(iam, p.role);
          UpdateAccountRolesIdempotent(w.reg, p.role, p.account, Deleted);
        }
      }
    }
  }

  /** A request for a member account whose admin role is in place, with no
      call refused, re-provisions the role from scratch whatever was there:
      it trusts the home-account role of the same name, carries exactly the
      uploaded policy, and the binding becomes active. */
  lemma {:induction false} RoleEventProvisions(w: World, master: AccountId, p: Provision)
    requires p.action == Add && p.account in w.members && AdminRole in w.members[p.account].roles
    requires w.members[p.account].refused == {}
    ensures var s := HandleRoleEvent(w, master, p);
            && s.handled
            && s.notices == [AccessNotice(Add, p.account, p.role)]
            && s.world.members[p.account].roles[p.role] == IamRole(TrustFor(master, p.role), MemberPolicy(p.policy))
            && s.world.reg.bindings[Binding(p.role, p.account)] == Active
  {
    var iam := w.members[p.account];
    assert ReadRole(p.role) !in iam.refused && DeleteRole(p.role) !in iam.refused && CreateRole(p.role) !in iam.refused && PutRolePolicy(p.role) !in iam.refused;
  }
}
