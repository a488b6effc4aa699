/** The identity service of one account as the helpers in iam_helper.js
    see it: the roles that exist, each with a trust principal and an
    optional inline policy named `<role>-Permission`. The inline policy's
    type `P` is a `PolicyDoc` in the home account and the uploaded policy
    text in a member account.

    Remote calls can be refused by the service for reasons outside the
    model (permissions, throttling, limits); `refused` lists the calls that
    will be refused, so that every failure path of the helpers is
    reachable. */
module Iam {
  import opened Types

  datatype Principal = Service(name: string) | AwsPrincipal(arn: string)

  datatype IamRole<P> = IamRole(trusted: Principal, inline: Option<P>)

  datatype Call =
    | ReadRole(role: RoleName)
    | ReadInlinePolicy(role: RoleName)
    | CreateRole(role: RoleName)
    | PutRolePolicy(role: RoleName)
    | DeleteInlinePolicy(role: RoleName)
    | DeleteRole(role: RoleName)

  datatype Iam<P> = Iam(roles: map<RoleName, IamRole<P>>, refused: set<Call>)

  datatype IamError = NoSuchEntity | EntityAlreadyExists | DeleteConflict | Refused

  datatype Outcome = Done | Failed(error: IamError)

  /** The account's identity service after a call, and whether the call's
      promise resolved or rejected. */
  datatype Reply<P> = Reply(iam: Iam<P>, outcome: Outcome)

  /** The inline policy the role holds, if the role exists. */
  function InlineOf<P>(iam: Iam<P>, role: RoleName): Option<P>
  {
    if role in iam.roles then iam.roles[role].inline else None
  }

  /** `getRolePolicy` as its callers see it: the inline policy, or None when
      the read fails, which happens when the role or its policy does not
      exist and also when the service refuses the read. The callers treat
      every failure alike, as "no policy". */
  function GetRolePolicy<P>(iam: Iam<P>, role: RoleName): (p: Option<P>)
  {
    if ReadInlinePolicy(role) in iam.refused then None else InlineOf(iam, role)
  }

  /** A read only ever reports the stored policy, and reports it whenever
      the service answers. */
  lemma GetRolePolicyReads<P>(iam: Iam<P>, role: RoleName)
    ensures GetRolePolicy(iam, role).Some? ==> GetRolePolicy(iam, role) == InlineOf(iam, role)
    ensures ReadInlinePolicy(role) !in iam.refused ==> GetRolePolicy(iam, role) == InlineOf(iam, role)
    ensures ReadInlinePolicy(role) in iam.refused ==> GetRolePolicy(iam, role).None?
  {
  }

  /** Everything except role `role` is as before. */
  ghost predicate OnlyTouches<P>(before: Iam<P>, after: Iam<P>, role: RoleName)
  {
    && after.refused == before.refused
    && (forall r :: r != role ==> (r in after.roles <==> r in before.roles))
    && (forall r :: r != role && r in before.roles ==> after.roles[r] == before.roles[r])
  }

  /** The service's own `putRolePolicy` call: fails with no change when the
      role does not exist or the put is refused; otherwise the role's inline
      policy becomes `p`. */
  function PutInlinePolicy<P>(iam: Iam<P>, role: RoleName, p: P): (r: Reply<P>)
    ensures r.outcome == Done <==> role in iam.roles && PutRolePolicy(role) !in iam.refused
    ensures r.outcome.Failed? ==> r.iam == iam
    ensures r.outcome == Done ==> r.iam.roles == iam.roles[role := IamRole(iam.roles[role].trusted, Some(p))]
    ensures r.iam.refused == iam.refused
  {
    if role !in iam.roles then Reply(iam, Failed(NoSuchEntity))
    else if PutRolePolicy(role) in iam.refused then Reply(iam, Failed(Refused))
    else Reply(iam.(roles := iam.roles[role := iam.roles[role].(inline := Some(p))]), Done)
  }

  /** The service's own `deleteRolePolicy` call: fails with no change when
      the role or its policy does not exist or the delete is refused;
      otherwise the role stays and loses its inline policy. */
  function RemoveInlinePolicy<P>(iam: Iam<P>, role: RoleName): (r: Reply<P>)
    ensures r.outcome == Done <==> InlineOf(iam, role).Some? && DeleteInlinePolicy(role) !in iam.refused
    ensures r.outcome.Failed? ==> r.iam == iam
    ensures r.outcome == Done ==> r.iam.roles == iam.roles[role := IamRole(iam.roles[role].trusted, None)]
    ensures r.iam.refused == iam.refused
  {
    if role !in iam.roles || iam.roles[role].inline.None? then Reply(iam, Failed(NoSuchEntity))
    else if DeleteInlinePolicy(role) in iam.refused then Reply(iam, Failed(Refused))
    else Reply(iam.(roles := iam.roles[role := iam.roles[role].(inline := None)]), Done)
  }

  /** The failure of a `getRole` lookup: the role does not exist, or the
      service refuses the read. */
  function LookupError<P>(iam: Iam<P>, role: RoleName): (e: Option<IamError>)
    ensures e.None? <==> role in iam.roles && ReadRole(role) !in iam.refused
  {
    if role !in iam.roles then Some(NoSuchEntity)
    else if ReadRole(role) in iam.refused then Some(Refused)
    else None
  }

  /** `updateRolePolicy` (iam_helper.js, lines 72-107): the role is looked
      up first, and a failed lookup rejects with no change; then the put
      runs, and a refused put also rejects with no change. Otherwise the
      role's inline policy becomes `p`. */
  function UpdateRolePolicy<P>(iam: Iam<P>, role: RoleName, p: P): (r: Reply<P>)
    ensures r.outcome == Done <==>
              role in iam.roles && ReadRole(role) !in iam.refused && PutRolePolicy(role) !in iam.refused
    ensures role !in iam.roles ==> r.outcome == Failed(NoSuchEntity)
    ensures r.outcome.Failed? ==> r.iam == iam
    ensures r.outcome == Done ==> InlineOf(r.iam, role) == Some(p)
    ensures r.outcome == Done ==> r.iam.roles.Keys == iam.roles.Keys
    ensures r.outcome == Done ==> r.iam.roles[role].trusted == iam.roles[role].trusted
    ensures OnlyTouches(iam, r.iam, role)
  {
    match LookupError(iam, role)
    case Some(e) => Reply(iam, Failed(e))
    case None => PutInlinePolicy(iam, role, p)
  }

  /** `deleteRolePolicy` (iam_helper.js, lines 112-145): the role is looked
      up first, and a failed lookup rejects with no change; then the delete
      runs, failing with no change when there is no policy or the delete is
      refused. Otherwise the role stays and loses its inline policy. The
      helper never settles its promise after a successful delete; its one
      caller does not wait for it, so the model reports the success. */
  function DeleteRolePolicy<P>(iam: Iam<P>, role: RoleName): (r: Reply<P>)
    ensures r.outcome == Done <==>
              && ReadRole(role) !in iam.refused
              && InlineOf(iam, role).Some? && DeleteInlinePolicy(role) !in iam.refused
    ensures role !in iam.roles ==> r.outcome == Failed(NoSuchEntity)
    ensures r.outcome.Failed? ==> r.iam == iam
    ensures r.outcome == Done ==> role in r.iam.roles && InlineOf(r.iam, role).None?
    ensures r.outcome == Done ==> r.iam.roles.Keys == iam.roles.Keys
    ensures r.outcome == Done ==> r.iam.roles[role].trusted == iam.roles[role].trusted
    ensures OnlyTouches(iam, r.iam, role)
  {
    match LookupError(iam, role)
    case Some(e) => Reply(iam, Failed(e))
    case None => RemoveInlinePolicy(iam, role)
  }

  /** Whether the service lets `deleteRole` remove the role once the inline
      policy delete has run: the call must not be refused, and the role must
      no longer hold an inline policy (the service answers DeleteConflict
      for a role that still has one). */
  predicate RoleDeletable<P>(iam: Iam<P>, role: RoleName)
  {
    && DeleteRole(role) !in iam.refused
    && (InlineOf(iam, role).Some? ==> DeleteInlinePolicy(role) !in iam.refused)
  }

  /** `deleteIamRole` (iam_helper.js, lines 151-198): the role is looked
      up first, and a failed lookup (the role does not exist, or the read is
      refused) is a success with no change. Otherwise the inline policy is
      deleted (a failure there is ignored) and then the role. A refused
      role deletion, or a policy that could not be deleted, fails, and
      leaves the role in place without any policy it has already lost. */
  function DeleteIamRole<P>(iam: Iam<P>, role: RoleName): (r: Reply<P>)
    ensures role !in iam.roles || ReadRole(role) in iam.refused ==> r == Reply(iam, Done)
    ensures r.outcome == Done <==>
              role !in iam.roles || ReadRole(role) in iam.refused || RoleDeletable(iam, role)
    ensures role !in r.iam.roles <==> role !in iam.roles || (ReadRole(role) !in iam.refused && r.outcome == Done)
    ensures r.outcome.Failed? ==>
              && role in iam.roles
              && r.outcome.error == (if DeleteRole(role) in iam.refused then Refused else DeleteConflict)
              && r.iam.roles[role] == IamRole(iam.roles[role].trusted,
                                              if DeleteInlinePolicy(role) in iam.refused then iam.roles[role].inline else None)
    ensures OnlyTouches(iam, r.iam, role)
  {
    if role !in iam.roles || ReadRole(role) in iam.refused then Reply(iam, Done)
    else
      var afterPolicy := RemoveInlinePolicy(iam, role).iam;
      if DeleteRole(role) in iam.refused then Reply(afterPolicy, Failed(Refused))
      else if InlineOf(afterPolicy, role).Some? then Reply(afterPolicy, Failed(DeleteConflict))
      else Reply(afterPolicy.(roles := afterPolicy.roles - {role}), Done)
  }

  /** `createIamRole` (iam_helper.js, lines 203-255): creating a role that
      exists, or a refused creation, fails with no change. After a
      successful creation the inline policy is attached only when one is
      supplied; a refused attachment fails but leaves the new role without
      a policy. */
  function CreateIamRole<P>(iam: Iam<P>, role: RoleName, trusted: Principal, policy: Option<P>): (r: Reply<P>)
    ensures r.outcome == Done <==>
              && role !in iam.roles && CreateRole(role) !in iam.refused
              && (policy.Some? ==> PutRolePolicy(role) !in iam.refused)
    ensures role in iam.roles ==> r == Reply(iam, Failed(EntityAlreadyExists))
    ensures CreateRole(role) in iam.refused ==> r.iam == iam
    ensures r.outcome == Done ==> role in r.iam.roles && r.iam.roles[role] == IamRole(trusted, policy)
    ensures r.outcome.Failed? && role !in iam.roles && CreateRole(role) !in iam.refused ==>
              role in r.iam.roles && r.iam.roles[role] == IamRole(trusted, None)
    ensures OnlyTouches(iam, r.iam, role)
  {
    if role in iam.roles then Reply(iam, Failed(EntityAlreadyExists))
    else if CreateRole(role) in iam.refused then Reply(iam, Failed(Refused))
    else
      var created := iam.(roles := iam.roles[role := IamRole(trusted, None)]);
      match policy
      case None => Reply(created, Done)
      case Some(p) => PutInlinePolicy(created, role, p)
  }

  /** Writing the same inline policy twice has the effect of writing it
      once. */
  lemma UpdateRolePolicyIdempotent<P>(iam: Iam<P>, role: RoleName, p: P)
    ensures UpdateRolePolicy(UpdateRolePolicy(iam, role, p).iam, role, p).iam == UpdateRolePolicy(iam, role, p).iam
  {
  }

  /** What a policy write does to a role depends only on that role and on
      the calls the service refuses. */
  lemma UpdateRolePolicyLocal<P>(h1: Iam<P>, h2: Iam<P>, role: RoleName, p: P)
    requires h1.refused == h2.refused
    requires role in h1.roles && role in h2.roles && h1.roles[role] == h2.roles[role]
    ensures UpdateRolePolicy(h1, role, p).iam.roles[role] == UpdateRolePolicy(h2, role, p).iam.roles[role]
  {
  }

  /** Likewise for a policy delete. */
  lemma DeleteRolePolicyLocal<P>(h1: Iam<P>, h2: Iam<P>, role: RoleName)
    requires h1.refused == h2.refused
    requires role in h1.roles && role in h2.roles && h1.roles[role] == h2.roles[role]
    ensures DeleteRolePolicy(h1, role).iam.roles[role] == DeleteRolePolicy(h2, role).iam.roles[role]
  {
  }

  /** Deleting one role never makes another role, or the same one, harder
      to delete: policies only disappear. */
  lemma DeleteIamRoleKeepsDeletable<P>(iam: Iam<P>, role: RoleName, other: RoleName)
    ensures RoleDeletable(iam, other) ==> RoleDeletable(DeleteIamRole(iam, role).iam, other)
  {
  }

  /** Deleting a role twice has the effect of deleting it once. */
  lemma DeleteIamRoleIdempotent<P>(iam: Iam<P>, role: RoleName)
    ensures DeleteIamRole(DeleteIamRole(iam, role).iam, role).iam == DeleteIamRole(iam, role).iam
  {
  }

  /** After a delete that leaves no role behind, a create that is not
      refused succeeds, so delete-then-create re-provisions a role whatever
      was there before. */
  lemma {:induction false} CreateAfterDeleteSucceeds<P>(iam: Iam<P>, role: RoleName, trusted: Principal, policy: Option<P>)
    requires role !in DeleteIamRole(iam, role).iam.roles
    requires CreateRole(role) !in iam.refused && PutRolePolicy(role) !in iam.refused
    ensures var c := CreateIamRole(DeleteIamRole(iam, role).iam, role, trusted, policy);
            c.outcome == Done && c.iam.roles[role] == IamRole(trusted, policy)
  {
  }

  /** Delete-then-create, repeated, leaves what it left the first time:
      the second round meets the same refusal or redoes the same work. The
      exception is a role that the first round creates afresh and the
      second round cannot delete: its lookup or its deletion is refused, or
      the new policy's own delete is refused so that the role deletion
      meets a conflict. */
  lemma {:induction false} RecreateIdempotent<P>(iam: Iam<P>, role: RoleName, trusted: Principal, policy: Option<P>)
    requires || (role in iam.roles && (ReadRole(role) in iam.refused || !RoleDeletable(iam, role)))
             || (&& ReadRole(role) !in iam.refused && DeleteRole(role) !in iam.refused
                 && (policy.Some? ==> DeleteInlinePolicy(role) !in iam.refused))
    ensures var once := CreateIamRole(DeleteIamRole(iam, role).iam, role, trusted, policy);
            var twice := CreateIamRole(DeleteIamRole(once.iam, role).iam, role, trusted, policy);
            twice == once
  {
    var d := DeleteIamRole(iam, role);
    var once := CreateIamRole(d.iam, role, trusted, policy);
    var d2 := DeleteIamRole(once.iam, role);
    if role in iam.roles && ReadRole(role) in iam.refused {
      assert d == Reply(iam, Done);
      assert once.iam == iam;
    } else if role in iam.roles && !RoleDeletable(iam, role) {
      assert role in d.iam.roles;
      assert once.iam == d.iam;
      DeleteIamRoleIdempotent(iam, role);
    } else {
      assert role !in d.iam.roles;
      assert d2.iam == d.iam by {
        if role in once.iam.roles {
          assert d2.iam.roles == once.iam.roles - {role};
          assert d2.iam.roles == d.iam.roles;
        }
      }
    }
  }
}
