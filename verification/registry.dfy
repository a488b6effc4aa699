/** The three registries (ddb_helper.js): CrossAccountManager-Accounts,
    CrossAccountManager-Roles and CrossAccountManager-Account-Roles, their
    filtered scans and their whole-row upserts. Row timestamps are not
    modelled. */
module Registry {
  import opened Types
  import opened Ordering

  datatype Table = AccountsTable | RolesTable | AccountRolesTable

  datatype AccountRow = AccountRow(email: string, group: string, status: Status)

  /** `policy` is the locator `bucket + ':' + policy` written by the role
      file handler. */
  datatype RoleRow = RoleRow(policy: string, group: string, status: Status)

  /** A binding is keyed by (role, account) and holds only its status. */
  datatype Binding = Binding(role: RoleName, account: AccountId)

  datatype Registries = Registries(
    accounts: map<AccountId, AccountRow>,
    roles: map<RoleName, RoleRow>,
    bindings: map<Binding, Status>)

  /** The filter expression `_scanByAccountGroup` builds for `table` and
      `group` (ddb_helper.js, lines 60-84), applied to one item: status
      `active`, plus on Accounts (unless the group is '*') the item's group
      equal to `group`, plus on Roles the item's group equal to `group` or
      to '*'. Account-Roles items have no group clause. */
  predicate ScanKeeps(table: Table, group: string, itemStatus: Status, itemGroup: string)
  {
    && itemStatus == Active
    && (table == AccountsTable && group != "*" ==> itemGroup == group)
    && (table == RolesTable ==> itemGroup == group || itemGroup == "*")
  }

  lemma ScanKeepsCases(group: string, status: Status, itemGroup: string)
    ensures ScanKeeps(AccountsTable, "*", status, itemGroup) <==> status == Active
    ensures group != "*" ==>
              (ScanKeeps(AccountsTable, group, status, itemGroup) <==> status == Active && itemGroup == group)
    ensures ScanKeeps(RolesTable, group, status, itemGroup) <==>
              status == Active && (itemGroup == group || itemGroup == "*")
    ensures ScanKeeps(AccountRolesTable, group, status, itemGroup) <==> status == Active
  {
  }

  /** `getAccountsByAccountGroup` (ddb_helper.js, lines 126-135): the ids
      of active accounts, all of them for group '*'. */
  function AccountsByGroup(reg: Registries, group: string): (ids: seq<AccountId>)
    ensures NoDup(ids)
    ensures forall id :: id in ids <==>
              id in reg.accounts && reg.accounts[id].status == Active &&
              (group == "*" || reg.accounts[id].group == group)
  {
    Enumerate(set id | id in reg.accounts &&
                       ScanKeeps(AccountsTable, group, reg.accounts[id].status, reg.accounts[id].group))
  }

  /** The accounts scan reads the Accounts registry only. */
  lemma AccountsByGroupReadsAccounts(reg1: Registries, reg2: Registries, group: string)
    requires reg1.accounts == reg2.accounts
    ensures AccountsByGroup(reg1, group) == AccountsByGroup(reg2, group)
  {
    assert (set id | id in reg1.accounts && ScanKeeps(AccountsTable, group, reg1.accounts[id].status, reg1.accounts[id].group))
        == (set id | id in reg2.accounts && ScanKeeps(AccountsTable, group, reg2.accounts[id].status, reg2.accounts[id].group));
  }

  /** `getRolesByAccountGroup` (ddb_helper.js, lines 142-151): the names of
      active roles whose group is `group` or '*'. */
  function RolesByGroup(reg: Registries, group: string): (names: seq<RoleName>)
    ensures NoDup(names)
    ensures forall r :: r in names <==>
              r in reg.roles && reg.roles[r].status == Active &&
              (reg.roles[r].group == group || reg.roles[r].group == "*")
  {
    Enumerate(set r | r in reg.roles &&
                      ScanKeeps(RolesTable, group, reg.roles[r].status, reg.roles[r].group))
  }

  /** `getActiveAccountAndRoles` (ddb_helper.js, lines 156-165): the active
      bindings, with no group clause. */
  function ActiveAccountRoles(reg: Registries): (bs: set<Binding>)
    ensures forall b :: b in bs <==> b in reg.bindings && reg.bindings[b] == Active
  {
    set b | b in reg.bindings && ScanKeeps(AccountRolesTable, "", reg.bindings[b], "")
  }

  /** `updateAccountRoles` (ddb_helper.js, lines 170-191): a whole-row put
      keyed by (role, account). */
  function UpdateAccountRoles(reg: Registries, role: RoleName, account: AccountId, status: Status): (r: Registries)
    ensures r.accounts == reg.accounts && r.roles == reg.roles
    ensures Binding(role, account) in r.bindings && r.bindings[Binding(role, account)] == status
    ensures r.bindings.Keys == reg.bindings.Keys + {Binding(role, account)}
    ensures forall b :: b in reg.bindings && b != Binding(role, account) ==> r.bindings[b] == reg.bindings[b]
  {
    reg.(bindings := reg.bindings[Binding(role, account) := status])
  }

  /** `updateAccounts` (ddb_helper.js, lines 196-214): a whole-row put for
      the account. */
  function UpdateAccounts(reg: Registries, account: AccountId, email: string, group: string, status: Status): (r: Registries)
    ensures r.roles == reg.roles && r.bindings == reg.bindings
    ensures account in r.accounts && r.accounts[account] == AccountRow(email, group, status)
    ensures r.accounts.Keys == reg.accounts.Keys + {account}
    ensures forall a :: a in reg.accounts && a != account ==> r.accounts[a] == reg.accounts[a]
  {
    reg.(accounts := reg.accounts[account := AccountRow(email, group, status)])
  }

  /** Repeating a binding put with the same status changes nothing more. */
  lemma UpdateAccountRolesIdempotent(reg: Registries, role: RoleName, account: AccountId, status: Status)
    ensures UpdateAccountRoles(UpdateAccountRoles(reg, role, account, status), role, account, status)
         == UpdateAccountRoles(reg, role, account, status)
  {
  }

  /** Puts on different keys commute. */
  lemma UpdateAccountRolesCommute(reg: Registries, b1: Binding, s1: Status, b2: Binding, s2: Status)
    requires b1 != b2
    ensures UpdateAccountRoles(UpdateAccountRoles(reg, b1.role, b1.account, s1), b2.role, b2.account, s2)
         == UpdateAccountRoles(UpdateAccountRoles(reg, b2.role, b2.account, s2), b1.role, b1.account, s1)
  {
  }

  // ---------------------------------------------------------------------
  // Paginated scans

  /** One page of a scan: its items (already filtered) and whether the
      store returned a `LastEvaluatedKey`, i.e. more pages follow. */
  datatype Page<T> = Page(items: seq<T>, more: bool)

  /** The items of every page, reading on while the page before announced
      more (ddb_helper.js, lines 40-49). */
  function AllPages<T>(pages: seq<Page<T>>): seq<T>
  {
    if pages == [] then []
    else if !pages[0].more then pages[0].items
    else pages[0].items + AllPages(pages[1..])
  }

  /** The drained scan: request pages while the last one carried a
      `LastEvaluatedKey`, accumulating their items in a local list. The
      store is given as the pages it would return in turn. */
  method DrainScan<T>(pages: seq<Page<T>>) returns (items: seq<T>)
    ensures items == AllPages(pages)
  {
    items := [];
    var k := 0;
    var more := true;
    while more && k < |pages|
      invariant 0 <= k <= |pages|
      invariant items + (if more then AllPages(pages[k..]) else []) == AllPages(pages)
      decreases |pages| - k
    {
      assert pages[k..][1..] == pages[k+1..];
      items := items + pages[k].items;
      more := pages[k].more;
      k := k + 1;
    }
  }

  /** The list `_scanByAccountGroup` hands its caller (ddb_helper.js, lines
      87-93): the callback runs right after the first page is processed, so
      the caller sees that page's items; the pages fetched afterwards are
      appended only once the caller has already used the list. */
  function FirstPageOnly<T>(pages: seq<Page<T>>): (items: seq<T>)
  {
    if pages == [] then [] else pages[0].items
  }

  /** What the caller sees is a prefix of the drained scan, and all of it
      exactly when nothing follows the first page. */
  lemma FirstPageOnlyPrefix<T>(pages: seq<Page<T>>)
    ensures FirstPageOnly(pages) <= AllPages(pages)
    ensures FirstPageOnly(pages) == AllPages(pages) <==>
              pages == [] || !pages[0].more || AllPages(pages[1..]) == []
  {
    if pages != [] && pages[0].more {
      var rest := AllPages(pages[1..]);
      assert AllPages(pages) == pages[0].items + rest;
      if pages[0].items + rest == pages[0].items {
        assert |rest| == 0;
      }
    }
  }

  /** The store filters each page separately, so a first page can hold no
      match while the next does: the caller then sees no account at all. */
  lemma FirstPageOnlyMissesLaterPages()
    ensures var pages := [Page([] , true), Page(["111111111111"], false)];
            FirstPageOnly(pages) == [] && AllPages(pages) == ["111111111111"]
  {
    var pages := [Page([] , true), Page(["111111111111"], false)];
    assert pages[1..] == [Page(["111111111111"], false)];
  }
}
