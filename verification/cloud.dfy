/** The state the handlers read and change, with every remote service
    replaced by a value: the registries, the identity service of the home
    account and of each member account, the publish grant on the account
    topic, and the objects of the configuration buckets. */
module Cloud {
  import opened Types
  import opened ResourceLists
  import opened PolicyDocs
  import opened Iam
  import opened Registry

  datatype ObjectPath = ObjectPath(bucket: string, key: string)

  datatype World = World(
    reg: Registries,
    /** The home (master) account's roles; inline policies are documents. */
    home: Iam<PolicyDoc>,
    /** Each member account's roles; inline policies are the uploaded text. */
    members: map<AccountId, Iam<string>>,
    /** The account ids of the `CAM` publish grant on the account topic, or
        None when no such grant exists. */
    publishers: Option<set<AccountId>>,
    objects: map<ObjectPath, string>)

  /** A role-provisioning request published on the role topic:
      {Action, SubAccountId, Role, Policy}. */
  datatype Provision = Provision(action: Action, account: AccountId, role: RoleName, policy: string)

  /** The role every member account grants the home account, used to obtain
      credentials for member-account calls. */
  const AdminRole := "CrossAccountManager-Admin-DO-NOT-DELETE"

  /** Prefix of every managed role name. */
  const RolePrefix := "CrossAccountManager-"

  /** Folder of the configuration bucket that holds policy documents. */
  const PolicyFolder := "custom_policy/"

  /** IAM's limit on the length of a role name. */
  const MaxRoleNameLength := 64

  /** Every inline policy in the home account has a resource list that is
      non-empty and free of duplicates. */
  ghost predicate HomePoliciesWellFormed(home: Iam<PolicyDoc>)
  {
    forall r :: r in home.roles && home.roles[r].inline.Some? ==>
      var rs := home.roles[r].inline.value.Resources();
      rs != [] && NoDup(rs)
  }

  // ---------------------------------------------------------------------
  // Policy locators: `bucket + ':' + policy`, split again with split(':').

  /** The locator the role file handler stores in a Role row
      (file_handler.js, line 148). */
  function PolicyRef(bucket: string, policy: string): string
  {
    bucket + ":" + policy
  }

  /** `s.split(':')`. */
  function SplitColon(s: string): (fields: seq<string>)
    ensures |fields| >= 1
    ensures ':' !in s ==> fields == [s]
    decreases |s|
  {
    var i := IndexOf(s, ':');
    if i < 0 then [s] else [s[..i]] + SplitColon(s[i+1..])
  }

  /** The bucket part of a locator, `ref.split(':')[0]`. */
  function BucketOf(ref: string): string
  {
    SplitColon(ref)[0]
  }

  /** The policy part of a locator as event_handler.js, line 200 reads it:
      `ref.split(':')[1]`, which stops at the second colon (and is
      `undefined` when there is no colon). */
  function PolicyNameAsWritten(ref: string): string
  {
    var fields := SplitColon(ref);
    if |fields| > 1 then fields[1] else "undefined"
  }

  /** The policy part of a locator read back as written: everything after
      the first colon. */
  function PolicyNameOf(ref: string): string
  {
    var i := IndexOf(ref, ':');
    if i < 0 then "undefined" else ref[i+1..]
  }

  /** Reading a locator back yields the bucket and policy it was built from,
      whatever characters the policy name holds (S3 bucket names cannot
      contain a colon). */
  lemma PolicyRefRoundTrip(bucket: string, policy: string)
    requires ':' !in bucket
    ensures BucketOf(PolicyRef(bucket, policy)) == bucket
    ensures PolicyNameOf(PolicyRef(bucket, policy)) == policy
  {
    FirstColon(bucket, policy);
  }

  /** In `prefix + ':' + rest` with no colon in `prefix`, the first colon
      is the one after `prefix`. */
  lemma FirstColon(prefix: string, rest: string)
    requires ':' !in prefix
    ensures IndexOf(prefix + ":" + rest, ':') == |prefix|
    ensures (prefix + ":" + rest)[..|prefix|] == prefix
    ensures (prefix + ":" + rest)[|prefix|+1..] == rest
  {
    var s := prefix + ":" + rest;
    assert s[..|prefix|] == prefix;
    assert s[|prefix|] == ':';
  }

  /** The split in event_handler.js agrees with the round trip only for
      policy names without a colon. */
  lemma {:induction false} PolicyNameAsWrittenAgrees(bucket: string, policy: string)
    requires ':' !in bucket && ':' !in policy
    ensures PolicyNameAsWritten(PolicyRef(bucket, policy)) == policy
  {
    FirstColon(bucket, policy);
  }

  /** Splitting at the first colon, after a colon-free prefix. */
  lemma SplitAfterPrefix(prefix: string, rest: string)
    requires ':' !in prefix
    ensures SplitColon(prefix + ":" + rest) == [prefix] + SplitColon(rest)
  {
    FirstColon(prefix, rest);
  }

  /** A policy name with a colon is cut at that colon by the split. */
  lemma {:induction false} PolicyNameAsWrittenCuts(bucket: string, head: string, tail: string)
    requires ':' !in bucket && ':' !in head
    ensures PolicyNameAsWritten(PolicyRef(bucket, head + ":" + tail)) == head
    ensures PolicyNameOf(PolicyRef(bucket, head + ":" + tail)) == head + ":" + tail
  {
    var policy := head + ":" + tail;
    FirstColon(bucket, policy);
    SplitAfterPrefix(bucket, policy);
    SplitAfterPrefix(head, tail);
    var fields := SplitColon(PolicyRef(bucket, policy));
    assert fields == [bucket] + ([head] + SplitColon(tail));
    assert fields[1] == head;
  }

  /** The role file stores `config:team:admin.json`; the account lifecycle
      handler then fetches `custom_policy/team` instead of
      `custom_policy/team:admin.json`. */
  lemma PolicyNameAsWrittenTruncates()
    ensures PolicyNameAsWritten(PolicyRef("config", "team:admin.json")) == "team"
    ensures PolicyNameOf(PolicyRef("config", "team:admin.json")) == "team:admin.json"
  {
    assert "team:admin.json" == "team" + ":" + "admin.json";
    PolicyNameAsWrittenCuts("config", "team", "admin.json");
  }

  /** Where a role's policy document lives, given its locator. */
  function PolicyObject(ref: string): ObjectPath
  {
    ObjectPath(BucketOf(ref), PolicyFolder + PolicyNameOf(ref))
  }
}
