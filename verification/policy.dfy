/** The home-account permission policy of a `CrossAccountManager-*` role
    and its builder (iam_helper.js, `createPolicyDoc`). */
module PolicyDocs {
  import opened Types
  import opened ResourceLists

  datatype Statement = Statement(effect: string, actions: seq<string>, resources: seq<string>)

  /** A policy document. IAM requires at least one statement, so the
      document is its `Statement[0]` (`first`) followed by the others. */
  datatype PolicyDoc = PolicyDoc(version: string, first: Statement, more: seq<Statement>)
  {
    function Statements(): seq<Statement> { [first] + more }

    /** `policy.Statement[0].Resource`. */
    function Resources(): seq<string> { first.resources }

    /** `policy.Statement[0].Resource = rs`. */
    function WithResources(rs: seq<string>): (d: PolicyDoc)
      ensures d.Resources() == rs
      ensures d.version == version && d.more == more
      ensures d.first.effect == first.effect && d.first.actions == first.actions
    {
      this.(first := first.(resources := rs))
    }
  }

  const PolicyVersion := "2012-10-17"
  const ArnPrefix := "arn:aws:iam::"
  const RoleInfix := ":role/"

  /** The fixed second statement: read-only access to S3. */
  const ReadOnlyStatement := Statement("Allow", ["s3:Get*", "s3:List*"], ["*"])

  /** `'arn:aws:iam::' + account + ':role/' + role`. */
  function RoleArn(account: AccountId, role: RoleName): (arn: string)
    ensures |arn| == |ArnPrefix| + |account| + |RoleInfix| + |role|
    ensures arn[..|ArnPrefix|] == ArnPrefix
    ensures arn[|ArnPrefix|..|ArnPrefix| + |account|] == account
    ensures arn[|arn| - |role|..] == role
  {
    ArnPrefix + account + RoleInfix + role
  }

  /** For one role, different accounts give different ARNs. */
  lemma RoleArnInjective(a: AccountId, b: AccountId, role: RoleName)
    requires RoleArn(a, role) == RoleArn(b, role)
    ensures a == b
  {
    var arn := RoleArn(a, role);
    assert |a| == |b|;
    assert a == arn[|ArnPrefix|..|ArnPrefix| + |a|];
  }

  /** One ARN per account, in the order of the accounts
      (iam_helper.js, lines 35-37). */
  function RoleArns(accounts: seq<AccountId>, role: RoleName): (arns: seq<string>)
    ensures |arns| == |accounts|
    ensures forall i :: 0 <= i < |accounts| ==> arns[i] == RoleArn(accounts[i], role)
  {
    if accounts == [] then [] else [RoleArn(accounts[0], role)] + RoleArns(accounts[1..], role)
  }

  /** The permission policy for `role` over `accounts`, or None when there
      are no accounts (iam_helper.js, lines 28-60). */
  function CreatePolicyDoc(role: RoleName, accounts: seq<AccountId>): (doc: Option<PolicyDoc>)
    ensures doc.None? <==> accounts == []
    ensures doc.Some? ==> doc.value.version == PolicyVersion
    ensures doc.Some? ==> doc.value.first.effect == "Allow" && doc.value.first.actions == ["sts:AssumeRole"]
    ensures doc.Some? ==> doc.value.more == [ReadOnlyStatement]
    ensures doc.Some? ==> |doc.value.Resources()| == |accounts|
    ensures doc.Some? ==> forall i :: 0 <= i < |accounts| ==>
                            doc.value.Resources()[i] == RoleArn(accounts[i], role)
  {
    var arns := RoleArns(accounts, role);
    if |arns| > 0 then
      Some(PolicyDoc(PolicyVersion, Statement("Allow", ["sts:AssumeRole"], arns), [ReadOnlyStatement]))
    else
      None
  }

  /** Distinct accounts give a duplicate-free resource list, and an
      account's ARN is in the list exactly when the account is. */
  lemma {:induction false} PolicyResourcesMatchAccounts(role: RoleName, accounts: seq<AccountId>)
    requires accounts != []
    ensures NoDup(accounts) <==> NoDup(CreatePolicyDoc(role, accounts).value.Resources())
    ensures forall a :: a in accounts <==> RoleArn(a, role) in CreatePolicyDoc(role, accounts).value.Resources()
  {
    var rs := CreatePolicyDoc(role, accounts).value.Resources();
    forall i, j | 0 <= i < j < |accounts| && rs[i] == rs[j]
      ensures accounts[i] == accounts[j]
    {
      RoleArnInjective(accounts[i], accounts[j], role);
    }
    forall a | RoleArn(a, role) in rs
      ensures a in accounts
    {
      var i :| 0 <= i < |rs| && rs[i] == RoleArn(a, role);
      RoleArnInjective(a, accounts[i], role);
    }
  }

  /** The policy a first ADD creates holds the same resource list that an
      ADD onto an empty list would produce. */
  lemma SingleAccountPolicy(role: RoleName, account: AccountId)
    ensures CreatePolicyDoc(role, [account]).Some?
    ensures CreatePolicyDoc(role, [account]).value.Resources() == Insert([], RoleArn(account, role))
  {
  }
}
