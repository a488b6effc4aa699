/** Vocabulary shared by every part of the cross-account manager model:
    identifiers, the status values written to the registries, the two
    lifecycle actions, and a small Option type. */
module Types {

  /** An account identifier as stored in the registries (the source writes
      `account.toString()`, so it is always a string). */
  type AccountId = string

  /** The name of a role, e.g. `CrossAccountManager-finance`. */
  type RoleName = string

  datatype Option<+T> = None | Some(value: T)

  /** The `Status` attribute of a registry row. Accounts use Pending, Active
      and Deleted; roles use Active and Deleted; bindings use all four. */
  datatype Status = Pending | Active | Deleting | Deleted

  /** A message or file action after upper-casing. Anything other than
      `ADD` or `REMOVE` is kept as Unknown: the handlers treat it like a
      non-ADD action wherever the source tests only `action == 'ADD'`. */
  datatype Action = Add | Remove | Unknown

  /** ASCII upper-casing of one character, the part of `toUpperCase` that
      matters for the keywords `ADD` and `REMOVE`. */
  function UpperChar(c: char): (u: char)
    ensures 'a' <= c <= 'z' ==> 'A' <= u <= 'Z' && u as int - c as int == 'A' as int - 'a' as int
    ensures !('a' <= c <= 'z') ==> u == c
  {
    if 'a' <= c <= 'z' then (c as int - 'a' as int + 'A' as int) as char else c
  }

  function ToUpper(s: string): (u: string)
    ensures |u| == |s|
    ensures forall i :: 0 <= i < |s| ==> u[i] == UpperChar(s[i])
  {
    if s == [] then [] else [UpperChar(s[0])] + ToUpper(s[1..])
  }

  /** `action.toUpperCase()` compared with 'ADD' and 'REMOVE'. */
  function ParseAction(s: string): (a: Action)
    ensures a == Add <==> ToUpper(s) == "ADD"
    ensures a == Remove <==> ToUpper(s) == "REMOVE"
  {
    var u := ToUpper(s);
    if u == "ADD" then Add else if u == "REMOVE" then Remove else Unknown
  }

  /** Upper-casing twice is upper-casing once. */
  lemma {:induction false} ToUpperIdempotent(s: string)
    ensures ToUpper(ToUpper(s)) == ToUpper(s)
  {
    var u := ToUpper(s);
    forall i | 0 <= i < |u|
      ensures ToUpper(u)[i] == u[i]
    {
      assert u[i] == UpperChar(s[i]);
    }
  }

  /** An action published after upper-casing (the lifecycle and role file
      handlers forward `action.toUpperCase()` on the role topic) is read
      back as the same action by a receiver that upper-cases it again. */
  lemma ParseActionIgnoresCase(s: string)
    ensures ParseAction(ToUpper(s)) == ParseAction(s)
  {
    ToUpperIdempotent(s);
  }

  /** No element occurs twice. */
  predicate NoDup<T(==)>(s: seq<T>)
  {
    forall i, j :: 0 <= i < j < |s| ==> s[i] != s[j]
  }

  lemma ParseKnownSpellings()
    ensures ParseAction("ADD") == Add && ParseAction("add") == Add && ParseAction("Add") == Add
    ensures ParseAction("REMOVE") == Remove && ParseAction("remove") == Remove
    ensures ParseAction("DELETE") == Unknown && ParseAction("") == Unknown
  {
    assert ToUpper("add") == "ADD";
    assert ToUpper("Add") == "ADD";
    assert ToUpper("remove") == "REMOVE";
    assert ToUpper("DELETE") != "ADD" && ToUpper("DELETE") != "REMOVE";
  }
}
