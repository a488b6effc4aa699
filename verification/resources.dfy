/** The resource list of a home-account permission policy
    (`Statement[0].Resource`), stored as an array but edited with set
    semantics by the account lifecycle handler: ADD pushes an ARN only when
    `indexOf` does not find it, REMOVE splices out the element `indexOf`
    finds. */
module ResourceLists {
  import opened Types

  /** `Array.prototype.indexOf`: the first position of `x`, or -1. */
  function IndexOf<T(==)>(s: seq<T>, x: T): (i: int)
    ensures -1 <= i < |s|
    ensures i == -1 <==> x !in s
    ensures 0 <= i ==> s[i] == x && x !in s[..i]
  {
    if s == [] then -1
    else if s[0] == x then 0
    else
      var k := IndexOf(s[1..], x);
      if k == -1 then -1 else k + 1
  }

  /** Number of occurrences of `x` in `s`. */
  function Count<T(==)>(s: seq<T>, x: T): nat
  {
    multiset(s)[x]
  }

  /** The elements of `s` other than `x`, in their original order. */
  function Others(s: seq<string>, x: string): seq<string>
  {
    if s == [] then []
    else if s[0] == x then Others(s[1..], x)
    else [s[0]] + Others(s[1..], x)
  }

  lemma OthersAppend(a: seq<string>, b: seq<string>, x: string)
    ensures Others(a + b, x) == Others(a, x) + Others(b, x)
  {
    if a != [] {
      assert (a + b)[0] == a[0];
      assert (a + b)[1..] == a[1..] + b;
      OthersAppend(a[1..], b, x);
    } else {
      assert a + b == b;
    }
  }

  /** Facts about deleting position `i` from `rs`. */
  lemma DeleteAt(rs: seq<string>, i: int)
    requires 0 <= i < |rs|
    ensures multiset(rs) == multiset(rs[..i] + rs[i+1..]) + multiset{rs[i]}
    ensures Others(rs[..i] + rs[i+1..], rs[i]) == Others(rs, rs[i])
    ensures NoDup(rs) ==> rs[i] !in rs[..i] + rs[i+1..] && NoDup(rs[..i] + rs[i+1..])
  {
    DeleteAtMultiset(rs, i);
    DeleteAtOthers(rs, i);
    if NoDup(rs) {
      DeleteAtNoDup(rs, i);
    }
  }

  lemma DeleteAtMultiset(rs: seq<string>, i: int)
    requires 0 <= i < |rs|
    ensures multiset(rs) == multiset(rs[..i] + rs[i+1..]) + multiset{rs[i]}
  {
    assert rs == rs[..i] + ([rs[i]] + rs[i+1..]);
  }

  lemma DeleteAtOthers(rs: seq<string>, i: int)
    requires 0 <= i < |rs|
    ensures Others(rs[..i] + rs[i+1..], rs[i]) == Others(rs, rs[i])
  {
    var a, b, x := rs[..i], rs[i+1..], rs[i];
    assert rs == a + ([x] + b);
    OthersAppend(a, [x] + b, x);
    OthersAppend([x], b, x);
    OthersAppend(a, b, x);
    assert Others([x], x) == [];
  }

  lemma DeleteAtNoDup(rs: seq<string>, i: int)
    requires 0 <= i < |rs| && NoDup(rs)
    ensures rs[i] !in rs[..i] + rs[i+1..] && NoDup(rs[..i] + rs[i+1..])
  {
    var r := rs[..i] + rs[i+1..];
    assert forall k :: 0 <= k < |r| ==> r[k] == rs[if k < i then k else k + 1];
  }

  /** The ADD edit (event_handler.js, lines 169-172). */
  function Insert(rs: seq<string>, x: string): (r: seq<string>)
    ensures x in r
    ensures forall y :: y in r <==> y in rs || y == x
    ensures |rs| <= |r| <= |rs| + 1 && r[..|rs|] == rs
    ensures x in rs ==> r == rs
    ensures NoDup(rs) ==> NoDup(r)
  {
    if IndexOf(rs, x) < 0 then rs + [x] else rs
  }

  /** The REMOVE edit (event_handler.js, lines 178-182): `splice(index, 1)`
      of the first occurrence, no change when absent. */
  function Erase(rs: seq<string>, x: string): (r: seq<string>)
    ensures x !in rs ==> r == rs
    ensures x in rs ==> |r| == |rs| - 1 && Count(r, x) == Count(rs, x) - 1
    ensures forall y :: y != x ==> Count(r, y) == Count(rs, y)
    ensures Others(r, x) == Others(rs, x)
    ensures NoDup(rs) ==> x !in r && NoDup(r)
  {
    var i := IndexOf(rs, x);
    if i < 0 then rs
    else
      DeleteAt(rs, i);
      rs[..i] + rs[i+1..]
  }

  /** Adding the same ARN twice has the effect of adding it once. */
  lemma {:induction false} InsertIdempotent(rs: seq<string>, x: string)
    ensures Insert(Insert(rs, x), x) == Insert(rs, x)
  {
  }

  /** Set semantics: after any number of ADDs of `x` onto a duplicate-free
      list, `x` occurs exactly once. */
  lemma {:induction false} InsertOnce(rs: seq<string>, x: string)
    requires NoDup(rs)
    ensures Count(Insert(rs, x), x) == 1
    ensures Count(Insert(Insert(rs, x), x), x) == 1
  {
    var r := Insert(rs, x);
    var i := IndexOf(r, x);
    DeleteAt(r, i);
    InsertIdempotent(rs, x);
  }

  /** On a duplicate-free list a second erase of the same ARN changes
      nothing. */
  lemma {:induction false} EraseIdempotent(rs: seq<string>, x: string)
    requires NoDup(rs)
    ensures Erase(Erase(rs, x), x) == Erase(rs, x)
  {
  }

  /** Erasing undoes an insert of an ARN that was absent. */
  lemma {:induction false} EraseInsertRoundTrip(rs: seq<string>, x: string)
    requires x !in rs
    ensures Erase(Insert(rs, x), x) == rs
  {
    var r := rs + [x];
    assert r[..|rs|] == rs;
  }

  /** ADD applied once per ARN of `xs`, in order. */
  function InsertAll(rs: seq<string>, xs: seq<string>): (r: seq<string>)
    ensures forall y :: y in r <==> y in rs || y in xs
    ensures NoDup(rs) ==> NoDup(r)
    decreases |xs|
  {
    if xs == [] then rs else InsertAll(Insert(rs, xs[0]), xs[1..])
  }

  /** In a duplicate-free list every element occurs once. */
  lemma {:induction false} NoDupCount(a: seq<string>, y: string)
    requires NoDup(a)
    ensures Count(a, y) == if y in a then 1 else 0
  {
    if a != [] {
      assert a == [a[0]] + a[1..];
      assert NoDup(a[1..]);
      NoDupCount(a[1..], y);
      if y == a[0] {
        assert y !in a[1..];
      }
    }
  }

  /** Two duplicate-free lists with the same elements are permutations of
      each other. */
  lemma SameElementsSameMultiset(a: seq<string>, b: seq<string>)
    requires NoDup(a) && NoDup(b)
    requires forall y :: y in a <==> y in b
    ensures multiset(a) == multiset(b)
  {
    forall y
      ensures multiset(a)[y] == multiset(b)[y]
    {
      NoDupCount(a, y);
      NoDupCount(b, y);
    }
  }

  /** Convergence: ADD events for the same accounts delivered in any order
      (and any number of times) leave resource lists that are permutations
      of each other, each ARN present exactly once. */
  lemma {:induction false} InsertOrderIrrelevant(rs: seq<string>, xs: seq<string>, ys: seq<string>)
    requires NoDup(rs)
    requires forall y :: y in xs <==> y in ys
    ensures NoDup(InsertAll(rs, xs)) && NoDup(InsertAll(rs, ys))
    ensures multiset(InsertAll(rs, xs)) == multiset(InsertAll(rs, ys))
  {
    SameElementsSameMultiset(InsertAll(rs, xs), InsertAll(rs, ys));
  }
}
