/** Facts about sequences without repetition that several components share. */
module Sequences {

  /** No repetition: every element counts once. */
  ghost predicate Distinct<T>(s: seq<T>) {
    multiset(s) == multiset(Elems(s))
  }

  function Elems<T>(s: seq<T>): set<T> {
    set x | x in s
  }

  lemma {:induction false} DistinctCard<T>(s: seq<T>)
    requires Distinct(s)
    ensures |Elems(s)| == |s|
  {
    assert |multiset(s)| == |s|;
  }

  lemma {:induction false} Cancel<T>(a: multiset<T>, x: T, b: multiset<T>)
    requires a + multiset{x} == multiset{x} + b
    ensures a == b
  {
    assert a + multiset{x} - multiset{x} == a;
    assert multiset{x} + b - multiset{x} == b;
  }

  lemma {:induction false} DistinctFront<T>(front: seq<T>, last: T)
    requires Distinct(front + [last])
    ensures Distinct(front) && last !in front
  {
    var s := front + [last];
    forall x ensures multiset(front)[x] == multiset(Elems(front))[x] {
      assert multiset(s)[x] == multiset(front)[x] + multiset{last}[x];
      assert multiset(Elems(s))[x] <= 1;
    }
    assert multiset(s)[last] == multiset(front)[last] + 1;
  }

  lemma {:induction false} OneLess<T>(order: seq<T>, i: nat)
    requires Distinct(order) && i < |order|
    ensures order[i] in Elems(order[i..]) && order[i] !in order[..i]
    ensures Elems(order[i + 1..]) == Elems(order[i..]) - {order[i]}
  {
    var tail := order[i + 1..];
    assert order[i..] == [order[i]] + tail;
    assert order == order[..i] + ([order[i]] + tail);
    assert multiset(order)[order[i]] == multiset(order[..i])[order[i]] + 1 + multiset(tail)[order[i]];
    assert order[i] !in multiset(tail) && order[i] !in multiset(order[..i]);
  }

  lemma {:induction false} SomeOf<T>(s: set<T>) returns (x: T)
    requires s != {}
    ensures x in s
  {
    x :| x in s;
  }
}
