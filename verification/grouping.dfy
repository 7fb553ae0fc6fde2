/** Grouping as the inventory tool does it with `defaultdict(list)`: every
    element is appended to the list under its key, and the groups come out in
    the order their keys were first seen. */
module Grouping {

  datatype Group<K, T> = Group(key: K, members: seq<T>)

  /** The elements of `xs` whose key is `k`, in their order in `xs`. */
  function Select<K(==), T(==,!new)>(xs: seq<T>, key: T -> K, k: K): (r: seq<T>)
    ensures |r| <= |xs|
    ensures forall x :: x in r <==> x in xs && key(x) == k
  {
    if |xs| == 0 then []
    else
      var front := xs[..|xs| - 1];
      var x := xs[|xs| - 1];
      assert xs == front + [x];
      Select(front, key, k) + (if key(x) == k then [x] else [])
  }

  /** No element has key `k`: nothing is selected. */
  lemma SelectNone<K, T(!new)>(xs: seq<T>, key: T -> K, k: K)
    requires forall y :: y in xs ==> key(y) != k
    ensures Select(xs, key, k) == []
  {
  }

  predicate HasKey<K(==), T>(gs: seq<Group<K, T>>, k: K)
  {
    exists i :: 0 <= i < |gs| && gs[i].key == k
  }

  /** A dict never holds the same key twice. */
  ghost predicate DistinctKeys<K, T>(gs: seq<Group<K, T>>)
  {
    forall i, j :: 0 <= i < j < |gs| ==> gs[i].key != gs[j].key
  }

  /** No group has an empty list. */
  ghost predicate NonEmptyGroups<K, T>(gs: seq<Group<K, T>>)
  {
    forall i :: 0 <= i < |gs| ==> |gs[i].members| > 0
  }

  /** Number of elements over all groups. */
  function TotalMembers<K, T>(gs: seq<Group<K, T>>): nat
  {
    if |gs| == 0 then 0 else |gs[0].members| + TotalMembers(gs[1..])
  }

  /** Appending `x` under `k`: `x` goes to the end of the group of `k`, which
      is created at the end of the groups when `k` is new; no other group changes. */
  function Place<K(==), T>(gs: seq<Group<K, T>>, k: K, x: T): (r: seq<Group<K, T>>)
    requires DistinctKeys(gs)
    ensures HasKey(gs, k) ==> |r| == |gs| && forall i :: 0 <= i < |gs| ==>
      r[i].key == gs[i].key && r[i].members == gs[i].members + (if gs[i].key == k then [x] else [])
    ensures !HasKey(gs, k) ==> r == gs + [Group(k, [x])]
    ensures TotalMembers(r) == TotalMembers(gs) + 1
    ensures NonEmptyGroups(gs) ==> NonEmptyGroups(r)
  {
    if |gs| == 0 then [Group(k, [x])]
    else if gs[0].key == k then
      [Group(k, gs[0].members + [x])] + gs[1..]
    else
      assert HasKey(gs, k) ==> HasKey(gs[1..], k) by {
        if HasKey(gs, k) {
          var i :| 0 <= i < |gs| && gs[i].key == k;
          assert gs[1..][i - 1].key == k;
        }
      }
      assert !HasKey(gs, k) ==> !HasKey(gs[1..], k) by {
        if HasKey(gs[1..], k) {
          var i :| 0 <= i < |gs[1..]| && gs[1..][i].key == k;
          assert gs[i + 1].key == k;
        }
      }
      assert gs == [gs[0]] + gs[1..];
      [gs[0]] + Place(gs[1..], k, x)
  }

  /** After placing `x` under `k`, the keys are the old keys and `k`. */
  lemma PlaceKeys<K, T>(gs: seq<Group<K, T>>, k: K, x: T, k': K)
    requires DistinctKeys(gs)
    ensures HasKey(Place(gs, k, x), k') <==> HasKey(gs, k') || k' == k
  {
    var r := Place(gs, k, x);
    if HasKey(gs, k) {
      assert |r| == |gs|;
      assert forall i :: 0 <= i < |gs| ==> r[i].key == gs[i].key;
    } else {
      assert r == gs + [Group(k, [x])];
      assert r[|gs|].key == k;
      assert forall i :: 0 <= i < |gs| ==> r[i].key == gs[i].key;
    }
  }

  /** Every element of `xs`, in order, appended under its key, starting from
      no groups: the keys stay distinct and no element is dropped. */
  function GroupBy<K(==), T>(xs: seq<T>, key: T -> K): (gs: seq<Group<K, T>>)
    ensures DistinctKeys(gs)
    ensures NonEmptyGroups(gs)
    ensures TotalMembers(gs) == |xs|
  {
    if |xs| == 0 then []
    else Place(GroupBy(xs[..|xs| - 1], key), key(xs[|xs| - 1]), xs[|xs| - 1])
  }

  /** Each group of `GroupBy` is exactly the elements of `xs` with its key, in
      input order, and every element's key has a group. */
  lemma {:induction false} GroupByContents<K, T(!new)>(xs: seq<T>, key: T -> K)
    ensures var gs := GroupBy(xs, key);
      && (forall i :: 0 <= i < |gs| ==> gs[i].members == Select(xs, key, gs[i].key))
      && (forall x :: x in xs ==> HasKey(gs, key(x)))
  {
    if |xs| > 0 {
      var front := xs[..|xs| - 1];
      var x := xs[|xs| - 1];
      assert xs == front + [x];
      var before := GroupBy(front, key);
      GroupByContents(front, key);
      var gs := Place(before, key(x), x);
      assert gs == GroupBy(xs, key);
      forall y | y in xs ensures HasKey(gs, key(y)) {
        PlaceKeys(before, key(x), x, key(y));
      }
      if !HasKey(before, key(x)) {
        SelectNone(front, key, key(x));
      }
      forall i | 0 <= i < |gs| ensures gs[i].members == Select(xs, key, gs[i].key) {
        var k := gs[i].key;
        assert Select(xs, key, k) == Select(front, key, k) + (if key(x) == k then [x] else []);
        if i < |before| {
          assert k == before[i].key;
          assert gs[i].members == before[i].members + (if key(x) == k then [x] else []);
        } else {
          assert gs[i] == Group(key(x), [x]);
        }
      }
    }
  }

  /** `GroupBy` partitions `xs`: every element lies in the group of its key and
      in no other, every group member comes from `xs`, and no group is empty. */
  lemma GroupByPartitions<K, T(!new)>(xs: seq<T>, key: T -> K)
    ensures var gs := GroupBy(xs, key);
      && (forall x :: x in xs ==> HasKey(gs, key(x)))
      && (forall x, i :: x in xs && 0 <= i < |gs| ==> (x in gs[i].members <==> gs[i].key == key(x)))
      && (forall i, y :: 0 <= i < |gs| && y in gs[i].members ==> y in xs)
      && (forall i :: 0 <= i < |gs| ==> |gs[i].members| > 0)
  {
    var gs := GroupBy(xs, key);
    GroupByContents(xs, key);
  }

  /** All group members, group after group: what a caller iterating over the
      groups and then over each group's list sees. */
  function Members<K, T>(gs: seq<Group<K, T>>): (r: seq<T>)
    ensures |r| == TotalMembers(gs)
  {
    if |gs| == 0 then [] else gs[0].members + Members(gs[1..])
  }

  /** Appending `x` under any key adds exactly one `x` to the members. */
  lemma {:induction false} PlaceMembers<K, T>(gs: seq<Group<K, T>>, k: K, x: T)
    requires DistinctKeys(gs)
    ensures multiset(Members(Place(gs, k, x))) == multiset(Members(gs)) + multiset{x}
  {
    if |gs| > 0 {
      var rest := gs[1..];
      if gs[0].key == k {
        assert Place(gs, k, x) == [Group(k, gs[0].members + [x])] + rest;
        assert ([Group(k, gs[0].members + [x])] + rest)[1..] == rest;
      } else {
        assert gs == [gs[0]] + rest;
        assert Place(gs, k, x) == [gs[0]] + Place(rest, k, x);
        assert ([gs[0]] + Place(rest, k, x))[1..] == Place(rest, k, x);
        PlaceMembers(rest, k, x);
      }
    }
  }

  /** Grouping neither loses nor duplicates an element: the members of all
      groups are a permutation of the input. */
  lemma {:induction false} GroupByMembers<K, T>(xs: seq<T>, key: T -> K)
    ensures multiset(Members(GroupBy(xs, key))) == multiset(xs)
  {
    if |xs| > 0 {
      var front := xs[..|xs| - 1];
      var x := xs[|xs| - 1];
      assert xs == front + [x];
      GroupByMembers(front, key);
      PlaceMembers(GroupBy(front, key), key(x), x);
    }
  }
}
