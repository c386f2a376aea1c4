/**
 * The grouping primitives the commit page relies on: d3.groups (group
 * elements by a key, groups in first-seen key order, members in input
 * order) and d3.rollup with a length reducer (count elements per key).
 *
 * GroupsBy is written the way the library computes it, a single pass that
 * appends each element to the group of its key or opens a new group; it is
 * proved equal to a reference built from KeysInOrder (the distinct keys in
 * first-seen order) and Members (the elements having one key).
 */
module Grouping {
  datatype Group<K, T> = Group(key: K, members: seq<T>)

  function Init<T>(xs: seq<T>): seq<T>
    requires |xs| > 0
  {
    xs[..|xs| - 1]
  }

  function Last<T>(xs: seq<T>): T
    requires |xs| > 0
  {
    xs[|xs| - 1]
  }

  predicate Distinct<K(==)>(ks: seq<K>) {
    forall i, j :: 0 <= i < j < |ks| ==> ks[i] != ks[j]
  }

  /** The position of the first element whose key is k, or |xs| if there is none. */
  function FirstIndexOf<T, K(==)>(xs: seq<T>, key: T -> K, k: K): (i: nat)
    ensures i <= |xs|
    ensures i < |xs| ==> key(xs[i]) == k
    ensures forall j :: 0 <= j < i ==> key(xs[j]) != k
  {
    if xs == [] then 0
    else
      var i := FirstIndexOf(Init(xs), key, k);
      if i < |xs| - 1 then i
      else if key(Last(xs)) == k then |xs| - 1
      else |xs|
  }

  /** The elements of xs whose key is k, in input order. */
  function Members<T, K(==)>(xs: seq<T>, key: T -> K, k: K): (r: seq<T>)
    ensures |r| <= |xs|
    ensures forall x :: x in r ==> key(x) == k
  {
    if xs == [] then []
    else Members(Init(xs), key, k) + (if key(Last(xs)) == k then [Last(xs)] else [])
  }

  /** The distinct keys of xs, each where its first element stands. */
  function KeysInOrder<T, K(==)>(xs: seq<T>, key: T -> K): seq<K> {
    if xs == [] then []
    else
      var ks := KeysInOrder(Init(xs), key);
      if key(Last(xs)) in ks then ks else ks + [key(Last(xs))]
  }

  /** One step of the grouping pass: x joins the group of key k, or opens it at the end. */
  function AddTo<K(==), T>(gs: seq<Group<K, T>>, k: K, x: T): (r: seq<Group<K, T>>)
    ensures |gs| <= |r| <= |gs| + 1
    ensures forall i :: 0 <= i < |r| ==> r[i].key == k || (i < |gs| && r[i] == gs[i])
  {
    if gs == [] then [Group(k, [x])]
    else if gs[0].key == k then [Group(k, gs[0].members + [x])] + gs[1..]
    else [gs[0]] + AddTo(gs[1..], k, x)
  }

  /** d3.groups: the grouping pass over xs from left to right. */
  function GroupsBy<T, K(==)>(xs: seq<T>, key: T -> K): (gs: seq<Group<K, T>>)
    ensures |gs| <= |xs|
    ensures gs == [] <==> xs == []
  {
    if xs == [] then [] else AddTo(GroupsBy(Init(xs), key), key(Last(xs)), Last(xs))
  }

  /** The number of elements held by the groups together. */
  function TotalMembers<K, T>(gs: seq<Group<K, T>>): nat {
    if gs == [] then 0 else |gs[0].members| + TotalMembers(gs[1..])
  }

  /** The entries of d3.rollup with a length reducer: each key with its count, in first-seen order. */
  function Rollup<T, K(==)>(xs: seq<T>, key: T -> K): (r: seq<(K, nat)>)
    ensures |r| <= |xs|
    ensures r == [] <==> xs == []
    ensures forall i :: 0 <= i < |r| ==> r[i].1 > 0
  {
    var gs := GroupsBy(xs, key);
    GroupsNonEmpty(xs, key);
    assert forall i :: 0 <= i < |gs| ==> gs[i] in gs;
    seq(|gs|, i requires 0 <= i < |gs| => (gs[i].key, |gs[i].members|))
  }

  function SumCounts<K>(ps: seq<(K, nat)>): nat {
    if ps == [] then 0 else ps[0].1 + SumCounts(ps[1..])
  }

  /** The first occurrence of a key is found again after appending an element. */
  lemma FirstIndexOfSnoc<T, K>(xs: seq<T>, key: T -> K, k: K, x: T)
    ensures FirstIndexOf(xs + [x], key, k) ==
      if FirstIndexOf(xs, key, k) < |xs| then FirstIndexOf(xs, key, k)
      else if key(x) == k then |xs| else |xs| + 1
  {
  }

  /** Members is empty exactly for absent keys; otherwise it starts with the first element of that key. */
  lemma {:induction false} MembersFirst<T, K>(xs: seq<T>, key: T -> K, k: K)
    ensures Members(xs, key, k) == [] <==> FirstIndexOf(xs, key, k) == |xs|
    ensures FirstIndexOf(xs, key, k) < |xs| ==> Members(xs, key, k)[0] == xs[FirstIndexOf(xs, key, k)]
  {
    if xs != [] {
      MembersFirst(Init(xs), key, k);
      FirstIndexOfSnoc(Init(xs), key, k, Last(xs));
      assert Init(xs) + [Last(xs)] == xs;
    }
  }

  /**
   * The keys of xs come out once each, exactly the keys some element has,
   * and in the order of their first occurrence in xs.
   */
  lemma {:induction false} KeysInOrderSpec<T, K>(xs: seq<T>, key: T -> K)
    ensures Distinct(KeysInOrder(xs, key))
    ensures forall k :: k in KeysInOrder(xs, key) <==> FirstIndexOf(xs, key, k) < |xs|
    ensures forall i, j :: 0 <= i < j < |KeysInOrder(xs, key)| ==>
      FirstIndexOf(xs, key, KeysInOrder(xs, key)[i]) < FirstIndexOf(xs, key, KeysInOrder(xs, key)[j])
  {
    if xs != [] {
      var pre, x := Init(xs), Last(xs);
      assert pre + [x] == xs;
      KeysInOrderSpec(pre, key);
      forall k ensures FirstIndexOf(xs, key, k) == (if FirstIndexOf(pre, key, k) < |pre| then FirstIndexOf(pre, key, k)
        else if key(x) == k then |pre| else |pre| + 1) {
        FirstIndexOfSnoc(pre, key, k, x);
      }
      var ks, ks' := KeysInOrder(pre, key), KeysInOrder(xs, key);
      forall i, j | 0 <= i < j < |ks'|
        ensures FirstIndexOf(xs, key, ks'[i]) < FirstIndexOf(xs, key, ks'[j])
      {
        assert ks' == if key(x) in ks then ks else ks + [key(x)];
        assert ks'[i] == ks[i] && FirstIndexOf(pre, key, ks[i]) < |pre|;
        FirstIndexOfSnoc(pre, key, ks[i], x);
        if j < |ks| {
          assert ks'[j] == ks[j] && FirstIndexOf(pre, key, ks[j]) < |pre|;
          FirstIndexOfSnoc(pre, key, ks[j], x);
          assert FirstIndexOf(pre, key, ks[i]) < FirstIndexOf(pre, key, ks[j]);
          assert FirstIndexOf(xs, key, ks[j]) == FirstIndexOf(pre, key, ks[j]);
        } else {
          assert ks'[j] == key(x) && key(x) !in ks;
          FirstIndexOfSnoc(pre, key, key(x), x);
          assert FirstIndexOf(xs, key, ks'[j]) == |pre|;
        }
        assert FirstIndexOf(xs, key, ks[i]) == FirstIndexOf(pre, key, ks[i]);
      }
    }
  }

  /**
   * With distinct keys ks (those of gs, in order), one step of the pass
   * extends the group of k, or appends a new group for k, and nothing else.
   */
  lemma {:induction false} AddToSpec<K, T>(gs: seq<Group<K, T>>, ks: seq<K>, k: K, x: T)
    requires |gs| == |ks| && Distinct(ks)
    requires forall i :: 0 <= i < |gs| ==> gs[i].key == ks[i]
    ensures |AddTo(gs, k, x)| == if k in ks then |gs| else |gs| + 1
    ensures forall i :: 0 <= i < |gs| ==>
      AddTo(gs, k, x)[i] == if gs[i].key == k then Group(k, gs[i].members + [x]) else gs[i]
    ensures k !in ks ==> AddTo(gs, k, x)[|gs|] == Group(k, [x])
  {
    if gs != [] {
      if gs[0].key != k {
        AddToSpec(gs[1..], ks[1..], k, x);
        assert k in ks <==> k in ks[1..];
      } else {
        assert ks[0] == k;
        forall i | 1 <= i < |gs| ensures gs[i].key != k {
          assert ks[0] != ks[i];
        }
      }
    }
  }

  /** No key is listed twice. */
  lemma {:induction false} KeysInOrderDistinct<T, K>(xs: seq<T>, key: T -> K)
    ensures Distinct(KeysInOrder(xs, key))
  {
    if xs != [] {
      KeysInOrderDistinct(Init(xs), key);
    }
  }

  /** A key that no element has has no members. */
  lemma {:induction false} MembersOfAbsentKey<T, K>(xs: seq<T>, key: T -> K, k: K)
    requires k !in KeysInOrder(xs, key)
    ensures Members(xs, key, k) == []
  {
    if xs != [] {
      MembersOfAbsentKey(Init(xs), key, k);
    }
  }

  /** The effect of one step of the pass on the reference description. */
  lemma GroupsByStep<T, K>(gs: seq<Group<K, T>>, ks: seq<K>, pre: seq<T>, key: T -> K, x: T)
    requires |gs| == |ks| && Distinct(ks)
    requires forall i :: 0 <= i < |gs| ==> gs[i] == Group(ks[i], Members(pre, key, ks[i]))
    requires key(x) !in ks ==> Members(pre, key, key(x)) == []
    ensures var r, ks' := AddTo(gs, key(x), x), if key(x) in ks then ks else ks + [key(x)];
      |r| == |ks'| &&
      forall i :: 0 <= i < |r| ==>
        r[i] == Group(ks'[i], Members(pre, key, ks'[i]) + if key(x) == ks'[i] then [x] else [])
  {
    var r, ks' := AddTo(gs, key(x), x), if key(x) in ks then ks else ks + [key(x)];
    AddToSpec(gs, ks, key(x), x);
    forall i | 0 <= i < |r|
      ensures r[i] == Group(ks'[i], Members(pre, key, ks'[i]) + if key(x) == ks'[i] then [x] else [])
    {
      if i < |gs| {
        assert ks'[i] == ks[i];
      } else {
        assert ks'[i] == key(x);
      }
    }
  }

  /**
   * d3.groups yields one group per distinct key, in first-seen order, and
   * each group holds exactly the elements having its key, in input order.
   */
  lemma {:induction false} GroupsBySpec<T, K>(xs: seq<T>, key: T -> K)
    ensures |GroupsBy(xs, key)| == |KeysInOrder(xs, key)|
    ensures forall i :: 0 <= i < |GroupsBy(xs, key)| ==>
      GroupsBy(xs, key)[i] == Group(KeysInOrder(xs, key)[i], Members(xs, key, KeysInOrder(xs, key)[i]))
  {
    if xs != [] {
      var pre, x := Init(xs), Last(xs);
      GroupsBySpec(pre, key);
      KeysInOrderDistinct(pre, key);
      if key(x) !in KeysInOrder(pre, key) {
        MembersOfAbsentKey(pre, key, key(x));
      }
      GroupsByStep(GroupsBy(pre, key), KeysInOrder(pre, key), pre, key, x);
    }
  }

  /** Each step of the pass places exactly one more element. */
  lemma {:induction false} AddToTotal<K, T>(gs: seq<Group<K, T>>, k: K, x: T)
    ensures TotalMembers(AddTo(gs, k, x)) == TotalMembers(gs) + 1
  {
    if gs != [] {
      if gs[0].key == k {
        assert AddTo(gs, k, x)[1..] == gs[1..];
      } else {
        AddToTotal(gs[1..], k, x);
        assert AddTo(gs, k, x)[1..] == AddTo(gs[1..], k, x);
      }
    }
  }

  /** Grouping neither loses nor duplicates elements: the group sizes add up to |xs|. */
  lemma {:induction false} GroupsByTotal<T, K>(xs: seq<T>, key: T -> K)
    ensures TotalMembers(GroupsBy(xs, key)) == |xs|
  {
    if xs != [] {
      GroupsByTotal(Init(xs), key);
      AddToTotal(GroupsBy(Init(xs), key), key(Last(xs)), Last(xs));
    }
  }

  /** No group of d3.groups is empty. */
  lemma GroupsNonEmpty<T, K>(xs: seq<T>, key: T -> K)
    ensures forall g :: g in GroupsBy(xs, key) ==> |g.members| > 0
  {
    var gs := GroupsBy(xs, key);
    GroupsBySpec(xs, key);
    KeysInOrderSpec(xs, key);
    forall i | 0 <= i < |gs| ensures |gs[i].members| > 0 {
      var k := KeysInOrder(xs, key)[i];
      assert k in KeysInOrder(xs, key);
      assert FirstIndexOf(xs, key, k) < |xs|;
      MembersFirst(xs, key, k);
      assert gs[i].members == Members(xs, key, k) != [];
    }
  }

  lemma {:induction false} SumCountsOfGroups<K, T>(gs: seq<Group<K, T>>, ps: seq<(K, nat)>)
    requires |ps| == |gs|
    requires forall i :: 0 <= i < |gs| ==> ps[i].1 == |gs[i].members|
    ensures SumCounts(ps) == TotalMembers(gs)
  {
    if gs != [] {
      SumCountsOfGroups(gs[1..], ps[1..]);
    }
  }

  /**
   * The rollup counts elements, not groups: entry i is the i-th distinct key
   * with the number of elements having it, every count is positive, and the
   * counts add up to |xs|.
   */
  lemma RollupSpec<T, K>(xs: seq<T>, key: T -> K)
    ensures |Rollup(xs, key)| == |KeysInOrder(xs, key)|
    ensures forall i :: 0 <= i < |Rollup(xs, key)| ==>
      Rollup(xs, key)[i] == (KeysInOrder(xs, key)[i], |Members(xs, key, KeysInOrder(xs, key)[i])|)
    ensures forall i :: 0 <= i < |Rollup(xs, key)| ==> Rollup(xs, key)[i].1 > 0
    ensures SumCounts(Rollup(xs, key)) == |xs|
  {
    var gs := GroupsBy(xs, key);
    GroupsBySpec(xs, key);
    GroupsNonEmpty(xs, key);
    GroupsByTotal(xs, key);
    SumCountsOfGroups(gs, Rollup(xs, key));
    forall i | 0 <= i < |gs| ensures |gs[i].members| > 0 {
      assert gs[i] in gs;
    }
  }
}
