/** Order-preserving grouping and searching of sequences.

    The review code groups comments with a `groupBy` helper and walks the
    groups with `for ... in`. `GroupBy` lists the groups in the order in
    which each key first appears, and keeps each group's members in input
    order; `KeyOrder` reorders integer-keyed groups the way `for ... in`
    visits them. A two-level grouping (first by one key, then, inside each group,
    by a second key) is what the nested loops of the review code build. */
module Grouping {
  import opened Wrappers

  datatype Group<K, T> = Group(key: K, members: seq<T>)

  /** An element of a non-empty sequence is in its front or is its last. */
  lemma InFrontOrLast<T>(xs: seq<T>, x: T)
    requires xs != []
    ensures x in xs <==> x in xs[..|xs| - 1] || x == xs[|xs| - 1]
  {
    assert xs == xs[..|xs| - 1] + [xs[|xs| - 1]];
  }

  /** A non-empty sequence is its front followed by its last element. */
  lemma SplitLast<T>(xs: seq<T>)
    requires xs != []
    ensures xs == xs[..|xs| - 1] + [xs[|xs| - 1]]
  {
  }

  /** A prefix one longer is the shorter prefix followed by one element. */
  lemma PrefixSnoc<T>(xs: seq<T>, i: int)
    requires 0 <= i < |xs|
    ensures xs[..i + 1] == xs[..i] + [xs[i]]
  {
  }

  /** The elements of `xs` that satisfy `p`, in input order. */
  function Filter<T(!new)>(xs: seq<T>, p: T -> bool): (r: seq<T>)
    ensures |r| <= |xs|
    ensures forall x :: x in r <==> x in xs && p(x)
  {
    if xs == [] then []
    else
      assert xs == xs[..|xs| - 1] + [xs[|xs| - 1]];
      Filter(xs[..|xs| - 1], p) + (if p(xs[|xs| - 1]) then [xs[|xs| - 1]] else [])
  }

  /** A predicate every element satisfies filters nothing out. */
  lemma {:induction false} FilterKeepsAll<T(!new)>(xs: seq<T>, p: T -> bool)
    requires forall i :: 0 <= i < |xs| ==> p(xs[i])
    ensures Filter(xs, p) == xs
  {
    if xs != [] {
      var n := |xs| - 1;
      var init := xs[..n];
      FilterKeepsAll(init, p);
      assert Filter(xs, p) == Filter(init, p) + [xs[n]];
      SplitLast(xs);
    }
  }

  /** A predicate no element satisfies filters everything out. */
  lemma {:induction false} FilterKeepsNone<T(!new)>(xs: seq<T>, p: T -> bool)
    requires forall i :: 0 <= i < |xs| ==> !p(xs[i])
    ensures Filter(xs, p) == []
  {
    if xs != [] {
      var n := |xs| - 1;
      var init := xs[..n];
      FilterKeepsNone(init, p);
      assert Filter(xs, p) == Filter(init, p);
    }
  }

  /** Splitting a sequence by a predicate and by its negation loses nothing
      and duplicates nothing. */
  lemma {:induction false} FilterComplement<T(!new)>(xs: seq<T>, p: T -> bool, q: T -> bool)
    requires forall x :: q(x) == !p(x)
    ensures multiset(Filter(xs, p)) + multiset(Filter(xs, q)) == multiset(xs)
  {
    if xs != [] {
      var init, last := xs[..|xs| - 1], xs[|xs| - 1];
      FilterComplement(init, p, q);
      assert multiset(xs) == multiset(init) + multiset{last} by {
        SplitLast(xs);
      }
      assert multiset(Filter(xs, p)) == multiset(Filter(init, p)) + if p(last) then multiset{last} else multiset{} by {
        assert Filter(xs, p) == Filter(init, p) + (if p(last) then [last] else []);
      }
      assert multiset(Filter(xs, q)) == multiset(Filter(init, q)) + if q(last) then multiset{last} else multiset{} by {
        assert Filter(xs, q) == Filter(init, q) + (if q(last) then [last] else []);
      }
    }
  }

  /** The elements of `xs` whose key is `k`, in input order. */
  function Select<T(!new), K(==)>(xs: seq<T>, key: T -> K, k: K): (r: seq<T>)
    ensures |r| <= |xs|
    ensures forall x :: x in r <==> x in xs && key(x) == k
  {
    if xs == [] then []
    else
      assert xs == xs[..|xs| - 1] + [xs[|xs| - 1]];
      Select(xs[..|xs| - 1], key, k) + (if key(xs[|xs| - 1]) == k then [xs[|xs| - 1]] else [])
  }

  lemma SelectSnoc<T(!new), K>(xs: seq<T>, x: T, key: T -> K, k: K)
    ensures Select(xs + [x], key, k) == Select(xs, key, k) + (if key(x) == k then [x] else [])
  {
    assert (xs + [x])[..|xs|] == xs;
  }

  /** The first element of a sequence heads the selection by its own key. */
  lemma {:induction false} SelectHead<T(!new), K>(xs: seq<T>, key: T -> K)
    requires xs != []
    ensures Select(xs, key, key(xs[0])) != [] && Select(xs, key, key(xs[0]))[0] == xs[0]
  {
    var n := |xs| - 1;
    if n > 0 {
      SelectHead(xs[..n], key);
      assert xs[..n][0] == xs[0];
      assert xs == xs[..n] + [xs[n]];
      SelectSnoc(xs[..n], xs[n], key, key(xs[0]));
    }
  }

  /** The key that pairs two keys; the key of a two-level grouping. */
  function PairKey<T, K1, K2>(k1: T -> K1, k2: T -> K2): T -> (K1, K2)
  {
    x => (k1(x), k2(x))
  }

  /** Selecting by one key inside a selection by another is selecting by the
      pair of keys. */
  lemma {:induction false} SelectSelect<T(!new), K1, K2>(xs: seq<T>, k1: T -> K1, k2: T -> K2, a: K1, b: K2)
    ensures Select(Select(xs, k1, a), k2, b) == Select(xs, PairKey(k1, k2), (a, b))
  {
    if xs != [] {
      var init, last := xs[..|xs| - 1], xs[|xs| - 1];
      assert xs == init + [last];
      SelectSelect(init, k1, k2, a, b);
      SelectSnoc(init, last, k1, a);
      SelectSnoc(init, last, PairKey(k1, k2), (a, b));
      assert PairKey(k1, k2)(last) == (k1(last), k2(last));
      if k1(last) == a {
        assert Select(xs, k1, a) == Select(init, k1, a) + [last];
        SelectSnoc(Select(init, k1, a), last, k2, b);
        assert Select(Select(xs, k1, a), k2, b) == Select(Select(init, k1, a), k2, b) + (if k2(last) == b then [last] else []);
        assert Select(xs, PairKey(k1, k2), (a, b)) == Select(init, PairKey(k1, k2), (a, b)) + (if k2(last) == b then [last] else []);
      } else {
        assert Select(xs, k1, a) == Select(init, k1, a);
        assert Select(xs, PairKey(k1, k2), (a, b)) == Select(init, PairKey(k1, k2), (a, b));
      }
    }
  }

  function KeysOf<K, T>(gs: seq<Group<K, T>>): (ks: seq<K>)
    ensures |ks| == |gs|
  {
    seq(|gs|, i requires 0 <= i < |gs| => gs[i].key)
  }

  predicate DistinctKeys<K(==), T>(gs: seq<Group<K, T>>)
  {
    forall i, j :: 0 <= i < j < |gs| ==> gs[i].key != gs[j].key
  }

  /** All members of all groups, group after group. */
  function Flatten<K, T>(gs: seq<Group<K, T>>): seq<T>
  {
    if gs == [] then [] else gs[0].members + Flatten(gs[1..])
  }

  lemma {:induction false} FlattenAppend<K, T>(a: seq<Group<K, T>>, b: seq<Group<K, T>>)
    ensures Flatten(a + b) == Flatten(a) + Flatten(b)
  {
    if a != [] {
      assert (a + b)[0] == a[0] && (a + b)[1..] == a[1..] + b;
      FlattenAppend(a[1..], b);
      assert Flatten(a + b) == a[0].members + Flatten(a[1..] + b);
    } else {
      assert a + b == b;
    }
  }

  lemma {:induction false} FlattenMember<K, T>(gs: seq<Group<K, T>>, x: T)
    requires x in Flatten(gs)
    ensures exists i :: 0 <= i < |gs| && x in gs[i].members
  {
    if x in gs[0].members {
      assert x in gs[0].members;
    } else {
      FlattenMember(gs[1..], x);
      var i :| 0 <= i < |gs[1..]| && x in gs[1..][i].members;
      assert x in gs[i + 1].members;
    }
  }

  /** `gs` groups `xs` by `key`: one group per distinct key, each holding
      exactly the elements of that key in input order, and together holding
      every element exactly as often as `xs` does. */
  predicate Partitions<K(==), T(==,!new)>(gs: seq<Group<K, T>>, xs: seq<T>, key: T -> K)
  {
    && DistinctKeys(gs)
    && (forall i :: 0 <= i < |gs| ==> gs[i].members != [] && gs[i].members == Select(xs, key, gs[i].key))
    && multiset(Flatten(gs)) == multiset(xs)
  }

  /** Adds `x` to the group of its key, opening a new last group when the key
      has not been seen: one step of `groupBy`. */
  function AddTo<K(==), T>(gs: seq<Group<K, T>>, x: T, key: T -> K): seq<Group<K, T>>
  {
    if gs == [] then [Group(key(x), [x])]
    else if gs[0].key == key(x) then [Group(gs[0].key, gs[0].members + [x])] + gs[1..]
    else [gs[0]] + AddTo(gs[1..], x, key)
  }

  /** Groups `xs` by `key`, groups in first-appearance order of their key. */
  function GroupBy<K(==), T>(xs: seq<T>, key: T -> K): seq<Group<K, T>>
  {
    if xs == [] then [] else AddTo(GroupBy(xs[..|xs| - 1], key), xs[|xs| - 1], key)
  }

  /** The first group is the one of the first element, and opens with it. */
  lemma {:induction false} FirstGroupIsFirstKey<K, T>(xs: seq<T>, key: T -> K)
    requires xs != []
    ensures GroupBy(xs, key) != []
    ensures GroupBy(xs, key)[0].key == key(xs[0])
    ensures GroupBy(xs, key)[0].members != [] && GroupBy(xs, key)[0].members[0] == xs[0]
  {
    var init := xs[..|xs| - 1];
    if init != [] {
      FirstGroupIsFirstKey(init, key);
      assert init[0] == xs[0];
    }
  }

  lemma {:induction false} AddToAt<K, T>(gs: seq<Group<K, T>>, x: T, key: T -> K)
    requires DistinctKeys(gs)
    ensures |AddTo(gs, x, key)| == if key(x) in KeysOf(gs) then |gs| else |gs| + 1
    ensures forall i :: 0 <= i < |gs| ==>
      AddTo(gs, x, key)[i] == Group(gs[i].key, gs[i].members + if gs[i].key == key(x) then [x] else [])
    ensures key(x) !in KeysOf(gs) ==> AddTo(gs, x, key)[|gs|] == Group(key(x), [x])
  {
    if gs != [] && gs[0].key != key(x) {
      var rest := gs[1..];
      DistinctKeysTail(gs);
      AddToAt(rest, x, key);
      var r := AddTo(gs, x, key);
      assert r == [gs[0]] + AddTo(rest, x, key);
      assert key(x) in KeysOf(gs) <==> key(x) in KeysOf(rest) by {
        assert KeysOf(gs) == [gs[0].key] + KeysOf(rest);
      }
      forall i | 0 <= i < |gs| ensures r[i] == Group(gs[i].key, gs[i].members + if gs[i].key == key(x) then [x] else []) {
        if i > 0 {
          assert gs[i] == rest[i - 1];
        }
      }
    } else if gs != [] {
      AddToAtHead(gs, x, key);
    }
  }

  lemma DistinctKeysTail<K, T>(gs: seq<Group<K, T>>)
    requires gs != [] && DistinctKeys(gs)
    ensures DistinctKeys(gs[1..])
  {
    forall i, j | 0 <= i < j < |gs| - 1 ensures gs[1..][i].key != gs[1..][j].key {
      assert gs[1..][i] == gs[i + 1] && gs[1..][j] == gs[j + 1];
    }
  }

  /** When the first group has the key, it alone grows. */
  lemma AddToAtHead<K, T>(gs: seq<Group<K, T>>, x: T, key: T -> K)
    requires DistinctKeys(gs)
    requires gs != [] && gs[0].key == key(x)
    ensures key(x) in KeysOf(gs)
    ensures |AddTo(gs, x, key)| == |gs|
    ensures forall i :: 0 <= i < |gs| ==>
      AddTo(gs, x, key)[i] == Group(gs[i].key, gs[i].members + if gs[i].key == key(x) then [x] else [])
  {
    assert KeysOf(gs)[0] == key(x);
    forall i | 1 <= i < |gs| ensures gs[i].key != key(x) {
      assert gs[0].key != gs[i].key;
    }
  }

  lemma {:induction false} AddToFlatten<K, T>(gs: seq<Group<K, T>>, x: T, key: T -> K)
    ensures multiset(Flatten(AddTo(gs, x, key))) == multiset(Flatten(gs)) + multiset{x}
  {
    if gs != [] && gs[0].key != key(x) {
      AddToFlatten(gs[1..], x, key);
      assert ([gs[0]] + AddTo(gs[1..], x, key))[1..] == AddTo(gs[1..], x, key);
    } else if gs != [] {
      assert ([Group(gs[0].key, gs[0].members + [x])] + gs[1..])[1..] == gs[1..];
    }
  }

  /** Every element's key has a group. */
  lemma KeyCovered<K, T(!new)>(gs: seq<Group<K, T>>, xs: seq<T>, key: T -> K, y: T)
    requires Partitions(gs, xs, key)
    requires y in xs
    ensures key(y) in KeysOf(gs)
  {
    assert y in multiset(Flatten(gs));
    FlattenMember(gs, y);
    var i :| 0 <= i < |gs| && y in gs[i].members;
    assert KeysOf(gs)[i] == gs[i].key;
  }

  lemma AddToPartitions<K, T(!new)>(gs: seq<Group<K, T>>, xs: seq<T>, x: T, key: T -> K)
    requires Partitions(gs, xs, key)
    ensures Partitions(AddTo(gs, x, key), xs + [x], key)
  {
    AddToFlatten(gs, x, key);
    AddToMembers(gs, xs, x, key);
    AddToDistinct(gs, x, key);
  }

  lemma AddToMembers<K, T(!new)>(gs: seq<Group<K, T>>, xs: seq<T>, x: T, key: T -> K)
    requires Partitions(gs, xs, key)
    ensures forall i :: 0 <= i < |AddTo(gs, x, key)| ==>
      AddTo(gs, x, key)[i].members != [] && AddTo(gs, x, key)[i].members == Select(xs + [x], key, AddTo(gs, x, key)[i].key)
  {
    var r := AddTo(gs, x, key);
    AddToAt(gs, x, key);
    forall i | 0 <= i < |r|
      ensures r[i].members != [] && r[i].members == Select(xs + [x], key, r[i].key)
    {
      SelectSnoc(xs, x, key, r[i].key);
      if i == |gs| {
        assert Select(xs, key, key(x)) == [] by {
          if Select(xs, key, key(x)) != [] {
            KeyCovered(gs, xs, key, Select(xs, key, key(x))[0]);
          }
        }
      }
    }
  }

  lemma AddToDistinct<K, T>(gs: seq<Group<K, T>>, x: T, key: T -> K)
    requires DistinctKeys(gs)
    ensures DistinctKeys(AddTo(gs, x, key))
  {
    var r := AddTo(gs, x, key);
    AddToAt(gs, x, key);
    forall i, j | 0 <= i < j < |r| ensures r[i].key != r[j].key {
      if j == |gs| {
        assert KeysOf(gs)[i] == gs[i].key;
      }
    }
  }



  /** `GroupBy` partitions its input by key. */
  lemma {:induction false} GroupByPartitions<K, T(!new)>(xs: seq<T>, key: T -> K)
    ensures Partitions(GroupBy(xs, key), xs, key)
  {
    if xs != [] {
      var init, last := xs[..|xs| - 1], xs[|xs| - 1];
      assert init + [last] == xs;
      GroupByPartitions(init, key);
      AddToPartitions(GroupBy(init, key), init, last, key);
      assert GroupBy(xs, key) == AddTo(GroupBy(init, key), last, key);
    }
  }

  /** The groups `gs` of one first-level key `a`, re-keyed by the pair. */
  function Lift<K1, K2, T>(a: K1, gs: seq<Group<K2, T>>): (r: seq<Group<(K1, K2), T>>)
    ensures |r| == |gs|
  {
    seq(|gs|, i requires 0 <= i < |gs| => Group((a, gs[i].key), gs[i].members))
  }

  /** Groups the members of each first-level group by `k2`, in order. */
  function Nest<K1, K2(==), T>(outer: seq<Group<K1, T>>, k2: T -> K2): seq<Group<(K1, K2), T>>
  {
    if outer == [] then []
    else
      var n := |outer| - 1;
      Nest(outer[..n], k2) + Lift(outer[n].key, GroupBy(outer[n].members, k2))
  }

  /** Two-level grouping: by `k1`, then inside each group by `k2`. */
  function GroupBy2<K1(==), K2(==), T>(xs: seq<T>, k1: T -> K1, k2: T -> K2): seq<Group<(K1, K2), T>>
  {
    Nest(GroupBy(xs, k1), k2)
  }

  lemma {:induction false} GroupByFlatten<K, T>(xs: seq<T>, key: T -> K)
    ensures multiset(Flatten(GroupBy(xs, key))) == multiset(xs)
  {
    if xs != [] {
      var init, last := xs[..|xs| - 1], xs[|xs| - 1];
      assert init + [last] == xs;
      GroupByFlatten(init, key);
      AddToFlatten(GroupBy(init, key), last, key);
    }
  }

  lemma {:induction false} NestFlatten<K1, K2, T>(outer: seq<Group<K1, T>>, k2: T -> K2)
    ensures multiset(Flatten(Nest(outer, k2))) == multiset(Flatten(outer))
  {
    if outer != [] {
      var n := |outer| - 1;
      var init, last := outer[..n], outer[n];
      var inner := GroupBy(last.members, k2);
      var front, back := Nest(init, k2), Lift(last.key, inner);
      assert Flatten(Nest(outer, k2)) == Flatten(front) + Flatten(back) by {
        assert Nest(outer, k2) == front + back;
        FlattenAppend(front, back);
      }
      assert multiset(Flatten(front)) == multiset(Flatten(init)) by {
        NestFlatten(init, k2);
      }
      assert multiset(Flatten(back)) == multiset(last.members) by {
        LiftFlatten(last.key, inner);
        GroupByFlatten(last.members, k2);
      }
      FlattenSnoc(outer);
    }
  }

  /** The members of the groups, the last group's coming last. */
  lemma FlattenSnoc<K, T>(gs: seq<Group<K, T>>)
    requires gs != []
    ensures Flatten(gs) == Flatten(gs[..|gs| - 1]) + gs[|gs| - 1].members
  {
    var n := |gs| - 1;
    SplitLast(gs);
    FlattenAppend(gs[..n], [gs[n]]);
    assert Flatten([gs[n]]) == gs[n].members + Flatten([gs[n]][1..]);
  }

  lemma {:induction false} NestMembers<K1, K2, T(!new)>(outer: seq<Group<K1, T>>, xs: seq<T>, k1: T -> K1, k2: T -> K2)
    requires forall i :: 0 <= i < |outer| ==> outer[i].members == Select(xs, k1, outer[i].key)
    ensures forall i :: 0 <= i < |Nest(outer, k2)| ==>
      Nest(outer, k2)[i].members != [] &&
      Nest(outer, k2)[i].members == Select(xs, PairKey(k1, k2), Nest(outer, k2)[i].key)
  {
    if outer != [] {
      var n := |outer| - 1;
      var init, a := outer[..n], outer[n].key;
      var inner := GroupBy(outer[n].members, k2);
      NestMembers(init, xs, k1, k2);
      GroupByPartitions(outer[n].members, k2);
      var front, back := Nest(init, k2), Lift(a, inner);
      assert Nest(outer, k2) == front + back;
      forall i | 0 <= i < |back|
        ensures back[i].members != [] && back[i].members == Select(xs, PairKey(k1, k2), back[i].key)
      {
        SelectSelect(xs, k1, k2, a, inner[i].key);
      }
    }
  }

  lemma {:induction false} NestKeys<K1, K2, T>(outer: seq<Group<K1, T>>, k2: T -> K2)
    requires DistinctKeys(outer)
    ensures DistinctKeys(Nest(outer, k2))
    ensures forall g :: g in Nest(outer, k2) ==> g.key.0 in KeysOf(outer)
  {
    if outer != [] {
      var n := |outer| - 1;
      var init, a := outer[..n], outer[n].key;
      var inner := GroupBy(outer[n].members, k2);
      NestKeys(init, k2);
      var front, back := Nest(init, k2), Lift(a, inner);
      assert Nest(outer, k2) == front + back;
      forall g: Group<(K1, K2), T> | g in front + back ensures g.key.0 in KeysOf(outer) {
        if g in front {
          var k :| 0 <= k < |init| && KeysOf(init)[k] == g.key.0;
          assert KeysOf(outer)[k] == g.key.0;
        } else {
          assert KeysOf(outer)[n] == a;
        }
      }
      assert DistinctKeys(back) by {
        GroupByDistinct(outer[n].members, k2);
      }
      forall i, j | 0 <= i < j < |front + back| ensures (front + back)[i].key != (front + back)[j].key {
        if i < |front| && j >= |front| {
          assert front[i] in front;
          var k :| 0 <= k < |init| && KeysOf(init)[k] == front[i].key.0;
          assert outer[k].key != outer[n].key;
        }
      }
    }
  }

  lemma GroupByDistinct<K, T>(xs: seq<T>, key: T -> K)
    ensures DistinctKeys(GroupBy(xs, key))
  {
    if xs != [] {
      GroupByDistinct(xs[..|xs| - 1], key);
      AddToAt(GroupBy(xs[..|xs| - 1], key), xs[|xs| - 1], key);
      var gs := GroupBy(xs[..|xs| - 1], key);
      var r := GroupBy(xs, key);
      forall i, j | 0 <= i < j < |r| ensures r[i].key != r[j].key {
        if j == |gs| {
          assert KeysOf(gs)[i] == gs[i].key;
        }
      }
    }
  }

  lemma {:induction false} LiftFlatten<K1, K2, T>(a: K1, gs: seq<Group<K2, T>>)
    ensures Flatten(Lift(a, gs)) == Flatten(gs)
  {
    if gs != [] {
      assert Lift(a, gs)[1..] == Lift(a, gs[1..]);
      LiftFlatten(a, gs[1..]);
    }
  }

  /** `GroupBy2` partitions its input by the pair of keys. */
  lemma GroupBy2Partitions<K1, K2, T(!new)>(xs: seq<T>, k1: T -> K1, k2: T -> K2)
    ensures Partitions(GroupBy2(xs, k1, k2), xs, PairKey(k1, k2))
  {
    GroupByPartitions(xs, k1);
    NestKeys(GroupBy(xs, k1), k2);
    NestMembers(GroupBy(xs, k1), xs, k1, k2);
    NestFlatten(GroupBy(xs, k1), k2);
  }

  /** In a partition every element lies in exactly one group, the one of its
      key, and two elements share a group iff they share a key. */
  lemma PartitionMembership<K, T(!new)>(gs: seq<Group<K, T>>, xs: seq<T>, key: T -> K, x: T, y: T)
    requires Partitions(gs, xs, key)
    requires x in xs && y in xs
    ensures exists i :: 0 <= i < |gs| && x in gs[i].members
    ensures forall i, j :: 0 <= i < |gs| && 0 <= j < |gs| && x in gs[i].members && x in gs[j].members ==> i == j
    ensures forall i :: 0 <= i < |gs| ==> (x in gs[i].members <==> gs[i].key == key(x))
    ensures (exists i :: 0 <= i < |gs| && x in gs[i].members && y in gs[i].members) <==> key(x) == key(y)
  {
    KeyCovered(gs, xs, key, x);
    var i :| 0 <= i < |gs| && KeysOf(gs)[i] == key(x);
    assert x in gs[i].members;
    if key(x) == key(y) {
      assert y in gs[i].members;
    }
  }

  /** Applies `make` to each group and its first member, in order. */
  function MapGroups<K, T, R>(gs: seq<Group<K, T>>, make: (Group<K, T>, T) -> R): (r: seq<R>)
    requires forall i :: 0 <= i < |gs| ==> gs[i].members != []
    ensures |r| == |gs|
  {
    seq(|gs|, i requires 0 <= i < |gs| => make(gs[i], gs[i].members[0]))
  }

  lemma {:induction false} NestNonEmpty<K1, K2, T>(outer: seq<Group<K1, T>>, k2: T -> K2)
    ensures forall i :: 0 <= i < |Nest(outer, k2)| ==> Nest(outer, k2)[i].members != []
  {
    if outer != [] {
      var n := |outer| - 1;
      NestNonEmpty(outer[..n], k2);
      GroupByNonEmpty(outer[n].members, k2);
    }
  }

  lemma {:induction false} GroupByNonEmpty<K, T>(xs: seq<T>, key: T -> K)
    ensures forall i :: 0 <= i < |GroupBy(xs, key)| ==> GroupBy(xs, key)[i].members != []
  {
    if xs != [] {
      GroupByNonEmpty(xs[..|xs| - 1], key);
      GroupByDistinct(xs[..|xs| - 1], key);
      AddToAt(GroupBy(xs[..|xs| - 1], key), xs[|xs| - 1], key);
    }
  }

  /** The nested `for ... in` loops of the review code: walk the first-level
      groups, and inside each the second-level groups, pushing one result per
      inner group, built from the group and its first member. */
  method CollectNested<K1(==), K2(==), T, R>(xs: seq<T>, k1: T -> K1, k2: T -> K2, make: (Group<(K1, K2), T>, T) -> R)
    returns (ret: seq<R>)
    ensures forall i :: 0 <= i < |GroupBy2(xs, k1, k2)| ==> GroupBy2(xs, k1, k2)[i].members != []
    ensures ret == MapGroups(GroupBy2(xs, k1, k2), make)
  {
    var outer := GroupBy(xs, k1);
    NestNonEmpty(outer, k2);
    ret := [];
    for i := 0 to |outer|
      invariant forall m :: 0 <= m < |Nest(outer[..i], k2)| ==> Nest(outer[..i], k2)[m].members != []
      invariant ret == MapGroups(Nest(outer[..i], k2), make)
    {
      var inner := GroupBy(outer[i].members, k2);
      GroupByNonEmpty(outer[i].members, k2);
      ghost var before := ret;
      for j := 0 to |inner|
        invariant ret == before + MapGroups(Lift(outer[i].key, inner[..j]), make)
      {
        var g := Group((outer[i].key, inner[j].key), inner[j].members);
        ret := ret + [make(g, g.members[0])];
        LiftSnoc(outer[i].key, inner, j, make);
      }
      assert inner[..|inner|] == inner;
      PrefixSnoc(outer, i);
      NestStep(outer[..i], outer[i], k2, make, Lift(outer[i].key, inner));
    }
    assert outer[..|outer|] == outer;
  }

  /** One more outer group appends the outputs of its inner groups. */
  lemma NestStep<K1, K2, T, R>(front: seq<Group<K1, T>>, g: Group<K1, T>, k2: T -> K2,
                               make: (Group<(K1, K2), T>, T) -> R, lifted: seq<Group<(K1, K2), T>>)
    requires lifted == Lift(g.key, GroupBy(g.members, k2))
    requires forall m :: 0 <= m < |lifted| ==> lifted[m].members != []
    ensures forall m :: 0 <= m < |Nest(front, k2)| ==> Nest(front, k2)[m].members != []
    ensures forall m :: 0 <= m < |Nest(front + [g], k2)| ==> Nest(front + [g], k2)[m].members != []
    ensures MapGroups(Nest(front + [g], k2), make) == MapGroups(Nest(front, k2), make) + MapGroups(lifted, make)
  {
    assert (front + [g])[..|front|] == front;
    NestNonEmpty(front + [g], k2);
    NestNonEmpty(front, k2);
    MapGroupsAppend(Nest(front, k2), lifted, make);
  }


  /** One more inner group adds its single output at the end. */
  lemma LiftSnoc<K1, K2, T, R>(a: K1, inner: seq<Group<K2, T>>, j: int, make: (Group<(K1, K2), T>, T) -> R)
    requires 0 <= j < |inner|
    requires forall m :: 0 <= m < |inner| ==> inner[m].members != []
    ensures var g := Group((a, inner[j].key), inner[j].members);
      MapGroups(Lift(a, inner[..j + 1]), make) == MapGroups(Lift(a, inner[..j]), make) + [make(g, g.members[0])]
  {
  }

  lemma MapGroupsAppend<K, T, R>(gs: seq<Group<K, T>>, hs: seq<Group<K, T>>, make: (Group<K, T>, T) -> R)
    requires forall i :: 0 <= i < |gs| + |hs| ==> (gs + hs)[i].members != []
    ensures forall i :: 0 <= i < |gs| ==> gs[i].members != []
    ensures forall i :: 0 <= i < |hs| ==> hs[i].members != []
    ensures MapGroups(gs + hs, make) == MapGroups(gs, make) + MapGroups(hs, make)
  {
    forall i | 0 <= i < |gs| ensures gs[i].members != [] {
      assert (gs + hs)[i] == gs[i];
    }
    forall i | 0 <= i < |hs| ensures hs[i].members != [] {
      assert (gs + hs)[|gs| + i] == hs[i];
    }
  }


  // ---------------------------------------------------------------------
  // The visiting order of `for ... in`

  // A JavaScript object lists its array-index keys (here the non-negative
  // integers) in ascending order, then all other keys in the order they
  // were added.

  predicate IsIndexKey<T>(g: Group<int, T>) { g.key >= 0 }

  predicate IsNegativeKey<T>(g: Group<int, T>) { g.key < 0 }

  /** Groups whose keys never decrease. */
  predicate SortedByKey<T>(gs: seq<Group<int, T>>)
  {
    forall i, j :: 0 <= i < j < |gs| ==> gs[i].key <= gs[j].key
  }

  /** Puts `g` before the first group of `sorted` whose key is not smaller. */
  function InsertByKey<T>(g: Group<int, T>, sorted: seq<Group<int, T>>): seq<Group<int, T>>
  {
    if sorted == [] || g.key <= sorted[0].key then [g] + sorted
    else [sorted[0]] + InsertByKey(g, sorted[1..])
  }

  function SortByKey<T>(gs: seq<Group<int, T>>): seq<Group<int, T>>
  {
    if gs == [] then [] else InsertByKey(gs[0], SortByKey(gs[1..]))
  }

  /** The groups in the order `for ... in` visits their keys. */
  function KeyOrder<T(!new)>(gs: seq<Group<int, T>>): seq<Group<int, T>>
  {
    SortByKey(Filter(gs, IsIndexKey)) + Filter(gs, IsNegativeKey)
  }

  lemma {:induction false} InsertByKeyPermutes<T>(g: Group<int, T>, sorted: seq<Group<int, T>>)
    ensures multiset(InsertByKey(g, sorted)) == multiset(sorted) + multiset{g}
  {
    if sorted != [] && g.key > sorted[0].key {
      InsertByKeyPermutes(g, sorted[1..]);
      assert sorted == [sorted[0]] + sorted[1..];
    }
  }

  lemma InsertByKeyMember<T>(g: Group<int, T>, sorted: seq<Group<int, T>>, x: Group<int, T>)
    ensures x in InsertByKey(g, sorted) <==> x == g || x in sorted
  {
    InsertByKeyPermutes(g, sorted);
    assert x in InsertByKey(g, sorted) <==> x in multiset(InsertByKey(g, sorted));
  }

  lemma {:induction false} SortByKeyPermutes<T>(gs: seq<Group<int, T>>)
    ensures multiset(SortByKey(gs)) == multiset(gs)
  {
    if gs != [] {
      SortByKeyPermutes(gs[1..]);
      InsertByKeyPermutes(gs[0], SortByKey(gs[1..]));
      assert gs == [gs[0]] + gs[1..];
    }
  }

  lemma SortByKeyMember<T>(gs: seq<Group<int, T>>, x: Group<int, T>)
    ensures x in SortByKey(gs) <==> x in gs
  {
    SortByKeyPermutes(gs);
    assert x in SortByKey(gs) <==> x in multiset(SortByKey(gs));
  }

  lemma {:induction false} InsertByKeySorted<T>(g: Group<int, T>, sorted: seq<Group<int, T>>)
    requires SortedByKey(sorted)
    ensures SortedByKey(InsertByKey(g, sorted))
  {
    if sorted != [] && g.key > sorted[0].key {
      var rest := sorted[1..];
      InsertByKeySorted(g, rest);
      forall x | x in InsertByKey(g, rest) ensures sorted[0].key <= x.key {
        InsertByKeyMember(g, rest, x);
        if x != g {
          var k :| 0 <= k < |rest| && rest[k] == x;
          assert x == sorted[k + 1];
        }
      }
    }
  }

  lemma {:induction false} SortByKeySorted<T>(gs: seq<Group<int, T>>)
    ensures SortedByKey(SortByKey(gs))
  {
    if gs != [] {
      SortByKeySorted(gs[1..]);
      InsertByKeySorted(gs[0], SortByKey(gs[1..]));
    }
  }

  lemma {:induction false} InsertByKeyDistinct<T>(g: Group<int, T>, sorted: seq<Group<int, T>>)
    requires DistinctKeys(sorted)
    requires forall x :: x in sorted ==> x.key != g.key
    ensures DistinctKeys(InsertByKey(g, sorted))
  {
    if sorted != [] && g.key > sorted[0].key {
      var rest := sorted[1..];
      InsertByKeyDistinct(g, rest);
      forall x | x in InsertByKey(g, rest) ensures sorted[0].key != x.key {
        InsertByKeyMember(g, rest, x);
        if x != g {
          var k :| 0 <= k < |rest| && rest[k] == x;
          assert x == sorted[k + 1];
        }
      }
    }
  }

  lemma {:induction false} SortByKeyDistinct<T>(gs: seq<Group<int, T>>)
    requires DistinctKeys(gs)
    ensures DistinctKeys(SortByKey(gs))
  {
    if gs != [] {
      var rest := gs[1..];
      assert DistinctKeys(rest) by {
        forall i, j | 0 <= i < j < |rest| ensures rest[i].key != rest[j].key {
          assert rest[i] == gs[i + 1] && rest[j] == gs[j + 1];
        }
      }
      SortByKeyDistinct(rest);
      forall x | x in SortByKey(rest) ensures x.key != gs[0].key {
        SortByKeyMember(rest, x);
        var k :| 0 <= k < |rest| && rest[k] == x;
        assert x == gs[k + 1];
      }
      InsertByKeyDistinct(gs[0], SortByKey(rest));
    }
  }

  lemma {:induction false} FilterDistinct<T(!new)>(gs: seq<Group<int, T>>, p: Group<int, T> -> bool)
    requires DistinctKeys(gs)
    ensures DistinctKeys(Filter(gs, p))
  {
    if gs != [] {
      var n := |gs| - 1;
      var init := gs[..n];
      assert DistinctKeys(init) by {
        forall i, j | 0 <= i < j < |init| ensures init[i].key != init[j].key {
          assert init[i] == gs[i] && init[j] == gs[j];
        }
      }
      FilterDistinct(init, p);
      var f := Filter(init, p);
      assert Filter(gs, p) == f + (if p(gs[n]) then [gs[n]] else []);
      forall i | 0 <= i < |f| ensures f[i].key != gs[n].key {
        KeyDiffersFromLast(gs, f[i]);
      }
    }
  }

  lemma KeyDiffersFromLast<T>(gs: seq<Group<int, T>>, x: Group<int, T>)
    requires DistinctKeys(gs) && gs != [] && x in gs[..|gs| - 1]
    ensures x.key != gs[|gs| - 1].key
  {
    var k :| 0 <= k < |gs| - 1 && gs[..|gs| - 1][k] == x;
    assert gs[k] == x;
  }

  lemma IndexNegativeComplement<T>()
    ensures forall g: Group<int, T> :: IsNegativeKey(g) == !IsIndexKey(g)
  {
  }

  /** `KeyOrder` only reorders the groups. */
  lemma KeyOrderPermutes<T(!new)>(gs: seq<Group<int, T>>)
    ensures multiset(KeyOrder(gs)) == multiset(gs)
    ensures |KeyOrder(gs)| == |gs|
  {
    var indexed, negatives := Filter(gs, IsIndexKey), Filter(gs, IsNegativeKey);
    SortByKeyPermutes(indexed);
    IndexNegativeComplement<T>();
    FilterComplement(gs, IsIndexKey, IsNegativeKey);
    calc {
      multiset(KeyOrder(gs));
      multiset(SortByKey(indexed)) + multiset(negatives);
      multiset(indexed) + multiset(negatives);
      multiset(gs);
    }
    assert |KeyOrder(gs)| == |multiset(KeyOrder(gs))|;
  }

  /** `KeyOrder` keeps keys distinct. */
  lemma KeyOrderDistinct<T(!new)>(gs: seq<Group<int, T>>)
    requires DistinctKeys(gs)
    ensures DistinctKeys(KeyOrder(gs))
  {
    var indexed, negatives := Filter(gs, IsIndexKey), Filter(gs, IsNegativeKey);
    var sorted := SortByKey(indexed);
    FilterDistinct(gs, IsIndexKey);
    FilterDistinct(gs, IsNegativeKey);
    SortByKeyDistinct(indexed);
    var r := KeyOrder(gs);
    assert r == sorted + negatives;
    forall i, j | 0 <= i < j < |r| ensures r[i].key != r[j].key {
      if i < |sorted| <= j {
        SortByKeyMember(indexed, sorted[i]);
        assert r[i] == sorted[i] && r[j] == negatives[j - |sorted|];
        assert negatives[j - |sorted|] in negatives;
      } else if j < |sorted| {
        assert r[i] == sorted[i] && r[j] == sorted[j];
      } else {
        assert r[i] == negatives[i - |sorted|] && r[j] == negatives[j - |sorted|];
      }
    }
  }

  /** Each group after `KeyOrder` still holds exactly the elements of its key. */
  lemma KeyOrderMembers<T(!new)>(gs: seq<Group<int, T>>, xs: seq<T>, key: T -> int)
    requires Partitions(gs, xs, key)
    ensures forall i :: 0 <= i < |KeyOrder(gs)| ==>
      KeyOrder(gs)[i].members != [] && KeyOrder(gs)[i].members == Select(xs, key, KeyOrder(gs)[i].key)
  {
    KeyOrderPermutes(gs);
    forall i | 0 <= i < |KeyOrder(gs)|
      ensures KeyOrder(gs)[i].members != [] && KeyOrder(gs)[i].members == Select(xs, key, KeyOrder(gs)[i].key)
    {
      assert KeyOrder(gs)[i] in multiset(gs);
    }
  }

  /** Every element's key still names a group after `KeyOrder`. */
  lemma KeyOrderCovers<T(!new)>(gs: seq<Group<int, T>>, xs: seq<T>, key: T -> int, y: T)
    requires Partitions(gs, xs, key) && y in xs
    ensures exists i :: 0 <= i < |KeyOrder(gs)| && KeyOrder(gs)[i].key == key(y)
  {
    KeyCovered(gs, xs, key, y);
    var k :| 0 <= k < |gs| && KeysOf(gs)[k] == key(y);
    KeyOrderPermutes(gs);
    assert gs[k] in multiset(KeyOrder(gs));
    var i :| 0 <= i < |KeyOrder(gs)| && KeyOrder(gs)[i] == gs[k];
  }

  /** In `KeyOrder`, a non-negative key is preceded only by non-negative,
      smaller or equal keys. */
  lemma KeyOrderAscending<T(!new)>(gs: seq<Group<int, T>>)
    ensures forall i, j :: 0 <= i < j < |KeyOrder(gs)| && KeyOrder(gs)[j].key >= 0 ==>
      KeyOrder(gs)[i].key >= 0 && KeyOrder(gs)[i].key <= KeyOrder(gs)[j].key
  {
    var indexed, negatives := Filter(gs, IsIndexKey), Filter(gs, IsNegativeKey);
    var sorted := SortByKey(indexed);
    SortByKeySorted(indexed);
    var r := KeyOrder(gs);
    assert r == sorted + negatives;
    assert forall k :: 0 <= k < |negatives| ==> negatives[k] in negatives;
    forall i, j | 0 <= i < j < |r| && r[j].key >= 0 ensures r[i].key >= 0 && r[i].key <= r[j].key {
      if j < |sorted| {
        assert r[i] == sorted[i] && r[j] == sorted[j];
        SortByKeyMember(indexed, sorted[i]);
      }
    }
  }

  /** With no non-negative key, `KeyOrder` keeps the groups as they are. */
  lemma KeyOrderAllNegative<T(!new)>(gs: seq<Group<int, T>>)
    requires forall i :: 0 <= i < |gs| ==> gs[i].key < 0
    ensures KeyOrder(gs) == gs
  {
    FilterKeepsNone(gs, IsIndexKey);
    FilterKeepsAll(gs, IsNegativeKey);
  }

  /** The index of the first element satisfying `p`, if any. */
  function FirstWhere<T>(xs: seq<T>, p: T -> bool): (r: Option<nat>)
    ensures r.Some? ==> r.value < |xs| && p(xs[r.value]) && forall j :: 0 <= j < r.value ==> !p(xs[j])
    ensures r.None? ==> forall j :: 0 <= j < |xs| ==> !p(xs[j])
  {
    if xs == [] then None
    else if p(xs[0]) then Some(0)
    else match FirstWhere(xs[1..], p)
      case None => None
      case Some(k) => Some(k + 1)
  }
}
