/**
  Grouping a sequence by a partial key, the way a JavaScript `Map` or a
  plain object fills up in a loop: one group per distinct key, groups in
  the order their key is first seen, members of a group in input order,
  items without a key skipped.
 */
module Grouping {
  import opened Common

  /** Some item of `xs` has key `k`. */
  ghost predicate Occurs<T, K>(xs: seq<T>, key: T -> Option<K>, k: K) {
    exists i :: 0 <= i < |xs| && key(xs[i]) == Some(k)
  }

  predicate Distinct<K(==)>(ks: seq<K>) {
    forall i, j :: 0 <= i < j < |ks| ==> ks[i] != ks[j]
  }

  /** The distinct keys of `xs`, in the order in which each is first seen. */
  function Order<T, K(==)>(xs: seq<T>, key: T -> Option<K>): (ks: seq<K>)
    ensures Distinct(ks)
    ensures forall k :: k in ks ==> Occurs(xs, key, k)
  {
    if xs == [] then []
    else
      var ks := Order(xs[..|xs| - 1], key);
      var x := xs[|xs| - 1];
      if key(x).Some? && key(x).value !in ks then ks + [key(x).value] else ks
  }

  /** The items of `xs` with key `k`, in input order. */
  function Members<T, K(==)>(xs: seq<T>, key: T -> Option<K>, k: K): (ms: seq<T>)
    ensures |ms| <= |xs|
    ensures forall m :: m in ms ==> m in xs && key(m) == Some(k)
  {
    if xs == [] then []
    else Members(xs[..|xs| - 1], key, k) + (if key(xs[|xs| - 1]) == Some(k) then [xs[|xs| - 1]] else [])
  }

  /** The items of `xs` that have a key at all. */
  function Keyed<T, K(==)>(xs: seq<T>, key: T -> Option<K>): (ks: seq<T>)
    ensures |ks| <= |xs|
  {
    if xs == [] then []
    else Keyed(xs[..|xs| - 1], key) + (if key(xs[|xs| - 1]).Some? then [xs[|xs| - 1]] else [])
  }

  /** How many items the groups named by `ks` hold together. */
  function GroupSizes<T, K(==)>(xs: seq<T>, key: T -> Option<K>, ks: seq<K>): nat {
    if ks == [] then 0 else GroupSizes(xs, key, ks[..|ks| - 1]) + |Members(xs, key, ks[|ks| - 1])|
  }

  lemma LastOf<T>(xs: seq<T>, x: T)
    ensures (xs + [x])[..|xs + [x]| - 1] == xs && (xs + [x])[|xs + [x]| - 1] == x
  {
  }

  /** Every key that occurs is in the order: with the ensures of `Order`, the order holds exactly the keys that occur. */
  lemma {:induction false} OrderComplete<T, K>(xs: seq<T>, key: T -> Option<K>, k: K)
    ensures Occurs(xs, key, k) ==> k in Order(xs, key)
    decreases |xs|
  {
    if Occurs(xs, key, k) {
      var i :| 0 <= i < |xs| && key(xs[i]) == Some(k);
      var init := xs[..|xs| - 1];
      if i < |xs| - 1 {
        assert key(init[i]) == Some(k);
        OrderComplete(init, key, k);
      }
    }
  }

  /**
    First-seen order: the order of a prefix of `xs` is a prefix of the
    order of `xs`, so a key seen earlier always comes first.
   */
  lemma {:induction false} OrderOfPrefix<T, K>(xs: seq<T>, key: T -> Option<K>, n: nat)
    requires n <= |xs|
    ensures Order(xs[..n], key) <= Order(xs, key)
    decreases |xs| - n
  {
    if n < |xs| {
      var init := xs[..|xs| - 1];
      assert init[..n] == xs[..n];
      OrderOfPrefix(init, key, n);
    } else {
      assert xs[..n] == xs;
    }
  }

  /** Of two keys, the one whose first occurrence is earlier comes first. */
  lemma FirstSeenFirst<T, K>(xs: seq<T>, key: T -> Option<K>, n: nat, a: K, b: K)
    requires n <= |xs| && Occurs(xs[..n], key, a) && !Occurs(xs[..n], key, b) && Occurs(xs, key, b)
    ensures exists i, j :: 0 <= i < j < |Order(xs, key)| && Order(xs, key)[i] == a && Order(xs, key)[j] == b
  {
    var p := Order(xs[..n], key);
    var o := Order(xs, key);
    OrderOfPrefix(xs, key, n);
    OrderComplete(xs[..n], key, a);
    OrderComplete(xs, key, b);
    var i :| 0 <= i < |p| && p[i] == a;
    var j :| 0 <= j < |o| && o[j] == b;
    assert o[i] == a;
  }

  /** Appending an item with key `k` extends the group of `k` by that item and no other group. */
  lemma MembersSnoc<T, K>(xs: seq<T>, key: T -> Option<K>, x: T, k: K)
    ensures Members(xs + [x], key, k) == Members(xs, key, k) + (if key(x) == Some(k) then [x] else [])
  {
    LastOf(xs, x);
  }

  lemma OrderSnoc<T, K>(xs: seq<T>, key: T -> Option<K>, x: T)
    ensures Order(xs + [x], key) ==
      if key(x).Some? && key(x).value !in Order(xs, key) then Order(xs, key) + [key(x).value] else Order(xs, key)
  {
    LastOf(xs, x);
  }

  lemma KeyedSnoc<T, K>(xs: seq<T>, key: T -> Option<K>, x: T)
    ensures Keyed(xs + [x], key) == Keyed(xs, key) + (if key(x).Some? then [x] else [])
  {
    LastOf(xs, x);
  }

  /** One more item changes the group sizes of distinct keys `ks` by one exactly when its key is among them. */
  lemma {:induction false} GroupSizesSnoc<T, K>(xs: seq<T>, key: T -> Option<K>, x: T, ks: seq<K>)
    requires Distinct(ks)
    ensures GroupSizes(xs + [x], key, ks) == GroupSizes(xs, key, ks) + (if key(x).Some? && key(x).value in ks then 1 else 0)
    decreases |ks|
  {
    if ks != [] {
      var init := ks[..|ks| - 1];
      var last := ks[|ks| - 1];
      assert Distinct(init);
      GroupSizesSnoc(xs, key, x, init);
      MembersSnoc(xs, key, x, last);
      assert key(x).Some? && key(x).value in ks <==> key(x).Some? && (key(x).value in init || key(x).value == last);
      if key(x) == Some(last) {
        assert last !in init;
      }
    }
  }

  /** A key with no members adds nothing to the group sizes. */
  lemma GroupSizesAppendEmpty<T, K>(xs: seq<T>, key: T -> Option<K>, ks: seq<K>, k: K)
    requires Members(xs, key, k) == []
    ensures GroupSizes(xs, key, ks + [k]) == GroupSizes(xs, key, ks)
  {
    LastOf(ks, k);
  }

  lemma {:induction false} NoMembersWhenAbsent<T, K>(xs: seq<T>, key: T -> Option<K>, k: K)
    requires !Occurs(xs, key, k)
    ensures Members(xs, key, k) == []
    decreases |xs|
  {
    if xs != [] {
      var init := xs[..|xs| - 1];
      NoMembersWhenAbsent(init, key, k);
    }
  }

  /** A key that occurs has a non-empty group. */
  lemma {:induction false} OccursHasMembers<T, K>(xs: seq<T>, key: T -> Option<K>, k: K)
    requires Occurs(xs, key, k)
    ensures Members(xs, key, k) != []
    decreases |xs|
  {
    var init := xs[..|xs| - 1];
    var x := xs[|xs| - 1];
    assert xs == init + [x];
    MembersSnoc(init, key, x, k);
    if Occurs(init, key, k) {
      OccursHasMembers(init, key, k);
    } else {
      var i :| 0 <= i < |xs| && key(xs[i]) == Some(k);
      if i < |xs| - 1 {
        assert false;
      }
    }
  }

  /** An item with a key not seen before opens a new group, holding just that item, at the end of the order. */
  lemma NewKeySnoc<T, K>(xs: seq<T>, key: T -> Option<K>, x: T, k: K)
    requires key(x) == Some(k) && k !in Order(xs, key)
    ensures Order(xs + [x], key) == Order(xs, key) + [k]
    ensures Members(xs + [x], key, k) == [x]
  {
    OrderSnoc(xs, key, x);
    if Occurs(xs, key, k) {
      OrderComplete(xs, key, k);
    }
    NoMembersWhenAbsent(xs, key, k);
    MembersSnoc(xs, key, x, k);
  }

  /** An item with a key already seen joins that group and leaves the order as it is. */
  lemma SeenKeySnoc<T, K>(xs: seq<T>, key: T -> Option<K>, x: T, k: K)
    requires key(x) == Some(k) && k in Order(xs, key)
    ensures Order(xs + [x], key) == Order(xs, key)
    ensures Members(xs + [x], key, k) == Members(xs, key, k) + [x]
  {
    OrderSnoc(xs, key, x);
    MembersSnoc(xs, key, x, k);
  }

  /** An item leaves every group of another key as it is. */
  lemma OtherKeySnoc<T, K>(xs: seq<T>, key: T -> Option<K>, x: T, k: K)
    requires k in Order(xs, key) && key(x) != Some(k)
    ensures k in Order(xs + [x], key)
    ensures Members(xs + [x], key, k) == Members(xs, key, k)
  {
    OrderSnoc(xs, key, x);
    MembersSnoc(xs, key, x, k);
  }

  /** The groups partition the keyed items: their sizes add up to the number of items that have a key. */
  lemma {:induction false} GroupsCoverKeyed<T, K>(xs: seq<T>, key: T -> Option<K>)
    ensures GroupSizes(xs, key, Order(xs, key)) == |Keyed(xs, key)|
    decreases |xs|
  {
    if xs != [] {
      var init := xs[..|xs| - 1];
      var x := xs[|xs| - 1];
      assert xs == init + [x];
      GroupsCoverKeyed(init, key);
      OrderSnoc(init, key, x);
      KeyedSnoc(init, key, x);
      var o := Order(init, key);
      GroupSizesSnoc(init, key, x, o);
      if key(x).Some? && key(x).value !in o {
        var k := key(x).value;
        if Occurs(init, key, k) {
          OrderComplete(init, key, k);
        }
        NoMembersWhenAbsent(init, key, k);
        MembersSnoc(init, key, x, k);
        LastOf(o, k);
        assert GroupSizes(xs, key, o + [k]) == GroupSizes(xs, key, o) + 1;
      }
    }
  }
}
