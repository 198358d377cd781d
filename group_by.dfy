/**
 * The row bookkeeping of polars' `group_by(..., maintain_order=True).map_groups(f)`:
 * groups are visited in order of the first appearance of their key, each group sees its
 * rows in dataset order, and the per-group outputs are stacked one after another.
 * A dataset is given here by the key of each of its rows.
 */
module GroupBy {
  import opened Seqs

  /** The distinct keys, in the order in which each first appears. */
  function FirstAppearance<K(==)>(keys: seq<K>): (ks: seq<K>)
    ensures forall k :: k in ks ==> k in keys
    ensures forall k :: k in keys ==> k in ks
    ensures Distinct(ks)
  {
    if |keys| == 0 then []
    else
      var p := FirstAppearance(keys[..|keys| - 1]);
      var k := keys[|keys| - 1];
      assert keys == keys[..|keys| - 1] + [k];
      if k in p then p else p + [k]
  }

  /** The position at which key `k` first occurs. */
  function FirstIndex<K(==)>(keys: seq<K>, k: K): (i: nat)
    requires k in keys
    ensures i < |keys| && keys[i] == k
    ensures forall j :: 0 <= j < i ==> keys[j] != k
  {
    var n := |keys| - 1;
    if k in keys[..n] then
      var i := FirstIndex(keys[..n], k);
      assert forall j :: 0 <= j <= i ==> keys[..n][j] == keys[j];
      i
    else
      assert forall j :: 0 <= j < n ==> keys[j] == keys[..n][j];
      n
  }

  /** The rows of group `k`, as row numbers in increasing (dataset) order. */
  function Members<K(==)>(keys: seq<K>, k: K): (m: seq<nat>)
    ensures forall t :: 0 <= t < |m| ==> m[t] < |keys| && keys[m[t]] == k
    ensures forall i :: 0 <= i < |keys| && keys[i] == k ==> i in m
    ensures forall a, b :: 0 <= a < b < |m| ==> m[a] < m[b]
  {
    if |keys| == 0 then []
    else
      var n := |keys| - 1;
      var p := Members(keys[..n], k);
      assert forall i :: 0 <= i < n ==> keys[..n][i] == keys[i];
      if keys[n] == k then p + [n] else p
  }

  /** The member lists of the groups `ks`, stacked in that order. */
  function Stacked<K(==)>(keys: seq<K>, ks: seq<K>): seq<nat>
  {
    if |ks| == 0 then [] else Members(keys, ks[0]) + Stacked(keys, ks[1..])
  }

  /** Which input row each output position of a group-apply-stack comes from. */
  function RowOrder<K(==)>(keys: seq<K>): seq<nat>
  {
    Stacked(keys, FirstAppearance(keys))
  }

  /** Every group occupies one unbroken run of rows. */
  predicate Contiguous<K(==)>(keys: seq<K>)
  {
    forall i, j, l :: 0 <= i < j < l < |keys| && keys[i] == keys[l] ==> keys[j] == keys[i]
  }

  /** Groups are visited in the order of their first rows. */
  lemma {:induction false} FirstAppearanceOrdered<K>(keys: seq<K>)
    ensures forall a, b :: 0 <= a < b < |FirstAppearance(keys)| ==>
      FirstIndex(keys, FirstAppearance(keys)[a]) < FirstIndex(keys, FirstAppearance(keys)[b])
  {
    if |keys| > 0 {
      var n := |keys| - 1;
      var front, x := keys[..n], keys[n];
      assert keys == front + [x];
      FirstAppearanceOrdered(front);
      var p := FirstAppearance(front);
      var ks := FirstAppearance(keys);
      assert ks == p + (if x in front then [] else [x]) by { FirstAppearanceSnoc(front, x); }
      forall a | 0 <= a < |p|
        ensures FirstIndex(keys, p[a]) == FirstIndex(front, p[a]) < n
      {
        assert p[a] in p;
        FirstIndexSnoc(front, x, p[a]);
      }
      forall a, b | 0 <= a < b < |ks|
        ensures FirstIndex(keys, ks[a]) < FirstIndex(keys, ks[b])
      {
        assert ks[a] == p[a];
        if b < |p| {
          assert ks[b] == p[b];
          assert FirstIndex(front, p[a]) < FirstIndex(front, p[b]);
          assert FirstIndex(keys, p[b]) == FirstIndex(front, p[b]);
        } else {
          assert ks[b] == x && x !in front;
          assert FirstIndex(keys, x) == n;
        }
      }
    }
  }

  lemma FirstIndexSnoc<K>(keys: seq<K>, x: K, k: K)
    requires k in keys
    ensures FirstIndex(keys + [x], k) == FirstIndex(keys, k)
  {
    assert (keys + [x])[..|keys|] == keys;
  }

  /** Adding a row changes the member list of its own group only, by appending it. */
  lemma MembersSnoc<K>(keys: seq<K>, x: K, k: K)
    ensures Members(keys + [x], k) == Members(keys, k) + (if x == k then [|keys|] else [])
  {
    assert (keys + [x])[..|keys|] == keys;
  }

  lemma FirstAppearanceSnoc<K>(keys: seq<K>, x: K)
    ensures FirstAppearance(keys + [x]) == FirstAppearance(keys) + (if x in keys then [] else [x])
  {
    assert (keys + [x])[..|keys|] == keys;
  }

  /** Stacking groups other than that of the new row is unaffected by the new row. */
  lemma {:induction false} StackedSnocOther<K>(keys: seq<K>, x: K, ks: seq<K>)
    requires x !in ks
    ensures Stacked(keys + [x], ks) == Stacked(keys, ks)
  {
    if |ks| > 0 {
      MembersSnoc(keys, x, ks[0]);
      StackedSnocOther(keys, x, ks[1..]);
    }
  }

  /** Stacking the new row's group as well adds the new row exactly once. */
  lemma {:induction false} StackedSnocMultiset<K>(keys: seq<K>, x: K, ks: seq<K>)
    requires Distinct(ks)
    ensures multiset(Stacked(keys + [x], ks))
         == multiset(Stacked(keys, ks)) + (if x in ks then multiset{|keys| as nat} else multiset{})
  {
    if |ks| > 0 {
      var k0, rest := ks[0], ks[1..];
      var n: nat := |keys|;
      DistinctTail(ks, x);
      var a, a' := Members(keys, k0), Members(keys + [x], k0);
      var b, b' := Stacked(keys, rest), Stacked(keys + [x], rest);
      assert Stacked(keys + [x], ks) == a' + b';
      assert Stacked(keys, ks) == a + b;
      if x == k0 {
        assert a' == a + [n] by { MembersSnoc(keys, x, k0); }
        assert b' == b by { StackedSnocOther(keys, x, rest); }
        assert multiset(a' + b') == multiset(a + b) + multiset{n};
      } else {
        assert a' == a by { MembersSnoc(keys, x, k0); }
        assert multiset(b') == multiset(b) + (if x in rest then multiset{n} else multiset{}) by {
          StackedSnocMultiset(keys, x, rest);
        }
        assert multiset(a' + b') == multiset(a) + multiset(b');
      }
    }
  }

  lemma DistinctTail<K>(ks: seq<K>, x: K)
    requires Distinct(ks) && |ks| > 0
    ensures Distinct(ks[1..]) && ks[0] !in ks[1..] && (x in ks <==> x == ks[0] || x in ks[1..])
  {
    assert ks == [ks[0]] + ks[1..];
    forall i | 0 <= i < |ks[1..]| ensures ks[1..][i] == ks[i + 1] { }
  }

  lemma {:induction false} StackedAppend<K>(keys: seq<K>, ks: seq<K>, k: K)
    ensures Stacked(keys, ks + [k]) == Stacked(keys, ks) + Members(keys, k)
  {
    if |ks| == 0 {
      assert Stacked(keys, [k][1..]) == [];
    } else {
      assert (ks + [k])[1..] == ks[1..] + [k];
      StackedAppend(keys, ks[1..], k);
    }
  }

  /** A group that is not yet present has no members. */
  lemma {:induction false} MembersAbsent<K>(keys: seq<K>, k: K)
    requires k !in keys
    ensures Members(keys, k) == []
  {
    if |keys| > 0 {
      var n := |keys| - 1;
      assert keys[n] in keys;
      assert k !in keys[..n] by { assert forall x :: x in keys[..n] ==> x in keys; }
      MembersAbsent(keys[..n], k);
    }
  }

  /** A new row of an already present group joins that group's block. */
  lemma RowOrderSnocOldGroupMultiset<K>(front: seq<K>, x: K)
    requires x in front
    ensures multiset(RowOrder(front + [x])) == multiset(RowOrder(front)) + multiset{|front| as nat}
  {
    var p := FirstAppearance(front);
    assert FirstAppearance(front + [x]) == p by { FirstAppearanceSnoc(front, x); }
    assert x in p;
    StackedSnocMultiset(front, x, p);
  }

  /** Every input row is emitted exactly once: the row order is a permutation of the rows. */
  lemma {:induction false} RowOrderIsPermutation<K>(keys: seq<K>)
    ensures multiset(RowOrder(keys)) == multiset(Range(|keys|))
    ensures |RowOrder(keys)| == |keys|
  {
    if |keys| > 0 {
      var n: nat := |keys| - 1;
      var front, x := keys[..n], keys[n];
      assert keys == front + [x];
      RowOrderIsPermutation(front);
      RowOrderSnocMultiset(front, x);
      RangeSnoc(n);
    }
    calc {
      |RowOrder(keys)|;
      |multiset(RowOrder(keys))|;
      |multiset(Range(|keys|))|;
      |keys|;
    }
  }

  /** A new last row adds exactly its own row number to the row order, wherever it lands. */
  lemma RowOrderSnocMultiset<K>(front: seq<K>, x: K)
    ensures multiset(RowOrder(front + [x])) == multiset(RowOrder(front)) + multiset{|front| as nat}
  {
    if x in front {
      RowOrderSnocOldGroupMultiset(front, x);
    } else {
      RowOrderSnocNewGroup(front, x);
    }
  }

  lemma RangeSnoc(n: nat)
    ensures Range(n + 1) == Range(n) + [n]
  {
  }

  /** In a contiguous dataset the group that was visited last is that of the last row. */
  lemma {:induction false} LastGroupOfContiguous<K>(keys: seq<K>)
    requires Contiguous(keys) && |keys| > 0
    ensures var ks := FirstAppearance(keys); |ks| > 0 && ks[|ks| - 1] == keys[|keys| - 1]
  {
    var n := |keys| - 1;
    var front, x := keys[..n], keys[n];
    assert keys == front + [x];
    FirstAppearanceSnoc(front, x);
    if x in front {
      var i := FirstIndex(front, x);
      assert keys[n - 1] == x by {
        if i < n - 1 {
          assert keys[i] == keys[n];
        }
      }
      ContiguousFront(keys);
      LastGroupOfContiguous(front);
    }
  }

  /** A stacked group is one block of the stacked output. */
  lemma {:induction false} StackedBlock<K>(keys: seq<K>, ks: seq<K>, k: K) returns (before: seq<nat>, after: seq<nat>)
    requires k in ks
    ensures Stacked(keys, ks) == before + Members(keys, k) + after
  {
    if ks[0] == k {
      before, after := [], Stacked(keys, ks[1..]);
    } else {
      assert k in ks[1..] by { assert ks == [ks[0]] + ks[1..]; }
      var b, a := StackedBlock(keys, ks[1..], k);
      before, after := Members(keys, ks[0]) + b, a;
      assert Stacked(keys, ks) == Members(keys, ks[0]) + (b + Members(keys, k) + a);
      AppendAssoc4(Members(keys, ks[0]), b, Members(keys, k), a);
    }
  }

  lemma AppendAssoc4<T>(w: seq<T>, x: seq<T>, y: seq<T>, z: seq<T>)
    ensures w + (x + y + z) == w + x + y + z
  {
  }

  /**
   * Position `i` of the stacked output is row `i` of the input for every `i` exactly when every
   * group's rows are contiguous in the dataset.
   */
  lemma RowOrderIdentityIffContiguous<K>(keys: seq<K>)
    ensures RowOrder(keys) == Range(|keys|) <==> Contiguous(keys)
  {
    if Contiguous(keys) {
      ContiguousRowOrder(keys);
    }
    if RowOrder(keys) == Range(|keys|) {
      IdentityRowOrderContiguous(keys);
    }
  }

  lemma IdentityRowOrderContiguous<K>(keys: seq<K>)
    requires RowOrder(keys) == Range(|keys|)
    ensures Contiguous(keys)
  {
    forall i, j, l | 0 <= i < j < l < |keys| && keys[i] == keys[l]
      ensures keys[j] == keys[i]
    {
      IdentityRowOrderBetween(keys, i, j, l);
    }
  }

  lemma IdentityRowOrderBetween<K>(keys: seq<K>, i: nat, j: nat, l: nat)
    requires RowOrder(keys) == Range(|keys|)
    requires i < j < l < |keys| && keys[i] == keys[l]
    ensures keys[j] == keys[i]
  {
    var m := Members(keys, keys[i]);
    var b := MembersConsecutive(keys, keys[i]);
    assert i in m && l in m;
    ConsecutiveBetween(m, b, i, j, l);
    assert keys[m[j - b]] == keys[i];
  }

  /** When the row order is the identity, a group's rows are the consecutive row numbers from `b`. */
  lemma MembersConsecutive<K>(keys: seq<K>, k: K) returns (b: nat)
    requires RowOrder(keys) == Range(|keys|) && k in keys
    ensures forall t :: 0 <= t < |Members(keys, k)| ==> Members(keys, k)[t] == b + t
  {
    assert k in FirstAppearance(keys);
    var before, after := StackedBlock(keys, FirstAppearance(keys), k);
    var m := Members(keys, k);
    var ro := RowOrder(keys);
    b := |before|;
    forall t | 0 <= t < |m| ensures m[t] == b + t {
      assert m[t] == ro[|before| + t];
    }
  }

  /** A row number between two members of a block of consecutive row numbers is itself a member. */
  lemma ConsecutiveBetween(m: seq<nat>, b: nat, i: nat, j: nat, l: nat)
    requires forall t :: 0 <= t < |m| ==> m[t] == b + t
    requires i in m && l in m && i <= j <= l
    ensures b <= j < b + |m| && m[j - b] == j
  {
    var ti :| 0 <= ti < |m| && m[ti] == i;
    var tl :| 0 <= tl < |m| && m[tl] == l;
    assert m[ti] == b + ti && m[tl] == b + tl;
  }

  lemma ContiguousFront<K>(keys: seq<K>)
    requires Contiguous(keys) && |keys| > 0
    ensures Contiguous(keys[..|keys| - 1])
  {
    var front := keys[..|keys| - 1];
    forall i, j, l | 0 <= i < j < l < |front| && front[i] == front[l]
      ensures front[j] == front[i]
    {
      assert keys[i] == keys[l];
    }
  }

  lemma StackedLast<K>(keys: seq<K>, ks: seq<K>)
    requires |ks| > 0
    ensures Stacked(keys, ks) == Stacked(keys, ks[..|ks| - 1]) + Members(keys, ks[|ks| - 1])
  {
    assert ks == ks[..|ks| - 1] + [ks[|ks| - 1]];
    StackedAppend(keys, ks[..|ks| - 1], ks[|ks| - 1]);
  }

  /** Appending a row of the last visited group extends the row order by that row. */
  lemma RowOrderSnocLastGroup<K>(front: seq<K>, x: K)
    requires var p := FirstAppearance(front); |p| > 0 && p[|p| - 1] == x
    ensures RowOrder(front + [x]) == RowOrder(front) + [|front| as nat]
  {
    var p := FirstAppearance(front);
    assert x in front by { assert p[|p| - 1] in p; }
    FirstAppearanceSnoc(front, x);
    StackedSnocLast(front, x, p);
  }

  /** Stacking groups whose last is the new row's group extends the output by that row. */
  lemma StackedSnocLast<K>(front: seq<K>, x: K, p: seq<K>)
    requires |p| > 0 && p[|p| - 1] == x && Distinct(p)
    ensures Stacked(front + [x], p) == Stacked(front, p) + [|front| as nat]
  {
    var q := p[..|p| - 1];
    assert x !in q by {
      forall t | 0 <= t < |q| ensures q[t] != x { assert q[t] == p[t]; }
    }
    var n: nat := |front|;
    StackedLast(front + [x], p);
    StackedSnocOther(front, x, q);
    MembersSnoc(front, x, x);
    StackedLast(front, p);
    AppendAssoc(Stacked(front, q), Members(front, x), [n]);
  }

  lemma AppendAssoc<T>(a: seq<T>, b: seq<T>, c: seq<T>)
    ensures a + (b + c) == a + b + c
  {
  }

  /** Appending a row of a new group extends the row order by that row. */
  lemma RowOrderSnocNewGroup<K>(front: seq<K>, x: K)
    requires x !in front
    ensures RowOrder(front + [x]) == RowOrder(front) + [|front| as nat]
  {
    var keys := front + [x];
    FirstAppearanceSnoc(front, x);
    var p := FirstAppearance(front);
    assert x !in p;
    StackedAppend(keys, p, x);
    StackedSnocOther(front, x, p);
    MembersSnoc(front, x, x);
    MembersAbsent(front, x);
  }

  lemma {:induction false} ContiguousRowOrder<K>(keys: seq<K>)
    requires Contiguous(keys)
    ensures RowOrder(keys) == Range(|keys|)
  {
    if |keys| > 0 {
      var n: nat := |keys| - 1;
      var front, x := keys[..n], keys[n];
      assert keys == front + [x];
      ContiguousFront(keys);
      ContiguousRowOrder(front);
      ContiguousSnoc(front, x);
      RangeSnoc(n);
    }
  }

  /** A new last row of a contiguous dataset is emitted last. */
  lemma ContiguousSnoc<K>(front: seq<K>, x: K)
    requires Contiguous(front + [x])
    ensures RowOrder(front + [x]) == RowOrder(front) + [|front| as nat]
  {
    if x in front {
      LastGroupOfContiguous(front + [x]);
      FirstAppearanceSnoc(front, x);
      RowOrderSnocLastGroup(front, x);
    } else {
      RowOrderSnocNewGroup(front, x);
    }
  }

  /** Every stacked entry is a row index. */
  lemma {:induction false} StackedBounded<K>(keys: seq<K>, ks: seq<K>)
    ensures forall t :: 0 <= t < |Stacked(keys, ks)| ==> Stacked(keys, ks)[t] < |keys|
  {
    if |ks| > 0 {
      StackedBounded(keys, ks[1..]);
    }
  }
}
