/**
 * The bucket layout shared by every hash map of the library (src/map.c,
 * src/strmap.c, strmap.c and map.c): an array of buckets, each bucket holding
 * up to eight slots and linking to an overflow bucket of the same kind when
 * it is full.  A table is modelled as a sequence of chains, a chain as the
 * sequence of buckets reached from one array cell through `next`.
 *
 * The functions here are the parts the four maps have in common: the
 * bucket a hash selects, the lookup walk along a chain, linking an overflow
 * bucket, the swap-with-last removal, and the iteration order.  Lemmas tie
 * a decoded table (slots holding a key and a value) to the map it stands
 * for, and show how each of those steps changes that map.
 */
module Chains {
  import opened Common

  /** MAP_BUCKET_CAPACITY / BUCKET_SIZE: slots per bucket. */
  const BucketCapacity: nat := 8

  /**
   * One bucket: its used slots in order, and B, whatever else the bucket
   * owns (src/map.c gives each bucket its own key buffer; the other maps
   * use the unit type).
   */
  datatype Node<S, B> = Node(slots: seq<S>, buf: B)

  /** A bucket of the array followed by its overflow buckets. */
  type Chain<S, B> = seq<Node<S, B>>

  /** One chain per bucket of the array. */
  type Table<S, B> = seq<Chain<S, B>>

  /** A slot inside a chain: which bucket of the chain, which slot of it. */
  datatype Pos = Pos(node: nat, slot: nat)

  ghost predicate ChainShaped<S, B>(c: Chain<S, B>)
  {
    |c| > 0 && forall k | 0 <= k < |c| :: |c[k].slots| <= BucketCapacity
  }

  ghost predicate Shaped<S, B>(t: Table<S, B>)
  {
    forall b | 0 <= b < |t| :: ChainShaped(t[b])
  }

  /**
   * The bucket a hash selects: `hash & (nb_buckets - 1)`, with the mask
   * taken in 64-bit arithmetic.
   */
  function Home(h: Word, nb: nat): (r: nat)
    requires nb > 0
    ensures r < nb
  {
    BitAndBelow(h, (nb - 1) % WordModulus);
    BitAnd(h, (nb - 1) % WordModulus)
  }

  /**
   * With three buckets (a capacity of 24) the mask is 2, so the middle
   * bucket is never selected: bucket selection stays in range when the
   * bucket count is not a power of two, but leaves buckets unused.
   */
  lemma HomeSkipsMiddleOfThree(h: Word)
    ensures Home(h, 3) != 1
  {
    assert BitAnd(h, 2) == 2 * BitAnd(h / 2, 1);
  }

  // ---------------------------------------------------------------------
  // Iteration order: array buckets in index order, each chain from its
  // first bucket, each bucket from slot 0.

  /** The slots of a chain in walk order, bucket after bucket; a lone bucket yields its slots. */
  function ChainItems<S, B>(c: Chain<S, B>): (r: seq<S>)
    ensures |c| == 1 ==> r == c[0].slots
  {
    if c == [] then [] else ChainItems(c[..|c| - 1]) + c[|c| - 1].slots
  }

  /** The slots of a table in iteration order, chain after chain; a lone chain yields its items. */
  function Items<S, B>(t: Table<S, B>): (r: seq<S>)
    ensures |t| == 1 ==> r == ChainItems(t[0])
  {
    if t == [] then [] else Items(t[..|t| - 1]) + ChainItems(t[|t| - 1])
  }

  lemma {:induction false} ChainItemsConcat<S, B>(c1: Chain<S, B>, c2: Chain<S, B>)
    ensures ChainItems(c1 + c2) == ChainItems(c1) + ChainItems(c2)
  {
    if c2 == [] {
      assert c1 + c2 == c1;
    } else {
      assert (c1 + c2)[..|c1 + c2| - 1] == c1 + c2[..|c2| - 1];
      ChainItemsConcat(c1, c2[..|c2| - 1]);
    }
  }

  lemma {:induction false} ItemsConcat<S, B>(t1: Table<S, B>, t2: Table<S, B>)
    ensures Items(t1 + t2) == Items(t1) + Items(t2)
  {
    if t2 == [] {
      assert t1 + t2 == t1;
    } else {
      assert (t1 + t2)[..|t1 + t2| - 1] == t1 + t2[..|t2| - 1];
      ItemsConcat(t1, t2[..|t2| - 1]);
    }
  }

  /** The walk of a chain starts with the slots of its first bucket, from slot 0. */
  lemma {:induction false} ChainItemsFirst<S, B>(c: Chain<S, B>)
    requires |c| > 0
    ensures |c[0].slots| <= |ChainItems(c)| && ChainItems(c)[..|c[0].slots|] == c[0].slots
  {
    if |c| > 1 {
      var init := c[..|c| - 1];
      ChainItemsFirst(init);
      assert init[0] == c[0];
    }
  }

  /** Iteration starts with the whole chain of array bucket 0. */
  lemma {:induction false} ItemsFirst<S, B>(t: Table<S, B>)
    requires |t| > 0
    ensures |ChainItems(t[0])| <= |Items(t)| && Items(t)[..|ChainItems(t[0])|] == ChainItems(t[0])
  {
    if |t| > 1 {
      var init := t[..|t| - 1];
      ItemsFirst(init);
      assert init[0] == t[0];
    }
  }

  /** Replacing one chain replaces its run of items and nothing else. */
  lemma ItemsUpdate<S, B>(t: Table<S, B>, b: nat, c: Chain<S, B>)
    requires b < |t|
    ensures Items(t) == Items(t[..b]) + ChainItems(t[b]) + Items(t[b + 1..])
    ensures Items(t[b := c]) == Items(t[..b]) + ChainItems(c) + Items(t[b + 1..])
  {
    assert t == t[..b] + [t[b]] + t[b + 1..];
    assert t[b := c] == t[..b] + [c] + t[b + 1..];
    assert Items([t[b]]) == ChainItems(t[b]) by { assert [t[b]][..0] == []; }
    assert Items([c]) == ChainItems(c) by { assert [c][..0] == []; }
    ItemsConcat(t[..b] + [t[b]], t[b + 1..]);
    ItemsConcat(t[..b], [t[b]]);
    ItemsConcat(t[..b] + [c], t[b + 1..]);
    ItemsConcat(t[..b], [c]);
  }

  /** Replacing one bucket of a chain replaces its run of slots and nothing else. */
  lemma ChainItemsUpdate<S, B>(c: Chain<S, B>, k: nat, n: Node<S, B>)
    requires k < |c|
    ensures ChainItems(c) == ChainItems(c[..k]) + c[k].slots + ChainItems(c[k + 1..])
    ensures ChainItems(c[k := n]) == ChainItems(c[..k]) + n.slots + ChainItems(c[k + 1..])
  {
    assert c == c[..k] + [c[k]] + c[k + 1..];
    assert c[k := n] == c[..k] + [n] + c[k + 1..];
    assert ChainItems([c[k]]) == c[k].slots by { assert [c[k]][..0] == []; }
    assert ChainItems([n]) == n.slots by { assert [n][..0] == []; }
    ChainItemsConcat(c[..k] + [c[k]], c[k + 1..]);
    ChainItemsConcat(c[..k], [c[k]]);
    ChainItemsConcat(c[..k] + [n], c[k + 1..]);
    ChainItemsConcat(c[..k], [n]);
  }

  /** Every item of a chain sits in some slot of some bucket of it. */
  lemma {:induction false} ChainItemsMember<S, B>(c: Chain<S, B>, x: S) returns (p: Pos)
    requires x in ChainItems(c)
    ensures p.node < |c| && p.slot < |c[p.node].slots| && c[p.node].slots[p.slot] == x
  {
    var last := c[|c| - 1];
    if x in ChainItems(c[..|c| - 1]) {
      p := ChainItemsMember(c[..|c| - 1], x);
    } else {
      var i :| 0 <= i < |last.slots| && last.slots[i] == x;
      p := Pos(|c| - 1, i);
    }
  }

  /** Every item of a table sits in some chain of it. */
  lemma {:induction false} ItemsMember<S, B>(t: Table<S, B>, x: S) returns (b: nat)
    requires x in Items(t)
    ensures b < |t| && x in ChainItems(t[b])
  {
    if x in Items(t[..|t| - 1]) {
      b := ItemsMember(t[..|t| - 1], x);
    } else {
      b := |t| - 1;
    }
  }

  /** And conversely every slot's item is one of the chain's items. */
  lemma ChainSlotMember<S, B>(c: Chain<S, B>, p: Pos)
    requires p.node < |c| && p.slot < |c[p.node].slots|
    ensures c[p.node].slots[p.slot] in ChainItems(c)
  {
    ChainItemsUpdate(c, p.node, c[p.node]);
  }

  lemma ChainMember<S, B>(t: Table<S, B>, b: nat, x: S)
    requires b < |t| && x in ChainItems(t[b])
    ensures x in Items(t)
  {
    ItemsUpdate(t, b, t[b]);
  }

  // ---------------------------------------------------------------------
  // Lookup: walk the chain bucket by bucket, each bucket slot by slot, and
  // stop at the first slot the predicate accepts.

  ghost predicate Before(p: Pos, k: nat, i: nat)
  {
    p.node < k || (p.node == k && p.slot < i)
  }

  function FindFrom<S, B>(c: Chain<S, B>, m: (B, S) -> bool, k: nat, i: nat): (r: Option<Pos>)
    requires k <= |c| && (k < |c| ==> i <= |c[k].slots|)
    decreases |c| - k, if k < |c| then |c[k].slots| - i else 0
    ensures r.Some? ==>
      r.value.node < |c| && r.value.slot < |c[r.value.node].slots| &&
      !Before(r.value, k, i) && m(c[r.value.node].buf, c[r.value.node].slots[r.value.slot])
    ensures forall k', i' | 0 <= k' < |c| && 0 <= i' < |c[k'].slots| && !Before(Pos(k', i'), k, i) &&
      (r.Some? ==> Before(Pos(k', i'), r.value.node, r.value.slot)) :: !m(c[k'].buf, c[k'].slots[i'])
  {
    if k == |c| then None
    else if i == |c[k].slots| then FindFrom(c, m, k + 1, 0)
    else if m(c[k].buf, c[k].slots[i]) then Some(Pos(k, i))
    else FindFrom(c, m, k, i + 1)
  }

  /** The first slot of the chain, in walk order, that `m` accepts. */
  function Find<S, B>(c: Chain<S, B>, m: (B, S) -> bool): (r: Option<Pos>)
    ensures r.Some? ==>
      r.value.node < |c| && r.value.slot < |c[r.value.node].slots| &&
      m(c[r.value.node].buf, c[r.value.node].slots[r.value.slot])
    ensures forall k, i | 0 <= k < |c| && 0 <= i < |c[k].slots| &&
      (r.Some? ==> Before(Pos(k, i), r.value.node, r.value.slot)) :: !m(c[k].buf, c[k].slots[i])
  {
    if c == [] then None else FindFrom(c, m, 0, 0)
  }

  // ---------------------------------------------------------------------
  // Changing a chain.

  /** Link a spare empty bucket when the last bucket of the chain is full. */
  function WithRoom<S, B>(c: Chain<S, B>, spare: B): (r: Chain<S, B>)
    requires ChainShaped(c)
    ensures ChainShaped(r) && |r[|r| - 1].slots| < BucketCapacity
    ensures ChainItems(r) == ChainItems(c)
    ensures |c| <= |r| <= |c| + 1 && r[..|c|] == c
  {
    if |c[|c| - 1].slots| == BucketCapacity then
      var e: Chain<S, B> := [Node([], spare)];
      ChainItemsConcat(c, e);
      assert ChainItems(e) == [] by { assert e[..0] == []; }
      c + e
    else c
  }

  /** Store `s` in the next free slot of the last bucket, whose payload becomes `buf`. */
  function PushLast<S, B>(c: Chain<S, B>, s: S, buf: B): (r: Chain<S, B>)
    requires |c| > 0
    ensures |r| == |c| && r[|c| - 1].buf == buf
    ensures ChainItems(r) == ChainItems(c) + [s]
  {
    ChainItemsUpdate(c, |c| - 1, Node(c[|c| - 1].slots + [s], buf));
    assert c[|c|..] == [];
    c[|c| - 1 := Node(c[|c| - 1].slots + [s], buf)]
  }

  /**
   * Inserting into a chain: the new slot goes after every existing one, in
   * the last bucket or in a newly linked one.
   */
  lemma Appended<S, B>(c: Chain<S, B>, spare: B, s: S, buf: B)
    requires ChainShaped(c)
    ensures ChainShaped(PushLast(WithRoom(c, spare), s, buf))
    ensures ChainItems(PushLast(WithRoom(c, spare), s, buf)) == ChainItems(c) + [s]
  {
    var r := WithRoom(c, spare);
    var n := |r| - 1;
    ChainItemsUpdate(r, n, Node(r[n].slots + [s], buf));
    assert r[n + 1..] == [];
  }

  /**
   * Removing slot i of a bucket: the last used slot moves into it and the
   * bucket shrinks by one.
   */
  function RemoveSlot<S>(slots: seq<S>, i: nat): (r: seq<S>)
    requires i < |slots|
    ensures |r| == |slots| - 1
  {
    if |slots| > 1 then slots[i := slots[|slots| - 1]][..|slots| - 1] else []
  }

  /** Swap-with-last removal takes exactly slot i's item out of the bucket. */
  lemma RemoveSlotMultiset<S>(slots: seq<S>, i: nat)
    requires i < |slots|
    ensures multiset(RemoveSlot(slots, i)) + multiset{slots[i]} == multiset(slots)
  {
    var n := |slots| - 1;
    var a, b := slots[..i], slots[i + 1..];
    assert slots == a + [slots[i]] + b;
    if n == 0 {
    } else if i == n {
      assert RemoveSlot(slots, i) == a;
    } else {
      RemoveSlotMiddle(slots, i);
      var mid := slots[i + 1..n];
      assert b == mid + [slots[n]];
      var A, M, X, Y := multiset(a), multiset(mid), multiset{slots[i]}, multiset{slots[n]};
      assert multiset(RemoveSlot(slots, i)) == A + Y + M;
      assert multiset(slots) == A + X + (M + Y);
      assert forall e :: (A + Y + M + X)[e] == (A + X + (M + Y))[e];
    }
  }

  /** Removing a slot before the last moves the last slot into its place. */
  lemma RemoveSlotMiddle<S>(slots: seq<S>, i: nat)
    requires i + 1 < |slots|
    ensures RemoveSlot(slots, i) == slots[..i] + [slots[|slots| - 1]] + slots[i + 1..|slots| - 1]
  {
  }

  /** Swap-with-last removal: the chain keeps its buckets and has one item fewer. */
  function SwapRemove<S, B>(c: Chain<S, B>, p: Pos): (r: Chain<S, B>)
    requires p.node < |c| && p.slot < |c[p.node].slots|
    ensures |r| == |c| && |ChainItems(r)| + 1 == |ChainItems(c)|
  {
    ChainItemsUpdate(c, p.node, Node(RemoveSlot(c[p.node].slots, p.slot), c[p.node].buf));
    c[p.node := Node(RemoveSlot(c[p.node].slots, p.slot), c[p.node].buf)]
  }

  /** Swap-with-last removal takes exactly the removed slot's item out of the chain's items. */
  lemma SwapRemoveItems<S, B>(c: Chain<S, B>, p: Pos)
    requires p.node < |c| && p.slot < |c[p.node].slots|
    ensures multiset(ChainItems(SwapRemove(c, p))) + multiset{c[p.node].slots[p.slot]} == multiset(ChainItems(c))
  {
    RemoveSlotMultiset(c[p.node].slots, p.slot);
    ChainItemsUpdate(c, p.node, Node(RemoveSlot(c[p.node].slots, p.slot), c[p.node].buf));
  }

  /** Overwriting a slot keeps the chain's buckets and the number of items in its walk. */
  function SetSlot<S, B>(c: Chain<S, B>, p: Pos, s: S): (r: Chain<S, B>)
    requires p.node < |c| && p.slot < |c[p.node].slots|
    ensures |r| == |c| && |ChainItems(r)| == |ChainItems(c)|
  {
    ChainItemsUpdate(c, p.node, Node(c[p.node].slots[p.slot := s], c[p.node].buf));
    c[p.node := Node(c[p.node].slots[p.slot := s], c[p.node].buf)]
  }

  /** Overwriting a slot replaces the item of its rank in walk order and nothing else. */
  lemma SetSlotItems<S, B>(c: Chain<S, B>, p: Pos, s: S)
    requires p.node < |c| && p.slot < |c[p.node].slots|
    ensures |ChainItems(c[..p.node])| + p.slot < |ChainItems(c)|
    ensures ChainItems(SetSlot(c, p, s)) == ChainItems(c)[|ChainItems(c[..p.node])| + p.slot := s]
  {
    var n := Node(c[p.node].slots[p.slot := s], c[p.node].buf);
    ChainItemsUpdate(c, p.node, n);
    var pre, post := ChainItems(c[..p.node]), ChainItems(c[p.node + 1..]);
    var whole, updated := pre + c[p.node].slots + post, pre + n.slots + post;
    var at := |pre| + p.slot;
    forall k | 0 <= k < |whole|
      ensures updated[k] == whole[at := s][k]
    {
      if k < |pre| {
      } else if k < |pre| + |n.slots| {
        assert updated[k] == n.slots[k - |pre|] && whole[k] == c[p.node].slots[k - |pre|];
      } else {
        assert updated[k] == post[k - |pre| - |n.slots|] && whole[k] == post[k - |pre| - |n.slots|];
      }
    }
    assert updated == whole[at := s];
  }


  // ---------------------------------------------------------------------
  // Decoded tables: each slot holds the stored hash, the key and the value.
  // The map a decoded table stands for has one entry per slot.

  datatype Item<K, V> = Item(hash: Word, key: K, value: V)

  /** No two slots of the run hold the same key. */
  ghost predicate DistinctKeys<K, V>(s: seq<Item<K, V>>)
  {
    forall i, j {:trigger KeysDiffer(s, i, j)} | 0 <= i < j < |s| :: KeysDiffer(s, i, j)
  }

  /** Slots i and j of the run hold different keys. */
  ghost predicate KeysDiffer<K, V>(s: seq<Item<K, V>>, i: nat, j: nat)
    requires i < |s| && j < |s|
  {
    s[i].key != s[j].key
  }

  lemma DistinctAt<K, V>(s: seq<Item<K, V>>, i: nat, j: nat)
    requires DistinctKeys(s) && i < |s| && j < |s| && i != j
    ensures s[i].key != s[j].key
  {
    if i < j {
      assert KeysDiffer(s, i, j);
    } else {
      assert KeysDiffer(s, j, i);
    }
  }

  ghost function KeySet<K, V>(s: seq<Item<K, V>>): set<K>
  {
    set j | 0 <= j < |s| :: s[j].key
  }

  /** The map of a run of slots, a later slot overriding an earlier one of the same key. */
  ghost function ToMap<K, V>(s: seq<Item<K, V>>): map<K, V>
  {
    if s == [] then map[] else ToMap(s[..|s| - 1])[s[|s| - 1].key := s[|s| - 1].value]
  }

  lemma KeySetSnoc<K, V>(s: seq<Item<K, V>>, x: Item<K, V>)
    ensures KeySet(s + [x]) == KeySet(s) + {x.key}
  {
    var s2 := s + [x];
    forall q ensures q in KeySet(s2) <==> q in KeySet(s) + {x.key} {
      if q in KeySet(s2) {
        var j :| 0 <= j < |s2| && s2[j].key == q;
        if j < |s| { assert s[j] == s2[j]; }
      }
      if q in KeySet(s) {
        var j :| 0 <= j < |s| && s[j].key == q;
        assert s2[j] == s[j];
      }
      assert s2[|s|] == x;
    }
  }

  lemma {:induction false} ToMapKeys<K, V>(s: seq<Item<K, V>>)
    ensures ToMap(s).Keys == KeySet(s)
  {
    if s != [] {
      var n := |s| - 1;
      assert s == s[..n] + [s[n]];
      ToMapKeys(s[..n]);
      KeySetSnoc(s[..n], s[n]);
    }
  }

  lemma {:induction false} ToMapAt<K, V>(s: seq<Item<K, V>>, j: nat)
    requires DistinctKeys(s) && j < |s|
    ensures s[j].key in ToMap(s) && ToMap(s)[s[j].key] == s[j].value
  {
    var n := |s| - 1;
    if j < n {
      assert DistinctKeys(s[..n]) by {
        forall a, b | 0 <= a < b < n ensures s[..n][a].key != s[..n][b].key {
          assert s[..n][a] == s[a] && s[..n][b] == s[b];
          DistinctAt(s, a, b);
        }
      }
      DistinctAt(s, j, n);
      assert s[..n][j] == s[j];
      ToMapAt(s[..n], j);
    }
  }

  /** The map of a concatenation is the union, the second run overriding the first. */
  lemma {:induction false} ToMapConcat<K, V>(s1: seq<Item<K, V>>, s2: seq<Item<K, V>>)
    ensures ToMap(s1 + s2) == ToMap(s1) + ToMap(s2)
  {
    if s2 == [] {
      assert s1 + s2 == s1;
    } else {
      var n := |s2| - 1;
      assert (s1 + s2)[..|s1 + s2| - 1] == s1 + s2[..n];
      ToMapConcat(s1, s2[..n]);
    }
  }

  /** A sequence of slots has distinct keys exactly when both halves do and share none. */
  lemma DistinctConcat<K, V>(s1: seq<Item<K, V>>, s2: seq<Item<K, V>>)
    ensures DistinctKeys(s1 + s2) <==>
      DistinctKeys(s1) && DistinctKeys(s2) && KeySet(s1) !! KeySet(s2)
  {
    var s := s1 + s2;
    if DistinctKeys(s) {
      assert DistinctKeys(s1) by {
        forall i, j | 0 <= i < j < |s1| ensures s1[i].key != s1[j].key {
          assert s[i] == s1[i] && s[j] == s1[j];
          DistinctAt(s, i, j);
        }
      }
      assert DistinctKeys(s2) by {
        forall i, j | 0 <= i < j < |s2| ensures s2[i].key != s2[j].key {
          assert s[|s1| + i] == s2[i] && s[|s1| + j] == s2[j];
          DistinctAt(s, |s1| + i, |s1| + j);
        }
      }
      forall i, j | 0 <= i < |s1| && 0 <= j < |s2| ensures s1[i].key != s2[j].key {
        assert s[i] == s1[i] && s[|s1| + j] == s2[j];
        DistinctAt(s, i, |s1| + j);
      }
    }
    if DistinctKeys(s1) && DistinctKeys(s2) && KeySet(s1) !! KeySet(s2) {
      forall i, j | 0 <= i < j < |s| ensures s[i].key != s[j].key {
        if j < |s1| {
          assert s[i] == s1[i] && s[j] == s1[j];
          DistinctAt(s1, i, j);
        } else if i >= |s1| {
          assert s[i] == s2[i - |s1|] && s[j] == s2[j - |s1|];
          DistinctAt(s2, i - |s1|, j - |s1|);
        } else {
          assert s[i] == s1[i] && s[j] == s2[j - |s1|];
          assert s[i].key in KeySet(s1) && s[j].key in KeySet(s2);
        }
      }
    }
  }

  lemma KeySetConcat<K, V>(s1: seq<Item<K, V>>, s2: seq<Item<K, V>>)
    ensures KeySet(s1 + s2) == KeySet(s1) + KeySet(s2)
  {
    var s := s1 + s2;
    forall q ensures q in KeySet(s) <==> q in KeySet(s1) + KeySet(s2) {
      if q in KeySet(s) {
        var j :| 0 <= j < |s| && s[j].key == q;
        if j < |s1| { assert s1[j] == s[j]; } else { assert s2[j - |s1|] == s[j]; }
      }
      if q in KeySet(s1) {
        var j :| 0 <= j < |s1| && s1[j].key == q;
        assert s[j] == s1[j];
      }
      if q in KeySet(s2) {
        var j :| 0 <= j < |s2| && s2[j].key == q;
        assert s[|s1| + j] == s2[j];
      }
    }
  }

  lemma MapAssoc<K, V>(a: map<K, V>, b: map<K, V>, c: map<K, V>)
    ensures a + (b + c) == (a + b) + c
  {
  }

  lemma MapUpdateAfter<K, V>(a: map<K, V>, m: map<K, V>, q: K, v: V)
    ensures a + m[q := v] == (a + m)[q := v]
  {
  }

  lemma MapRemoveAfter<K, V>(a: map<K, V>, m: map<K, V>, q: K)
    requires q !in a
    ensures a + (m - {q}) == (a + m) - {q}
  {
  }

  lemma MapSwap<K, V>(a: map<K, V>, n: map<K, V>, z: map<K, V>)
    requires n.Keys !! z.Keys
    ensures a + n + z == (a + z) + n
  {
  }

  /** The middle run of a run with distinct keys has distinct keys of its own, shared with neither side. */
  lemma SpliceParts<K, V>(a: seq<Item<K, V>>, n: seq<Item<K, V>>, z: seq<Item<K, V>>)
    requires DistinctKeys(a + n + z)
    ensures DistinctKeys(n) && KeySet(n) !! KeySet(a) && KeySet(n) !! KeySet(z)
  {
    DistinctConcat(a + n, z);
    DistinctConcat(a, n);
    KeySetConcat(a, n);
  }

  /** Swapping the middle run for another one whose keys the sides do not hold keeps keys distinct. */
  lemma SpliceDistinct<K, V>(a: seq<Item<K, V>>, n: seq<Item<K, V>>, z: seq<Item<K, V>>, n2: seq<Item<K, V>>)
    requires DistinctKeys(a + n + z) && DistinctKeys(n2)
    requires KeySet(n2) !! KeySet(a) && KeySet(n2) !! KeySet(z)
    ensures DistinctKeys(a + n2 + z)
  {
    DistinctConcat(a + n, z);
    DistinctConcat(a, n);
    KeySetConcat(a, n);
    DistinctConcat(a, n2);
    KeySetConcat(a, n2);
    DistinctConcat(a + n2, z);
  }

  /** The map of a + n + z is the sides' map overridden by the middle's, when the middle and z share no key. */
  lemma SpliceMap<K, V>(a: seq<Item<K, V>>, n: seq<Item<K, V>>, z: seq<Item<K, V>>)
    requires KeySet(n) !! KeySet(z)
    ensures ToMap(a + n + z) == (ToMap(a) + ToMap(z)) + ToMap(n)
    ensures (ToMap(a) + ToMap(z)).Keys == KeySet(a) + KeySet(z)
  {
    ToMapConcat(a + n, z);
    ToMapConcat(a, n);
    ToMapKeys(a);
    ToMapKeys(n);
    ToMapKeys(z);
    MapSwap(ToMap(a), ToMap(n), ToMap(z));
  }

  /** With distinct keys the map has exactly one entry per slot. */
  lemma {:induction false} DistinctCount<K, V>(s: seq<Item<K, V>>)
    requires DistinctKeys(s)
    ensures |KeySet(s)| == |s|
  {
    if s != [] {
      var n := |s| - 1;
      assert s == s[..n] + [s[n]];
      DistinctConcat(s[..n], [s[n]]);
      DistinctCount(s[..n]);
      KeySetSnoc(s[..n], s[n]);
      assert KeySet([s[n]]) == {s[n].key};
    }
  }

  /** Overwriting a slot with one of the same key changes only that key's value. */
  lemma ToMapSet<K, V>(s: seq<Item<K, V>>, i: nat, x: Item<K, V>)
    requires DistinctKeys(s) && i < |s| && x.key == s[i].key
    ensures DistinctKeys(s[i := x]) && KeySet(s[i := x]) == KeySet(s)
    ensures ToMap(s[i := x]) == ToMap(s)[x.key := x.value]
  {
    var s2 := s[i := x];
    forall a, b | 0 <= a < b < |s2| ensures s2[a].key != s2[b].key {
      DistinctAt(s, a, b);
    }
    assert KeySet(s2) == KeySet(s) by {
      forall q ensures q in KeySet(s2) <==> q in KeySet(s) {
        if q in KeySet(s) {
          var j :| 0 <= j < |s| && s[j].key == q;
          assert s2[j].key == q;
        }
        if q in KeySet(s2) {
          var j :| 0 <= j < |s2| && s2[j].key == q;
          assert s[j].key == q;
        }
      }
    }
    ToMapKeys(s);
    ToMapKeys(s2);
    forall k | k in KeySet(s) ensures ToMap(s2)[k] == ToMap(s)[x.key := x.value][k] {
      var j :| 0 <= j < |s| && s[j].key == k;
      if j != i {
        DistinctAt(s, i, j);
      }
      ToMapAt(s, j);
      ToMapAt(s2, j);
    }
  }

  /** Removing slot i of a bucket removes exactly that slot's key. */
  lemma RemoveSlotKeys<K, V>(s: seq<Item<K, V>>, i: nat)
    requires DistinctKeys(s) && i < |s|
    ensures DistinctKeys(RemoveSlot(s, i))
    ensures KeySet(RemoveSlot(s, i)) == KeySet(s) - {s[i].key}
  {
    var n := |s| - 1;
    var r := RemoveSlot(s, i);
    if n == 0 {
      assert r == [];
      assert KeySet(s) == {s[0].key};
    } else {
      // r[j] is s[j] for j != i, and the former last slot s[n] at i.
      assert forall j | 0 <= j < n && j != i :: r[j] == s[j];
      assert i < n ==> r[i] == s[n];
      forall j1, j2 | 0 <= j1 < j2 < n ensures r[j1].key != r[j2].key {
        var a := if j1 == i then n else j1;
        var b := if j2 == i then n else j2;
        assert r[j1] == s[a] && r[j2] == s[b] && a != b;
        DistinctAt(s, a, b);
      }
      forall q ensures q in KeySet(r) <==> q in KeySet(s) && q != s[i].key {
        if q in KeySet(r) {
          var j :| 0 <= j < n && r[j].key == q;
          var a := if j == i then n else j;
          assert r[j] == s[a] && a != i;
          DistinctAt(s, a, i);
        }
        if q in KeySet(s) && q != s[i].key {
          var j :| 0 <= j < |s| && s[j].key == q;
          if j == n {
            assert r[i] == s[n];
          } else {
            assert j != i && r[j] == s[j];
          }
        }
      }
    }
  }

  /** Every key left after removing a slot keeps its value. */
  lemma RemoveSlotValues<K, V>(s: seq<Item<K, V>>, i: nat)
    requires DistinctKeys(s) && i < |s|
    ensures forall q | q in ToMap(RemoveSlot(s, i)) :: q in ToMap(s) && ToMap(RemoveSlot(s, i))[q] == ToMap(s)[q]
  {
    var n := |s| - 1;
    var r := RemoveSlot(s, i);
    RemoveSlotKeys(s, i);
    ToMapKeys(r);
    forall q | q in ToMap(r) ensures q in ToMap(s) && ToMap(r)[q] == ToMap(s)[q] {
      var j :| 0 <= j < n && r[j].key == q;
      var a := if j == i then n else j;
      assert r[j] == s[a];
      ToMapAt(r, j);
      ToMapAt(s, a);
    }
  }

  lemma ToMapRemoveSlot<K, V>(s: seq<Item<K, V>>, i: nat)
    requires DistinctKeys(s) && i < |s|
    ensures DistinctKeys(RemoveSlot(s, i))
    ensures KeySet(RemoveSlot(s, i)) == KeySet(s) - {s[i].key}
    ensures ToMap(RemoveSlot(s, i)) == ToMap(s) - {s[i].key}
  {
    var r := RemoveSlot(s, i);
    var want := ToMap(s) - {s[i].key};
    RemoveSlotKeys(s, i);
    assert ToMap(r).Keys == want.Keys by {
      ToMapKeys(s);
      ToMapKeys(r);
    }
    assert forall q | q in ToMap(r) :: ToMap(r)[q] == want[q] by {
      RemoveSlotValues(s, i);
    }
  }

  // ---------------------------------------------------------------------
  // Invariants of a decoded table and the map it stands for.

  /** Every slot of chain b stores its key's hash, and that hash selects b. */
  ghost predicate ChainPlaced<K, V, B>(c: Chain<Item<K, V>, B>, b: nat, nb: nat, hashOf: K -> Word)
    requires nb > 0
  {
    forall x | x in ChainItems(c) :: x.hash == hashOf(x.key) && Home(x.hash, nb) == b
  }

  ghost predicate Good<K, V, B>(t: Table<Item<K, V>, B>, hashOf: K -> Word)
  {
    |t| > 0 && Shaped(t) &&
    (forall b {:trigger ChainPlaced(t[b], b, |t|, hashOf)} | 0 <= b < |t| :: ChainPlaced(t[b], b, |t|, hashOf)) &&
    DistinctKeys(Items(t))
  }

  /** The map a decoded table stands for. */
  ghost function Contents<K, V, B>(t: Table<Item<K, V>, B>): map<K, V>
  {
    ToMap(Items(t))
  }

  /** The slot predicate of a lookup: same stored hash, same key. */
  function KeyIs<K(==), V, B>(q: K, h: Word): (B, Item<K, V>) -> bool
  {
    (buf: B, x: Item<K, V>) => x.hash == h && x.key == q
  }

  /** The slot count of a table is the size of its map. */
  lemma CountIsSize<K, V, B>(t: Table<Item<K, V>, B>)
    requires DistinctKeys(Items(t))
    ensures |Contents(t)| == |Items(t)|
  {
    DistinctCount(Items(t));
    ToMapKeys(Items(t));
  }

  /** Keys held by chains other than b never select b. */
  lemma OtherChains<K, V, B>(t: Table<Item<K, V>, B>, hashOf: K -> Word, b: nat, lo: nat, hi: nat, q: K)
    requires Good(t, hashOf) && b < |t| && lo <= hi <= |t| && (b < lo || hi <= b)
    requires q in KeySet(Items(t[lo..hi]))
    ensures Home(hashOf(q), |t|) != b
  {
    var j :| 0 <= j < |Items(t[lo..hi])| && Items(t[lo..hi])[j].key == q;
    var y := Items(t[lo..hi])[j];
    var b2 := ItemsMember(t[lo..hi], y);
    assert t[lo..hi][b2] == t[lo + b2];
    assert ChainPlaced(t[lo + b2], lo + b2, |t|, hashOf);
  }

  /**
   * Replacing chain h by a chain whose slots are placed for h and have
   * distinct keys: the table stays good, and its map changes only in the
   * part chain h contributes.
   */
  lemma ReplaceChain<K, V, B>(t: Table<Item<K, V>, B>, hashOf: K -> Word, h: nat, c2: Chain<Item<K, V>, B>)
    returns (rest: map<K, V>)
    requires Good(t, hashOf) && h < |t| && ChainShaped(c2) && DistinctKeys(ChainItems(c2))
    requires ChainPlaced(c2, h, |t|, hashOf)
    ensures Good(t[h := c2], hashOf)
    ensures DistinctKeys(ChainItems(t[h]))
    ensures rest.Keys !! KeySet(ChainItems(t[h])) && rest.Keys !! KeySet(ChainItems(c2))
    ensures Contents(t) == rest + ToMap(ChainItems(t[h]))
    ensures Contents(t[h := c2]) == rest + ToMap(ChainItems(c2))
  {
    var t2 := t[h := c2];
    ItemsUpdate(t, h, c2);
    assert t[..h] == t2[..h] && t[h + 1..] == t2[h + 1..];
    var P, C, Q, C2 := Items(t[..h]), ChainItems(t[h]), Items(t[h + 1..]), ChainItems(c2);
    SpliceParts(P, C, Q);
    OutsideChain(t, hashOf, h, c2);
    SpliceDistinct(P, C, Q, C2);
    SpliceMap(P, C, Q);
    SpliceMap(P, C2, Q);
    ToMapKeys(C);
    ToMapKeys(C2);
    rest := ToMap(P) + ToMap(Q);
    assert Shaped(t2) && forall b | 0 <= b < |t2| :: ChainPlaced(t2[b], b, |t2|, hashOf);
  }

  /** Keys placed for chain h are held by no other chain. */
  lemma OutsideChain<K, V, B>(t: Table<Item<K, V>, B>, hashOf: K -> Word, h: nat, c2: Chain<Item<K, V>, B>)
    requires Good(t, hashOf) && h < |t| && ChainPlaced(c2, h, |t|, hashOf)
    ensures KeySet(ChainItems(c2)) !! KeySet(Items(t[..h]))
    ensures KeySet(ChainItems(c2)) !! KeySet(Items(t[h + 1..]))
  {
    var P, Q, C2 := Items(t[..h]), Items(t[h + 1..]), ChainItems(c2);
    forall q | q in KeySet(C2) ensures q !in KeySet(P) && q !in KeySet(Q) {
      var j :| 0 <= j < |C2| && C2[j].key == q;
      assert C2[j] in C2;
      if q in KeySet(P) { OtherChains(t, hashOf, h, 0, h, q); }
      if q in KeySet(Q) {
        assert t[h + 1..] == t[h + 1..|t|];
        OtherChains(t, hashOf, h, h + 1, |t|, q);
      }
    }
  }

  /**
   * Replacing bucket k of a chain by one whose keys are among the old
   * bucket's: keys stay distinct, and the chain's map changes only in the
   * part that bucket contributes.
   */
  lemma ReplaceNode<K, V, B>(c: Chain<Item<K, V>, B>, k: nat, n2: Node<Item<K, V>, B>) returns (rest: map<K, V>)
    requires k < |c| && DistinctKeys(ChainItems(c)) && DistinctKeys(n2.slots)
    requires KeySet(n2.slots) <= KeySet(c[k].slots)
    ensures DistinctKeys(ChainItems(c[k := n2])) && DistinctKeys(c[k].slots)
    ensures rest.Keys !! KeySet(c[k].slots)
    ensures ToMap(ChainItems(c)) == rest + ToMap(c[k].slots)
    ensures ToMap(ChainItems(c[k := n2])) == rest + ToMap(n2.slots)
  {
    ChainItemsUpdate(c, k, n2);
    var A, N, Z, N2 := ChainItems(c[..k]), c[k].slots, ChainItems(c[k + 1..]), n2.slots;
    SpliceParts(A, N, Z);
    SpliceDistinct(A, N, Z, N2);
    SpliceMap(A, N, Z);
    SpliceMap(A, N2, Z);
    ToMapKeys(N);
    rest := ToMap(A) + ToMap(Z);
  }

  /** A bucket's slots are items of its chain, so they keep the chain's placement. */
  lemma NodePlaced<K, V, B>(c: Chain<Item<K, V>, B>, k: nat, b: nat, nb: nat, hashOf: K -> Word, y: Item<K, V>)
    requires nb > 0 && k < |c| && ChainPlaced(c, b, nb, hashOf) && y in c[k].slots
    ensures y.hash == hashOf(y.key) && Home(y.hash, nb) == b
  {
    var j :| 0 <= j < |c[k].slots| && c[k].slots[j] == y;
    ChainSlotMember(c, Pos(k, j));
  }

  /** The chain after replacing bucket k keeps its placement when the new bucket's slots are placed. */
  lemma ChainPlacedUpdate<K, V, B>(c: Chain<Item<K, V>, B>, k: nat, n2: Node<Item<K, V>, B>, b: nat, nb: nat, hashOf: K -> Word)
    requires nb > 0 && k < |c| && ChainPlaced(c, b, nb, hashOf)
    requires forall y | y in n2.slots :: y.hash == hashOf(y.key) && Home(y.hash, nb) == b
    ensures ChainPlaced(c[k := n2], b, nb, hashOf)
  {
    ChainItemsUpdate(c, k, n2);
  }

  lemma ToMapSnoc<K, V>(s: seq<Item<K, V>>, x: Item<K, V>)
    requires DistinctKeys(s) && x.key !in KeySet(s)
    ensures DistinctKeys(s + [x]) && KeySet(s + [x]) == KeySet(s) + {x.key}
    ensures ToMap(s + [x]) == ToMap(s)[x.key := x.value]
  {
    KeySetSnoc(s, x);
    var s2 := s + [x];
    forall i, j | 0 <= i < j < |s2| ensures s2[i].key != s2[j].key {
      if j < |s| { assert s2[i] == s[i] && s2[j] == s[j]; DistinctAt(s, i, j); }
      else { assert s2[i] == s[i]; }
    }
    assert s2[..|s2| - 1] == s;
  }

  // ---------------------------------------------------------------------
  // The four map operations on a good table, each against the map.

  /** The chain a key's hash selects. */
  function HomeChain<K, V, B>(t: Table<Item<K, V>, B>, hashOf: K -> Word, q: K): (c: Chain<Item<K, V>, B>)
    requires |t| > 0
    ensures c in t
  {
    t[Home(hashOf(q), |t|)]
  }

  /**
   * Walking the selected chain for a slot with the query's hash and key
   * finds one exactly when the key is in the map, and that slot holds the
   * key's value.
   */
  lemma Lookup<K, V, B>(t: Table<Item<K, V>, B>, hashOf: K -> Word, q: K)
    requires Good(t, hashOf)
    ensures var r := Find(HomeChain(t, hashOf, q), KeyIs(q, hashOf(q)));
      (r.Some? <==> q in Contents(t)) &&
      (r.Some? ==> HomeChain(t, hashOf, q)[r.value.node].slots[r.value.slot].key == q &&
                   HomeChain(t, hashOf, q)[r.value.node].slots[r.value.slot].value == Contents(t)[q])
  {
    var h := Home(hashOf(q), |t|);
    var c := t[h];
    var r := Find(c, KeyIs(q, hashOf(q)));
    ToMapKeys(Items(t));
    if r.Some? {
      var x := c[r.value.node].slots[r.value.slot];
      ChainSlotMember(c, r.value);
      ChainMember(t, h, x);
      var j :| 0 <= j < |Items(t)| && Items(t)[j] == x;
      ToMapAt(Items(t), j);
    } else if q in Contents(t) {
      var j :| 0 <= j < |Items(t)| && Items(t)[j].key == q;
      var x := Items(t)[j];
      var b := ItemsMember(t, x);
      assert ChainPlaced(t[b], b, |t|, hashOf);
      var p := ChainItemsMember(t[b], x);
    }
  }

  /** The item in a slot of a good table is an entry of its map. */
  lemma SlotInContents<K, V, B>(t: Table<Item<K, V>, B>, hashOf: K -> Word, b: nat, p: Pos)
    requires Good(t, hashOf) && b < |t| && p.node < |t[b]| && p.slot < |t[b][p.node].slots|
    ensures var x := t[b][p.node].slots[p.slot];
      x.key in Contents(t) && Contents(t)[x.key] == x.value
  {
    var x := t[b][p.node].slots[p.slot];
    ChainSlotMember(t[b], p);
    ChainMember(t, b, x);
    var j :| 0 <= j < |Items(t)| && Items(t)[j] == x;
    ToMapAt(Items(t), j);
  }

  /**
   * Storing a key the map does not hold: the item goes after every item of
   * its chain, the map gains exactly that entry and the slot count grows by
   * one.
   */
  lemma InsertNew<K, V, B>(t: Table<Item<K, V>, B>, hashOf: K -> Word, q: K, v: V, spare: B, buf: B)
    requires Good(t, hashOf) && q !in Contents(t)
    ensures var h := Home(hashOf(q), |t|);
      var t2 := t[h := PushLast(WithRoom(t[h], spare), Item(hashOf(q), q, v), buf)];
      Good(t2, hashOf) && Contents(t2) == Contents(t)[q := v] && |Items(t2)| == |Items(t)| + 1
  {
    var h := Home(hashOf(q), |t|);
    var x := Item(hashOf(q), q, v);
    var c := t[h];
    var c2 := PushLast(WithRoom(c, spare), x, buf);
    assert ChainShaped(c2) && ChainItems(c2) == ChainItems(c) + [x] by {
      Appended(c, spare, x, buf);
    }
    assert q !in KeySet(ChainItems(c)) && DistinctKeys(ChainItems(c)) by {
      var P, C, Q := Items(t[..h]), ChainItems(c), Items(t[h + 1..]);
      ToMapKeys(Items(t));
      ItemsUpdate(t, h, c);
      KeySetConcat(P, C);
      KeySetConcat(P + C, Q);
      SpliceParts(P, C, Q);
    }
    assert DistinctKeys(ChainItems(c2)) && ToMap(ChainItems(c2)) == ToMap(ChainItems(c))[q := v] by {
      ToMapSnoc(ChainItems(c), x);
    }
    assert ChainPlaced(c2, h, |t|, hashOf) by {
      assert ChainPlaced(c, h, |t|, hashOf);
    }
    var rest := ReplaceChain(t, hashOf, h, c2);
    assert Contents(t[h := c2]) == Contents(t)[q := v] by {
      MapUpdateAfter(rest, ToMap(ChainItems(c)), q, v);
    }
    assert |Items(t[h := c2])| == |Items(t)| + 1 by {
      ItemsUpdate(t, h, c2);
    }
  }

  /** Every key of a bucket is a key of its chain. */
  lemma NodeKeysInChain<K, V, B>(c: Chain<Item<K, V>, B>, k: nat)
    requires k < |c|
    ensures KeySet(c[k].slots) <= KeySet(ChainItems(c))
  {
    ChainItemsUpdate(c, k, c[k]);
    KeySetConcat(ChainItems(c[..k]) + c[k].slots, ChainItems(c[k + 1..]));
    KeySetConcat(ChainItems(c[..k]), c[k].slots);
  }

  /**
   * Replacing bucket k of chain h by one whose slots are placed for h and
   * whose keys are among the old bucket's: the table stays good and its map
   * changes only in the part that bucket contributes.
   */
  lemma ReplaceInChain<K, V, B>(t: Table<Item<K, V>, B>, hashOf: K -> Word, h: nat, k: nat, n2: Node<Item<K, V>, B>)
    returns (rest: map<K, V>)
    requires Good(t, hashOf) && h < |t| && k < |t[h]|
    requires |n2.slots| <= BucketCapacity && DistinctKeys(n2.slots)
    requires KeySet(n2.slots) <= KeySet(t[h][k].slots)
    requires forall y | y in n2.slots :: y.hash == hashOf(y.key) && Home(y.hash, |t|) == h
    ensures Good(t[h := t[h][k := n2]], hashOf)
    ensures DistinctKeys(t[h][k].slots)
    ensures rest.Keys !! KeySet(t[h][k].slots)
    ensures Contents(t) == rest + ToMap(t[h][k].slots)
    ensures Contents(t[h := t[h][k := n2]]) == rest + ToMap(n2.slots)
    ensures |Items(t[h := t[h][k := n2]])| == |Items(t)| - |t[h][k].slots| + |n2.slots|
  {
    var c := t[h];
    var c2 := c[k := n2];
    assert DistinctKeys(ChainItems(c)) by {
      ItemsUpdate(t, h, c);
      SpliceParts(Items(t[..h]), ChainItems(c), Items(t[h + 1..]));
    }
    var inner := ReplaceNode(c, k, n2);
    assert ChainPlaced(c2, h, |t|, hashOf) by {
      ChainPlacedUpdate(c, k, n2, h, |t|, hashOf);
    }
    assert ChainShaped(c2) by {
      assert Shaped(t) && ChainShaped(c);
    }
    var outer := ReplaceChain(t, hashOf, h, c2);
    assert KeySet(c[k].slots) <= outer.Keys + KeySet(c[k].slots) + KeySet(ChainItems(c)) by {
      NodeKeysInChain(c, k);
    }
    assert KeySet(c[k].slots) <= KeySet(ChainItems(c)) by {
      NodeKeysInChain(c, k);
    }
    assert inner.Keys <= KeySet(ChainItems(c)) by {
      ToMapKeys(ChainItems(c));
    }
    rest := outer + inner;
    assert Contents(t) == rest + ToMap(c[k].slots) by {
      MapAssoc(outer, inner, ToMap(c[k].slots));
    }
    assert Contents(t[h := c2]) == rest + ToMap(n2.slots) by {
      MapAssoc(outer, inner, ToMap(n2.slots));
    }
    assert |ChainItems(c2)| == |ChainItems(c)| - |c[k].slots| + |n2.slots| by {
      ChainItemsUpdate(c, k, n2);
    }
    assert |Items(t[h := c2])| == |Items(t)| - |ChainItems(c)| + |ChainItems(c2)| by {
      ItemsUpdate(t, h, c2);
    }
  }

  /** Overwriting the value of a slot: only that key's value changes. */
  lemma Overwrite<K, V, B>(t: Table<Item<K, V>, B>, hashOf: K -> Word, b: nat, p: Pos, v: V)
    requires Good(t, hashOf) && b < |t| && p.node < |t[b]| && p.slot < |t[b][p.node].slots|
    ensures var x := t[b][p.node].slots[p.slot];
      var t2 := t[b := SetSlot(t[b], p, x.(value := v))];
      x.key in Contents(t) && Good(t2, hashOf) &&
      Contents(t2) == Contents(t)[x.key := v] && |Items(t2)| == |Items(t)|
  {
    var c := t[b];
    var n := c[p.node];
    var x := n.slots[p.slot].(value := v);
    var n2 := Node(n.slots[p.slot := x], n.buf);
    NodeBounded(t, hashOf, b, p.node);
    ToMapSet(n.slots, p.slot, x);
    assert forall y | y in n2.slots :: y.hash == hashOf(y.key) && Home(y.hash, |t|) == b by {
      forall y | y in n2.slots ensures y.hash == hashOf(y.key) && Home(y.hash, |t|) == b {
        var j :| 0 <= j < |n2.slots| && n2.slots[j] == y;
        NodePlaced(c, p.node, b, |t|, hashOf, n.slots[j]);
      }
    }
    var rest := ReplaceInChain(t, hashOf, b, p.node, n2);
    assert x.key in Contents(t) by {
      ToMapKeys(n.slots);
      assert n.slots[p.slot].key == x.key;
    }
    assert Contents(t[b := c[p.node := n2]]) == Contents(t)[x.key := v] by {
      MapUpdateAfter(rest, ToMap(n.slots), x.key, v);
    }
  }

  /** Swap-removing a slot from its bucket: exactly that slot's key leaves the map. */
  lemma Remove<K, V, B>(t: Table<Item<K, V>, B>, hashOf: K -> Word, b: nat, p: Pos)
    requires Good(t, hashOf) && b < |t| && p.node < |t[b]| && p.slot < |t[b][p.node].slots|
    ensures var x := t[b][p.node].slots[p.slot];
      var t2 := t[b := SwapRemove(t[b], p)];
      x.key in Contents(t) && Good(t2, hashOf) &&
      Contents(t2) == Contents(t) - {x.key} && |Items(t2)| == |Items(t)| - 1
  {
    var c := t[b];
    var n := c[p.node];
    var q := n.slots[p.slot].key;
    var n2 := Node(RemoveSlot(n.slots, p.slot), n.buf);
    NodeBounded(t, hashOf, b, p.node);
    ToMapRemoveSlot(n.slots, p.slot);
    assert forall y | y in n2.slots :: y.hash == hashOf(y.key) && Home(y.hash, |t|) == b by {
      forall y | y in n2.slots ensures y.hash == hashOf(y.key) && Home(y.hash, |t|) == b {
        var j :| 0 <= j < |n2.slots| && n2.slots[j] == y;
        var a := if j == p.slot then |n.slots| - 1 else j;
        assert y == n.slots[a];
        NodePlaced(c, p.node, b, |t|, hashOf, y);
      }
    }
    var rest := ReplaceInChain(t, hashOf, b, p.node, n2);
    assert q in KeySet(n.slots) by { assert n.slots[p.slot].key == q; }
    assert q in Contents(t) by { ToMapKeys(n.slots); }
    assert Contents(t[b := c[p.node := n2]]) == Contents(t) - {q} by {
      MapRemoveAfter(rest, ToMap(n.slots), q);
    }
  }

  /** A bucket of a good table holds at most eight slots with distinct keys. */
  lemma NodeBounded<K, V, B>(t: Table<Item<K, V>, B>, hashOf: K -> Word, h: nat, k: nat)
    requires Good(t, hashOf) && h < |t| && k < |t[h]|
    ensures |t[h][k].slots| <= BucketCapacity && DistinctKeys(t[h][k].slots)
  {
    ItemsUpdate(t, h, t[h]);
    SpliceParts(Items(t[..h]), ChainItems(t[h]), Items(t[h + 1..]));
    ChainItemsUpdate(t[h], k, t[h][k]);
    SpliceParts(ChainItems(t[h][..k]), t[h][k].slots, ChainItems(t[h][k + 1..]));
  }

  // ---------------------------------------------------------------------
  // Iteration cursors.  A cursor names chain b, bucket k of it (k == |t[b]|
  // standing for the NULL bucket after the last) and slot i of that bucket;
  // its rank is the number of items the walk has passed.

  ghost predicate CursorIn<S, B>(t: Table<S, B>, b: nat, k: nat, i: nat)
  {
    b < |t| && k <= |t[b]| && (if k < |t[b]| then i <= |t[b][k].slots| else i == 0)
  }

  ghost function Rank<S, B>(t: Table<S, B>, b: nat, k: nat, i: nat): nat
    requires b < |t| && k <= |t[b]|
  {
    |Items(t[..b])| + |ChainItems(t[b][..k])| + i
  }

  /** The slot under a cursor is the item of that rank in iteration order. */
  lemma RankSlot<S, B>(t: Table<S, B>, b: nat, k: nat, i: nat)
    requires b < |t| && k < |t[b]| && i < |t[b][k].slots|
    ensures Rank(t, b, k, i) < |Items(t)| && Items(t)[Rank(t, b, k, i)] == t[b][k].slots[i]
  {
    var c := t[b];
    var P, A, N, Z, Q := Items(t[..b]), ChainItems(c[..k]), c[k].slots, ChainItems(c[k + 1..]), Items(t[b + 1..]);
    var C := ChainItems(c);
    assert C == A + N + Z by {
      ChainItemsUpdate(c, k, c[k]);
    }
    assert Items(t) == P + C + Q by {
      ItemsUpdate(t, b, c);
    }
    assert C[|A| + i] == N[i];
    assert Items(t)[|P| + |A| + i] == C[|A| + i];
  }

  /** Leaving a bucket at its end for the next bucket of the chain passes nothing. */
  lemma RankNextNode<S, B>(t: Table<S, B>, b: nat, k: nat)
    requires b < |t| && k < |t[b]|
    ensures Rank(t, b, k, |t[b][k].slots|) == Rank(t, b, k + 1, 0)
  {
    var c := t[b];
    assert c[..k + 1] == c[..k] + [c[k]];
    ChainItemsConcat(c[..k], [c[k]]);
    assert ChainItems([c[k]]) == c[k].slots by { assert [c[k]][..0] == []; }
  }

  /** Leaving a chain at its end for the next array bucket passes nothing. */
  lemma RankNextChain<S, B>(t: Table<S, B>, b: nat)
    requires b + 1 < |t|
    ensures Rank(t, b, |t[b]|, 0) == Rank(t, b + 1, 0, 0)
  {
    assert t[..b + 1] == t[..b] + [t[b]];
    ItemsConcat(t[..b], [t[b]]);
    assert Items([t[b]]) == ChainItems(t[b]) by { assert [t[b]][..0] == []; }
    assert t[b][..|t[b]|] == t[b];
  }

  /** The end of the last chain has passed every item. */
  lemma RankEnd<S, B>(t: Table<S, B>)
    requires |t| > 0
    ensures Rank(t, |t| - 1, |t[|t| - 1]|, 0) == |Items(t)|
  {
    var b := |t| - 1;
    assert t[..b + 1] == t;
    assert t[b][..|t[b]|] == t[b];
  }

  /** A cursor never passes more items than the table has. */
  lemma RankBound<S, B>(t: Table<S, B>, b: nat, k: nat, i: nat)
    requires CursorIn(t, b, k, i)
    ensures Rank(t, b, k, i) <= |Items(t)|
  {
    var c := t[b];
    ItemsUpdate(t, b, c);
    if k < |c| {
      ChainItemsUpdate(c, k, c[k]);
    } else {
      assert c[..k] == c;
    }
  }

  /**
   * What a cursor has passed: its rank inside the table, or every item once
   * it is past the last array bucket.
   */
  ghost function Passed<S, B>(t: Table<S, B>, b: nat, k: nat, i: nat): nat
    requires b == |t| || CursorIn(t, b, k, i)
  {
    if b == |t| then |Items(t)| else Rank(t, b, k, i)
  }

  /**
   * The walk of an iterator's next step (map_iterator_next, strmap_next):
   * from the cursor, along the rest of its bucket, the following buckets of
   * its chain and then the following chains, to the first unvisited slot.
   * That slot is the item of the rank the cursor has passed; when there is
   * none the walk ends past the last array bucket, having passed every item.
   */
  method Advance<S, B>(t: Table<S, B>, b0: nat, k0: nat, i0: nat) returns (found: bool, b: nat, k: nat, i: nat)
    requires |t| > 0 && (b0 == |t| || CursorIn(t, b0, k0, i0))
    ensures found ==> b < |t| && k < |t[b]| && i < |t[b][k].slots| && Rank(t, b, k, i) == Passed(t, b0, k0, i0)
    ensures found ==> Passed(t, b0, k0, i0) < |Items(t)| && Items(t)[Passed(t, b0, k0, i0)] == t[b][k].slots[i]
    ensures !found ==> b == |t| && i == 0 && Passed(t, b0, k0, i0) == |Items(t)|
    ensures !found ==> (b0 == |t| && k == k0) || (b0 < |t| && k == |t[|t| - 1]|)
  {
    ghost var start := Passed(t, b0, k0, i0);
    b, k, i := b0, k0, if b0 == |t| then 0 else i0;
    found := false;
    label walk:
    while b < |t|
      invariant b < |t| ==> CursorIn(t, b, k, i) && Rank(t, b, k, i) == start
      invariant b >= |t| ==> b == |t| && start == |Items(t)| && i == 0
      invariant b >= |t| ==> (b0 == |t| && k == k0) || (b0 < |t| && k == |t[|t| - 1]|)
      invariant !found
      decreases |t| - b
    {
      while k < |t[b]|
        invariant CursorIn(t, b, k, i) && Rank(t, b, k, i) == start
        invariant !found
        decreases |t[b]| - k
      {
        if i < |t[b][k].slots| {
          found := true;
          break walk;
        }
        RankNextNode(t, b, k);
        k, i := k + 1, 0;
      }
      i := 0;
      if b + 1 == |t| {
        RankEnd(t);
      } else {
        RankNextChain(t, b);
        k := 0;
      }
      b := b + 1;
    }
    if found {
      RankSlot(t, b, k, i);
    }
  }

  /**
   * The bucket a new iterator starts from (map_iterator_make,
   * strmap_iterator): the first array bucket, or NULL when the map is empty.
   */
  function StartBucket<S, B>(t: Table<S, B>, len: nat): (r: nat)
    requires |t| > 0
    ensures r <= |t[0]|
    ensures |t[0]| > 0 ==> (r == |t[0]| <==> len == 0)
  {
    if len == 0 then |t[0]| else 0
  }

  /** A new iterator's cursor is inside the table and has passed nothing. */
  lemma StartPassesNothing<S, B>(t: Table<S, B>, len: nat)
    requires |t| > 0 && ChainShaped(t[0]) && len == |Items(t)|
    ensures CursorIn(t, 0, StartBucket(t, len), 0) && Passed(t, 0, StartBucket(t, len), 0) == 0
  {
    assert t[..0] == [];
    if len == 0 {
      FirstChainOfEmpty(t);
      assert t[0][..|t[0]|] == t[0];
    } else {
      assert t[0][..0] == [];
    }
  }

  /** Linking an empty bucket at the end of a chain changes neither the table's goodness nor its items. */
  lemma LinkEmpty<K, V, B>(t: Table<Item<K, V>, B>, hashOf: K -> Word, h: nat, spare: B)
    requires Good(t, hashOf) && h < |t|
    ensures Good(t[h := t[h] + [Node([], spare)]], hashOf)
    ensures Items(t[h := t[h] + [Node([], spare)]]) == Items(t)
  {
    var e: Chain<Item<K, V>, B> := [Node([], spare)];
    var c2 := t[h] + e;
    assert ChainItems(e) == [] by { assert e[..0] == []; }
    ChainItemsConcat(t[h], e);
    ItemsUpdate(t, h, c2);
    assert ChainPlaced(c2, h, |t|, hashOf) by { assert ChainPlaced(t[h], h, |t|, hashOf); }
    var t2 := t[h := c2];
    assert Shaped(t2) by {
      assert ChainShaped(t[h]);
      assert forall k | 0 <= k < |c2| :: |c2[k].slots| <= BucketCapacity by {
        forall k | 0 <= k < |c2| ensures |c2[k].slots| <= BucketCapacity {
          if k < |t[h]| { assert c2[k] == t[h][k]; }
        }
      }
      assert ChainShaped(c2);
      forall b | 0 <= b < |t2| ensures ChainShaped(t2[b]) {
        if b != h { assert t2[b] == t[b]; }
      }
    }
    assert ChainItems(c2) == ChainItems(t[h]);
    assert Items(t2) == Items(t);
    assert DistinctKeys(Items(t2));
    assert t2 == t[h := t[h] + [Node([], spare)]];
    assert forall b | 0 <= b < |t2| :: ChainPlaced(t2[b], b, |t2|, hashOf) by {
      forall b | 0 <= b < |t2| ensures ChainPlaced(t2[b], b, |t2|, hashOf) {
        assert ChainPlaced(t[b], b, |t|, hashOf);
      }
    }
  }

  // ---------------------------------------------------------------------
  // Construction: every map rounds the requested capacity up the same way.

  /** The least positive multiple of eight that is at least c. */
  function RoundedCapacity(c: nat): (r: nat)
    ensures r > 0 && r % BucketCapacity == 0 && c <= r
    ensures r == BucketCapacity || r < c + BucketCapacity
  {
    if c == 0 then BucketCapacity else (c + 7) / 8 * 8
  }

  /** Any positive multiple of eight that is at least c is at least the rounded capacity. */
  lemma RoundedCapacityLeast(c: nat, m: nat)
    requires m > 0 && m % BucketCapacity == 0 && c <= m
    ensures RoundedCapacity(c) <= m
  {
  }

  /** `if (capacity == 0) ++capacity; while (capacity % 8 != 0) ++capacity;` */
  method RoundCapacity(c: nat) returns (r: nat)
    ensures r == RoundedCapacity(c)
  {
    r := c;
    if r == 0 {
      r := r + 1;
    }
    while r % BucketCapacity != 0
      invariant 0 < r && c <= r <= RoundedCapacity(c)
      decreases RoundedCapacity(c) - r
    {
      r := r + 1;
    }
    RoundedCapacityLeast(c, r);
  }

  /** The table of a new map: every array bucket empty, with no overflow bucket. */
  function EmptyTable<S, B>(nb: nat, buf: B): (t: Table<S, B>)
    ensures |t| == nb && Shaped(t)
    ensures forall b | 0 <= b < nb :: t[b] == [Node([], buf)]
  {
    seq(nb, _ => [Node([], buf)])
  }

  lemma {:induction false} EmptyTableItems<S, B>(nb: nat, buf: B)
    ensures Items(EmptyTable<S, B>(nb, buf)) == []
  {
    if nb > 0 {
      var t := EmptyTable<S, B>(nb, buf);
      assert t[..nb - 1] == EmptyTable<S, B>(nb - 1, buf);
      EmptyTableItems<S, B>(nb - 1, buf);
      var c := t[nb - 1];
      assert c == [Node([], buf)];
      assert c[..0] == [];
      assert ChainItems(c) == ChainItems(c[..0]) + c[0].slots;
      assert Items(t) == Items(t[..nb - 1]) + ChainItems(c);
    }
  }

  /** A table with no items has none in its first chain either. */
  lemma FirstChainOfEmpty<S, B>(t: Table<S, B>)
    requires |t| > 0 && Items(t) == []
    ensures ChainItems(t[0]) == []
  {
    ItemsUpdate(t, 0, t[0]);
  }

  /** The key of slot i is new to the map of the slots before it. */
  lemma PrefixKeyFresh<K, V>(s: seq<Item<K, V>>, i: nat)
    requires DistinctKeys(s) && i < |s|
    ensures s[i].key !in ToMap(s[..i])
    ensures ToMap(s[..i + 1]) == ToMap(s[..i])[s[i].key := s[i].value]
  {
    ToMapKeys(s[..i]);
    forall j | 0 <= j < i ensures s[..i][j].key != s[i].key {
      DistinctAt(s, j, i);
    }
    assert s[..i + 1][..i] == s[..i];
  }
}
