/**
 * The current generic hash map (src/map.c, API in include/delta/map.h).
 *
 * A key is the caller's `map_key_t`: its bytes (none for a literal key) and
 * the hash the caller computed.  Each bucket keeps the bytes of its keys in
 * its own buffer; a slot here carries its key directly, and the bucket's
 * buffer is the node payload, so that insertion can be seen appending to it
 * and removal leaving it alone.  Values are byte strings of `value_size`
 * bytes.  The map object is a class whose fields the operations update in
 * place; replacing the caller's map after growth (`*m_ptr = n`) is modelled
 * by taking over the copy's fields.
 */
module Map {
  import opened Common
  import opened Chains

  /** MAP_DEFAULT_SEED */
  const DefaultSeed: nat := 13

  /** map_key_t: the key bytes (empty for a literal key) and their hash. */
  datatype Key = Key(data: seq<Byte>, hash: Word)

  function KeyHash(k: Key): Word
  {
    k.hash
  }

  /** map_key_from_cstr: the string's bytes with their NUL, hashed without it. */
  function KeyFromCStr(s: seq<Byte>, hashBytes: (seq<Byte>, nat) -> Word): (k: Key)
    ensures |k.data| == |s| + 1 && k.data[..|s|] == s && k.hash == hashBytes(s, DefaultSeed)
    ensures NoNul(s) ==> forall i :: 0 <= i < |k.data| ==> (k.data[i] == 0 <==> i == |s|)
  {
    Key(s + [0], hashBytes(s, DefaultSeed))
  }

  /** map_key_from on an integer: no bytes, the value itself (as size_t) as hash. */
  function KeyFromLiteral(v: int): (k: Key)
    ensures k.data == []
    ensures 0 <= v < WordModulus ==> k.hash == v
    ensures v < 0 && 0 <= v + WordModulus ==> k.hash == v + WordModulus
  {
    Key([], v % WordModulus)
  }

  /**
   * Two string keys are the same key exactly when the strings are equal,
   * whatever their hashes: the bytes are compared after the hash.
   */
  lemma CStrKeysEqual(s1: seq<Byte>, s2: seq<Byte>, hashBytes: (seq<Byte>, nat) -> Word)
    ensures KeyFromCStr(s1, hashBytes) == KeyFromCStr(s2, hashBytes) <==> s1 == s2
  {
    if KeyFromCStr(s1, hashBytes) == KeyFromCStr(s2, hashBytes) {
      assert s1 == (s1 + [0])[..|s1|] && s2 == (s2 + [0])[..|s2|];
    }
  }

  /**
   * Literal keys match on the hash alone, so two integers are the same key
   * exactly when they agree modulo 2^64; and a literal key is never a string
   * key, whose bytes include at least the NUL.
   */
  lemma LiteralKeys(a: int, b: int, s: seq<Byte>, hashBytes: (seq<Byte>, nat) -> Word)
    ensures KeyFromLiteral(a) == KeyFromLiteral(b) <==> a % WordModulus == b % WordModulus
    ensures KeyFromLiteral(a) != KeyFromCStr(s, hashBytes)
  {
  }

  /** A zero-filled value of n bytes (the `memset` of a new value). */
  function Zero(n: nat): seq<Byte>
  {
    seq(n, _ => 0)
  }

  /** Where a value lives: array bucket, bucket of its chain, slot. */
  datatype Ref = Ref(bucket: nat, at: Pos)

  type Slots = Table<Item<Key, seq<Byte>>, seq<Byte>>

  /**
   * The table after adding a key the map does not hold: a slot after every
   * slot of the key's chain, in its last bucket or a newly linked one, whose
   * buffer gains the key bytes.
   */
  function Added(t: Slots, key: Key, v: seq<Byte>): (r: Slots)
    requires |t| > 0 && Shaped(t)
    ensures |r| == |t|
  {
    var h := Home(key.hash, |t|);
    var c := WithRoom(t[h], []);
    t[h := PushLast(c, Item(key.hash, key, v), c[|c| - 1].buf + key.data)]
  }

  /**
   * Adding an absent key keeps the table good, maps the key to the value,
   * counts one more slot, and puts the new slot after the existing ones of
   * the last bucket of the key's chain.
   */
  lemma AddedFacts(t: Slots, key: Key, v: seq<Byte>)
    requires Good(t, KeyHash) && key !in Contents(t)
    ensures Good(Added(t, key, v), KeyHash)
    ensures Contents(Added(t, key, v)) == Contents(t)[key := v]
    ensures |Items(Added(t, key, v))| == |Items(t)| + 1
    ensures var h := Home(key.hash, |t|);
      var c := WithRoom(t[h], []);
      |Added(t, key, v)[h]| == |c| &&
      Added(t, key, v)[h][|c| - 1].slots == c[|c| - 1].slots + [Item(key.hash, key, v)]
  {
    var h := Home(key.hash, |t|);
    var c := WithRoom(t[h], []);
    InsertNew(t, KeyHash, key, v, [], c[|c| - 1].buf + key.data);
  }

  /**
   * Linking an empty bucket after a full last one does not change where an
   * added key goes.
   */
  lemma AddedLinked(t: Slots, key: Key, v: seq<Byte>)
    requires |t| > 0 && Shaped(t)
    requires var h := Home(key.hash, |t|); |t[h][|t[h]| - 1].slots| == BucketCapacity
    ensures var h := Home(key.hash, |t|);
      var t1 := t[h := t[h] + [Node([], [])]];
      Shaped(t1) && Added(t1, key, v) == Added(t, key, v)
  {
    var h := Home(key.hash, |t|);
    var t1 := t[h := t[h] + [Node([], [])]];
    assert Shaped(t1) by {
      assert ChainShaped(t[h]);
    }
  }

  /** Added spelled out for a chain already given room. */
  lemma AddedWith(t: Slots, key: Key, v: seq<Byte>, c: Chain<Item<Key, seq<Byte>>, seq<Byte>>)
    requires |t| > 0 && Shaped(t) && c == WithRoom(t[Home(key.hash, |t|)], [])
    ensures Added(t, key, v) == t[Home(key.hash, |t|) := PushLast(c, Item(key.hash, key, v), c[|c| - 1].buf + key.data)]
  {
  }

  /**
   * Doubling the capacity keeps it a multiple of eight that covers the
   * buckets, and the copy it sizes has room for one insertion under the
   * growth threshold.
   */
  lemma Doubled(capacity: nat, nb: nat, len: nat)
    requires nb > 0 && capacity % BucketCapacity == 0 && BucketCapacity * nb <= capacity
    requires 2 * len <= 13 * nb + 2
    ensures (2 * capacity) % BucketCapacity == 0 && BucketCapacity * nb <= 2 * capacity
    ensures RoundedCapacity(2 * capacity) == 2 * capacity
    ensures 2 * len <= 13 * (RoundedCapacity(2 * capacity) / BucketCapacity)
  {
    RoundedCapacityLeast(2 * capacity, 2 * capacity);
    var r := RoundedCapacity(2 * capacity);
    assert r / BucketCapacity >= 2 * nb;
  }

  /**
   * The state map_copy_impl's loop keeps: the copy is a valid map sized
   * for the original's capacity and holds exactly the entries the iterator
   * has passed, apart from the one it has just produced.
   */
  ghost predicate Copying(m: Map, n: Map, it: Iterator, s: seq<Item<Key, seq<Byte>>>, more: bool)
    reads m, n, it
  {
    n.Valid() && n.valid && n.valueSize == m.valueSize &&
    n.capacity == RoundedCapacity(m.capacity) && |n.table| == n.capacity / BucketCapacity &&
    |m.table| > 0 && it.Inside(m) && n.len <= |s| &&
    (more ==> n.len < |s| && it.Passed(m) == n.len + 1 && it.key == s[n.len].key && it.value == s[n.len].value) &&
    (!more ==> n.len == |s|) &&
    n.View() == ToMap(s[..n.len])
  }

  /** A second assignment to the same key replaces the first. */
  lemma Reassigned<K, V>(m: map<K, V>, k: K, a: V, b: V)
    ensures m[k := a][k := b] == m[k := b]
  {
  }

  /**
   * While a map of `len` keys is copied, the copy holds fewer keys than the
   * original and never reaches the growth threshold.
   */
  lemma CopyRoom(len: nat, nb: nat, capacity: nat, copied: nat)
    requires BucketCapacity * nb <= capacity && 2 * len <= 13 * nb + 2 && copied < len
    ensures 2 * copied <= 13 * (RoundedCapacity(capacity) / BucketCapacity)
  {
    assert RoundedCapacity(capacity) / BucketCapacity >= nb;
  }

  /**
   * map_insert_impl as written when the insertion grows the map
   * (src/map.c:236-291): the caller's map becomes the copy and its length
   * grows by one, but the slot is written through `bp.prev`, a bucket of the
   * old map, which has just been deleted.  Results: the live table, the live
   * length, and the old table as the write leaves it.
   */
  ghost function GrowthInsertAsWritten(old_: Slots, copy: Slots, copyLen: nat, key: Key, v: seq<Byte>): (r: (Slots, nat, Slots))
    requires |old_| > 0 && Shaped(old_)
    ensures r.0 == copy && r.1 == copyLen + 1 && |r.2| == |old_|
  {
    (copy, copyLen + 1, Added(old_, key, v))
  }

  /** The slot written through `bp.prev` lands, with its value, in the table just deleted. */
  lemma GrowthInsertLands(old_: Slots, copy: Slots, copyLen: nat, key: Key, v: seq<Byte>)
    requires |old_| > 0 && Good(old_, KeyHash) && key !in Contents(old_)
    ensures Contents(GrowthInsertAsWritten(old_, copy, copyLen, key, v).2) == Contents(old_)[key := v]
  {
    AddedFacts(old_, key, v);
  }

  /**
   * After such an insertion the live map does not hold the key and its
   * length counts one slot more than it has, so a later map_at of the key
   * returns NULL and iteration yields fewer entries than map_len reports.
   */
  lemma GrowthLosesKey(old_: Slots, copy: Slots, key: Key, v: seq<Byte>)
    requires |old_| > 0 && Shaped(old_) && DistinctKeys(Items(copy))
    requires key !in Contents(old_) && Contents(copy) == Contents(old_)
    ensures var r := GrowthInsertAsWritten(old_, copy, |Items(copy)|, key, v);
      key !in Contents(r.0) && r.1 == |Items(r.0)| + 1 && |Contents(r.0)| + 1 == r.1
  {
    CountIsSize(copy);
  }

  class Map {
    var valueSize: nat
    var capacity: nat
    var valid: bool
    var len: nat
    var table: Slots

    /**
     * The table is good for the keys' own hashes, `len` counts its slots,
     * the capacity is a multiple of eight covering the buckets, and the load
     * stays within one insertion of the growth threshold.
     */
    ghost predicate Valid()
      reads this`table, this`len, this`capacity
    {
      Good(table, KeyHash) && len == |Items(table)| &&
      capacity % BucketCapacity == 0 && BucketCapacity * |table| <= capacity &&
      2 * len <= 13 * |table| + 2
    }

    ghost function View(): map<Key, seq<Byte>>
      reads this`table
    {
      Contents(table)
    }

    /** `len / nb_buckets > MAP_MAX_LOAD_FACTOR` with the factor 6.5 in integers. */
    predicate Overloaded()
      reads this`table, this`len
    {
      2 * len > 13 * |table|
    }

    ghost predicate Holds(r: Ref)
      reads this`table
    {
      r.bucket < |table| && r.at.node < |table[r.bucket]| &&
      r.at.slot < |table[r.bucket][r.at.node].slots|
    }

    function SlotAt(r: Ref): Item<Key, seq<Byte>>
      reads this`table
      requires Holds(r)
    {
      table[r.bucket][r.at.node].slots[r.at.slot]
    }

    constructor (valueSize: nat, capacity: nat, table: Slots)
      ensures this.valueSize == valueSize && this.capacity == capacity && this.table == table
      ensures valid && len == 0
    {
      this.valueSize := valueSize;
      this.capacity := capacity;
      this.table := table;
      this.valid := true;
      this.len := 0;
    }

    /**
     * map_make_alloc_impl: NULL when an allocation fails; otherwise an empty
     * valid map whose capacity is the least positive multiple of eight
     * covering the request, with capacity / 8 empty buckets.
     */
    static method Make(valueSize: nat, capacity: nat) returns (m: Map?)
      ensures m != null ==> fresh(m) && m.Valid() && m.valid && m.len == 0 && m.View() == map[]
      ensures m != null ==> m.valueSize == valueSize && m.capacity == RoundedCapacity(capacity)
      ensures m != null ==> m.table == EmptyTable(m.capacity / BucketCapacity, [])
    {
      var ok := TryAllocate();
      if !ok {
        return null;
      }
      var cap := RoundCapacity(capacity);
      var nb := cap / BucketCapacity;
      ok := TryAllocate();
      if !ok {
        return null;
      }
      var t: Slots := [];
      var i := 0;
      while i < nb
        invariant i <= nb && t == EmptyTable(i, [])
      {
        ok := TryAllocate();
        if !ok {
          return null;
        }
        t := t + [[Node([], [])]];
        i := i + 1;
      }
      EmptyTableItems<Item<Key, seq<Byte>>, seq<Byte>>(nb, []);
      m := new Map(valueSize, cap, t);
    }

    /** map_valid: false for NULL, the map's flag otherwise. */
    static function IsValid(m: Map?): (r: bool)
      reads m
      ensures r ==> m != null
    {
      m != null && m.valid
    }

    /** map_len: 0 for NULL, otherwise the number of keys the map holds. */
    static function Len(m: Map?): (r: nat)
      reads m
      requires m != null ==> m.Valid()
      ensures m == null ==> r == 0
      ensures m != null ==> r == |m.View()|
    {
      if m == null then 0 else (CountIsSize(m.table); m.len)
    }

    /**
     * map_bucket_pos: walk the chain the hash selects for a slot with the
     * same hash and the same key bytes.  Found exactly when the key is in the
     * map, at a slot holding that key and its value.
     */
    function Locate(key: Key): (r: Option<Ref>)
      reads this`table, this`len, this`capacity
      requires Valid()
      ensures r.Some? <==> key in View()
      ensures r.Some? ==> Holds(r.value) && SlotAt(r.value).key == key && SlotAt(r.value).value == View()[key]
    {
      var h := Home(key.hash, |table|);
      Lookup(table, KeyHash, key);
      match Find(table[h], KeyIs(key, key.hash))
      case None => None
      case Some(p) => Some(Ref(h, p))
    }

    /** map_at_impl: the value mapped at the key, or nothing (NULL) when absent. */
    function At(key: Key): (r: Option<seq<Byte>>)
      reads this`table, this`len, this`capacity
      requires Valid()
      ensures r == if key in View() then Some(View()[key]) else None
    {
      match Locate(key)
      case None => None
      case Some(p) => Some(SlotAt(p).value)
    }

    /**
     * Writing through the value pointer map_get returns (`map_get(&m, k) =
     * v`, or the `memcpy` of map_copy_impl): only that key's value changes.
     */
    method Assign(r: Ref, v: seq<Byte>)
      requires Valid() && Holds(r)
      modifies this
      ensures Valid() && View() == old(View())[old(SlotAt(r)).key := v]
      ensures table == old(table)[r.bucket := SetSlot(old(table)[r.bucket], r.at, old(SlotAt(r)).(value := v))]
      ensures len == old(len) && capacity == old(capacity) && valid == old(valid) && valueSize == old(valueSize)
    {
      Overwrite(table, KeyHash, r.bucket, r.at, v);
      table := table[r.bucket := SetSlot(table[r.bucket], r.at, SlotAt(r).(value := v))];
    }

    /**
     * map_insert_impl (map_get): a present key's value slot with nothing
     * changed; otherwise the key is added with a zero value, after growing
     * the map to a copy of twice the capacity when it is overloaded.  Any
     * failed allocation marks the map invalid and returns NULL, leaving the
     * mapping as it was.  After growth the slot is looked up again in the
     * copy (the source reuses a bucket of the deleted map; see
     * GrowthInsertAsWritten).
     */
    method Get(key: Key) returns (r: Option<Ref>)
      requires Valid()
      modifies this
      decreases if Overloaded() then 6 else 0
      ensures Valid() && valueSize == old(valueSize)
      ensures old(key in View()) ==> r == old(Locate(key)) && unchanged(this)
      ensures r.Some? ==> Holds(r.value) && SlotAt(r.value).key == key
      ensures r.Some? ==> valid == (old(valid) || (old(key !in View()) && old(Overloaded())))
      ensures !old(key in View()) && r.Some? ==>
        (View() == old(View())[key := Zero(valueSize)] && len == old(len) + 1 &&
         SlotAt(r.value).value == Zero(valueSize))
      ensures !old(key in View()) && !old(Overloaded()) && r.Some? ==>
        table == Added(old(table), key, Zero(valueSize))
      ensures r.None? ==> !valid && View() == old(View())
      ensures !old(Overloaded()) ==> capacity == old(capacity) && |table| == |old(table)|
      ensures !old(key in View()) && old(Overloaded()) ==> capacity == 2 * old(capacity)
    {
      var loc := Locate(key);
      if loc.Some? {
        return loc;
      }
      if Overloaded() {
        Grow();
        if !valid {
          return None;
        }
      }
      r := AddSlot(key);
    }

    /**
     * The slot-adding tail of map_insert_impl: link a new bucket when the
     * chain's last one is full, take its next slot with a zero value and
     * append the key bytes to its buffer.  Any failed allocation marks the
     * map invalid and returns NULL with the mapping as it was.
     */
    method AddSlot(key: Key) returns (r: Option<Ref>)
      requires Valid() && key !in View() && 2 * len <= 13 * |table|
      modifies this`table, this`len, this`valid
      ensures Valid() && |table| == |old(table)|
      ensures r.Some? ==> (Holds(r.value) && SlotAt(r.value) == Item(key.hash, key, Zero(valueSize)) &&
        valid == old(valid) && table == Added(old(table), key, Zero(valueSize)) && len == old(len) + 1)
      ensures r.Some? ==> View() == old(View())[key := Zero(valueSize)]
      ensures r.None? ==> !valid && View() == old(View())
    {
      var t0: Slots := table;
      var h := Home(key.hash, |t0|);
      if |t0[h][|t0[h]| - 1].slots| == BucketCapacity {
        var ok := LinkBucket(h);
        if !ok {
          return None;
        }
        AddedLinked(t0, key, Zero(valueSize));
      }
      r := Place(key);
    }

    /**
     * The slot-writing end of map_insert_impl: the next slot of the chain's
     * last bucket, which has room, takes the key's hash and a zero value, and
     * the bucket's key buffer is resized to take the key bytes.  When that
     * allocation fails the map is marked invalid and keeps its entries.
     */
    method Place(key: Key) returns (r: Option<Ref>)
      requires Valid() && key !in View() && 2 * len <= 13 * |table|
      requires |table[Home(key.hash, |table|)][|table[Home(key.hash, |table|)]| - 1].slots| < BucketCapacity
      modifies this`table, this`len, this`valid
      ensures Valid()
      ensures r.Some? ==> (len == old(len) + 1 && valid == old(valid) &&
        table == Added(old(table), key, Zero(valueSize)) &&
        Holds(r.value) && SlotAt(r.value) == Item(key.hash, key, Zero(valueSize)) &&
        View() == old(View())[key := Zero(valueSize)])
      ensures r.None? ==> !valid && table == old(table) && len == old(len)
    {
      if |key.data| > 0 {
        var ok := TryAllocate();
        if !ok {
          valid := false;
          return None;
        }
      }
      var t0: Slots := table;
      var h := Home(key.hash, |t0|);
      var z := Zero(valueSize);
      var c := t0[h];
      var last := |c| - 1;
      AddedFacts(t0, key, z);
      AddedWith(t0, key, z, c);
      table, len := t0[h := PushLast(c, Item(key.hash, key, z), c[last].buf + key.data)], len + 1;
      r := Some(Ref(h, Pos(last, |c[last].slots|)));
    }

    /**
     * The overflow step of map_insert_impl: allocate a bucket, link it after
     * the chain's last one and initialise it.  When the allocation fails
     * nothing is linked; when the initialisation fails the new bucket stays
     * linked and empty.  Either failure marks the map invalid.
     */
    method LinkBucket(h: nat) returns (ok: bool)
      requires Valid() && h < |table|
      modifies this`table, this`valid
      ensures Valid() && View() == old(View()) && |table| == |old(table)|
      ensures ok ==> valid == old(valid) && table == old(table)[h := old(table)[h] + [Node([], [])]]
      ensures !ok ==> !valid
    {
      ok := TryAllocate();
      if !ok {
        valid := false;
        return;
      }
      LinkEmpty(table, KeyHash, h, []);
      table := table[h := table[h] + [Node([], [])]];
      ok := TryAllocate();
      if !ok {
        valid := false;
      }
    }

    /**
     * The growth step of map_insert_impl: the capacity doubles and the map
     * takes over a copy made at the new capacity, which has room for one more
     * key under the threshold.  When the copy fails the map is marked invalid
     * and keeps its entries.
     */
    method Grow()
      requires Valid()
      modifies this
      decreases 5
      ensures Valid() && valueSize == old(valueSize) && View() == old(View())
      ensures valid ==> len == old(len) && 2 * len <= 13 * |table|
      ensures !valid ==> table == old(table) && len == old(len)
      ensures capacity == 2 * old(capacity)
      ensures valid ==> |table| == capacity / BucketCapacity
    {
      Doubled(capacity, |table|, len);
      capacity := capacity * 2;
      var n := Copy(this);
      if n == null {
        valid := false;
        return;
      }
      table, len, capacity, valid := n.table, n.len, n.capacity, n.valid;
    }

    /**
     * map_erase_impl: false and nothing changed when the key is absent;
     * otherwise true, the bucket's last slot moved into the erased one, the
     * length one less, and every key buffer as it was.
     */
    method Erase(key: Key) returns (found: bool)
      requires Valid()
      modifies this
      ensures Valid() && (found <==> old(key in View()))
      ensures View() == old(View()) - {key}
      ensures !found ==> unchanged(this)
      ensures found ==> (len == old(len) - 1 &&
        var loc := old(Locate(key)).value;
        table == old(table)[loc.bucket := SwapRemove(old(table)[loc.bucket], loc.at)])
      ensures valueSize == old(valueSize) && capacity == old(capacity) && valid == old(valid)
    {
      var loc := Locate(key);
      if loc.None? {
        return false;
      }
      var b, p := loc.value.bucket, loc.value.at;
      Remove(table, KeyHash, b, p);
      table := table[b := SwapRemove(table[b], p)];
      len := len - 1;
      found := true;
    }

    /**
     * One step of map_copy_impl: insert a key the map does not hold with
     * map_insert_impl, below the growth threshold, and copy the value into
     * the returned slot.  False when the insertion fails.
     */
    method Put(key: Key, value: seq<Byte>) returns (ok: bool)
      requires Valid() && valid && key !in View() && !Overloaded()
      modifies this
      decreases 1
      ensures Valid() && valueSize == old(valueSize) && capacity == old(capacity) && |table| == |old(table)|
      ensures ok ==> valid && len == old(len) + 1 && View() == old(View())[key := value]
    {
      var r := Get(key);
      if !valid || r.None? {
        return false;
      }
      ghost var added := View();
      Assign(r.value, value);
      Reassigned(old(View()), key, Zero(valueSize), value);
      ok := true;
    }

    /**
     * One turn of map_copy_impl's loop: insert the iterator's key with its
     * value into the copy, then advance the iterator.  False when the
     * insertion fails.
     */
    static method CopyNext(m: Map, n: Map, it: Iterator, ghost s: seq<Item<Key, seq<Byte>>>)
      returns (ok: bool, more: bool)
      requires m.Valid() && s == Items(m.table) && n != m && Copying(m, n, it, s, true)
      modifies n, it
      decreases 2
      ensures ok ==> Copying(m, n, it, s, more) && n.len == old(n.len) + 1
    {
      ghost var i := n.len;
      assert !n.Overloaded() && it.key !in n.View() by {
        PrefixKeyFresh(s, i);
        CountIsSize(m.table);
        CopyRoom(m.len, |m.table|, m.capacity, i);
      }
      assert ToMap(s[..i + 1]) == n.View()[it.key := it.value] by {
        PrefixKeyFresh(s, i);
      }
      ok := n.Put(it.key, it.value);
      if !ok {
        return false, false;
      }
      more := it.Next(m);
    }

    /**
     * map_copy_impl: NULL on a failed allocation; otherwise a new valid map
     * of the same capacity and the same mapping, filled by iterating the
     * source and inserting each key with its value.  Keys arrive distinct
     * and the copy never reaches the growth threshold, so each insertion
     * adds its key without growing.
     */
    static method Copy(m: Map) returns (n: Map?)
      requires m.Valid()
      decreases 4
      ensures n != null ==> fresh(n) && n.Valid() && n.valid && n.View() == m.View() && n.len == m.len
      ensures n != null ==> n.valueSize == m.valueSize && n.capacity == RoundedCapacity(m.capacity)
      ensures n != null ==> |n.table| == n.capacity / BucketCapacity
    {
      n := Make(m.valueSize, m.capacity);
      if n == null {
        return;
      }
      ghost var s := Items(m.table);
      var it := new Iterator(m);
      var more := it.Next(m);
      assert s[..0] == [];
      var ok := Fill(m, n, it, more, s);
      if !ok {
        return null;
      }
    }

    /**
     * The loop of map_copy_impl, from the state after the first step of the
     * iterator: insert every remaining entry into the copy.  False when an
     * insertion fails; otherwise the copy holds every entry of the original.
     */
    static method Fill(m: Map, n: Map, it: Iterator, more: bool, ghost s: seq<Item<Key, seq<Byte>>>)
      returns (ok: bool)
      requires m.Valid() && s == Items(m.table) && n != m && Copying(m, n, it, s, more)
      modifies n, it
      decreases 3
      ensures ok ==> n.Valid() && n.valid && n.View() == m.View() && n.len == m.len
      ensures ok ==> n.valueSize == m.valueSize && n.capacity == RoundedCapacity(m.capacity)
      ensures ok ==> |n.table| == n.capacity / BucketCapacity
    {
      var going := more;
      while going
        invariant Copying(m, n, it, s, going)
        decreases |s| - n.len
      {
        ok, going := CopyNext(m, n, it, s);
        if !ok {
          return;
        }
      }
      assert s[..|s|] == s;
      ok := true;
    }
  }

  /**
   * map_iterator_t: the current key and value, the validity flag, and the
   * cursor (array bucket, bucket of its chain, slot).  A bucket index equal
   * to the chain's length stands for the NULL bucket pointer.
   */
  class Iterator {
    var key: Key
    var value: seq<Byte>
    var valid: bool
    var bucket: nat
    var bucketPos: nat
    var keyPos: nat

    /** The cursor is inside the map, or past its last array bucket. */
    ghost predicate Inside(m: Map)
      reads this, m
    {
      bucketPos == |m.table| || CursorIn(m.table, bucketPos, bucket, keyPos)
    }

    /** How many entries, in iteration order, the iterator has passed. */
    ghost function Passed(m: Map): nat
      reads this, m
      requires Inside(m)
    {
      Chains.Passed(m.table, bucketPos, bucket, keyPos)
    }

    /**
     * map_iterator_make: an invalid iterator that has passed nothing; its
     * bucket is the first array bucket, or NULL when the map is empty.
     */
    constructor (m: Map)
      requires m.Valid()
      ensures Inside(m) && Passed(m) == 0 && !valid
    {
      key := Key([], 0);
      value := [];
      valid := false;
      bucketPos := 0;
      keyPos := 0;
      bucket := StartBucket(m.table, m.len);
      StartPassesNothing(m.table, m.len);
    }

    /**
     * map_iterator_next: the entry of the next rank, or false (and invalid)
     * once every entry has been passed; repeated calls then keep returning
     * false.
     */
    method Next(m: Map) returns (more: bool)
      requires |m.table| > 0 && Inside(m)
      modifies this
      ensures Inside(m) && valid == more
      ensures more ==> (old(Passed(m)) < |Items(m.table)| && Passed(m) == old(Passed(m)) + 1 &&
        key == Items(m.table)[old(Passed(m))].key && value == Items(m.table)[old(Passed(m))].value)
      ensures !more ==> old(Passed(m)) == |Items(m.table)| == Passed(m)
    {
      var t: Slots := m.table;
      var bp, k, i;
      more, bp, k, i := Advance(t, bucketPos, bucket, keyPos);
      if more {
        var x := t[bp][k].slots[i];
        key, value, valid := x.key, x.value, true;
        bucketPos, bucket, keyPos := bp, k, i + 1;
      } else {
        valid := false;
        bucketPos, bucket, keyPos := bp, k, i;
      }
    }
  }
}
