/**
 * The string-keyed hash maps: src/strmap.c (API in include/delta/strmap.h)
 * and its earlier copy strmap.c.  Both share one layout: buckets of eight
 * slots, each slot holding the key's hash, the offset of the key in one
 * arena of NUL-terminated keys owned by the map, and a value of
 * `value_size` bytes.
 *
 * A slot here carries its key next to its cell (arena offset and value);
 * the invariant Stored ties the two, saying the key's bytes and its NUL sit
 * at that offset.  Lookups compare whole keys, as strmap.c's strcmp does;
 * src/strmap.c's strncmp over the query's length is modelled on its own
 * (PrefixIs).  The map and its iterator are classes whose fields the
 * operations update in place.
 */
module StrMap {
  import opened Common
  import opened Chains

  /** The seed both maps pass to hash_bytes. */
  const HashSeed: nat := 13

  /** The arena's initial capacity in bytes. */
  const InitialKeysCapacity: nat := 1024

  /** What a slot holds besides the hash and the key: the key's offset in the arena, and the value. */
  datatype Cell = Cell(pos: nat, value: seq<Byte>)

  type Entry = Item<seq<Byte>, Cell>

  type Slots = Table<Entry, ()>

  /** find_bucket_pos's results: found or not, the array bucket the hash selects, and the bucket and slot reached. */
  datatype Spot = Spot(found: bool, home: nat, at: Pos)

  /** The arena holds the key's bytes at pos, then its NUL. */
  ghost predicate KeyAt(keys: seq<Byte>, pos: nat, key: seq<Byte>)
  {
    pos + |key| < |keys| && keys[pos..pos + |key|] == key && keys[pos + |key|] == 0
  }

  /**
   * Every key is a C string stored in the arena at its cell's offset, and
   * every value has `value_size` bytes.
   */
  ghost predicate Stored(keys: seq<Byte>, cells: map<seq<Byte>, Cell>, valueSize: nat)
  {
    forall q {:trigger KeyStored(keys, cells, valueSize, q)} :: KeyStored(keys, cells, valueSize, q)
  }

  /** Key q, when mapped, is a C string stored at its cell's offset, with a value of `value_size` bytes. */
  ghost predicate KeyStored(keys: seq<Byte>, cells: map<seq<Byte>, Cell>, valueSize: nat, q: seq<Byte>)
  {
    q in cells ==> NoNul(q) && KeyAt(keys, cells[q].pos, q) && |cells[q].value| == valueSize
  }

  /** The values of a map of cells. */
  ghost function Values(cells: map<seq<Byte>, Cell>): map<seq<Byte>, seq<Byte>>
  {
    map q | q in cells :: cells[q].value
  }

  /** The values' map has the cells' keys, one value per cell. */
  lemma ValuesKeys(cells: map<seq<Byte>, Cell>)
    ensures Values(cells).Keys == cells.Keys && |Values(cells)| == |cells|
  {
    assert Values(cells).Keys == cells.Keys;
  }

  /** Storing a key whose bytes are in the arena keeps every key stored. */
  lemma StoredUpdate(keys: seq<Byte>, cells: map<seq<Byte>, Cell>, valueSize: nat, q: seq<Byte>, cell: Cell)
    requires Stored(keys, cells, valueSize)
    requires NoNul(q) && KeyAt(keys, cell.pos, q) && |cell.value| == valueSize
    ensures Stored(keys, cells[q := cell], valueSize)
  {
    var cells' := cells[q := cell];
    forall q' ensures KeyStored(keys, cells', valueSize, q') {
      assert KeyStored(keys, cells, valueSize, q');
    }
  }

  lemma StoredRemove(keys: seq<Byte>, cells: map<seq<Byte>, Cell>, valueSize: nat, q: seq<Byte>)
    requires Stored(keys, cells, valueSize)
    ensures Stored(keys, cells - {q}, valueSize)
  {
    var cells' := cells - {q};
    forall q' ensures KeyStored(keys, cells', valueSize, q') {
      assert KeyStored(keys, cells, valueSize, q');
    }
  }

  /** A mapped key of a stored map is a C string with a value of `value_size` bytes. */
  lemma StoredKey(keys: seq<Byte>, cells: map<seq<Byte>, Cell>, valueSize: nat, q: seq<Byte>)
    requires Stored(keys, cells, valueSize) && q in cells
    ensures NoNul(q) && KeyAt(keys, cells[q].pos, q) && |cells[q].value| == valueSize
  {
    assert KeyStored(keys, cells, valueSize, q);
  }

  lemma ValuesUpdate(cells: map<seq<Byte>, Cell>, q: seq<Byte>, cell: Cell)
    ensures Values(cells[q := cell]) == Values(cells)[q := cell.value]
  {
  }

  lemma ValuesRemove(cells: map<seq<Byte>, Cell>, q: seq<Byte>)
    ensures Values(cells - {q}) == Values(cells) - {q}
  {
  }

  /** Bytes appended after the arena leave every stored key where it was. */
  lemma StoredExtend(keys: seq<Byte>, cells: map<seq<Byte>, Cell>, valueSize: nat, more: seq<Byte>)
    requires Stored(keys, cells, valueSize)
    ensures Stored(keys + more, cells, valueSize)
  {
    forall q ensures KeyStored(keys + more, cells, valueSize, q) {
      assert KeyStored(keys, cells, valueSize, q);
      if q in cells {
        var p := cells[q].pos;
        assert (keys + more)[p..p + |q|] == keys[p..p + |q|];
        assert (keys + more)[p + |q|] == keys[p + |q|];
      }
    }
  }

  /**
   * The arena strmap_rehash leaves in the new map after its first k
   * insertions: the keys of the first k of the given slots, each followed
   * by its NUL, in that order.
   */
  ghost function Packed(s: seq<Entry>, k: nat): (r: seq<Byte>)
    requires k <= |s|
    ensures |r| >= k
    ensures k > 0 ==> r[|r| - 1] == 0
  {
    if k == 0 then [] else Packed(s, k - 1) + s[k - 1].key + [0]
  }

  /** Later insertions leave every packed key at the offset it was written at. */
  lemma {:induction false} PackedKeyAt(s: seq<Entry>, j: nat, k: nat)
    requires j < k <= |s|
    ensures KeyAt(Packed(s, k), |Packed(s, j)|, s[j].key)
    decreases k
  {
    if k > j + 1 {
      PackedKeyAt(s, j, k - 1);
      var a := Packed(s, k - 1);
      var p := |Packed(s, j)|;
      var key := s[j].key;
      assert Packed(s, k) == a + s[k - 1].key + [0];
      assert Packed(s, k)[p..p + |key|] == a[p..p + |key|];
    }
  }

  /**
   * The capacity append_new_key reaches from an arena of `cap` bytes by
   * doubling it until `need` bytes fit: at least `need`, and less than
   * twice `need` unless no doubling was needed.
   */
  function Fitted(cap: nat, need: nat): (r: nat)
    requires cap > 0
    decreases if need <= cap then 0 else need - cap
    ensures r >= need && r >= cap
    ensures r == cap || r < 2 * need
  {
    if need <= cap then cap else Fitted(2 * cap, need)
  }

  /** The capacity reached is the starting one times a power of two. */
  lemma {:induction false} FittedDoubles(cap: nat, need: nat) returns (k: nat)
    requires cap > 0
    decreases if need <= cap then 0 else need - cap
    ensures Fitted(cap, need) == cap * Pow2(k)
  {
    if need <= cap {
      k := 0;
    } else {
      var k' := FittedDoubles(2 * cap, need);
      k := k' + 1;
      var p := Pow2(k');
      assert Pow2(k) == 2 * p;
      assert cap * (2 * p) == (2 * cap) * p;
    }
  }

  /**
   * The table after adding an absent key: a slot after every slot of the
   * key's chain, in its last bucket or in a newly linked one.
   */
  function Added(t: Slots, hashOf: seq<Byte> -> Word, key: seq<Byte>, cell: Cell): (r: Slots)
    requires |t| > 0 && Shaped(t)
    ensures |r| == |t|
  {
    var h := Home(hashOf(key), |t|);
    t[h := PushLast(WithRoom(t[h], ()), Item(hashOf(key), key, cell), ())]
  }

  /** Adding an absent key keeps the table good and maps the key to the cell. */
  lemma AddedFacts(t: Slots, hashOf: seq<Byte> -> Word, key: seq<Byte>, cell: Cell)
    requires Good(t, hashOf) && key !in Contents(t)
    ensures Good(Added(t, hashOf, key, cell), hashOf)
    ensures Contents(Added(t, hashOf, key, cell)) == Contents(t)[key := cell]
    ensures |Items(Added(t, hashOf, key, cell))| == |Items(t)| + 1
  {
    InsertNew(t, hashOf, key, cell, (), ());
  }

  /** Linking an empty bucket after a full last one does not change where an added key goes. */
  lemma AddedLinked(t: Slots, hashOf: seq<Byte> -> Word, key: seq<Byte>, cell: Cell)
    requires |t| > 0 && Shaped(t)
    requires var h := Home(hashOf(key), |t|); |t[h][|t[h]| - 1].slots| == BucketCapacity
    ensures var h := Home(hashOf(key), |t|);
      var t1 := t[h := t[h] + [Node([], ())]];
      Shaped(t1) && Added(t1, hashOf, key, cell) == Added(t, hashOf, key, cell)
  {
    var h := Home(hashOf(key), |t|);
    assert ChainShaped(t[h]);
  }

  /**
   * src/strmap.c:260 as written: a slot matches when its hash is the
   * query's and strncmp over the query's length finds no difference.  The
   * stored key ends with its NUL, so that holds exactly when the query is a
   * prefix of the stored key.
   */
  function PrefixIs<B(!new)>(q: seq<Byte>, h: Word): (r: (B, Entry) -> bool)
    ensures forall buf: B, x: Entry :: KeyIs(q, h)(buf, x) ==> r(buf, x)
  {
    (buf: B, x: Entry) => x.hash == h && |q| <= |x.key| && x.key[..|q|] == q
  }

  /** A table of one chain of one bucket holding one slot, whose stored hash is its key's. */
  lemma OneSlotTable(hashOf: seq<Byte> -> Word, x: Entry)
    requires x.hash == hashOf(x.key)
    ensures var t: Slots := [[Node([x], ())]];
      Good(t, hashOf) && Contents(t) == map[x.key := x.value]
  {
    var c: Chain<Entry, ()> := [Node([x], ())];
    var t: Slots := [c];
    OneSlotItems(x);
    assert Home(x.hash, 1) == 0;
    assert ChainPlaced(t[0], 0, 1, hashOf);
    assert [x][..0] == [];
    assert ToMap([x]) == map[x.key := x.value];
  }

  /** The items of a table of one chain of one bucket holding x. */
  lemma OneSlotItems(x: Entry)
    ensures var t: Slots := [[Node([x], ())]]; ChainItems(t[0]) == [x] && Items(t) == [x]
  {
    var c: Chain<Entry, ()> := [Node([x], ())];
    var t: Slots := [c];
    assert c[..0] == [] && t[..0] == [];
  }

  /**
   * With a hash that gives "ab" and "abc" the same value, a lookup of "ab"
   * as written finds the slot of "abc" in a map that holds only "abc".
   */
  lemma PrefixMatchFindsLongerKey(hashOf: seq<Byte> -> Word, v: seq<Byte>)
    requires hashOf([97, 98]) == hashOf([97, 98, 99])
    ensures var t: Slots := [[Node([Item(hashOf([97, 98, 99]), [97, 98, 99], Cell(0, v))], ())]];
      Good(t, hashOf) && [97, 98] !in Contents(t) &&
      Find(t[Home(hashOf([97, 98]), |t|)], PrefixIs([97, 98], hashOf([97, 98]))) == Some(Pos(0, 0))
  {
    var x: Entry := Item(hashOf([97, 98, 99]), [97, 98, 99], Cell(0, v));
    OneSlotTable(hashOf, x);
    assert Home(hashOf([97, 98]), 1) == 0;
    assert x.key[..2] == [97, 98];
  }

  /**
   * strmap.c:416-431 as written: on an empty map strmap_iterator leaves the
   * iterator's bucket pointer unset, so the bucket strmap_next starts from
   * is whatever `junk` the memory held.
   */
  function StartBucketAsWritten(t: Slots, len: nat, junk: nat): (r: nat)
    requires |t| > 0
    ensures len > 0 ==> r == StartBucket(t, len)
    ensures len == 0 ==> r == junk
  {
    if len == 0 then junk else 0
  }

  /**
   * For an empty map of one bucket, an unset pointer that names no bucket
   * of the first chain (and is not NULL) gives a cursor outside the table,
   * which strmap_next then dereferences; src/strmap.c's NULL start is
   * inside it and has passed nothing.
   */
  lemma UnsetStartEscapes(junk: nat)
    requires junk > 1
    ensures var t: Slots := EmptyTable(1, ());
      Items(t) == [] &&
      !CursorIn(t, 0, StartBucketAsWritten(t, 0, junk), 0) &&
      CursorIn(t, 0, StartBucket(t, 0), 0) && Passed(t, 0, StartBucket(t, 0), 0) == 0
  {
    var t: Slots := EmptyTable(1, ());
    EmptyTableItems<Entry, ()>(1, ());
    StartPassesNothing(t, 0);
  }

  /**
   * The map's invariant on its fields' values: the table is good for the
   * keys' hashes, `len` counts its slots, the capacity is a positive
   * multiple of eight with one array bucket per eight, and the arena holds
   * every key.
   */
  ghost predicate Inv(t: Slots, hashOf: seq<Byte> -> Word, len: nat, capacity: nat, keys: seq<Byte>, valueSize: nat)
  {
    Good(t, hashOf) && len == |Items(t)| &&
    capacity > 0 && capacity % BucketCapacity == 0 && |t| == capacity / BucketCapacity &&
    Stored(keys, Contents(t), valueSize)
  }

  /**
   * Placing an absent key in the free slot of its chain's last bucket, with
   * its bytes appended to the arena: the invariant holds with one more
   * slot, and the key maps to its cell.
   */
  lemma PlaceKeeps(t: Slots, hashOf: seq<Byte> -> Word, len: nat, capacity: nat, keys: seq<Byte>, valueSize: nat,
                   key: seq<Byte>, val: seq<Byte>)
    requires Inv(t, hashOf, len, capacity, keys, valueSize)
    requires key !in Contents(t) && NoNul(key) && |val| == valueSize
    requires |t[Home(hashOf(key), |t|)][|t[Home(hashOf(key), |t|)]| - 1].slots| < BucketCapacity
    ensures var h := Home(hashOf(key), |t|);
      var cell := Cell(|keys|, val);
      var t1 := t[h := PushLast(t[h], Item(hashOf(key), key, cell), ())];
      t1 == Added(t, hashOf, key, cell) &&
      Inv(t1, hashOf, len + 1, capacity, keys + key + [0], valueSize) &&
      Contents(t1) == Contents(t)[key := cell] &&
      Values(Contents(t1)) == Values(Contents(t))[key := val]
  {
    var h := Home(hashOf(key), |t|);
    var cell := Cell(|keys|, val);
    var k1 := keys + key + [0];
    AddedFacts(t, hashOf, key, cell);
    StoredExtend(keys, Contents(t), valueSize, key + [0]);
    assert keys + (key + [0]) == k1;
    assert KeyAt(k1, |keys|, key) by {
      assert k1[|keys|..|keys| + |key|] == key;
    }
    StoredUpdate(k1, Contents(t), valueSize, key, cell);
    ValuesUpdate(Contents(t), key, cell);
  }

  class StrMap {
    /** hash_bytes(key, key_len, 13): Murmur, not modelled; only its determinism matters. */
    const hashOf: seq<Byte> -> Word
    var valueSize: nat
    var capacity: nat
    var len: nat
    var table: Slots
    var keys: seq<Byte>
    var keysCapacity: nat
    /**
     * False once a failed insertion has left the map half-updated (the
     * arena pointer overwritten with NULL, or an overflow bucket linked
     * before its initialisation failed).  The header asks callers not to use
     * a map after an error.  The insertions require an intact map; the
     * lookups, Erase and the iterator do not check the flag and answer from
     * the table and the arena as last known.
     */
    var intact: bool

    /**
     * The table is good for the keys' hashes, `len` counts its slots, the
     * capacity is a positive multiple of eight with one array bucket per
     * eight, the arena fits its capacity and holds every key.
     */
    ghost predicate Valid()
      reads this`table, this`len, this`capacity, this`keys, this`keysCapacity, this`valueSize
    {
      Inv(table, hashOf, len, capacity, keys, valueSize) &&
      0 < keysCapacity && |keys| <= keysCapacity
    }

    /** Each key with its cell. */
    ghost function Cells(): map<seq<Byte>, Cell>
      reads this`table
    {
      Contents(table)
    }

    /** The mapping the map stands for. */
    ghost function View(): map<seq<Byte>, seq<Byte>>
      reads this`table
    {
      Values(Cells())
    }

    /** `len / nb_buckets > MAP_MAX_LOAD_FACTOR` with the factor 6.5 in integers. */
    predicate Overloaded()
      reads this`table, this`len
    {
      2 * len > 13 * |table|
    }

    constructor (hashOf: seq<Byte> -> Word, valueSize: nat, capacity: nat, table: Slots)
      ensures this.hashOf == hashOf && this.valueSize == valueSize && this.capacity == capacity
      ensures this.table == table && len == 0 && keys == [] && keysCapacity == InitialKeysCapacity && intact
    {
      this.hashOf := hashOf;
      this.valueSize := valueSize;
      this.capacity := capacity;
      this.table := table;
      this.len := 0;
      this.keys := [];
      this.keysCapacity := InitialKeysCapacity;
      this.intact := true;
    }

    /**
     * strmap_make: NULL when an allocation fails; otherwise an empty map
     * whose capacity is the least positive multiple of eight covering the
     * request, with capacity / 8 empty buckets and an empty arena of 1024
     * bytes.
     */
    static method Make(hashOf: seq<Byte> -> Word, valueSize: nat, capacity: nat) returns (m: StrMap?)
      ensures m != null ==> fresh(m) && m.Valid() && m.intact && m.len == 0 && m.View() == map[]
      ensures m != null ==> m.hashOf == hashOf && m.valueSize == valueSize
      ensures m != null ==> m.capacity == RoundedCapacity(capacity) && m.table == EmptyTable(m.capacity / BucketCapacity, ())
      ensures m != null ==> m.keys == [] && m.keysCapacity == InitialKeysCapacity
    {
      var ok := TryAllocate();
      if !ok {
        return null;
      }
      var cap := RoundCapacity(capacity);
      var nb := cap / BucketCapacity;
      ok := TryAllocate();
      if !ok {
        return null;
      }
      ok := TryAllocate();
      if !ok {
        return null;
      }
      var t: Slots := [];
      var i := 0;
      while i < nb
        invariant i <= nb && t == EmptyTable(i, ())
      {
        ok := TryAllocate();
        if !ok {
          return null;
        }
        t := t + [[Node([], ())]];
        i := i + 1;
      }
      EmptyTableItems<Entry, ()>(nb, ());
      m := new StrMap(hashOf, valueSize, cap, t);
    }

    /** strmap_len (src/strmap.c): the number of keys the map holds. */
    function Len(): (r: nat)
      reads this`table, this`len, this`capacity, this`keys, this`keysCapacity, this`valueSize
      requires Valid()
      ensures r == |View()|
    {
      CountIsSize(table);
      ValuesKeys(Cells());
      len
    }

    /** strmap_len (strmap.c): 0 for NULL, otherwise the number of keys. */
    static function LenOrZero(m: StrMap?): (r: nat)
      reads m
      requires m != null ==> m.Valid()
      ensures m == null ==> r == 0
      ensures m != null ==> r == |m.View()|
    {
      if m == null then 0 else m.Len()
    }

    /**
     * find_bucket_pos: walk the chain the key's hash selects for a slot with
     * that hash and that key.  Found exactly when the key is in the map, at
     * a slot holding the key and its cell; otherwise the walk stops at the
     * chain's last bucket, at the position just past its used slots.
     */
    function FindBucketPos(q: seq<Byte>): (r: Spot)
      reads this`table, this`len, this`capacity, this`keys, this`keysCapacity, this`valueSize
      requires Valid()
      ensures r.home == Home(hashOf(q), |table|) && r.at.node < |table[r.home]|
      ensures r.found <==> q in Cells()
      ensures r.found ==> (r.at.slot < |table[r.home][r.at.node].slots| &&
        table[r.home][r.at.node].slots[r.at.slot].key == q &&
        table[r.home][r.at.node].slots[r.at.slot].value == Cells()[q])
      ensures !r.found ==> r.at == Pos(|table[r.home]| - 1, |table[r.home][|table[r.home]| - 1].slots|)
    {
      var h := Home(hashOf(q), |table|);
      assert ChainShaped(table[h]);
      Lookup(table, hashOf, q);
      match Find(table[h], KeyIs(q, hashOf(q)))
      case None => Spot(false, h, Pos(|table[h]| - 1, |table[h][|table[h]| - 1].slots|))
      case Some(p) => Spot(true, h, p)
    }

    /** strmap_at_withlen on the query's bytes: the value mapped at the key, or NULL. */
    function At(q: seq<Byte>): (r: Option<seq<Byte>>)
      reads this`table, this`len, this`capacity, this`keys, this`keysCapacity, this`valueSize
      requires Valid()
      ensures r == if q in View() then Some(View()[q]) else None
    {
      var s := FindBucketPos(q);
      if s.found then Some(table[s.home][s.at.node].slots[s.at.slot].value.value) else None
    }

    /**
     * strmap_get_withlen / strmap_get: whether the key is mapped, and the
     * caller's buffer `v` afterwards (None standing for NULL): the value is
     * copied into it only when the key is found and `v` is not NULL.
     */
    function Get(q: seq<Byte>, v: Option<seq<Byte>>): (r: (bool, Option<seq<Byte>>))
      reads this`table, this`len, this`capacity, this`keys, this`keysCapacity, this`valueSize
      requires Valid()
      ensures r.0 <==> q in View()
      ensures r.1 == if q in View() && v.Some? then Some(View()[q]) else v
    {
      match At(q)
      case None => (false, v)
      case Some(x) => (true, if v.Some? then Some(x) else v)
    }

    /**
     * strmap_erase: 0 and nothing changed when the key is absent; otherwise
     * 1, the bucket's last slot (hash, key offset, value) moved into the
     * erased one, the length one less, and the arena as it was.
     */
    method Erase(key: seq<Byte>) returns (found: bool)
      requires Valid()
      modifies this`table, this`len
      ensures Valid() && (found <==> old(key in View()))
      ensures View() == old(View()) - {key}
      ensures !found ==> table == old(table) && len == old(len)
      ensures found ==> (len == old(len) - 1 &&
        var s := old(FindBucketPos(key));
        table == old(table)[s.home := SwapRemove(old(table)[s.home], s.at)])
    {
      var s := FindBucketPos(key);
      if !s.found {
        return false;
      }
      var t0: Slots := table;
      Remove(t0, hashOf, s.home, s.at);
      table := t0[s.home := SwapRemove(t0[s.home], s.at)];
      len := len - 1;
      found := true;
      StoredRemove(keys, Contents(t0), valueSize, key);
      ValuesRemove(Contents(t0), key);
    }

    /**
     * append_new_key / insert_new_key: double the arena's capacity until the
     * key and its NUL fit after the stored bytes (each doubling reallocates,
     * and a failed one loses the arena), then copy them there; the key's
     * offset is the old length.
     */
    method AppendKey(key: seq<Byte>) returns (ok: bool, pos: nat)
      requires 0 < keysCapacity && |keys| <= keysCapacity
      modifies this`keys, this`keysCapacity, this`intact
      ensures 0 < keysCapacity && |keys| <= keysCapacity
      ensures ok ==> pos == |old(keys)| && keys == old(keys) + key + [0] && intact == old(intact)
      ensures ok ==> keysCapacity == Fitted(old(keysCapacity), |old(keys)| + |key| + 1)
      ensures !ok ==> !intact && keys == old(keys)
    {
      var need := |keys| + |key| + 1;
      ghost var c0 := keysCapacity;
      while need > keysCapacity
        invariant 0 < keysCapacity && |keys| <= keysCapacity && keys == old(keys) && intact == old(intact)
        invariant Fitted(keysCapacity, need) == Fitted(c0, need)
        decreases need - keysCapacity
      {
        keysCapacity := keysCapacity * 2;
        ok := TryAllocate();
        if !ok {
          intact := false;
          return false, 0;
        }
      }
      pos := |keys|;
      keys := keys + key + [0];
      ok := true;
    }

    /**
     * The overflow step of strmap_insert: allocate a bucket, link it after
     * the chain's last one and initialise it.  When the allocation fails
     * nothing changes; when the initialisation fails the map is left
     * half-updated.
     */
    method LinkBucket(h: nat) returns (ok: bool)
      requires Valid() && h < |table|
      modifies this`table, this`intact
      ensures Valid() && Cells() == old(Cells())
      ensures ok ==> intact == old(intact) && table == old(table)[h := old(table)[h] + [Node([], ())]]
      ensures !ok ==> table == old(table) && (intact ==> intact == old(intact))
    {
      ok := TryAllocate();
      if !ok {
        return;
      }
      ok := TryAllocate();
      if !ok {
        intact := false;
        return;
      }
      LinkEmpty(table, hashOf, h, ());
      table := table[h := table[h] + [Node([], ())]];
    }

    /**
     * The slot-writing end of strmap_insert: the next slot of the chain's
     * last bucket, which has room, takes the key's hash, the value and the
     * offset where the key is appended to the arena.  When the arena cannot
     * grow the map is left half-updated and keeps its entries.
     */
    method Place(key: seq<Byte>, val: seq<Byte>) returns (ok: bool)
      requires Valid() && NoNul(key) && |val| == valueSize && key !in Cells()
      requires |table[Home(hashOf(key), |table|)][|table[Home(hashOf(key), |table|)]| - 1].slots| < BucketCapacity
      modifies this`table, this`len, this`keys, this`keysCapacity, this`intact
      ensures Valid()
      ensures ok ==> (len == old(len) + 1 && intact == old(intact) &&
        keys == old(keys) + key + [0] &&
        table == Added(old(table), hashOf, key, Cell(|old(keys)|, val)) &&
        Cells() == old(Cells())[key := Cell(|old(keys)|, val)] &&
        View() == old(View())[key := val])
      ensures ok ==> keysCapacity == Fitted(old(keysCapacity), |old(keys)| + |key| + 1)
      ensures !ok ==> !intact && table == old(table) && len == old(len) && keys == old(keys)
    {
      var t0: Slots := table;
      ghost var k0 := keys;
      var h := Home(hashOf(key), |t0|);
      var t1 := t0[h := PushLast(t0[h], Item(hashOf(key), key, Cell(|keys|, val)), ())];
      var pos;
      ok, pos := AppendKey(key);
      if !ok {
        return;
      }
      PlaceKeeps(t0, hashOf, len, capacity, k0, valueSize, key, val);
      table, len := t1, len + 1;
    }

    /**
     * The overwriting branch of strmap_insert: copy the value into a found
     * slot.  Only that key's value changes; its arena offset stays.
     */
    method Assign(h: nat, p: Pos, val: seq<Byte>)
      requires Valid() && h < |table| && p.node < |table[h]| && p.slot < |table[h][p.node].slots| && |val| == valueSize
      modifies this`table
      ensures Valid()
      ensures var x := old(table)[h][p.node].slots[p.slot];
        table == old(table)[h := SetSlot(old(table)[h], p, x.(value := Cell(x.value.pos, val)))] &&
        Cells() == old(Cells())[x.key := Cell(x.value.pos, val)] &&
        View() == old(View())[x.key := val]
    {
      var t0: Slots := table;
      var x := t0[h][p.node].slots[p.slot];
      var cell := Cell(x.value.pos, val);
      Overwrite(t0, hashOf, h, p, cell);
      SlotInContents(t0, hashOf, h, p);
      StoredKey(keys, Contents(t0), valueSize, x.key);
      StoredUpdate(keys, Contents(t0), valueSize, x.key, cell);
      ValuesUpdate(Contents(t0), x.key, cell);
      table := t0[h := SetSlot(t0[h], p, x.(value := cell))];
    }

    /**
     * The adding branch of strmap_insert, for a key the map does not hold:
     * link a new bucket when the chain's last one is full, then take the
     * next slot of the last bucket and append the key to the arena.  False
     * when an allocation fails, with the mapping as it was.
     */
    method AddKey(key: seq<Byte>, val: seq<Byte>) returns (ok: bool)
      requires Valid() && intact && NoNul(key) && |val| == valueSize && key !in Cells()
      modifies this`table, this`len, this`keys, this`keysCapacity, this`intact
      ensures Valid()
      ensures ok ==> (intact && len == old(len) + 1 && keys == old(keys) + key + [0] &&
        Cells() == old(Cells())[key := Cell(|old(keys)|, val)] && View() == old(View())[key := val])
      ensures !ok ==> View() == old(View()) && len == old(len)
      ensures !ok && intact ==> table == old(table) && keys == old(keys)
    {
      var t0: Slots := table;
      var h := Home(hashOf(key), |t0|);
      assert ChainShaped(t0[h]);
      if |t0[h][|t0[h]| - 1].slots| == BucketCapacity {
        ok := LinkBucket(h);
        if !ok {
          return;
        }
      }
      ok := Place(key, val);
    }

    /**
     * strmap_insert: a present key's value is overwritten in place with
     * nothing else changed; an absent key is added after every slot of its
     * chain, in a newly linked bucket when the last one is full, and its
     * bytes are appended to the arena.  NULL (false) when an allocation
     * fails; the mapping is then as it was, and the map is unchanged unless
     * it was left half-updated.
     */
    method Insert(key: seq<Byte>, val: seq<Byte>) returns (ok: bool)
      requires Valid() && intact && NoNul(key) && |val| == valueSize
      modifies this`table, this`len, this`keys, this`keysCapacity, this`intact
      ensures Valid()
      ensures ok ==> intact && View() == old(View())[key := val]
      ensures old(key in View()) ==> (ok && len == old(len) && keys == old(keys) && keysCapacity == old(keysCapacity) &&
        Cells() == old(Cells())[key := Cell(old(Cells())[key].pos, val)])
      ensures ok && !old(key in View()) ==> (len == old(len) + 1 &&
        keys == old(keys) + key + [0] && Cells() == old(Cells())[key := Cell(|old(keys)|, val)])
      ensures !ok ==> View() == old(View()) && len == old(len)
      ensures !ok && intact ==> table == old(table) && keys == old(keys)
    {
      var s := FindBucketPos(key);
      if s.found {
        Assign(s.home, s.at, val);
        return true;
      }
      ok := AddKey(key, val);
    }

    /**
     * strmap_rehash: a new map of twice the capacity holding the same
     * mapping, filled by iterating this one and inserting each key with its
     * value, so that its arena holds only the live keys, in iteration order.
     * NULL when an allocation fails.  (Releasing the old map is not
     * modelled.)
     */
    static method Rehash(m: StrMap) returns (n: StrMap?)
      requires m.Valid()
      ensures n != null ==> fresh(n) && n.Valid() && n.intact && n.View() == m.View() && n.len == m.len
      ensures n != null ==> n.hashOf == m.hashOf && n.valueSize == m.valueSize
      ensures n != null ==> n.capacity == 2 * m.capacity && |n.table| == 2 * |m.table|
      ensures n != null ==> n.keys == Packed(Items(m.table), |Items(m.table)|)
    {
      n := Make(m.hashOf, m.valueSize, m.capacity * 2);
      if n == null {
        return;
      }
      ghost var s := Items(m.table);
      var it := new Iterator(m);
      assert s[..0] == [];
      var ok := Fill(m, n, it, s);
      if !ok {
        return null;
      }
    }

    /**
     * The loop of strmap_rehash: while the iterator yields an entry, insert
     * it into the new map.  False when an insertion fails.
     */
    static method Fill(m: StrMap, n: StrMap, it: Iterator, ghost s: seq<Entry>) returns (ok: bool)
      requires m.Valid() && s == Items(m.table) && n != m && Rehashing(m, n, it, s)
      modifies n, it
      ensures ok ==> n.Valid() && n.intact && n.View() == m.View() && n.len == m.len
      ensures ok ==> n.hashOf == m.hashOf && n.valueSize == m.valueSize
      ensures ok ==> n.capacity == 2 * m.capacity && |n.table| == 2 * |m.table|
      ensures ok ==> n.keys == Packed(s, |s|)
    {
      while true
        invariant Rehashing(m, n, it, s)
        decreases |s| - n.len
      {
        var more;
        more, ok := RehashStep(m, n, it, s);
        if !more {
          assert s[..|s|] == s;
          return;
        }
        if !ok {
          return;
        }
      }
    }

    /**
     * One turn of strmap_rehash's loop: advance the iterator and, when it
     * yields an entry, insert that key with its value into the new map.
     * False when the insertion fails.
     */
    static method RehashStep(m: StrMap, n: StrMap, it: Iterator, ghost s: seq<Entry>) returns (more: bool, ok: bool)
      requires m.Valid() && s == Items(m.table) && n != m && Rehashing(m, n, it, s)
      modifies n, it
      ensures !more ==> ok && Rehashing(m, n, it, s) && n.len == |s|
      ensures more && ok ==> Rehashing(m, n, it, s) && n.len == old(n.len) + 1
    {
      more := it.Next();
      if !more {
        return more, true;
      }
      ok := InsertYielded(m, n, it, s);
    }

    /**
     * The body of strmap_rehash's loop: insert the entry the iterator has
     * just yielded, the next one in iteration order, into the new map.
     */
    static method InsertYielded(m: StrMap, n: StrMap, it: Iterator, ghost s: seq<Entry>) returns (ok: bool)
      requires m.Valid() && s == Items(m.table) && n != m
      requires Filled(n, m.hashOf, m.valueSize, 2 * m.capacity, 2 * |m.table|, s, n.len) && n.len < |s|
      requires it.owner == m && it.Inside() && it.Passed() == n.len + 1
      requires it.key == s[n.len].key && it.value == s[n.len].value.value
      modifies n`table, n`len, n`keys, n`keysCapacity, n`intact
      ensures ok ==> Rehashing(m, n, it, s) && n.len == old(n.len) + 1
    {
      NextEntry(m.table, m.hashOf, m.len, m.capacity, m.keys, m.valueSize, n.len);
      ok := InsertPassed(n, it.key, it.value, s, n.len);
    }

    /**
     * The insertion of one turn of strmap_rehash's loop: the new map then
     * holds the next of the entries, after the first i, in iteration order.
     */
    static method InsertPassed(n: StrMap, key: seq<Byte>, val: seq<Byte>, ghost s: seq<Entry>, ghost i: nat) returns (ok: bool)
      requires n.Valid() && n.intact && NoNul(key) && |val| == n.valueSize
      requires i < |s| && key == s[i].key && val == s[i].value.value
      requires key !in Values(ToMap(s[..i])) && Values(ToMap(s[..i + 1])) == Values(ToMap(s[..i]))[key := val]
      requires n.len == i && n.View() == Values(ToMap(s[..i])) && n.keys == Packed(s, i)
      modifies n`table, n`len, n`keys, n`keysCapacity, n`intact
      ensures ok ==> n.Valid() && n.intact && |n.table| == old(|n.table|)
      ensures ok ==> n.len == i + 1 && n.View() == Values(ToMap(s[..i + 1])) && n.keys == Packed(s, i + 1)
    {
      ok := n.Insert(key, val);
    }

    /**
     * strmap_addp: when the load is over 6.5 keys per array bucket, rehash
     * into a map of twice the capacity first (NULL if that fails), then
     * insert.  The result is the map now holding the key (this one, or the
     * rehashed one), or NULL when an allocation fails.
     */
    static method Addp(m: StrMap, key: seq<Byte>, val: seq<Byte>) returns (r: StrMap?)
      requires m.Valid() && m.intact && NoNul(key) && |val| == m.valueSize
      modifies m
      ensures r != null ==> r.Valid() && r.intact && r.View() == old(m.View())[key := val]
      ensures r != null && !old(m.Overloaded()) ==> r == m
      ensures r != null && old(m.Overloaded()) ==> fresh(r) && |r.table| == 2 * old(|m.table|)
      ensures r != null ==> r.len == old(m.len) + (if key in old(m.View()) then 0 else 1)
    {
      r := m;
      if m.Overloaded() {
        r := Rehash(m);
        if r == null {
          return;
        }
      }
      var ok := r.Insert(key, val);
      if !ok {
        return null;
      }
    }
  }

  /**
   * The state strmap_rehash's loop keeps: the new map is intact, sized for
   * twice the old capacity, and holds exactly the entries the iterator has
   * passed, with their keys packed in its arena in that order.
   */
  ghost predicate Rehashing(m: StrMap, n: StrMap, it: Iterator, s: seq<Entry>)
    reads m, n, it
  {
    Filled(n, m.hashOf, m.valueSize, 2 * m.capacity, 2 * |m.table|, s, n.len) &&
    s == Items(m.table) && it.owner == m && it.Inside() && it.Passed() == n.len
  }

  /**
   * The new map of strmap_rehash after k insertions: intact, with the old
   * map's hash and value size and the given capacity and bucket count,
   * holding the first k entries of s with their keys packed in its arena
   * in that order.
   */
  ghost predicate Filled(n: StrMap, hashOf: seq<Byte> -> Word, valueSize: nat, capacity: nat, nb: nat,
                         s: seq<Entry>, k: nat)
    reads n
  {
    n.Valid() && n.intact && n.hashOf == hashOf && n.valueSize == valueSize &&
    n.capacity == capacity && |n.table| == nb &&
    n.len == k && k <= |s| && n.View() == Values(ToMap(s[..k])) && n.keys == Packed(s, k)
  }

  /** The values of the first i + 1 entries: those of the first i, and the next key, which is not among them, with its value. */
  lemma ValuesStep(s: seq<Entry>, i: nat)
    requires DistinctKeys(s) && i < |s|
    ensures s[i].key !in Values(ToMap(s[..i]))
    ensures Values(ToMap(s[..i + 1])) == Values(ToMap(s[..i]))[s[i].key := s[i].value.value]
  {
    PrefixKeyFresh(s, i);
    ValuesUpdate(ToMap(s[..i]), s[i].key, s[i].value);
  }

  /**
   * The entry of rank i of a valid map is a C string key with a value of
   * `value_size` bytes, whose key is not among those before it.
   */
  lemma NextEntry(t: Slots, hashOf: seq<Byte> -> Word, len: nat, capacity: nat, keys: seq<Byte>, valueSize: nat, i: nat)
    requires Inv(t, hashOf, len, capacity, keys, valueSize) && i < |Items(t)|
    ensures var s := Items(t);
      NoNul(s[i].key) && |s[i].value.value| == valueSize &&
      s[i].key !in Values(ToMap(s[..i])) &&
      Values(ToMap(s[..i + 1])) == Values(ToMap(s[..i]))[s[i].key := s[i].value.value]
  {
    var s := Items(t);
    ToMapAt(s, i);
    StoredKey(keys, Contents(t), valueSize, s[i].key);
    ValuesStep(s, i);
  }

  /**
   * strmap_iterator_t: the current key (the C string at its arena offset)
   * and value, and the cursor (array bucket, bucket of its chain, slot).  A
   * bucket index equal to the chain's length stands for the NULL pointer.
   */
  class Iterator {
    const owner: StrMap
    var key: seq<Byte>
    var value: seq<Byte>
    var bpos: nat
    var bucket: nat
    var kpos: nat

    /** The cursor is inside the map, or past its last array bucket. */
    ghost predicate Inside()
      reads this, owner
    {
      |owner.table| > 0 && (bpos == |owner.table| || CursorIn(owner.table, bpos, bucket, kpos))
    }

    /** How many entries, in iteration order, the iterator has passed. */
    ghost function Passed(): nat
      reads this, owner
      requires Inside()
    {
      Chains.Passed(owner.table, bpos, bucket, kpos)
    }

    /**
     * strmap_iterator (src/strmap.c): an iterator that has passed nothing;
     * its bucket is the first array bucket, or NULL when the map is empty.
     */
    constructor (m: StrMap)
      requires m.Valid()
      ensures owner == m && Inside() && Passed() == 0
    {
      owner := m;
      key := [];
      value := [];
      bpos := 0;
      kpos := 0;
      bucket := StartBucket(m.table, m.len);
      StartPassesNothing(m.table, m.len);
    }

    /**
     * strmap_next: 1 with the entry of the next rank, or 0 once every entry
     * has been passed; repeated calls then keep returning 0.
     */
    method Next() returns (more: bool)
      requires Inside()
      modifies this
      ensures Inside()
      ensures more ==> (old(Passed()) < |Items(owner.table)| && Passed() == old(Passed()) + 1 &&
        key == Items(owner.table)[old(Passed())].key && value == Items(owner.table)[old(Passed())].value.value)
      ensures !more ==> old(Passed()) == |Items(owner.table)| == Passed()
    {
      var t: Slots := owner.table;
      var bp, k, i;
      more, bp, k, i := Advance(t, bpos, bucket, kpos);
      if more {
        var x := t[bp][k].slots[i];
        key, value := x.key, x.value.value;
        bpos, bucket, kpos := bp, k, i + 1;
      } else {
        bpos, bucket, kpos := bp, k, i;
      }
    }
  }
}
