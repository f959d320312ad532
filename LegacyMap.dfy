/**
 * The oldest hash map of the library, map.c (API in map.h): C-string keys
 * duplicated with strdup, hashed with djb2 from the seed 5381, in buckets
 * of eight slots (hash, key, value of `value_size` bytes) with overflow
 * buckets linked through `next`.  Unlike the later maps it checks the load
 * factor before looking the key up, and rehashes in place: the new map's
 * fields are copied over the old one, so the caller's handle stays valid.
 *
 * The map is a class whose fields the operations update in place; the
 * table of chains is a value (see module Chains), and the map it stands
 * for is Contents(table).
 */
module LegacyMap {
  import opened Common
  import opened Chains

  /** m->hash_seed: the djb2 starting value. */
  const HashSeed: nat := 5381

  type Entry = Item<seq<Byte>, seq<Byte>>

  type Slots = Table<Entry, ()>

  /** find_bucket_pos's results: found or not, the key's hash, the array bucket it selects, and the bucket and slot reached. */
  datatype Spot = Spot(found: bool, hash: Word, home: nat, at: Pos)

  // ---------------------------------------------------------------------
  // The hash.

  /** A byte read through `char`, which is signed: 128..255 stand for -128..-1. */
  function SignedChar(c: Byte): (r: int)
    ensures -128 <= r < 128 && r % 256 == c as int
  {
    if c < 128 then c as int else c as int - 256
  }

  /**
   * The djb2 loop of `hash` from the running value h over the rest of the
   * string: `h = ((h << 5) + h) + c`, that is h * 33 + c in `unsigned long`
   * arithmetic, for each char before the NUL.
   */
  function Djb2From(h: Word, s: seq<Byte>): (r: Word)
    ensures s == [] ==> r == h
    ensures |s| == 1 ==> r == (h * 33 + SignedChar(s[0])) % WordModulus
    decreases |s|
  {
    if s == [] then h else Djb2From((h * 33 + SignedChar(s[0])) % WordModulus, s[1..])
  }

  /**
   * `hash(m, key)`: djb2 from m->hash_seed 5381, each char of the key
   * taking the running value h to h * 33 + c modulo 2^64, left to right.
   */
  function Djb2(s: seq<Byte>): (r: Word)
    ensures s == [] ==> r == 5381
    ensures s != [] ==> r == (Djb2From(HashSeed, s[..|s| - 1]) * 33 + SignedChar(s[|s| - 1])) % WordModulus
  {
    if s == [] then HashSeed
    else
      Djb2Concat(HashSeed, s[..|s| - 1], [s[|s| - 1]]);
      assert s == s[..|s| - 1] + [s[|s| - 1]];
      Djb2From(HashSeed, s)
  }

  /** Hashing a concatenation carries the running value from the first part into the second. */
  lemma {:induction false} Djb2Concat(h: Word, a: seq<Byte>, b: seq<Byte>)
    ensures Djb2From(h, a + b) == Djb2From(Djb2From(h, a), b)
    decreases |a|
  {
    if a != [] {
      var h' := (h * 33 + SignedChar(a[0])) % WordModulus;
      assert (a + b)[0] == a[0] && (a + b)[1..] == a[1..] + b;
      assert Djb2From(h, a + b) == Djb2From(h', a[1..] + b);
      assert Djb2From(h, a) == Djb2From(h', a[1..]);
      Djb2Concat(h', a[1..], b);
    } else {
      assert a + b == b;
    }
  }

  /** The empty string hashes to the seed, a one-char string to seed * 33 + c. */
  lemma Djb2Short(c: Byte)
    ensures Djb2([]) == HashSeed
    ensures c < 128 ==> Djb2([c]) == HashSeed * 33 + c as int
  {
    assert [c][1..] == [];
    assert (HashSeed * 33 + SignedChar(c)) % WordModulus == HashSeed * 33 + SignedChar(c);
    assert Djb2([c]) == Djb2From((HashSeed * 33 + SignedChar(c)) % WordModulus, []);
  }

  // ---------------------------------------------------------------------
  // The invariant.

  /** Key q, when mapped, is a C string with a value of `value_size` bytes. */
  ghost predicate EntryFits(cells: map<seq<Byte>, seq<Byte>>, valueSize: nat, q: seq<Byte>)
  {
    q in cells ==> NoNul(q) && |cells[q]| == valueSize
  }

  /** Every key is a C string and every value has `value_size` bytes. */
  ghost predicate Fits(cells: map<seq<Byte>, seq<Byte>>, valueSize: nat)
  {
    forall q {:trigger EntryFits(cells, valueSize, q)} :: EntryFits(cells, valueSize, q)
  }

  lemma FitsKey(cells: map<seq<Byte>, seq<Byte>>, valueSize: nat, q: seq<Byte>)
    requires Fits(cells, valueSize) && q in cells
    ensures NoNul(q) && |cells[q]| == valueSize
  {
    assert EntryFits(cells, valueSize, q);
  }

  lemma FitsUpdate(cells: map<seq<Byte>, seq<Byte>>, valueSize: nat, q: seq<Byte>, v: seq<Byte>)
    requires Fits(cells, valueSize) && NoNul(q) && |v| == valueSize
    ensures Fits(cells[q := v], valueSize)
  {
    var cells' := cells[q := v];
    forall q' ensures EntryFits(cells', valueSize, q') {
      assert EntryFits(cells, valueSize, q');
    }
  }

  lemma FitsRemove(cells: map<seq<Byte>, seq<Byte>>, valueSize: nat, q: seq<Byte>)
    requires Fits(cells, valueSize)
    ensures Fits(cells - {q}, valueSize)
  {
    var cells' := cells - {q};
    forall q' ensures EntryFits(cells', valueSize, q') {
      assert EntryFits(cells, valueSize, q');
    }
  }

  /** Every entry of a is an entry of b. */
  ghost predicate SubMap(a: map<seq<Byte>, seq<Byte>>, b: map<seq<Byte>, seq<Byte>>)
  {
    forall q | q in a :: q in b && a[q] == b[q]
  }

  /**
   * The map's invariant on its fields' values: the table is good for djb2,
   * `len` counts its slots, the capacity is a positive multiple of eight
   * with one array bucket per eight, every entry fits, and `len` has not
   * passed the growth threshold by more than the one insertion
   * map_store makes after checking it.
   */
  ghost predicate Inv(t: Slots, len: nat, capacity: nat, valueSize: nat)
  {
    Good(t, Djb2) && len == |Items(t)| &&
    capacity > 0 && capacity % BucketCapacity == 0 && |t| == capacity / BucketCapacity &&
    2 * len <= 13 * |t| + 2 &&
    Fits(Contents(t), valueSize)
  }

  /**
   * The table after adding an absent key: a slot after every slot of the
   * key's chain, in its last bucket or in a newly linked one.
   */
  function Added(t: Slots, key: seq<Byte>, v: seq<Byte>): (r: Slots)
    requires |t| > 0 && Shaped(t)
    ensures |r| == |t|
  {
    var h := Home(Djb2(key), |t|);
    t[h := PushLast(WithRoom(t[h], ()), Item(Djb2(key), key, v), ())]
  }

  /**
   * Placing an absent key in the free slot of its chain's last bucket keeps
   * the invariant with one more slot, and maps the key to its value.
   */
  lemma PlaceKeeps(t: Slots, len: nat, capacity: nat, valueSize: nat, key: seq<Byte>, v: seq<Byte>)
    requires Inv(t, len, capacity, valueSize) && 2 * len <= 13 * |t|
    requires key !in Contents(t) && NoNul(key) && |v| == valueSize
    requires |t[Home(Djb2(key), |t|)][|t[Home(Djb2(key), |t|)]| - 1].slots| < BucketCapacity
    ensures var h := Home(Djb2(key), |t|);
      var t1 := t[h := PushLast(t[h], Item(Djb2(key), key, v), ())];
      t1 == Added(t, key, v) &&
      Inv(t1, len + 1, capacity, valueSize) && Contents(t1) == Contents(t)[key := v]
  {
    var h := Home(Djb2(key), |t|);
    assert ChainShaped(t[h]);
    InsertNew(t, Djb2, key, v, (), ());
    FitsUpdate(Contents(t), valueSize, key, v);
  }

  /**
   * map_add's conversion: the value passed as `long long`, cast to the
   * integer type of `value_size` bytes (two's complement truncation) and
   * laid out least significant byte first.
   */
  function LowBytes(x: int, n: nat): (r: seq<Byte>)
    ensures |r| == n
    decreases n
  {
    if n == 0 then [] else [(x % 256) as Byte] + LowBytes(x / 256, n - 1)
  }

  /** The unsigned value of bytes laid out least significant first. */
  function LittleEndian(s: seq<Byte>): nat
  {
    if s == [] then 0 else s[0] as nat + 256 * LittleEndian(s[1..])
  }

  function Pow256(n: nat): (r: nat)
    ensures r > 0
  {
    if n == 0 then 1 else 256 * Pow256(n - 1)
  }

  /** Reading the stored bytes back gives the value modulo 2^(8n): the truncation is the only loss. */
  lemma {:induction false} LowBytesRoundTrip(x: int, n: nat)
    ensures LittleEndian(LowBytes(x, n)) == x % Pow256(n)
    decreases n
  {
    if n == 0 {
      DivModUnique(x, 1, x, 0);
    } else {
      var s := LowBytes(x, n);
      assert s[1..] == LowBytes(x / 256, n - 1);
      LowBytesRoundTrip(x / 256, n - 1);
      ModStep(x, Pow256(n - 1));
    }
  }

  /** The remainder modulo 256p, from the low byte and the remainder of the rest modulo p. */
  lemma ModStep(x: int, p: nat)
    requires p > 0
    ensures x % (256 * p) == 256 * ((x / 256) % p) + x % 256
  {
    var q, r := x / 256, x % 256;
    var q2, r2 := q / p, q % p;
    assert x == (256 * p) * q2 + (256 * r2 + r) by {
      assert q == p * q2 + r2;
      assert x == 256 * q + r;
    }
    DivModUnique(x, 256 * p, q2, 256 * r2 + r);
  }

  class LegacyMap {
    var valueSize: nat
    var capacity: nat
    var len: nat
    var table: Slots

    /** The invariant on the fields. */
    ghost predicate Valid()
      reads this`table, this`len, this`capacity, this`valueSize
    {
      Inv(table, len, capacity, valueSize)
    }

    /** The mapping the map stands for. */
    ghost function View(): map<seq<Byte>, seq<Byte>>
      reads this`table
    {
      Contents(table)
    }

    /** `len / nb_buckets > MAP_MAX_LOAD_FACTOR` with the factor 6.5 in integers. */
    predicate Overloaded()
      reads this`table, this`len
    {
      2 * len > 13 * |table|
    }

    constructor (valueSize: nat, capacity: nat, table: Slots)
      ensures this.valueSize == valueSize && this.capacity == capacity && this.table == table && len == 0
    {
      this.valueSize := valueSize;
      this.capacity := capacity;
      this.table := table;
      this.len := 0;
    }

    /**
     * map_make: NULL when an allocation fails; otherwise an empty map whose
     * capacity is the least positive multiple of eight covering the
     * request, with capacity / 8 empty buckets.
     */
    static method Make(valueSize: nat, capacity: nat) returns (m: LegacyMap?)
      ensures m != null ==> fresh(m) && m.Valid() && m.len == 0 && m.View() == map[]
      ensures m != null ==> m.valueSize == valueSize && m.capacity == RoundedCapacity(capacity)
      ensures m != null ==> m.table == EmptyTable(m.capacity / BucketCapacity, ())
    {
      var ok := TryAllocate();
      if !ok {
        return null;
      }
      var cap := RoundCapacity(capacity);
      var nb := cap / BucketCapacity;
      ok := TryAllocate();
      if !ok {
        return null;
      }
      var t: Slots := [];
      var i := 0;
      while i < nb
        invariant i <= nb && t == EmptyTable(i, ())
      {
        ok := TryAllocate();
        if !ok {
          return null;
        }
        t := t + [[Node([], ())]];
        i := i + 1;
      }
      EmptyTableItems<Entry, ()>(nb, ());
      m := new LegacyMap(valueSize, cap, t);
    }

    /** map_len: 0 for NULL, otherwise the number of keys. */
    static function LenOrZero(m: LegacyMap?): (r: nat)
      reads m
      requires m != null ==> m.Valid()
      ensures m == null ==> r == 0
      ensures m != null ==> r == |m.View()|
    {
      if m == null then 0 else
        CountIsSize(m.table);
        m.len
    }

    /**
     * find_bucket_pos: hash the key and walk the chain it selects for a
     * slot with that hash whose key strcmp finds equal.  Found exactly when
     * the key is in the map, at a slot holding the key and its value;
     * otherwise the walk stops at the chain's last bucket, at the position
     * just past its used slots.
     */
    function FindBucketPos(q: seq<Byte>): (r: Spot)
      reads this`table, this`len, this`capacity, this`valueSize
      requires Valid()
      ensures r.hash == Djb2(q) && r.home == Home(r.hash, |table|) && r.at.node < |table[r.home]|
      ensures r.found <==> q in View()
      ensures r.found ==> (r.at.slot < |table[r.home][r.at.node].slots| &&
        table[r.home][r.at.node].slots[r.at.slot].key == q &&
        table[r.home][r.at.node].slots[r.at.slot].value == View()[q])
      ensures !r.found ==> r.at == Pos(|table[r.home]| - 1, |table[r.home][|table[r.home]| - 1].slots|)
    {
      var h := Home(Djb2(q), |table|);
      assert ChainShaped(table[h]);
      Lookup(table, Djb2, q);
      match Find(table[h], KeyIs(q, Djb2(q)))
      case None => Spot(false, Djb2(q), h, Pos(|table[h]| - 1, |table[h][|table[h]| - 1].slots|))
      case Some(p) => Spot(true, Djb2(q), h, p)
    }

    /**
     * map_get: whether the key is mapped, and the caller's buffer `v`
     * afterwards (None standing for NULL): the value is copied into it only
     * when the key is found and `v` is not NULL.
     */
    function Get(q: seq<Byte>, v: Option<seq<Byte>>): (r: (bool, Option<seq<Byte>>))
      reads this`table, this`len, this`capacity, this`valueSize
      requires Valid()
      ensures r.0 <==> q in View()
      ensures r.1 == if q in View() && v.Some? then Some(View()[q]) else v
    {
      var s := FindBucketPos(q);
      if !s.found then (false, v)
      else (true, if v.Some? then Some(table[s.home][s.at.node].slots[s.at.slot].value) else v)
    }

    /** map_contains: map_get with a NULL buffer. */
    function Contains(q: seq<Byte>): (r: bool)
      reads this`table, this`len, this`capacity, this`valueSize
      requires Valid()
      ensures r <==> q in View()
    {
      Get(q, None).0
    }

    /**
     * map_erase: 0 and nothing changed when the key is absent; otherwise 1,
     * the bucket's last slot (hash, key pointer, value) moved into the
     * erased one and the length one less.
     */
    method Erase(key: seq<Byte>) returns (found: bool)
      requires Valid()
      modifies this`table, this`len
      ensures Valid() && (found <==> old(key in View()))
      ensures View() == old(View()) - {key}
      ensures !found ==> table == old(table) && len == old(len)
      ensures found ==> (len == old(len) - 1 &&
        var s := old(FindBucketPos(key));
        table == old(table)[s.home := SwapRemove(old(table)[s.home], s.at)])
    {
      var s := FindBucketPos(key);
      if !s.found {
        return false;
      }
      var t0: Slots := table;
      Remove(t0, Djb2, s.home, s.at);
      FitsRemove(Contents(t0), valueSize, key);
      table := t0[s.home := SwapRemove(t0[s.home], s.at)];
      len := len - 1;
      found := true;
    }

    /**
     * The overflow step of map_store: allocate a bucket and its values,
     * and link it after the chain's last one.  When an allocation fails
     * nothing is linked.
     */
    method LinkBucket(h: nat) returns (ok: bool)
      requires Valid() && h < |table|
      modifies this`table
      ensures Valid() && View() == old(View())
      ensures ok ==> table == old(table)[h := old(table)[h] + [Node([], ())]]
      ensures !ok ==> table == old(table)
    {
      ok := TryAllocate();
      if !ok {
        return;
      }
      ok := TryAllocate();
      if !ok {
        return;
      }
      LinkEmpty(table, Djb2, h, ());
      table := table[h := table[h] + [Node([], ())]];
    }

    /**
     * The overwriting branch of map_store: copy the value into a found
     * slot.  Only that key's value changes.
     */
    method Assign(h: nat, p: Pos, val: seq<Byte>)
      requires Valid() && h < |table| && p.node < |table[h]| && p.slot < |table[h][p.node].slots| && |val| == valueSize
      modifies this`table
      ensures Valid()
      ensures var x := old(table)[h][p.node].slots[p.slot];
        table == old(table)[h := SetSlot(old(table)[h], p, x.(value := val))] &&
        View() == old(View())[x.key := val]
    {
      var t0: Slots := table;
      var x := t0[h][p.node].slots[p.slot];
      Overwrite(t0, Djb2, h, p, val);
      FitsKey(Contents(t0), valueSize, x.key);
      FitsUpdate(Contents(t0), valueSize, x.key, val);
      table := t0[h := SetSlot(t0[h], p, x.(value := val))];
    }

    /**
     * The slot-writing end of map_store: the next slot of the chain's last
     * bucket, which has room, takes the value, the hash and the key.
     */
    method Place(key: seq<Byte>, val: seq<Byte>)
      requires Valid() && !Overloaded() && NoNul(key) && |val| == valueSize && key !in View()
      requires |table[Home(Djb2(key), |table|)][|table[Home(Djb2(key), |table|)]| - 1].slots| < BucketCapacity
      modifies this`table, this`len
      ensures Valid() && len == old(len) + 1
      ensures table == Added(old(table), key, val) && View() == old(View())[key := val]
    {
      var t0: Slots := table;
      var h := Home(Djb2(key), |t0|);
      PlaceKeeps(t0, len, capacity, valueSize, key, val);
      table, len := t0[h := PushLast(t0[h], Item(Djb2(key), key, val), ())], len + 1;
    }

    /**
     * map_store after its load check: overwrite the value of a present key;
     * otherwise add the key after every slot of its chain, in a newly
     * linked bucket when the last one is full.  False when that bucket
     * cannot be allocated, with the map unchanged.
     */
    method Put(key: seq<Byte>, val: seq<Byte>) returns (ok: bool)
      requires Valid() && !Overloaded() && NoNul(key) && |val| == valueSize
      modifies this`table, this`len
      ensures Valid()
      ensures ok ==> View() == old(View())[key := val]
      ensures ok ==> len == old(len) + (if key in old(View()) then 0 else 1)
      ensures old(key in View()) ==> ok
      ensures !ok ==> table == old(table) && len == old(len)
    {
      var s := FindBucketPos(key);
      if s.found {
        Assign(s.home, s.at, val);
        return true;
      }
      var h := s.home;
      assert ChainShaped(table[h]);
      if |table[h][|table[h]| - 1].slots| == BucketCapacity {
        ok := LinkBucket(h);
        if !ok {
          return;
        }
      }
      Place(key, val);
      ok := true;
    }

    /**
     * map_each / map_each_ctx: call the callback on every slot, array
     * bucket by array bucket, each chain from its first bucket, each bucket
     * from slot 0.  The calls are returned as the sequence of entries they
     * receive, in call order.
     */
    method Each() returns (visits: seq<Entry>)
      ensures visits == Items(table)
      ensures Valid() ==> |visits| == len && DistinctKeys(visits) && ToMap(visits) == View()
    {
      var t := table;
      visits := [];
      var i := 0;
      while i < |t|
        invariant i <= |t| && visits == Items(t[..i])
      {
        var c := t[i];
        var k := 0;
        ghost var before := visits;
        while k < |c|
          invariant k <= |c| && visits == before + ChainItems(c[..k])
        {
          var slots := c[k].slots;
          var j := 0;
          ghost var start := visits;
          while j < |slots|
            invariant j <= |slots| && visits == start + slots[..j]
          {
            visits := visits + [slots[j]];
            j := j + 1;
            assert slots[..j] == slots[..j - 1] + [slots[j - 1]];
          }
          assert slots[..j] == slots;
          assert c[..k + 1][..k] == c[..k];
          k := k + 1;
        }
        assert c[..k] == c;
        assert t[..i + 1][..i] == t[..i];
        i := i + 1;
      }
      assert t[..i] == t;
      if Valid() {
        CountIsSize(table);
        DistinctCount(visits);
      }
    }

    /**
     * map_rehash: make a map of twice the capacity, store every entry of
     * this one into it through map_each_ctx, then copy its fields over this
     * map's, so the handle stays the same.  False (NULL) when the new map
     * cannot be made, with nothing changed.  map_inserter drops
     * map_store's result, so an entry whose overflow bucket cannot be
     * allocated is lost (`lost`); the mapping is then a part of the old one.
     */
    method Rehash() returns (ok: bool, ghost lost: bool)
      requires Valid()
      modifies this`table, this`len, this`capacity
      ensures Valid()
      ensures !ok ==> table == old(table) && len == old(len) && capacity == old(capacity)
      ensures ok ==> capacity == 2 * old(capacity) && |table| == 2 * old(|table|) && !Overloaded()
      ensures ok ==> SubMap(View(), old(View())) && (!lost ==> View() == old(View()))
    {
      lost := false;
      var n := Make(valueSize, capacity * 2);
      if n == null {
        return false, lost;
      }
      DoubledCapacity(capacity);
      var visits := Each();
      VisitsFit(table, len, capacity, valueSize, visits);
      lost := n.StoreAll(visits);
      table, len, capacity := n.table, n.len, n.capacity;
      ok := true;
    }

    /**
     * map_each_ctx(m, map_inserter, n) in map_rehash, on the new map n:
     * map_store each entry of the old map in turn, dropping the result.
     * The new map holds fewer entries than the old one at each call, so
     * its own load check never fires.  An entry whose store fails is lost.
     */
    method StoreAll(s: seq<Entry>) returns (ghost lost: bool)
      requires Valid() && len == 0 && DistinctKeys(s) && 2 * |s| <= 13 * |table| + 2
      requires forall i | 0 <= i < |s| :: NoNul(s[i].key) && |s[i].value| == valueSize
      modifies this`table, this`len
      ensures Valid() && |table| == old(|table|) && len <= |s|
      ensures SubMap(View(), ToMap(s)) && (!lost ==> View() == ToMap(s))
    {
      lost := false;
      var k := 0;
      while k < |s|
        invariant Valid() && |table| == old(|table|)
        invariant k <= |s| && len <= k
        invariant SubMap(View(), ToMap(s[..k])) && (!lost ==> View() == ToMap(s[..k]))
      {
        PrefixKeyFresh(s, k);
        var put := Put(s[k].key, s[k].value);
        if !put {
          lost := true;
        }
        k := k + 1;
      }
      assert s[..k] == s;
    }

    /**
     * map_store: rehash first when the map is over the load factor, even
     * when the key is already mapped; then overwrite a present key's value
     * or add the key.  0 (false) when the rehash or an allocation fails.
     * The mapping afterwards is the old one with the key set, less any
     * entry the rehash lost.
     */
    method Store(key: seq<Byte>, val: seq<Byte>) returns (ok: bool, ghost lost: bool)
      requires Valid() && NoNul(key) && |val| == valueSize
      modifies this`table, this`len, this`capacity
      ensures Valid()
      ensures ok ==> key in View() && View()[key] == val && SubMap(View() - {key}, old(View()))
      ensures ok && !lost ==> (View() == old(View())[key := val] &&
        len == old(len) + (if key in old(View()) then 0 else 1))
      ensures !ok ==> SubMap(View(), old(View())) && (!lost ==> View() == old(View()))
      ensures !old(Overloaded()) ==> !lost && capacity == old(capacity)
      ensures old(Overloaded()) && ok ==> capacity == 2 * old(capacity)
    {
      lost := false;
      if Overloaded() {
        CountIsSize(table);
        ok, lost := Rehash();
        if !ok {
          return;
        }
      }
      CountIsSize(table);
      ghost var v1 := View();
      ok := Put(key, val);
      if ok {
        forall q | q in View() - {key} ensures q in old(View()) && (View() - {key})[q] == old(View())[q] {
          assert q in v1;
        }
      }
    }

    /**
     * map_add: the `long long` argument cast to the integer type of
     * `value_size` bytes (1, 2, 4 or 8; any other size fails the assert)
     * and stored under the key.
     */
    method Add(key: seq<Byte>, x: int) returns (ok: bool, ghost lost: bool)
      requires Valid() && NoNul(key) && valueSize in {1, 2, 4, 8}
      modifies this`table, this`len, this`capacity
      ensures Valid()
      ensures ok ==> key in View() && LittleEndian(View()[key]) == x % Pow256(valueSize)
      ensures ok && !lost ==> (View() == old(View())[key := LowBytes(x, valueSize)] &&
        len == old(len) + (if key in old(View()) then 0 else 1))
      ensures !old(Overloaded()) ==> !lost
    {
      ok, lost := Store(key, LowBytes(x, valueSize));
      LowBytesRoundTrip(x, valueSize);
    }
  }

  /** Doubling a capacity that is a positive multiple of eight needs no rounding. */
  lemma DoubledCapacity(capacity: nat)
    requires capacity > 0 && capacity % BucketCapacity == 0
    ensures RoundedCapacity(2 * capacity) == 2 * capacity
    ensures (2 * capacity) / BucketCapacity == 2 * (capacity / BucketCapacity)
  {
  }

  /** Every entry a valid map yields has a C string key and a value of `value_size` bytes. */
  lemma VisitsFit(t: Slots, len: nat, capacity: nat, valueSize: nat, s: seq<Entry>)
    requires Inv(t, len, capacity, valueSize) && s == Items(t)
    ensures forall i | 0 <= i < |s| :: NoNul(s[i].key) && |s[i].value| == valueSize
  {
    forall i | 0 <= i < |s| ensures NoNul(s[i].key) && |s[i].value| == valueSize {
      ToMapAt(s, i);
      FitsKey(Contents(t), valueSize, s[i].key);
    }
  }

  // test_map_int (test/slice_test.c:169-201), in two halves.

  const ZeroKey: seq<Byte> := [122, 101, 114, 111]
  const TenKey: seq<Byte> := [116, 101, 110]
  const ThreeKey: seq<Byte> := [116, 104, 114, 101, 101]
  const FortyTwoKey: seq<Byte> := [102, 111, 114, 116, 121, 32, 116, 119, 111]
  const FiveKey: seq<Byte> := [102, 105, 118, 101]
  const VincentKey: seq<Byte> := [118, 105, 110, 99, 101, 110, 116]

  /** The scenario's keys differ from one another: by their first byte, or their second. */
  lemma ScenarioKeysDiffer()
    ensures FiveKey != ZeroKey && FiveKey != TenKey && FiveKey != ThreeKey && FiveKey != FortyTwoKey
    ensures VincentKey != ZeroKey && VincentKey != TenKey && VincentKey != ThreeKey && VincentKey != FortyTwoKey
    ensures ZeroKey != TenKey && ZeroKey != ThreeKey && ZeroKey != FortyTwoKey
    ensures TenKey != ThreeKey && TenKey != FortyTwoKey && ThreeKey != FortyTwoKey
    ensures NoNul(ZeroKey) && NoNul(TenKey) && NoNul(ThreeKey) && NoNul(FortyTwoKey)
  {
    assert ZeroKey[0] == 122 && TenKey[0] == 116 && ThreeKey[0] == 116 && FortyTwoKey[0] == 102;
    assert FiveKey[0] == 102 && VincentKey[0] == 118;
    assert TenKey[1] == 101 && ThreeKey[1] == 104 && FortyTwoKey[1] == 111 && FiveKey[1] == 105;
  }

  /** The four-byte int i as map_store copies it from `&i`. */
  function IntBytes(i: int): seq<Byte>
  {
    LowBytes(i, 4)
  }

  /** The view maps k to v. */
  ghost predicate Maps(view: map<seq<Byte>, seq<Byte>>, k: seq<Byte>, v: seq<Byte>)
  {
    k in view && view[k] == v
  }

  /**
   * The start of test_map_int: a map of four-byte ints asked for capacity
   * 20 has three buckets and length 0.  NULL when an allocation fails.
   */
  method MapIntMake() returns (m: LegacyMap?, first: nat)
    ensures m != null ==> (first == 0 && m.Valid() && m.valueSize == 4 && m.len == 0 && m.View() == map[] &&
      |m.table| == 3)
  {
    m := LegacyMap.Make(4, 20);
    if m == null {
      return null, 0;
    }
    first := LegacyMap.LenOrZero(m);
  }

  /**
   * The first two map_store calls of test_map_int: "zero" 0 and "ten" 10
   * go into the empty map.  False when an allocation fails.
   */
  method MapIntStoresFirst(m: LegacyMap) returns (ok: bool)
    requires m.Valid() && m.valueSize == 4 && m.len == 0 && m.View() == map[] && |m.table| == 3
    modifies m`table, m`len, m`capacity
    ensures ok ==> m.Valid() && m.valueSize == 4 && m.len == 2 && |m.table| == 3
    ensures ok ==> (Maps(m.View(), ZeroKey, IntBytes(0)) && Maps(m.View(), TenKey, IntBytes(10)) &&
      ThreeKey !in m.View() && FortyTwoKey !in m.View() &&
      FiveKey !in m.View() && VincentKey !in m.View())
  {
    ScenarioKeysDiffer();
    ghost var lost;
    var i := 0;
    ok, lost := m.Store(ZeroKey, IntBytes(i));
    if !ok {
      return;
    }
    i := 10;
    ok, lost := m.Store(TenKey, IntBytes(i));
  }

  /**
   * The third map_store call of test_map_int: "three" 3 joins "zero" and
   * "ten".  False when an allocation fails.
   */
  method MapIntStoresThird(m: LegacyMap) returns (ok: bool)
    requires m.Valid() && m.valueSize == 4 && m.len == 2 && |m.table| == 3
    requires Maps(m.View(), ZeroKey, IntBytes(0)) && Maps(m.View(), TenKey, IntBytes(10)) &&
      ThreeKey !in m.View() && FortyTwoKey !in m.View() &&
      FiveKey !in m.View() && VincentKey !in m.View()
    modifies m`table, m`len, m`capacity
    ensures ok ==> m.Valid() && m.valueSize == 4 && m.len == 3 && |m.table| == 3
    ensures ok ==> (Maps(m.View(), ZeroKey, IntBytes(0)) && Maps(m.View(), TenKey, IntBytes(10)) &&
      Maps(m.View(), ThreeKey, IntBytes(3)) && FortyTwoKey !in m.View() &&
      FiveKey !in m.View() && VincentKey !in m.View())
  {
    ScenarioKeysDiffer();
    ghost var lost;
    var i := 3;
    ok, lost := m.Store(ThreeKey, IntBytes(i));
  }

  /**
   * The map_add calls of test_map_int: "three" becomes 33 and "forty two"
   * is added with 42, giving four keys.  False when an allocation fails.
   */
  method MapIntAdds(m: LegacyMap) returns (ok: bool)
    requires m.Valid() && m.valueSize == 4 && m.len == 3 && |m.table| == 3
    requires Maps(m.View(), ZeroKey, IntBytes(0)) && Maps(m.View(), TenKey, IntBytes(10)) &&
      Maps(m.View(), ThreeKey, IntBytes(3)) && FortyTwoKey !in m.View() &&
      FiveKey !in m.View() && VincentKey !in m.View()
    modifies m`table, m`len, m`capacity
    ensures ok ==> m.Valid() && m.len == 4
    ensures ok ==> (Maps(m.View(), ZeroKey, IntBytes(0)) && Maps(m.View(), TenKey, IntBytes(10)) &&
      Maps(m.View(), ThreeKey, IntBytes(33)) && Maps(m.View(), FortyTwoKey, IntBytes(42)) &&
      FiveKey !in m.View() && VincentKey !in m.View())
  {
    ScenarioKeysDiffer();
    ghost var lost;
    ghost var before := m.View();
    ok, lost := m.Add(ThreeKey, 33);
    if !ok {
      return;
    }
    assert !lost && m.View() == before[ThreeKey := IntBytes(33)];
    assert m.Valid() && m.valueSize == 4 && m.len == 3 && !m.Overloaded();
    ok, lost := m.Add(FortyTwoKey, 42);
  }

  /**
   * The erasures of test_map_int: erasing "five" fails, erasing "zero"
   * succeeds and leaves three keys.
   */
  method MapIntErasures(m: LegacyMap) returns (five: bool, zero: bool, size: nat)
    requires m.Valid() && m.len == 4
    requires Maps(m.View(), ZeroKey, IntBytes(0)) && Maps(m.View(), TenKey, IntBytes(10)) &&
      Maps(m.View(), ThreeKey, IntBytes(33)) && Maps(m.View(), FortyTwoKey, IntBytes(42)) &&
      FiveKey !in m.View() && VincentKey !in m.View()
    modifies m`table, m`len
    ensures !five && zero && size == 3 && m.Valid()
    ensures Maps(m.View(), TenKey, IntBytes(10)) && Maps(m.View(), ThreeKey, IntBytes(33)) &&
      Maps(m.View(), FortyTwoKey, IntBytes(42)) && ZeroKey !in m.View() && VincentKey !in m.View()
  {
    ScenarioKeysDiffer();
    five := m.Erase(FiveKey);
    zero := m.Erase(ZeroKey);
    size := LegacyMap.LenOrZero(m);
  }

  /**
   * The reads of test_map_int: "vincent" is absent, and "ten", "three" and
   * "forty two" read back 10, 33 and 42 into the caller's buffer.
   */
  method MapIntReads(m: LegacyMap, v: seq<Byte>) returns (vincent: bool, ten: (bool, Option<seq<Byte>>),
                                                          three: (bool, Option<seq<Byte>>),
                                                          fortyTwo: (bool, Option<seq<Byte>>))
    requires m.Valid()
    requires Maps(m.View(), TenKey, IntBytes(10)) && Maps(m.View(), ThreeKey, IntBytes(33)) &&
      Maps(m.View(), FortyTwoKey, IntBytes(42)) && VincentKey !in m.View()
    ensures !vincent
    ensures ten == (true, Some(IntBytes(10))) && three == (true, Some(IntBytes(33))) &&
      fortyTwo == (true, Some(IntBytes(42)))
  {
    vincent := m.Contains(VincentKey);
    ten := m.Get(TenKey, Some(v));
    three := m.Get(ThreeKey, Some(v));
    fortyTwo := m.Get(FortyTwoKey, Some(v));
  }
}
