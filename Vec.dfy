/**
 * The growable array of src/vec.c, and of slice.c, which is the same code
 * under the names `slice_*`: a header {len, capacity, elem_size} stored in
 * front of the element buffer.  The model keeps the header as fields and
 * the buffer as an array of elements; `data.Length` is the number of
 * elements the allocation really holds, which the header's `capacity` is
 * meant to equal.
 */
module Vec {
  import opened Common

  /** 2^63: `long long` values lie in [-2^63, 2^63). */
  const LongLongBound: int := 0x8000_0000_0000_0000

  /** 2^(8·size - 1): a signed integer of `size` bytes lies in [-Half(size), Half(size)). */
  function Half(size: nat): (r: int)
    requires size in {1, 2, 4, 8}
    ensures r >= 1
  {
    if size == 1 then 0x80
    else if size == 2 then 0x8000
    else if size == 4 then 0x8000_0000
    else LongLongBound
  }

  /** The value a `long long` becomes once cast to a signed integer of `size` bytes. */
  function Narrow(x: int, size: nat): (r: int)
    requires size in {1, 2, 4, 8}
    ensures -Half(size) <= r < Half(size)
    ensures (x - r) % (2 * Half(size)) == 0
  {
    var h := Half(size);
    var r := (x + h) % (2 * h) - h;
    DivModUnique(x - r, 2 * h, (x + h) / (2 * h), 0);
    r
  }

  /** A value that already fits the element type is stored unchanged. */
  lemma NarrowKeeps(x: int, size: nat)
    requires size in {1, 2, 4, 8}
    requires -Half(size) <= x < Half(size)
    ensures Narrow(x, size) == x
  {
    var h := Half(size);
    DivModUnique(x + h, 2 * h, 0, x + h);
  }

  /** Every `long long` fits an eight-byte element: vec_appendnv copies it as is. */
  lemma NarrowLongLong(x: int)
    requires -LongLongBound <= x < LongLongBound
    ensures Narrow(x, 8) == x
  {
    NarrowKeeps(x, 8);
  }

  function Narrowed(values: seq<int>, size: nat): (r: seq<int>)
    requires size in {1, 2, 4, 8}
    ensures |r| == |values|
    ensures forall k :: 0 <= k < |values| ==> r[k] == Narrow(values[k], size)
  {
    seq(|values|, k requires 0 <= k < |values| => Narrow(values[k], size))
  }

  /**
   * The capacity of the doubling loop of vec_grow_to_fit once at least
   * `need` elements fit, starting from a positive capacity.
   */
  function Doubled(capacity: nat, need: nat): (r: nat)
    requires capacity >= 1
    ensures r >= capacity && r >= need
    ensures need <= capacity ==> r == capacity
    ensures need > capacity ==> r < 2 * need
    decreases if need <= capacity then 0 else need - capacity
  {
    if need <= capacity then capacity else Doubled(2 * capacity, need)
  }

  /** vec_grow_to_fit: a capacity of 0 is first raised to 1, then doubled until `need` fits. */
  function Grown(capacity: nat, need: nat): (r: nat)
    ensures r >= 1 && r >= need
  {
    Doubled(if capacity == 0 then 1 else capacity, need)
  }

  /**
   * The grown capacity is the smallest doubling of the starting one that
   * holds `need` elements: it fits, it never shrinks, it is kept when it
   * already fits, and otherwise it overshoots by less than a factor 2.
   */
  lemma GrownLeast(capacity: nat, need: nat)
    ensures Grown(capacity, need) >= need && Grown(capacity, need) >= capacity
    ensures 1 <= capacity && need <= capacity ==> Grown(capacity, need) == capacity
    ensures need > capacity && need > 1 ==> Grown(capacity, need) < 2 * need
  {
  }

  /** What vec_grow_to_fit leaves in the header, and whether it calls realloc. */
  datatype Growth = Growth(capacity: nat, resized: bool)

  /**
   * vec_grow_to_fit as written: `capacity_changed` is set only inside the
   * doubling loop, so the raise of a zero capacity to 1 alone never
   * reallocates.
   */
  function GrowthAsWritten(capacity: nat, len: nat, n: nat): (r: Growth)
    ensures r.capacity == Grown(capacity, len + n)
    ensures r.resized <==> len + n > (if capacity == 0 then 1 else capacity)
  {
    var start := if capacity == 0 then 1 else capacity;
    Growth(Doubled(start, len + n), len + n > start)
  }

  /** The number of elements the allocation holds after vec_grow_to_fit as written. */
  function AllocatedAsWritten(capacity: nat, len: nat, n: nat): nat
  {
    var g := GrowthAsWritten(capacity, len, n);
    if g.resized then g.capacity else capacity
  }

  /**
   * Appending one element to an empty vec made with capacity 0 (qex's
   * parse_options does this with its file list): the header then claims
   * room for one element while the allocation holds none, and the append
   * writes past it.
   */
  lemma GrowthAsWrittenOverruns()
    ensures GrowthAsWritten(0, 0, 1) == Growth(1, false)
    ensures AllocatedAsWritten(0, 0, 1) == 0 < 0 + 1
  {
  }

  /** Whenever the starting capacity is positive, the written code reallocates exactly when needed. */
  lemma GrowthAsWrittenPositive(capacity: nat, len: nat, n: nat)
    requires capacity >= 1
    ensures AllocatedAsWritten(capacity, len, n) == Grown(capacity, len + n) >= len + n
  {
  }

  /**
   * vec_back as written: `(header->len - 1) * elem_size` in `size_t`, so for
   * an empty vec the element index wraps to 2^64 - 1.
   */
  function BackIndexAsWritten(len: Word): (r: Word)
    ensures len > 0 ==> r == len - 1
  {
    (len + WordModulus - 1) % WordModulus
  }

  /** The size of the header {len, capacity, elem_size} stored before the elements. */
  const HeaderSize: nat := 24

  /**
   * On an empty vec the written index wraps to 2^64 - 1, and its byte
   * offset `index * elem_size`, in `size_t`, is -elem_size: the pointer
   * returned is `data - elem_size`, before the first element and, for an
   * element no wider than the header, inside the vec's own header, where
   * vec.h:73-76 promises NULL.
   */
  lemma BackOfEmptyOverruns(elemSize: nat)
    requires 0 < elemSize < WordModulus
    ensures BackIndexAsWritten(0) == WordModulus - 1
    ensures (BackIndexAsWritten(0) * elemSize) % WordModulus == WordModulus - elemSize
    ensures elemSize <= HeaderSize ==> WordModulus - HeaderSize <= (BackIndexAsWritten(0) * elemSize) % WordModulus
  {
    assert (WordModulus - 1) * elemSize == WordModulus * (elemSize - 1) + (WordModulus - elemSize);
    DivModUnique((WordModulus - 1) * elemSize, WordModulus, elemSize - 1, WordModulus - elemSize);
  }

  /**
   * The length vec_sub copies as written, or None where it returns NULL:
   * start at or past the end, a non-negative end not after start, or a
   * computed length that is not positive.  A negative end counts from the
   * end: -1 stands for len.
   */
  function SubCountAsWritten(len: nat, start: nat, end: int): (r: Option<nat>)
    ensures r.Some? ==> r.value > 0 && start < len
    ensures r.Some? && end < 0 ==> start + r.value <= len
  {
    if start >= len then None
    else if end >= 0 && end <= start then None
    else
      var k := if end < 0 then len - start + end + 1 else end - start;
      if k <= 0 then None else Some(k)
  }

  /**
   * A positive end beyond the length passes every test of vec_sub, which
   * then copies elements past the end of the source vec.
   */
  lemma SubCountAsWrittenOverReads()
    ensures SubCountAsWritten(1, 0, 2) == Some(2) && 0 + 2 > 1
  {
  }

  /**
   * vec_sub as evidently intended: the requested range must lie inside the
   * vec, so an end past the length also gives NULL.
   */
  function SubCount(len: nat, start: nat, end: int): (r: Option<nat>)
    ensures r.Some? ==> r.value > 0 && start + r.value <= len
    ensures r.Some? ==> SubCountAsWritten(len, start, end) == r
    ensures 0 <= end <= len ==> r == SubCountAsWritten(len, start, end)
    ensures end < 0 ==> r == SubCountAsWritten(len, start, end)
  {
    var w := SubCountAsWritten(len, start, end);
    if w.Some? && start + w.value <= len then w else None
  }

  /**
   * The negative-end rule of vec.h:85-87: an end of -m picks
   * the same range as the end len - m + 1.
   */
  lemma SubNegativeEnd(len: nat, start: nat, m: int)
    requires 1 <= m <= len + 1
    ensures SubCount(len, start, -m) == SubCount(len, start, len - m + 1)
  {
  }

  /** A range with 0 <= start < end <= len gives the elements [start, end). */
  lemma SubInside(len: nat, start: nat, end: nat)
    requires start < end <= len
    ensures SubCount(len, start, end) == Some(end - start)
  {
  }

  /**
   * The vec_sub calls of test_vec_int on a vec of 21 ints: both ends -2 and
   * 20 give the ten elements from index 10, and the three bad ranges give
   * NULL.
   */
  lemma SubScenario()
    ensures SubCount(21, 10, -2) == SubCount(21, 10, 20) == Some(10)
    ensures SubCount(21, 4, 2) == None && SubCount(21, 30, 31) == None
    ensures SubCount(21, 3, -50) == None
  {
  }

  /** A vec of elements of type T. */
  class Vec<T(0)> {
    /** The allocation: `data.Length` elements. */
    var data: array<T>
    var len: nat
    var capacity: nat
    const elemSize: nat

    /** The header agrees with the allocation and the length fits it. */
    ghost predicate Valid()
      reads this
    {
      len <= capacity && capacity == data.Length
    }

    /** The elements [0, len). */
    function Elements(): (r: seq<T>)
      reads this, data
      requires Valid()
      ensures |r| == len
    {
      data[..len]
    }

    /**
     * vec_make: the header stores the given length, capacity and element
     * size, and the first `len` elements are zero (`zero` is the element
     * whose bytes are all 0).
     */
    constructor (elemSize: nat, len: nat, capacity: nat, zero: T)
      requires len <= capacity
      ensures Valid() && fresh(data)
      ensures this.elemSize == elemSize && this.capacity == capacity
      ensures Elements() == seq(len, _ => zero)
    {
      var buf := new T[capacity];
      var k := 0;
      while k < len
        invariant 0 <= k <= len
        invariant forall p :: 0 <= p < k ==> buf[p] == zero
      {
        buf[k] := zero;
        k := k + 1;
      }
      data := buf;
      this.len := len;
      this.capacity := capacity;
      this.elemSize := elemSize;
    }

    /** vec_len: 0 for NULL, otherwise the number of elements. */
    static function LenOrZero(v: Vec?<T>): (r: nat)
      reads v
      ensures v == null ==> r == 0
      ensures v != null && v.Valid() ==> r == |v.Elements()|
    {
      if v == null then 0 else v.len
    }

    /**
     * vec_grow_to_fit, with the reallocation also done when only the raise
     * of a zero capacity to 1 happened: afterwards `n` more elements fit,
     * the capacity is the grown one and the elements are unchanged.
     */
    method GrowToFit(n: nat)
      requires Valid()
      modifies this`data, this`capacity
      ensures Valid() && len + n <= capacity
      ensures capacity == Grown(old(capacity), len + n)
      ensures Elements() == old(Elements())
      ensures data == old(data) || fresh(data)
    {
      ghost var before := Elements();
      var changed := false;
      if capacity == 0 {
        capacity := 1;
        changed := true;
      }
      while len + n > capacity
        invariant capacity >= 1
        invariant Grown(old(capacity), len + n) == Doubled(capacity, len + n)
        invariant len <= data.Length && data == old(data)
        invariant !changed ==> capacity == data.Length
        invariant changed ==> capacity > data.Length
        decreases len + n - capacity
      {
        capacity := capacity * 2;
        changed := true;
      }
      if changed {
        Reallocate();
        assert data[..len] == data[..old(data.Length)][..len];
      }
    }

    /** realloc to `capacity` elements: the old allocation's elements are copied over. */
    method Reallocate()
      requires len <= data.Length <= capacity
      modifies this`data
      ensures fresh(data) && data.Length == capacity
      ensures data[..old(data.Length)] == old(data[..])
    {
      var src := data;
      var buf := new T[capacity];
      var k := 0;
      while k < src.Length
        invariant 0 <= k <= src.Length <= buf.Length
        invariant buf[..k] == src[..k]
        modifies buf
      {
        buf[k] := src[k];
        k := k + 1;
      }
      data := buf;
    }

    /**
     * vec_appendnp (slice_storen): the `n` values are copied, in order,
     * after the existing elements, which stay as they were.
     */
    method AppendN(values: seq<T>)
      requires Valid()
      modifies this, data
      ensures Valid()
      ensures Elements() == old(Elements()) + values
      ensures data == old(data) || fresh(data)
      ensures capacity == Grown(old(capacity), old(len) + |values|)
    {
      GrowToFit(|values|);
      ghost var before := Elements();
      var k := 0;
      while k < |values|
        invariant 0 <= k <= |values| && Valid() && len + |values| <= capacity
        invariant data[..len] == before
        invariant forall p :: 0 <= p < k ==> data[len + p] == values[p]
        modifies data
      {
        data[len + k] := values[k];
        k := k + 1;
      }
      assert data[len..len + |values|] == values;
      assert data[..len + |values|] == before + values;
      len := len + |values|;
    }

    /** vec_pop: the last element is dropped; an empty vec is left as it is. */
    method Pop()
      requires Valid()
      modifies this`len
      ensures Valid()
      ensures len == if old(len) == 0 then 0 else old(len) - 1
      ensures Elements() == old(Elements())[..len]
    {
      if len == 0 {
        return;
      }
      len := len - 1;
    }

    /** vec_clear: no element is left; the allocation is kept. */
    method Clear()
      requires Valid()
      modifies this`len
      ensures Valid() && Elements() == []
    {
      len := 0;
    }

    /**
     * vec_back as vec.h:73-76 promises it: the last element,
     * or None for an empty vec.
     */
    function Back(): (r: Option<T>)
      reads this, data
      requires Valid()
      ensures r.None? <==> Elements() == []
      ensures r.Some? ==> r.value == Elements()[|Elements()| - 1]
    {
      if len == 0 then None else Some(data[len - 1])
    }

    /**
     * vec_sub: NULL when the vec is NULL or the range is not one SubCount
     * accepts; otherwise a new vec of capacity and length k holding the
     * source's elements [start, start + k).
     */
    static method Sub(v: Vec?<T>, start: nat, end: int) returns (r: Vec?<T>)
      requires v != null ==> v.Valid()
      ensures v == null || SubCount(v.len, start, end).None? <==> r == null
      ensures r != null ==> (v != null && fresh(r) && r.Valid() && r.elemSize == v.elemSize &&
        r.capacity == SubCount(v.len, start, end).value &&
        r.Elements() == v.Elements()[start..start + r.capacity])
    {
      if v == null {
        return null;
      }
      var count := SubCount(v.len, start, end);
      if count.None? {
        return null;
      }
      var k := count.value;
      r := new Vec(v.elemSize, 0, k, v.data[start]);
      var p := 0;
      while p < k
        invariant 0 <= p <= k && r.Valid() && r.len == 0 && r.capacity == k
        invariant r.data[..p] == v.data[start..start + p]
        invariant fresh(r) && fresh(r.data)
        modifies r.data
      {
        r.data[p] := v.data[start + p];
        p := p + 1;
      }
      r.len := k;
      assert v.Elements()[start..start + k] == v.data[start..start + k];
    }
  }

  /**
   * vec_appendnv (slice_addn): the `long long` arguments, each cast to the
   * element size, are appended in order after the existing elements.
   */
  method AppendNV(v: Vec<int>, values: seq<int>)
    requires v.Valid()
    requires |values| == 0 || v.elemSize in {1, 2, 4, 8}
    modifies v, v.data
    ensures v.Valid()
    ensures v.Elements() == old(v.Elements()) + (if values == [] then [] else Narrowed(values, v.elemSize))
    ensures v.data == old(v.data) || fresh(v.data)
    ensures v.capacity == Grown(old(v.capacity), old(v.len) + |values|)
  {
    v.GrowToFit(|values|);
    ghost var before := v.Elements();
    var k := 0;
    while k < |values|
      invariant 0 <= k <= |values| && v.Valid() && v.len + |values| <= v.capacity
      invariant v.data[..v.len] == before
      invariant forall p :: 0 <= p < k ==> v.data[v.len + p] == Narrow(values[p], v.elemSize)
      modifies v.data
    {
      v.data[v.len + k] := Narrow(values[k], v.elemSize);
      k := k + 1;
    }
    ghost var added := v.data[v.len..v.len + |values|];
    assert values != [] ==> added == Narrowed(values, v.elemSize);
    assert v.data[..v.len + |values|] == before + added;
    v.len := v.len + |values|;
  }

  /**
   * The appends of test_vec_int: ten elements 0..9, then the values 10..20
   * appended one at a time, leave the 21 values 0..20 in order.
   */
  method IntScenario() returns (v: Vec<int>)
    ensures v.Valid() && v.Elements() == seq(21, p => p)
  {
    v := new Vec(4, 10, 10, 0);
    var i := 0;
    while i < 10
      invariant 0 <= i <= 10 && v.Valid() && v.len == 10 && v.elemSize == 4
      invariant forall p :: 0 <= p < i ==> v.data[p] == p
      modifies v.data
    {
      v.data[i] := i;
      i := i + 1;
    }
    assert v.Elements() == seq(10, p => p);
    while i < 21
      invariant 10 <= i <= 21 && v.Valid() && v.elemSize == 4 && fresh(v.data)
      invariant v.Elements() == seq(i, p => p)
    {
      NarrowKeeps(i, 4);
      AppendNV(v, [i]);
      i := i + 1;
    }
  }
}
