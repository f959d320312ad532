/**
 * The in-place exchange sort shared by vec_sort_any (src/vec.c),
 * slice_sort_any (slice.c) and sort_slice_any (sort.c): for each i, every
 * later element j that compares less than the one at i is swapped into
 * place i.  The comparator sees the two elements it is asked about.
 */
module Sort {
  import opened Common
  import opened Vec

  /** An irreflexive and transitive comparator, such as `<` or `strcmp(a, b) < 0`. */
  ghost predicate StrictOrder<T(!new)>(less: (T, T) -> bool)
  {
    (forall x :: !less(x, x)) &&
    (forall x, y, z :: less(x, y) && less(y, z) ==> less(x, z))
  }

  /** No element compares less than an element before it. */
  ghost predicate Ordered<T>(s: seq<T>, less: (T, T) -> bool)
  {
    forall p, q :: 0 <= p < q < |s| ==> !less(s[q], s[p])
  }

  /**
   * Exchanging the elements at i and j of the first n elements changes
   * neither their multiset nor anything from n on.
   */
  method Swap<T>(a: array<T>, n: nat, i: nat, j: nat)
    requires i < j < n <= a.Length
    modifies a
    ensures a[..] == old(a[..])[i := old(a[j])][j := old(a[i])]
    ensures multiset(a[..n]) == old(multiset(a[..n]))
    ensures a[n..] == old(a[n..])
  {
    ghost var before := a[..n];
    a[i], a[j] := a[j], a[i];
    assert a[..n] == before[i := before[j]][j := before[i]];
  }

  /** The positions before i hold, each, an element no later one compares less than. */
  ghost predicate Settled<T>(s: seq<T>, i: nat, less: (T, T) -> bool)
  {
    forall p, q :: 0 <= p < i && p < q < |s| ==> !less(s[q], s[p])
  }

  /** No element at i+1 .. j-1 compares less than the element at i. */
  ghost predicate LeastSoFar<T>(s: seq<T>, i: nat, j: nat, less: (T, T) -> bool)
    requires i < |s| && j <= |s|
  {
    forall q :: i < q < j ==> !less(s[q], s[i])
  }

  /**
   * One inner step, i < j: swapping in a[j] when it compares less than a[i]
   * keeps a[i] the least so far and keeps the settled prefix, for a strict
   * order.
   */
  lemma StepKeeps<T(!new)>(s: seq<T>, i: nat, j: nat, less: (T, T) -> bool)
    requires StrictOrder(less) && i < j < |s|
    requires Settled(s, i, less) && LeastSoFar(s, i, j, less)
    ensures var t := if less(s[j], s[i]) then s[i := s[j]][j := s[i]] else s;
      Settled(t, i, less) && LeastSoFar(t, i, j + 1, less)
  {
    if less(s[j], s[i]) {
      var t := s[i := s[j]][j := s[i]];
      forall q | i < q < j + 1
        ensures !less(t[q], t[i])
      {
        assert q < j ==> !less(s[q], s[i]) && t[q] == s[q];
      }
      forall p, q | 0 <= p < i && p < q < |t|
        ensures !less(t[q], t[p])
      {
        if q == i {
          assert !less(s[j], s[p]);
        } else if q == j {
          assert !less(s[i], s[p]);
        }
      }
    }
  }

  /**
   * One step of the outer loop: j runs over i+1 .. n-1 and calls
   * less(a[j], a[i]) with i < j < n only.  Under a strict order, no element
   * after i compares less than the element left at i, and a settled prefix
   * before i stays settled.
   */
  method Settle<T(!new)>(a: array<T>, n: nat, i: nat, less: (T, T) -> bool) returns (ghost calls: seq<(nat, nat)>)
    requires i < n <= a.Length
    modifies a
    ensures multiset(a[..n]) == old(multiset(a[..n])) && a[n..] == old(a[n..])
    ensures forall c :: c in calls ==> i == c.1 < c.0 < n
    ensures StrictOrder(less) && Settled(old(a[..n]), i, less) ==> Settled(a[..n], i + 1, less)
  {
    ghost var good := StrictOrder(less) && Settled(a[..n], i, less);
    calls := [];
    var j := i + 1;
    while j < n
      invariant i < j <= n
      invariant multiset(a[..n]) == old(multiset(a[..n])) && a[n..] == old(a[n..])
      invariant forall c :: c in calls ==> i == c.1 < c.0 < n
      invariant good ==> Settled(a[..n], i, less) && LeastSoFar(a[..n], i, j, less)
    {
      calls := calls + [(j, i)];
      ghost var s := a[..n];
      if good {
        StepKeeps(s, i, j, less);
      }
      if less(a[j], a[i]) {
        Swap(a, n, i, j);
        assert a[..n] == s[i := s[j]][j := s[i]];
      }
      j := j + 1;
    }
    if good {
      SettledNext(a[..n], i, less);
    }
  }

  /** An element at i that no later one undercuts extends the settled prefix by one. */
  lemma SettledNext<T>(s: seq<T>, i: nat, less: (T, T) -> bool)
    requires i < |s| && Settled(s, i, less) && LeastSoFar(s, i, |s|, less)
    ensures Settled(s, i + 1, less)
  {
  }

  /**
   * The nested loops of vec_sort_any: the first n elements are permuted,
   * nothing from n on changes, every comparator call is less(a[j], a[i])
   * with i < j < n, and under a strict order the result is ordered.
   */
  method ExchangeSort<T(!new)>(a: array<T>, n: nat, less: (T, T) -> bool) returns (ghost calls: seq<(nat, nat)>)
    requires n <= a.Length
    modifies a
    ensures multiset(a[..n]) == old(multiset(a[..n])) && a[n..] == old(a[n..])
    ensures forall c :: c in calls ==> c.1 < c.0 < n
    ensures StrictOrder(less) ==> Ordered(a[..n], less)
  {
    calls := [];
    var i := 0;
    while i < n
      invariant 0 <= i <= n
      invariant multiset(a[..n]) == old(multiset(a[..n])) && a[n..] == old(a[n..])
      invariant forall c :: c in calls ==> c.1 < c.0 < n
      invariant StrictOrder(less) ==> Settled(a[..n], i, less)
    {
      var step := Settle(a, n, i, less);
      calls := calls + step;
      i := i + 1;
    }
  }

  /**
   * vec_sort_any: a NULL vec is left alone; otherwise the element size must
   * be below 1000 (the swap buffer) and the vec's elements are sorted in
   * place by the exchange sort.
   */
  method SortAny<T(0,!new)>(v: Vec?<T>, less: (T, T) -> bool)
    requires v != null ==> v.Valid() && v.elemSize < 1000
    modifies if v == null then {} else {v.data}
    ensures v != null ==> v.Valid() && multiset(v.Elements()) == old(multiset(v.Elements()))
    ensures v != null && StrictOrder(less) ==> Ordered(v.Elements(), less)
  {
    if v == null {
      return;
    }
    var calls := ExchangeSort(v.data, v.len, less);
  }

  /** The comparator of the integer wrappers (chars_less … ulls_less): `s[a] < s[b]`. */
  function IntLess(x: int, y: int): bool
  {
    x < y
  }

  lemma IntLessStrict()
    ensures StrictOrder(IntLess)
  {
  }

  /**
   * vec_sort_chars … vec_sort_ulls (and sort_chars … sort_ulls): the vec is
   * permuted into ascending order.
   */
  method SortInts(v: Vec?<int>)
    requires v != null ==> v.Valid() && v.elemSize < 1000
    modifies if v == null then {} else {v.data}
    ensures v != null ==> v.Valid() && multiset(v.Elements()) == old(multiset(v.Elements()))
    ensures v != null ==> forall p, q :: 0 <= p < q < |v.Elements()| ==> v.Elements()[p] <= v.Elements()[q]
  {
    IntLessStrict();
    SortAny(v, IntLess);
  }

  /**
   * strcmp(a, b) < 0 on C strings: the first differing byte decides, read
   * as unsigned char, and a proper prefix comes first since its NUL is
   * smaller than any byte.
   */
  function StrLess(a: seq<Byte>, b: seq<Byte>): (r: bool)
    ensures r ==> a != b
  {
    if b == [] then false
    else if a == [] then true
    else if a[0] != b[0] then a[0] < b[0]
    else StrLess(a[1..], b[1..])
  }

  /** Lexicographic order is transitive. */
  lemma {:induction false} StrLessTransitive(a: seq<Byte>, b: seq<Byte>, c: seq<Byte>)
    requires StrLess(a, b) && StrLess(b, c)
    ensures StrLess(a, c)
    decreases |a|
  {
    if a != [] && a[0] == b[0] && b[0] == c[0] {
      StrLessTransitive(a[1..], b[1..], c[1..]);
    }
  }

  /** Two different strings are ordered one way or the other. */
  lemma {:induction false} StrLessTotal(a: seq<Byte>, b: seq<Byte>)
    requires a != b
    ensures StrLess(a, b) || StrLess(b, a)
    decreases |a|
  {
    if a != [] && b != [] && a[0] == b[0] {
      assert a == [a[0]] + a[1..] && b == [b[0]] + b[1..];
      StrLessTotal(a[1..], b[1..]);
    }
  }

  lemma StrLessStrict()
    ensures StrictOrder(StrLess)
  {
    forall a, b, c | StrLess(a, b) && StrLess(b, c)
      ensures StrLess(a, c)
    {
      StrLessTransitive(a, b, c);
    }
  }

  /**
   * vec_sort_cstrings (and sort_cstrings): the strings are permuted into
   * strcmp order; between two NUL-free strings this is ascending
   * lexicographic order.
   */
  method SortCStrings(v: Vec?<seq<Byte>>)
    requires v != null ==> v.Valid() && v.elemSize < 1000
    modifies if v == null then {} else {v.data}
    ensures v != null ==> v.Valid() && multiset(v.Elements()) == old(multiset(v.Elements()))
    ensures v != null ==> forall p, q :: 0 <= p < q < |v.Elements()| ==> !StrLess(v.Elements()[q], v.Elements()[p])
  {
    StrLessStrict();
    SortAny(v, StrLess);
  }
}
