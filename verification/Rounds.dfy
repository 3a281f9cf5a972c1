/**
 Lists walked round and round, as the allocator walks its addresses: places in consecutive blocks,
 rotation, and what is left when some places are taken. No addresses here.
 */
module Rounds {
  import opened Options

  /** The `index`-th place of block `range`. */
  datatype Place = Place(range: nat, index: nat)

  /** All places of blocks with the given sizes, block after block. */
  function Places(sizes: seq<nat>): seq<Place> {
    if sizes == [] then []
    else Places(sizes[..|sizes| - 1]) + seq(sizes[|sizes| - 1], k requires 0 <= k => Place(|sizes| - 1, k))
  }

  function Offset(sizes: seq<nat>, i: nat): nat
    requires i <= |sizes|
  {
    |Places(sizes[..i])|
  }

  predicate Valid(sizes: seq<nat>, p: Place) { p.range < |sizes| && p.index < sizes[p.range] }

  lemma {:induction false} PlaceAt(sizes: seq<nat>, p: Place)
    requires Valid(sizes, p)
    ensures Offset(sizes, p.range) + p.index < |Places(sizes)|
    ensures Places(sizes)[Offset(sizes, p.range) + p.index] == p
  {
    var init := sizes[..|sizes| - 1];
    if p.range < |init| {
      PlaceAt(init, p);
      assert init[..p.range] == sizes[..p.range];
    }
  }

  lemma {:induction false} PlaceIsValid(sizes: seq<nat>, n: nat)
    requires n < |Places(sizes)|
    ensures Valid(sizes, Places(sizes)[n])
    ensures n == Offset(sizes, Places(sizes)[n].range) + Places(sizes)[n].index
  {
    var init := sizes[..|sizes| - 1];
    if n < |Places(init)| {
      PlaceIsValid(init, n);
      assert init[..Places(init)[n].range] == sizes[..Places(init)[n].range];
    }
  }

  lemma OffsetStep(sizes: seq<nat>, i: nat)
    requires i < |sizes|
    ensures Offset(sizes, i + 1) == Offset(sizes, i) + sizes[i]
    ensures Offset(sizes, |sizes|) == |Places(sizes)|
  {
    assert sizes[..i + 1][..i] == sizes[..i] && sizes[..|sizes|] == sizes;
  }

  predicate Distinct<T(==)>(list: seq<T>) { forall i, j :: 0 <= i < j < |list| ==> list[i] != list[j] }

  lemma PlacesDistinct(sizes: seq<nat>)
    ensures Distinct(Places(sizes))
  {
    forall i, j | 0 <= i < j < |Places(sizes)| ensures Places(sizes)[i] != Places(sizes)[j] {
      PlaceIsValid(sizes, i);
      PlaceIsValid(sizes, j);
    }
  }

  function Succ(n: nat, p: nat): (q: nat)
    requires p < n
    ensures q < n
  {
    if p + 1 == n then 0 else p + 1
  }

  /** The next place: in the same block, else at the start of the next one. */
  function NextPlace(sizes: seq<nat>, p: Place): Place
    requires Valid(sizes, p)
  {
    if p.index + 1 < sizes[p.range] then Place(p.range, p.index + 1) else Place(Succ(|sizes|, p.range), 0)
  }

  predicate Positive(sizes: seq<nat>) { forall i :: 0 <= i < |sizes| ==> sizes[i] > 0 }

  lemma NextPlaceIsNext(sizes: seq<nat>, n: nat)
    requires Positive(sizes) && n < |Places(sizes)|
    ensures Valid(sizes, Places(sizes)[n])
    ensures Places(sizes)[Succ(|Places(sizes)|, n)] == NextPlace(sizes, Places(sizes)[n])
  {
    PlaceIsValid(sizes, n);
    var p := Places(sizes)[n];
    OffsetStep(sizes, p.range);
    var q := NextPlace(sizes, p);
    PlaceAt(sizes, q);
    PlaceAt(sizes, Place(0, 0));
    if p.range + 1 < |sizes| { PlaceAt(sizes, Place(p.range + 1, 0)); }
  }

  // ---------- Rotation ----------

  function Rotate<T>(list: seq<T>, p: nat): (r: seq<T>)
    requires p <= |list|
    ensures |r| == |list|
  {
    list[p..] + list[..p]
  }

  lemma RotateAt<T>(list: seq<T>, p: nat, c: nat)
    requires p < |list| && c < |list|
    ensures Rotate(list, p)[c] == list[if p + c < |list| then p + c else p + c - |list|]
  {
  }

  lemma RotateSucc<T>(list: seq<T>, p: nat, c: nat, q: nat)
    requires Distinct(list) && p < |list| && c < |list| && q < |list| && list[q] == Rotate(list, p)[c]
    ensures list[Succ(|list|, q)] == Rotate(list, p)[Succ(|list|, c)]
  {
    RotateAt(list, p, c);
    RotateAt(list, p, Succ(|list|, c));
  }

  lemma RotateDistinct<T>(list: seq<T>, p: nat)
    requires Distinct(list) && p <= |list|
    ensures Distinct(Rotate(list, p))
    ensures multiset(Rotate(list, p)) == multiset(list)
  {
    assert list == list[..p] + list[p..];
  }

  /** Rotating again, to start after the `q`-th element of the rotated list. */
  lemma RotateAgain<T>(list: seq<T>, p: nat, c: nat, q: nat)
    requires Distinct(list) && p < |list| && c < |list| && q < |list| && list[q] == Rotate(list, p)[c]
    ensures Rotate(list, Succ(|list|, q)) == Rotate(list, p)[c + 1..] + Rotate(list, p)[..c + 1]
  {
    RotateAt(list, p, c);
  }

  /** Rotated to start after a place, the list starts with the next one. */
  lemma RotatedAfter(sizes: seq<nat>, p: Place, start: nat)
    requires Positive(sizes) && Valid(sizes, p) && start < |Places(sizes)|
    requires Offset(sizes, p.range) + p.index < |Places(sizes)|
    requires start == Succ(|Places(sizes)|, Offset(sizes, p.range) + p.index)
    ensures Rotate(Places(sizes), start)[0] == NextPlace(sizes, p)
  {
    PlaceAt(sizes, p);
    NextPlaceIsNext(sizes, Offset(sizes, p.range) + p.index);
    RotateAt(Places(sizes), start, 0);
  }

  /** Position of the `k`-th step in a list of `n` walked round and round. */
  function Index(n: nat, k: nat): (i: nat)
    requires n > 0
    ensures i < n
  {
    if k == 0 then 0 else Succ(n, Index(n, k - 1))
  }

  lemma {:induction false} IndexInFirstRound(n: nat, k: nat)
    requires n > 0 && k <= n
    ensures Index(n, k) == if k < n then k else 0
  {
    if k > 0 { IndexInFirstRound(n, k - 1); }
  }

  /** Going round, every position comes up again. */
  lemma {:induction false} IndexReaches(n: nat, k: nat, i: nat) returns (m: nat)
    requires i < n
    ensures k <= m && Index(n, m) == i
    decreases if Index(n, k) <= i then i - Index(n, k) else n - Index(n, k) + i
  {
    m := k;
    if Index(n, k) != i { m := IndexReaches(n, k + 1, i); }
  }

  // ---------- Filtering ----------

  function Filter<T>(p: T -> bool, list: seq<T>): seq<T> {
    if list == [] then []
    else Filter(p, list[..|list| - 1]) + (if p(list[|list| - 1]) then [list[|list| - 1]] else [])
  }

  lemma {:induction false} FilterAppend<T>(p: T -> bool, a: seq<T>, b: seq<T>)
    ensures Filter(p, a + b) == Filter(p, a) + Filter(p, b)
  {
    if b == [] {
      assert a + b == a;
    } else {
      FilterAppend(p, a, b[..|b| - 1]);
      assert (a + b)[..|a + b| - 1] == a + b[..|b| - 1];
    }
  }

  lemma {:induction false} FilterMembers<T>(p: T -> bool, list: seq<T>, x: T)
    ensures x in Filter(p, list) <==> x in list && p(x)
  {
    if list != [] {
      FilterMembers(p, list[..|list| - 1], x);
      assert list == list[..|list| - 1] + [list[|list| - 1]];
    }
  }

  lemma {:induction false} FilterDistinct<T>(p: T -> bool, list: seq<T>)
    requires Distinct(list)
    ensures Distinct(Filter(p, list))
  {
    if list != [] {
      var init := list[..|list| - 1];
      FilterDistinct(p, init);
      FilterMembers(p, init, list[|list| - 1]);
    }
  }

  /** Where in the list the `j`-th element that passes stands. */
  lemma {:induction false} FilterIndex<T>(p: T -> bool, list: seq<T>, j: nat) returns (c: nat)
    requires j < |Filter(p, list)|
    ensures c < |list| && p(list[c]) && list[c] == Filter(p, list)[j]
    ensures Filter(p, list[..c + 1]) == Filter(p, list)[..j + 1]
  {
    var init := list[..|list| - 1];
    if j < |Filter(p, init)| {
      c := FilterIndex(p, init, j);
      assert init[..c + 1] == list[..c + 1];
    } else {
      c := |list| - 1;
      assert list[..c + 1] == list;
    }
  }

  /** After the `j`-th element that passes, the first that passes going round is the next one. */
  lemma FilterRound<T>(p: T -> bool, list: seq<T>, j: nat, c: nat)
    requires j < |Filter(p, list)| && c < |list|
    requires Filter(p, list[..c + 1]) == Filter(p, list)[..j + 1]
    ensures Filter(p, list[c + 1..] + list[..c + 1]) == Filter(p, list)[j + 1..] + Filter(p, list)[..j + 1]
  {
    FilterAppend(p, list[c + 1..], list[..c + 1]);
    FilterAppend(p, list[..c + 1], list[c + 1..]);
    assert list == list[..c + 1] + list[c + 1..];
  }

  /** When nothing before it was kept, an element is the first one kept, or nothing up to it is. */
  lemma FirstKept<T>(p: T -> bool, list: seq<T>, m: nat)
    requires m < |list| && Filter(p, list[..m]) == []
    ensures p(list[m]) ==> |Filter(p, list)| > 0 && Filter(p, list)[0] == list[m]
    ensures !p(list[m]) ==> Filter(p, list[..m + 1]) == []
  {
    assert list[..m + 1][..m] == list[..m] && list[..m + 1][m] == list[m];
    assert list == list[..m + 1] + list[m + 1..];
    FilterAppend(p, list[..m + 1], list[m + 1..]);
  }

  lemma {:induction false} FilterSame<T>(p: T -> bool, q: T -> bool, list: seq<T>)
    requires forall x :: x in list ==> p(x) == q(x)
    ensures Filter(p, list) == Filter(q, list)
  {
    if list != [] { FilterSame(p, q, list[..|list| - 1]); }
  }

  // ---------- Choices in turn ----------

  /** At most `n` choices, each made in the state after the one before it. */
  function Iterate<S, T>(next: S -> Option<T>, back: T -> S, x: S, n: nat): seq<T>
    decreases n
  {
    if n == 0 then []
    else
      match next(x)
      case None => []
      case Some(t) => [t] + Iterate(next, back, back(t), n - 1)
  }

  /** The `k`-th element is followed by the choice made after it. */
  predicate Linked<S, T(==)>(next: S -> Option<T>, back: T -> S, chain: seq<T>, k: nat)
    requires k + 1 < |chain|
  {
    next(back(chain[k])) == Some(chain[k + 1])
  }

  lemma {:induction false} IterateChain<S, T>(next: S -> Option<T>, back: T -> S, x: S, chain: seq<T>, k: nat)
    requires k <= |chain|
    requires forall j {:trigger Linked(next, back, chain, j)} :: 0 <= j < |chain| - 1 ==> Linked(next, back, chain, j)
    requires k < |chain| ==> next(x) == Some(chain[k])
    ensures Iterate(next, back, x, |chain| - k) == chain[k..]
    decreases |chain| - k
  {
    if k < |chain| {
      if k + 1 < |chain| { assert Linked(next, back, chain, k); }
      IterateChain(next, back, back(chain[k]), chain, k + 1);
      assert chain[k..] == [chain[k]] + chain[k + 1..];
    }
  }

  /** The first number from `k` on with the property. */
  ghost function Least(f: nat -> bool, k: nat, bound: nat): (m: nat)
    requires k <= bound && f(bound)
    ensures k <= m <= bound && f(m) && forall j :: k <= j < m ==> !f(j)
    decreases bound - k
  {
    if f(k) then k else Least(f, k + 1, bound)
  }
}
