/**
 * The geometric-density thinning selector: given (id, key) pairs, repeatedly
 * discards the smaller-key member of the adjacent pair whose key ratio is
 * closest to 1:1, so that the survivors end up spread out on a geometric scale.
 *
 * Keys are exact reals: the ratios `bigger / smaller` are compared without
 * floating-point rounding.
 */
module GeoDensity {
  import opened Wrappers

  /** One stored backup artifact: where it lives, how many bytes, when it was taken. */
  datatype Backup = Backup(path: string, size: nat, date: int)

  /** An item handed to the selector: an identifier and the key the ratios are taken over. */
  datatype Item<T> = Item(id: T, key: real)

  // ---------------------------------------------------------------------------
  // find_min
  // ---------------------------------------------------------------------------

  /** `i` is the position of the first smallest element of `x`. */
  predicate IsFirstMin(x: seq<real>, i: nat)
  {
    && i < |x|
    && (forall j :: 0 <= j < |x| ==> x[i] <= x[j])
    && (forall j :: 0 <= j < i ==> x[i] < x[j])
  }

  /**
   * The (index, value) pair of the minimum of `x`, scanning left to right and
   * replacing the candidate only on a strictly smaller value, as Python's
   * `min(enumerate(x), key=...)` does; `None` for an empty sequence, where
   * `min` raises.
   */
  function FindMin(x: seq<real>): (r: Option<(nat, real)>)
    ensures r.None? <==> x == []
    ensures r.Some? ==> IsFirstMin(x, r.value.0) && r.value.1 == x[r.value.0]
  {
    if x == [] then None
    else
      match FindMin(x[..|x| - 1])
      case None => Some((0, x[0]))
      case Some(best) =>
        if x[|x| - 1] < best.1 then Some((|x| - 1, x[|x| - 1])) else Some(best)
  }

  /** A first minimum is unique: the contract of FindMin pins its index down. */
  lemma FirstMinUnique(x: seq<real>, i: nat, k: nat)
    requires IsFirstMin(x, i) && IsFirstMin(x, k)
    ensures i == k
  {
    assert x[i] == x[k];
  }

  // ---------------------------------------------------------------------------
  // sorted(items, key=lambda x: x[1]) -- a stable sort by key
  // ---------------------------------------------------------------------------

  predicate SortedByKey<T>(s: seq<Item<T>>)
  {
    forall i, j :: 0 <= i < j < |s| ==> s[i].key <= s[j].key
  }

  predicate AllPositive<T>(s: seq<Item<T>>)
  {
    forall i :: 0 <= i < |s| ==> s[i].key > 0.0
  }

  /** The items of `s` whose key is `k`, in their order in `s`. */
  function WithKey<T>(s: seq<Item<T>>, k: real): seq<Item<T>>
  {
    if s == [] then [] else (if s[0].key == k then [s[0]] else []) + WithKey(s[1..], k)
  }

  /** Puts `x` in front of the first element whose key is not smaller. */
  function Insert<T(==)>(x: Item<T>, s: seq<Item<T>>): (r: seq<Item<T>>)
    ensures multiset(r) == multiset(s) + multiset{x}
  {
    if s == [] || x.key <= s[0].key then [x] + s
    else
      assert s == [s[0]] + s[1..];
      [s[0]] + Insert(x, s[1..])
  }

  lemma {:induction false} InsertSorted<T>(x: Item<T>, s: seq<Item<T>>)
    requires SortedByKey(s)
    ensures SortedByKey(Insert(x, s))
  {
    if s != [] && x.key > s[0].key {
      var t := Insert(x, s[1..]);
      InsertSorted(x, s[1..]);
      forall i | 0 <= i < |t| ensures s[0].key <= t[i].key {
        assert t[i] in multiset(t);
        if t[i] != x {
          assert t[i] in multiset(s[1..]);
          var j :| 0 <= j < |s[1..]| && s[1..][j] == t[i];
          assert s[j + 1] == t[i];
        }
      }
    }
  }

  /** Inserting `x` puts it ahead of every item that already has its key. */
  lemma {:induction false} InsertWithKey<T>(x: Item<T>, s: seq<Item<T>>, k: real)
    ensures WithKey(Insert(x, s), k) == (if x.key == k then [x] else []) + WithKey(s, k)
  {
    if s == [] || x.key <= s[0].key {
      assert ([x] + s)[1..] == s;
    } else {
      var t := Insert(x, s[1..]);
      InsertWithKey(x, s[1..], k);
      assert ([s[0]] + t)[1..] == t;
    }
  }

  /** Python's `sorted` with a key: ordered by key and a permutation of the input. */
  function SortByKey<T(==)>(s: seq<Item<T>>): (r: seq<Item<T>>)
    ensures SortedByKey(r)
    ensures multiset(r) == multiset(s)
    ensures AllPositive(s) ==> AllPositive(r)
  {
    if s == [] then []
    else
      var t := SortByKey(s[1..]);
      var r := Insert(s[0], t);
      InsertSorted(s[0], t);
      assert multiset(r) == multiset(s) by {
        assert s == [s[0]] + s[1..];
      }
      if AllPositive(s) then PositiveByPermutation(s, r); r else r
  }

  /** The sort is stable: the items of any one key keep their input order. */
  lemma {:induction false} SortByKeyStable<T>(s: seq<Item<T>>, k: real)
    ensures WithKey(SortByKey(s), k) == WithKey(s, k)
  {
    if s != [] {
      SortByKeyStable(s[1..], k);
      InsertWithKey(s[0], SortByKey(s[1..]), k);
    }
  }

  /** Rearranging items keeps every key positive. */
  lemma PositiveByPermutation<T>(a: seq<Item<T>>, b: seq<Item<T>>)
    requires AllPositive(a) && multiset(a) == multiset(b)
    ensures AllPositive(b)
  {
    forall i | 0 <= i < |b| ensures b[i].key > 0.0 {
      assert b[i] in multiset(b);
      var j :| 0 <= j < |a| && a[j] == b[i];
    }
  }

  lemma {:induction false} WithKeyNonEmpty<T>(s: seq<Item<T>>, k: real)
    ensures WithKey(s, k) != [] <==> exists j :: 0 <= j < |s| && s[j].key == k
  {
    if s != [] {
      WithKeyNonEmpty(s[1..], k);
      if exists j :: 0 <= j < |s| && s[j].key == k {
        var j :| 0 <= j < |s| && s[j].key == k;
        if j > 0 { assert s[1..][j - 1].key == k; }
      }
      if exists j :: 0 <= j < |s[1..]| && s[1..][j].key == k {
        var j :| 0 <= j < |s[1..]| && s[1..][j].key == k;
        assert s[j + 1].key == k;
      }
    }
  }

  /**
   * Being ordered by key and agreeing with the input on every key's
   * subsequence determines the sorted output completely: SortByKey is the one
   * stable sort of its input.
   */
  lemma {:induction false} StableSortUnique<T>(a: seq<Item<T>>, b: seq<Item<T>>)
    requires SortedByKey(a) && SortedByKey(b)
    requires forall k :: WithKey(a, k) == WithKey(b, k)
    ensures a == b
  {
    if a == [] || b == [] {
      if a != [] { WithKeyNonEmpty(a, a[0].key); WithKeyNonEmpty(b, a[0].key); }
      if b != [] { WithKeyNonEmpty(b, b[0].key); WithKeyNonEmpty(a, b[0].key); }
    } else {
      var ka, kb := a[0].key, b[0].key;
      WithKeyNonEmpty(a, ka);
      WithKeyNonEmpty(b, ka);
      WithKeyNonEmpty(b, kb);
      WithKeyNonEmpty(a, kb);
      assert ka == kb;
      assert WithKey(a, ka)[0] == a[0];
      assert WithKey(b, ka)[0] == b[0];
      forall k ensures WithKey(a[1..], k) == WithKey(b[1..], k) {
        var head := if ka == k then [a[0]] else [];
        assert WithKey(a, k) == head + WithKey(a[1..], k);
        assert WithKey(b, k) == head + WithKey(b[1..], k);
        assert WithKey(a[1..], k) == WithKey(a, k)[|head|..];
        assert WithKey(b[1..], k) == WithKey(b, k)[|head|..];
      }
      StableSortUnique(a[1..], b[1..]);
      assert a == [a[0]] + a[1..] && b == [b[0]] + b[1..];
    }
  }

  // ---------------------------------------------------------------------------
  // The selection loop
  // ---------------------------------------------------------------------------

  /** The geometric ratio of two keys. */
  function Ratio(smaller: real, bigger: real): real
    requires smaller > 0.0
  {
    bigger / smaller
  }

  /** `bigger / smaller` for every adjacent pair, in order (itertools.pairwise). */
  function Ratios<T>(s: seq<Item<T>>): (r: seq<real>)
    requires AllPositive(s)
    ensures |r| == if s == [] then 0 else |s| - 1
  {
    var n := if s == [] then 0 else |s| - 1;
    seq(n, i requires 0 <= i < n => Ratio(s[i].key, s[i + 1].key))
  }

  /** On an ordered list every ratio is at least 1. */
  lemma RatiosAtLeastOne<T>(s: seq<Item<T>>)
    requires AllPositive(s) && SortedByKey(s)
    ensures forall i :: 0 <= i < |Ratios(s)| ==> Ratios(s)[i] >= 1.0
  {
    forall i | 0 <= i < |Ratios(s)| ensures Ratios(s)[i] >= 1.0 {
      assert s[i].key <= s[i + 1].key;
      RatioAtLeastOne(s[i].key, s[i + 1].key);
      assert Ratios(s)[i] == Ratio(s[i].key, s[i + 1].key);
    }
  }

  /** Dividing a key by a smaller positive one gives at least 1. */
  lemma RatioAtLeastOne(smaller: real, bigger: real)
    requires 0.0 < smaller <= bigger
    ensures Ratio(smaller, bigger) >= 1.0
  {
    assert (bigger / smaller) * smaller == bigger;
  }

  /** The pair to thin: leftmost adjacent pair of smallest ratio. */
  function DensestPair<T>(s: seq<Item<T>>): (i: nat)
    requires |s| > 1 && AllPositive(s)
    ensures i < |s| - 1
    ensures IsFirstMin(Ratios(s), i)
  {
    FindMin(Ratios(s)).value.0
  }

  /** `s` with position `i` popped out. */
  function RemoveAt<T>(s: seq<Item<T>>, i: nat): (r: seq<Item<T>>)
    requires i < |s|
    ensures |r| == |s| - 1
  {
    s[..i] + s[i + 1..]
  }

  /** Popping keeps keys positive. */
  lemma RemoveAtPositive<T>(s: seq<Item<T>>, i: nat)
    requires i < |s| && AllPositive(s)
    ensures AllPositive(RemoveAt(s, i))
  {
    var r := RemoveAt(s, i);
    RemoveAtFacts(s, i);
    forall j | 0 <= j < |r| ensures r[j].key > 0.0 {
      assert r[j] == if j < i then s[j] else s[j + 1];
    }
  }

  /** Popping position `i` removes exactly `s[i]` and leaves the other items in order. */
  lemma RemoveAtFacts<T>(s: seq<Item<T>>, i: nat)
    requires i < |s|
    ensures multiset(RemoveAt(s, i)) + multiset{s[i]} == multiset(s)
    ensures forall j :: 0 <= j < |s| - 1 ==> RemoveAt(s, i)[j] == if j < i then s[j] else s[j + 1]
  {
    assert multiset(RemoveAt(s, i)) + multiset{s[i]} == multiset(s) by {
      assert s == s[..i] + [s[i]] + s[i + 1..];
    }
    forall j | 0 <= j < |s| - 1
      ensures RemoveAt(s, i)[j] == if j < i then s[j] else s[j + 1]
    {
      if j < i {
        assert RemoveAt(s, i)[j] == s[..i][j];
      } else {
        assert RemoveAt(s, i)[j] == s[i + 1..][j - i];
      }
    }
  }

  /** Popping keeps an ordered list ordered. */
  lemma RemoveAtSorted<T>(s: seq<Item<T>>, i: nat)
    requires i < |s| && SortedByKey(s)
    ensures SortedByKey(RemoveAt(s, i))
  {
    var r := RemoveAt(s, i);
    RemoveAtFacts(s, i);
    forall a, b | 0 <= a < b < |r| ensures r[a].key <= r[b].key {
      var a', b' := if a < i then a else a + 1, if b < i then b else b + 1;
      assert r[a] == s[a'] && r[b] == s[b'];
    }
  }

  /**
   * What the generator yields on an already sorted working list, in order:
   * the left item of the densest pair, then whatever the shortened list
   * yields, until a single item is left.
   */
  function GeoThin<T(==)>(s: seq<Item<T>>): seq<Item<T>>
    requires AllPositive(s)
    decreases |s|
  {
    if |s| <= 1 then []
    else
      var i := DensestPair(s);
      RemoveAtPositive(s, i);
      [s[i]] + GeoThin(RemoveAt(s, i))
  }

  /** Exactly one item is held back from a non-empty list; none is yielded from fewer than two. */
  lemma {:induction false} GeoThinLength<T>(s: seq<Item<T>>)
    requires AllPositive(s)
    ensures |GeoThin(s)| == if s == [] then 0 else |s| - 1
  {
    if |s| > 1 {
      RemoveAtPositive(s, DensestPair(s));
      GeoThinLength(RemoveAt(s, DensestPair(s)));
    }
  }

  /**
   * Only left members of pairs are popped, so the last item is never yielded:
   * the yielded items plus that last item are exactly the items of `s`.
   */
  lemma {:induction false} GeoThinKeepsLast<T>(s: seq<Item<T>>)
    requires AllPositive(s) && s != []
    ensures multiset(GeoThin(s)) + multiset{s[|s| - 1]} == multiset(s)
  {
    if |s| > 1 {
      var i := DensestPair(s);
      var t := RemoveAt(s, i);
      RemoveAtPositive(s, i);
      RemoveAtFacts(s, i);
      GeoThinKeepsLast(t);
    }
  }

  /** Every yielded item is one of the given items, and none has a key above the survivor's. */
  lemma GeoThinYieldsSmallerKeys<T>(s: seq<Item<T>>, x: Item<T>)
    requires AllPositive(s) && SortedByKey(s) && s != []
    requires x in GeoThin(s)
    ensures x in s && x.key <= s[|s| - 1].key
  {
    GeoThinKeepsLast(s);
    assert x in multiset(GeoThin(s));
    assert x in multiset(s);
    var k :| 0 <= k < |s| && s[k] == x;
    assert k < |s| - 1 ==> s[k].key <= s[|s| - 1].key;
  }

  /**
   * pop_geometrically_dense: sorts the items by key, then, while more than
   * one is left, pops and yields the left item of the leftmost pair of
   * smallest ratio. Returns what was yielded, in order, and the working list
   * the loop left behind.
   */
  method PopGeometricallyDense<T(==)>(input: seq<Item<T>>) returns (yielded: seq<Item<T>>, rest: seq<Item<T>>)
    requires AllPositive(input)
    ensures yielded == GeoThin(SortByKey(input))
    ensures |yielded| == if input == [] then 0 else |input| - 1
    ensures |rest| == if input == [] then 0 else 1
    ensures multiset(yielded) + multiset(rest) == multiset(input)
    ensures rest != [] ==> forall j :: 0 <= j < |input| ==> input[j].key <= rest[0].key
  {
    var sorted := SortByKey(input);
    assert |sorted| == |input| by {
      assert |multiset(sorted)| == |multiset(input)|;
    }
    var items := sorted;
    yielded := [];
    while |items| > 1
      invariant AllPositive(items) && SortedByKey(items)
      invariant yielded + GeoThin(items) == GeoThin(sorted)
      invariant |yielded| + |items| == |input|
      invariant input != [] ==> items != []
      invariant multiset(yielded) + multiset(items) == multiset(input)
      invariant items != [] ==> items[|items| - 1] == sorted[|sorted| - 1]
      decreases |items|
    {
      var ratios := Ratios(items);
      var best := FindMin(ratios);
      var idx := best.value.0;
      DensestPairIs(items, idx);
      ThinTurn(yielded, items, idx);
      yielded := yielded + [items[idx]];
      items := RemoveAt(items, idx);
    }
    rest := items;
    if input != [] {
      LastIsLargest(input, sorted);
    }
  }

  /** One turn of the loop keeps every fact the loop relies on. */
  lemma ThinTurn<T>(done: seq<Item<T>>, items: seq<Item<T>>, i: nat)
    requires |items| > 1 && AllPositive(items) && DensestPair(items) == i
    ensures AllPositive(RemoveAt(items, i))
    ensures SortedByKey(items) ==> SortedByKey(RemoveAt(items, i))
    ensures (done + [items[i]]) + GeoThin(RemoveAt(items, i)) == done + GeoThin(items)
    ensures multiset(done + [items[i]]) + multiset(RemoveAt(items, i)) == multiset(done) + multiset(items)
    ensures RemoveAt(items, i)[|items| - 2] == items[|items| - 1]
  {
    var t := RemoveAt(items, i);
    assert (done + [items[i]]) + GeoThin(t) == done + GeoThin(items) by {
      GeoThinStep(items, i, t);
    }
    RemoveAtFacts(items, i);
    if SortedByKey(items) {
      RemoveAtSorted(items, i);
    }
    assert multiset(done + [items[i]]) == multiset(done) + multiset{items[i]};
  }

  /** The last item of an ordered arrangement of `input` has the largest key. */
  lemma LastIsLargest<T>(input: seq<Item<T>>, sorted: seq<Item<T>>)
    requires SortedByKey(sorted) && sorted != [] && multiset(sorted) == multiset(input)
    ensures forall j :: 0 <= j < |input| ==> input[j].key <= sorted[|sorted| - 1].key
  {
    forall j | 0 <= j < |input| ensures input[j].key <= sorted[|sorted| - 1].key {
      assert input[j] in multiset(sorted);
      var k :| 0 <= k < |sorted| && sorted[k] == input[j];
    }
  }

  /** An already ordered list is its own stable sort. */
  lemma SortOfSorted<T>(s: seq<Item<T>>)
    requires SortedByKey(s)
    ensures SortByKey(s) == s
  {
    forall k ensures WithKey(SortByKey(s), k) == WithKey(s, k) {
      SortByKeyStable(s, k);
    }
    StableSortUnique(SortByKey(s), s);
  }

  lemma DensestPairIs<T>(s: seq<Item<T>>, i: nat)
    requires |s| > 1 && AllPositive(s)
    requires IsFirstMin(Ratios(s), i)
    ensures DensestPair(s) == i
  {
    FirstMinUnique(Ratios(s), DensestPair(s), i);
  }

  /** One turn of the loop: pop the densest pair's left item, then carry on with the rest. */
  lemma GeoThinStep<T>(s: seq<Item<T>>, i: nat, t: seq<Item<T>>)
    requires |s| > 1 && AllPositive(s)
    requires DensestPair(s) == i && RemoveAt(s, i) == t
    ensures AllPositive(t) && GeoThin(s) == [s[i]] + GeoThin(t)
  {
    RemoveAtPositive(s, i);
  }

  // ---------------------------------------------------------------------------
  // Worked examples
  // ---------------------------------------------------------------------------

  // The working lists of the documented example, one per turn of the loop.
  const Doc0 := [Item(1, 1.0), Item(3, 3.0), Item(4, 4.0), Item(10, 10.0), Item(25, 25.0)]
  const Doc1 := [Item(1, 1.0), Item(4, 4.0), Item(10, 10.0), Item(25, 25.0)]
  const Doc2 := [Item(1, 1.0), Item(10, 10.0), Item(25, 25.0)]
  const Doc3 := [Item(1, 1.0), Item(25, 25.0)]

  lemma DocRatios0() ensures AllPositive(Doc0) && Ratios(Doc0) == [3.0, 4.0 / 3.0, 2.5, 2.5] && IsFirstMin([3.0, 4.0 / 3.0, 2.5, 2.5], 1) {}

  lemma DocTurn0() ensures AllPositive(Doc0) && |Doc0| > 1 && DensestPair(Doc0) == 1 && RemoveAt(Doc0, 1) == Doc1
  {
    DocRatios0();
    DensestPairIs(Doc0, 1);
    assert Doc0[..1] + Doc0[2..] == Doc1;
  }

  lemma DocRatios1() ensures AllPositive(Doc1) && Ratios(Doc1) == [4.0, 2.5, 2.5] && IsFirstMin([4.0, 2.5, 2.5], 1) {}

  lemma DocTurn1() ensures AllPositive(Doc1) && |Doc1| > 1 && DensestPair(Doc1) == 1 && RemoveAt(Doc1, 1) == Doc2
  {
    DocRatios1();
    DensestPairIs(Doc1, 1);
    assert Doc1[..1] + Doc1[2..] == Doc2;
  }

  lemma DocRatios2() ensures AllPositive(Doc2) && Ratios(Doc2) == [10.0, 2.5] && IsFirstMin([10.0, 2.5], 1) {}

  lemma DocTurn2() ensures AllPositive(Doc2) && |Doc2| > 1 && DensestPair(Doc2) == 1 && RemoveAt(Doc2, 1) == Doc3
  {
    DocRatios2();
    DensestPairIs(Doc2, 1);
    assert Doc2[..1] + Doc2[2..] == Doc3;
  }

  lemma DocRatios3() ensures AllPositive(Doc3) && Ratios(Doc3) == [25.0] && IsFirstMin([25.0], 0) {}

  lemma DocTurn3() ensures AllPositive(Doc3) && |Doc3| > 1 && DensestPair(Doc3) == 0 && RemoveAt(Doc3, 0) == [Item(25, 25.0)]
  {
    DocRatios3();
    DensestPairIs(Doc3, 0);
    assert Doc3[..0] + Doc3[1..] == [Item(25, 25.0)];
  }

  /**
   * GeoThinStep on a turn whose popped item and rest of the run are already
   * known. Taking them as parameters keeps the solver from evaluating GeoThin
   * on the literal lists of the examples below.
   */
  lemma ThinFrom<T>(s: seq<Item<T>>, i: nat, x: Item<T>, t: seq<Item<T>>, tail: seq<Item<T>>)
    requires |s| > 1 && AllPositive(s) && AllPositive(t)
    requires DensestPair(s) == i && s[i] == x && RemoveAt(s, i) == t && GeoThin(t) == tail
    ensures GeoThin(s) == [x] + tail
  {
    GeoThinStep(s, i, t);
  }

  /** `[x] + tail` spelled out; keeps sequence extensionality out of the example proofs. */
  lemma Prepend<T>(x: T, tail: seq<T>, whole: seq<T>)
    requires |whole| == |tail| + 1 && whole[0] == x && whole[1..] == tail
    ensures [x] + tail == whole
  {
  }

  lemma DocThin3() ensures AllPositive(Doc3) && GeoThin(Doc3) == [Item(1, 1.0)]
  {
    Prepend(Item(1, 1.0), [], [Item(1, 1.0)]);
    DocTurn3();
    ThinFrom(Doc3, 0, Item(1, 1.0), [Item(25, 25.0)], []);
  }

  lemma DocThin2() ensures AllPositive(Doc2) && GeoThin(Doc2) == [Item(10, 10.0), Item(1, 1.0)]
  {
    Prepend(Item(10, 10.0), [Item(1, 1.0)], [Item(10, 10.0), Item(1, 1.0)]);
    DocTurn2();
    DocThin3();
    ThinFrom(Doc2, 1, Item(10, 10.0), Doc3, [Item(1, 1.0)]);
  }

  lemma DocThin1() ensures AllPositive(Doc1) && GeoThin(Doc1) == [Item(4, 4.0), Item(10, 10.0), Item(1, 1.0)]
  {
    Prepend(Item(4, 4.0), [Item(10, 10.0), Item(1, 1.0)], [Item(4, 4.0), Item(10, 10.0), Item(1, 1.0)]);
    DocTurn1();
    DocThin2();
    ThinFrom(Doc1, 1, Item(4, 4.0), Doc2, [Item(10, 10.0), Item(1, 1.0)]);
  }

  lemma DocThin0() ensures AllPositive(Doc0) && GeoThin(Doc0) == [Item(3, 3.0), Item(4, 4.0), Item(10, 10.0), Item(1, 1.0)]
  {
    Prepend(Item(3, 3.0), [Item(4, 4.0), Item(10, 10.0), Item(1, 1.0)], [Item(3, 3.0), Item(4, 4.0), Item(10, 10.0), Item(1, 1.0)]);
    DocTurn0();
    DocThin1();
    ThinFrom(Doc0, 1, Item(3, 3.0), Doc1, [Item(4, 4.0), Item(10, 10.0), Item(1, 1.0)]);
  }

  lemma DocSorted() ensures SortByKey(Doc0) == Doc0
  {
    SortOfSorted(Doc0);
  }

  /**
   * Keys 1, 3, 4, 10, 25: the densest pair is (3, 4), so 3 goes first; then
   * 4, 10 and 1 follow and 25 is left.
   */
  lemma DocumentedExample()
    ensures AllPositive(Doc0)
    ensures GeoThin(SortByKey(Doc0)) == [Item(3, 3.0), Item(4, 4.0), Item(10, 10.0), Item(1, 1.0)]
  {
    DocSorted();
    DocThin0();
  }

  const Tie0 := [Item(1, 1.0), Item(2, 2.0), Item(4, 4.0), Item(8, 8.0)]

  lemma TieRatios() ensures AllPositive(Tie0) && Ratios(Tie0) == [2.0, 2.0, 2.0] && IsFirstMin([2.0, 2.0, 2.0], 0) {}

  /** Keys 1, 2, 4, 8 give three equal ratios; the leftmost pair wins and 1 goes first. */
  lemma TieBreakExample()
    ensures AllPositive(Tie0)
    ensures GeoThin(SortByKey(Tie0))[0] == Item(1, 1.0)
  {
    TieRatios();
    DensestPairIs(Tie0, 0);
    SortOfSorted(Tie0);
    GeoThinStep(Tie0, 0, RemoveAt(Tie0, 0));
  }
}
