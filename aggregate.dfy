/**
 `aggregate`: sum the weights of the items that share an `(x, y)` key and
 return one item per key, sorted by key.
 */
module Aggregation {
  import opened Items
  import opened StrOrder

  type Key = (string, string)

  /** Sum of the weights of the items with key `k`. */
  function SumFor(items: seq<Item>, k: Key): int
  {
    if |items| == 0 then 0
    else
      var last := items[|items| - 1];
      SumFor(items[..|items| - 1], k) + (if KeyOf(last) == k then last.i else 0)
  }

  /** Sum of all weights. */
  function Total(items: seq<Item>): int
  {
    if |items| == 0 then 0 else Total(items[..|items| - 1]) + items[|items| - 1].i
  }

  /** The distinct keys of `items`. */
  function Keys(items: seq<Item>): set<Key>
  {
    set it | it in items :: KeyOf(it)
  }

  /** Keys strictly increase along `r`, so no key occurs twice. */
  predicate StrictlySorted(r: seq<Item>)
  {
    forall j, l :: 0 <= j < l < |r| ==> PairLess(KeyOf(r[j]), KeyOf(r[l]))
  }

  /**
   `r` is what `aggregate(items)` returns: sorted by key, one item for each
   key of `items`, carrying the sum of that key's weights.
   */
  predicate IsAggregate(items: seq<Item>, r: seq<Item>)
  {
    && StrictlySorted(r)
    && Keys(r) == Keys(items)
    && forall j :: 0 <= j < |r| ==> r[j].i == SumFor(items, KeyOf(r[j]))
  }

  /**
   Add one item to a sorted list of totals: merge it into the entry with
   the same key, or insert it where its key belongs.
   */
  function Insert(r: seq<Item>, it: Item): seq<Item>
  {
    if |r| == 0 then [it]
    else if KeyOf(r[0]) == KeyOf(it) then [Item(it.x, it.y, r[0].i + it.i)] + r[1..]
    else if PairLess(KeyOf(it), KeyOf(r[0])) then [it] + r
    else [r[0]] + Insert(r[1..], it)
  }

  /** Reference fold: the items added one at a time into a sorted list of totals. */
  function Aggregated(items: seq<Item>): seq<Item>
  {
    if |items| == 0 then [] else Insert(Aggregated(items[..|items| - 1]), items[|items| - 1])
  }

  // ---- sums over sequences ----

  lemma {:induction false} SumForAppend(a: seq<Item>, b: seq<Item>, k: Key)
    ensures SumFor(a + b, k) == SumFor(a, k) + SumFor(b, k)
    decreases |b|
  {
    if |b| == 0 {
      assert a + b == a;
    } else {
      assert (a + b)[..|a + b| - 1] == a + b[..|b| - 1];
      SumForAppend(a, b[..|b| - 1], k);
    }
  }

  lemma {:induction false} TotalAppend(a: seq<Item>, b: seq<Item>)
    ensures Total(a + b) == Total(a) + Total(b)
    decreases |b|
  {
    if |b| == 0 {
      assert a + b == a;
    } else {
      assert (a + b)[..|a + b| - 1] == a + b[..|b| - 1];
      TotalAppend(a, b[..|b| - 1]);
    }
  }

  lemma {:induction false} SumForAbsent(s: seq<Item>, k: Key)
    requires k !in Keys(s)
    ensures SumFor(s, k) == 0
    decreases |s|
  {
    if |s| > 0 {
      assert s[|s| - 1] in s;
      var front := s[..|s| - 1];
      assert Keys(front) <= Keys(s) by {
        forall it | it in front ensures it in s {
        }
      }
      SumForAbsent(front, k);
    }
  }

  lemma KeysSingle(it: Item)
    ensures Keys([it]) == {KeyOf(it)}
  {
    assert it in [it];
  }

  lemma KeysAppend(a: seq<Item>, b: seq<Item>)
    ensures Keys(a + b) == Keys(a) + Keys(b)
  {
    forall k | k in Keys(a + b) ensures k in Keys(a) + Keys(b) {
      var it :| it in a + b && KeyOf(it) == k;
      assert it in a || it in b;
    }
    forall k | k in Keys(a) + Keys(b) ensures k in Keys(a + b) {
      if k in Keys(a) {
        var it :| it in a && KeyOf(it) == k;
        assert it in a + b;
      } else {
        var it :| it in b && KeyOf(it) == k;
        assert it in a + b;
      }
    }
  }

  lemma SumForSingle(it: Item, k: Key)
    ensures SumFor([it], k) == if KeyOf(it) == k then it.i else 0
  {
    assert [it][..0] == [];
  }

  lemma TotalSingle(it: Item)
    ensures Total([it]) == it.i
  {
    assert [it][..0] == [];
  }

  // ---- the reference fold ----

  /** Inserting adds the item's weight to its own key and to no other. */
  lemma {:induction false} InsertSumFor(r: seq<Item>, it: Item, k: Key)
    ensures SumFor(Insert(r, it), k) == SumFor(r, k) + (if KeyOf(it) == k then it.i else 0)
    decreases |r|
  {
    if |r| == 0 {
      SumForSingle(it, k);
    } else {
      assert r == [r[0]] + r[1..];
      SumForAppend([r[0]], r[1..], k);
      SumForSingle(r[0], k);
      if KeyOf(r[0]) == KeyOf(it) {
        var m := Item(it.x, it.y, r[0].i + it.i);
        SumForAppend([m], r[1..], k);
        SumForSingle(m, k);
      } else if PairLess(KeyOf(it), KeyOf(r[0])) {
        SumForAppend([it], r, k);
        SumForSingle(it, k);
      } else {
        InsertSumFor(r[1..], it, k);
        SumForAppend([r[0]], Insert(r[1..], it), k);
      }
    }
  }

  /** Inserting adds the item's weight to the total. */
  lemma {:induction false} InsertTotal(r: seq<Item>, it: Item)
    ensures Total(Insert(r, it)) == Total(r) + it.i
    decreases |r|
  {
    if |r| == 0 {
      TotalSingle(it);
    } else {
      assert r == [r[0]] + r[1..];
      TotalAppend([r[0]], r[1..]);
      TotalSingle(r[0]);
      if KeyOf(r[0]) == KeyOf(it) {
        var m := Item(it.x, it.y, r[0].i + it.i);
        TotalAppend([m], r[1..]);
        TotalSingle(m);
      } else if PairLess(KeyOf(it), KeyOf(r[0])) {
        TotalAppend([it], r);
        TotalSingle(it);
      } else {
        InsertTotal(r[1..], it);
        TotalAppend([r[0]], Insert(r[1..], it));
      }
    }
  }

  /** Inserting adds the item's key and no other. */
  lemma {:induction false} InsertKeys(r: seq<Item>, it: Item)
    ensures Keys(Insert(r, it)) == Keys(r) + {KeyOf(it)}
    decreases |r|
  {
    KeysSingle(it);
    if |r| > 0 {
      assert r == [r[0]] + r[1..];
      KeysAppend([r[0]], r[1..]);
      KeysSingle(r[0]);
      if KeyOf(r[0]) == KeyOf(it) {
        var m := Item(it.x, it.y, r[0].i + it.i);
        KeysAppend([m], r[1..]);
        KeysSingle(m);
      } else if PairLess(KeyOf(it), KeyOf(r[0])) {
        KeysAppend([it], r);
      } else {
        InsertKeys(r[1..], it);
        KeysAppend([r[0]], Insert(r[1..], it));
      }
    }
  }

  /** A sorted list stays sorted when an element below all its keys is put in front. */
  lemma SortedCons(a: Item, s: seq<Item>)
    requires StrictlySorted(s)
    requires forall k :: k in Keys(s) ==> PairLess(KeyOf(a), k)
    ensures StrictlySorted([a] + s)
  {
    var t := [a] + s;
    forall j, l | 0 <= j < l < |t| ensures PairLess(KeyOf(t[j]), KeyOf(t[l])) {
      if j == 0 {
        assert t[l] == s[l - 1] && s[l - 1] in s;
      } else {
        assert t[j] == s[j - 1] && t[l] == s[l - 1];
      }
    }
  }

  /** The tail of a sorted list lies above its head. */
  lemma SortedHead(r: seq<Item>)
    requires |r| > 0 && StrictlySorted(r)
    ensures StrictlySorted(r[1..])
    ensures forall k :: k in Keys(r[1..]) ==> PairLess(KeyOf(r[0]), k)
  {
    var t := r[1..];
    forall k | k in Keys(t) ensures PairLess(KeyOf(r[0]), k) {
      var it :| it in t && KeyOf(it) == k;
      var l :| 0 <= l < |t| && t[l] == it;
      assert r[l + 1] == it;
    }
    forall j, l | 0 <= j < l < |t| ensures PairLess(KeyOf(t[j]), KeyOf(t[l])) {
      assert t[j] == r[j + 1] && t[l] == r[l + 1];
    }
  }

  /** Inserting into a sorted list keeps it sorted. */
  lemma {:induction false} InsertSorted(r: seq<Item>, it: Item)
    requires StrictlySorted(r)
    ensures StrictlySorted(Insert(r, it))
    decreases |r|
  {
    if |r| > 0 {
      SortedHead(r);
      var k0 := KeyOf(r[0]);
      if k0 == KeyOf(it) {
        var m := Item(it.x, it.y, r[0].i + it.i);
        SortedCons(m, r[1..]);
      } else if PairLess(KeyOf(it), k0) {
        assert r == [r[0]] + r[1..];
        KeysAppend([r[0]], r[1..]);
        KeysSingle(r[0]);
        forall k | k in Keys(r) ensures PairLess(KeyOf(it), k) {
          if k != k0 {
            PairLessTransitive(KeyOf(it), k0, k);
          }
        }
        SortedCons(it, r);
      } else {
        PairLessTrichotomy(KeyOf(it), k0);
        InsertSorted(r[1..], it);
        InsertKeys(r[1..], it);
        SortedCons(r[0], Insert(r[1..], it));
      }
    }
  }

  /** In a sorted list the entry for a key carries all of that key's weight. */
  lemma SortedSumFor(r: seq<Item>, j: int)
    requires StrictlySorted(r) && 0 <= j < |r|
    ensures SumFor(r, KeyOf(r[j])) == r[j].i
  {
    var k := KeyOf(r[j]);
    var pre, post := r[..j], r[j + 1..];
    assert r == pre + [r[j]] + post;
    forall it | it in pre ensures KeyOf(it) != k {
      var l :| 0 <= l < |pre| && pre[l] == it;
      assert r[l] == it;
      PairLessIrreflexive(k);
    }
    forall it | it in post ensures KeyOf(it) != k {
      var l :| 0 <= l < |post| && post[l] == it;
      assert r[j + 1 + l] == it;
      PairLessIrreflexive(k);
    }
    SumForAbsent(pre, k);
    SumForAbsent(post, k);
    SumForAppend(pre + [r[j]], post, k);
    SumForAppend(pre, [r[j]], k);
    SumForSingle(r[j], k);
  }

  /** The reference fold keeps every key's sum. */
  lemma {:induction false} AggregatedSumFor(items: seq<Item>, k: Key)
    ensures SumFor(Aggregated(items), k) == SumFor(items, k)
    decreases |items|
  {
    if |items| > 0 {
      var front := items[..|items| - 1];
      AggregatedSumFor(front, k);
      InsertSumFor(Aggregated(front), items[|items| - 1], k);
    }
  }

  /** The reference fold is sorted and has exactly the input's keys. */
  lemma {:induction false} AggregatedShape(items: seq<Item>)
    ensures StrictlySorted(Aggregated(items))
    ensures Keys(Aggregated(items)) == Keys(items)
    decreases |items|
  {
    if |items| > 0 {
      var front := items[..|items| - 1];
      var last := items[|items| - 1];
      AggregatedShape(front);
      InsertSorted(Aggregated(front), last);
      InsertKeys(Aggregated(front), last);
      assert items == front + [last];
      KeysAppend(front, [last]);
      KeysSingle(last);
    }
  }

  /** The reference fold is an aggregate of its input. */
  lemma AggregatedIsAggregate(items: seq<Item>)
    ensures IsAggregate(items, Aggregated(items))
  {
    var r := Aggregated(items);
    AggregatedShape(items);
    forall j | 0 <= j < |r| ensures r[j].i == SumFor(items, KeyOf(r[j])) {
      SortedSumFor(r, j);
      AggregatedSumFor(items, KeyOf(r[j]));
    }
  }

  // ---- uniqueness, order independence, conservation ----

  lemma KeysEmpty(r: seq<Item>)
    ensures Keys(r) == {} <==> |r| == 0
  {
    if |r| > 0 {
      assert r[0] in r && KeyOf(r[0]) in Keys(r);
    }
  }

  /** Two sorted lists with the same keys have them at the same positions. */
  lemma {:induction false} SortedKeysUnique(r1: seq<Item>, r2: seq<Item>)
    requires StrictlySorted(r1) && StrictlySorted(r2) && Keys(r1) == Keys(r2)
    ensures |r1| == |r2|
    ensures forall j :: 0 <= j < |r1| ==> KeyOf(r1[j]) == KeyOf(r2[j])
    decreases |r1|
  {
    KeysEmpty(r1);
    KeysEmpty(r2);
    if |r1| > 0 && |r2| > 0 {
      var k1, k2 := KeyOf(r1[0]), KeyOf(r2[0]);
      SortedHead(r1);
      SortedHead(r2);
      assert r1 == [r1[0]] + r1[1..] && r2 == [r2[0]] + r2[1..];
      KeysAppend([r1[0]], r1[1..]);
      KeysAppend([r2[0]], r2[1..]);
      KeysSingle(r1[0]);
      KeysSingle(r2[0]);
      assert k1 == k2 by {
        if k1 != k2 {
          assert PairLess(k2, k1);
          assert PairLess(k1, k2);
          PairLessAsymmetric(k1, k2);
        }
      }
      PairLessIrreflexive(k1);
      assert Keys(r1[1..]) == Keys(r1) - {k1};
      assert Keys(r2[1..]) == Keys(r2) - {k2};
      SortedKeysUnique(r1[1..], r2[1..]);
      forall j | 0 <= j < |r1| ensures KeyOf(r1[j]) == KeyOf(r2[j]) {
        if j > 0 {
          assert r1[j] == r1[1..][j - 1] && r2[j] == r2[1..][j - 1];
        }
      }
    }
  }

  /** An input has exactly one aggregate. */
  lemma AggregateUnique(items: seq<Item>, r1: seq<Item>, r2: seq<Item>)
    requires IsAggregate(items, r1) && IsAggregate(items, r2)
    ensures r1 == r2
  {
    SortedKeysUnique(r1, r2);
    forall j | 0 <= j < |r1| ensures r1[j] == r2[j] {
    }
  }

  lemma {:induction false} SumForPermutation(a: seq<Item>, b: seq<Item>, k: Key)
    requires multiset(a) == multiset(b)
    ensures SumFor(a, k) == SumFor(b, k)
    decreases |a|
  {
    if |a| > 0 {
      var front, last := a[..|a| - 1], a[|a| - 1];
      assert a == front + [last];
      assert last in multiset(b);
      var j :| 0 <= j < |b| && b[j] == last;
      var rest := b[..j] + b[j + 1..];
      assert b == b[..j] + [last] + b[j + 1..];
      assert multiset(a) == multiset(front) + multiset{last};
      assert multiset(b) == multiset(b[..j]) + multiset{last} + multiset(b[j + 1..]);
      assert multiset(rest) == multiset(b[..j]) + multiset(b[j + 1..]);
      assert multiset(front) == multiset(a) - multiset{last};
      assert multiset(rest) == multiset(b) - multiset{last};
      SumForPermutation(front, rest, k);
      SumForAppend(b[..j] + [last], b[j + 1..], k);
      SumForAppend(b[..j], [last], k);
      SumForAppend(b[..j], b[j + 1..], k);
      SumForSingle(last, k);
    } else {
      assert |b| == |multiset(b)|;
    }
  }

  lemma KeysPermutation(a: seq<Item>, b: seq<Item>)
    requires multiset(a) == multiset(b)
    ensures Keys(a) == Keys(b)
  {
    forall it ensures it in a <==> it in b {
      assert it in a <==> it in multiset(a);
      assert it in b <==> it in multiset(b);
    }
  }

  /** Reordering the input does not change the aggregate. */
  lemma AggregatePermutation(a: seq<Item>, b: seq<Item>, ra: seq<Item>, rb: seq<Item>)
    requires multiset(a) == multiset(b)
    requires IsAggregate(a, ra) && IsAggregate(b, rb)
    ensures ra == rb
  {
    KeysPermutation(a, b);
    forall j | 0 <= j < |ra| ensures ra[j].i == SumFor(b, KeyOf(ra[j])) {
      SumForPermutation(a, b, KeyOf(ra[j]));
    }
    AggregateUnique(b, ra, rb);
  }

  lemma {:induction false} AggregatedTotal(items: seq<Item>)
    ensures Total(Aggregated(items)) == Total(items)
    decreases |items|
  {
    if |items| > 0 {
      var front := items[..|items| - 1];
      AggregatedTotal(front);
      InsertTotal(Aggregated(front), items[|items| - 1]);
    }
  }

  /** Aggregation neither creates nor loses weight. */
  lemma AggregateConserves(items: seq<Item>, r: seq<Item>)
    requires IsAggregate(items, r)
    ensures Total(r) == Total(items)
  {
    AggregatedIsAggregate(items);
    AggregateUnique(items, r, Aggregated(items));
    AggregatedTotal(items);
  }

  lemma {:induction false} SortedKeysCount(r: seq<Item>)
    requires StrictlySorted(r)
    ensures |Keys(r)| == |r|
    decreases |r|
  {
    if |r| > 0 {
      SortedHead(r);
      SortedKeysCount(r[1..]);
      assert r == [r[0]] + r[1..];
      KeysAppend([r[0]], r[1..]);
      KeysSingle(r[0]);
      PairLessIrreflexive(KeyOf(r[0]));
      assert KeyOf(r[0]) !in Keys(r[1..]);
    }
  }

  /** One output item per distinct key of the input. */
  lemma AggregateSize(items: seq<Item>, r: seq<Item>)
    requires IsAggregate(items, r)
    ensures |r| == |Keys(items)|
  {
    SortedKeysCount(r);
  }

  /** Items whose names are in order aggregate to items whose names are in order. */
  lemma AggregateCanonical(items: seq<Item>, r: seq<Item>)
    requires IsAggregate(items, r)
    requires forall it :: it in items ==> Canonical(it)
    ensures forall it :: it in r ==> Canonical(it)
  {
    forall it | it in r ensures Canonical(it) {
      assert KeyOf(it) in Keys(r);
      var src :| src in items && KeyOf(src) == KeyOf(it);
    }
  }

  /** The dictionary after one more `result[(x, y)] += i`. */
  lemma AddStep(prefix: seq<Item>, it: Item, sums: map<Key, int>)
    requires sums.Keys == Keys(prefix)
    requires forall k :: k in sums ==> sums[k] == SumFor(prefix, k)
    ensures var k := KeyOf(it);
      var next := sums[k := (if k in sums then sums[k] else 0) + it.i];
      && next.Keys == Keys(prefix + [it])
      && forall k' :: k' in next ==> next[k'] == SumFor(prefix + [it], k')
  {
    var k := KeyOf(it);
    KeysAppend(prefix, [it]);
    KeysSingle(it);
    if k !in sums {
      SumForAbsent(prefix, k);
    }
    assert (prefix + [it])[..|prefix|] == prefix;
  }

  /** The sorted list after one more dictionary entry is placed. */
  lemma PlaceStep(r: seq<Item>, sums: map<Key, int>, k: Key)
    requires StrictlySorted(r) && k in sums && k !in Keys(r) && Keys(r) <= sums.Keys
    requires forall k' :: k' in Keys(r) ==> SumFor(r, k') == sums[k']
    ensures var r' := Insert(r, Item(k.0, k.1, sums[k]));
      && StrictlySorted(r')
      && Keys(r') == Keys(r) + {k}
      && forall k' :: k' in Keys(r') ==> SumFor(r', k') == sums[k']
  {
    var it := Item(k.0, k.1, sums[k]);
    InsertSorted(r, it);
    InsertKeys(r, it);
    forall k' | k' in Keys(r) + {k} ensures SumFor(Insert(r, it), k') == sums[k'] {
      InsertSumFor(r, it, k');
      if k' == k {
        SumForAbsent(r, k);
      }
    }
  }

  /** What the sorted dictionary entries are, once every key is placed. */
  lemma PlacedAll(items: seq<Item>, sums: map<Key, int>, r: seq<Item>)
    requires sums.Keys == Keys(items)
    requires forall k :: k in sums ==> sums[k] == SumFor(items, k)
    requires StrictlySorted(r) && Keys(r) == sums.Keys
    requires forall k :: k in Keys(r) ==> SumFor(r, k) == sums[k]
    ensures IsAggregate(items, r)
  {
    forall j | 0 <= j < |r| ensures r[j].i == SumFor(items, KeyOf(r[j])) {
      SortedSumFor(r, j);
      assert r[j] in r;
    }
  }

  /**
   `sorted(...)` over the dictionary's entries: one item per key, in key
   order. Keys are distinct, so tuple order reduces to key order.
   */
  method SortEntries(sums: map<Key, int>) returns (r: seq<Item>)
    ensures StrictlySorted(r) && Keys(r) == sums.Keys
    ensures forall k :: k in Keys(r) ==> SumFor(r, k) == sums[k]
  {
    r := [];
    var rest := sums.Keys;
    while rest != {}
      invariant rest <= sums.Keys
      invariant StrictlySorted(r)
      invariant Keys(r) == sums.Keys - rest
      invariant forall k :: k in Keys(r) ==> SumFor(r, k) == sums[k]
      decreases |rest|
    {
      var k :| k in rest;
      PlaceStep(r, sums, k);
      r := Insert(r, Item(k.0, k.1, sums[k]));
      rest := rest - {k};
    }
  }

  /**
   `aggregate(items)` of aggregate.py:12-16: a dictionary from key to running
   sum, filled in one pass, then its entries sorted.
   */
  method Aggregate(items: seq<Item>) returns (r: seq<Item>)
    ensures IsAggregate(items, r)
    ensures r == Aggregated(items)
  {
    var sums: map<Key, int> := map[];
    for n := 0 to |items|
      invariant sums.Keys == Keys(items[..n])
      invariant forall k :: k in sums ==> sums[k] == SumFor(items[..n], k)
    {
      var k := KeyOf(items[n]);
      AddStep(items[..n], items[n], sums);
      assert items[..n + 1] == items[..n] + [items[n]];
      sums := sums[k := (if k in sums then sums[k] else 0) + items[n].i];
    }
    assert items[..|items|] == items;
    r := SortEntries(sums);
    PlacedAll(items, sums, r);
    AggregatedIsAggregate(items);
    AggregateUnique(items, r, Aggregated(items));
  }
}
