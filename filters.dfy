/**
 The "present" and "absent" views of the dominant entity: `DOM in it` on an
 `Item` named tuple tests the three fields `x`, `y` and `i`, so the model
 lists the fields as values of either kind and tests membership there.
 */
module Filters {
  import opened Items

  /** A field of the named tuple: a name or the integer weight. */
  datatype Field = Name(s: string) | Number(n: int)

  /** The tuple `(x, y, i)`. */
  function Fields(it: Item): seq<Field>
  {
    [Name(it.x), Name(it.y), Number(it.i)]
  }

  /** `dom in it`. */
  predicate Contains(it: Item, dom: string)
  {
    Name(dom) in Fields(it)
  }

  /** A name never equals the integer field, so `dom in it` is endpoint membership. */
  lemma ContainsEndpoint(it: Item, dom: string)
    ensures Contains(it, dom) <==> it.x == dom || it.y == dom
  {
    assert Fields(it)[2] != Name(dom);
  }

  /**
   `filter(lambda it: DOM in it, items)` when `present` holds, and
   `filter(lambda it: DOM not in it, items)` when it does not.
   */
  function Select(items: seq<Item>, dom: string, present: bool): (r: seq<Item>)
    ensures |r| <= |items|
    ensures forall it :: it in r ==> it in items && Contains(it, dom) == present
  {
    if |items| == 0 then []
    else if Contains(items[0], dom) == present then [items[0]] + Select(items[1..], dom, present)
    else Select(items[1..], dom, present)
  }

  /** Items mentioning `dom`. */
  function Present(items: seq<Item>, dom: string): seq<Item>
  {
    Select(items, dom, true)
  }

  /** Items not mentioning `dom`. */
  function Absent(items: seq<Item>, dom: string): seq<Item>
  {
    Select(items, dom, false)
  }

  /** Filtering keeps relative order: it distributes over concatenation. */
  lemma {:induction false} SelectAppend(a: seq<Item>, b: seq<Item>, dom: string, present: bool)
    ensures Select(a + b, dom, present) == Select(a, dom, present) + Select(b, dom, present)
  {
    if |a| == 0 {
      assert a + b == b;
    } else {
      assert (a + b)[0] == a[0];
      assert (a + b)[1..] == a[1..] + b;
      SelectAppend(a[1..], b, dom, present);
    }
  }

  /** Every occurrence of a matching item is kept, every other one dropped. */
  lemma {:induction false} SelectCount(items: seq<Item>, dom: string, present: bool, it: Item)
    ensures multiset(Select(items, dom, present))[it] ==
      if Contains(it, dom) == present then multiset(items)[it] else 0
  {
    if |items| > 0 {
      SelectCount(items[1..], dom, present, it);
      assert items == [items[0]] + items[1..];
    }
  }

  /** Each item goes to exactly one of the two views, as often as it occurs. */
  lemma Partition(items: seq<Item>, dom: string)
    ensures multiset(Present(items, dom)) + multiset(Absent(items, dom)) == multiset(items)
    ensures |Present(items, dom)| + |Absent(items, dom)| == |items|
  {
    forall it ensures (multiset(Present(items, dom)) + multiset(Absent(items, dom)))[it] == multiset(items)[it] {
      SelectCount(items, dom, true, it);
      SelectCount(items, dom, false, it);
    }
    assert multiset(Present(items, dom)) + multiset(Absent(items, dom)) == multiset(items);
    assert |multiset(Present(items, dom)) + multiset(Absent(items, dom))| == |multiset(items)|;
  }
}
