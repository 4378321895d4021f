/**
 The script's entry point: normalise the rows, then write the full edge
 list and the two views of the dominant entity `Popeye`.
 */
module Pipeline {
  import opened Results
  import opened Items
  import opened StrOrder
  import opened Normalize
  import opened Aggregation
  import opened Filters
  import opened Output

  /** The dominant entity. */
  const DOM: string := "Popeye"

  /** The rows of `<root>-all.csv`, `<root>-dom-present.csv` and `<root>-dom-absent.csv`. */
  datatype Outputs = Outputs(all: seq<OutRow>, present: seq<OutRow>, absent: seq<OutRow>)

  /** What a run produces: the first error raised, or the three files' rows. */
  function Outcome(rows: seq<Row>): Result<Outputs, Error>
  {
    match Normalized(rows)
    case Failure(e) => Failure(e)
    case Success(items) =>
      match Written(items)
      case Failure(e) => Failure(e)
      case Success(all) =>
        match Written(Present(items, DOM))
        case Failure(e) => Failure(e)
        case Success(present) =>
          match Written(Absent(items, DOM))
          case Failure(e) => Failure(e)
          case Success(absent) => Success(Outputs(all, present, absent))
  }

  /** A view's totals are the full totals on the pairs it keeps, and zero on the rest. */
  lemma {:induction false} ViewTotals(items: seq<Item>, dom: string, present: bool, k: Key)
    ensures SumFor(Select(items, dom, present), k) ==
      if (k.0 == dom || k.1 == dom) == present then SumFor(items, k) else 0
  {
    if |items| > 0 {
      var head, tail := items[0], items[1..];
      assert items == [head] + tail;
      ViewTotals(tail, dom, present, k);
      SumForAppend([head], tail, k);
      SumForSingle(head, k);
      ContainsEndpoint(head, dom);
      if Contains(head, dom) == present {
        SumForAppend([head], Select(tail, dom, present), k);
      }
    }
  }

  /** A view's pairs are the full pairs that do, or do not, mention `dom`. */
  lemma ViewKeys(items: seq<Item>, dom: string, present: bool)
    ensures Keys(Select(items, dom, present)) ==
      set k | k in Keys(items) && (k.0 == dom || k.1 == dom) == present
  {
    var view := Select(items, dom, present);
    forall k | k in Keys(view) ensures k in Keys(items) && (k.0 == dom || k.1 == dom) == present {
      var it :| it in view && KeyOf(it) == k;
      ContainsEndpoint(it, dom);
    }
    forall k | k in Keys(items) && (k.0 == dom || k.1 == dom) == present ensures k in Keys(view) {
      var it :| it in items && KeyOf(it) == k;
      ContainsEndpoint(it, dom);
      SelectCount(items, dom, present, it);
      assert it in multiset(view);
    }
  }

  /** `write_output` on `items` raises: there is a pair, and all pairs have the same total. */
  predicate Raises(items: seq<Item>)
  {
    Keys(items) != {} && SameTotals(items)
  }

  /**
   A run fails on a malformed `Pair` cell exactly when some row is
   malformed, and with a division by zero exactly when every row is well
   formed and one of the three files has all its pair totals equal.
   */
  lemma OutcomeErrors(rows: seq<Row>)
    ensures Outcome(rows).Failure? && Outcome(rows).error.MalformedPair? <==> !AllWellFormed(rows)
    ensures Outcome(rows) == Failure(ZeroDivision) <==>
      && Normalized(rows).Success?
      && var items := Normalized(rows).value;
         Raises(items) || Raises(Present(items, DOM)) || Raises(Absent(items, DOM))
  {
    NormalizedSucceeds(rows);
    if Normalized(rows).Failure? {
      NormalizedFirstError(rows, Normalized(rows).error);
    } else {
      var items := Normalized(rows).value;
      WrittenFails(items);
      WrittenFails(Present(items, DOM));
      WrittenFails(Absent(items, DOM));
    }
  }

  /** Items with their names in order are written as rows with their vertices in order. */
  lemma WrittenCanonical(items: seq<Item>, out: seq<OutRow>)
    requires Written(items) == Success(out)
    requires forall it :: it in items ==> Canonical(it)
    ensures forall r :: r in out ==> LessEq(r.vertex1, r.vertex2)
  {
    WrittenRows(items, out);
    forall r | r in out ensures LessEq(r.vertex1, r.vertex2) {
      var j :| 0 <= j < |out| && out[j] == r;
      var it :| it in items && KeyOf(it) == (r.vertex1, r.vertex2);
    }
  }

  /** A view's rows mention `dom` exactly as the view demands. */
  lemma WrittenView(items: seq<Item>, dom: string, present: bool, out: seq<OutRow>)
    requires Written(Select(items, dom, present)) == Success(out)
    ensures forall r :: r in out ==> (r.vertex1 == dom || r.vertex2 == dom) == present
  {
    WrittenRows(Select(items, dom, present), out);
    ViewKeys(items, dom, present);
    forall r | r in out ensures (r.vertex1 == dom || r.vertex2 == dom) == present {
      var j :| 0 <= j < |out| && out[j] == r;
      assert (r.vertex1, r.vertex2) in Keys(Select(items, dom, present));
    }
  }

  /**
   In a successful run every pair written to any of the three files is in
   order, the "present" file holds only pairs with `Popeye` as an endpoint,
   the "absent" file only pairs without, and the full file holds one row
   per distinct pair.
   */
  lemma OutcomeRows(rows: seq<Row>, out: Outputs)
    requires Outcome(rows) == Success(out)
    ensures |out.all| == |Keys(Normalized(rows).value)|
    ensures forall r :: r in out.all ==> LessEq(r.vertex1, r.vertex2)
    ensures forall r :: r in out.present ==> LessEq(r.vertex1, r.vertex2)
    ensures forall r :: r in out.absent ==> LessEq(r.vertex1, r.vertex2)
    ensures forall r :: r in out.present ==> r.vertex1 == DOM || r.vertex2 == DOM
    ensures forall r :: r in out.absent ==> r.vertex1 != DOM && r.vertex2 != DOM
  {
    var items := Normalized(rows).value;
    assert forall it :: it in items ==> Canonical(it) by {
      NormalizedItems(rows, items);
      forall it | it in items ensures Canonical(it) {
        var j :| 0 <= j < |items| && items[j] == it;
      }
    }
    WrittenRows(items, out.all);
    WrittenCanonical(items, out.all);
    WrittenCanonical(Present(items, DOM), out.present);
    WrittenCanonical(Absent(items, DOM), out.absent);
    WrittenView(items, DOM, true, out.present);
    WrittenView(items, DOM, false, out.absent);
  }

  /** aggregate.py:46-71 with the CSV reading and writing replaced by values. */
  method Run(rows: seq<Row>) returns (r: Result<Outputs, Error>)
    ensures r == Outcome(rows)
  {
    var normalized := NormalizeRows(rows);
    if normalized.Failure? {
      return Failure(normalized.error);
    }
    var items := normalized.value;
    var all := WriteOutput(items);
    if all.Failure? {
      return Failure(all.error);
    }
    var present := WriteOutput(Present(items, DOM));
    if present.Failure? {
      return Failure(present.error);
    }
    var absent := WriteOutput(Absent(items, DOM));
    if absent.Failure? {
      return Failure(absent.error);
    }
    r := Success(Outputs(all.value, present.value, absent.value));
  }
}
