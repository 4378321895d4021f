/**
 `write_output`: aggregate, scale onto `[IMIN, IMAX]`, and write one CSV
 row per edge whose width is not zero. The file itself is not modelled;
 the rows the loop would write are returned instead.
 */
module Output {
  import opened Results
  import opened Items
  import opened StrOrder
  import opened Aggregation
  import opened Scaling

  /** The target range of the edge widths. */
  const IMIN: real := 0.5
  const IMAX: real := 5.0

  /** One row of the output CSV: `Vertex 1`, `Vertex 2`, `Color`, `Width`. */
  datatype OutRow = OutRow(vertex1: string, vertex2: string, color: string, width: real)

  function RowOf(e: Edge): OutRow
  {
    OutRow(e.x, e.y, "Black", e.i)
  }

  /** The rows written for `edges`: those of zero width are skipped. */
  function Emitted(edges: seq<Edge>): (rows: seq<OutRow>)
    ensures |rows| <= |edges|
    ensures forall row :: row in rows ==> row.width != 0.0 && row.color == "Black"
  {
    if |edges| == 0 then []
    else
      var last := edges[|edges| - 1];
      Emitted(edges[..|edges| - 1]) + (if last.i == 0.0 then [] else [RowOf(last)])
  }

  /** Without zero widths every edge is written, in order. */
  lemma {:induction false} EmittedAll(edges: seq<Edge>)
    requires forall e :: e in edges ==> e.i != 0.0
    ensures |Emitted(edges)| == |edges|
    ensures forall j :: 0 <= j < |edges| ==> Emitted(edges)[j] == RowOf(edges[j])
  {
    if |edges| > 0 {
      var front := edges[..|edges| - 1];
      assert forall e :: e in front ==> e in edges;
      assert edges[|edges| - 1] in edges;
      EmittedAll(front);
    }
  }

  /** Writing one edge: a row, unless its width is zero. */
  lemma EmittedSingle(e: Edge)
    ensures Emitted([e]) == if e.i == 0.0 then [] else [RowOf(e)]
  {
    assert [e][..0] == [];
  }

  /** Edges are written independently and in order: `Emitted` distributes over concatenation. */
  lemma {:induction false} EmittedAppend(a: seq<Edge>, b: seq<Edge>)
    ensures Emitted(a + b) == Emitted(a) + Emitted(b)
    decreases |b|
  {
    if |b| == 0 {
      assert a + b == a;
    } else {
      var front := b[..|b| - 1];
      assert (a + b)[..|a + b| - 1] == a + front;
      assert (a + b)[|a + b| - 1] == b[|b| - 1];
      EmittedAppend(a, front);
    }
  }

  /** What `write_output(fname, items)` writes, or the error it raises. */
  function Written(items: seq<Item>): Result<seq<OutRow>, Error>
  {
    match Scale(Aggregated(items), IMIN, IMAX)
    case Failure(e) => Failure(e)
    case Success(edges) => Success(Emitted(edges))
  }

  /**
   The zero-width test never fires: every aggregated pair is written, in
   key order, with a width in `[IMIN, IMAX]`.
   */
  lemma WrittenRows(items: seq<Item>, rows: seq<OutRow>)
    requires Written(items) == Success(rows)
    ensures |rows| == |Keys(items)|
    ensures forall j :: 0 <= j < |rows| ==>
      && rows[j].color == "Black"
      && IMIN <= rows[j].width <= IMAX
      && (rows[j].vertex1, rows[j].vertex2) in Keys(items)
      && rows[j].width == Scale(Aggregated(items), IMIN, IMAX).value[j].i
    ensures forall j, l :: 0 <= j < l < |rows| ==>
      PairLess((rows[j].vertex1, rows[j].vertex2), (rows[l].vertex1, rows[l].vertex2))
  {
    var agg := Aggregated(items);
    AggregatedIsAggregate(items);
    AggregateSize(items, agg);
    var edges := Scale(agg, IMIN, IMAX).value;
    ScaleBounds(agg, IMIN, IMAX);
    EmittedAll(edges);
    forall j | 0 <= j < |rows|
      ensures (rows[j].vertex1, rows[j].vertex2) == KeyOf(agg[j])
    {
    }
    forall j | 0 <= j < |rows| ensures (rows[j].vertex1, rows[j].vertex2) in Keys(items) {
      assert agg[j] in agg;
    }
    forall j | 0 <= j < |rows| ensures IMIN <= rows[j].width <= IMAX {
      assert edges[j] in edges;
    }
  }

  /** Every pair of `items` has the same total weight. */
  predicate SameTotals(items: seq<Item>)
  {
    forall k1, k2 :: k1 in Keys(items) && k2 in Keys(items) ==> SumFor(items, k1) == SumFor(items, k2)
  }

  lemma AggregateAllEqual(items: seq<Item>, agg: seq<Item>)
    requires IsAggregate(items, agg)
    ensures AllEqual(agg) <==> SameTotals(items)
  {
    if SameTotals(items) {
      forall j, l | 0 <= j < |agg| && 0 <= l < |agg| ensures agg[j].i == agg[l].i {
        assert agg[j] in agg && agg[l] in agg;
      }
    }
    if AllEqual(agg) {
      forall k1, k2 | k1 in Keys(items) && k2 in Keys(items) ensures SumFor(items, k1) == SumFor(items, k2) {
        var a :| a in agg && KeyOf(a) == k1;
        var b :| b in agg && KeyOf(b) == k2;
        var j :| 0 <= j < |agg| && agg[j] == a;
        var l :| 0 <= l < |agg| && agg[l] == b;
      }
    }
  }

  /**
   `write_output` raises exactly when there is at least one pair and every
   pair has the same total weight, one pair alone included.
   */
  lemma WrittenFails(items: seq<Item>)
    ensures Written(items).Failure? <==> Keys(items) != {} && SameTotals(items)
    ensures Written(items).Failure? ==> Written(items).error == ZeroDivision
  {
    var agg := Aggregated(items);
    AggregatedIsAggregate(items);
    KeysEmpty(agg);
    AggregateAllEqual(items, agg);
  }

  /** The loop of aggregate.py:35-44: one row per edge, skipping zero widths. */
  method EmitRows(edges: seq<Edge>) returns (rows: seq<OutRow>)
    ensures rows == Emitted(edges)
  {
    rows := [];
    for n := 0 to |edges|
      invariant rows == Emitted(edges[..n])
    {
      assert edges[..n + 1][..n] == edges[..n];
      if edges[n].i == 0.0 {
        continue;
      }
      rows := rows + [OutRow(edges[n].x, edges[n].y, "Black", edges[n].i)];
    }
    assert edges[..|edges|] == edges;
  }

  /** The loop of aggregate.py:29-44, writing rows to a list instead of a file. */
  method WriteOutput(items: seq<Item>) returns (r: Result<seq<OutRow>, Error>)
    ensures r == Written(items)
  {
    var agg := Aggregate(items);
    var scaled := Scale(agg, IMIN, IMAX);
    if scaled.Failure? {
      return Failure(scaled.error);
    }
    var rows := EmitRows(scaled.value);
    r := Success(rows);
  }
}
