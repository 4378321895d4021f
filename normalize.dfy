/**
 The row loop of the script's entry point: each CSV row with a non-blank
 `Pair` cell becomes an `Item` whose endpoints are the two names of the
 cell in order. The weight is taken as already parsed.
 */
module Normalize {
  import opened Results
  import opened Items
  import opened Text
  import opened StrOrder

  /** One input row: the `Pair` cell and the integer read from `Proximity` or `Interaction`. */
  datatype Row = Row(pair: string, weight: int)

  /** The fields of a `Pair` cell once `'Mr '` is joined to the surname. */
  function Tokens(pair: string): seq<string>
  {
    Split(ReplaceMr(pair))
  }

  /** A row the loop accepts: blank, or exactly two names. */
  predicate WellFormed(row: Row)
  {
    Blank(row.pair) || |Tokens(row.pair)| == 2
  }

  /** `it` is the item of a non-blank row: its weight, and its two names in order. */
  predicate Produces(row: Row, it: Item)
  {
    && Canonical(it)
    && it.i == row.weight
    && multiset{it.x, it.y} == multiset(Tokens(row.pair))
  }

  /**
   What the loop does with one row: nothing for a blank cell, an error for
   a cell that is not two names, otherwise the item with its names in order.
   */
  function NormalizeRow(row: Row): (r: Result<Option<Item>, Error>)
    ensures r == Success(None) <==> Blank(row.pair)
    ensures r.Failure? <==> !WellFormed(row)
    ensures r.Failure? ==> r.error == MalformedPair(row.pair, |Tokens(row.pair)|)
    ensures r.Success? && r.value.Some? ==>
      var it := r.value.value;
      && Produces(row, it)
      && it.x != [] && SpaceFree(it.x) && it.y != [] && SpaceFree(it.y)
  {
    StripEmpty(row.pair);
    if Strip(row.pair) == [] then Success(None)
    else
      var toks := Tokens(row.pair);
      if |toks| != 2 then Failure(MalformedPair(row.pair, |toks|))
      else
        assert toks[0] in toks && toks[1] in toks;
        assert toks == [toks[0], toks[1]];
        if Less(toks[1], toks[0]) then Success(Some(Item(toks[1], toks[0], row.weight)))
        else
          NotLessIsLessEq(toks[0], toks[1]);
          Success(Some(Item(toks[0], toks[1], row.weight)))
  }

  /** The whole loop: items in row order, or the error of the first malformed row. */
  function Normalized(rows: seq<Row>): Result<seq<Item>, Error>
  {
    if |rows| == 0 then Success([])
    else
      match Normalized(rows[..|rows| - 1])
      case Failure(e) => Failure(e)
      case Success(items) =>
        match NormalizeRow(rows[|rows| - 1])
        case Failure(e) => Failure(e)
        case Success(None) => Success(items)
        case Success(Some(it)) => Success(items + [it])
  }

  /** The rows that produce an item. */
  function NonBlank(rows: seq<Row>): seq<Row>
  {
    if |rows| == 0 then []
    else if Blank(rows[|rows| - 1].pair) then NonBlank(rows[..|rows| - 1])
    else NonBlank(rows[..|rows| - 1]) + [rows[|rows| - 1]]
  }

  /** Once a prefix has failed, later rows do not change the outcome. */
  lemma {:induction false} FailureSticks(rows: seq<Row>, n: nat)
    requires n <= |rows| && Normalized(rows[..n]).Failure?
    ensures Normalized(rows) == Normalized(rows[..n])
    decreases |rows| - n
  {
    if n < |rows| {
      assert rows[..n + 1][..n] == rows[..n];
      FailureSticks(rows, n + 1);
    } else {
      assert rows[..n] == rows;
    }
  }

  /** One more row after a successful prefix fails exactly when that row is malformed. */
  lemma NormalizedStep(rows: seq<Row>)
    requires |rows| > 0 && Normalized(rows[..|rows| - 1]).Success?
    ensures Normalized(rows).Success? <==> WellFormed(rows[|rows| - 1])
  {
  }

  /** Every row of `rows` is blank or two names. */
  predicate AllWellFormed(rows: seq<Row>)
  {
    forall j :: 0 <= j < |rows| ==> WellFormed(rows[j])
  }

  lemma AllWellFormedSnoc(rows: seq<Row>)
    requires |rows| > 0
    ensures AllWellFormed(rows) <==> AllWellFormed(rows[..|rows| - 1]) && WellFormed(rows[|rows| - 1])
  {
    var front := rows[..|rows| - 1];
    assert forall j :: 0 <= j < |front| ==> front[j] == rows[j];
  }

  /** The loop succeeds exactly when every row is blank or two names. */
  lemma {:induction false} NormalizedSucceeds(rows: seq<Row>)
    ensures Normalized(rows).Success? <==> AllWellFormed(rows)
  {
    if |rows| > 0 {
      var front := rows[..|rows| - 1];
      NormalizedSucceeds(front);
      AllWellFormedSnoc(rows);
      if Normalized(front).Success? {
        NormalizedStep(rows);
      }
    }
  }

  /**
   On success there is one item per non-blank row, in row order, carrying
   that row's weight and its two names in order.
   */
  lemma {:induction false} NormalizedItems(rows: seq<Row>, items: seq<Item>)
    requires Normalized(rows) == Success(items)
    ensures |items| == |NonBlank(rows)|
    ensures forall j :: 0 <= j < |items| ==> Produces(NonBlank(rows)[j], items[j])
  {
    if |rows| > 0 {
      var front := rows[..|rows| - 1];
      var last := rows[|rows| - 1];
      var prev :| Normalized(front) == Success(prev);
      NormalizedItems(front, prev);
      var r := NormalizeRow(last);
      if Blank(last.pair) {
        assert items == prev && NonBlank(rows) == NonBlank(front);
      } else {
        var it := r.value.value;
        assert items == prev + [it] && NonBlank(rows) == NonBlank(front) + [last];
      }
    }
  }

  /** On failure the error names the first malformed row. */
  lemma {:induction false} NormalizedFirstError(rows: seq<Row>, e: Error)
    requires Normalized(rows) == Failure(e)
    ensures exists j :: 0 <= j < |rows| && !WellFormed(rows[j])
                     && (forall l :: 0 <= l < j ==> WellFormed(rows[l]))
                     && e == MalformedPair(rows[j].pair, |Tokens(rows[j].pair)|)
  {
    var front := rows[..|rows| - 1];
    var j := |rows| - 1;
    assert forall l :: 0 <= l < |front| ==> front[l] == rows[l];
    if Normalized(front).Failure? {
      NormalizedFirstError(front, e);
      var k :| 0 <= k < |front| && !WellFormed(front[k])
        && (forall l :: 0 <= l < k ==> WellFormed(front[l]))
        && e == MalformedPair(front[k].pair, |Tokens(front[k].pair)|);
      assert rows[k] == front[k];
    } else {
      NormalizedSucceeds(front);
      assert !WellFormed(rows[j]);
    }
  }

  /** A name ending in `Mr`: followed by a space it would be fused with the next name. */
  predicate EndsWithMr(a: string)
  {
    |a| >= 2 && a[|a| - 2] == 'M' && a[|a| - 1] == 'r'
  }

  /** `'Mr '` holds a space, so text without spaces has no occurrence. */
  lemma NoOccurrenceSpaceFree(t: string)
    requires SpaceFree(t)
    ensures forall j :: 0 <= j < |t| ==> !OccursAt(t, j)
  {
    forall j | 0 <= j < |t| ensures !OccursAt(t, j) {
      if j + 3 <= |t| {
        assert t[j..j + 3][2] == t[j + 2];
      }
    }
  }

  /** Joining a name to occurrence-free text with a space creates no occurrence. */
  lemma NoOccurrenceJoin(a: string, t: string)
    requires SpaceFree(a) && !EndsWithMr(a)
    requires forall j :: 0 <= j < |t| ==> !OccursAt(t, j)
    ensures forall j :: 0 <= j < |a + " " + t| ==> !OccursAt(a + " " + t, j)
  {
    var s := a + " " + t;
    forall j | 0 <= j < |s| ensures !OccursAt(s, j) {
      var m := if j + 3 <= |s| then s[j..j + 3] else [];
      if j + 3 > |s| {
      } else if j + 2 < |a| {
        assert m[2] == a[j + 2];
      } else if j + 2 == |a| {
        assert m[0] == a[|a| - 2] && m[1] == a[|a| - 1];
      } else if j + 1 == |a| {
        assert m[1] == ' ';
      } else if j == |a| {
        assert m[0] == ' ';
      } else {
        var i := j - |a| - 1;
        assert s[|a| + 1..] == t;
        assert m == s[|a| + 1..][i..i + 3];
        assert !OccursAt(t, j - |a| - 1);
      }
    }
  }

  /** `'<a> <b>'` splits into the two names. */
  lemma TokensOfTwo(a: string, b: string)
    requires a != [] && SpaceFree(a) && !EndsWithMr(a)
    requires b != [] && SpaceFree(b)
    ensures Tokens(a + " " + b) == [a, b]
  {
    var pair := a + " " + b;
    NoOccurrenceSpaceFree(b);
    NoOccurrenceJoin(a, b);
    ReplaceMrNoOccurrence(pair);
    assert pair == a + [' '] + b;
    SplitToken(a, ' ', b);
    SplitSpaceFree(b);
  }

  /** Text without spaces comes through the rewrite unchanged. */
  lemma ReplaceSpaceFree(t: string)
    requires SpaceFree(t)
    ensures ReplaceMr(t) == t
  {
    NoOccurrenceSpaceFree(t);
    ReplaceMrNoOccurrence(t);
  }

  /** A name and the space after it come through the rewrite unchanged. */
  lemma ReplaceNameSpace(a: string)
    requires SpaceFree(a) && !EndsWithMr(a)
    ensures ReplaceMr(a + " ") == a + " "
  {
    NoOccurrenceSpaceFree([]);
    NoOccurrenceJoin(a, []);
    assert a + " " + [] == a + " ";
    ReplaceMrNoOccurrence(a + " ");
  }

  /** In `'<a> Mr <b>'` only the honorific's space is removed when `a` and `b` hold no occurrence. */
  lemma ReplaceHonorific(a: string, b: string)
    requires ReplaceMr(a + " ") == a + " " && ReplaceMr(b) == b
    ensures ReplaceMr(a + " Mr " + b) == a + [' '] + ("Mr" + b)
  {
    var p, s := a + " ", a + " Mr " + b;
    assert s == p + "Mr " + b;
    ReplaceMrOccurrence(p, b);
    assert p + "Mr" + b == a + [' '] + ("Mr" + b);
  }

  /** `'<a> Mr <b>'` splits into `a` and `'Mr' + b`. */
  lemma TokensOfHonorific(a: string, b: string)
    requires a != [] && SpaceFree(a) && !EndsWithMr(a)
    requires b != [] && SpaceFree(b)
    ensures Tokens(a + " Mr " + b) == [a, "Mr" + b]
  {
    var m := "Mr" + b;
    ReplaceNameSpace(a);
    ReplaceSpaceFree(b);
    ReplaceHonorific(a, b);
    assert SpaceFree(m) by {
      assert forall j :: 2 <= j < |m| ==> m[j] == b[j - 2];
    }
    SplitToken(a, ' ', m);
    SplitSpaceFree(m);
  }

  /** `'<a> <b> <c>'` splits into three names. */
  lemma TokensOfThree(a: string, b: string, c: string)
    requires a != [] && SpaceFree(a) && !EndsWithMr(a)
    requires b != [] && SpaceFree(b) && !EndsWithMr(b)
    requires c != [] && SpaceFree(c)
    ensures Tokens(a + " " + b + " " + c) == [a, b, c]
  {
    var pair := a + " " + b + " " + c;
    NoOccurrenceSpaceFree(c);
    NoOccurrenceJoin(b, c);
    NoOccurrenceJoin(a, b + " " + c);
    assert pair == a + " " + (b + " " + c);
    ReplaceMrNoOccurrence(pair);
    assert pair == a + [' '] + (b + [' '] + c);
    SplitToken(a, ' ', b + [' '] + c);
    SplitToken(b, ' ', c);
    SplitSpaceFree(c);
  }

  /** Two names separated by a space become one item, in order. */
  lemma TwoNames(a: string, b: string, w: int)
    requires a != [] && SpaceFree(a) && !EndsWithMr(a)
    requires b != [] && SpaceFree(b)
    ensures NormalizeRow(Row(a + " " + b, w)) ==
      Success(Some(if Less(b, a) then Item(b, a, w) else Item(a, b, w)))
  {
    TokensOfTwo(a, b);
    assert (a + " " + b)[0] == a[0];
  }

  /** `'<a> Mr <b>'`: the honorific is joined to the surname `b`. */
  lemma HonorificName(a: string, b: string, w: int)
    requires a != [] && SpaceFree(a) && !EndsWithMr(a)
    requires b != [] && SpaceFree(b)
    ensures NormalizeRow(Row(a + " Mr " + b, w)) ==
      var m := "Mr" + b;
      Success(Some(if Less(m, a) then Item(m, a, w) else Item(a, m, w)))
  {
    TokensOfHonorific(a, b);
    assert (a + " Mr " + b)[0] == a[0];
  }

  /** Three names abort the run with the raw cell and the token count. */
  lemma ThreeNames(a: string, b: string, c: string, w: int)
    requires a != [] && SpaceFree(a) && !EndsWithMr(a)
    requires b != [] && SpaceFree(b) && !EndsWithMr(b)
    requires c != [] && SpaceFree(c)
    ensures NormalizeRow(Row(a + " " + b + " " + c, w)) ==
      Failure(MalformedPair(a + " " + b + " " + c, 3))
  {
    TokensOfThree(a, b, c);
    assert (a + " " + b + " " + c)[0] == a[0];
  }

  /**
   The loop of aggregate.py:52-66: skip blank `Pair` cells, split the rest
   into two names after the `'Mr '` fix-up, swap them into order and append.
   */
  method NormalizeRows(rows: seq<Row>) returns (r: Result<seq<Item>, Error>)
    ensures r == Normalized(rows)
    ensures r.Success? ==> forall it :: it in r.value ==> Canonical(it)
  {
    var items: seq<Item> := [];
    for n := 0 to |rows|
      invariant Normalized(rows[..n]) == Success(items)
      invariant forall it :: it in items ==> Canonical(it)
    {
      assert rows[..n + 1][..n] == rows[..n];
      var row := rows[n];
      StripEmpty(row.pair);
      if Strip(row.pair) == [] {
        continue;
      }
      var toks := Split(ReplaceMr(row.pair));
      if |toks| != 2 {
        FailureSticks(rows, n + 1);
        return Failure(MalformedPair(row.pair, |toks|));
      }
      var x, y := toks[0], toks[1];
      if Less(y, x) {
        x, y := y, x;
      } else {
        NotLessIsLessEq(x, y);
      }
      items := items + [Item(x, y, row.weight)];
    }
    assert rows[..|rows|] == rows;
    r := Success(items);
  }
}
