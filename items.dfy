/**
 The interaction record that flows through the pipeline: the `Item`
 named tuple of aggregate.py, with its two endpoints and an integer weight,
 and the two ways a run can abort.
 */
module Items {
  import opened StrOrder

  /** `Item(x, y, i)`: endpoints `x`, `y` and the interaction weight `i`. */
  datatype Item = Item(x: string, y: string, i: int)

  /** The errors that abort a run. */
  datatype Error =
    /** A `Pair` cell that does not split into two names; carries the raw cell and the token count. */
    | MalformedPair(pair: string, tokens: nat)
    /** `scale` divided by `smax - smin == 0`. */
    | ZeroDivision

  /** The dictionary key `aggregate` groups by. */
  function KeyOf(it: Item): (string, string)
  {
    (it.x, it.y)
  }

  /** The endpoints are in order: `x <= y`. */
  predicate Canonical(it: Item)
  {
    LessEq(it.x, it.y)
  }
}
