/**
 * Context values and their string form. A context maps identifiers to
 * values; a value is a string or an array of values. String conversion is
 * JavaScript's `String(v)` for these two kinds: an array prints as its
 * elements' strings joined by commas.
 */
module Values {

  datatype Value = Str(s: string) | Arr(items: seq<Value>)

  type Ctx = map<string, Value>

  function Stringify(v: Value): string
  {
    match v
    case Str(s) => s
    case Arr(items) => JoinItems(items)
  }

  function JoinItems(items: seq<Value>): string
    decreases items
  {
    if items == [] then ""
    else if |items| == 1 then Stringify(items[0])
    else Stringify(items[0]) + "," + JoinItems(items[1..])
  }

  /** A one-element array prints exactly as its element. */
  lemma SingletonArrayPrintsAsElement(v: Value)
    ensures Stringify(Arr([v])) == Stringify(v)
  {
  }

  /** Printing an array of two parts is printing each part, with a comma
      between them when both are non-empty (so nesting flattens). */
  lemma {:induction false} JoinItemsAppend(xs: seq<Value>, ys: seq<Value>)
    ensures JoinItems(xs + ys) ==
      if xs == [] then JoinItems(ys)
      else if ys == [] then JoinItems(xs)
      else JoinItems(xs) + "," + JoinItems(ys)
    decreases |xs|
  {
    if xs == [] {
      assert xs + ys == ys;
    } else if ys == [] {
      assert xs + ys == xs;
    } else if |xs| == 1 {
      assert (xs + ys)[0] == xs[0];
      assert (xs + ys)[1..] == ys;
    } else {
      assert (xs + ys)[0] == xs[0];
      assert (xs + ys)[1..] == xs[1..] + ys;
      JoinItemsAppend(xs[1..], ys);
    }
  }
}
