/** Column helpers the commands take from the dataframe engine: counting a
    value (null_count when the value is null), drop_nulls, and the length of
    a head(n) or top-n slice. */
module Columns {
  import opened Outcomes

  /** The smaller of two lengths: how many rows head(n) keeps, how many
      bars a top-n slice keeps. */
  function Min(a: int, b: int): (m: int)
    ensures m <= a && m <= b
    ensures m == a || m == b
  {
    if a <= b then a else b
  }

  /** Number of occurrences of v in xs. */
  function Count<T(==)>(xs: seq<T>, v: T): (n: nat)
    ensures n <= |xs|
    ensures n > 0 <==> v in xs
  {
    if |xs| == 0 then 0
    else
      var init := xs[..|xs| - 1];
      assert xs == init + [xs[|xs| - 1]];
      Count(init, v) + (if xs[|xs| - 1] == v then 1 else 0)
  }

  /** The non-null values of a column, in column order (drop_nulls). */
  function DropNulls<V(==)>(cells: seq<Option<V>>): (r: seq<V>)
    ensures |r| == |cells| - Count(cells, None)
    ensures forall i :: 0 <= i < |r| ==> Some(r[i]) in cells
    ensures forall i :: 0 <= i < |cells| && cells[i].Some? ==> cells[i].value in r
  {
    if |cells| == 0 then []
    else
      var init := cells[..|cells| - 1];
      assert cells == init + [cells[|cells| - 1]];
      match cells[|cells| - 1]
      case None => DropNulls(init)
      case Some(v) => DropNulls(init) + [v]
  }

  /** drop_nulls keeps the relative order of the values it keeps. */
  lemma {:induction false} DropNullsAppend<V>(a: seq<Option<V>>, b: seq<Option<V>>)
    ensures DropNulls(a + b) == DropNulls(a) + DropNulls(b)
    decreases |b|
  {
    if |b| == 0 {
      assert a + b == a;
    } else {
      var init := b[..|b| - 1];
      assert (a + b)[..|a + b| - 1] == a + init;
      DropNullsAppend(a, init);
    }
  }

  /** drop_nulls keeps every value as often as it occurs in the column. */
  lemma {:induction false} CountDropNulls<V>(cells: seq<Option<V>>, v: V)
    ensures Count(DropNulls(cells), v) == Count(cells, Some(v))
    decreases |cells|
  {
    if |cells| > 0 {
      var init := cells[..|cells| - 1];
      var last := cells[|cells| - 1];
      assert cells == init + [last];
      CountDropNulls(init, v);
      if last.Some? {
        var r := DropNulls(init) + [last.value];
        assert r[..|r| - 1] == DropNulls(init);
      }
    }
  }
}
