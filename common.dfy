/** Failure-compatible wrappers and the Python exceptions the modelled code raises. */
module Wrappers {

  datatype Option<+T> = None | Some(value: T)

  /** The exception a Python operation raises, when it raises one. */
  datatype Error =
    | ValueError
    | IndexError
    | KeyError
    | TypeError
    | AssertionError
    | RuntimeError
    | UnicodeDecodeError

  datatype Result<+T> = Ok(value: T) | Err(error: Error)
}

/**
 * Python dicts keep insertion order; where that order is observable, a dict is
 * modelled as a sequence of key/value pairs with distinct keys.
 */
module Dicts {
  import opened Wrappers

  type Dict<K, V> = seq<(K, V)>

  function KeysOf<K, V>(d: Dict<K, V>): (r: seq<K>)
    ensures |r| == |d|
    ensures forall i :: 0 <= i < |d| ==> r[i] == d[i].0
  {
    if d == [] then [] else [d[0].0] + KeysOf(d[1..])
  }

  ghost predicate DistinctKeys<K, V>(d: Dict<K, V>) {
    forall i, j :: 0 <= i < j < |d| ==> d[i].0 != d[j].0
  }

  /** `d.get(k)`: the value of the (first) entry with key `k`. */
  function Get<K(==), V>(d: Dict<K, V>, k: K): (r: Option<V>)
    ensures r.None? <==> k !in KeysOf(d)
    ensures r.Some? ==> exists i :: 0 <= i < |d| && d[i] == (k, r.value)
  {
    if d == [] then None
    else if d[0].0 == k then Some(d[0].1)
    else Get(d[1..], k)
  }

  /** In a dict with distinct keys, the entry at position `i` is what `d[key]` returns. */
  lemma {:induction false} GetAt<K, V>(d: Dict<K, V>, i: nat)
    requires DistinctKeys(d) && i < |d|
    ensures Get(d, d[i].0) == Some(d[i].1)
  {
    if i > 0 {
      assert d[0].0 != d[i].0;
      GetAt(d[1..], i - 1);
    }
  }
}

/** Python list operations the tree items rely on. */
module Lists {
  import opened Wrappers

  /**
   * What the recurring guard `if i < 0 or i > len(xs): return ...` lets
   * through: an index past the end is rejected, but the index equal to the
   * length passes and the list access after it raises `IndexError`.
   */
  datatype Slot = Rejected | PastEnd | At(i: nat)

  function Guard(index: int, len: nat): (r: Slot)
    ensures r.Rejected? <==> index < 0 || index > len
    ensures r.PastEnd? <==> index == len
    ensures r.At? <==> 0 <= index < len
    ensures r.At? ==> r.i == index
  {
    if index < 0 || index > len then Rejected
    else if index == len then PastEnd
    else At(index)
  }

  /** `xs.index(x)`: the first position of `x`, or `ValueError` when it does not occur. */
  function IndexOf<T(==)>(xs: seq<T>, x: T): (r: Result<nat>)
    ensures r.Ok? <==> x in xs
    ensures r.Err? ==> r.error == ValueError
    ensures r.Ok? ==> r.value < |xs| && xs[r.value] == x && x !in xs[..r.value]
  {
    if xs == [] then Err(ValueError)
    else if xs[0] == x then Ok(0)
    else
      match IndexOf(xs[1..], x)
      case Err(e) => Err(e)
      case Ok(k) =>
        assert xs[..k + 1] == [xs[0]] + xs[1..][..k];
        Ok(k + 1)
  }

  /** In a list without repeats, the element at `i` is found at `i`. */
  lemma IndexOfDistinct<T>(xs: seq<T>, i: nat)
    requires i < |xs| && forall a, b :: 0 <= a < b < |xs| ==> xs[a] != xs[b]
    ensures IndexOf(xs, xs[i]) == Ok(i)
  {
  }

  /** `count` copies of `x` inserted at `position`, as `xs.insert(position, x)` repeated. */
  function InsertedAt<T>(xs: seq<T>, position: nat, items: seq<T>): (r: seq<T>)
    requires position <= |xs|
  {
    xs[..position] + items + xs[position..]
  }

  lemma InsertedAtIndex<T>(xs: seq<T>, position: nat, items: seq<T>)
    requires position <= |xs|
    ensures |InsertedAt(xs, position, items)| == |xs| + |items|
    ensures forall i :: 0 <= i < |xs| + |items| ==>
      InsertedAt(xs, position, items)[i] == (if i < position then xs[i] else if i < position + |items| then items[i - position] else xs[i - |items|])
  {
  }

  /** `del xs[position]` repeated `count` times, when every deletion finds an element. */
  function RemovedAt<T>(xs: seq<T>, position: nat, count: nat): (r: seq<T>)
    requires position + count <= |xs|
  {
    xs[..position] + xs[position + count..]
  }

  lemma RemovedAtIndex<T>(xs: seq<T>, position: nat, count: nat)
    requires position + count <= |xs|
    ensures |RemovedAt(xs, position, count)| == |xs| - count
    ensures forall i :: 0 <= i < |xs| - count ==>
      RemovedAt(xs, position, count)[i] == (if i < position then xs[i] else xs[i + count])
  {
  }

  /** Deleting what was just inserted at the same position gives the list back. */
  lemma RemoveInserted<T>(xs: seq<T>, position: nat, items: seq<T>)
    requires position <= |xs|
    ensures RemovedAt(InsertedAt(xs, position, items), position, |items|) == xs
  {
    var ys := InsertedAt(xs, position, items);
    assert ys[..position] == xs[..position];
    assert ys[position + |items|..] == xs[position..];
    assert xs == xs[..position] + xs[position..];
  }
}
