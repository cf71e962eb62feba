/**
 * The configuration language's values, as the planning core sees them.
 *
 * Parsing and evaluating the language are outside this model; only the
 * shape of an evaluated value matters. Every value carries the span of
 * source text it came from. An object is an insertion-ordered map, kept
 * as a list of entries; the maps the evaluator builds never repeat a key.
 */
module Rimu {
  import opened Wrappers
  import Strs

  type String = Strs.String

  /** A stretch of source text: the source's identifier and a byte range. */
  datatype Span = Span(source: String, start: nat, end: nat)

  datatype Spanned<T> = Spanned(inner: T, span: Span)

  /** A callable value is opaque here: only its identity (a name) is kept. */
  datatype Value =
    | Null
    | Boolean(b: bool)
    | String(s: String)
    | Number(n: int)
    | Function(name: String)
    | List(items: seq<Spanned<Value>>)
    | Object(entries: seq<(String, Spanned<Value>)>)

  type Entries = seq<(String, Spanned<Value>)>

  function Keys<V>(m: seq<(String, V)>): (r: seq<String>)
    ensures |r| == |m| && forall i | 0 <= i < |m| :: r[i] == m[i].0
  {
    if |m| == 0 then [] else [m[0].0] + Keys(m[1..])
  }

  /** No key occurs twice: the invariant of an insertion-ordered map. */
  predicate UniqueKeys<V>(m: seq<(String, V)>) {
    forall i, j | 0 <= i < j < |m| :: m[i].0 != m[j].0
  }

  /** The position of `key`, if present (the first one). */
  function Find<V>(m: seq<(String, V)>, key: String): (r: Option<nat>)
    ensures r.Some? ==> r.value < |m| && m[r.value].0 == key && forall i | 0 <= i < r.value :: m[i].0 != key
    ensures r.None? ==> forall i | 0 <= i < |m| :: m[i].0 != key
  {
    if |m| == 0 then None
    else if m[0].0 == key then Some(0)
    else match Find(m[1..], key)
      case None => None
      case Some(i) => Some(i + 1)
  }

  predicate HasKey<V>(m: seq<(String, V)>, key: String) {
    Find(m, key).Some?
  }

  /** The value stored under `key`, if any. */
  function Get<V>(m: seq<(String, V)>, key: String): (r: Option<V>)
    ensures r.Some? <==> exists i | 0 <= i < |m| :: m[i].0 == key
    ensures r.Some? ==> exists i | 0 <= i < |m| :: m[i] == (key, r.value)
  {
    match Find(m, key)
    case None => None
    case Some(i) => assert m[i] == (key, m[i].1); Some(m[i].1)
  }

  /**
   * Remove `key` the way an insertion-ordered map's swap-remove does: the
   * last entry takes the removed entry's place. Returns the removed value.
   */
  function SwapRemove<V>(m: seq<(String, V)>, key: String): (r: (Option<V>, seq<(String, V)>))
    ensures r.0 == Get(m, key)
    ensures r.0.None? ==> r.1 == m
    ensures r.0.Some? ==> |r.1| == |m| - 1
  {
    match Find(m, key)
    case None => (None, m)
    case Some(i) =>
      if i == |m| - 1 then (Some(m[i].1), m[..i])
      else (Some(m[i].1), m[..i] + [m[|m| - 1]] + m[i + 1..|m| - 1])
  }

  /** Where entry `j` of the swap-removed map came from, when position `i` of a map of `n` entries was removed. */
  function Origin(i: nat, n: nat, j: nat): int {
    if j == i then n - 1 else j
  }

  /** Where entry `k` of a map of `n` entries lands when position `i` is swap-removed. */
  function Slot(i: nat, n: nat, k: nat): nat {
    if k == n - 1 then i else k
  }

  lemma {:induction false} SwapRemoveOrigin<V>(m: seq<(String, V)>, key: String, i: nat)
    requires Find(m, key) == Some(i)
    ensures var r := SwapRemove(m, key).1;
            && (forall j | 0 <= j < |r| :: Origin(i, |m|, j) < |m| && Origin(i, |m|, j) != i && r[j] == m[Origin(i, |m|, j)])
            && (forall k | 0 <= k < |m| && k != i :: Slot(i, |m|, k) < |r| && Origin(i, |m|, Slot(i, |m|, k)) == k)
  {
  }

  /** A swap-remove keeps the keys distinct. */
  lemma {:induction false} SwapRemoveUnique<V>(m: seq<(String, V)>, key: String)
    requires UniqueKeys(m)
    ensures UniqueKeys(SwapRemove(m, key).1)
  {
    var r := SwapRemove(m, key).1;
    match Find(m, key)
    case None =>
    case Some(i) =>
      SwapRemoveOrigin(m, key, i);
      forall j1, j2 | 0 <= j1 < j2 < |r| ensures r[j1].0 != r[j2].0 {
        assert Origin(i, |m|, j1) != Origin(i, |m|, j2);
      }
  }

  /** After a swap-remove of `key`, every other key still finds its value, and `key` is gone. */
  lemma {:induction false} SwapRemoveGet<V>(m: seq<(String, V)>, key: String, other: String)
    requires UniqueKeys(m)
    ensures Get(SwapRemove(m, key).1, other) == if other == key then None else Get(m, other)
  {
    var r := SwapRemove(m, key).1;
    match Find(m, key)
    case None =>
    case Some(i) =>
      SwapRemoveOrigin(m, key, i);
      if other != key && Get(m, other).Some? {
        var k :| 0 <= k < |m| && m[k] == (other, Get(m, other).value);
        assert r[Slot(i, |m|, k)] == m[k];
      }
      if Get(r, other).Some? {
        var j :| 0 <= j < |r| && r[j] == (other, Get(r, other).value);
        assert r[j] == m[Origin(i, |m|, j)];
      }
  }

  /** In a map without repeated keys, `Get` finds exactly the stored entry. */
  lemma GetEntry<V>(m: seq<(String, V)>, i: nat)
    requires UniqueKeys(m) && i < |m|
    ensures Get(m, m[i].0) == Some(m[i].1)
  {
  }
}
