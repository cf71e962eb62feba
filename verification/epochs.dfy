/**
 * Running a step over a sequence of epochs: mapping every epoch, and
 * applying a fallible step to each epoch in order, stopping at the first
 * failure.
 */
module Epochs {
  import opened Wrappers

  /** Apply `f` to every epoch, keeping the number and order of the epochs. */
  function Map<A, B>(items: seq<A>, f: A -> B): (r: seq<B>)
    ensures |r| == |items|
    ensures forall i | 0 <= i < |items| :: r[i] == f(items[i])
  {
    if |items| == 0 then [] else [f(items[0])] + Map(items[1..], f)
  }

  /** Mapping with the identity changes nothing. */
  lemma MapIdentity<A>(items: seq<A>)
    ensures Map(items, x => x) == items
  {
  }

  /** Mapping twice is mapping once with the composition. */
  lemma MapCompose<A, B, C>(items: seq<A>, f: A -> B, g: B -> C)
    ensures Map(Map(items, f), g) == Map(items, x => g(f(x)))
  {
  }

  /**
   * Apply `f` to the epochs in order and stop at the first error. The
   * outcome is paired with the number of epochs `f` was applied to, so
   * that stopping early is visible: on an error, `f` was applied to every
   * epoch up to and including the failing one and to no later epoch.
   */
  function TryEach<A, E>(items: seq<A>, f: A -> Result<(), E>): (r: (Result<(), E>, nat))
    ensures r.0.Ok? <==> forall i | 0 <= i < |items| :: f(items[i]).Ok?
    ensures r.0.Ok? ==> r.1 == |items|
    ensures r.0.Err? ==> && 0 < r.1 <= |items|
                         && (forall i | 0 <= i < r.1 - 1 :: f(items[i]).Ok?)
                         && f(items[r.1 - 1]) == Err(r.0.error)
  {
    if |items| == 0 then (Ok(()), 0)
    else match f(items[0])
      case Err(e) => (Err(e), 1)
      case Ok(_) =>
        var rest := TryEach(items[1..], f);
        assert forall i | 1 <= i < |items| :: items[i] == items[1..][i - 1];
        (rest.0, rest.1 + 1)
  }

  /** Stepping through the epochs one after another: the outcome of a prefix decides unless it succeeded. */
  lemma {:induction false} TryEachAppend<A, E>(a: seq<A>, b: seq<A>, f: A -> Result<(), E>)
    ensures TryEach(a + b, f).0 == if TryEach(a, f).0.Err? then TryEach(a, f).0 else TryEach(b, f).0
  {
    if |a| > 0 {
      assert (a + b)[0] == a[0];
      assert (a + b)[1..] == a[1..] + b;
      TryEachAppend(a[1..], b, f);
    } else {
      assert a + b == b;
    }
  }
}
