/**
 * Decoding a spanned configuration value: the decoder runs on the bare
 * value, and whichever way it turns out, the outcome is labelled with
 * the input's span.
 */
module RimuInterop {
  import opened Wrappers
  import Rimu

  /** The outcome with its span labels taken off. */
  function Unwrap<T, E>(r: Result<Rimu.Spanned<T>, Rimu.Spanned<E>>): Result<T, E> {
    match r
    case Ok(t) => Ok(t.inner)
    case Err(e) => Err(e.inner)
  }

  /** The span an outcome is labelled with. */
  function SpanOf<T, E>(r: Result<Rimu.Spanned<T>, Rimu.Spanned<E>>): Rimu.Span {
    match r
    case Ok(t) => t.span
    case Err(e) => e.span
  }

  /** Run `fromRimu` on the bare value and label its outcome with the value's span. */
  function FromRimuSpanned<T, E>(fromRimu: Rimu.Value -> Result<T, E>, value: Rimu.Spanned<Rimu.Value>)
    : (r: Result<Rimu.Spanned<T>, Rimu.Spanned<E>>)
    ensures r.Ok? <==> fromRimu(value.inner).Ok?
    ensures Unwrap(r) == fromRimu(value.inner)
    ensures SpanOf(r) == value.span
  {
    match fromRimu(value.inner)
    case Ok(t) => Ok(Rimu.Spanned(t, value.span))
    case Err(error) => Err(Rimu.Spanned(error, value.span))
  }

  /**
   * Decode every entry of an object with `fromRimu`, keeping keys and
   * order and labelling each outcome with its entry's span; the first
   * entry that fails stops decoding, and the error names its key.
   */
  function DecodeEntries<T, E>(entries: Rimu.Entries, fromRimu: Rimu.Value -> Result<T, E>)
    : (r: Result<seq<(Rimu.String, Rimu.Spanned<T>)>, (Rimu.String, Rimu.Spanned<E>)>)
    ensures r.Ok? ==> |r.value| == |entries|
  {
    if |entries| == 0 then Ok([])
    else
      match FromRimuSpanned(fromRimu, entries[0].1)
      case Err(e) => Err((entries[0].0, e))
      case Ok(t) =>
        match DecodeEntries(entries[1..], fromRimu)
        case Err(e) => Err(e)
        case Ok(rest) => Ok([(entries[0].0, t)] + rest)
  }

  /** Decoding succeeds exactly when every entry decodes, and then keeps each key with its decoded value. */
  lemma {:induction false} DecodeEntriesOk<T, E>(entries: Rimu.Entries, fromRimu: Rimu.Value -> Result<T, E>)
    ensures DecodeEntries(entries, fromRimu).Ok? <==> forall i | 0 <= i < |entries| :: fromRimu(entries[i].1.inner).Ok?
    ensures DecodeEntries(entries, fromRimu).Ok? ==>
              && Rimu.Keys(DecodeEntries(entries, fromRimu).value) == Rimu.Keys(entries)
              && forall i | 0 <= i < |entries| :: FromRimuSpanned(fromRimu, entries[i].1) == Ok(DecodeEntries(entries, fromRimu).value[i].1)
  {
    if |entries| > 0 {
      var tail := entries[1..];
      DecodeEntriesOk(tail, fromRimu);
      assert forall j | 0 <= j < |tail| :: tail[j] == entries[j + 1];
      if DecodeEntries(entries, fromRimu).Ok? {
        var r := DecodeEntries(entries, fromRimu).value;
        assert r == [r[0]] + DecodeEntries(tail, fromRimu).value;
        assert Rimu.Keys(r) == [entries[0].0] + Rimu.Keys(DecodeEntries(tail, fromRimu).value);
        assert Rimu.Keys(entries) == [entries[0].0] + Rimu.Keys(tail);
      }
    }
  }

  /** A failure names the first entry that does not decode, with that entry's error. */
  lemma {:induction false} DecodeEntriesErr<T, E>(entries: Rimu.Entries, fromRimu: Rimu.Value -> Result<T, E>)
    requires DecodeEntries(entries, fromRimu).Err?
    ensures exists i | 0 <= i < |entries| ::
              && (forall j | 0 <= j < i :: fromRimu(entries[j].1.inner).Ok?)
              && FromRimuSpanned(fromRimu, entries[i].1).Err?
              && DecodeEntries(entries, fromRimu).error == (entries[i].0, FromRimuSpanned(fromRimu, entries[i].1).error)
  {
    var tail := entries[1..];
    if FromRimuSpanned(fromRimu, entries[0].1).Ok? {
      DecodeEntriesErr(tail, fromRimu);
      var i :| 0 <= i < |tail| && (forall j | 0 <= j < i :: fromRimu(tail[j].1.inner).Ok?)
               && FromRimuSpanned(fromRimu, tail[i].1).Err?
               && DecodeEntries(tail, fromRimu).error == (tail[i].0, FromRimuSpanned(fromRimu, tail[i].1).error);
      assert entries[i + 1] == tail[i];
      assert forall j | 1 <= j < i + 1 :: entries[j] == tail[j - 1];
    }
  }
}
