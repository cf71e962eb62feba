/**
 * Evaluating a plan's setup: the setup function is called with one
 * argument, the parameter values as an object; it must return a list,
 * and each item of the list is decoded as a module call, in order,
 * stopping at the first item that does not decode.
 *
 * Calling a configuration-language function is outside the model: it is
 * the parameter `call`, given the setup's span, the function and the
 * argument list.
 */
module PlanEval {
  import opened Wrappers
  import Rimu
  import RimuInterop
  import Params
  import PlanDecode

  type Value = Rimu.Value
  type Spanned<T> = Rimu.Spanned<T>

  /** A function call in the configuration language: span of the callee, the function, the arguments. */
  type Caller<CE> = (Rimu.Span, PlanDecode.String, seq<Spanned<Value>>) -> Result<Spanned<Value>, CE>

  datatype EvalError<CE> =
    | CallFailed(callError: CE)
    | ReturnedNotList
    | InvalidPlanAction(actionError: Spanned<PlanDecode.CallError>)

  /** The argument list setup is called with. */
  function SetupArgs(params: Spanned<Params.ParamValues>): seq<Spanned<Value>> {
    [Rimu.Spanned(Params.ValuesIntoRimu(params.inner), params.span)]
  }

  /** Decode each item as a module call, labelled with its span; the first failure stops. */
  function DecodeActions(items: seq<Spanned<Value>>): (r: Result<seq<Spanned<PlanDecode.Call>>, Spanned<PlanDecode.CallError>>)
    ensures r.Ok? ==> |r.value| == |items|
  {
    if |items| == 0 then Ok([])
    else
      var first :- RimuInterop.FromRimuSpanned(PlanDecode.CallFromRimu, items[0]);
      var rest :- DecodeActions(items[1..]);
      Ok([first] + rest)
  }

  /** Decoding succeeds exactly when every item is a call, and then gives each item's call with its span. */
  lemma {:induction false} DecodeActionsOk(items: seq<Spanned<Value>>)
    ensures DecodeActions(items).Ok? <==> forall i | 0 <= i < |items| :: PlanDecode.CallFromRimu(items[i].inner).Ok?
    ensures DecodeActions(items).Ok? ==>
              forall i | 0 <= i < |items| ::
                DecodeActions(items).value[i] == Rimu.Spanned(PlanDecode.CallFromRimu(items[i].inner).value, items[i].span)
  {
    if |items| > 0 {
      var tail := items[1..];
      DecodeActionsOk(tail);
      assert forall j | 0 <= j < |tail| :: tail[j] == items[j + 1];
      if DecodeActions(items).Ok? {
        assert DecodeActions(items).value == [DecodeActions(items).value[0]] + DecodeActions(tail).value;
      }
    }
  }

  /** A failure is the first undecodable item's error, labelled with that item's span; later items are not looked at. */
  lemma {:induction false} DecodeActionsErr(items: seq<Spanned<Value>>)
    requires DecodeActions(items).Err?
    ensures exists i | 0 <= i < |items| ::
              && (forall j | 0 <= j < i :: PlanDecode.CallFromRimu(items[j].inner).Ok?)
              && PlanDecode.CallFromRimu(items[i].inner).Err?
              && DecodeActions(items).error == Rimu.Spanned(PlanDecode.CallFromRimu(items[i].inner).error, items[i].span)
  {
    var tail := items[1..];
    if PlanDecode.CallFromRimu(items[0].inner).Ok? {
      DecodeActionsErr(tail);
      var i :| 0 <= i < |tail| && (forall j | 0 <= j < i :: PlanDecode.CallFromRimu(tail[j].inner).Ok?)
               && PlanDecode.CallFromRimu(tail[i].inner).Err?
               && DecodeActions(tail).error == Rimu.Spanned(PlanDecode.CallFromRimu(tail[i].inner).error, tail[i].span);
      assert items[i + 1] == tail[i];
      assert forall j | 1 <= j < i + 1 :: items[j] == tail[j - 1];
    }
  }

  /** Call setup with the parameter values and decode what it returns. */
  function Evaluate<CE>(setup: Spanned<PlanDecode.SetupFunction>, params: Spanned<Params.ParamValues>, call: Caller<CE>)
    : (r: Result<seq<Spanned<PlanDecode.Call>>, EvalError<CE>>)
    ensures r.Err? && r.error.CallFailed? <==> call(setup.span, setup.inner.func, SetupArgs(params)).Err?
  {
    var result :- call(setup.span, setup.inner.func, SetupArgs(params)).MapError(e => CallFailed(e));
    match result.inner
    case List(items) => DecodeActions(items).MapError(e => InvalidPlanAction(e))
    case _ => Err(ReturnedNotList)
  }

  /**
   * Setup is called once, with exactly one argument: the parameter values
   * as an object, labelled with their span. Two callers that agree on
   * that one call give the same evaluation.
   */
  lemma EvaluateCallsOnce<CE>(setup: Spanned<PlanDecode.SetupFunction>, params: Spanned<Params.ParamValues>, c1: Caller<CE>, c2: Caller<CE>)
    requires c1(setup.span, setup.inner.func, [Rimu.Spanned(Rimu.Object(params.inner.entries), params.span)])
          == c2(setup.span, setup.inner.func, [Rimu.Spanned(Rimu.Object(params.inner.entries), params.span)])
    ensures Evaluate(setup, params, c1) == Evaluate(setup, params, c2)
  {
    assert SetupArgs(params) == [Rimu.Spanned(Rimu.Object(params.inner.entries), params.span)];
  }

  /**
   * What setup returns decides the outcome: anything but a list is
   * `ReturnedNotList`; a list gives one call per item, in order, or the
   * first bad item's error.
   */
  lemma EvaluateResult<CE>(setup: Spanned<PlanDecode.SetupFunction>, params: Spanned<Params.ParamValues>, call: Caller<CE>)
    requires call(setup.span, setup.inner.func, SetupArgs(params)).Ok?
    ensures var returned := call(setup.span, setup.inner.func, SetupArgs(params)).value.inner;
            var r := Evaluate(setup, params, call);
            && (!returned.List? ==> r == Err(ReturnedNotList))
            && (returned.List? ==>
                  && (r.Ok? <==> forall i | 0 <= i < |returned.items| :: PlanDecode.CallFromRimu(returned.items[i].inner).Ok?)
                  && (r.Ok? ==> |r.value| == |returned.items|)
                  && (r.Ok? ==>
                        forall i | 0 <= i < |returned.items| ::
                          r.value[i] == Rimu.Spanned(PlanDecode.CallFromRimu(returned.items[i].inner).value, returned.items[i].span))
                  && (r.Err? ==> r.error.InvalidPlanAction?))
  {
    var returned := call(setup.span, setup.inner.func, SetupArgs(params)).value.inner;
    if returned.List? {
      DecodeActionsOk(returned.items);
    }
  }
}
