/**
 * A stored callback registration (class CallBack): the client's context and
 * function, plus the correlator and data filled in when a response batch is
 * delivered. Entries are copied by value into and out of the registry, so the
 * entry is a value here.
 */
module Callback {
  import opened Wrappers
  import opened AtmTypes

  /** The identity of a client callback function (a non-null function pointer). */
  type FuncRef = nat

  /** CallBack: `data` is None until a response batch is attached to a copy. */
  datatype CallBack = CallBack(correlator: nat, context: nat, func: FuncRef, data: Option<CallbackData>)

  /** One invocation of a client callback function: the arguments it was called with. */
  datatype Invocation = Invocation(func: FuncRef, context: nat, correlator: nat, data: Option<CallbackData>)

  /** The CallBack constructor: correlator 0, no data yet. */
  function NewCallBack(context: nat, func: FuncRef): (cb: CallBack)
    ensures cb.context == context && cb.func == func
    ensures cb.correlator == 0 && cb.data.None?
  {
    CallBack(0, context, func, None)
  }

  /** The copy AsyncCallback makes of a stored entry before firing it. */
  function WithResponse(cb: CallBack, correlator: nat, data: CallbackData): (r: CallBack)
    ensures r.context == cb.context && r.func == cb.func
    ensures r.correlator == correlator && r.data == Some(data)
  {
    cb.(correlator := correlator, data := Some(data))
  }

  /** CallBack::Fire: call the stored function with the stored context, correlator and data. */
  function Fire(cb: CallBack): (inv: Invocation)
    ensures inv.func == cb.func && inv.context == cb.context
    ensures inv.correlator == cb.correlator && inv.data == cb.data
  {
    Invocation(cb.func, cb.context, cb.correlator, cb.data)
  }
}
