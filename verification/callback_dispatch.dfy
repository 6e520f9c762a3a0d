/**
 * The CallBackHandler: delivers a response batch to a registered client,
 * either at once (Fire) or by handing the callback to the event scheduler
 * with argument 1 (its priority), depending on the mode flag m_eventSchedule.
 */
module CallbackDispatch {
  import opened Wrappers
  import opened AtmTypes
  import opened Callback
  import opened CallbackRegistry

  /** A callback handed to the event scheduler by `addEvent`, with the priority argument it was given. */
  datatype ScheduledEvent = ScheduledEvent(callback: CallBack, priority: nat)

  /**
   * What the handler has done so far: its mode, the events it has handed to the
   * scheduler, and the client functions it has invoked, in order.
   */
  datatype HandlerState = HandlerState(eventSchedule: bool, scheduled: seq<ScheduledEvent>, invoked: seq<Invocation>)

  /**
   * The effect of AsyncCallback on the handler for a stored entry `cb`: a copy
   * carrying the caller's correlator and data is either scheduled with priority 1
   * or fired at once.
   */
  function AfterAsyncCallback(s: HandlerState, cb: CallBack, correlator: nat, data: CallbackData): (t: HandlerState)
    ensures t.eventSchedule == s.eventSchedule
    ensures |t.scheduled| + |t.invoked| == |s.scheduled| + |s.invoked| + 1
    ensures s.eventSchedule ==> t.invoked == s.invoked && t.scheduled[..|s.scheduled|] == s.scheduled
    ensures s.eventSchedule ==>
              var ev := t.scheduled[|s.scheduled|];
              && ev.priority == 1
              && ev.callback.func == cb.func && ev.callback.context == cb.context
              && ev.callback.correlator == correlator && ev.callback.data == Some(data)
    ensures !s.eventSchedule ==> t.scheduled == s.scheduled && t.invoked[..|s.invoked|] == s.invoked
    ensures !s.eventSchedule ==>
              var inv := t.invoked[|s.invoked|];
              && inv.func == cb.func && inv.context == cb.context
              && inv.correlator == correlator && inv.data == Some(data)
  {
    var copy := WithResponse(cb, correlator, data);
    if s.eventSchedule then s.(scheduled := s.scheduled + [ScheduledEvent(copy, 1)])
    else s.(invoked := s.invoked + [Fire(copy)])
  }

  /**
   * In immediate mode the client's own function is called, with the context it
   * registered and the correlator and data of this request.
   */
  lemma ImmediateDelivery(s: HandlerState, r: Registry, handle: nat, correlator: nat, data: CallbackData)
    requires !s.eventSchedule && handle in r.table
    ensures var t := AfterAsyncCallback(s, r.table[handle], correlator, data);
            var inv := t.invoked[|t.invoked| - 1];
            && |t.invoked| == |s.invoked| + 1
            && inv.func == r.table[handle].func && inv.context == r.table[handle].context
            && inv.correlator == correlator && inv.data == Some(data)
  {
  }

  /**
   * In scheduled mode nothing is invoked: one event is queued, holding the
   * client's registered function and context with the correlator and data of
   * this request, at priority 1.
   */
  lemma DeferredDelivery(s: HandlerState, r: Registry, handle: nat, correlator: nat, data: CallbackData)
    requires s.eventSchedule && handle in r.table
    ensures var t := AfterAsyncCallback(s, r.table[handle], correlator, data);
            var ev := t.scheduled[|t.scheduled| - 1];
            && t.invoked == s.invoked
            && t.scheduled == s.scheduled + [ev]
            && ev.priority == 1
            && ev.callback.func == r.table[handle].func && ev.callback.context == r.table[handle].context
            && ev.callback.correlator == correlator && ev.callback.data == Some(data)
  {
  }

  /** The CallBackHandler singleton. */
  class CallBackHandler {
    var eventSchedule: bool
    var scheduled: seq<ScheduledEvent>
    var invoked: seq<Invocation>

    function State(): HandlerState
      reads this
    {
      HandlerState(eventSchedule, scheduled, invoked)
    }

    /** The handler starts in immediate mode. */
    constructor ()
      ensures State() == HandlerState(false, [], [])
    {
      eventSchedule := false;
      scheduled := [];
      invoked := [];
    }

    /** setCallbackModeAsync: later deliveries go to the event scheduler. */
    method SetCallbackModeAsync()
      modifies this
      ensures State() == old(State()).(eventSchedule := true)
    {
      eventSchedule := true;
    }

    /**
     * AsyncCallback. The source dereferences the retrieved entry without a null
     * check, so the handle must be registered.
     */
    method AsyncCallback(manager: CallBackManager, cbHandle: nat, cbCorrelator: nat, data: CallbackData)
      requires cbHandle in manager.table
      modifies this
      ensures State() == AfterAsyncCallback(old(State()), manager.table[cbHandle], cbCorrelator, data)
    {
      var stored := manager.RetrieveCallback(cbHandle);
      var callback := stored.value;
      callback := callback.(correlator := cbCorrelator, data := Some(data));
      if eventSchedule {
        scheduled := scheduled + [ScheduledEvent(callback, 1)];
      } else {
        invoked := invoked + [Fire(callback)];
      }
    }
  }
}
