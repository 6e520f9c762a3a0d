/**
 * The CallBackManager: a handle counter and a table from callback handles to
 * registered (context, func) pairs, with capacity _ATM_FAPI_SIM_CB_HANDLE_MAX.
 *
 * The registry's behaviour is specified on the value `Registry` by the ghost
 * functions Register and Deregister; the class's methods are proved to compute
 * them, and the lemmas state what a client can rely on.
 */
module CallbackRegistry {
  import opened Wrappers
  import opened AtmTypes
  import opened Callback

  /** The state of a CallBackManager: m_handleID and m_callbackTable. */
  datatype Registry = Registry(handleID: nat, table: map<nat, CallBack>)

  /** The registry as it is constructed: counter 1, no entries. */
  const InitialRegistry := Registry(1, map[])

  predicate IsRegistration(cb: CallBack, context: nat, func: FuncRef) {
    cb.context == context && cb.func == func
  }

  /** Some handle holds the pair (context, func). */
  predicate Registered(r: Registry, context: nat, func: FuncRef) {
    exists h :: h in r.table && IsRegistration(r.table[h], context, func)
  }

  /**
   * The invariant of the registry: at most _ATM_FAPI_SIM_CB_HANDLE_MAX entries,
   * the counter above the number of entries (so it never wraps below zero),
   * each pair registered under one handle only, entries as constructed.
   */
  ghost predicate RegistryValid(r: Registry) {
    && |r.table| <= MAX_CALLBACKS
    && |r.table| < r.handleID
    && (forall h1, h2 :: h1 in r.table && h2 in r.table && h1 != h2 ==>
          !IsRegistration(r.table[h2], r.table[h1].context, r.table[h1].func))
    && (forall h :: h in r.table ==> r.table[h] == NewCallBack(r.table[h].context, r.table[h].func))
  }

  datatype RegisterResult = RegisterResult(after: Registry, err: NpfError, handle: Option<nat>)

  /**
   * RegisterCallBack. A pair already registered returns its handle with
   * RESOURCE_EXISTS; a full table returns E_UNKNOWN; otherwise the entry is
   * inserted under the counter (std::map::insert leaves a live key untouched),
   * the counter is returned as the handle and incremented.
   */
  ghost function Register(r: Registry, context: nat, func: FuncRef): (res: RegisterResult)
    ensures res.err == ResourceExists <==> Registered(r, context, func)
    ensures res.err == ResourceExists ==>
              res.after == r && res.handle.Some? && res.handle.value in r.table
              && IsRegistration(r.table[res.handle.value], context, func)
    ensures res.err == Unknown <==> !Registered(r, context, func) && |r.table| == MAX_CALLBACKS
    ensures res.err == Unknown ==> res.after == r && res.handle.None?
    ensures res.err == NoError <==> !Registered(r, context, func) && |r.table| != MAX_CALLBACKS
    ensures res.err == NoError ==>
              && res.handle == Some(r.handleID)
              && res.after.handleID == r.handleID + 1
              && res.after.table.Keys == r.table.Keys + {r.handleID}
              && (r.handleID !in r.table ==> res.after.table[r.handleID] == NewCallBack(context, func))
              && (forall h :: h in r.table ==> res.after.table[h] == r.table[h])
  {
    if Registered(r, context, func) then
      var h :| h in r.table && IsRegistration(r.table[h], context, func);
      RegisterResult(r, ResourceExists, Some(h))
    else if |r.table| == MAX_CALLBACKS then
      RegisterResult(r, Unknown, None)
    else
      var table := if r.handleID in r.table then r.table else r.table[r.handleID := NewCallBack(context, func)];
      RegisterResult(Registry(r.handleID + 1, table), NoError, Some(r.handleID))
  }

  /**
   * DeRegisterCallBack: a handle above _ATM_FAPI_SIM_CB_HANDLE_MAX or not in the
   * table is BAD_CALLBACK_HANDLE; otherwise the entry is erased and the counter
   * decremented.
   */
  ghost function Deregister(r: Registry, handle: nat): (res: (Registry, NpfError))
    requires RegistryValid(r)
    ensures res.1 == NoError <==> handle <= MAX_CALLBACKS && handle in r.table
    ensures res.1 != NoError ==> res.1 == BadCallbackHandle && res.0 == r
    ensures res.1 == NoError ==> res.0.table == r.table - {handle} && res.0.handleID + 1 == r.handleID
  {
    if handle > MAX_CALLBACKS || handle !in r.table then (r, BadCallbackHandle)
    else (Registry(r.handleID - 1, r.table - {handle}), NoError)
  }

  /** Registering keeps the registry invariant. */
  lemma RegisterValid(r: Registry, context: nat, func: FuncRef)
    requires RegistryValid(r)
    ensures RegistryValid(Register(r, context, func).after)
  {
    var res := Register(r, context, func);
    if res.err == NoError && r.handleID !in r.table {
      var t := res.after.table;
      assert t.Keys == r.table.Keys + {r.handleID};
      assert |t.Keys| == |r.table.Keys| + 1;
      forall h1, h2 | h1 in t && h2 in t && h1 != h2
        ensures !IsRegistration(t[h2], t[h1].context, t[h1].func)
      {
        if h1 == r.handleID {
          assert !IsRegistration(r.table[h2], context, func);
        } else if h2 == r.handleID {
          assert !IsRegistration(r.table[h1], context, func);
        }
      }
    }
  }

  /** In a valid registry the handle holding a registered pair is the one Register reports. */
  lemma RegisterFound(r: Registry, context: nat, func: FuncRef, h: nat)
    requires RegistryValid(r) && h in r.table && IsRegistration(r.table[h], context, func)
    ensures Register(r, context, func) == RegisterResult(r, ResourceExists, Some(h))
  {
  }

  /** An unregistered pair is inserted under the counter unless the table is full. */
  lemma RegisterNew(r: Registry, context: nat, func: FuncRef)
    requires !Registered(r, context, func)
    ensures |r.table| == MAX_CALLBACKS ==> Register(r, context, func) == RegisterResult(r, Unknown, None)
    ensures |r.table| != MAX_CALLBACKS ==>
              var table := if r.handleID in r.table then r.table else r.table[r.handleID := NewCallBack(context, func)];
              Register(r, context, func) == RegisterResult(Registry(r.handleID + 1, table), NoError, Some(r.handleID))
  {
  }

  /** Deregistering keeps the registry invariant. */
  lemma DeregisterValid(r: Registry, handle: nat)
    requires RegistryValid(r)
    ensures RegistryValid(Deregister(r, handle).0)
  {
    if handle in r.table {
      assert r.table.Keys - {handle} == (r.table - {handle}).Keys;
      assert |(r.table - {handle}).Keys| == |r.table.Keys| - 1;
    }
  }

  /**
   * Registration is idempotent per pair: once (context, func) has been
   * registered, registering it again returns the same handle with
   * RESOURCE_EXISTS and changes nothing.
   */
  lemma RegisterTwice(r: Registry, context: nat, func: FuncRef)
    requires RegistryValid(r)
    requires Register(r, context, func).err == NoError
    requires r.handleID !in r.table
    ensures var first := Register(r, context, func);
            var second := Register(first.after, context, func);
            second.err == ResourceExists && second.handle == first.handle && second.after == first.after
  {
    var first := Register(r, context, func);
    RegisterValid(r, context, func);
    var t := first.after.table;
    assert IsRegistration(t[r.handleID], context, func);
  }

  /**
   * Handle reuse after deregistering an older handle: register (1, f1) and
   * (2, f2), deregister handle 1, then register (3, f3). The counter is back at
   * 2, which is live, so the insert is skipped, yet handle 2 is returned with
   * NO_ERROR; the handle still retrieves (2, f2) and (3, f3) is not stored.
   */
  lemma {:induction false} HandleReuse()
    ensures var r1 := Register(InitialRegistry, 1, 1);
            var r2 := Register(r1.after, 2, 2);
            var d := Deregister(r2.after, 1);
            var r3 := Register(d.0, 3, 3);
            && r1.handle == Some(1) && r2.handle == Some(2) && d.1 == NoError
            && r3.err == NoError && r3.handle == Some(2)
            && r3.after.table[2] == NewCallBack(2, 2)
            && !Registered(r3.after, 3, 3)
  {
    var r1 := Register(InitialRegistry, 1, 1);
    assert !Registered(InitialRegistry, 1, 1);
    assert r1.after == Registry(2, map[1 := NewCallBack(1, 1)]);
    var r2 := Register(r1.after, 2, 2);
    assert !Registered(r1.after, 2, 2) by {
      assert r1.after.table.Keys == {1};
    }
    assert |r1.after.table| == 1;
    assert r2.after == Registry(3, map[1 := NewCallBack(1, 1), 2 := NewCallBack(2, 2)]);
    var d := Deregister(r2.after, 1);
    assert RegistryValid(r2.after) by {
      assert r2.after.table.Keys == {1, 2};
    }
    assert d.0 == Registry(2, map[2 := NewCallBack(2, 2)]);
    assert !Registered(d.0, 3, 3) by {
      assert d.0.table.Keys == {2};
    }
    assert |d.0.table| == 1;
    var r3 := Register(d.0, 3, 3);
    assert r3.after == Registry(3, map[2 := NewCallBack(2, 2)]);
    assert r3.after.table.Keys == {2};
  }

  /** The CallBackManager singleton. */
  class CallBackManager {
    var handleID: nat
    var table: map<nat, CallBack>

    function State(): Registry
      reads this
    {
      Registry(handleID, table)
    }

    ghost predicate Valid()
      reads this
    {
      RegistryValid(State())
    }

    constructor ()
      ensures State() == InitialRegistry && Valid()
    {
      handleID := 1;
      table := map[];
    }

    /** RegisterCallBack: the duplicate scan, the capacity check, then insert under the counter. */
    method RegisterCallBack(context: nat, func: FuncRef) returns (err: NpfError, handle: Option<nat>)
      requires Valid()
      modifies this
      ensures Valid()
      ensures (State(), err, handle) == (var res := Register(old(State()), context, func); (res.after, res.err, res.handle))
    {
      RegisterValid(State(), context, func);
      ghost var res := Register(State(), context, func);
      var keys := table.Keys;
      while keys != {}
        invariant keys <= table.Keys
        invariant forall h :: h in table && h !in keys ==> !IsRegistration(table[h], context, func)
        decreases |keys|
      {
        var h :| h in keys;
        if table[h].context == context && table[h].func == func {
          RegisterFound(State(), context, func, h);
          return ResourceExists, Some(h);
        }
        keys := keys - {h};
      }
      RegisterNew(State(), context, func);
      if |table| == MAX_CALLBACKS {
        return Unknown, None;
      }
      assert res.after.table == if handleID in table then table else table[handleID := NewCallBack(context, func)];
      if handleID !in table {
        table := table[handleID := NewCallBack(context, func)];
      }
      handle := Some(handleID);
      handleID := handleID + 1;
      err := NoError;
      assert State() == res.after;
    }

    /** DeRegisterCallBack */
    method DeRegisterCallBack(cbHandle: nat) returns (err: NpfError)
      requires Valid()
      modifies this
      ensures Valid()
      ensures (State(), err) == Deregister(old(State()), cbHandle)
    {
      DeregisterValid(State(), cbHandle);
      ghost var res := Deregister(State(), cbHandle);
      if cbHandle > MAX_CALLBACKS {
        return BadCallbackHandle;
      }
      if cbHandle !in table {
        return BadCallbackHandle;
      }
      table := table - {cbHandle};
      handleID := handleID - 1;
      err := NoError;
      assert State() == res.0;
    }

    /** RetrieveCallback: the stored entry, or None for the null pointer. */
    method RetrieveCallback(cbHandle: nat) returns (cb: Option<CallBack>)
      ensures cb.Some? <==> cbHandle in table
      ensures cb.Some? ==> cb.value == table[cbHandle]
    {
      if cbHandle in table {
        cb := Some(table[cbHandle]);
      } else {
        cb := None;
      }
    }
  }
}
