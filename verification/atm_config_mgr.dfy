/**
 * The ATM configuration-manager facade: the six entry points a client calls.
 * Each batch entry point validates the callback handle and the array, runs the
 * TableManager operation, then applies the error-reporting policy to decide
 * whether the response batch is delivered to the client.
 */
module AtmConfigMgr {
  import opened Wrappers
  import opened AtmTypes
  import opened Callback
  import opened CallbackRegistry
  import opened CallbackDispatch
  import opened AtmTable

  /** A handle the batch entry points accept: within the handle range and registered. */
  predicate HandleUsable(r: Registry, cbHandle: nat) {
    cbHandle <= MAX_CALLBACKS && cbHandle in r.table
  }

  /**
   * The reporting policy: REPORT_ALL always delivers, REPORT_ERRORS delivers
   * only when some entry failed, REPORT_NONE and unknown values never do.
   */
  predicate ShouldDispatch(reporting: ErrorReporting, ok: bool) {
    reporting.ReportAll? || (reporting.ReportErrors? && !ok)
  }

  /** The value a batch entry point returns once the table operation has run. */
  function ReportingResult(reporting: ErrorReporting): (err: NpfError)
    ensures err == NoError <==> !reporting.OtherReporting?
    ensures err != NoError ==> err == Unknown
  {
    if reporting.OtherReporting? then Unknown else NoError
  }

  /** The handler's state after the reporting policy has been applied to a batch. */
  function Reported(s: HandlerState, r: Registry, cbHandle: nat, cbCorrelator: nat,
                    reporting: ErrorReporting, data: CallbackData): HandlerState
    requires cbHandle in r.table
  {
    if ShouldDispatch(reporting, data.allOK) then AfterAsyncCallback(s, r.table[cbHandle], cbCorrelator, data) else s
  }

  /**
   * Under REPORT_ERRORS a batch whose every entry succeeded is not delivered,
   * and a batch with a failure is delivered exactly once; REPORT_NONE never
   * delivers.
   */
  lemma ReportingPolicy(s: HandlerState, r: Registry, cbHandle: nat, cbCorrelator: nat,
                        reporting: ErrorReporting, data: CallbackData)
    requires cbHandle in r.table
    ensures var t := Reported(s, r, cbHandle, cbCorrelator, reporting, data);
            && (reporting.ReportNone? || reporting.OtherReporting? ==> t == s)
            && (reporting.ReportErrors? && data.allOK ==> t == s)
            && (reporting.ReportAll? || (reporting.ReportErrors? && !data.allOK) ==>
                  |t.scheduled| + |t.invoked| == |s.scheduled| + |s.invoked| + 1)
  {
  }

  /** The switch on errorReporting shared by the four batch entry points. */
  method Report(manager: CallBackManager, handler: CallBackHandler, cbHandle: nat, cbCorrelator: nat,
                reporting: ErrorReporting, data: CallbackData) returns (err: NpfError)
    requires cbHandle in manager.table
    modifies handler
    ensures handler.State() == Reported(old(handler.State()), manager.State(), cbHandle, cbCorrelator, reporting, data)
    ensures err == ReportingResult(reporting)
  {
    var errorReportValid: bool;
    match reporting {
      case ReportAll =>
        handler.AsyncCallback(manager, cbHandle, cbCorrelator, data);
        errorReportValid := true;
      case ReportNone =>
        errorReportValid := true;
      case ReportErrors =>
        if !data.allOK {
          handler.AsyncCallback(manager, cbHandle, cbCorrelator, data);
        }
        errorReportValid := true;
      case OtherReporting(_) =>
        errorReportValid := false;
    }
    err := if errorReportValid then NoError else Unknown;
  }

  /** NPF_F_ATM_ConfigMgr_Register: null function, then null handle pointer, then the registry. */
  method Register(manager: CallBackManager, context: nat, callbackFunc: Option<FuncRef>, handlePtr: bool)
    returns (err: NpfError, handle: Option<nat>)
    requires manager.Valid()
    modifies manager
    ensures manager.Valid()
    ensures callbackFunc.None? ==> err == BadCallbackFunction && handle.None? && manager.State() == old(manager.State())
    ensures callbackFunc.Some? && !handlePtr ==> err == Unknown && handle.None? && manager.State() == old(manager.State())
    ensures callbackFunc.Some? && handlePtr ==>
              var res := CallbackRegistry.Register(old(manager.State()), context, callbackFunc.value);
              manager.State() == res.after && err == res.err && handle == res.handle
  {
    if callbackFunc.None? {
      return BadCallbackFunction, None;
    }
    if !handlePtr {
      return Unknown, None;
    }
    err, handle := manager.RegisterCallBack(context, callbackFunc.value);
  }

  /** NPF_F_ATM_ConfigMgr_Deregister */
  method Deregister(manager: CallBackManager, callbackHandle: nat) returns (err: NpfError)
    requires manager.Valid()
    modifies manager
    ensures manager.Valid()
    ensures (manager.State(), err) == CallbackRegistry.Deregister(old(manager.State()), callbackHandle)
  {
    err := manager.DeRegisterCallBack(callbackHandle);
  }

  /** NPF_F_ATM_ConfigMgr_IfSet */
  method IfSet(manager: CallBackManager, tables: TableManager, handler: CallBackHandler,
               cbHandle: nat, cbCorrelator: nat, reporting: ErrorReporting, cfgArray: Option<seq<IfCfg>>)
    returns (err: NpfError)
    modifies tables, handler
    ensures !HandleUsable(manager.State(), cbHandle) ==>
              err == BadCallbackHandle && unchanged(tables) && unchanged(handler)
    ensures HandleUsable(manager.State(), cbHandle) && (cfgArray.None? || |cfgArray.value| == 0) ==>
              err == Unknown && unchanged(tables) && unchanged(handler)
    ensures HandleUsable(manager.State(), cbHandle) && cfgArray.Some? && |cfgArray.value| > 0 ==>
              var after := AddIfs(old(tables.ifTable), cfgArray.value);
              var data := CallbackData(IfSetOp, AllNoError(after.1), after.1);
              && tables.ifTable == after.0 && tables.vcTable == old(tables.vcTable) && tables.xcTable == old(tables.xcTable)
              && |data.resp| == |cfgArray.value|
              && handler.State() == Reported(old(handler.State()), manager.State(), cbHandle, cbCorrelator, reporting, data)
              && err == ReportingResult(reporting)
    ensures TableValid(old(tables.ifTable), old(tables.vcTable), old(tables.xcTable)) ==>
              TableValid(tables.ifTable, tables.vcTable, tables.xcTable)
  {
    if cbHandle > MAX_CALLBACKS || cbHandle !in manager.table {
      return BadCallbackHandle;
    }
    if cfgArray.None? || |cfgArray.value| == 0 {
      return Unknown;
    }
    ghost var before := (tables.ifTable, tables.vcTable, tables.xcTable);
    var ok, data := tables.AddATMIf(cfgArray.value);
    AddIfsLength(before.0, cfgArray.value);
    if TableValid(before.0, before.1, before.2) {
      AddIfsValid(before.0, before.1, before.2, cfgArray.value);
    }
    err := Report(manager, handler, cbHandle, cbCorrelator, reporting, data);
  }

  /** NPF_F_ATM_ConfigMgr_IfDelete: deleting contained objects is not supported. */
  method IfDelete(manager: CallBackManager, tables: TableManager, handler: CallBackHandler,
                  cbHandle: nat, cbCorrelator: nat, reporting: ErrorReporting, delContainedObjs: bool,
                  delArray: Option<seq<nat>>)
    returns (err: NpfError)
    modifies tables, handler
    ensures !HandleUsable(manager.State(), cbHandle) ==>
              err == BadCallbackHandle && unchanged(tables) && unchanged(handler)
    ensures HandleUsable(manager.State(), cbHandle) && (delArray.None? || |delArray.value| == 0) ==>
              err == Unknown && unchanged(tables) && unchanged(handler)
    ensures HandleUsable(manager.State(), cbHandle) && delArray.Some? && |delArray.value| > 0 && delContainedObjs ==>
              err == FeatureNotSupp && unchanged(tables) && unchanged(handler)
    ensures HandleUsable(manager.State(), cbHandle) && delArray.Some? && |delArray.value| > 0 && !delContainedObjs ==>
              var after := DeleteIfs(old(tables.ifTable), old(tables.vcTable), delArray.value);
              var data := CallbackData(IfDeleteOp, AllNoError(after.1), after.1);
              && tables.ifTable == after.0 && tables.vcTable == old(tables.vcTable) && tables.xcTable == old(tables.xcTable)
              && |data.resp| == |delArray.value|
              && handler.State() == Reported(old(handler.State()), manager.State(), cbHandle, cbCorrelator, reporting, data)
              && err == ReportingResult(reporting)
    ensures TableValid(old(tables.ifTable), old(tables.vcTable), old(tables.xcTable)) ==>
              TableValid(tables.ifTable, tables.vcTable, tables.xcTable)
  {
    if cbHandle > MAX_CALLBACKS || cbHandle !in manager.table {
      return BadCallbackHandle;
    }
    if delArray.None? || |delArray.value| == 0 {
      return Unknown;
    }
    if delContainedObjs {
      return FeatureNotSupp;
    }
    ghost var before := (tables.ifTable, tables.vcTable, tables.xcTable);
    var ok, data := tables.DeleteIf(delArray.value);
    DeleteIfsLength(before.0, before.1, delArray.value);
    if TableValid(before.0, before.1, before.2) {
      DeleteIfsValid(before.0, before.1, before.2, delArray.value);
    }
    err := Report(manager, handler, cbHandle, cbCorrelator, reporting, data);
  }

  /** NPF_F_ATM_ConfigMgr_VcSet */
  method VcSet(manager: CallBackManager, tables: TableManager, handler: CallBackHandler,
               cbHandle: nat, cbCorrelator: nat, reporting: ErrorReporting, cfgArray: Option<seq<Vc>>)
    returns (err: NpfError)
    modifies tables, handler
    ensures !HandleUsable(manager.State(), cbHandle) ==>
              err == BadCallbackHandle && unchanged(tables) && unchanged(handler)
    ensures HandleUsable(manager.State(), cbHandle) && (cfgArray.None? || |cfgArray.value| == 0) ==>
              err == Unknown && unchanged(tables) && unchanged(handler)
    ensures HandleUsable(manager.State(), cbHandle) && cfgArray.Some? && |cfgArray.value| > 0 ==>
              var after := AddVcs(old(tables.ifTable), old(tables.vcTable), cfgArray.value);
              var data := CallbackData(VcSetOp, after.1 == [], after.1);
              && tables.vcTable == after.0 && tables.ifTable == old(tables.ifTable) && tables.xcTable == old(tables.xcTable)
              && handler.State() == Reported(old(handler.State()), manager.State(), cbHandle, cbCorrelator, reporting, data)
              && err == ReportingResult(reporting)
    ensures TableValid(old(tables.ifTable), old(tables.vcTable), old(tables.xcTable)) ==>
              TableValid(tables.ifTable, tables.vcTable, tables.xcTable)
  {
    if cbHandle > MAX_CALLBACKS || cbHandle !in manager.table {
      return BadCallbackHandle;
    }
    if cfgArray.None? || |cfgArray.value| == 0 {
      return Unknown;
    }
    ghost var before := (tables.ifTable, tables.vcTable, tables.xcTable);
    var ok, data := tables.AddATMVC(cfgArray.value);
    if TableValid(before.0, before.1, before.2) {
      AddVcsValid(before.0, before.1, before.2, cfgArray.value);
    }
    err := Report(manager, handler, cbHandle, cbCorrelator, reporting, data);
  }

  /** NPF_F_ATM_ConfigMgr_VcLinkXcSet */
  method VcLinkXcSet(manager: CallBackManager, tables: TableManager, handler: CallBackHandler,
                     cbHandle: nat, cbCorrelator: nat, reporting: ErrorReporting, vcLinkXc: Option<seq<VcLinkXc>>)
    returns (err: NpfError)
    modifies tables, handler
    ensures !HandleUsable(manager.State(), cbHandle) ==>
              err == BadCallbackHandle && unchanged(tables) && unchanged(handler)
    ensures HandleUsable(manager.State(), cbHandle) && (vcLinkXc.None? || |vcLinkXc.value| == 0) ==>
              err == Unknown && unchanged(tables) && unchanged(handler)
    ensures HandleUsable(manager.State(), cbHandle) && vcLinkXc.Some? && |vcLinkXc.value| > 0 ==>
              var after := AddXcs(old(tables.vcTable), old(tables.xcTable), vcLinkXc.value);
              var data := CallbackData(XcSetOp, after.2 == [], after.2);
              && tables.vcTable == after.0 && tables.xcTable == after.1 && tables.ifTable == old(tables.ifTable)
              && handler.State() == Reported(old(handler.State()), manager.State(), cbHandle, cbCorrelator, reporting, data)
              && err == ReportingResult(reporting)
    ensures TableValid(old(tables.ifTable), old(tables.vcTable), old(tables.xcTable)) ==>
              TableValid(tables.ifTable, tables.vcTable, tables.xcTable)
  {
    if cbHandle > MAX_CALLBACKS || cbHandle !in manager.table {
      return BadCallbackHandle;
    }
    if vcLinkXc.None? || |vcLinkXc.value| == 0 {
      return Unknown;
    }
    ghost var before := (tables.ifTable, tables.vcTable, tables.xcTable);
    var ok, data := tables.AddATMXC(vcLinkXc.value);
    if TableValid(before.0, before.1, before.2) {
      AddXcsValid(before.0, before.1, before.2, vcLinkXc.value);
    }
    err := Report(manager, handler, cbHandle, cbCorrelator, reporting, data);
  }
}
