/**
 * The NPF ATM configuration-manager records exchanged between the facade,
 * the resource table, the callback registry and the dispatcher.
 * Only the fields the simulator reads or writes are modelled.
 */
module AtmTypes {
  import opened Wrappers

  /** _ATM_FAPI_SIM_CB_HANDLE_MAX: the largest callback handle and the registry capacity. */
  const MAX_CALLBACKS: nat := 10

  /** The NPF error codes that the simulator returns or records. */
  datatype NpfError =
    | NoError
    | BadCallbackHandle
    | BadCallbackFunction
    | ResourceExists
    | ResourceNonexistent
    | InvalidAttribute
    | InvalidVcAddress
    | ContObjsExist
    | FeatureNotSupp
    | Unknown

  /** An interface type as the client passes it: UNI, NNI or any other raw enum value. */
  datatype IfType = Uni | Nni | OtherIfType(raw: int)

  predicate ValidIfType(t: IfType) {
    t.Uni? || t.Nni?
  }

  /** NPF_F_ATM_ConfigMgr_IfCfg_t */
  datatype IfCfg = IfCfg(ifID: nat, ifType: IfType)

  /** A cross-connect type: the four NPF values or any other raw enum value. */
  datatype XcType = ExtToExt | ExtToInt | ExtToBack | BackToInt | OtherXcType(raw: int)

  predicate ValidXcType(t: XcType) {
    !t.OtherXcType?
  }

  /** NPF_F_ATM_ConfigMgr_VcLinkXcInfo_t: one end of a cross-connect as seen from a VC. */
  datatype XcInfo = XcInfo(vcXcId: nat, xcType: XcType, mapVcLink: nat)

  /**
   * NPF_F_ATM_ConfigMgr_Vc_t. `linkB` stands for the `link_B` pointer (None is the
   * null pointer, Some its first element); `numLinkB` is `numLink_B`.
   */
  datatype Vc = Vc(vcLinkId: nat, ifId: nat, vpi: nat, vci: nat, numLinkB: nat, linkB: Option<XcInfo>)

  /** NPF_F_ATM_ConfigMgr_VcLinkXc_t, of which the simulator reads `link_A` and `link_B[0]`. */
  datatype VcLinkXc = VcLinkXc(linkA: nat, numLinkB: nat, linkB: XcInfo)

  /** The object a response is about: an interface id, a VC link id (type VC_LINK) or a cross-connect id. */
  datatype ObjId = IfObj(ifID: nat) | VcLinkObj(linkId: nat) | XcObj(vcXcId: nat)

  /** NPF_F_ATM_ConfigMgr_AsyncResponse_t */
  datatype AsyncResponse = AsyncResponse(error: NpfError, objId: ObjId)

  /** The request type recorded in the callback data. */
  datatype OpType = IfSetOp | IfDeleteOp | VcSetOp | XcSetOp

  /**
   * NPF_F_ATM_ConfigMgr_CallbackData_t: `resp` holds the `n_resp` responses written,
   * so `n_resp` is `|resp|`.
   */
  datatype CallbackData = CallbackData(op: OpType, allOK: bool, resp: seq<AsyncResponse>)

  /** NPF_errorReporting_t: the three policies or any other raw value. */
  datatype ErrorReporting = ReportAll | ReportNone | ReportErrors | OtherReporting(raw: int)

  /** True iff no response in the batch records a failure. */
  predicate AllNoError(resp: seq<AsyncResponse>) {
    forall i :: 0 <= i < |resp| ==> resp[i].error == NoError
  }
}
