/**
 * The TableManager of the ATM configuration simulator: three maps (interfaces,
 * VCs, cross-connects) and four batch operations that check referential
 * integrity entry by entry and fill a response batch.
 *
 * Each batch operation is specified by a step function (one loop iteration)
 * and a batch function defined on the prefix of entries already processed;
 * the methods of class TableManager are proved to compute the batch function.
 */
module AtmTable {
  import opened Wrappers
  import opened AtmTypes

  type IfTable = map<nat, IfCfg>
  type VcTable = map<nat, Vc>
  type XcTable = map<nat, VcLinkXc>

  // ------------------------------------------------------------------
  // AddATMIf
  // ------------------------------------------------------------------

  /** One iteration of AddATMIf: type check, then insert keyed by ifID unless present. */
  function IfSetStep(ifs: IfTable, e: IfCfg): (IfTable, AsyncResponse)
  {
    if !ValidIfType(e.ifType) then (ifs, AsyncResponse(InvalidAttribute, IfObj(e.ifID)))
    else if e.ifID in ifs then (ifs, AsyncResponse(ResourceExists, IfObj(e.ifID)))
    else (ifs[e.ifID := e], AsyncResponse(NoError, IfObj(e.ifID)))
  }

  /** The interface table and the responses after AddATMIf has processed `es` in order. */
  function AddIfs(ifs: IfTable, es: seq<IfCfg>): (IfTable, seq<AsyncResponse>)
    decreases |es|
  {
    if es == [] then (ifs, [])
    else
      var prev := AddIfs(ifs, es[..|es| - 1]);
      var step := IfSetStep(prev.0, es[|es| - 1]);
      (step.0, prev.1 + [step.1])
  }

  /** AddATMIf writes exactly one response per input entry. */
  lemma {:induction false} AddIfsLength(ifs: IfTable, es: seq<IfCfg>)
    ensures |AddIfs(ifs, es).1| == |es|
    decreases |es|
  {
    if es != [] {
      AddIfsLength(ifs, es[..|es| - 1]);
    }
  }

  /**
   * Response `i` is about entry `i`'s ifID, and its code is decided by the table
   * as left by the entries before it.
   */
  lemma {:induction false} AddIfsEntry(ifs: IfTable, es: seq<IfCfg>, i: nat)
    requires i < |es|
    ensures |AddIfs(ifs, es).1| == |es|
    ensures var before := AddIfs(ifs, es[..i]).0;
            var r := AddIfs(ifs, es).1[i];
            && r.objId == IfObj(es[i].ifID)
            && (r.error == InvalidAttribute <==> !ValidIfType(es[i].ifType))
            && (r.error == ResourceExists <==> ValidIfType(es[i].ifType) && es[i].ifID in before)
            && (r.error == NoError <==> ValidIfType(es[i].ifType) && es[i].ifID !in before)
    decreases |es|
  {
    var n := |es| - 1;
    AddIfsLength(ifs, es);
    AddIfsLength(ifs, es[..n]);
    if i < n {
      AddIfsEntry(ifs, es[..n], i);
      assert es[..n][..i] == es[..i];
    } else {
      assert es[..i] == es[..n];
    }
  }

  /**
   * AddATMIf never overwrites a stored interface; the ids it adds are exactly
   * those of the well-typed entries not already present, each stored verbatim.
   */
  lemma {:induction false} AddIfsTable(ifs: IfTable, es: seq<IfCfg>)
    ensures var t := AddIfs(ifs, es).0;
            && (forall k :: k in ifs ==> k in t && t[k] == ifs[k])
            && (forall k :: k in t <==> k in ifs || exists j :: 0 <= j < |es| && es[j].ifID == k && ValidIfType(es[j].ifType))
            && (forall k :: k in t && k !in ifs ==> t[k] in es && t[k].ifID == k)
    decreases |es|
  {
    if es != [] {
      var n := |es| - 1;
      AddIfsTable(ifs, es[..n]);
      var t0 := AddIfs(ifs, es[..n]).0;
      var t := AddIfs(ifs, es).0;
      forall k | k in t
        ensures k in ifs || exists j :: 0 <= j < |es| && es[j].ifID == k && ValidIfType(es[j].ifType)
      {
        if k !in t0 {
          assert k == es[n].ifID && ValidIfType(es[n].ifType);
        } else if k !in ifs {
          var j :| 0 <= j < n && es[..n][j].ifID == k && ValidIfType(es[..n][j].ifType);
          assert es[j] == es[..n][j];
        }
      }
      forall k | k in ifs || exists j :: 0 <= j < |es| && es[j].ifID == k && ValidIfType(es[j].ifType)
        ensures k in t
      {
        if k !in ifs {
          var j :| 0 <= j < |es| && es[j].ifID == k && ValidIfType(es[j].ifType);
          if j < n {
            assert es[..n][j] == es[j];
          }
        }
      }
      forall k | k in t && k !in ifs
        ensures t[k] in es && t[k].ifID == k
      {
        if k in t0 {
          assert t0[k] in es[..n];
        }
      }
    }
  }

  // ------------------------------------------------------------------
  // DeleteIf
  // ------------------------------------------------------------------

  /** Some VC refers to interface `id`. */
  predicate HasSubObjects(vcs: VcTable, id: nat) {
    exists k :: k in vcs && vcs[k].ifId == id
  }

  /** One iteration of DeleteIf: refuse while a VC refers to the interface, else erase it. */
  function DeleteIfStep(ifs: IfTable, vcs: VcTable, id: nat): (IfTable, AsyncResponse)
  {
    if HasSubObjects(vcs, id) then (ifs, AsyncResponse(ContObjsExist, IfObj(id)))
    else if id in ifs then (ifs - {id}, AsyncResponse(NoError, IfObj(id)))
    else (ifs, AsyncResponse(ResourceNonexistent, IfObj(id)))
  }

  /** The interface table and the responses after DeleteIf has processed `ids` in order. */
  function DeleteIfs(ifs: IfTable, vcs: VcTable, ids: seq<nat>): (IfTable, seq<AsyncResponse>)
    decreases |ids|
  {
    if ids == [] then (ifs, [])
    else
      var prev := DeleteIfs(ifs, vcs, ids[..|ids| - 1]);
      var step := DeleteIfStep(prev.0, vcs, ids[|ids| - 1]);
      (step.0, prev.1 + [step.1])
  }

  /**
   * DeleteIf writes one response per id, in order, tagged with that id; its code
   * is decided by the VC table and by the interfaces left by the ids before it.
   */
  lemma {:induction false} DeleteIfsEntry(ifs: IfTable, vcs: VcTable, ids: seq<nat>, i: nat)
    requires i < |ids|
    ensures |DeleteIfs(ifs, vcs, ids).1| == |ids|
    ensures var before := DeleteIfs(ifs, vcs, ids[..i]).0;
            var r := DeleteIfs(ifs, vcs, ids).1[i];
            && r.objId == IfObj(ids[i])
            && (r.error == ContObjsExist <==> HasSubObjects(vcs, ids[i]))
            && (r.error == ResourceNonexistent <==> !HasSubObjects(vcs, ids[i]) && ids[i] !in before)
            && (r.error == NoError <==> !HasSubObjects(vcs, ids[i]) && ids[i] in before)
    decreases |ids|
  {
    var n := |ids| - 1;
    DeleteIfsLength(ifs, vcs, ids);
    DeleteIfsLength(ifs, vcs, ids[..n]);
    if i < n {
      DeleteIfsEntry(ifs, vcs, ids[..n], i);
      assert ids[..n][..i] == ids[..i];
    } else {
      assert ids[..i] == ids[..n];
    }
  }

  lemma {:induction false} DeleteIfsLength(ifs: IfTable, vcs: VcTable, ids: seq<nat>)
    ensures |DeleteIfs(ifs, vcs, ids).1| == |ids|
    decreases |ids|
  {
    if ids != [] {
      DeleteIfsLength(ifs, vcs, ids[..|ids| - 1]);
    }
  }

  /**
   * DeleteIf removes exactly the listed interfaces that no VC refers to, and
   * leaves every other interface as it was.
   */
  lemma {:induction false} DeleteIfsTable(ifs: IfTable, vcs: VcTable, ids: seq<nat>)
    ensures var t := DeleteIfs(ifs, vcs, ids).0;
            && (forall k :: k in t <==> k in ifs && (k !in ids || HasSubObjects(vcs, k)))
            && (forall k :: k in t ==> t[k] == ifs[k])
    decreases |ids|
  {
    if ids != [] {
      var n := |ids| - 1;
      DeleteIfsTable(ifs, vcs, ids[..n]);
      assert ids == ids[..n] + [ids[n]];
      forall k ensures k in ids <==> k in ids[..n] || k == ids[n] {
      }
    }
  }

  // ------------------------------------------------------------------
  // AddATMVC
  // ------------------------------------------------------------------

  /** Some stored VC has the same (ifId, vpi, vci) address as `e`. */
  predicate AddressInUse(vcs: VcTable, e: Vc) {
    exists k :: k in vcs && vcs[k].ifId == e.ifId && vcs[k].vci == e.vci && vcs[k].vpi == e.vpi
  }

  /**
   * One iteration of AddATMVC: the interface must exist (else E_UNKNOWN), the
   * address must be free and the link id unused (else INVALID_VC_ADDRESS);
   * then the entry is stored verbatim under its vcLinkId.
   */
  function VcSetStep(ifs: IfTable, vcs: VcTable, e: Vc): (VcTable, Option<NpfError>)
  {
    if e.ifId !in ifs then (vcs, Some(Unknown))
    else if AddressInUse(vcs, e) then (vcs, Some(InvalidVcAddress))
    else if e.vcLinkId in vcs then (vcs, Some(InvalidVcAddress))
    else (vcs[e.vcLinkId := e], None)
  }

  /** The VC table and the failure records after AddATMVC has processed `es` in order. */
  function AddVcs(ifs: IfTable, vcs: VcTable, es: seq<Vc>): (VcTable, seq<AsyncResponse>)
    decreases |es|
  {
    if es == [] then (vcs, [])
    else
      var e := es[|es| - 1];
      var prev := AddVcs(ifs, vcs, es[..|es| - 1]);
      var step := VcSetStep(ifs, prev.0, e);
      (step.0, if step.1.Some? then prev.1 + [AsyncResponse(step.1.value, VcLinkObj(e.vcLinkId))] else prev.1)
  }

  /** The three checks an AddATMVC entry must pass: known interface, free address, unused link id. */
  predicate VcAccepted(ifs: IfTable, vcs: VcTable, e: Vc) {
    e.ifId in ifs && !AddressInUse(vcs, e) && e.vcLinkId !in vcs
  }

  /**
   * One AddATMVC entry is stored under its own vcLinkId exactly when it passes
   * the three checks; otherwise it leaves the table as it was and fails with
   * E_UNKNOWN exactly when its interface is missing, else INVALID_VC_ADDRESS.
   */
  lemma VcSetStepFacts(ifs: IfTable, t0: VcTable, e: Vc)
    ensures var (t, r) := VcSetStep(ifs, t0, e);
            && (r.None? <==> VcAccepted(ifs, t0, e))
            && (r.None? ==> t == t0[e.vcLinkId := e] && |t| == |t0| + 1)
            && (r.Some? ==> t == t0 && (r.value == Unknown || r.value == InvalidVcAddress))
            && (r.Some? ==> (r.value == Unknown <==> e.ifId !in ifs))
            && (forall k :: k in t0 ==> k in t && t[k] == t0[k])
            && (forall k :: k in t && k !in t0 ==> t[k] == e && k == e.vcLinkId && e.ifId in ifs)
  {
    var (t, r) := VcSetStep(ifs, t0, e);
    if r.None? {
      assert t.Keys == t0.Keys + {e.vcLinkId};
    }
  }

  /** Every AddATMVC entry adds either one VC or one record. */
  lemma {:induction false} AddVcsCount(ifs: IfTable, vcs: VcTable, es: seq<Vc>)
    ensures |AddVcs(ifs, vcs, es).1| + |AddVcs(ifs, vcs, es).0| == |vcs| + |es|
    decreases |es|
  {
    if es != [] {
      var n := |es| - 1;
      AddVcsCount(ifs, vcs, es[..n]);
      VcSetStepFacts(ifs, AddVcs(ifs, vcs, es[..n]).0, es[n]);
    }
  }

  /** AddATMVC never changes a VC that was already stored. */
  lemma {:induction false} AddVcsKeeps(ifs: IfTable, vcs: VcTable, es: seq<Vc>)
    ensures forall k :: k in vcs ==> k in AddVcs(ifs, vcs, es).0 && AddVcs(ifs, vcs, es).0[k] == vcs[k]
    decreases |es|
  {
    if es != [] {
      var n := |es| - 1;
      AddVcsKeeps(ifs, vcs, es[..n]);
      VcSetStepFacts(ifs, AddVcs(ifs, vcs, es[..n]).0, es[n]);
    }
  }

  /** Each VC AddATMVC adds is an input entry on a known interface, stored under its own vcLinkId. */
  lemma {:induction false} AddVcsNew(ifs: IfTable, vcs: VcTable, es: seq<Vc>)
    ensures var t := AddVcs(ifs, vcs, es).0;
            forall k :: k in t && k !in vcs ==> t[k] in es && t[k].vcLinkId == k && t[k].ifId in ifs
    decreases |es|
  {
    if es != [] {
      var n := |es| - 1;
      var t0 := AddVcs(ifs, vcs, es[..n]).0;
      var t := AddVcs(ifs, vcs, es).0;
      AddVcsNew(ifs, vcs, es[..n]);
      VcSetStepFacts(ifs, t0, es[n]);
      forall k | k in t && k !in vcs
        ensures t[k] in es && t[k].vcLinkId == k && t[k].ifId in ifs
      {
        if k in t0 {
          assert t0[k] in es[..n];
        }
      }
    }
  }

  /** A failure record of AddATMVC: E_UNKNOWN or INVALID_VC_ADDRESS, naming the vcLinkId of one of `es`. */
  predicate RecordOfInputs(r: AsyncResponse, es: seq<Vc>) {
    && (r.error == Unknown || r.error == InvalidVcAddress)
    && exists j :: 0 <= j < |es| && r.objId == VcLinkObj(es[j].vcLinkId)
  }

  /** Each record AddATMVC returns names an input's vcLinkId with E_UNKNOWN or INVALID_VC_ADDRESS. */
  lemma {:induction false} AddVcsRecords(ifs: IfTable, vcs: VcTable, es: seq<Vc>)
    ensures forall i :: 0 <= i < |AddVcs(ifs, vcs, es).1| ==> RecordOfInputs(AddVcs(ifs, vcs, es).1[i], es)
    decreases |es|
  {
    if es != [] {
      var n := |es| - 1;
      var t0 := AddVcs(ifs, vcs, es[..n]).0;
      var rs0 := AddVcs(ifs, vcs, es[..n]).1;
      var rs := AddVcs(ifs, vcs, es).1;
      var r := VcSetStep(ifs, t0, es[n]).1;
      assert rs == if r.Some? then rs0 + [AsyncResponse(r.value, VcLinkObj(es[n].vcLinkId))] else rs0;
      AddVcsRecords(ifs, vcs, es[..n]);
      VcSetStepFacts(ifs, t0, es[n]);
      forall i | 0 <= i < |rs|
        ensures RecordOfInputs(rs[i], es)
      {
        if i < |rs0| {
          assert rs[i] == rs0[i] && RecordOfInputs(rs0[i], es[..n]);
          var j :| 0 <= j < |es[..n]| && rs0[i].objId == VcLinkObj(es[..n][j].vcLinkId);
          assert es[..n][j] == es[j];
        } else {
          assert rs[i] == AsyncResponse(r.value, VcLinkObj(es[n].vcLinkId));
        }
      }
    }
  }

  /** The record list of a prefix of the batch is a prefix of the batch's record list. */
  lemma {:induction false} AddVcsRecordsPrefix(ifs: IfTable, vcs: VcTable, es: seq<Vc>, j: nat)
    requires j <= |es|
    ensures AddVcs(ifs, vcs, es[..j]).1 <= AddVcs(ifs, vcs, es).1
    decreases |es|
  {
    if j < |es| {
      var n := |es| - 1;
      assert es[..n][..j] == es[..j];
      AddVcsRecordsPrefix(ifs, vcs, es[..n], j);
    } else {
      assert es[..j] == es;
    }
  }

  /**
   * What AddATMVC does with entry i, given the table the earlier entries left:
   * the entry is stored under its vcLinkId iff it passes the three checks, and
   * otherwise the next record, in input order, names its vcLinkId with
   * E_UNKNOWN for a missing interface and INVALID_VC_ADDRESS otherwise.
   */
  predicate VcEntryHandled(ifs: IfTable, vcs: VcTable, es: seq<Vc>, i: nat)
    requires i < |es|
  {
    var (b, rb) := AddVcs(ifs, vcs, es[..i]);
    var (a, ra) := AddVcs(ifs, vcs, es[..i + 1]);
    var e := es[i];
    && (ra == rb <==> VcAccepted(ifs, b, e))
    && (VcAccepted(ifs, b, e) ==> a == b[e.vcLinkId := e])
    && (!VcAccepted(ifs, b, e) ==>
          && a == b
          && ra == rb + [AsyncResponse(if e.ifId !in ifs then Unknown else InvalidVcAddress, VcLinkObj(e.vcLinkId))])
    && rb <= ra <= AddVcs(ifs, vcs, es).1
  }

  /** Entry i of an AddATMVC batch is stored or reported as the checks decide. */
  lemma AddVcsEntry(ifs: IfTable, vcs: VcTable, es: seq<Vc>, i: nat)
    requires i < |es|
    ensures VcEntryHandled(ifs, vcs, es, i)
  {
    var pre := es[..i + 1];
    assert pre[..|pre| - 1] == es[..i] && pre[|pre| - 1] == es[i];
    VcSetStepFacts(ifs, AddVcs(ifs, vcs, es[..i]).0, es[i]);
    AddVcsRecordsPrefix(ifs, vcs, es, i + 1);
  }

  /**
   * AddATMVC records a response only for entries that failed: every entry
   * either adds one VC or adds one record; stored VCs are never changed; each
   * added VC is an input entry stored under its own vcLinkId; each record names
   * an input's vcLinkId with E_UNKNOWN or INVALID_VC_ADDRESS; and each entry is
   * stored or reported, in order, exactly as the three checks decide.
   */
  lemma AddVcsOutcome(ifs: IfTable, vcs: VcTable, es: seq<Vc>)
    ensures var (t, rs) := AddVcs(ifs, vcs, es);
            && |rs| + |t| == |vcs| + |es|
            && (forall k :: k in vcs ==> k in t && t[k] == vcs[k])
            && (forall k :: k in t && k !in vcs ==> t[k] in es && t[k].vcLinkId == k && t[k].ifId in ifs)
            && (forall i :: 0 <= i < |rs| ==>
                  (rs[i].error == Unknown || rs[i].error == InvalidVcAddress)
                  && exists j :: 0 <= j < |es| && rs[i].objId == VcLinkObj(es[j].vcLinkId))
            && (forall i :: 0 <= i < |es| ==> VcEntryHandled(ifs, vcs, es, i))
  {
    forall i | 0 <= i < |es|
      ensures VcEntryHandled(ifs, vcs, es, i)
    {
      AddVcsEntry(ifs, vcs, es, i);
    }
    AddVcsCount(ifs, vcs, es);
    AddVcsKeeps(ifs, vcs, es);
    AddVcsNew(ifs, vcs, es);
    AddVcsRecords(ifs, vcs, es);
  }

  // ------------------------------------------------------------------
  // AddATMXC
  // ------------------------------------------------------------------

  /** The attachment AddATMXC writes into a VC: one link, to `peer`, of type EXT_TO_EXT. */
  function Attach(v: Vc, xcId: nat, peer: nat): Vc {
    v.(numLinkB := 1, linkB := Some(XcInfo(xcId, ExtToExt, peer)))
  }

  /**
   * One iteration of AddATMXC. The checks run in order and the first failure
   * decides the record; on success both VCs are attached to each other and the
   * entry is stored under link_B[0].vcXcId.
   */
  function XcSetStep(vcs: VcTable, xcs: XcTable, e: VcLinkXc): (VcTable, XcTable, Option<AsyncResponse>)
  {
    var a := e.linkA;
    var b := e.linkB.mapVcLink;
    var id := e.linkB.vcXcId;
    if !ValidXcType(e.linkB.xcType) then (vcs, xcs, Some(AsyncResponse(InvalidAttribute, VcLinkObj(a))))
    else if a == b then (vcs, xcs, Some(AsyncResponse(InvalidAttribute, VcLinkObj(a))))
    else if a !in vcs || vcs[a].numLinkB != 0 then (vcs, xcs, Some(AsyncResponse(InvalidAttribute, VcLinkObj(a))))
    else if b !in vcs || vcs[b].numLinkB != 0 then (vcs, xcs, Some(AsyncResponse(InvalidAttribute, VcLinkObj(b))))
    else if id in xcs then (vcs, xcs, Some(AsyncResponse(ResourceExists, XcObj(xcs[id].linkB.vcXcId))))
    else (vcs[a := Attach(vcs[a], id, b)][b := Attach(vcs[b], id, a)], xcs[id := e], None)
  }

  /** The VC table, the cross-connect table and the failure records after AddATMXC. */
  function AddXcs(vcs: VcTable, xcs: XcTable, es: seq<VcLinkXc>): (VcTable, XcTable, seq<AsyncResponse>)
    decreases |es|
  {
    if es == [] then (vcs, xcs, [])
    else
      var prev := AddXcs(vcs, xcs, es[..|es| - 1]);
      var step := XcSetStep(prev.0, prev.1, es[|es| - 1]);
      (step.0, step.1, if step.2.Some? then prev.2 + [step.2.value] else prev.2)
  }

  /**
   * The outcome of one AddATMXC entry: which check fails, which code and object
   * the record carries, and what success writes. A failure of the type check,
   * the A == B check or link A's checks names VC A; a failure of link B's
   * checks names VC B; an existing cross-connect id gives RESOURCE_EXISTS
   * naming the stored cross-connect.
   */
  lemma XcSetStepOutcome(vcs: VcTable, xcs: XcTable, e: VcLinkXc)
    ensures var (v, x, r) := XcSetStep(vcs, xcs, e);
            var a := e.linkA;
            var b := e.linkB.mapVcLink;
            var id := e.linkB.vcXcId;
            var failsA := !ValidXcType(e.linkB.xcType) || a == b || a !in vcs || vcs[a].numLinkB != 0;
            var failsB := b !in vcs || vcs[b].numLinkB != 0;
            && (r.Some? <==> failsA || failsB || id in xcs)
            && (r.Some? ==> v == vcs && x == xcs)
            && (failsA ==> r == Some(AsyncResponse(InvalidAttribute, VcLinkObj(a))))
            && (!failsA && failsB ==> r == Some(AsyncResponse(InvalidAttribute, VcLinkObj(b))))
            && (!failsA && !failsB && id in xcs ==> r == Some(AsyncResponse(ResourceExists, XcObj(xcs[id].linkB.vcXcId))))
            && (r.Some? && r.value.error != InvalidAttribute ==> r.value.error == ResourceExists && id in xcs)
            && (r.None? ==>
                  && x == xcs[id := e]
                  && v.Keys == vcs.Keys
                  && v[a] == vcs[a].(numLinkB := 1, linkB := Some(XcInfo(id, ExtToExt, b)))
                  && v[b] == vcs[b].(numLinkB := 1, linkB := Some(XcInfo(id, ExtToExt, a)))
                  && (forall k :: k in vcs && k != a && k != b ==> v[k] == vcs[k]))
  {
  }

  // ------------------------------------------------------------------
  // Referential integrity of the three tables
  // ------------------------------------------------------------------

  /** VC `v` is attached by cross-connect `xcId` to `peer`, as AddATMXC writes it. */
  predicate AttachedTo(v: Vc, xcId: nat, peer: nat) {
    v.numLinkB == 1 && v.linkB == Some(XcInfo(xcId, ExtToExt, peer))
  }

  /** Cross-connect `x`, stored under `id`, joins two distinct VCs that point at each other. */
  predicate XcJoins(vcs: VcTable, id: nat, x: VcLinkXc) {
    var a := x.linkA;
    var b := x.linkB.mapVcLink;
    && x.linkB.vcXcId == id
    && a != b
    && a in vcs && b in vcs
    && AttachedTo(vcs[a], id, b)
    && AttachedTo(vcs[b], id, a)
  }

  /**
   * The invariant the four batch operations keep: tables keyed by their own
   * ids, every VC on an existing interface, VC addresses unique, and every
   * cross-connect a symmetric attachment of two VCs.
   */
  ghost predicate TableValid(ifs: IfTable, vcs: VcTable, xcs: XcTable) {
    && (forall k :: k in ifs ==> ifs[k].ifID == k)
    && (forall k :: k in vcs ==> vcs[k].vcLinkId == k && vcs[k].ifId in ifs)
    && (forall k1, k2 :: k1 in vcs && k2 in vcs && k1 != k2 ==>
          (vcs[k1].ifId, vcs[k1].vpi, vcs[k1].vci) != (vcs[k2].ifId, vcs[k2].vpi, vcs[k2].vci))
    && (forall id :: id in xcs ==> XcJoins(vcs, id, xcs[id]))
  }

  lemma EmptyTableValid()
    ensures TableValid(map[], map[], map[])
  {
  }

  /** AddATMIf keeps the table invariant. */
  lemma {:induction false} AddIfsValid(ifs: IfTable, vcs: VcTable, xcs: XcTable, es: seq<IfCfg>)
    requires TableValid(ifs, vcs, xcs)
    ensures TableValid(AddIfs(ifs, es).0, vcs, xcs)
    decreases |es|
  {
    if es != [] {
      AddIfsValid(ifs, vcs, xcs, es[..|es| - 1]);
    }
  }

  /** DeleteIf keeps the table invariant: no VC is left on a deleted interface. */
  lemma {:induction false} DeleteIfsValid(ifs: IfTable, vcs: VcTable, xcs: XcTable, ids: seq<nat>)
    requires TableValid(ifs, vcs, xcs)
    ensures TableValid(DeleteIfs(ifs, vcs, ids).0, vcs, xcs)
    decreases |ids|
  {
    if ids != [] {
      var n := |ids| - 1;
      DeleteIfsValid(ifs, vcs, xcs, ids[..n]);
      var t0 := DeleteIfs(ifs, vcs, ids[..n]).0;
      var t := DeleteIfs(ifs, vcs, ids).0;
      forall k | k in vcs ensures vcs[k].ifId in t {
        if vcs[k].ifId == ids[n] {
          assert HasSubObjects(vcs, ids[n]);
        }
      }
    }
  }

  /** AddATMVC keeps the table invariant: addresses stay unique and keys match link ids. */
  lemma {:induction false} AddVcsValid(ifs: IfTable, vcs: VcTable, xcs: XcTable, es: seq<Vc>)
    requires TableValid(ifs, vcs, xcs)
    ensures TableValid(ifs, AddVcs(ifs, vcs, es).0, xcs)
    decreases |es|
  {
    if es != [] {
      var n := |es| - 1;
      AddVcsValid(ifs, vcs, xcs, es[..n]);
      var t0 := AddVcs(ifs, vcs, es[..n]).0;
      var e := es[n];
      if VcSetStep(ifs, t0, e).1.None? {
        var t := t0[e.vcLinkId := e];
        forall k1, k2 | k1 in t && k2 in t && k1 != k2
          ensures (t[k1].ifId, t[k1].vpi, t[k1].vci) != (t[k2].ifId, t[k2].vpi, t[k2].vci)
        {
          if k1 == e.vcLinkId {
            assert !(t0[k2].ifId == e.ifId && t0[k2].vci == e.vci && t0[k2].vpi == e.vpi);
          } else if k2 == e.vcLinkId {
            assert !(t0[k1].ifId == e.ifId && t0[k1].vci == e.vci && t0[k1].vpi == e.vpi);
          }
        }
        forall id | id in xcs ensures XcJoins(t, id, xcs[id]) {
          assert XcJoins(t0, id, xcs[id]);
        }
      }
    }
  }

  /** One successful AddATMXC entry keeps the table invariant. */
  lemma XcSetStepValid(ifs: IfTable, vcs: VcTable, xcs: XcTable, e: VcLinkXc)
    requires TableValid(ifs, vcs, xcs)
    ensures TableValid(ifs, XcSetStep(vcs, xcs, e).0, XcSetStep(vcs, xcs, e).1)
  {
    var (v, x, r) := XcSetStep(vcs, xcs, e);
    if r.None? {
      var a := e.linkA;
      var b := e.linkB.mapVcLink;
      var id := e.linkB.vcXcId;
      XcSetStepOutcome(vcs, xcs, e);
      forall k | k in v ensures v[k].vcLinkId == k && v[k].ifId in ifs {
        assert k in vcs;
      }
      forall k1, k2 | k1 in v && k2 in v && k1 != k2
        ensures (v[k1].ifId, v[k1].vpi, v[k1].vci) != (v[k2].ifId, v[k2].vpi, v[k2].vci)
      {
        assert (v[k1].ifId, v[k1].vpi, v[k1].vci) == (vcs[k1].ifId, vcs[k1].vpi, vcs[k1].vci);
        assert (v[k2].ifId, v[k2].vpi, v[k2].vci) == (vcs[k2].ifId, vcs[k2].vpi, vcs[k2].vci);
      }
      forall j | j in x ensures XcJoins(v, j, x[j]) {
        if j != id {
          var y := xcs[j];
          assert XcJoins(vcs, j, y);
          // an attached VC has numLink_B == 1, so it is neither a nor b
          assert y.linkA != a && y.linkA != b;
          assert y.linkB.mapVcLink != a && y.linkB.mapVcLink != b;
        }
      }
    }
  }

  /** AddATMXC keeps the table invariant: cross-connects stay symmetric. */
  lemma {:induction false} AddXcsValid(ifs: IfTable, vcs: VcTable, xcs: XcTable, es: seq<VcLinkXc>)
    requires TableValid(ifs, vcs, xcs)
    ensures TableValid(ifs, AddXcs(vcs, xcs, es).0, AddXcs(vcs, xcs, es).1)
    decreases |es|
  {
    if es != [] {
      var n := |es| - 1;
      AddXcsValid(ifs, vcs, xcs, es[..n]);
      var prev := AddXcs(vcs, xcs, es[..n]);
      XcSetStepValid(ifs, prev.0, prev.1, es[n]);
    }
  }

  /**
   * Under the invariant a cross-connect is symmetric: each VC points at the
   * other under the same vcXcId, and a VC belongs to at most one cross-connect.
   */
  lemma XcSymmetric(ifs: IfTable, vcs: VcTable, xcs: XcTable, id1: nat, id2: nat)
    requires TableValid(ifs, vcs, xcs)
    requires id1 in xcs && id2 in xcs
    ensures var a := xcs[id1].linkA;
            var b := xcs[id1].linkB.mapVcLink;
            && vcs[a].linkB == Some(XcInfo(id1, ExtToExt, b))
            && vcs[b].linkB == Some(XcInfo(id1, ExtToExt, a))
    ensures id1 != id2 ==>
              {xcs[id1].linkA, xcs[id1].linkB.mapVcLink} !! {xcs[id2].linkA, xcs[id2].linkB.mapVcLink}
  {
    assert XcJoins(vcs, id1, xcs[id1]);
    assert XcJoins(vcs, id2, xcs[id2]);
  }

  lemma AllNoErrorSnoc(rs: seq<AsyncResponse>, r: AsyncResponse)
    ensures AllNoError(rs + [r]) <==> AllNoError(rs) && r.error == NoError
  {
    assert (rs + [r])[|rs|] == r;
    assert forall i :: 0 <= i < |rs| ==> (rs + [r])[i] == rs[i];
  }

  // ------------------------------------------------------------------
  // The table object
  // ------------------------------------------------------------------

  /** The TableManager singleton: three maps updated in place by four batch operations. */
  class TableManager {
    var ifTable: IfTable
    var vcTable: VcTable
    var xcTable: XcTable

    constructor ()
      ensures ifTable == map[] && vcTable == map[] && xcTable == map[]
      ensures TableValid(ifTable, vcTable, xcTable)
    {
      ifTable, vcTable, xcTable := map[], map[], map[];
    }

    /** AddATMIf: one response per entry; true iff every entry was added. */
    method AddATMIf(entries: seq<IfCfg>) returns (ok: bool, data: CallbackData)
      modifies this
      ensures (ifTable, data.resp) == AddIfs(old(ifTable), entries)
      ensures vcTable == old(vcTable) && xcTable == old(xcTable)
      ensures data.op == IfSetOp && data.allOK == ok
      ensures ok <==> AllNoError(data.resp)
    {
      var resp: seq<AsyncResponse> := [];
      var returnFlag := true;
      var x := 0;
      while x < |entries|
        invariant 0 <= x <= |entries|
        invariant (ifTable, resp) == AddIfs(old(ifTable), entries[..x])
        invariant vcTable == old(vcTable) && xcTable == old(xcTable)
        invariant returnFlag <==> AllNoError(resp)
      {
        var e := entries[x];
        var r;
        if !ValidIfType(e.ifType) {
          r := AsyncResponse(InvalidAttribute, IfObj(e.ifID));
          returnFlag := false;
        } else if e.ifID in ifTable {
          r := AsyncResponse(ResourceExists, IfObj(e.ifID));
          returnFlag := false;
        } else {
          ifTable := ifTable[e.ifID := e];
          r := AsyncResponse(NoError, IfObj(e.ifID));
        }
        AllNoErrorSnoc(resp, r);
        resp := resp + [r];
        assert entries[..x + 1][..x] == entries[..x];
        x := x + 1;
      }
      assert entries[..x] == entries;
      ok := returnFlag;
      data := CallbackData(IfSetOp, returnFlag, resp);
    }

    /** The scan of DeleteIf: does any stored VC refer to interface `id`? */
    method ScanForSubObjects(id: nat) returns (found: bool)
      ensures found <==> HasSubObjects(vcTable, id)
    {
      found := false;
      var keys := vcTable.Keys;
      while keys != {}
        invariant keys <= vcTable.Keys
        invariant found <==> exists k :: k in vcTable && k !in keys && vcTable[k].ifId == id
        decreases |keys|
      {
        var k :| k in keys;
        if vcTable[k].ifId == id {
          found := true;
        }
        keys := keys - {k};
      }
    }

    /** DeleteIf: one response per id; the VC and cross-connect tables are never changed. */
    method DeleteIf(ids: seq<nat>) returns (ok: bool, data: CallbackData)
      modifies this
      ensures (ifTable, data.resp) == DeleteIfs(old(ifTable), vcTable, ids)
      ensures vcTable == old(vcTable) && xcTable == old(xcTable)
      ensures data.op == IfDeleteOp && data.allOK == ok
      ensures ok <==> AllNoError(data.resp)
    {
      var resp: seq<AsyncResponse> := [];
      var returnFlag := true;
      var x := 0;
      while x < |ids|
        invariant 0 <= x <= |ids|
        invariant (ifTable, resp) == DeleteIfs(old(ifTable), vcTable, ids[..x])
        invariant vcTable == old(vcTable) && xcTable == old(xcTable)
        invariant returnFlag <==> AllNoError(resp)
      {
        var id := ids[x];
        var r;
        var hasSub := ScanForSubObjects(id);
        if hasSub {
          r := AsyncResponse(ContObjsExist, IfObj(id));
          returnFlag := false;
        } else if id in ifTable {
          ifTable := ifTable - {id};
          r := AsyncResponse(NoError, IfObj(id));
        } else {
          r := AsyncResponse(ResourceNonexistent, IfObj(id));
          returnFlag := false;
        }
        AllNoErrorSnoc(resp, r);
        resp := resp + [r];
        assert ids[..x + 1][..x] == ids[..x];
        x := x + 1;
      }
      assert ids[..x] == ids;
      ok := returnFlag;
      data := CallbackData(IfDeleteOp, returnFlag, resp);
    }

    /** The address scan of AddATMVC: does a stored VC already use e's (ifId, vpi, vci)? */
    method ScanForAddress(e: Vc) returns (found: bool)
      ensures found <==> AddressInUse(vcTable, e)
    {
      found := false;
      var keys := vcTable.Keys;
      while keys != {}
        invariant keys <= vcTable.Keys
        invariant found <==> exists k :: (k in vcTable && k !in keys
                    && vcTable[k].ifId == e.ifId && vcTable[k].vci == e.vci && vcTable[k].vpi == e.vpi)
        decreases |keys|
      {
        var k :| k in keys;
        if vcTable[k].ifId == e.ifId && vcTable[k].vci == e.vci && vcTable[k].vpi == e.vpi {
          found := true;
        }
        keys := keys - {k};
      }
    }

    /** AddATMVC: a record per failed entry only; true iff every entry was added. */
    method AddATMVC(entries: seq<Vc>) returns (ok: bool, data: CallbackData)
      modifies this
      ensures (vcTable, data.resp) == AddVcs(ifTable, old(vcTable), entries)
      ensures ifTable == old(ifTable) && xcTable == old(xcTable)
      ensures data.op == VcSetOp && data.allOK == ok
      ensures ok <==> data.resp == []
    {
      var resp: seq<AsyncResponse> := [];
      var x := 0;
      while x < |entries|
        invariant 0 <= x <= |entries|
        invariant (vcTable, resp) == AddVcs(ifTable, old(vcTable), entries[..x])
        invariant ifTable == old(ifTable) && xcTable == old(xcTable)
      {
        var e := entries[x];
        var vcErrored := false;
        var errorCode := NoError;
        if e.ifId !in ifTable {
          errorCode, vcErrored := Unknown, true;
        }
        if !vcErrored {
          var inUse := ScanForAddress(e);
          if inUse {
            errorCode, vcErrored := InvalidVcAddress, true;
          }
        }
        if !vcErrored {
          if e.vcLinkId in vcTable {
            errorCode, vcErrored := InvalidVcAddress, true;
          } else {
            vcTable := vcTable[e.vcLinkId := e];
          }
        }
        if vcErrored {
          resp := resp + [AsyncResponse(errorCode, VcLinkObj(e.vcLinkId))];
        }
        assert entries[..x + 1][..x] == entries[..x];
        x := x + 1;
      }
      assert entries[..x] == entries;
      ok := resp == [];
      data := CallbackData(VcSetOp, ok, resp);
    }

    /** AddATMXC: a record per failed entry only; true iff every entry was added. */
    method AddATMXC(entries: seq<VcLinkXc>) returns (ok: bool, data: CallbackData)
      modifies this
      ensures (vcTable, xcTable, data.resp) == AddXcs(old(vcTable), old(xcTable), entries)
      ensures ifTable == old(ifTable)
      ensures data.op == XcSetOp && data.allOK == ok
      ensures ok <==> data.resp == []
    {
      var resp: seq<AsyncResponse> := [];
      var x := 0;
      while x < |entries|
        invariant 0 <= x <= |entries|
        invariant (vcTable, xcTable, resp) == AddXcs(old(vcTable), old(xcTable), entries[..x])
        invariant ifTable == old(ifTable)
      {
        var e := entries[x];
        var a, b, id := e.linkA, e.linkB.mapVcLink, e.linkB.vcXcId;
        if !ValidXcType(e.linkB.xcType) {
          resp := resp + [AsyncResponse(InvalidAttribute, VcLinkObj(a))];
        } else if a == b {
          resp := resp + [AsyncResponse(InvalidAttribute, VcLinkObj(a))];
        } else if a !in vcTable || vcTable[a].numLinkB != 0 {
          resp := resp + [AsyncResponse(InvalidAttribute, VcLinkObj(a))];
        } else if b !in vcTable || vcTable[b].numLinkB != 0 {
          resp := resp + [AsyncResponse(InvalidAttribute, VcLinkObj(b))];
        } else if id in xcTable {
          resp := resp + [AsyncResponse(ResourceExists, XcObj(xcTable[id].linkB.vcXcId))];
        } else {
          xcTable := xcTable[id := e];
          var linkA := vcTable[a];
          var linkB := vcTable[b];
          vcTable := vcTable[a := linkA.(numLinkB := 1, linkB := Some(XcInfo(id, ExtToExt, b)))];
          vcTable := vcTable[b := linkB.(numLinkB := 1, linkB := Some(XcInfo(id, ExtToExt, a)))];
        }
        assert entries[..x + 1][..x] == entries[..x];
        x := x + 1;
      }
      assert entries[..x] == entries;
      ok := resp == [];
      data := CallbackData(XcSetOp, ok, resp);
    }
  }
}
