/** The Namf handlers that page idle UEs and queue deregistrations (namf_handler.rs). */
module NamfHandler {
  import opened Wrappers
  import opened Octets
  import opened IdentityCodec
  import AmfContext
  import Paging
  import EgressQueues

  // ------------------------------------------------------------------------
  // N1N2 message transfer
  // ------------------------------------------------------------------------

  /** What the handlers read of a UE. */
  datatype Ue = Ue(id: nat, supi: Option<string>, guti: Guti, tac: nat, securityContextAvailable: bool)

  datatype IeType = Null | PduResSetupReq | PduResModReq | PduResRelCmd | PduResNotify | PduResModInd | Nrppa

  datatype N2Info = N2Info(ieType: IeType, data: Option<seq<Octet>>)

  datatype TransferReq = TransferReq(
    psi: Option<nat>, n1: Option<seq<Octet>>, n2: Option<N2Info>, failureUri: Option<string>, skipInd: bool)

  datatype Cause = TransferInitiated | AttemptingToReachUe | N1MsgNotTransferred

  datatype Reply = Accepted(cause: Cause) | MissingField(name: string)

  datatype SessionPaging = SessionPaging(ongoing: bool, location: Option<string>, failureUri: Option<string>)

  class AmfSess {
    var n1Released: bool
    var n2Released: bool
    var paging: SessionPaging

    constructor ()
      ensures !n1Released && !n2Released && paging == SessionPaging(false, None, None)
    {
      n1Released, n2Released, paging := false, false, SessionPaging(false, None, None);
    }

    method ClearPagingInfo()
      modifies `paging
      ensures paging == if old(paging).ongoing then SessionPaging(false, None, None) else old(paging)
    {
      if paging.ongoing {
        paging := SessionPaging(false, None, None);
      }
    }

    method StorePagingInfo(location: string, uri: Option<string>)
      modifies `paging
      ensures paging == Stored(old(paging), location, uri)
      ensures paging.ongoing && paging.location == Some(location)
      ensures paging.failureUri
              == if uri.Some? then uri else if old(paging).ongoing then None else old(paging).failureUri
    {
      ClearPagingInfo();
      paging := paging.(ongoing := true, location := Some(location));
      if uri.Some? {
        paging := paging.(failureUri := uri);
      }
    }
  }

  /** The session's paging information once paging has started. A notification URI that was left over while no paging
      was ongoing survives a request without one. */
  function Stored(was: SessionPaging, location: string, uri: Option<string>): SessionPaging {
    SessionPaging(true, Some(location), if uri.Some? then uri else if was.ongoing then None else was.failureUri)
  }

  /** The request makes the AMF page: it concerns a session of an idle UE and either sets up resources without an N1
      message or releases them without permission to skip. */
  predicate Pages(ue: Ue, req: TransferReq) {
    && req.psi.Some? && req.n2.Some? && !ue.securityContextAvailable
    && ((req.n2.value.ieType == PduResSetupReq && req.n1.None?)
        || (req.n2.value.ieType == PduResRelCmd && !req.skipInd))
  }

  /** The answer, decided from the request alone. */
  function ReplyTo(ue: Ue, req: TransferReq): Reply {
    if req.psi.None? then MissingField("pdu_session_id")
    else if req.n2.Some? && req.n2.value.ieType in {PduResModReq, Null} && req.n1.None? then MissingField("n1_message")
    else if Pages(ue, req) then Accepted(AttemptingToReachUe)
    else if req.n2.Some? && req.n2.value.ieType == PduResRelCmd && !ue.securityContextAvailable then
      Accepted(N1MsgNotTransferred)
    else Accepted(TransferInitiated)
  }

  const MAX_RETRANSMIT := 4

  /** The paging entry that holds the request until the UE answers. */
  function Entry(ue: Ue, req: TransferReq, now: nat): Paging.PagingContext
    requires req.n2.Some?
  {
    Paging.PagingContext(
      ue.id, ue.guti.tmsi, ue.guti.setId, ue.guti.pointer, ue.guti.plmn, ue.tac, now, 0, MAX_RETRANSMIT,
      req.n1, req.n2.value.data, req.psi)
  }

  /** The entry keeps what the request asked to transfer, where to page, and since when, with four retransmissions. */
  predicate HoldsRequest(entry: Paging.PagingContext, ue: Ue, req: TransferReq, now: nat) {
    && req.n2.Some? && entry.pendingN1 == req.n1 && entry.pendingN2 == req.n2.value.data && entry.psi == req.psi
    && entry.ueId == ue.id && entry.tac == ue.tac && entry.initiatedAt == now && entry.maxRetransmits == 4
    && entry.tmsi == ue.guti.tmsi && entry.setId == ue.guti.setId && entry.pointer == ue.guti.pointer
    && entry.plmn == ue.guti.plmn
  }

  function Location(ue: Ue): string {
    "/namf-comm/v1/ue-contexts/" + (if ue.supi.Some? then ue.supi.value else "unknown") + "/n1-n2-messages"
  }

  method InitiatePaging<P, D>(
    ctx: AmfContext.Context<P, D>, ue: Ue, sess: AmfSess, n1: Option<seq<Octet>>, n2: Option<seq<Octet>>,
    psi: Option<nat>, failureUri: Option<string>, now: nat)
    requires ctx.Valid()
    modifies ctx`pagingMap, sess`paging
    ensures ctx.Valid()
    ensures ctx.pagingMap == old(ctx.pagingMap)[ue.id := Paging.PagingContext(
              ue.id, ue.guti.tmsi, ue.guti.setId, ue.guti.pointer, ue.guti.plmn, ue.tac, now, 0, MAX_RETRANSMIT,
              n1, n2, psi)]
    ensures sess.paging == Stored(old(sess.paging), Location(ue), failureUri)
    ensures sess.paging.ongoing && (failureUri.Some? ==> sess.paging.failureUri == failureUri)
    ensures sess.paging.location
            == Some("/namf-comm/v1/ue-contexts/" + (if ue.supi.Some? then ue.supi.value else "unknown")
                    + "/n1-n2-messages")
  {
    var entry := Paging.PagingContext(
      ue.id, ue.guti.tmsi, ue.guti.setId, ue.guti.pointer, ue.guti.plmn, ue.tac, now, 0, MAX_RETRANSMIT, n1, n2, psi);
    ctx.PagingAdd(entry);
    sess.StorePagingInfo(Location(ue), failureUri);
  }

  /** The answer agrees with the paging table. It says that the AMF is attempting to reach the UE exactly when an
      entry with the request's N1, N2 and session and no retransmissions has been filed under the UE and the session
      is marked; with every other answer the table and the session's paging are as before. */
  method HandleN1N2MessageTransfer<P, D>(
    ctx: AmfContext.Context<P, D>, ue: Ue, sess: AmfSess, req: TransferReq, now: nat)
    returns (reply: Reply)
    requires ctx.Valid()
    modifies ctx`pagingMap, sess
    ensures ctx.Valid()
    ensures Paging.WithinMaximum(old(ctx.pagingMap)) ==> Paging.WithinMaximum(ctx.pagingMap)
    ensures reply == ReplyTo(ue, req)
    ensures reply == MissingField("pdu_session_id") <==> req.psi.None?
    ensures reply == MissingField("n1_message") <==>
            req.psi.Some? && req.n2.Some? && req.n2.value.ieType in {PduResModReq, Null} && req.n1.None?
    ensures reply == Accepted(N1MsgNotTransferred) <==>
            req.psi.Some? && req.n2.Some? && req.n2.value.ieType == PduResRelCmd && !ue.securityContextAvailable
            && req.skipInd
    ensures reply == Accepted(AttemptingToReachUe) <==> Pages(ue, req)
    ensures reply == Accepted(AttemptingToReachUe) <==>
            req.psi.Some? && req.n2.Some? && !ue.securityContextAvailable
            && (if req.n2.value.ieType == PduResSetupReq then req.n1.None?
                else req.n2.value.ieType == PduResRelCmd && !req.skipInd)
    ensures reply.MissingField? ==> reply.name in {"pdu_session_id", "n1_message"}
    ensures reply == Accepted(AttemptingToReachUe) ==>
              && ue.id in ctx.pagingMap && ctx.pagingMap == old(ctx.pagingMap)[ue.id := ctx.pagingMap[ue.id]]
              && HoldsRequest(ctx.pagingMap[ue.id], ue, req, now) && ctx.pagingMap[ue.id].retransmits == 0
              && sess.paging.ongoing && (req.failureUri.Some? ==> sess.paging.failureUri == req.failureUri)
    ensures Pages(ue, req) ==> sess.paging == Stored(old(sess.paging), Location(ue), req.failureUri)
    ensures !Pages(ue, req) ==> ctx.pagingMap == old(ctx.pagingMap) && sess.paging == old(sess.paging)
    ensures reply.Accepted? ==> !sess.n1Released && !sess.n2Released
    ensures reply.MissingField? ==> sess.n1Released == old(sess.n1Released) && sess.n2Released == old(sess.n2Released)
  {
    if req.psi.None? {
      return MissingField("pdu_session_id");
    }
    var cause := TransferInitiated;
    if req.n2.Some? {
      var n2 := req.n2.value;
      match n2.ieType {
        case PduResSetupReq =>
          if req.n1.None? {
            if !ue.securityContextAvailable {
              cause := AttemptingToReachUe;
              InitiatePaging(ctx, ue, sess, req.n1, n2.data, req.psi, req.failureUri, now);
            }
          }
        case PduResModReq =>
          if req.n1.None? {
            return MissingField("n1_message");
          }
        case PduResRelCmd =>
          if !ue.securityContextAvailable {
            if req.skipInd {
              cause := N1MsgNotTransferred;
            } else {
              cause := AttemptingToReachUe;
              InitiatePaging(ctx, ue, sess, req.n1, n2.data, req.psi, req.failureUri, now);
            }
          }
        case Null =>
          if req.n1.None? {
            return MissingField("n1_message");
          }
        case PduResNotify =>
        case PduResModInd =>
        case Nrppa =>
      }
    }
    sess.n1Released := false;
    sess.n2Released := false;
    return Accepted(cause);
  }

  /** The effect of a transfer on the paging table, for runs that mix transfers with the table's own operations. */
  function Effect(ue: Ue, req: TransferReq, now: nat): seq<Paging.Op> {
    if Pages(ue, req) then [Paging.Page(Entry(ue, req, now))] else []
  }

  /** After an answer that the AMF is attempting to reach the UE, whatever follows until the entry is removed or
      replaced, exactly the first four retransmissions to the UE succeed and the entry keeps the request. */
  lemma PagedRequestIsRetransmittedFourTimes(
    table: Paging.Table, ue: Ue, req: TransferReq, now: nat, run: seq<Paging.Op>, n: nat)
    requires ReplyTo(ue, req) == Accepted(AttemptingToReachUe) && n <= |run|
    requires Paging.SparesUpTo(Paging.After(table, Effect(ue, req, now), 1), run, n, ue.id)
    ensures var paged := Paging.After(table, Effect(ue, req, now), 1);
            && Paging.Succeeded(paged, run, n, ue.id) == Paging.Min(Paging.Asked(run, n, ue.id), 4)
            && ue.id in Paging.After(paged, run, n)
            && HoldsRequest(Paging.After(paged, run, n)[ue.id], ue, req, now)
            && Paging.After(paged, run, n)[ue.id].retransmits == Paging.Succeeded(paged, run, n, ue.id)
  {
    var paged := Paging.After(table, Effect(ue, req, now), 1);
    assert paged == Paging.Step(Paging.After(table, Effect(ue, req, now), 0), Paging.Page(Entry(ue, req, now)));
    Paging.RetransmitsAreBounded(paged, run, n, ue.id);
  }

  // ------------------------------------------------------------------------
  // Deregistration notifications
  // ------------------------------------------------------------------------

  datatype DeregReason =
    | UeInitialRegistration | UeRegistrationAreaChange | SubscriptionWithdrawn | FiveGsToEpsMobility
    | FiveGsToEpsMobilityUeInitialRegistration | ReregistrationRequired | SmfContextTransferred

  datatype Access = ThreeGppAccess | NonThreeGppAccess

  datatype PendingDereg = PendingDereg(ueId: nat, reregistrationRequired: bool)

  datatype DeregEvent = Notify(ueId: nat, reason: DeregReason, access: Access) | Pump

  method HandleDeregNotify<P>(ctx: AmfContext.Context<P, PendingDereg>, ueId: nat, reason: DeregReason, access: Access)
    modifies ctx`networkDeregQueue
    ensures ctx.networkDeregQueue
            == EgressQueues.QueueAfter(old(ctx.networkDeregQueue), QueueOps([Notify(ueId, reason, access)]))
    ensures access == NonThreeGppAccess ==> ctx.networkDeregQueue == old(ctx.networkDeregQueue)
    ensures access == ThreeGppAccess ==>
              ctx.networkDeregQueue
              == old(ctx.networkDeregQueue) + [PendingDereg(ueId, reason == UeInitialRegistration)]
  {
    assert QueueOps([Notify(ueId, reason, access)][1..]) == [];
    if access != ThreeGppAccess {
      return;
    }
    ctx.NetworkDeregAdd(PendingDereg(ueId, reason == UeInitialRegistration));
  }

  /** What the events do to the deregistration queue. */
  function QueueOps(events: seq<DeregEvent>): seq<EgressQueues.QueueOp<PendingDereg>> {
    if events == [] then []
    else
      (match events[0]
       case Pump => [EgressQueues.Drain]
       case Notify(ueId, reason, access) =>
         if access == ThreeGppAccess
         then [EgressQueues.Push(PendingDereg(ueId, reason == UeInitialRegistration))] else [])
      + QueueOps(events[1..])
  }

  /** One deregistration for each notification that concerns 3GPP access, in order. */
  function Expected(events: seq<DeregEvent>): seq<PendingDereg> {
    if events == [] then []
    else
      (if events[0].Notify? && events[0].access == ThreeGppAccess
       then [PendingDereg(events[0].ueId, events[0].reason == UeInitialRegistration)] else [])
      + Expected(events[1..])
  }

  lemma {:induction false} PushedIsExpected(events: seq<DeregEvent>)
    ensures EgressQueues.Pushed(QueueOps(events)) == Expected(events)
  {
    if events == [] {
    } else {
      PushedIsExpected(events[1..]);
      var ops := QueueOps(events);
      if ops != QueueOps(events[1..]) {
        assert ops[1..] == QueueOps(events[1..]);
      }
    }
  }

  /** For every interleaving of notifications and pumps, the deregistrations handed to the NGAP task followed by those
      still queued are exactly one per 3GPP-access notification, in the order of arrival. */
  lemma DeregistrationsAreConserved(events: seq<DeregEvent>)
    ensures EgressQueues.Delivered([], QueueOps(events)) + EgressQueues.QueueAfter([], QueueOps(events))
            == Expected(events)
  {
    EgressQueues.QueueConserves([], QueueOps(events));
    PushedIsExpected(events);
  }
}
