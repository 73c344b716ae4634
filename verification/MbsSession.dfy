/** Multicast/broadcast sessions in the AMF (ngap_mcast.rs): one session state derived from the answers of many
    gNBs, and the index of sessions by TMGI. */
module MbsSession {
  import opened Wrappers
  import opened Octets

  datatype Tmgi = Tmgi(serviceId: seq<Octet>, plmn: seq<Octet>)

  datatype State = Inactive | Activating | Active | Deactivating

  datatype Transport = Transport(dlTeid: nat, address: nat)

  datatype GnbCtx = GnbCtx(gnbId: nat, state: State, ulTeid: Option<nat>)

  datatype Session = Session(
    tmgi: Tmgi, id: nat, state: State, transport: Option<Transport>, gnbs: seq<GnbCtx>,
    sst: Octet, sd: Option<nat>, areaTacs: seq<nat>)

  /** The contents of the NGAP messages sent to a gNB. */
  datatype Request =
    | ActivationRequest(tmgi: Tmgi, session: nat, transport: Transport, sst: Octet, sd: Option<nat>)
    | DeactivationRequest(tmgi: Tmgi, session: nat)

  // ------------------------------------------------------------------------
  // One session
  // ------------------------------------------------------------------------

  function Targets(ids: seq<nat>): (r: seq<GnbCtx>)
    ensures |r| == |ids| && forall i :: 0 <= i < |r| ==> r[i] == GnbCtx(ids[i], Activating, None)
  {
    seq(|ids|, i requires 0 <= i < |ids| => GnbCtx(ids[i], Activating, None))
  }

  function Activated(s: Session, transport: Transport, ids: seq<nat>): Session {
    s.(transport := Some(transport), state := Activating, gnbs := s.gnbs + Targets(ids))
  }

  /** The first context of a gNB, or the length of the list. */
  function First(gnbs: seq<GnbCtx>, id: nat): (i: nat)
    ensures i <= |gnbs| && (i < |gnbs| ==> gnbs[i].gnbId == id)
    ensures forall j :: 0 <= j < i ==> gnbs[j].gnbId != id
  {
    if gnbs == [] || gnbs[0].gnbId == id then 0 else 1 + First(gnbs[1..], id)
  }

  predicate AnyInState(gnbs: seq<GnbCtx>, state: State) {
    exists i :: 0 <= i < |gnbs| && gnbs[i].state == state
  }

  predicate AllInState(gnbs: seq<GnbCtx>, state: State) {
    forall i :: 0 <= i < |gnbs| ==> gnbs[i].state == state
  }

  function Answered(g: GnbCtx, teid: Option<nat>, success: bool): GnbCtx {
    if success then g.(state := Active, ulTeid := teid) else g.(state := Inactive)
  }

  function AnswerIn(gnbs: seq<GnbCtx>, id: nat, teid: Option<nat>, success: bool): seq<GnbCtx> {
    var i := First(gnbs, id);
    if i < |gnbs| then gnbs[i := Answered(gnbs[i], teid, success)] else gnbs
  }

  /** An activation answer: the session after it, and whether all gNBs have answered. */
  function ActivationAnswer(s: Session, id: nat, teid: Option<nat>, success: bool): (Session, bool) {
    var gnbs := AnswerIn(s.gnbs, id, teid, success);
    if AnyInState(gnbs, Activating) then (s.(gnbs := gnbs), false)
    else (s.(gnbs := gnbs, state := if AnyInState(gnbs, Active) then Active else Inactive), true)
  }

  function Leave(g: GnbCtx): GnbCtx {
    if g.state == Active then g.(state := Deactivating) else g
  }

  function Deactivated(s: Session): Session {
    s.(state := Deactivating, gnbs := seq(|s.gnbs|, i requires 0 <= i < |s.gnbs| => Leave(s.gnbs[i])))
  }

  /** The gNBs that get a deactivation request: the Active ones, in order. */
  function ActiveIds(gnbs: seq<GnbCtx>): seq<nat> {
    if gnbs == [] then []
    else (if gnbs[0].state == Active then [gnbs[0].gnbId] else []) + ActiveIds(gnbs[1..])
  }

  function StopIn(gnbs: seq<GnbCtx>, id: nat): seq<GnbCtx> {
    var i := First(gnbs, id);
    if i < |gnbs| then gnbs[i := gnbs[i].(state := Inactive)] else gnbs
  }

  /** A deactivation answer: the session after it, and whether all gNBs are inactive. */
  function DeactivationAnswer(s: Session, id: nat): (Session, bool) {
    var gnbs := StopIn(s.gnbs, id);
    if AllInState(gnbs, Inactive) then (s.(gnbs := gnbs, state := Inactive), true) else (s.(gnbs := gnbs), false)
  }

  // ------------------------------------------------------------------------
  // The context
  // ------------------------------------------------------------------------

  datatype Mcast = Mcast(sessions: map<nat, Session>, tmgiIndex: map<Tmgi, nat>, next: nat)

  const NEW_MCAST := Mcast(map[], map[], 1)

  datatype Op =
    | Create(tmgi: Tmgi, sst: Octet, sd: Option<nat>, areaTacs: seq<nat>)
    | Activate(session: nat, transport: Transport, ids: seq<nat>)
    | AnswerActivation(session: nat, gnb: nat, teid: Option<nat>, success: bool)
    | Deactivate(session: nat)
    | AnswerDeactivation(session: nat, gnb: nat)
    | Remove(session: nat)

  function SessionStep(s: Session, op: Op): Session {
    match op
    case Activate(_, transport, ids) => Activated(s, transport, ids)
    case AnswerActivation(_, gnb, teid, success) => ActivationAnswer(s, gnb, teid, success).0
    case Deactivate(_) => Deactivated(s)
    case AnswerDeactivation(_, gnb) => DeactivationAnswer(s, gnb).0
    case _ => s
  }

  function Step(m: Mcast, op: Op): Mcast {
    match op
    case Create(tmgi, sst, sd, tacs) =>
      var s := Session(tmgi, m.next, Inactive, None, [], sst, sd, tacs);
      Mcast(m.sessions[m.next := s], m.tmgiIndex[tmgi := m.next], m.next + 1)
    case Remove(id) =>
      if id in m.sessions then m.(sessions := m.sessions - {id}, tmgiIndex := m.tmgiIndex - {m.sessions[id].tmgi})
      else m
    case _ =>
      if op.session in m.sessions then
        m.(sessions := m.sessions[op.session := SessionStep(m.sessions[op.session], op)])
      else m
  }

  function After(m: Mcast, run: seq<Op>, n: nat): Mcast
    requires n <= |run|
  {
    if n == 0 then m else Step(After(m, run, n - 1), run[n - 1])
  }
}
