/** The multicast context object (ngap_mcast.rs). Each method is proved against the function that says what the
    operation does, and keeps the invariant that all runs of those functions keep. */
module MbsContext {
  import opened Wrappers
  import opened Octets
  import opened MbsSession
  import opened MbsProofs

  class McastContext {
    var sessions: map<nat, Session>
    var tmgiIndex: map<Tmgi, nat>
    var nextSessionId: nat

    ghost function View(): Mcast
      reads this
    {
      Mcast(sessions, tmgiIndex, nextSessionId)
    }

    /** Sessions are filed under their own ids and coherent, and every entry of the TMGI index is sound. */
    ghost predicate Valid()
      reads this
    {
      Clean(View())
    }

    constructor ()
      ensures Valid() && View() == NEW_MCAST
    {
      NewContextIsClean();
      sessions, tmgiIndex, nextSessionId := map[], map[], 1;
    }

    method SessionCreate(tmgi: Tmgi, sst: Octet, sd: Option<nat>, areaTacs: seq<nat>) returns (s: Session)
      requires Valid()
      modifies this
      ensures Valid()
      ensures View() == Step(old(View()), Create(tmgi, sst, sd, areaTacs))
      ensures s.id !in old(sessions) && s.id in sessions && sessions[s.id] == s
      ensures s == Session(tmgi, s.id, Inactive, None, [], sst, sd, areaTacs)
      ensures sessions == old(sessions)[s.id := s] && tmgiIndex == old(tmgiIndex)[tmgi := s.id]
    {
      hide AllCoherent;
      StepClean(View(), Create(tmgi, sst, sd, areaTacs));
      var id := nextSessionId;
      nextSessionId := nextSessionId + 1;
      s := Session(tmgi, id, Inactive, None, [], sst, sd, areaTacs);
      tmgiIndex := tmgiIndex[tmgi := id];
      sessions := sessions[id := s];
    }

    method SessionActivate(id: nat, transport: Transport, ids: seq<nat>) returns (messages: seq<(nat, Request)>)
      requires Valid()
      modifies `sessions
      ensures Valid()
      ensures View() == Step(old(View()), Activate(id, transport, ids))
      ensures id !in sessions ==> messages == []
      ensures id in sessions ==>
                && |messages| == |ids|
                && forall i :: 0 <= i < |ids| ==>
                     messages[i] == (ids[i], ActivationRequest(
                       sessions[id].tmgi, id, transport, sessions[id].sst, sessions[id].sd))
      ensures id !in old(sessions) ==> sessions == old(sessions)
      ensures id in old(sessions) ==>
                && sessions == old(sessions)[id := sessions[id]]
                && sessions[id] == old(sessions)[id].(transport := Some(transport), state := Activating,
                                                      gnbs := sessions[id].gnbs)
                && |sessions[id].gnbs| == |old(sessions)[id].gnbs| + |ids|
                && sessions[id].gnbs[..|old(sessions)[id].gnbs|] == old(sessions)[id].gnbs
                && forall i :: 0 <= i < |ids| ==>
                     sessions[id].gnbs[|old(sessions)[id].gnbs| + i] == GnbCtx(ids[i], Activating, None)
    {
      hide Clean;
      StepClean(View(), Activate(id, transport, ids));
      messages := [];
      if id !in sessions {
        return;
      }
      var s := sessions[id].(transport := Some(transport), state := Activating);
      for i := 0 to |ids|
        invariant s == sessions[id].(transport := Some(transport), state := Activating,
                                     gnbs := sessions[id].gnbs + Targets(ids[..i]))
        invariant |messages| == i
        invariant forall j :: 0 <= j < i ==>
                    messages[j] == (ids[j], ActivationRequest(s.tmgi, id, transport, s.sst, s.sd))
      {
        s := s.(gnbs := s.gnbs + [GnbCtx(ids[i], Activating, None)]);
        messages := messages + [(ids[i], ActivationRequest(s.tmgi, id, transport, s.sst, s.sd))];
        assert Targets(ids[..i + 1]) == Targets(ids[..i]) + [GnbCtx(ids[i], Activating, None)];
      }
      assert ids[..|ids|] == ids;
      sessions := sessions[id := s];
    }

    method FindGnb(gnbs: seq<GnbCtx>, id: nat) returns (i: nat)
      ensures i == First(gnbs, id)
    {
      i := 0;
      while i < |gnbs| && gnbs[i].gnbId != id
        invariant i <= |gnbs| && First(gnbs, id) == i + First(gnbs[i..], id)
      {
        i := i + 1;
      }
    }

    method AnyIn(gnbs: seq<GnbCtx>, state: State) returns (r: bool)
      ensures r <==> AnyInState(gnbs, state)
    {
      for i := 0 to |gnbs|
        invariant forall j :: 0 <= j < i ==> gnbs[j].state != state
      {
        if gnbs[i].state == state {
          return true;
        }
      }
      return false;
    }

    method AllIn(gnbs: seq<GnbCtx>, state: State) returns (r: bool)
      ensures r <==> AllInState(gnbs, state)
    {
      for i := 0 to |gnbs|
        invariant forall j :: 0 <= j < i ==> gnbs[j].state == state
      {
        if gnbs[i].state != state {
          return false;
        }
      }
      return true;
    }

    method SessionActivationResponse(id: nat, gnb: nat, teid: Option<nat>, success: bool) returns (all: bool)
      requires Valid()
      modifies `sessions
      ensures Valid()
      ensures View() == Step(old(View()), AnswerActivation(id, gnb, teid, success))
      ensures all <==> id in old(sessions) && ActivationAnswer(old(sessions)[id], gnb, teid, success).1
      ensures id !in old(sessions) ==> sessions == old(sessions)
      ensures id in old(sessions) ==>
                && sessions == old(sessions)[id := sessions[id]]
                && AnswerTaken(old(sessions)[id].gnbs, sessions[id].gnbs, gnb, teid, success)
                && (all <==> forall i :: 0 <= i < |sessions[id].gnbs| ==> sessions[id].gnbs[i].state != Activating)
                && sessions[id] == old(sessions)[id].(gnbs := sessions[id].gnbs, state := sessions[id].state)
                && (!all ==> sessions[id].state == old(sessions)[id].state)
                && (all ==> sessions[id].state == Active || sessions[id].state == Inactive)
                && (all ==> (sessions[id].state == Active <==>
                             exists i :: 0 <= i < |sessions[id].gnbs| && sessions[id].gnbs[i].state == Active))
    {
      hide Clean;
      StepClean(View(), AnswerActivation(id, gnb, teid, success));
      if id !in sessions {
        return false;
      }
      var s := sessions[id];
      AnswersAreTaken(s.gnbs, gnb, teid, success);
      var i := FindGnb(s.gnbs, gnb);
      if i < |s.gnbs| {
        if success {
          s := s.(gnbs := s.gnbs[i := s.gnbs[i].(state := Active, ulTeid := teid)]);
        } else {
          s := s.(gnbs := s.gnbs[i := s.gnbs[i].(state := Inactive)]);
        }
      }
      var pending := AnyIn(s.gnbs, Activating);
      all := !pending;
      if all {
        var anyActive := AnyIn(s.gnbs, Active);
        s := s.(state := if anyActive then Active else Inactive);
      }
      sessions := sessions[id := s];
    }

    /** The loop over the gNB contexts: the Active ones turn Deactivating and get a message, in order. */
    method LeaveAll(was: seq<GnbCtx>, request: Request) returns (gnbs: seq<GnbCtx>, messages: seq<(nat, Request)>)
      ensures |gnbs| == |was| && forall j :: 0 <= j < |was| ==> gnbs[j] == Leave(was[j])
      ensures |messages| == |ActiveIds(was)|
      ensures forall j :: 0 <= j < |messages| ==> messages[j] == (ActiveIds(was)[j], request)
    {
      gnbs, messages := was, [];
      ghost var sent := [];
      for i := 0 to |gnbs|
        invariant |gnbs| == |was|
        invariant forall j :: 0 <= j < i ==> gnbs[j] == Leave(was[j])
        invariant forall j :: i <= j < |gnbs| ==> gnbs[j] == was[j]
        invariant sent + ActiveIds(was[i..]) == ActiveIds(was)
        invariant |messages| == |sent| && forall j :: 0 <= j < |sent| ==> messages[j] == (sent[j], request)
      {
        assert was[i..][1..] == was[i + 1..];
        if gnbs[i].state == Active {
          gnbs := gnbs[i := gnbs[i].(state := Deactivating)];
          messages := messages + [(gnbs[i].gnbId, request)];
          sent := sent + [gnbs[i].gnbId];
        }
      }
    }

    method SessionDeactivate(id: nat) returns (messages: seq<(nat, Request)>)
      requires Valid()
      modifies `sessions
      ensures Valid()
      ensures View() == Step(old(View()), Deactivate(id))
      ensures id !in sessions ==> messages == []
      ensures id in sessions ==>
                && |messages| == |ActiveIds(old(sessions)[id].gnbs)|
                && forall i :: 0 <= i < |messages| ==>
                     messages[i] == (ActiveIds(old(sessions)[id].gnbs)[i], DeactivationRequest(sessions[id].tmgi, id))
      ensures id !in old(sessions) ==> sessions == old(sessions)
      ensures id in old(sessions) ==>
                && sessions == old(sessions)[id := sessions[id]] && |sessions[id].gnbs| == |old(sessions)[id].gnbs|
                && sessions[id] == old(sessions)[id].(state := Deactivating, gnbs := sessions[id].gnbs)
                && forall i :: 0 <= i < |sessions[id].gnbs| ==>
                     var was := old(sessions)[id].gnbs[i];
                     sessions[id].gnbs[i] == if was.state == Active then was.(state := Deactivating) else was
    {
      hide Clean;
      StepClean(View(), Deactivate(id));
      messages := [];
      if id !in sessions {
        return;
      }
      var was := sessions[id];
      var gnbs;
      gnbs, messages := LeaveAll(was.gnbs, DeactivationRequest(was.tmgi, id));
      sessions := sessions[id := was.(state := Deactivating, gnbs := gnbs)];
      assert gnbs == Deactivated(was).gnbs;
    }

    method SessionDeactivationResponse(id: nat, gnb: nat) returns (all: bool)
      requires Valid()
      modifies `sessions
      ensures Valid()
      ensures View() == Step(old(View()), AnswerDeactivation(id, gnb))
      ensures all <==> id in old(sessions) && DeactivationAnswer(old(sessions)[id], gnb).1
      ensures id !in old(sessions) ==> sessions == old(sessions)
      ensures id in old(sessions) ==>
                && sessions == old(sessions)[id := sessions[id]]
                && AnswerTaken(old(sessions)[id].gnbs, sessions[id].gnbs, gnb, None, false)
                && (all <==> forall i :: 0 <= i < |sessions[id].gnbs| ==> sessions[id].gnbs[i].state == Inactive)
                && sessions[id] == old(sessions)[id].(gnbs := sessions[id].gnbs, state := sessions[id].state)
                && sessions[id].state == if all then Inactive else old(sessions)[id].state
    {
      hide Clean;
      StepClean(View(), AnswerDeactivation(id, gnb));
      if id !in sessions {
        return false;
      }
      var s := sessions[id];
      AnswersAreTaken(s.gnbs, gnb, None, false);
      var i := FindGnb(s.gnbs, gnb);
      if i < |s.gnbs| {
        s := s.(gnbs := s.gnbs[i := s.gnbs[i].(state := Inactive)]);
      }
      all := AllIn(s.gnbs, Inactive);
      if all {
        s := s.(state := Inactive);
      }
      sessions := sessions[id := s];
    }

    method SessionRemove(id: nat) returns (r: Option<Session>)
      requires Valid()
      modifies `sessions, `tmgiIndex
      ensures Valid()
      ensures View() == Step(old(View()), Remove(id))
      ensures r == if id in old(sessions) then Some(old(sessions)[id]) else None
      ensures r.None? ==> View() == old(View())
      ensures r.Some? ==> sessions == old(sessions) - {id} && tmgiIndex == old(tmgiIndex) - {r.value.tmgi}
    {
      hide Clean;
      StepClean(View(), Remove(id));
      if id !in sessions {
        return None;
      }
      var s := sessions[id];
      sessions := sessions - {id};
      tmgiIndex := tmgiIndex - {s.tmgi};
      return Some(s);
    }

    /** A hit is a live session with that TMGI. With a complete index it is the only one, and a miss means that there
        is none. */
    method SessionFindByTmgi(tmgi: Tmgi) returns (r: Option<Session>)
      requires Valid()
      ensures r.Some? <==> tmgi in tmgiIndex
      ensures r.Some? ==> r.value.id in sessions && sessions[r.value.id] == r.value && r.value.tmgi == tmgi
      ensures TmgisExact(View()) ==> (r == None <==> forall i :: i in sessions ==> sessions[i].tmgi != tmgi)
      ensures TmgisExact(View()) && r.Some? ==>
                forall i :: i in sessions && sessions[i].tmgi == tmgi ==> sessions[i] == r.value
    {
      ghost var held := Tmgis(View());
      if TmgisExact(View()) {
        forall i | i in sessions && sessions[i].tmgi == tmgi
          ensures tmgi in tmgiIndex && tmgiIndex[tmgi] == i
        {
          assert held[i] == tmgi;
        }
      }
      if tmgi !in tmgiIndex {
        return None;
      }
      var id := tmgiIndex[tmgi];
      return if id in sessions then Some(sessions[id]) else None;
    }
  }
}
