/** The multicast session machine: the outcome of an activation or a deactivation does not depend on the order of
    the answers, what holds in every run whatever answers arrive, and the TMGI index. */
module MbsProofs {
  import opened Wrappers
  import opened HashIndex
  import opened MbsSession

  // ------------------------------------------------------------------------
  // Activation: the order of the answers does not matter
  // ------------------------------------------------------------------------

  datatype Answer = Answer(teid: Option<nat>, success: bool)

  predicate Distinct(ids: seq<nat>) {
    forall i, j :: 0 <= i < j < |ids| ==> ids[i] != ids[j]
  }

  /** `order` lists each of `ids` once. */
  ghost predicate Reorders(order: seq<nat>, ids: seq<nat>) {
    Distinct(order) && forall x :: x in order <==> x in ids
  }

  /** The targets are distinct and new to the session, and nothing is pending in it. */
  predicate CanTarget(s: Session, ids: seq<nat>) {
    && ids != [] && Distinct(ids)
    && forall i :: 0 <= i < |s.gnbs| ==> s.gnbs[i].gnbId !in ids && s.gnbs[i].state != Activating
  }

  /** The session after the first `k` answers, taken in the given order. */
  function AnsweredUpTo(s: Session, order: seq<nat>, answers: map<nat, Answer>, k: nat): Session
    requires k <= |order| && forall x :: x in order ==> x in answers
  {
    if k == 0 then s
    else AnswerOf(AnsweredUpTo(s, order, answers, k - 1), order[k - 1], answers).0
  }

  function AnswerOf(s: Session, id: nat, answers: map<nat, Answer>): (Session, bool)
    requires id in answers
  {
    ActivationAnswer(s, id, answers[id].teid, answers[id].success)
  }

  /** A target's context once it has answered, or before. */
  function TargetCtx(id: nat, answers: map<nat, Answer>, answered: bool): GnbCtx
    requires id in answers
  {
    var unanswered := GnbCtx(id, Activating, None);
    if answered then Answered(unanswered, answers[id].teid, answers[id].success) else unanswered
  }

  /** The contexts when exactly the gNBs in `done` have answered. */
  function Contexts(base: seq<GnbCtx>, ids: seq<nat>, answers: map<nat, Answer>, done: seq<nat>): (r: seq<GnbCtx>)
    requires forall x :: x in ids ==> x in answers
    ensures |r| == |base| + |ids|
    ensures forall i :: 0 <= i < |base| ==> r[i] == base[i]
    ensures forall i :: 0 <= i < |ids| ==> r[|base| + i] == TargetCtx(ids[i], answers, ids[i] in done)
  {
    base + seq(|ids|, i requires 0 <= i < |ids| => TargetCtx(ids[i], answers, ids[i] in done))
  }

  /** Where the activation ends, said without an order. */
  function ActivationOutcome(s: Session, transport: Transport, ids: seq<nat>, answers: map<nat, Answer>): Session
    requires forall x :: x in ids ==> x in answers
  {
    var gnbs := Contexts(s.gnbs, ids, answers, ids);
    s.(transport := Some(transport), gnbs := gnbs, state := if AnyInState(gnbs, Active) then Active else Inactive)
  }

  lemma FirstIsOnly(gnbs: seq<GnbCtx>, i: nat)
    requires i < |gnbs| && forall j :: 0 <= j < i ==> gnbs[j].gnbId != gnbs[i].gnbId
    ensures First(gnbs, gnbs[i].gnbId) == i
  {
  }

  lemma UpdateIs<T>(c: seq<T>, c': seq<T>, at: nat, v: T)
    requires |c| == |c'| && at < |c| && c'[at] == v && forall k :: 0 <= k < |c| && k != at ==> c[k] == c'[k]
    ensures c[at := v] == c'
  {
  }

  /** One more answer marks exactly its own context. */
  lemma AnswerMarksOne(base: seq<GnbCtx>, ids: seq<nat>, answers: map<nat, Answer>, done: seq<nat>, id: nat)
    requires forall x :: x in ids ==> x in answers
    requires Distinct(ids) && id in ids && id !in done && forall i :: 0 <= i < |base| ==> base[i].gnbId !in ids
    ensures AnswerIn(Contexts(base, ids, answers, done), id, answers[id].teid, answers[id].success)
            == Contexts(base, ids, answers, done + [id])
  {
    hide Contexts, First;
    var c, c' := Contexts(base, ids, answers, done), Contexts(base, ids, answers, done + [id]);
    var i :| 0 <= i < |ids| && ids[i] == id;
    var at := |base| + i;
    assert c[at] == TargetCtx(id, answers, false) && c'[at] == TargetCtx(id, answers, true);
    forall k | 0 <= k < |c| && k != at
      ensures c[k] == c'[k] && c[k].gnbId != id
    {
      if k >= |base| {
        var x := ids[k - |base|];
        assert x != id && (x in done + [id] <==> x in done);
        assert k == |base| + (k - |base|);
        assert c[k] == TargetCtx(x, answers, x in done) && c'[k] == TargetCtx(x, answers, x in done + [id]);
      }
    }
    FirstIsOnly(c, at);
    UpdateIs(c, c', at, c'[at]);
  }

  lemma PendingIff(base: seq<GnbCtx>, ids: seq<nat>, answers: map<nat, Answer>, done: seq<nat>)
    requires forall x :: x in ids ==> x in answers
    requires forall i :: 0 <= i < |base| ==> base[i].state != Activating
    ensures AnyInState(Contexts(base, ids, answers, done), Activating) <==> exists x :: x in ids && x !in done
  {
    var c := Contexts(base, ids, answers, done);
    if x :| x in ids && x !in done {
      var i :| 0 <= i < |ids| && ids[i] == x;
      assert c[|base| + i].state == Activating;
    }
    if k :| 0 <= k < |c| && c[k].state == Activating {
      assert c[k] == TargetCtx(ids[k - |base|], answers, ids[k - |base|] in done);
      assert ids[k - |base|] in ids;
    }
  }

  /** One answer: the first context of the gNB takes the given TEID and becomes Active on success, keeps its own and
      becomes Inactive on failure, and no other context changes. */
  predicate AnswerTaken(was: seq<GnbCtx>, now: seq<GnbCtx>, id: nat, teid: Option<nat>, success: bool) {
    && |now| == |was|
    && forall i :: 0 <= i < |was| ==>
         now[i] == if was[i].gnbId != id || (exists j :: 0 <= j < i && was[j].gnbId == id) then was[i]
                   else if success then GnbCtx(id, Active, teid) else GnbCtx(id, Inactive, was[i].ulTeid)
  }

  lemma AnswersAreTaken(gnbs: seq<GnbCtx>, id: nat, teid: Option<nat>, success: bool)
    ensures AnswerTaken(gnbs, AnswerIn(gnbs, id, teid, success), id, teid, success)
    ensures AnswerTaken(gnbs, StopIn(gnbs, id), id, teid, false)
  {
    var at := First(gnbs, id);
    forall i | 0 <= i < |gnbs| && i != at && gnbs[i].gnbId == id
      ensures exists j :: 0 <= j < i && gnbs[j].gnbId == id
    {
      assert at < i && gnbs[at].gnbId == id;
    }
  }

  /** The session when exactly the gNBs in `done` have answered, and whether that is all of them. */
  function During(
    s: Session, transport: Transport, ids: seq<nat>, answers: map<nat, Answer>, done: seq<nat>, all: bool): Session
    requires forall x :: x in ids ==> x in answers
  {
    var gnbs := Contexts(s.gnbs, ids, answers, done);
    s.(transport := Some(transport), gnbs := gnbs,
       state := if !all then Activating else if AnyInState(gnbs, Active) then Active else Inactive)
  }

  lemma ActivationStarts(s: Session, transport: Transport, ids: seq<nat>, answers: map<nat, Answer>)
    requires forall x :: x in ids ==> x in answers
    ensures Activated(s, transport, ids) == During(s, transport, ids, answers, [], false)
  {
    assert Contexts(s.gnbs, ids, answers, []) == s.gnbs + Targets(ids);
  }

  lemma ActivationAdvances(
    s: Session, transport: Transport, ids: seq<nat>, answers: map<nat, Answer>, done: seq<nat>, id: nat, all: bool)
    requires forall x :: x in ids ==> x in answers
    requires CanTarget(s, ids) && id in ids && id !in done
    requires all <==> forall x :: x in ids ==> x in done + [id]
    ensures AnswerOf(During(s, transport, ids, answers, done, false), id, answers)
            == (During(s, transport, ids, answers, done + [id], all), all)
  {
    hide Contexts, AnswerIn, AnyInState;
    AnswerMarksOne(s.gnbs, ids, answers, done, id);
    PendingIff(s.gnbs, ids, answers, done + [id]);
  }

  /** After k of n answers, in whatever order, the contexts show exactly who has answered, and the session is
      settled exactly when k = n. */
  lemma {:induction false} ActivationProgress(
    s: Session, transport: Transport, ids: seq<nat>, answers: map<nat, Answer>, order: seq<nat>, k: nat)
    requires CanTarget(s, ids) && Reorders(order, ids) && k <= |order|
    requires forall x :: x in ids ==> x in answers
    ensures AnsweredUpTo(Activated(s, transport, ids), order, answers, k)
            == During(s, transport, ids, answers, order[..k], k == |order|)
    ensures k > 0 ==>
              AnswerOf(AnsweredUpTo(Activated(s, transport, ids), order, answers, k - 1), order[k - 1], answers).1
              == (k == |order|)
  {
    hide During, AnswerOf, Activated;
    assert ids[0] in order;
    if k == 0 {
      ActivationStarts(s, transport, ids, answers);
      assert order[..0] == [];
    } else {
      ActivationProgress(s, transport, ids, answers, order, k - 1);
      var done, id := order[..k - 1], order[k - 1];
      assert order[..k] == done + [id];
      assert k == |order| <==> forall x :: x in ids ==> x in done + [id] by {
        if k < |order| {
          assert order[k] in ids && order[k] !in order[..k];
        }
      }
      ActivationAdvances(s, transport, ids, answers, done, id, k == |order|);
    }
  }

  lemma SameContexts(base: seq<GnbCtx>, ids: seq<nat>, answers: map<nat, Answer>, order: seq<nat>)
    requires Reorders(order, ids) && forall x :: x in ids ==> x in answers
    ensures Contexts(base, ids, answers, order) == Contexts(base, ids, answers, ids)
  {
  }

  /** Order independence. Targets that each answer once leave the session in the same state, in every order: the gNBs
      that were there before as they were, and each target Active with the TEID it answered, or Inactive without one.
      Only the last answer reports completion, and a session that had no gNBs ends Active exactly when some target
      succeeded. */
  lemma ActivationIsOrderIndependent(
    s: Session, transport: Transport, ids: seq<nat>, answers: map<nat, Answer>, order: seq<nat>, k: nat)
    requires CanTarget(s, ids) && Reorders(order, ids) && k < |order|
    requires forall x :: x in ids ==> x in answers
    ensures AnsweredUpTo(Activated(s, transport, ids), order, answers, |order|)
            == ActivationOutcome(s, transport, ids, answers)
    ensures AnswerOf(AnsweredUpTo(Activated(s, transport, ids), order, answers, k), order[k], answers).1
            == (k + 1 == |order|)
    ensures s.gnbs == [] ==>
              (ActivationOutcome(s, transport, ids, answers).state == Active
               <==> exists x :: x in ids && answers[x].success)
    ensures var end := ActivationOutcome(s, transport, ids, answers);
            && end == s.(transport := Some(transport), gnbs := end.gnbs, state := end.state)
            && |end.gnbs| == |s.gnbs| + |ids| && end.gnbs[..|s.gnbs|] == s.gnbs
            && forall i :: 0 <= i < |ids| ==>
                 end.gnbs[|s.gnbs| + i] == if answers[ids[i]].success
                                           then GnbCtx(ids[i], Active, answers[ids[i]].teid)
                                           else GnbCtx(ids[i], Inactive, None)
  {
    hide AnswerOf, Activated, Contexts, AnyInState;
    ActivationProgress(s, transport, ids, answers, order, |order|);
    ActivationProgress(s, transport, ids, answers, order, k + 1);
    assert order[..|order|] == order;
    SameContexts(s.gnbs, ids, answers, order);
    if s.gnbs == [] {
      ActiveIffSomeSuccess(ids, answers);
    }
  }

  lemma ActiveIffSomeSuccess(ids: seq<nat>, answers: map<nat, Answer>)
    requires forall x :: x in ids ==> x in answers
    ensures AnyInState(Contexts([], ids, answers, ids), Active) <==> exists x :: x in ids && answers[x].success
  {
    var c := Contexts([], ids, answers, ids);
    if x :| x in ids && answers[x].success {
      var i :| 0 <= i < |ids| && ids[i] == x;
      assert c[0 + i].state == Active;
    }
    if i :| 0 <= i < |c| && c[i].state == Active {
      assert c[0 + i] == TargetCtx(ids[i], answers, true);
      assert ids[i] in ids && answers[ids[i]].success;
    }
  }

  // ------------------------------------------------------------------------
  // Deactivation
  // ------------------------------------------------------------------------

  function StoppedUpTo(s: Session, order: seq<nat>, k: nat): Session
    requires k <= |order|
  {
    if k == 0 then s else DeactivationAnswer(StoppedUpTo(s, order, k - 1), order[k - 1]).0
  }

  /** Settled: one context per gNB, each Active or Inactive. */
  predicate Settled(s: Session) {
    && (forall i, j :: 0 <= i < j < |s.gnbs| ==> s.gnbs[i].gnbId != s.gnbs[j].gnbId)
    && forall i :: 0 <= i < |s.gnbs| ==> s.gnbs[i].state == Active || s.gnbs[i].state == Inactive
  }

  lemma {:induction false} ActiveIdsAreActive(gnbs: seq<GnbCtx>, x: nat)
    ensures x in ActiveIds(gnbs) <==> exists i :: 0 <= i < |gnbs| && gnbs[i].gnbId == x && gnbs[i].state == Active
  {
    if gnbs == [] {
    } else {
      ActiveIdsAreActive(gnbs[1..], x);
      if i :| 0 <= i < |gnbs[1..]| && gnbs[1..][i].gnbId == x && gnbs[1..][i].state == Active {
        assert gnbs[i + 1] == gnbs[1..][i];
      }
      if i :| 1 <= i < |gnbs| && gnbs[i].gnbId == x && gnbs[i].state == Active {
        assert gnbs[1..][i - 1] == gnbs[i];
      }
    }
  }

  /** In the order of the contexts. */
  lemma {:induction false} ActiveIdsSnoc(gnbs: seq<GnbCtx>, g: GnbCtx)
    ensures ActiveIds(gnbs + [g]) == ActiveIds(gnbs) + if g.state == Active then [g.gnbId] else []
  {
    if gnbs == [] {
    } else {
      ActiveIdsSnoc(gnbs[1..], g);
      assert (gnbs + [g])[1..] == gnbs[1..] + [g];
    }
  }

  function StopCtx(g: GnbCtx, done: seq<nat>): GnbCtx {
    if g.state != Active then g else g.(state := if g.gnbId in done then Inactive else Deactivating)
  }

  function StopContexts(gnbs: seq<GnbCtx>, done: seq<nat>): (r: seq<GnbCtx>)
    ensures |r| == |gnbs| && forall i :: 0 <= i < |r| ==> r[i] == StopCtx(gnbs[i], done)
  {
    seq(|gnbs|, i requires 0 <= i < |gnbs| => StopCtx(gnbs[i], done))
  }

  lemma StopMarksOne(s: Session, done: seq<nat>, id: nat)
    requires Settled(s) && id in ActiveIds(s.gnbs) && id !in done
    ensures StopIn(StopContexts(s.gnbs, done), id) == StopContexts(s.gnbs, done + [id])
  {
    hide ActiveIds, StopContexts, First;
    ActiveIdsAreActive(s.gnbs, id);
    var at :| 0 <= at < |s.gnbs| && s.gnbs[at].gnbId == id && s.gnbs[at].state == Active;
    var c, c' := StopContexts(s.gnbs, done), StopContexts(s.gnbs, done + [id]);
    forall j | 0 <= j < |c|
      ensures c[j].gnbId == s.gnbs[j].gnbId
      ensures j != at ==> c[j] == c'[j] && c[j].gnbId != id
    {
      assert c[j] == StopCtx(s.gnbs[j], done) && c'[j] == StopCtx(s.gnbs[j], done + [id]);
    }
    FirstIsOnly(c, at);
    assert c'[at] == StopCtx(s.gnbs[at], done + [id]) == c[at].(state := Inactive);
    UpdateIs(c, c', at, c'[at]);
  }

  lemma AllStoppedIff(s: Session, done: seq<nat>)
    requires Settled(s)
    ensures AllInState(StopContexts(s.gnbs, done), Inactive) <==> forall x :: x in ActiveIds(s.gnbs) ==> x in done
  {
    var c := StopContexts(s.gnbs, done);
    if AllInState(c, Inactive) {
      forall x | x in ActiveIds(s.gnbs)
        ensures x in done
      {
        ActiveIdsAreActive(s.gnbs, x);
        var i :| 0 <= i < |s.gnbs| && s.gnbs[i].gnbId == x && s.gnbs[i].state == Active;
        assert c[i].state == Inactive;
      }
    }
    if forall x :: x in ActiveIds(s.gnbs) ==> x in done {
      forall i | 0 <= i < |c|
        ensures c[i].state == Inactive
      {
        ActiveIdsAreActive(s.gnbs, s.gnbs[i].gnbId);
      }
    }
  }

  function Stopping(s: Session, done: seq<nat>, all: bool): Session {
    s.(gnbs := StopContexts(s.gnbs, done), state := if all then Inactive else Deactivating)
  }

  lemma DeactivationStarts(s: Session)
    ensures Deactivated(s) == Stopping(s, [], false)
  {
    assert Deactivated(s).gnbs == StopContexts(s.gnbs, []);
  }

  lemma DeactivationAdvances(s: Session, done: seq<nat>, id: nat, all: bool)
    requires Settled(s) && id in ActiveIds(s.gnbs) && id !in done
    requires all <==> forall x :: x in ActiveIds(s.gnbs) ==> x in done + [id]
    ensures DeactivationAnswer(Stopping(s, done, false), id) == (Stopping(s, done + [id], all), all)
  {
    hide StopContexts, StopIn, AllInState;
    StopMarksOne(s, done, id);
    AllStoppedIff(s, done + [id]);
  }

  /** From a settled session with an Active gNB, deactivation asks exactly the Active gNBs, and when each of them has
      answered, in whatever order, the session and all its gNBs are Inactive; only the last answer reports it. */
  lemma {:induction false} DeactivationIsOrderIndependent(s: Session, order: seq<nat>, k: nat)
    requires Settled(s) && AnyInState(s.gnbs, Active) && Reorders(order, ActiveIds(s.gnbs)) && k <= |order|
    ensures StoppedUpTo(Deactivated(s), order, k) == Stopping(s, order[..k], k == |order|)
    ensures k > 0 ==> DeactivationAnswer(StoppedUpTo(Deactivated(s), order, k - 1), order[k - 1]).1 == (k == |order|)
    ensures k == |order| ==> AllInState(Stopping(s, order[..k], true).gnbs, Inactive)
    ensures k == |order| ==>
              var end := StoppedUpTo(Deactivated(s), order, k);
              && end == s.(state := Inactive, gnbs := end.gnbs) && |end.gnbs| == |s.gnbs|
              && forall i :: 0 <= i < |s.gnbs| ==> end.gnbs[i] == s.gnbs[i].(state := Inactive)
  {
    hide Stopping, DeactivationAnswer, Deactivated;
    DeactivationAsksIff(s);
    assert ActiveIds(s.gnbs)[0] in order;
    if k == 0 {
      DeactivationStarts(s);
      assert order[..0] == [];
    } else {
      DeactivationIsOrderIndependent(s, order, k - 1);
      var done, id := order[..k - 1], order[k - 1];
      assert order[..k] == done + [id];
      assert k == |order| <==> forall x :: x in ActiveIds(s.gnbs) ==> x in done + [id] by {
        if k < |order| {
          assert order[k] in ActiveIds(s.gnbs) && order[k] !in order[..k];
        }
      }
      DeactivationAdvances(s, done, id, k == |order|);
      if k == |order| {
        AllStopped(s, order[..k]);
      }
    }
  }

  lemma AllStopped(s: Session, done: seq<nat>)
    requires Settled(s) && forall x :: x in ActiveIds(s.gnbs) ==> x in done
    ensures AllInState(Stopping(s, done, true).gnbs, Inactive)
    ensures var end := Stopping(s, done, true);
            && end == s.(state := Inactive, gnbs := end.gnbs) && |end.gnbs| == |s.gnbs|
            && forall i :: 0 <= i < |s.gnbs| ==> end.gnbs[i] == s.gnbs[i].(state := Inactive)
  {
    AllStoppedIff(s, done);
  }

  /** An activation of a session without gNBs always ends settled, so the two theorems chain. */
  lemma ActivationEndsSettled(s: Session, transport: Transport, ids: seq<nat>, answers: map<nat, Answer>)
    requires s.gnbs == [] && Distinct(ids) && forall x :: x in ids ==> x in answers
    ensures Settled(ActivationOutcome(s, transport, ids, answers))
    ensures ActivationOutcome(s, transport, ids, answers).state == Active ==>
              AnyInState(ActivationOutcome(s, transport, ids, answers).gnbs, Active)
  {
  }

  lemma ActiveAfterActivation(s: Session, transport: Transport, ids: seq<nat>, answers: map<nat, Answer>, x: nat)
    requires s.gnbs == [] && forall x :: x in ids ==> x in answers
    ensures x in ActiveIds(ActivationOutcome(s, transport, ids, answers).gnbs) <==> x in ids && answers[x].success
  {
    var c := Contexts([], ids, answers, ids);
    ActiveIdsAreActive(c, x);
    if x in ids && answers[x].success {
      var i :| 0 <= i < |ids| && ids[i] == x;
      assert c[0 + i] == TargetCtx(x, answers, true);
    }
    if i :| 0 <= i < |c| && c[i].gnbId == x && c[i].state == Active {
      assert c[0 + i] == TargetCtx(ids[i], answers, true);
    }
  }

  /** The whole life of a session without earlier gNBs: after the targets have answered in any order, at least one of
      them with success, deactivation asks exactly those that succeeded, and after their answers in any order the
      session and all its gNBs are Inactive. */
  lemma SessionLife(
    s: Session, transport: Transport, ids: seq<nat>, answers: map<nat, Answer>, order: seq<nat>, stops: seq<nat>)
    requires s.gnbs == [] && CanTarget(s, ids) && Reorders(order, ids)
    requires (forall x :: x in ids ==> x in answers) && exists x :: x in ids && answers[x].success
    requires Distinct(stops) && forall x :: x in stops <==> x in ids && answers[x].success
    ensures var up := AnsweredUpTo(Activated(s, transport, ids), order, answers, |order|);
            var down := StoppedUpTo(Deactivated(up), stops, |stops|);
            && (forall x :: x in ActiveIds(up.gnbs) <==> x in ids && answers[x].success)
            && up.state == Active && down.state == Inactive && AllInState(down.gnbs, Inactive)
  {
    hide AnswerOf, Activated, Deactivated, DeactivationAnswer, Contexts, AnyInState, AllInState, ActiveIds;
    var up := ActivationOutcome(s, transport, ids, answers);
    assert ids[0] in order;
    ActivationIsOrderIndependent(s, transport, ids, answers, order, 0);
    ActivationEndsSettled(s, transport, ids, answers);
    forall x
      ensures x in ActiveIds(up.gnbs) <==> x in ids && answers[x].success
    {
      ActiveAfterActivation(s, transport, ids, answers, x);
    }
    DeactivationIsOrderIndependent(up, stops, |stops|);
  }

  /** Without an Active gNB deactivation asks nobody and leaves the session waiting in Deactivating. */
  lemma DeactivationAsksIff(s: Session)
    ensures ActiveIds(s.gnbs) != [] <==> AnyInState(s.gnbs, Active)
    ensures Deactivated(s).state == Deactivating
  {
    if AnyInState(s.gnbs, Active) {
      var i :| 0 <= i < |s.gnbs| && s.gnbs[i].state == Active;
      ActiveIdsAreActive(s.gnbs, s.gnbs[i].gnbId);
    }
    if ActiveIds(s.gnbs) != [] {
      ActiveIdsAreActive(s.gnbs, ActiveIds(s.gnbs)[0]);
    }
  }

  // ------------------------------------------------------------------------
  // Safety in every run, whatever answers arrive
  // ------------------------------------------------------------------------

  /** A pending gNB means a session that is Activating or Deactivating; an Inactive session has no Active and no
      pending gNB. */
  predicate Coherent(s: Session) {
    && (AnyInState(s.gnbs, Activating) ==> s.state == Activating || s.state == Deactivating)
    && (s.state == Inactive ==> !AnyInState(s.gnbs, Active) && !AnyInState(s.gnbs, Activating))
  }

  /** An answer never makes a gNB pending. */
  lemma AnswersDoNotPend(gnbs: seq<GnbCtx>, id: nat, teid: Option<nat>, success: bool)
    ensures AnyInState(AnswerIn(gnbs, id, teid, success), Activating) ==> AnyInState(gnbs, Activating)
  {
    var after := AnswerIn(gnbs, id, teid, success);
    if i :| 0 <= i < |after| && after[i].state == Activating {
      assert gnbs[i].state == Activating;
    }
  }

  lemma StopsDoNotStart(gnbs: seq<GnbCtx>, id: nat, state: State)
    requires state != Inactive
    ensures AnyInState(StopIn(gnbs, id), state) ==> AnyInState(gnbs, state)
  {
    var after := StopIn(gnbs, id);
    if i :| 0 <= i < |after| && after[i].state == state {
      assert gnbs[i].state == state;
    }
  }

  lemma StepIsCoherent(s: Session, op: Op)
    requires Coherent(s)
    ensures Coherent(SessionStep(s, op))
  {
    if op.AnswerActivation? {
      hide AnswerIn;
      AnswersDoNotPend(s.gnbs, op.gnb, op.teid, op.success);
    } else if op.AnswerDeactivation? {
      StopsDoNotStart(s.gnbs, op.gnb, Activating);
      StopsDoNotStart(s.gnbs, op.gnb, Active);
    }
  }

  predicate AllCoherent(m: Mcast) {
    forall i :: i in m.sessions ==> Coherent(m.sessions[i])
  }

  lemma ContextStepIsCoherent(m: Mcast, op: Op)
    requires AllCoherent(m)
    ensures AllCoherent(Step(m, op))
  {
    hide Coherent, SessionStep;
    if op.Create? {
      NewIsCoherent(op.tmgi, m.next, op.sst, op.sd, op.areaTacs);
    } else if !op.Remove? && op.session in m.sessions {
      StepIsCoherent(m.sessions[op.session], op);
    }
  }

  /** Every session of every reachable state is coherent, with duplicate, late and unsolicited answers included. */
  lemma {:induction false} RunsAreCoherent(m: Mcast, run: seq<Op>, n: nat)
    requires AllCoherent(m) && n <= |run|
    ensures AllCoherent(After(m, run, n))
  {
    hide AllCoherent, Step;
    if n == 0 {
    } else {
      RunsAreCoherent(m, run, n - 1);
      ContextStepIsCoherent(After(m, run, n - 1), run[n - 1]);
    }
  }

  lemma NewIsCoherent(tmgi: Tmgi, id: nat, sst: int, sd: Option<nat>, tacs: seq<nat>)
    requires 0 <= sst < 256
    ensures Coherent(Session(tmgi, id, Inactive, None, [], sst, sd, tacs))
  {
  }

  /** An Active session has an Active gNB. */
  predicate Served(s: Session) {
    s.state == Active ==> AnyInState(s.gnbs, Active)
  }

  /** A deactivation answer from the last Active gNB of an Active session, while another gNB is still not Inactive. */
  predicate StrandsSession(s: Session, gnb: nat) {
    var i := First(s.gnbs, gnb);
    && s.state == Active && i < |s.gnbs|
    && (forall j :: 0 <= j < |s.gnbs| && j != i ==> s.gnbs[j].state != Active)
    && (exists j :: 0 <= j < |s.gnbs| && j != i && s.gnbs[j].state != Inactive)
  }

  /** Every step keeps an Active session served, except for exactly that kind of deactivation answer. */
  lemma StepIsServedIff(s: Session, op: Op)
    requires Coherent(s) && Served(s)
    ensures Served(SessionStep(s, op)) <==> !(op.AnswerDeactivation? && StrandsSession(s, op.gnb))
  {
    if op.AnswerActivation? {
      hide AnswerIn;
      AnswersDoNotPend(s.gnbs, op.gnb, op.teid, op.success);
    } else if op.AnswerDeactivation? {
      StopIsServedIff(s, op.gnb);
    }
  }

  lemma StopIsServedIff(s: Session, gnb: nat)
    requires Served(s)
    ensures Served(DeactivationAnswer(s, gnb).0) <==> !StrandsSession(s, gnb)
  {
    var i, after := First(s.gnbs, gnb), StopIn(s.gnbs, gnb);
    if s.state == Active && i < |s.gnbs| {
      assert forall j :: 0 <= j < |after| && j != i ==> after[j] == s.gnbs[j];
      assert after[i].state == Inactive;
      if j :| 0 <= j < |s.gnbs| && j != i && s.gnbs[j].state == Active {
        assert after[j].state == Active;
      } else {
        assert !AnyInState(after, Active);
        assert AllInState(after, Inactive) <==> forall j :: 0 <= j < |s.gnbs| && j != i ==> s.gnbs[j].state == Inactive;
      }
    }
  }

  predicate AllServed(m: Mcast) {
    forall i :: i in m.sessions ==> Served(m.sessions[i])
  }

  /** The step is such an answer. */
  predicate Strands(m: Mcast, op: Op) {
    op.AnswerDeactivation? && op.session in m.sessions && StrandsSession(m.sessions[op.session], op.gnb)
  }

  lemma ContextStepIsServedIff(m: Mcast, op: Op)
    requires AllCoherent(m) && AllServed(m)
    ensures AllServed(Step(m, op)) <==> !Strands(m, op)
  {
    hide Coherent, SessionStep, StrandsSession;
    if !op.Create? && !op.Remove? && op.session in m.sessions {
      StepIsServedIff(m.sessions[op.session], op);
      assert Step(m, op).sessions[op.session] == SessionStep(m.sessions[op.session], op);
    }
  }

  /** Every Active session has an Active gNB in every state of the first `n` operations. */
  predicate ServedThroughout(m: Mcast, run: seq<Op>, n: nat)
    requires n <= |run|
  {
    AllServed(After(m, run, n)) && (n > 0 ==> ServedThroughout(m, run, n - 1))
  }

  /** None of the first `n` operations strands a session. */
  predicate NoneStrands(m: Mcast, run: seq<Op>, n: nat)
    requires n <= |run|
  {
    n > 0 ==> NoneStrands(m, run, n - 1) && !Strands(After(m, run, n - 1), run[n - 1])
  }

  /** In every reachable state every Active session has an Active gNB, if and only if no step of the run is a
      deactivation answer that strands its session. */
  lemma {:induction false} RunsAreServedIff(m: Mcast, run: seq<Op>, n: nat)
    requires AllCoherent(m) && AllServed(m) && n <= |run|
    ensures ServedThroughout(m, run, n) <==> NoneStrands(m, run, n)
  {
    hide Step, AllCoherent, AllServed, Strands;
    if n == 0 {
    } else {
      RunsAreServedIff(m, run, n - 1);
      RunsAreCoherent(m, run, n - 1);
      if ServedThroughout(m, run, n - 1) {
        ContextStepIsServedIff(After(m, run, n - 1), run[n - 1]);
      }
    }
  }

  /** The deactivation answers of the run come only from gNBs that are Deactivating. */
  predicate AnswersWhenAsked(m: Mcast, op: Op) {
    op.AnswerDeactivation? && op.session in m.sessions ==>
      var gnbs := m.sessions[op.session].gnbs;
      First(gnbs, op.gnb) < |gnbs| && gnbs[First(gnbs, op.gnb)].state == Deactivating
  }

  lemma AskedDoesNotStrand(m: Mcast, op: Op)
    requires AllServed(m) && AnswersWhenAsked(m, op)
    ensures !Strands(m, op)
  {
  }

  /** So gNBs that answer only when they have been asked leave every Active session with an Active gNB. */
  lemma {:induction false} RunsAreServed(m: Mcast, run: seq<Op>, n: nat)
    requires AllCoherent(m) && AllServed(m) && n <= |run|
    requires forall k :: 0 <= k < |run| ==> AnswersWhenAsked(After(m, run, k), run[k])
    ensures ServedThroughout(m, run, n) && NoneStrands(m, run, n)
  {
    hide Step, AllCoherent, AllServed, AnswersWhenAsked, Strands;
    if n == 0 {
    } else {
      RunsAreServed(m, run, n - 1);
      assert AnswersWhenAsked(After(m, run, n - 1), run[n - 1]);
      AskedDoesNotStrand(After(m, run, n - 1), run[n - 1]);
      RunsAreServedIff(m, run, n);
    }
  }

  /** Without that discipline a session can be stranded: a late activation answer revives one gNB while another is
      still Deactivating, and then the revived one stops. */
  lemma UnaskedAnswerStrands(tmgi: Tmgi, transport: Transport)
    ensures var s0 := Session(tmgi, 1, Inactive, None, [], 1, None, []);
            var s1 := Activated(s0, transport, [10, 20]);
            var s2 := ActivationAnswer(ActivationAnswer(s1, 10, None, true).0, 20, None, true).0;
            var s3 := ActivationAnswer(Deactivated(s2), 10, None, true).0;
            var s4 := DeactivationAnswer(s3, 10).0;
            s4.state == Active && !AnyInState(s4.gnbs, Active)
  {
    var s0 := Session(tmgi, 1, Inactive, None, [], 1, None, []);
    var s1 := Activated(s0, transport, [10, 20]);
    assert s1.gnbs == [GnbCtx(10, Activating, None), GnbCtx(20, Activating, None)];
    var a := ActivationAnswer(s1, 10, None, true).0;
    assert First(s1.gnbs, 10) == 0;
    assert a.gnbs == [GnbCtx(10, Active, None), GnbCtx(20, Activating, None)];
    assert a.gnbs[1].state == Activating;
    var s2 := ActivationAnswer(a, 20, None, true).0;
    assert First(a.gnbs, 20) == 1;
    assert s2.gnbs == [GnbCtx(10, Active, None), GnbCtx(20, Active, None)];
    assert s2.gnbs[0].state == Active;
    var d := Deactivated(s2);
    assert d.gnbs == [GnbCtx(10, Deactivating, None), GnbCtx(20, Deactivating, None)];
    var s3 := ActivationAnswer(d, 10, None, true).0;
    assert First(d.gnbs, 10) == 0;
    assert s3.gnbs == [GnbCtx(10, Active, None), GnbCtx(20, Deactivating, None)];
    assert s3.gnbs[0].state == Active;
    var s4 := DeactivationAnswer(s3, 10).0;
    assert First(s3.gnbs, 10) == 0;
    assert s4.gnbs == [GnbCtx(10, Inactive, None), GnbCtx(20, Deactivating, None)];
    assert s4.gnbs[1].state == Deactivating;
  }

  // ------------------------------------------------------------------------
  // The TMGI index
  // ------------------------------------------------------------------------

  function Tmgis(m: Mcast): map<nat, Tmgi> {
    map i | i in m.sessions :: m.sessions[i].tmgi
  }

  predicate IdsIssued(m: Mcast) {
    forall i :: i in m.sessions ==> i < m.next && m.sessions[i].id == i
  }

  /** The TMGI that the operation gives out is carried by no live session. */
  ghost predicate TmgiFree(m: Mcast, op: Op) {
    op.Create? ==> forall i :: i in Tmgis(m) ==> Tmgis(m)[i] != op.tmgi
  }

  lemma StepMovesTmgis(m: Mcast, op: Op)
    requires IdsIssued(m)
    ensures IdsIssued(Step(m, op))
    ensures op.Create? ==> Tmgis(Step(m, op)) == Tmgis(m)[m.next := op.tmgi] && m.next !in Tmgis(m)
    ensures op.Remove? ==> Tmgis(Step(m, op)) == Tmgis(m) - {op.session}
    ensures !op.Create? && !op.Remove? ==> Tmgis(Step(m, op)) == Tmgis(m)
  {
  }

  /** Every index entry points to a live session with that TMGI; finding by TMGI stays the same as scanning the
      sessions if and only if a new session's TMGI is not in use. */
  lemma StepKeepsTmgiIndex(m: Mcast, op: Op)
    requires IdsIssued(m) && Sound(Tmgis(m), m.tmgiIndex)
    ensures Sound(Tmgis(Step(m, op)), Step(m, op).tmgiIndex)
    ensures Complete(Tmgis(m), m.tmgiIndex) ==>
              (Complete(Tmgis(Step(m, op)), Step(m, op).tmgiIndex) <==> TmgiFree(m, op))
  {
    StepMovesTmgis(m, op);
    if op.Create? {
      RekeySound(Tmgis(m), m.tmgiIndex, m.next, op.tmgi);
      if Complete(Tmgis(m), m.tmgiIndex) {
        RekeyComplete(Tmgis(m), m.tmgiIndex, m.next, op.tmgi);
      }
    } else if op.Remove? {
      ForgetSound(Tmgis(m), m.tmgiIndex, op.session);
      if Complete(Tmgis(m), m.tmgiIndex) {
        ForgetComplete(Tmgis(m), m.tmgiIndex, op.session);
      }
    }
  }

  /** What the context object maintains: coherent sessions under their own ids and a sound TMGI index. */
  ghost predicate Clean(m: Mcast) {
    AllCoherent(m) && IdsIssued(m) && Sound(Tmgis(m), m.tmgiIndex)
  }

  lemma StepClean(m: Mcast, op: Op)
    requires Clean(m)
    ensures Clean(Step(m, op))
  {
    hide Step, AllCoherent;
    ContextStepIsCoherent(m, op);
    StepMovesTmgis(m, op);
    StepKeepsTmgiIndex(m, op);
  }

  lemma {:induction false} RunsAreClean(m: Mcast, run: seq<Op>, n: nat)
    requires Clean(m) && n <= |run|
    ensures Clean(After(m, run, n))
  {
    hide Step, Clean;
    if n == 0 {
    } else {
      RunsAreClean(m, run, n - 1);
      StepClean(After(m, run, n - 1), run[n - 1]);
    }
  }

  /** Finding a session by its TMGI is the same as scanning all sessions for it. */
  ghost predicate TmgisExact(m: Mcast) {
    Complete(Tmgis(m), m.tmgiIndex)
  }

  ghost predicate TmgisExactThroughout(m: Mcast, run: seq<Op>, n: nat)
    requires n <= |run|
  {
    TmgisExact(After(m, run, n)) && (n > 0 ==> TmgisExactThroughout(m, run, n - 1))
  }

  ghost predicate TmgisGivenOnce(m: Mcast, run: seq<Op>, n: nat)
    requires n <= |run|
  {
    n > 0 ==> TmgisGivenOnce(m, run, n - 1) && TmgiFree(After(m, run, n - 1), run[n - 1])
  }

  /** Finding by TMGI is scanning at every point of a run, if and only if every session is created with a TMGI that no
      live session carries. */
  lemma {:induction false} TmgisStayExactIff(m: Mcast, run: seq<Op>, n: nat)
    requires Clean(m) && TmgisExact(m) && n <= |run|
    ensures TmgisExactThroughout(m, run, n) <==> TmgisGivenOnce(m, run, n)
  {
    hide Step, TmgiFree, AllCoherent, IdsIssued, Sound, Complete;
    if n == 0 {
    } else {
      TmgisStayExactIff(m, run, n - 1);
      RunsAreClean(m, run, n - 1);
      if TmgisExactThroughout(m, run, n - 1) {
        StepKeepsTmgiIndex(After(m, run, n - 1), run[n - 1]);
      }
    }
  }

  /** Whatever the state, of two sessions created with one TMGI the second cannot be found once the first is gone. */
  lemma DuplicateTmgiHidesSession(m: Mcast, create: Op)
    requires create.Create?
    ensures var m' := Step(Step(Step(m, create), create), Remove(m.next));
            && m.next + 1 in m'.sessions && m'.sessions[m.next + 1].tmgi == create.tmgi
            && create.tmgi !in m'.tmgiIndex
  {
  }

  /** The new context satisfies everything that runs keep. */
  lemma NewContextIsClean()
    ensures Clean(NEW_MCAST) && AllServed(NEW_MCAST) && TmgisExact(NEW_MCAST)
  {
  }
}
