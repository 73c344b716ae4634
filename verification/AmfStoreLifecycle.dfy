/** Lifetimes in the AMF context: parents and children, ids that are never issued twice, capacity. */
module AmfStoreLifecycle {
  import opened Wrappers
  import opened IdentityCodec
  import opened AmfStore
  import opened AmfStoreProofs

  // ------------------------------------------------------------------------
  // Referential integrity
  // ------------------------------------------------------------------------

  /** Every RAN UE hangs off a live gNB and every session off a live UE. */
  predicate ParentsLive(s: Store) {
    && (forall i :: i in s.ranUes.list ==> s.ranUes.list[i].gnb in s.gnbs.list)
    && (forall i :: i in s.sessions.list ==> s.sessions.list[i].amfUe in s.amfUes.list)
  }

  /** If the operation adds a child or moves one, the parent it names is live. */
  predicate NamesLiveParent(s: Store, op: Op) {
    match op
    case RanUeAdd(gnb, _) => |s.ranUes.list| < s.ranUes.max ==> gnb in s.gnbs.list
    case RanUeUpdate(r) => r.id in s.ranUes.list ==> r.gnb in s.gnbs.list
    case RanUeSwitch(id, gnb) => id in s.ranUes.list ==> gnb in s.gnbs.list
    case SessAdd(ue, _) => |s.sessions.list| < s.sessions.max ==> ue in s.amfUes.list
    case SessUpdate(r) => r.id in s.sessions.list ==> r.amfUe in s.amfUes.list
    case _ => true
  }

  /** If the operation takes parents away, they have no children at that moment. */
  predicate TakesChildless(s: Store, op: Op) {
    match op
    case GnbsClear => s.ranUes.list == map[]
    case UeTake(ue) => forall i :: i in s.sessions.list ==> s.sessions.list[i].amfUe != ue
    case UesClear => s.sessions.list == map[]
    case _ => true
  }

  lemma RanUeParentsIff(s: Store, op: Op)
    requires ParentsLive(s)
    ensures var s' := Step(s, op);
            (forall i :: i in s'.ranUes.list ==> s'.ranUes.list[i].gnb in s'.gnbs.list)
            <==> (op.RanUeAdd? || op.RanUeUpdate? || op.RanUeSwitch? ==> NamesLiveParent(s, op))
                 && (op.GnbsClear? ==> TakesChildless(s, op))
  {
    var s' := Step(s, op);
    if op.RanUeAdd? && |s.ranUes.list| < s.ranUes.max {
      assert s'.ranUes.list[s.ranUes.next].gnb == op.gnb;
    } else if op.RanUeUpdate? && op.ranUeRecord.id in s.ranUes.list {
      assert s'.ranUes.list[op.ranUeRecord.id].gnb == op.ranUeRecord.gnb;
    } else if op.RanUeSwitch? && op.ranUe in s.ranUes.list {
      assert s'.ranUes.list[op.ranUe].gnb == op.gnb;
    }
  }

  lemma SessParentsIff(s: Store, op: Op)
    requires ParentsLive(s)
    ensures var s' := Step(s, op);
            (forall i :: i in s'.sessions.list ==> s'.sessions.list[i].amfUe in s'.amfUes.list)
            <==> (op.SessAdd? || op.SessUpdate? ==> NamesLiveParent(s, op))
                 && (op.UeTake? || op.UesClear? ==> TakesChildless(s, op))
  {
    var s' := Step(s, op);
    if op.SessAdd? && |s.sessions.list| < s.sessions.max {
      assert s'.sessions.list[s.sessions.next].amfUe == op.ue;
    } else if op.SessUpdate? && op.sessRecord.id in s.sessions.list {
      assert s'.sessions.list[op.sessRecord.id].amfUe == op.sessRecord.amfUe;
    }
  }

  /** Each of the first `n` operations names live parents and takes away only childless ones. */
  predicate RunNamesLiveParents(s: Store, run: seq<Op>, n: nat)
    requires n <= |run|
  {
    n > 0 ==>
      && RunNamesLiveParents(s, run, n - 1)
      && NamesLiveParent(After(s, run, n - 1), run[n - 1]) && TakesChildless(After(s, run, n - 1), run[n - 1])
  }

  predicate ParentsLiveThroughout(s: Store, run: seq<Op>, n: nat)
    requires n <= |run|
  {
    ParentsLive(After(s, run, n)) && (n > 0 ==> ParentsLiveThroughout(s, run, n - 1))
  }

  /** Every state of a run, also between the sections of a removal, has all parents live if and only if children are
      only ever given live parents and parents are only ever taken away without children. */
  lemma {:induction false} ParentsStayLiveIff(s: Store, run: seq<Op>, n: nat)
    requires ParentsLive(s) && n <= |run|
    ensures ParentsLiveThroughout(s, run, n) <==> RunNamesLiveParents(s, run, n)
  {
    hide Step;
    if n == 0 {
    } else {
      ParentsStayLiveIff(s, run, n - 1);
      if ParentsLiveThroughout(s, run, n - 1) {
        RanUeParentsIff(After(s, run, n - 1), run[n - 1]);
        SessParentsIff(After(s, run, n - 1), run[n - 1]);
      }
    }
  }

  // A removal takes the parent in one section and its children in the next. In between there are orphans, but only
  // those whose removal is under way.

  /** The operation takes the UE away and leaves its sessions to a later section. */
  predicate TakesUe(op: Op, ue: nat) {
    op == UeTake(ue) || op == UesClear
  }

  /** The operation drops the sessions of the UE. */
  predicate DropsSessions(op: Op, ue: nat) {
    op == UeDropSessions(ue) || op == SessionsClear
  }

  /** Before step `n` the UE was taken away at step `i` and its sessions have not been dropped since. */
  predicate SessionsPending(run: seq<Op>, i: nat, n: nat, ue: nat) {
    i < n <= |run| && TakesUe(run[i], ue) && forall k :: i < k < n ==> !DropsSessions(run[k], ue)
  }

  /** Where a session and its UE come from: the session was there, or it is added or rewritten. */
  lemma SessOrigin(t: Sessions, initialized: bool, op: Op, x: nat)
    requires x in SessStep(t, initialized, op).list
    ensures var ue := SessStep(t, initialized, op).list[x].amfUe;
            || (x in t.list && t.list[x].amfUe == ue && !DropsSessions(op, ue) && !(op.Fini? && initialized))
            || (op.SessAdd? && |t.list| < t.max && op.ue == ue)
            || (op.SessUpdate? && op.sessRecord.id in t.list && op.sessRecord.amfUe == ue)
  {
  }

  lemma UeLeaves(u: AmfUes, r: RanUes, initialized: bool, op: Op, ue: nat)
    ensures ue in u.list && ue !in UeStep(u, r, initialized, op).list ==>
              TakesUe(op, ue) || (op.Fini? && initialized)
  {
  }

  /** A session is an orphan after a step only if its UE is taken in that step or it was an orphan before. */
  lemma OrphanSessionStep(s: Store, op: Op, x: nat)
    requires NamesLiveParent(s, op)
    requires var s' := Step(s, op); x in s'.sessions.list && s'.sessions.list[x].amfUe !in s'.amfUes.list
    ensures var ue := Step(s, op).sessions.list[x].amfUe;
            || (ue in s.amfUes.list && TakesUe(op, ue))
            || (ue !in s.amfUes.list && x in s.sessions.list && s.sessions.list[x].amfUe == ue
                && !DropsSessions(op, ue))
  {
    hide GnbStep, RanUeStep, UeStep, SessStep;
    SessOrigin(s.sessions, s.initialized, op, x);
    UeLeaves(s.amfUes, s.ranUes, s.initialized, op, Step(s, op).sessions.list[x].amfUe);
  }

  /** In every run that names live parents, every session whose UE is not live belongs to a removal under way: the UE
      was taken away and the section that drops its sessions has not run yet. */
  lemma {:induction false} OrphanSessionsArePending(s: Store, run: seq<Op>, n: nat, x: nat) returns (i: nat)
    requires ParentsLive(s) && n <= |run|
    requires forall k :: 0 <= k < n ==> NamesLiveParent(After(s, run, k), run[k])
    requires x in After(s, run, n).sessions.list
    requires After(s, run, n).sessions.list[x].amfUe !in After(s, run, n).amfUes.list
    ensures SessionsPending(run, i, n, After(s, run, n).sessions.list[x].amfUe)
  {
    hide Step, NamesLiveParent, TakesUe, DropsSessions;
    if n == 0 {
      assert false;
    } else {
      var before, op := After(s, run, n - 1), run[n - 1];
      var ue := After(s, run, n).sessions.list[x].amfUe;
      OrphanSessionStep(before, op, x);
      if ue in before.amfUes.list {
        i := n - 1;
      } else {
        i := OrphanSessionsArePending(s, run, n - 1, x);
      }
    }
  }

  /** The same for RAN UEs: only the removal of all gNBs leaves orphans, until it clears the RAN UEs. */
  predicate RanUesPending(run: seq<Op>, i: nat, n: nat) {
    i < n <= |run| && run[i].GnbsClear? && forall k :: i < k < n ==> !run[k].RanUesClear?
  }

  lemma OrphanRanUeStep(s: Store, op: Op, x: nat)
    requires NamesLiveParent(s, op)
    requires var s' := Step(s, op); x in s'.ranUes.list && s'.ranUes.list[x].gnb !in s'.gnbs.list
    ensures || op.GnbsClear?
            || (!op.RanUesClear? && x in s.ranUes.list && s.ranUes.list[x].gnb !in s.gnbs.list)
  {
  }

  lemma {:induction false} OrphanRanUesArePending(s: Store, run: seq<Op>, n: nat, x: nat) returns (i: nat)
    requires ParentsLive(s) && n <= |run|
    requires forall k :: 0 <= k < n ==> NamesLiveParent(After(s, run, k), run[k])
    requires x in After(s, run, n).ranUes.list
    requires After(s, run, n).ranUes.list[x].gnb !in After(s, run, n).gnbs.list
    ensures RanUesPending(run, i, n)
  {
    hide Step, NamesLiveParent;
    if n == 0 {
      assert false;
    } else {
      OrphanRanUeStep(After(s, run, n - 1), run[n - 1], x);
      if run[n - 1].GnbsClear? {
        i := n - 1;
      } else {
        i := OrphanRanUesArePending(s, run, n - 1, x);
      }
    }
  }

  /** No removal is between its sections after the first `n` operations. */
  predicate NoneUnderWay(run: seq<Op>, n: nat)
    requires n <= |run|
  {
    && (forall i :: 0 <= i < n && run[i].UeTake? ==> !SessionsPending(run, i, n, run[i].ue))
    && (forall i :: 0 <= i < n && run[i].UesClear? ==> exists k :: i < k < n && run[k].SessionsClear?)
    && (forall i :: 0 <= i < n && run[i].GnbsClear? ==> exists k :: i < k < n && run[k].RanUesClear?)
  }

  /** Between whole calls every child has its parent: if children were only given live parents, and every removal that
      took parents away has dropped their children since, all parents are live. */
  lemma ParentsLiveBetweenCalls(s: Store, run: seq<Op>, n: nat)
    requires ParentsLive(s) && n <= |run| && NoneUnderWay(run, n)
    requires forall k :: 0 <= k < n ==> NamesLiveParent(After(s, run, k), run[k])
    ensures ParentsLive(After(s, run, n))
  {
    hide After, NamesLiveParent;
    var s' := After(s, run, n);
    forall x | x in s'.sessions.list
      ensures s'.sessions.list[x].amfUe in s'.amfUes.list
    {
      if s'.sessions.list[x].amfUe !in s'.amfUes.list {
        var i := OrphanSessionsArePending(s, run, n, x);
      }
    }
    forall x | x in s'.ranUes.list
      ensures s'.ranUes.list[x].gnb in s'.gnbs.list
    {
      if s'.ranUes.list[x].gnb !in s'.gnbs.list {
        var i := OrphanRanUesArePending(s, run, n, x);
      }
    }
  }

  /** A session may be given a UE that does not exist, and then hangs off nothing. */
  lemma SessionOfNobody()
    ensures var s := After(NEW_STORE, [Init(1, 1, 1), SessAdd(7, 5)], 2);
            1 in s.sessions.list && s.sessions.list[1].amfUe == 7 && 7 !in s.amfUes.list
  {
    var run := [Init(1, 1, 1), SessAdd(7, 5)];
    var s1 := After(NEW_STORE, run, 1);
    assert s1.sessions == Sessions(map[], 1, 1) && s1.amfUes.list == map[];
    assert After(NEW_STORE, run, 2) == Step(s1, SessAdd(7, 5));
  }

  /** Removing a live parent, all sections run, removes exactly its children, and nothing of the other family. */
  lemma RemovalIsExact(s: Store, id: nat, child: nat)
    ensures id in s.gnbs.list ==>
              var s' := Step(s, GnbRemove(id));
              && s'.gnbs.list.Keys == s.gnbs.list.Keys - {id}
              && (child in s'.ranUes.list <==> child in s.ranUes.list && s.ranUes.list[child].gnb != id)
              && (child in s'.ranUes.list ==> s'.ranUes.list[child] == s.ranUes.list[child])
              && s'.amfUes == s.amfUes && s'.sessions == s.sessions
    ensures id in s.amfUes.list ==>
              var s' := Step(Step(s, UeTake(id)), UeDropSessions(id));
              && s'.amfUes.list.Keys == s.amfUes.list.Keys - {id}
              && (child in s'.sessions.list <==> child in s.sessions.list && s.sessions.list[child].amfUe != id)
              && (child in s'.sessions.list ==> s'.sessions.list[child] == s.sessions.list[child])
              && s'.gnbs == s.gnbs && s'.ranUes == s.ranUes
  {
  }

  /** Associating links two live records to each other and touches no other; deassociating two records that were
      unlinked before restores the tables. */
  lemma DeassociateUndoesAssociate(s: Store, ue: nat, ranUe: nat)
    requires IdsIssued(s) && ue in s.amfUes.list && ranUe in s.ranUes.list
    ensures var s' := Step(s, Associate(ue, ranUe));
            && s'.amfUes.list == s.amfUes.list[ue := s.amfUes.list[ue].(ranUe := ranUe)]
            && s'.ranUes.list == s.ranUes.list[ranUe := s.ranUes.list[ranUe].(amfUe := ue)]
            && (s.amfUes.list[ue].ranUe == INVALID_POOL_ID && s.ranUes.list[ranUe].amfUe == INVALID_POOL_ID
                <==> Step(s', Deassociate(ue, ranUe)) == s)
  {
    var s' := Step(s, Associate(ue, ranUe));
    var t := Step(s', Deassociate(ue, ranUe));
    assert t.amfUes.list[ue] == s.amfUes.list[ue].(ranUe := INVALID_POOL_ID);
    assert t.ranUes.list[ranUe] == s.ranUes.list[ranUe].(amfUe := INVALID_POOL_ID);
    if s.amfUes.list[ue].ranUe == INVALID_POOL_ID && s.ranUes.list[ranUe].amfUe == INVALID_POOL_ID {
      assert t.amfUes.list == s.amfUes.list && t.ranUes.list == s.ranUes.list;
    }
  }

  // ------------------------------------------------------------------------
  // Ids are never issued twice
  // ------------------------------------------------------------------------

  datatype Pool = GnbPool | RanUePool | UePool | SessPool | NgapPool

  function Generator(s: Store, pool: Pool): nat {
    match pool
    case GnbPool => s.gnbs.next
    case RanUePool => s.ranUes.next
    case UePool => s.amfUes.next
    case SessPool => s.sessions.next
    case NgapPool => s.ranUes.nextNgapId
  }

  /** The id that the operation hands out from the pool, if any. */
  function Issued(s: Store, op: Op, pool: Pool): Option<nat> {
    var some := Some(Generator(s, pool));
    match pool
    case GnbPool => if op.GnbAdd? && |s.gnbs.list| < s.gnbs.max then some else None
    case RanUePool => if op.RanUeAdd? && |s.ranUes.list| < s.ranUes.max then some else None
    case UePool => if op.UeAdd? && |s.amfUes.list| < s.amfUes.max then some else None
    case SessPool => if op.SessAdd? && |s.sessions.list| < s.sessions.max then some else None
    case NgapPool => if op.NextNgapId? || (op.RanUeAdd? && |s.ranUes.list| < s.ranUes.max) then some else None
  }

  // Table by table: the generator steps exactly when an add succeeds, and an id issued before does not come to life.

  lemma GnbLifetimes(g: Gnbs, initialized: bool, op: Op, id: nat)
    ensures GnbStep(g, initialized, op).next == g.next + if op.GnbAdd? && |g.list| < g.max then 1 else 0
    ensures id < g.next && id !in g.list ==> id !in GnbStep(g, initialized, op).list
  {
  }

  lemma RanUeLifetimes(r: RanUes, g: Gnbs, u: AmfUes, initialized: bool, op: Op, id: nat)
    ensures var added := if op.RanUeAdd? && |r.list| < r.max then 1 else 0;
            && RanUeStep(r, g, u, initialized, op).next == r.next + added
            && RanUeStep(r, g, u, initialized, op).nextNgapId
               == r.nextNgapId + if op.NextNgapId? then 1 else added
    ensures id < r.next && id !in r.list ==> id !in RanUeStep(r, g, u, initialized, op).list
  {
  }

  lemma UeLifetimes(u: AmfUes, r: RanUes, initialized: bool, op: Op, id: nat)
    ensures UeStep(u, r, initialized, op).next == u.next + if op.UeAdd? && |u.list| < u.max then 1 else 0
    ensures id < u.next && id !in u.list ==> id !in UeStep(u, r, initialized, op).list
  {
  }

  lemma SessLifetimes(t: Sessions, initialized: bool, op: Op, id: nat)
    ensures SessStep(t, initialized, op).next == t.next + if op.SessAdd? && |t.list| < t.max then 1 else 0
    ensures id < t.next && id !in t.list ==> id !in SessStep(t, initialized, op).list
  {
  }

  lemma GeneratorSteps(s: Store, op: Op, pool: Pool)
    ensures Generator(Step(s, op), pool) == Generator(s, pool) + if Issued(s, op, pool).Some? then 1 else 0
  {
    hide GnbStep, RanUeStep, UeStep, SessStep;
    GnbLifetimes(s.gnbs, s.initialized, op, 0);
    RanUeLifetimes(s.ranUes, s.gnbs, s.amfUes, s.initialized, op, 0);
    UeLifetimes(s.amfUes, s.ranUes, s.initialized, op, 0);
    SessLifetimes(s.sessions, s.initialized, op, 0);
  }

  lemma {:induction false} GeneratorGrows(s: Store, run: seq<Op>, m: nat, n: nat, pool: Pool)
    requires m <= n <= |run|
    ensures Generator(After(s, run, m), pool) <= Generator(After(s, run, n), pool)
  {
    hide Step;
    if m < n {
      GeneratorGrows(s, run, m, n - 1, pool);
      GeneratorSteps(After(s, run, n - 1), run[n - 1], pool);
    }
  }

  function IssuedAt(s: Store, run: seq<Op>, i: nat, pool: Pool): Option<nat>
    requires i < |run|
  {
    Issued(After(s, run, i), run[i], pool)
  }

  /** An id that has been handed out lies below the generator from then on. */
  lemma IssuedFallsBehind(s: Store, run: seq<Op>, i: nat, pool: Pool)
    requires i < |run| && IssuedAt(s, run, i, pool).Some?
    ensures IssuedAt(s, run, i, pool).value == Generator(After(s, run, i), pool) < Generator(After(s, run, i + 1), pool)
  {
    GeneratorSteps(After(s, run, i), run[i], pool);
  }

  /** In every run, across fini and init too, a pool's ids are issued in strictly increasing order. */
  lemma {:induction false} IdsNeverReissued(s: Store, run: seq<Op>, i: nat, j: nat, pool: Pool)
    requires i < j < |run|
    requires IssuedAt(s, run, i, pool).Some? && IssuedAt(s, run, j, pool).Some?
    ensures IssuedAt(s, run, i, pool).value < IssuedAt(s, run, j, pool).value
  {
    hide Step;
    var a, b := IssuedAt(s, run, i, pool).value, IssuedAt(s, run, j, pool).value;
    var before, after := Generator(After(s, run, i + 1), pool), Generator(After(s, run, j), pool);
    assert a < before by { IssuedFallsBehind(s, run, i, pool); }
    assert before <= after by { GeneratorGrows(s, run, i + 1, j, pool); }
    assert b == after by { IssuedFallsBehind(s, run, j, pool); }
  }

  // The AMF-UE-NGAP-IDs that records carry

  /** A new RAN UE carries the pool id and the AMF-UE-NGAP-ID that were issued for it, and what the gNB sent. */
  lemma RanUeCarriesIssued(s: Store, gnb: nat, ranUeNgapId: nat)
    requires |s.ranUes.list| < s.ranUes.max
    ensures var op := RanUeAdd(gnb, ranUeNgapId);
            var list, id := Step(s, op).ranUes.list, Issued(s, op, RanUePool).value;
            && id in list && list[id].id == id && list[id].gnb == gnb && list[id].ranUeNgapId == ranUeNgapId
            && Some(list[id].amfUeNgapId) == Issued(s, op, NgapPool)
  {
    hide GnbStep, UeStep, SessStep;
  }

  /** No two live RAN UEs share an AMF-UE-NGAP-ID, and all of them have been issued. */
  predicate NgapIdsDistinct(r: RanUes) {
    && (forall i :: i in r.list ==> r.list[i].amfUeNgapId < r.nextNgapId)
    && forall i, j :: i in r.list && j in r.list && i != j ==> r.list[i].amfUeNgapId != r.list[j].amfUeNgapId
  }

  /** A whole-record update gives a RAN UE only an AMF-UE-NGAP-ID that has been issued and that no other one has. */
  predicate UpdatesWithOwnNgapId(r: RanUes, op: Op) {
    op.RanUeUpdate? && op.ranUeRecord.id in r.list ==>
      && op.ranUeRecord.amfUeNgapId < r.nextNgapId
      && forall j :: j in r.list && j != op.ranUeRecord.id ==> r.list[j].amfUeNgapId != op.ranUeRecord.amfUeNgapId
  }

  /** What an operation can do to the ids in the records: add one record with the generator's value, write one record
      as a whole, and otherwise only leave records out or change other fields. */
  lemma NgapIdSteps(r: RanUes, g: Gnbs, u: AmfUes, initialized: bool, op: Op, i: nat)
    requires RanUeIdsIssued(r)
    ensures var r' := RanUeStep(r, g, u, initialized, op);
            && r.nextNgapId <= r'.nextNgapId
            && (i in r'.list ==>
                  if op.RanUeUpdate? && op.ranUeRecord.id == i then
                    i in r.list && r'.list[i].amfUeNgapId == op.ranUeRecord.amfUeNgapId
                  else if op.RanUeAdd? && i == r.next then
                    r'.list[i].amfUeNgapId == r.nextNgapId < r'.nextNgapId
                  else i in r.list && r'.list[i].amfUeNgapId == r.list[i].amfUeNgapId)
            && (op.RanUeUpdate? ==> r'.list.Keys == r.list.Keys && r'.nextNgapId == r.nextNgapId)
  {
  }

  lemma StepNgapIdsIff(r: RanUes, g: Gnbs, u: AmfUes, initialized: bool, op: Op)
    requires RanUeIdsIssued(r) && NgapIdsDistinct(r)
    ensures NgapIdsDistinct(RanUeStep(r, g, u, initialized, op)) <==> UpdatesWithOwnNgapId(r, op)
  {
    hide RanUeStep, RanUeIdsIssued;
    var r' := RanUeStep(r, g, u, initialized, op);
    forall i
      ensures i in r'.list ==>
                if op.RanUeUpdate? && op.ranUeRecord.id == i then
                  i in r.list && r'.list[i].amfUeNgapId == op.ranUeRecord.amfUeNgapId
                else if op.RanUeAdd? && i == r.next then r'.list[i].amfUeNgapId == r.nextNgapId < r'.nextNgapId
                else i in r.list && r'.list[i].amfUeNgapId == r.list[i].amfUeNgapId
    {
      NgapIdSteps(r, g, u, initialized, op, i);
    }
    NgapIdSteps(r, g, u, initialized, op, 0);
    if NgapIdsDistinct(r') && op.RanUeUpdate? && op.ranUeRecord.id in r.list {
      assert op.ranUeRecord.id in r'.list;
      forall j | j in r.list && j != op.ranUeRecord.id
        ensures r.list[j].amfUeNgapId != op.ranUeRecord.amfUeNgapId
      {
        assert j in r'.list;
      }
    }
  }

  predicate NgapIdsDistinctThroughout(s: Store, run: seq<Op>, n: nat)
    requires n <= |run|
  {
    NgapIdsDistinct(After(s, run, n).ranUes) && (n > 0 ==> NgapIdsDistinctThroughout(s, run, n - 1))
  }

  predicate AllUpdateWithOwnNgapId(s: Store, run: seq<Op>, n: nat)
    requires n <= |run|
  {
    n > 0 ==> AllUpdateWithOwnNgapId(s, run, n - 1) && UpdatesWithOwnNgapId(After(s, run, n - 1).ranUes, run[n - 1])
  }

  /** In every state of a run no two live RAN UEs share an AMF-UE-NGAP-ID, if and only if whole-record updates never
      give one an id that was not issued or that another one has. */
  lemma {:induction false} NgapIdsStayDistinctIff(s: Store, run: seq<Op>, n: nat)
    requires IdsIssued(s) && NgapIdsDistinct(s.ranUes) && n <= |run|
    ensures IdsIssued(After(s, run, n))
    ensures NgapIdsDistinctThroughout(s, run, n) <==> AllUpdateWithOwnNgapId(s, run, n)
  {
    hide GnbStep, RanUeStep, UeStep, SessStep, NgapIdsDistinct, UpdatesWithOwnNgapId;
    if n == 0 {
    } else {
      NgapIdsStayDistinctIff(s, run, n - 1);
      var before, op := After(s, run, n - 1), run[n - 1];
      StepIdsIssued(before, op);
      if NgapIdsDistinctThroughout(s, run, n - 1) {
        StepNgapIdsIff(before.ranUes, before.gnbs, before.amfUes, before.initialized, op);
      }
    }
  }

  /** Whatever the state, an update can give a live RAN UE the AMF-UE-NGAP-ID of another one. */
  lemma UpdateSharesNgapId(s: Store, i: nat, j: nat)
    requires IdsIssued(s) && NgapIdsDistinct(s.ranUes) && i in s.ranUes.list && j in s.ranUes.list && i != j
    ensures var record := s.ranUes.list[i].(amfUeNgapId := s.ranUes.list[j].amfUeNgapId);
            !NgapIdsDistinct(Step(s, RanUeUpdate(record)).ranUes)
  {
    hide GnbStep, RanUeStep, UeStep, SessStep;
    var record := s.ranUes.list[i].(amfUeNgapId := s.ranUes.list[j].amfUeNgapId);
    StepNgapIdsIff(s.ranUes, s.gnbs, s.amfUes, s.initialized, RanUeUpdate(record));
  }

  predicate Live(s: Store, pool: Pool, id: nat) {
    match pool
    case GnbPool => id in s.gnbs.list
    case RanUePool => id in s.ranUes.list
    case UePool => id in s.amfUes.list
    case SessPool => id in s.sessions.list
    case NgapPool => false
  }

  lemma DeadStepStaysDead(s: Store, op: Op, pool: Pool, id: nat)
    requires id < Generator(s, pool) && !Live(s, pool, id)
    ensures !Live(Step(s, op), pool, id)
  {
    hide GnbStep, RanUeStep, UeStep, SessStep;
    GnbLifetimes(s.gnbs, s.initialized, op, id);
    RanUeLifetimes(s.ranUes, s.gnbs, s.amfUes, s.initialized, op, id);
    UeLifetimes(s.amfUes, s.ranUes, s.initialized, op, id);
    SessLifetimes(s.sessions, s.initialized, op, id);
  }

  /** A record that is gone never comes back under its id. */
  lemma {:induction false} DeadStaysDead(s: Store, run: seq<Op>, m: nat, n: nat, pool: Pool, id: nat)
    requires m <= n <= |run| && id < Generator(After(s, run, m), pool) && !Live(After(s, run, m), pool, id)
    ensures !Live(After(s, run, n), pool, id)
  {
    hide Step;
    if m < n {
      DeadStaysDead(s, run, m, n - 1, pool, id);
      GeneratorGrows(s, run, m, n - 1, pool);
      DeadStepStaysDead(After(s, run, n - 1), run[n - 1], pool, id);
    }
  }

  /** A lookup key of one of the five hashes. */
  datatype Key =
    | ByAddr(addr: string) | ByGnbId(gnbId: nat)
    | BySuci(suci: string) | BySupi(supi: string) | ByGuti(guti: Guti)

  function TableOf(key: Key): Pool {
    if key.ByAddr? || key.ByGnbId? then GnbPool else UePool
  }

  /** The hash files record `id` under the key. */
  predicate Filed(s: Store, key: Key, id: nat) {
    match key
    case ByAddr(addr) => addr in s.gnbs.addrHash && s.gnbs.addrHash[addr] == id
    case ByGnbId(gnbId) => gnbId in s.gnbs.idHash && s.gnbs.idHash[gnbId] == id
    case BySuci(suci) => suci in s.amfUes.suciHash && s.amfUes.suciHash[suci] == id
    case BySupi(supi) => supi in s.amfUes.supiHash && s.amfUes.supiHash[supi] == id
    case ByGuti(guti) => guti in s.amfUes.gutiHash && s.amfUes.gutiHash[guti] == id
  }

  /** Record `id` is live and carries the key. */
  predicate Carries(s: Store, key: Key, id: nat) {
    match key
    case ByAddr(addr) => id in s.gnbs.list && s.gnbs.list[id].addr == addr
    case ByGnbId(gnbId) => id in s.gnbs.list && s.gnbs.list[id].gnbIdPresence && s.gnbs.list[id].gnbId == gnbId
    case BySuci(suci) => id in s.amfUes.list && s.amfUes.list[id].suci == Some(suci)
    case BySupi(supi) => id in s.amfUes.list && s.amfUes.list[id].supi == Some(supi)
    case ByGuti(guti) => id in s.amfUes.list && s.amfUes.list[id].guti == guti
  }

  lemma FiledIsCarried(s: Store, key: Key, id: nat)
    requires GnbSound(s.gnbs) && UeSound(s.amfUes) && Filed(s, key, id)
    ensures Carries(s, key, id) && Live(s, TableOf(key), id)
  {
    var g, u := s.gnbs, s.amfUes;
    match key {
      case ByAddr(addr) => assert Addrs(g)[id] == addr;
      case ByGnbId(gnbId) => assert GnbIds(g)[id] == gnbId;
      case BySuci(suci) => assert Sucis(u)[id] == suci;
      case BySupi(supi) => assert Supis(u)[id] == supi;
      case ByGuti(guti) => assert Gutis(u)[id] == guti;
    }
  }

  /** The operation writes a key of this kind into record `id`, if it is live. */
  predicate Rewrites(op: Op, key: Key, id: nat) {
    match key
    case ByAddr(_) => op.GnbUpdate? && op.gnbRecord.id == id
    case ByGnbId(_) => (op.GnbSetId? && op.gnb == id) || (op.GnbUpdate? && op.gnbRecord.id == id)
    case BySuci(_) => (op.UeSetSuci? && op.ue == id) || (op.UeUpdate? && op.ueRecord.id == id)
    case BySupi(_) => (op.UeSetSupi? && op.ue == id) || (op.UeUpdate? && op.ueRecord.id == id)
    case ByGuti(_) => (op.UeSetGuti? && op.ue == id) || (op.UeUpdate? && op.ueRecord.id == id)
  }

  /** The key it writes is this one. */
  predicate Gives(op: Op, key: Key) {
    match key
    case ByAddr(addr) => op.GnbUpdate? && op.gnbRecord.addr == addr
    case ByGnbId(gnbId) =>
      (op.GnbSetId? && op.gnbId == gnbId)
      || (op.GnbUpdate? && op.gnbRecord.gnbIdPresence && op.gnbRecord.gnbId == gnbId)
    case BySuci(suci) => (op.UeSetSuci? && op.suci == suci) || (op.UeUpdate? && op.ueRecord.suci == Some(suci))
    case BySupi(supi) => (op.UeSetSupi? && op.supi == supi) || (op.UeUpdate? && op.ueRecord.supi == Some(supi))
    case ByGuti(guti) => (op.UeSetGuti? && op.guti == guti) || (op.UeUpdate? && op.ueRecord.guti == guti)
  }

  /** The last operation from `m` up to `n` that writes such a key into the record, if there is one, writes this one. */
  predicate LastGives(run: seq<Op>, m: nat, n: nat, key: Key, id: nat)
    requires m <= n <= |run|
    decreases n - m
  {
    m == n || if Rewrites(run[n - 1], key, id) then Gives(run[n - 1], key) else LastGives(run, m, n - 1, key, id)
  }

  lemma GnbKeySteps(g: Gnbs, initialized: bool, op: Op, id: nat)
    requires GnbIdsIssued(g) && id in g.list && id in GnbStep(g, initialized, op).list
    ensures var was, now := g.list[id], GnbStep(g, initialized, op).list[id];
            && now.addr == (if op.GnbUpdate? && op.gnbRecord.id == id then op.gnbRecord.addr else was.addr)
            && (now.gnbIdPresence, now.gnbId)
               == if op.GnbUpdate? && op.gnbRecord.id == id then (op.gnbRecord.gnbIdPresence, op.gnbRecord.gnbId)
                  else if op.GnbSetId? && op.gnb == id then (true, op.gnbId)
                  else (was.gnbIdPresence, was.gnbId)
  {
  }

  lemma UeSuciSteps(u: AmfUes, r: RanUes, initialized: bool, op: Op, id: nat)
    requires UeIdsIssued(u) && id in u.list && id in UeStep(u, r, initialized, op).list
    ensures UeStep(u, r, initialized, op).list[id].suci ==
            if op.UeUpdate? && op.ueRecord.id == id then op.ueRecord.suci
            else if op.UeSetSuci? && op.ue == id then Some(op.suci) else u.list[id].suci
  {
  }

  lemma UeSupiSteps(u: AmfUes, r: RanUes, initialized: bool, op: Op, id: nat)
    requires UeIdsIssued(u) && id in u.list && id in UeStep(u, r, initialized, op).list
    ensures UeStep(u, r, initialized, op).list[id].supi ==
            if op.UeUpdate? && op.ueRecord.id == id then op.ueRecord.supi
            else if op.UeSetSupi? && op.ue == id then Some(op.supi) else u.list[id].supi
  {
  }

  lemma UeGutiSteps(u: AmfUes, r: RanUes, initialized: bool, op: Op, id: nat)
    requires UeIdsIssued(u) && id in u.list && id in UeStep(u, r, initialized, op).list
    ensures UeStep(u, r, initialized, op).list[id].guti ==
            if op.UeUpdate? && op.ueRecord.id == id then op.ueRecord.guti
            else if op.UeSetGuti? && op.ue == id then op.guti else u.list[id].guti
  {
    var was, now := u.list[id], UeStep(u, r, initialized, op).list[id];
    if op.UeSetSuci? || op.UeSetSupi? || op.UeSetGuti? || op.UeUpdate? || op.Associate? || op.Deassociate? {
    } else {
      assert now == was;
    }
  }

  lemma GnbCarriesSteps(s: Store, op: Op, key: Key, id: nat)
    requires IdsIssued(s) && Live(s, GnbPool, id) && Live(Step(s, op), GnbPool, id) && (key.ByAddr? || key.ByGnbId?)
    ensures Carries(Step(s, op), key, id) <==> if Rewrites(op, key, id) then Gives(op, key) else Carries(s, key, id)
  {
    hide GnbStep, RanUeStep, UeStep, SessStep, GnbIdsIssued, RanUeIdsIssued, UeIdsIssued, SessIdsIssued;
    GnbKeySteps(s.gnbs, s.initialized, op, id);
  }

  lemma UeCarriesSteps(s: Store, op: Op, key: Key, id: nat)
    requires IdsIssued(s) && Live(s, UePool, id) && Live(Step(s, op), UePool, id)
    requires key.BySuci? || key.BySupi? || key.ByGuti?
    ensures Carries(Step(s, op), key, id) <==> if Rewrites(op, key, id) then Gives(op, key) else Carries(s, key, id)
  {
    hide GnbStep, RanUeStep, UeStep, SessStep, GnbIdsIssued, RanUeIdsIssued, UeIdsIssued, SessIdsIssued;
    if key.BySuci? {
      UeSuciSteps(s.amfUes, s.ranUes, s.initialized, op, id);
    } else if key.BySupi? {
      UeSupiSteps(s.amfUes, s.ranUes, s.initialized, op, id);
    } else {
      UeGutiSteps(s.amfUes, s.ranUes, s.initialized, op, id);
    }
  }

  /** A record that stays live carries a key after a step if the step writes it, or else if it did before. */
  lemma CarriesSteps(s: Store, op: Op, key: Key, id: nat)
    requires IdsIssued(s) && Live(s, TableOf(key), id) && Live(Step(s, op), TableOf(key), id)
    ensures Carries(Step(s, op), key, id) <==> if Rewrites(op, key, id) then Gives(op, key) else Carries(s, key, id)
  {
    hide Step, IdsIssued, Carries, Rewrites, Gives, Live;
    if key.ByAddr? || key.ByGnbId? {
      GnbCarriesSteps(s, op, key, id);
    } else {
      UeCarriesSteps(s, op, key, id);
    }
  }

  lemma {:induction false} IdsStayIssued(s: Store, run: seq<Op>, n: nat)
    requires IdsIssued(s) && n <= |run|
    ensures IdsIssued(After(s, run, n))
  {
    hide Step, IdsIssued;
    if n == 0 {
    } else {
      IdsStayIssued(s, run, n - 1);
      StepIdsIssued(After(s, run, n - 1), run[n - 1]);
    }
  }

  lemma {:induction false} CarriesLastGiven(s: Store, run: seq<Op>, m: nat, n: nat, key: Key, id: nat)
    requires IdsIssued(s) && m <= n <= |run|
    requires Live(After(s, run, m), TableOf(key), id) && Live(After(s, run, n), TableOf(key), id)
    requires Carries(After(s, run, m), key, id)
    ensures Carries(After(s, run, n), key, id) <==> LastGives(run, m, n, key, id)
  {
    hide Step, Carries, Live, Rewrites, Gives, IdsIssued;
    if m < n {
      IdsStayIssued(s, run, m);
      IdsStayIssued(s, run, n - 1);
      LiveBetween(s, run, m, n - 1, n, TableOf(key), id);
      CarriesLastGiven(s, run, m, n - 1, key, id);
      CarriesSteps(After(s, run, n - 1), run[n - 1], key, id);
    }
  }

  /** The finders read the hash, drop its lock, and only then read the table; other threads may run in between.
      If the record is there to be returned after state `n`, it is still the record that carried the key when the hash
      was read at state `m`, it has been live under the same id at every state `k` in between, and it still carries
      the key if and only if the last write of such a key into it since then, if any, wrote the same one. */
  lemma FindSpansLifetime(s: Store, run: seq<Op>, m: nat, k: nat, n: nat, key: Key, id: nat)
    requires IdsIssued(s) && m <= k <= n <= |run| && Clean(After(s, run, m))
    ensures Filed(After(s, run, m), key, id) && Live(After(s, run, n), TableOf(key), id) ==>
              && Carries(After(s, run, m), key, id) && Live(After(s, run, k), TableOf(key), id)
              && (Carries(After(s, run, n), key, id) <==> LastGives(run, m, n, key, id))
  {
    hide Step, Filed, Carries, Rewrites, Gives;
    if Filed(After(s, run, m), key, id) && Live(After(s, run, n), TableOf(key), id) {
      FiledIsCarried(After(s, run, m), key, id);
      LiveBetween(s, run, m, k, n, TableOf(key), id);
      CarriesLastGiven(s, run, m, n, key, id);
    }
  }

  /** A finder that has read a SUPI in the hash may return a UE that has been given another one meanwhile. */
  lemma FoundUnderFormerKey()
    ensures var run := [Init(1, 1, 1), UeAdd(0), UeSetSupi(1, "x"), UeSetSupi(1, "y")];
            && Filed(After(NEW_STORE, run, 3), BySupi("x"), 1)
            && Live(After(NEW_STORE, run, 4), UePool, 1) && !Carries(After(NEW_STORE, run, 4), BySupi("x"), 1)
  {
    var run := [Init(1, 1, 1), UeAdd(0), UeSetSupi(1, "x"), UeSetSupi(1, "y")];
    var s1 := After(NEW_STORE, run, 1);
    assert s1.amfUes == AmfUes(map[], map[], map[], map[], 1, 1);
    var s2 := After(NEW_STORE, run, 2);
    assert s2.amfUes == AmfUes(map[1 := NewUe(1, 0)], map[], map[], map[], 2, 1);
    var s3 := After(NEW_STORE, run, 3);
    assert s3.amfUes == SetSupi(s2.amfUes, 1, "x");
    assert After(NEW_STORE, run, 4).amfUes == SetSupi(s3.amfUes, 1, "y");
  }

  lemma LiveBetween(s: Store, run: seq<Op>, m: nat, k: nat, n: nat, pool: Pool, id: nat)
    requires m <= k <= n <= |run| && IdsIssued(After(s, run, m)) && Live(After(s, run, m), pool, id)
    ensures Live(After(s, run, n), pool, id) ==> Live(After(s, run, k), pool, id)
  {
    hide Step;
    GeneratorGrows(s, run, m, k, pool);
    if !Live(After(s, run, k), pool, id) {
      DeadStaysDead(s, run, k, n, pool, id);
    }
  }

  // ------------------------------------------------------------------------
  // Capacity
  // ------------------------------------------------------------------------

  predicate WithinLimits(s: Store) {
    && |s.gnbs.list| <= s.gnbs.max && |s.ranUes.list| <= s.ranUes.max
    && |s.amfUes.list| <= s.amfUes.max && |s.sessions.list| <= s.sessions.max
  }

  /** An initialisation that takes effect sets limits that the tables already meet. */
  predicate LimitsFit(s: Store, op: Op) {
    op.Init? && !s.initialized ==>
      && |s.gnbs.list| <= op.maxGnb && |s.ranUes.list| <= op.maxUe * 2
      && |s.amfUes.list| <= op.maxUe && |s.sessions.list| <= op.maxSess
  }

  lemma SubmapSize<T>(m: map<nat, T>, sub: map<nat, T>)
    requires sub.Keys <= m.Keys
    ensures |sub| <= |m|
  {
    SubsetSize(sub.Keys, m.Keys);
    assert |sub| == |sub.Keys| && |m| == |m.Keys|;
  }

  lemma {:induction false} SubsetSize(a: set<nat>, b: set<nat>)
    requires a <= b
    ensures |a| <= |b|
    decreases a
  {
    if a == {} {
    } else {
      var x :| x in a;
      SubsetSize(a - {x}, b - {x});
    }
  }

  lemma GnbStepSize(s: Store, op: Op)
    requires |s.gnbs.list| <= s.gnbs.max && GnbIdsIssued(s.gnbs)
    ensures var g' := Step(s, op).gnbs;
            |g'.list| <= g'.max || (op.Init? && !s.initialized && g' == s.gnbs.(max := op.maxGnb))
  {
    var g' := Step(s, op).gnbs;
    if op.GnbRemove? {
      SubmapSize(s.gnbs.list, g'.list);
    } else if op.GnbUpdate? || op.GnbSetId? {
      assert g'.list.Keys == s.gnbs.list.Keys;
      SubmapSize(s.gnbs.list, g'.list);
    }
  }

  lemma RanUeStepSize(s: Store, op: Op)
    requires |s.ranUes.list| <= s.ranUes.max && RanUeIdsIssued(s.ranUes)
    ensures var r' := Step(s, op).ranUes;
            |r'.list| <= r'.max || (op.Init? && !s.initialized && r' == s.ranUes.(max := op.maxUe * 2))
  {
    var r' := Step(s, op).ranUes;
    if !op.RanUeAdd? && !op.Init? {
      assert r'.list.Keys <= s.ranUes.list.Keys;
      SubmapSize(s.ranUes.list, r'.list);
    }
  }

  lemma UeStepSize(s: Store, op: Op)
    requires |s.amfUes.list| <= s.amfUes.max && UeIdsIssued(s.amfUes)
    ensures var u' := Step(s, op).amfUes;
            |u'.list| <= u'.max || (op.Init? && !s.initialized && u' == s.amfUes.(max := op.maxUe))
  {
    var u' := Step(s, op).amfUes;
    if !op.UeAdd? && !op.Init? {
      assert u'.list.Keys <= s.amfUes.list.Keys;
      SubmapSize(s.amfUes.list, u'.list);
    }
  }

  lemma SessStepSize(s: Store, op: Op)
    requires |s.sessions.list| <= s.sessions.max && SessIdsIssued(s.sessions)
    ensures var t' := Step(s, op).sessions;
            |t'.list| <= t'.max || (op.Init? && !s.initialized && t' == s.sessions.(max := op.maxSess))
  {
    var t' := Step(s, op).sessions;
    if !op.SessAdd? && !op.Init? {
      assert t'.list.Keys <= s.sessions.list.Keys;
      SubmapSize(s.sessions.list, t'.list);
    }
  }

  lemma StepWithinLimitsIff(s: Store, op: Op)
    requires WithinLimits(s) && IdsIssued(s)
    ensures WithinLimits(Step(s, op)) <==> LimitsFit(s, op)
  {
    GnbStepSize(s, op);
    RanUeStepSize(s, op);
    UeStepSize(s, op);
    SessStepSize(s, op);
  }

  predicate WithinLimitsThroughout(s: Store, run: seq<Op>, n: nat)
    requires n <= |run|
  {
    WithinLimits(After(s, run, n)) && (n > 0 ==> WithinLimitsThroughout(s, run, n - 1))
  }

  predicate LimitsFitThroughout(s: Store, run: seq<Op>, n: nat)
    requires n <= |run|
  {
    n > 0 ==> LimitsFitThroughout(s, run, n - 1) && LimitsFit(After(s, run, n - 1), run[n - 1])
  }

  /** No state of a run exceeds a limit if and only if no initialisation sets limits below the tables. */
  lemma {:induction false} RunWithinLimitsIff(s: Store, run: seq<Op>, n: nat)
    requires WithinLimits(s) && IdsIssued(s) && n <= |run|
    ensures IdsIssued(After(s, run, n))
    ensures WithinLimitsThroughout(s, run, n) <==> LimitsFitThroughout(s, run, n)
  {
    hide Step;
    if n == 0 {
    } else {
      RunWithinLimitsIff(s, run, n - 1);
      StepIdsIssued(After(s, run, n - 1), run[n - 1]);
      if WithinLimitsThroughout(s, run, n - 1) {
        StepWithinLimitsIff(After(s, run, n - 1), run[n - 1]);
      }
    }
  }

  /** Then the UE load stays between 0 and 100 percent. */
  lemma LoadStaysPercentage(s: Store, run: seq<Op>, n: nat)
    requires WithinLimits(s) && IdsIssued(s) && n <= |run| && LimitsFitThroughout(s, run, n)
    ensures 0 <= UeLoad(After(s, run, n).amfUes) <= 100
  {
    RunWithinLimitsIff(s, run, n);
    LoadIsPercentage(After(s, run, n).amfUes);
  }

  lemma LoadIsPercentage(u: AmfUes)
    requires |u.list| <= u.max
    ensures 0 <= UeLoad(u) <= 100
  {
  }

  /** The limits are not safe in general: UEs may be added after fini, and a second init may then lower the
      limit below them. Here the load reads 200 percent. */
  lemma LoadCanExceedLimit()
    ensures UeLoad(After(NEW_STORE, [Init(1, 2, 1), Fini, UeAdd(0), UeAdd(0), Init(1, 1, 1)], 5).amfUes) == 200
  {
    var run := [Init(1, 2, 1), Fini, UeAdd(0), UeAdd(0), Init(1, 1, 1)];
    var s1 := After(NEW_STORE, run, 1);
    assert s1.initialized && s1.amfUes == NEW_STORE.amfUes.(max := 2);
    var s2 := After(NEW_STORE, run, 2);
    assert !s2.initialized && s2.amfUes == s1.amfUes;
    var s3 := After(NEW_STORE, run, 3);
    assert !s3.initialized && s3.amfUes.list == map[1 := NewUe(1, 0)] && s3.amfUes.next == 2 && s3.amfUes.max == 2;
    var s4 := After(NEW_STORE, run, 4);
    assert !s4.initialized && s4.amfUes.list == map[1 := NewUe(1, 0), 2 := NewUe(2, 0)];
    assert |s4.amfUes.list| == 2;
    var s5 := After(NEW_STORE, run, 5);
    assert s5.amfUes.list == s4.amfUes.list && s5.amfUes.max == 1;
  }

  /** The new context satisfies everything that runs keep. */
  lemma NewStoreIsClean()
    ensures Clean(NEW_STORE) && Exact(NEW_STORE)
    ensures ParentsLive(NEW_STORE) && WithinLimits(NEW_STORE) && NgapIdsDistinct(NEW_STORE.ranUes)
  {
  }
}
