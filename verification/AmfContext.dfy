/** The AMF context object (context.rs). Each method is proved against the function that says what the operation does
    to the tables, and keeps the invariant that all runs of those functions keep. */
module AmfContext {
  import opened Wrappers
  import opened IdentityCodec
  import opened AmfStore
  import opened AmfStoreProofs
  import opened AmfStoreLifecycle
  import N1n2Registry
  import Paging
  import EgressQueues

  /** The fields of the source, those of one table together. */
  class Context<PositioningDl, Dereg> {
    var gnbs: Gnbs
    var ranUes: RanUes
    var amfUes: AmfUes
    var sessions: Sessions
    var initialized: bool

    var pagingMap: Paging.Table
    var n1n2Subscriptions: N1n2Registry.Registry
    var lcsCorrelations: map<string, string>
    var positioningDlQueue: seq<PositioningDl>
    var networkDeregQueue: seq<Dereg>

    ghost function View(): Store
      reads `gnbs, `ranUes, `amfUes, `sessions, `initialized
    {
      Store(gnbs, ranUes, amfUes, sessions, initialized)
    }

    /** Records are filed under their own ids, every entry of the five hashes is sound, paging entries are filed under
        their own UE, and no UE has an empty subscription list or one id twice. */
    ghost predicate Valid()
      reads `gnbs, `ranUes, `amfUes, `sessions, `initialized, `pagingMap, `n1n2Subscriptions
    {
      Clean(View()) && Paging.WellKept(pagingMap) && N1n2Registry.WellKept(n1n2Subscriptions)
    }

    constructor ()
      ensures Valid() && View() == NEW_STORE
      ensures pagingMap == map[] && n1n2Subscriptions == map[] && lcsCorrelations == map[]
      ensures positioningDlQueue == [] && networkDeregQueue == []
    {
      NewStoreIsClean();
      gnbs := Gnbs(map[], map[], map[], 1, 0);
      ranUes := RanUes(map[], 1, 1, 1, 0);
      amfUes := AmfUes(map[], map[], map[], map[], 1, 0);
      sessions, initialized := Sessions(map[], 1, 0), false;
      pagingMap, n1n2Subscriptions, lcsCorrelations := map[], map[], map[];
      positioningDlQueue, networkDeregQueue := [], [];
    }

    // Lifecycle

    method Initialise(maxGnb: nat, maxUe: nat, maxSess: nat)
      requires Valid()
      modifies `gnbs, `ranUes, `amfUes, `sessions, `initialized
      ensures Valid()
      ensures View() == Step(old(View()), Init(maxGnb, maxUe, maxSess))
      ensures if old(initialized) then View() == old(View())
              else
                && initialized && gnbs == old(gnbs).(max := maxGnb) && amfUes == old(amfUes).(max := maxUe)
                && ranUes == old(ranUes).(max := 2 * maxUe) && sessions == old(sessions).(max := maxSess)
    {
      hide Clean;
      StepClean(View(), Init(maxGnb, maxUe, maxSess));
      if initialized {
        return;
      }
      gnbs := gnbs.(max := maxGnb);
      amfUes := amfUes.(max := maxUe);
      ranUes := ranUes.(max := maxUe * 2);
      sessions := sessions.(max := maxSess);
      initialized := true;
    }

    method Finalise()
      requires Valid()
      modifies `gnbs, `ranUes, `amfUes, `sessions, `n1n2Subscriptions, `lcsCorrelations, `initialized
      ensures Valid()
      ensures View() == Step(old(View()), Fini)
      ensures if old(initialized) then n1n2Subscriptions == map[] && lcsCorrelations == map[]
              else n1n2Subscriptions == old(n1n2Subscriptions) && lcsCorrelations == old(lcsCorrelations)
      ensures old(initialized) ==>
                && !initialized && gnbs.list == map[] && gnbs.addrHash == map[] && gnbs.idHash == map[]
                && amfUes.list == map[] && amfUes.suciHash == map[] && amfUes.supiHash == map[]
                && amfUes.gutiHash == map[]
                && ranUes.list == map[] && sessions.list == map[]
    {
      hide Clean;
      StepClean(View(), Fini);
      if !initialized {
        return;
      }
      RemoveAllGnbs();
      RemoveAllUes();
      initialized := false;
    }

    method NextAmfUeNgapId() returns (id: nat)
      requires Valid()
      modifies `ranUes
      ensures Valid()
      ensures View() == Step(old(View()), NextNgapId)
      ensures id == old(ranUes.nextNgapId)
      ensures Some(id) == Issued(old(View()), NextNgapId, NgapPool) && ranUes == old(ranUes).(nextNgapId := id + 1)
    {
      hide Clean;
      StepClean(View(), NextNgapId);
      id := ranUes.nextNgapId;
      ranUes := ranUes.(nextNgapId := ranUes.nextNgapId + 1);
    }

    // gNBs

    method AddGnb(addr: string) returns (r: Option<Gnb>)
      requires Valid()
      modifies `gnbs
      ensures Valid()
      ensures View() == Step(old(View()), GnbAdd(addr))
      ensures r.Some? <==> |old(gnbs.list)| < gnbs.max
      ensures r.Some? ==>
                && r.value.id !in old(gnbs.list) && Some(r.value.id) == Issued(old(View()), GnbAdd(addr), GnbPool)
                && r.value.addr == addr && !r.value.gnbIdPresence
                && gnbs.list == old(gnbs.list)[r.value.id := r.value]
                && gnbs.addrHash == old(gnbs.addrHash)[addr := r.value.id] && gnbs.idHash == old(gnbs.idHash)
    {
      hide GnbSound, UeSound;
      StepClean(View(), GnbAdd(addr));
      if |gnbs.list| >= gnbs.max {
        return None;
      }
      var id := gnbs.next;
      var gnb := NewGnb(id, addr);
      gnbs := gnbs.(next := id + 1);
      gnbs := gnbs.(addrHash := gnbs.addrHash[addr := id]);
      gnbs := gnbs.(list := gnbs.list[id := gnb]);
      return Some(gnb);
    }

    method RemoveGnb(id: nat) returns (r: Option<Gnb>)
      requires Valid()
      modifies `gnbs, `ranUes
      ensures Valid()
      ensures View() == Step(old(View()), GnbRemove(id))
      ensures r == if id in old(gnbs.list) then Some(old(gnbs.list)[id]) else None
      ensures r.Some? ==>
                && gnbs.list == old(gnbs.list) - {id} && gnbs.addrHash == old(gnbs.addrHash) - {r.value.addr}
                && gnbs.idHash
                   == (if r.value.gnbIdPresence then old(gnbs.idHash) - {r.value.gnbId} else old(gnbs.idHash))
                && (forall i :: i in ranUes.list <==> i in old(ranUes.list) && old(ranUes.list)[i].gnb != id)
                && (forall i :: i in ranUes.list ==> ranUes.list[i] == old(ranUes.list)[i])
      ensures r.None? ==> View() == old(View())
    {
      hide Clean;
      StepClean(View(), GnbRemove(id));
      if id !in gnbs.list {
        return None;
      }
      var gnb := gnbs.list[id];
      gnbs := gnbs.(list := gnbs.list - {id}, addrHash := gnbs.addrHash - {gnb.addr});
      if gnb.gnbIdPresence {
        gnbs := gnbs.(idHash := gnbs.idHash - {gnb.gnbId});
      }
      ranUes := ranUes.(list := map i | i in ranUes.list && ranUes.list[i].gnb != id :: ranUes.list[i]);
      return Some(gnb);
    }

    method RemoveAllGnbs()
      requires Valid()
      modifies `gnbs, `ranUes
      ensures Valid()
      ensures View() == Step(Step(old(View()), GnbsClear), RanUesClear)
      ensures gnbs == old(gnbs).(list := map[], addrHash := map[], idHash := map[])
      ensures ranUes == old(ranUes).(list := map[])
    {
      hide Clean;
      StepClean(View(), GnbsClear);
      StepClean(Step(View(), GnbsClear), RanUesClear);
      gnbs := gnbs.(list := map[], addrHash := map[], idHash := map[]);
      ranUes := ranUes.(list := map[]);
    }

    /** The finder's two reads, back to back: a hit is a live gNB with that address, and with exact indexes it is the
        only one a scan would find and a miss means that there is none. */
    method FindGnbByAddr(addr: string) returns (r: Option<Gnb>)
      requires Valid()
      ensures r.Some? <==> addr in gnbs.addrHash
      ensures r.Some? ==> r.value in gnbs.list.Values && r.value.addr == addr
      ensures GnbExact(gnbs) ==> (r == None <==> forall i :: i in gnbs.list ==> gnbs.list[i].addr != addr)
      ensures GnbExact(gnbs) && r.Some? ==>
                forall i :: i in gnbs.list && gnbs.list[i].addr == addr ==> gnbs.list[i] == r.value
    {
      if addr !in gnbs.addrHash {
        r := None;
      } else {
        var id := gnbs.addrHash[addr];
        r := if id in gnbs.list then Some(gnbs.list[id]) else None;
      }
      ghost var held := Addrs(gnbs);
      if GnbExact(gnbs) {
        forall i | i in gnbs.list && gnbs.list[i].addr == addr
          ensures addr in gnbs.addrHash && gnbs.addrHash[addr] == i
        {
          assert held[i] == addr;
        }
      }
    }

    method FindGnbByGnbId(gnbId: nat) returns (r: Option<Gnb>)
      requires Valid()
      ensures r.Some? <==> gnbId in gnbs.idHash
      ensures r.Some? ==> r.value in gnbs.list.Values && r.value.gnbIdPresence && r.value.gnbId == gnbId
      ensures GnbExact(gnbs) ==>
                (r == None <==>
                 forall i :: i in gnbs.list ==> !(gnbs.list[i].gnbIdPresence && gnbs.list[i].gnbId == gnbId))
      ensures GnbExact(gnbs) && r.Some? ==>
                forall i :: i in gnbs.list && gnbs.list[i].gnbIdPresence && gnbs.list[i].gnbId == gnbId ==>
                  gnbs.list[i] == r.value
    {
      if gnbId !in gnbs.idHash {
        r := None;
      } else {
        var id := gnbs.idHash[gnbId];
        r := if id in gnbs.list then Some(gnbs.list[id]) else None;
      }
      ghost var held := GnbIds(gnbs);
      if GnbExact(gnbs) {
        forall i | i in gnbs.list && gnbs.list[i].gnbIdPresence && gnbs.list[i].gnbId == gnbId
          ensures gnbId in gnbs.idHash && gnbs.idHash[gnbId] == i
        {
          assert held[i] == gnbId;
        }
      }
    }

    method SetGnbId(id: nat, gnbId: nat) returns (r: bool)
      requires Valid()
      modifies `gnbs
      ensures Valid()
      ensures View() == Step(old(View()), GnbSetId(id, gnbId))
      ensures r <==> id in old(gnbs.list)
      ensures r ==>
                && gnbs.list == old(gnbs.list)[id := old(gnbs.list)[id].(gnbId := gnbId, gnbIdPresence := true)]
                && gnbs.addrHash == old(gnbs.addrHash) && gnbId in gnbs.idHash && gnbs.idHash[gnbId] == id
                && forall k :: k != gnbId ==>
                     (k in gnbs.idHash <==>
                      k in old(gnbs.idHash) && !(old(gnbs.list)[id].gnbIdPresence && old(gnbs.list)[id].gnbId == k))
                     && (k in gnbs.idHash ==> gnbs.idHash[k] == old(gnbs.idHash)[k])
      ensures !r ==> gnbs == old(gnbs)
    {
      hide Clean;
      StepClean(View(), GnbSetId(id, gnbId));
      if id !in gnbs.list {
        return false;
      }
      var gnb := gnbs.list[id];
      if gnb.gnbIdPresence {
        gnbs := gnbs.(idHash := gnbs.idHash - {gnb.gnbId});
      }
      gnbs := gnbs.(list := gnbs.list[id := gnb.(gnbId := gnbId, gnbIdPresence := true)]);
      gnbs := gnbs.(idHash := gnbs.idHash[gnbId := id]);
      return true;
    }

    /** The invariant survives exactly when the new record carries every key it is filed under. */
    method UpdateGnb(gnb: Gnb) returns (r: bool)
      requires Valid()
      modifies `gnbs
      ensures View() == Step(old(View()), GnbUpdate(gnb))
      ensures r <==> gnb.id in old(gnbs.list)
      ensures Valid() <==> (r ==> GnbStaysFiled(old(gnbs), gnb))
      ensures gnbs == if r then old(gnbs).(list := old(gnbs.list)[gnb.id := gnb]) else old(gnbs)
    {
      hide Clean, GnbStaysFiled;
      GnbUpdateSoundIff(View(), gnb);
      if gnb.id !in gnbs.list {
        return false;
      }
      gnbs := gnbs.(list := gnbs.list[gnb.id := gnb]);
      return true;
    }

    // RAN UEs

    method AddRanUe(gnb: nat, ranUeNgapId: nat) returns (r: Option<RanUe>)
      requires Valid()
      modifies `ranUes
      ensures Valid()
      ensures View() == Step(old(View()), RanUeAdd(gnb, ranUeNgapId))
      ensures r.Some? <==> |old(ranUes.list)| < ranUes.max
      ensures r.Some? ==>
                && r.value.id !in old(ranUes.list)
                && Some(r.value.id) == Issued(old(View()), RanUeAdd(gnb, ranUeNgapId), RanUePool)
                && Some(r.value.amfUeNgapId) == Issued(old(View()), RanUeAdd(gnb, ranUeNgapId), NgapPool)
                && r.value.ranUeNgapId == ranUeNgapId && r.value.gnb == gnb && r.value.amfUe == 0
                && r.value.index == old(ranUes.nextIndex) % 0x100000000
                && ranUes.nextIndex == old(ranUes.nextIndex) + 1
                && ranUes.list == old(ranUes.list)[r.value.id := r.value]
    {
      hide GnbSound, UeSound;
      StepClean(View(), RanUeAdd(gnb, ranUeNgapId));
      if |ranUes.list| >= ranUes.max {
        return None;
      }
      var id := ranUes.next;
      var index := ranUes.nextIndex % 0x100000000;
      var amfUeNgapId := ranUes.nextNgapId;
      ranUes := ranUes.(next := id + 1, nextIndex := ranUes.nextIndex + 1, nextNgapId := amfUeNgapId + 1);
      var ranUe := RanUe(id, index, ranUeNgapId, amfUeNgapId, gnb, INVALID_POOL_ID, 0);
      ranUes := ranUes.(list := ranUes.list[id := ranUe]);
      return Some(ranUe);
    }

    method RemoveRanUe(id: nat) returns (r: Option<RanUe>)
      requires Valid()
      modifies `ranUes
      ensures Valid()
      ensures View() == Step(old(View()), RanUeRemove(id))
      ensures r == if id in old(ranUes.list) then Some(old(ranUes.list)[id]) else None
      ensures ranUes == old(ranUes).(list := old(ranUes.list) - {id})
    {
      hide Clean;
      StepClean(View(), RanUeRemove(id));
      r := if id in ranUes.list then Some(ranUes.list[id]) else None;
      ranUes := ranUes.(list := ranUes.list - {id});
    }

    method RemoveRanUesOfGnb(gnb: nat)
      requires Valid()
      modifies `ranUes
      ensures Valid()
      ensures View() == Step(old(View()), RanUeRemoveAllForGnb(gnb))
      ensures forall i :: i in ranUes.list <==> i in old(ranUes.list) && old(ranUes.list)[i].gnb != gnb
      ensures forall i :: i in ranUes.list ==> ranUes.list[i] == old(ranUes.list)[i]
    {
      hide Clean;
      StepClean(View(), RanUeRemoveAllForGnb(gnb));
      ranUes := ranUes.(list := map i | i in ranUes.list && ranUes.list[i].gnb != gnb :: ranUes.list[i]);
    }

    method UpdateRanUe(ranUe: RanUe) returns (r: bool)
      requires Valid()
      modifies `ranUes
      ensures Valid()
      ensures View() == Step(old(View()), RanUeUpdate(ranUe))
      ensures r <==> ranUe.id in old(ranUes.list)
      ensures ranUes == if r then old(ranUes).(list := old(ranUes.list)[ranUe.id := ranUe]) else old(ranUes)
    {
      hide Clean;
      StepClean(View(), RanUeUpdate(ranUe));
      if ranUe.id !in ranUes.list {
        return false;
      }
      ranUes := ranUes.(list := ranUes.list[ranUe.id := ranUe]);
      return true;
    }

    method SwitchRanUe(id: nat, gnb: nat) returns (r: bool)
      requires Valid()
      modifies `ranUes
      ensures Valid()
      ensures View() == Step(old(View()), RanUeSwitch(id, gnb))
      ensures r <==> id in old(ranUes.list)
      ensures ranUes == if r then old(ranUes).(list := old(ranUes.list)[id := old(ranUes.list)[id].(gnb := gnb)])
                        else old(ranUes)
    {
      hide Clean;
      StepClean(View(), RanUeSwitch(id, gnb));
      if id !in ranUes.list {
        return false;
      }
      ranUes := ranUes.(list := ranUes.list[id := ranUes.list[id].(gnb := gnb)]);
      return true;
    }

    // UEs

    method AddUe(ranUe: nat) returns (r: Option<AmfUe>)
      requires Valid()
      modifies `amfUes
      ensures Valid()
      ensures View() == Step(old(View()), UeAdd(ranUe))
      ensures r.Some? <==> |old(amfUes.list)| < amfUes.max
      ensures r.Some? ==>
                && r.value.id !in old(amfUes.list) && Some(r.value.id) == Issued(old(View()), UeAdd(ranUe), UePool)
                && r.value.ranUe == ranUe && r.value.suci == None && r.value.supi == None
                && r.value.guti == Guti(Plmn(0, 0, 0, 0, 0, 0), 0, 0, 0, 0)
                && amfUes.list == old(amfUes.list)[r.value.id := r.value]
                && amfUes.suciHash == old(amfUes.suciHash) && amfUes.supiHash == old(amfUes.supiHash)
                && amfUes.gutiHash == old(amfUes.gutiHash)
    {
      hide GnbSound, UeSound;
      StepClean(View(), UeAdd(ranUe));
      if |amfUes.list| >= amfUes.max {
        return None;
      }
      var id := amfUes.next;
      amfUes := amfUes.(next := id + 1);
      amfUes := amfUes.(list := amfUes.list[id := NewUe(id, ranUe)]);
      return Some(NewUe(id, ranUe));
    }

    /** The first critical section of a removal: the UE leaves its table and its three hashes. */
    method TakeUe(id: nat) returns (r: Option<AmfUe>)
      requires Valid()
      modifies `amfUes
      ensures Valid()
      ensures View() == Step(old(View()), UeTake(id))
      ensures r == if id in old(amfUes.list) then Some(old(amfUes.list)[id]) else None
      ensures r.Some? ==>
                && amfUes.list == old(amfUes.list) - {id} && amfUes.gutiHash == old(amfUes.gutiHash) - {r.value.guti}
                && amfUes.suciHash
                   == (if r.value.suci.Some? then old(amfUes.suciHash) - {r.value.suci.value} else old(amfUes.suciHash))
                && amfUes.supiHash
                   == (if r.value.supi.Some? then old(amfUes.supiHash) - {r.value.supi.value} else old(amfUes.supiHash))
      ensures r.None? ==> amfUes == old(amfUes)
    {
      hide Clean;
      StepClean(View(), UeTake(id));
      if id !in amfUes.list {
        return None;
      }
      var ue := amfUes.list[id];
      amfUes := amfUes.(list := amfUes.list - {id});
      if ue.suci.Some? {
        amfUes := amfUes.(suciHash := amfUes.suciHash - {ue.suci.value});
      }
      if ue.supi.Some? {
        amfUes := amfUes.(supiHash := amfUes.supiHash - {ue.supi.value});
      }
      amfUes := amfUes.(gutiHash := amfUes.gutiHash - {ue.guti});
      return Some(ue);
    }

    method RemoveSessionsOfUe(ue: nat)
      requires Valid()
      modifies `sessions
      ensures Valid()
      ensures View() == Step(old(View()), UeDropSessions(ue))
      ensures forall i :: i in sessions.list <==> i in old(sessions.list) && old(sessions.list)[i].amfUe != ue
      ensures forall i :: i in sessions.list ==> sessions.list[i] == old(sessions.list)[i]
    {
      hide Clean;
      StepClean(View(), UeDropSessions(ue));
      sessions := sessions.(list := map i | i in sessions.list && sessions.list[i].amfUe != ue :: sessions.list[i]);
    }

    method N1n2SubscriptionsRemoveForUe(ue: string)
      requires Valid()
      modifies `n1n2Subscriptions
      ensures Valid()
      ensures n1n2Subscriptions == N1n2Registry.Step(old(n1n2Subscriptions), N1n2Registry.DropUe(ue))
    {
      hide Clean;
      n1n2Subscriptions := n1n2Subscriptions - {ue};
    }

    method LcsCorrelationRemove(ue: string)
      modifies `lcsCorrelations
      ensures lcsCorrelations == old(lcsCorrelations) - {ue}
    {
      lcsCorrelations := lcsCorrelations - {ue};
    }

    /** Removing a live UE takes its sessions, its N1N2 subscriptions and its LCS correlation with it, each in a
        critical section of its own; these are their effects when no other thread comes between. */
    method RemoveUe(id: nat) returns (r: Option<AmfUe>)
      requires Valid()
      modifies `amfUes, `sessions, `n1n2Subscriptions, `lcsCorrelations
      ensures Valid()
      ensures r == if id in old(amfUes.list) then Some(old(amfUes.list)[id]) else None
      ensures View() == if r.Some? then Step(Step(old(View()), UeTake(id)), UeDropSessions(id)) else old(View())
      ensures r.Some? && r.value.supi.Some? ==>
                && n1n2Subscriptions
                   == N1n2Registry.Step(old(n1n2Subscriptions), N1n2Registry.DropUe(r.value.supi.value))
                && lcsCorrelations == old(lcsCorrelations) - {r.value.supi.value}
      ensures r.None? || r.value.supi.None? ==>
                n1n2Subscriptions == old(n1n2Subscriptions) && lcsCorrelations == old(lcsCorrelations)
      ensures r.Some? ==>
                && amfUes.list == old(amfUes.list) - {id} && amfUes.gutiHash == old(amfUes.gutiHash) - {r.value.guti}
                && (forall i :: i in sessions.list <==> i in old(sessions.list) && old(sessions.list)[i].amfUe != id)
                && (forall i :: i in sessions.list ==> sessions.list[i] == old(sessions.list)[i])
    {
      hide Clean, N1n2Registry.Step, Step;
      r := TakeUe(id);
      if r.None? {
        NothingToTake(old(View()), id);
        return;
      }
      RemoveSessionsOfUe(id);
      if r.value.supi.Some? {
        N1n2SubscriptionsRemoveForUe(r.value.supi.value);
        LcsCorrelationRemove(r.value.supi.value);
      }
    }

    method RemoveAllUes()
      requires Valid()
      modifies `amfUes, `sessions, `n1n2Subscriptions, `lcsCorrelations
      ensures Valid()
      ensures View() == Step(Step(old(View()), UesClear), SessionsClear)
      ensures n1n2Subscriptions == map[] && lcsCorrelations == map[]
      ensures amfUes == old(amfUes).(list := map[], suciHash := map[], supiHash := map[], gutiHash := map[])
      ensures sessions == old(sessions).(list := map[])
    {
      hide Clean;
      StepClean(View(), UesClear);
      StepClean(Step(View(), UesClear), SessionsClear);
      amfUes := amfUes.(list := map[], suciHash := map[], supiHash := map[], gutiHash := map[]);
      sessions := sessions.(list := map[]);
      n1n2Subscriptions := map[];
      lcsCorrelations := map[];
    }

    method FindUeBySupi(supi: string) returns (r: Option<AmfUe>)
      requires Valid()
      ensures r.Some? <==> supi in amfUes.supiHash
      ensures r.Some? ==> r.value in amfUes.list.Values && r.value.supi == Some(supi)
      ensures UeExact(amfUes) ==>
                (r == None <==> forall i :: i in amfUes.list ==> amfUes.list[i].supi != Some(supi))
      ensures UeExact(amfUes) && r.Some? ==>
                forall i :: i in amfUes.list && amfUes.list[i].supi == Some(supi) ==> amfUes.list[i] == r.value
    {
      if supi !in amfUes.supiHash {
        r := None;
      } else {
        var id := amfUes.supiHash[supi];
        r := if id in amfUes.list then Some(amfUes.list[id]) else None;
      }
      ghost var held := Supis(amfUes);
      if UeExact(amfUes) {
        forall i | i in amfUes.list && amfUes.list[i].supi == Some(supi)
          ensures supi in amfUes.supiHash && amfUes.supiHash[supi] == i
        {
          assert held[i] == supi;
        }
      }
    }

    method FindUeBySuci(suci: string) returns (r: Option<AmfUe>)
      requires Valid()
      ensures r.Some? <==> suci in amfUes.suciHash
      ensures r.Some? ==> r.value in amfUes.list.Values && r.value.suci == Some(suci)
      ensures UeExact(amfUes) ==>
                (r == None <==> forall i :: i in amfUes.list ==> amfUes.list[i].suci != Some(suci))
      ensures UeExact(amfUes) && r.Some? ==>
                forall i :: i in amfUes.list && amfUes.list[i].suci == Some(suci) ==> amfUes.list[i] == r.value
    {
      if suci !in amfUes.suciHash {
        r := None;
      } else {
        var id := amfUes.suciHash[suci];
        r := if id in amfUes.list then Some(amfUes.list[id]) else None;
      }
      ghost var held := Sucis(amfUes);
      if UeExact(amfUes) {
        forall i | i in amfUes.list && amfUes.list[i].suci == Some(suci)
          ensures suci in amfUes.suciHash && amfUes.suciHash[suci] == i
        {
          assert held[i] == suci;
        }
      }
    }

    method FindUeByGuti(guti: Guti) returns (r: Option<AmfUe>)
      requires Valid()
      ensures r.Some? <==> guti in amfUes.gutiHash
      ensures r.Some? ==> r.value in amfUes.list.Values && r.value.guti == guti
      ensures UeExact(amfUes) && guti != DEFAULT_GUTI ==>
                (r == None <==> forall i :: i in amfUes.list ==> amfUes.list[i].guti != guti)
      ensures UeExact(amfUes) && r.Some? ==>
                forall i :: i in amfUes.list && amfUes.list[i].guti == guti ==> amfUes.list[i] == r.value
    {
      if guti !in amfUes.gutiHash {
        r := None;
      } else {
        var id := amfUes.gutiHash[guti];
        r := if id in amfUes.list then Some(amfUes.list[id]) else None;
      }
      ghost var held := AssignedGutis(amfUes);
      if UeExact(amfUes) && guti != DEFAULT_GUTI {
        forall i | i in amfUes.list && amfUes.list[i].guti == guti
          ensures guti in amfUes.gutiHash && amfUes.gutiHash[guti] == i
        {
          assert held[i] == guti;
        }
      }
    }

    method SetUeSuci(id: nat, suci: string) returns (r: bool)
      requires Valid()
      modifies `amfUes
      ensures Valid()
      ensures View() == Step(old(View()), UeSetSuci(id, suci))
      ensures r <==> id in old(amfUes.list)
      ensures r ==>
                && amfUes == old(amfUes).(list := old(amfUes.list)[id := old(amfUes.list)[id].(suci := Some(suci))],
                                          suciHash := amfUes.suciHash)
                && suci in amfUes.suciHash && amfUes.suciHash[suci] == id
                && forall k :: k != suci ==>
                     (k in amfUes.suciHash <==> k in old(amfUes.suciHash) && !(old(amfUes.list)[id].suci == Some(k)))
                     && (k in amfUes.suciHash ==> amfUes.suciHash[k] == old(amfUes.suciHash)[k])
      ensures !r ==> amfUes == old(amfUes)
    {
      hide Clean;
      StepClean(View(), UeSetSuci(id, suci));
      if id !in amfUes.list {
        return false;
      }
      var ue := amfUes.list[id];
      if ue.suci.Some? {
        amfUes := amfUes.(suciHash := amfUes.suciHash - {ue.suci.value});
      }
      amfUes := amfUes.(list := amfUes.list[id := ue.(suci := Some(suci))]);
      amfUes := amfUes.(suciHash := amfUes.suciHash[suci := id]);
      return true;
    }

    method SetUeSupi(id: nat, supi: string) returns (r: bool)
      requires Valid()
      modifies `amfUes
      ensures Valid()
      ensures View() == Step(old(View()), UeSetSupi(id, supi))
      ensures r <==> id in old(amfUes.list)
      ensures r ==>
                && amfUes == old(amfUes).(list := old(amfUes.list)[id := old(amfUes.list)[id].(supi := Some(supi))],
                                          supiHash := amfUes.supiHash)
                && supi in amfUes.supiHash && amfUes.supiHash[supi] == id
                && forall k :: k != supi ==>
                     (k in amfUes.supiHash <==> k in old(amfUes.supiHash) && !(old(amfUes.list)[id].supi == Some(k)))
                     && (k in amfUes.supiHash ==> amfUes.supiHash[k] == old(amfUes.supiHash)[k])
      ensures !r ==> amfUes == old(amfUes)
    {
      hide Clean;
      StepClean(View(), UeSetSupi(id, supi));
      if id !in amfUes.list {
        return false;
      }
      var ue := amfUes.list[id];
      if ue.supi.Some? {
        amfUes := amfUes.(supiHash := amfUes.supiHash - {ue.supi.value});
      }
      amfUes := amfUes.(list := amfUes.list[id := ue.(supi := Some(supi))]);
      amfUes := amfUes.(supiHash := amfUes.supiHash[supi := id]);
      return true;
    }

    method UpdateUeGuti(id: nat, guti: Guti) returns (r: bool)
      requires Valid()
      modifies `amfUes
      ensures Valid()
      ensures View() == Step(old(View()), UeSetGuti(id, guti))
      ensures r <==> id in old(amfUes.list)
      ensures r ==>
                && amfUes == old(amfUes).(list := old(amfUes.list)[id := old(amfUes.list)[id].(guti := guti)],
                                          gutiHash := amfUes.gutiHash)
                && guti in amfUes.gutiHash && amfUes.gutiHash[guti] == id
                && forall k :: k != guti ==>
                     (k in amfUes.gutiHash <==> k in old(amfUes.gutiHash) && !(old(amfUes.list)[id].guti == k))
                     && (k in amfUes.gutiHash ==> amfUes.gutiHash[k] == old(amfUes.gutiHash)[k])
      ensures !r ==> amfUes == old(amfUes)
    {
      hide Clean;
      StepClean(View(), UeSetGuti(id, guti));
      if id !in amfUes.list {
        return false;
      }
      var ue := amfUes.list[id];
      amfUes := amfUes.(gutiHash := amfUes.gutiHash - {ue.guti});
      amfUes := amfUes.(list := amfUes.list[id := ue.(guti := guti)]);
      amfUes := amfUes.(gutiHash := amfUes.gutiHash[guti := id]);
      return true;
    }

    /** The invariant survives exactly when the new record carries every key it is filed under. */
    method UpdateUe(ue: AmfUe) returns (r: bool)
      requires Valid()
      modifies `amfUes
      ensures View() == Step(old(View()), UeUpdate(ue))
      ensures r <==> ue.id in old(amfUes.list)
      ensures Valid() <==> (r ==> UeStaysFiled(old(amfUes), ue))
      ensures amfUes == if r then old(amfUes).(list := old(amfUes.list)[ue.id := ue]) else old(amfUes)
    {
      hide Clean, UeStaysFiled;
      UeUpdateSoundIff(View(), ue);
      if ue.id !in amfUes.list {
        return false;
      }
      amfUes := amfUes.(list := amfUes.list[ue.id := ue]);
      return true;
    }

    method AssociateRanUe(ue: nat, ranUe: nat) returns (r: bool)
      requires Valid()
      modifies `amfUes, `ranUes
      ensures Valid()
      ensures View() == Step(old(View()), Associate(ue, ranUe))
      ensures r <==> ue in old(amfUes.list) && ranUe in old(ranUes.list)
      ensures r ==>
                && amfUes == old(amfUes).(list := old(amfUes.list)[ue := old(amfUes.list)[ue].(ranUe := ranUe)])
                && ranUes == old(ranUes).(list := old(ranUes.list)[ranUe := old(ranUes.list)[ranUe].(amfUe := ue)])
      ensures !r ==> View() == old(View())
    {
      hide Clean;
      StepClean(View(), Associate(ue, ranUe));
      if ue !in amfUes.list || ranUe !in ranUes.list {
        return false;
      }
      amfUes := amfUes.(list := amfUes.list[ue := amfUes.list[ue].(ranUe := ranUe)]);
      ranUes := ranUes.(list := ranUes.list[ranUe := ranUes.list[ranUe].(amfUe := ue)]);
      return true;
    }

    method DeassociateRanUe(ue: nat, ranUe: nat)
      requires Valid()
      modifies `amfUes, `ranUes
      ensures Valid()
      ensures View() == Step(old(View()), Deassociate(ue, ranUe))
      ensures amfUes == if ue in old(amfUes.list)
                        then old(amfUes).(list := old(amfUes.list)[ue := old(amfUes.list)[ue].(ranUe := 0)])
                        else old(amfUes)
      ensures ranUes == if ranUe in old(ranUes.list)
                        then old(ranUes).(list := old(ranUes.list)[ranUe := old(ranUes.list)[ranUe].(amfUe := 0)])
                        else old(ranUes)
    {
      hide Clean;
      StepClean(View(), Deassociate(ue, ranUe));
      if ue in amfUes.list {
        amfUes := amfUes.(list := amfUes.list[ue := amfUes.list[ue].(ranUe := INVALID_POOL_ID)]);
      }
      if ranUe in ranUes.list {
        ranUes := ranUes.(list := ranUes.list[ranUe := ranUes.list[ranUe].(amfUe := INVALID_POOL_ID)]);
      }
    }

    method GetUeLoad() returns (load: nat)
      ensures load == UeLoad(amfUes)
      ensures amfUes.max == 0 ==> load == 0
      ensures amfUes.max > 0 ==> load * amfUes.max <= 100 * |amfUes.list| < (load + 1) * amfUes.max
      ensures |amfUes.list| <= amfUes.max ==> load <= 100
    {
      if amfUes.max == 0 {
        return 0;
      }
      if |amfUes.list| <= amfUes.max {
        LoadIsPercentage(amfUes);
      }
      load := |amfUes.list| * 100 / amfUes.max;
    }

    // Sessions

    method AddSess(ue: nat, psi: nat) returns (r: Option<Sess>)
      requires Valid()
      modifies `sessions
      ensures Valid()
      ensures View() == Step(old(View()), SessAdd(ue, psi))
      ensures r.Some? <==> |old(sessions.list)| < sessions.max
      ensures r.Some? ==>
                && r.value.id !in old(sessions.list) && r.value == Sess(old(sessions.next), ue, psi, 0)
                && Some(r.value.id) == Issued(old(View()), SessAdd(ue, psi), SessPool)
                && sessions.list == old(sessions.list)[r.value.id := r.value]
    {
      hide GnbSound, UeSound;
      StepClean(View(), SessAdd(ue, psi));
      if |sessions.list| >= sessions.max {
        return None;
      }
      var id := sessions.next;
      sessions := sessions.(next := id + 1);
      sessions := sessions.(list := sessions.list[id := Sess(id, ue, psi, 0)]);
      return Some(Sess(id, ue, psi, 0));
    }

    method RemoveSess(id: nat) returns (r: Option<Sess>)
      requires Valid()
      modifies `sessions
      ensures Valid()
      ensures View() == Step(old(View()), SessRemove(id))
      ensures r == if id in old(sessions.list) then Some(old(sessions.list)[id]) else None
      ensures sessions == old(sessions).(list := old(sessions.list) - {id})
    {
      hide Clean;
      StepClean(View(), SessRemove(id));
      r := if id in sessions.list then Some(sessions.list[id]) else None;
      sessions := sessions.(list := sessions.list - {id});
    }

    method UpdateSess(sess: Sess) returns (r: bool)
      requires Valid()
      modifies `sessions
      ensures Valid()
      ensures View() == Step(old(View()), SessUpdate(sess))
      ensures r <==> sess.id in old(sessions.list)
      ensures sessions == if r then old(sessions).(list := old(sessions.list)[sess.id := sess]) else old(sessions)
    {
      hide Clean;
      StepClean(View(), SessUpdate(sess));
      if sess.id !in sessions.list {
        return false;
      }
      sessions := sessions.(list := sessions.list[sess.id := sess]);
      return true;
    }

    // Paging

    method PagingAdd(entry: Paging.PagingContext)
      requires Valid()
      modifies `pagingMap
      ensures Valid()
      ensures pagingMap == Paging.Step(old(pagingMap), Paging.Page(entry))
      ensures pagingMap == old(pagingMap)[entry.ueId := entry]
    {
      hide Clean;
      pagingMap := pagingMap[entry.ueId := entry];
    }

    method PagingRemove(ueId: nat) returns (r: Option<Paging.PagingContext>)
      requires Valid()
      modifies `pagingMap
      ensures Valid()
      ensures pagingMap == Paging.Step(old(pagingMap), Paging.Cancel(ueId))
      ensures r == if ueId in old(pagingMap) then Some(old(pagingMap)[ueId]) else None
      ensures r.Some? ==> r.value.ueId == ueId
      ensures pagingMap == old(pagingMap) - {ueId}
    {
      hide Clean;
      r := if ueId in pagingMap then Some(pagingMap[ueId]) else None;
      pagingMap := pagingMap - {ueId};
    }

    method PagingRetransmit(ueId: nat) returns (r: bool)
      requires Valid()
      modifies `pagingMap
      ensures Valid()
      ensures pagingMap == Paging.Step(old(pagingMap), Paging.Retransmit(ueId))
      ensures r <==> Paging.Allowed(old(pagingMap), ueId)
      ensures r <==> ueId in old(pagingMap) && old(pagingMap)[ueId].retransmits < old(pagingMap)[ueId].maxRetransmits
      ensures pagingMap == if r then old(pagingMap)[ueId := old(pagingMap)[ueId].(
                                       retransmits := old(pagingMap)[ueId].retransmits + 1)]
                           else old(pagingMap)
    {
      hide Clean;
      if ueId in pagingMap {
        var entry := pagingMap[ueId];
        if entry.retransmits >= entry.maxRetransmits {
          return false;
        }
        pagingMap := pagingMap[ueId := entry.(retransmits := entry.retransmits + 1)];
        return true;
      }
      return false;
    }

    /** The removed entries come back as a map, since the walk of the table has no order of its own. */
    method PagingExpire(now: nat, timeoutSecs: nat) returns (expired: Paging.Table)
      requires Valid()
      modifies `pagingMap
      ensures Valid()
      ensures pagingMap == Paging.Step(old(pagingMap), Paging.Expire(now, timeoutSecs))
      ensures expired.Keys !! pagingMap.Keys && expired + pagingMap == old(pagingMap)
      ensures forall i :: i in expired <==>
                i in old(pagingMap) && now - old(pagingMap)[i].initiatedAt >= (timeoutSecs + 1) * 1_000_000_000
    {
      hide Clean;
      expired := map i | i in pagingMap && Paging.Expired(pagingMap[i], now, timeoutSecs) :: pagingMap[i];
      pagingMap := map i | i in pagingMap && !Paging.Expired(pagingMap[i], now, timeoutSecs) :: pagingMap[i];
    }

    // N1N2 subscriptions

    method FindPosition(list: seq<N1n2Registry.Subscription>, id: string) returns (i: nat)
      ensures i == N1n2Registry.Position(list, id)
    {
      i := 0;
      while i < |list| && list[i].id != id
        invariant i <= |list|
        invariant N1n2Registry.Position(list, id) == i + N1n2Registry.Position(list[i..], id)
      {
        i := i + 1;
      }
    }

    method N1n2SubscriptionAdd(ue: string, sub: N1n2Registry.Subscription) returns (r: bool)
      requires Valid()
      modifies `n1n2Subscriptions
      ensures Valid()
      ensures n1n2Subscriptions == N1n2Registry.Step(old(n1n2Subscriptions), N1n2Registry.Add(ue, sub))
      ensures r <==> !N1n2Registry.Subscribed(old(n1n2Subscriptions), ue, sub.id)
      ensures r ==>
                var subs := old(n1n2Subscriptions);
                n1n2Subscriptions == subs[ue := (if ue in subs then subs[ue] else []) + [sub]]
      ensures !r ==> n1n2Subscriptions == old(n1n2Subscriptions)
    {
      hide Clean;
      N1n2Registry.StepWellKept(n1n2Subscriptions, N1n2Registry.Add(ue, sub));
      var list := if ue in n1n2Subscriptions then n1n2Subscriptions[ue] else [];
      var i := FindPosition(list, sub.id);
      if i < |list| {
        return false;
      }
      n1n2Subscriptions := n1n2Subscriptions[ue := list + [sub]];
      return true;
    }

    method N1n2SubscriptionRemove(ue: string, id: string) returns (r: Option<N1n2Registry.Subscription>)
      requires Valid()
      modifies `n1n2Subscriptions
      ensures Valid()
      ensures n1n2Subscriptions == N1n2Registry.Step(old(n1n2Subscriptions), N1n2Registry.Remove(ue, id))
      ensures r.Some? <==> N1n2Registry.Subscribed(old(n1n2Subscriptions), ue, id)
      ensures r.Some? ==> r.value.id == id && r.value in old(n1n2Subscriptions)[ue]
      ensures r.None? ==> n1n2Subscriptions == old(n1n2Subscriptions)
      ensures r.Some? ==>
                exists i: nat ::
                  var list := old(n1n2Subscriptions)[ue];
                  && i < |list| && list[i] == r.value
                  && n1n2Subscriptions == if |list| == 1 then old(n1n2Subscriptions) - {ue}
                                          else old(n1n2Subscriptions)[ue := list[..i] + list[i + 1..]]
    {
      hide Clean;
      N1n2Registry.StepWellKept(n1n2Subscriptions, N1n2Registry.Remove(ue, id));
      if ue !in n1n2Subscriptions {
        return None;
      }
      var list := n1n2Subscriptions[ue];
      var i := FindPosition(list, id);
      if i == |list| {
        return None;
      }
      r := Some(list[i]);
      assert list[i] == r.value;
      list := list[..i] + list[i + 1..];
      if list == [] {
        n1n2Subscriptions := n1n2Subscriptions - {ue};
      } else {
        n1n2Subscriptions := n1n2Subscriptions[ue := list];
      }
    }

    // Egress queues

    method PositioningDlAdd(item: PositioningDl)
      modifies `positioningDlQueue
      ensures positioningDlQueue == EgressQueues.QueueAfter(old(positioningDlQueue), [EgressQueues.Push(item)])
      ensures positioningDlQueue == old(positioningDlQueue) + [item]
    {
      positioningDlQueue := positioningDlQueue + [item];
    }

    method PositioningDlDrain() returns (batch: seq<PositioningDl>)
      modifies `positioningDlQueue
      ensures positioningDlQueue == EgressQueues.QueueAfter(old(positioningDlQueue), [EgressQueues.Drain])
      ensures batch == EgressQueues.Delivered(old(positioningDlQueue), [EgressQueues.Drain])
      ensures batch == old(positioningDlQueue) && positioningDlQueue == []
    {
      batch := positioningDlQueue;
      positioningDlQueue := [];
    }

    method NetworkDeregAdd(item: Dereg)
      modifies `networkDeregQueue
      ensures networkDeregQueue == EgressQueues.QueueAfter(old(networkDeregQueue), [EgressQueues.Push(item)])
      ensures networkDeregQueue == old(networkDeregQueue) + [item]
    {
      networkDeregQueue := networkDeregQueue + [item];
    }

    method NetworkDeregDrain() returns (batch: seq<Dereg>)
      modifies `networkDeregQueue
      ensures networkDeregQueue == EgressQueues.QueueAfter(old(networkDeregQueue), [EgressQueues.Drain])
      ensures batch == EgressQueues.Delivered(old(networkDeregQueue), [EgressQueues.Drain])
      ensures batch == old(networkDeregQueue) && networkDeregQueue == []
    {
      batch := networkDeregQueue;
      networkDeregQueue := [];
    }
  }

  lemma NothingToTake(s: Store, id: nat)
    requires id !in s.amfUes.list
    ensures Step(s, UeTake(id)) == s
  {
  }
}
