/** The tables of the AMF context (context.rs): gNBs, RAN UEs, AMF UEs and sessions, the five hashes over them,
    the id generators and the capacity limits, as values, with every operation as a function on them. */
module AmfStore {
  import opened Wrappers
  import opened HashIndex
  import opened IdentityCodec

  const INVALID_POOL_ID := 0

  // Records. `attributes` stands for the fields that no operation here looks at.

  datatype Gnb = Gnb(id: nat, addr: string, gnbIdPresence: bool, gnbId: nat, attributes: int)

  datatype RanUe = RanUe(
    id: nat, index: nat, ranUeNgapId: nat, amfUeNgapId: nat, gnb: nat, amfUe: nat, attributes: int)

  datatype AmfUe = AmfUe(
    id: nat, suci: Option<string>, supi: Option<string>, guti: Guti, ranUe: nat, attributes: int)

  datatype Sess = Sess(id: nat, amfUe: nat, psi: nat, attributes: int)

  // Tables

  datatype Gnbs = Gnbs(list: map<nat, Gnb>, addrHash: map<string, nat>, idHash: map<nat, nat>, next: nat, max: nat)

  datatype RanUes = RanUes(list: map<nat, RanUe>, next: nat, nextIndex: nat, nextNgapId: nat, max: nat)

  datatype AmfUes = AmfUes(
    list: map<nat, AmfUe>, suciHash: map<string, nat>, supiHash: map<string, nat>, gutiHash: map<Guti, nat>,
    next: nat, max: nat)

  datatype Sessions = Sessions(list: map<nat, Sess>, next: nat, max: nat)

  datatype Store = Store(gnbs: Gnbs, ranUes: RanUes, amfUes: AmfUes, sessions: Sessions, initialized: bool)

  const NEW_STORE := Store(
    Gnbs(map[], map[], map[], 1, 0), RanUes(map[], 1, 1, 1, 0), AmfUes(map[], map[], map[], map[], 1, 0),
    Sessions(map[], 1, 0), false)

  /** One operation is one critical section: what a thread does between taking its first lock and releasing its last.
      Removing a UE is `UeTake` and then `UeDropSessions`; removing all UEs is `UesClear` and then `SessionsClear`;
      removing all gNBs is `GnbsClear` and then `RanUesClear`. Other threads may run in between. `Init` and `Fini` have
      the context to themselves. */
  datatype Op =
    | Init(maxGnb: nat, maxUe: nat, maxSess: nat)
    | Fini
    | NextNgapId
    | GnbAdd(addr: string)
    | GnbRemove(gnb: nat)
    | GnbsClear
    | RanUesClear
    | GnbSetId(gnb: nat, gnbId: nat)
    | GnbUpdate(gnbRecord: Gnb)
    | RanUeAdd(gnb: nat, ranUeNgapId: nat)
    | RanUeRemove(ranUe: nat)
    | RanUeRemoveAllForGnb(gnb: nat)
    | RanUeUpdate(ranUeRecord: RanUe)
    | RanUeSwitch(ranUe: nat, gnb: nat)
    | UeAdd(ranUe: nat)
    | UeTake(ue: nat)
    | UeDropSessions(ue: nat)
    | UesClear
    | SessionsClear
    | UeSetSuci(ue: nat, suci: string)
    | UeSetSupi(ue: nat, supi: string)
    | UeSetGuti(ue: nat, guti: Guti)
    | UeUpdate(ueRecord: AmfUe)
    | Associate(ue: nat, ranUe: nat)
    | Deassociate(ue: nat, ranUe: nat)
    | SessAdd(ue: nat, psi: nat)
    | SessRemove(sess: nat)
    | SessUpdate(sessRecord: Sess)

  // ------------------------------------------------------------------------
  // What each operation does to each table
  // ------------------------------------------------------------------------

  function NewGnb(id: nat, addr: string): Gnb {
    Gnb(id, addr, false, 0, 0)
  }

  function AddGnb(g: Gnbs, addr: string): Gnbs {
    if |g.list| >= g.max then g
    else g.(list := g.list[g.next := NewGnb(g.next, addr)], addrHash := g.addrHash[addr := g.next], next := g.next + 1)
  }

  function RemoveGnb(g: Gnbs, id: nat): Gnbs {
    if id !in g.list then g
    else
      var gnb := g.list[id];
      g.(list := g.list - {id}, addrHash := g.addrHash - {gnb.addr},
         idHash := if gnb.gnbIdPresence then g.idHash - {gnb.gnbId} else g.idHash)
  }

  function SetGnbId(g: Gnbs, id: nat, gnbId: nat): Gnbs {
    if id !in g.list then g
    else
      var gnb := g.list[id];
      var idHash := if gnb.gnbIdPresence then g.idHash - {gnb.gnbId} else g.idHash;
      g.(list := g.list[id := gnb.(gnbId := gnbId, gnbIdPresence := true)], idHash := idHash[gnbId := id])
  }

  function ClearGnbs(g: Gnbs): Gnbs {
    g.(list := map[], addrHash := map[], idHash := map[])
  }

  function GnbStep(g: Gnbs, initialized: bool, op: Op): Gnbs {
    match op
    case Init(maxGnb, _, _) => if initialized then g else g.(max := maxGnb)
    case Fini => if initialized then ClearGnbs(g) else g
    case GnbAdd(addr) => AddGnb(g, addr)
    case GnbRemove(id) => RemoveGnb(g, id)
    case GnbsClear => ClearGnbs(g)
    case GnbSetId(id, gnbId) => SetGnbId(g, id, gnbId)
    case GnbUpdate(r) => if r.id in g.list then g.(list := g.list[r.id := r]) else g
    case _ => g
  }

  function NewRanUe(r: RanUes, gnb: nat, ranUeNgapId: nat): RanUe {
    RanUe(r.next, r.nextIndex % 0x100000000, ranUeNgapId, r.nextNgapId, gnb, INVALID_POOL_ID, 0)
  }

  function AddRanUe(r: RanUes, gnb: nat, ranUeNgapId: nat): RanUes {
    if |r.list| >= r.max then r
    else r.(list := r.list[r.next := NewRanUe(r, gnb, ranUeNgapId)],
            next := r.next + 1, nextIndex := r.nextIndex + 1, nextNgapId := r.nextNgapId + 1)
  }

  function DropChildrenOfGnb(r: RanUes, gnb: nat): RanUes {
    r.(list := map i | i in r.list && r.list[i].gnb != gnb :: r.list[i])
  }

  function RanUeStep(r: RanUes, gnbs: Gnbs, amfUes: AmfUes, initialized: bool, op: Op): RanUes {
    match op
    case Init(_, maxUe, _) => if initialized then r else r.(max := maxUe * 2)
    case Fini => if initialized then r.(list := map[]) else r
    case NextNgapId => r.(nextNgapId := r.nextNgapId + 1)
    case GnbRemove(gnb) => if gnb in gnbs.list then DropChildrenOfGnb(r, gnb) else r
    case RanUesClear => r.(list := map[])
    case RanUeAdd(gnb, ranUeNgapId) => AddRanUe(r, gnb, ranUeNgapId)
    case RanUeRemove(id) => r.(list := r.list - {id})
    case RanUeRemoveAllForGnb(gnb) => DropChildrenOfGnb(r, gnb)
    case RanUeUpdate(rec) => if rec.id in r.list then r.(list := r.list[rec.id := rec]) else r
    case RanUeSwitch(id, gnb) => if id in r.list then r.(list := r.list[id := r.list[id].(gnb := gnb)]) else r
    case Associate(ue, id) =>
      if ue in amfUes.list && id in r.list then r.(list := r.list[id := r.list[id].(amfUe := ue)]) else r
    case Deassociate(_, id) =>
      if id in r.list then r.(list := r.list[id := r.list[id].(amfUe := INVALID_POOL_ID)]) else r
    case _ => r
  }

  function NewUe(id: nat, ranUe: nat): AmfUe {
    AmfUe(id, None, None, DEFAULT_GUTI, ranUe, 0)
  }

  function AddUe(u: AmfUes, ranUe: nat): AmfUes {
    if |u.list| >= u.max then u
    else u.(list := u.list[u.next := NewUe(u.next, ranUe)], next := u.next + 1)
  }

  function RemoveUe(u: AmfUes, id: nat): AmfUes {
    if id !in u.list then u
    else
      var ue := u.list[id];
      u.(list := u.list - {id}, suciHash := Without(u.suciHash, ue.suci), supiHash := Without(u.supiHash, ue.supi),
         gutiHash := u.gutiHash - {ue.guti})
  }

  function SetSuci(u: AmfUes, id: nat, suci: string): AmfUes {
    if id !in u.list then u
    else u.(list := u.list[id := u.list[id].(suci := Some(suci))],
            suciHash := Rekeyed(u.suciHash, u.list[id].suci, id, suci))
  }

  function SetSupi(u: AmfUes, id: nat, supi: string): AmfUes {
    if id !in u.list then u
    else u.(list := u.list[id := u.list[id].(supi := Some(supi))],
            supiHash := Rekeyed(u.supiHash, u.list[id].supi, id, supi))
  }

  function SetGuti(u: AmfUes, id: nat, guti: Guti): AmfUes {
    if id !in u.list then u
    else u.(list := u.list[id := u.list[id].(guti := guti)],
            gutiHash := Rekeyed(u.gutiHash, Some(u.list[id].guti), id, guti))
  }

  function ClearUes(u: AmfUes): AmfUes {
    u.(list := map[], suciHash := map[], supiHash := map[], gutiHash := map[])
  }

  function UeStep(u: AmfUes, ranUes: RanUes, initialized: bool, op: Op): AmfUes {
    match op
    case Init(_, maxUe, _) => if initialized then u else u.(max := maxUe)
    case Fini => if initialized then ClearUes(u) else u
    case UeAdd(ranUe) => AddUe(u, ranUe)
    case UeTake(id) => RemoveUe(u, id)
    case UesClear => ClearUes(u)
    case UeSetSuci(id, suci) => SetSuci(u, id, suci)
    case UeSetSupi(id, supi) => SetSupi(u, id, supi)
    case UeSetGuti(id, guti) => SetGuti(u, id, guti)
    case UeUpdate(rec) => if rec.id in u.list then u.(list := u.list[rec.id := rec]) else u
    case Associate(id, ran) =>
      if id in u.list && ran in ranUes.list then u.(list := u.list[id := u.list[id].(ranUe := ran)]) else u
    case Deassociate(id, _) =>
      if id in u.list then u.(list := u.list[id := u.list[id].(ranUe := INVALID_POOL_ID)]) else u
    case _ => u
  }

  function AddSess(s: Sessions, ue: nat, psi: nat): Sessions {
    if |s.list| >= s.max then s
    else s.(list := s.list[s.next := Sess(s.next, ue, psi, 0)], next := s.next + 1)
  }

  function DropSessionsOfUe(s: Sessions, ue: nat): Sessions {
    s.(list := map i | i in s.list && s.list[i].amfUe != ue :: s.list[i])
  }

  function SessStep(s: Sessions, initialized: bool, op: Op): Sessions {
    match op
    case Init(_, _, maxSess) => if initialized then s else s.(max := maxSess)
    case Fini => if initialized then s.(list := map[]) else s
    case UeDropSessions(ue) => DropSessionsOfUe(s, ue)
    case SessionsClear => s.(list := map[])
    case SessAdd(ue, psi) => AddSess(s, ue, psi)
    case SessRemove(id) => s.(list := s.list - {id})
    case SessUpdate(rec) => if rec.id in s.list then s.(list := s.list[rec.id := rec]) else s
    case _ => s
  }

  function Step(s: Store, op: Op): Store {
    Store(GnbStep(s.gnbs, s.initialized, op), RanUeStep(s.ranUes, s.gnbs, s.amfUes, s.initialized, op),
          UeStep(s.amfUes, s.ranUes, s.initialized, op), SessStep(s.sessions, s.initialized, op),
          if op.Init? then true else if op.Fini? then false else s.initialized)
  }

  /** The state after the first `n` operations of a run. */
  function After(s: Store, run: seq<Op>, n: nat): Store
    requires n <= |run|
  {
    if n == 0 then s else Step(After(s, run, n - 1), run[n - 1])
  }

  // ------------------------------------------------------------------------
  // Keys
  // ------------------------------------------------------------------------

  function Addrs(g: Gnbs): map<nat, string> {
    map i | i in g.list :: g.list[i].addr
  }

  function GnbIds(g: Gnbs): map<nat, nat> {
    map i | i in g.list && g.list[i].gnbIdPresence :: g.list[i].gnbId
  }

  function Sucis(u: AmfUes): map<nat, string> {
    map i | i in u.list && u.list[i].suci.Some? :: u.list[i].suci.value
  }

  function Supis(u: AmfUes): map<nat, string> {
    map i | i in u.list && u.list[i].supi.Some? :: u.list[i].supi.value
  }

  function Gutis(u: AmfUes): map<nat, Guti> {
    map i | i in u.list :: u.list[i].guti
  }

  /** The GUTIs of the UEs that have been given one; a new UE carries the default. */
  function AssignedGutis(u: AmfUes): map<nat, Guti> {
    map i | i in u.list && u.list[i].guti != DEFAULT_GUTI :: u.list[i].guti
  }

  // ------------------------------------------------------------------------
  // Load
  // ------------------------------------------------------------------------

  function UeLoad(u: AmfUes): nat {
    if u.max == 0 then 0 else |u.list| * 100 / u.max
  }
}
