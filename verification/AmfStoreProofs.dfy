/** What every run of the AMF context's operations keeps. */
module AmfStoreProofs {
  import opened Wrappers
  import opened HashIndex
  import opened IdentityCodec
  import opened AmfStore

  // ------------------------------------------------------------------------
  // Ids
  // ------------------------------------------------------------------------

  predicate GnbIdsIssued(g: Gnbs) {
    forall i :: i in g.list ==> g.list[i].id == i && i < g.next
  }

  predicate RanUeIdsIssued(r: RanUes) {
    forall i :: i in r.list ==> r.list[i].id == i && i < r.next
  }

  predicate UeIdsIssued(u: AmfUes) {
    forall i :: i in u.list ==> u.list[i].id == i && i < u.next
  }

  predicate SessIdsIssued(s: Sessions) {
    forall i :: i in s.list ==> s.list[i].id == i && i < s.next
  }

  /** Records are filed under their own id, and every live id has been issued before. */
  predicate IdsIssued(s: Store) {
    GnbIdsIssued(s.gnbs) && RanUeIdsIssued(s.ranUes) && UeIdsIssued(s.amfUes) && SessIdsIssued(s.sessions)
  }

  lemma GnbStepIds(g: Gnbs, initialized: bool, op: Op)
    requires GnbIdsIssued(g)
    ensures GnbIdsIssued(GnbStep(g, initialized, op)) && g.next <= GnbStep(g, initialized, op).next
  {
  }

  lemma RanUeStepIds(r: RanUes, g: Gnbs, u: AmfUes, initialized: bool, op: Op)
    requires RanUeIdsIssued(r)
    ensures RanUeIdsIssued(RanUeStep(r, g, u, initialized, op)) && r.next <= RanUeStep(r, g, u, initialized, op).next
  {
  }

  lemma UeStepIds(u: AmfUes, r: RanUes, initialized: bool, op: Op)
    requires UeIdsIssued(u)
    ensures UeIdsIssued(UeStep(u, r, initialized, op)) && u.next <= UeStep(u, r, initialized, op).next
  {
  }

  lemma SessStepIds(s: Sessions, initialized: bool, op: Op)
    requires SessIdsIssued(s)
    ensures SessIdsIssued(SessStep(s, initialized, op)) && s.next <= SessStep(s, initialized, op).next
  {
  }

  lemma StepIdsIssued(s: Store, op: Op)
    requires IdsIssued(s)
    ensures IdsIssued(Step(s, op))
  {
    GnbStepIds(s.gnbs, s.initialized, op);
    RanUeStepIds(s.ranUes, s.gnbs, s.amfUes, s.initialized, op);
    UeStepIds(s.amfUes, s.ranUes, s.initialized, op);
    SessStepIds(s.sessions, s.initialized, op);
  }

  // ------------------------------------------------------------------------
  // How each operation moves the keys
  // ------------------------------------------------------------------------

  lemma AddGnbKeys(g: Gnbs, addr: string)
    requires |g.list| < g.max && g.next !in g.list
    ensures Addrs(AddGnb(g, addr)) == Addrs(g)[g.next := addr]
    ensures AddGnb(g, addr).addrHash == Rekeyed(g.addrHash, KeyOf(Addrs(g), g.next), g.next, addr)
    ensures GnbIds(AddGnb(g, addr)) == GnbIds(g)
  {
  }

  lemma RemoveGnbKeys(g: Gnbs, id: nat)
    ensures Addrs(RemoveGnb(g, id)) == Addrs(g) - {id}
    ensures RemoveGnb(g, id).addrHash == Without(g.addrHash, KeyOf(Addrs(g), id))
    ensures GnbIds(RemoveGnb(g, id)) == GnbIds(g) - {id}
    ensures RemoveGnb(g, id).idHash == Without(g.idHash, KeyOf(GnbIds(g), id))
  {
  }

  lemma SetGnbIdKeys(g: Gnbs, id: nat, gnbId: nat)
    requires id in g.list
    ensures Addrs(SetGnbId(g, id, gnbId)) == Addrs(g)
    ensures GnbIds(SetGnbId(g, id, gnbId)) == GnbIds(g)[id := gnbId]
    ensures SetGnbId(g, id, gnbId).idHash == Rekeyed(g.idHash, KeyOf(GnbIds(g), id), id, gnbId)
  {
  }

  lemma AddUeKeys(u: AmfUes, ranUe: nat)
    requires |u.list| < u.max && u.next !in u.list
    ensures Sucis(AddUe(u, ranUe)) == Sucis(u) && Supis(AddUe(u, ranUe)) == Supis(u)
    ensures AddUe(u, ranUe).suciHash == u.suciHash && AddUe(u, ranUe).supiHash == u.supiHash
  {
  }

  lemma AddUeGuti(u: AmfUes, ranUe: nat)
    requires |u.list| < u.max && u.next !in u.list
    ensures Gutis(AddUe(u, ranUe)) == Gutis(u)[u.next := DEFAULT_GUTI]
    ensures AssignedGutis(AddUe(u, ranUe)) == AssignedGutis(u)
    ensures AddUe(u, ranUe).gutiHash == u.gutiHash
  {
    hide DEFAULT_GUTI;
  }

  lemma RemoveUeKeys(u: AmfUes, id: nat)
    requires id in u.list
    ensures Sucis(RemoveUe(u, id)) == Sucis(u) - {id}
    ensures RemoveUe(u, id).suciHash == Without(u.suciHash, KeyOf(Sucis(u), id))
    ensures Supis(RemoveUe(u, id)) == Supis(u) - {id}
    ensures RemoveUe(u, id).supiHash == Without(u.supiHash, KeyOf(Supis(u), id))
  {
  }

  lemma RemoveUeGuti(u: AmfUes, id: nat)
    requires id in u.list
    ensures Gutis(RemoveUe(u, id)) == Gutis(u) - {id}
    ensures AssignedGutis(RemoveUe(u, id)) == AssignedGutis(u) - {id}
    ensures RemoveUe(u, id).gutiHash == Without(u.gutiHash, KeyOf(Gutis(u), id))
    ensures DEFAULT_GUTI !in u.gutiHash ==>
              RemoveUe(u, id).gutiHash == Without(u.gutiHash, KeyOf(AssignedGutis(u), id))
  {
  }

  lemma SetSuciKeys(u: AmfUes, id: nat, suci: string)
    requires id in u.list
    ensures Sucis(SetSuci(u, id, suci)) == Sucis(u)[id := suci]
    ensures SetSuci(u, id, suci).suciHash == Rekeyed(u.suciHash, KeyOf(Sucis(u), id), id, suci)
    ensures Supis(SetSuci(u, id, suci)) == Supis(u)
    ensures Gutis(SetSuci(u, id, suci)) == Gutis(u) && AssignedGutis(SetSuci(u, id, suci)) == AssignedGutis(u)
  {
  }

  lemma SetSupiKeys(u: AmfUes, id: nat, supi: string)
    requires id in u.list
    ensures Supis(SetSupi(u, id, supi)) == Supis(u)[id := supi]
    ensures SetSupi(u, id, supi).supiHash == Rekeyed(u.supiHash, KeyOf(Supis(u), id), id, supi)
    ensures Sucis(SetSupi(u, id, supi)) == Sucis(u)
    ensures Gutis(SetSupi(u, id, supi)) == Gutis(u) && AssignedGutis(SetSupi(u, id, supi)) == AssignedGutis(u)
  {
  }

  lemma SetGutiKeys(u: AmfUes, id: nat, guti: Guti)
    requires id in u.list
    ensures Sucis(SetGuti(u, id, guti)) == Sucis(u) && Supis(SetGuti(u, id, guti)) == Supis(u)
    ensures Gutis(SetGuti(u, id, guti)) == Gutis(u)[id := guti]
    ensures SetGuti(u, id, guti).gutiHash == Rekeyed(u.gutiHash, KeyOf(Gutis(u), id), id, guti)
  {
  }

  lemma SetAssignedGuti(u: AmfUes, id: nat, guti: Guti)
    requires id in u.list && guti != DEFAULT_GUTI && DEFAULT_GUTI !in u.gutiHash
    ensures AssignedGutis(SetGuti(u, id, guti)) == AssignedGutis(u)[id := guti]
    ensures SetGuti(u, id, guti).gutiHash == Rekeyed(u.gutiHash, KeyOf(AssignedGutis(u), id), id, guti)
  {
  }

  /** A whole-record update leaves the indexed keys of the record alone. */
  predicate KeepsKeys(s: Store, op: Op) {
    match op
    case GnbUpdate(r) =>
      r.id in s.gnbs.list ==>
        var was := s.gnbs.list[r.id];
        r.addr == was.addr && r.gnbIdPresence == was.gnbIdPresence && r.gnbId == was.gnbId
    case UeUpdate(r) =>
      r.id in s.amfUes.list ==>
        var was := s.amfUes.list[r.id];
        r.suci == was.suci && r.supi == was.supi && r.guti == was.guti
    case _ => true
  }

  /** Operations that give no gNB a key and take none away. */
  predicate OtherGnbOp(op: Op) {
    !(op.GnbAdd? || op.GnbRemove? || op.GnbSetId? || op.GnbsClear? || op.Fini?)
  }

  lemma OtherGnbOpKeepsKeys(s: Store, op: Op)
    requires KeepsKeys(s, op) && OtherGnbOp(op)
    ensures var g, g' := s.gnbs, Step(s, op).gnbs;
            Addrs(g') == Addrs(g) && GnbIds(g') == GnbIds(g) && g'.addrHash == g.addrHash && g'.idHash == g.idHash
  {
  }

  /** Operations that give no UE a key and take none away. */
  predicate OtherUeOp(op: Op) {
    !(op.UeAdd? || op.UeTake? || op.UeSetSuci? || op.UeSetSupi? || op.UeSetGuti? || op.UesClear? || op.Fini?)
  }

  ghost predicate SameUeKeys(u: AmfUes, u': AmfUes) {
    && Sucis(u') == Sucis(u) && Supis(u') == Supis(u) && Gutis(u') == Gutis(u) && AssignedGutis(u') == AssignedGutis(u)
    && u'.suciHash == u.suciHash && u'.supiHash == u.supiHash && u'.gutiHash == u.gutiHash
  }

  lemma RewriteKeepsKeys(u: AmfUes, ue: AmfUe)
    requires ue.id in u.list
    requires var was := u.list[ue.id]; ue.suci == was.suci && ue.supi == was.supi && ue.guti == was.guti
    ensures SameUeKeys(u, u.(list := u.list[ue.id := ue]))
  {
  }

  lemma OtherUeOpKeepsKeys(s: Store, op: Op)
    requires IdsIssued(s) && KeepsKeys(s, op) && OtherUeOp(op)
    ensures SameUeKeys(s.amfUes, Step(s, op).amfUes)
  {
    var u := s.amfUes;
    if op.UeUpdate? && op.ueRecord.id in u.list {
      RewriteKeepsKeys(u, op.ueRecord);
    } else if op.Associate? && op.ue in u.list {
      RewriteKeepsKeys(u, u.list[op.ue].(ranUe := op.ranUe));
    } else if op.Deassociate? && op.ue in u.list {
      RewriteKeepsKeys(u, u.list[op.ue].(ranUe := INVALID_POOL_ID));
    }
  }

  // ------------------------------------------------------------------------
  // Index soundness
  // ------------------------------------------------------------------------

  ghost predicate GnbSound(g: Gnbs) {
    Sound(Addrs(g), g.addrHash) && Sound(GnbIds(g), g.idHash)
  }

  ghost predicate UeSound(u: AmfUes) {
    Sound(Sucis(u), u.suciHash) && Sound(Supis(u), u.supiHash) && Sound(Gutis(u), u.gutiHash)
  }

  lemma GnbStepSound(s: Store, op: Op)
    requires IdsIssued(s) && GnbSound(s.gnbs) && KeepsKeys(s, op)
    ensures GnbSound(Step(s, op).gnbs)
  {
    var g := s.gnbs;
    if OtherGnbOp(op) {
      OtherGnbOpKeepsKeys(s, op);
    } else if op.GnbAdd? && |g.list| < g.max {
      AddGnbKeys(g, op.addr);
      RekeySound(Addrs(g), g.addrHash, g.next, op.addr);
    } else if op.GnbRemove? {
      RemoveGnbKeys(g, op.gnb);
      ForgetSound(Addrs(g), g.addrHash, op.gnb);
      ForgetSound(GnbIds(g), g.idHash, op.gnb);
    } else if op.GnbSetId? && op.gnb in g.list {
      SetGnbIdKeys(g, op.gnb, op.gnbId);
      RekeySound(GnbIds(g), g.idHash, op.gnb, op.gnbId);
    }
  }

  lemma UeStepSound(s: Store, op: Op)
    requires IdsIssued(s) && UeSound(s.amfUes) && KeepsKeys(s, op)
    ensures UeSound(Step(s, op).amfUes)
  {
    var u := s.amfUes;
    if OtherUeOp(op) {
      OtherUeOpKeepsKeys(s, op);
    } else if op.UeAdd? && |u.list| < u.max {
      AddUeKeys(u, op.ranUe);
      AddUeGuti(u, op.ranUe);
      GrowSound(Gutis(u), u.gutiHash, u.next, DEFAULT_GUTI);
    } else if op.UeTake? && op.ue in u.list {
      RemoveUeSound(u, op.ue);
    } else if op.UeSetSuci? && op.ue in u.list {
      SetSuciKeys(u, op.ue, op.suci);
      RekeySound(Sucis(u), u.suciHash, op.ue, op.suci);
    } else if op.UeSetSupi? && op.ue in u.list {
      SetSupiKeys(u, op.ue, op.supi);
      RekeySound(Supis(u), u.supiHash, op.ue, op.supi);
    } else if op.UeSetGuti? && op.ue in u.list {
      SetGutiKeys(u, op.ue, op.guti);
      RekeySound(Gutis(u), u.gutiHash, op.ue, op.guti);
    }
  }

  lemma RemoveUeSound(u: AmfUes, id: nat)
    requires id in u.list && UeSound(u)
    ensures UeSound(RemoveUe(u, id))
  {
    RemoveUeKeys(u, id);
    RemoveUeGuti(u, id);
    ForgetSound(Sucis(u), u.suciHash, id);
    ForgetSound(Supis(u), u.supiHash, id);
    ForgetSound(Gutis(u), u.gutiHash, id);
  }

  /** Ids in order and every hash entry sound: what the context object maintains. */
  ghost predicate Clean(s: Store) {
    IdsIssued(s) && GnbSound(s.gnbs) && UeSound(s.amfUes)
  }

  lemma StepClean(s: Store, op: Op)
    requires Clean(s) && KeepsKeys(s, op)
    ensures Clean(Step(s, op))
  {
    StepIdsIssued(s, op);
    GnbStepSound(s, op);
    UeStepSound(s, op);
  }

  /** The operations of a run that rewrite whole records keep the indexed keys. */
  predicate RunKeepsKeys(s: Store, run: seq<Op>) {
    forall k :: 0 <= k < |run| ==> KeepsKeys(After(s, run, k), run[k])
  }

  /** Index soundness over all runs, whatever keys callers reuse: every entry of the five hashes points to a live
      record that carries exactly that key. */
  lemma {:induction false} IndexesStaySound(s: Store, run: seq<Op>, n: nat)
    requires Clean(s) && RunKeepsKeys(s, run) && n <= |run|
    ensures Clean(After(s, run, n))
  {
    hide Step, Clean;
    if n == 0 {
    } else {
      IndexesStaySound(s, run, n - 1);
      StepClean(After(s, run, n - 1), run[n - 1]);
    }
  }

  /** The record carries every key under which the gNB hashes file its id. */
  ghost predicate GnbStaysFiled(g: Gnbs, r: Gnb) {
    && (forall k :: k in g.addrHash && g.addrHash[k] == r.id ==> r.addr == k)
    && (forall k :: k in g.idHash && g.idHash[k] == r.id ==> r.gnbIdPresence && r.gnbId == k)
  }

  /** The record carries every key under which the UE hashes file its id. */
  ghost predicate UeStaysFiled(u: AmfUes, r: AmfUe) {
    && (forall k :: k in u.suciHash && u.suciHash[k] == r.id ==> r.suci == Some(k))
    && (forall k :: k in u.supiHash && u.supiHash[k] == r.id ==> r.supi == Some(k))
    && (forall k :: k in u.gutiHash && u.gutiHash[k] == r.id ==> r.guti == k)
  }

  /** A whole-record update that need not keep the keys: the two gNB indexes stay sound if and only if the new record
      carries every key it is filed under. */
  lemma GnbUpdateSoundIff(s: Store, r: Gnb)
    requires Clean(s)
    ensures Clean(Step(s, GnbUpdate(r))) <==> (r.id in s.gnbs.list ==> GnbStaysFiled(s.gnbs, r))
  {
    StepIdsIssued(s, GnbUpdate(r));
    if r.id in s.gnbs.list {
      var g, g' := s.gnbs, Step(s, GnbUpdate(r)).gnbs;
      RewriteSound(Addrs(g), Addrs(g'), g.addrHash, r.id);
      RewriteSound(GnbIds(g), GnbIds(g'), g.idHash, r.id);
    }
  }

  /** The same for a UE record and its three indexes. */
  lemma UeUpdateSoundIff(s: Store, r: AmfUe)
    requires Clean(s)
    ensures Clean(Step(s, UeUpdate(r))) <==> (r.id in s.amfUes.list ==> UeStaysFiled(s.amfUes, r))
  {
    var u, u' := s.amfUes, Step(s, UeUpdate(r)).amfUes;
    StepIdsIssued(s, UeUpdate(r));
    assert Step(s, UeUpdate(r)).gnbs == s.gnbs;
    if r.id in u.list {
      assert u' == u.(list := u.list[r.id := r]);
      hide Step, IdsIssued;
      RewriteSound(Sucis(u), Sucis(u'), u.suciHash, r.id);
      RewriteSound(Supis(u), Supis(u'), u.supiHash, r.id);
      RewriteSound(Gutis(u), Gutis(u'), u.gutiHash, r.id);
    }
  }

  // ------------------------------------------------------------------------
  // Fast lookup refines linear scan
  // ------------------------------------------------------------------------

  ghost predicate GnbExact(g: Gnbs) {
    && Sound(Addrs(g), g.addrHash) && Complete(Addrs(g), g.addrHash)
    && Sound(GnbIds(g), g.idHash) && Complete(GnbIds(g), g.idHash)
  }

  ghost predicate UeExact(u: AmfUes) {
    && Sound(Sucis(u), u.suciHash) && Complete(Sucis(u), u.suciHash)
    && Sound(Supis(u), u.supiHash) && Complete(Supis(u), u.supiHash)
    && Sound(AssignedGutis(u), u.gutiHash) && Complete(AssignedGutis(u), u.gutiHash)
  }

  ghost predicate Exact(s: Store) {
    GnbExact(s.gnbs) && UeExact(s.amfUes)
  }

  /** Every lookup answers what a scan of the table answers. */
  lemma LookupsAreScans(s: Store, addr: string, gnbId: nat, suci: string, supi: string, guti: Guti)
    requires Exact(s)
    ensures Holders(Addrs(s.gnbs), addr) == if addr in s.gnbs.addrHash then {s.gnbs.addrHash[addr]} else {}
    ensures Holders(GnbIds(s.gnbs), gnbId) == if gnbId in s.gnbs.idHash then {s.gnbs.idHash[gnbId]} else {}
    ensures Holders(Sucis(s.amfUes), suci) == if suci in s.amfUes.suciHash then {s.amfUes.suciHash[suci]} else {}
    ensures Holders(Supis(s.amfUes), supi) == if supi in s.amfUes.supiHash then {s.amfUes.supiHash[supi]} else {}
    ensures guti != DEFAULT_GUTI ==>
              Holders(Gutis(s.amfUes), guti) == if guti in s.amfUes.gutiHash then {s.amfUes.gutiHash[guti]} else {}
  {
    LookupIsScan(Addrs(s.gnbs), s.gnbs.addrHash, addr);
    LookupIsScan(GnbIds(s.gnbs), s.gnbs.idHash, gnbId);
    LookupIsScan(Sucis(s.amfUes), s.amfUes.suciHash, suci);
    LookupIsScan(Supis(s.amfUes), s.amfUes.supiHash, supi);
    LookupIsScan(AssignedGutis(s.amfUes), s.amfUes.gutiHash, guti);
    if guti != DEFAULT_GUTI {
      assert Holders(Gutis(s.amfUes), guti) == Holders(AssignedGutis(s.amfUes), guti);
    }
  }

  /** No live record other than `id` holds the key. */
  ghost predicate Free<K>(held: map<nat, K>, id: nat, key: K) {
    forall i :: i in held && i != id ==> held[i] != key
  }

  /** The key that the operation gives to a record is held by no other live record. */
  ghost predicate Unclaimed(s: Store, op: Op) {
    match op
    case GnbAdd(addr) => |s.gnbs.list| < s.gnbs.max ==> Free(Addrs(s.gnbs), s.gnbs.next, addr)
    case GnbSetId(id, gnbId) => id in s.gnbs.list ==> Free(GnbIds(s.gnbs), id, gnbId)
    case UeSetSuci(id, suci) => id in s.amfUes.list ==> Free(Sucis(s.amfUes), id, suci)
    case UeSetSupi(id, supi) => id in s.amfUes.list ==> Free(Supis(s.amfUes), id, supi)
    case UeSetGuti(id, guti) => id in s.amfUes.list ==> Free(AssignedGutis(s.amfUes), id, guti)
    case _ => true
  }

  predicate GivesRealGuti(op: Op) {
    op.UeSetGuti? ==> op.guti != DEFAULT_GUTI
  }

  lemma GnbStepExact(s: Store, op: Op)
    requires IdsIssued(s) && GnbExact(s.gnbs) && KeepsKeys(s, op)
    ensures GnbExact(Step(s, op).gnbs) <==> (op.GnbAdd? || op.GnbSetId? ==> Unclaimed(s, op))
  {
    var g := s.gnbs;
    GnbStepSound(s, op);
    if OtherGnbOp(op) {
      OtherGnbOpKeepsKeys(s, op);
    } else if op.GnbAdd? && |g.list| < g.max {
      AddGnbKeys(g, op.addr);
      RekeyComplete(Addrs(g), g.addrHash, g.next, op.addr);
    } else if op.GnbRemove? {
      RemoveGnbKeys(g, op.gnb);
      ForgetComplete(Addrs(g), g.addrHash, op.gnb);
      ForgetComplete(GnbIds(g), g.idHash, op.gnb);
    } else if op.GnbSetId? && op.gnb in g.list {
      SetGnbIdKeys(g, op.gnb, op.gnbId);
      RekeyComplete(GnbIds(g), g.idHash, op.gnb, op.gnbId);
    }
  }

  lemma NoDefaultIndexed(u: AmfUes)
    requires Sound(AssignedGutis(u), u.gutiHash)
    ensures DEFAULT_GUTI !in u.gutiHash
  {
  }

  lemma RemoveUeExact(u: AmfUes, id: nat)
    requires id in u.list && UeExact(u)
    ensures UeExact(RemoveUe(u, id))
  {
    NoDefaultIndexed(u);
    RemoveUeKeys(u, id);
    RemoveUeGuti(u, id);
    ForgetSound(Sucis(u), u.suciHash, id);
    ForgetSound(Supis(u), u.supiHash, id);
    ForgetSound(AssignedGutis(u), u.gutiHash, id);
    ForgetComplete(Sucis(u), u.suciHash, id);
    ForgetComplete(Supis(u), u.supiHash, id);
    ForgetComplete(AssignedGutis(u), u.gutiHash, id);
  }

  lemma SetSuciExact(u: AmfUes, id: nat, suci: string)
    requires id in u.list && UeExact(u)
    ensures UeExact(SetSuci(u, id, suci)) <==> Free(Sucis(u), id, suci)
  {
    SetSuciKeys(u, id, suci);
    RekeySound(Sucis(u), u.suciHash, id, suci);
    RekeyComplete(Sucis(u), u.suciHash, id, suci);
  }

  lemma SetSupiExact(u: AmfUes, id: nat, supi: string)
    requires id in u.list && UeExact(u)
    ensures UeExact(SetSupi(u, id, supi)) <==> Free(Supis(u), id, supi)
  {
    SetSupiKeys(u, id, supi);
    RekeySound(Supis(u), u.supiHash, id, supi);
    RekeyComplete(Supis(u), u.supiHash, id, supi);
  }

  lemma SetGutiExact(u: AmfUes, id: nat, guti: Guti)
    requires id in u.list && UeExact(u) && guti != DEFAULT_GUTI
    ensures UeExact(SetGuti(u, id, guti)) <==> Free(AssignedGutis(u), id, guti)
  {
    NoDefaultIndexed(u);
    SetGutiKeys(u, id, guti);
    SetAssignedGuti(u, id, guti);
    RekeySound(AssignedGutis(u), u.gutiHash, id, guti);
    RekeyComplete(AssignedGutis(u), u.gutiHash, id, guti);
  }

  lemma UeStepExact(s: Store, op: Op)
    requires IdsIssued(s) && UeExact(s.amfUes) && KeepsKeys(s, op) && GivesRealGuti(op)
    ensures UeExact(Step(s, op).amfUes) <==> (op.UeSetSuci? || op.UeSetSupi? || op.UeSetGuti? ==> Unclaimed(s, op))
  {
    var u := s.amfUes;
    if OtherUeOp(op) {
      OtherUeOpKeepsKeys(s, op);
    } else if op.UeAdd? && |u.list| < u.max {
      AddUeKeys(u, op.ranUe);
      AddUeGuti(u, op.ranUe);
    } else if op.UeTake? && op.ue in u.list {
      RemoveUeExact(u, op.ue);
    } else if op.UeSetSuci? && op.ue in u.list {
      SetSuciExact(u, op.ue, op.suci);
    } else if op.UeSetSupi? && op.ue in u.list {
      SetSupiExact(u, op.ue, op.supi);
    } else if op.UeSetGuti? && op.ue in u.list {
      SetGutiExact(u, op.ue, op.guti);
    }
  }

  lemma StepExactIff(s: Store, op: Op)
    requires IdsIssued(s) && Exact(s) && KeepsKeys(s, op) && GivesRealGuti(op)
    ensures Exact(Step(s, op)) <==> Unclaimed(s, op)
  {
    GnbStepExact(s, op);
    UeStepExact(s, op);
  }

  /** Lookup equals scan in every state of the first `n` operations. */
  ghost predicate ExactThroughout(s: Store, run: seq<Op>, n: nat)
    requires n <= |run|
  {
    Exact(After(s, run, n)) && (n > 0 ==> ExactThroughout(s, run, n - 1))
  }

  /** Each of the first `n` operations gives out a key only while no other live record holds it. */
  ghost predicate KeysGivenOnce(s: Store, run: seq<Op>, n: nat)
    requires n <= |run|
  {
    n > 0 ==> KeysGivenOnce(s, run, n - 1) && Unclaimed(After(s, run, n - 1), run[n - 1])
  }

  /** Lookup equals scan at every point of a run if and only if every key is given out only while no other live
      record holds it. */
  lemma {:induction false} LookupsStayExactIff(s: Store, run: seq<Op>, n: nat)
    requires IdsIssued(s) && Exact(s) && n <= |run| && RunKeepsKeys(s, run)
    requires forall k :: 0 <= k < |run| ==> GivesRealGuti(run[k])
    ensures IdsIssued(After(s, run, n))
    ensures ExactThroughout(s, run, n) <==> KeysGivenOnce(s, run, n)
  {
    hide Step;
    if n == 0 {
    } else {
      LookupsStayExactIff(s, run, n - 1);
      var before, op := After(s, run, n - 1), run[n - 1];
      StepIdsIssued(before, op);
      if ExactThroughout(s, run, n - 1) {
        StepExactIff(before, op);
      }
    }
  }

  // ------------------------------------------------------------------------
  // Where callers do not keep to the conditions
  // ------------------------------------------------------------------------

  /** A gNB that connects again from the same address before its old record is removed becomes unfindable: removing the
      old record takes the hash entry that by then points to the new one. */
  lemma DuplicateAddressHidesGnb()
    ensures var s := After(NEW_STORE, [Init(2, 1, 1), GnbAdd("a"), GnbAdd("a"), GnbRemove(1)], 4);
            2 in s.gnbs.list && s.gnbs.list[2].addr == "a" && "a" !in s.gnbs.addrHash
  {
    var run := [Init(2, 1, 1), GnbAdd("a"), GnbAdd("a"), GnbRemove(1)];
    var s1 := After(NEW_STORE, run, 1);
    assert s1.gnbs == Gnbs(map[], map[], map[], 1, 2);
    var s2 := After(NEW_STORE, run, 2);
    assert s2.gnbs == Gnbs(map[1 := NewGnb(1, "a")], map["a" := 1], map[], 2, 2);
    var s3 := After(NEW_STORE, run, 3);
    assert s3.gnbs.list == map[1 := NewGnb(1, "a"), 2 := NewGnb(2, "a")];
    assert After(NEW_STORE, run, 4).gnbs == RemoveGnb(s3.gnbs, 1);
  }

  /** An update that changes the address leaves an entry that points to a record without that key. */
  lemma UpdateMisfilesGnb()
    ensures var s := After(NEW_STORE, [Init(1, 1, 1), GnbAdd("a"), GnbUpdate(Gnb(1, "b", false, 0, 0))], 3);
            "a" in s.gnbs.addrHash && s.gnbs.addrHash["a"] == 1 && 1 in s.gnbs.list && s.gnbs.list[1].addr == "b"
  {
    var run := [Init(1, 1, 1), GnbAdd("a"), GnbUpdate(Gnb(1, "b", false, 0, 0))];
    var s1 := After(NEW_STORE, run, 1);
    assert s1.gnbs == Gnbs(map[], map[], map[], 1, 1);
    var s2 := After(NEW_STORE, run, 2);
    assert s2.gnbs == Gnbs(map[1 := NewGnb(1, "a")], map["a" := 1], map[], 2, 1);
    assert After(NEW_STORE, run, 3).gnbs == s2.gnbs.(list := map[1 := Gnb(1, "b", false, 0, 0)]);
  }

  /** An update that drops the SUPI leaves the SUPI filed under a UE that no longer has one. */
  lemma UpdateMisfilesUe()
    ensures var s := After(NEW_STORE, [Init(1, 1, 1), UeAdd(0), UeSetSupi(1, "x"), UeUpdate(NewUe(1, 0))], 4);
            "x" in s.amfUes.supiHash && s.amfUes.supiHash["x"] == 1 && 1 in s.amfUes.list
            && s.amfUes.list[1].supi == None
  {
    var run := [Init(1, 1, 1), UeAdd(0), UeSetSupi(1, "x"), UeUpdate(NewUe(1, 0))];
    var s1 := After(NEW_STORE, run, 1);
    assert s1.amfUes == AmfUes(map[], map[], map[], map[], 1, 1);
    var s2 := After(NEW_STORE, run, 2);
    assert s2.amfUes == AmfUes(map[1 := NewUe(1, 0)], map[], map[], map[], 2, 1);
    var s3 := After(NEW_STORE, run, 3);
    assert s3.amfUes == SetSupi(s2.amfUes, 1, "x");
    assert After(NEW_STORE, run, 4).amfUes == s3.amfUes.(list := s3.amfUes.list[1 := NewUe(1, 0)]);
  }
}
