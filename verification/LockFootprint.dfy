/** The critical sections of the context's operations and the data behind their locks: an operation touches only what
    its locks protect, so that operations whose sections overlap in time come out as if one ran after the other. */
module LockFootprint {
  import opened AmfStore
  import Locks = LockOrder

  /** A single critical section, as opposed to the two operations that have the context to themselves. */
  predicate Section(op: Op) {
    !op.Init? && !op.Fini?
  }

  /** The locks that are held together while the operation does its work. */
  function Nest(s: Store, op: Op): Locks.Nest {
    match op
    case Init(_, _, _) => []
    case Fini => []
    case NextNgapId => []
    case GnbAdd(_) => [Locks.W(Locks.GnbList), Locks.W(Locks.GnbAddrHash)]
    case GnbRemove(id) =>
      [Locks.W(Locks.GnbList), Locks.W(Locks.GnbAddrHash), Locks.W(Locks.GnbIdHash)]
      + if id in s.gnbs.list then [Locks.W(Locks.RanUeList)] else []
    case GnbsClear => [Locks.W(Locks.GnbList), Locks.W(Locks.GnbAddrHash), Locks.W(Locks.GnbIdHash)]
    case GnbSetId(_, _) => [Locks.W(Locks.GnbList), Locks.W(Locks.GnbIdHash)]
    case GnbUpdate(_) => [Locks.W(Locks.GnbList)]
    case UeAdd(_) => [Locks.W(Locks.AmfUeList)]
    case UeTake(_) =>
      [Locks.W(Locks.AmfUeList), Locks.W(Locks.SuciHash), Locks.W(Locks.SupiHash), Locks.W(Locks.GutiHash)]
    case UesClear =>
      [Locks.W(Locks.AmfUeList), Locks.W(Locks.SuciHash), Locks.W(Locks.SupiHash), Locks.W(Locks.GutiHash)]
    case UeSetSuci(_, _) => [Locks.W(Locks.AmfUeList), Locks.W(Locks.SuciHash)]
    case UeSetSupi(_, _) => [Locks.W(Locks.AmfUeList), Locks.W(Locks.SupiHash)]
    case UeSetGuti(_, _) => [Locks.W(Locks.AmfUeList), Locks.W(Locks.GutiHash)]
    case UeUpdate(_) => [Locks.W(Locks.AmfUeList)]
    case Associate(_, _) => [Locks.W(Locks.AmfUeList), Locks.W(Locks.RanUeList)]
    case Deassociate(_, _) => [Locks.W(Locks.AmfUeList), Locks.W(Locks.RanUeList)]
    case UeDropSessions(_) => [Locks.W(Locks.SessList)]
    case SessionsClear => [Locks.W(Locks.SessList)]
    case SessAdd(_, _) => [Locks.W(Locks.SessList)]
    case SessRemove(_) => [Locks.W(Locks.SessList)]
    case SessUpdate(_) => [Locks.W(Locks.SessList)]
    case _ => [Locks.W(Locks.RanUeList)]
  }

  /** The call of which the operation is a section. */
  function CallOf(s: Store, op: Op): Locks.Call {
    match op
    case GnbAdd(_) => Locks.GnbAdd
    case GnbRemove(id) => Locks.GnbRemove(id in s.gnbs.list)
    case GnbsClear => Locks.GnbRemoveAll
    case RanUesClear => Locks.GnbRemoveAll
    case GnbSetId(_, _) => Locks.GnbSetGnbId
    case GnbUpdate(_) => Locks.OneLock(Locks.GnbList, Locks.Write)
    case UeAdd(_) => Locks.OneLock(Locks.AmfUeList, Locks.Write)
    case UeTake(id) => Locks.UeRemove(id in s.amfUes.list, id in s.amfUes.list && s.amfUes.list[id].supi.Some?)
    case UeDropSessions(_) => Locks.UeRemove(true, false)
    case UesClear => Locks.UeRemoveAll
    case SessionsClear => Locks.UeRemoveAll
    case UeSetSuci(_, _) => Locks.UeSetSuci
    case UeSetSupi(_, _) => Locks.UeSetSupi
    case UeSetGuti(_, _) => Locks.UeUpdateGuti
    case UeUpdate(_) => Locks.OneLock(Locks.AmfUeList, Locks.Write)
    case Associate(_, _) => Locks.UeAssociate
    case Deassociate(_, _) => Locks.UeDeassociate
    case SessAdd(_, _) => Locks.OneLock(Locks.SessList, Locks.Write)
    case SessRemove(_) => Locks.OneLock(Locks.SessList, Locks.Write)
    case SessUpdate(_) => Locks.OneLock(Locks.SessList, Locks.Write)
    case _ => Locks.OneLock(Locks.RanUeList, Locks.Write)
  }

  /** Each section is a nest of its call; drawing an AMF-UE-NGAP-ID alone takes no lock. */
  lemma SectionsAreNests(s: Store, op: Op)
    requires Section(op) && !op.NextNgapId?
    ensures Nest(s, op) in Locks.Nests(CallOf(s, op))
  {
  }

  predicate Holds(s: Store, op: Op, l: Locks.Lock) {
    Locks.W(l) in Nest(s, op)
  }

  // ------------------------------------------------------------------------
  // What the locks protect
  // ------------------------------------------------------------------------

  /** The two states agree on what the lock protects. The generators of pool ids and indexes are only drawn from under
      the lock of their table. */
  predicate Same(s: Store, t: Store, l: Locks.Lock) {
    match l
    case GnbList => s.gnbs.list == t.gnbs.list && s.gnbs.next == t.gnbs.next
    case GnbAddrHash => s.gnbs.addrHash == t.gnbs.addrHash
    case GnbIdHash => s.gnbs.idHash == t.gnbs.idHash
    case AmfUeList => s.amfUes.list == t.amfUes.list && s.amfUes.next == t.amfUes.next
    case SuciHash => s.amfUes.suciHash == t.amfUes.suciHash
    case SupiHash => s.amfUes.supiHash == t.amfUes.supiHash
    case GutiHash => s.amfUes.gutiHash == t.amfUes.gutiHash
    case RanUeList =>
      s.ranUes.list == t.ranUes.list && s.ranUes.next == t.ranUes.next && s.ranUes.nextIndex == t.ranUes.nextIndex
    case SessList => s.sessions.list == t.sessions.list && s.sessions.next == t.sessions.next
    case _ => true
  }

  /** They agree on what is only read: limits, and whether the context is initialised. */
  predicate SameLimits(s: Store, t: Store) {
    && s.gnbs.max == t.gnbs.max && s.ranUes.max == t.ranUes.max
    && s.amfUes.max == t.amfUes.max && s.sessions.max == t.sessions.max && s.initialized == t.initialized
  }

  /** The operation draws from the generator of AMF-UE-NGAP-IDs, the one counter that no lock protects. */
  predicate Draws(op: Op) {
    op.NextNgapId? || op.RanUeAdd?
  }

  lemma Assembled(s: Store, t: Store)
    requires SameLimits(s, t) && s.ranUes.nextNgapId == t.ranUes.nextNgapId && forall l :: Same(s, t, l)
    ensures s == t
  {
    assert Same(s, t, Locks.GnbList) && Same(s, t, Locks.GnbAddrHash) && Same(s, t, Locks.GnbIdHash);
    assert Same(s, t, Locks.AmfUeList) && Same(s, t, Locks.SuciHash) && Same(s, t, Locks.SupiHash);
    assert Same(s, t, Locks.GutiHash) && Same(s, t, Locks.RanUeList) && Same(s, t, Locks.SessList);
  }

  // ------------------------------------------------------------------------
  // Which sections hold which lock
  // ------------------------------------------------------------------------

  lemma HoldsGnbs(s: Store, op: Op)
    requires Section(op)
    ensures Holds(s, op, Locks.GnbList) <==>
            op.GnbAdd? || op.GnbRemove? || op.GnbsClear? || op.GnbSetId? || op.GnbUpdate?
    ensures Holds(s, op, Locks.GnbAddrHash) <==> op.GnbAdd? || op.GnbRemove? || op.GnbsClear?
    ensures Holds(s, op, Locks.GnbIdHash) <==> op.GnbRemove? || op.GnbsClear? || op.GnbSetId?
  {
  }

  lemma HoldsUes(s: Store, op: Op)
    requires Section(op)
    ensures Holds(s, op, Locks.AmfUeList) <==>
            op.UeAdd? || op.UeTake? || op.UesClear? || op.UeSetSuci? || op.UeSetSupi? || op.UeSetGuti? || op.UeUpdate?
            || op.Associate? || op.Deassociate?
    ensures Holds(s, op, Locks.SuciHash) <==> op.UeTake? || op.UesClear? || op.UeSetSuci?
    ensures Holds(s, op, Locks.SupiHash) <==> op.UeTake? || op.UesClear? || op.UeSetSupi?
    ensures Holds(s, op, Locks.GutiHash) <==> op.UeTake? || op.UesClear? || op.UeSetGuti?
  {
  }

  lemma HoldsChildren(s: Store, op: Op)
    requires Section(op)
    ensures Holds(s, op, Locks.RanUeList) <==>
            (op.GnbRemove? && op.gnb in s.gnbs.list) || op.Associate? || op.Deassociate? || op.RanUesClear?
            || op.RanUeAdd? || op.RanUeRemove? || op.RanUeRemoveAllForGnb? || op.RanUeUpdate? || op.RanUeSwitch?
    ensures Holds(s, op, Locks.SessList) <==>
            op.UeDropSessions? || op.SessionsClear? || op.SessAdd? || op.SessRemove? || op.SessUpdate?
  {
  }

  // ------------------------------------------------------------------------
  // What sections write
  // ------------------------------------------------------------------------

  lemma GnbWrites(s: Store, op: Op, l: Locks.Lock)
    requires Section(op) && !Holds(s, op, l)
    requires l == Locks.GnbList || l == Locks.GnbAddrHash || l == Locks.GnbIdHash
    ensures Same(s, Step(s, op), l)
  {
    hide Holds, RanUeStep, UeStep, SessStep;
    HoldsGnbs(s, op);
  }

  lemma UeWrites(s: Store, op: Op, l: Locks.Lock)
    requires Section(op) && !Holds(s, op, l)
    requires l == Locks.AmfUeList || l == Locks.SuciHash || l == Locks.SupiHash || l == Locks.GutiHash
    ensures Same(s, Step(s, op), l)
  {
    hide Holds, GnbStep, RanUeStep, SessStep;
    HoldsUes(s, op);
  }

  lemma ChildWrites(s: Store, op: Op, l: Locks.Lock)
    requires Section(op) && !Holds(s, op, l) && (l == Locks.RanUeList || l == Locks.SessList)
    ensures Same(s, Step(s, op), l)
  {
    hide Holds, GnbStep, UeStep;
    HoldsChildren(s, op);
  }

  /** An operation changes only what it holds the write lock of. */
  lemma WritesUnderLock(s: Store, op: Op, l: Locks.Lock)
    requires Section(op) && !Holds(s, op, l)
    ensures Same(s, Step(s, op), l)
  {
    hide Holds, Step;
    if l == Locks.GnbList || l == Locks.GnbAddrHash || l == Locks.GnbIdHash {
      GnbWrites(s, op, l);
    } else if l == Locks.AmfUeList || l == Locks.SuciHash || l == Locks.SupiHash || l == Locks.GutiHash {
      UeWrites(s, op, l);
    } else if l == Locks.RanUeList || l == Locks.SessList {
      ChildWrites(s, op, l);
    }
  }

  lemma GnbMax(g: Gnbs, initialized: bool, op: Op)
    requires Section(op)
    ensures GnbStep(g, initialized, op).max == g.max
  {
  }

  lemma UeMax(u: AmfUes, r: RanUes, initialized: bool, op: Op)
    requires Section(op)
    ensures UeStep(u, r, initialized, op).max == u.max
  {
  }

  lemma RanUeMax(r: RanUes, g: Gnbs, u: AmfUes, initialized: bool, op: Op)
    requires Section(op)
    ensures RanUeStep(r, g, u, initialized, op).max == r.max
    ensures !Draws(op) ==> RanUeStep(r, g, u, initialized, op).nextNgapId == r.nextNgapId
    ensures Draws(op) ==>
              RanUeStep(r, g, u, initialized, op).nextNgapId
              == if op.NextNgapId? || |r.list| < r.max then r.nextNgapId + 1 else r.nextNgapId
  {
  }

  lemma SessMax(t: Sessions, initialized: bool, op: Op)
    requires Section(op)
    ensures SessStep(t, initialized, op).max == t.max
  {
  }

  lemma WritesNoLimit(s: Store, op: Op)
    requires Section(op)
    ensures SameLimits(s, Step(s, op))
    ensures !Draws(op) ==> s.ranUes.nextNgapId == Step(s, op).ranUes.nextNgapId
  {
    hide GnbStep, RanUeStep, UeStep, SessStep, Draws;
    GnbMax(s.gnbs, s.initialized, op);
    UeMax(s.amfUes, s.ranUes, s.initialized, op);
    RanUeMax(s.ranUes, s.gnbs, s.amfUes, s.initialized, op);
    SessMax(s.sessions, s.initialized, op);
  }

  // ------------------------------------------------------------------------
  // What sections read
  // ------------------------------------------------------------------------

  /** The states agree on everything the operation may read: limits, what its locks protect, and the NGAP generator
      if it draws from it. */
  predicate SameFor(s: Store, t: Store, op: Op) {
    && SameLimits(s, t) && (Draws(op) ==> s.ranUes.nextNgapId == t.ranUes.nextNgapId)
    && forall l :: Holds(s, op, l) ==> Same(s, t, l)
  }

  lemma ReadsNest(s: Store, t: Store, op: Op)
    requires Section(op) && SameFor(s, t, op)
    ensures Nest(t, op) == Nest(s, op)
  {
    if op.GnbRemove? {
      assert Holds(s, op, Locks.GnbList);
    }
  }

  lemma GnbListReads(g: Gnbs, h: Gnbs, initialized: bool, op: Op)
    requires Section(op) && g.list == h.list && g.next == h.next && g.max == h.max
    ensures GnbStep(g, initialized, op).list == GnbStep(h, initialized, op).list
    ensures GnbStep(g, initialized, op).next == GnbStep(h, initialized, op).next
  {
    if op.GnbRemove? {
    } else if op.GnbSetId? {
    } else if op.GnbAdd? {
    }
  }

  lemma GnbAddrReads(g: Gnbs, h: Gnbs, initialized: bool, op: Op)
    requires Section(op) && g.list == h.list && g.next == h.next && g.max == h.max && g.addrHash == h.addrHash
    ensures GnbStep(g, initialized, op).addrHash == GnbStep(h, initialized, op).addrHash
  {
    if op.GnbRemove? {
    } else if op.GnbSetId? {
    } else if op.GnbAdd? {
    }
  }

  lemma GnbIdReads(g: Gnbs, h: Gnbs, initialized: bool, op: Op)
    requires Section(op) && g.list == h.list && g.next == h.next && g.max == h.max && g.idHash == h.idHash
    ensures GnbStep(g, initialized, op).idHash == GnbStep(h, initialized, op).idHash
  {
    if op.GnbRemove? {
    } else if op.GnbSetId? {
    } else if op.GnbAdd? {
    }
  }

  lemma ReadsForGnbs(s: Store, t: Store, op: Op, l: Locks.Lock)
    requires Section(op) && SameFor(s, t, op) && Holds(s, op, l)
    requires l == Locks.GnbList || l == Locks.GnbAddrHash || l == Locks.GnbIdHash
    ensures Same(Step(s, op), Step(t, op), l)
  {
    hide Holds, GnbStep, RanUeStep, UeStep, SessStep;
    HoldsGnbs(s, op);
    assert Same(s, t, l) && Same(s, t, Locks.GnbList);
    if l == Locks.GnbList {
      GnbListReads(s.gnbs, t.gnbs, s.initialized, op);
    } else if l == Locks.GnbAddrHash {
      GnbAddrReads(s.gnbs, t.gnbs, s.initialized, op);
    } else {
      GnbIdReads(s.gnbs, t.gnbs, s.initialized, op);
    }
  }

  lemma UeListReads(u: AmfUes, v: AmfUes, q: RanUes, r: RanUes, initialized: bool, op: Op)
    requires Section(op) && u.list == v.list && u.next == v.next && u.max == v.max
    requires op.Associate? ==> q.list == r.list
    ensures UeStep(u, q, initialized, op).list == UeStep(v, r, initialized, op).list
    ensures UeStep(u, q, initialized, op).next == UeStep(v, r, initialized, op).next
  {
  }

  lemma UeSuciReads(u: AmfUes, v: AmfUes, q: RanUes, r: RanUes, initialized: bool, op: Op)
    requires Section(op) && u.list == v.list && u.next == v.next && u.max == v.max && u.suciHash == v.suciHash
    ensures UeStep(u, q, initialized, op).suciHash == UeStep(v, r, initialized, op).suciHash
  {
  }

  lemma UeSupiReads(u: AmfUes, v: AmfUes, q: RanUes, r: RanUes, initialized: bool, op: Op)
    requires Section(op) && u.list == v.list && u.next == v.next && u.max == v.max && u.supiHash == v.supiHash
    ensures UeStep(u, q, initialized, op).supiHash == UeStep(v, r, initialized, op).supiHash
  {
  }

  lemma UeGutiReads(u: AmfUes, v: AmfUes, q: RanUes, r: RanUes, initialized: bool, op: Op)
    requires Section(op) && u.list == v.list && u.next == v.next && u.max == v.max && u.gutiHash == v.gutiHash
    ensures UeStep(u, q, initialized, op).gutiHash == UeStep(v, r, initialized, op).gutiHash
  {
  }

  lemma ReadsForUes(s: Store, t: Store, op: Op, l: Locks.Lock)
    requires Section(op) && SameFor(s, t, op) && Holds(s, op, l)
    requires l == Locks.AmfUeList || l == Locks.SuciHash || l == Locks.SupiHash || l == Locks.GutiHash
    ensures Same(Step(s, op), Step(t, op), l)
  {
    hide Holds, GnbStep, RanUeStep, UeStep, SessStep;
    HoldsUes(s, op);
    HoldsChildren(s, op);
    assert Same(s, t, l) && Same(s, t, Locks.AmfUeList) && (op.Associate? ==> Same(s, t, Locks.RanUeList));
    if l == Locks.AmfUeList {
      UeListReads(s.amfUes, t.amfUes, s.ranUes, t.ranUes, s.initialized, op);
    } else if l == Locks.SuciHash {
      UeSuciReads(s.amfUes, t.amfUes, s.ranUes, t.ranUes, s.initialized, op);
    } else if l == Locks.SupiHash {
      UeSupiReads(s.amfUes, t.amfUes, s.ranUes, t.ranUes, s.initialized, op);
    } else {
      UeGutiReads(s.amfUes, t.amfUes, s.ranUes, t.ranUes, s.initialized, op);
    }
  }

  lemma RanUeReads(q: RanUes, r: RanUes, g: Gnbs, h: Gnbs, u: AmfUes, v: AmfUes, initialized: bool, op: Op)
    requires Section(op) && q.list == r.list && q.next == r.next && q.nextIndex == r.nextIndex && q.max == r.max
    requires op.RanUeAdd? ==> q.nextNgapId == r.nextNgapId
    requires (op.GnbRemove? ==> g.list == h.list) && (op.Associate? ==> u.list == v.list)
    ensures var q', r' := RanUeStep(q, g, u, initialized, op), RanUeStep(r, h, v, initialized, op);
            q'.list == r'.list && q'.next == r'.next && q'.nextIndex == r'.nextIndex
  {
  }

  lemma ReadsForRanUes(s: Store, t: Store, op: Op)
    requires Section(op) && SameFor(s, t, op) && Holds(s, op, Locks.RanUeList)
    ensures Same(Step(s, op), Step(t, op), Locks.RanUeList)
  {
    hide Holds, GnbStep, RanUeStep, UeStep, SessStep;
    HoldsGnbs(s, op);
    HoldsUes(s, op);
    assert Same(s, t, Locks.RanUeList);
    assert (op.GnbRemove? ==> Same(s, t, Locks.GnbList)) && (op.Associate? ==> Same(s, t, Locks.AmfUeList));
    RanUeReads(s.ranUes, t.ranUes, s.gnbs, t.gnbs, s.amfUes, t.amfUes, s.initialized, op);
  }

  lemma ReadsForGenerator(s: Store, t: Store, op: Op)
    requires Section(op) && SameFor(s, t, op) && Draws(op)
    ensures Step(s, op).ranUes.nextNgapId == Step(t, op).ranUes.nextNgapId
  {
    hide Holds, GnbStep, RanUeStep, UeStep, SessStep;
    HoldsChildren(s, op);
    assert op.RanUeAdd? ==> Same(s, t, Locks.RanUeList);
    RanUeMax(s.ranUes, s.gnbs, s.amfUes, s.initialized, op);
    RanUeMax(t.ranUes, t.gnbs, t.amfUes, t.initialized, op);
  }

  lemma ReadsForSessions(s: Store, t: Store, op: Op)
    requires Section(op) && SameFor(s, t, op) && Holds(s, op, Locks.SessList)
    ensures Same(Step(s, op), Step(t, op), Locks.SessList)
  {
    hide Holds, GnbStep, RanUeStep, UeStep;
    assert Same(s, t, Locks.SessList);
  }

  /** What an operation writes depends only on what it holds a lock of. */
  lemma ReadsUnderLock(s: Store, t: Store, op: Op, l: Locks.Lock)
    requires Section(op) && SameFor(s, t, op)
    ensures Nest(t, op) == Nest(s, op)
    ensures Holds(s, op, l) ==> Same(Step(s, op), Step(t, op), l)
    ensures Draws(op) ==> Step(s, op).ranUes.nextNgapId == Step(t, op).ranUes.nextNgapId
  {
    hide Step, SameFor, Holds;
    ReadsNest(s, t, op);
    if Draws(op) {
      ReadsForGenerator(s, t, op);
    }
    if Holds(s, op, l) {
      if l == Locks.GnbList || l == Locks.GnbAddrHash || l == Locks.GnbIdHash {
        ReadsForGnbs(s, t, op, l);
      } else if l == Locks.AmfUeList || l == Locks.SuciHash || l == Locks.SupiHash || l == Locks.GutiHash {
        ReadsForUes(s, t, op, l);
      } else if l == Locks.SessList {
        ReadsForSessions(s, t, op);
      } else if l == Locks.RanUeList {
        ReadsForRanUes(s, t, op);
      }
    }
  }

  // ------------------------------------------------------------------------
  // Sections that overlap in time
  // ------------------------------------------------------------------------

  /** No lock is held by both. */
  predicate Disjoint(s: Store, a: Op, b: Op) {
    forall l :: !(Holds(s, a, l) && Holds(s, b, l))
  }

  /** An operation does not disturb one that shares no lock with it. */
  lemma Undisturbed(s: Store, a: Op, b: Op)
    requires Section(a) && Section(b) && Disjoint(s, a, b) && !(Draws(a) && Draws(b))
    ensures SameFor(s, Step(s, a), b) && forall l :: Holds(Step(s, a), b, l) == Holds(s, b, l)
  {
    hide Step, Nest, Same;
    WritesNoLimit(s, a);
    forall l | Holds(s, b, l)
      ensures Same(s, Step(s, a), l)
    {
      WritesUnderLock(s, a, l);
    }
    ReadsUnderLock(s, Step(s, a), b, Locks.GnbList);
  }

  /** The two operations can be inside their sections at the same time. */
  predicate Overlap(s: Store, a: Op, b: Op) {
    Section(a) && Section(b) && Disjoint(s, a, b) && !(Draws(a) && Draws(b))
  }

  lemma BothUndisturbed(s: Store, a: Op, b: Op)
    requires Overlap(s, a, b)
    ensures Overlap(s, b, a) && Section(a) && Section(b)
    ensures SameFor(s, Step(s, a), b) && forall l :: Holds(Step(s, a), b, l) == Holds(s, b, l)
    ensures SameFor(s, Step(s, b), a) && forall l :: Holds(Step(s, b), a, l) == Holds(s, a, l)
  {
    hide Step, Holds, SameFor, Draws;
    Undisturbed(s, a, b);
    Undisturbed(s, b, a);
  }

  /** Behind a lock that `b` holds, both orders leave what `b` alone leaves. */
  lemma AgreeWhereHeld(s: Store, a: Op, b: Op, l: Locks.Lock)
    requires Overlap(s, a, b) && Holds(s, b, l)
    ensures Same(Step(s, b), Step(Step(s, a), b), l) && Same(Step(s, b), Step(Step(s, b), a), l)
  {
    hide Step, Same, Holds, SameFor;
    BothUndisturbed(s, a, b);
    ReadsUnderLock(s, Step(s, a), b, l);
    WritesUnderLock(Step(s, b), a, l);
  }

  /** Behind a lock that neither holds, both orders leave what was there. */
  lemma AgreeWhereFree(s: Store, a: Op, b: Op, l: Locks.Lock)
    requires Overlap(s, a, b) && !Holds(s, a, l) && !Holds(s, b, l)
    ensures Same(s, Step(s, a), l) && Same(Step(s, a), Step(Step(s, a), b), l)
    ensures Same(s, Step(s, b), l) && Same(Step(s, b), Step(Step(s, b), a), l)
  {
    hide Step, Same, Holds, SameFor, Overlap;
    BothUndisturbed(s, a, b);
    WritesUnderLock(s, a, l);
    WritesUnderLock(s, b, l);
    WritesUnderLock(Step(s, a), b, l);
    WritesUnderLock(Step(s, b), a, l);
  }

  /** Behind every lock the two orders agree. */
  lemma OrdersAgree(s: Store, a: Op, b: Op, l: Locks.Lock)
    requires Overlap(s, a, b)
    ensures Same(Step(Step(s, a), b), Step(Step(s, b), a), l)
  {
    hide Step, Holds, Overlap;
    if Holds(s, b, l) {
      AgreeWhereHeld(s, a, b, l);
    } else if Holds(s, a, l) {
      BothUndisturbed(s, a, b);
      AgreeWhereHeld(s, b, a, l);
    } else {
      AgreeWhereFree(s, a, b, l);
    }
  }

  lemma GeneratorAgrees(s: Store, a: Op, b: Op)
    requires Overlap(s, a, b)
    ensures SameLimits(Step(Step(s, a), b), Step(Step(s, b), a))
    ensures Step(Step(s, a), b).ranUes.nextNgapId == Step(Step(s, b), a).ranUes.nextNgapId
  {
    hide Step, Same, Nest, SameFor, Disjoint;
    BothUndisturbed(s, a, b);
    WritesNoLimit(s, a);
    WritesNoLimit(s, b);
    WritesNoLimit(Step(s, a), b);
    WritesNoLimit(Step(s, b), a);
    ReadsUnderLock(s, Step(s, a), b, Locks.GnbList);
    ReadsUnderLock(s, Step(s, b), a, Locks.GnbList);
  }

  /** Sections without a common lock, at most one of which draws an AMF-UE-NGAP-ID, commute. */
  lemma DisjointSectionsCommute(s: Store, a: Op, b: Op)
    requires Overlap(s, a, b)
    ensures Step(Step(s, a), b) == Step(Step(s, b), a)
  {
    hide Step, Same, Overlap;
    forall l
      ensures Same(Step(Step(s, a), b), Step(Step(s, b), a), l)
    {
      OrdersAgree(s, a, b, l);
    }
    GeneratorAgrees(s, a, b);
    Assembled(Step(Step(s, a), b), Step(Step(s, b), a));
  }

  /** Threads that are inside two sections at once share no lock. */
  lemma InsideIsDisjoint(threads: seq<Locks.Thread>, j: nat, k: nat, s: Store, a: Op, b: Op)
    requires Locks.Exclusive(threads) && j < k < |threads|
    requires Locks.Held(threads[j]) == Nest(s, a) && Locks.Held(threads[k]) == Nest(s, b)
    ensures Disjoint(s, a, b)
  {
    hide Nest, Locks.Held;
  }

  /** However the threads were scheduled: if two of them are inside the sections of two operations at the same time,
      the two operations commute, so whichever order their steps took, the outcome is that of a run. */
  lemma OverlappingSectionsCommute(
    threads: seq<seq<Locks.Call>>, schedule: seq<nat>, j: nat, k: nat, s: Store, a: Op, b: Op)
    requires Locks.Possible(Locks.Fresh(threads), schedule) && j < k < |threads|
    requires Section(a) && Section(b) && !(Draws(a) && Draws(b))
    requires var inside := Locks.Executed(Locks.Fresh(threads), schedule);
             Locks.Held(inside[j]) == Nest(s, a) && Locks.Held(inside[k]) == Nest(s, b)
    ensures Step(Step(s, a), b) == Step(Step(s, b), a)
  {
    hide Step, Nest, Disjoint, Locks.Executed, Locks.Possible, Locks.Held, Locks.Exclusive;
    Locks.ReachableIsExclusive(threads, schedule);
    InsideIsDisjoint(Locks.Executed(Locks.Fresh(threads), schedule), j, k, s, a, b);
    DisjointSectionsCommute(s, a, b);
  }
}
