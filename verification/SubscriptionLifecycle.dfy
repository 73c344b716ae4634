/** N1N2 subscriptions and the UEs they belong to (context.rs): the tables and the registry in one machine, in which
    the removal of a UE takes the UE away in one critical section and drops its subscriptions in a later one. */
module SubscriptionLifecycle {
  import opened Wrappers
  import opened AmfStore
  import opened AmfStoreProofs
  import opened AmfStoreLifecycle
  import N1n2Registry

  /** Besides tables and registry, what the threads that are inside a removal remember: `taken` has the UEs taken away
      whose subscriptions are still to be dropped, with their SUPIs, and `clears` counts the removals of all UEs that
      have still to clear the registry. */
  datatype Joint = Joint(store: Store, registry: N1n2Registry.Registry, taken: map<nat, string>, clears: nat)

  /** One critical section. `DropTaken` and `ClearTaken` are the registry sections of a removal under way. */
  datatype Act =
    | OnStore(op: Op)
    | Subscribe(ue: string, sub: N1n2Registry.Subscription)
    | Unsubscribe(ue: string, id: string)
    | DropTaken(removed: nat)
    | ClearTaken

  function SupiOf(s: Store, id: nat): Option<string> {
    if id in s.amfUes.list then s.amfUes.list[id].supi else None
  }

  /** What the section does to the registry. Finalising removes all UEs in one go. */
  function RegistryOp(j: Joint, a: Act): N1n2Registry.Op {
    match a
    case OnStore(op) => if op.Fini? && j.store.initialized then N1n2Registry.Clear else N1n2Registry.Elsewhere
    case Subscribe(ue, sub) => N1n2Registry.Add(ue, sub)
    case Unsubscribe(ue, id) => N1n2Registry.Remove(ue, id)
    case DropTaken(id) => if id in j.taken then N1n2Registry.DropUe(j.taken[id]) else N1n2Registry.Elsewhere
    case ClearTaken => if j.clears > 0 then N1n2Registry.Clear else N1n2Registry.Elsewhere
  }

  function TakenAfter(j: Joint, a: Act): map<nat, string> {
    if a.OnStore? && a.op.UeTake? && SupiOf(j.store, a.op.ue).Some? then
      j.taken[a.op.ue := SupiOf(j.store, a.op.ue).value]
    else if a.DropTaken? then j.taken - {a.removed}
    else j.taken
  }

  function ClearsAfter(j: Joint, a: Act): nat {
    if a.OnStore? && a.op.UesClear? then j.clears + 1
    else if a.ClearTaken? && j.clears > 0 then j.clears - 1
    else j.clears
  }

  function Do(j: Joint, a: Act): Joint {
    Joint(if a.OnStore? then Step(j.store, a.op) else j.store, N1n2Registry.Step(j.registry, RegistryOp(j, a)),
          TakenAfter(j, a), ClearsAfter(j, a))
  }

  /** The state after the first `n` sections of a run. */
  function Ran(j: Joint, run: seq<Act>, n: nat): Joint
    requires n <= |run|
  {
    if n == 0 then j else Do(Ran(j, run, n - 1), run[n - 1])
  }

  // ------------------------------------------------------------------------
  // What every section keeps
  // ------------------------------------------------------------------------

  /** Ids in order, a well-kept registry, and no UE under removal is live or will be again. */
  predicate Sane(j: Joint) {
    && UeIdsIssued(j.store.amfUes) && N1n2Registry.WellKept(j.registry)
    && forall v :: v in j.taken ==> v !in j.store.amfUes.list && v < j.store.amfUes.next
  }

  /** The operation takes UE `u` out of its table. */
  predicate Removes(s: Store, op: Op, u: nat) {
    op == UeTake(u) || op.UesClear? || (op.Fini? && s.initialized)
  }

  /** The SUPI that the operation writes into the live record of UE `u`, if it writes one. */
  function Written(s: Store, op: Op, u: nat): Option<Option<string>> {
    if u !in s.amfUes.list then None
    else if op.UeSetSupi? && op.ue == u then Some(Some(op.supi))
    else if op.UeUpdate? && op.ueRecord.id == u then Some(op.ueRecord.supi)
    else None
  }

  /** A UE that was live stays so unless it is taken out, and one that appears has no SUPI. */
  lemma UeComesAndGoes(u: AmfUes, r: RanUes, initialized: bool, op: Op, id: nat)
    requires UeIdsIssued(u)
    ensures var u' := UeStep(u, r, initialized, op);
            && (id in u.list ==>
                  (id in u'.list <==> !(op == UeTake(id) || op.UesClear? || (op.Fini? && initialized))))
            && (id !in u.list && id in u'.list ==> u'.list[id].supi == None && op.UeAdd?)
  {
  }

  /** How an operation moves SUPIs. */
  lemma SupiSteps(s: Store, op: Op, u: nat)
    requires UeIdsIssued(s.amfUes)
    ensures SupiOf(Step(s, op), u) ==
            if Removes(s, op, u) then None
            else if Written(s, op, u).Some? then Written(s, op, u).value else SupiOf(s, u)
  {
    hide GnbStep, RanUeStep, UeStep, SessStep, UeIdsIssued;
    UeComesAndGoes(s.amfUes, s.ranUes, s.initialized, op, u);
    if u in s.amfUes.list && u in Step(s, op).amfUes.list {
      UeSupiSteps(s.amfUes, s.ranUes, s.initialized, op, u);
    }
  }

  lemma DoIsSane(j: Joint, a: Act)
    requires Sane(j)
    ensures Sane(Do(j, a))
  {
    hide GnbStep, RanUeStep, UeStep, SessStep, N1n2Registry.Step, N1n2Registry.WellKept, UeIdsIssued;
    N1n2Registry.StepWellKept(j.registry, RegistryOp(j, a));
    if a.OnStore? {
      UeStepIds(j.store.amfUes, j.store.ranUes, j.store.initialized, a.op);
      forall v | v in TakenAfter(j, a)
        ensures v !in Do(j, a).store.amfUes.list && v < Do(j, a).store.amfUes.next
      {
        UeLifetimes(j.store.amfUes, j.store.ranUes, j.store.initialized, a.op, v);
        if v !in j.taken {
          TakenIsGone(j.store, v);
        }
      }
    }
  }

  lemma TakenIsGone(s: Store, u: nat)
    requires UeIdsIssued(s.amfUes) && u in s.amfUes.list
    ensures u !in Step(s, UeTake(u)).amfUes.list && u < s.amfUes.next
  {
    hide GnbStep, RanUeStep, SessStep;
  }

  lemma {:induction false} RunsAreSane(j: Joint, run: seq<Act>, n: nat)
    requires Sane(j) && n <= |run|
    ensures Sane(Ran(j, run, n))
  {
    hide Do, Sane;
    if n == 0 {
    } else {
      RunsAreSane(j, run, n - 1);
      DoIsSane(Ran(j, run, n - 1), run[n - 1]);
    }
  }

  // ------------------------------------------------------------------------
  // How long a subscription lasts
  // ------------------------------------------------------------------------

  /** The run as the registry sees it. */
  function SeenByRegistry(j: Joint, run: seq<Act>): (seen: seq<N1n2Registry.Op>)
    ensures |seen| == |run| && forall k :: 0 <= k < |run| ==> seen[k] == RegistryOp(Ran(j, run, k), run[k])
  {
    seq(|run|, k requires 0 <= k < |run| => RegistryOp(Ran(j, run, k), run[k]))
  }

  lemma DoOnRegistry(j: Joint, a: Act)
    ensures Do(j, a).registry == N1n2Registry.Step(j.registry, RegistryOp(j, a))
  {
  }

  lemma {:induction false} RegistryRuns(j: Joint, run: seq<Act>, n: nat)
    requires n <= |run|
    ensures Ran(j, run, n).registry == N1n2Registry.After(j.registry, SeenByRegistry(j, run), n)
  {
    hide Do, RegistryOp, N1n2Registry.Step, SeenByRegistry;
    if n == 0 {
    } else {
      RegistryRuns(j, run, n - 1);
      DoOnRegistry(Ran(j, run, n - 1), run[n - 1]);
      assert SeenByRegistry(j, run)[n - 1] == RegistryOp(Ran(j, run, n - 1), run[n - 1]);
    }
  }

  /** In every run of both, a subscription is there if and only if it was there at the start or was asked for, and it
      has not been withdrawn since, nor dropped with its UE, nor cleared with all others. */
  lemma SubscriptionLastsIff(j: Joint, run: seq<Act>, n: nat, ue: string, id: string)
    requires Sane(j) && n <= |run|
    ensures var seen := SeenByRegistry(j, run);
            N1n2Registry.Subscribed(Ran(j, run, n).registry, ue, id) <==>
            || (N1n2Registry.Subscribed(j.registry, ue, id) && N1n2Registry.Unended(seen, 0, n, ue, id))
            || exists i: nat :: N1n2Registry.MadeAndKept(seen, i, n, ue, id)
  {
    hide N1n2Registry.Subscribed, N1n2Registry.MadeAndKept, N1n2Registry.Unended, Ran;
    RegistryRuns(j, run, n);
    N1n2Registry.SubscribedIff(j.registry, SeenByRegistry(j, run), n, ue, id);
  }

  /** UE `u` is live and the only one with the SUPI. */
  ghost predicate SoleHolder(s: Store, u: nat, supi: string) {
    SupiOf(s, u) == Some(supi) && forall v :: SupiOf(s, v) == Some(supi) ==> v == u
  }

  ghost predicate SoleHolderFrom(j: Joint, run: seq<Act>, p: nat, n: nat, u: nat, supi: string)
    requires n <= |run|
  {
    forall k :: p <= k <= n ==> SoleHolder(Ran(j, run, k).store, u, supi)
  }

  /** The section belongs to a removal that is under way in this state and drops the subscriptions under the SUPI. */
  predicate UnderWay(j: Joint, a: Act, supi: string) {
    || (a.DropTaken? && a.removed in j.taken && j.taken[a.removed] == supi)
    || (a.ClearTaken? && j.clears > 0)
  }

  lemma RemovedIsNoHolder(s: Store, op: Op, u: nat, supi: string)
    requires UeIdsIssued(s.amfUes) && Removes(s, op, u)
    ensures !SoleHolder(Step(s, op), u, supi)
  {
    SupiSteps(s, op, u);
  }

  /** While one UE holds a SUPI alone, no removal that would drop its subscriptions begins. */
  lemma NoneBegins(j: Joint, a: Act, u: nat, supi: string, b: Act)
    requires Sane(j) && SoleHolder(j.store, u, supi) && SoleHolder(Do(j, a).store, u, supi)
    ensures UnderWay(Do(j, a), b, supi) ==> UnderWay(j, b, supi)
  {
    hide Step, N1n2Registry.Step, N1n2Registry.WellKept;
    if a.OnStore? && Removes(j.store, a.op, u) {
      RemovedIsNoHolder(j.store, a.op, u, supi);
    }
  }

  lemma {:induction false} NoneBegan(j: Joint, run: seq<Act>, p: nat, n: nat, u: nat, supi: string, b: Act)
    requires Sane(j) && p <= n <= |run| && SoleHolderFrom(j, run, p, n, u, supi)
    ensures UnderWay(Ran(j, run, n), b, supi) ==> UnderWay(Ran(j, run, p), b, supi)
  {
    hide Do, Sane, SoleHolder, UnderWay;
    if p < n {
      NoneBegan(j, run, p, n - 1, u, supi, b);
      RunsAreSane(j, run, n - 1);
      assert SoleHolder(Ran(j, run, n - 1).store, u, supi) && SoleHolder(Ran(j, run, n).store, u, supi);
      NoneBegins(Ran(j, run, n - 1), run[n - 1], u, supi, b);
    }
  }

  lemma LosingSection(j: Joint, a: Act, u: nat, supi: string, id: string)
    requires Sane(j) && SoleHolder(Do(j, a).store, u, supi) && a != Unsubscribe(supi, id)
    requires N1n2Registry.Subscribed(j.registry, supi, id) && !N1n2Registry.Subscribed(Do(j, a).registry, supi, id)
    ensures UnderWay(j, a, supi)
  {
    hide Step, N1n2Registry.Step, N1n2Registry.WellKept, N1n2Registry.Subscribed, SoleHolder;
    N1n2Registry.StepSubscribedIff(j.registry, RegistryOp(j, a), supi, id);
    if a.OnStore? && a.op.Fini? && j.store.initialized {
      RemovedIsNoHolder(j.store, a.op, u, supi);
    }
  }

  /** A subscription under the SUPI of a UE that stays live, alone with that SUPI, and that is not withdrawn, is lost
      only to a removal that was under way when the subscription was there already: section `k` belongs to it. */
  lemma {:induction false} LostToRemovalUnderWay(
    j: Joint, run: seq<Act>, p: nat, n: nat, u: nat, supi: string, id: string) returns (k: nat)
    requires Sane(j) && p <= n <= |run| && SoleHolderFrom(j, run, p, n, u, supi)
    requires forall i :: p <= i < n ==> run[i] != Unsubscribe(supi, id)
    requires N1n2Registry.Subscribed(Ran(j, run, p).registry, supi, id)
    requires !N1n2Registry.Subscribed(Ran(j, run, n).registry, supi, id)
    ensures p <= k < n && UnderWay(Ran(j, run, p), run[k], supi)
  {
    hide Do, Sane, SoleHolder, UnderWay, N1n2Registry.Subscribed;
    k := n - 1;
    if N1n2Registry.Subscribed(Ran(j, run, k).registry, supi, id) {
      RunsAreSane(j, run, k);
      assert SoleHolder(Ran(j, run, n).store, u, supi);
      LosingSection(Ran(j, run, k), run[k], u, supi, id);
      NoneBegan(j, run, p, k, u, supi, run[k]);
    } else {
      k := LostToRemovalUnderWay(j, run, p, n - 1, u, supi, id);
    }
  }

  // A removal that is under way does cost a new subscription.

  lemma SizeWithout<T>(m: map<nat, T>, id: nat)
    requires id in m
    ensures |m - {id}| == |m| - 1
  {
    assert m == (m - {id})[id := m[id]];
  }

  /** A UE that is added after another was taken can be given the SUPI of the one taken. */
  lemma Reregisters(u: AmfUes, id: nat, ranUe: nat, supi: string)
    requires UeIdsIssued(u) && id in u.list && |u.list| <= u.max
    ensures var again := SetSupi(AddUe(RemoveUe(u, id), ranUe), u.next, supi);
            && u.next in again.list && again.list[u.next].supi == Some(supi)
            && supi in again.supiHash && again.supiHash[supi] == u.next
  {
    var taken := RemoveUe(u, id);
    assert taken.list == u.list - {id} && taken.max == u.max && taken.next == u.next;
    hide RemoveUe;
    SizeWithout(u.list, id);
    var added := AddUe(taken, ranUe);
    assert u.next in added.list;
    hide AddUe;
  }

  /** What three of the sections do to the UE table. */
  lemma UeTableOf(s: Store, id: nat, ranUe: nat, supi: string)
    ensures Step(s, UeTake(id)).amfUes == RemoveUe(s.amfUes, id)
    ensures Step(s, UeAdd(ranUe)).amfUes == AddUe(s.amfUes, ranUe)
    ensures Step(s, UeSetSupi(id, supi)).amfUes == SetSupi(s.amfUes, id, supi)
    ensures Step(s, UeDropSessions(id)).amfUes == s.amfUes
  {
  }

  /** The sections of a removal with a new registration between them. */
  function GapRun(id: nat, ranUe: nat, again: nat, supi: string, sub: N1n2Registry.Subscription): (run: seq<Act>)
    ensures |run| == 6
  {
    [OnStore(UeTake(id)), OnStore(UeAdd(ranUe)), OnStore(UeSetSupi(again, supi)), Subscribe(supi, sub),
     OnStore(UeDropSessions(id)), DropTaken(id)]
  }

  lemma GapUes(j: Joint, id: nat, ranUe: nat, supi: string, sub: N1n2Registry.Subscription)
    ensures var run := GapRun(id, ranUe, j.store.amfUes.next, supi, sub);
            Ran(j, run, 6).store.amfUes
            == SetSupi(AddUe(RemoveUe(j.store.amfUes, id), ranUe), j.store.amfUes.next, supi)
  {
    hide Step, SetSupi, AddUe, RemoveUe, RegistryOp, TakenAfter, ClearsAfter, N1n2Registry.Step;
    var again := j.store.amfUes.next;
    var run := GapRun(id, ranUe, again, supi, sub);
    var s1 := Step(j.store, UeTake(id));
    var s2 := Step(s1, UeAdd(ranUe));
    var s3 := Step(s2, UeSetSupi(again, supi));
    assert Ran(j, run, 1).store == s1;
    assert Ran(j, run, 2).store == s2;
    assert Ran(j, run, 3).store == s3;
    assert Ran(j, run, 4).store == s3;
    assert Ran(j, run, 5).store == Step(s3, UeDropSessions(id));
    UeTableOf(j.store, id, ranUe, supi);
    UeTableOf(s1, id, ranUe, supi);
    UeTableOf(s2, again, ranUe, supi);
    UeTableOf(s3, id, ranUe, supi);
  }

  /** A section on the tables after the taking leaves registry and memory alone, and the last one drops. */
  lemma GapSections(j: Joint, id: nat, supi: string, op: Op, sub: N1n2Registry.Subscription)
    requires op.UeAdd? || op.UeSetSupi? || op.UeDropSessions?
    ensures Do(j, OnStore(op)).registry == j.registry && Do(j, OnStore(op)).taken == j.taken
    ensures SupiOf(j.store, id) == Some(supi) ==>
              var taken := Do(j, OnStore(UeTake(id)));
              taken.registry == j.registry && id in taken.taken && taken.taken[id] == supi
    ensures Do(j, Subscribe(supi, sub)).registry == N1n2Registry.Subscribe(j.registry, supi, sub)
    ensures Do(j, Subscribe(supi, sub)).taken == j.taken
    ensures id in j.taken ==> Do(j, DropTaken(id)).registry == j.registry - {j.taken[id]}
  {
    hide Step, SupiOf, N1n2Registry.Subscribe;
  }

  lemma GapRegistry(j: Joint, id: nat, ranUe: nat, supi: string, sub: N1n2Registry.Subscription)
    requires SupiOf(j.store, id) == Some(supi)
    ensures var run := GapRun(id, ranUe, j.store.amfUes.next, supi, sub);
            && Ran(j, run, 4).registry == N1n2Registry.Subscribe(j.registry, supi, sub)
            && Ran(j, run, 6).registry == N1n2Registry.Subscribe(j.registry, supi, sub) - {supi}
  {
    hide Do, SupiOf, N1n2Registry.Subscribe;
    var run := GapRun(id, ranUe, j.store.amfUes.next, supi, sub);
    GapSections(Ran(j, run, 0), id, supi, UeAdd(ranUe), sub);
    GapSections(Ran(j, run, 1), id, supi, run[1].op, sub);
    GapSections(Ran(j, run, 2), id, supi, run[2].op, sub);
    GapSections(Ran(j, run, 3), id, supi, UeAdd(ranUe), sub);
    GapSections(Ran(j, run, 4), id, supi, run[4].op, sub);
    GapSections(Ran(j, run, 5), id, supi, UeAdd(ranUe), sub);
  }

  /** With no other section between them, the sections of a removal come to what the whole call does. */
  lemma WholeRemoval(j: Joint, id: nat, supi: string)
    requires SupiOf(j.store, id) == Some(supi) && id !in j.taken
    ensures var run := [OnStore(UeTake(id)), OnStore(UeDropSessions(id)), DropTaken(id)];
            Ran(j, run, 3) == Joint(Step(Step(j.store, UeTake(id)), UeDropSessions(id)),
                                    N1n2Registry.Step(j.registry, N1n2Registry.DropUe(supi)), j.taken, j.clears)
  {
    hide Step, SupiOf;
    var run := [OnStore(UeTake(id)), OnStore(UeDropSessions(id)), DropTaken(id)];
    var j1 := Joint(Step(j.store, UeTake(id)), j.registry, j.taken[id := supi], j.clears);
    assert Ran(j, run, 0) == j;
    assert Ran(j, run, 1) == j1;
    assert Ran(j, run, 2) == j1.(store := Step(j1.store, UeDropSessions(id)));
    assert j1.taken - {id} == j.taken;
  }

  /** Whatever the state: a UE registers again with the SUPI of one that is being removed, after the old UE has left
      its table, and subscribes. When the removal is over, the new UE is live and found under that SUPI and its
      subscription is gone. */
  lemma RemovalGapDropsSubscription(j: Joint, id: nat, ranUe: nat, supi: string, sub: N1n2Registry.Subscription)
    requires Sane(j) && SupiOf(j.store, id) == Some(supi) && |j.store.amfUes.list| <= j.store.amfUes.max
    ensures var again := j.store.amfUes.next;
            var run := GapRun(id, ranUe, again, supi, sub);
            var ues := Ran(j, run, 6).store.amfUes;
            && N1n2Registry.Subscribed(Ran(j, run, 4).registry, supi, sub.id)
            && SupiOf(Ran(j, run, 6).store, again) == Some(supi)
            && supi in ues.supiHash && ues.supiHash[supi] == again
            && !N1n2Registry.Subscribed(Ran(j, run, 6).registry, supi, sub.id)
  {
    hide Ran, GapRun, N1n2Registry.Subscribe, SetSupi, AddUe, RemoveUe, N1n2Registry.WellKept;
    GapUes(j, id, ranUe, supi, sub);
    GapRegistry(j, id, ranUe, supi, sub);
    Reregisters(j.store.amfUes, id, ranUe, supi);
    N1n2Registry.SubscribeMakes(j.registry, supi, sub, supi, sub.id);
  }

  // ------------------------------------------------------------------------
  // The registry does not outlive the UEs
  // ------------------------------------------------------------------------

  /** A removal under way will drop the subscriptions under the SUPI. */
  ghost predicate Doomed(j: Joint, supi: string) {
    (exists v :: v in j.taken && j.taken[v] == supi) || j.clears > 0
  }

  /** A live UE has the SUPI, or one that is being removed. */
  ghost predicate Anchor(j: Joint, supi: string) {
    (exists v :: SupiOf(j.store, v) == Some(supi)) || Doomed(j, supi)
  }

  /** The same without counting UE `u`. */
  ghost predicate AnchorBesides(j: Joint, supi: string, u: nat) {
    (exists v :: v != u && SupiOf(j.store, v) == Some(supi)) || Doomed(j, supi)
  }

  /** Every UE of the registry is live or being removed. */
  ghost predicate Anchored(j: Joint) {
    forall x :: x in j.registry ==> Anchor(j, x)
  }

  /** A subscription is made only for a UE that is live or being removed, and a UE that has subscriptions gives up its
      SUPI only to another one. */
  ghost predicate KeepsAnchors(j: Joint, a: Act) {
    match a
    case Subscribe(ue, _) => Anchor(j, ue)
    case OnStore(op) =>
      forall u :: Written(j.store, op, u).Some? ==>
        var former := SupiOf(j.store, u);
        former.Some? && former.value in j.registry && Written(j.store, op, u).value != former ==>
          AnchorBesides(j, former.value, u)
    case _ => true
  }

  /** What a section does to the keys of the registry. */
  lemma RegistryKeys(j: Joint, a: Act, x: string)
    requires N1n2Registry.WellKept(j.registry)
    ensures x in Do(j, a).registry ==> x in j.registry || (a.Subscribe? && a.ue == x)
    ensures a.Subscribe? ==> a.ue in Do(j, a).registry
    ensures a.OnStore? && !a.op.Fini? ==> Do(j, a).registry == j.registry
    ensures a.Subscribe? || (a.OnStore? && !a.op.Fini?) ==> x in j.registry ==> x in Do(j, a).registry
    ensures UnderWay(j, a, x) ==> x !in Do(j, a).registry
    ensures a.OnStore? && a.op.Fini? ==> Do(j, a).registry == if j.store.initialized then map[] else j.registry
  {
    hide Step, N1n2Registry.Position;
  }

  /** Only the section of a removal ends that removal. */
  lemma DoomStays(j: Joint, a: Act, x: string)
    requires Sane(j) && Doomed(j, x) && !UnderWay(j, a, x)
    ensures Doomed(Do(j, a), x)
  {
    hide Step, N1n2Registry.Step, N1n2Registry.WellKept;
    if v :| v in j.taken && j.taken[v] == x {
      assert v in Do(j, a).taken && Do(j, a).taken[v] == x;
    }
  }

  lemma DoomComes(j: Joint, op: Op, v: nat, x: string)
    requires SupiOf(j.store, v) == Some(x) && (op == UeTake(v) || op.UesClear?)
    ensures Doomed(Do(j, OnStore(op)), x)
  {
    hide Step, N1n2Registry.Step;
    if op.UeTake? {
      assert v in Do(j, OnStore(op)).taken;
    }
  }

  /** An operation on the tables begins a removal only of UEs that it takes. */
  lemma DoomIsOld(j: Joint, op: Op, x: string)
    requires !op.UeTake? && !op.UesClear? && Doomed(Do(j, OnStore(op)), x)
    ensures Doomed(j, x)
  {
    hide Step, N1n2Registry.Step;
  }

  /** Some UE goes on holding the SUPI, or a removal begins. */
  lemma HolderStays(j: Joint, op: Op, v: nat, x: string)
    requires Sane(j) && SupiOf(j.store, v) == Some(x) && !(op.Fini? && j.store.initialized)
    requires Written(j.store, op, v).Some? && Written(j.store, op, v).value != Some(x) ==> AnchorBesides(j, x, v)
    requires !Doomed(j, x)
    ensures Anchor(Do(j, OnStore(op)), x)
  {
    hide Step, N1n2Registry.Step, N1n2Registry.WellKept, SupiOf, Doomed;
    if Removes(j.store, op, v) {
      DoomComes(j, op, v, x);
    } else if Written(j.store, op, v).Some? && Written(j.store, op, v).value != Some(x) {
      var w :| w != v && SupiOf(j.store, w) == Some(x);
      SupiSteps(j.store, op, w);
    } else {
      SupiSteps(j.store, op, v);
    }
  }

  lemma AnchorStays(j: Joint, a: Act, x: string)
    requires Sane(j) && Anchor(j, x) && KeepsAnchors(j, a) && x in j.registry && x in Do(j, a).registry
    ensures Anchor(Do(j, a), x)
  {
    hide Step, N1n2Registry.Step, Sane, Doomed, Written, SupiOf;
    assert N1n2Registry.WellKept(j.registry) by {
      SaneRegistry(j);
    }
    RegistryKeys(j, a, x);
    if Doomed(j, x) {
      DoomStays(j, a, x);
    } else {
      var v :| SupiOf(j.store, v) == Some(x);
      if a.OnStore? {
        HolderStays(j, a.op, v, x);
      }
    }
  }

  lemma SaneRegistry(j: Joint)
    requires Sane(j)
    ensures N1n2Registry.WellKept(j.registry) && UeIdsIssued(j.store.amfUes)
  {
  }

  /** A SUPI that is let go has no holder afterwards. */
  lemma LetGo(j: Joint, op: Op, u: nat, x: string)
    requires Sane(j) && SupiOf(j.store, u) == Some(x)
    requires Written(j.store, op, u).Some? && Written(j.store, op, u).value != Some(x)
    requires Anchor(Do(j, OnStore(op)), x)
    ensures AnchorBesides(j, x, u)
  {
    hide Step, N1n2Registry.Step, N1n2Registry.WellKept, SupiOf, Doomed;
    var j' := Do(j, OnStore(op));
    if Doomed(j', x) {
      DoomIsOld(j, op, x);
    } else {
      var v :| SupiOf(j'.store, v) == Some(x);
      SupiSteps(j.store, op, v);
    }
  }

  /** One section keeps every UE of the registry live or being removed, exactly under that condition. */
  lemma AnchoredStepIff(j: Joint, a: Act)
    requires Sane(j) && Anchored(j)
    ensures Anchored(Do(j, a)) <==> KeepsAnchors(j, a)
  {
    hide Do, Sane, Anchor, AnchorBesides, Written, SupiOf;
    SaneRegistry(j);
    if KeepsAnchors(j, a) {
      forall x | x in Do(j, a).registry
        ensures Anchor(Do(j, a), x)
      {
        RegistryKeys(j, a, x);
        if x in j.registry {
          AnchorStays(j, a, x);
        } else {
          AnchorOfSubscriber(j, a);
        }
      }
    }
    if Anchored(Do(j, a)) {
      if a.Subscribe? {
        RegistryKeys(j, a, a.ue);
        AnchorOfSubscriber(j, a);
      } else if a.OnStore? {
        forall u | Written(j.store, a.op, u).Some? && SupiOf(j.store, u).Some?
                   && SupiOf(j.store, u).value in j.registry && Written(j.store, a.op, u).value != SupiOf(j.store, u)
          ensures AnchorBesides(j, SupiOf(j.store, u).value, u)
        {
          WrittenIsNotFini(j.store, a.op, u);
          RegistryKeys(j, a, SupiOf(j.store, u).value);
          LetGo(j, a.op, u, SupiOf(j.store, u).value);
        }
      }
    }
  }

  lemma WrittenIsNotFini(s: Store, op: Op, u: nat)
    requires Written(s, op, u).Some?
    ensures !op.Fini?
  {
  }

  lemma AnchorOfSubscriber(j: Joint, a: Act)
    requires a.Subscribe?
    ensures Anchor(Do(j, a), a.ue) <==> Anchor(j, a.ue)
  {
    hide N1n2Registry.Step;
  }

  ghost predicate AnchoredThroughout(j: Joint, run: seq<Act>, n: nat)
    requires n <= |run|
  {
    Anchored(Ran(j, run, n)) && (n > 0 ==> AnchoredThroughout(j, run, n - 1))
  }

  ghost predicate KeepsAnchorsThroughout(j: Joint, run: seq<Act>, n: nat)
    requires n <= |run|
  {
    n > 0 ==> KeepsAnchorsThroughout(j, run, n - 1) && KeepsAnchors(Ran(j, run, n - 1), run[n - 1])
  }

  /** The registry does not leak across UE lifetimes: in every state of a run every UE of the registry is live or being
      removed, if and only if subscriptions are only made for such UEs, and a UE with subscriptions gives up its SUPI
      only to another one. */
  lemma {:induction false} RegistryStaysAnchoredIff(j: Joint, run: seq<Act>, n: nat)
    requires Sane(j) && Anchored(j) && n <= |run|
    ensures AnchoredThroughout(j, run, n) <==> KeepsAnchorsThroughout(j, run, n)
  {
    hide Do, Sane, Anchored, KeepsAnchors;
    if n == 0 {
    } else {
      RegistryStaysAnchoredIff(j, run, n - 1);
      RunsAreSane(j, run, n - 1);
      if AnchoredThroughout(j, run, n - 1) {
        AnchoredStepIff(Ran(j, run, n - 1), run[n - 1]);
      }
    }
  }

  const NEW_JOINT := Joint(NEW_STORE, map[], map[], 0)

  lemma NewJointIsAnchored()
    ensures Sane(NEW_JOINT) && Anchored(NEW_JOINT)
  {
  }

  /** A subscription for a SUPI of nobody is never dropped by any removal. */
  lemma SubscriptionOfNobody(sub: N1n2Registry.Subscription)
    ensures !Anchored(Ran(NEW_JOINT, [Subscribe("x", sub)], 1))
  {
    var run := [Subscribe("x", sub)];
    assert Ran(NEW_JOINT, run, 0) == NEW_JOINT;
    NewJointIsAnchored();
    AnchoredStepIff(NEW_JOINT, run[0]);
  }

  /** Whatever the state, the only UE with a SUPI subscribes and is then given another SUPI: its subscriptions stay
      behind under the old one. */
  lemma RenamedUeLeaks(j: Joint, u: nat, x: string, y: string, sub: N1n2Registry.Subscription)
    requires Sane(j) && Anchored(j) && SoleHolder(j.store, u, x) && !Doomed(j, x) && x != y
    ensures !Anchored(Ran(j, [Subscribe(x, sub), OnStore(UeSetSupi(u, y))], 2))
  {
    hide N1n2Registry.Step, N1n2Registry.WellKept, Step;
    var run := [Subscribe(x, sub), OnStore(UeSetSupi(u, y))];
    assert Ran(j, run, 1) == Do(j, run[0]);
    var made := Ran(j, run, 1);
    RegistryKeys(j, run[0], x);
    AnchoredStepIff(j, run[0]);
    DoIsSane(j, run[0]);
    assert Written(made.store, UeSetSupi(u, y), u) == Some(Some(y));
    AnchoredStepIff(made, run[1]);
  }
}
