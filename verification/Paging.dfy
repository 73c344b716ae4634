/** The paging table of the AMF context (context.rs): one entry per UE with a bounded number of retransmissions. */
module Paging {
  import opened Wrappers
  import opened Octets
  import opened IdentityCodec

  /** `initiatedAt` is in nanoseconds. */
  datatype PagingContext = PagingContext(
    ueId: nat, tmsi: bv32, setId: bv16, pointer: bv8, plmn: Plmn, tac: nat, initiatedAt: nat,
    retransmits: nat, maxRetransmits: nat,
    pendingN1: Option<seq<Octet>>, pendingN2: Option<seq<Octet>>, psi: Option<nat>)

  type Table = map<nat, PagingContext>

  datatype Op =
    | Page(entry: PagingContext)
    | Cancel(ueId: nat)
    | Retransmit(ueId: nat)
    | Expire(now: nat, timeoutSecs: nat)

  /** Older than the timeout, in whole seconds. */
  predicate Expired(c: PagingContext, now: nat, timeoutSecs: nat) {
    (if now > c.initiatedAt then now - c.initiatedAt else 0) / 1_000_000_000 > timeoutSecs
  }

  /** A retransmission is allowed: the entry exists and has retransmissions left. */
  predicate Allowed(t: Table, ueId: nat) {
    ueId in t && t[ueId].retransmits < t[ueId].maxRetransmits
  }

  function Step(t: Table, op: Op): Table {
    match op
    case Page(entry) => t[entry.ueId := entry]
    case Cancel(ueId) => t - {ueId}
    case Retransmit(ueId) =>
      if Allowed(t, ueId) then t[ueId := t[ueId].(retransmits := t[ueId].retransmits + 1)] else t
    case Expire(now, timeoutSecs) => map i | i in t && !Expired(t[i], now, timeoutSecs) :: t[i]
  }

  function After(t: Table, run: seq<Op>, n: nat): Table
    requires n <= |run|
  {
    if n == 0 then t else Step(After(t, run, n - 1), run[n - 1])
  }

  /** The operation neither replaces nor removes the entry of the UE. */
  predicate Spares(t: Table, op: Op, ueId: nat) {
    match op
    case Page(entry) => entry.ueId != ueId
    case Cancel(other) => other != ueId
    case Retransmit(_) => true
    case Expire(now, timeoutSecs) => ueId in t ==> !Expired(t[ueId], now, timeoutSecs)
  }

  /** The first `n` operations spare the entry. */
  predicate SparesUpTo(t: Table, run: seq<Op>, n: nat, ueId: nat)
    requires n <= |run|
  {
    n > 0 ==> SparesUpTo(t, run, n - 1, ueId) && Spares(After(t, run, n - 1), run[n - 1], ueId)
  }

  /** How many of the first `n` operations ask for a retransmission to the UE. */
  function Asked(run: seq<Op>, n: nat, ueId: nat): nat
    requires n <= |run|
  {
    if n == 0 then 0 else Asked(run, n - 1, ueId) + if run[n - 1] == Retransmit(ueId) then 1 else 0
  }

  /** How many of them succeed. */
  function Succeeded(t: Table, run: seq<Op>, n: nat, ueId: nat): nat
    requires n <= |run|
  {
    if n == 0 then 0
    else Succeeded(t, run, n - 1, ueId)
         + if run[n - 1] == Retransmit(ueId) && Allowed(After(t, run, n - 1), ueId) then 1 else 0
  }

  function Min(a: nat, b: nat): nat {
    if a < b then a else b
  }

  /** Until the entry is removed or replaced, exactly the first retransmissions that are left succeed, and nothing of
      the entry but its counter changes. */
  lemma {:induction false} RetransmitsAreBounded(t: Table, run: seq<Op>, n: nat, ueId: nat)
    requires n <= |run| && ueId in t && t[ueId].retransmits <= t[ueId].maxRetransmits && SparesUpTo(t, run, n, ueId)
    ensures Succeeded(t, run, n, ueId) == Min(Asked(run, n, ueId), t[ueId].maxRetransmits - t[ueId].retransmits)
    ensures ueId in After(t, run, n)
    ensures After(t, run, n)[ueId] == t[ueId].(retransmits := t[ueId].retransmits + Succeeded(t, run, n, ueId))
  {
    if n == 0 {
    } else {
      RetransmitsAreBounded(t, run, n - 1, ueId);
    }
  }

  /** Entries are filed under their own UE. */
  predicate WellKept(t: Table) {
    forall i :: i in t ==> t[i].ueId == i
  }

  /** No entry has been retransmitted more often than it may be. */
  predicate WithinMaximum(t: Table) {
    forall i :: i in t ==> t[i].retransmits <= t[i].maxRetransmits
  }

  /** The operation files only an entry that is within its maximum. */
  predicate PagesWithinMaximum(op: Op) {
    op.Page? ==> op.entry.retransmits <= op.entry.maxRetransmits
  }

  lemma StepWellKept(t: Table, op: Op)
    requires WellKept(t)
    ensures WellKept(Step(t, op))
    ensures WithinMaximum(t) ==> (WithinMaximum(Step(t, op)) <==> PagesWithinMaximum(op))
  {
    if op.Page? {
      assert op.entry.ueId in Step(t, op);
    }
  }

  /** Every run keeps entries under their own UE; a run keeps them within their maximum throughout if and only if it
      files only such entries. */
  lemma {:induction false} RunsAreWellKept(t: Table, run: seq<Op>, n: nat)
    requires WellKept(t) && WithinMaximum(t) && n <= |run|
    ensures WellKept(After(t, run, n))
    ensures (forall k :: 0 <= k <= n ==> WithinMaximum(After(t, run, k)))
            <==> forall k :: 0 <= k < n ==> PagesWithinMaximum(run[k])
  {
    hide Step, WellKept, WithinMaximum, PagesWithinMaximum;
    if n == 0 {
    } else {
      RunsAreWellKept(t, run, n - 1);
      StepWellKept(After(t, run, n - 1), run[n - 1]);
      if forall k :: 0 <= k <= n ==> WithinMaximum(After(t, run, k)) {
        assert WithinMaximum(After(t, run, n - 1));
        assert forall k :: 0 <= k < n - 1 ==> PagesWithinMaximum(run[k]);
      }
    }
  }
}
