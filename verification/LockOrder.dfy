/** The locks of the AMF context and the order in which its methods take them: no set of threads running any
    calls can deadlock, and every execution ends with all calls finished. */
module LockOrder {

  datatype Lock =
    | GnbList | GnbAddrHash | GnbIdHash
    | AmfUeList | SuciHash | SupiHash | GutiHash
    | RanUeList | SessList
    | PagingMap | EventSubscriptions | PositioningQueue | N1n2Subscriptions | LcsCorrelations | DeregQueue

  datatype Mode = Read | Write

  datatype Request = Request(lock: Lock, mode: Mode)

  /** Locks taken one after the other while all earlier ones are kept, then released in reverse. */
  type Nest = seq<Request>

  /** The one order that all methods respect. */
  function Rank(l: Lock): nat {
    match l
    case GnbList => 0
    case GnbAddrHash => 1
    case GnbIdHash => 2
    case AmfUeList => 3
    case SuciHash => 4
    case SupiHash => 5
    case GutiHash => 6
    case RanUeList => 7
    case SessList => 8
    case PagingMap => 9
    case EventSubscriptions => 10
    case PositioningQueue => 11
    case N1n2Subscriptions => 12
    case LcsCorrelations => 13
    case DeregQueue => 14
  }

  /** The calls on the context. A call that continues only when a lookup succeeds says so with `found`; `OneLock`
      stands for each of the many methods that take a single lock once. */
  datatype Call =
    | GnbAdd
    | GnbRemove(found: bool)
    | GnbRemoveAll
    | GnbFindByAddr(found: bool)
    | GnbFindByGnbId(found: bool)
    | GnbSetGnbId
    | UeRemove(found: bool, hasSupi: bool)
    | UeRemoveAll
    | UeFindBySuci(found: bool)
    | UeFindBySupi(found: bool)
    | UeFindByGuti(found: bool)
    | UeSetSuci
    | UeSetSupi
    | UeUpdateGuti
    | UeAssociate
    | UeDeassociate
    | OneLock(lock: Lock, mode: Mode)

  function W(l: Lock): Request {
    Request(l, Write)
  }

  function R(l: Lock): Request {
    Request(l, Read)
  }

  /** The nests of locks a call goes through, in order. */
  function Nests(c: Call): seq<Nest> {
    match c
    case GnbAdd => [[W(GnbList), W(GnbAddrHash)]]
    case GnbRemove(found) =>
      [[W(GnbList), W(GnbAddrHash), W(GnbIdHash)] + if found then [W(RanUeList)] else []]
    case GnbRemoveAll => [[W(GnbList), W(GnbAddrHash), W(GnbIdHash)], [W(RanUeList)]]
    case GnbFindByAddr(found) => [[R(GnbAddrHash)]] + if found then [[R(GnbList)]] else []
    case GnbFindByGnbId(found) => [[R(GnbIdHash)]] + if found then [[R(GnbList)]] else []
    case GnbSetGnbId => [[W(GnbList), W(GnbIdHash)]]
    case UeRemove(found, hasSupi) =>
      [[W(AmfUeList), W(SuciHash), W(SupiHash), W(GutiHash)]]
      + (if found then [[W(SessList)]] + (if hasSupi then [[W(N1n2Subscriptions)], [W(LcsCorrelations)]] else [])
         else [])
    case UeRemoveAll =>
      [[W(AmfUeList), W(SuciHash), W(SupiHash), W(GutiHash)], [W(SessList)], [W(N1n2Subscriptions)],
       [W(LcsCorrelations)]]
    case UeFindBySuci(found) => [[R(SuciHash)]] + if found then [[R(AmfUeList)]] else []
    case UeFindBySupi(found) => [[R(SupiHash)]] + if found then [[R(AmfUeList)]] else []
    case UeFindByGuti(found) => [[R(GutiHash)]] + if found then [[R(AmfUeList)]] else []
    case UeSetSuci => [[W(AmfUeList), W(SuciHash)]]
    case UeSetSupi => [[W(AmfUeList), W(SupiHash)]]
    case UeUpdateGuti => [[W(AmfUeList), W(GutiHash)]]
    case UeAssociate => [[W(AmfUeList), W(RanUeList)]]
    case UeDeassociate => [[W(AmfUeList), W(RanUeList)]]
    case OneLock(lock, mode) => [[Request(lock, mode)]]
  }

  /** All the nests of a thread's calls. */
  function Program(calls: seq<Call>): seq<Nest> {
    if calls == [] then [] else Nests(calls[0]) + Program(calls[1..])
  }

  // ------------------------------------------------------------------------
  // Threads
  // ------------------------------------------------------------------------

  /** A thread inside its first remaining nest: it holds the first `depth` locks and is still taking locks or
      already releasing them. */
  datatype Thread = Thread(todo: seq<Nest>, depth: nat, releasing: bool)

  function Start(calls: seq<Call>): Thread {
    Thread(Program(calls), 0, false)
  }

  predicate Finished(t: Thread) {
    t.todo == []
  }

  function Held(t: Thread): seq<Request> {
    if t.todo == [] || t.depth > |t.todo[0]| then [] else t.todo[0][..t.depth]
  }

  /** The thread's next action is to take a lock. */
  predicate Waits(t: Thread) {
    t.todo != [] && !t.releasing && t.depth < |t.todo[0]|
  }

  function Wanted(t: Thread): Request
    requires Waits(t)
  {
    t.todo[0][t.depth]
  }

  function Advanced(t: Thread): Thread
    requires !Finished(t)
  {
    if Waits(t) then t.(depth := t.depth + 1)
    else if !t.releasing then t.(releasing := true)
    else if t.depth > 0 then t.(depth := t.depth - 1)
    else Thread(t.todo[1..], 0, false)
  }

  /** No thread holds the lock in a mode that conflicts with the request. */
  predicate Compatible(s: seq<Thread>, r: Request) {
    forall j, q :: 0 <= j < |s| && q in Held(s[j]) && q.lock == r.lock ==> q.mode == Read && r.mode == Read
  }

  /** No thread holds the lock at all. */
  predicate Idle(s: seq<Thread>, l: Lock) {
    forall j, q :: 0 <= j < |s| && q in Held(s[j]) ==> q.lock != l
  }

  predicate WriterWaits(s: seq<Thread>, l: Lock) {
    exists j :: 0 <= j < |s| && Waits(s[j]) && Wanted(s[j]) == Request(l, Write)
  }

  /** The thread can move under the most permissive reader-writer lock. */
  predicate MayStep(s: seq<Thread>, i: nat)
    requires i < |s|
  {
    !Finished(s[i]) && (Waits(s[i]) ==> Compatible(s, Wanted(s[i])))
  }

  /** The thread can move even under a lock that makes readers queue behind waiting writers. */
  predicate CanStep(s: seq<Thread>, i: nat)
    requires i < |s|
  {
    && !Finished(s[i])
    && (Waits(s[i]) ==>
          && Idle(s, Wanted(s[i]).lock)
          && (Wanted(s[i]).mode == Read ==> !WriterWaits(s, Wanted(s[i]).lock)))
  }

  // ------------------------------------------------------------------------
  // The order is respected
  // ------------------------------------------------------------------------

  predicate Ranked(n: Nest) {
    forall a, b :: 0 <= a < b < |n| ==> Rank(n[a].lock) < Rank(n[b].lock)
  }

  predicate AllRanked(nests: seq<Nest>) {
    forall k :: 0 <= k < |nests| ==> Ranked(nests[k])
  }

  lemma CallsAreRanked(c: Call)
    ensures AllRanked(Nests(c))
  {
  }

  lemma {:induction false} ProgramsAreRanked(calls: seq<Call>)
    ensures AllRanked(Program(calls))
  {
    if calls == [] {
    } else {
      CallsAreRanked(calls[0]);
      ProgramsAreRanked(calls[1..]);
    }
  }

  predicate Orderly(t: Thread) {
    AllRanked(t.todo) && (t.todo == [] || t.depth <= |t.todo[0]|)
  }

  // ------------------------------------------------------------------------
  // Progress
  // ------------------------------------------------------------------------

  /** One more than the rank of the last lock taken, or 0 when the thread holds none. */
  function Top(t: Thread): nat {
    if Held(t) == [] then 0 else Rank(Held(t)[|Held(t)| - 1].lock) + 1
  }

  lemma HeldBelowTop(t: Thread, q: Request)
    requires Orderly(t) && q in Held(t)
    ensures Rank(q.lock) < Top(t)
  {
    var k :| 0 <= k < |Held(t)| && Held(t)[k] == q;
    assert Ranked(t.todo[0]);
  }

  lemma WantedAboveTop(t: Thread)
    requires Orderly(t) && Waits(t)
    ensures Top(t) <= Rank(Wanted(t).lock)
  {
    assert Ranked(t.todo[0]);
  }

  /** A thread whose last lock ranks highest of all. */
  lemma {:induction false} Highest(s: seq<Thread>) returns (i: nat)
    requires s != []
    ensures i < |s| && forall j :: 0 <= j < |s| ==> Top(s[j]) <= Top(s[i])
  {
    if |s| == 1 {
      i := 0;
    } else {
      var k := Highest(s[1..]);
      i := if Top(s[0]) <= Top(s[1..][k]) then k + 1 else 0;
      forall j | 0 <= j < |s|
        ensures Top(s[j]) <= Top(s[i])
      {
        if j > 0 {
          assert s[j] == s[1..][j - 1];
        }
      }
    }
  }

  /** What a thread with the highest lock wants is held by nobody, so it or a writer ahead of it can move. */
  lemma HighestMoves(s: seq<Thread>, i: nat) returns (k: nat)
    requires (forall j :: 0 <= j < |s| ==> Orderly(s[j])) && i < |s| && !Finished(s[i])
    requires forall j :: 0 <= j < |s| ==> Top(s[j]) <= Top(s[i])
    ensures k < |s| && CanStep(s, k)
  {
    k := i;
    if Waits(s[i]) {
      var l := Wanted(s[i]).lock;
      WantedAboveTop(s[i]);
      forall j, q | 0 <= j < |s| && q in Held(s[j])
        ensures q.lock != l
      {
        HeldBelowTop(s[j], q);
      }
      if Wanted(s[i]).mode == Read && WriterWaits(s, l) {
        k :| 0 <= k < |s| && Waits(s[k]) && Wanted(s[k]) == Request(l, Write);
      }
    }
  }

  /** While some thread is unfinished, some thread can move. */
  lemma SomeoneMoves(s: seq<Thread>, u: nat) returns (k: nat)
    requires (forall j :: 0 <= j < |s| ==> Orderly(s[j])) && u < |s| && !Finished(s[u])
    ensures k < |s| && CanStep(s, k)
  {
    var i := Highest(s);
    if Finished(s[i]) {
      k := HighestMoves(s, u);
    } else {
      k := HighestMoves(s, i);
    }
  }

  // ------------------------------------------------------------------------
  // Executions
  // ------------------------------------------------------------------------

  /** The schedule is possible: each thread it names may move at its turn. */
  predicate Possible(s: seq<Thread>, schedule: seq<nat>)
    decreases |schedule|
  {
    schedule == [] ||
    (schedule[0] < |s| && MayStep(s, schedule[0])
     && Possible(s[schedule[0] := Advanced(s[schedule[0]])], schedule[1..]))
  }

  function Executed(s: seq<Thread>, schedule: seq<nat>): (r: seq<Thread>)
    requires Possible(s, schedule)
    ensures |r| == |s|
    decreases |schedule|
  {
    if schedule == [] then s
    else Executed(s[schedule[0] := Advanced(s[schedule[0]])], schedule[1..])
  }

  lemma AdvancedIsOrderly(t: Thread)
    requires Orderly(t) && !Finished(t)
    ensures Orderly(Advanced(t))
  {
  }

  lemma {:induction false} ExecutedIsOrderly(s: seq<Thread>, schedule: seq<nat>)
    requires (forall j :: 0 <= j < |s| ==> Orderly(s[j])) && Possible(s, schedule)
    ensures forall j :: 0 <= j < |s| ==> Orderly(Executed(s, schedule)[j])
    decreases |schedule|
  {
    if schedule == [] {
    } else {
      AdvancedIsOrderly(s[schedule[0]]);
      ExecutedIsOrderly(s[schedule[0] := Advanced(s[schedule[0]])], schedule[1..]);
    }
  }

  function Fresh(threads: seq<seq<Call>>): (s: seq<Thread>)
    ensures |s| == |threads|
    ensures forall j :: 0 <= j < |s| ==> s[j] == Start(threads[j])
  {
    seq(|threads|, j requires 0 <= j < |threads| => Start(threads[j]))
  }

  /** Deadlock freedom. However many threads run whatever calls, and however they have been scheduled so far: if a
      thread is not finished, some thread can move. */
  lemma NoDeadlock(threads: seq<seq<Call>>, schedule: seq<nat>, u: nat) returns (k: nat)
    requires Possible(Fresh(threads), schedule)
    requires u < |threads| && !Finished(Executed(Fresh(threads), schedule)[u])
    ensures k < |threads| && CanStep(Executed(Fresh(threads), schedule), k)
  {
    forall j | 0 <= j < |threads|
      ensures Orderly(Fresh(threads)[j])
    {
      ProgramsAreRanked(threads[j]);
    }
    ExecutedIsOrderly(Fresh(threads), schedule);
    k := SomeoneMoves(Executed(Fresh(threads), schedule), u);
  }

  // ------------------------------------------------------------------------
  // Every execution ends
  // ------------------------------------------------------------------------

  function NestWork(nests: seq<Nest>): nat {
    if nests == [] then 0 else 2 * |nests[0]| + 2 + NestWork(nests[1..])
  }

  /** The number of moves a thread has left. */
  function Work(t: Thread): nat
    requires Orderly(t)
  {
    if t.todo == [] then 0
    else NestWork(t.todo[1..]) + if t.releasing then t.depth + 1 else 2 * |t.todo[0]| - t.depth + 2
  }

  function TotalWork(s: seq<Thread>): nat
    requires forall j :: 0 <= j < |s| ==> Orderly(s[j])
  {
    if s == [] then 0 else Work(s[0]) + TotalWork(s[1..])
  }

  lemma {:induction false} WorkOfUpdate(s: seq<Thread>, i: nat, t: Thread)
    requires (forall j :: 0 <= j < |s| ==> Orderly(s[j])) && i < |s| && Orderly(t)
    ensures TotalWork(s[i := t]) == TotalWork(s) - Work(s[i]) + Work(t)
  {
    if i == 0 {
      assert s[0 := t][1..] == s[1..];
    } else {
      WorkOfUpdate(s[1..], i - 1, t);
      assert s[i := t][1..] == s[1..][i - 1 := t];
    }
  }

  lemma AdvancedWork(t: Thread)
    requires Orderly(t) && !Finished(t)
    ensures Orderly(Advanced(t)) && Work(Advanced(t)) == Work(t) - 1
  {
  }

  /** Every move uses up one unit of a fixed amount of work: executions are bounded, and one that cannot go on has
      finished every call of every thread. */
  lemma {:induction false} ExecutionsEnd(s: seq<Thread>, schedule: seq<nat>)
    requires (forall j :: 0 <= j < |s| ==> Orderly(s[j])) && Possible(s, schedule)
    ensures forall j :: 0 <= j < |s| ==> Orderly(Executed(s, schedule)[j])
    ensures |schedule| + TotalWork(Executed(s, schedule)) == TotalWork(s)
    ensures (forall k :: 0 <= k < |s| ==> !CanStep(Executed(s, schedule), k)) <==>
            (forall k :: 0 <= k < |s| ==> Finished(Executed(s, schedule)[k]))
    decreases |schedule|
  {
    if schedule == [] {
      if u :| 0 <= u < |s| && !Finished(s[u]) {
        var k := SomeoneMoves(s, u);
      }
    } else {
      var i := schedule[0];
      AdvancedWork(s[i]);
      WorkOfUpdate(s, i, Advanced(s[i]));
      ExecutionsEnd(s[i := Advanced(s[i])], schedule[1..]);
    }
  }

  // ------------------------------------------------------------------------
  // The locks exclude
  // ------------------------------------------------------------------------

  /** Two threads hold one lock at a time only if both read. */
  predicate Exclusive(s: seq<Thread>) {
    forall j, k, q, p :: 0 <= j < k < |s| && q in Held(s[j]) && p in Held(s[k]) && q.lock == p.lock ==>
      q.mode == Read && p.mode == Read
  }

  lemma AdvancedHolds(t: Thread, q: Request)
    requires Orderly(t) && !Finished(t) && q in Held(Advanced(t))
    ensures q in Held(t) || (Waits(t) && q == Wanted(t))
  {
  }

  /** What a thread holds after its move conflicts with nothing that another thread holds. */
  lemma MoverIsExclusive(s: seq<Thread>, i: nat, k: nat, q: Request, p: Request)
    requires i < |s| && k < |s| && i != k && Orderly(s[i]) && Exclusive(s) && MayStep(s, i)
    requires q in Held(Advanced(s[i])) && p in Held(s[k]) && q.lock == p.lock
    ensures q.mode == Read && p.mode == Read
  {
    hide Held, Advanced, Waits, Wanted, Orderly;
    AdvancedHolds(s[i], q);
    if q in Held(s[i]) {
      if i < k {
        ExclusivePair(s, i, k, q, p);
      } else {
        ExclusivePair(s, k, i, p, q);
      }
    }
  }

  lemma ExclusivePair(s: seq<Thread>, j: nat, k: nat, q: Request, p: Request)
    requires Exclusive(s) && j < k < |s| && q in Held(s[j]) && p in Held(s[k]) && q.lock == p.lock
    ensures q.mode == Read && p.mode == Read
  {
    hide Held;
  }

  lemma StepIsExclusive(s: seq<Thread>, i: nat)
    requires (forall j :: 0 <= j < |s| ==> Orderly(s[j])) && Exclusive(s) && i < |s| && MayStep(s, i)
    ensures Exclusive(s[i := Advanced(s[i])])
  {
    hide Held, Advanced, Orderly, Waits, Compatible;
    var s' := s[i := Advanced(s[i])];
    forall j, k, q, p | 0 <= j < k < |s'| && q in Held(s'[j]) && p in Held(s'[k]) && q.lock == p.lock
      ensures q.mode == Read && p.mode == Read
    {
      if j == i {
        MoverIsExclusive(s, i, k, q, p);
      } else if k == i {
        MoverIsExclusive(s, i, j, p, q);
      } else {
        ExclusivePair(s, j, k, q, p);
      }
    }
  }

  /** In every reachable state a lock held for writing is held by one thread only. */
  lemma {:induction false} ExecutedIsExclusive(s: seq<Thread>, schedule: seq<nat>)
    requires (forall j :: 0 <= j < |s| ==> Orderly(s[j])) && Exclusive(s) && Possible(s, schedule)
    ensures Exclusive(Executed(s, schedule))
    decreases |schedule|
  {
    if schedule == [] {
    } else {
      var i := schedule[0];
      AdvancedIsOrderly(s[i]);
      StepIsExclusive(s, i);
      ExecutedIsExclusive(s[i := Advanced(s[i])], schedule[1..]);
    }
  }

  /** So it is for all threads and all schedules. */
  lemma ReachableIsExclusive(threads: seq<seq<Call>>, schedule: seq<nat>)
    requires Possible(Fresh(threads), schedule)
    ensures Exclusive(Executed(Fresh(threads), schedule))
  {
    forall j | 0 <= j < |threads|
      ensures Orderly(Fresh(threads)[j]) && Held(Fresh(threads)[j]) == []
    {
      ProgramsAreRanked(threads[j]);
    }
    ExecutedIsExclusive(Fresh(threads), schedule);
  }
}
