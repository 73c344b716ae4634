/** The registry of N1N2 message subscriptions per UE (context.rs), and the search across all UEs. */
module N1n2Registry {
  import opened Wrappers

  datatype Subscription = Subscription(
    id: string, n1Class: Option<string>, n1Uri: Option<string>, n2Class: Option<string>, n2Uri: Option<string>,
    lcsCorrelation: Option<string>)

  type Registry = map<string, seq<Subscription>>

  // ------------------------------------------------------------------------
  // One registry
  // ------------------------------------------------------------------------

  /** The position of a subscription in a list, or its length. */
  function Position(list: seq<Subscription>, id: string): (i: nat)
    ensures i <= |list| && (i < |list| ==> list[i].id == id)
    ensures forall j :: 0 <= j < i ==> list[j].id != id
  {
    if list == [] || list[0].id == id then 0 else 1 + Position(list[1..], id)
  }

  function ListOf(r: Registry, ue: string): seq<Subscription> {
    if ue in r then r[ue] else []
  }

  predicate Subscribed(r: Registry, ue: string, id: string) {
    Position(ListOf(r, ue), id) < |ListOf(r, ue)|
  }

  function Subscribe(r: Registry, ue: string, sub: Subscription): Registry {
    if Subscribed(r, ue, sub.id) then r else r[ue := ListOf(r, ue) + [sub]]
  }

  function Unsubscribe(r: Registry, ue: string, id: string): Registry {
    if !Subscribed(r, ue, id) then r
    else
      var i := Position(r[ue], id);
      var left := Without(r[ue], i);
      if left == [] then r - {ue} else r[ue := left]
  }

  datatype Op =
    | Add(ue: string, sub: Subscription)
    | Remove(ue: string, id: string)
    | DropUe(ue: string)
    | Clear
    | Elsewhere // an operation on another table

  function Step(r: Registry, op: Op): Registry {
    match op
    case Add(ue, sub) => Subscribe(r, ue, sub)
    case Remove(ue, id) => Unsubscribe(r, ue, id)
    case DropUe(ue) => r - {ue}
    case Clear => map[]
    case Elsewhere => r
  }

  function After(r: Registry, run: seq<Op>, n: nat): Registry
    requires n <= |run|
  {
    if n == 0 then r else Step(After(r, run, n - 1), run[n - 1])
  }

  predicate DistinctIds(list: seq<Subscription>) {
    forall i, j :: 0 <= i < j < |list| ==> list[i].id != list[j].id
  }

  /** No UE has an empty list, and no id occurs twice within a UE. */
  predicate WellKept(r: Registry) {
    forall ue :: ue in r ==> r[ue] != [] && DistinctIds(r[ue])
  }

  /** A list without the element at `i`. */
  function Without(list: seq<Subscription>, i: nat): seq<Subscription>
    requires i < |list|
  {
    list[..i] + list[i + 1..]
  }

  lemma WithoutKeepsDistinct(list: seq<Subscription>, i: nat)
    requires i < |list| && DistinctIds(list)
    ensures DistinctIds(Without(list, i))
    ensures forall s :: s in Without(list, i) <==> s in list && s.id != list[i].id
  {
    var left := Without(list, i);
    assert forall a :: 0 <= a < |left| ==> left[a] == if a < i then list[a] else list[a + 1];
    forall s | s in list && s.id != list[i].id
      ensures s in left
    {
      var a :| 0 <= a < |list| && list[a] == s;
      assert left[if a < i then a else a - 1] == s;
    }
  }

  lemma SubscribeWellKept(r: Registry, ue: string, sub: Subscription)
    requires WellKept(r)
    ensures WellKept(Subscribe(r, ue, sub))
  {
    hide Position;
    if !Subscribed(r, ue, sub.id) {
      assert DistinctIds(ListOf(r, ue) + [sub]);
    }
  }

  lemma UnsubscribeWellKept(r: Registry, ue: string, id: string)
    requires WellKept(r)
    ensures WellKept(Unsubscribe(r, ue, id))
  {
    hide Position;
    if Subscribed(r, ue, id) {
      hide Without;
      WithoutKeepsDistinct(r[ue], Position(r[ue], id));
    }
  }

  lemma StepWellKept(r: Registry, op: Op)
    requires WellKept(r)
    ensures WellKept(Step(r, op))
  {
    hide Subscribe, Unsubscribe;
    match op {
      case Add(ue, sub) => SubscribeWellKept(r, ue, sub);
      case Remove(ue, id) => UnsubscribeWellKept(r, ue, id);
      case DropUe(_) =>
      case Clear =>
      case Elsewhere =>
    }
  }

  lemma {:induction false} RunsAreWellKept(r: Registry, run: seq<Op>, n: nat)
    requires WellKept(r) && n <= |run|
    ensures WellKept(After(r, run, n))
  {
    hide Step, WellKept;
    if n == 0 {
    } else {
      RunsAreWellKept(r, run, n - 1);
      StepWellKept(After(r, run, n - 1), run[n - 1]);
    }
  }

  /** Subscribing with a new id and then unsubscribing it restores the registry. */
  lemma UnsubscribeUndoesSubscribe(r: Registry, ue: string, sub: Subscription)
    requires WellKept(r) && !Subscribed(r, ue, sub.id)
    ensures Unsubscribe(Subscribe(r, ue, sub), ue, sub.id) == r
  {
    hide Position;
    var list := ListOf(r, ue);
    var more := list + [sub];
    AppendedIsLast(list, sub);
    var r' := r[ue := more];
    assert Subscribe(r, ue, sub) == r';
    assert Subscribed(r', ue, sub.id) && r'[ue] == more;
    assert Without(more, |list|) == list;
    if ue in r {
      assert r'[ue := list] == r;
    } else {
      assert r' - {ue} == r;
    }
  }

  lemma AppendedIsLast(list: seq<Subscription>, sub: Subscription)
    requires Position(list, sub.id) == |list|
    ensures Position(list + [sub], sub.id) == |list|
  {
    var more := list + [sub];
    assert more[|list|].id == sub.id;
    assert forall j :: 0 <= j < |list| ==> list[j] == more[j];
  }

  // ------------------------------------------------------------------------
  // How long a subscription lasts
  // ------------------------------------------------------------------------

  /** The operation asks for the subscription. */
  predicate Makes(op: Op, ue: string, id: string) {
    op.Add? && op.ue == ue && op.sub.id == id
  }

  /** The operation ends the subscription: by its id, with its UE, or with all others. */
  predicate Ends(op: Op, ue: string, id: string) {
    op == Remove(ue, id) || op == DropUe(ue) || op == Clear
  }

  lemma SubscribedMeansListed(r: Registry, ue: string, id: string)
    ensures Subscribed(r, ue, id) <==> exists s :: s in ListOf(r, ue) && s.id == id
  {
    var list := ListOf(r, ue);
    if Subscribed(r, ue, id) {
      assert list[Position(list, id)] in list;
    }
  }

  lemma SubscribeMakes(r: Registry, at: string, sub: Subscription, ue: string, id: string)
    ensures Subscribed(Subscribe(r, at, sub), ue, id) <==> (at == ue && sub.id == id) || Subscribed(r, ue, id)
  {
    SubscribedMeansListed(r, ue, id);
    SubscribedMeansListed(Subscribe(r, at, sub), ue, id);
    hide Position;
    if !Subscribed(r, at, sub.id) {
      var more := ListOf(r, at) + [sub];
      assert ListOf(Subscribe(r, at, sub), at) == more;
      assert forall s :: s in more <==> s in ListOf(r, at) || s == sub;
    }
  }

  lemma UnsubscribeEnds(r: Registry, at: string, gone: string, ue: string, id: string)
    requires WellKept(r)
    ensures Subscribed(Unsubscribe(r, at, gone), ue, id) <==> Subscribed(r, ue, id) && !(at == ue && gone == id)
  {
    SubscribedMeansListed(r, ue, id);
    SubscribedMeansListed(Unsubscribe(r, at, gone), ue, id);
    hide Position, Without;
    if Subscribed(r, at, gone) {
      var i := Position(r[at], gone);
      WithoutKeepsDistinct(r[at], i);
      assert ListOf(Unsubscribe(r, at, gone), at) == Without(r[at], i);
    }
  }

  lemma StepSubscribedIff(r: Registry, op: Op, ue: string, id: string)
    requires WellKept(r)
    ensures Subscribed(Step(r, op), ue, id) <==> Makes(op, ue, id) || (Subscribed(r, ue, id) && !Ends(op, ue, id))
  {
    hide Subscribe, Unsubscribe, WellKept, Position;
    match op {
      case Add(at, sub) => SubscribeMakes(r, at, sub, ue, id);
      case Remove(at, gone) => UnsubscribeEnds(r, at, gone, ue, id);
      case DropUe(_) =>
      case Clear =>
      case Elsewhere =>
    }
  }

  /** None of the operations from `i` up to `n` ends the subscription. */
  predicate Unended(run: seq<Op>, i: nat, n: nat, ue: string, id: string) {
    forall k :: i <= k < n <= |run| ==> !Ends(run[k], ue, id)
  }

  /** Operation `i` asks for the subscription and nothing up to `n` ends it. */
  predicate MadeAndKept(run: seq<Op>, i: nat, n: nat, ue: string, id: string) {
    i < n <= |run| && Makes(run[i], ue, id) && Unended(run, i + 1, n, ue, id)
  }

  /** The lifetime of a subscription in every run: it is there if and only if it was there at the start or was asked
      for, and nothing has ended it since. */
  lemma {:induction false} SubscribedIff(r: Registry, run: seq<Op>, n: nat, ue: string, id: string)
    requires WellKept(r) && n <= |run|
    ensures Subscribed(After(r, run, n), ue, id) <==>
            (Subscribed(r, ue, id) && Unended(run, 0, n, ue, id)) || exists i: nat :: MadeAndKept(run, i, n, ue, id)
  {
    hide Step, WellKept, Subscribed, Makes, Ends;
    if n == 0 {
    } else {
      var m, op := n - 1, run[n - 1];
      SubscribedIff(r, run, m, ue, id);
      RunsAreWellKept(r, run, m);
      StepSubscribedIff(After(r, run, m), op, ue, id);
      if i: nat :| MadeAndKept(run, i, m, ue, id) {
        assert !Ends(op, ue, id) ==> MadeAndKept(run, i, n, ue, id);
      }
      if Makes(op, ue, id) {
        assert MadeAndKept(run, m, n, ue, id);
      }
      if i: nat :| MadeAndKept(run, i, n, ue, id) {
        assert i < m ==> MadeAndKept(run, i, m, ue, id) && !Ends(op, ue, id);
      }
      assert Unended(run, 0, n, ue, id) <==> Unended(run, 0, m, ue, id) && !Ends(op, ue, id);
    }
  }

  // ------------------------------------------------------------------------
  // Order of subscription ids
  // ------------------------------------------------------------------------

  predicate Leq(a: string, b: string) {
    a == [] || (b != [] && (a[0] < b[0] || (a[0] == b[0] && Leq(a[1..], b[1..]))))
  }

  /** The names agree up to place `k`, and there the first has the smaller character. */
  predicate SmallerAt(a: string, b: string, k: nat) {
    k < |a| && k < |b| && a[..k] == b[..k] && a[k] < b[k]
  }

  lemma SmallerFurtherOn(a: string, b: string, k: nat)
    requires a != [] && b != [] && a[0] == b[0]
    ensures SmallerAt(a, b, k + 1) <==> SmallerAt(a[1..], b[1..], k)
  {
    if k < |a[1..]| && k < |b[1..]| {
      assert a[..k + 1] == [a[0]] + a[1..][..k] && b[..k + 1] == [b[0]] + b[1..][..k];
      assert a[..k + 1][1..] == a[1..][..k] && b[..k + 1][1..] == b[1..][..k];
    }
  }

  lemma SmallerAtOnce(a: string, b: string, k: nat)
    requires a != [] && b != [] && a[0] != b[0]
    ensures SmallerAt(a, b, k) <==> k == 0 && a[0] < b[0]
  {
    if 0 < k < |a| && k < |b| {
      assert a[..k][0] == a[0] && b[..k][0] == b[0];
    }
  }

  /** The order of the dictionary: one is the beginning of the other, or the first place where they differ decides. */
  lemma {:induction false} LeqIsDictionaryOrder(a: string, b: string)
    ensures Leq(a, b) <==> a <= b || exists k: nat :: SmallerAt(a, b, k)
    decreases |a|
  {
    hide SmallerAt;
    if a == [] || b == [] {
      NoneSmallerThanEmpty(a, b);
    } else if a[0] != b[0] {
      forall k: nat
        ensures SmallerAt(a, b, k) <==> k == 0 && a[0] < b[0]
      {
        SmallerAtOnce(a, b, k);
      }
      assert SmallerAt(a, b, 0) <==> a[0] < b[0];
    } else {
      LeqIsDictionaryOrder(a[1..], b[1..]);
      assert a == [a[0]] + a[1..] && b == [b[0]] + b[1..];
      if k: nat :| SmallerAt(a[1..], b[1..], k) {
        SmallerFurtherOn(a, b, k);
      }
      if k: nat :| SmallerAt(a, b, k) {
        SmallerNotAtOnce(a, b, k);
        SmallerFurtherOn(a, b, k - 1);
      }
    }
  }

  lemma NoneSmallerThanEmpty(a: string, b: string)
    requires a == [] || b == []
    ensures forall k: nat :: !SmallerAt(a, b, k)
  {
  }

  lemma SmallerNotAtOnce(a: string, b: string, k: nat)
    requires SmallerAt(a, b, k) && a[0] == b[0]
    ensures k > 0
  {
  }

  lemma {:induction false} LeqIsTotal(a: string, b: string)
    ensures Leq(a, b) || Leq(b, a)
    decreases |a|
  {
    if a != [] && b != [] {
      LeqIsTotal(a[1..], b[1..]);
    }
  }

  lemma {:induction false} LeqIsAntisymmetric(a: string, b: string)
    requires Leq(a, b) && Leq(b, a)
    ensures a == b
    decreases |a|
  {
    if a != [] && b != [] {
      LeqIsAntisymmetric(a[1..], b[1..]);
      assert a == [a[0]] + a[1..] && b == [b[0]] + b[1..];
    }
  }

  lemma {:induction false} LeqIsTransitive(a: string, b: string, c: string)
    requires Leq(a, b) && Leq(b, c)
    ensures Leq(a, c)
    decreases |a|
  {
    if a != [] && a[0] == b[0] == c[0] {
      LeqIsTransitive(a[1..], b[1..], c[1..]);
    }
  }

  // ------------------------------------------------------------------------
  // Searching across all UEs
  // ------------------------------------------------------------------------

  predicate MatchesN2(s: Subscription, n2Class: string) {
    s.n2Class == Some(n2Class) && s.n2Uri.Some?
  }

  function MatchesIn(list: seq<Subscription>, n2Class: string): seq<Subscription> {
    if list == [] then []
    else (if MatchesN2(list[0], n2Class) then [list[0]] else []) + MatchesIn(list[1..], n2Class)
  }

  /** All matches, UE by UE in the order in which the map happens to be walked. */
  function Collected(r: Registry, order: seq<string>, n2Class: string): seq<Subscription> {
    if order == [] then [] else MatchesIn(ListOf(r, order[0]), n2Class) + Collected(r, order[1..], n2Class)
  }

  predicate SortedById(s: seq<Subscription>) {
    forall i, j :: 0 <= i < j < |s| ==> Leq(s[i].id, s[j].id)
  }

  /** Insertion behind every element that is not greater: the step of a stable sort. */
  function Inserted(s: seq<Subscription>, x: Subscription): seq<Subscription> {
    if s == [] then [x]
    else if Leq(s[|s| - 1].id, x.id) then s + [x]
    else Inserted(s[..|s| - 1], x) + [s[|s| - 1]]
  }

  /** The stable sort by id. */
  function StableSorted(s: seq<Subscription>): seq<Subscription> {
    if s == [] then [] else Inserted(StableSorted(s[..|s| - 1]), s[|s| - 1])
  }

  lemma {:induction false} InsertedHas(s: seq<Subscription>, x: Subscription, y: Subscription)
    ensures y in Inserted(s, x) <==> y in s || y == x
  {
    if s == [] || Leq(s[|s| - 1].id, x.id) {
    } else {
      InsertedHas(s[..|s| - 1], x, y);
      assert s == s[..|s| - 1] + [s[|s| - 1]];
    }
  }

  lemma {:induction false} InsertedIsSorted(s: seq<Subscription>, x: Subscription)
    requires SortedById(s)
    ensures SortedById(Inserted(s, x))
  {
    if s == [] {
    } else if Leq(s[|s| - 1].id, x.id) {
      forall i | 0 <= i < |s|
        ensures Leq(s[i].id, x.id)
      {
        if i < |s| - 1 {
          LeqIsTransitive(s[i].id, s[|s| - 1].id, x.id);
        }
      }
    } else {
      var front, last := s[..|s| - 1], s[|s| - 1];
      InsertedIsSorted(front, x);
      LeqIsTotal(last.id, x.id);
      forall i | 0 <= i < |Inserted(front, x)|
        ensures Leq(Inserted(front, x)[i].id, last.id)
      {
        InsertedHas(front, x, Inserted(front, x)[i]);
      }
    }
  }

  lemma {:induction false} StableSortedIsSorted(s: seq<Subscription>)
    ensures SortedById(StableSorted(s))
  {
    if s == [] {
    } else {
      StableSortedIsSorted(s[..|s| - 1]);
      InsertedIsSorted(StableSorted(s[..|s| - 1]), s[|s| - 1]);
    }
  }

  lemma {:induction false} StableSortedHas(s: seq<Subscription>, y: Subscription)
    ensures y in StableSorted(s) <==> y in s
    ensures |StableSorted(s)| == |s|
  {
    if s == [] {
    } else {
      StableSortedHas(s[..|s| - 1], y);
      InsertedHas(StableSorted(s[..|s| - 1]), s[|s| - 1], y);
      InsertedLength(StableSorted(s[..|s| - 1]), s[|s| - 1]);
      assert s == s[..|s| - 1] + [s[|s| - 1]];
    }
  }

  lemma {:induction false} InsertedLength(s: seq<Subscription>, x: Subscription)
    ensures |Inserted(s, x)| == |s| + 1
    ensures Inserted(s, x)[|s|] == if s == [] || Leq(s[|s| - 1].id, x.id) then x else s[|s| - 1]
  {
    if s == [] || Leq(s[|s| - 1].id, x.id) {
    } else {
      InsertedLength(s[..|s| - 1], x);
    }
  }

  function FindAny(r: Registry, order: seq<string>, n2Class: string): Option<Subscription> {
    var sorted := StableSorted(Collected(r, order, n2Class));
    if sorted == [] then None else Some(sorted[|sorted| - 1])
  }

  /** `order` walks every UE of the registry once. */
  ghost predicate Walks(order: seq<string>, r: Registry) {
    && (forall ue :: ue in order <==> ue in r)
    && forall i, j :: 0 <= i < j < |order| ==> order[i] != order[j]
  }

  /** Some UE has this subscription, and it matches. */
  predicate Candidate(r: Registry, n2Class: string, s: Subscription) {
    MatchesN2(s, n2Class) && exists ue :: ue in r && s in r[ue]
  }

  lemma {:induction false} MatchesInHas(list: seq<Subscription>, n2Class: string, s: Subscription)
    ensures s in MatchesIn(list, n2Class) <==> s in list && MatchesN2(s, n2Class)
  {
    if list == [] {
    } else {
      MatchesInHas(list[1..], n2Class, s);
      assert list == [list[0]] + list[1..];
    }
  }

  lemma {:induction false} CollectedHas(r: Registry, order: seq<string>, n2Class: string, s: Subscription)
    ensures s in Collected(r, order, n2Class) <==>
            MatchesN2(s, n2Class) && exists ue :: ue in order && s in ListOf(r, ue)
  {
    if order == [] {
    } else {
      MatchesInHas(ListOf(r, order[0]), n2Class, s);
      CollectedHas(r, order[1..], n2Class, s);
      assert order == [order[0]] + order[1..];
    }
  }

  /** Whatever the walk, nothing is found exactly when no UE has a match, and what is found is a match whose id is
      greatest. */
  lemma FindAnyIsGreatest(r: Registry, order: seq<string>, n2Class: string)
    requires Walks(order, r)
    ensures FindAny(r, order, n2Class) == None <==> !exists s :: Candidate(r, n2Class, s)
    ensures FindAny(r, order, n2Class).Some? ==>
              && Candidate(r, n2Class, FindAny(r, order, n2Class).value)
              && forall s :: Candidate(r, n2Class, s) ==> Leq(s.id, FindAny(r, order, n2Class).value.id)
  {
    var all := Collected(r, order, n2Class);
    var sorted := StableSorted(all);
    StableSortedIsSorted(all);
    forall s
      ensures s in sorted <==> Candidate(r, n2Class, s)
    {
      StableSortedHas(all, s);
      CollectedHas(r, order, n2Class, s);
    }
    if sorted != [] {
      var last := sorted[|sorted| - 1];
      assert last in sorted;
      forall s | Candidate(r, n2Class, s)
        ensures Leq(s.id, last.id)
      {
        assert s in sorted;
        LeqIsTotal(last.id, last.id);
      }
    } else {
      forall s
        ensures !Candidate(r, n2Class, s)
      {
        assert s !in sorted;
      }
    }
  }

  /** No two different matches share the greatest id. */
  ghost predicate UniqueGreatest(r: Registry, n2Class: string) {
    forall s, t :: Candidate(r, n2Class, s) && Candidate(r, n2Class, t) && s.id == t.id && IsGreatest(r, n2Class, s) ==>
      s == t
  }

  ghost predicate IsGreatest(r: Registry, n2Class: string, s: Subscription) {
    forall t :: Candidate(r, n2Class, t) ==> Leq(t.id, s.id)
  }

  lemma SameIdIsGreatest(r: Registry, n2Class: string, s: Subscription, t: Subscription)
    requires IsGreatest(r, n2Class, s) && s.id == t.id
    ensures IsGreatest(r, n2Class, t)
  {
  }

  lemma FindAnyAgrees(r: Registry, n2Class: string, order: seq<string>, other: seq<string>)
    requires UniqueGreatest(r, n2Class) && Walks(order, r) && Walks(other, r)
    ensures FindAny(r, order, n2Class) == FindAny(r, other, n2Class)
  {
    hide FindAny, Candidate, Leq, Walks;
    FindAnyIsGreatest(r, order, n2Class);
    FindAnyIsGreatest(r, other, n2Class);
    if FindAny(r, order, n2Class).Some? {
      var s, t := FindAny(r, order, n2Class).value, FindAny(r, other, n2Class).value;
      LeqIsAntisymmetric(s.id, t.id);
    }
  }

  // The converse: two different greatest matches are told apart by the walk.

  lemma {:induction false} CollectedSnoc(r: Registry, order: seq<string>, ue: string, n2Class: string)
    ensures Collected(r, order + [ue], n2Class) == Collected(r, order, n2Class) + MatchesIn(ListOf(r, ue), n2Class)
  {
    if order == [] {
      assert Collected(r, [ue][1..], n2Class) == [];
    } else {
      assert (order + [ue])[1..] == order[1..] + [ue];
      CollectedSnoc(r, order[1..], ue, n2Class);
    }
  }

  lemma {:induction false} MatchesInDistinct(list: seq<Subscription>, n2Class: string)
    requires DistinctIds(list)
    ensures DistinctIds(MatchesIn(list, n2Class))
  {
    if list == [] {
    } else {
      MatchesInDistinct(list[1..], n2Class);
      var rest := MatchesIn(list[1..], n2Class);
      forall j | 0 <= j < |rest|
        ensures rest[j].id != list[0].id
      {
        MatchesInHas(list[1..], n2Class, rest[j]);
        var k :| 0 <= k < |list[1..]| && list[1..][k] == rest[j];
        assert list[k + 1] == rest[j];
      }
    }
  }

  /** An element that no later one equals or exceeds, and no earlier one exceeds, comes out last. */
  lemma {:induction false} LastOfSorted(s: seq<Subscription>, p: nat)
    requires p < |s|
    requires forall j :: 0 <= j < p ==> Leq(s[j].id, s[p].id)
    requires forall j :: p < j < |s| ==> !Leq(s[p].id, s[j].id)
    ensures |StableSorted(s)| == |s| && StableSorted(s)[|s| - 1] == s[p]
  {
    var front, x := s[..|s| - 1], s[|s| - 1];
    StableSortedHas(front, x);
    InsertedLength(StableSorted(front), x);
    if p == |s| - 1 {
      if front != [] {
        var last := StableSorted(front)[|front| - 1];
        StableSortedHas(front, last);
      }
    } else {
      LastOfSorted(front, p);
    }
  }

  lemma LastUeWins(r: Registry, order: seq<string>, ue: string, n2Class: string, y: Subscription)
    requires WellKept(r) && Walks(order + [ue], r) && ue in r && y in r[ue]
    requires MatchesN2(y, n2Class) && IsGreatest(r, n2Class, y)
    ensures FindAny(r, order + [ue], n2Class) == Some(y)
  {
    hide Leq, Walks, MatchesN2, MatchesIn, Collected, StableSorted;
    var before, here := Collected(r, order, n2Class), MatchesIn(r[ue], n2Class);
    var all := before + here;
    CollectedSnoc(r, order, ue, n2Class);
    MatchesInHas(r[ue], n2Class, y);
    var q :| 0 <= q < |here| && here[q] == y;
    var p := |before| + q;
    CollectedBelow(r, order + [ue], n2Class, y);
    assert forall j :: 0 <= j < |all| ==> all[j] in all;
    forall j | p < j < |all|
      ensures !Leq(y.id, all[j].id)
    {
      NoneLaterMatches(r[ue], n2Class, q, j - |before|, y);
    }
    LastOfSorted(all, p);
  }

  lemma CollectedBelow(r: Registry, order: seq<string>, n2Class: string, y: Subscription)
    requires Walks(order, r) && IsGreatest(r, n2Class, y)
    ensures forall s :: s in Collected(r, order, n2Class) ==> Leq(s.id, y.id)
  {
    forall s | s in Collected(r, order, n2Class)
      ensures Leq(s.id, y.id)
    {
      CollectedHas(r, order, n2Class, s);
      assert Candidate(r, n2Class, s);
    }
  }

  lemma NoneLaterMatches(list: seq<Subscription>, n2Class: string, q: nat, j: nat, y: Subscription)
    requires DistinctIds(list) && q < j < |MatchesIn(list, n2Class)| && MatchesIn(list, n2Class)[q] == y
    requires Leq(MatchesIn(list, n2Class)[j].id, y.id)
    ensures !Leq(y.id, MatchesIn(list, n2Class)[j].id)
  {
    MatchesInDistinct(list, n2Class);
    if Leq(y.id, MatchesIn(list, n2Class)[j].id) {
      LeqIsAntisymmetric(y.id, MatchesIn(list, n2Class)[j].id);
    }
  }

  /** Every finite set of names can be listed once each. */
  lemma {:induction false} Listing(names: set<string>) returns (order: seq<string>)
    ensures forall x :: x in order <==> x in names
    ensures forall i, j :: 0 <= i < j < |order| ==> order[i] != order[j]
    decreases names
  {
    if names == {} {
      order := [];
    } else {
      var x :| x in names;
      var rest := Listing(names - {x});
      order := rest + [x];
    }
  }

  lemma WalkEndingAt(r: Registry, ue: string) returns (order: seq<string>)
    requires ue in r
    ensures Walks(order + [ue], r)
  {
    order := Listing(r.Keys - {ue});
    assert forall x :: x in order + [ue] <==> x in order || x == ue;
  }

  /** The answer is the same for every walk of the map if and only if no two different matches share the greatest
      id. */
  lemma FindAnyIsDeterminedIff(r: Registry, n2Class: string)
    requires WellKept(r)
    ensures UniqueGreatest(r, n2Class) <==>
            forall order, other :: Walks(order, r) && Walks(other, r) ==>
              FindAny(r, order, n2Class) == FindAny(r, other, n2Class)
  {
    hide FindAny, Walks, IsGreatest, WellKept, Candidate;
    if UniqueGreatest(r, n2Class) {
      forall order, other | Walks(order, r) && Walks(other, r)
        ensures FindAny(r, order, n2Class) == FindAny(r, other, n2Class)
      {
        FindAnyAgrees(r, n2Class, order, other);
      }
    } else {
      var s, t :| Candidate(r, n2Class, s) && Candidate(r, n2Class, t) && s.id == t.id && IsGreatest(r, n2Class, s)
                  && s != t;
      SameIdIsGreatest(r, n2Class, s, t);
      var p := WalkThatFinds(r, n2Class, s);
      var q := WalkThatFinds(r, n2Class, t);
    }
  }

  /** A match with the greatest id is found by the walk that comes to its UE last. */
  lemma WalkThatFinds(r: Registry, n2Class: string, s: Subscription) returns (order: seq<string>)
    requires WellKept(r) && Candidate(r, n2Class, s) && IsGreatest(r, n2Class, s)
    ensures Walks(order, r) && FindAny(r, order, n2Class) == Some(s)
  {
    hide FindAny, Walks, IsGreatest, WellKept, MatchesN2;
    var ue :| ue in r && s in r[ue];
    var before := WalkEndingAt(r, ue);
    LastUeWins(r, before, ue, n2Class, s);
    order := before + [ue];
  }

  /** Two UEs that use one subscription id: the walk decides between them, the UE walked last wins. */
  lemma SharedIdIsAmbiguous(a: string, b: string, s: Subscription, t: Subscription, n2Class: string)
    requires a != b && s.id == t.id && MatchesN2(s, n2Class) && MatchesN2(t, n2Class)
    ensures var r: Registry := map[a := [s], b := [t]];
            && Walks([a, b], r) && FindAny(r, [a, b], n2Class) == Some(t)
            && Walks([b, a], r) && FindAny(r, [b, a], n2Class) == Some(s)
  {
    var r: Registry := map[a := [s], b := [t]];
    LeqIsTotal(s.id, s.id);
    assert IsGreatest(r, n2Class, s) && IsGreatest(r, n2Class, t);
    assert [a] + [b] == [a, b] && [b] + [a] == [b, a];
    LastUeWins(r, [a], b, n2Class, t);
    LastUeWins(r, [b], a, n2Class, s);
  }

  /** Ids that are distinct across UEs give the unique greatest match. */
  lemma DistinctIdsSuffice(r: Registry, n2Class: string)
    requires WellKept(r)
    requires forall a, b, s, t :: a in r && b in r && s in r[a] && t in r[b] && s.id == t.id ==> a == b
    ensures UniqueGreatest(r, n2Class)
  {
    hide MatchesN2, IsGreatest, WellKept;
    forall s, t | Candidate(r, n2Class, s) && Candidate(r, n2Class, t) && s.id == t.id
      ensures s == t
    {
      var a :| a in r && s in r[a];
      var b :| b in r && t in r[b];
      assert a == b;
      SameIdSameEntry(r, a, s, t);
    }
  }

  lemma SameIdSameEntry(r: Registry, ue: string, s: Subscription, t: Subscription)
    requires WellKept(r) && ue in r && s in r[ue] && t in r[ue] && s.id == t.id
    ensures s == t
  {
    var i :| 0 <= i < |r[ue]| && r[ue][i] == s;
    var j :| 0 <= j < |r[ue]| && r[ue][j] == t;
    assert DistinctIds(r[ue]);
  }

  // ------------------------------------------------------------------------
  // The code of the search
  // ------------------------------------------------------------------------

  method MatchesOf(list: seq<Subscription>, n2Class: string) returns (matches: seq<Subscription>)
    ensures matches == MatchesIn(list, n2Class)
  {
    matches := [];
    for j := 0 to |list|
      invariant matches + MatchesIn(list[j..], n2Class) == MatchesIn(list, n2Class)
    {
      assert list[j..][1..] == list[j + 1..];
      if MatchesN2(list[j], n2Class) {
        matches := matches + [list[j]];
      }
    }
  }

  method FindAnyN2(r: Registry, order: seq<string>, n2Class: string) returns (found: Option<Subscription>)
    requires Walks(order, r)
    ensures found == FindAny(r, order, n2Class)
    ensures found == None <==> !exists s :: Candidate(r, n2Class, s)
    ensures found.Some? ==>
              && Candidate(r, n2Class, found.value)
              && forall s :: Candidate(r, n2Class, s) ==> Leq(s.id, found.value.id)
    ensures found.Some? ==> found.value.n2Class == Some(n2Class) && found.value.n2Uri.Some?
    ensures found.None? ==>
              forall ue, s :: ue in r && s in r[ue] ==> !(s.n2Class == Some(n2Class) && s.n2Uri.Some?)
  {
    hide Candidate, Leq, Walks, MatchesIn;
    var matches := [];
    for i := 0 to |order|
      invariant matches == Collected(r, order[..i], n2Class)
    {
      var here := MatchesOf(ListOf(r, order[i]), n2Class);
      matches := matches + here;
      assert order[..i + 1] == order[..i] + [order[i]];
      CollectedSnoc(r, order[..i], order[i], n2Class);
    }
    assert order[..|order|] == order;
    var sorted := StableSorted(matches);
    found := if sorted == [] then None else Some(sorted[|sorted| - 1]);
    FindAnyIsGreatest(r, order, n2Class);
    FindAnyMatches(r, order, n2Class);
  }

  /** What is found is for the class and has a callback; nothing is found only if no subscription is so. */
  lemma FindAnyMatches(r: Registry, order: seq<string>, n2Class: string)
    requires Walks(order, r)
    ensures var found := FindAny(r, order, n2Class);
            && (found.Some? ==> found.value.n2Class == Some(n2Class) && found.value.n2Uri.Some?)
            && (found.None? ==>
                  forall ue, s :: ue in r && s in r[ue] ==> !(s.n2Class == Some(n2Class) && s.n2Uri.Some?))
  {
    hide FindAny, Walks;
    FindAnyIsGreatest(r, order, n2Class);
    if FindAny(r, order, n2Class).None? {
      forall ue, s | ue in r && s in r[ue]
        ensures !(s.n2Class == Some(n2Class) && s.n2Uri.Some?)
      {
        assert !Candidate(r, n2Class, s);
      }
    }
  }
}
