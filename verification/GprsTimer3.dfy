/** GPRS Timer 3 (section 10.5.7.4a of TS 24.008): a 3-bit unit and a 5-bit value. */
module GprsTimer3 {

  datatype Timer = Timer(unit: nat, value: nat)

  const DEACTIVATED := 7
  const ONE_MINUTE := 5

  /** Seconds per tick of each unit code of Table 10.5.163b; the deactivated unit has none. */
  function Tick(unit: nat): nat {
    match unit
    case 0 => 600
    case 1 => 3600
    case 2 => 36000
    case 3 => 2
    case 4 => 30
    case 5 => 60
    case 6 => 1152000
    case _ => 0
  }

  const MINUTE := 60
  const HOUR := 60 * MINUTE

  /** The units are ten minutes, one hour, ten hours, two seconds, thirty seconds, one minute and 320 hours. */
  lemma UnitsAreNamed()
    ensures Tick(0) == 10 * MINUTE && Tick(1) == HOUR && Tick(2) == 10 * HOUR && Tick(3) == 2 && Tick(4) == 30
    ensures Tick(5) == MINUTE && Tick(6) == 320 * HOUR
  {
  }

  /** The duration a receiver reads: none for the deactivated unit. */
  function Seconds(t: Timer): nat {
    t.value * Tick(t.unit)
  }

  /** The timer is active, in range and lasts exactly `seconds`. */
  predicate Expresses(t: Timer, seconds: nat) {
    t.unit < DEACTIVATED && 1 <= t.value <= 31 && Seconds(t) == seconds
  }

  /** The encoder's table, coarsest unit first. */
  const UNITS: seq<(nat, nat)> :=
    [(6, 1152000), (2, 36000), (1, 3600), (0, 600), (5, 60), (4, 30), (3, 2)]

  lemma ExpressesIsDivision(t: Timer, seconds: nat)
    requires t.unit < DEACTIVATED
    ensures Expresses(t, seconds) ==>
              seconds % Tick(t.unit) == 0 && seconds / Tick(t.unit) == t.value && 1 <= seconds / Tick(t.unit) <= 31
    ensures seconds % Tick(t.unit) == 0 && seconds / Tick(t.unit) == t.value && 1 <= t.value <= 31 ==>
              Expresses(t, seconds)
  {
  }

  /** No timer in the unit of row `k` expresses the duration. */
  ghost predicate RowFails(k: nat, seconds: nat)
    requires k < |UNITS|
  {
    forall u: Timer :: u.unit == UNITS[k].0 ==> !Expresses(u, seconds)
  }

  lemma EveryUnitIsARow(unit: nat)
    requires unit < DEACTIVATED
    ensures exists k :: 0 <= k < |UNITS| && UNITS[k].0 == unit && UNITS[k].1 == Tick(unit)
  {
    var k := [3, 2, 1, 6, 5, 4, 0][unit];
    assert UNITS[k].0 == unit && UNITS[k].1 == Tick(unit);
  }

  lemma RowsAreCoarsestFirst(i: nat, j: nat)
    requires i <= j < |UNITS|
    ensures UNITS[j].0 < DEACTIVATED && UNITS[j].1 == Tick(UNITS[j].0) && 0 < UNITS[j].1 <= UNITS[i].1
  {
  }

  /** Zero gives the deactivated timer. A duration that some unit expresses is encoded exactly, in the coarsest
      such unit. Any other duration becomes nine minutes, and that is the only way the duration can change. */
  method Encode(seconds: nat) returns (t: Timer)
    ensures seconds == 0 ==> t == Timer(DEACTIVATED, 0)
    ensures (exists u :: Expresses(u, seconds)) ==>
              && Expresses(t, seconds)
              && forall u :: Expresses(u, seconds) ==> Tick(u.unit) <= Tick(t.unit)
    ensures seconds > 0 && !(exists u :: Expresses(u, seconds)) ==> t == Timer(ONE_MINUTE, 9) && Seconds(t) == 540
    ensures seconds > 0 ==> (Seconds(t) == seconds <==> exists u :: Expresses(u, seconds))
  {
    if seconds == 0 {
      return Timer(DEACTIVATED, 0);
    }
    for k := 0 to |UNITS|
      invariant forall i :: 0 <= i < k ==> RowFails(i, seconds)
    {
      var (unit, tick) := UNITS[k];
      RowsAreCoarsestFirst(k, k);
      if seconds % tick == 0 {
        var ticks := seconds / tick;
        if 1 <= ticks <= 31 {
          t := Timer(unit, ticks);
          ExpressesIsDivision(t, seconds);
          CoarsestRow(k, t, seconds);
          return;
        }
      }
      forall u: Timer | u.unit == unit
        ensures !Expresses(u, seconds)
      {
        ExpressesIsDivision(u, seconds);
      }
    }
    NoRowNoTimer(seconds);
    t := Timer(ONE_MINUTE, 9);
    assert Seconds(t) == seconds ==> Expresses(t, seconds);
  }

  lemma NoRowNoTimer(seconds: nat)
    requires forall k :: 0 <= k < |UNITS| ==> RowFails(k, seconds)
    ensures forall u :: !Expresses(u, seconds)
  {
    forall u: Timer
      ensures !Expresses(u, seconds)
    {
      if u.unit < DEACTIVATED {
        EveryUnitIsARow(u.unit);
        var k :| 0 <= k < |UNITS| && UNITS[k].0 == u.unit;
        assert RowFails(k, seconds);
      }
    }
  }

  lemma CoarsestRow(k: nat, t: Timer, seconds: nat)
    requires k < |UNITS| && t.unit == UNITS[k].0 && Expresses(t, seconds)
    requires forall i :: 0 <= i < k ==> RowFails(i, seconds)
    ensures forall u :: Expresses(u, seconds) ==> Tick(u.unit) <= Tick(t.unit)
  {
    forall u | Expresses(u, seconds)
      ensures Tick(u.unit) <= Tick(t.unit)
    {
      EveryUnitIsARow(u.unit);
      var j :| 0 <= j < |UNITS| && UNITS[j].0 == u.unit && UNITS[j].1 == Tick(u.unit);
      assert !RowFails(j, seconds);
      assert k <= j;
      RowsAreCoarsestFirst(k, j);
      RowsAreCoarsestFirst(k, k);
    }
  }
}
