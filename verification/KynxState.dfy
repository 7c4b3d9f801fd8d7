/** runtime/kynx.c: the admission state that active leases drive.

    The functions give the thresholds of a pool and the level that one update leaves; a level is
    entered above its threshold and left at 3/4 of it. `Agrees` says which levels fit a number of active
    leases: the two ranges of neighbouring levels overlap, and the level in the overlap depends on where
    the number came from.

    `Admission` has the counter, the state and the siege flag of the C file, and its methods are proved
    to keep the three in agreement through every create and destroy.

    Leases are created and destroyed one at a time here; the counter itself is atomic in the runtime. */
module KynxState {

  datatype Level = Stable | Shaped | Guarded | Siege

  /** Entry thresholds of the three tiers. */
  datatype Tiers = Tiers(shaped: int, guarded: int, siege: int)

  /** kynx_pool_thresholds. */
  function Thresholds(poolSize: int): Tiers {
    var pool0 := if poolSize <= 0 then 512 else poolSize;
    var pool := if pool0 < 16 then 16 else pool0;
    var shaped := if pool / 16 < 1 then 1 else pool / 16;
    var guarded := if pool / 4 <= shaped then shaped + 1 else pool / 4;
    Tiers(shaped, guarded, if pool <= guarded then guarded + 1 else pool)
  }

  /** The level one call of kynx_update_admission_state leaves. */
  function Update(level: Level, active: int, t: Tiers): Level {
    match level
    case Stable => if active > t.shaped then Shaped else Stable
    case Shaped => if active > t.guarded then Guarded else if active <= t.shaped * 3 / 4 then Stable else Shaped
    case Guarded => if active > t.siege then Siege else if active <= t.guarded * 3 / 4 then Shaped else Guarded
    case Siege => if active <= t.siege * 3 / 4 then Guarded else Siege
  }

  function Rank(l: Level): int {
    match l case Stable => 0 case Shaped => 1 case Guarded => 2 case Siege => 3
  }

  const INT_MAX: int := 0x7FFF_FFFF

  /** The level agrees with the number of active leases. */
  predicate Agrees(level: Level, active: int, t: Tiers) {
    match level
    case Stable => active <= t.shaped
    case Shaped => t.shaped * 3 / 4 < active <= t.guarded
    case Guarded => t.guarded * 3 / 4 < active <= t.siege
    case Siege => t.siege * 3 / 4 < active
  }

  /** The tiers are strictly ordered, each release level lies above the tier below, and 3 * siege fits an int. */
  lemma {:induction false} ThresholdsOrdered(poolSize: int)
    requires poolSize <= INT_MAX / 3
    ensures var t := Thresholds(poolSize);
            && 0 < t.shaped < t.guarded < t.siege && t.siege * 3 <= INT_MAX
            && t.shaped * 3 / 4 < t.shaped <= t.guarded * 3 / 4 && t.guarded <= t.siege * 3 / 4
  {
  }

  /** One lease more or less, followed by its update, keeps level and count in agreement. */
  lemma {:induction false} LeaseStepAgrees(level: Level, active: int, delta: int, poolSize: int)
    requires poolSize <= INT_MAX / 3 && (delta == 1 || delta == -1)
    requires Agrees(level, active, Thresholds(poolSize))
    ensures Agrees(Update(level, active + delta, Thresholds(poolSize)), active + delta, Thresholds(poolSize))
  {
    ThresholdsOrdered(poolSize);
  }

  /** A level whose update at this count changes nothing. */
  predicate Settled(level: Level, active: int, t: Tiers) {
    Update(level, active, t) == level
  }

  /** From any level, at a fixed count, three updates settle, each moves at most one tier, and none turns back. */
  lemma {:induction false} SettlesInThree(l0: Level, active: int, poolSize: int)
    requires poolSize <= INT_MAX / 3
    ensures var t := Thresholds(poolSize);
            var l1 := Update(l0, active, t);
            var l2 := Update(l1, active, t);
            var l3 := Update(l2, active, t);
            && Settled(l3, active, t) && Agrees(l3, active, t)
            && (Rank(l0) <= Rank(l1) <= Rank(l2) <= Rank(l3) || Rank(l0) >= Rank(l1) >= Rank(l2) >= Rank(l3))
            && -1 <= Rank(l1) - Rank(l0) <= 1 && -1 <= Rank(l2) - Rank(l1) <= 1 && -1 <= Rank(l3) - Rank(l2) <= 1
  {
    ThresholdsOrdered(poolSize);
  }

  /** Agreement is exactly what an update leaves alone. */
  lemma {:induction false} SettledIffAgrees(level: Level, active: int, poolSize: int)
    requires poolSize <= INT_MAX / 3
    ensures Settled(level, active, Thresholds(poolSize)) <==> Agrees(level, active, Thresholds(poolSize))
  {
    ThresholdsOrdered(poolSize);
  }

  /** The tiers are a sixteenth, a quarter and the whole of the pool, rounded down, from 16 on; a smaller pool counts as 16
      and one that is not positive as 512. */
  lemma {:induction false} ThresholdsAre(poolSize: int)
    ensures var t := Thresholds(poolSize);
            var pool := if poolSize <= 0 then 512 else if poolSize < 16 then 16 else poolSize;
            && 16 * t.shaped <= pool < 16 * t.shaped + 16
            && 4 * t.guarded <= pool < 4 * t.guarded + 4
            && t.siege == pool
  {
  }

  /** The historical scale. */
  lemma {:induction false} DefaultPool()
    ensures Thresholds(0) == Thresholds(512) == Tiers(32, 128, 512)
  {
  }

  class Admission {
    const poolSize: int
    var active: int
    var level: Level
    var siegeActive: bool
    var transitions: nat

    ghost predicate Valid()
      reads this
    {
      && poolSize <= INT_MAX / 3
      && Agrees(level, active, Thresholds(poolSize)) && siegeActive == level.Siege?
    }

    /** orbit_kynx_init. */
    constructor (poolSize: int)
      requires poolSize <= INT_MAX / 3
      ensures Valid() && active == 0 && level == Stable
    {
      this.poolSize := poolSize;
      active, level, siegeActive, transitions := 0, Stable, false, 0;
      new;
      ThresholdsOrdered(poolSize);
    }

    /** kynx_transition_state. */
    method Transition(next: Level)
      modifies this`level, this`siegeActive, this`transitions
      ensures level == next
      ensures siegeActive == if next != old(level) then next.Siege? else old(siegeActive)
      ensures transitions == old(transitions) + if next != old(level) then 1 else 0
    {
      if level != next {
        level := next;
        siegeActive := next.Siege?;
        transitions := transitions + 1;
      }
    }

    /** kynx_update_admission_state. */
    method UpdateAdmission()
      modifies this`level, this`siegeActive, this`transitions
      ensures level == Update(old(level), active, Thresholds(poolSize))
      ensures old(siegeActive == level.Siege?) ==> siegeActive == level.Siege?
      ensures transitions == old(transitions) + if level != old(level) then 1 else 0
    {
      var t := Thresholds(poolSize);
      match level
      case Stable => if active > t.shaped { Transition(Shaped); }
      case Shaped =>
        if active > t.guarded { Transition(Guarded); } else if active <= t.shaped * 3 / 4 { Transition(Stable); }
      case Guarded =>
        if active > t.siege { Transition(Siege); } else if active <= t.guarded * 3 / 4 { Transition(Shaped); }
      case Siege => if active <= t.siege * 3 / 4 { Transition(Guarded); }
    }

    /** The counter and state part of orbit_kynx_lease_create_for_route. */
    method LeaseCreate()
      requires Valid()
      modifies this
      ensures Valid() && active == old(active) + 1
      ensures level == Update(old(level), active, Thresholds(poolSize))
    {
      LeaseStepAgrees(level, active, 1, poolSize);
      active := active + 1;
      UpdateAdmission();
    }

    /** The counter and state part of orbit_kynx_lease_destroy. */
    method LeaseDestroy()
      requires Valid()
      modifies this
      ensures Valid() && active == old(active) - 1
      ensures level == Update(old(level), active, Thresholds(poolSize))
    {
      LeaseStepAgrees(level, active, -1, poolSize);
      active := active - 1;
      UpdateAdmission();
    }
  }
}
