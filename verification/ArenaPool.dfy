/** runtime/arena_pool.c: threads that claim pooled arenas with compare-and-swap. */
module ArenaPool {
  /* Every shared load, store, compare-and-swap and counter update is a step; any thread may move next. Arenas are
     handles, 0 being NULL. A thread releases only an arena it holds. `lost` records the slots whose arena is NULL because
     its creation failed at start-up and which were claimed: the caller gets NULL and release(NULL) returns at once, so
     nobody frees them. */
  import opened Basics

  type Handle = nat

  datatype Pc =
    | Out
    | Scan(i: nat)                                        // acquire, about to try slot i
    | Claimed(i: nat)                                     // slot claimed, active_count not yet raised
    | Counted(i: nat)                                     // raised, statistics not yet written
    | Resetting(i: nat)                                   // about to reset and return the arena
    | Spilling                                            // pool exhausted, about to create an arena
    | Holding(h: Handle, slot: Option<nat>)               // owns arena h, pooled in `slot` or not pooled
    | Seeking(h: Handle, slot: Option<nat>, j: nat)       // release, about to compare slot j
    | Leaving(i: nat, h: Handle)                          // found, active_count not yet lowered
    | Left(i: nat, h: Handle)                             // lowered, statistics not yet written
    | Wiping(i: nat, h: Handle)                           // about to reset
    | Freeing(i: nat, h: Handle)                          // about to store in_use[i] = 0
    | Destroying(h: Handle)                               // not pooled, about to destroy

  datatype Pool = Pool(arenas: seq<Handle>, inUse: seq<bool>, active: int, stats: int,
                       threads: seq<Pc>, lost: set<nat>)

  /** The slot a thread has claimed and not yet freed. */
  function SlotOf(pc: Pc): Option<nat> {
    match pc
    case Claimed(i) => Some(i)
    case Counted(i) => Some(i)
    case Resetting(i) => Some(i)
    case Holding(_, slot) => slot
    case Seeking(_, slot, _) => slot
    case Leaving(i, _) => Some(i)
    case Left(i, _) => Some(i)
    case Wiping(i, _) => Some(i)
    case Freeing(i, _) => Some(i)
    case _ => None
  }

  /** The overflow arena a thread holds. */
  function SpillOf(pc: Pc): Option<Handle> {
    match pc
    case Holding(h, None) => Some(h)
    case Seeking(h, None, _) => Some(h)
    case Destroying(h) => Some(h)
    case _ => None
  }

  /** The thread is between a change of its slot and the matching change of active_count. */
  function MidStep(pc: Pc): nat {
    match pc
    case Claimed(_) => 1
    case Left(_, _) => 1
    case Wiping(_, _) => 1
    case Freeing(_, _) => 1
    case _ => 0
  }

  // ----- steps -----

  /** The next step of thread `t`; `created` is the handle a new overflow arena would get. */
  function Step(p: Pool, t: nat, created: Handle): Pool
    requires t < |p.threads| && |p.inUse| == |p.arenas| && PcFits(p, p.threads[t])
  {
    var n := |p.arenas|;
    match p.threads[t]
    case Out => Move(p, t, Scan(0))
    case Scan(i) =>
      if i >= n then Move(p, t, Spilling)
      else if p.inUse[i] then Move(p, t, Scan(i + 1))
      else Move(p, t, Claimed(i)).(inUse := p.inUse[i := true])
    case Claimed(i) => Move(p, t, Counted(i)).(active := p.active + 1)
    case Counted(i) => Move(p, t, Resetting(i)).(stats := p.active)
    case Resetting(i) =>
      if p.arenas[i] == 0 then Move(p, t, Out).(lost := p.lost + {i})
      else Move(p, t, Holding(p.arenas[i], Some(i)))
    case Spilling => if created == 0 then Move(p, t, Out) else Move(p, t, Holding(created, None))
    case Holding(h, slot) => Move(p, t, Seeking(h, slot, 0))
    case Seeking(h, slot, j) =>
      if j >= n then Move(p, t, Destroying(h))
      else if p.arenas[j] == h then Move(p, t, Leaving(j, h))
      else Move(p, t, Seeking(h, slot, j + 1))
    case Leaving(i, h) => Move(p, t, Left(i, h)).(active := p.active - 1)
    case Left(i, h) => Move(p, t, Wiping(i, h)).(stats := p.active)
    case Wiping(i, h) => Move(p, t, Freeing(i, h))
    case Freeing(i, h) => Move(p, t, Out).(inUse := p.inUse[i := false])
    case Destroying(h) => Move(p, t, Out)
  }

  function Move(p: Pool, t: nat, pc: Pc): Pool
    requires t < |p.threads|
  {
    p.(threads := p.threads[t := pc])
  }

  // ----- invariants -----

  /** What a thread's position says about its own slot and arena. */
  predicate PcFits(p: Pool, pc: Pc) {
    && (SlotOf(pc).Some? ==> SlotOf(pc).value < |p.arenas|)
    && (match pc
        case Holding(h, slot) => h != 0 && HandleFits(p, h, slot)
        case Seeking(h, slot, j) => h != 0 && HandleFits(p, h, slot) && (slot.Some? ==> j <= slot.value)
        case Leaving(i, h) => h != 0 && p.arenas[i] == h
        case Left(i, h) => h != 0 && p.arenas[i] == h
        case Wiping(i, h) => h != 0 && p.arenas[i] == h
        case Freeing(i, h) => h != 0 && p.arenas[i] == h
        case Destroying(h) => h != 0 && h !in p.arenas
        case _ => true)
  }

  predicate HandleFits(p: Pool, h: Handle, slot: Option<nat>) {
    if slot.Some? then slot.value < |p.arenas| && p.arenas[slot.value] == h else h !in p.arenas
  }

  predicate DistinctArenas(p: Pool) {
    forall i, j | 0 <= i < j < |p.arenas| && p.arenas[i] != 0 :: p.arenas[i] != p.arenas[j]
  }

  predicate Owns(p: Pool, t: int, i: int) {
    0 <= t < |p.threads| && SlotOf(p.threads[t]).Some? && SlotOf(p.threads[t]).value == i
  }

  /** A slot is in use exactly when one thread has it or it is lost. */
  ghost predicate SlotsOk(p: Pool) {
    && |p.inUse| == |p.arenas|
    && (forall t, i | Owns(p, t, i) :: 0 <= i < |p.inUse| && p.inUse[i] && i !in p.lost)
    && (forall t, u, i | Owns(p, t, i) && Owns(p, u, i) :: t == u)
    && (forall i: nat | i < |p.inUse| && p.inUse[i] :: i in p.lost || exists t :: Owns(p, t, i))
    && (forall i | i in p.lost :: i < |p.inUse| && p.inUse[i] && p.arenas[i] == 0)
  }

  ghost predicate ThreadsOk(p: Pool) {
    && (forall t | 0 <= t < |p.threads| :: PcFits(p, p.threads[t]))
    && (forall t, u | 0 <= t < u < |p.threads| && SpillOf(p.threads[t]).Some? :: SpillOf(p.threads[t]) != SpillOf(p.threads[u]))
  }

  function InUseCount(inUse: seq<bool>): nat {
    if inUse == [] then 0 else (if inUse[0] then 1 else 0) + InUseCount(inUse[1..])
  }

  function MidCount(threads: seq<Pc>): nat {
    if threads == [] then 0 else MidStep(threads[0]) + MidCount(threads[1..])
  }

  /** active_count is the number of claimed slots less the threads caught between the two updates. */
  predicate CountOk(p: Pool) {
    p.active == InUseCount(p.inUse) - MidCount(p.threads)
  }

  ghost predicate PoolOk(p: Pool) {
    DistinctArenas(p) && SlotsOk(p) && ThreadsOk(p) && CountOk(p)
  }

  /** After orbit_arena_pool_init: nothing claimed, no thread inside. */
  predicate Initial(p: Pool) {
    && DistinctArenas(p) && |p.inUse| == |p.arenas|
    && (forall i | 0 <= i < |p.inUse| :: !p.inUse[i])
    && (forall t | 0 <= t < |p.threads| :: p.threads[t] == Out)
    && p.active == 0 && p.lost == {}
  }

  /** A new arena's handle is not one that is still in use. */
  predicate FreshHandle(p: Pool, h: Handle) {
    h != 0 ==> h !in p.arenas && forall t | 0 <= t < |p.threads| :: SpillOf(p.threads[t]) != Some(h)
  }

  // ----- counting -----

  lemma {:induction false} InUseSet(inUse: seq<bool>, i: nat, b: bool)
    requires i < |inUse|
    ensures InUseCount(inUse[i := b]) == InUseCount(inUse) - (if inUse[i] then 1 else 0) + (if b then 1 else 0)
  {
    if i == 0 {
      assert inUse[i := b][1..] == inUse[1..];
    } else {
      assert inUse[i := b][1..] == inUse[1..][i - 1 := b];
      InUseSet(inUse[1..], i - 1, b);
    }
  }

  lemma {:induction false} MidSet(threads: seq<Pc>, t: nat, pc: Pc)
    requires t < |threads|
    ensures MidCount(threads[t := pc]) == MidCount(threads) - MidStep(threads[t]) + MidStep(pc)
  {
    hide MidStep;
    if t == 0 {
      assert threads[t := pc][1..] == threads[1..];
    } else {
      assert threads[t := pc][1..] == threads[1..][t - 1 := pc];
      MidSet(threads[1..], t - 1, pc);
    }
  }

  lemma {:induction false} CountKeeps(p: Pool, t: nat, created: Handle)
    requires t < |p.threads| && SlotsOk(p) && ThreadsOk(p) && CountOk(p)
    ensures PcFits(p, p.threads[t]) && CountOk(Step(p, t, created))
  {
    var p' := Step(p, t, created);
    MidSet(p.threads, t, p'.threads[t]);
    assert p'.threads == p.threads[t := p'.threads[t]];
    match p.threads[t]
    case Scan(i) => if i < |p.arenas| && !p.inUse[i] { InUseSet(p.inUse, i, true); }
    case Freeing(i, h) =>
      assert Owns(p, t, i);
      InUseSet(p.inUse, i, false);
    case _ =>
  }

  lemma {:induction false} InitialOk(p: Pool)
    requires Initial(p)
    ensures PoolOk(p)
  {
    NoneInUse(p.inUse);
    NoneMid(p.threads);
  }

  lemma {:induction false} NoneInUse(inUse: seq<bool>)
    requires forall i | 0 <= i < |inUse| :: !inUse[i]
    ensures InUseCount(inUse) == 0
  {
    if inUse != [] { NoneInUse(inUse[1..]); }
  }

  lemma {:induction false} NoneMid(threads: seq<Pc>)
    requires forall t | 0 <= t < |threads| :: threads[t] == Out
    ensures MidCount(threads) == 0
  {
    if threads != [] { NoneMid(threads[1..]); }
  }

  // ----- ownership -----

  /** The thread moves on with the slot it has, if any. */
  lemma {:induction false} SameSlot(p: Pool, p': Pool, t: nat)
    requires t < |p.threads| && SlotsOk(p)
    requires |p'.threads| == |p.threads| && p'.threads == p.threads[t := p'.threads[t]]
    requires p'.arenas == p.arenas && p'.inUse == p.inUse && p'.lost == p.lost
    requires SlotOf(p'.threads[t]) == SlotOf(p.threads[t])
    ensures SlotsOk(p')
  {
    hide SlotOf;
    forall u, i ensures Owns(p', u, i) == Owns(p, u, i) { }
    forall i: nat | i < |p'.inUse| && p'.inUse[i] && i !in p'.lost ensures exists u :: Owns(p', u, i) {
      var u :| Owns(p, u, i);
      assert Owns(p', u, i);
    }
  }

  lemma {:induction false} ClaimSlot(p: Pool, t: nat, i: nat)
    requires t < |p.threads| && SlotsOk(p) && i < |p.arenas| && !p.inUse[i] && SlotOf(p.threads[t]) == None
    ensures SlotsOk(Move(p, t, Claimed(i)).(inUse := p.inUse[i := true]))
  {
    var p' := Move(p, t, Claimed(i)).(inUse := p.inUse[i := true]);
    forall u, k ensures Owns(p', u, k) <==> (if u == t then k == i else Owns(p, u, k)) { }
    forall k: nat | k < |p'.inUse| && p'.inUse[k] && k !in p'.lost ensures exists u :: Owns(p', u, k) {
      if k == i { assert Owns(p', t, i); } else {
        var u :| Owns(p, u, k);
        assert Owns(p', u, k);
      }
    }
  }

  lemma {:induction false} FreeSlot(p: Pool, t: nat, i: nat)
    requires t < |p.threads| && SlotsOk(p) && SlotOf(p.threads[t]) == Some(i)
    ensures i < |p.inUse| && SlotsOk(Move(p, t, Out).(inUse := p.inUse[i := false]))
  {
    assert Owns(p, t, i);
    var p' := Move(p, t, Out).(inUse := p.inUse[i := false]);
    forall u, k ensures Owns(p', u, k) <==> u != t && Owns(p, u, k) { }
    forall k: nat | k < |p'.inUse| && p'.inUse[k] && k !in p'.lost ensures exists u :: Owns(p', u, k) {
      var u :| Owns(p, u, k);
      assert Owns(p', u, k);
    }
  }

  lemma {:induction false} LoseSlot(p: Pool, t: nat, i: nat)
    requires t < |p.threads| && SlotsOk(p) && SlotOf(p.threads[t]) == Some(i) && i < |p.arenas| && p.arenas[i] == 0
    ensures SlotsOk(Move(p, t, Out).(lost := p.lost + {i}))
  {
    assert Owns(p, t, i);
    var p' := Move(p, t, Out).(lost := p.lost + {i});
    forall u, k ensures Owns(p', u, k) <==> u != t && Owns(p, u, k) { }
    forall k: nat | k < |p'.inUse| && p'.inUse[k] && k !in p'.lost ensures exists u :: Owns(p', u, k) {
      var u :| Owns(p, u, k);
      assert Owns(p', u, k);
    }
  }

  lemma {:induction false} SlotsKeep(p: Pool, t: nat, created: Handle)
    requires t < |p.threads| && DistinctArenas(p) && SlotsOk(p) && ThreadsOk(p)
    ensures PcFits(p, p.threads[t]) && SlotsOk(Step(p, t, created))
  {
    hide SlotsOk;
    assert |p.inUse| == |p.arenas| by { SameLength(p); }
    match p.threads[t]
    case Scan(i) =>
      if i < |p.arenas| && !p.inUse[i] { ClaimSlot(p, t, i); } else { SameSlot(p, Step(p, t, created), t); }
    case Resetting(i) =>
      if p.arenas[i] == 0 { LoseSlot(p, t, i); } else { SameSlot(p, Step(p, t, created), t); }
    case Seeking(h, slot, j) =>
      if j < |p.arenas| && p.arenas[j] == h { FoundOwnSlot(p, h, slot, j); }
      SameSlot(p, Step(p, t, created), t);
    case Freeing(i, h) => FreeSlot(p, t, i);
    case _ => SameSlot(p, Step(p, t, created), t);
  }

  lemma {:induction false} SameLength(p: Pool)
    requires SlotsOk(p) || PoolOk(p)
    ensures |p.inUse| == |p.arenas|
  {
  }

  /** The search of release stops at the slot the arena was claimed from. */
  lemma {:induction false} FoundOwnSlot(p: Pool, h: Handle, slot: Option<nat>, j: nat)
    requires DistinctArenas(p) && h != 0 && HandleFits(p, h, slot) && j < |p.arenas| && p.arenas[j] == h
    ensures slot == Some(j)
  {
  }

  lemma {:induction false} ThreadsKeep(p: Pool, t: nat, created: Handle)
    requires t < |p.threads| && DistinctArenas(p) && |p.inUse| == |p.arenas| && ThreadsOk(p) && FreshHandle(p, created)
    ensures PcFits(p, p.threads[t]) && ThreadsOk(Step(p, t, created))
  {
    hide PcFits, SpillOf;
    var p' := Step(p, t, created);
    OwnSpill(p, t, created);
    forall u | 0 <= u < |p.threads| ensures PcFits(p', p'.threads[u]) {
      if u == t { OwnFits(p, t, created); } else { FitsSame(p, p', p.threads[u]); }
    }
  }

  lemma {:induction false} FitsSame(p: Pool, p': Pool, pc: Pc)
    requires PcFits(p, pc) && p'.arenas == p.arenas
    ensures PcFits(p', pc)
  {
  }

  lemma {:induction false} OwnFits(p: Pool, t: nat, created: Handle)
    requires t < |p.threads| && DistinctArenas(p) && |p.inUse| == |p.arenas| && PcFits(p, p.threads[t])
    requires FreshHandle(p, created)
    ensures PcFits(Step(p, t, created), Step(p, t, created).threads[t])
  {
  }

  /** A thread keeps its overflow arena, gives it up, or gets a fresh one. */
  lemma {:induction false} OwnSpill(p: Pool, t: nat, created: Handle)
    requires t < |p.threads| && |p.inUse| == |p.arenas| && PcFits(p, p.threads[t])
    ensures var after := SpillOf(Step(p, t, created).threads[t]);
            after == None || after == SpillOf(p.threads[t]) || (after == Some(created) && created != 0)
    ensures |Step(p, t, created).threads| == |p.threads|
    ensures forall u | 0 <= u < |p.threads| && u != t :: Step(p, t, created).threads[u] == p.threads[u]
  {
  }

  // ----- all interleavings -----

  datatype Turn = Turn(t: nat, created: Handle)

  ghost predicate Reaches(p: Pool, schedule: seq<Turn>, p': Pool)
    decreases |schedule|
  {
    if schedule == [] then p' == p
    else
      && PoolOk(p) && schedule[0].t < |p.threads| && FreshHandle(p, schedule[0].created)
      && Reaches(Step(p, schedule[0].t, schedule[0].created), schedule[1..], p')
  }

  lemma {:induction false} StepKeeps(p: Pool, t: nat, created: Handle)
    requires PoolOk(p) && t < |p.threads| && FreshHandle(p, created)
    ensures PcFits(p, p.threads[t]) && PoolOk(Step(p, t, created))
  {
    hide SlotsOk, ThreadsOk, CountOk, FreshHandle;
    SameLength(p);
    SlotsKeep(p, t, created);
    ThreadsKeep(p, t, created);
    CountKeeps(p, t, created);
  }

  lemma {:induction false} InterleavingsKeep(p: Pool, schedule: seq<Turn>, p': Pool)
    requires PoolOk(p) && Reaches(p, schedule, p')
    ensures PoolOk(p')
    decreases |schedule|
  {
    hide PoolOk;
    if schedule != [] {
      StepKeeps(p, schedule[0].t, schedule[0].created);
      SameLength(p);
      InterleavingsKeep(Step(p, schedule[0].t, schedule[0].created), schedule[1..], p');
    }
  }

  /** The arena a thread holds, resets or is giving back. */
  function Uses(p: Pool, t: nat): Option<Handle>
    requires t < |p.threads|
  {
    match p.threads[t]
    case Resetting(i) => if i < |p.arenas| && p.arenas[i] != 0 then Some(p.arenas[i]) else None
    case Holding(h, _) => Some(h)
    case Seeking(h, _, _) => Some(h)
    case Leaving(_, h) => Some(h)
    case Left(_, h) => Some(h)
    case Wiping(_, h) => Some(h)
    case Freeing(_, h) => Some(h)
    case Destroying(h) => Some(h)
    case _ => None
  }

  /** Under every interleaving an arena is held, reset or destroyed by at most one thread at a time. */
  lemma {:induction false} ArenaHasOneUser(start: Pool, schedule: seq<Turn>, p: Pool, t: nat, u: nat)
    requires Initial(start) && Reaches(start, schedule, p)
    requires t < |p.threads| && u < |p.threads| && t != u && Uses(p, t).Some?
    ensures Uses(p, t) != Uses(p, u)
  {
    InitialOk(start);
    InterleavingsKeep(start, schedule, p);
    assert PcFits(p, p.threads[t]) && PcFits(p, p.threads[u]);
    UserOwns(p, t);
    if Uses(p, u).Some? { UserOwns(p, u); }
  }

  lemma {:induction false} UserOwns(p: Pool, t: nat)
    requires t < |p.threads| && Uses(p, t).Some? && PcFits(p, p.threads[t])
    ensures var h := Uses(p, t).value;
            h != 0 && if SlotOf(p.threads[t]).Some?
                      then var i := SlotOf(p.threads[t]).value; i < |p.arenas| && p.arenas[i] == h && Owns(p, t, i)
                      else h !in p.arenas && SpillOf(p.threads[t]) == Some(h)
  {
  }

  /** With no thread mid-step the counter is exact. */
  lemma {:induction false} QuietCountExact(start: Pool, schedule: seq<Turn>, p: Pool)
    requires Initial(start) && Reaches(start, schedule, p)
    ensures p.active == InUseCount(p.inUse) - MidCount(p.threads)
    ensures (forall t | 0 <= t < |p.threads| :: MidStep(p.threads[t]) == 0) ==> p.active == InUseCount(p.inUse)
  {
    InitialOk(start);
    InterleavingsKeep(start, schedule, p);
    if forall t | 0 <= t < |p.threads| :: MidStep(p.threads[t]) == 0 { QuietMid(p.threads); }
  }

  lemma {:induction false} QuietMid(threads: seq<Pc>)
    requires forall t | 0 <= t < |threads| :: MidStep(threads[t]) == 0
    ensures MidCount(threads) == 0
  {
    if threads != [] { QuietMid(threads[1..]); }
  }

  /** A slot is lost exactly when it is in use and no thread has it; its arena is NULL then. */
  lemma {:induction false} LostExactly(start: Pool, schedule: seq<Turn>, p: Pool, i: nat)
    requires Initial(start) && Reaches(start, schedule, p)
    ensures i in p.lost <==> i < |p.inUse| && p.inUse[i] && !exists t :: Owns(p, t, i)
    ensures i in p.lost ==> i < |p.arenas| && p.arenas[i] == 0
  {
    InitialOk(start);
    InterleavingsKeep(start, schedule, p);
  }

  /** Nobody gets a lost slot back, whatever the threads do afterwards. */
  lemma {:induction false} LostForGood(p: Pool, schedule: seq<Turn>, p': Pool, i: nat)
    requires PoolOk(p) && Reaches(p, schedule, p') && i in p.lost
    ensures i in p'.lost && i < |p'.inUse| && p'.inUse[i] && forall t :: !Owns(p', t, i)
    decreases |schedule|
  {
    if schedule != [] {
      StepKeeps(p, schedule[0].t, schedule[0].created);
      LostForGood(Step(p, schedule[0].t, schedule[0].created), schedule[1..], p', i);
    }
  }

  /** A thread that claimed a slot without an arena is still on its way to find that out, or the slot is lost. */
  predicate Doomed(p: Pool, t: nat, i: nat) {
    i in p.lost || (t < |p.threads| && p.threads[t] in {Claimed(i), Counted(i), Resetting(i)})
  }

  lemma {:induction false} ClaimedNullIsLost(p: Pool, schedule: seq<Turn>, p': Pool, t: nat, i: nat)
    requires PoolOk(p) && Reaches(p, schedule, p')
    requires i < |p.arenas| && p.arenas[i] == 0 && Owns(p, t, i)
    ensures Doomed(p', t, i)
  {
    assert PcFits(p, p.threads[t]);
    StaysDoomed(p, schedule, p', t, i);
  }

  lemma {:induction false} StaysDoomed(p: Pool, schedule: seq<Turn>, p': Pool, t: nat, i: nat)
    requires PoolOk(p) && Reaches(p, schedule, p')
    requires i < |p.arenas| && p.arenas[i] == 0 && Doomed(p, t, i)
    ensures Doomed(p', t, i)
    decreases |schedule|
  {
    hide PoolOk, FreshHandle;
    if schedule != [] {
      var u, created := schedule[0].t, schedule[0].created;
      StepKeeps(p, u, created);
      SameLength(p);
      StaysDoomed(Step(p, u, created), schedule[1..], p', t, i);
    }
  }
}
