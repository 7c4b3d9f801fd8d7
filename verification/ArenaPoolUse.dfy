/** runtime/arena_pool.c: acquire and release end whatever other threads do, and what they do for a thread alone. */
module ArenaPoolUse {
  import opened Basics
  import opened ArenaPool

  // ----- among other threads -----

  /** The thread is inside acquire or release. */
  predicate Busy(pc: Pc) {
    !pc.Out? && !pc.Holding?
  }

  /** How many steps of its own it has at most ahead of it, in a pool of `n` slots. */
  function Ahead(pc: Pc, n: nat): nat {
    match pc
    case Out => n + 5
    case Holding(_, _) => n + 7
    case Scan(i) => (if i < n then n - i else 0) + 4
    case Claimed(_) => 3
    case Counted(_) => 2
    case Resetting(_) => 1
    case Spilling => 1
    case Seeking(_, _, j) => (if j < n then n - j else 0) + 6
    case Leaving(_, _) => 4
    case Left(_, _) => 3
    case Wiping(_, _) => 2
    case Freeing(_, _) => 1
    case Destroying(_) => 1
  }

  function OwnSteps(schedule: seq<Turn>, t: nat): nat
    decreases |schedule|
  {
    if schedule == [] then 0 else (if schedule[0].t == t then 1 else 0) + OwnSteps(schedule[1..], t)
  }

  /** `t` is inside one call in every state of the run. */
  ghost predicate StaysInCall(p: Pool, schedule: seq<Turn>, t: nat)
    decreases |schedule|
  {
    && t < |p.threads| && Busy(p.threads[t])
    && (schedule != [] && PoolOk(p) && schedule[0].t < |p.threads| && FreshHandle(p, schedule[0].created) ==>
          StaysInCall(Step(p, schedule[0].t, schedule[0].created), schedule[1..], t))
  }

  lemma {:induction false} Nearer(p: Pool, t: nat, created: Handle)
    requires PoolOk(p) && t < |p.threads| && FreshHandle(p, created)
    ensures PcFits(p, p.threads[t]) && |p.inUse| == |p.arenas|
    ensures var p' := Step(p, t, created);
            && p'.arenas == p.arenas && |p'.threads| == |p.threads|
            && (forall u | 0 <= u < |p.threads| && u != t :: p'.threads[u] == p.threads[u])
            && (Busy(p'.threads[t]) ==> Ahead(p'.threads[t], |p.arenas|) < Ahead(p.threads[t], |p.arenas|))
  {
    assert PcFits(p, p.threads[t]);
  }

  /** Acquire and release are wait-free: among any number of other threads a call takes at most as many steps of its own as
      the pool has slots, and seven more. */
  lemma {:induction false} WaitFree(p: Pool, schedule: seq<Turn>, p': Pool, t: nat)
    requires PoolOk(p) && Reaches(p, schedule, p') && StaysInCall(p, schedule, t)
    ensures t < |p.threads| && OwnSteps(schedule, t) < Ahead(p.threads[t], |p.arenas|) <= |p.arenas| + 7
    decreases |schedule|
  {
    hide PoolOk, FreshHandle, Step, Ahead;
    AheadBounds(p.threads[t], |p.arenas|);
    if schedule != [] {
      Nearer(p, schedule[0].t, schedule[0].created);
      StepKeeps(p, schedule[0].t, schedule[0].created);
      WaitFree(Step(p, schedule[0].t, schedule[0].created), schedule[1..], p', t);
    }
  }

  lemma {:induction false} AheadBounds(pc: Pc, n: nat)
    ensures Busy(pc) ==> 0 < Ahead(pc, n) <= n + 7
  {
  }

  /** Slot `i` is free in every state of the run. */
  ghost predicate FreeThroughout(p: Pool, schedule: seq<Turn>, i: nat)
    decreases |schedule|
  {
    && i < |p.inUse| && !p.inUse[i]
    && (schedule != [] && PoolOk(p) && schedule[0].t < |p.threads| && FreshHandle(p, schedule[0].created) ==>
          FreeThroughout(Step(p, schedule[0].t, schedule[0].created), schedule[1..], i))
  }

  /** The thread has not passed slot `i` in a search for a free one. */
  predicate NotPast(pc: Pc, i: nat) {
    !pc.Spilling? && (pc.Scan? ==> pc.i <= i)
  }

  lemma {:induction false} NotPastKept(p: Pool, t: nat, created: Handle, i: nat)
    requires PoolOk(p) && t < |p.threads| && i < |p.inUse| && NotPast(p.threads[t], i)
    ensures PcFits(p, p.threads[t]) && |p.inUse| == |p.arenas|
    ensures i < |Step(p, t, created).inUse| && !Step(p, t, created).inUse[i] ==> NotPast(Step(p, t, created).threads[t], i)
  {
    assert PcFits(p, p.threads[t]);
  }

  /** No acquire gives up the search, and takes an arena outside the pool, while a slot is free all the time. */
  lemma {:induction false} NoSpillWhileFree(p: Pool, schedule: seq<Turn>, p': Pool, t: nat, i: nat)
    requires PoolOk(p) && Reaches(p, schedule, p') && FreeThroughout(p, schedule, i)
    requires t < |p.threads| && NotPast(p.threads[t], i)
    ensures t < |p'.threads| && NotPast(p'.threads[t], i)
    decreases |schedule|
  {
    hide PoolOk, FreshHandle, Step, NotPast;
    if schedule != [] {
      var u, created := schedule[0].t, schedule[0].created;
      Nearer(p, u, created);
      StepKeeps(p, u, created);
      if u == t { NotPastKept(p, t, created, i); }
      NoSpillWhileFree(Step(p, u, created), schedule[1..], p', t, i);
    }
  }

  // ----- alone -----

  /** `k` steps of thread `t` and no other. */
  function Alone(t: nat, created: Handle, k: nat): (s: seq<Turn>)
    ensures |s| == k
  {
    seq(k, _ => Turn(t, created))
  }

  /** The rest of a run of one thread. */
  lemma {:induction false} OneStep(p: Pool, t: nat, created: Handle, k: nat, p': Pool)
    requires k > 0 && Reaches(p, Alone(t, created, k), p')
    ensures PoolOk(p) && t < |p.threads| && FreshHandle(p, created) && PcFits(p, p.threads[t]) && |p.inUse| == |p.arenas|
    ensures Reaches(Step(p, t, created), Alone(t, created, k - 1), p')
  {
    hide PoolOk, Step, FreshHandle;
    assert Alone(t, created, k)[0] == Turn(t, created);
    assert Alone(t, created, k)[1..] == Alone(t, created, k - 1);
    StepKeeps(p, t, created);
    SameLength(p);
  }

  lemma {:induction false} Done(p: Pool, t: nat, created: Handle, p': Pool)
    requires Reaches(p, Alone(t, created, 0), p')
    ensures p' == p
  {
  }

  /** `Move` over a state already reached by one. */
  lemma {:induction false} MovedTwice(p: Pool, t: nat, a: Pc, b: Pc)
    requires t < |p.threads|
    ensures Move(Move(p, t, a), t, b) == Move(p, t, b)
  {
    assert p.threads[t := a][t := b] == p.threads[t := b];
  }

  lemma {:induction false} Overwrites(threads: seq<Pc>, t: nat)
    requires t < |threads|
    ensures forall a: Pc, b: Pc {:trigger threads[t := a][t := b]} :: threads[t := a][t := b] == threads[t := b]
  {
    forall a: Pc, b: Pc {:trigger threads[t := a][t := b]} ensures threads[t := a][t := b] == threads[t := b] {
      assert threads[t := a][t := b] == threads[t := b];
    }
  }

  /** The slots before `first` are in use. */
  predicate AllTaken(inUse: seq<bool>, from: nat, first: nat) {
    forall j | from <= j < first && j < |inUse| :: inUse[j]
  }

  lemma {:induction false} Search(p: Pool, t: nat, created: Handle, i: nat, first: nat, k: nat, p': Pool)
    requires i <= first <= |p.inUse| && AllTaken(p.inUse, i, first)
    requires Reaches(p, Alone(t, created, first - i + k), p') && t < |p.threads| && p.threads[t] == Scan(i)
    ensures Reaches(Move(p, t, Scan(first)), Alone(t, created, k), p')
    decreases first - i
  {
    hide PoolOk, FreshHandle;
    if i == first {
      assert p.threads[t := Scan(first)] == p.threads;
    } else {
      OneStep(p, t, created, first - i + k, p');
      MovedTwice(p, t, Scan(i + 1), Scan(first));
      Search(Step(p, t, created), t, created, i + 1, first, k, p');
    }
  }

  /** The pool after thread `t` has gone through a few steps that leave it at `pc`. */
  function Became(p: Pool, t: nat, pc: Pc, inUse: seq<bool>, active: int, stats: int, lost: set<nat>): Pool
    requires t < |p.threads|
  {
    Pool(p.arenas, inUse, active, stats, p.threads[t := pc], lost)
  }

  /** The steps from a free slot to the end of acquire. */
  lemma {:induction false} Claim(p: Pool, t: nat, created: Handle, i: nat, p': Pool)
    requires Reaches(p, Alone(t, created, 4), p') && t < |p.threads| && p.threads[t] == Scan(i)
    requires i < |p.inUse| == |p.arenas| && !p.inUse[i]
    ensures var h := p.arenas[i];
            p' == Became(p, t, if h != 0 then Holding(h, Some(i)) else Out, p.inUse[i := true], p.active + 1, p.active + 1,
                         if h != 0 then p.lost else p.lost + {i})
  {
    hide PoolOk, FreshHandle;
    OneStep(p, t, created, 4, p');
    var p1 := Step(p, t, created);
    OneStep(p1, t, created, 3, p');
    var p2 := Step(p1, t, created);
    OneStep(p2, t, created, 2, p');
    var p3 := Step(p2, t, created);
    OneStep(p3, t, created, 1, p');
    Done(Step(p3, t, created), t, created, p');
    Overwrites(p.threads, t);
  }

  /** A thread alone acquires the arena of the first free slot, and with it the slot and a count; without a free slot it
      gets a new arena, and the pool is as it was. */
  lemma {:induction false} AcquireAlone(p: Pool, t: nat, created: Handle, first: nat, p': Pool)
    requires t < |p.threads| && p.threads[t] == Out && |p.inUse| == |p.arenas|
    requires first <= |p.inUse| && AllTaken(p.inUse, 0, first) && (first < |p.inUse| ==> !p.inUse[first])
    requires Reaches(p, Alone(t, created, first + (if first < |p.inUse| then 5 else 3)), p')
    ensures first < |p.inUse| ==>
              var h := p.arenas[first];
              p' == Became(p, t, if h != 0 then Holding(h, Some(first)) else Out, p.inUse[first := true], p.active + 1,
                           p.active + 1, if h != 0 then p.lost else p.lost + {first})
    ensures first == |p.inUse| ==> p' == Move(p, t, if created != 0 then Holding(created, None) else Out)
  {
    hide PoolOk, FreshHandle;
    var k := if first < |p.inUse| then 4 else 2;
    OneStep(p, t, created, first + k + 1, p');
    var q := Step(p, t, created);
    Search(q, t, created, 0, first, k, p');
    var found := Move(q, t, Scan(first));
    MovedTwice(p, t, Scan(0), Scan(first));
    Overwrites(p.threads, t);
    if first < |p.inUse| {
      Claim(found, t, created, first, p');
    } else {
      OneStep(found, t, created, 2, p');
      OneStep(Step(found, t, created), t, created, 1, p');
      Done(Step(Step(found, t, created), t, created), t, created, p');
    }
  }

  lemma {:induction false} Lookup(p: Pool, t: nat, created: Handle, h: Handle, slot: Option<nat>, j: nat, k: nat, p': Pool)
    requires PlaceOf(p, slot) >= j && HandleFits(p, h, slot) && DistinctArenas(p)
    requires Reaches(p, Alone(t, created, PlaceOf(p, slot) - j + k), p') && t < |p.threads| && p.threads[t] == Seeking(h, slot, j)
    ensures Reaches(Move(p, t, Seeking(h, slot, PlaceOf(p, slot))), Alone(t, created, k), p')
    decreases PlaceOf(p, slot) - j
  {
    hide PoolOk, FreshHandle, DistinctArenas;
    var place := PlaceOf(p, slot);
    if j == place {
      assert p.threads[t := Seeking(h, slot, place)] == p.threads;
    } else {
      OneStep(p, t, created, place - j + k, p');
      if p.arenas[j] == h { FoundOwnSlot(p, h, slot, j); }
      MovedTwice(p, t, Seeking(h, slot, j + 1), Seeking(h, slot, place));
      var q := Step(p, t, created);
      SameArenas(p, q);
      Lookup(q, t, created, h, slot, j + 1, k, p');
    }
  }

  /** Where release finds an arena: at its slot, or not at all. */
  function PlaceOf(p: Pool, slot: Option<nat>): nat {
    if slot.Some? then slot.value else |p.arenas|
  }

  lemma {:induction false} SameArenas(p: Pool, q: Pool)
    requires DistinctArenas(p) && q.arenas == p.arenas
    ensures DistinctArenas(q)
  {
  }

  lemma {:induction false} Free(p: Pool, t: nat, created: Handle, i: nat, h: Handle, slot: Option<nat>, p': Pool)
    requires Reaches(p, Alone(t, created, 5), p') && t < |p.threads| && p.threads[t] == Seeking(h, slot, i)
    requires i < |p.inUse| == |p.arenas| && p.arenas[i] == h
    ensures p' == Became(p, t, Out, p.inUse[i := false], p.active - 1, p.active - 1, p.lost)
  {
    hide PoolOk, FreshHandle;
    OneStep(p, t, created, 5, p');
    var p1 := Step(p, t, created);
    OneStep(p1, t, created, 4, p');
    var p2 := Step(p1, t, created);
    OneStep(p2, t, created, 3, p');
    var p3 := Step(p2, t, created);
    OneStep(p3, t, created, 2, p');
    var p4 := Step(p3, t, created);
    OneStep(p4, t, created, 1, p');
    Done(Step(p4, t, created), t, created, p');
    Overwrites(p.threads, t);
  }

  lemma {:induction false} HolderFits(p: Pool, t: nat)
    requires PoolOk(p) && t < |p.threads|
    ensures |p.inUse| == |p.arenas| && PcFits(p, p.threads[t]) && DistinctArenas(p)
  {
  }

  lemma {:induction false} Destroy(p: Pool, t: nat, created: Handle, h: Handle, p': Pool)
    requires Reaches(p, Alone(t, created, 2), p') && t < |p.threads| && p.threads[t] == Seeking(h, None, |p.arenas|)
    ensures p' == Move(p, t, Out)
  {
    hide PoolOk, FreshHandle;
    OneStep(p, t, created, 2, p');
    var p1 := Step(p, t, created);
    OneStep(p1, t, created, 1, p');
    Done(Step(p1, t, created), t, created, p');
    Overwrites(p.threads, t);
  }

  /** A thread alone that releases an arena of the pool frees its slot and takes its count back; any other arena it
      destroys, and the pool is as it was. */
  lemma {:induction false} ReleaseAlone(p: Pool, t: nat, created: Handle, h: Handle, slot: Option<nat>, p': Pool)
    requires PoolOk(p) && t < |p.threads| && p.threads[t] == Holding(h, slot)
    requires Reaches(p, Alone(t, created, if slot.Some? then slot.value + 6 else |p.arenas| + 3), p')
    ensures |p.inUse| == |p.arenas| && (slot.Some? ==> slot.value < |p.inUse|)
    ensures p' == if slot.Some?
                  then Became(p, t, Out, p.inUse[slot.value := false], p.active - 1, p.active - 1, p.lost)
                  else Move(p, t, Out)
  {
    hide FreshHandle, PoolOk, DistinctArenas;
    HolderFits(p, t);
    var place := PlaceOf(p, slot);
    var k := if slot.Some? then 5 else 2;
    OneStep(p, t, created, place + k + 1, p');
    var q := Step(p, t, created);
    SameArenas(p, q);
    Lookup(q, t, created, h, slot, 0, k, p');
    var found := Move(q, t, Seeking(h, slot, place));
    Overwrites(p.threads, t);
    if slot.Some? {
      Free(found, t, created, place, h, slot, p');
    } else {
      Destroy(found, t, created, h, p');
    }
  }
}
