/** runtime/arena_global.c: double-checked creation of the process-wide arena. */
module GlobalArena {
  /* One step per shared access, any thread next. 0 is NULL. `made` records every arena that orbit_arena_create
     returned to a caller, in order. */

  type Handle = nat

  datatype Pc =
    | Ready                                 // about to read the global pointer
    | Spinning                              // it was NULL, about to try the lock
    | Checking                              // holds the lock, about to read again
    | Creating                              // still NULL, about to create
    | Storing(c: Handle)                    // about to publish what create returned
    | Reading(failed: bool)                 // about to read the answer
    | Unlocking(a: Handle, failed: bool)    // about to release the lock
    | Returned(a: Handle, failed: bool)     // answered `a`; `failed`: its own create returned NULL

  datatype Global = Global(pointer: Handle, locked: bool, threads: seq<Pc>, made: seq<Handle>)

  function Step(g: Global, t: nat, created: Handle): Global
    requires t < |g.threads|
  {
    match g.threads[t]
    case Ready => Move(g, t, if g.pointer != 0 then Returned(g.pointer, false) else Spinning)
    case Spinning => if g.locked then g else Move(g, t, Checking).(locked := true)
    case Checking => Move(g, t, if g.pointer == 0 then Creating else Reading(false))
    case Creating => Move(g, t, Storing(created)).(made := if created == 0 then g.made else g.made + [created])
    case Storing(c) => Move(g, t, Reading(c == 0)).(pointer := c)
    case Reading(failed) => Move(g, t, Unlocking(g.pointer, failed))
    case Unlocking(a, failed) => Move(g, t, Returned(a, failed)).(locked := false)
    case Returned(_, _) => Move(g, t, Ready)
  }

  function Move(g: Global, t: nat, pc: Pc): Global
    requires t < |g.threads|
  {
    g.(threads := g.threads[t := pc])
  }

  predicate Inside(pc: Pc) {
    pc.Checking? || pc.Creating? || pc.Storing? || pc.Reading? || pc.Unlocking?
  }

  predicate PcOk(g: Global, pc: Pc) {
    match pc
    case Creating => g.pointer == 0 && g.made == []
    case Storing(c) => g.pointer == 0 && g.made == if c == 0 then [] else [c]
    case Reading(failed) => g.pointer == 0 ==> failed
    case Unlocking(a, failed) => (a == 0 ==> failed) && (a != 0 ==> a == g.pointer)
    case Returned(a, failed) => (a == 0 ==> failed) && (a != 0 ==> a == g.pointer)
    case _ => true
  }

  ghost predicate GlobalOk(g: Global) {
    && (forall t | 0 <= t < |g.threads| :: PcOk(g, g.threads[t]) && (Inside(g.threads[t]) ==> g.locked))
    && (forall t, u | 0 <= t < u < |g.threads| :: !(Inside(g.threads[t]) && Inside(g.threads[u])))
    && (g.pointer != 0 ==> g.made == [g.pointer])
    && (g.pointer == 0 && (forall t | 0 <= t < |g.threads| :: !g.threads[t].Storing?) ==> g.made == [])
    && |g.made| <= 1
  }

  predicate Initial(g: Global) {
    g.pointer == 0 && !g.locked && g.made == [] && forall t | 0 <= t < |g.threads| :: g.threads[t] == Ready
  }

  lemma {:induction false} StepKeeps(g: Global, t: nat, created: Handle)
    requires GlobalOk(g) && t < |g.threads|
    ensures GlobalOk(Step(g, t, created))
    ensures g.pointer != 0 ==> Step(g, t, created).pointer == g.pointer
  {
    var g' := Step(g, t, created);
    var pc := g.threads[t];
    assert PcOk(g, pc);
    forall u | 0 <= u < |g.threads| ensures PcOk(g', g'.threads[u]) && (Inside(g'.threads[u]) ==> g'.locked) {
      assert PcOk(g, g.threads[u]);
    }
    if pc.Checking? && g.pointer == 0 {
      NobodyStoring(g, t);
    }
    if pc.Storing? {
      assert g'.pointer == 0 ==> g'.made == [];
    }
    if g'.pointer == 0 && (forall u | 0 <= u < |g'.threads| :: !g'.threads[u].Storing?) {
      if !pc.Storing? {
        assert forall u | 0 <= u < |g.threads| :: u != t ==> g'.threads[u] == g.threads[u];
      }
    }
  }

  /** The lock holder that is not storing knows nobody else is. */
  lemma {:induction false} NobodyStoring(g: Global, t: nat)
    requires GlobalOk(g) && t < |g.threads| && Inside(g.threads[t]) && !g.threads[t].Storing?
    ensures forall u | 0 <= u < |g.threads| :: !g.threads[u].Storing?
  {
    forall u | 0 <= u < |g.threads| && Inside(g.threads[u]) ensures u == t { }
  }

  datatype Turn = Turn(t: nat, created: Handle)

  predicate Reaches(g: Global, schedule: seq<Turn>, g': Global)
    decreases |schedule|
  {
    if schedule == [] then g' == g
    else schedule[0].t < |g.threads| && Reaches(Step(g, schedule[0].t, schedule[0].created), schedule[1..], g')
  }

  lemma {:induction false} InterleavingsKeep(g: Global, schedule: seq<Turn>, g': Global)
    requires GlobalOk(g) && Reaches(g, schedule, g')
    ensures GlobalOk(g')
    ensures g.pointer != 0 ==> g'.pointer == g.pointer
    decreases |schedule|
  {
    hide GlobalOk;
    if schedule != [] {
      StepKeeps(g, schedule[0].t, schedule[0].created);
      InterleavingsKeep(Step(g, schedule[0].t, schedule[0].created), schedule[1..], g');
    }
  }

  /** Under every interleaving at most one arena is ever created, and every non-NULL answer is that arena. */
  lemma {:induction false} CreatedOnce(start: Global, schedule: seq<Turn>, g: Global, t: nat)
    requires Initial(start) && Reaches(start, schedule, g)
    requires t < |g.threads| && g.threads[t].Returned?
    ensures |g.made| <= 1
    ensures g.threads[t].a != 0 ==> g.made == [g.threads[t].a]
    ensures g.threads[t].a == 0 ==> g.threads[t].failed
  {
    InterleavingsKeep(start, schedule, g);
    assert PcOk(g, g.threads[t]);
  }

  /** Two answers, however far apart in the run, never name different arenas. */
  lemma {:induction false} AnswersAgree(start: Global, first: seq<Turn>, g: Global, second: seq<Turn>, g': Global, t: nat, u: nat)
    requires Initial(start) && Reaches(start, first, g) && Reaches(g, second, g')
    requires t < |g.threads| && g.threads[t].Returned? && g.threads[t].a != 0
    requires u < |g'.threads| && g'.threads[u].Returned? && g'.threads[u].a != 0
    ensures g.threads[t].a == g'.threads[u].a
  {
    InterleavingsKeep(start, first, g);
    InterleavingsKeep(g, second, g');
    assert PcOk(g, g.threads[t]) && PcOk(g', g'.threads[u]);
  }

  // ----- progress -----

  /** Steps left to an answer, spins apart. */
  function Left(pc: Pc): nat {
    match pc
    case Ready => 7
    case Spinning => 6
    case Checking => 5
    case Creating => 4
    case Storing(_) => 3
    case Reading(_) => 2
    case Unlocking(_, _) => 1
    case Returned(_, _) => 0
  }

  predicate Holds(g: Global, t: int) {
    0 <= t < |g.threads| && Inside(g.threads[t])
  }

  ghost predicate LockOk(g: Global) {
    g.locked ==> exists t :: Holds(g, t)
  }

  lemma {:induction false} LockKept(g: Global, t: nat, created: Handle)
    requires GlobalOk(g) && LockOk(g) && t < |g.threads|
    ensures LockOk(Step(g, t, created))
  {
    var g' := Step(g, t, created);
    if g'.locked {
      if g.locked {
        var u :| Holds(g, u);
        assert u == t || g'.threads[u] == g.threads[u];
        assert u == t ==> Inside(g'.threads[t]);
        assert u != t ==> Holds(g', u);
      }
      assert Holds(g', t) || exists u :: Holds(g', u);
    }
  }

  lemma {:induction false} LockRun(g: Global, schedule: seq<Turn>, g': Global)
    requires GlobalOk(g) && LockOk(g) && Reaches(g, schedule, g')
    ensures GlobalOk(g') && LockOk(g')
    decreases |schedule|
  {
    hide GlobalOk, LockOk;
    if schedule != [] {
      StepKeeps(g, schedule[0].t, schedule[0].created);
      LockKept(g, schedule[0].t, schedule[0].created);
      LockRun(Step(g, schedule[0].t, schedule[0].created), schedule[1..], g');
    }
  }

  predicate Advances(g: Global, t: nat, created: Handle) {
    t < |g.threads| && Left(Step(g, t, created).threads[t]) < Left(g.threads[t])
  }

  /** There is no deadlock: in every reachable state the next step of a thread without an answer brings it nearer to one,
      unless another thread holds the lock, and then that one's next step does. So a call that is alone takes seven steps
      at most. */
  lemma {:induction false} NoDeadlock(start: Global, schedule: seq<Turn>, g: Global, t: nat, created: Handle)
    requires Initial(start) && Reaches(start, schedule, g)
    requires t < |g.threads| && !g.threads[t].Returned?
    ensures Left(g.threads[t]) <= 7
    ensures Advances(g, t, created) || exists u :: u != t && Holds(g, u) && Advances(g, u, created)
  {
    InterleavingsKeep(start, schedule, g);
    LockRun(start, schedule, g);
    if !Advances(g, t, created) {
      var u :| Holds(g, u);
      assert u != t && Advances(g, u, created);
    }
  }
}
