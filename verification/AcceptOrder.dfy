/** runtime/thread_pool.c: the turn in which workers get their sockets, and the taking of one. */
module AcceptOrder {
  import opened AcceptRings

  /** No push was refused in the run. */
  predicate NeverFull(sys: System, schedule: seq<Actor>)
    requires SystemOk(sys)
    decreases |schedule|
  {
    sys.refused == {} &&
    (schedule != [] && (schedule[0].Worker? ==> schedule[0].w < |sys.rings|) ==>
       (StepOk(sys, schedule[0]); NeverFull(Step(sys, schedule[0]), schedule[1..])))
  }

  lemma {:induction false} StepOk(sys: System, who: Actor)
    requires SystemOk(sys) && (who.Worker? ==> who.w < |sys.rings|)
    ensures SystemOk(Step(sys, who))
  {
    hide SystemOk;
    if who.Worker? { WorkerStepKeeps(sys, who.w); } else { AcceptStepKeeps(sys); }
  }

  /** The sockets out of the acceptor's hands. */
  function Placed(sys: System): int {
    if sys.acceptor.Waiting? then sys.accepted else sys.accepted - 1
  }

  /** Socket `i` was pushed to worker `i` modulo their number, and the next one is for the next worker. */
  predicate InTurn(sys: System) {
    && |sys.rings| > 0 && Placed(sys) >= 0 && sys.rr == Placed(sys) % |sys.rings|
    && (!sys.acceptor.Waiting? ==> sys.acceptor.k == 0 && sys.acceptor.s == Placed(sys))
    && forall i: nat | i < Placed(sys) :: i in sys.rings[i % |sys.rings|].pushed
  }

  lemma {:induction false} InitialInTurn(sys: System)
    requires Initial(sys)
    ensures InTurn(sys)
  {
  }

  lemma {:induction false} NextTurn(i: nat, n: nat)
    requires n > 0
    ensures Pick(i % n, 1, n) == (i + 1) % n && Pick(i % n, 0, n) == i % n
  {
    var q, r := i / n, i % n;
    assert i == q * n + r;
    if r + 1 < n {
      Remainder(q, r + 1, n);
    } else {
      assert i + 1 == (q + 1) * n + 0;
      Remainder(q + 1, 0, n);
      Remainder(1, 0, n);
    }
    Remainder(0, r, n);
    if r + 1 < n { Remainder(0, r + 1, n); }
  }

  lemma {:induction false} Remainder(q: nat, r: nat, n: nat)
    requires r < n
    ensures (q * n + r) % n == r
  {
    var d, m := (q * n + r) / n, (q * n + r) % n;
    assert q * n + r == d * n + m;
    assert (q - d) * n == m - r;
    assert q - d >= 1 ==> (q - d) * n >= n;
    assert q - d <= -1 ==> (q - d) * n <= -(n as int);
  }

  lemma {:induction false} WorkerKeepsTurn(sys: System, w: nat)
    requires SystemOk(sys) && InTurn(sys) && w < |sys.rings|
    ensures InTurn(Step(sys, Worker(w)))
  {
    var sys' := Step(sys, Worker(w));
    assert sys.rings[w] in sys.rings;
    forall i: nat | i < Placed(sys') ensures i in sys'.rings[i % |sys'.rings|].pushed {
      assert i in sys.rings[i % |sys.rings|].pushed;
    }
  }

  lemma {:induction false} AcceptorKeepsTurn(sys: System)
    requires SystemOk(sys) && InTurn(sys) && Step(sys, TheAcceptor).refused == {}
    ensures InTurn(Step(sys, TheAcceptor))
  {
    var n, sys' := |sys.rings|, Step(sys, TheAcceptor);
    NextTurn(Placed(sys), n);
    if sys.acceptor.Written? {
      var w := Target(sys, sys.acceptor.k);
      forall i: nat | i < Placed(sys') ensures i in sys'.rings[i % n].pushed {
        if i < Placed(sys) { assert i in sys.rings[i % n].pushed; } else { assert i == sys.acceptor.s && i % n == w; }
      }
    } else {
      forall i: nat | i < Placed(sys') ensures i in sys'.rings[i % n].pushed { assert i in sys.rings[i % n].pushed; }
    }
  }

  lemma {:induction false} RunInTurn(sys: System, schedule: seq<Actor>, sys': System)
    requires SystemOk(sys) && InTurn(sys) && Reaches(sys, schedule, sys') && NeverFull(sys, schedule)
    ensures SystemOk(sys') && InTurn(sys')
    decreases |schedule|
  {
    hide SystemOk, InTurn;
    if schedule != [] {
      var next := Step(sys, schedule[0]);
      StepOk(sys, schedule[0]);
      if schedule[0].Worker? {
        WorkerKeepsTurn(sys, schedule[0].w);
      } else {
        FreeNow(next, schedule[1..]);
        AcceptorKeepsTurn(sys);
      }
      RunInTurn(next, schedule[1..], sys');
    }
  }

  lemma {:induction false} FreeNow(sys: System, schedule: seq<Actor>)
    requires SystemOk(sys) && NeverFull(sys, schedule)
    ensures sys.refused == {}
  {
  }

  /** Under every interleaving in which no ring was full, the i-th socket was pushed to worker i modulo their number. */
  lemma {:induction false} RoundRobin(start: System, schedule: seq<Actor>, sys: System, i: nat)
    requires Initial(start) && Reaches(start, schedule, sys)
    requires SystemOk(start) && NeverFull(start, schedule) && i < Placed(sys)
    ensures |sys.rings| > 0 && i in sys.rings[i % |sys.rings|].pushed
  {
    hide SystemOk;
    InitialInTurn(start);
    RunInTurn(start, schedule, sys);
  }

  // ----- taking a socket out -----

  function OwnSteps(schedule: seq<Actor>, w: nat): nat
    decreases |schedule|
  {
    if schedule == [] then 0 else (if schedule[0] == Worker(w) then 1 else 0) + OwnSteps(schedule[1..], w)
  }

  /** The worker is `done` steps into taking socket number `n` of its ring, which has been pushed. */
  predicate Taking(r: Ring, done: nat, n: nat) {
    && |r.pushed| > n
    && if done >= 4 then r.consumer.Idle? && |r.popped| == n + 1
       else && |r.popped| == n
            && (match done
                case 0 => r.consumer.Idle?
                case 1 => r.consumer.GotHead?
                case 2 => r.consumer.MayRead?
                case _ => r.consumer.Took?)
  }

  lemma {:induction false} OwnStep(r: Ring, done: nat, n: nat)
    requires RingOk(r) && Taking(r, done, n) && done < 4
    ensures |r.slots| == CAP && (r.consumer.MayRead? ==> r.consumer.h < CAP)
    ensures Taking(PopStep(r), done + 1, n) && PopStep(r).pushed == r.pushed
  {
    if done == 1 { assert |Contents(r)| > 0; }
  }

  lemma {:induction false} OtherStep(sys: System, who: Actor, w: nat)
    requires SystemOk(sys) && w < |sys.rings| && who != Worker(w) && (who.Worker? ==> who.w < |sys.rings|)
    ensures var r, r' := sys.rings[w], Step(sys, who).rings[w];
            |Step(sys, who).rings| == |sys.rings|
            && r'.consumer == r.consumer && r'.popped == r.popped && r.pushed <= r'.pushed
  {
    hide RingOk, Conserved;
  }

  lemma {:induction false} StaysTaking(sys: System, schedule: seq<Actor>, sys': System, w: nat, done: nat, n: nat)
    requires SystemOk(sys) && Reaches(sys, schedule, sys') && w < |sys.rings| && Taking(sys.rings[w], done, n)
    requires done + OwnSteps(schedule, w) <= 4
    ensures w < |sys'.rings| && Taking(sys'.rings[w], done + OwnSteps(schedule, w), n)
    ensures sys.rings[w].pushed <= sys'.rings[w].pushed
    decreases |schedule|
  {
    hide SystemOk, RingOk, Step;
    if schedule != [] {
      var who := schedule[0];
      StepOk(sys, who);
      if who == Worker(w) {
        RingIs(sys, w);
        OwnStep(sys.rings[w], done, n);
        StaysTaking(Step(sys, who), schedule[1..], sys', w, done + 1, n);
      } else {
        OtherStep(sys, who, w);
        StaysTaking(Step(sys, who), schedule[1..], sys', w, done, n);
      }
    }
  }

  lemma {:induction false} RingIs(sys: System, w: nat)
    requires SystemOk(sys) && w < |sys.rings|
    ensures RingOk(sys.rings[w])
    ensures |sys.rings[w].slots| == CAP && (sys.rings[w].consumer.MayRead? ==> sys.rings[w].consumer.h < CAP)
    ensures Step(sys, Worker(w)).rings == sys.rings[w := PopStep(sys.rings[w])]
  {
    assert sys.rings[w] in sys.rings;
  }

  /** A worker that finds its ring not empty takes the oldest socket in four steps of its own, whatever the acceptor and the
      other workers do meanwhile. */
  lemma {:induction false} FourSteps(start: System, before: seq<Actor>, sys: System, schedule: seq<Actor>, sys': System, w: nat)
    requires Initial(start) && Reaches(start, before, sys) && Reaches(sys, schedule, sys')
    requires w < |sys.rings| && sys.rings[w].consumer.Idle? && |sys.rings[w].popped| < |sys.rings[w].pushed|
    requires OwnSteps(schedule, w) == 4
    ensures var r, n := sys.rings[w], |sys.rings[w].popped|;
            w < |sys'.rings| && sys'.rings[w].popped == r.popped + [r.pushed[n]]
  {
    hide SystemOk, RingOk;
    var r, n := sys.rings[w], |sys.rings[w].popped|;
    InitialOk(start);
    InterleavingsKeep(start, before, sys);
    InterleavingsKeep(sys, schedule, sys');
    StaysTaking(sys, schedule, sys', w, 0, n);
    RingIs(sys, w);
    RingIs(sys', w);
    PoppedIs(r);
    PoppedIs(sys'.rings[w]);
  }

  lemma {:induction false} PoppedIs(r: Ring)
    requires RingOk(r)
    ensures r.popped <= r.pushed
  {
  }
}
