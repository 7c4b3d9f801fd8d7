/** runtime/thread_pool.c: the acceptor, the workers, and one single-producer/single-consumer ring for each. */
module AcceptRings {
  /* Every shared load and store is a step of its own, and any actor may move next. Memory is sequentially consistent.
     Sockets are numbered in the order they are accepted. The histories `pushed`, `popped`, `closed` and `refused` only
     record what happened; no step reads them. */

  const CAP: nat := 256

  type Socket = nat

  /** Where a worker stands in orbit_accept_q_pop. */
  datatype Consumer = Idle | GotHead(h: nat) | MayRead(h: nat) | Took(h: nat, s: Socket)

  datatype Ring = Ring(slots: seq<Socket>, head: nat, tail: nat, consumer: Consumer,
                       pushed: seq<Socket>, popped: seq<Socket>)

  /** Where the acceptor stands: waiting in accept, or in the dispatch loop at attempt `k` with socket `s`. */
  datatype Acceptor = Waiting
                    | Trying(s: Socket, k: nat)
                    | GotTail(s: Socket, k: nat, t: nat)
                    | MayWrite(s: Socket, k: nat, t: nat)
                    | Written(s: Socket, k: nat, t: nat)

  datatype System = System(rings: seq<Ring>, acceptor: Acceptor, rr: nat, accepted: nat,
                           closed: seq<Socket>, refused: set<nat>)

  datatype Actor = TheAcceptor | Worker(w: nat)

  function After(i: nat): nat {
    (i + 1) % CAP
  }

  // ----- steps -----

  /** One step of orbit_accept_q_pop on the worker's own ring. */
  function PopStep(r: Ring): Ring
    requires |r.slots| == CAP && (r.consumer.MayRead? ==> r.consumer.h < CAP)
  {
    match r.consumer
    case Idle => r.(consumer := GotHead(r.head))
    case GotHead(h) => r.(consumer := if h == r.tail then Idle else MayRead(h))
    case MayRead(h) => r.(consumer := Took(h, r.slots[h]))
    case Took(h, s) => r.(head := After(h), consumer := Idle, popped := r.popped + [s])
  }

  /** The worker the dispatch loop tries at attempt `k`, starting from `rr`. */
  function Pick(rr: nat, k: nat, n: nat): (w: nat)
    requires n > 0
    ensures w < n
  {
    (rr + k) % n
  }

  function Target(sys: System, k: nat): (w: nat)
    requires |sys.rings| > 0
    ensures w < |sys.rings|
  {
    Pick(sys.rr, k, |sys.rings|)
  }

  /** One step of orbit_acceptor_loop and of the orbit_accept_q_push it is in. */
  function AcceptStep(sys: System): System
    requires |sys.rings| > 0
    requires sys.acceptor.MayWrite? ==>
               sys.acceptor.t < |sys.rings[Target(sys, sys.acceptor.k)].slots|
  {
    var n := |sys.rings|;
    match sys.acceptor
    case Waiting => sys.(acceptor := Trying(sys.accepted, 0), accepted := sys.accepted + 1, refused := {})
    case Trying(s, k) =>
      if k < n then sys.(acceptor := GotTail(s, k, sys.rings[Target(sys, k)].tail))
      else sys.(acceptor := Waiting, rr := Pick(sys.rr, 1, n), closed := sys.closed + [s])
    case GotTail(s, k, t) =>
      var w := Target(sys, k);
      if After(t) == sys.rings[w].head then sys.(acceptor := Trying(s, k + 1), refused := sys.refused + {w})
      else sys.(acceptor := MayWrite(s, k, t))
    case MayWrite(s, k, t) =>
      var w := Target(sys, k);
      sys.(rings := sys.rings[w := sys.rings[w].(slots := sys.rings[w].slots[t := s])], acceptor := Written(s, k, t))
    case Written(s, k, t) =>
      var w := Target(sys, k);
      sys.(rings := sys.rings[w := sys.rings[w].(tail := After(t), pushed := sys.rings[w].pushed + [s])],
           acceptor := Waiting, rr := Pick(w, 1, n))
  }

  // ----- invariants -----

  /** The sockets waiting in a ring, oldest first. */
  function Contents(r: Ring): seq<Socket>
    requires |r.slots| == CAP && r.head < CAP && r.tail < CAP
  {
    if r.head <= r.tail then r.slots[r.head..r.tail] else r.slots[r.head..] + r.slots[..r.tail]
  }

  /** The ring is a FIFO queue of at most 255 sockets and its worker knows only true things. */
  predicate RingOk(r: Ring) {
    && |r.slots| == CAP && r.head < CAP && r.tail < CAP
    && r.pushed == r.popped + Contents(r)
    && (match r.consumer
        case Idle => true
        case GotHead(h) => h == r.head
        case MayRead(h) => h == r.head && h != r.tail
        case Took(h, s) => h == r.head && h != r.tail && s == r.slots[h])
  }

  function InHand(a: Acceptor): multiset<Socket> {
    if a.Waiting? then multiset{} else multiset{a.s}
  }

  function AllPushed(rings: seq<Ring>): multiset<Socket> {
    if rings == [] then multiset{} else multiset(rings[0].pushed) + AllPushed(rings[1..])
  }

  /** The sockets accepted so far, each once. */
  function FirstN(n: nat): multiset<Socket> {
    if n == 0 then multiset{} else FirstN(n - 1) + multiset{n - 1}
  }

  /** The workers tried in the first `k` attempts. */
  function Tried(rr: nat, k: nat, n: nat): set<nat>
    requires n > 0
  {
    if k == 0 then {} else Tried(rr, k - 1, n) + {Pick(rr, k - 1, n)}
  }

  predicate AcceptorOk(sys: System)
    requires |sys.rings| > 0
  {
    var n := |sys.rings|;
    && sys.rr < n
    && (!sys.acceptor.Waiting? ==> sys.acceptor.k <= n && sys.refused == Tried(sys.rr, sys.acceptor.k, n))
    && (match sys.acceptor
        case Waiting => true
        case Trying(_, _) => true
        case GotTail(_, k, t) => k < n && t == sys.rings[Target(sys, k)].tail
        case MayWrite(_, k, t) =>
          k < n && t == sys.rings[Target(sys, k)].tail && After(t) != sys.rings[Target(sys, k)].head
        case Written(s, k, t) =>
          k < n && t == sys.rings[Target(sys, k)].tail && After(t) != sys.rings[Target(sys, k)].head
          && t < |sys.rings[Target(sys, k)].slots| && sys.rings[Target(sys, k)].slots[t] == s)
  }

  /** Every accepted socket is in exactly one place: the acceptor's hand, closed, or pushed to one ring. */
  predicate Conserved(sys: System) {
    FirstN(sys.accepted) == AllPushed(sys.rings) + multiset(sys.closed) + InHand(sys.acceptor)
  }

  predicate SystemOk(sys: System) {
    && |sys.rings| > 0
    && (forall r | r in sys.rings :: RingOk(r))
    && AcceptorOk(sys)
    && Conserved(sys)
  }

  function EmptyRing(slots: seq<Socket>): Ring {
    Ring(slots, 0, 0, Idle, [], [])
  }

  /** The state orbit_accept_q_init and the acceptor start from; slot contents are arbitrary. */
  predicate Initial(sys: System) {
    && |sys.rings| > 0
    && (forall r | r in sys.rings :: |r.slots| == CAP && r == EmptyRing(r.slots))
    && sys.acceptor == Waiting && sys.rr == 0 && sys.accepted == 0 && sys.closed == [] && sys.refused == {}
  }

  // ----- one ring -----

  lemma {:induction false} AfterIs(i: nat)
    requires i < CAP
    ensures After(i) == if i == CAP - 1 then 0 else i + 1
  {
  }

  /** At most 255 sockets wait, and the ring is full for the producer exactly at 255. */
  lemma {:induction false} RingBound(r: Ring)
    requires RingOk(r)
    ensures |Contents(r)| <= CAP - 1
    ensures After(r.tail) == r.head <==> |Contents(r)| == CAP - 1
    ensures r.head == r.tail <==> Contents(r) == []
  {
    AfterIs(r.tail);
  }

  /** What waits in a ring, from its first socket on. */
  lemma {:induction false} TakeContents(r: Ring)
    requires |r.slots| == CAP && r.head < CAP && r.tail < CAP && r.head != r.tail
    ensures After(r.head) < CAP
    ensures Contents(r) == [r.slots[r.head]] + Contents(r.(head := After(r.head)))
  {
    hide After;
    AfterIs(r.head);
    var q := r.slots;
    if r.head < r.tail {
      assert q[r.head..r.tail] == [q[r.head]] + q[r.head + 1..r.tail];
    } else if r.head == CAP - 1 {
      assert q[r.head..] == [q[r.head]] && q[0..r.tail] == q[..r.tail];
    } else {
      assert q[r.head..] + q[..r.tail] == [q[r.head]] + (q[r.head + 1..] + q[..r.tail]);
    }
  }

  lemma {:induction false} TakeKeeps(r: Ring)
    requires RingOk(r) && r.consumer.Took?
    ensures RingOk(PopStep(r))
    ensures Contents(r) == [r.consumer.s] + Contents(PopStep(r))
  {
    hide Contents, After;
    TakeContents(r);
    var r', moved := PopStep(r), r.(head := After(r.head));
    SameContents(r', moved);
    assert r.popped + ([r.consumer.s] + Contents(r')) == (r.popped + [r.consumer.s]) + Contents(r');
  }

  lemma {:induction false} SameContents(r: Ring, q: Ring)
    requires |r.slots| == CAP && r.head < CAP && r.tail < CAP
    requires q.slots == r.slots && q.head == r.head && q.tail == r.tail
    ensures Contents(q) == Contents(r)
  {
  }

  lemma {:induction false} PopStepKeeps(r: Ring)
    requires RingOk(r)
    ensures RingOk(PopStep(r))
    ensures PopStep(r).pushed == r.pushed && PopStep(r).slots == r.slots && PopStep(r).tail == r.tail
    ensures After(r.tail) != r.head ==> After(r.tail) != PopStep(r).head
  {
    if r.consumer.Took? {
      TakeKeeps(r);
      AfterIs(r.tail);
      AfterIs(r.head);
    } else {
      assert Contents(PopStep(r)) == Contents(r);
    }
  }

  lemma {:induction false} WriteKeeps(r: Ring, s: Socket)
    requires RingOk(r) && After(r.tail) != r.head
    ensures RingOk(r.(slots := r.slots[r.tail := s]))
  {
    var r' := r.(slots := r.slots[r.tail := s]);
    assert Contents(r') == Contents(r);
  }

  lemma {:induction false} PublishKeeps(r: Ring, s: Socket)
    requires RingOk(r) && After(r.tail) != r.head && r.slots[r.tail] == s
    ensures RingOk(r.(tail := After(r.tail), pushed := r.pushed + [s]))
  {
    AfterIs(r.tail);
    var r' := r.(tail := After(r.tail), pushed := r.pushed + [s]);
    assert Contents(r') == Contents(r) + [s];
    assert r.popped + Contents(r) + [s] == r'.popped + Contents(r');
  }

  // ----- conservation -----

  lemma {:induction false} AllPushedUpdate(rings: seq<Ring>, w: nat, r: Ring, more: multiset<Socket>)
    requires w < |rings| && multiset(r.pushed) == multiset(rings[w].pushed) + more
    ensures AllPushed(rings[w := r]) == AllPushed(rings) + more
  {
    if w == 0 {
      assert rings[w := r][1..] == rings[1..];
    } else {
      assert rings[w := r][1..] == rings[1..][w - 1 := r];
      AllPushedUpdate(rings[1..], w - 1, r, more);
    }
  }

  lemma {:induction false} AllPushedNone(rings: seq<Ring>)
    requires forall r | r in rings :: r.pushed == []
    ensures AllPushed(rings) == multiset{}
  {
    if rings != [] {
      assert rings[0] in rings;
      forall r | r in rings[1..] ensures r.pushed == [] { assert r in rings; }
      AllPushedNone(rings[1..]);
    }
  }

  lemma {:induction false} FirstNOnce(n: nat, s: Socket)
    ensures FirstN(n)[s] == if s < n then 1 else 0
  {
    if n > 0 { FirstNOnce(n - 1, s); }
  }

  // ----- the system -----

  lemma {:induction false} InitialOk(sys: System)
    requires Initial(sys)
    ensures SystemOk(sys)
  {
    AllPushedNone(sys.rings);
  }

  lemma {:induction false} ReplaceRing(rings: seq<Ring>, w: nat, r: Ring)
    requires w < |rings| && RingOk(r) && forall q | q in rings :: RingOk(q)
    ensures forall q | q in rings[w := r] :: RingOk(q)
  {
  }

  /** What the acceptor remembers about a ring stays true when only the worker moved. */
  lemma {:induction false} AcceptorSurvives(sys: System, w: nat, r': Ring)
    requires |sys.rings| > 0 && w < |sys.rings| && AcceptorOk(sys)
    requires var r := sys.rings[w];
             r'.slots == r.slots && r'.tail == r.tail && (After(r.tail) != r.head ==> After(r.tail) != r'.head)
    ensures AcceptorOk(sys.(rings := sys.rings[w := r']))
  {
    hide After, Pick;
    var sys' := sys.(rings := sys.rings[w := r']);
    if !sys.acceptor.Waiting? {
      var v := Target(sys, sys.acceptor.k);
      assert Target(sys', sys.acceptor.k) == v;
      assert sys'.rings[v] == if v == w then r' else sys.rings[v];
    }
  }

  /** A worker's step keeps the system sound, whatever the acceptor is in the middle of. */
  lemma {:induction false} WorkerStepKeeps(sys: System, w: nat)
    requires SystemOk(sys) && w < |sys.rings|
    ensures RingOk(sys.rings[w])
    ensures SystemOk(sys.(rings := sys.rings[w := PopStep(sys.rings[w])]))
  {
    hide RingOk, After, AcceptorOk;
    var r := sys.rings[w];
    assert r in sys.rings;
    RingShape(r);
    PopStepKeeps(r);
    ReplaceRing(sys.rings, w, PopStep(r));
    AllPushedUpdate(sys.rings, w, PopStep(r), multiset{});
    AcceptorSurvives(sys, w, PopStep(r));
  }

  lemma {:induction false} RingShape(r: Ring)
    requires RingOk(r)
    ensures |r.slots| == CAP && r.head < CAP && r.tail < CAP && (r.consumer.MayRead? ==> r.consumer.h < CAP)
  {
  }

  lemma {:induction false} TargetRing(sys: System)
    requires SystemOk(sys) && !sys.acceptor.Waiting?
    ensures RingOk(sys.rings[Target(sys, sys.acceptor.k)])
  {
    assert sys.rings[Target(sys, sys.acceptor.k)] in sys.rings;
  }

  lemma {:induction false} WriteStepShape(sys: System)
    requires SystemOk(sys) && sys.acceptor.MayWrite?
    ensures var w, s, t := Target(sys, sys.acceptor.k), sys.acceptor.s, sys.acceptor.t;
            && RingOk(sys.rings[w]) && t == sys.rings[w].tail < |sys.rings[w].slots| && After(t) != sys.rings[w].head
            && AcceptStep(sys) == sys.(rings := sys.rings[w := sys.rings[w].(slots := sys.rings[w].slots[t := s])],
                                       acceptor := Written(s, sys.acceptor.k, t))
  {
    hide After, Pick, Conserved;
    TargetRing(sys);
    RingShape(sys.rings[Target(sys, sys.acceptor.k)]);
  }

  lemma {:induction false} WriteAcceptor(sys: System)
    requires SystemOk(sys) && sys.acceptor.MayWrite?
    ensures sys.acceptor.t < |sys.rings[Target(sys, sys.acceptor.k)].slots|
    ensures AcceptorOk(AcceptStep(sys))
  {
    hide After, Pick, Conserved, RingOk, Tried, AcceptStep;
    WriteStepShape(sys);
    var sys', w := AcceptStep(sys), Target(sys, sys.acceptor.k);
    assert Target(sys', sys.acceptor.k) == w && |sys'.rings| == |sys.rings|;
  }

  lemma {:induction false} WriteStepKeeps(sys: System)
    requires SystemOk(sys) && sys.acceptor.MayWrite?
    ensures sys.acceptor.t < |sys.rings[Target(sys, sys.acceptor.k)].slots|
    ensures SystemOk(AcceptStep(sys))
  {
    hide RingOk, After, Pick, AcceptorOk, AcceptStep, AllPushed, FirstN;
    WriteStepShape(sys);
    WriteAcceptor(sys);
    var w, s, t := Target(sys, sys.acceptor.k), sys.acceptor.s, sys.acceptor.t;
    var r := sys.rings[w];
    WriteKeeps(r, s);
    var r' := r.(slots := r.slots[t := s]);
    ReplaceRing(sys.rings, w, r');
    AllPushedUpdate(sys.rings, w, r', multiset{});
  }

  lemma {:induction false} PublishStepKeeps(sys: System)
    requires SystemOk(sys) && sys.acceptor.Written?
    ensures SystemOk(AcceptStep(sys))
  {
    hide RingOk, After, Pick;
    TargetRing(sys);
    var w, s := Target(sys, sys.acceptor.k), sys.acceptor.s;
    var r := sys.rings[w];
    PublishKeeps(r, s);
    var r' := r.(tail := After(sys.acceptor.t), pushed := r.pushed + [s]);
    ReplaceRing(sys.rings, w, r');
    AllPushedUpdate(sys.rings, w, r', multiset{s});
  }

  /** The steps that read a shared index, take a new socket or close one. */
  lemma {:induction false} PrivateStepKeeps(sys: System)
    requires SystemOk(sys) && !sys.acceptor.MayWrite? && !sys.acceptor.Written?
    ensures SystemOk(AcceptStep(sys))
  {
    hide RingOk, After, Pick, AllPushed;
    assert AcceptorOk(AcceptStep(sys)) by { PrivateStepAcceptor(sys); }
    assert Conserved(AcceptStep(sys)) by { PrivateStepConserves(sys); }
  }

  lemma {:induction false} PrivateStepAcceptor(sys: System)
    requires |sys.rings| > 0 && AcceptorOk(sys) && !sys.acceptor.MayWrite? && !sys.acceptor.Written?
    ensures AcceptorOk(AcceptStep(sys))
  {
    hide After, Pick;
  }

  lemma {:induction false} PrivateStepConserves(sys: System)
    requires |sys.rings| > 0 && Conserved(sys) && !sys.acceptor.MayWrite? && !sys.acceptor.Written?
    ensures Conserved(AcceptStep(sys))
  {
    hide After, Pick, AllPushed, Target, FirstN;
    var f, all, shut := FirstN(sys.accepted), AllPushed(sys.rings), multiset(sys.closed);
    match sys.acceptor
    case Waiting =>
      FirstNNext(sys.accepted);
      TakeIn(f, all, shut, sys.accepted);
    case Trying(s, k) =>
      assert multiset(sys.closed + [s]) == shut + multiset{s};
      SetAside(f, all, shut, s);
    case _ =>
  }

  lemma {:induction false} TakeIn(f: multiset<Socket>, all: multiset<Socket>, shut: multiset<Socket>, s: Socket)
    requires f == all + shut + multiset{}
    ensures f + multiset{s} == all + shut + multiset{s}
  {
  }

  lemma {:induction false} SetAside(f: multiset<Socket>, all: multiset<Socket>, shut: multiset<Socket>, s: Socket)
    requires f == all + shut + multiset{s}
    ensures f == all + (shut + multiset{s}) + multiset{}
  {
  }

  lemma {:induction false} FirstNNext(n: nat)
    ensures FirstN(n + 1) == FirstN(n) + multiset{n}
  {
  }

  lemma {:induction false} AcceptStepKeeps(sys: System)
    requires SystemOk(sys)
    ensures sys.acceptor.MayWrite? ==> sys.acceptor.t < |sys.rings[Target(sys, sys.acceptor.k)].slots|
    ensures SystemOk(AcceptStep(sys))
  {
    hide SystemOk;
    if sys.acceptor.MayWrite? { WriteStepKeeps(sys); }
    else if sys.acceptor.Written? { PublishStepKeeps(sys); }
    else { PrivateStepKeeps(sys); }
  }

  /** One step of whichever actor the scheduler picks. */
  function Step(sys: System, who: Actor): System
    requires SystemOk(sys) && (who.Worker? ==> who.w < |sys.rings|)
  {
    match who
    case TheAcceptor => AcceptStepKeeps(sys); AcceptStep(sys)
    case Worker(w) => WorkerStepKeeps(sys, w); RingShape(sys.rings[w]); sys.(rings := sys.rings[w := PopStep(sys.rings[w])])
  }

  /** `sys'` is reached from `sys` under the schedule. */
  predicate Reaches(sys: System, schedule: seq<Actor>, sys': System)
    decreases |schedule|
  {
    if schedule == [] then sys' == sys
    else
      && SystemOk(sys) && (schedule[0].Worker? ==> schedule[0].w < |sys.rings|)
      && Reaches(Step(sys, schedule[0]), schedule[1..], sys')
  }

  /** Every interleaving keeps every ring a FIFO queue and every socket in one place. */
  lemma {:induction false} InterleavingsKeep(sys: System, schedule: seq<Actor>, sys': System)
    requires SystemOk(sys) && Reaches(sys, schedule, sys')
    ensures SystemOk(sys')
    decreases |schedule|
  {
    hide SystemOk;
    if schedule != [] {
      if schedule[0].Worker? { WorkerStepKeeps(sys, schedule[0].w); } else { AcceptStepKeeps(sys); }
      InterleavingsKeep(Step(sys, schedule[0]), schedule[1..], sys');
    }
  }

  // ----- what the steps guarantee -----

  /** Nothing is lost, duplicated or reordered inside a ring: what came out, then what still waits, is what went in. */
  lemma {:induction false} RingIsFifo(start: System, schedule: seq<Actor>, sys: System, w: nat)
    requires Initial(start) && Reaches(start, schedule, sys) && w < |sys.rings|
    ensures RingOk(sys.rings[w])
    ensures sys.rings[w].pushed == sys.rings[w].popped + Contents(sys.rings[w])
    ensures |Contents(sys.rings[w])| <= 255
  {
    InitialOk(start);
    InterleavingsKeep(start, schedule, sys);
    assert sys.rings[w] in sys.rings;
    RingBound(sys.rings[w]);
  }

  /** A slot about to be written is not the slot its worker may read. */
  lemma {:induction false} WriterAndReaderApart(start: System, schedule: seq<Actor>, sys: System)
    requires Initial(start) && Reaches(start, schedule, sys) && |sys.rings| > 0
    requires sys.acceptor.MayWrite? && sys.rings[Target(sys, sys.acceptor.k)].consumer.MayRead?
    ensures sys.acceptor.t != sys.rings[Target(sys, sys.acceptor.k)].consumer.h
  {
    InitialOk(start);
    InterleavingsKeep(start, schedule, sys);
    TargetRing(sys);
  }

  /** How often a socket is in each kind of place. */
  function Places(sys: System, s: Socket): nat {
    AllPushed(sys.rings)[s] + multiset(sys.closed)[s] + InHand(sys.acceptor)[s]
  }

  /** An accepted socket is in exactly one ring's history, closed, or in the acceptor's hand, and only once. */
  lemma {:induction false} SocketInOnePlace(start: System, schedule: seq<Actor>, sys: System, s: Socket)
    requires Initial(start) && Reaches(start, schedule, sys)
    ensures Places(sys, s) == if s < sys.accepted then 1 else 0
  {
    InitialOk(start);
    InterleavingsKeep(start, schedule, sys);
    FirstNOnce(sys.accepted, s);
  }

  /** In every reachable state: two rings never carry the same socket, and no ring carries it twice. */
  lemma {:induction false} PushedOnce(start: System, schedule: seq<Actor>, sys: System, v: nat, i: nat, w: nat, j: nat)
    requires Initial(start) && Reaches(start, schedule, sys)
    requires v < |sys.rings| && i < |sys.rings[v].pushed| && w < |sys.rings| && j < |sys.rings[w].pushed|
    requires sys.rings[v].pushed[i] == sys.rings[w].pushed[j]
    ensures v == w && i == j
  {
    hide AllPushed;
    var s := sys.rings[v].pushed[i];
    SocketInOnePlace(start, schedule, sys, s);
    OnePlace(sys.rings, s, v, i, w, j);
  }

  /** A socket that is in the rings' histories once is at one place in them. */
  lemma {:induction false} OnePlace(rings: seq<Ring>, s: Socket, v: nat, i: nat, w: nat, j: nat)
    requires AllPushed(rings)[s] <= 1
    requires v < |rings| && i < |rings[v].pushed| && rings[v].pushed[i] == s
    requires w < |rings| && j < |rings[w].pushed| && rings[w].pushed[j] == s
    ensures v == w && i == j
  {
    hide AllPushed;
    AllPushedHead(rings);
    if v == 0 && w == 0 {
      OnceInSeq(rings[0].pushed, s, i, j);
    } else if v > 0 && w > 0 {
      OnePlace(rings[1..], s, v - 1, i, w - 1, j);
    } else if v == 0 {
      InTail(rings, s, w, j);
      assert false;
    } else {
      InTail(rings, s, v, i);
      assert false;
    }
  }

  lemma {:induction false} AllPushedHead(rings: seq<Ring>)
    requires rings != []
    ensures AllPushed(rings) == multiset(rings[0].pushed) + AllPushed(rings[1..])
  {
  }

  lemma {:induction false} InTail(rings: seq<Ring>, s: Socket, w: nat, j: nat)
    requires 0 < w < |rings| && j < |rings[w].pushed| && rings[w].pushed[j] == s
    ensures AllPushed(rings[1..])[s] >= 1
  {
    var tail := rings[1..];
    if w == 1 {
      assert tail[0].pushed[j] == s;
      assert s in multiset(tail[0].pushed);
    } else {
      InTail(tail, s, w - 1, j);
    }
  }

  lemma {:induction false} TwoOccurrences(q: seq<Socket>, i: nat, j: nat)
    requires i < j < |q| && q[i] == q[j]
    ensures multiset(q)[q[i]] >= 2
  {
    assert q == q[..j] + q[j..];
    assert q[..j][i] == q[i] && q[j..][0] == q[i];
  }

  lemma {:induction false} OnceInSeq(q: seq<Socket>, s: Socket, i: nat, j: nat)
    requires i < |q| && j < |q| && q[i] == s && q[j] == s && multiset(q)[s] <= 1
    ensures i == j
  {
    if i < j {
      TwoOccurrences(q, i, j);
    } else if j < i {
      TwoOccurrences(q, j, i);
    }
  }

  /** A push is refused only while the ring holds 255 sockets. */
  lemma {:induction false} RefusedMeansFull(sys: System)
    requires SystemOk(sys) && sys.acceptor.GotTail?
    requires AcceptStep(sys).acceptor.Trying?
    ensures RingOk(sys.rings[Target(sys, sys.acceptor.k)])
    ensures |Contents(sys.rings[Target(sys, sys.acceptor.k)])| == 255
    ensures AcceptStep(sys).refused == sys.refused + {Target(sys, sys.acceptor.k)}
  {
    TargetRing(sys);
    RingBound(sys.rings[Target(sys, sys.acceptor.k)]);
  }

  /** A socket is closed only after every worker's ring refused it. */
  lemma {:induction false} ClosedOnlyAfterAllRefused(sys: System)
    requires SystemOk(sys) && AcceptStep.requires(sys) && AcceptStep(sys).closed != sys.closed
    ensures sys.acceptor.Trying? && AcceptStep(sys).closed == sys.closed + [sys.acceptor.s]
    ensures forall w: nat :: w in sys.refused <==> w < |sys.rings|
  {
    var n := |sys.rings|;
    AllTried(sys.rr, n);
  }

  lemma {:induction false} AllTried(rr: nat, n: nat)
    requires n > 0 && rr < n
    ensures forall w: nat :: w in Tried(rr, n, n) <==> w < n
  {
    hide Pick, Tried;
    forall w: nat | w < n ensures w in Tried(rr, n, n) {
      var k := PickReaches(rr, w, n);
      TriedHas(rr, k, n, n);
    }
    TriedBound(rr, n, n);
  }

  lemma {:induction false} PickReaches(rr: nat, w: nat, n: nat) returns (k: nat)
    requires rr < n && w < n
    ensures k < n && Pick(rr, k, n) == w
  {
    k := if w >= rr then w - rr else w + n - rr;
    assert rr + k == if w >= rr then w else w + n;
  }

  lemma {:induction false} TriedHas(rr: nat, j: nat, k: nat, n: nat)
    requires n > 0 && j < k
    ensures Pick(rr, j, n) in Tried(rr, k, n)
  {
    if j < k - 1 { TriedHas(rr, j, k - 1, n); }
  }

  lemma {:induction false} TriedBound(rr: nat, k: nat, n: nat)
    requires n > 0
    ensures forall w | w in Tried(rr, k, n) :: w < n
  {
    if k > 0 { TriedBound(rr, k - 1, n); }
  }

  /** orbit_accept_q_empty, asked by the worker between pops, is exact. */
  lemma {:induction false} EmptyIsExact(r: Ring)
    requires RingOk(r) && r.consumer.Idle?
    ensures r.head == r.tail <==> r.popped == r.pushed
  {
    RingBound(r);
    if r.popped == r.pushed { assert |r.pushed| == |r.popped| + |Contents(r)|; }
  }
}
