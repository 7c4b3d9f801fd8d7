/** runtime/performance.h: the lock-free maximum that publishes an arena's peak. */
module AtomicMax {
  /* Each thread wants the shared cell to be at least its own value: it reads the cell and, while its value is larger,
     tries to swap it in and reads again. */
  import opened Basics

  datatype Pc =
    | Start                     // about to read the cell
    | Compare(cur: nat)         // read `cur`, about to stop or to try the swap
    | Reread                    // the swap failed, about to read again
    | Done

  datatype Cell = Cell(value: nat, wants: seq<nat>, threads: seq<Pc>)

  function Step(c: Cell, t: nat): Cell
    requires t < |c.threads| == |c.wants|
  {
    match c.threads[t]
    case Start => Move(c, t, Compare(c.value))
    case Reread => Move(c, t, Compare(c.value))
    case Compare(cur) =>
      if c.wants[t] <= cur then Move(c, t, Done)
      else if c.value == cur then Move(c, t, Done).(value := c.wants[t])
      else Move(c, t, Reread)
    case Done => c
  }

  function Move(c: Cell, t: nat, pc: Pc): Cell
    requires t < |c.threads|
  {
    c.(threads := c.threads[t := pc])
  }

  /** The cell never falls, holds the initial value or somebody's, and covers every finished thread. */
  ghost predicate CellOk(c: Cell, initial: nat) {
    && |c.threads| == |c.wants| && initial <= c.value
    && (c.value == initial || c.value in c.wants)
    && forall t | 0 <= t < |c.threads| ::
         (c.threads[t].Compare? ==> c.threads[t].cur <= c.value) && (c.threads[t].Done? ==> c.wants[t] <= c.value)
  }

  predicate Initial(c: Cell) {
    |c.threads| == |c.wants| && forall t | 0 <= t < |c.threads| :: c.threads[t] == Start
  }

  predicate Reaches(c: Cell, schedule: seq<nat>, c': Cell)
    decreases |schedule|
  {
    if schedule == [] then c' == c
    else schedule[0] < |c.threads| == |c.wants| && Reaches(Step(c, schedule[0]), schedule[1..], c')
  }

  lemma {:induction false} InterleavingsKeep(c: Cell, schedule: seq<nat>, c': Cell, initial: nat)
    requires CellOk(c, initial) && Reaches(c, schedule, c')
    ensures CellOk(c', initial) && c'.wants == c.wants && |c'.threads| == |c.threads|
    decreases |schedule|
  {
    if schedule != [] { InterleavingsKeep(Step(c, schedule[0]), schedule[1..], c', initial); }
  }

  /** Once every thread is done the cell is exactly the maximum of the initial value and all wanted values. */
  lemma {:induction false} EndsAtMaximum(c: Cell, schedule: seq<nat>, c': Cell)
    requires Initial(c) && Reaches(c, schedule, c') && forall t | 0 <= t < |c'.threads| :: c'.threads[t].Done?
    ensures c.value <= c'.value && (c'.value == c.value || c'.value in c.wants)
    ensures forall v | v in c.wants :: v <= c'.value
  {
    InterleavingsKeep(c, schedule, c', c.value);
    forall v | v in c.wants ensures v <= c'.value {
      var t :| 0 <= t < |c.wants| && c.wants[t] == v;
      assert c'.threads[t].Done?;
    }
  }

  // ----- retries -----

  /** The next step of `u` swaps its value in. */
  predicate Swaps(c: Cell, u: nat)
    requires u < |c.threads| == |c.wants|
  {
    c.threads[u].Compare? && c.wants[u] > c.threads[u].cur && c.value == c.threads[u].cur
  }

  /** The next step of `u` is a swap that fails. */
  predicate Fails(c: Cell, u: nat)
    requires u < |c.threads| == |c.wants|
  {
    c.threads[u].Compare? && c.wants[u] > c.threads[u].cur && c.value != c.threads[u].cur
  }

  /** How often the swap of `t` fails in a run. */
  function Failures(c: Cell, schedule: seq<nat>, t: nat): nat
    decreases |schedule|
  {
    if schedule == [] || !(schedule[0] < |c.threads| == |c.wants|) then 0
    else (if schedule[0] == t && Fails(c, t) then 1 else 0) + Failures(Step(c, schedule[0]), schedule[1..], t)
  }

  /** How often the others swap a value in. */
  function OtherSwaps(c: Cell, schedule: seq<nat>, t: nat): nat
    decreases |schedule|
  {
    if schedule == [] || !(schedule[0] < |c.threads| == |c.wants|) then 0
    else (if schedule[0] != t && Swaps(c, schedule[0]) then 1 else 0) + OtherSwaps(Step(c, schedule[0]), schedule[1..], t)
  }

  /** What `t` has read is out of date. */
  function Stale(c: Cell, t: nat): nat {
    if t < |c.threads| && c.threads[t].Compare? && c.threads[t].cur != c.value then 1 else 0
  }

  lemma {:induction false} EachFailureHasASwap(c: Cell, schedule: seq<nat>, c': Cell, t: nat)
    requires Reaches(c, schedule, c')
    ensures Failures(c, schedule, t) <= OtherSwaps(c, schedule, t) + Stale(c, t)
    decreases |schedule|
  {
    if schedule != [] { EachFailureHasASwap(Step(c, schedule[0]), schedule[1..], c', t); }
  }

  /** The threads other than `t` that are not done. */
  function Others(c: Cell, t: nat): set<nat> {
    set u | 0 <= u < |c.threads| && u != t && !c.threads[u].Done?
  }

  lemma {:induction false} EachSwapsOnce(c: Cell, schedule: seq<nat>, c': Cell, t: nat)
    requires Reaches(c, schedule, c')
    ensures OtherSwaps(c, schedule, t) <= |Others(c, t)|
    decreases |schedule|
  {
    if schedule != [] {
      var u, d := schedule[0], Step(c, schedule[0]);
      EachSwapsOnce(d, schedule[1..], c', t);
      SubsetSize(Others(d, t), if u != t && Swaps(c, u) then Others(c, t) - {u} else Others(c, t));
    }
  }

  /** Retrying is bounded under every schedule: the swap of a thread fails at most as often as the others swap, and each
      of them swaps at most once. */
  lemma {:induction false} RetriesBounded(c: Cell, schedule: seq<nat>, c': Cell, t: nat)
    requires Initial(c) && Reaches(c, schedule, c') && t < |c.threads|
    ensures Failures(c, schedule, t) <= OtherSwaps(c, schedule, t) <= |c.threads| - 1
  {
    EachFailureHasASwap(c, schedule, c', t);
    EachSwapsOnce(c, schedule, c', t);
    SubsetSize(Others(c, t), UpTo(|c.threads|) - {t});
  }

  /** The numbers below `n`. */
  function UpTo(n: nat): (r: set<nat>)
    ensures |r| == n && forall u: nat :: u in r <==> u < n
  {
    if n == 0 then {} else UpTo(n - 1) + {n - 1}
  }
}
