/** runtime/arena_checkpoint.c: what a rewind gives back, and when that is what was allocated since the checkpoint. */
module ArenaRewind {
  import opened Basics
  import opened ArenaSpec
  import opened ArenaProofs

  /** No reset, no overflow, and the cursor is not below where it was. */
  predicate Above(c: Arena, a: Arena) {
    a.generation == c.generation && a.active.base == c.active.base && a.cursor >= c.cursor
  }

  /** That holds of every state of a run. */
  ghost predicate StaysAbove(c: Arena, w: World, ops: seq<Op>)
    requires WorldOk(w)
    decreases |ops|
  {
    Above(c, w.arena) &&
    (ops != [] ==> OpOk(w, ops[0]) ==> (StepKeeps(w, ops[0]); StaysAbove(c, Step(w, ops[0]), ops[1..])))
  }

  /** What was live at `c` is live, and everything else that is live lies past the cursor of `c`. */
  ghost predicate Grew(c: Arena, a: Arena) {
    && c.live <= a.live
    && forall b | b in a.live && b !in c.live :: b.seg == c.active.base && b.addr >= c.cursor
  }

  // ----- steps -----

  lemma {:induction false} AllocGrows(c: Arena, a: Arena, lease: Option<Lease>, bytes: nat, os: Os)
    requires Inv(a) && OsHonest(a, bytes, os) && Above(c, a) && Grew(c, a)
    ensures a.active.base <= a.cursor <= a.active.reservedEnd && a.pageSize > 0
    ensures var a' := Alloc(a, lease, bytes, os).arena; Above(c, a') ==> Grew(c, a')
  {
    ActiveBounds(a);
    NewBase(a, bytes, os);
    hide Inv, OsHonest, AlignUp, LeaseRefuses, CeilingReached, Max, Min, SegmentOk;
    var r := Alloc(a, lease, bytes, os);
    assert r.arena.active.base == a.active.base ==>
        r.arena.live == a.live || exists n :: r.arena.live == a.live + {Block(a.nextId, a.active.base, a.cursor, n)};
  }

  /** A new segment starts elsewhere. */
  lemma {:induction false} NewBase(a: Arena, bytes: nat, os: Os)
    requires Inv(a) && OsHonest(a, bytes, os)
    ensures a.pageSize > 0 && (os.reserveAt == a.active.base ==> NewReserve(a, AlignUp(bytes, ALIGN)) == 0)
  {
    hide AlignUp;
    ActiveBounds(a);
    assert Owned(a)[0] == a.active;
    SegmentsApart(a);
  }

  lemma {:induction false} RewindGrows(c: Arena, a: Arena, cp: Checkpoint)
    requires Inv(c) && Above(c, a) && Grew(c, a) && Above(c, Rewind(a, cp))
    ensures Grew(c, Rewind(a, cp))
  {
    forall b | b in c.live ensures b in Rewind(a, cp).live { assert Housed(c, b); }
  }

  lemma {:induction false} StepGrows(c: Arena, w: World, op: Op)
    requires Inv(c) && WorldOk(w) && OpOk(w, op) && Above(c, w.arena) && Grew(c, w.arena)
    requires Above(c, Step(w, op).arena)
    ensures Grew(c, Step(w, op).arena)
  {
    hide Inv, Alloc, Rewind, Grew, OsHonest;
    match op
    case DoAlloc(bytes, os) => AllocGrows(c, w.arena, w.lease, bytes, os);
    case DoRewind(cp) => RewindGrows(c, w.arena, cp);
    case _ =>
  }

  lemma {:induction false} RunGrows(c: Arena, w: World, ops: seq<Op>, w': World)
    requires Inv(c) && WorldOk(w) && Reaches(w, ops, w') && StaysAbove(c, w, ops) && Grew(c, w.arena)
    ensures Above(c, w'.arena) && Grew(c, w'.arena)
    decreases |ops|
  {
    hide WorldOk, Inv, Above, Grew;
    if ops != [] {
      var v := Step(w, ops[0]);
      StepKeeps(w, ops[0]);
      AboveNow(c, v, ops[1..]);
      AboveNow(c, w, ops);
      StepGrows(c, w, ops[0]);
      RunGrows(c, v, ops[1..], w');
    } else {
      AboveNow(c, w, ops);
    }
  }

  lemma {:induction false} AboveNow(c: Arena, w: World, ops: seq<Op>)
    requires WorldOk(w) && StaysAbove(c, w, ops)
    ensures Above(c, w.arena)
  {
  }

  /** A rewind undoes the run since the checkpoint, as far as memory goes, when the run neither reset nor overflowed the
      arena and never brought the cursor below the checkpoint: it is accepted, the cursor is back, and exactly the blocks
      live at the checkpoint are live. */
  lemma {:induction false} RewindRestores(w: World, ops: seq<Op>, w': World)
    requires WorldOk(w) && Reaches(w, ops, w') && StaysAbove(w.arena, w, ops)
    ensures w.arena.active.base <= w.arena.cursor
    ensures var cp := TakeCheckpoint(w.arena);
            && RewindAccepts(w'.arena, cp)
            && Rewind(w'.arena, cp).cursor == w.arena.cursor
            && Rewind(w'.arena, cp).live == w.arena.live
  {
    ActiveBounds(w.arena);
    RunKeeps(w, ops, w');
    RunGrows(w.arena, w, ops, w');
    var c, a := w.arena, w'.arena;
    var r := Rewind(a, TakeCheckpoint(c));
    forall b | b in c.live ensures b in r.live { assert Housed(c, b); }
    forall b | b in r.live ensures b in c.live { assert b in a.live && b.size > 0; }
  }

  /** When the arena overflowed since, a checkpoint from before is judged by its offset alone. An accepted rewind moves
      the cursor of the new segment and releases nothing anywhere else, neither what was live at the checkpoint nor what
      the old segment got after it; every block it releases is newer than the checkpoint. */
  lemma {:induction false} RewindAfterOverflow(w: World, ops: seq<Op>, w': World, b: Block)
    requires WorldOk(w) && Reaches(w, ops, w')
    requires w'.arena.generation == w.arena.generation && w'.arena.active.base != w.arena.active.base
    requires b in w'.arena.live
    ensures w.arena.active.base <= w.arena.cursor
    ensures var a, cp := w'.arena, TakeCheckpoint(w.arena);
            && (RewindAccepts(a, cp) <==> cp.offset <= a.cursor - a.active.base)
            && (b !in Rewind(a, cp).live ==> b.seg == a.active.base && b !in w.arena.live)
  {
    ActiveBounds(w.arena);
    var a, cp := w'.arena, TakeCheckpoint(w.arena);
    if b in w.arena.live && RewindAccepts(a, cp) { RewindKeepsLive(w, ops, w', b); }
  }

  // ----- two runs that leave the condition -----

  const HOME: nat := 0x1000_0000
  const AWAY: nat := 0x2000_0000

  /** A new arena of 64 MiB on 4 KiB pages. */
  function Started(): (w: World) {
    World(Arena(Segment(HOME, HOME + 0x1_0000, HOME + 0x400_0000), HOME, [], 4096, 0, false, 0, 0, 0, 0,
                0x1_0000, 0x400_0000, 1, 0, 0x400_0000, 0x1_0000, {}, 0), None, 0)
  }

  lemma {:induction false} StartedIsNew()
    ensures Create(0, 4096, 0, Os(HOME, true, true)) == Some(Started().arena) && WorldOk(Started())
  {
    hide Inv;
    var os := Os(HOME, true, true);
    StartedSizes();
    CreateSound(0, 4096, 0, os);
  }

  lemma {:induction false} StartedSizes()
    ensures CreateReserve(0, 4096) == 0x400_0000 && CreateCommit(0, 4096) == 0x1_0000
  {
  }

  /** Sixteen bytes from the committed part. */
  lemma {:induction false} Sixteen(w: World)
    requires WorldOk(w) && w.lease == None && w.arena.cursor + 16 <= w.arena.active.committedEnd
    ensures var op := DoAlloc(16, Os(0, true, true));
            OpOk(w, op) && Step(w, op).lease == None && Step(w, op).arena == Bump(w.arena.(ceilingHit := false), 16, 16)
  {
    hide Inv;
    ActiveBounds(w.arena);
  }

  /** An overflow: the checkpoint was taken in an empty arena, then one block went to the old segment and one, too large
      for it, to a new one. The rewind is accepted, releases the second and leaves the first alive. */
  lemma {:induction false} OverflowRun()
    ensures var w, small, large := Started(), DoAlloc(16, Os(0, true, true)), DoAlloc(0x400_0000, Os(AWAY, true, true));
            exists w' :: Reaches(w, [small, large], w') && LeavesOne(w, w', Block(0, HOME, HOME, 16))
  {
    hide Inv;
    var w, small, large := Started(), DoAlloc(16, Os(0, true, true)), DoAlloc(0x400_0000, Os(AWAY, true, true));
    StartedIsNew();
    Sixteen(w);
    StepKeeps(w, small);
    var v := Step(w, small);
    LargeOverflows(v);
    var w' := Step(v, large);
    assert [small, large][1..] == [large] && [large][1..] == [];
    assert Reaches(w', [], w') && Reaches(v, [large], w') && Reaches(w, [small, large], w');
    assert LeavesOne(w, w', Block(0, HOME, HOME, 16));
  }

  /** A rewind below the checkpoint first: the checkpoint was taken behind one block, the arena emptied, and two blocks
      were allocated in its place. The rewind is accepted, the block live at the checkpoint is gone and a newer one is left. */
  lemma {:induction false} LoweredRun()
    ensures var small, empty := DoAlloc(16, Os(0, true, true)), DoRewind(Checkpoint(0, 1));
            exists w, w' :: Reaches(Started(), [small], w) && Reaches(w, [empty, small, small], w')
                            && LeavesOne(w, w', Block(1, HOME, HOME, 16))
  {
    hide WorldOk, Step, LeavesOne, Bump, Started, Rewind;
    var small, empty := DoAlloc(16, Os(0, true, true)), DoRewind(Checkpoint(0, 1));
    StartedIsNew();
    RoomForTwo();
    Sixteen(Started());
    var w := Step(Started(), small);
    StepKeeps(Started(), small);
    ReachesOne(Started(), small);
    Emptied(w);
    var x := Step(w, empty);
    StepKeeps(w, empty);
    Sixteen(x);
    var y := Step(x, small);
    StepKeeps(x, small);
    RoomForMore(x.arena);
    Sixteen(y);
    ReachesThree(w, empty, small, small);
    TwoBlocks(w, x, y, Step(y, small));
  }

  lemma {:induction false} ReachesOne(w: World, op: Op)
    requires WorldOk(w) && OpOk(w, op)
    ensures Reaches(w, [op], Step(w, op))
  {
    hide WorldOk, Step;
    assert [op][1..] == [] && Reaches(Step(w, op), [], Step(w, op));
  }

  lemma {:induction false} ReachesThree(w: World, a: Op, b: Op, c: Op)
    requires WorldOk(w) && OpOk(w, a) && WorldOk(Step(w, a)) && OpOk(Step(w, a), b)
    requires WorldOk(Step(Step(w, a), b)) && OpOk(Step(Step(w, a), b), c)
    ensures Reaches(w, [a, b, c], Step(Step(Step(w, a), b), c))
  {
    hide WorldOk, Step, OpOk;
    var x := Step(w, a);
    var y := Step(x, b);
    ReachesOne(y, c);
    assert [a, b, c][1..] == [b, c] && [b, c][1..] == [c];
    assert Reaches(x, [b, c], Step(y, c));
  }

  lemma {:induction false} RoomForTwo()
    ensures Started().lease == None && Started().arena.cursor + 16 <= Started().arena.active.committedEnd
  {
  }

  lemma {:induction false} RoomForMore(a: Arena)
    requires a.active.base == a.cursor == HOME && a.active.committedEnd == HOME + 0x1_0000
    ensures var b := Bump(a.(ceilingHit := false), 16, 16); b.active.base <= b.cursor && b.cursor + 16 <= b.active.committedEnd
  {
  }

  /** What `Bump` does to the parts that matter here. */
  lemma {:induction false} Bumped(a: Arena)
    requires a.active.base <= a.cursor
    ensures var b := Bump(a.(ceilingHit := false), 16, 16);
            && b.active == a.active && b.cursor == a.cursor + 16 && b.generation == a.generation && b.nextId == a.nextId + 1
            && b.live == a.live + {Block(a.nextId, a.active.base, a.cursor, 16)}
  {
  }

  lemma {:induction false} StartedParts()
    ensures var a := Started().arena;
            && a.active.base == a.cursor == HOME && a.active.committedEnd == HOME + 0x1_0000 && a.generation == 1
            && a.live == {} && a.nextId == 0
  {
  }

  /** The one block gone again. */
  lemma {:induction false} Emptied(w: World)
    requires WorldOk(w) && w.lease == None && w.arena == Bump(Started().arena.(ceilingHit := false), 16, 16)
    ensures OpOk(w, DoRewind(Checkpoint(0, 1)))
    ensures var x := Step(w, DoRewind(Checkpoint(0, 1)));
            && x.lease == None && x.arena.live == {} && x.arena.nextId == 1 && x.arena.generation == 1
            && x.arena.active == w.arena.active && x.arena.active.base == x.arena.cursor == HOME
            && x.arena.active.committedEnd == HOME + 0x1_0000
  {
    hide Inv, Bump, Started;
    StartedParts();
    Bumped(Started().arena);
    assert w.arena.live == {Block(0, HOME, HOME, 16)};
  }

  lemma {:induction false} TwoBlocks(w: World, x: World, y: World, w': World)
    requires w.arena == Bump(Started().arena.(ceilingHit := false), 16, 16)
    requires x.arena.active.base == x.arena.cursor == HOME && x.arena.generation == 1
    requires x.arena.live == {} && x.arena.nextId == 1
    requires y.arena == Bump(x.arena.(ceilingHit := false), 16, 16)
    requires y.arena.active.base <= y.arena.cursor && w'.arena == Bump(y.arena.(ceilingHit := false), 16, 16)
    ensures LeavesOne(w, w', Block(1, HOME, HOME, 16))
  {
    hide Bump, Started;
    StartedParts();
    Bumped(Started().arena);
    Bumped(x.arena);
    Bumped(y.arena);
    assert w'.arena.live == {Block(1, HOME, HOME, 16), Block(2, HOME, HOME + 16, 16)};
  }

  lemma {:induction false} LargeOverflows(v: World)
    requires WorldOk(v) && v.lease == None && v.arena == Bump(Started().arena, 16, 16)
    ensures var op := DoAlloc(0x400_0000, Os(AWAY, true, true));
            && OpOk(v, op)
            && Step(v, op).arena == Overflow(v.arena, 0x400_0000, 0x400_0000, 0x400_0000, 0x400_0000, AWAY)
  {
    hide Inv;
    ActiveBounds(v.arena);
    assert Owned(v.arena) == [v.arena.active];
  }

  /** The rewind from `w'` to the checkpoint of the empty `w` is accepted and leaves `b`, which is newer. */
  ghost predicate LeavesOne(w: World, w': World, b: Block) {
    w.arena.active.base <= w.arena.cursor &&
    var cp := TakeCheckpoint(w.arena);
    RewindAccepts(w'.arena, cp) && w.arena.nextId <= b.id && Rewind(w'.arena, cp).live == {b}
  }
}
