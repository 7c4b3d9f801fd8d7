/** What every arena operation keeps, and what a rewind gives back. */
module ArenaProofs {
  import opened Basics
  import opened ArenaSpec
  import opened Numbers

  // ----- rounding up -----

  /** Rounding up gives the least multiple that is at least the size; 0 means that the size is 0 or that the code's sum
      overflows. */
  lemma {:induction false} AlignUpLeast(size: nat, a: nat)
    requires a > 0
    ensures AlignUp(size, a) == 0 <==> size == 0 || size + (a - 1) > SIZE_MAX
    ensures AlignUp(size, a) % a == 0
    ensures AlignUp(size, a) != 0 ==> size <= AlignUp(size, a) < size + a && AlignUp(size, a) <= SIZE_MAX
    ensures AlignUp(size, a) != 0 ==> forall m: nat | m % a == 0 && size <= m :: AlignUp(size, a) <= m
  {
    var x := size + (a - 1);
    DivMul(x, a);
    if x <= SIZE_MAX {
      var r := x / a * a;
      assert size <= r by { assert x < r + a; }
      if size == 0 { assert x / a == 0 by { SmallDiv(a - 1, a); } }
      forall m: nat | m % a == 0 && size <= m ensures r <= m {
        if m < r {
          ModAdd(r, m, a);
          assert 0 < r - m < a;
          SmallModulo(r - m, a);
          assert false;
        }
      }
    }
  }

  /** For the alignments the runtime uses, those that divide 2^64, an overflow means that no multiple fits. */
  lemma {:induction false} AlignUpFits(size: nat, a: nat)
    requires a > 0 && (SIZE_MAX + 1) % a == 0
    ensures AlignUp(size, a) == 0 <==> size == 0 || forall m: nat | m % a == 0 && size <= m :: m > SIZE_MAX
  {
    AlignUpLeast(size, a);
    if size != 0 && AlignUp(size, a) == 0 {
      forall m: nat | m % a == 0 && size <= m ensures m > SIZE_MAX {
        if m <= SIZE_MAX {
          ModAdd(SIZE_MAX + 1, m, a);
          SmallModulo(SIZE_MAX + 1 - m, a);
        }
      }
    }
  }

  /** For another alignment a multiple may fit and still be refused. */
  lemma {:induction false} AlignUpRefusesMultiple()
    ensures SIZE_MAX % 3 == 0 && AlignUp(SIZE_MAX, 3) == 0
  {
  }

  lemma {:induction false} AlignUpMonotone(x: nat, y: nat, a: nat)
    requires a > 0 && x <= y && AlignUp(x, a) != 0 && AlignUp(y, a) != 0
    ensures AlignUp(x, a) <= AlignUp(y, a)
  {
    AlignUpLeast(x, a);
    AlignUpLeast(y, a);
  }

  // ----- bump, grow, overflow -----

  /** A live block does not reach into the space past the cursor. */
  lemma {:induction false} LiveBeforeCursor(a: Arena, b: Block, c: Block)
    requires SegmentsOk(Owned(a), a.pageSize) && Housed(a, b)
    requires c.addr == a.cursor && a.active.base <= a.cursor && a.cursor + c.size <= a.active.committedEnd
    ensures DisjointBlocks(b, c)
  {
    SegmentsApart(a);
    if b.seg != a.active.base {
      var i :| HousedIn(a.retired, i, b);
      assert Apart(a.active, a.retired[i]) && SegmentOk(a.retired[i], a.pageSize);
    }
  }

  lemma {:induction false} BumpHoused(a: Arena, bytes: nat, aligned: nat, b: Block)
    requires a.active.base <= a.cursor && Housed(a, b)
    ensures Housed(Bump(a, bytes, aligned), b)
  {
  }

  lemma {:induction false} BumpBlocks(a: Arena, bytes: nat, aligned: nat)
    requires SegmentsOk(Owned(a), a.pageSize) && BlocksOk(a) && a.active.base <= a.cursor && a.cursor % ALIGN == 0
    requires aligned > 0 && aligned % ALIGN == 0 && a.cursor + aligned <= a.active.committedEnd
    ensures BlocksOk(Bump(a, bytes, aligned))
  {
    hide SegmentsOk, DisjointBlocks, HousedIn, Max;
    var a' := Bump(a, bytes, aligned);
    var added := Block(a.nextId, a.active.base, a.cursor, aligned);
    assert a'.live == a.live + {added};
    assert Housed(a', added);
    forall b | b in a.live ensures Housed(a', b) && DisjointBlocks(b, added) && DisjointBlocks(added, b) {
      BumpHoused(a, bytes, aligned, b);
      LiveBeforeCursor(a, b, added);
      DisjointSwap(b, added);
    }
  }

  lemma {:induction false} DisjointSwap(b: Block, c: Block)
    ensures DisjointBlocks(b, c) == DisjointBlocks(c, b)
  {
  }

  lemma {:induction false} BumpKeeps(a: Arena, bytes: nat, aligned: nat)
    requires Inv(a) && aligned > 0 && aligned % ALIGN == 0 && a.cursor + aligned <= a.active.committedEnd
    ensures Inv(Bump(a, bytes, aligned))
  {
    hide SegmentsOk, PageSizeOk, BlocksOk, SumCommitted, SumReserved;
    assert Owned(Bump(a, bytes, aligned)) == Owned(a);
    BumpBlocks(a, bytes, aligned);
  }

  /** Retired segments do not overlap the active one. */
  lemma {:induction false} SegmentsApart(a: Arena)
    requires SegmentsOk(Owned(a), a.pageSize)
    ensures forall i | 0 <= i < |a.retired| :: Apart(a.active, a.retired[i]) && a.retired[i].base != a.active.base
    ensures forall i | 0 <= i < |a.retired| :: SegmentOk(a.retired[i], a.pageSize)
    ensures SegmentOk(a.active, a.pageSize) && a.active.base < a.active.reservedEnd
  {
    var segs := Owned(a);
    assert segs[0] == a.active;
    forall i | 0 <= i < |a.retired|
      ensures Apart(a.active, a.retired[i]) && a.retired[i].base != a.active.base && SegmentOk(a.retired[i], a.pageSize)
    {
      assert segs[i + 1] == a.retired[i];
    }
  }

  /** The arena with more of the active segment committed. */
  function Grown(a: Arena, more: nat): Arena {
    a.(active := a.active.(committedEnd := a.active.committedEnd + more), committedBytes := a.committedBytes + more)
  }

  lemma {:induction false} GrowSegments(a: Arena, more: nat)
    requires PageSizeOk(a.pageSize) && SegmentsOk(Owned(a), a.pageSize)
    requires more % a.pageSize == 0 && a.active.committedEnd + more <= a.active.reservedEnd
    ensures SegmentsOk(Owned(Grown(a, more)), a.pageSize)
  {
    var segs, segs' := Owned(a), Owned(Grown(a, more));
    assert segs[0] == a.active && segs'[0] == Grown(a, more).active;
    ModAdd(a.active.committedEnd, more, a.pageSize);
    assert forall i | 1 <= i < |segs| :: segs'[i] == segs[i];
  }

  lemma {:induction false} GrowBlocks(a: Arena, more: nat)
    requires BlocksOk(a)
    ensures BlocksOk(Grown(a, more))
  {
    var a' := Grown(a, more);
    forall b | b in a'.live ensures Housed(a', b) { assert Housed(a, b); }
  }

  lemma {:induction false} GrowAccounts(a: Arena, more: nat)
    requires AccountsOk(a) && !CeilingReached(a, more)
    ensures AccountsOk(Grown(a, more))
  {
    assert Owned(a)[1..] == a.retired && Owned(Grown(a, more))[1..] == a.retired;
  }

  lemma {:induction false} GrowKeeps(a: Arena, more: nat)
    requires Inv(a) && more % a.pageSize == 0 && a.active.committedEnd + more <= a.active.reservedEnd
    requires !CeilingReached(a, more)
    ensures Inv(Grown(a, more))
  {
    hide SegmentsOk, BlocksOk, AccountsOk, CeilingReached;
    GrowSegments(a, more);
    GrowBlocks(a, more);
    GrowAccounts(a, more);
  }

  /** A free region added in front of the owned segments keeps them apart. */
  lemma {:induction false} OverflowSegments(a: Arena, s: Segment)
    requires SegmentsOk(Owned(a), a.pageSize) && SegmentOk(s, a.pageSize) && s.base < s.reservedEnd
    requires RegionFree(Owned(a), s.base, s.reservedEnd - s.base, a.pageSize)
    ensures SegmentsOk([s] + Owned(a), a.pageSize)
  {
    var segs := [s] + Owned(a);
    forall i, j | 0 <= i < j < |segs| ensures Apart(segs[i], segs[j]) {
      assert segs[j] == Owned(a)[j - 1];
      if i > 0 { assert segs[i] == Owned(a)[i - 1]; }
    }
  }

  lemma {:induction false} OverflowBlocks(a: Arena, bytes: nat, aligned: nat, reserve: nat, commit: nat, p: nat)
    requires SegmentsOk(Owned(a), a.pageSize) && BlocksOk(a)
    requires a.cursor <= a.active.committedEnd <= a.active.reservedEnd
    requires aligned > 0 && aligned % ALIGN == 0 && p % ALIGN == 0 && aligned <= commit <= reserve
    requires RegionFree(Owned(a), p, reserve, a.pageSize)
    ensures BlocksOk(Overflow(a, bytes, aligned, reserve, commit, p))
  {
    var a' := Overflow(a, bytes, aligned, reserve, commit, p);
    var added := Block(a.nextId, p, p, aligned);
    SegmentsApart(a);
    assert Owned(a)[0] == a.active;
    forall b | b in a.live ensures Housed(a', b) && DisjointBlocks(b, added) && b.id != added.id {
      assert Housed(a, b);
      if b.seg == a.active.base {
        assert HousedIn(a'.retired, 0, b);
      } else {
        var i :| HousedIn(a.retired, i, b);
        assert Owned(a)[i + 1] == a.retired[i];
        assert HousedIn(a'.retired, i + 1, b);
      }
    }
  }

  lemma {:induction false} OverflowKeeps(a: Arena, bytes: nat, aligned: nat, reserve: nat, commit: nat, p: nat)
    requires Inv(a) && aligned > 0 && aligned % ALIGN == 0 && aligned <= commit <= reserve
    requires commit % a.pageSize == 0 && reserve % a.pageSize == 0 && !CeilingReached(a, commit)
    requires RegionFree(Owned(a), p, reserve, a.pageSize)
    ensures Inv(Overflow(a, bytes, aligned, reserve, commit, p))
  {
    var a' := Overflow(a, bytes, aligned, reserve, commit, p);
    ModTrans(p, a.pageSize, ALIGN);
    ModAdd(p, aligned, ALIGN);
    ModAdd(p, commit, a.pageSize);
    ModAdd(p, reserve, a.pageSize);
    OverflowBlocks(a, bytes, aligned, reserve, commit, p);
    OverflowSegments(a, a'.active);
    assert Owned(a') == [a'.active] + Owned(a);
    assert Owned(a')[1..] == Owned(a);
  }

  lemma {:induction false} FlagKeeps(a: Arena, hit: bool)
    requires Inv(a)
    ensures Inv(a.(ceilingHit := hit))
  {
    var a' := a.(ceilingHit := hit);
    forall b | b in a'.live ensures Housed(a', b) { assert Housed(a, b); }
  }

  /** Every outcome of an allocation keeps the arena sound. */
  lemma {:induction false} AllocKeeps(a: Arena, lease: Option<Lease>, bytes: nat, os: Os)
    requires Inv(a) && OsHonest(a, bytes, os)
    ensures a.active.base <= a.cursor <= a.active.reservedEnd
    ensures Inv(Alloc(a, lease, bytes, os).arena)
  {
    ActiveBounds(a);
    var aligned := AlignUp(bytes, ALIGN);
    AlignUpLeast(bytes, ALIGN);
    FlagKeeps(a, false);
    var b := a.(ceilingHit := false);
    FlagKeeps(b, true);
    if bytes != 0 && aligned != 0 {
      var charged := Charge(lease, aligned);
      if aligned <= a.active.reservedEnd - a.cursor {
        SegmentAllocKeeps(b, charged, bytes, aligned, os);
      } else {
        assert Owned(b) == Owned(a);
        OverflowAllocKeeps(b, charged, bytes, aligned, os);
      }
    }
  }

  lemma {:induction false} ActiveBounds(a: Arena)
    requires Inv(a)
    ensures a.pageSize > 0 && SegmentOk(a.active, a.pageSize)
    ensures a.active.base <= a.cursor <= a.active.committedEnd <= a.active.reservedEnd
  {
    assert Owned(a)[0] == a.active;
  }

  lemma {:induction false} AlignUpBelow(size: nat, a: nat, m: nat)
    requires a > 0 && m % a == 0 && size <= m
    ensures AlignUp(size, a) <= m
  {
    hide AlignUp;
    AlignUpLeast(size, a);
  }

  /** The pages a longer block needs lie inside the reservation. */
  lemma {:induction false} MoreFits(a: Arena, aligned: nat)
    requires Inv(a) && a.active.committedEnd < a.cursor + aligned <= a.active.reservedEnd
    ensures a.pageSize > 0
    ensures var more := AlignUp(a.cursor + aligned - a.active.committedEnd, a.pageSize);
            && more % a.pageSize == 0 && a.active.committedEnd + more <= a.active.reservedEnd
            && (more != 0 ==> a.cursor + aligned <= a.active.committedEnd + more)
  {
    hide Inv, AlignUp;
    ActiveBounds(a);
    var needed := a.cursor + aligned - a.active.committedEnd;
    AlignUpLeast(needed, a.pageSize);
    ModAdd(a.active.reservedEnd, a.active.committedEnd, a.pageSize);
    AlignUpBelow(needed, a.pageSize, a.active.reservedEnd - a.active.committedEnd);
  }

  lemma {:induction false} SegmentAllocKeeps(a: Arena, lease: Option<Lease>, bytes: nat, aligned: nat, os: Os)
    requires Inv(a) && aligned > 0 && aligned % ALIGN == 0 && a.cursor + aligned <= a.active.reservedEnd
    ensures a.pageSize > 0 && a.active.base <= a.cursor
    ensures Inv(AllocInSegment(a, lease, bytes, aligned, os).arena)
  {
    hide Inv, AlignUp, Bump, CeilingReached, SegmentOk;
    ActiveBounds(a);
    FlagKeeps(a, true);
    if a.cursor + aligned <= a.active.committedEnd {
      BumpKeeps(a, bytes, aligned);
    } else {
      var more := AlignUp(a.cursor + aligned - a.active.committedEnd, a.pageSize);
      MoreFits(a, aligned);
      if more != 0 && !CeilingReached(a, more) {
        GrowKeeps(a, more);
        BumpKeeps(Grown(a, more), bytes, aligned);
      }
    }
  }

  lemma {:induction false} OverflowAllocKeeps(a: Arena, lease: Option<Lease>, bytes: nat, aligned: nat, os: Os)
    requires Inv(a) && aligned > 0 && aligned % ALIGN == 0
    requires os.reserveAt != 0 ==> RegionFree(Owned(a), os.reserveAt, NewReserve(a, aligned), a.pageSize)
    ensures a.pageSize > 0 && Inv(AllocOverflow(a, lease, bytes, aligned, os).arena)
  {
    hide Inv, RegionFree;
    ActiveBounds(a);
    FlagKeeps(a, true);
    var reserve, commit := NewReserve(a, aligned), NewCommit(a, aligned);
    AlignUpLeast(Max(aligned, DEFAULT_RESERVE), a.pageSize);
    AlignUpLeast(Max(aligned, DEFAULT_COMMIT), a.pageSize);
    if reserve != 0 && commit != 0 && !CeilingReached(a, commit) && os.reserveAt != 0 {
      AlignUpMonotone(Max(aligned, DEFAULT_COMMIT), Max(aligned, DEFAULT_RESERVE), a.pageSize);
      OverflowKeeps(a, bytes, aligned, reserve, commit, os.reserveAt);
    }
  }

  // ----- create, reset, rewind -----

  lemma {:induction false} CreateSound(initial: nat, page: nat, maxRule: nat, os: Os)
    requires PageSizeOk(page)
    requires os.reserveAt != 0 ==>
               RegionFree([], os.reserveAt, Max(CreateReserve(initial, page), CreateCommit(initial, page)), page)
    ensures var r := Create(initial, page, maxRule, os);
            r.Some? ==> Inv(r.value) && r.value.live == {} && r.value.alignedBytes == 0
  {
    AlignUpLeast(Max(initial, DEFAULT_RESERVE), page);
    AlignUpLeast(if initial > 0 then initial else DEFAULT_COMMIT, page);
    var r := Create(initial, page, maxRule, os);
    if r.Some? {
      var a := r.value;
      ModTrans(a.cursor, page, ALIGN);
      ModAdd(a.active.base, CreateCommit(initial, page), page);
      ModAdd(a.active.base, a.reservedBytes, page);
      assert Owned(a) == [a.active];
      assert Owned(a)[1..] == [];
    }
  }

  lemma {:induction false} ResetKeeps(a: Arena)
    requires Inv(a)
    ensures a.pageSize > 0 && a.active.base <= a.cursor && a.active.base <= a.active.committedEnd <= a.active.reservedEnd
    ensures Inv(Reset(a))
    ensures Reset(a).committedBytes <= a.committedBytes
  {
    ActiveBounds(a);
    var keep := Min(Max(HOT_RETENTION_LIMIT, a.cursor - a.active.base), HOT_RETENTION_CEILING);
    AlignUpLeast(keep, a.pageSize);
    ModAdd(a.active.reservedEnd, a.active.base, a.pageSize);
    ModAdd(a.active.base, KeepSize(a), a.pageSize);
    ModTrans(a.active.base, a.pageSize, ALIGN);
    var r := Reset(a);
    SegmentsApart(a);
    assert Owned(r) == [r.active] && Owned(r)[1..] == [];
    assert Owned(a)[1..] == a.retired;
    SumNonNegative(a.retired, a.pageSize);
  }

  /** After a reset nothing is live, one segment is left and no earlier checkpoint is accepted. What was used stays
      committed up to the ceiling, and no more than the ceiling and less than a page does. */
  lemma {:induction false} ResetStartsOver(a: Arena)
    requires Inv(a)
    ensures a.pageSize > 0 && a.active.base <= a.cursor && a.active.base <= a.active.committedEnd <= a.active.reservedEnd
    ensures Reset(a).live == {} && |Owned(Reset(a))| == 1
    ensures forall cp: Checkpoint | cp.generation <= a.generation :: !RewindAccepts(Reset(a), cp)
    ensures a.cursor - a.active.base <= HOT_RETENTION_CEILING && AlignUp(HOT_RETENTION_CEILING, a.pageSize) != 0 ==>
              a.cursor <= Reset(a).active.committedEnd
    ensures Reset(a).committedBytes < HOT_RETENTION_CEILING + a.pageSize
  {
    hide Inv, AlignUp, SegmentOk, KeepSize;
    ActiveBounds(a);
    KeepBounds(a);
  }

  lemma {:induction false} KeepBounds(a: Arena)
    requires a.pageSize > 0 && a.active.base <= a.cursor <= a.active.reservedEnd <= SIZE_MAX
    ensures a.cursor - a.active.base <= HOT_RETENTION_CEILING && AlignUp(HOT_RETENTION_CEILING, a.pageSize) != 0 ==>
              a.cursor <= a.active.base + KeepSize(a)
    ensures KeepSize(a) < HOT_RETENTION_CEILING + a.pageSize
  {
    hide AlignUp;
    var keep := Min(Max(HOT_RETENTION_LIMIT, a.cursor - a.active.base), HOT_RETENTION_CEILING);
    AlignUpLeast(keep, a.pageSize);
    AlignUpLeast(HOT_RETENTION_CEILING, a.pageSize);
  }

  lemma {:induction false} SumNonNegative(segs: seq<Segment>, page: nat)
    requires page > 0 && forall i | 0 <= i < |segs| :: SegmentOk(segs[i], page)
    ensures SumCommitted(segs) >= 0
  {
    if segs != [] { SumNonNegative(segs[1..], page); }
  }

  lemma {:induction false} RewindKeeps(a: Arena, cp: Checkpoint)
    requires Inv(a) && cp.offset % ALIGN == 0
    ensures Inv(Rewind(a, cp))
  {
    ActiveBounds(a);
    ModTrans(a.active.base, a.pageSize, ALIGN);
    var r := Rewind(a, cp);
    if RewindAccepts(a, cp) {
      ModAdd(a.active.base, cp.offset, ALIGN);
      assert Owned(r) == Owned(a);
      forall b | b in r.live ensures Housed(r, b) { assert Housed(a, b); }
    }
  }

  // ----- runs -----

  /** One arena, the lease its thread holds, and the bytes served under that lease. */
  datatype World = World(arena: Arena, lease: Option<Lease>, served: nat)

  datatype Op =
    | DoAlloc(bytes: nat, os: Os)
    | DoRewind(cp: Checkpoint)
    | DoReset
    | StartLease(limit: nat)
    | EndLease

  ghost predicate WorldOk(w: World) {
    Inv(w.arena) && (w.lease.Some? ==> w.served <= w.lease.value.bytes <= w.lease.value.limit)
  }

  /** The reservation promise for an allocation; a rewind uses an offset some checkpoint gave. */
  ghost predicate OpOk(w: World, op: Op) {
    match op
    case DoAlloc(bytes, os) => OsHonest(w.arena, bytes, os)
    case DoRewind(cp) => cp.offset % ALIGN == 0
    case _ => true
  }

  ghost function Step(w: World, op: Op): World
    requires WorldOk(w)
  {
    ActiveBounds(w.arena);
    match op
    case DoAlloc(bytes, os) =>
      var r := Alloc(w.arena, w.lease, bytes, os);
      World(r.arena, r.lease, if r.ptr == 0 then w.served else w.served + AlignUp(bytes, ALIGN))
    case DoRewind(cp) => w.(arena := Rewind(w.arena, cp))
    case DoReset => w.(arena := Reset(w.arena))
    case StartLease(limit) => w.(lease := Some(Lease(0, limit)), served := 0)
    case EndLease => w.(lease := None)
  }

  lemma {:induction false} StepKeeps(w: World, op: Op)
    requires WorldOk(w) && OpOk(w, op)
    ensures WorldOk(Step(w, op))
  {
    hide Inv;
    match op
    case DoAlloc(bytes, os) => AllocKeeps(w.arena, w.lease, bytes, os);
    case DoRewind(cp) => RewindKeeps(w.arena, cp);
    case DoReset => ResetKeeps(w.arena);
    case _ =>
  }

  /** `w'` is reached from `w` by the operations `ops`. */
  ghost predicate Reaches(w: World, ops: seq<Op>, w': World)
    decreases |ops|
  {
    if ops == [] then w' == w
    else WorldOk(w) && OpOk(w, ops[0]) && Reaches(Step(w, ops[0]), ops[1..], w')
  }

  /** Over every run the arena stays sound, and the lease stays within its limit and covers all bytes served under it. */
  lemma {:induction false} RunKeeps(w: World, ops: seq<Op>, w': World)
    requires WorldOk(w) && Reaches(w, ops, w')
    ensures WorldOk(w')
    decreases |ops|
  {
    hide WorldOk;
    if ops != [] {
      StepKeeps(w, ops[0]);
      RunKeeps(Step(w, ops[0]), ops[1..], w');
    }
  }

  ghost predicate Retired(a: Arena, base: nat) {
    exists i :: 0 <= i < |a.retired| && a.retired[i].base == base
  }

  lemma {:induction false} RetiredAt(a: Arena, i: nat)
    requires i < |a.retired|
    ensures Retired(a, a.retired[i].base)
  {
  }

  /** While the generation is unchanged, every segment owned before is owned still. */
  ghost predicate Since(a: Arena, b: Arena) {
    && a.generation <= b.generation
    && (a.generation == b.generation ==>
          && (a.active.base == b.active.base || Retired(b, a.active.base))
          && forall base | Retired(a, base) :: Retired(b, base))
  }

  lemma {:induction false} StepSince(w: World, op: Op)
    requires WorldOk(w)
    ensures Since(w.arena, Step(w, op).arena)
  {
    ActiveBounds(w.arena);
    var a, b := w.arena, Step(w, op).arena;
    if b.retired != a.retired && !op.DoReset? {
      assert b.retired == [a.active] + a.retired;
      assert b.retired[0] == a.active;
      forall base | Retired(a, base) ensures Retired(b, base) {
        var i :| 0 <= i < |a.retired| && a.retired[i].base == base;
        assert b.retired[i + 1] == a.retired[i];
      }
    }
  }

  lemma {:induction false} RunSince(w: World, ops: seq<Op>, w': World)
    requires WorldOk(w) && Reaches(w, ops, w')
    ensures Since(w.arena, w'.arena)
    decreases |ops|
  {
    hide WorldOk;
    if ops != [] {
      StepKeeps(w, ops[0]);
      StepSince(w, ops[0]);
      RunSince(Step(w, ops[0]), ops[1..], w');
    }
  }

  /** A successful rewind keeps every block that was live at the checkpoint and was not released
      since, whatever was allocated, rewound or overflowed in between. */
  lemma {:induction false} RewindKeepsLive(w: World, ops: seq<Op>, w': World, b: Block)
    requires WorldOk(w) && Reaches(w, ops, w')
    requires RewindAccepts(w'.arena, TakeCheckpoint(w.arena))
    requires b in w.arena.live && b in w'.arena.live
    ensures b in Rewind(w'.arena, TakeCheckpoint(w.arena)).live
  {
    RunKeeps(w, ops, w');
    RunSince(w, ops, w');
    var a, a' := w.arena, w'.arena;
    assert Housed(a, b);
    if b.seg == a'.active.base {
      SegmentsApart(a');
      if b.seg != a.active.base {
        var i :| HousedIn(a.retired, i, b);
        RetiredAt(a, i);
        assert false;
      }
    }
  }

  /** The guarantee a caller relies on: blocks live at the same time never share a byte and lie in owned, committed memory. */
  lemma {:induction false} LiveBlocksSound(w: World, ops: seq<Op>, w': World, b: Block, c: Block)
    requires WorldOk(w) && Reaches(w, ops, w') && b in w'.arena.live && c in w'.arena.live && b != c
    ensures DisjointBlocks(b, c) && b.addr % ALIGN == 0
    ensures exists s | s in Owned(w'.arena) :: s.base <= b.addr && b.addr + b.size <= s.committedEnd
  {
    RunKeeps(w, ops, w');
    var a := w'.arena;
    assert Housed(a, b);
    if b.seg == a.active.base {
      assert Owned(a)[0] == a.active;
    } else {
      var i :| HousedIn(a.retired, i, b);
      assert Owned(a)[i + 1] == a.retired[i];
    }
  }

  // ----- process-wide accounting -----

  /** What allocations add up to: how many, bytes asked for, bytes after alignment. */
  datatype Tally = Tally(allocs: nat, requested: nat, aligned: nat)

  function Plus(x: Tally, y: Tally): Tally {
    Tally(x.allocs + y.allocs, x.requested + y.requested, x.aligned + y.aligned)
  }

  /** All arenas ever created (None once destroyed), the process totals, and everything ever granted. */
  datatype Process = Process(arenas: seq<Option<Arena>>, totals: Perf, granted: Tally)

  datatype Act =
    | Open(initial: nat, page: nat, maxRule: nat, openOs: Os)
    | Grant(i: nat, bytes: nat, os: Os, lease: Option<Lease>)
    | Unwind(i: nat, cp: Checkpoint)
    | Recycle(i: nat)
    | Close(i: nat)

  /** Arena `i` exists and was not destroyed. */
  predicate Exists(p: Process, i: nat) {
    i < |p.arenas| && p.arenas[i].Some?
  }

  ghost predicate Sound(p: Process) {
    forall i: nat | Exists(p, i) :: Inv(p.arenas[i].value)
  }

  /** The act names an arena that exists, where it names one; the operating system keeps its promises, and a rewind uses
      an offset some checkpoint gave. */
  ghost predicate ActOk(p: Process, act: Act) {
    match act
    case Open(initial, page, _, os) =>
      PageSizeOk(page) && (os.reserveAt != 0 ==>
        RegionFree([], os.reserveAt, Max(CreateReserve(initial, page), CreateCommit(initial, page)), page))
    case Grant(i, bytes, os, _) => Exists(p, i) && OsHonest(p.arenas[i].value, bytes, os)
    case Unwind(i, cp) => Exists(p, i) && cp.offset % ALIGN == 0
    case Recycle(i) => Exists(p, i)
    case Close(i) => Exists(p, i)
  }

  ghost function Do(p: Process, act: Act): Process
    requires Sound(p) && ActOk(p, act)
  {
    match act
    case Open(initial, page, maxRule, os) => p.(arenas := p.arenas + [Create(initial, page, maxRule, os)])
    case Grant(i, bytes, os, lease) =>
      ActiveBounds(p.arenas[i].value);
      var r := Alloc(p.arenas[i].value, lease, bytes, os);
      Process(p.arenas[i := Some(r.arena)], p.totals,
              if r.ptr == 0 then p.granted else Plus(p.granted, Tally(1, bytes, AlignUp(bytes, ALIGN))))
    case Unwind(i, cp) => p.(arenas := p.arenas[i := Some(Rewind(p.arenas[i].value, cp))])
    case Recycle(i) =>
      ActiveBounds(p.arenas[i].value);
      p.(arenas := p.arenas[i := Some(Reset(p.arenas[i].value))], totals := Fold(p.totals, p.arenas[i].value))
    case Close(i) => p.(arenas := p.arenas[i := None], totals := Fold(p.totals, p.arenas[i].value))
  }

  function Pending(a: Option<Arena>): Tally {
    if a.None? then Tally(0, 0, 0) else Tally(a.value.allocCount, a.value.requestedBytes, a.value.alignedBytes)
  }

  function SumPending(arenas: seq<Option<Arena>>): Tally {
    if arenas == [] then Tally(0, 0, 0) else Plus(Pending(arenas[0]), SumPending(arenas[1..]))
  }

  function TotalsOf(p: Perf): Tally {
    Tally(p.allocCount, p.requestedBytes, p.alignedBytes)
  }

  /** Totals plus the counters still held by live arenas are everything ever granted. */
  ghost predicate Conserved(p: Process) {
    && Plus(TotalsOf(p.totals), SumPending(p.arenas)) == p.granted
    && p.totals.totalAllocBytes == p.totals.alignedBytes
  }

  lemma {:induction false} SumPendingUpdate(arenas: seq<Option<Arena>>, i: nat, a: Option<Arena>)
    requires i < |arenas|
    ensures Plus(SumPending(arenas[i := a]), Pending(arenas[i])) == Plus(SumPending(arenas), Pending(a))
  {
    hide Pending;
    if i == 0 {
      assert arenas[i := a][1..] == arenas[1..];
    } else {
      assert arenas[i := a][1..] == arenas[1..][i - 1 := a];
      SumPendingUpdate(arenas[1..], i - 1, a);
    }
  }

  lemma {:induction false} SumPendingAppend(arenas: seq<Option<Arena>>, a: Option<Arena>)
    ensures SumPending(arenas + [a]) == Plus(SumPending(arenas), Pending(a))
  {
    hide Pending;
    if arenas == [] {
      assert (arenas + [a])[1..] == [];
    } else {
      assert (arenas + [a])[1..] == arenas[1..] + [a];
      SumPendingAppend(arenas[1..], a);
    }
  }

  lemma {:induction false} AllocCounts(a: Arena, lease: Option<Lease>, bytes: nat, os: Os)
    requires Inv(a)
    ensures a.active.base <= a.cursor <= a.active.reservedEnd && a.pageSize > 0
    ensures var r := Alloc(a, lease, bytes, os);
            var before, after := Pending(Some(a)), Pending(Some(r.arena));
            after == if r.ptr == 0 then before else Plus(before, Tally(1, bytes, AlignUp(bytes, ALIGN)))
  {
    ActiveBounds(a);
  }

  lemma {:induction false} ResetCounts(a: Arena, p: Perf)
    requires Inv(a)
    ensures a.active.base <= a.cursor && a.active.base <= a.active.committedEnd <= a.active.reservedEnd && a.pageSize > 0
    ensures Pending(Some(Reset(a))) == Tally(0, 0, 0)
    ensures TotalsOf(Fold(p, a)) == Plus(TotalsOf(p), Pending(Some(a)))
  {
    ActiveBounds(a);
  }

  lemma {:induction false} RewindCounts(a: Arena, cp: Checkpoint)
    ensures Pending(Some(Rewind(a, cp))) == Pending(Some(a))
  {
  }

  /** Replacing one arena moves the sum by the difference of its counters. */
  lemma {:induction false} SwapConserves(p: Process, p': Process, i: nat, moved: Tally, added: Tally)
    requires Conserved(p) && i < |p.arenas| && |p'.arenas| == |p.arenas| && p'.arenas == p.arenas[i := p'.arenas[i]]
    requires TotalsOf(p'.totals) == Plus(TotalsOf(p.totals), moved)
    requires p'.totals.totalAllocBytes - p.totals.totalAllocBytes == moved.aligned
    requires Plus(Pending(p'.arenas[i]), moved) == Plus(Pending(p.arenas[i]), added)
    requires p'.granted == Plus(p.granted, added)
    ensures Conserved(p')
  {
    hide Pending, SumPending;
    SumPendingUpdate(p.arenas, i, p'.arenas[i]);
  }

  /** Every act leaves every arena sound. */
  lemma {:induction false} DoSound(p: Process, act: Act)
    requires Sound(p) && ActOk(p, act)
    ensures Sound(Do(p, act))
  {
    hide Inv, Alloc, Reset, Rewind, Create, AlignUp, Fold, Plus, RegionFree, OsHonest, CreateReserve, CreateCommit;
    match act
    case Open(initial, page, maxRule, os) => CreateSound(initial, page, maxRule, os);
    case Grant(i, bytes, os, lease) => AllocKeeps(p.arenas[i].value, lease, bytes, os);
    case Unwind(i, cp) => RewindKeeps(p.arenas[i].value, cp);
    case Recycle(i) => ResetKeeps(p.arenas[i].value);
    case Close(i) =>
  }

  lemma {:induction false} DoConserves(p: Process, act: Act)
    requires Sound(p) && Conserved(p) && ActOk(p, act)
    ensures Conserved(Do(p, act))
  {
    hide Inv, Conserved, Alloc, Reset, Rewind, Create, AlignUp, Pending;
    var p', none := Do(p, act), Tally(0, 0, 0);
    match act
    case Open(initial, page, maxRule, os) =>
      CreatePending(initial, page, maxRule, os);
      OpenConserves(p, Create(initial, page, maxRule, os));
    case Grant(i, bytes, os, lease) =>
      AllocCounts(p.arenas[i].value, lease, bytes, os);
      var r := Alloc(p.arenas[i].value, lease, bytes, os);
      SwapConserves(p, p', i, none, if r.ptr == 0 then none else Tally(1, bytes, AlignUp(bytes, ALIGN)));
    case Unwind(i, cp) =>
      RewindCounts(p.arenas[i].value, cp);
      SwapConserves(p, p', i, none, none);
    case Recycle(i) =>
      ResetCounts(p.arenas[i].value, p.totals);
      SwapConserves(p, p', i, Pending(p.arenas[i]), none);
    case Close(i) => CloseConserves(p, i);
  }

  lemma {:induction false} OpenConserves(p: Process, a: Option<Arena>)
    requires Conserved(p) && (a.Some? ==> Pending(a) == Tally(0, 0, 0))
    ensures Conserved(p.(arenas := p.arenas + [a]))
  {
    SumPendingAppend(p.arenas, a);
  }

  lemma {:induction false} CloseConserves(p: Process, i: nat)
    requires Sound(p) && Conserved(p) && Exists(p, i)
    ensures Conserved(p.(arenas := p.arenas[i := None], totals := Fold(p.totals, p.arenas[i].value)))
  {
    ResetCounts(p.arenas[i].value, p.totals);
    SwapConserves(p, p.(arenas := p.arenas[i := None], totals := Fold(p.totals, p.arenas[i].value)), i,
                  Pending(p.arenas[i]), Tally(0, 0, 0));
  }

  lemma {:induction false} CreatePending(initial: nat, page: nat, maxRule: nat, os: Os)
    requires page > 0
    ensures Pending(Create(initial, page, maxRule, os)) == Tally(0, 0, 0)
  {
  }

  ghost predicate Leads(p: Process, acts: seq<Act>, p': Process)
    requires Sound(p)
    decreases |acts|
  {
    if acts == [] then p' == p
    else ActOk(p, acts[0]) && (DoSound(p, acts[0]); Leads(Do(p, acts[0]), acts[1..], p'))
  }

  /** Accounting is conserved over every run of any number of arenas, across reset and destroy, and all stay sound. */
  lemma {:induction false} AccountingConserved(p: Process, acts: seq<Act>, p': Process)
    requires Sound(p) && Conserved(p) && Leads(p, acts, p')
    ensures Sound(p') && Conserved(p')
    decreases |acts|
  {
    hide Sound, Conserved;
    if acts != [] {
      DoSound(p, acts[0]);
      DoConserves(p, acts[0]);
      AccountingConserved(Do(p, acts[0]), acts[1..], p');
    }
  }

  /** A process starts without arenas. */
  lemma {:induction false} NoArenasYet()
    ensures var p := Process([], Perf(0, 0, 0, 0, 0), Tally(0, 0, 0)); Sound(p) && Conserved(p)
  {
  }
}
