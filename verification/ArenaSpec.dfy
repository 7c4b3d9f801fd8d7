/** The arena of runtime/arena*.c as values: what each operation does to one arena.

    Addresses and sizes are natural numbers; `SIZE_MAX` marks where the 64-bit code has to detect
    overflow. What the operating system answers is an input (`Os`).

    Next to the fields of the C struct the state keeps two facts the C code has no field for: how far
    each retired segment was committed, and which blocks are live, that is handed out and not yet
    released.

    `Inv` is what every operation keeps: ordered segment ends on page boundaries, live blocks that do not
    overlap and lie in committed memory the arena owns, and byte counts that are the sums over the
    segments. */
module ArenaSpec {
  import opened Basics

  const SIZE_MAX: nat := 0xFFFF_FFFF_FFFF_FFFF
  const ALIGN: nat := 16
  const DEFAULT_RESERVE: nat := 64 * 1024 * 1024
  const DEFAULT_COMMIT: nat := 64 * 1024
  const HOT_RETENTION_LIMIT: nat := 256 * 1024
  const HOT_RETENTION_CEILING: nat := 4 * 1024 * 1024

  function Max(a: nat, b: nat): nat { if a > b then a else b }
  function Min(a: nat, b: nat): nat { if a < b then a else b }

  /** orbit_align_up: 0 reports that rounding up would overflow. */
  function AlignUp(size: nat, alignment: nat): nat
    requires alignment > 0
  {
    if size + (alignment - 1) > SIZE_MAX then 0 else (size + (alignment - 1)) / alignment * alignment
  }

  // ----- state -----

  datatype Segment = Segment(base: nat, committedEnd: nat, reservedEnd: nat)

  /** A block handed out: `id` is its place in the order of all allocations, `seg` its segment's base. */
  datatype Block = Block(id: nat, seg: nat, addr: nat, size: nat)

  datatype Checkpoint = Checkpoint(offset: nat, generation: nat)

  datatype Lease = Lease(bytes: nat, limit: nat)

  /** The operating system's answers: 0 for a refused reservation, and whether commit and malloc succeed. */
  datatype Os = Os(reserveAt: nat, commits: bool, mallocs: bool)

  datatype Arena = Arena(
    active: Segment, cursor: nat, retired: seq<Segment>,
    pageSize: nat, maxRule: nat, ceilingHit: bool,
    requestedBytes: nat, alignedBytes: nat, allocCount: nat, peakUsed: nat,
    committedBytes: nat, reservedBytes: nat, generation: nat,
    used: nat, capacity: nat,
    initialCommit: nat, live: set<Block>, nextId: nat)

  /** Process totals (orbit_perf_stats), as far as arenas feed them. */
  datatype Perf = Perf(allocCount: nat, requestedBytes: nat, alignedBytes: nat, totalAllocBytes: nat, peakUsed: nat)

  datatype Served = Served(arena: Arena, lease: Option<Lease>, ptr: nat)

  // ----- operations -----

  function CreateReserve(initial: nat, page: nat): nat
    requires page > 0
  {
    AlignUp(Max(initial, DEFAULT_RESERVE), page)
  }

  function CreateCommit(initial: nat, page: nat): nat
    requires page > 0
  {
    AlignUp(if initial > 0 then initial else DEFAULT_COMMIT, page)
  }

  /** orbit_arena_create. */
  function Create(initial: nat, page: nat, maxRule: nat, os: Os): Option<Arena>
    requires page > 0
  {
    var reserve0, commit := CreateReserve(initial, page), CreateCommit(initial, page);
    if reserve0 == 0 || commit == 0 then None
    else
      var reserve := Max(reserve0, commit);
      if os.reserveAt == 0 || !os.commits || !os.mallocs then None
      else
        var p := os.reserveAt;
        Some(Arena(Segment(p, p + commit, p + reserve), p, [], page, maxRule, false, 0, 0, 0, 0,
                   commit, reserve, 1, 0, reserve, commit, {}, 0))
  }

  /** orbit_arena_ceiling_reached. */
  predicate CeilingReached(a: Arena, more: nat) {
    a.maxRule != 0 && (more > a.maxRule || a.committedBytes > a.maxRule - more)
  }

  function Refuse(a: Arena, lease: Option<Lease>): Served {
    Served(a, lease, 0)
  }

  /** Advance the cursor over a new block of the active segment. */
  function Bump(a: Arena, bytes: nat, aligned: nat): Arena
    requires a.active.base <= a.cursor
  {
    var cursor := a.cursor + aligned;
    var used := cursor - a.active.base;
    a.(cursor := cursor, allocCount := a.allocCount + 1, requestedBytes := a.requestedBytes + bytes,
       alignedBytes := a.alignedBytes + aligned, peakUsed := Max(a.peakUsed, used), used := used,
       live := a.live + {Block(a.nextId, a.active.base, a.cursor, aligned)}, nextId := a.nextId + 1)
  }

  function NewReserve(a: Arena, aligned: nat): nat
    requires a.pageSize > 0
  {
    AlignUp(Max(aligned, DEFAULT_RESERVE), a.pageSize)
  }

  function NewCommit(a: Arena, aligned: nat): nat
    requires a.pageSize > 0
  {
    AlignUp(Max(aligned, DEFAULT_COMMIT), a.pageSize)
  }

  /** The overflow path: retire the active segment and start the block at the base of a new one. */
  function Overflow(a: Arena, bytes: nat, aligned: nat, reserve: nat, commit: nat, p: nat): Arena {
    a.(active := Segment(p, p + commit, p + reserve), cursor := p + aligned, retired := [a.active] + a.retired,
       reservedBytes := a.reservedBytes + reserve, committedBytes := a.committedBytes + commit,
       capacity := reserve, used := aligned,
       allocCount := a.allocCount + 1, requestedBytes := a.requestedBytes + bytes,
       alignedBytes := a.alignedBytes + aligned,
       live := a.live + {Block(a.nextId, p, p, aligned)}, nextId := a.nextId + 1)
  }

  predicate LeaseRefuses(lease: Option<Lease>, aligned: nat) {
    lease.Some? && (lease.value.bytes > lease.value.limit || aligned > lease.value.limit - lease.value.bytes)
  }

  function Charge(lease: Option<Lease>, aligned: nat): Option<Lease> {
    if lease.Some? then Some(lease.value.(bytes := lease.value.bytes + aligned)) else None
  }

  /** orbit_alloc_try. */
  function Alloc(a0: Arena, lease0: Option<Lease>, bytes: nat, os: Os): Served
    requires a0.pageSize > 0 && a0.active.base <= a0.cursor <= a0.active.reservedEnd
  {
    if bytes == 0 then Refuse(a0, lease0)
    else
      var a := a0.(ceilingHit := false);
      var aligned := AlignUp(bytes, ALIGN);
      if aligned == 0 || LeaseRefuses(lease0, aligned) then Refuse(a, lease0)
      else
        var lease := Charge(lease0, aligned);
        if aligned <= a.active.reservedEnd - a.cursor then AllocInSegment(a, lease, bytes, aligned, os)
        else AllocOverflow(a, lease, bytes, aligned, os)
  }

  /** The fast path, and the path that commits more of the reservation first. */
  function AllocInSegment(a: Arena, lease: Option<Lease>, bytes: nat, aligned: nat, os: Os): Served
    requires a.pageSize > 0 && a.active.base <= a.cursor
  {
    if a.cursor + aligned <= a.active.committedEnd then Served(Bump(a, bytes, aligned), lease, a.cursor)
    else
      var more := AlignUp(a.cursor + aligned - a.active.committedEnd, a.pageSize);
      if more == 0 then Refuse(a, lease)
      else if CeilingReached(a, more) then Refuse(a.(ceilingHit := true), lease)
      else if !os.commits then Refuse(a, lease)
      else
        var grown := a.(active := a.active.(committedEnd := a.active.committedEnd + more),
                        committedBytes := a.committedBytes + more);
        Served(Bump(grown, bytes, aligned), lease, a.cursor)
  }

  function AllocOverflow(a: Arena, lease: Option<Lease>, bytes: nat, aligned: nat, os: Os): Served
    requires a.pageSize > 0
  {
    var reserve, commit := NewReserve(a, aligned), NewCommit(a, aligned);
    if reserve == 0 || commit == 0 then Refuse(a, lease)
    else if CeilingReached(a, commit) then Refuse(a.(ceilingHit := true), lease)
    else if os.reserveAt == 0 || !os.commits || !os.mallocs then Refuse(a, lease)
    else Served(Overflow(a, bytes, aligned, reserve, commit, os.reserveAt), lease, os.reserveAt)
  }

  /** How much of the active segment stays committed across a reset. */
  function KeepSize(a: Arena): nat
    requires a.pageSize > 0 && a.active.base <= a.cursor && a.active.base <= a.active.reservedEnd
  {
    var keep := Min(Max(HOT_RETENTION_LIMIT, a.cursor - a.active.base), HOT_RETENTION_CEILING);
    Min(AlignUp(keep, a.pageSize), a.active.reservedEnd - a.active.base)
  }

  /** orbit_arena_reset. */
  function Reset(a: Arena): Arena
    requires a.pageSize > 0 && a.active.base <= a.cursor && a.active.base <= a.active.reservedEnd
    requires a.active.base <= a.active.committedEnd
  {
    var total := a.active.reservedEnd - a.active.base;
    var end := Min(a.active.committedEnd, a.active.base + KeepSize(a));
    a.(active := a.active.(committedEnd := end), retired := [],
       committedBytes := end - a.active.base, reservedBytes := total,
       cursor := a.active.base, requestedBytes := 0, alignedBytes := 0, allocCount := 0,
       generation := a.generation + 1, used := 0, capacity := total, live := {})
  }

  /** orbit_perf_fold_arena. */
  function Fold(p: Perf, a: Arena): Perf {
    Perf(p.allocCount + a.allocCount, p.requestedBytes + a.requestedBytes, p.alignedBytes + a.alignedBytes,
         p.totalAllocBytes + a.alignedBytes, Max(p.peakUsed, a.peakUsed))
  }

  /** orbit_arena_checkpoint. */
  function TakeCheckpoint(a: Arena): Checkpoint
    requires a.active.base <= a.cursor
  {
    Checkpoint(a.cursor - a.active.base, a.generation)
  }

  predicate RewindAccepts(a: Arena, cp: Checkpoint) {
    cp.generation == a.generation && a.active.base + cp.offset <= a.cursor
  }

  /** orbit_arena_rewind: the blocks of the active segment that reach past the new cursor are released. */
  function Rewind(a: Arena, cp: Checkpoint): Arena {
    if !RewindAccepts(a, cp) then a
    else
      var cursor := a.active.base + cp.offset;
      a.(cursor := cursor, used := cp.offset,
         live := set b | b in a.live && (b.seg != a.active.base || b.addr + b.size <= cursor))
  }

  // ----- invariants -----

  predicate SegmentOk(s: Segment, page: nat)
    requires page > 0
  {
    && 0 < s.base <= s.committedEnd <= s.reservedEnd <= SIZE_MAX
    && s.base % page == 0 && s.committedEnd % page == 0 && s.reservedEnd % page == 0
  }

  predicate Apart(s: Segment, t: Segment) {
    s.reservedEnd <= t.base || t.reservedEnd <= s.base
  }

  function Owned(a: Arena): seq<Segment> {
    [a.active] + a.retired
  }

  ghost predicate SegmentsOk(segs: seq<Segment>, page: nat) {
    && page > 0
    && (forall i | 0 <= i < |segs| :: SegmentOk(segs[i], page) && segs[i].base < segs[i].reservedEnd)
    && (forall i, j | 0 <= i < j < |segs| :: Apart(segs[i], segs[j]))
  }

  /** The block lies in committed memory of a segment the arena owns, and in the active one below the cursor. */
  ghost predicate Housed(a: Arena, b: Block) {
    if b.seg == a.active.base then a.active.base <= b.addr && b.addr + b.size <= a.cursor
    else exists i :: HousedIn(a.retired, i, b)
  }

  ghost predicate HousedIn(segs: seq<Segment>, i: int, b: Block) {
    0 <= i < |segs| && segs[i].base == b.seg <= b.addr && b.addr + b.size <= segs[i].committedEnd
  }

  ghost predicate DisjointBlocks(b: Block, c: Block) {
    b.addr + b.size <= c.addr || c.addr + c.size <= b.addr
  }

  ghost predicate BlocksOk(a: Arena) {
    && (forall b | b in a.live :: b.id < a.nextId && b.size > 0 && b.addr % ALIGN == 0 && b.size % ALIGN == 0 && Housed(a, b))
    && (forall b, c | b in a.live && c in a.live && b != c :: b.id != c.id && DisjointBlocks(b, c))
  }

  function SumCommitted(segs: seq<Segment>): int {
    if segs == [] then 0 else segs[0].committedEnd - segs[0].base + SumCommitted(segs[1..])
  }

  function SumReserved(segs: seq<Segment>): int {
    if segs == [] then 0 else segs[0].reservedEnd - segs[0].base + SumReserved(segs[1..])
  }

  ghost predicate AccountsOk(a: Arena) {
    && a.committedBytes == SumCommitted(Owned(a))
    && a.reservedBytes == SumReserved(Owned(a))
    && a.used == a.cursor - a.active.base && a.capacity == a.active.reservedEnd - a.active.base
    && (a.maxRule != 0 ==> a.committedBytes <= Max(a.maxRule, a.initialCommit))
  }

  ghost predicate PageSizeOk(page: nat) {
    page > 0 && page % ALIGN == 0
  }

  ghost predicate Inv(a: Arena) {
    && PageSizeOk(a.pageSize)
    && a.active.base <= a.cursor <= a.active.committedEnd && a.cursor % ALIGN == 0
    && SegmentsOk(Owned(a), a.pageSize)
    && BlocksOk(a)
    && AccountsOk(a)
  }

  /** What a successful reservation promises: a page-aligned range no owned segment overlaps. */
  ghost predicate RegionFree(segs: seq<Segment>, p: nat, size: nat, page: nat) {
    && p > 0 && page > 0 && p % page == 0 && p + size <= SIZE_MAX
    && forall i | 0 <= i < |segs| :: p + size <= segs[i].base || segs[i].reservedEnd <= p
  }

  /** The operating system keeps that promise for the reservation an allocation may ask for. */
  ghost predicate OsHonest(a: Arena, bytes: nat, os: Os) {
    a.pageSize > 0 && os.reserveAt != 0 ==>
      RegionFree(Owned(a), os.reserveAt, NewReserve(a, AlignUp(bytes, ALIGN)), a.pageSize)
  }
}
