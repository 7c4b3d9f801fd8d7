/** The arena object of runtime/arena*.c, updated in place, against the values of ArenaSpec.

    `OrbitArena` has the fields of the C struct. Its ghost field `model` is the specified arena, `Tied`
    says that the fields agree with it, and every method is proved to move the model as the function of
    module `ArenaSpec` of the same name does. What holds of those functions over whole runs is proved in
    module `ArenaProofs`.

    `VirtualMemory` is the set of reserved ranges, so releasing a range twice or with a wrong size would
    fail. The current lease and the process totals are objects of their own, as in the runtime.

    The operating system's answers come in as a parameter. */
module ArenaObject {
  import opened Basics
  import opened ArenaSpec
  import opened ArenaProofs
  import S = ArenaSpec

  datatype Region = Region(base: nat, size: nat)

  ghost function RegionOf(s: Segment): Region {
    Region(s.base, if s.base <= s.reservedEnd then s.reservedEnd - s.base else 0)
  }

  /** Reserved address ranges of the process; what the operating system answers is passed in. */
  class VirtualMemory {
    ghost var mapped: set<Region>

    constructor ()
      ensures mapped == {}
    {
      mapped := {};
    }

    /** orbit_virtual_reserve. */
    method Reserve(at: nat, size: nat) returns (p: nat)
      modifies this
      ensures p == at
      ensures mapped == if p == 0 then old(mapped) else old(mapped) + {Region(p, size)}
    {
      p := at;
      if p != 0 { mapped := mapped + {Region(p, size)}; }
    }

    /** orbit_virtual_release: only a range that is reserved, with its own size. */
    method Release(p: nat, size: nat)
      requires Region(p, size) in mapped
      modifies this
      ensures mapped == old(mapped) - {Region(p, size)}
    {
      mapped := mapped - {Region(p, size)};
    }
  }

  /** current_lease, as far as allocation charges it. */
  class LeaseObject {
    var bytes: nat
    var limit: nat

    constructor (limit: nat)
      ensures this.bytes == 0 && this.limit == limit
    {
      this.bytes, this.limit := 0, limit;
    }
  }

  ghost function LeaseOf(l: LeaseObject?): Option<Lease>
    reads l
  {
    if l == null then None else Some(Lease(l.bytes, l.limit))
  }

  /** The budget check of orbit_alloc_try. */
  method ChargeLease(lease: LeaseObject?, aligned: nat) returns (ok: bool)
    modifies lease
    ensures ok == !LeaseRefuses(old(LeaseOf(lease)), aligned)
    ensures LeaseOf(lease) == if ok then Charge(old(LeaseOf(lease)), aligned) else old(LeaseOf(lease))
  {
    if lease != null {
      if lease.bytes > lease.limit || aligned > lease.limit - lease.bytes { return false; }
      lease.bytes := lease.bytes + aligned;
    }
    ok := true;
  }

  class PerfObject {
    var allocCount: nat
    var requestedBytes: nat
    var alignedBytes: nat
    var totalAllocBytes: nat
    var peakUsed: nat

    ghost function State(): Perf
      reads this
    {
      Perf(allocCount, requestedBytes, alignedBytes, totalAllocBytes, peakUsed)
    }
  }

  datatype OverflowNode = OverflowNode(ptr: nat, size: nat)

  ghost predicate NodesMatch(nodes: seq<OverflowNode>, segs: seq<Segment>) {
    && |nodes| == |segs|
    && forall i | 0 <= i < |segs| :: segs[i].base <= segs[i].reservedEnd
                                     && nodes[i] == OverflowNode(segs[i].base, segs[i].reservedEnd - segs[i].base)
  }

  ghost function NodeRegions(nodes: seq<OverflowNode>): set<Region> {
    set n | n in nodes :: Region(n.ptr, n.size)
  }

  lemma {:induction false} NodeRegionsHead(nodes: seq<OverflowNode>)
    requires nodes != []
    ensures NodeRegions(nodes) == {Region(nodes[0].ptr, nodes[0].size)} + NodeRegions(nodes[1..])
  {
    assert nodes == [nodes[0]] + nodes[1..];
  }

  lemma {:induction false} NodesMatchCons(nodes: seq<OverflowNode>, segs: seq<Segment>, s: Segment)
    requires NodesMatch(nodes, segs) && s.base <= s.reservedEnd
    ensures NodesMatch([OverflowNode(s.base, s.reservedEnd - s.base)] + nodes, [s] + segs)
  {
  }

  /** The operating system does not hand out an address that is still reserved. */
  ghost predicate AddressFree(vm: VirtualMemory, at: nat)
    reads vm
  {
    at != 0 ==> forall r | r in vm.mapped :: r.base != at
  }

  /** The steps of an allocation up to the choice of the segment. */
  lemma {:induction false} AllocSplits(a: Arena, lease: Option<Lease>, bytes: nat, os: Os)
    requires a.pageSize > 0 && a.active.base <= a.cursor <= a.active.reservedEnd
    ensures var aligned, b, r := AlignUp(bytes, ALIGN), a.(ceilingHit := false), Alloc(a, lease, bytes, os);
            if bytes == 0 then r == Refuse(a, lease)
            else if aligned == 0 || LeaseRefuses(lease, aligned) then r == Refuse(b, lease)
            else if aligned <= a.active.reservedEnd - a.cursor
            then r == AllocInSegment(b, Charge(lease, aligned), bytes, aligned, os)
            else r == AllocOverflow(b, Charge(lease, aligned), bytes, aligned, os)
  {
    hide AllocInSegment, AllocOverflow, AlignUp;
  }

  class OrbitArena {
    var base: nat
    var cursor: nat
    var committedEnd: nat
    var reservedEnd: nat
    var pageSize: nat
    var requestedBytes: nat
    var alignedBytes: nat
    var peakUsed: nat
    var committedBytes: nat
    var reservedBytes: nat
    var maxRule: nat
    var ceilingHit: bool
    var generation: nat
    var allocCount: nat
    var overflowList: seq<OverflowNode>
    var capacity: nat
    var used: nat
    /** The arena's value: the fields above with its retired segments and live blocks. */
    ghost var model: Arena

    ghost predicate Tied()
      reads this
    {
      && model.active == Segment(base, committedEnd, reservedEnd) && model.cursor == cursor
      && NodesMatch(overflowList, model.retired)
      && model.pageSize == pageSize && model.maxRule == maxRule && model.ceilingHit == ceilingHit
      && model.requestedBytes == requestedBytes && model.alignedBytes == alignedBytes
      && model.allocCount == allocCount && model.peakUsed == peakUsed
      && model.committedBytes == committedBytes && model.reservedBytes == reservedBytes
      && model.generation == generation && model.used == used && model.capacity == capacity
    }

    ghost predicate Mapped(vm: VirtualMemory)
      reads this, vm
    {
      && base <= reservedEnd && Region(base, reservedEnd - base) in vm.mapped
      && (forall i | 0 <= i < |overflowList| :: Region(overflowList[i].ptr, overflowList[i].size) in vm.mapped)
      && (forall i | 0 <= i < |overflowList| :: overflowList[i].ptr != base)
      && (forall i, j | 0 <= i < j < |overflowList| :: overflowList[i].ptr != overflowList[j].ptr)
    }

    ghost predicate Valid(vm: VirtualMemory)
      reads this, vm
    {
      Tied() && Inv(model) && Mapped(vm)
    }

    /** orbit_arena_create, after the reservation, commit and malloc have succeeded. */
    constructor (initial: nat, page: nat, maxRule: nat, os: Os, vm: VirtualMemory)
      requires PageSizeOk(page) && Create(initial, page, maxRule, os).Some?
      requires RegionFree([], os.reserveAt, Max(CreateReserve(initial, page), CreateCommit(initial, page)), page)
      modifies vm
      ensures Some(model) == Create(initial, page, maxRule, os)
      ensures Valid(vm)
      ensures vm.mapped == old(vm.mapped) + {Region(base, reservedEnd - base)}
    {
      var reserve, commit := CreateReserve(initial, page), CreateCommit(initial, page);
      if commit > reserve { reserve := commit; }
      var p := vm.Reserve(os.reserveAt, reserve);
      base, cursor, committedEnd, reservedEnd := p, p, p + commit, p + reserve;
      pageSize, requestedBytes, alignedBytes, peakUsed := page, 0, 0, 0;
      committedBytes, reservedBytes := commit, reserve;
      this.maxRule, ceilingHit, generation, allocCount := maxRule, false, 1, 0;
      overflowList := [];
      capacity, used := reserve, 0;
      model := Create(initial, page, maxRule, os).value;
      CreateSound(initial, page, maxRule, os);
    }

    /** orbit_arena_ceiling_reached. */
    method CeilingReached(more: nat) returns (hit: bool)
      requires Tied()
      modifies this`ceilingHit, this`model
      ensures Tied() && hit == S.CeilingReached(old(model), more)
      ensures model == if hit then old(model).(ceilingHit := true) else old(model)
    {
      if maxRule == 0 { return false; }
      if more > maxRule || committedBytes > maxRule - more {
        ceilingHit := true;
        model := model.(ceilingHit := true);
        return true;
      }
      hit := false;
    }

    /** The counters every successful path moves. */
    method CountGrant(bytes: nat, aligned: nat, ghost block: Block)
      requires Tied()
      modifies this`allocCount, this`requestedBytes, this`alignedBytes, this`model
      ensures Tied()
      ensures model == old(model).(allocCount := old(model).allocCount + 1,
                                   requestedBytes := old(model).requestedBytes + bytes,
                                   alignedBytes := old(model).alignedBytes + aligned,
                                   live := old(model).live + {block}, nextId := old(model).nextId + 1)
    {
      hide NodesMatch;
      allocCount := allocCount + 1;
      requestedBytes := requestedBytes + bytes;
      alignedBytes := alignedBytes + aligned;
      model := model.(allocCount := allocCount, requestedBytes := requestedBytes, alignedBytes := alignedBytes,
                      live := model.live + {block}, nextId := model.nextId + 1);
    }

    /** The shared tail of the fast and the commit path. */
    method BumpCursor(newCursor: nat, bytes: nat, aligned: nat) returns (ptr: nat)
      requires Tied() && base <= cursor && newCursor == cursor + aligned
      modifies this
      ensures Tied() && ptr == old(cursor) && model == Bump(old(model), bytes, aligned)
      ensures overflowList == old(overflowList)
    {
      hide NodesMatch;
      ghost var before := model;
      ptr := cursor;
      cursor := newCursor;
      var currentUsed := cursor - base;
      if currentUsed > peakUsed { peakUsed := currentUsed; }
      used := currentUsed;
      model := model.(cursor := cursor, used := used, peakUsed := peakUsed);
      CountGrant(bytes, aligned, Block(before.nextId, base, ptr, aligned));
    }

    /** orbit_alloc_try; 0 is NULL. */
    method AllocTry(bytes: nat, lease: LeaseObject?, os: Os, vm: VirtualMemory) returns (ptr: nat)
      requires Valid(vm) && OsHonest(model, bytes, os) && AddressFree(vm, os.reserveAt)
      modifies this, lease, vm
      ensures Valid(vm)
      ensures old(model.active.base) <= old(model.cursor) <= old(model.active.reservedEnd) && old(model.pageSize) > 0
      ensures var r := Alloc(old(model), old(LeaseOf(lease)), bytes, os);
              model == r.arena && LeaseOf(lease) == r.lease && ptr == r.ptr
      ensures vm.mapped ==
              if ptr == 0 || AlignUp(bytes, ALIGN) <= old(model.active.reservedEnd) - old(model.cursor) then old(vm.mapped)
              else old(vm.mapped) + {RegionOf(model.active)}
    {
      AllocKeeps(model, LeaseOf(lease), bytes, os);
      ActiveBounds(model);
      AllocSplits(model, LeaseOf(lease), bytes, os);
      hide Inv, Alloc, AllocInSegment, AllocOverflow, AlignUp, Mapped, AddressFree, OsHonest, Tied;
      if bytes == 0 { return 0; }
      ClearFlag(vm);
      var aligned := AlignUp(bytes, ALIGN);
      if aligned == 0 { return 0; }
      var charged := ChargeLease(lease, aligned);
      if !charged { return 0; }
      ptr := AllocCharged(bytes, aligned, os, vm, LeaseOf(lease));
    }

    method ClearFlag(ghost vm: VirtualMemory)
      requires Tied() && Mapped(vm)
      modifies this`ceilingHit, this`model
      ensures Tied() && Mapped(vm) && model == old(model).(ceilingHit := false)
    {
      ceilingHit, model := false, model.(ceilingHit := false);
    }

    /** The part of orbit_alloc_try behind the budget check. */
    method AllocCharged(bytes: nat, aligned: nat, os: Os, vm: VirtualMemory, ghost lease: Option<Lease>) returns (ptr: nat)
      requires Tied() && Mapped(vm) && AddressFree(vm, os.reserveAt)
      requires model.pageSize > 0 && model.active.base <= model.cursor <= model.active.reservedEnd
      modifies this, vm
      ensures Tied() && Mapped(vm)
      ensures var fits := aligned <= old(model.active.reservedEnd) - old(model.cursor);
              && (var r := if fits then AllocInSegment(old(model), lease, bytes, aligned, os)
                           else AllocOverflow(old(model), lease, bytes, aligned, os);
                  model == r.arena && ptr == r.ptr && r.lease == lease)
              && vm.mapped == if fits || ptr == 0 then old(vm.mapped) else old(vm.mapped) + {RegionOf(model.active)}
    {
      hide AllocInSegment, AllocOverflow, NodesMatch;
      var fitsReserved := aligned <= reservedEnd - cursor;
      if fitsReserved {
        ptr := AllocInPlace(bytes, aligned, os, lease);
      } else {
        ptr := AllocNewSegment(bytes, aligned, os, vm, lease);
      }
    }

    /** The fast path and the path that commits more pages. */
    method AllocInPlace(bytes: nat, aligned: nat, os: Os, ghost lease: Option<Lease>) returns (ptr: nat)
      requires Tied() && pageSize > 0 && base <= cursor
      modifies this
      ensures Tied() && overflowList == old(overflowList) && base == old(base) && reservedEnd == old(reservedEnd)
      ensures var r := AllocInSegment(old(model), lease, bytes, aligned, os); model == r.arena && ptr == r.ptr && r.lease == lease
    {
      var newCursor := cursor + aligned;
      if newCursor <= committedEnd {
        ptr := BumpCursor(newCursor, bytes, aligned);
        return;
      }
      var needed := newCursor - committedEnd;
      var pageAligned := AlignUp(needed, pageSize);
      if pageAligned == 0 { return 0; }
      var hit := this.CeilingReached(pageAligned);
      if hit || !os.commits { return 0; }
      model := model.(active := model.active.(committedEnd := model.active.committedEnd + pageAligned),
                      committedBytes := model.committedBytes + pageAligned);
      committedEnd := committedEnd + pageAligned;
      committedBytes := committedBytes + pageAligned;
      ptr := BumpCursor(newCursor, bytes, aligned);
    }

    /** The overflow path: a fresh reservation becomes the active segment. */
    method AllocNewSegment(bytes: nat, aligned: nat, os: Os, vm: VirtualMemory, ghost lease: Option<Lease>) returns (ptr: nat)
      requires Tied() && pageSize > 0 && Mapped(vm) && AddressFree(vm, os.reserveAt)
      modifies this, vm
      ensures Tied() && Mapped(vm)
      ensures var r := AllocOverflow(old(model), lease, bytes, aligned, os); model == r.arena && ptr == r.ptr && r.lease == lease
      ensures vm.mapped == if ptr == 0 then old(vm.mapped) else old(vm.mapped) + {RegionOf(model.active)}
    {
      hide Overflow, NodesMatch, AlignUp;
      var newReserve := AlignUp(if aligned > DEFAULT_RESERVE then aligned else DEFAULT_RESERVE, pageSize);
      if newReserve == 0 { return 0; }
      var newCommit := AlignUp(if aligned > DEFAULT_COMMIT then aligned else DEFAULT_COMMIT, pageSize);
      if newCommit == 0 { return 0; }
      var hit := this.CeilingReached(newCommit);
      if hit { return 0; }
      var newMem := vm.Reserve(os.reserveAt, newReserve);
      if newMem == 0 { return 0; }
      if !os.commits || !os.mallocs {
        vm.Release(newMem, newReserve);
        return 0;
      }
      Adopt(newMem, newReserve, newCommit, bytes, aligned);
      ptr := newMem;
    }

    /** Push the current segment onto the overflow list and move to the new one. */
    method Adopt(newMem: nat, newReserve: nat, newCommit: nat, bytes: nat, aligned: nat)
      requires Tied() && base <= reservedEnd
      modifies this
      ensures Tied() && model == Overflow(old(model), bytes, aligned, newReserve, newCommit, newMem)
      ensures overflowList == [OverflowNode(old(base), old(reservedEnd) - old(base))] + old(overflowList)
      ensures base == newMem && reservedEnd == newMem + newReserve
    {
      hide NodesMatch;
      PushRetired();
      Redirect(newMem, newReserve, newCommit, aligned);
      AddBytes(newReserve, newCommit);
      CountGrant(bytes, aligned, Block(old(model).nextId, newMem, newMem, aligned));
    }

    method PushRetired()
      requires Tied() && base <= reservedEnd
      modifies this`overflowList, this`model
      ensures Tied() && model == old(model).(retired := [old(model).active] + old(model).retired)
      ensures overflowList == [OverflowNode(base, reservedEnd - base)] + old(overflowList)
    {
      hide NodesMatch;
      NodesMatchCons(overflowList, model.retired, model.active);
      overflowList := [OverflowNode(base, reservedEnd - base)] + overflowList;
      model := model.(retired := [model.active] + model.retired);
    }

    method Redirect(newMem: nat, newReserve: nat, newCommit: nat, aligned: nat)
      requires Tied()
      modifies this
      ensures Tied() && overflowList == old(overflowList) && base == newMem && reservedEnd == newMem + newReserve
      ensures model == old(model).(active := Segment(newMem, newMem + newCommit, newMem + newReserve), cursor := newMem + aligned,
                                   capacity := newReserve, used := aligned)
    {
      hide NodesMatch;
      base, cursor := newMem, newMem + aligned;
      committedEnd, reservedEnd := newMem + newCommit, newMem + newReserve;
      capacity, used := newReserve, aligned;
      model := model.(active := Segment(base, committedEnd, reservedEnd), cursor := cursor, capacity := capacity, used := used);
    }

    method AddBytes(newReserve: nat, newCommit: nat)
      requires Tied()
      modifies this`reservedBytes, this`committedBytes, this`model
      ensures Tied()
      ensures model == old(model).(reservedBytes := old(model).reservedBytes + newReserve,
                                   committedBytes := old(model).committedBytes + newCommit)
    {
      hide NodesMatch;
      reservedBytes, committedBytes := reservedBytes + newReserve, committedBytes + newCommit;
      model := model.(reservedBytes := reservedBytes, committedBytes := committedBytes);
    }

    // ----- reset, checkpoint, rewind, destroy -----

    /** The loop of reset and destroy that releases the retired segments. */
    method ReleaseOverflow(vm: VirtualMemory)
      requires Mapped(vm)
      modifies this`overflowList, vm
      ensures overflowList == [] && Mapped(vm)
      ensures vm.mapped == old(vm.mapped) - NodeRegions(old(overflowList))
    {
      ghost var all, start := overflowList, vm.mapped;
      while overflowList != []
        invariant Mapped(vm) && vm.mapped == start - (NodeRegions(all) - NodeRegions(overflowList))
        invariant NodeRegions(overflowList) <= NodeRegions(all)
        decreases |overflowList|
      {
        var node := overflowList[0];
        ghost var before, rest := overflowList, overflowList[1..];
        NodeRegionsHead(before);
        vm.Release(node.ptr, node.size);
        overflowList := overflowList[1..];
        assert Region(node.ptr, node.size) !in NodeRegions(rest);
        assert forall i | 0 <= i < |rest| :: rest[i] == before[i + 1];
        assert vm.mapped == start - (NodeRegions(all) - NodeRegions(overflowList));
      }
    }

    /** orbit_arena_reset. */
    method Reset(perf: PerfObject, vm: VirtualMemory)
      requires Valid(vm)
      modifies this, perf, vm
      ensures Valid(vm)
      ensures old(model.pageSize) > 0 && old(model.active.base) <= old(model.cursor)
      ensures old(model.active.base) <= old(model.active.committedEnd) <= old(model.active.reservedEnd)
      ensures model == S.Reset(old(model))
      ensures perf.State() == Fold(old(perf.State()), old(model))
      ensures vm.mapped == old(vm.mapped) - NodeRegions(old(overflowList))
    {
      ResetKeeps(model);
      hide Inv, AlignUp;
      ghost var next := S.Reset(model);
      ReleaseOverflow(vm);
      var usedBytes := cursor - base;
      var keepSize := HOT_RETENTION_LIMIT;
      if usedBytes > keepSize { keepSize := usedBytes; }
      if keepSize > HOT_RETENTION_CEILING { keepSize := HOT_RETENTION_CEILING; }
      keepSize := AlignUp(keepSize, pageSize);
      var totalReserved := reservedEnd - base;
      if keepSize > totalReserved { keepSize := totalReserved; }
      var keepEnd := base + keepSize;
      if committedEnd > keepEnd { committedEnd := keepEnd; }
      FoldArena(perf);
      Restart(totalReserved, next);
    }

    /** orbit_perf_fold_arena on this arena's counters. */
    method FoldArena(perf: PerfObject)
      modifies perf
      ensures perf.State() ==
              var p := old(perf.State());
              Perf(p.allocCount + allocCount, p.requestedBytes + requestedBytes, p.alignedBytes + alignedBytes,
                   p.totalAllocBytes + alignedBytes, Max(p.peakUsed, peakUsed))
    {
      perf.allocCount := perf.allocCount + allocCount;
      perf.requestedBytes := perf.requestedBytes + requestedBytes;
      perf.alignedBytes := perf.alignedBytes + alignedBytes;
      perf.totalAllocBytes := perf.totalAllocBytes + alignedBytes;
      if peakUsed > perf.peakUsed { perf.peakUsed := peakUsed; }
    }

    /** The last step of reset: rewind the cursor, clear the interval counters, advance the epoch. */
    method Restart(totalReserved: nat, ghost next: Arena)
      requires base <= committedEnd && overflowList == []
      requires next.active == Segment(base, committedEnd, reservedEnd) && next.retired == []
      requires next.committedBytes == committedEnd - base && next.reservedBytes == totalReserved == next.capacity
      requires next.cursor == base && next.requestedBytes == next.alignedBytes == next.allocCount == next.used == 0
      requires next.generation == generation + 1 && next.peakUsed == peakUsed && next.pageSize == pageSize
      requires next.maxRule == maxRule && next.ceilingHit == ceilingHit
      modifies this
      ensures Tied() && model == next && overflowList == [] && base == old(base) && reservedEnd == old(reservedEnd)
    {
      committedBytes, reservedBytes := committedEnd - base, totalReserved;
      cursor := base;
      ClearInterval();
      generation := generation + 1;
      used, capacity := 0, totalReserved;
      model := next;
    }

    method ClearInterval()
      modifies this`requestedBytes, this`alignedBytes, this`allocCount
      ensures requestedBytes == alignedBytes == allocCount == 0
    {
      requestedBytes := 0;
      alignedBytes := 0;
      allocCount := 0;
    }

    /** orbit_arena_checkpoint. */
    method TakeCheckpoint() returns (cp: Checkpoint)
      requires Tied() && base <= cursor
      ensures cp == S.TakeCheckpoint(model)
    {
      cp := Checkpoint(cursor - base, generation);
    }

    /** orbit_arena_rewind. */
    method Rewind(cp: Checkpoint, ghost vm: VirtualMemory) returns (ok: bool)
      requires Valid(vm) && cp.offset % ALIGN == 0
      modifies this
      ensures Valid(vm)
      ensures ok == RewindAccepts(old(model), cp) && model == S.Rewind(old(model), cp)
    {
      RewindKeeps(model, cp);
      ActiveBounds(model);
      hide Inv, NodesMatch;
      if cp.generation != generation { return false; }
      var currentOffset := cursor - base;
      if cp.offset > currentOffset { return false; }
      model := S.Rewind(model, cp);
      cursor := base + cp.offset;
      used := cp.offset;
      ok := true;
    }

    /** orbit_arena_destroy: fold the last interval and release every segment. */
    method Destroy(perf: PerfObject, vm: VirtualMemory)
      requires Valid(vm)
      modifies this, perf, vm
      ensures perf.State() == Fold(old(perf.State()), old(model))
      ensures vm.mapped == old(vm.mapped) - NodeRegions(old(overflowList)) - {Region(old(base), old(reservedEnd) - old(base))}
    {
      FoldArena(perf);
      ReleaseOverflow(vm);
      vm.Release(base, reservedEnd - base);
    }
  }
}
