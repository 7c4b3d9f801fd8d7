/** runtime/arena*.c: exactly when an arena is created and an allocation served, with what, and what a reset keeps. */
module ArenaServes {
  import opened Basics
  import opened ArenaSpec
  import opened ArenaProofs
  import opened Numbers

  /** The least multiple of `unit` that is not below `n`. */
  predicate LeastMultiple(n: nat, unit: nat, m: nat)
    requires unit > 0
  {
    m % unit == 0 && n <= m < n + unit
  }

  /** The lease, if there is one, has room for `n` bytes more. */
  predicate LeaseHolds(lease: Option<Lease>, n: nat) {
    lease.Some? ==> lease.value.bytes + n <= lease.value.limit
  }

  /** The ceiling, if there is one, allows `n` more committed bytes. */
  predicate CeilingHolds(a: Arena, n: nat) {
    a.maxRule != 0 ==> a.committedBytes + n <= a.maxRule
  }

  lemma {:induction false} AlignUpIs(n: nat, unit: nat, m: nat)
    requires unit > 0 && n > 0 && LeastMultiple(n, unit, m)
    ensures AlignUp(n, unit) == if n + (unit - 1) > SIZE_MAX then 0 else m
  {
    AlignUpLeast(n, unit);
    var r := AlignUp(n, unit);
    if r != 0 {
      if r < m { ModAdd(m, r, unit); SmallModulo(m - r, unit); }
    }
  }

  /** A block of whole 16-byte units fits 64 bits exactly when rounding up to it does not overflow. */
  lemma {:induction false} AlignedFits(bytes: nat, aligned: nat)
    requires bytes > 0 && LeastMultiple(bytes, ALIGN, aligned)
    ensures AlignUp(bytes, ALIGN) == if aligned <= SIZE_MAX then aligned else 0
  {
    AlignUpIs(bytes, ALIGN, aligned);
  }

  /** Of the space behind the committed end, at least a page lies before the end of the address space. */
  lemma {:induction false} MoreIs(a: Arena, aligned: nat, more: nat)
    requires Inv(a) && a.active.committedEnd < a.cursor + aligned <= a.active.reservedEnd
    requires a.pageSize > 0 && LeastMultiple(a.cursor + aligned - a.active.committedEnd, a.pageSize, more)
    ensures AlignUp(a.cursor + aligned - a.active.committedEnd, a.pageSize) == more
  {
    hide AlignUp, BlocksOk, AccountsOk;
    ActiveBounds(a);
    AlignUpIs(a.cursor + aligned - a.active.committedEnd, a.pageSize, more);
    PageBelow(a.active.base, a.pageSize);
  }

  lemma {:induction false} PageBelow(base: nat, page: nat)
    requires page > 0 && base > 0 && base % page == 0
    ensures base >= page
  {
    if base < page { SmallModulo(base, page); }
  }

  /** An allocation is served if and only if its multiple of 16 fits 64 bits and the lease, and it ends in committed
      memory, or in the reservation when the pages it lacks are within the ceiling and are committed, or the new segment
      it needs is within the ceiling and is had.

      `aligned`, `more` and `commit` are what would be taken from the arena, committed in its segment, and committed in a
      new one. */
  lemma {:induction false} ServedExactly(a: Arena, lease: Option<Lease>, bytes: nat, os: Os, aligned: nat, more: nat, commit: nat)
    requires Inv(a) && OsHonest(a, bytes, os) && bytes > 0 && a.pageSize > 0 && LeastMultiple(bytes, ALIGN, aligned)
    requires var end := a.cursor + aligned;
             end > a.active.committedEnd ==> LeastMultiple(end - a.active.committedEnd, a.pageSize, more)
    requires LeastMultiple(Max(aligned, DEFAULT_COMMIT), a.pageSize, commit)
    ensures a.active.base <= a.cursor <= a.active.reservedEnd
    ensures var end := a.cursor + aligned;
            Alloc(a, lease, bytes, os).ptr != 0
            <==> && aligned <= SIZE_MAX && LeaseHolds(lease, aligned)
                 && if end <= a.active.committedEnd then true
                    else if end <= a.active.reservedEnd then CeilingHolds(a, more) && os.commits
                    else && Max(aligned, DEFAULT_RESERVE) + a.pageSize - 1 <= SIZE_MAX && CeilingHolds(a, commit)
                         && os.reserveAt != 0 && os.commits && os.mallocs
  {
    hide Inv, OsHonest, AlignUp, Bump, Overflow;
    ActiveBounds(a);
    AlignedFits(bytes, aligned);
    var end := a.cursor + aligned;
    if aligned <= SIZE_MAX && LeaseHolds(lease, aligned) {
      if end > a.active.committedEnd {
        if end <= a.active.reservedEnd {
          MoreIs(a, aligned, more);
        } else {
          AlignUpIs(Max(aligned, DEFAULT_COMMIT), a.pageSize, commit);
          AlignUpLeast(Max(aligned, DEFAULT_RESERVE), a.pageSize);
        }
      }
    }
  }

  /** What a served allocation gives: the old cursor or the base of a new segment, and at it, in committed memory, exactly
      one new block of the least multiple of 16. */
  lemma {:induction false} ServedWhat(a: Arena, lease: Option<Lease>, bytes: nat, os: Os, aligned: nat)
    requires Inv(a) && OsHonest(a, bytes, os) && bytes > 0 && LeastMultiple(bytes, ALIGN, aligned)
    ensures a.active.base <= a.cursor <= a.active.reservedEnd && a.pageSize > 0
    ensures var r := Alloc(a, lease, bytes, os);
            r.ptr != 0 ==>
              && r.ptr == (if a.cursor + aligned <= a.active.reservedEnd then a.cursor else os.reserveAt)
              && r.arena.live == a.live + {Block(a.nextId, r.arena.active.base, r.ptr, aligned)}
              && r.arena.nextId == a.nextId + 1 && r.arena.cursor == r.ptr + aligned
              && r.arena.cursor <= r.arena.active.committedEnd
  {
    hide Inv, OsHonest, AlignUp, Max, CeilingReached, LeaseRefuses;
    ActiveBounds(a);
    AllocKeeps(a, lease, bytes, os);
    ActiveBounds(Alloc(a, lease, bytes, os).arena);
    AlignedFits(bytes, aligned);
  }

  /** What a refused allocation leaves: every block, segment and committed byte, and the cursor. */
  lemma {:induction false} RefusedWhat(a: Arena, lease: Option<Lease>, bytes: nat, os: Os)
    requires Inv(a) && OsHonest(a, bytes, os)
    ensures a.active.base <= a.cursor <= a.active.reservedEnd && a.pageSize > 0
    ensures var r := Alloc(a, lease, bytes, os);
            r.ptr == 0 ==>
              && r.arena.live == a.live && r.arena.cursor == a.cursor && r.arena.active == a.active
              && r.arena.retired == a.retired && r.arena.committedBytes == a.committedBytes
              && r.arena.alignedBytes == a.alignedBytes && r.arena.generation == a.generation
  {
    hide Inv, OsHonest, AlignUp, Max, CeilingReached, LeaseRefuses, Bump, Overflow;
    ActiveBounds(a);
  }

  /** Served or not, the lease is charged for a block it has room for. */
  lemma {:induction false} LeaseCharged(a: Arena, lease: Option<Lease>, bytes: nat, os: Os, aligned: nat)
    requires Inv(a) && bytes > 0 && LeastMultiple(bytes, ALIGN, aligned)
    ensures a.active.base <= a.cursor <= a.active.reservedEnd && a.pageSize > 0
    ensures Alloc(a, lease, bytes, os).lease ==
            if lease.Some? && aligned <= SIZE_MAX && LeaseHolds(lease, aligned)
            then Some(lease.value.(bytes := lease.value.bytes + aligned)) else lease
  {
    hide Inv, AlignUp, Max, CeilingReached, Bump, Overflow;
    ActiveBounds(a);
    AlignedFits(bytes, aligned);
  }

  /** Without ceiling and lease an arena serves every block its reservation has room for, as long as the system commits. */
  lemma {:induction false} WholeReservationServed(a: Arena, bytes: nat, os: Os, aligned: nat)
    requires Inv(a) && OsHonest(a, bytes, os) && bytes > 0 && LeastMultiple(bytes, ALIGN, aligned)
    requires a.maxRule == 0 && os.commits && a.cursor + aligned <= a.active.reservedEnd
    ensures a.active.base <= a.cursor <= a.active.reservedEnd && a.pageSize > 0
    ensures Alloc(a, None, bytes, os).ptr == a.cursor && a.cursor > 0
  {
    hide OsHonest, AlignUp;
    ActiveBounds(a);
    var end := a.cursor + aligned;
    var more := if end > a.active.committedEnd then Multiple(end - a.active.committedEnd, a.pageSize) else 0;
    var commit := Multiple(Max(aligned, DEFAULT_COMMIT), a.pageSize);
    ServedExactly(a, None, bytes, os, aligned, more, commit);
    ServedWhat(a, None, bytes, os, aligned);
  }

  function Multiple(n: nat, unit: nat): (m: nat)
    requires unit > 0
    ensures LeastMultiple(n, unit, m)
  {
    var q := (n + unit - 1) / unit;
    DivMul(n + unit - 1, unit);
    q * unit
  }

  // ----- creation -----

  /** An arena is created if and only if the system gives all three and its two sizes round up within 64 bits. It has the
      least pages for its first block, or 64 KiB, committed, and at least 64 MiB reserved. */
  lemma {:induction false} CreatedExactly(initial: nat, page: nat, maxRule: nat, os: Os, reserve: nat, commit: nat)
    requires page > 0 && LeastMultiple(Max(initial, 64 * 1024 * 1024), page, reserve)
    requires LeastMultiple(if initial > 0 then initial else 64 * 1024, page, commit)
    ensures var r := Create(initial, page, maxRule, os);
            && (r.Some? <==> Max(initial, 64 * 1024 * 1024) + page - 1 <= SIZE_MAX
                             && os.reserveAt != 0 && os.commits && os.mallocs)
            && (r.Some? ==>
                  var a, p := r.value, os.reserveAt;
                  && a.active == Segment(p, p + commit, p + reserve) && a.cursor == p && a.retired == [] && a.live == {}
                  && a.maxRule == maxRule && a.pageSize == page && a.allocCount == a.requestedBytes == a.alignedBytes == 0)
  {
    hide AlignUp;
    AlignUpIs(Max(initial, DEFAULT_RESERVE), page, reserve);
    AlignUpIs(if initial > 0 then initial else DEFAULT_COMMIT, page, commit);
    LeastMono(if initial > 0 then initial else DEFAULT_COMMIT, Max(initial, DEFAULT_RESERVE), page, commit, reserve);
  }

  lemma {:induction false} LeastMono(x: nat, y: nat, unit: nat, m: nat, n: nat)
    requires unit > 0 && x <= y && LeastMultiple(x, unit, m) && LeastMultiple(y, unit, n)
    ensures m <= n
  {
    if m > n {
      ModAdd(m, n, unit);
      SmallModulo(m - n, unit);
    }
  }

  // ----- reset -----

  /** What a reset keeps committed: the least pages for what was used, but no less than 256 KiB and no more than 4 MiB, as
      far as they were committed. */
  lemma {:induction false} ResetExactly(a: Arena, keep: nat)
    requires Inv(a) && a.pageSize > 0
    requires LeastMultiple(Min(Max(256 * 1024, a.cursor - a.active.base), 4 * 1024 * 1024), a.pageSize, keep)
    requires 4 * 1024 * 1024 + a.pageSize - 1 <= SIZE_MAX
    ensures a.active.base <= a.cursor && a.active.base <= a.active.committedEnd <= a.active.reservedEnd
    ensures var r := Reset(a);
            && r.active == a.active.(committedEnd := Min(a.active.committedEnd, a.active.base + keep))
            && r.cursor == a.active.base && r.retired == [] && r.generation > a.generation
            && r.allocCount == r.requestedBytes == r.alignedBytes == 0
  {
    hide Inv, AlignUp, SegmentOk;
    ActiveBounds(a);
    AlignUpIs(Min(Max(HOT_RETENTION_LIMIT, a.cursor - a.active.base), HOT_RETENTION_CEILING), a.pageSize, keep);
  }
}
