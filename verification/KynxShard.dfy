/** The shard table of runtime/kynx.c, updated in place under its lock.

    `ShardObject` is one shard: its fixed slots and the number of them in use. `Check` is the part of
    orbit_kynx_check between taking and releasing the lock: one scan over the slots that looks for the
    address, the first free slot and the slot refilled longest ago, and then a decision on the entry
    found, an insertion or an eviction. It is proved to leave the shard, and to give the answer and the
    retry advice, that `KynxGate.Check` specifies.

    What holds over whole runs of checks is proved in module `KynxProofs`, about the specified shard.

    The time is a parameter. */
module KynxShard {
  import opened KynxTypes
  import opened KynxGate
  import opened KynxProofs
  import G = KynxGate

  class ShardObject {
    const entries: array<Entry>
    var count: nat

    ghost predicate Valid()
      reads this, entries
    {
      entries.Length == SLOTS && ShardOk(State())
    }

    ghost function State(): Shard
      reads this, entries
    {
      Shard(entries[..], count)
    }

    /** The zeroed table of orbit_kynx_init. */
    constructor ()
      ensures Valid() && fresh(entries) && forall i | 0 <= i < SLOTS :: entries[i].ip == NoIp
    {
      entries := new Entry[SLOTS](_ => Entry(NoIp, 0, 0, 0, 0, 0, false, 0));
      count := 0;
      new;
      EmptyShardOk(entries[..]);
    }

    /** orbit_kynx_check between taking and releasing the shard lock. */
    method Check(ip: IP, now: nat, c: Config) returns (allowed: bool, retryMs: int)
      requires Valid() && ip != NoIp
      modifies this, entries
      ensures Valid()
      ensures State() == G.Check(old(State()), ip, now, c).shard
      ensures allowed == G.Check(old(State()), ip, now, c).allowed
      ensures retryMs == G.Check(old(State()), ip, now, c).retryMs
    {
      hide ShardOk, CheckEntry;
      ghost var s := State();
      CheckKeeps(s, ip, now, c);
      var freeSlot: nat, oldestSlot: nat, oldestTime: nat := SLOTS, 0, now;
      var i := 0;
      while i < SLOTS
        invariant i <= SLOTS && entries[..] == s.entries && count == s.count
        invariant forall j | 0 <= j < i :: s.entries[j].ip != ip
        invariant freeSlot < SLOTS ==> freeSlot < i && s.entries[freeSlot].ip == NoIp
        invariant forall j | 0 <= j < i && j < freeSlot :: s.entries[j].ip != NoIp
        invariant freeSlot <= SLOTS && (oldestSlot, oldestTime) == OldestUpTo(s.entries, now, i)
      {
        var e := entries[i];
        if e.ip == NoIp {
          if freeSlot == SLOTS { freeSlot := i; }
        } else if e.ip == ip {
          FindIs(s.entries, ip, i);
          var v := CheckEntry(e, now, c);
          entries[i] := v.entry;
          assert entries[..] == s.entries[i := v.entry];
          return v.allowed, v.retryMs;
        } else if e.lastRefill < oldestTime {
          oldestTime := e.lastRefill;
          oldestSlot := i;
        }
        i := i + 1;
      }
      FindIs(s.entries, ip, SLOTS);
      FindIs(s.entries, NoIp, freeSlot);
      var target := if freeSlot < SLOTS then freeSlot else oldestSlot;
      OldestBound(s.entries, now, SLOTS);
      entries[target] := FreshEntry(ip, now, c);
      assert entries[..] == s.entries[target := FreshEntry(ip, now, c)];
      if freeSlot < SLOTS { count := count + 1; }
      allowed, retryMs := true, 0;
    }
  }

  lemma {:induction false} FindIs(entries: seq<Entry>, ip: IP, i: nat)
    requires i <= |entries| && forall j | 0 <= j < i :: entries[j].ip != ip
    requires i < |entries| ==> entries[i].ip == ip
    ensures Find(entries, ip) == i
  {
    var j := Find(entries, ip);
    assert j <= i || i == |entries|;
  }
}
