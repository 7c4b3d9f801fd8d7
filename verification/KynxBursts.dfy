/** runtime/kynx.c: how many requests at one instant a client is granted. */
module KynxBursts {
  import opened Basics
  import opened KynxTypes
  import opened KynxGate
  import opened KynxProofs
  import opened Numbers

  /** The burst setting, or the rate, or one. */
  function Allowance(c: Config): (n: nat)
    ensures n >= 1
  {
    if c.burst > 0 then c.burst else if c.rateLimit > 0 then c.rateLimit else 1
  }

  predicate AtOnce(reqs: seq<Request>, now: nat) {
    forall i | 0 <= i < |reqs| :: reqs[i].now == now && reqs[i].ip != NoIp
  }

  /** How many of the requests are of `ip`. */
  function Asked(reqs: seq<Request>, ip: IP): nat
    decreases |reqs|
  {
    if reqs == [] then 0 else (if reqs[0].ip == ip then 1 else 0) + Asked(reqs[1..], ip)
  }

  /** The bucket as it was refilled at `now`, with `k` whole tokens left. */
  predicate Left(e: Entry, now: nat, k: nat) {
    && e.lastRefill == now && k * 1000 <= e.tokens < k * 1000 + 1000
    && (e.banned ==> k == 0 && e.bannedAt == now)
  }

  lemma {:induction false} OneMore(e: Entry, now: nat, k: nat, c: Config)
    requires Left(e, now, k)
    ensures var v := CheckEntry(e, now, c);
            (v.allowed <==> k > 0) && Left(v.entry, now, if k > 0 then k - 1 else 0)
  {
    hide WindowNs, BanNs, Gained, RetryAfter;
    assert k > 0 ==> (k - 1) * 1000 == k * 1000 - 1000;
  }

  lemma {:induction false} Spent(s: Shard, reqs: seq<Request>, ip: IP, now: nat, k: nat, c: Config)
    requires ShardOk(s) && ip != NoIp && AtOnce(reqs, now) && Stays(s, reqs, ip, c)
    requires EntryOf(s, ip).Some? && Left(EntryOf(s, ip).value, now, k)
    ensures Admitted(s, reqs, ip, c) == if Asked(reqs, ip) < k then Asked(reqs, ip) else k
    decreases |reqs|
  {
    hide Check, CheckEntry, ShardOk, Left, EntryOf, FreshEntry;
    if reqs != [] {
      SlotsOf(s);
      var q := reqs[0];
      CheckEffect(s, q.ip, now, c, ip);
      CheckKeeps(s, q.ip, now, c);
      var o := Check(s, q.ip, now, c);
      assert EntryOf(o.shard, ip).Some? by { StaysNow(o.shard, reqs[1..], ip, c); }
      if q.ip == ip {
        OneMore(EntryOf(s, ip).value, now, k, c);
        Spent(o.shard, reqs[1..], ip, now, if k > 0 then k - 1 else 0, c);
      } else {
        Spent(o.shard, reqs[1..], ip, now, k, c);
      }
    }
  }

  /** Of requests that all come at one instant, a client the table does not know is granted exactly its allowance, whoever
      else asks meanwhile, as long as it is not evicted. */
  lemma {:induction false} BurstExact(s: Shard, reqs: seq<Request>, ip: IP, now: nat, c: Config)
    requires ShardOk(s) && ip != NoIp && EntryOf(s, ip).None?
    requires reqs != [] && reqs[0].ip == ip && AtOnce(reqs, now)
    requires Stays(Check(s, ip, now, c).shard, reqs[1..], ip, c)
    ensures Admitted(s, reqs, ip, c) == if Asked(reqs, ip) < Allowance(c) then Asked(reqs, ip) else Allowance(c)
  {
    hide Check, ShardOk, EntryOf;
    SlotsOf(s);
    CheckEffect(s, ip, now, c, ip);
    CheckKeeps(s, ip, now, c);
    Spent(Check(s, ip, now, c).shard, reqs[1..], ip, now, Allowance(c) - 1, c);
  }

  // ----- a bucket that filled up -----

  lemma {:induction false} Worth(wait: nat, rate: nat, w: nat, a: nat)
    requires wait <= w * MS * 10 && rate * w * 10_000_000_000 < 0x1_0000_0000_0000_0000 && wait * rate >= a * (w * MS)
    ensures (a * 1000) * (w * MS) <= wait * rate * 1000 < 0x1_0000_0000_0000_0000
  {
    MulMono(wait, w * MS * 10, rate);
    assert (w * MS * 10) * rate * 1000 == rate * w * 10_000_000_000;
    assert (a * 1000) * (w * MS) == a * (w * MS) * 1000;
  }

  lemma {:induction false} FilledUp(e: Entry, now: nat, c: Config)
    requires 0 < e.lastRefill < now && 0 <= e.tokens && NoOverflow(c)
    requires Counted(now - e.lastRefill, c) * Rate(c) >= Allowance(c) * (Window(c) * MS)
    ensures Refill(e, now, c) == e.(lastRefill := now, tokens := Allowance(c) * 1000)
  {
    hide Quotient, U64, Rate, Window, Allowance;
    var wait, a := Counted(now - e.lastRefill, c), Allowance(c);
    Worth(wait, Rate(c), Window(c), a);
    U64Bounds(wait * Rate(c) * 1000);
    EnoughMillis(wait * Rate(c) * 1000, a * 1000, Window(c) * MS, Gained(c, wait));
    assert Burst(c) == a by { BurstIs(c); }
  }

  lemma {:induction false} BurstIs(c: Config)
    ensures Burst(c) == Allowance(c)
    ensures Rate(c) == (if c.rateLimit > 1 then c.rateLimit else 1)
    ensures Window(c) == (if c.windowMs > 1 then c.windowMs else 1)
  {
  }

  /** The same for a client the table knows, whose bucket has had time to fill: it has saved the allowance and no more.
      Time beyond ten windows does not count. */
  lemma {:induction false} RestedBurst(s: Shard, reqs: seq<Request>, ip: IP, now: nat, c: Config)
    requires ShardOk(s) && ip != NoIp && EntryOf(s, ip).Some? && NoOverflow(c)
    requires reqs != [] && reqs[0].ip == ip && AtOnce(reqs, now)
    requires Stays(Check(s, ip, now, c).shard, reqs[1..], ip, c)
    requires var e := EntryOf(s, ip).value;
             && !e.banned && 0 <= e.tokens && 0 < e.lastRefill < now
             && Counted(now - e.lastRefill, c) * Rate(c) >= Allowance(c) * (Window(c) * MS)
    ensures Admitted(s, reqs, ip, c) == if Asked(reqs, ip) < Allowance(c) then Asked(reqs, ip) else Allowance(c)
  {
    hide Check, CheckEntry, ShardOk, EntryOf, NoOverflow, Counted;
    SlotsOf(s);
    CheckEffect(s, ip, now, c, ip);
    CheckKeeps(s, ip, now, c);
    FirstOfRested(EntryOf(s, ip).value, now, c);
    Spent(Check(s, ip, now, c).shard, reqs[1..], ip, now, Allowance(c) - 1, c);
  }

  lemma {:induction false} FirstOfRested(e: Entry, now: nat, c: Config)
    requires !e.banned && 0 < e.lastRefill < now && 0 <= e.tokens && NoOverflow(c)
    requires Counted(now - e.lastRefill, c) * Rate(c) >= Allowance(c) * (Window(c) * MS)
    ensures CheckEntry(e, now, c).allowed && Left(CheckEntry(e, now, c).entry, now, Allowance(c) - 1)
  {
    hide Refill, Counted, NoOverflow, WindowNs, U64;
    FilledUp(e, now, c);
  }
}
