/** runtime/kynx.c: the per-IP gate of orbit_kynx_check.

    A shard is a table of 64 entries, each with a token bucket counted in thousandths, a suspicion
    score and a ban. `Check` is one request under the shard lock: it refills and spends the bucket of a
    known address, or denies it and scores a violation, and it inserts an unknown one, evicting the entry
    refilled longest ago when the table is full.

    Unsigned 64-bit arithmetic is written out with `U64`, and the conversion of the remaining ban to an
    int with `ToInt32`. Divisions of the C code are `Quotient`, which rounds down.

    The configuration's odd values are kept: a rate or a window below 1 counts as 1 where the code says
    so, and only there. */
module KynxGate {
  import opened KynxTypes
  import opened Numbers

  const SLOTS: nat := 64
  const MS: nat := 1_000_000

  datatype Config = Config(rateLimit: int, windowMs: int, burst: int, banThreshold: int,
                           scoreIncrement: int, scoreDecay: int, banDurationS: int)

  datatype Entry = Entry(ip: IP, lastRefill: nat, lastViolation: nat, lastDecay: nat,
                         tokens: int, score: int, banned: bool, bannedAt: nat)

  function U64(x: int): (r: nat)
    ensures r < 0x1_0000_0000_0000_0000
  {
    x % 0x1_0000_0000_0000_0000
  }

  function Rate(c: Config): (r: nat) ensures r >= 1 { if c.rateLimit < 1 then 1 else c.rateLimit }
  function Window(c: Config): (r: nat) ensures r >= 1 { if c.windowMs < 1 then 1 else c.windowMs }

  /** kynx_effective_burst. */
  function Burst(c: Config): (b: nat)
    ensures b >= 1
  {
    var b := if c.burst <= 0 then c.rateLimit else c.burst;
    if b < 1 then 1 else b
  }

  /** The window as orbit_kynx_check computes it, in nanoseconds. */
  function WindowNs(c: Config): nat {
    U64(U64(c.windowMs) * MS)
  }

  /** kynx_ban_duration_ns. */
  function BanNs(c: Config): nat {
    var s := if c.banDurationS <= 0 then 300 else c.banDurationS;
    U64(s * 1_000_000_000)
  }

  /** The window in nanoseconds once a non-positive setting has been replaced by 1 ms. */
  function WindowSpan(c: Config): (w: nat)
    ensures w >= MS
  {
    Window(c) * MS
  }

  /** Thousandths gained over `elapsed`, which is already capped at ten windows. */
  function Gained(c: Config, elapsed: nat): nat {
    Quotient(U64(elapsed * Rate(c) * 1000), WindowSpan(c))
  }

  function MaxElapsed(c: Config): nat {
    WindowSpan(c) * 10
  }

  /** kynx_refill. */
  function Refill(e: Entry, now: nat, c: Config): Entry {
    if e.lastRefill == 0 || now <= e.lastRefill then e.(lastRefill := now)
    else
      var elapsed := if now - e.lastRefill > MaxElapsed(c) then MaxElapsed(c) else now - e.lastRefill;
      var tokens := e.tokens + Gained(c, elapsed);
      e.(lastRefill := now, tokens := if tokens > Burst(c) * 1000 then Burst(c) * 1000 else tokens)
  }

  /** kynx_retry_after_ms. */
  function RetryAfter(tokens: int, c: Config): int {
    var need := 1000 - tokens;
    if need <= 0 then 1
    else
      var ms := Quotient(need * Window(c), Rate(c) * 1000);
      if ms < 1 then 1 else if ms > Window(c) then Window(c) else ms
  }

  datatype Verdict = Verdict(entry: Entry, allowed: bool, retryMs: int)

  /** Conversion to a 32-bit int. */
  function ToInt32(x: nat): int {
    var r := x % 0x1_0000_0000;
    if r < 0x8000_0000 then r else r - 0x1_0000_0000
  }

  /** A known IP asks again. */
  function CheckEntry(e: Entry, now: nat, c: Config): Verdict {
    if e.banned && U64(now - e.bannedAt) <= BanNs(c) then
      Verdict(e, false, ToInt32((BanNs(c) - U64(now - e.bannedAt)) / MS))
    else
      var free := if e.banned then e.(banned := false, score := Half(e.score)) else e;
      Spend(Refill(free, now, c), now, c)
  }

  /** Division by two as C rounds it. */
  function Half(x: int): int {
    if x >= 0 then x / 2 else -((-x) / 2)
  }

  function Spend(e: Entry, now: nat, c: Config): Verdict {
    if e.tokens >= 1000 then Verdict(Decay(e.(tokens := e.tokens - 1000), now, c), true, 0)
    else Verdict(Violate(e, now, c), false, RetryAfter(e.tokens, c))
  }

  /** Suspicion falls at most once per window. */
  function Decay(e: Entry, now: nat, c: Config): Entry {
    if e.score > 0 && U64(now - e.lastDecay) >= WindowNs(c) then
      var s := e.score - c.scoreDecay;
      e.(score := if s < 0 then 0 else s, lastDecay := now)
    else e
  }

  /** Suspicion rises at most once per window; reaching the threshold bans. */
  function Violate(e: Entry, now: nat, c: Config): Entry {
    if U64(now - e.lastViolation) >= WindowNs(c) then
      var s := e.score + c.scoreIncrement;
      if s >= c.banThreshold then e.(score := s, lastViolation := now, banned := true, bannedAt := now)
      else e.(score := s, lastViolation := now)
    else e
  }

  function FreshEntry(ip: IP, now: nat, c: Config): Entry {
    Entry(ip, now, 0, now, Burst(c) * 1000 - 1000, 0, false, 0)
  }

  // ----- the table -----

  /** Index of the IP's entry, or the table size. */
  function Find(entries: seq<Entry>, ip: IP): (i: nat)
    ensures i <= |entries|
    ensures i < |entries| ==> entries[i].ip == ip
    ensures forall j | 0 <= j < i :: entries[j].ip != ip
  {
    if entries == [] || entries[0].ip == ip then 0 else 1 + Find(entries[1..], ip)
  }

  /** The slot whose bucket was refilled longest ago; 0 if none was refilled before `now`. */
  function Oldest(entries: seq<Entry>, now: nat): nat {
    OldestUpTo(entries, now, |entries|).0
  }

  /** The oldest slot and its time among the first `n` slots. */
  function OldestUpTo(entries: seq<Entry>, now: nat, n: nat): (nat, nat)
    requires n <= |entries|
  {
    if n == 0 then (0, now)
    else
      var (slot, time) := OldestUpTo(entries, now, n - 1);
      if entries[n - 1].ip != NoIp && entries[n - 1].lastRefill < time then (n - 1, entries[n - 1].lastRefill)
      else (slot, time)
  }

  datatype Shard = Shard(entries: seq<Entry>, count: nat)

  datatype Outcome = Outcome(shard: Shard, allowed: bool, retryMs: int)

  /** orbit_kynx_check under the shard lock. */
  function Check(s: Shard, ip: IP, now: nat, c: Config): (o: Outcome)
    requires |s.entries| == SLOTS
    ensures |o.shard.entries| == SLOTS
  {
    var i := Find(s.entries, ip);
    if i < SLOTS then
      var v := CheckEntry(s.entries[i], now, c);
      Outcome(s.(entries := s.entries[i := v.entry]), v.allowed, v.retryMs)
    else
      var free := Find(s.entries, NoIp);
      OldestBound(s.entries, now, SLOTS);
      if free < SLOTS then
        Outcome(Shard(s.entries[free := FreshEntry(ip, now, c)], s.count + 1), true, 0)
      else
        Outcome(s.(entries := s.entries[Oldest(s.entries, now) := FreshEntry(ip, now, c)]), true, 0)
  }

  lemma {:induction false} OldestBound(entries: seq<Entry>, now: nat, n: nat)
    requires n <= |entries|
    ensures n > 0 ==> OldestUpTo(entries, now, n).0 < n
    ensures n == 0 ==> OldestUpTo(entries, now, n).0 == 0
  {
    if n > 0 { OldestBound(entries, now, n - 1); }
  }
}
