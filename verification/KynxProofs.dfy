/** What the gate guarantees over whole runs. */
module KynxProofs {
  import opened Basics
  import opened KynxTypes
  import opened KynxGate
  import opened Numbers

  // ----- unsigned arithmetic -----

  lemma {:induction false} U64Bounds(x: nat)
    ensures U64(x) <= x
    ensures x < 0x1_0000_0000_0000_0000 ==> U64(x) == x
  {
    if x < 0x1_0000_0000_0000_0000 { SmallModulo(x, 0x1_0000_0000_0000_0000); }
  }

  /** A positive window, as an int. */
  predicate PositiveWindow(c: Config) {
    0 < c.windowMs < 0x8000_0000
  }

  lemma {:induction false} WindowExact(c: Config)
    requires PositiveWindow(c)
    ensures WindowNs(c) == WindowSpan(c) == c.windowMs * MS
  {
    U64Bounds(c.windowMs);
    U64Bounds(c.windowMs * MS);
  }

  /** The multiply in kynx_refill stays in 64 bits for every elapsed time exactly when rate * window_ms * 10^10 does. */
  lemma {:induction false} RefillOverflowExact(c: Config)
    ensures (forall elapsed: nat | elapsed <= MaxElapsed(c) :: elapsed * Rate(c) * 1000 < 0x1_0000_0000_0000_0000)
            <==> Rate(c) * Window(c) * 10_000_000_000 < 0x1_0000_0000_0000_0000
  {
    var m, r := MaxElapsed(c), Rate(c);
    assert m * r * 1000 == r * Window(c) * 10_000_000_000;
    forall elapsed: nat | elapsed <= m ensures elapsed * r * 1000 <= m * r * 1000 {
      MulMono(elapsed, m, r);
    }
  }

  lemma {:induction false} MulMono(x: nat, y: nat, k: nat)
    requires x <= y
    ensures x * k <= y * k
  {
  }

  // ----- the admission bound -----

  /** Tokens plus admissions are paid for by the burst and the time since `t0` (all in thousandths times the window). */
  predicate Paid(e: Entry, n: nat, t0: nat, c: Config) {
    && 0 <= e.tokens && t0 <= e.lastRefill
    && (e.tokens + 1000 * n) * WindowSpan(c) <= 1000 * Burst(c) * WindowSpan(c) + 1000 * Rate(c) * (e.lastRefill - t0)
  }

  lemma {:induction false} GainedBound(c: Config, elapsed: nat)
    ensures Gained(c, elapsed) * WindowSpan(c) <= elapsed * Rate(c) * 1000
  {
    U64Bounds(elapsed * Rate(c) * 1000);
  }

  lemma {:induction false} PaidStep(x: int, x': int, g: nat, el: nat, d: nat, w: nat, r: nat, base: int, since: nat)
    requires x' <= x + g && g * w <= el * r * 1000 && el <= d
    requires x * w <= base + 1000 * r * since
    ensures x' * w <= base + 1000 * r * (since + d)
  {
    assert x' * w <= (x + g) * w == x * w + g * w;
    MulMono(el, d, r);
    assert 1000 * r * (since + d) == 1000 * r * since + 1000 * (d * r);
  }

  lemma {:induction false} RefillPaid(e: Entry, n: nat, t0: nat, now: nat, c: Config)
    requires Paid(e, n, t0, c) && e.lastRefill <= now
    ensures Paid(Refill(e, now, c), n, t0, c) && Refill(e, now, c).lastRefill == now
  {
    hide Gained, Burst, WindowSpan, Rate, MaxElapsed;
    var d := now - e.lastRefill;
    var elapsed := if d > MaxElapsed(c) then MaxElapsed(c) else d;
    var g := if e.lastRefill == 0 || now <= e.lastRefill then 0 else Gained(c, elapsed);
    GainedBound(c, elapsed);
    PaidStep(e.tokens + 1000 * n, Refill(e, now, c).tokens + 1000 * n, g, elapsed, d, WindowSpan(c), Rate(c),
             1000 * Burst(c) * WindowSpan(c), e.lastRefill - t0);
  }

  lemma {:induction false} CheckEntryPaid(e: Entry, n: nat, t0: nat, now: nat, c: Config)
    requires Paid(e, n, t0, c) && e.lastRefill <= now
    ensures var v := CheckEntry(e, now, c);
            Paid(v.entry, if v.allowed then n + 1 else n, t0, c) && v.entry.lastRefill <= now && v.entry.ip == e.ip
  {
    hide Refill, WindowSpan, Burst, Rate, WindowNs;
    var free := if e.banned then e.(banned := false, score := Half(e.score)) else e;
    RefillPaid(free, n, t0, now, c);
    RefillIp(free, now, c);
  }

  lemma {:induction false} RefillIp(e: Entry, now: nat, c: Config)
    ensures Refill(e, now, c).ip == e.ip && Refill(e, now, c).banned == e.banned
    ensures Refill(e, now, c).score == e.score && Refill(e, now, c).lastViolation == e.lastViolation
  {
  }

  lemma {:induction false} FreshPaid(ip: IP, now: nat, c: Config)
    ensures Paid(FreshEntry(ip, now, c), 1, now, c)
  {
  }

  // ----- the shard table -----

  function Used(entries: seq<Entry>): nat {
    if entries == [] then 0 else (if entries[0].ip == NoIp then 0 else 1) + Used(entries[1..])
  }

  /** Each IP at most once, and the counter equals the used slots. */
  predicate ShardOk(s: Shard) {
    && |s.entries| == SLOTS && s.count == Used(s.entries)
    && forall i, j | 0 <= i < j < SLOTS && s.entries[i].ip != NoIp :: s.entries[i].ip != s.entries[j].ip
  }

  lemma {:induction false} UsedSet(entries: seq<Entry>, i: nat, e: Entry)
    requires i < |entries|
    ensures Used(entries[i := e]) == Used(entries) - (if entries[i].ip == NoIp then 0 else 1) + (if e.ip == NoIp then 0 else 1)
  {
    if i == 0 {
      assert entries[i := e][1..] == entries[1..];
    } else {
      assert entries[i := e][1..] == entries[1..][i - 1 := e];
      UsedSet(entries[1..], i - 1, e);
    }
  }

  lemma {:induction false} EmptyShardOk(entries: seq<Entry>)
    requires forall e | e in entries :: e.ip == NoIp
    ensures Used(entries) == 0
  {
    if entries != [] {
      assert entries[0] in entries;
      forall e | e in entries[1..] ensures e.ip == NoIp { assert e in entries; }
      EmptyShardOk(entries[1..]);
    }
  }

  /** The slot a check writes, and what it writes there. */
  function Touched(s: Shard, ip: IP, now: nat): (i: nat)
    requires |s.entries| == SLOTS
    ensures i < SLOTS
  {
    OldestBound(s.entries, now, SLOTS);
    if Find(s.entries, ip) < SLOTS then Find(s.entries, ip)
    else if Find(s.entries, NoIp) < SLOTS then Find(s.entries, NoIp)
    else Oldest(s.entries, now)
  }

  lemma {:induction false} CheckEntryIp(e: Entry, now: nat, c: Config)
    ensures CheckEntry(e, now, c).entry.ip == e.ip
  {
    hide Refill;
    RefillIp(if e.banned then e.(banned := false, score := Half(e.score)) else e, now, c);
  }

  lemma {:induction false} CheckShape(s: Shard, ip: IP, now: nat, c: Config)
    requires |s.entries| == SLOTS
    ensures var o, i := Check(s, ip, now, c), Touched(s, ip, now);
            && |o.shard.entries| == SLOTS && o.shard.entries == s.entries[i := o.shard.entries[i]]
            && o.shard.entries[i].ip == ip
            && o.shard.count == if Find(s.entries, ip) == SLOTS && Find(s.entries, NoIp) < SLOTS then s.count + 1 else s.count
  {
    hide CheckEntry, FreshEntry, OldestUpTo;
    OldestBound(s.entries, now, SLOTS);
    if Find(s.entries, ip) < SLOTS { CheckEntryIp(s.entries[Find(s.entries, ip)], now, c); }
    FreshIp(ip, now, c);
  }

  lemma {:induction false} FreshIp(ip: IP, now: nat, c: Config)
    ensures FreshEntry(ip, now, c).ip == ip
  {
  }

  /** Every check keeps each IP at most once and the count exact, eviction included. */
  lemma {:induction false} CheckKeeps(s: Shard, ip: IP, now: nat, c: Config)
    requires ShardOk(s) && ip != NoIp
    ensures ShardOk(Check(s, ip, now, c).shard)
  {
    hide Check, OldestUpTo;
    CheckShape(s, ip, now, c);
    var i := Touched(s, ip, now);
    UsedSet(s.entries, i, Check(s, ip, now, c).shard.entries[i]);
  }

  function EntryOf(s: Shard, ip: IP): Option<Entry> {
    var i := Find(s.entries, ip);
    if i < |s.entries| then Some(s.entries[i]) else None
  }

  lemma {:induction false} EntryAt(s: Shard, i: nat)
    requires ShardOk(s) && i < SLOTS && s.entries[i].ip != NoIp
    ensures EntryOf(s, s.entries[i].ip) == Some(s.entries[i])
  {
    var j := Find(s.entries, s.entries[i].ip);
    assert j <= i;
  }

  /** A check moves its own IP's entry and leaves every other IP as it was, unless it evicts it. */
  lemma {:induction false} CheckEffect(s: Shard, ip: IP, now: nat, c: Config, other: IP)
    requires ShardOk(s) && ip != NoIp && other != NoIp
    ensures var o := Check(s, ip, now, c);
            && (other != ip ==> EntryOf(o.shard, other) == EntryOf(s, other) || EntryOf(o.shard, other) == None)
            && (EntryOf(s, ip).None? ==> EntryOf(o.shard, ip) == Some(FreshEntry(ip, now, c)) && o.allowed)
            && (EntryOf(s, ip).Some? ==>
                  var v := CheckEntry(EntryOf(s, ip).value, now, c);
                  EntryOf(o.shard, ip) == Some(v.entry) && o.allowed == v.allowed && o.retryMs == v.retryMs)
  {
    hide CheckEntry, FreshEntry, OldestUpTo;
    CheckShape(s, ip, now, c);
    CheckKeeps(s, ip, now, c);
    var o, i := Check(s, ip, now, c), Touched(s, ip, now);
    EntryAt(o.shard, i);
    if other != ip {
      var j := Find(o.shard.entries, other);
      if j < SLOTS {
        assert j != i && s.entries[j] == o.shard.entries[j];
        EntryAt(s, j);
      }
    }
  }

  datatype Request = Request(ip: IP, now: nat)

  /** The shard after a sequence of checks. */
  function Serve(s: Shard, reqs: seq<Request>, c: Config): (r: Shard)
    requires |s.entries| == SLOTS
    ensures |r.entries| == SLOTS
    decreases |reqs|
  {
    if reqs == [] then s
    else Serve(Check(s, reqs[0].ip, reqs[0].now, c).shard, reqs[1..], c)
  }

  /** How many checks of `ip` were answered yes. */
  function Admitted(s: Shard, reqs: seq<Request>, ip: IP, c: Config): nat
    requires |s.entries| == SLOTS
    decreases |reqs|
  {
    if reqs == [] then 0
    else
      var o := Check(s, reqs[0].ip, reqs[0].now, c);
      (if reqs[0].ip == ip && o.allowed then 1 else 0) + Admitted(o.shard, reqs[1..], ip, c)
  }

  /** `ip` is in the table after every one of the checks. */
  predicate Stays(s: Shard, reqs: seq<Request>, ip: IP, c: Config)
    requires |s.entries| == SLOTS
    decreases |reqs|
  {
    if reqs == [] then EntryOf(s, ip).Some?
    else EntryOf(s, ip).Some? && Stays(Check(s, reqs[0].ip, reqs[0].now, c).shard, reqs[1..], ip, c)
  }

  /** Times do not go back, and every request carries a parsed address. */
  predicate Ordered(reqs: seq<Request>, since: nat)
    decreases |reqs|
  {
    reqs == [] || (since <= reqs[0].now && reqs[0].ip != NoIp && Ordered(reqs[1..], reqs[0].now))
  }

  function LastTime(reqs: seq<Request>, since: nat): nat
    decreases |reqs|
  {
    if reqs == [] then since else LastTime(reqs[1..], reqs[0].now)
  }

  /** Every reachable shard is sound. */
  lemma {:induction false} ServeKeeps(s: Shard, reqs: seq<Request>, since: nat, c: Config)
    requires ShardOk(s) && Ordered(reqs, since)
    ensures ShardOk(Serve(s, reqs, c))
    decreases |reqs|
  {
    hide Check, ShardOk;
    if reqs != [] {
      SlotsOf(s);
      CheckKeeps(s, reqs[0].ip, reqs[0].now, c);
      ServeKeeps(Check(s, reqs[0].ip, reqs[0].now, c).shard, reqs[1..], reqs[0].now, c);
    }
  }

  lemma {:induction false} SlotsOf(s: Shard)
    requires ShardOk(s)
    ensures |s.entries| == SLOTS
  {
  }

  lemma {:induction false} AdmissionsPaid(s: Shard, reqs: seq<Request>, ip: IP, c: Config, n: nat, t0: nat, since: nat)
    requires ShardOk(s) && Ordered(reqs, since) && ip != NoIp && Stays(s, reqs, ip, c)
    requires Paid(EntryOf(s, ip).value, n, t0, c) && EntryOf(s, ip).value.lastRefill <= since
    ensures EntryOf(Serve(s, reqs, c), ip).Some?
    ensures var e := EntryOf(Serve(s, reqs, c), ip).value;
            Paid(e, n + Admitted(s, reqs, ip, c), t0, c) && e.lastRefill <= LastTime(reqs, since)
    decreases |reqs|
  {
    hide Check, CheckEntry, ShardOk, Paid, EntryOf, FreshEntry;
    if reqs != [] {
      SlotsOf(s);
      var q := reqs[0];
      CheckEffect(s, q.ip, q.now, c, ip);
      CheckKeeps(s, q.ip, q.now, c);
      var o := Check(s, q.ip, q.now, c);
      var e := EntryOf(s, ip).value;
      var n' := if q.ip == ip && o.allowed then n + 1 else n;
      if q.ip == ip { CheckEntryPaid(e, n, t0, q.now, c); }
      assert EntryOf(o.shard, ip).Some? by { StaysNow(o.shard, reqs[1..], ip, c); }
      AdmissionsPaid(o.shard, reqs[1..], ip, c, n', t0, q.now);
    }
  }

  lemma {:induction false} StaysNow(s: Shard, reqs: seq<Request>, ip: IP, c: Config)
    requires |s.entries| == SLOTS && Stays(s, reqs, ip, c)
    ensures EntryOf(s, ip).Some?
  {
  }

  /** Token-bucket bound.  From the check that inserts an IP on, and as long as it is not evicted, the
      admissions are paid for by the burst and the elapsed time, for every interleaving with other
      IPs, every setting and every rounding, clamping and wrap-around on the way. */
  lemma {:induction false} AdmissionBound(s: Shard, reqs: seq<Request>, ip: IP, c: Config)
    requires ShardOk(s) && reqs != [] && ip != NoIp && reqs[0].ip == ip && EntryOf(s, ip).None?
    requires Ordered(reqs, 0)
    requires Stays(Check(s, ip, reqs[0].now, c).shard, reqs[1..], ip, c)
    ensures Admitted(s, reqs, ip, c) * WindowSpan(c)
            <= Burst(c) * WindowSpan(c) + (LastTime(reqs, 0) - reqs[0].now) * Rate(c)
  {
    hide Check, FreshEntry;
    var t0 := reqs[0].now;
    CheckEffect(s, ip, t0, c, ip);
    CheckKeeps(s, ip, t0, c);
    FreshPaid(ip, t0, c);
    FreshTimes(ip, t0, c);
    var s1, rest := Check(s, ip, t0, c).shard, reqs[1..];
    AdmissionsPaid(s1, rest, ip, c, 1, t0, t0);
    var e, n := EntryOf(Serve(s1, rest, c), ip).value, Admitted(s, reqs, ip, c);
    assert n == 1 + Admitted(s1, rest, ip, c);
    BoundFromPaid(e.tokens, n, e.lastRefill - t0, LastTime(rest, t0) - t0, Burst(c), WindowSpan(c), Rate(c));
  }

  lemma {:induction false} FreshTimes(ip: IP, now: nat, c: Config)
    ensures FreshEntry(ip, now, c).lastRefill == now
  {
  }

  lemma {:induction false} BoundFromPaid(tokens: nat, n: nat, d: int, d': int, b: nat, w: nat, r: nat)
    requires (tokens + 1000 * n) * w <= 1000 * b * w + 1000 * r * d && d <= d'
    ensures n * w <= b * w + d' * r
  {
    assert (tokens + 1000 * n) * w == tokens * w + 1000 * (n * w);
    assert 1000 * b * w == 1000 * (b * w) && 1000 * r * d == 1000 * (d * r);
    assert d' * r == d * r + (d' - d) * r && (d' - d) * r >= 0;
    assert tokens * w >= 0;
  }

  /** Among the first `n` slots the scan remembers the first entry with the least refill time before `now`. */
  lemma {:induction false} OldestIsLeast(entries: seq<Entry>, now: nat, n: nat)
    requires n <= |entries|
    ensures var (slot, time) := OldestUpTo(entries, now, n);
            && time <= now && (time < now ==> slot < n && entries[slot].ip != NoIp && entries[slot].lastRefill == time)
            && (forall j | 0 <= j < n && entries[j].ip != NoIp :: time <= entries[j].lastRefill)
            && (forall j | 0 <= j < slot && j < n && entries[j].ip != NoIp :: time < entries[j].lastRefill)
            && (time == now ==> slot == 0)
    decreases n
  {
    if n > 0 { OldestIsLeast(entries, now, n - 1); }
  }

  /** A full table gives up an entry refilled longest ago, whenever any entry is older than the request. */
  lemma {:induction false} EvictsLeastRecent(s: Shard, ip: IP, now: nat, c: Config)
    requires ShardOk(s) && ip != NoIp && EntryOf(s, ip).None? && s.count == SLOTS
    requires exists j :: 0 <= j < SLOTS && s.entries[j].lastRefill < now
    ensures Check(s, ip, now, c).shard.entries == s.entries[Touched(s, ip, now) := FreshEntry(ip, now, c)]
    ensures forall j | 0 <= j < SLOTS :: s.entries[Touched(s, ip, now)].lastRefill <= s.entries[j].lastRefill
  {
    hide CheckEntry, FreshEntry;
    FullMeansUsed(s.entries);
    OldestIsLeast(s.entries, now, SLOTS);
    var free := Find(s.entries, NoIp);
    assert free == SLOTS;
  }

  lemma {:induction false} FullMeansUsed(entries: seq<Entry>)
    ensures Used(entries) <= |entries|
    ensures Used(entries) == |entries| ==> forall j | 0 <= j < |entries| :: entries[j].ip != NoIp
  {
    if entries != [] {
      FullMeansUsed(entries[1..]);
      if Used(entries) == |entries| {
        forall j | 0 <= j < |entries| ensures entries[j].ip != NoIp {
          if j > 0 { assert entries[j] == entries[1..][j - 1]; }
        }
      }
    }
  }

  // ----- bans -----

  /** The settings a ban is meant for. The rate and the burst may be anything. */
  predicate BanConfig(c: Config) {
    PositiveWindow(c) && c.scoreIncrement > 0 && c.scoreDecay >= 0
  }

  /** Violation windows that must pass between a first violation and a ban: ceil(threshold / increment) - 1. */
  function WindowsToBan(c: Config): nat
    requires c.scoreIncrement > 0
  {
    if c.banThreshold <= 0 then 0 else Quotient(c.banThreshold - 1, c.scoreIncrement)
  }

  /** `k` violations were scored since `first`, the time of the first one; no ban yet. */
  predicate Suspect(e: Entry, k: nat, first: Option<nat>, now: nat, c: Config) {
    && !e.banned && e.score <= k * c.scoreIncrement && e.lastViolation <= now && e.lastDecay <= now && e.lastRefill <= now
    && (first.Some? ==> first.value <= now)
    && (k >= 1 ==> first.Some? && first.value + (k - 1) * WindowSpan(c) <= e.lastViolation)
  }

  /** A ban was reached, not before its time. */
  predicate Punished(e: Entry, first: Option<nat>, now: nat, c: Config)
    requires c.scoreIncrement > 0
  {
    first.Some? && first.value + WindowsToBan(c) * WindowSpan(c) <= now
    && (e.banned ==> first.value + WindowsToBan(c) * WindowSpan(c) <= e.bannedAt)
  }

  ghost predicate Watched(e: Entry, first: Option<nat>, now: nat, c: Config)
    requires c.scoreIncrement > 0
  {
    (exists k: nat :: Suspect(e, k, first, now, c)) || Punished(e, first, now, c)
  }

  /** The time of the first violation scored, given when it was before this check: a check that scores one moves
      the entry's violation time. */
  function FirstScore(first: Option<nat>, before: Entry, after: Entry, now: nat): Option<nat> {
    if first.None? && after.lastViolation != before.lastViolation then Some(now) else first
  }

  lemma {:induction false} ThresholdNeeds(k: nat, c: Config)
    requires c.scoreIncrement > 0 && (k + 1) * c.scoreIncrement >= c.banThreshold
    ensures WindowsToBan(c) <= k
  {
    var q, i := WindowsToBan(c), c.scoreIncrement;
    if c.banThreshold > 0 && q > k { MulMono(k + 1, q, i); }
  }

  /** A violation scores at most one unit and only a window after the last one. */
  lemma {:induction false} ViolateWatched(e: Entry, k: nat, first: Option<nat>, since: nat, now: nat, c: Config)
    requires BanConfig(c) && Suspect(e, k, first, since, c) && since <= now < 0x1_0000_0000_0000_0000
    ensures var v := Violate(e, now, c); Watched(v, FirstScore(first, e, v, now), now, c)
  {
    hide WindowSpan, WindowsToBan;
    WindowExact(c);
    U64Bounds(now - e.lastViolation);
    var v := Violate(e, now, c);
    var first', w := FirstScore(first, e, v, now), WindowSpan(c);
    if U64(now - e.lastViolation) >= WindowNs(c) {
      assert (k + 1) * c.scoreIncrement == k * c.scoreIncrement + c.scoreIncrement;
      if k >= 1 { assert k * w == (k - 1) * w + w; }
      if v.banned {
        ThresholdNeeds(k, c);
        MulMono(WindowsToBan(c), k, w);
        assert Punished(v, first', now, c);
      } else {
        assert Suspect(v, k + 1, first', now, c);
      }
    } else {
      assert Suspect(v, k, first', now, c);
    }
  }

  lemma {:induction false} DecayWatched(e: Entry, k: nat, first: Option<nat>, since: nat, now: nat, c: Config)
    requires BanConfig(c) && Suspect(e, k, first, since, c) && since <= now
    ensures Suspect(Decay(e, now, c), k, first, now, c) && Decay(e, now, c).lastViolation == e.lastViolation
  {
  }

  lemma {:induction false} RefillKeepsSuspect(e: Entry, k: nat, first: Option<nat>, since: nat, now: nat, c: Config)
    requires Suspect(e, k, first, since, c) && since <= now
    ensures Suspect(Refill(e, now, c), k, first, now, c) && Refill(e, now, c).lastViolation == e.lastViolation
  {
    hide Gained, WindowSpan;
  }

  lemma {:induction false} CheckWatched(e: Entry, first: Option<nat>, since: nat, now: nat, c: Config)
    requires BanConfig(c) && Watched(e, first, since, c) && since <= now < 0x1_0000_0000_0000_0000
    ensures var v := CheckEntry(e, now, c); Watched(v.entry, FirstScore(first, e, v.entry, now), now, c)
  {
    hide Refill, Suspect, Punished, Violate, Decay, WindowSpan, WindowNs, U64;
    var v := CheckEntry(e, now, c);
    if k: nat :| Suspect(e, k, first, since, c) {
      SuspectFree(e, k, first, since, c);
      RefillKeepsSuspect(e, k, first, since, now, c);
      var f := Refill(e, now, c);
      if f.tokens >= 1000 {
        var g := f.(tokens := f.tokens - 1000);
        assert Suspect(g, k, first, now, c) by { SuspectTokens(f, k, first, now, c); }
        DecayWatched(g, k, first, now, now, c);
      } else {
        ViolateWatched(f, k, first, now, now, c);
      }
    } else {
      PunishedStays(e, first, since, now, c);
    }
  }

  lemma {:induction false} SuspectFree(e: Entry, k: nat, first: Option<nat>, now: nat, c: Config)
    requires Suspect(e, k, first, now, c)
    ensures !e.banned
  {
  }

  lemma {:induction false} SuspectTokens(e: Entry, k: nat, first: Option<nat>, now: nat, c: Config)
    requires Suspect(e, k, first, now, c)
    ensures Suspect(e.(tokens := e.tokens - 1000), k, first, now, c)
  {
  }

  lemma {:induction false} PunishedStays(e: Entry, first: Option<nat>, since: nat, now: nat, c: Config)
    requires c.scoreIncrement > 0 && Punished(e, first, since, c) && since <= now
    ensures var v := CheckEntry(e, now, c);
            first == FirstScore(first, e, v.entry, now) && Punished(v.entry, first, now, c)
  {
    hide Refill, WindowSpan, WindowNs, U64, BanNs, WindowsToBan;
    RefillIp(if e.banned then e.(banned := false, score := Half(e.score)) else e, now, c);
  }

  /** When a violation of `ip` was first scored in the run, given when it was before. */
  function FirstScored(s: Shard, reqs: seq<Request>, ip: IP, c: Config, first: Option<nat>): Option<nat>
    requires |s.entries| == SLOTS
    decreases |reqs|
  {
    if reqs == [] then first
    else
      var o := Check(s, reqs[0].ip, reqs[0].now, c);
      FirstScored(o.shard, reqs[1..], ip, c, FirstAfter(s, o.shard, ip, reqs[0].now, first))
  }

  function FirstAfter(s: Shard, s': Shard, ip: IP, now: nat, first: Option<nat>): Option<nat> {
    var before, after := EntryOf(s, ip), EntryOf(s', ip);
    if before.Some? && after.Some? then FirstScore(first, before.value, after.value, now) else first
  }

  lemma {:induction false} RunWatched(s: Shard, reqs: seq<Request>, ip: IP, c: Config, first: Option<nat>, since: nat)
    requires BanConfig(c) && ShardOk(s) && Ordered(reqs, since) && LastTime(reqs, since) < 0x1_0000_0000_0000_0000
    requires ip != NoIp && Stays(s, reqs, ip, c)
    requires EntryOf(s, ip).Some? && Watched(EntryOf(s, ip).value, first, since, c)
    ensures EntryOf(Serve(s, reqs, c), ip).Some?
    ensures Watched(EntryOf(Serve(s, reqs, c), ip).value, FirstScored(s, reqs, ip, c, first), LastTime(reqs, since), c)
    decreases |reqs|
  {
    hide Check, CheckEntry, ShardOk, Watched, EntryOf, FreshEntry, BanConfig;
    if reqs != [] {
      SlotsOf(s);
      var q := reqs[0];
      LastTimeGrows(reqs[1..], q.now);
      CheckEffect(s, q.ip, q.now, c, ip);
      CheckKeeps(s, q.ip, q.now, c);
      var o := Check(s, q.ip, q.now, c);
      var e := EntryOf(s, ip).value;
      BanPositive(c);
      assert EntryOf(o.shard, ip).Some? by { StaysNow(o.shard, reqs[1..], ip, c); }
      if q.ip == ip {
        CheckWatched(e, first, since, q.now, c);
        RunWatched(o.shard, reqs[1..], ip, c, FirstAfter(s, o.shard, ip, q.now, first), q.now);
      } else {
        WatchedLater(e, first, since, q.now, c);
        RunWatched(o.shard, reqs[1..], ip, c, first, q.now);
      }
    }
  }

  lemma {:induction false} BanPositive(c: Config)
    requires BanConfig(c)
    ensures c.scoreIncrement > 0
  {
  }

  lemma {:induction false} WatchedLater(e: Entry, first: Option<nat>, since: nat, now: nat, c: Config)
    requires c.scoreIncrement > 0 && Watched(e, first, since, c) && since <= now
    ensures Watched(e, first, now, c)
  {
    hide WindowSpan, WindowsToBan;
    if k: nat :| Suspect(e, k, first, since, c) { assert Suspect(e, k, first, now, c); }
  }

  lemma {:induction false} LastTimeGrows(reqs: seq<Request>, since: nat)
    requires Ordered(reqs, since)
    ensures since <= LastTime(reqs, since)
    decreases |reqs|
  {
    if reqs != [] { LastTimeGrows(reqs[1..], reqs[0].now); }
  }

  /** An IP that is inserted, stays in the table and ends up banned had its first violation scored at least
      ceil(threshold / increment) - 1 windows before the ban. */
  lemma {:induction false} BanNeedsSustainedAbuse(s: Shard, reqs: seq<Request>, ip: IP, c: Config)
    requires BanConfig(c) && ShardOk(s) && reqs != [] && ip != NoIp && reqs[0].ip == ip && EntryOf(s, ip).None?
    requires Ordered(reqs, 0) && LastTime(reqs, 0) < 0x1_0000_0000_0000_0000
    requires Stays(Check(s, ip, reqs[0].now, c).shard, reqs[1..], ip, c)
    ensures EntryOf(Serve(s, reqs, c), ip).Some?
    ensures var e := EntryOf(Serve(s, reqs, c), ip).value;
            var first := FirstScored(s, reqs, ip, c, None);
            e.banned ==> first.Some? && first.value + WindowsToBan(c) * WindowSpan(c) <= e.bannedAt
  {
    hide Check, FreshEntry, WindowsToBan, WindowSpan;
    var t0, s1 := reqs[0].now, Check(s, ip, reqs[0].now, c).shard;
    CheckEffect(s, ip, t0, c, ip);
    CheckKeeps(s, ip, t0, c);
    FreshSuspect(ip, t0, c);
    RunWatched(s1, reqs[1..], ip, c, None, t0);
  }

  lemma {:induction false} FreshSuspect(ip: IP, now: nat, c: Config)
    requires c.scoreIncrement > 0
    ensures Watched(FreshEntry(ip, now, c), None, now, c)
  {
    assert Suspect(FreshEntry(ip, now, c), 0, None, now, c);
  }

  /** Until a window has passed since the first violation scored, nothing more was scored. */
  predicate Calm(e: Entry, first: Option<nat>, now: nat, c: Config) {
    match first
    case None => !e.banned && e.score <= 0
    case Some(f) =>
      f <= now && (now < f + WindowSpan(c) ==>
        e.lastViolation == f && e.score <= c.scoreIncrement && (e.banned ==> c.banThreshold <= c.scoreIncrement))
  }

  lemma {:induction false} CheckCalm(e: Entry, first: Option<nat>, since: nat, now: nat, c: Config)
    requires BanConfig(c) && Calm(e, first, since, c) && since <= now < 0x1_0000_0000_0000_0000
    ensures var v := CheckEntry(e, now, c); Calm(v.entry, FirstScore(first, e, v.entry, now), now, c)
  {
    hide Gained, BanNs, WindowSpan, WindowNs, RetryAfter, Burst, MaxElapsed;
    WindowExact(c);
    assert WindowSpan(c) > 0;
    if first.Some? { U64Bounds(now - first.value); }
    var free := if e.banned then e.(banned := false, score := Half(e.score)) else e;
    var r := Refill(free, now, c);
    assert r.lastViolation == e.lastViolation && r.score == free.score && !r.banned;
  }

  lemma {:induction false} RunCalm(s: Shard, reqs: seq<Request>, ip: IP, c: Config, first: Option<nat>, since: nat)
    requires BanConfig(c) && ShardOk(s) && Ordered(reqs, since) && LastTime(reqs, since) < 0x1_0000_0000_0000_0000
    requires ip != NoIp && Stays(s, reqs, ip, c)
    requires EntryOf(s, ip).Some? && Calm(EntryOf(s, ip).value, first, since, c)
    ensures EntryOf(Serve(s, reqs, c), ip).Some?
    ensures Calm(EntryOf(Serve(s, reqs, c), ip).value, FirstScored(s, reqs, ip, c, first), LastTime(reqs, since), c)
    decreases |reqs|
  {
    hide Check, CheckEntry, ShardOk, Calm, EntryOf, FreshEntry, BanConfig;
    if reqs != [] {
      SlotsOf(s);
      var q := reqs[0];
      LastTimeGrows(reqs[1..], q.now);
      CheckEffect(s, q.ip, q.now, c, ip);
      CheckKeeps(s, q.ip, q.now, c);
      var o := Check(s, q.ip, q.now, c);
      var e := EntryOf(s, ip).value;
      assert EntryOf(o.shard, ip).Some? by { StaysNow(o.shard, reqs[1..], ip, c); }
      if q.ip == ip {
        CheckCalm(e, first, since, q.now, c);
      } else {
        CalmLater(e, first, since, q.now, c);
      }
      RunCalm(o.shard, reqs[1..], ip, c, FirstAfter(s, o.shard, ip, q.now, first), q.now);
    }
  }

  lemma {:induction false} CalmLater(e: Entry, first: Option<nat>, since: nat, now: nat, c: Config)
    requires Calm(e, first, since, c) && since <= now
    ensures Calm(e, first, now, c)
  {
    hide WindowSpan;
  }

  lemma {:induction false} FreshCalm(ip: IP, now: nat, c: Config)
    ensures Calm(FreshEntry(ip, now, c), None, now, c)
  {
  }

  /** One burst is one violation: until a window has passed since the first violation scored, the score is at most one
      increment, whatever the number of denials, and there is no ban unless one increment reaches the threshold. */
  lemma {:induction false} OneBurstOneUnit(s: Shard, reqs: seq<Request>, ip: IP, c: Config)
    requires BanConfig(c) && ShardOk(s) && reqs != [] && ip != NoIp && reqs[0].ip == ip && EntryOf(s, ip).None?
    requires Ordered(reqs, 0) && LastTime(reqs, 0) < 0x1_0000_0000_0000_0000
    requires Stays(Check(s, ip, reqs[0].now, c).shard, reqs[1..], ip, c)
    requires var first := FirstScored(s, reqs, ip, c, None); first.Some? ==> LastTime(reqs, 0) < first.value + WindowSpan(c)
    ensures EntryOf(Serve(s, reqs, c), ip).Some?
    ensures var e := EntryOf(Serve(s, reqs, c), ip).value;
            e.score <= c.scoreIncrement && (e.banned ==> c.banThreshold <= c.scoreIncrement)
  {
    hide Check, FreshEntry, WindowSpan;
    var t0, s1 := reqs[0].now, Check(s, ip, reqs[0].now, c).shard;
    CheckEffect(s, ip, t0, c, ip);
    CheckKeeps(s, ip, t0, c);
    FreshCalm(ip, t0, c);
    RunCalm(s1, reqs[1..], ip, c, None, t0);
  }

  // ----- retry advice -----

  /** kynx_refill multiplies without overflow. */
  predicate NoOverflow(c: Config) {
    Rate(c) * Window(c) * 10_000_000_000 < 0x1_0000_0000_0000_0000
  }

  /** The quotient is the one number between these bounds. */
  lemma {:induction false} QuotientUnique(x: nat, d: nat, q: nat)
    requires d > 0 && q * d <= x < q * d + d
    ensures Quotient(x, d) == q
  {
    hide Quotient;
    var p := Quotient(x, d);
    assert (p - q) * d == p * d - q * d;
    assert p - q >= 1 ==> (p - q) * d >= d;
    assert p - q <= -1 ==> (p - q) * d <= -(d as int);
  }

  lemma {:induction false} ScaleBounds(q: nat, x: nat, w: nat, k: nat)
    requires k > 0 && q * w <= x < q * w + w
    ensures q * (w * k) <= x * k < q * (w * k) + w * k
  {
    MulMono(q * w, x, k);
    MulMono(x + 1, q * w + w, k);
    assert (q * w) * k == q * (w * k);
    assert (q * w + w) * k == (q * w) * k + w * k;
    assert (x + 1) * k == x * k + k;
  }

  lemma {:induction false} RatioCancels(x: nat, w: nat, k: nat)
    requires w > 0 && k > 0
    ensures w * k > 0 && Quotient(x * k, w * k) == Quotient(x, w)
  {
    hide Quotient;
    var q := Quotient(x, w);
    ScaleBounds(q, x, w, k);
    MulMono(1, w, k);
    QuotientUnique(x * k, w * k, q);
  }

  lemma {:induction false} MilliProduct(m: nat, r: nat)
    ensures m * MS * r * 1000 == (m * r * 1000) * MS
  {
    assert m * MS * r == (m * r) * MS;
  }

  /** `m` whole milliseconds, at most ten windows, gain floor(m * rate * 1000 / window) thousandths when the product
      fits. */
  lemma {:induction false} GainedMillis(c: Config, m: nat)
    requires m <= 10 * Window(c) && m * Rate(c) * 1000 * MS < 0x1_0000_0000_0000_0000
    ensures m * MS <= MaxElapsed(c)
    ensures Gained(c, m * MS) == Quotient(m * Rate(c) * 1000, Window(c))
  {
    hide Quotient, U64, Rate, Window;
    MilliProduct(m, Rate(c));
    U64Bounds(m * MS * Rate(c) * 1000);
    RatioCancels(m * Rate(c) * 1000, Window(c), MS);
  }

  lemma {:induction false} AdviceWithin(need: nat, w: nat, r: nat)
    requires need <= 1000 && r > 0
    ensures Quotient(need * w, r * 1000) <= w
  {
    hide Quotient;
    var q := Quotient(need * w, r * 1000);
    MulMono(need, 1000, w);
    MulMono(1, r, q * 1000);
    assert r * (q * 1000) == q * (r * 1000);
  }

  /** The advice is the wait rounded down, and at least one millisecond; the upper clamp never bites. */
  lemma {:induction false} AdviceValue(tokens: nat, c: Config)
    requires tokens < 1000
    ensures var need := 1000 - tokens;
            var ms := Quotient(need * Window(c), Rate(c) * 1000);
            RetryAfter(tokens, c) == (if ms < 1 then 1 else ms) <= Window(c)
  {
    hide Quotient, Window, Rate;
    AdviceWithin(1000 - tokens, Window(c), Rate(c));
  }

  /** Settings as 32-bit ints; non-positive ones are read as 1. */
  predicate IntSettings(c: Config) {
    c.rateLimit < 0x8000_0000 && c.windowMs < 0x8000_0000
  }

  lemma {:induction false} AdviceProduct(adv: nat, q: nat, need: nat, w: nat, r: nat)
    requires adv == (if q < 1 then 1 else q) && q * (r * 1000) <= need * w && need <= 1000
    requires w < 0x8000_0000 && r < 0x8000_0000
    ensures (adv + 1) * r * 1000 * MS < 0x1_0000_0000_0000_0000
    ensures adv * r * 1000 * MS < 0x1_0000_0000_0000_0000
  {
    MulMono(need, 1000, w);
    assert adv * r * 1000 <= need * w + r * 1000 by { assert q * r * 1000 == q * (r * 1000); }
    assert (adv + 1) * r * 1000 == adv * r * 1000 + r * 1000;
  }

  /** The product for the advice, and for a millisecond more, fits 64 bits whatever the settings are. */
  lemma {:induction false} AdviceFits(tokens: nat, c: Config)
    requires IntSettings(c) && tokens < 1000
    ensures var m := RetryAfter(tokens, c) + 1;
            && m >= 2 && m <= 10 * Window(c) && m * Rate(c) * 1000 * MS < 0x1_0000_0000_0000_0000
            && (m - 1) * Rate(c) * 1000 * MS < 0x1_0000_0000_0000_0000
            && m >= Quotient((1000 - tokens) * Window(c), Rate(c) * 1000) + 1
  {
    hide Quotient, RetryAfter;
    AdviceValue(tokens, c);
    var q := Quotient((1000 - tokens) * Window(c), Rate(c) * 1000);
    AdviceProduct(RetryAfter(tokens, c), q, 1000 - tokens, Window(c), Rate(c));
  }

  /** How long a wait counts: at most ten windows. */
  function Counted(wait: nat, c: Config): nat {
    if wait > MaxElapsed(c) then MaxElapsed(c) else wait
  }

  lemma {:induction false} RefillTokens(e: Entry, wait: nat, c: Config)
    requires 0 <= e.tokens < 1000 && e.lastRefill > 0 && wait > 0
    ensures Refill(e, e.lastRefill + wait, c).tokens >= 1000 <==> Gained(c, Counted(wait, c)) >= 1000 - e.tokens
  {
    hide Gained;
  }

  /** Retry advice is enough after one more millisecond, for all 32-bit settings: a denied client that asks again
      after exactly r + 1 ms finds a full token. */
  lemma {:induction false} RetryAdviceSuffices(e: Entry, c: Config)
    requires IntSettings(c) && 0 <= e.tokens < 1000 && e.lastRefill > 0
    ensures Refill(e, e.lastRefill + (RetryAfter(e.tokens, c) + 1) * MS, c).tokens >= 1000
  {
    hide RetryAfter, Gained, Quotient, Refill, Rate, Window;
    var m := RetryAfter(e.tokens, c) + 1;
    AdviceFits(e.tokens, c);
    GainedMillis(c, m);
    EnoughGain(1000 - e.tokens, Window(c), Rate(c), m);
    RefillTokens(e, m * MS, c);
  }

  // ----- longer waits -----

  /** What kynx_refill multiplies out for a wait, before it is cut to 64 bits. */
  function Product(c: Config, wait: nat): nat {
    wait * Rate(c) * 1000
  }

  /** A wait fills a token exactly when its product, cut to 64 bits, is worth what is missing. */
  lemma {:induction false} WaitExact(e: Entry, wait: nat, c: Config)
    requires 0 <= e.tokens < 1000 && e.lastRefill > 0 && wait > 0
    ensures Refill(e, e.lastRefill + wait, c).tokens >= 1000
            <==> U64(Product(c, Counted(wait, c))) >= (1000 - e.tokens) * WindowSpan(c)
  {
    hide Quotient, U64, Refill, Counted;
    RefillTokens(e, wait, c);
    var p, w := U64(Product(c, Counted(wait, c))), WindowSpan(c);
    EnoughMillis(p, 1000 - e.tokens, w, Quotient(p, w));
  }

  /** A bucket short of a token, and a time at least the advice and a millisecond more after its last refill. */
  predicate Advised(e: Entry, later: nat, c: Config) {
    0 <= e.tokens < 1000 && e.lastRefill > 0 && later >= e.lastRefill + (RetryAfter(e.tokens, c) + 1) * MS
  }

  /** Every client that stays away for its advice and a millisecond more, or longer, finds a full token. */
  ghost predicate LongWaitsSuffice(c: Config) {
    forall e: Entry, later: nat | Advised(e, later, c) :: Refill(e, later, c).tokens >= 1000
  }

  /** No wait of up to ten windows has a product that leaves 64 bits and comes back worth less than a token. */
  ghost predicate WrapsHigh(c: Config) {
    forall d: nat | d <= MaxElapsed(c) && Product(c, d) >= 0x1_0000_0000_0000_0000 ::
      U64(Product(c, d)) >= 1000 * WindowSpan(c)
  }

  lemma {:induction false} ProductMono(c: Config, x: nat, y: nat)
    requires x <= y
    ensures Product(c, x) <= Product(c, y)
  {
    MulMono(x, y, Rate(c));
  }

  /** The product for the advised wait and a millisecond fits, and is worth what is missing. */
  lemma {:induction false} AdvisedProduct(e: Entry, c: Config)
    requires IntSettings(c) && 0 <= e.tokens < 1000 && e.lastRefill > 0
    ensures var d := (RetryAfter(e.tokens, c) + 1) * MS;
            && 0 < d <= MaxElapsed(c) && Product(c, d) < 0x1_0000_0000_0000_0000
            && Product(c, d) >= (1000 - e.tokens) * WindowSpan(c)
  {
    hide RetryAfter, Refill, Rate, Window, U64;
    AdviceFits(e.tokens, c);
    var m := RetryAfter(e.tokens, c) + 1;
    MilliProduct(m, Rate(c));
    RetryAdviceSuffices(e, c);
    WaitExact(e, m * MS, c);
    U64Bounds(Product(c, m * MS));
  }

  /** Longer waits are as good as the advised one if and only if no longer wait's product wraps around to less than a
      token. */
  lemma {:induction false} LongWaitsExact(c: Config)
    requires IntSettings(c)
    ensures LongWaitsSuffice(c) <==> WrapsHigh(c)
  {
    if WrapsHigh(c) {
      forall e: Entry, later: nat | Advised(e, later, c) ensures Refill(e, later, c).tokens >= 1000 {
        LongWait(e, later, c);
      }
    }
    if LongWaitsSuffice(c) {
      forall d: nat | d <= MaxElapsed(c) && Product(c, d) >= 0x1_0000_0000_0000_0000
        ensures U64(Product(c, d)) >= 1000 * WindowSpan(c)
      {
        WrappedWait(c, d);
      }
    }
  }

  lemma {:induction false} LongWait(e: Entry, later: nat, c: Config)
    requires IntSettings(c) && WrapsHigh(c) && Advised(e, later, c)
    ensures Refill(e, later, c).tokens >= 1000
  {
    hide RetryAfter, Refill, Product, U64, WindowSpan, MaxElapsed;
    AdvisedProduct(e, c);
    var wait := later - e.lastRefill;
    WaitExact(e, wait, c);
    var d, p := Counted(wait, c), Product(c, Counted(wait, c));
    ProductMono(c, (RetryAfter(e.tokens, c) + 1) * MS, d);
    U64Bounds(p);
    MulMono(1000 - e.tokens, 1000, WindowSpan(c));
  }

  /** A wait whose product wraps, tried on an empty bucket. */
  lemma {:induction false} WrappedWait(c: Config, d: nat)
    requires IntSettings(c) && LongWaitsSuffice(c)
    requires d <= MaxElapsed(c) && Product(c, d) >= 0x1_0000_0000_0000_0000
    ensures U64(Product(c, d)) >= 1000 * WindowSpan(c)
  {
    hide RetryAfter, Refill, Product, U64, WindowSpan, MaxElapsed;
    var e := Entry(NoIp, 1, 0, 0, 0, 0, false, 0);
    AdvisedProduct(e, c);
    var advised := (RetryAfter(0, c) + 1) * MS;
    if d < advised { ProductMono(c, d, advised); }
    WaitExact(e, d, c);
    assert Advised(e, 1 + d, c);
  }

  /** At most one thousand tokens a microsecond, that is rate <= window_ms * 10^6: then longer waits suffice if and only if
      rate * window_ms * 10^10 fits 64 bits. */
  lemma {:induction false} LongWaitsIffNoOverflow(c: Config)
    requires IntSettings(c) && Rate(c) <= WindowSpan(c)
    ensures LongWaitsSuffice(c) <==> NoOverflow(c)
  {
    hide LongWaitsSuffice, U64, WindowSpan;
    LongWaitsExact(c);
    TenWindows(c);
    if NoOverflow(c) {
      forall d: nat | d <= MaxElapsed(c) ensures Product(c, d) < 0x1_0000_0000_0000_0000 {
        ProductMono(c, d, MaxElapsed(c));
      }
    } else {
      FirstWrap(c);
    }
  }

  lemma {:induction false} TenWindows(c: Config)
    ensures NoOverflow(c) <==> Product(c, MaxElapsed(c)) < 0x1_0000_0000_0000_0000
  {
    assert MaxElapsed(c) * Rate(c) * 1000 == Rate(c) * Window(c) * 10_000_000_000;
  }

  /** The first wait whose product leaves 64 bits comes back below one step of the product. */
  lemma {:induction false} FirstWrap(c: Config)
    requires Rate(c) <= WindowSpan(c) && Product(c, MaxElapsed(c)) >= 0x1_0000_0000_0000_0000
    ensures !WrapsHigh(c)
  {
    hide WindowSpan, MaxElapsed, Quotient;
    var top, step := 0x1_0000_0000_0000_0000, Rate(c) * 1000;
    var d := Quotient(top - 1, step) + 1;
    assert d * step == Quotient(top - 1, step) * step + step;
    assert top <= d * step < top + step;
    assert Product(c, d) == d * step && Product(c, MaxElapsed(c)) == MaxElapsed(c) * step;
    if d > MaxElapsed(c) {
      MulMono(MaxElapsed(c), d - 1, step);
      assert false;
    }
    assert U64(Product(c, d)) < step by { WrapOnce(Product(c, d), step); }
  }

  lemma {:induction false} WrapOnce(p: nat, step: nat)
    requires 0x1_0000_0000_0000_0000 <= p < 0x1_0000_0000_0000_0000 + step
    ensures U64(p) < step
  {
    var x := p - 0x1_0000_0000_0000_0000;
    assert U64(p) == U64(x);
    U64Bounds(x);
  }

  /** 40000 requests a minute: an idle time of 461 seconds wraps around and denies a client that was told to wait 1 ms. */
  lemma {:induction false} LongIdleDenied()
    ensures var c := Config(40000, 60000, 40000, 10, 1, 1, 300);
            var e := Entry(V4(1), 1, 0, 0, 0, 0, false, 0);
            var wait := 461168601843;
            RetryAfter(e.tokens, c) == 1 && Advised(e, e.lastRefill + wait, c)
            && Refill(e, e.lastRefill + wait, c).tokens < 1000 && !LongWaitsSuffice(c)
  {
    hide Refill, Quotient, U64;
    var c := Config(40000, 60000, 40000, 10, 1, 1, 300);
    var e := Entry(V4(1), 1, 0, 0, 0, 0, false, 0);
    AdviceValue(0, c);
    QuotientUnique(60_000_000, 40_000_000, 1);
    assert Product(c, Counted(461168601843, c)) == 18446744073720000000;
    assert U64(18446744073720000000) == 10448384 by { WrapOnceValue(); }
    WaitExact(e, 461168601843, c);
  }

  lemma {:induction false} WrapOnceValue()
    ensures U64(18446744073720000000) == 10448384
  {
  }

  lemma {:induction false} EnoughGain(need: nat, w: nat, r: nat, m: nat)
    requires w > 0 && r > 0 && m >= Quotient(need * w, r * 1000) + 1
    ensures Quotient(m * r * 1000, w) >= need
  {
    var ms, g := Quotient(need * w, r * 1000), Quotient(m * r * 1000, w);
    MulMono(ms + 1, m, r * 1000);
    assert (ms + 1) * (r * 1000) == ms * (r * 1000) + r * 1000;
    assert m * (r * 1000) == m * r * 1000;
    EnoughMillis(m * r * 1000, need, w, g);
  }

  /** The advice itself is enough exactly when the division was exact or was rounded up to the one-millisecond minimum. */
  lemma {:induction false} RetryAdviceExact(e: Entry, c: Config)
    requires IntSettings(c) && 0 <= e.tokens < 1000 && e.lastRefill > 0
    ensures var need := (1000 - e.tokens) * Window(c);
            Refill(e, e.lastRefill + RetryAfter(e.tokens, c) * MS, c).tokens >= 1000
            <==> need % (Rate(c) * 1000) == 0 || need < Rate(c) * 1000
  {
    hide RetryAfter, Gained, Quotient, Refill, Rate, Window;
    AdviceValue(e.tokens, c);
    AdviceFits(e.tokens, c);
    GainedMillis(c, RetryAfter(e.tokens, c));
    ExactGain(1000 - e.tokens, Window(c), Rate(c));
    RefillTokens(e, RetryAfter(e.tokens, c) * MS, c);
  }

  lemma {:induction false} ExactGain(need: nat, w: nat, r: nat)
    requires need > 0 && w > 0 && r > 0
    ensures var ms := Quotient(need * w, r * 1000);
            var m := if ms < 1 then 1 else ms;
            Quotient(m * r * 1000, w) >= need <==> need * w % (r * 1000) == 0 || need * w < r * 1000
  {
    var ms := Quotient(need * w, r * 1000);
    var m := if ms < 1 then 1 else ms;
    EnoughMillis(m * r * 1000, need, w, Quotient(m * r * 1000, w));
    assert m * r * 1000 == m * (r * 1000);
    if ms >= 1 {
      ExactDivision(need * w, r * 1000, ms);
      SmallQuotient(need * w, r * 1000, ms);
    }
  }

  lemma {:induction false} EnoughMillis(x: nat, need: nat, w: nat, g: nat)
    requires g * w <= x < g * w + w
    ensures g >= need <==> x >= need * w
  {
    if g >= need { MulMono(need, g, w); } else { MulMono(g + 1, need, w); }
  }

  lemma {:induction false} ExactDivision(x: nat, d: nat, q: nat)
    requires d > 0 && q * d <= x < q * d + d
    ensures q * d >= x <==> x % d == 0
  {
    MulMod(q, d);
    if x % d == 0 {
      ModAdd(x, q * d, d);
      SmallModulo(x - q * d, d);
    }
  }

  lemma {:induction false} SmallQuotient(x: nat, d: nat, q: nat)
    requires d > 0 && q * d <= x < q * d + d && q >= 1
    ensures x >= d
  {
    MulMono(1, q, d);
  }

  /** The denial: the bucket as it leaves it, and the advice. */
  lemma {:induction false} DenialShape(e: Entry, now: nat, c: Config)
    requires 0 <= e.tokens && 0 < now && e.lastRefill <= now
    requires var v := CheckEntry(e, now, c); !v.allowed && !v.entry.banned
    ensures var v := CheckEntry(e, now, c);
            && 0 <= v.entry.tokens < 1000 && v.entry.lastRefill == now
            && v.retryMs == RetryAfter(v.entry.tokens, c) && v.retryMs >= 1
  {
    hide RetryAfter, Gained, Decay, WindowNs, U64, MaxElapsed, Burst;
    var v := CheckEntry(e, now, c);
    var free := if e.banned then e.(banned := false, score := Half(e.score)) else e;
    var r := Refill(free, now, c);
    RefillNow(free, now, c);
    assert v == Verdict(Violate(r, now, c), false, RetryAfter(r.tokens, c));
    AdviceValue(r.tokens, c);
  }

  lemma {:induction false} FullTokenAdmits(e: Entry, later: nat, c: Config)
    requires !e.banned && Refill(e, later, c).tokens >= 1000
    ensures CheckEntry(e, later, c).allowed
  {
    hide Gained, Decay, WindowNs, U64, MaxElapsed, Burst;
  }

  /** Seen from outside, for all 32-bit settings: after a denial that is no ban, a client that asks again when the
      advice and one more millisecond have passed is admitted. */
  lemma {:induction false} DeniedThenAdmitted(e: Entry, now: nat, c: Config)
    requires IntSettings(c) && 0 <= e.tokens && 0 < now && e.lastRefill <= now
    requires var v := CheckEntry(e, now, c); !v.allowed && !v.entry.banned
    ensures var v := CheckEntry(e, now, c); CheckEntry(v.entry, now + (v.retryMs + 1) * MS, c).allowed
  {
    hide RetryAfter, CheckEntry, Refill;
    DenialShape(e, now, c);
    var v := CheckEntry(e, now, c);
    RetryAdviceSuffices(v.entry, c);
    FullTokenAdmits(v.entry, now + (v.retryMs + 1) * MS, c);
  }

  /** And whenever it asks later, if longer waits suffice. */
  lemma {:induction false} DeniedThenAdmittedLater(e: Entry, now: nat, later: nat, c: Config)
    requires IntSettings(c) && LongWaitsSuffice(c) && 0 <= e.tokens && 0 < now && e.lastRefill <= now
    requires var v := CheckEntry(e, now, c); !v.allowed && !v.entry.banned && later >= now + (v.retryMs + 1) * MS
    ensures CheckEntry(CheckEntry(e, now, c).entry, later, c).allowed
  {
    hide RetryAfter, CheckEntry, Refill;
    DenialShape(e, now, c);
    var entry := CheckEntry(e, now, c).entry;
    assert Advised(entry, later, c);
    FullTokenAdmits(entry, later, c);
  }

  lemma {:induction false} RefillNow(e: Entry, now: nat, c: Config)
    requires 0 <= e.tokens && e.lastRefill <= now
    ensures Refill(e, now, c).lastRefill == now && 0 <= Refill(e, now, c).tokens && Refill(e, now, c).banned == e.banned
  {
  }

  /** Three requests a second: an empty bucket is told 333 ms and is still one thousandth short then. */
  lemma {:induction false} RetryAdviceTooShort()
    ensures var c := Config(3, 1000, 3, 10, 1, 1, 300);
            var e := Entry(V4(1), 1, 0, 0, 0, 0, false, 0);
            RetryAfter(e.tokens, c) == 333 && Refill(e, e.lastRefill + 333 * MS, c).tokens == 999
  {
    var c := Config(3, 1000, 3, 10, 1, 1, 300);
    AdviceValue(0, c);
    GainedMillis(c, 333);
  }
}
