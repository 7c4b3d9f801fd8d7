/** runtime/kynx.c: what a ban does and when it comes, and how suspicion moves. */
module KynxBans {
  import opened Basics
  import opened KynxTypes
  import opened KynxGate
  import opened KynxProofs
  import opened Numbers

  const SECOND: nat := 1_000_000_000

  /** The setting, or five minutes. */
  function BanSeconds(c: Config): (d: nat)
    ensures d >= 1
  {
    if c.banDurationS <= 0 then 300 else c.banDurationS
  }

  predicate IntDuration(c: Config) {
    c.banDurationS < 0x8000_0000
  }

  /** When a ban from `t` on ends. */
  function BanEnd(t: nat, c: Config): nat {
    t + BanSeconds(c) * SECOND
  }

  /** Times the 64-bit clock can show. */
  const CLOCK_END: nat := 0x1_0000_0000_0000_0000

  lemma {:induction false} BanNsIs(c: Config)
    requires IntDuration(c)
    ensures BanNs(c) == BanSeconds(c) * SECOND
  {
    U64Bounds(BanSeconds(c) * SECOND);
  }

  // ----- one entry -----

  /** A ban denies from its start to its end, and the entry stays as it is. The advice is the time left in milliseconds,
      as long as that fits an int. */
  lemma {:induction false} BanHolds(e: Entry, later: nat, c: Config)
    requires IntDuration(c) && e.banned && e.bannedAt <= later < CLOCK_END && later <= BanEnd(e.bannedAt, c)
    ensures var v, left := CheckEntry(e, later, c), BanEnd(e.bannedAt, c) - later;
            && !v.allowed && v.entry == e
            && (v.retryMs == left / 1_000_000 <==> left < 0x8000_0000 * 1_000_000)
  {
    hide BanNs, Spend, Refill;
    BanNsIs(c);
    U64Bounds(later - e.bannedAt);
    var ms := (BanEnd(e.bannedAt, c) - later) / MS;
    DivMul(BanEnd(e.bannedAt, c) - later, MS);
    IntExact(ms);
  }

  lemma {:induction false} IntExact(ms: nat)
    requires ms < 0x1_0000_0000_0000_0000
    ensures ToInt32(ms) == ms <==> ms < 0x8000_0000
  {
    if ms < 0x1_0000_0000 { SmallModulo(ms, 0x1_0000_0000); }
  }

  /** Twenty-five days: the advice for a ban that has just begun is negative. */
  lemma {:induction false} LongBanAdvice()
    ensures var c := Config(60, 60000, 10, 3, 1, 1, 2_160_000);
            var e := Entry(V4(1), SECOND, SECOND, SECOND, 0, 3, true, SECOND);
            CheckEntry(e, SECOND, c).retryMs == -2_134_967_296
  {
    hide BanNs, Spend, Refill;
    var c := Config(60, 60000, 10, 3, 1, 1, 2_160_000);
    BanNsIs(c);
    U64Bounds(0);
    assert BanNs(c) == 2_160_000_000_000_000;
    assert ToInt32(2_160_000_000) == -2_134_967_296 by { assert 2_160_000_000 % 0x1_0000_0000 == 2_160_000_000; }
  }

  /** The score as a lifted ban leaves it: half, rounded toward zero. */
  predicate Halved(score: int, half: int) {
    if score >= 0 then 2 * half <= score <= 2 * half + 1 else 2 * half - 1 <= score <= 2 * half
  }

  /** The first check after the end of a ban treats the client as one that is not banned and has half the score. */
  lemma {:induction false} BanEnds(e: Entry, later: nat, half: int, c: Config)
    requires IntDuration(c) && e.banned && BanEnd(e.bannedAt, c) < later < CLOCK_END && Halved(e.score, half)
    ensures CheckEntry(e, later, c) == CheckEntry(e.(banned := false, score := half), later, c)
  {
    hide BanNs, Spend, Refill;
    BanNsIs(c);
    U64Bounds(later - e.bannedAt);
    assert half == Half(e.score);
  }

  // ----- one denial, one admission -----

  /** The bucket as a check of a client that is not banned finds it has no token, or has one. */
  predicate Empty(e: Entry, now: nat, c: Config) {
    !e.banned && Refill(e, now, c).tokens < 1000
  }

  predicate Full(e: Entry, now: nat, c: Config) {
    !e.banned && Refill(e, now, c).tokens >= 1000
  }

  lemma {:induction false} WindowIs(c: Config, now: nat, before: nat)
    requires PositiveWindow(c) && before <= now < CLOCK_END
    ensures U64(now - before) >= WindowNs(c) <==> now >= before + c.windowMs * 1_000_000
  {
    hide WindowSpan;
    WindowExact(c);
    U64Bounds(now - before);
  }

  /** A denial scores exactly when a window has passed since the last one that did, by the increment, and bans exactly when
      the score reaches the threshold by it. */
  lemma {:induction false} DenialScores(e: Entry, now: nat, c: Config)
    requires PositiveWindow(c) && Empty(e, now, c) && e.lastViolation <= now < CLOCK_END
    ensures var v := CheckEntry(e, now, c);
            && !v.allowed
            && (if now >= e.lastViolation + c.windowMs * 1_000_000
                then v.entry.score == e.score + c.scoreIncrement && v.entry.lastViolation == now
                     && (v.entry.banned <==> e.score + c.scoreIncrement >= c.banThreshold)
                     && (v.entry.banned ==> v.entry.bannedAt == now)
                else v.entry.score == e.score && v.entry.lastViolation == e.lastViolation && !v.entry.banned)
  {
    hide Refill, U64, WindowNs, RetryAfter;
    WindowIs(c, now, e.lastViolation);
    RefillIp(e, now, c);
  }

  /** An admission takes one token and lowers a positive score by the decay, down to 0, exactly when a window has passed
      since the last time it did. */
  lemma {:induction false} AdmissionDecays(e: Entry, now: nat, c: Config)
    requires PositiveWindow(c) && Full(e, now, c) && e.lastDecay <= now < CLOCK_END
    ensures var v := CheckEntry(e, now, c);
            && v.allowed && !v.entry.banned && v.retryMs == 0 && v.entry.lastViolation == e.lastViolation
            && v.entry.tokens == Refill(e, now, c).tokens - 1000
            && (if e.score > 0 && now >= e.lastDecay + c.windowMs * 1_000_000
                then v.entry.lastDecay == now
                     && v.entry.score == (if e.score - c.scoreDecay < 0 then 0 else e.score - c.scoreDecay)
                else v.entry.lastDecay == e.lastDecay && v.entry.score == e.score)
  {
    hide U64, WindowNs, Gained, MaxElapsed, Burst;
    WindowIs(c, now, e.lastDecay);
    RefillIp(e, now, c);
  }

  // ----- runs -----

  /** As long as a ban lasts and the client stays in the table it is denied every time, and its entry is as it was. */
  lemma {:induction false} BannedThroughout(s: Shard, reqs: seq<Request>, ip: IP, c: Config)
    requires IntDuration(c) && ShardOk(s) && ip != NoIp && Stays(s, reqs, ip, c)
    requires EntryOf(s, ip).Some? && EntryOf(s, ip).value.banned
    requires var t := EntryOf(s, ip).value.bannedAt;
             Ordered(reqs, t) && LastTime(reqs, t) <= BanEnd(t, c) && LastTime(reqs, t) < CLOCK_END
    ensures EntryOf(Serve(s, reqs, c), ip) == EntryOf(s, ip) && Admitted(s, reqs, ip, c) == 0
  {
    BannedSince(s, reqs, ip, c, EntryOf(s, ip).value.bannedAt);
  }

  lemma {:induction false} BannedSince(s: Shard, reqs: seq<Request>, ip: IP, c: Config, since: nat)
    requires IntDuration(c) && ShardOk(s) && ip != NoIp && Stays(s, reqs, ip, c) && Ordered(reqs, since)
    requires EntryOf(s, ip).Some? && EntryOf(s, ip).value.banned
    requires var t := EntryOf(s, ip).value.bannedAt;
             t <= since && LastTime(reqs, since) <= BanEnd(t, c) && LastTime(reqs, since) < CLOCK_END
    ensures EntryOf(Serve(s, reqs, c), ip) == EntryOf(s, ip) && Admitted(s, reqs, ip, c) == 0
    decreases |reqs|
  {
    hide Check, CheckEntry, ShardOk, EntryOf, FreshEntry, BanEnd, IntDuration;
    if reqs != [] {
      SlotsOf(s);
      var q := reqs[0];
      LastTimeGrows(reqs[1..], q.now);
      CheckEffect(s, q.ip, q.now, c, ip);
      CheckKeeps(s, q.ip, q.now, c);
      var o := Check(s, q.ip, q.now, c);
      assert EntryOf(o.shard, ip).Some? by { StaysNow(o.shard, reqs[1..], ip, c); }
      if q.ip == ip { BanHolds(EntryOf(s, ip).value, q.now, c); }
      BannedSince(o.shard, reqs[1..], ip, c, q.now);
    }
  }

  /** The first request after the end is judged as if the client were not banned and had half the score. */
  lemma {:induction false} BanLifted(s: Shard, reqs: seq<Request>, ip: IP, later: nat, half: int, c: Config)
    requires IntDuration(c) && ShardOk(s) && ip != NoIp && Stays(s, reqs, ip, c)
    requires EntryOf(s, ip).Some? && EntryOf(s, ip).value.banned && Halved(EntryOf(s, ip).value.score, half)
    requires var t := EntryOf(s, ip).value.bannedAt;
             Ordered(reqs, t) && LastTime(reqs, t) <= BanEnd(t, c) < later < CLOCK_END
    ensures var o := Check(Serve(s, reqs, c), ip, later, c);
            var v := CheckEntry(EntryOf(s, ip).value.(banned := false, score := half), later, c);
            EntryOf(o.shard, ip) == Some(v.entry) && o.allowed == v.allowed && o.retryMs == v.retryMs
  {
    hide Check, CheckEntry, FreshEntry, ShardOk, BanEnd, Halved;
    SlotsOf(s);
    BannedThroughout(s, reqs, ip, c);
    var t := EntryOf(s, ip).value.bannedAt;
    ServeKeeps(s, reqs, t, c);
    CheckEffect(Serve(s, reqs, c), ip, later, c, ip);
    BanEnds(EntryOf(s, ip).value, later, half, c);
  }

  // ----- the way to a ban -----

  /** How many violations of `ip` a run scores. */
  function Scored(s: Shard, reqs: seq<Request>, ip: IP, c: Config): nat
    requires |s.entries| == SLOTS
    decreases |reqs|
  {
    if reqs == [] then 0
    else
      var s' := Check(s, reqs[0].ip, reqs[0].now, c).shard;
      (if Scores(EntryOf(s, ip), EntryOf(s', ip)) then 1 else 0) + Scored(s', reqs[1..], ip, c)
  }

  /** A scored violation moves the entry's violation time. */
  predicate Scores(before: Option<Entry>, after: Option<Entry>) {
    before.Some? && after.Some? && after.value.lastViolation != before.value.lastViolation
  }

  /** No request of the run finds the client banned. */
  predicate Unbanned(s: Shard, reqs: seq<Request>, ip: IP, c: Config)
    requires |s.entries| == SLOTS
    decreases |reqs|
  {
    reqs != [] ==>
      (EntryOf(s, ip).Some? ==> !EntryOf(s, ip).value.banned)
      && Unbanned(Check(s, reqs[0].ip, reqs[0].now, c).shard, reqs[1..], ip, c)
  }

  /** The score after `k` scored violations from `from` on. */
  predicate Ledger(e: Entry, from: int, k: nat, since: nat, c: Config) {
    && e.score == from + k * c.scoreIncrement && e.lastViolation <= since && e.lastRefill <= since
    && (k > 0 ==> (e.banned <==> e.score >= c.banThreshold))
  }

  lemma {:induction false} DeniedLedger(e: Entry, from: int, k: nat, since: nat, now: nat, c: Config)
    requires PositiveWindow(c) && Ledger(e, from, k, since, c) && since <= now < CLOCK_END
    requires !e.banned && !CheckEntry(e, now, c).allowed
    ensures var v := CheckEntry(e, now, c).entry;
            Ledger(v, from, if v.lastViolation != e.lastViolation then k + 1 else k, now, c)
            && (k == 0 && v.lastViolation == e.lastViolation ==> !v.banned)
  {
    hide WindowNs, U64, RetryAfter;
    assert Empty(e, now, c) by { hide Gained; }
    DenialScores(e, now, c);
    var v := CheckEntry(e, now, c).entry;
    assert v.lastRefill <= now by { hide Gained, Burst; }
    assert (k + 1) * c.scoreIncrement == k * c.scoreIncrement + c.scoreIncrement;
    WindowPositive(c);
  }

  lemma {:induction false} WindowPositive(c: Config)
    requires PositiveWindow(c)
    ensures c.windowMs * 1_000_000 > 0
  {
  }

  lemma {:induction false} LedgerLater(e: Entry, from: int, k: nat, since: nat, now: nat, c: Config)
    requires Ledger(e, from, k, since, c) && since <= now
    ensures Ledger(e, from, k, now, c)
  {
  }

  lemma {:induction false} RunLedger(s: Shard, reqs: seq<Request>, ip: IP, c: Config, from: int, k: nat, since: nat)
    requires PositiveWindow(c) && ShardOk(s) && Ordered(reqs, since) && LastTime(reqs, since) < CLOCK_END
    requires ip != NoIp && Stays(s, reqs, ip, c) && Unbanned(s, reqs, ip, c) && Admitted(s, reqs, ip, c) == 0
    requires EntryOf(s, ip).Some? && Ledger(EntryOf(s, ip).value, from, k, since, c)
    requires k == 0 ==> !EntryOf(s, ip).value.banned
    ensures EntryOf(Serve(s, reqs, c), ip).Some?
    ensures var e, n := EntryOf(Serve(s, reqs, c), ip).value, k + Scored(s, reqs, ip, c);
            Ledger(e, from, n, LastTime(reqs, since), c) && (n == 0 ==> !e.banned)
    decreases |reqs|
  {
    hide Check, CheckEntry, ShardOk, Ledger, EntryOf, FreshEntry, PositiveWindow;
    if reqs != [] {
      SlotsOf(s);
      var q := reqs[0];
      LastTimeGrows(reqs[1..], q.now);
      CheckEffect(s, q.ip, q.now, c, ip);
      CheckKeeps(s, q.ip, q.now, c);
      var o := Check(s, q.ip, q.now, c);
      var e := EntryOf(s, ip).value;
      assert EntryOf(o.shard, ip).Some? by { StaysNow(o.shard, reqs[1..], ip, c); }
      if q.ip == ip {
        DeniedLedger(e, from, k, since, q.now, c);
        var scored := Scores(EntryOf(s, ip), EntryOf(o.shard, ip));
        RunLedger(o.shard, reqs[1..], ip, c, from, if scored then k + 1 else k, q.now);
      } else {
        LedgerLater(e, from, k, since, q.now, c);
        RunLedger(o.shard, reqs[1..], ip, c, from, k, q.now);
      }
    }
  }

  /** A client that is never admitted and was not banned before the last request: its score has grown by one increment for
      every scored violation, and it is banned exactly when there was one and the score has reached the threshold. So the
      violation that reaches the threshold bans. */
  lemma {:induction false} BannedExactly(s: Shard, reqs: seq<Request>, ip: IP, c: Config, since: nat)
    requires PositiveWindow(c) && ShardOk(s) && Ordered(reqs, since) && LastTime(reqs, since) < CLOCK_END
    requires ip != NoIp && Stays(s, reqs, ip, c) && Unbanned(s, reqs, ip, c) && Admitted(s, reqs, ip, c) == 0
    requires EntryOf(s, ip).Some? && !EntryOf(s, ip).value.banned
    requires var e := EntryOf(s, ip).value; e.lastViolation <= since && e.lastRefill <= since
    ensures EntryOf(Serve(s, reqs, c), ip).Some?
    ensures var e, k := EntryOf(Serve(s, reqs, c), ip).value, Scored(s, reqs, ip, c);
            var score := EntryOf(s, ip).value.score + k * c.scoreIncrement;
            e.score == score && (e.banned <==> k > 0 && score >= c.banThreshold)
  {
    hide Unbanned, Stays, EntryOf, ShardOk;
    RunLedger(s, reqs, ip, c, EntryOf(s, ip).value.score, 0, since);
  }

  /** From a clean record that is the violation number ceil(threshold / increment). */
  lemma {:induction false} BannedAtTheThreshold(s: Shard, reqs: seq<Request>, ip: IP, c: Config, since: nat)
    requires BanConfig(c) && c.banThreshold > 0 && ShardOk(s) && Ordered(reqs, since) && LastTime(reqs, since) < CLOCK_END
    requires ip != NoIp && Stays(s, reqs, ip, c) && Unbanned(s, reqs, ip, c) && Admitted(s, reqs, ip, c) == 0
    requires EntryOf(s, ip).Some? && !EntryOf(s, ip).value.banned && EntryOf(s, ip).value.score == 0
    requires var e := EntryOf(s, ip).value; e.lastViolation <= since && e.lastRefill <= since
    ensures EntryOf(Serve(s, reqs, c), ip).Some?
    ensures EntryOf(Serve(s, reqs, c), ip).value.banned <==> Scored(s, reqs, ip, c) > WindowsToBan(c)
  {
    hide Unbanned, Stays, EntryOf, ShardOk, WindowsToBan, Scored;
    SlotsOf(s);
    BannedExactly(s, reqs, ip, c, since);
    ThresholdMet(Scored(s, reqs, ip, c), c);
  }

  lemma {:induction false} ThresholdMet(k: nat, c: Config)
    requires c.scoreIncrement > 0 && c.banThreshold > 0
    ensures k * c.scoreIncrement >= c.banThreshold <==> k > WindowsToBan(c)
    ensures k * c.scoreIncrement >= c.banThreshold ==> k > 0
  {
    hide Quotient;
    var i, q := c.scoreIncrement, WindowsToBan(c);
    if k > q { MulMono(q + 1, k, i); assert (q + 1) * i == q * i + i; } else { MulMono(k, q, i); }
  }

  // ----- the way back -----

  /** Every request of `ip` in the run is admitted. */
  predicate AllAdmitted(s: Shard, reqs: seq<Request>, ip: IP, c: Config)
    requires |s.entries| == SLOTS
    decreases |reqs|
  {
    reqs != [] ==>
      var o := Check(s, reqs[0].ip, reqs[0].now, c);
      (reqs[0].ip == ip ==> o.allowed) && AllAdmitted(o.shard, reqs[1..], ip, c)
  }

  /** How many admissions of `ip` lower its score. */
  function Decays(s: Shard, reqs: seq<Request>, ip: IP, c: Config): nat
    requires |s.entries| == SLOTS
    decreases |reqs|
  {
    if reqs == [] then 0
    else
      var s' := Check(s, reqs[0].ip, reqs[0].now, c).shard;
      (if Decayed(EntryOf(s, ip), EntryOf(s', ip)) then 1 else 0) + Decays(s', reqs[1..], ip, c)
  }

  /** An admission that lowers the score moves the entry's decay time. */
  predicate Decayed(before: Option<Entry>, after: Option<Entry>) {
    before.Some? && after.Some? && after.value.lastDecay != before.value.lastDecay
  }

  function Floor(x: int): nat {
    if x < 0 then 0 else x
  }

  predicate Lowered(e: Entry, from: nat, n: nat, since: nat, c: Config) {
    !e.banned && e.score == Floor(from - n * c.scoreDecay) && e.lastDecay <= since
  }

  lemma {:induction false} AdmittedLowers(e: Entry, from: nat, n: nat, since: nat, now: nat, c: Config)
    requires PositiveWindow(c) && c.scoreDecay >= 0 && Lowered(e, from, n, since, c) && since <= now < CLOCK_END
    requires CheckEntry(e, now, c).allowed
    ensures var v := CheckEntry(e, now, c).entry;
            Lowered(v, from, if v.lastDecay != e.lastDecay then n + 1 else n, now, c)
  {
    hide WindowNs, U64, RetryAfter, Gained, Burst;
    WindowPositive(c);
    assert Full(e, now, c);
    AdmissionDecays(e, now, c);
    assert (n + 1) * c.scoreDecay == n * c.scoreDecay + c.scoreDecay;
  }

  /** A client that is admitted every time loses one decay for each window in which it is, down to 0. */
  lemma {:induction false} DecayedExactly(s: Shard, reqs: seq<Request>, ip: IP, c: Config, from: nat, n: nat, since: nat)
    requires PositiveWindow(c) && c.scoreDecay >= 0 && ShardOk(s) && Ordered(reqs, since)
    requires LastTime(reqs, since) < CLOCK_END && ip != NoIp && Stays(s, reqs, ip, c) && AllAdmitted(s, reqs, ip, c)
    requires EntryOf(s, ip).Some? && Lowered(EntryOf(s, ip).value, from, n, since, c)
    ensures EntryOf(Serve(s, reqs, c), ip).Some?
    ensures Lowered(EntryOf(Serve(s, reqs, c), ip).value, from, n + Decays(s, reqs, ip, c), LastTime(reqs, since), c)
    decreases |reqs|
  {
    hide Check, CheckEntry, ShardOk, Lowered, EntryOf, FreshEntry, PositiveWindow;
    if reqs != [] {
      SlotsOf(s);
      var q := reqs[0];
      LastTimeGrows(reqs[1..], q.now);
      CheckEffect(s, q.ip, q.now, c, ip);
      CheckKeeps(s, q.ip, q.now, c);
      var o := Check(s, q.ip, q.now, c);
      var e := EntryOf(s, ip).value;
      assert EntryOf(o.shard, ip).Some? by { StaysNow(o.shard, reqs[1..], ip, c); }
      if q.ip == ip { AdmittedLowers(e, from, n, since, q.now, c); } else { LoweredLater(e, from, n, since, q.now, c); }
      var lowered := Decayed(EntryOf(s, ip), EntryOf(o.shard, ip));
      DecayedExactly(o.shard, reqs[1..], ip, c, from, if lowered then n + 1 else n, q.now);
    }
  }

  lemma {:induction false} LoweredLater(e: Entry, from: nat, n: nat, since: nat, now: nat, c: Config)
    requires Lowered(e, from, n, since, c) && since <= now
    ensures Lowered(e, from, n, now, c)
  {
  }
}
