/** runtime/collections.c: the open-addressing map of orbit_map_*. */
module HashMap {
  /* A table is a sequence of buckets probed linearly from the home slot of a key's hash. Keys are pointers to strings
     that do not change while the map holds them, so a pointer has one text. The hash is any function of that text.
     `x & (bucket_count - 1)` is `x % bucket_count` because the bucket count is a power of two. */
  import opened Basics

  type Ptr = nat

  datatype Entry<V> = Entry(key: Ptr, value: Option<V>, hash: nat, occupied: bool)

  datatype MapError = OutOfMemory | KeyNotFound

  datatype Outcome<+V> = Ok(value: V) | Err(error: MapError)

  const INITIAL_BUCKETS: nat := 16
  const LOAD_FACTOR: nat := 75

  // ----- probe order -----

  function Home(hash: nat, n: nat): (h: nat)
    requires n > 0
    ensures h < n
  {
    hash % n
  }

  function Next(i: nat, n: nat): (j: nat)
    requires i < n
    ensures j < n
  {
    if i + 1 == n then 0 else i + 1
  }

  /** How many probes lead from slot `h` to slot `i`. */
  function Dist(h: nat, i: nat, n: nat): (d: nat)
    requires h < n && i < n
    ensures d < n
  {
    if h <= i then i - h else i + n - h
  }

  lemma {:induction false} NextIsMasked(i: nat, n: nat)
    requires i < n
    ensures (i + 1) % n == Next(i, n)
  {
    if i + 1 < n { SmallMod(i + 1, n); }
  }

  lemma {:induction false} SmallMod(x: nat, n: nat)
    requires x < n
    ensures x % n == x
  {
  }

  ghost predicate PowerOfTwo(n: nat) {
    n == 1 || (n > 0 && n % 2 == 0 && PowerOfTwo(n / 2))
  }

  // ----- table invariants -----

  ghost predicate Slot<V>(b: seq<Entry<V>>, i: int) {
    0 <= i < |b| && b[i].occupied
  }

  /** Slot `j` is probed before slot `i` on the way from the home of the entry at `i`. */
  ghost predicate OnPath<V>(b: seq<Entry<V>>, i: nat, j: nat)
    requires i < |b| && j < |b|
  {
    Dist(Home(b[i].hash, |b|), j, |b|) < Dist(Home(b[i].hash, |b|), i, |b|)
  }

  /** Every occupied bucket can be reached from its home slot through occupied buckets. */
  ghost predicate Reachable<V>(b: seq<Entry<V>>) {
    forall i: nat, j: nat | Slot(b, i) && j < |b| && OnPath(b, i, j) :: Slot(b, j)
  }

  ghost predicate Unique<V>(b: seq<Entry<V>>, text: Ptr -> string) {
    forall i, j | Slot(b, i) && Slot(b, j) && text(b[i].key) == text(b[j].key) :: i == j
  }

  ghost predicate Hashed<V>(b: seq<Entry<V>>, text: Ptr -> string, hash: string -> nat) {
    forall i | Slot(b, i) :: b[i].hash == hash(text(b[i].key))
  }

  /** The table holds the mathematical map `m`: each key of `m` once, in a bucket with its value. */
  ghost predicate Represents<V>(b: seq<Entry<V>>, text: Ptr -> string, m: map<string, V>) {
    && (forall i | Slot(b, i) :: text(b[i].key) in m && b[i].value == Some(m[text(b[i].key)]))
    && (forall k | k in m :: HasKey(b, text, k))
  }

  ghost predicate HasKey<V>(b: seq<Entry<V>>, text: Ptr -> string, k: string) {
    exists i :: Slot(b, i) && text(b[i].key) == k
  }

  /** The table is sound as a bag of entries, whatever their places. */
  ghost predicate Bag<V>(b: seq<Entry<V>>, text: Ptr -> string, hash: string -> nat, m: map<string, V>) {
    Unique(b, text) && Hashed(b, text, hash) && Represents(b, text, m)
  }

  /** `t` is the first free slot at or after `h` in probe order. */
  ghost predicate FirstFree<V>(b: seq<Entry<V>>, h: nat, t: nat) {
    && h < |b| && t < |b| && !b[t].occupied
    && forall j: nat | j < |b| && Dist(h, j, |b|) < Dist(h, t, |b|) :: Slot(b, j)
  }

  // ----- entries as a bag -----

  lemma {:induction false} AddEntry<V>(b: seq<Entry<V>>, text: Ptr -> string, hash: string -> nat, m: map<string, V>, t: nat, e: Entry<V>)
    requires Bag(b, text, hash, m)
    requires t < |b| && !b[t].occupied && e.occupied && e.value.Some?
    requires text(e.key) !in m && e.hash == hash(text(e.key))
    ensures Bag(b[t := e], text, hash, m[text(e.key) := e.value.value])
  {
    var b', m' := b[t := e], m[text(e.key) := e.value.value];
    forall i | Slot(b', i) ensures i == t || (Slot(b, i) && b'[i] == b[i]) { }
    forall k | k in m' ensures HasKey(b', text, k) {
      if k == text(e.key) {
        assert Slot(b', t);
      } else {
        var i :| Slot(b, i) && text(b[i].key) == k;
        assert Slot(b', i);
      }
    }
  }

  lemma {:induction false} RemoveEntry<V>(b: seq<Entry<V>>, text: Ptr -> string, hash: string -> nat, m: map<string, V>, t: nat)
    requires Bag(b, text, hash, m) && Slot(b, t)
    ensures Bag(b[t := b[t].(occupied := false)], text, hash, m - {text(b[t].key)})
  {
    var b', m' := b[t := b[t].(occupied := false)], m - {text(b[t].key)};
    forall i | Slot(b', i) ensures i != t && Slot(b, i) && b'[i] == b[i] { }
    forall k | k in m' ensures HasKey(b', text, k) {
      var i :| Slot(b, i) && text(b[i].key) == k;
      assert Slot(b', i);
    }
  }

  lemma {:induction false} ReplaceValue<V>(b: seq<Entry<V>>, text: Ptr -> string, hash: string -> nat, m: map<string, V>, t: nat, v: V)
    requires Bag(b, text, hash, m) && Slot(b, t)
    ensures Bag(b[t := b[t].(value := Some(v))], text, hash, m[text(b[t].key) := v])
  {
    var b', m' := b[t := b[t].(value := Some(v))], m[text(b[t].key) := v];
    forall i | Slot(b', i) ensures Slot(b, i) && b'[i].key == b[i].key && b'[i].hash == b[i].hash { }
    forall k | k in m' ensures HasKey(b', text, k) {
      if k == text(b[t].key) {
        assert Slot(b', t);
      } else {
        var i :| Slot(b, i) && text(b[i].key) == k;
        assert Slot(b', i);
      }
    }
  }

  /** A table larger than the map it holds has a free slot, so every probe loop ends. */
  lemma {:induction false} FreeSlot<V>(b: seq<Entry<V>>, text: Ptr -> string, hash: string -> nat, m: map<string, V>) returns (f: nat)
    requires Bag(b, text, hash, m) && |m| < |b|
    ensures f < |b| && !b[f].occupied
  {
    if forall i: nat | i < |b| :: b[i].occupied {
      FullTable(b, text, m, |b|);
    }
    f :| f < |b| && !b[f].occupied;
  }

  lemma {:induction false} FullTable<V>(b: seq<Entry<V>>, text: Ptr -> string, m: map<string, V>, n: nat)
    requires n <= |b| && Unique(b, text)
    requires forall i: nat | i < |b| :: Slot(b, i) && text(b[i].key) in m
    ensures |m| >= n
    decreases n
  {
    var keys := set i: nat | i < n :: text(b[i].key);
    assert keys <= m.Keys;
    DistinctKeys(b, text, n);
    SubsetSize(keys, m.Keys);
  }

  lemma {:induction false} DistinctKeys<V>(b: seq<Entry<V>>, text: Ptr -> string, n: nat)
    requires n <= |b| && Unique(b, text)
    requires forall i: nat | i < |b| :: Slot(b, i)
    ensures |set i: nat | i < n :: text(b[i].key)| == n
  {
    var keys := set i: nat | i < n :: text(b[i].key);
    if n == 0 {
      assert keys == {};
    } else {
      DistinctKeys(b, text, n - 1);
      var fewer := set i: nat | i < n - 1 :: text(b[i].key);
      assert Slot(b, n - 1);
      assert text(b[n - 1].key) !in fewer;
      assert keys == fewer + {text(b[n - 1].key)};
    }
  }

  // ----- reachability -----

  /** Placing an entry in the first free slot after its home keeps everything reachable. */
  lemma {:induction false} PlaceKeepsReachable<V>(b: seq<Entry<V>>, t: nat, e: Entry<V>)
    requires Reachable(b) && |b| > 0 && e.occupied && FirstFree(b, Home(e.hash, |b|), t)
    ensures Reachable(b[t := e])
  {
    var b' := b[t := e];
    forall i: nat, j: nat | Slot(b', i) && j < |b'| && OnPath(b', i, j) ensures Slot(b', j) {
      if i == t {
        assert Slot(b, j);
      } else {
        assert Slot(b, i) && OnPath(b, i, j);
        assert Slot(b, j);
      }
    }
  }

  /** A probe that stopped at a free slot has seen every bucket that could hold the key. */
  lemma {:induction false} ProbeComplete<V>(b: seq<Entry<V>>, h: nat, free: nat, i: nat)
    requires Reachable(b) && |b| > 0 && h < |b| && FirstFree(b, h, free)
    requires Slot(b, i) && Home(b[i].hash, |b|) == h
    ensures Dist(h, i, |b|) < Dist(h, free, |b|)
  {
    assert OnPath(b, i, free) ==> Slot(b, free);
  }

  /** The buckets probed from `h` before `idx` are occupied by other keys. */
  ghost predicate Passed<V>(b: seq<Entry<V>>, text: Ptr -> string, k: string, h: nat, idx: nat)
    requires h < |b| && idx < |b|
  {
    forall j: nat | j < |b| && Dist(h, j, |b|) < Dist(h, idx, |b|) :: Slot(b, j) && text(b[j].key) != k
  }

  lemma {:induction false} PassedNone<V>(b: seq<Entry<V>>, text: Ptr -> string, k: string, h: nat)
    requires h < |b|
    ensures Passed(b, text, k, h, h)
  {
  }

  lemma {:induction false} PassedOne<V>(b: seq<Entry<V>>, text: Ptr -> string, k: string, h: nat, idx: nat)
    requires h < |b| && idx < |b| && Passed(b, text, k, h, idx) && b[idx].occupied && text(b[idx].key) != k
    requires Dist(h, idx, |b|) + 1 < |b|
    ensures Passed(b, text, k, h, Next(idx, |b|))
  {
    assert Slot(b, idx);
  }

  lemma {:induction false} ProbeMissed<V>(b: seq<Entry<V>>, text: Ptr -> string, hash: string -> nat, m: map<string, V>, k: string, idx: nat)
    requires |b| > 0 && Bag(b, text, hash, m) && Reachable(b) && idx < |b| && !b[idx].occupied
    requires Passed(b, text, k, Home(hash(k), |b|), idx)
    ensures k !in m && FirstFree(b, Home(hash(k), |b|), idx)
  {
    if k in m {
      var i :| Slot(b, i) && text(b[i].key) == k;
      ProbeComplete(b, Home(hash(k), |b|), idx, i);
      assert false;
    }
  }

  /** State of the cluster repair in delete: `hole` was vacated, the buckets from `next` up to the
      free slot `stop` still sit where they were, and all other buckets are reachable again. */
  ghost predicate Repairing<V>(b: seq<Entry<V>>, hole: nat, next: nat, stop: nat) {
    && hole < |b| && next < |b| && stop < |b| && !b[stop].occupied
    && 0 < Dist(hole, next, |b|) <= Dist(hole, stop, |b|)
    && (forall j: nat | Waiting(b, hole, next, stop, j) :: Slot(b, j))
    && (forall i: nat, j: nat | Slot(b, i) && j < |b| && OnPath(b, i, j) ::
          Slot(b, j) || (Waiting(b, hole, next, stop, i) && Dist(hole, j, |b|) < Dist(hole, next, |b|)))
  }

  ghost predicate Waiting<V>(b: seq<Entry<V>>, hole: nat, next: nat, stop: nat, j: nat)
    requires hole < |b| && next < |b| && stop < |b|
  {
    j < |b| && Dist(hole, next, |b|) <= Dist(hole, j, |b|) < Dist(hole, stop, |b|)
  }

  /** If a path from `h` to `i` crosses `x`, and `i` is not among the slots from `x` to `stop`, it crosses `stop`. */
  lemma {:induction false} PathCrosses(hole: nat, h: nat, i: nat, x: nat, stop: nat, n: nat)
    requires hole < n && h < n && i < n && x < n && stop < n
    requires Dist(hole, x, n) < Dist(hole, stop, n)
    ensures Dist(h, x, n) < Dist(h, i, n)
            && (Dist(hole, i, n) < Dist(hole, x, n) || Dist(hole, stop, n) < Dist(hole, i, n))
            ==> Dist(h, stop, n) < Dist(h, i, n)
  {
  }

  lemma {:induction false} RepairStarts<V>(b: seq<Entry<V>>, hole: nat, stop: nat)
    requires Reachable(b) && Slot(b, hole) && |b| > 1
    requires FirstFree(b, Next(hole, |b|), stop)
    ensures Repairing(b[hole := b[hole].(occupied := false)], hole, Next(hole, |b|), stop)
  {
    hide Next;
    NextDist(hole, |b|);
    var b', n, next := b[hole := b[hole].(occupied := false)], |b|, Next(hole, |b|);
    forall j: nat | Waiting(b', hole, next, stop, j) ensures Slot(b', j) {
      assert Dist(next, j, n) < Dist(next, stop, n);
      assert Slot(b, j) && j != hole;
    }
    forall i: nat, j: nat | Slot(b', i) && j < n && OnPath(b', i, j)
      ensures Slot(b', j) || (Waiting(b', hole, next, stop, i) && Dist(hole, j, n) < Dist(hole, next, n))
    {
      assert Slot(b, i) && OnPath(b, i, j) && Slot(b, j);
      assert !Slot(b, stop) && !OnPath(b, i, stop);
      PathCrosses(hole, Home(b[i].hash, n), i, hole, stop, n);
    }
  }

  lemma {:induction false} NextDist(i: nat, n: nat)
    requires i < n && n > 1
    ensures Next(i, n) < n && Dist(i, Next(i, n), n) == 1
    ensures forall j: nat | j < n && j != i :: Dist(i, j, n) == 1 + Dist(Next(i, n), j, n)
  {
    NextIsMasked(i, n);
  }

  /** The table after the entry at `next` has moved to `t`. */
  function Moved<V>(b: seq<Entry<V>>, next: nat, t: nat): seq<Entry<V>>
    requires next < |b| && t < |b|
  {
    b[next := b[next].(occupied := false)][t := b[next]]
  }

  lemma {:induction false} MovedPath<V>(b: seq<Entry<V>>, hole: nat, next: nat, stop: nat, t: nat, i: nat, j: nat)
    requires Repairing(b, hole, next, stop) && Slot(b, next)
    requires var b1 := b[next := b[next].(occupied := false)]; FirstFree(b1, Home(b[next].hash, |b|), t)
    requires Slot(Moved(b, next, t), i) && j < |b| && OnPath(Moved(b, next, t), i, j)
    ensures Slot(Moved(b, next, t), j)
            || (Waiting(b, hole, next, stop, i) && i != next && Dist(hole, j, |b|) < Dist(hole, next, |b|) + 1)
  {
    var n := |b|;
    if i != t {
      assert Slot(b, i) && OnPath(b, i, j);
      assert !Slot(b, stop) && !OnPath(b, i, stop);
      PathCrosses(hole, Home(b[i].hash, n), i, next, stop, n);
    }
  }

  lemma {:induction false} RepairStep<V>(b: seq<Entry<V>>, hole: nat, next: nat, stop: nat, t: nat)
    requires Repairing(b, hole, next, stop) && Slot(b, next)
    requires var b1 := b[next := b[next].(occupied := false)]; FirstFree(b1, Home(b[next].hash, |b|), t)
    ensures Dist(hole, Next(next, |b|), |b|) == Dist(hole, next, |b|) + 1 <= Dist(hole, stop, |b|)
    ensures Repairing(b[next := b[next].(occupied := false)][t := b[next]], hole, Next(next, |b|), stop)
  {
    var n := |b|;
    var b1 := b[next := b[next].(occupied := false)];
    var b2 := Moved(b, next, t);
    var next' := Next(next, n);
    assert next != stop;
    if t != next {
      assert Dist(Home(b[next].hash, n), t, n) < Dist(Home(b[next].hash, n), next, n) by { assert !Slot(b1, next); }
      assert OnPath(b, next, t) && !Slot(b, t);
    }
    assert Dist(hole, next', n) == Dist(hole, next, n) + 1;
    forall j: nat | Waiting(b2, hole, next', stop, j) ensures Slot(b2, j) {
      assert Waiting(b, hole, next, stop, j);
    }
    forall i: nat, j: nat | Slot(b2, i) && j < n && OnPath(b2, i, j)
      ensures Slot(b2, j) || (Waiting(b2, hole, next', stop, i) && Dist(hole, j, n) < Dist(hole, next', n))
    {
      MovedPath(b, hole, next, stop, t, i, j);
    }
  }

  lemma {:induction false} RepairBound<V>(b: seq<Entry<V>>, hole: nat, next: nat, stop: nat)
    requires Repairing(b, hole, next, stop)
    ensures hole < |b| && next < |b| && stop < |b| && Dist(hole, next, |b|) <= Dist(hole, stop, |b|)
  {
  }

  lemma {:induction false} RepairEnds<V>(b: seq<Entry<V>>, hole: nat, next: nat, stop: nat)
    requires Repairing(b, hole, next, stop) && !b[next].occupied
    ensures Reachable(b)
  {
    assert Waiting(b, hole, next, stop, next) ==> Slot(b, next);
  }

  lemma {:induction false} SameShape<V>(b: seq<Entry<V>>, b': seq<Entry<V>>)
    requires Reachable(b) && |b'| == |b|
    requires forall i | 0 <= i < |b| :: b'[i].occupied == b[i].occupied && b'[i].hash == b[i].hash
    ensures Reachable(b')
  {
    forall i: nat, j: nat | Slot(b', i) && j < |b'| && OnPath(b', i, j) ensures Slot(b', j) {
      assert Slot(b, i) && OnPath(b, i, j);
      assert Slot(b, j);
    }
  }

  /** The free slot that ends the cluster starting at `h`. */
  lemma {:induction false} StopSlot<V>(b: seq<Entry<V>>, h: nat, free: nat) returns (stop: nat)
    requires h < |b| && free < |b| && !b[free].occupied
    ensures FirstFree(b, h, stop)
  {
    stop := h;
    while b[stop].occupied
      invariant stop < |b| && Dist(h, stop, |b|) <= Dist(h, free, |b|)
      invariant forall j: nat | j < |b| && Dist(h, j, |b|) < Dist(h, stop, |b|) :: Slot(b, j)
      decreases Dist(h, free, |b|) - Dist(h, stop, |b|)
    {
      stop := Next(stop, |b|);
    }
  }

  // ----- rehashing -----

  /** The part of `m` whose buckets lie before slot `n`. */
  ghost function Prefix<V>(b: seq<Entry<V>>, text: Ptr -> string, m: map<string, V>, n: nat): map<string, V>
    requires n <= |b|
  {
    map k | k in m && HasKey(b[..n], text, k) :: m[k]
  }

  lemma {:induction false} PrefixStep<V>(b: seq<Entry<V>>, text: Ptr -> string, hash: string -> nat, m: map<string, V>, i: nat)
    requires i < |b| && Bag(b, text, hash, m)
    ensures !b[i].occupied ==> Prefix(b, text, m, i + 1) == Prefix(b, text, m, i)
    ensures b[i].occupied ==> text(b[i].key) in m && text(b[i].key) !in Prefix(b, text, m, i)
    ensures b[i].occupied ==> Prefix(b, text, m, i + 1) == Prefix(b, text, m, i)[text(b[i].key) := m[text(b[i].key)]]
  {
    forall k ensures HasKey(b[..i + 1], text, k) <==> HasKey(b[..i], text, k) || (Slot(b, i) && text(b[i].key) == k) {
      if HasKey(b[..i], text, k) {
        var x :| Slot(b[..i], x) && text(b[..i][x].key) == k;
        assert Slot(b[..i + 1], x);
      }
      if Slot(b, i) && text(b[i].key) == k { assert Slot(b[..i + 1], i); }
    }
    forall x | Slot(b[..i], x) && Slot(b, i) ensures text(b[..i][x].key) != text(b[i].key) {
      assert Slot(b, x) && x != i;
    }
  }

  lemma {:induction false} BagEntry<V>(b: seq<Entry<V>>, text: Ptr -> string, hash: string -> nat, m: map<string, V>, i: nat)
    requires Bag(b, text, hash, m) && i < |b| && b[i].occupied
    ensures text(b[i].key) in m && b[i].value == Some(m[text(b[i].key)]) && b[i].hash == hash(text(b[i].key))
  {
    assert Slot(b, i);
  }

  lemma {:induction false} RestoreKey<V>(m: map<string, V>, k: string)
    requires k in m
    ensures (m - {k})[k := m[k]] == m && |m - {k}| == |m| - 1
  {
    assert (m - {k}).Keys == m.Keys - {k};
  }

  lemma {:induction false} EmptyTable<V>(b: seq<Entry<V>>, text: Ptr -> string, hash: string -> nat)
    requires forall i | 0 <= i < |b| :: !b[i].occupied
    ensures Bag(b, text, hash, map[]) && Reachable(b)
  {
  }

  lemma {:induction false} PrefixNone<V>(b: seq<Entry<V>>, text: Ptr -> string, m: map<string, V>)
    ensures Prefix(b, text, m, 0) == map[]
  {
  }

  lemma {:induction false} PrefixSize<V>(b: seq<Entry<V>>, text: Ptr -> string, m: map<string, V>, n: nat)
    requires n <= |b|
    ensures |Prefix(b, text, m, n)| <= |m|
  {
    SubsetSize(Prefix(b, text, m, n).Keys, m.Keys);
  }

  lemma {:induction false} PrefixAll<V>(b: seq<Entry<V>>, text: Ptr -> string, hash: string -> nat, m: map<string, V>)
    requires Bag(b, text, hash, m)
    ensures Prefix(b, text, m, |b|) == m
  {
    assert b[..|b|] == b;
  }

  // ----- listing the keys -----

  function KeysUpTo<V>(b: seq<Entry<V>>, n: nat): seq<Ptr>
    requires n <= |b|
  {
    if n == 0 then []
    else KeysUpTo(b, n - 1) + (if b[n - 1].occupied then [b[n - 1].key] else [])
  }

  ghost function TextsOf(keys: seq<Ptr>, text: Ptr -> string): set<string> {
    set i | 0 <= i < |keys| :: text(keys[i])
  }

  lemma {:induction false} TextsOfSnoc(keys: seq<Ptr>, k: Ptr, text: Ptr -> string)
    ensures TextsOf(keys + [k], text) == TextsOf(keys, text) + {text(k)}
  {
    var all := keys + [k];
    forall s | s in TextsOf(keys, text) + {text(k)} ensures s in TextsOf(all, text) {
      if s == text(k) {
        assert all[|keys|] == k;
      } else {
        var i :| 0 <= i < |keys| && text(keys[i]) == s;
        assert all[i] == keys[i];
      }
    }
  }

  /** The listing names every key of the map exactly once. */
  lemma {:induction false} KeysListTheMap<V>(b: seq<Entry<V>>, text: Ptr -> string, hash: string -> nat, m: map<string, V>)
    requires Bag(b, text, hash, m)
    ensures var keys := KeysUpTo(b, |b|);
            && |keys| == |m|
            && (forall i, j | 0 <= i < j < |keys| :: text(keys[i]) != text(keys[j]))
            && TextsOf(keys, text) == m.Keys
  {
    KeysOfPrefix(b, text, hash, m, |b|);
    PrefixAll(b, text, hash, m);
  }

  /** The keys are those of the part, each once. */
  ghost predicate ListsPart<V>(keys: seq<Ptr>, part: map<string, V>, text: Ptr -> string) {
    && |keys| == |part|
    && (forall i, j | 0 <= i < j < |keys| :: text(keys[i]) != text(keys[j]))
    && TextsOf(keys, text) == part.Keys
  }

  lemma {:induction false} NoneNamed(keys: seq<Ptr>, text: Ptr -> string, t: string)
    requires t !in TextsOf(keys, text)
    ensures forall i | 0 <= i < |keys| :: text(keys[i]) != t
  {
  }

  lemma {:induction false} DistinctMore(keys: seq<Ptr>, text: Ptr -> string, k: Ptr)
    requires (forall i, j | 0 <= i < j < |keys| :: text(keys[i]) != text(keys[j])) && text(k) !in TextsOf(keys, text)
    ensures forall i, j | 0 <= i < j < |keys + [k]| :: text((keys + [k])[i]) != text((keys + [k])[j])
  {
    NoneNamed(keys, text, text(k));
  }

  lemma {:induction false} ListsMore<V>(keys: seq<Ptr>, part: map<string, V>, text: Ptr -> string, k: Ptr, v: V)
    requires ListsPart(keys, part, text) && text(k) !in part
    ensures ListsPart(keys + [k], part[text(k) := v], text)
  {
    hide TextsOf;
    TextsOfSnoc(keys, k, text);
    DistinctMore(keys, text, k);
    var more := part[text(k) := v];
    assert more.Keys == part.Keys + {text(k)};
  }

  lemma {:induction false} KeysOfPrefix<V>(b: seq<Entry<V>>, text: Ptr -> string, hash: string -> nat, m: map<string, V>, n: nat)
    requires Bag(b, text, hash, m) && n <= |b|
    ensures ListsPart(KeysUpTo(b, n), Prefix(b, text, m, n), text)
    decreases n
  {
    hide Bag, Prefix, ListsPart;
    if n == 0 {
      PrefixNone(b, text, m);
      ListsNothing<V>(text);
    } else {
      KeysOfPrefix(b, text, hash, m, n - 1);
      PrefixStep(b, text, hash, m, n - 1);
      var keys := KeysUpTo(b, n - 1);
      if b[n - 1].occupied {
        var k := b[n - 1].key;
        ListsMore(keys, Prefix(b, text, m, n - 1), text, k, m[text(k)]);
      } else {
        assert keys + [] == keys;
      }
    }
  }

  lemma {:induction false} ListsNothing<V>(text: Ptr -> string)
    ensures ListsPart<V>([], map[], text)
  {
  }

  // ----- the map object -----

  class OrbitMap<V> {
    var buckets: array<Entry<V>>
    var count: nat
    const textOf: Ptr -> string
    const hashOf: string -> nat
    ghost var contents: map<string, V>

    ghost predicate Valid()
      reads this, buckets
    {
      && buckets.Length >= INITIAL_BUCKETS && PowerOfTwo(buckets.Length) && buckets.Length % 4 == 0
      && count == |contents| && 4 * count <= 3 * buckets.Length
      && Bag(buckets[..], textOf, hashOf, contents)
      && Reachable(buckets[..])
    }

    /** orbit_map_create once both of its allocations have succeeded. */
    constructor (textOf: Ptr -> string, hashOf: string -> nat)
      ensures Valid() && fresh(buckets) && contents == map[] && buckets.Length == INITIAL_BUCKETS
      ensures this.textOf == textOf && this.hashOf == hashOf
    {
      this.textOf, this.hashOf := textOf, hashOf;
      buckets := new Entry<V>[INITIAL_BUCKETS](_ => Entry(0, None, 0, false));
      count, contents := 0, map[];
    }

    /** The probe loop of set, get and delete: the key's bucket, or the free bucket that ends the search. */
    method Probe(key: Ptr) returns (idx: nat)
      requires Valid()
      ensures idx < buckets.Length
      ensures buckets[idx].occupied <==> textOf(key) in contents
      ensures buckets[idx].occupied ==> textOf(buckets[idx].key) == textOf(key)
      ensures !buckets[idx].occupied ==> FirstFree(buckets[..], Home(hashOf(textOf(key)), buckets.Length), idx)
    {
      hide PowerOfTwo, Bag, Reachable, Passed;
      var hash, n := hashOf(textOf(key)), buckets.Length;
      ghost var b, home := buckets[..], Home(hash, n);
      ghost var free := FreeSlot(b, textOf, hashOf, contents);
      idx := Home(hash, n);
      PassedNone(b, textOf, textOf(key), home);
      while buckets[idx].occupied
        invariant idx < n && Dist(home, idx, n) <= Dist(home, free, n)
        invariant Passed(b, textOf, textOf(key), home, idx)
        decreases Dist(home, free, n) - Dist(home, idx, n)
      {
        BagEntry(b, textOf, hashOf, contents, idx);
        if buckets[idx].key == key || (buckets[idx].hash == hash && textOf(buckets[idx].key) == textOf(key)) {
          return;
        }
        PassedOne(b, textOf, textOf(key), home, idx);
        NextIsMasked(idx, n);
        idx := (idx + 1) % n;
      }
      ProbeMissed(b, textOf, hashOf, contents, textOf(key), idx);
    }

    /** The re-insertion loop of resize and delete. */
    method FreeFrom(b: array<Entry<V>>, hash: nat, ghost m: map<string, V>) returns (t: nat)
      requires b.Length > 0 && Bag(b[..], textOf, hashOf, m) && |m| < b.Length
      ensures FirstFree(b[..], Home(hash, b.Length), t)
    {
      hide Bag;
      var n := b.Length;
      ghost var free := FreeSlot(b[..], textOf, hashOf, m);
      ghost var home := Home(hash, n);
      t := Home(hash, n);
      while b[t].occupied
        invariant t < n && Dist(home, t, n) <= Dist(home, free, n)
        invariant forall j: nat | j < n && Dist(home, j, n) < Dist(home, t, n) :: Slot(b[..], j)
        decreases Dist(home, free, n) - Dist(home, t, n)
      {
        NextIsMasked(t, n);
        t := (t + 1) % n;
      }
    }

    /** Put an entry into the first free bucket of its probe sequence. */
    method Reinsert(b: array<Entry<V>>, e: Entry<V>, ghost m: map<string, V>) returns (t: nat)
      requires b.Length > 0 && Bag(b[..], textOf, hashOf, m) && |m| < b.Length
      requires e.occupied && e.value.Some? && textOf(e.key) !in m && e.hash == hashOf(textOf(e.key))
      modifies b
      ensures FirstFree(old(b[..]), Home(e.hash, b.Length), t)
      ensures b[..] == old(b[..])[t := e]
      ensures Bag(b[..], textOf, hashOf, m[textOf(e.key) := e.value.value])
    {
      hide Bag;
      t := FreeFrom(b, e.hash, m);
      ghost var before := b[..];
      AddEntry(before, textOf, hashOf, m, t, e);
      b[t] := e;
      assert b[..] == before[t := e];
    }

    /** orbit_map_get. */
    method Get(key: Ptr) returns (r: Outcome<V>)
      requires Valid()
      ensures r == if textOf(key) in contents then Ok(contents[textOf(key)]) else Err(KeyNotFound)
    {
      var idx := Probe(key);
      if buckets[idx].occupied {
        assert Slot(buckets[..], idx);
        r := Ok(buckets[idx].value.value);
      } else {
        r := Err(KeyNotFound);
      }
    }

    /** orbit_map_resize; `granted` says whether the arena gave the new bucket array. */
    method Resize(granted: bool) returns (ok: bool)
      requires Valid()
      modifies this
      ensures Valid() && ok == granted && contents == old(contents) && count == old(count)
      ensures buckets.Length == if ok then 2 * old(buckets.Length) else old(buckets.Length)
      ensures ok ==> fresh(buckets)
      ensures !ok ==> buckets == old(buckets)
    {
      hide Bag, Reachable, FirstFree, Prefix;
      if !granted { return false; }
      var n := buckets.Length;
      var bigger := new Entry<V>[2 * n](_ => Entry(0, None, 0, false));
      ghost var b, moved := buckets[..], map[];
      var i := 0;
      EmptyTable(bigger[..], textOf, hashOf);
      PrefixNone(b, textOf, contents);
      while i < n
        invariant i <= n && buckets[..] == b && fresh(bigger) && contents == old(contents) && count == old(count)
        invariant Bag(bigger[..], textOf, hashOf, moved) && Reachable(bigger[..])
        invariant moved == Prefix(b, textOf, contents, i)
      {
        PrefixStep(b, textOf, hashOf, contents, i);
        PrefixSize(b, textOf, contents, i);
        if buckets[i].occupied {
          BagEntry(b, textOf, hashOf, contents, i);
          ghost var before := bigger[..];
          var t := Reinsert(bigger, buckets[i], moved);
          PlaceKeepsReachable(before, t, buckets[i]);
          moved := moved[textOf(b[i].key) := b[i].value.value];
        }
        i := i + 1;
      }
      PrefixAll(b, textOf, hashOf, contents);
      assert (2 * n) / 2 == n;
      buckets := bigger;
      ok := true;
    }

    /** orbit_map_set; the flags say whether the arena served the two allocations. */
    method Set(key: Ptr, value: V, bucketsGranted: bool, valueGranted: bool) returns (r: Outcome<V>)
      requires Valid()
      modifies this, buckets
      ensures Valid()
      ensures r == Ok(value) || r == Err(OutOfMemory)
      ensures r.Ok? ==> contents == old(contents)[textOf(key) := value]
      ensures r.Err? ==> contents == old(contents)
      ensures r.Ok? <==> valueGranted && (bucketsGranted || old(count * 100 < buckets.Length * LOAD_FACTOR))
    {
      if count * 100 >= buckets.Length * LOAD_FACTOR {
        var resized := Resize(bucketsGranted);
        if !resized { return Err(OutOfMemory); }
      }
      var stored := Put(key, value, valueGranted);
      r := if stored then Ok(value) else Err(OutOfMemory);
    }

    /** The part of orbit_map_set after the load check. */
    method Put(key: Ptr, value: V, granted: bool) returns (ok: bool)
      requires Valid() && 4 * count < 3 * buckets.Length
      modifies this, buckets
      ensures Valid() && buckets == old(buckets) && ok == granted
      ensures contents == if ok then old(contents)[textOf(key) := value] else old(contents)
    {
      hide Bag, Reachable, PowerOfTwo, FirstFree, Home;
      var idx := Probe(key);
      if !granted { return false; }
      ghost var b, m := buckets[..], contents;
      if buckets[idx].occupied {
        ReplaceValue(b, textOf, hashOf, m, idx, value);
        buckets[idx] := buckets[idx].(value := Some(value));
        assert buckets[..] == b[idx := b[idx].(value := Some(value))];
        SameShape(b, buckets[..]);
      } else {
        var e := Entry(key, Some(value), hashOf(textOf(key)), true);
        AddEntry(b, textOf, hashOf, m, idx, e);
        PlaceKeepsReachable(b, idx, e);
        buckets[idx] := e;
        assert buckets[..] == b[idx := e];
        count := count + 1;
      }
      contents := m[textOf(key) := value];
      ok := true;
    }

    /** orbit_map_delete: vacate the bucket, then re-insert the rest of its cluster. */
    method Delete(key: Ptr) returns (r: Outcome<()>)
      requires Valid()
      modifies this, buckets
      ensures Valid() && buckets == old(buckets)
      ensures r == if textOf(key) in old(contents) then Ok(()) else Err(KeyNotFound)
      ensures contents == old(contents) - {textOf(key)}
    {
      hide Bag, Reachable, FirstFree, Repairing, PowerOfTwo;
      var idx := Probe(key);
      if !buckets[idx].occupied { return Err(KeyNotFound); }
      var n := buckets.Length;
      ghost var b, m := buckets[..], contents;
      ghost var free := FreeSlot(b, textOf, hashOf, m);
      ghost var stop := StopSlot(b, Next(idx, n), free);
      assert Slot(b, idx);
      RepairStarts(b, idx, stop);
      RemoveEntry(b, textOf, hashOf, m, idx);
      RestoreKey(m, textOf(key));
      buckets[idx] := buckets[idx].(occupied := false);
      assert buckets[..] == b[idx := b[idx].(occupied := false)];
      count := count - 1;
      contents := m - {textOf(key)};
      RepairCluster(idx, stop);
      r := Ok(());
    }

    /** The second loop of orbit_map_delete. */
    method RepairCluster(hole: nat, ghost stop: nat)
      requires hole < buckets.Length && 1 < buckets.Length && count == |contents| && 4 * count <= 3 * buckets.Length
      requires Bag(buckets[..], textOf, hashOf, contents)
      requires Repairing(buckets[..], hole, Next(hole, buckets.Length), stop)
      modifies this`count, buckets
      ensures count == old(count) && Bag(buckets[..], textOf, hashOf, contents) && Reachable(buckets[..])
    {
      hide Bag, Reachable, FirstFree, Repairing;
      var n := buckets.Length;
      NextIsMasked(hole, n);
      var next := (hole + 1) % n;
      RepairBound(buckets[..], hole, next, stop);
      while buckets[next].occupied
        invariant 0 <= next < n && count == |contents|
        invariant Bag(buckets[..], textOf, hashOf, contents)
        invariant Repairing(buckets[..], hole, next, stop)
        invariant stop < n && Dist(hole, next, n) <= Dist(hole, stop, n)
        decreases Dist(hole, stop, n) - Dist(hole, next, n)
      {
        ghost var c := buckets[..];
        var e := buckets[next];
        BagEntry(c, textOf, hashOf, contents, next);
        RemoveEntry(c, textOf, hashOf, contents, next);
        RestoreKey(contents, textOf(e.key));
        buckets[next] := e.(occupied := false);
        count := count - 1;
        assert buckets[..] == c[next := e.(occupied := false)];
        var target := Reinsert(buckets, e, contents - {textOf(e.key)});
        RepairStep(c, hole, next, stop, target);
        count := count + 1;
        NextIsMasked(next, n);
        next := (next + 1) % n;
      }
      RepairEnds(buckets[..], hole, next, stop);
    }

    /** orbit_map_keys: the stored keys in bucket order. */
    method Keys() returns (keys: seq<Ptr>)
      requires Valid()
      ensures keys == KeysUpTo(buckets[..], buckets.Length)
    {
      keys := [];
      var i := 0;
      while i < buckets.Length
        invariant i <= buckets.Length && keys == KeysUpTo(buckets[..], i)
      {
        if buckets[i].occupied {
          keys := keys + [buckets[i].key];
        }
        i := i + 1;
      }
    }
  }
}
