/** runtime/collections.c: splitting and replacing on a delimiter, and the character buffer that doubles. */
module Strings {
  import opened Buffers

  const SIZE_MODULUS := 0x1_0000_0000_0000_0000

  // ----- what splitting means -----

  predicate OccursAt(s: string, d: string, i: nat) {
    i + |d| <= |s| && s[i..i + |d|] == d
  }

  predicate Contains(s: string, d: string) {
    exists i: nat | i <= |s| :: OccursAt(s, d, i)
  }

  /** The first occurrence of a non-empty text, or the length. */
  function Find(s: string, d: string): (i: nat)
    requires d != ""
    ensures i <= |s| && (i < |s| ==> OccursAt(s, d, i))
    ensures forall k: nat | k < i :: !OccursAt(s, d, k)
  {
    if s == "" || OccursAt(s, d, 0) then 0
    else
      var i := Find(s[1..], d);
      OccursLater(s, d);
      1 + i
  }

  lemma {:induction false} OccursLater(s: string, d: string)
    requires s != ""
    ensures forall k: nat | k > 0 :: OccursAt(s, d, k) <==> OccursAt(s[1..], d, k - 1)
  {
    forall k: nat | k > 0 ensures OccursAt(s, d, k) <==> OccursAt(s[1..], d, k - 1) {
      if k + |d| <= |s| {
        var here, there := s[k..k + |d|], s[1..][k - 1..k - 1 + |d|];
        assert |here| == |there| && forall j | 0 <= j < |d| :: here[j] == there[j];
      }
    }
  }

  lemma {:induction false} FindIs(s: string, d: string, i: nat)
    requires d != "" && i <= |s| && (i < |s| ==> OccursAt(s, d, i)) && forall k: nat | k < i :: !OccursAt(s, d, k)
    ensures Find(s, d) == i
  {
    var j := Find(s, d);
  }

  lemma {:induction false} FindIffFirst(s: string, d: string, i: nat)
    requires d != "" && i < |s|
    ensures Find(s, d) == i <==> OccursAt(s, d, i) && forall k: nat | k < i :: !OccursAt(s, d, k)
  {
    var j := Find(s, d);
  }

  /** The pieces between occurrences, found from the left. */
  function Pieces(s: string, d: string): (ps: seq<string>)
    requires d != ""
    ensures |ps| > 0
    decreases |s|
  {
    var i := Find(s, d);
    if i == |s| then [s] else [s[..i]] + Pieces(s[i + |d|..], d)
  }

  function Join(ps: seq<string>, d: string): string {
    if ps == [] then "" else if |ps| == 1 then ps[0] else ps[0] + d + Join(ps[1..], d)
  }

  predicate NoneContains(ps: seq<string>, d: string) {
    forall i | 0 <= i < |ps| :: !Contains(ps[i], d)
  }

  lemma {:induction false} JoinCons(p: string, ps: seq<string>, d: string)
    requires ps != []
    ensures Join([p] + ps, d) == p + d + Join(ps, d)
    ensures NoneContains(ps, d) && !Contains(p, d) ==> NoneContains([p] + ps, d)
  {
    assert ([p] + ps)[1..] == ps;
  }

  lemma {:induction false} BeforeFirst(s: string, d: string)
    requires d != ""
    ensures !Contains(s[..Find(s, d)], d)
  {
    var i := Find(s, d);
    forall k: nat | k <= i ensures !OccursAt(s[..i], d, k) {
      if k + |d| <= i { assert s[..i][k..k + |d|] == s[k..k + |d|]; assert !OccursAt(s, d, k); }
    }
  }

  /** No piece contains the delimiter, and joining the pieces with it gives the text back. */
  lemma {:induction false} PiecesJoin(s: string, d: string)
    requires d != ""
    ensures Join(Pieces(s, d), d) == s && NoneContains(Pieces(s, d), d)
    decreases |s|
  {
    hide Join, NoneContains;
    var i := Find(s, d);
    BeforeFirst(s, d);
    if i == |s| {
      assert s[..i] == s;
      OnePiece(s, d);
    } else {
      var rest := s[i + |d|..];
      PiecesJoin(rest, d);
      JoinCons(s[..i], Pieces(rest, d), d);
      assert s == s[..i] + d + rest;
    }
  }

  lemma {:induction false} OnePiece(s: string, d: string)
    ensures Join([s], d) == s && (!Contains(s, d) ==> NoneContains([s], d))
  {
  }

  /** The delimiter behind a piece is the first one there, overlaps with the piece included. */
  predicate EndsPiece(p: string, d: string)
    requires d != ""
  {
    Find(p + d, d) == |p|
  }

  lemma {:induction false} FirstOccurrence(p: string, d: string, rest: string)
    requires d != ""
    ensures EndsPiece(p, d) <==> Find(p + d + rest, d) == |p|
  {
    var short, long := p + d, p + d + rest;
    assert short[|p|..|p| + |d|] == d && long[|p|..|p| + |d|] == d;
    forall k: nat | k <= |p| ensures OccursAt(short, d, k) <==> OccursAt(long, d, k) {
      assert short[k..k + |d|] == long[k..k + |d|];
    }
    FindIffFirst(short, d, |p|);
    FindIffFirst(long, d, |p|);
  }

  predicate AllEnd(ps: seq<string>, d: string)
    requires d != ""
  {
    forall i | 0 <= i < |ps| - 1 :: EndsPiece(ps[i], d)
  }

  lemma {:induction false} AllEndCons(p: string, more: seq<string>, d: string)
    requires d != "" && more != []
    ensures AllEnd([p] + more, d) <==> EndsPiece(p, d) && AllEnd(more, d)
  {
    hide EndsPiece;
    var ps := [p] + more;
    if EndsPiece(p, d) && AllEnd(more, d) {
      forall i | 0 <= i < |ps| - 1 ensures EndsPiece(ps[i], d) {
        if i > 0 { assert EndsPiece(more[i - 1], d); }
      }
    }
    if AllEnd(ps, d) {
      assert ps[0] == p && EndsPiece(ps[0], d);
      forall i | 0 <= i < |more| - 1 ensures EndsPiece(more[i], d) { assert EndsPiece(ps[i + 1], d); }
    }
  }

  /** Splitting a joined list gives the list back exactly when no delimiter starts early by overlapping a piece and
      the last piece has none. */
  lemma {:induction false} SplitInvertsJoin(ps: seq<string>, d: string)
    requires d != "" && ps != []
    ensures Pieces(Join(ps, d), d) == ps <==> AllEnd(ps, d) && !Contains(ps[|ps| - 1], d)
  {
    hide EndsPiece, Pieces, Join, Find, Contains;
    if |ps| == 1 {
      LonePiece(ps[0], d);
      OnePiece(ps[0], d);
      assert ps == [ps[0]];
    } else {
      var p, more := ps[0], ps[1..];
      assert ps == [p] + more && more[|more| - 1] == ps[|ps| - 1];
      JoinCons(p, more, d);
      SplitInvertsJoin(more, d);
      FirstOccurrence(p, d, Join(more, d));
      FirstCut(p, d, Join(more, d));
      AllEndCons(p, more, d);
      SameTail(p, Pieces(Join(more, d), d), more);
    }
  }

  lemma {:induction false} SameTail(p: string, a: seq<string>, b: seq<string>)
    ensures [p] + a == [p] + b <==> a == b
    ensures ([p] + b)[0] == p
  {
    if [p] + a == [p] + b { assert ([p] + a)[1..] == a && ([p] + b)[1..] == b; }
  }

  lemma {:induction false} LonePiece(s: string, d: string)
    requires d != ""
    ensures Pieces(s, d) == [s] <==> !Contains(s, d)
  {
    var i := Find(s, d);
    if i == |s| {
      assert s[..i] == s;
      BeforeFirst(s, d);
    } else {
      assert OccursAt(s, d, i);
      assert |Pieces(s, d)| > 1;
    }
  }

  /** The first piece of a joined text is right exactly when the first delimiter is where it should be. */
  lemma {:induction false} FirstCut(p: string, d: string, rest: string)
    requires d != ""
    ensures var ps := Pieces(p + d + rest, d);
            |ps| > 1 && (ps[0] == p <==> Find(p + d + rest, d) == |p|)
            && (ps[0] == p ==> ps == [p] + Pieces(rest, d))
  {
    var s := p + d + rest;
    assert s[|p|..|p| + |d|] == d;
    assert OccursAt(s, d, |p|);
    var i := Find(s, d);
    assert i <= |p|;
    assert Pieces(s, d)[0] == s[..i];
    assert s[..|p|] == p && s[|p| + |d|..] == rest;
  }

  /** Where the delimiter overlaps a piece, splitting does not give the list back. */
  lemma {:induction false} OverlapLosesList()
    ensures Pieces(Join(["a", ""], "aa"), "aa") == ["", "a"]
  {
    var s := Join(["a", ""], "aa");
    assert s == "aaa" by { assert ["a", ""][1..] == [""]; }
    assert s[0..2] == "aa" && OccursAt(s, "aa", 0);
    assert s[2..] == "a" && s[..0] == "";
    FindIs("a", "aa", 1);
  }

  // ----- what replacing means -----

  function Replaced(s: string, from: string, to: string): string {
    if from == "" then s else Join(Pieces(s, from), to)
  }

  function Wrap(x: int): nat {
    x % SIZE_MODULUS
  }

  lemma {:induction false} JoinLength(ps: seq<string>, d: string, e: string)
    requires ps != []
    ensures |Join(ps, e)| == |Join(ps, d)| + (|ps| - 1) * (|e| - |d|)
  {
    if |ps| > 1 {
      JoinLength(ps[1..], d, e);
      assert (|ps| - 1) * (|e| - |d|) == (|ps| - 2) * (|e| - |d|) + (|e| - |d|);
    }
  }

  lemma {:induction false} WrapProduct(a: nat, n: nat, x: int)
    ensures Wrap(a + n * Wrap(x)) == Wrap(a + n * x)
  {
    var q := x / SIZE_MODULUS;
    assert x == q * SIZE_MODULUS + Wrap(x);
    assert n * x == n * q * SIZE_MODULUS + n * Wrap(x);
    Multiples(a + n * Wrap(x), n * q);
  }

  lemma {:induction false} Multiples(x: int, k: int)
    ensures Wrap(x + k * SIZE_MODULUS) == Wrap(x)
  {
  }

  /** The counting pass sizes the result right even when the new text is shorter and the unsigned difference wraps. */
  lemma {:induction false} CountedSize(s: string, from: string, to: string)
    requires from != "" && |Replaced(s, from, to)| < SIZE_MODULUS
    ensures Wrap(|s| + (|Pieces(s, from)| - 1) * Wrap(|to| - |from|)) == |Replaced(s, from, to)|
  {
    PiecesJoin(s, from);
    JoinLength(Pieces(s, from), from, to);
    WrapProduct(|s|, |Pieces(s, from)| - 1, |to| - |from|);
  }

  // ----- the loops -----

  /** strstr from `p` on; the length when there is none. */
  method StrStr(s: string, p: nat, d: string) returns (i: nat)
    requires d != "" && p <= |s|
    ensures i == p + Find(s[p..], d)
  {
    hide Find;
    ghost var t := s[p..];
    i := p;
    while i < |s|
      invariant p <= i <= |s| && forall k: nat | k < i - p :: !OccursAt(t, d, k)
    {
      if i + |d| <= |s| {
        assert t[i - p..i - p + |d|] == s[i..i + |d|];
        if s[i..i + |d|] == d {
          FindIs(t, d, i - p);
          return;
        }
      }
      i := i + 1;
    }
    FindIs(t, d, i - p);
  }

  lemma {:induction false} NextPiece(s: string, p: nat, d: string, i: nat)
    requires d != "" && p <= |s| && i == p + Find(s[p..], d)
    ensures p <= i <= |s|
    ensures i == |s| ==> Pieces(s[p..], d) == [s[p..]]
    ensures i < |s| ==> i + |d| <= |s| && Pieces(s[p..], d) == [s[p..i]] + Pieces(s[i + |d|..], d)
  {
    hide Find;
    var t := s[p..];
    if i < |s| {
      assert OccursAt(t, d, i - p);
      assert t[..i - p] == s[p..i] && t[i - p + |d|..] == s[i + |d|..];
    }
  }

  /** orbit_string_split. */
  method Split(s: string, delim: string) returns (list: seq<string>)
    ensures list == if delim == "" then [s] else Pieces(s, delim)
  {
    hide Pieces, Find;
    if delim == "" { return [s]; }
    list := [];
    var p := 0;
    assert s[0..] == s;
    var d := StrStr(s, p, delim);
    NextPiece(s, p, delim, d);
    while d < |s|
      invariant p <= |s| && d == p + Find(s[p..], delim) && d <= |s|
      invariant list + Pieces(s[p..], delim) == Pieces(s, delim)
      decreases |s| - p
    {
      NextPiece(s, p, delim, d);
      assert list + ([s[p..d]] + Pieces(s[d + |delim|..], delim)) == list + [s[p..d]] + Pieces(s[d + |delim|..], delim);
      list := list + [s[p..d]];
      p := d + |delim|;
      d := StrStr(s, p, delim);
      NextPiece(s, p, delim, d);
    }
    NextPiece(s, p, delim, d);
    list := list + [s[p..]];
  }

  /** The counting pass. */
  method CountPieces(s: string, from: string) returns (count: nat)
    requires from != ""
    ensures count == |Pieces(s, from)| - 1
  {
    hide Pieces, Find;
    count := 0;
    assert s[0..] == s;
    var p := StrStr(s, 0, from);
    NextPiece(s, 0, from, p);
    ghost var start: nat := 0;
    while p < |s|
      invariant start <= p <= |s| && p == start + Find(s[start..], from)
      invariant count + |Pieces(s[start..], from)| == |Pieces(s, from)|
      decreases |s| - p
    {
      NextPiece(s, start, from, p);
      count := count + 1;
      start := p + |from|;
      p := StrStr(s, p + |from|, from);
      NextPiece(s, start, from, p);
    }
    NextPiece(s, start, from, p);
  }

  /** Writing one piece and the new text behind it. */
  lemma {:induction false} WriteStep(done: string, s: string, r: nat, p: nat, from: string, to: string)
    requires from != "" && r <= |s| && p == r + Find(s[r..], from) && p < |s|
    ensures p + |from| <= |s|
    ensures done + Join(Pieces(s[r..], from), to) ==
            (done + s[r..p] + to) + Join(Pieces(s[p + |from|..], from), to)
  {
    hide Find, Pieces, Join;
    NextPiece(s, r, from, p);
    var rest := Pieces(s[p + |from|..], from);
    JoinCons(s[r..p], rest, to);
    assert done + (s[r..p] + to + Join(rest, to)) == (done + s[r..p] + to) + Join(rest, to);
  }

  /** The writing pass. */
  method WriteReplaced(buf: array<char>, s: string, from: string, to: string)
    requires from != "" && buf.Length == |Join(Pieces(s, from), to)| + 1
    modifies buf
    ensures buf[..] == Join(Pieces(s, from), to) + ['\0']
  {
    hide Pieces, Find, Join;
    ghost var answer, done := Join(Pieces(s, from), to), "";
    var r: nat, w: nat := 0, 0;
    assert s[0..] == s && done + answer == answer;
    var p := StrStr(s, r, from);
    while p < |s|
      invariant r <= p <= |s| && p == r + Find(s[r..], from)
      invariant done + Join(Pieces(s[r..], from), to) == answer
      invariant w == |done| && w < buf.Length && buf[..w] == done
      decreases |s| - r
    {
      WriteStep(done, s, r, p, from, to);
      Store(buf, w, s[r..p]);
      w := w + (p - r);
      Store(buf, w, to);
      w := w + |to|;
      done := done + s[r..p] + to;
      r := p + |from|;
      p := StrStr(s, r, from);
    }
    NextPiece(s, r, from, p);
    OnePiece(s[r..], to);
    Store(buf, w, s[r..]);
    w := w + |s| - r;
    buf[w] := '\0';
    assert buf[..] == buf[..w] + ['\0'];
  }

  /** orbit_string_replace: `Same` when the text itself is returned, else a buffer filled to its final NUL. */
  method Replace(s: string, from: string, to: string) returns (out: Result)
    requires |Replaced(s, from, to)| < SIZE_MODULUS
    ensures out.Same? <==> from == "" || |Pieces(s, from)| == 1
    ensures out.Same? ==> Replaced(s, from, to) == s
    ensures out.Fresh? ==> fresh(out.buf) && out.buf[..] == Replaced(s, from, to) + ['\0']
  {
    hide Pieces, Join, Wrap;
    if from == "" { return Same; }
    var count := CountPieces(s, from);
    if count == 0 {
      SinglePiece(s, from, to);
      return Same;
    }
    var total := Wrap(|s| + count * Wrap(|to| - |from|));
    CountedSize(s, from, to);
    var buf := new char[total + 1];
    WriteReplaced(buf, s, from, to);
    out := Fresh(buf);
  }

  datatype Result = Same | Fresh(buf: array<char>)

  lemma {:induction false} SinglePiece(s: string, from: string, to: string)
    requires from != "" && |Pieces(s, from)| == 1
    ensures Replaced(s, from, to) == s
  {
    PiecesJoin(s, from);
    var ps := Pieces(s, from);
    OnePiece(ps[0], from);
    OnePiece(ps[0], to);
    assert ps == [ps[0]];
  }

  // ----- the character buffer -----

  const CBUF_INIT_CAP := 65536

  class CBuf {
    var data: array<char>
    var len: nat
    /** Bytes of the blocks that growth left behind. */
    ghost var abandoned: nat

    predicate Valid()
      reads this
    {
      len <= data.Length && data.Length > 0
    }

    /** There is room for the final NUL, and the blocks left behind are smaller than the one in use. */
    ghost predicate Roomy()
      reads this
    {
      len < data.Length && abandoned < data.Length
    }

    function Contents(): string
      requires Valid()
      reads this, data
    {
      data[..len]
    }

    /** orbit_cbuf_create. */
    constructor (cap: nat)
      ensures Valid() && Roomy() && Contents() == "" && fresh(data)
      ensures data.Length == if cap == 0 then CBUF_INIT_CAP else cap
    {
      data := new char[if cap == 0 then CBUF_INIT_CAP else cap];
      len := 0;
      abandoned := 0;
    }

    /** Moves the contents into a block of `ncap` bytes. */
    method MoveTo(ncap: nat)
      requires Valid() && ncap >= len && ncap > 0
      modifies this
      ensures fresh(data) && data.Length == ncap && len == old(len) && data[..len] == old(data[..len])
      ensures abandoned == old(abandoned) + old(data.Length)
    {
      var ndata := new char[ncap];
      var i := 0;
      while i < len
        invariant i <= len <= ncap && ndata[..i] == data[..i]
        modifies ndata
      {
        ndata[i] := data[i];
        i := i + 1;
      }
      abandoned := abandoned + data.Length;
      data := ndata;
    }

    /** orbit_cbuf_append. */
    method Append(s: string)
      requires Valid()
      modifies this, data
      ensures Valid() && Contents() == old(Contents()) + s
      ensures old(Roomy()) ==> Roomy()
      ensures data == old(data) || (fresh(data) && data.Length >= 2 * old(data.Length))
    {
      if s == "" { return; }
      ghost var was := Contents();
      var need := len + |s|;
      if need >= data.Length {
        var ncap := data.Length;
        while ncap <= need
          invariant ncap >= data.Length && (ncap > data.Length ==> ncap >= 2 * data.Length)
          decreases need - ncap
        {
          ncap := ncap * 2;
        }
        MoveTo(ncap);
      }
      Store(data, len, s);
      len := need;
    }

    /** orbit_cbuf_build: the contents with a final NUL. A buffer grown by Append is never copied here. */
    method Build()
      requires Valid()
      modifies this, data
      ensures Valid() && Contents() == old(Contents()) && len < data.Length && data[len] == '\0'
      ensures old(Roomy()) ==> data == old(data) && Roomy()
    {
      if len + 1 > data.Length {
        MoveTo(len + 1);
      }
      data[len] := '\0';
    }
  }
}
