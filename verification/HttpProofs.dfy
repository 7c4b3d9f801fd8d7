/** runtime/http.c: framing does not depend on what follows a request, so pipelined requests come out one by one. */
module HttpProofs {
  import opened Texts
  import opened HttpSpec

  lemma {:induction false} HeadEndIs(raw: string, i: nat)
    requires HeadEndAt(raw, i) && forall k: nat | k < i :: !HeadEndAt(raw, k)
    ensures HeadEnd(raw) == i
  {
    var j := HeadEnd(raw);
  }

  lemma {:induction false} HeadEndJoined(a: string, b: string)
    requires HeadEnd(a) < |a|
    ensures HeadEnd(a + b) == HeadEnd(a) && '\n' in a
  {
    var i := HeadEnd(a);
    assert forall k: nat | k < i :: HeadEndAt(a + b, k) ==> HeadEndAt(a, k);
    HeadEndIs(a + b, i);
    assert a[i + 1] == '\n';
  }

  /** There is a second space, be it on the request line or behind it. */
  predicate TwoSpaces(raw: string) {
    ' ' in raw && PathEnd(raw) < |raw| && raw[PathEnd(raw)] == ' '
  }

  lemma {:induction false} HeaderJoined(a: string, b: string)
    requires HeadEnd(a) < |a|
    ensures HeadEnd(a + b) == HeadEnd(a)
    ensures HeaderBlock(a + b) == HeaderBlock(a) && HeaderLines(a + b) == HeaderLines(a)
    ensures Head(a + b) == Head(a) && ScanHead(a + b) == ScanHead(a)
    ensures LineLength(a + b) == LineLength(a)
  {
    hide ScanLines, Lines, Split;
    HeadEndJoined(a, b);
    IndexOfJoined(a, b, '\n');
    assert HeaderStart(a + b) == HeaderStart(a);
    if HeaderStart(a) < HeadEnd(a) {
      assert (a + b)[HeaderStart(a)..HeadEnd(a)] == a[HeaderStart(a)..HeadEnd(a)];
    }
    assert (a + b)[..HeadEnd(a) + 4] == a[..HeadEnd(a) + 4];
  }

  lemma {:induction false} SliceJoined(a: string, b: string, i: nat, j: nat)
    requires i <= j <= |a|
    ensures (a + b)[i..j] == a[i..j]
  {
  }

  lemma {:induction false} SpacesJoined(a: string, b: string)
    requires TwoSpaces(a)
    ensures ' ' in a + b && FirstSpace(a + b) == FirstSpace(a) && PathEnd(a + b) == PathEnd(a)
  {
    IndexOfJoined(a, b, ' ');
    assert (a + b)[FirstSpace(a)] == ' ';
    var from := FirstSpace(a) + 1;
    assert (a + b)[from..] == a[from..] + b;
    assert a[from..][PathEnd(a) - from] == ' ';
    IndexOfJoined(a[from..], b, ' ');
  }

  lemma {:induction false} LineJoined(a: string, b: string)
    requires HeadEnd(a) < |a| && TwoSpaces(a)
    ensures ' ' in a + b && FirstSpace(a + b) == FirstSpace(a)
    ensures PathEnd(a + b) == PathEnd(a) && QueryMark(a + b) == QueryMark(a)
    ensures TwoSpaces(a + b)
  {
    hide PathEnd;
    HeadEndJoined(a, b);
    IndexOfJoined(a, b, '\n');
    SpacesJoined(a, b);
    SliceJoined(a, b, FirstSpace(a) + 1, PathEnd(a));
  }

  lemma {:induction false} MarkedJoined(a: string, b: string)
    requires HeadEnd(a) < |a| && TwoSpaces(a)
    ensures ' ' in a + b && Marked(a + b) == Marked(a) + b
  {
    hide PathEnd, QueryMark, FirstSpace;
    LineJoined(a, b);
    NulJoined(a, b, FirstSpace(a));
    NulJoined(Nul(a, FirstSpace(a)), b, QueryMark(a));
    NulJoined(Nul(Nul(a, FirstSpace(a)), QueryMark(a)), b, PathEnd(a));
  }

  lemma {:induction false} NulJoined(a: string, b: string, i: nat)
    requires i < |a|
    ensures Nul(a + b, i) == Nul(a, i) + b && |Nul(a, i)| == |a|
  {
  }

  /** Accepting `a` does not depend on the bytes `b` after it. */
  predicate SameBefore(a: string, b: string, lim: Limits)
    requires Parse(a, lim).Accepted?
  {
    var p, q := Parse(a, lim), Parse(a + b, lim);
    q.Accepted? && q.request == p.request && q.consumed == p.consumed && q.after == p.after + b
  }

  lemma {:induction false} SuffixIgnored(a: string, b: string, lim: Limits)
    requires Parse(a, lim).Accepted? && TwoSpaces(a)
    ensures SameBefore(a, b, lim)
  {
    hide ScanHead, HeaderBlock, HeaderLines, Marked, QueryMark, PathEnd, TwoSpaces, LineLength, Head;
    HeadEndJoined(a, b);
    HeaderJoined(a, b);
    MarkedJoined(a, b);
    var n := BodyLength(ScanHead(a));
    RequestJoined(a, b, n);
  }

  /** Bytes that are accepted are judged alone, whatever follows, if and only if there is a second space in them: without
      one the code takes the path to end at the first space that arrives later, and overwrites it. */
  lemma {:induction false} SuffixIgnoredIff(a: string, lim: Limits)
    requires Parse(a, lim).Accepted?
    ensures (forall b: string :: SameBefore(a, b, lim)) <==> TwoSpaces(a)
  {
    hide Parse, TwoSpaces, SameBefore;
    if TwoSpaces(a) {
      forall b: string ensures SameBefore(a, b, lim) { SuffixIgnored(a, b, lim); }
    } else {
      LaterSpaceTaken(a, lim);
    }
  }

  lemma {:induction false} LaterSpaceTaken(a: string, lim: Limits)
    requires Parse(a, lim).Accepted? && !TwoSpaces(a)
    ensures !SameBefore(a, " ", lim)
  {
    hide Parse, Marked, QueryMark, HeadEnd, PathEnd, TwoSpaces, IndexOf;
    var u := a + " ";
    AcceptedShape(a, lim);
    LaterPathEnd(a);
    if Parse(u, lim).Accepted? {
      AcceptedShape(u, lim);
      MarkedAt(u, |a|);
    }
  }

  lemma {:induction false} LaterPathEnd(a: string)
    requires ' ' in a && !TwoSpaces(a)
    ensures var u := a + " "; ' ' in u && PathEnd(u) == |a|
  {
    var u, from := a + " ", FirstSpace(a) + 1;
    IndexOfJoined(a, " ", ' ');
    assert ' ' !in a[from..] by { NoSecondSpace(a); }
    assert u[|a|] == ' ';
    assert u[from..] == a[from..] + " ";
    assert (a[from..] + " ")[..|a| - from] == a[from..];
    IndexOfIs(u[from..], ' ', |a| - from);
  }

  lemma {:induction false} NoSecondSpace(a: string)
    requires ' ' in a && !TwoSpaces(a)
    ensures FirstSpace(a) < |a| && ' ' !in a[FirstSpace(a) + 1..]
  {
    var from := FirstSpace(a) + 1;
    var i := IndexOf(a[from..], ' ');
    assert i == |a[from..]| ==> a[from..][..i] == a[from..];
  }

  lemma {:induction false} MarkedAt(raw: string, i: nat)
    requires ' ' in raw && i < |raw|
    ensures i == PathEnd(raw) || i == FirstSpace(raw) ==> Marked(raw)[i] == '\0'
    ensures PathEnd(raw) < i ==> Marked(raw)[i] == raw[i]
  {
    hide PathEnd, QueryMark, FirstSpace;
  }

  lemma {:induction false} RequestJoined(a: string, b: string, n: nat)
    requires HeadEnd(a) < |a| && TwoSpaces(a) && HeadEnd(a) + 4 + n <= |a|
    ensures ' ' in a + b && HeadEnd(a + b) == HeadEnd(a) && RequestOf(a + b, n) == RequestOf(a, n)
  {
    hide CString, HeaderLines, HeaderBlock, ScanHead, Marked, PathEnd, QueryMark, FirstSpace, Head, LineLength;
    HeadEndJoined(a, b);
    HeaderJoined(a, b);
    LineJoined(a, b);
    var bodyStart := HeadEnd(a) + 4;
    var from, mark, end := FirstSpace(a) + 1, QueryMark(a), PathEnd(a);
    SliceJoined(a, b, 0, FirstSpace(a));
    SliceJoined(a, b, from, mark);
    if mark < end { SliceJoined(a, b, mark + 1, end); }
    SliceJoined(a, b, bodyStart, bodyStart + n);
  }

  /** A refusal on a complete head does not depend on what follows either. */
  lemma {:induction false} RefusalStands(a: string, b: string, lim: Limits)
    requires HeadEnd(a) < |a|
    ensures Parse(a, lim).Refused? || Parse(a + b, lim).Refused? ==> Parse(a + b, lim) == Parse(a, lim)
  {
    hide ScanHead, HeaderBlock, HeaderLines, LineLength, Head, Marked, RequestOf;
    HeadEndJoined(a, b);
    HeaderJoined(a, b);
    assert '\n' in a + b;
  }

  lemma {:induction false} AcceptedShape(raw: string, lim: Limits)
    requires Parse(raw, lim).Accepted?
    ensures var p := Parse(raw, lim);
            HeadEnd(raw) < |raw| && HeadEnd(raw) + 4 <= p.consumed <= |raw| && ' ' in raw && p.after == Marked(raw)
  {
    hide ScanHead, HeaderBlock, HeaderLines, LineLength, RequestOf, Marked;
  }

  /** The parser leaves everything from the end of the request line on as it was if and only if the path it found ends on
      that line. */
  lemma {:induction false} WritesInsideLine(raw: string, lim: Limits)
    requires Parse(raw, lim).Accepted?
    ensures var p := Parse(raw, lim);
            |p.after| == |raw| && IndexOf(raw, '\n') < p.consumed <= |raw| && ' ' in raw
            && ((forall i | IndexOf(raw, '\n') <= i < |raw| :: p.after[i] == raw[i]) <==> PathEnd(raw) < IndexOf(raw, '\n'))
  {
    hide Parse, Marked, QueryMark, HeadEnd;
    AcceptedShape(raw, lim);
    IndexOfNoLater(raw, '\n', HeadEnd(raw) + 1);
    var nl, end := IndexOf(raw, '\n'), PathEnd(raw);
    forall i | 0 <= i < |raw| ensures (i == end || i == FirstSpace(raw) ==> Marked(raw)[i] == '\0')
                                      && (end < i ==> Marked(raw)[i] == raw[i]) { MarkedAt(raw, i); }
    if end >= nl {
      assert end == |raw| || raw[end] == ' ' || end == FirstSpace(raw) + 1;
      if FirstSpace(raw) < nl && raw[end] != ' ' { assert raw[end] == '\n'; }
    }
  }

  // ----- bytes that arrive in pieces -----

  /** No proper prefix of an accepted request is accepted. */
  lemma {:induction false} PrefixNeverAccepted(m: string, k: nat, lim: Limits)
    requires Parse(m, lim).Accepted? && Parse(m, lim).consumed == |m| && k < |m|
    ensures !Parse(m[..k], lim).Accepted?
  {
    hide ScanHead, HeaderBlock, HeaderLines, LineLength, RequestOf, Marked, HeadEnd, Head;
    var a := m[..k];
    if HeadEnd(a) < |a| {
      assert m == a + m[k..];
      HeadEndJoined(a, m[k..]);
      HeaderJoined(a, m[k..]);
    }
  }

  /** As long as a request within the limits is still arriving the parser asks for more if and only if the bytes from the
      request line to three behind the header block are within the limit: those of an unfinished empty line count. */
  lemma {:induction false} PrefixesWait(m: string, lim: Limits)
    requires Parse(m, lim).Accepted? && Parse(m, lim).consumed == |m|
    ensures (forall k: nat | k < |m| :: Parse(m[..k], lim) == Incomplete)
            <==> HeadEnd(m) + 3 <= HeaderStart(m) + lim.headerBytes
  {
    hide Parse, HeadEnd, HeaderStart;
    AcceptedShape(m, lim);
    forall k: nat | k < |m|
      ensures Parse(m[..k], lim) == Incomplete <==> k >= HeadEnd(m) + 4 || HeaderRead(m, k) <= lim.headerBytes
    {
      if k >= HeadEnd(m) + 4 { WholeHead(m, k, lim); } else { PartHead(m, k, lim); }
    }
    Longest(m, HeadEnd(m));
    assert m[..HeadEnd(m) + 3] == m[..HeadEnd(m) + 3];
  }

  /** The header bytes in the first `k` bytes of an unfinished head. */
  function HeaderRead(m: string, k: nat): nat {
    if k > HeaderStart(m) then k - HeaderStart(m) else 0
  }

  lemma {:induction false} Longest(m: string, h: nat)
    ensures forall k: nat | k <= h + 3 :: HeaderRead(m, k) <= HeaderRead(m, h + 3)
  {
  }

  lemma {:induction false} WholeHead(m: string, k: nat, lim: Limits)
    requires Parse(m, lim).Accepted? && Parse(m, lim).consumed == |m| && HeadEnd(m) + 4 <= k < |m|
    ensures Parse(m[..k], lim) == Incomplete
  {
    hide ScanHead, HeaderBlock, HeaderLines, LineLength, RequestOf, Marked, HeadEnd, Head;
    var a := m[..k];
    assert m == a + m[k..];
    HeadInside(m, k);
    HeadEndJoined(a, m[k..]);
    HeaderJoined(a, m[k..]);
  }

  lemma {:induction false} HeadInside(m: string, k: nat)
    requires HeadEnd(m) + 4 <= k <= |m|
    ensures HeadEnd(m[..k]) == HeadEnd(m)
  {
    assert forall i: nat | i < HeadEnd(m) :: HeadEndAt(m[..k], i) ==> HeadEndAt(m, i);
    HeadEndIs(m[..k], HeadEnd(m));
  }

  lemma {:induction false} PartHead(m: string, k: nat, lim: Limits)
    requires Parse(m, lim).Accepted? && k < HeadEnd(m) + 4 <= |m|
    ensures Parse(m[..k], lim) == Incomplete <==> HeaderRead(m, k) <= lim.headerBytes
  {
    hide ScanHead, HeaderLines, RequestOf, Marked, HeadEnd, Head, LineRefused;
    var a := m[..k];
    NoHeadYet(m, k);
    LineStillFits(m, k, lim);
    StartSame(m, k);
  }

  lemma {:induction false} NoHeadYet(m: string, k: nat)
    requires k < HeadEnd(m) + 4 <= |m|
    ensures HeadEnd(m[..k]) == k
  {
    var i := HeadEnd(m[..k]);
    assert i < k ==> HeadEndAt(m, i);
  }

  lemma {:induction false} StartSame(m: string, k: nat)
    requires k <= |m|
    ensures HeaderStart(m[..k]) == if k > HeaderStart(m) then HeaderStart(m) else k
  {
    NewlineIn(m, k);
  }

  lemma {:induction false} NewlineIn(m: string, k: nat)
    requires k <= |m|
    ensures IndexOf(m[..k], '\n') == if IndexOf(m, '\n') < k then IndexOf(m, '\n') else k
  {
    var nl := IndexOf(m, '\n');
    var i := if nl < k then nl else k;
    assert m[..k][..i] == m[..nl][..i];
    IndexOfIs(m[..k], '\n', i);
  }

  lemma {:induction false} LineStillFits(m: string, k: nat, lim: Limits)
    requires !LineRefused(m, lim.line) && k <= |m| && '\n' in m
    ensures !LineRefused(m[..k], lim.line)
  {
    hide IndexOf;
    NewlineIn(m, k);
    NewlineFound(m);
    NewlineFound(m[..k]);
    var nl := IndexOf(m, '\n');
    assert m[..k] == m || |m[..k]| == k;
  }

  lemma {:induction false} NewlineFound(m: string)
    ensures '\n' in m <==> IndexOf(m, '\n') < |m|
  {
    assert m[..|m|] == m;
  }

  // ----- pipelining -----

  /** A whole request: accepted as it stands, to its last byte. */
  predicate Whole(m: string, lim: Limits) {
    Parse(m, lim).Accepted? && Parse(m, lim).consumed == |m| && TwoSpaces(m)
  }

  /** Parsing again and again at the consumed offset, in the buffer as each parse leaves it. */
  function Drain(raw: string, lim: Limits): (r: seq<Request>)
    decreases |raw|
  {
    var p := Parse(raw, lim);
    if p.Accepted? then [p.request] + Drain(p.after[p.consumed..], lim) else []
  }

  function Concat(ms: seq<string>): string {
    if ms == [] then "" else ms[0] + Concat(ms[1..])
  }

  function Requests(ms: seq<string>, lim: Limits): seq<Request>
    requires forall m | m in ms :: Whole(m, lim)
  {
    if ms == [] then [] else assert Whole(ms[0], lim); [Parse(ms[0], lim).request] + Requests(ms[1..], lim)
  }

  /** Any number of whole requests on one connection come out as they would alone, in order, whatever unfinished
      bytes follow them. */
  lemma {:induction false} PipelineInOrder(ms: seq<string>, tail: string, lim: Limits)
    requires forall m | m in ms :: Whole(m, lim)
    ensures Drain(Concat(ms) + tail, lim) == Requests(ms, lim) + Drain(tail, lim)
    decreases |ms|
  {
    hide Parse, TwoSpaces;
    if ms == [] {
      assert Concat(ms) + tail == tail;
    } else {
      var m, rest := ms[0], Concat(ms[1..]) + tail;
      assert Whole(m, lim);
      assert Concat(ms) + tail == m + rest;
      SuffixIgnored(m, rest, lim);
      AcceptedShape(m, lim);
      assert (Parse(m, lim).after + rest)[|m|..] == rest;
      PipelineInOrder(ms[1..], tail, lim);
    }
  }
}
