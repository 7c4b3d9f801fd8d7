/** runtime/http.c: the pointer walks of the request parser, and the terminators it writes.

    The methods walk over the received bytes as the C code does: memchr for line ends and spaces, a scan
    for the empty line, a count of header lines, one pass over the head for the two headers that matter,
    and the digit loop of Content-Length. Each is proved to compute the function of module `HttpSpec`
    that says what it looks for.

    `ParseRequest` works on the receive buffer itself: it decides, and when it accepts it ends the method,
    the path and the query with a NUL in place. */
module HttpParser {
  import opened Basics
  import opened Digits
  import opened Texts
  import opened HttpSpec
  import opened HttpProofs

  /** memchr: the first `c` in raw[from..to), or `to`. */
  method MemChr(raw: string, from: nat, to: nat, c: char) returns (i: nat)
    requires from <= to <= |raw|
    ensures i == from + IndexOf(raw[from..to], c)
  {
    hide IndexOf;
    ghost var s := raw[from..to];
    i := from;
    while i < to && raw[i] != c
      invariant from <= i <= to && c !in s[..i - from]
    {
      assert s[..i - from + 1] == s[..i - from] + [raw[i]];
      i := i + 1;
    }
    IndexOfIs(s, c, i - from);
  }

  /** orbit_http_find_head_end. */
  method FindHeadEnd(raw: string) returns (i: nat)
    ensures i == HeadEnd(raw)
  {
    hide HeadEnd, IndexOf;
    var p := 0;
    NoHeadEnd(raw);
    if |raw| < 4 { return |raw|; }
    while true
      invariant p <= |raw| && forall k: nat | k < p :: !HeadEndAt(raw, k)
      decreases |raw| - p
    {
      ghost var from := p;
      p := MemChr(raw, p, |raw|, '\r');
      ReturnsBetween(raw, from, p);
      if |raw| - p < 4 { return |raw|; }
      if raw[p] == '\r' && raw[p + 1] == '\n' && raw[p + 2] == '\r' && raw[p + 3] == '\n' {
        HeadEndIs(raw, p);
        return p;
      }
      p := p + 1;
    }
  }

  lemma {:induction false} NoHeadEnd(raw: string)
    ensures (forall k: nat | k + 4 <= |raw| :: !HeadEndAt(raw, k)) ==> HeadEnd(raw) == |raw|
    ensures HeadEnd(raw) < |raw| ==> HeadEnd(raw) + 4 <= |raw|
  {
    var i := HeadEnd(raw);
    assert i < |raw| ==> HeadEndAt(raw, i);
  }

  /** No head ends between two carriage returns. */
  lemma {:induction false} ReturnsBetween(raw: string, from: nat, p: nat)
    requires from <= |raw| && p == from + IndexOf(raw[from..], '\r')
    ensures forall k: nat | from <= k < p :: !HeadEndAt(raw, k)
  {
    assert raw[from..|raw|] == raw[from..];
    PrefixHas(raw[from..], p - from);
    forall k: nat | from <= k < p ensures !HeadEndAt(raw, k) {
      assert raw[k] == raw[from..][k - from] && raw[from..][k - from] in raw[from..][..p - from];
    }
  }

  /** The request line's newline, looked for no further than the limit allows, and whether the line is refused. */
  method CheckLine(raw: string, max: nat) returns (nl: nat, refused: bool)
    ensures refused == LineRefused(raw, max)
    ensures !refused ==> nl == IndexOf(raw, '\n')
  {
    hide IndexOf;
    var window := if |raw| < max + 2 then |raw| else max + 2;
    nl := MemChr(raw, 0, window, '\n');
    WindowSearch(raw, window);
    if nl < window {
      var lineLen := nl;
      if lineLen > 0 && raw[lineLen - 1] == '\r' { lineLen := lineLen - 1; }
      refused := lineLen > max;
    } else {
      refused := |raw| > max + 1;
    }
  }

  /** Searching a prefix finds the newline if it lies there; otherwise it lies behind. */
  lemma {:induction false} WindowSearch(raw: string, window: nat)
    requires window <= |raw|
    ensures var i := IndexOf(raw[0..window], '\n');
            && ('\n' in raw <==> IndexOf(raw, '\n') < |raw|)
            && (if i < window then IndexOf(raw, '\n') == i else IndexOf(raw, '\n') >= window)
  {
    var i, k := IndexOf(raw[0..window], '\n'), IndexOf(raw, '\n');
    assert raw[0..window][..i] == raw[..i];
    if i < window {
      IndexOfIs(raw, '\n', i);
    } else {
      assert raw[0..window][..window] == raw[..window];
      PrefixHas(raw, window);
    }
    assert raw[..|raw|] == raw;
  }

  /** The lines of a header block. */
  method CountLines(raw: string, from: nat, to: nat) returns (lines: nat)
    requires from <= to <= |raw|
    ensures lines == |Split(raw[from..to], '\n')|
  {
    hide Split, IndexOf;
    ghost var all := |Split(raw[from..to], '\n')|;
    lines := 1;
    var q := MemChr(raw, from, to, '\n');
    SplitOnce(raw, from, to, q);
    while q < to
      invariant from <= q <= to
      invariant q < to ==> lines + |Split(raw[q + 1..to], '\n')| == all
      invariant q == to ==> lines == all
    {
      lines := lines + 1;
      var next := MemChr(raw, q + 1, to, '\n');
      SplitOnce(raw, q + 1, to, next);
      q := next;
    }
  }

  lemma {:induction false} SplitOnce(raw: string, from: nat, to: nat, q: nat)
    requires from <= to <= |raw| && q == from + IndexOf(raw[from..to], '\n')
    ensures from <= q <= to
    ensures q < to ==> Split(raw[from..to], '\n') == [raw[from..q]] + Split(raw[q + 1..to], '\n')
    ensures q == to ==> Split(raw[from..to], '\n') == [raw[from..to]]
  {
    hide IndexOf;
    var s := raw[from..to];
    var i := IndexOf(s, '\n');
    if i < |s| {
      assert s[..i] == raw[from..q];
      assert s[i + 1..] == raw[q + 1..to];
    }
  }

  // ----- header values -----

  /** The manual integer parse of a Content-Length value. */
  method ReadLength(s: string) returns (v: int, bad: bool)
    ensures (v, bad) == LengthValue(s)
  {
    hide DecValue, AllDigits, DigitRun, SkipLengthSpace;
    var p := SkipLength(s);
    var t := s[p..];
    var neg, signed := false, false;
    if p < |s| && (s[p] == '-' || s[p] == '+') {
      neg, signed := s[p] == '-', true;
      p := p + 1;
    }
    assert signed ==> t[1..] == s[p..];
    var acc, digits := ReadDigits(s[p..]);
    v := if digits == 0 then 0 else if neg then -(acc as int) else acc;
    bad := digits == 0 || neg;
    NoDigits(s[p..]);
  }

  lemma {:induction false} NoDigits(s: string)
    ensures DigitRun(s) == 0 ==> DecValue(s[..DigitRun(s)]) == 0
  {
  }

  method SkipLength(s: string) returns (p: nat)
    ensures p <= |s| && s[p..] == SkipLengthSpace(s)
  {
    p := 0;
    assert s[0..] == s;
    while p < |s| && LengthSpace(s[p])
      invariant p <= |s| && SkipLengthSpace(s[p..]) == SkipLengthSpace(s)
    {
      assert s[p..][1..] == s[p + 1..];
      p := p + 1;
    }
  }

  /** The digit loop: accumulates up to 2^63 - 1 and stays there. `digits` is positive when there is a digit. */
  method ReadDigits(s: string) returns (acc: nat, digits: nat)
    ensures acc == Saturated(DecValue(s[..DigitRun(s)]))
    ensures digits == 0 <==> DigitRun(s) == 0
  {
    hide DecValue, DigitRun;
    var p, n := 0, 0;
    acc, digits := 0, 0;
    EmptyDigits(s);
    while p < |s| && IsDigit(s[p])
      invariant p <= |s| && AllDigits(s[..p]) && acc == DecValue(s[..p]) <= LENGTH_MAX
      invariant digits == p
      decreases |s| - p
    {
      var d := DigitValue(s[p]);
      assert s[..p + 1] == s[..p] + [s[p]];
      DecSnoc(s[..p], s[p]);
      if acc > (LENGTH_MAX - d) / 10 {
        assert acc * 10 + d > LENGTH_MAX;
        acc := LENGTH_MAX;
        var q := p + 1;
        while q < |s| && IsDigit(s[q])
          invariant p < q <= |s| && AllDigits(s[..q])
        {
          assert s[..q + 1] == s[..q] + [s[q]];
          q := q + 1;
        }
        DigitRunIs(s, q);
        assert s[..q][..p + 1] == s[..p + 1];
        DecGrows(s[..q], p + 1);
        return acc, digits + 1;
      }
      acc := acc * 10 + d;
      p := p + 1;
      digits := digits + 1;
    }
    DigitRunIs(s, p);
  }

  lemma {:induction false} EmptyDigits(s: string)
    ensures AllDigits(s[..0]) && DecValue(s[..0]) == 0
  {
  }

  /** strncasecmp against a lower-case word. */
  method HasPrefix(s: string, word: string) returns (r: bool)
    ensures r == StartsWith(s, word)
  {
    if |s| < |word| { return false; }
    var i := 0;
    while i < |word|
      invariant i <= |word| && forall k | 0 <= k < i :: Lower(s[k]) == word[k]
    {
      if Lower(s[i]) != word[i] { return false; }
      i := i + 1;
    }
    r := true;
  }

  /** Whether an encoding value says chunked. */
  method SaysChunked(v: string) returns (r: bool)
    ensures r == StartsWith(SkipBlanks(v), "chunked")
  {
    var p := 0;
    assert v[0..] == v;
    while p < |v| && (v[p] == ' ' || v[p] == '\t')
      invariant p <= |v| && SkipBlanks(v[p..]) == SkipBlanks(v)
    {
      assert v[p..][1..] == v[p + 1..];
      p := p + 1;
    }
    r := HasPrefix(v[p..], "chunked");
  }

  /** One line of the scan, dispatched on its first byte. */
  method ScanOneLine(st: Scan, line: string) returns (r: Scan)
    ensures r == ScanLine(st, line)
  {
    hide LengthValue, SkipBlanks;
    r := st;
    FirstBytes(line);
    if |line| <= 15 { return; }
    var c0 := line[0];
    if (c0 == 't' || c0 == 'T') && |line| > 19 {
      var encoding := HasPrefix(line, NAME_ENCODING);
      if encoding {
        var chunked := SaysChunked(line[18..]);
        if chunked { r := st.(chunked := true); }
      }
      return;
    }
    if c0 == 'c' || c0 == 'C' {
      var length := HasPrefix(line, NAME_LENGTH);
      if length {
        var v, bad := ReadLength(line[15..]);
        if bad { r := r.(bad := true); }
        if r.length.None? { r := r.(length := Some(v)); }
        else if v != r.length.value { r := r.(bad := true); }
      }
    }
  }

  lemma {:induction false} FirstBytes(line: string)
    ensures StartsWith(line, NAME_ENCODING) ==> |line| >= 18 && (line[0] == 't' || line[0] == 'T')
    ensures StartsWith(line, NAME_LENGTH) ==> |line| >= 15 && (line[0] == 'c' || line[0] == 'C')
  {
    assert NAME_ENCODING[0] == 't' && NAME_LENGTH[0] == 'c';
    assert StartsWith(line, NAME_ENCODING) ==> Lower(line[0]) == 't';
    assert StartsWith(line, NAME_LENGTH) ==> Lower(line[0]) == 'c';
  }

  /** The single pass over the head. */
  method ScanHeaders(raw: string, bodyStart: nat) returns (st: Scan)
    requires HeadEnd(raw) < |raw| && bodyStart == HeadEnd(raw) + 4
    ensures st == ScanHead(raw)
  {
    hide ScanLine, Lines, ScanLines, HeadEnd, IndexOf, Split;
    st := Scan(None, false, false);
    ghost var answer := ScanHead(raw);
    var p := 0;
    assert raw[0..bodyStart] == Head(raw);
    EndsInNewline(raw);
    while p < bodyStart
      invariant p <= bodyStart <= |raw| && raw[bodyStart - 1] == '\n'
      invariant answer == ScanLines(st, Lines(raw[p..bodyStart]))
      decreases bodyStart - p
    {
      var e := MemChr(raw, p, bodyStart, '\n');
      NextLine(raw, p, bodyStart, e, st);
      if e == bodyStart { break; }
      st := ScanOneLine(st, raw[p..e]);
      p := e + 1;
    }
    NoLines(raw, p, bodyStart, st);
  }

  lemma {:induction false} EndsInNewline(raw: string)
    requires HeadEnd(raw) < |raw|
    ensures HeadEnd(raw) + 4 <= |raw| && raw[HeadEnd(raw) + 3] == '\n'
  {
    assert HeadEndAt(raw, HeadEnd(raw));
  }

  lemma {:induction false} NextLine(raw: string, p: nat, to: nat, e: nat, st: Scan)
    requires p < to <= |raw| && raw[to - 1] == '\n' && e == p + IndexOf(raw[p..to], '\n')
    ensures p <= e < to
    ensures ScanLines(st, Lines(raw[p..to])) == ScanLines(ScanLine(st, raw[p..e]), Lines(raw[e + 1..to]))
  {
    hide ScanLine, IndexOf, Split;
    assert raw[p..to][to - 1 - p] == '\n';
    IndexOfNoLater(raw[p..to], '\n', to - 1 - p);
    SplitOnce(raw, p, to, e);
    var ps, more := Split(raw[p..to], '\n'), Split(raw[e + 1..to], '\n');
    assert ps == [raw[p..e]] + more;
    assert ps[..|ps| - 1] == [raw[p..e]] + more[..|more| - 1];
    assert ps[..|ps| - 1][1..] == more[..|more| - 1];
  }

  lemma {:induction false} NoLines(raw: string, p: nat, to: nat, st: Scan)
    requires p == to <= |raw|
    ensures ScanLines(st, Lines(raw[p..to])) == st
  {
    assert raw[p..to] == "" && Split("", '\n') == [""];
    assert [""][..0] == [];
  }

  // ----- the request -----

  /** The offsets the request line is cut at. */
  method FindCuts(raw: string) returns (space: nat, mark: nat, end: nat)
    requires ' ' in raw
    ensures space == FirstSpace(raw) && mark == QueryMark(raw) && end == PathEnd(raw)
  {
    hide IndexOf;
    assert raw[0..|raw|] == raw;
    space := MemChr(raw, 0, |raw|, ' ');
    SpaceFound(raw);
    var from := space + 1;
    assert raw[from..|raw|] == raw[from..];
    end := MemChr(raw, from, |raw|, ' ');
    if end == |raw| { end := from; }
    mark := MemChr(raw, from, end, '?');
  }

  lemma {:induction false} SpaceFound(raw: string)
    requires ' ' in raw
    ensures IndexOf(raw, ' ') < |raw|
  {
    assert raw[..|raw|] == raw;
  }

  /** The limits on the header block. */
  method CheckHeaders(raw: string, nl: nat, headersEnd: nat, lim: Limits) returns (refused: bool)
    requires nl == IndexOf(raw, '\n') && headersEnd == HeadEnd(raw)
    ensures refused == (|HeaderBlock(raw)| > lim.headerBytes ||
                        (headersEnd < |raw| && HeaderLines(raw) > lim.headers))
  {
    hide HeadEnd, IndexOf, Split;
    var begin := if nl < |raw| then nl + 1 else |raw|;
    var bytes := if headersEnd > begin then headersEnd - begin else 0;
    assert bytes == |HeaderBlock(raw)|;
    if bytes > lim.headerBytes { return true; }
    refused := false;
    if headersEnd < |raw| && bytes > 0 {
      var lines := CountLines(raw, begin, headersEnd);
      refused := lines > lim.headers;
    }
  }

  /** The outcome of a parse; the bytes are still as they came. */
  method Decide(raw: string, lim: Limits) returns (r: Outcome)
    ensures r == Parse(raw, lim)
  {
    hide HeadEnd, IndexOf, LineRefused, HeaderBlock, HeaderLines, ScanHead, FirstSpace, QueryMark, PathEnd, CString, Nul;
    var nl, tooLong := CheckLine(raw, lim.line);
    if tooLong { return Refused(LineTooLong); }
    var headersEnd := FindHeadEnd(raw);
    var tooLarge := CheckHeaders(raw, nl, headersEnd, lim);
    if tooLarge { return Refused(HeadersTooLarge); }
    if headersEnd == |raw| { return Incomplete; }
    var bodyStart := headersEnd + 4;
    var st := ScanHeaders(raw, bodyStart);
    if st.chunked { return Refused(Chunked); }
    if st.bad { return Refused(BadLength); }
    var contentLength := if st.length.Some? && st.length.value > 0 then st.length.value else 0;
    if contentLength > lim.body { return Refused(BodyTooLarge); }
    if |raw| < bodyStart + contentLength { return Incomplete; }
    if ' ' !in raw { return Incomplete; }
    r := Accepted(RequestOf(raw, contentLength), bodyStart + contentLength, Marked(raw));
  }

  /** No NUL goes behind the received bytes. The parser writes one there when their last byte is their only space,
      so a buffer that allows this has a byte more than it received. */
  predicate PathEndsInside(raw: string) {
    ' ' in raw ==> PathEnd(raw) < |raw|
  }

  /** orbit_http_parse_request_ex, on the `len` bytes received at `off`. The method, the path and the query stay in
      the buffer, each ended by a NUL; everything outside those bytes is left alone. */
  method ParseRequest(buf: array<char>, off: nat, len: nat, lim: Limits) returns (r: Outcome)
    requires off + len <= buf.Length
    requires off + len == buf.Length ==> PathEndsInside(buf[off..off + len])
    modifies buf
    ensures r == Parse(old(buf[off..off + len]), lim)
    ensures r.Accepted? ==> buf[off..off + len] == r.after
    ensures !r.Accepted? ==> buf[..] == old(buf[..])
    ensures buf[..off] == old(buf[..off])
    ensures forall i | off + len <= i < buf.Length :: buf[i] == old(buf[i]) || (i == off + len && buf[i] == '\0')
  {
    hide Parse, RequestOf, IndexOf;
    var raw := buf[off..off + len];
    r := Decide(raw, lim);
    if !r.Accepted? { return; }
    AcceptedShape(raw, lim);
    var space, mark, end := FindCuts(raw);
    buf[off + space] := '\0';
    if mark < end { buf[off + mark] := '\0'; }
    buf[off + end] := '\0';
    assert buf[off..off + len] == Marked(raw);
  }
}
