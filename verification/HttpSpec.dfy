/** runtime/http.c: what parsing the bytes of a connection means.

    `Parse` takes the bytes received so far and refuses them, asks for more, or gives a request, how many
    bytes it took, and the bytes as the parser leaves them in its buffer.

    The limits are judged in the code's order: the request line, the bytes of the header block, also of
    one that has not ended yet, then the number of its lines, and after the scan of the head the body.

    Of the header lines only two matter, Transfer-Encoding and Content-Length, and their scan is a fold
    over the lines of the head, the request line included. */
module HttpSpec {
  import opened Basics
  import opened Digits
  import opened Texts

  /** The ORBIT_HTTP_MAX_* settings. */
  datatype Limits = Limits(line: nat, headerBytes: nat, headers: nat, body: nat)

  datatype Refusal = LineTooLong | HeadersTooLarge | BodyTooLarge | BadLength | Chunked

  /** A null query or header block is None; a null body is the empty text. */
  datatype Request =
    Request(verb: string, path: string, query: Option<string>, headers: Option<string>, body: string)

  /** Refused, more bytes needed, or a request, how many bytes it took and the bytes as they are afterwards. */
  datatype Outcome =
    | Refused(why: Refusal)
    | Incomplete
    | Accepted(request: Request, consumed: nat, after: string)

  // ----- the head -----

  predicate HeadEndAt(raw: string, i: nat) {
    i + 4 <= |raw| && raw[i] == '\r' && raw[i + 1] == '\n' && raw[i + 2] == '\r' && raw[i + 3] == '\n'
  }

  /** Where the first empty line ends the head, or the length. */
  function HeadEnd(raw: string): (i: nat)
    ensures i <= |raw| && (i < |raw| ==> HeadEndAt(raw, i))
    ensures forall k: nat | k < i :: !HeadEndAt(raw, k)
  {
    if raw == "" || HeadEndAt(raw, 0) then 0
    else
      var i := HeadEnd(raw[1..]);
      assert forall k: nat | 0 < k < i + 1 :: HeadEndAt(raw, k) ==> HeadEndAt(raw[1..], k - 1);
      1 + i
  }

  /** The request line without its carriage return. */
  function LineLength(raw: string): nat {
    var nl := IndexOf(raw, '\n');
    if nl > 0 && raw[nl - 1] == '\r' then nl - 1 else nl
  }

  predicate LineRefused(raw: string, max: nat) {
    if '\n' in raw then LineLength(raw) > max else |raw| > max + 1
  }

  function HeaderStart(raw: string): (i: nat)
    ensures i <= |raw|
  {
    if IndexOf(raw, '\n') < |raw| then IndexOf(raw, '\n') + 1 else |raw|
  }

  /** The header lines received so far. */
  function HeaderBlock(raw: string): string {
    if HeaderStart(raw) < HeadEnd(raw) then raw[HeaderStart(raw)..HeadEnd(raw)] else ""
  }

  function HeaderLines(raw: string): nat {
    if HeaderBlock(raw) == "" then 0 else |Split(HeaderBlock(raw), '\n')|
  }

  // ----- header lines -----

  function Lower(c: char): char {
    if 'A' <= c <= 'Z' then c - 'A' + 'a' else c
  }

  /** strncasecmp with a lower-case word. */
  predicate StartsWith(s: string, word: string) {
    |word| <= |s| && forall i | 0 <= i < |word| :: Lower(s[i]) == word[i]
  }

  predicate LengthSpace(c: char) {
    c == ' ' || c == '\t' || c == '\r' || c == 11 as char || c == 12 as char
  }

  function SkipLengthSpace(s: string): string {
    if s != "" && LengthSpace(s[0]) then SkipLengthSpace(s[1..]) else s
  }

  function SkipBlanks(s: string): string {
    if s != "" && (s[0] == ' ' || s[0] == '\t') then SkipBlanks(s[1..]) else s
  }

  const LENGTH_MAX := 0x7FFF_FFFF_FFFF_FFFF

  function Saturated(n: nat): nat {
    if n > LENGTH_MAX then LENGTH_MAX else n
  }

  /** The number a Content-Length value starts with, at most 2^63 - 1, and whether the value is unusable: it has no
      digits or a minus sign. */
  function LengthValue(s: string): (int, bool) {
    var t := SkipLengthSpace(s);
    var signed := t != "" && (t[0] == '-' || t[0] == '+');
    var d := if signed then t[1..] else t;
    var n := Saturated(DecValue(d[..DigitRun(d)]));
    var minus := signed && t[0] == '-';
    (if minus then 0 - n else n, DigitRun(d) == 0 || minus)
  }

  /** What the scan of the head has found: the first length, whether a length is unusable, whether the body is
      chunked. */
  datatype Scan = Scan(length: Option<int>, bad: bool, chunked: bool)

  const NAME_LENGTH := "content-length:"
  const NAME_ENCODING := "transfer-encoding:"

  predicate IsEncoding(line: string) {
    |line| > 19 && StartsWith(line, NAME_ENCODING)
  }

  predicate IsLength(line: string) {
    |line| > 15 && StartsWith(line, NAME_LENGTH)
  }

  /** The effect of one line, newline excluded. */
  function ScanLine(st: Scan, line: string): Scan {
    if IsEncoding(line) then
      if StartsWith(SkipBlanks(line[18..]), "chunked") then st.(chunked := true) else st
    else if IsLength(line) then
      var v := LengthValue(line[15..]);
      Scan(if st.length.None? then Some(v.0) else st.length,
           st.bad || v.1 || (st.length.Some? && st.length.value != v.0), st.chunked)
    else st
  }

  function ScanLines(st: Scan, lines: seq<string>): Scan
    decreases |lines|
  {
    if lines == [] then st else ScanLines(ScanLine(st, lines[0]), lines[1..])
  }

  /** The lines of text that ends with a newline. */
  function Lines(text: string): (lines: seq<string>) {
    var ps := Split(text, '\n');
    ps[..|ps| - 1]
  }

  /** The whole head, its empty line included. */
  function Head(raw: string): string
    requires HeadEnd(raw) < |raw|
  {
    raw[..HeadEnd(raw) + 4]
  }

  function ScanHead(raw: string): Scan
    requires HeadEnd(raw) < |raw|
  {
    ScanLines(Scan(None, false, false), Lines(Head(raw)))
  }

  function BodyLength(s: Scan): nat {
    if s.length.Some? && s.length.value > 0 then s.length.value else 0
  }

  // ----- the request line -----

  /** The first space, and the second one, or the character after the first. */
  function FirstSpace(raw: string): nat {
    IndexOf(raw, ' ')
  }

  function PathEnd(raw: string): (i: nat)
    requires ' ' in raw
    ensures FirstSpace(raw) < i <= |raw|
  {
    var from := FirstSpace(raw) + 1;
    var i := IndexOf(raw[from..], ' ');
    if from + i < |raw| then from + i else from
  }

  /** The question mark in the path, or the path's end. */
  function QueryMark(raw: string): (i: nat)
    requires ' ' in raw
    ensures FirstSpace(raw) < i <= PathEnd(raw)
  {
    var from := FirstSpace(raw) + 1;
    from + IndexOf(raw[from..PathEnd(raw)], '?')
  }

  function Nul(raw: string, i: nat): string {
    if i < |raw| then raw[i := '\0'] else raw
  }

  /** The bytes with the terminators the parser writes. */
  function Marked(raw: string): (r: string)
    requires ' ' in raw
    ensures |r| == |raw|
  {
    Nul(Nul(Nul(raw, FirstSpace(raw)), QueryMark(raw)), PathEnd(raw))
  }

  /** The request once its body is there. */
  function RequestOf(raw: string, bodyLength: nat): Request
    requires ' ' in raw && HeadEnd(raw) < |raw| && HeadEnd(raw) + 4 + bodyLength <= |raw|
  {
    var bodyStart := HeadEnd(raw) + 4;
    var from, mark, end := FirstSpace(raw) + 1, QueryMark(raw), PathEnd(raw);
    Request(CString(raw[..FirstSpace(raw)]),
            CString(raw[from..mark]),
            if mark < end then Some(CString(raw[mark + 1..end])) else None,
            if HeaderBlock(raw) == "" then None else Some(HeaderBlock(raw)),
            raw[bodyStart..bodyStart + bodyLength])
  }

  /** orbit_http_parse_request_ex. */
  function Parse(raw: string, lim: Limits): Outcome {
    if LineRefused(raw, lim.line) then Refused(LineTooLong)
    else if |HeaderBlock(raw)| > lim.headerBytes then Refused(HeadersTooLarge)
    else if HeadEnd(raw) == |raw| then Incomplete
    else if HeaderLines(raw) > lim.headers then Refused(HeadersTooLarge)
    else
      var s := ScanHead(raw);
      var n := BodyLength(s);
      if s.chunked then Refused(Chunked)
      else if s.bad then Refused(BadLength)
      else if n > lim.body then Refused(BodyTooLarge)
      else if |raw| < HeadEnd(raw) + 4 + n || ' ' !in raw then Incomplete
      else Accepted(RequestOf(raw, n), HeadEnd(raw) + 4 + n, Marked(raw))
  }
}
