/** runtime/http.c: decoding the chunked body of a fetched reply.

    `Decode` gives the body or the first fault in the code's order; decoding what a server wrote as chunks
    gives the data back, and the loops are proved to compute it. */
module HttpChunks {
  import opened Basics
  import opened Digits
  import opened Texts

  datatype Problem = BadChunk | ChunkTooBig | ShortChunk

  datatype Decoded = Body(text: string) | Failed(why: Problem)

  const MAX_DIGITS := 8

  predicate LineEnd(c: char) {
    c == '\r' || c == '\n'
  }

  /** The length of the line `t` starts with. */
  function LineLength(t: string): (n: nat)
    ensures n <= |t| && (n < |t| ==> LineEnd(t[n])) && forall i | 0 <= i < n :: !LineEnd(t[i])
  {
    if t == "" || LineEnd(t[0]) then 0 else 1 + LineLength(t[1..])
  }

  /** Text behind a line end; None when there is no line end. */
  function AfterLine(t: string): (r: Option<string>)
    ensures r.Some? ==> |r.value| < |t|
  {
    if |t| >= 2 && t[0] == '\r' && t[1] == '\n' then Some(t[2..])
    else if t != "" && LineEnd(t[0]) then Some(t[1..])
    else None
  }

  /** The digits of a chunk's size: the line up to its extensions. */
  function SizeText(line: string): string {
    line[..IndexOf(line, ';')]
  }

  datatype Size = Size(n: nat) | NoSize(why: Problem)

  /** A chunk's size: at most eight hexadecimal digits; no digits at all are read as 0. The first fault of the line
      is the one reported. */
  function SizeOf(line: string): Size {
    if line != "" && (line[0] == '+' || line[0] == '-') then NoSize(BadChunk)
    else
      var s := SizeText(line);
      if AllHex(s) then if |s| <= MAX_DIGITS then Size(HexValue(s)) else NoSize(ChunkTooBig)
      else if |s| > MAX_DIGITS && AllHex(s[..MAX_DIGITS + 1]) then NoSize(ChunkTooBig)
      else NoSize(BadChunk)
  }

  /** The body from `t` on. */
  function Decode(t: string): Decoded
    decreases |t|
  {
    var n := LineLength(t);
    var size, data := SizeOf(t[..n]), AfterLine(t[n..]);
    if size.NoSize? then Failed(size.why)
    else if data.None? then Failed(BadChunk)
    else if size.n == 0 then Body("")
    else if |data.value| < size.n then Failed(ShortChunk)
    else
      var next := AfterLine(data.value[size.n..]);
      if next.None? then Failed(BadChunk)
      else
        var more := Decode(next.value);
        if more.Body? then Body(data.value[..size.n] + more.text) else more
  }

  // ----- a chunked body is decoded to its chunks -----

  /** The shortest hexadecimal numeral. */
  function HexText(n: nat): (s: string)
    ensures s != ""
  {
    if n < 16 then [HexDigit(n)] else HexText(n / 16) + [HexDigit(n % 16)]
  }

  function Pow16(k: nat): nat {
    if k == 0 then 1 else 16 * Pow16(k - 1)
  }

  lemma {:induction false} Pow16One()
    ensures Pow16(1) == 16
  {
  }

  lemma {:induction false} HexTextValue(n: nat, k: nat)
    requires k > 0 && n < Pow16(k)
    ensures AllHex(HexText(n)) && HexValue(HexText(n)) == n && |HexText(n)| <= k
    decreases k
  {
    if n < 16 {
      HexSnoc("", HexDigit(n));
      assert "" + [HexDigit(n)] == [HexDigit(n)];
    } else {
      Pow16One();
      HexTextValue(n / 16, k - 1);
      HexSnoc(HexText(n / 16), HexDigit(n % 16));
    }
  }

  /** A chunk as a server sends it, with any extensions behind its size. */
  datatype Chunk = Chunk(extensions: string, data: string)

  predicate ChunkOk(c: Chunk) {
    && 0 < |c.data| < Pow16(MAX_DIGITS)
    && (c.extensions != "" ==> c.extensions[0] == ';')
    && forall i | 0 <= i < |c.extensions| :: !LineEnd(c.extensions[i])
  }

  function ChunkText(c: Chunk): string {
    HexText(|c.data|) + c.extensions + "\r\n" + c.data + "\r\n"
  }

  function Encode(chunks: seq<Chunk>): string {
    if chunks == [] then "" else ChunkText(chunks[0]) + Encode(chunks[1..])
  }

  function Whole(chunks: seq<Chunk>): string {
    if chunks == [] then "" else chunks[0].data + Whole(chunks[1..])
  }

  lemma {:induction false} LineLengthIs(t: string, n: nat)
    requires n <= |t| && (n < |t| ==> LineEnd(t[n])) && forall i | 0 <= i < n :: !LineEnd(t[i])
    ensures LineLength(t) == n
  {
    var k := LineLength(t);
  }

  lemma {:induction false} HexIsNoLineEnd(s: string)
    requires AllHex(s)
    ensures ';' !in s && (s != "" ==> s[0] != '+' && s[0] != '-') && forall i | 0 <= i < |s| :: !LineEnd(s[i])
  {
    forall i | 0 <= i < |s| ensures s[i] != ';' && !LineEnd(s[i]) && s[i] != '+' && s[i] != '-' {
      assert Hex(s[i]).Some?;
    }
  }

  lemma {:induction false} SizeLineRead(n: nat, extensions: string, rest: string)
    requires n < Pow16(MAX_DIGITS) && (extensions != "" ==> extensions[0] == ';')
    requires forall i | 0 <= i < |extensions| :: !LineEnd(extensions[i])
    ensures var line := HexText(n) + extensions;
            var t := line + "\r\n" + rest;
            LineLength(t) == |line| && t[..|line|] == line && SizeOf(line) == Size(n) && AfterLine(t[|line|..]) == Some(rest)
  {
    hide HexText, HexValue, AllHex, IndexOf;
    HexTextValue(n, MAX_DIGITS);
    var s := HexText(n);
    HexIsNoLineEnd(s);
    var line := s + extensions;
    assert line[..|s|] == s && (|s| < |line| ==> line[|s|] == ';');
    IndexOfIs(line, ';', |s|);
    assert line[0] == s[0];
    var t := line + "\r\n" + rest;
    assert t[|line|] == '\r' && forall i | 0 <= i < |line| :: t[i] == if i < |s| then s[i] else extensions[i - |s|];
    LineLengthIs(t, |line|);
    assert t[|line|..] == "\r\n" + rest;
    assert ("\r\n" + rest)[2..] == rest;
  }

  /** One chunk in front of a body. */
  lemma {:induction false} OneChunk(c: Chunk, more: string)
    requires ChunkOk(c)
    ensures Decode(ChunkText(c) + more) == Append(c.data, Decode(more))
  {
    hide HexText, SizeOf, LineLength, Pow16, AfterLine;
    var data := c.data + ("\r\n" + more);
    var line := HexText(|c.data|) + c.extensions;
    SizeLineRead(|c.data|, c.extensions, data);
    assert ChunkText(c) + more == line + "\r\n" + data;
    Front(c.data, "\r\n" + more);
    ReturnLine(more);
    assert data[|c.data|..] == "\r\n" + more;
  }

  lemma {:induction false} Front(a: string, b: string)
    ensures (a + b)[..|a|] == a && (a + b)[|a|..] == b
  {
  }

  lemma {:induction false} ReturnLine(more: string)
    ensures AfterLine("\r\n" + more) == Some(more)
  {
    assert ("\r\n" + more)[2..] == more;
  }

  /** Decoding inverts chunking: whatever the cut into chunks, their extensions and the trailer, the decoded body is
      the chunks' data in order. */
  lemma {:induction false} ChunksDecode(chunks: seq<Chunk>, trailer: string)
    requires forall c | c in chunks :: ChunkOk(c)
    ensures Decode(Encode(chunks) + "0\r\n" + trailer) == Body(Whole(chunks))
    decreases |chunks|
  {
    hide ChunkText, ChunkOk, Decode;
    if chunks == [] {
      LastChunk(trailer);
      assert Encode([]) + "0\r\n" + trailer == "0\r\n" + trailer;
    } else {
      var more := Encode(chunks[1..]) + "0\r\n" + trailer;
      assert chunks[0] in chunks && forall c | c in chunks[1..] :: c in chunks;
      OneChunk(chunks[0], more);
      assert Encode(chunks) + "0\r\n" + trailer == ChunkText(chunks[0]) + more;
      ChunksDecode(chunks[1..], trailer);
    }
  }

  lemma {:induction false} LastChunk(trailer: string)
    ensures Decode("0\r\n" + trailer) == Body("")
  {
    hide HexText, SizeOf, LineLength, Pow16, AfterLine;
    ZeroText();
    SizeLineRead(0, "", trailer);
    assert HexText(0) + "" == "0";
    assert "0" + "\r\n" + trailer == "0\r\n" + trailer;
  }

  lemma {:induction false} ZeroText()
    ensures HexText(0) == "0" && 0 < Pow16(MAX_DIGITS)
  {
  }

  // ----- a body cut short -----

  predicate NoEnd(s: string) {
    forall i | 0 <= i < |s| :: !LineEnd(s[i])
  }

  /** Without a line end there is no chunk. */
  lemma {:induction false} NoLine(t: string)
    requires NoEnd(t)
    ensures Decode(t).Failed?
  {
    hide SizeOf, LineEnd;
    LineLengthIs(t, |t|);
    assert t[|t|..] == "";
    assert AfterLine("").None?;
  }

  lemma {:induction false} NoLineCut(line: string, k: nat)
    requires k <= |line| && NoEnd(line)
    ensures Decode(line[..k]).Failed?
  {
    hide Decode, LineEnd;
    forall i | 0 <= i < k ensures !LineEnd(line[..k][i]) { assert line[..k][i] == line[i]; }
    NoLine(line[..k]);
  }

  lemma {:induction false} NoLineIn(n: nat, extensions: string)
    requires n < Pow16(MAX_DIGITS) && forall i | 0 <= i < |extensions| :: !LineEnd(extensions[i])
    ensures NoEnd(HexText(n) + extensions)
  {
    hide HexText, Pow16, LineEnd;
    HexTextValue(n, MAX_DIGITS);
    HexIsNoLineEnd(HexText(n));
  }

  /** A chunk of which some bytes are missing. */
  lemma {:induction false} CutChunk(c: Chunk, k: nat)
    requires ChunkOk(c) && k < |ChunkText(c)|
    ensures Decode(ChunkText(c)[..k]).Failed?
  {
    hide HexText, SizeOf, LineLength, Pow16, Decode, LineEnd, AfterLine, NoEnd;
    var line := HexText(|c.data|) + c.extensions;
    var t := ChunkText(c)[..k];
    NoLineIn(|c.data|, c.extensions);
    assert ChunkText(c) == line + ("\r\n" + c.data + "\r\n");
    if k <= |line| {
      assert t == line[..k];
      NoLineCut(line, k);
    } else if k == |line| + 1 {
      assert t == line + "\r";
      CutSizeLine(c);
    } else {
      var rest := ("\r\n" + c.data + "\r\n")[..k - |line|];
      assert rest == "\r\n" + (c.data + "\r\n")[..k - |line| - 2];
      assert t == line + "\r\n" + (c.data + "\r\n")[..k - |line| - 2];
      CutData(c, k - |line| - 2);
    }
  }

  lemma {:induction false} CutSizeLine(c: Chunk)
    requires ChunkOk(c)
    ensures Decode(HexText(|c.data|) + c.extensions + "\r").Failed?
  {
    hide HexText, SizeOf, Pow16, LineLength;
    var line := HexText(|c.data|) + c.extensions;
    var t := line + "\r";
    NoLineIn(|c.data|, c.extensions);
    SizeLineRead(|c.data|, c.extensions, "");
    LineLengthIs(t, |line|);
    assert t[..|line|] == line && t[|line|..] == "\r";
    assert AfterLine("\r") == Some("");
  }

  lemma {:induction false} CutData(c: Chunk, n: nat)
    requires ChunkOk(c) && n < |c.data| + 2
    ensures Decode(HexText(|c.data|) + c.extensions + "\r\n" + (c.data + "\r\n")[..n]).Failed?
  {
    hide HexText, SizeOf, Pow16, LineLength, AfterLine;
    var data := (c.data + "\r\n")[..n];
    SizeLineRead(|c.data|, c.extensions, data);
    if n >= |c.data| {
      LoneReturn();
      NoLine("");
      assert data[|c.data|..] == if n == |c.data| then "" else "\r";
    }
  }

  lemma {:induction false} LoneReturn()
    ensures AfterLine("").None? && AfterLine("\r") == Some("")
  {
  }

  /** A chunked body that ends before the return behind its last, empty chunk is never taken for a whole one. */
  lemma {:induction false} CutShort(chunks: seq<Chunk>, k: nat)
    requires (forall c | c in chunks :: ChunkOk(c)) && k < |Encode(chunks) + "0\r"|
    ensures Decode((Encode(chunks) + "0\r")[..k]).Failed?
    decreases |chunks|
  {
    hide ChunkText, ChunkOk, Decode;
    var t := Encode(chunks) + "0\r";
    if chunks == [] {
      assert t == "0\r";
      assert NoEnd(t[..k]);
      NoLine(t[..k]);
    } else {
      var c, more := chunks[0], Encode(chunks[1..]) + "0\r";
      assert c in chunks && forall x | x in chunks[1..] :: x in chunks;
      assert t == ChunkText(c) + more;
      if k < |ChunkText(c)| {
        assert t[..k] == ChunkText(c)[..k];
        CutChunk(c, k);
      } else {
        var j := k - |ChunkText(c)|;
        assert t[..k] == ChunkText(c) + more[..j];
        OneChunk(c, more[..j]);
        CutShort(chunks[1..], j);
      }
    }
  }

  // ----- the loops -----

  /** The digit loop of a size line. */
  method ReadSize(line: string) returns (size: Size)
    ensures size == SizeOf(line)
  {
    hide IndexOf, HexValue;
    if line != "" && (line[0] == '+' || line[0] == '-') { return NoSize(BadChunk); }
    ghost var s := SizeText(line);
    var q, n := 0, 0;
    EmptyHexText(line);
    while q < |line| && line[q] != ';'
      invariant q <= |line| && q <= MAX_DIGITS && ';' !in line[..q] && AllHex(line[..q]) && n == HexValue(line[..q])
    {
      assert line[..q + 1] == line[..q] + [line[q]];
      DigitsAhead(line, q + 1);
      var v := Hex(line[q]);
      if v.None? {
        assert !AllHex(s) && (|s| > MAX_DIGITS ==> !AllHex(s[..MAX_DIGITS + 1])) by { assert Hex(s[q]).None?; }
        return NoSize(BadChunk);
      }
      if q >= MAX_DIGITS {
        assert AllHex(s[..MAX_DIGITS + 1]) by { assert s[..MAX_DIGITS + 1] == line[..q + 1]; }
        return NoSize(ChunkTooBig);
      }
      HexSnoc(line[..q], line[q]);
      n := n * 16 + v.value;
      q := q + 1;
    }
    IndexOfIs(line, ';', q);
    size := Size(n);
  }

  lemma {:induction false} EmptyHexText(s: string)
    ensures AllHex(s[..0]) && HexValue(s[..0]) == 0
  {
  }

  /** Characters before any semicolon are part of the size text. */
  lemma {:induction false} DigitsAhead(line: string, n: nat)
    requires n <= |line| && ';' !in line[..n]
    ensures n <= |SizeText(line)| && SizeText(line)[..n] == line[..n]
  {
    var i := IndexOf(line, ';');
    PrefixHas(line, n);
    assert line[..i][..n] == line[..n] || i < n;
  }

  /** The length of the line at `p`. */
  method FindLineEnd(rest: string) returns (eol: nat)
    ensures eol == LineLength(rest)
  {
    hide LineLength;
    eol := 0;
    while eol < |rest| && !LineEnd(rest[eol])
      invariant eol <= |rest| && forall i | 0 <= i < eol :: !LineEnd(rest[i])
    {
      eol := eol + 1;
    }
    LineLengthIs(rest, eol);
  }

  /** One turn of the loop: the chunk at the front, or why decoding stops. */
  method NextChunk(rest: string) returns (piece: string, next: string, stop: Option<Decoded>)
    ensures stop.Some? ==> Decode(rest) == stop.value && (stop.value.Body? ==> stop.value.text == "")
    ensures stop.None? ==> Decode(rest) == Append(piece, Decode(next))
    ensures stop.None? ==> |next| < |rest| && next == rest[|rest| - |next|..]
  {
    hide LineLength, SizeOf, AfterLine;
    piece, next := "", "";
    var eol := FindLineEnd(rest);
    var size := ReadSize(rest[..eol]);
    if size.NoSize? { return piece, next, Some(Failed(size.why)); }
    var data := AfterLine(rest[eol..]);
    if data.None? { return piece, next, Some(Failed(BadChunk)); }
    if size.n == 0 { return piece, next, Some(Body("")); }
    if |data.value| < size.n { return piece, next, Some(Failed(ShortChunk)); }
    var after := AfterLine(data.value[size.n..]);
    if after.None? { return piece, next, Some(Failed(BadChunk)); }
    piece, next, stop := data.value[..size.n], after.value, None;
    Suffix(rest, rest[eol..], data.value, size.n, next);
  }

  /** The decoding loop of the fetch client. */
  method DecodeChunks(t: string) returns (r: Decoded)
    ensures r == Decode(t)
  {
    hide Decode;
    ghost var answer := Decode(t);
    var out, p := "", 0;
    assert t[0..] == t;
    Appended(answer);
    while true
      invariant p <= |t| && answer == Append(out, Decode(t[p..]))
      decreases |t| - p
    {
      var piece, next, stop := NextChunk(t[p..]);
      if stop.Some? {
        assert out + "" == out;
        return if stop.value.Body? then Body(out) else stop.value;
      }
      AppendTwice(out, piece, Decode(next));
      out := out + piece;
      assert next == t[|t| - |next|..];
      p := |t| - |next|;
    }
  }

  function Append(done: string, r: Decoded): Decoded {
    if r.Body? then Body(done + r.text) else r
  }

  lemma {:induction false} Appended(r: Decoded)
    ensures Append("", r) == r
  {
    if r.Body? { assert "" + r.text == r.text; }
  }

  lemma {:induction false} AppendTwice(a: string, b: string, r: Decoded)
    ensures Append(a, Append(b, r)) == Append(a + b, r)
  {
    if r.Body? { assert a + (b + r.text) == a + b + r.text; }
  }

  /** What is left is a suffix of the text. */
  lemma {:induction false} Suffix(t: string, line: string, data: string, n: nat, next: string)
    requires |line| <= |t| && line == t[|t| - |line|..]
    requires AfterLine(line) == Some(data) && n <= |data| && AfterLine(data[n..]) == Some(next)
    ensures |next| < |t| && next == t[|t| - |next|..]
  {
    assert data == t[|t| - |data|..];
    assert data[n..] == t[|t| - (|data| - n)..];
  }
}
