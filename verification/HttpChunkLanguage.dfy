/** runtime/http.c: exactly which texts are chunked bodies, and of what. */
module HttpChunkLanguage {
  import opened Basics
  import opened Digits
  import opened Texts
  import opened HttpChunks

  /** A size line as it may be written: at most eight digits, extensions behind a semicolon, and a line end. */
  datatype Head = Head(digits: string, extensions: string, end: string)

  /** A chunk: its size line, its data and the line end behind that. */
  datatype Piece = Piece(head: Head, data: string, end: string)

  /** A return and a newline, or one of them; a return alone where no newline follows. */
  predicate Break(e: string, more: string) {
    e == "\r\n" || e == "\n" || (e == "\r" && (more == "" || more[0] != '\n'))
  }

  predicate OneLine(s: string) {
    forall i | 0 <= i < |s| :: s[i] != '\r' && s[i] != '\n'
  }

  predicate HeadOk(h: Head, n: nat, more: string) {
    && |h.digits| <= 8 && AllHex(h.digits) && HexValue(h.digits) == n
    && (h.extensions != "" ==> h.extensions[0] == ';') && OneLine(h.extensions)
    && Break(h.end, more)
  }

  function HeadText(h: Head): string {
    h.digits + h.extensions + h.end
  }

  function PieceText(p: Piece): string {
    HeadText(p.head) + p.data + p.end
  }

  /** The text of the chunks, the last size line and what follows it. */
  function Layout(pieces: seq<Piece>, last: Head, trailer: string): string {
    if pieces == [] then HeadText(last) + trailer else PieceText(pieces[0]) + Layout(pieces[1..], last, trailer)
  }

  /** Every chunk has data and says how much, and the last one says none. */
  predicate LayoutOk(pieces: seq<Piece>, last: Head, trailer: string) {
    if pieces == [] then HeadOk(last, 0, trailer)
    else && pieces[0].data != "" && HeadOk(pieces[0].head, |pieces[0].data|, pieces[0].data)
         && Break(pieces[0].end, Layout(pieces[1..], last, trailer))
         && LayoutOk(pieces[1..], last, trailer)
  }

  function Data(pieces: seq<Piece>): string {
    if pieces == [] then "" else pieces[0].data + Data(pieces[1..])
  }

  // ----- lines -----

  lemma {:induction false} BreakRead(e: string, more: string)
    requires Break(e, more)
    ensures AfterLine(e + more) == Some(more) && e != "" && LineEnd(e[0])
  {
    var t := e + more;
    assert t[|e|..] == more;
    assert e == "\r" && more != "" ==> t[1] == more[0];
  }

  lemma {:induction false} BreakFound(t: string) returns (e: string)
    requires AfterLine(t).Some?
    ensures Break(e, AfterLine(t).value) && t == e + AfterLine(t).value
  {
    if |t| >= 2 && t[0] == '\r' && t[1] == '\n' {
      e := "\r\n";
    } else {
      e := t[..1];
      assert t[0] == '\r' && t[1..] != "" ==> t[1..][0] == t[1];
    }
    assert t == e + AfterLine(t).value;
  }

  lemma {:induction false} HeadRead(h: Head, n: nat, more: string)
    requires HeadOk(h, n, more)
    ensures var t, line := HeadText(h) + more, h.digits + h.extensions;
            LineLength(t) == |line| && t[..|line|] == line && SizeOf(line) == Size(n) && AfterLine(t[|line|..]) == Some(more)
  {
    hide HexValue, AllHex, IndexOf, AfterLine, LineEnd;
    var s, line := h.digits, h.digits + h.extensions;
    HexIsNoLineEnd(s);
    ExtensionsOk(h.extensions);
    LineRead(s, h.extensions);
    assert HeadText(h) + more == line + (h.end + more);
    BreakRead(h.end, more);
    LineAhead(line, h.end + more);
  }

  lemma {:induction false} ExtensionsOk(ext: string)
    requires OneLine(ext)
    ensures forall i | 0 <= i < |ext| :: !LineEnd(ext[i])
  {
  }

  lemma {:induction false} LineRead(s: string, ext: string)
    requires |s| <= 8 && AllHex(s) && (ext != "" ==> ext[0] == ';')
    ensures SizeOf(s + ext) == Size(HexValue(s))
  {
    hide HexValue, AllHex, IndexOf;
    HexIsNoLineEnd(s);
    var line := s + ext;
    assert line[..|s|] == s && (|s| < |line| ==> line[|s|] == ';');
    IndexOfIs(line, ';', |s|);
    assert s != "" ==> line[0] == s[0];
  }

  lemma {:induction false} LineAhead(line: string, rest: string)
    requires (forall i | 0 <= i < |line| :: !LineEnd(line[i])) && (rest != "" ==> LineEnd(rest[0]))
    ensures LineLength(line + rest) == |line| && (line + rest)[..|line|] == line && (line + rest)[|line|..] == rest
  {
    hide LineEnd;
    var t := line + rest;
    assert forall i | 0 <= i < |line| :: t[i] == line[i];
    assert rest != "" ==> t[|line|] == rest[0];
    LineLengthIs(t, |line|);
  }

  lemma {:induction false} HeadFound(t: string) returns (h: Head, more: string)
    requires var n := LineLength(t); SizeOf(t[..n]).Size? && AfterLine(t[n..]).Some?
    ensures var n := LineLength(t);
            more == AfterLine(t[n..]).value && HeadOk(h, SizeOf(t[..n]).n, more) && t == HeadText(h) + more
  {
    hide HexValue, AllHex, IndexOf, AfterLine;
    var n := LineLength(t);
    var line := t[..n];
    var k := IndexOf(line, ';');
    var e := BreakFound(t[n..]);
    more := AfterLine(t[n..]).value;
    h := Head(line[..k], line[k..], e);
    assert line == line[..k] + line[k..];
    assert t == line + t[n..];
    assert line[k..] != "" ==> line[k..][0] == line[k];
  }

  /** A size is too big exactly when nine digits come first; every other fault of a size line is a bad chunk. */
  lemma {:induction false} TooBigExactly(line: string)
    ensures SizeOf(line) == NoSize(ChunkTooBig) <==> |line| >= 9 && AllHex(line[..9])
    ensures SizeOf(line) != NoSize(ShortChunk)
  {
    hide HexValue;
    var s := SizeText(line);
    if |line| >= 9 && AllHex(line[..9]) {
      NoSemicolon(line);
      assert s[..9] == line[..9];
      assert Hex(line[..9][0]).Some?;
    }
    if |s| > 8 { assert s[..9] == line[..9]; }
  }

  lemma {:induction false} NoSemicolon(line: string)
    requires |line| >= 9 && AllHex(line[..9])
    ensures |SizeText(line)| >= 9
  {
    hide AllHex;
    HexIsNoLineEnd(line[..9]);
    PrefixHas(line, 9);
  }

  // ----- bodies -----

  lemma {:induction false} PieceRead(p: Piece, more: string)
    requires p.data != "" && HeadOk(p.head, |p.data|, p.data) && Break(p.end, more)
    ensures Decode(PieceText(p) + more) == Append(p.data, Decode(more))
  {
    hide SizeOf, LineLength, AfterLine, HeadText, HeadOk, Break;
    var rest := p.end + more;
    HeadFirst(p.head, |p.data|, p.data, rest);
    HeadRead(p.head, |p.data|, p.data + rest);
    assert PieceText(p) + more == HeadText(p.head) + (p.data + rest);
    Front(p.data, rest);
    BreakRead(p.end, more);
  }

  /** What a size line may be depends on the first character behind it alone. */
  lemma {:induction false} HeadFirst(h: Head, n: nat, data: string, rest: string)
    requires data != "" && HeadOk(h, n, data)
    ensures HeadOk(h, n, data + rest)
  {
    assert (data + rest)[0] == data[0];
  }

  lemma {:induction false} LayoutDecoded(pieces: seq<Piece>, last: Head, trailer: string)
    requires LayoutOk(pieces, last, trailer)
    ensures Decode(Layout(pieces, last, trailer)) == Body(Data(pieces))
    decreases |pieces|
  {
    hide SizeOf, LineLength, AfterLine, HeadText, HeadOk, PieceText, Break;
    if pieces == [] {
      HeadRead(last, 0, trailer);
    } else {
      PieceRead(pieces[0], Layout(pieces[1..], last, trailer));
      LayoutDecoded(pieces[1..], last, trailer);
    }
  }

  lemma {:induction false} LayoutFound(t: string) returns (pieces: seq<Piece>, last: Head, trailer: string)
    requires Decode(t).Body?
    ensures LayoutOk(pieces, last, trailer) && t == Layout(pieces, last, trailer) && Decode(t).text == Data(pieces)
    decreases |t|
  {
    hide SizeOf, LineLength, AfterLine, HeadText, HeadOk, Break;
    var h, more := HeadFound(t);
    var n := SizeOf(t[..LineLength(t)]).n;
    if n == 0 {
      pieces, last, trailer := [], h, more;
    } else {
      var data := more[..n];
      assert more == data + more[n..];
      HeadCut(h, n, data, more);
      var e := BreakFound(more[n..]);
      var next := AfterLine(more[n..]).value;
      var ps;
      ps, last, trailer := LayoutFound(next);
      var p := Piece(h, data, e);
      pieces := [p] + ps;
      assert pieces[1..] == ps;
      assert t == PieceText(p) + next;
    }
  }

  lemma {:induction false} HeadCut(h: Head, n: nat, data: string, more: string)
    requires HeadOk(h, n, more) && data != "" && data <= more
    ensures HeadOk(h, n, data)
  {
  }

  ghost predicate IsChunked(t: string, pieces: seq<Piece>, last: Head, trailer: string) {
    LayoutOk(pieces, last, trailer) && t == Layout(pieces, last, trailer)
  }

  /** A text is decoded, and to a given body, if and only if it is written as chunks of that body: sizes of at most eight
      digits of either case or none at all, which is zero, extensions, any line ends, and anything behind the last one. */
  lemma {:induction false} ChunkLanguage(t: string, body: string)
    ensures Decode(t) == Body(body)
            <==> exists pieces: seq<Piece>, last: Head, trailer: string :: IsChunked(t, pieces, last, trailer) && Data(pieces) == body
  {
    hide Decode, LayoutOk, Layout, Data;
    if Decode(t) == Body(body) {
      var pieces, last, trailer := LayoutFound(t);
      assert IsChunked(t, pieces, last, trailer);
    }
    forall pieces: seq<Piece>, last: Head, trailer: string | IsChunked(t, pieces, last, trailer)
      ensures Decode(t) == Body(Data(pieces))
    {
      LayoutDecoded(pieces, last, trailer);
    }
  }
}
