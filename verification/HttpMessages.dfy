/** runtime/http.c: a request written out in full is parsed back to its parts, alone or pipelined. */
module HttpMessages {
  import opened Basics
  import opened Digits
  import opened Texts
  import opened HttpSpec
  import opened HttpProofs

  /** A request as a client means it. `fields` are whole header lines. */
  datatype Message =
    Message(verb: string, path: string, query: Option<string>, version: string, fields: seq<string>, body: string)

  predicate OneLine(s: string) {
    '\r' !in s && '\n' !in s
  }

  /** Text that ends only where the parser cuts it. */
  predicate Token(s: string) {
    OneLine(s) && ' ' !in s && '\0' !in s
  }

  function Target(m: Message): string {
    if m.query.Some? then m.path + "?" + m.query.value else m.path
  }

  function RequestLine(m: Message): string {
    m.verb + " " + Target(m) + " " + m.version
  }

  function CrLf(lines: seq<string>): string {
    if lines == [] then "" else lines[0] + "\r\n" + CrLf(lines[1..])
  }

  /** The bytes of the request. */
  function Text(m: Message): string {
    CrLf([RequestLine(m)] + m.fields) + "\r\n" + m.body
  }

  /** A header that says nothing about the body's extent. */
  predicate Neutral(line: string) {
    !StartsWith(line, NAME_LENGTH) && !StartsWith(line, NAME_ENCODING)
  }

  predicate Blanks(s: string) {
    forall i | 0 <= i < |s| :: s[i] == ' ' || s[i] == '\t'
  }

  /** A Content-Length field for `n` bytes: blanks, then digits. */
  predicate GivesLength(line: string, n: nat) {
    StartsWith(line, NAME_LENGTH) && exists k: nat | 15 <= k < |line| :: LengthDigitsAt(line, k, n)
  }

  predicate LengthDigitsAt(line: string, k: nat, n: nat)
    requires 15 <= k < |line|
  {
    Blanks(line[15..k]) && AllDigits(line[k..]) && DecValue(line[k..]) == n
  }

  /** The body's extent is told by one field, or there is no body. */
  predicate Framed(fields: seq<string>, n: nat) {
    ((forall f | f in fields :: Neutral(f)) && n == 0) || exists k | 0 <= k < |fields| :: LengthFieldAt(fields, k, n)
  }

  predicate LengthFieldAt(fields: seq<string>, k: nat, n: nat)
    requires k < |fields|
  {
    GivesLength(fields[k], n) && (forall i | 0 <= i < |fields| && i != k :: Neutral(fields[i]))
  }

  predicate WellFormed(m: Message, lim: Limits) {
    && Token(m.verb) && Token(m.path) && '?' !in m.path && (m.query.Some? ==> Token(m.query.value))
    && OneLine(m.version) && Neutral(RequestLine(m))
    && (forall f | f in m.fields :: f != "" && OneLine(f))
    && Framed(m.fields, |m.body|) && |m.body| <= LENGTH_MAX
    && |RequestLine(m)| <= lim.line && |CrLf(m.fields)| <= lim.headerBytes + 2
    && |m.fields| <= lim.headers && |m.body| <= lim.body
  }

  /** The lines of the head are lines. */
  predicate Written(m: Message) {
    forall l | l in [RequestLine(m)] + m.fields :: l != "" && OneLine(l)
  }

  /** The request the program sees. */
  function Seen(m: Message): Request {
    Request(m.verb, m.path, m.query,
            if m.fields == [] then None else Some(CrLf(m.fields)[..|CrLf(m.fields)| - 2]),
            m.body)
  }

  // ----- the end of the head -----

  lemma {:induction false} HeadEndSkips(s: string, t: string)
    requires '\r' !in s
    ensures HeadEnd(s + t) == |s| + HeadEnd(t)
  {
    if s == "" {
      assert s + t == t;
    } else {
      assert s[0] != '\r';
      assert (s + t)[1..] == s[1..] + t;
      HeadEndSkips(s[1..], t);
    }
  }

  lemma {:induction false} HeadEndAfterLine(t: string)
    requires t != "" && t[0] != '\r'
    ensures HeadEnd("\r\n" + t) == 2 + HeadEnd(t)
  {
    var u := "\r\n" + t;
    assert u[2] == t[0];
    assert u[1..] == "\n" + t;
    HeadEndSkips("\n", t);
  }

  lemma {:induction false} HeadEndOfLines(lines: seq<string>, body: string)
    requires lines != [] && forall l | l in lines :: l != "" && OneLine(l)
    ensures |CrLf(lines)| >= 2 && HeadEnd(CrLf(lines) + "\r\n" + body) == |CrLf(lines)| - 2
    decreases |lines|
  {
    var l, more := lines[0], lines[1..];
    var rest := CrLf(more) + "\r\n" + body;
    assert l in lines;
    assert CrLf(lines) + "\r\n" + body == l + ("\r\n" + rest);
    HeadEndSkips(l, "\r\n" + rest);
    if more == [] {
      assert rest == "\r\n" + body;
      assert HeadEndAt("\r\n" + rest, 0);
    } else {
      assert more[0] in lines && forall x | x in more :: x in lines;
      assert rest[0] == more[0][0];
      HeadEndAfterLine(rest);
      HeadEndOfLines(more, body);
    }
  }

  // ----- the lines of the head -----

  /** The pieces between newlines. */
  function Returned(lines: seq<string>): (r: seq<string>)
    ensures |r| == |lines| && forall i | 0 <= i < |lines| :: r[i] == lines[i] + "\r"
  {
    if lines == [] then [] else [lines[0] + "\r"] + Returned(lines[1..])
  }

  lemma {:induction false} CrLfJoin(lines: seq<string>, last: seq<string>)
    requires last != []
    ensures Join(Returned(lines) + last, '\n') == CrLf(lines) + Join(last, '\n')
  {
    var ps := Returned(lines) + last;
    if lines == [] {
      assert ps == last;
      assert "" + Join(last, '\n') == Join(last, '\n');
    } else {
      CrLfJoin(lines[1..], last);
      assert ps[1..] == Returned(lines[1..]) + last;
      assert ps[0] == lines[0] + "\r";
      assert CrLf(lines) == lines[0] + "\r\n" + CrLf(lines[1..]);
    }
  }

  lemma {:induction false} ReturnedClean(lines: seq<string>)
    requires forall l | l in lines :: OneLine(l)
    ensures NoneHas(Returned(lines), '\n')
  {
    forall i | 0 <= i < |lines| ensures '\n' !in Returned(lines)[i] { assert lines[i] in lines; }
  }

  lemma {:induction false} LinesOfHead(lines: seq<string>)
    requires forall l | l in lines :: OneLine(l)
    ensures Lines(CrLf(lines) + "\r\n") == Returned(lines) + ["\r"]
  {
    var last := ["\r", ""];
    ReturnedClean(lines);
    CrLfJoin(lines, last);
    assert Join(last, '\n') == "\r\n" by { assert last[1..] == [""]; assert "\r" + ['\n'] + "" == "\r\n"; }
    SplitJoin(Returned(lines) + last, '\n');
    assert (Returned(lines) + last)[..|lines| + 1] == Returned(lines) + ["\r"];
  }

  lemma {:induction false} CountLines(fields: seq<string>)
    requires fields != [] && forall l | l in fields :: OneLine(l)
    ensures |CrLf(fields)| >= 2 && |Split(CrLf(fields)[..|CrLf(fields)| - 2], '\n')| == |fields|
  {
    var n := |fields| - 1;
    var head, l := fields[..n], fields[n];
    assert l in fields && forall x | x in head :: x in fields;
    assert fields == head + [l];
    CrLfSnoc(head, l);
    CrLfJoin(head, [l]);
    ReturnedClean(head);
    assert CrLf(fields)[..|CrLf(fields)| - 2] == CrLf(head) + l;
    SplitJoin(Returned(head) + [l], '\n');
  }

  lemma {:induction false} CrLfSnoc(lines: seq<string>, l: string)
    ensures CrLf(lines + [l]) == CrLf(lines) + l + "\r\n"
  {
    if lines == [] {
      assert [l][1..] == [];
      assert CrLf([l]) == l + "\r\n" + "";
    } else {
      assert (lines + [l])[1..] == lines[1..] + [l];
      CrLfSnoc(lines[1..], l);
    }
  }

  // ----- the length -----

  lemma {:induction false} NeutralLine(st: Scan, line: string)
    requires Neutral(line)
    ensures ScanLine(st, line + "\r") == st
  {
    var l := line + "\r";
    assert StartsWith(l, NAME_LENGTH) && |l| > 15 ==> StartsWith(line, NAME_LENGTH) by { Shorter(line, NAME_LENGTH); }
    assert StartsWith(l, NAME_ENCODING) && |l| > 19 ==> StartsWith(line, NAME_ENCODING) by { Shorter(line, NAME_ENCODING); }
  }

  lemma {:induction false} Shorter(line: string, word: string)
    ensures StartsWith(line + "\r", word) && |word| <= |line| ==> StartsWith(line, word)
  {
    var l := line + "\r";
    assert forall i | 0 <= i < |line| :: l[i] == line[i];
  }

  lemma {:induction false} NeutralLines(st: Scan, lines: seq<string>)
    requires forall l | l in lines :: Neutral(l)
    ensures ScanLines(st, Returned(lines)) == st
  {
    hide ScanLine, Neutral;
    if lines != [] {
      assert lines[0] in lines && forall l | l in lines[1..] :: l in lines;
      NeutralLine(st, lines[0]);
      assert Returned(lines)[1..] == Returned(lines[1..]);
      NeutralLines(st, lines[1..]);
    }
  }

  lemma {:induction false} ScanJoined(st: Scan, a: seq<string>, b: seq<string>)
    ensures ScanLines(st, a + b) == ScanLines(ScanLines(st, a), b)
    decreases |a|
  {
    hide ScanLine;
    if a == [] {
      assert a + b == b;
    } else {
      assert (a + b)[1..] == a[1..] + b;
      ScanJoined(ScanLine(st, a[0]), a[1..], b);
    }
  }

  lemma {:induction false} SkipBlankPrefix(b: string, s: string)
    requires Blanks(b) && (s == "" || !LengthSpace(s[0]))
    ensures SkipLengthSpace(b + s) == s
  {
    if b == "" {
      assert b + s == s;
    } else {
      assert (b + s)[1..] == b[1..] + s;
      SkipBlankPrefix(b[1..], s);
    }
  }

  /** Digits with a carriage return behind them. */
  lemma {:induction false} DigitsThenReturn(d: string)
    requires d != "" && AllDigits(d)
    ensures DigitRun(d + "\r") == |d| && (d + "\r")[..|d|] == d
  {
    assert (d + "\r")[..|d|] == d;
    DigitRunIs(d + "\r", |d|);
  }

  /** A Content-Length field is read as its number; beyond 2^63 - 1 it would saturate. */
  lemma {:induction false} LengthRead(line: string, n: nat)
    requires GivesLength(line, n)
    ensures |line| > 15 && LengthValue((line + "\r")[15..]) == (Saturated(n), false)
  {
    hide DecValue, StartsWith;
    var k: nat :| 15 <= k < |line| && LengthDigitsAt(line, k, n);
    var b, d := line[15..k], line[k..];
    assert (line + "\r")[15..] == b + (d + "\r");
    assert IsDigit(d[0]);
    SkipBlankPrefix(b, d + "\r");
    DigitsThenReturn(d);
  }

  lemma {:induction false} LengthLine(st: Scan, line: string, n: nat)
    requires GivesLength(line, n) && st == Scan(None, false, false)
    ensures ScanLine(st, line + "\r") == Scan(Some(Saturated(n)), false, false)
  {
    hide LengthValue;
    LengthRead(line, n);
    var l := line + "\r";
    assert forall i | 0 <= i < |line| :: l[i] == line[i];
    assert StartsWith(l, NAME_LENGTH);
    assert Lower(l[0]) == 'c';
    assert NAME_ENCODING[0] == 't';
    assert !StartsWith(l, NAME_ENCODING);
  }

  lemma {:induction false} ReturnedJoined(st: Scan, a: seq<string>, b: seq<string>)
    ensures ScanLines(st, Returned(a + b)) == ScanLines(ScanLines(st, Returned(a)), Returned(b))
  {
    hide ScanLines;
    assert Returned(a + b) == Returned(a) + Returned(b);
    ScanJoined(st, Returned(a), Returned(b));
  }

  lemma {:induction false} ScanOne(st: Scan, line: string)
    ensures ScanLines(st, Returned([line])) == ScanLine(st, line + "\r")
  {
    hide ScanLine;
    assert Returned([line])[1..] == [];
  }

  lemma {:induction false} CutAt(line: string, fields: seq<string>, k: nat)
    requires k < |fields|
    ensures [line] + fields == ([line] + fields[..k]) + ([fields[k]] + fields[k + 1..])
  {
  }

  lemma {:induction false} FoundScan(line: string, fields: seq<string>, k: nat, n: nat)
    requires Neutral(line) && k < |fields| && LengthFieldAt(fields, k, n)
    ensures ScanLines(Scan(None, false, false), Returned([line] + fields)) == Scan(Some(Saturated(n)), false, false)
  {
    hide ScanLine, ScanLines, Neutral, GivesLength, Returned;
    var st := Scan(None, false, false);
    var before, after := [line] + fields[..k], fields[k + 1..];
    CutAt(line, fields, k);
    NeutralAround(line, fields, k, n);
    ReturnedJoined(st, before, [fields[k]] + after);
    NeutralLines(st, before);
    ReturnedJoined(st, [fields[k]], after);
    ScanOne(st, fields[k]);
    LengthLine(st, fields[k], n);
    NeutralLines(ScanLine(st, fields[k] + "\r"), after);
  }

  /** The scan of a framed head finds the body's length and nothing wrong. */
  lemma {:induction false} FramedScan(line: string, fields: seq<string>, n: nat)
    requires Neutral(line) && Framed(fields, n)
    ensures var s := ScanLines(Scan(None, false, false), Returned([line] + fields) + ["\r"]);
            !s.bad && !s.chunked && BodyLength(s) == Saturated(n)
  {
    hide ScanLine, ScanLines, Neutral, LengthFieldAt, Returned;
    var st := Scan(None, false, false);
    var all := [line] + fields;
    ScanJoined(st, Returned(all), ["\r"]);
    EmptyLine(ScanLines(st, Returned(all)));
    if exists k: nat | k < |fields| :: LengthFieldAt(fields, k, n) {
      var k: nat :| k < |fields| && LengthFieldAt(fields, k, n);
      FoundScan(line, fields, k, n);
    } else {
      NeutralLines(st, all);
    }
  }

  lemma {:induction false} NeutralAround(line: string, fields: seq<string>, k: nat, n: nat)
    requires Neutral(line) && k < |fields| && LengthFieldAt(fields, k, n)
    ensures forall l | l in [line] + fields[..k] :: Neutral(l)
    ensures forall l | l in fields[k + 1..] :: Neutral(l)
  {
    hide Neutral, GivesLength;
    forall l | l in [line] + fields[..k] ensures Neutral(l) {
      if l != line {
        var i :| 0 <= i < k && fields[i] == l;
      }
    }
    forall l | l in fields[k + 1..] ensures Neutral(l) {
      var i :| k + 1 <= i < |fields| && fields[i] == l;
    }
  }

  lemma {:induction false} EmptyLine(st: Scan)
    ensures ScanLines(st, ["\r"]) == st
  {
    assert ScanLine(st, "\r") == st;
    assert ["\r"][1..] == [];
  }

  // ----- the request line -----

  lemma {:induction false} CStringWhole(s: string)
    requires '\0' !in s
    ensures CString(s) == s
  {
    assert s[..|s|] == s;
    IndexOfIs(s, '\0', |s|);
  }

  lemma {:induction false} FirstIs(s: string, c: char, rest: string)
    requires c !in s
    ensures IndexOf(s + [c] + rest, c) == |s|
  {
    var t := s + [c] + rest;
    assert t[..|s|] == s && t[|s|] == c;
    IndexOfIs(t, c, |s|);
  }

  /** Where the parser cuts a text that starts with a verb, a target and a space. */
  lemma {:induction false} LineCuts(verb: string, target: string, rest: string)
    requires Token(verb) && Token(target)
    ensures var raw := verb + " " + target + " " + rest;
            && ' ' in raw && FirstSpace(raw) == |verb| && PathEnd(raw) == |verb| + 1 + |target|
            && raw[..|verb|] == verb && raw[|verb| + 1..PathEnd(raw)] == target && raw[PathEnd(raw)] == ' '
            && QueryMark(raw) == |verb| + 1 + IndexOf(target, '?')
  {
    hide IndexOf;
    var raw := verb + " " + target + " " + rest;
    var after := target + " " + rest;
    assert raw == verb + [' '] + after;
    FirstIs(verb, ' ', after);
    assert raw[|verb|] == ' ';
    assert raw[|verb| + 1..] == target + [' '] + rest;
    FirstIs(target, ' ', rest);
    assert raw[|verb| + 1..|verb| + 1 + |target|] == target;
  }

  /** The path and the query of a target. */
  lemma {:induction false} TargetCuts(m: Message)
    requires Token(m.path) && '?' !in m.path && (m.query.Some? ==> Token(m.query.value))
    ensures var t := Target(m);
            && Token(t) && IndexOf(t, '?') == |m.path| && t[..|m.path|] == m.path
            && (m.query.Some? <==> |m.path| < |t|)
            && (m.query.Some? ==> t[|m.path| + 1..] == m.query.value)
  {
    hide IndexOf;
    var t := Target(m);
    if m.query.Some? {
      FirstIs(m.path, '?', m.query.value);
      assert t == m.path + ['?'] + m.query.value;
    } else {
      assert t[..|t|] == t;
      IndexOfIs(t, '?', |t|);
    }
  }

  // ----- the whole message -----

  lemma {:induction false} TextStarts(m: Message)
    ensures Text(m) == m.verb + " " + Target(m) + " " + (m.version + "\r\n" + CrLf(m.fields) + "\r\n" + m.body)
    ensures Text(m) == RequestLine(m) + "\r\n" + (CrLf(m.fields) + "\r\n" + m.body)
  {
    var lines := [RequestLine(m)] + m.fields;
    assert lines[1..] == m.fields;
    assert CrLf(lines) == RequestLine(m) + "\r\n" + CrLf(m.fields);
  }

  lemma {:induction false} LineIsClean(m: Message, lim: Limits)
    requires WellFormed(m, lim)
    ensures OneLine(RequestLine(m)) && RequestLine(m) != "" && Token(Target(m)) && Written(m)
  {
    hide Framed, Neutral, CrLf;
  }

  /** Where the head of a message ends, and what it holds. */
  lemma {:induction false} HeadOfText(m: Message)
    requires Written(m)
    ensures var raw := Text(m); var all := CrLf([RequestLine(m)] + m.fields);
            && HeadEnd(raw) < |raw| && HeadEnd(raw) + 4 == |all| + 2 && |raw| == |all| + 2 + |m.body|
            && Head(raw) == all + "\r\n" && raw[|all| + 2..] == m.body
            && IndexOf(raw, '\n') == |RequestLine(m)| + 1 && raw[|RequestLine(m)|] == '\r'
            && |all| == |RequestLine(m)| + 2 + |CrLf(m.fields)|
  {
    hide CrLf, IndexOf;
    var lines := [RequestLine(m)] + m.fields;
    assert RequestLine(m) in lines;
    HeadEndOfLines(lines, m.body);
    TextStarts(m);
    var rest := CrLf(m.fields) + "\r\n" + m.body;
    var l := RequestLine(m) + "\r";
    assert Text(m) == l + ['\n'] + rest;
    FirstIs(l, '\n', rest);
    assert Text(m)[|RequestLine(m)|] == l[|RequestLine(m)|];
  }

  lemma {:induction false} BlockOfText(m: Message)
    requires Written(m)
    ensures var raw := Text(m);
            && HeaderBlock(raw) == (if m.fields == [] then "" else CrLf(m.fields)[..|CrLf(m.fields)| - 2])
            && HeaderLines(raw) == |m.fields| && (m.fields != [] ==> HeaderBlock(raw) != "")
  {
    hide CrLf, IndexOf, HeadEnd, Head, Split;
    HeadOfText(m);
    TextStarts(m);
    var raw, cut := Text(m), |RequestLine(m)| + 2;
    assert raw[cut..] == CrLf(m.fields) + "\r\n" + m.body;
    if m.fields == [] {
      NoFields();
    } else {
      assert forall f | f in m.fields :: f in [RequestLine(m)] + m.fields;
      CountLines(m.fields);
      assert m.fields[0] in m.fields;
      FieldsHaveText(m.fields);
      assert raw[cut..HeadEnd(raw)] == CrLf(m.fields)[..|CrLf(m.fields)| - 2];
    }
  }

  lemma {:induction false} NoFields()
    ensures CrLf([]) == ""
  {
  }

  lemma {:induction false} FieldsHaveText(fields: seq<string>)
    requires fields != [] && fields[0] != ""
    ensures |CrLf(fields)| > 2
  {
  }

  lemma {:induction false} ScanOfText(m: Message, lim: Limits)
    requires WellFormed(m, lim)
    ensures HeadEnd(Text(m)) < |Text(m)|
    ensures var s := ScanHead(Text(m)); !s.bad && !s.chunked && BodyLength(s) == |m.body|
  {
    hide CrLf, IndexOf, HeadEnd, Lines, ScanLines, RequestLine, Text;
    LineIsClean(m, lim);
    HeadOfText(m);
    LinesOfHead([RequestLine(m)] + m.fields);
    FramedScan(RequestLine(m), m.fields, |m.body|);
  }

  /** The parts of the request line of a message. */
  lemma {:induction false} LineOfText(m: Message, lim: Limits)
    requires WellFormed(m, lim)
    ensures var raw := Text(m);
            && ' ' in raw && TwoSpaces(raw)
            && CString(raw[..FirstSpace(raw)]) == m.verb
            && CString(raw[FirstSpace(raw) + 1..QueryMark(raw)]) == m.path
            && (if QueryMark(raw) < PathEnd(raw) then Some(CString(raw[QueryMark(raw) + 1..PathEnd(raw)])) else None) == m.query
  {
    hide CrLf, IndexOf, HeadEnd, Head, HeaderLines, PathEnd, QueryMark, FirstSpace, CString, Framed, Neutral, Text,
      Target, RequestLine;
    TextStarts(m);
    LineIsClean(m, lim);
    TargetCuts(m);
    LineCuts(m.verb, Target(m), m.version + "\r\n" + CrLf(m.fields) + "\r\n" + m.body);
    LineLongEnough(m, lim);
    var raw, t, from := Text(m), Target(m), |m.verb| + 1;
    CStringWhole(m.verb);
    CStringWhole(m.path);
    Inner(raw, from, PathEnd(raw), t, 0, |m.path|);
    if m.query.Some? {
      CStringWhole(m.query.value);
      Inner(raw, from, PathEnd(raw), t, |m.path| + 1, |t|);
    }
  }

  lemma {:induction false} Inner(raw: string, from: nat, end: nat, t: string, i: nat, j: nat)
    requires from <= end <= |raw| && raw[from..end] == t && i <= j <= |t|
    ensures raw[from + i..from + j] == t[i..j] && (j == |t| ==> t[i..j] == t[i..]) && (i == 0 ==> t[i..j] == t[..j])
  {
    forall k | 0 <= k < j - i ensures raw[from + i..from + j][k] == t[i..j][k] {
      assert t[i + k] == raw[from..end][i + k] == raw[from + i + k];
    }
    assert |raw[from + i..from + j]| == |t[i..j]|;
  }

  lemma {:induction false} LineLongEnough(m: Message, lim: Limits)
    requires WellFormed(m, lim)
    ensures |m.verb| + 1 + |Target(m)| < IndexOf(Text(m), '\n')
  {
    hide CrLf, IndexOf, HeadEnd, Head, Text, Framed, Neutral, Target;
    LineIsClean(m, lim);
    HeadOfText(m);
  }

  lemma {:induction false} PartsOfText(m: Message, lim: Limits)
    requires WellFormed(m, lim)
    ensures var raw := Text(m);
            ' ' in raw && HeadEnd(raw) < |raw| && HeadEnd(raw) + 4 + |m.body| == |raw| && TwoSpaces(raw)
            && RequestOf(raw, |m.body|) == Seen(m)
  {
    hide CrLf, IndexOf, HeadEnd, Head, HeaderBlock, HeaderLines, PathEnd, QueryMark, FirstSpace, CString, WellFormed,
      RequestLine, Text, TwoSpaces;
    LineIsClean(m, lim);
    HeadOfText(m);
    BlockOfText(m);
    LineOfText(m, lim);
    var raw := Text(m);
    assert raw[HeadEnd(raw) + 4..] == m.body && raw[HeadEnd(raw) + 4..|raw|] == raw[HeadEnd(raw) + 4..];
  }

  /** A well-formed request within the limits is accepted to its last byte, and is seen as it was meant. */
  lemma {:induction false} MessageParsed(m: Message, lim: Limits)
    requires WellFormed(m, lim)
    ensures Whole(Text(m), lim) && Parse(Text(m), lim).request == Seen(m)
  {
    hide CrLf, IndexOf, HeadEnd, Head, HeaderBlock, HeaderLines, PathEnd, QueryMark, FirstSpace, RequestOf, Text, ScanHead,
      RequestLine, Framed, Neutral, TwoSpaces, Marked, Seen;
    LineIsClean(m, lim);
    HeadOfText(m);
    BlockOfText(m);
    ScanOfText(m, lim);
    PartsOfText(m, lim);
    BlockFits(m, lim);
    LineFits(m, lim);
  }

  lemma {:induction false} BlockFits(m: Message, lim: Limits)
    requires WellFormed(m, lim)
    ensures |HeaderBlock(Text(m))| <= lim.headerBytes
  {
    hide CrLf, HeaderBlock, Text, Framed, Neutral, RequestLine;
    LineIsClean(m, lim);
    BlockOfText(m);
    if m.fields != [] {
      assert m.fields[0] in m.fields;
      FieldsHaveText(m.fields);
    }
  }

  lemma {:induction false} LineFits(m: Message, lim: Limits)
    requires WellFormed(m, lim)
    ensures !LineRefused(Text(m), lim.line)
  {
    hide CrLf, Text, Framed, Neutral, RequestLine, HeadEnd, Head;
    LineIsClean(m, lim);
    HeadOfText(m);
    PrefixHas(Text(m), |Text(m)|);
    assert '\n' in Text(m);
  }

  function AllTexts(ms: seq<Message>): seq<string> {
    if ms == [] then [] else [Text(ms[0])] + AllTexts(ms[1..])
  }

  function AllSeen(ms: seq<Message>): seq<Request> {
    if ms == [] then [] else [Seen(ms[0])] + AllSeen(ms[1..])
  }

  lemma {:induction false} AllWhole(ms: seq<Message>, lim: Limits)
    requires forall m | m in ms :: WellFormed(m, lim)
    ensures (forall t | t in AllTexts(ms) :: Whole(t, lim)) && Requests(AllTexts(ms), lim) == AllSeen(ms)
  {
    hide WellFormed, Whole, Parse, Text, Seen;
    if ms != [] {
      assert ms[0] in ms && forall m | m in ms[1..] :: m in ms;
      MessageParsed(ms[0], lim);
      AllWhole(ms[1..], lim);
      assert AllTexts(ms)[1..] == AllTexts(ms[1..]);
    }
  }

  /** Requests pipelined on one connection are seen one by one, each as its client meant it. */
  lemma {:induction false} MessagesPipelined(ms: seq<Message>, tail: string, lim: Limits)
    requires forall m | m in ms :: WellFormed(m, lim)
    ensures Drain(Concat(AllTexts(ms)) + tail, lim) == AllSeen(ms) + Drain(tail, lim)
  {
    hide WellFormed, Whole, Parse, Text, Seen, Concat;
    AllWhole(ms, lim);
    PipelineInOrder(AllTexts(ms), tail, lim);
  }
}
