/** runtime/http.c: the verdict on a written request, said about its header fields. */
module HttpVerdicts {
  import opened Basics
  import opened Digits
  import opened Texts
  import opened HttpSpec
  import opened HttpProofs
  import opened HttpMessages

  // ----- what a header field says -----

  /** The line starts with a word, capital letters or not. */
  predicate Named(line: string, name: string) {
    |name| <= |line| &&
    forall i | 0 <= i < |name| ::
      line[i] == name[i] || ('A' <= line[i] <= 'Z' && line[i] as int + 32 == name[i] as int)
  }

  /** `transfer-encoding:`, blanks and a value that starts with `chunked`. */
  predicate Chunky(line: string) {
    Named(line, "transfer-encoding:") &&
    exists k: nat | 18 <= k <= |line| :: Blanks(line[18..k]) && Named(line[k..], "chunked")
  }

  predicate White(s: string) {
    forall i | 0 <= i < |s| :: s[i] == ' ' || s[i] == '\t' || s[i] == 11 as char || s[i] == 12 as char
  }

  /** White space, then a plus or not. */
  predicate Lead(s: string) {
    White(s) || (s != "" && s[|s| - 1] == '+' && White(s[..|s| - 1]))
  }

  /** The digits between `i` and `j` are all there are, and are `n`, at most 2^63 - 1. */
  predicate NumberCut(v: string, i: nat, j: nat, n: nat) {
    && i < j <= |v| && Lead(v[..i])
    && (forall k | i <= k < j :: '0' <= v[k] <= '9') && (j < |v| ==> !('0' <= v[j] <= '9'))
    && AllDigits(v[i..j]) && n == if DecValue(v[i..j]) > 0x7FFF_FFFF_FFFF_FFFF then 0x7FFF_FFFF_FFFF_FFFF else DecValue(v[i..j])
  }

  predicate GivesNumber(v: string, n: nat) {
    exists i: nat, j: nat | i < j <= |v| :: NumberCut(v, i, j, n)
  }

  /** A Content-Length field of `n`. */
  predicate Gives(line: string, n: nat) {
    Named(line, "content-length:") && GivesNumber(line[15..], n)
  }

  /** A Content-Length field that gives no number: there are no digits, or there is a minus before them. */
  ghost predicate Unreadable(line: string) {
    Named(line, "content-length:") && forall n: nat :: !GivesNumber(line[15..], n)
  }

  predicate SomeChunky(lines: seq<string>) {
    exists l | l in lines :: Chunky(l)
  }

  ghost predicate SomeUnreadable(lines: seq<string>) {
    exists l | l in lines :: Unreadable(l)
  }

  predicate SomeGives(lines: seq<string>, n: nat) {
    exists l | l in lines :: Gives(l, n)
  }

  /** Two Content-Length fields give different numbers. */
  ghost predicate Conflict(lines: seq<string>) {
    exists n: nat, k: nat :: n != k && SomeGives(lines, n) && SomeGives(lines, k)
  }

  predicate NoLength(lines: seq<string>) {
    forall l | l in lines :: !Named(l, "content-length:")
  }

  // ----- names -----

  predicate NoCapitals(s: string) {
    forall i | 0 <= i < |s| :: !('A' <= s[i] <= 'Z')
  }

  lemma {:induction false} NamedIs(line: string, name: string)
    requires NoCapitals(name)
    ensures Named(line, name) <==> StartsWith(line, name)
  {
    if |name| <= |line| {
      forall i | 0 <= i < |name|
        ensures Lower(line[i]) == name[i] <==>
                line[i] == name[i] || ('A' <= line[i] <= 'Z' && line[i] as int + 32 == name[i] as int)
      {
        assert !('A' <= name[i] <= 'Z');
      }
    }
  }

  /** A carriage return behind a line changes no word it starts with. */
  lemma {:induction false} WordBefore(line: string, word: string)
    requires '\r' !in word
    ensures StartsWith(line + "\r", word) <==> StartsWith(line, word)
  {
    var l := line + "\r";
    assert |word| == |l| ==> word[|line|] in word;
    assert forall i | 0 <= i < |line| :: l[i] == line[i];
  }

  // ----- the encoding -----

  lemma {:induction false} BlanksSkipped(b: string, s: string)
    requires Blanks(b) && (s == "" || (s[0] != ' ' && s[0] != '\t'))
    ensures SkipBlanks(b + s) == s
  {
    if b == "" {
      assert b + s == s;
    } else {
      assert (b + s)[1..] == b[1..] + s;
      BlanksSkipped(b[1..], s);
    }
  }

  lemma {:induction false} SkippedBlanks(s: string) returns (k: nat)
    ensures k <= |s| && SkipBlanks(s) == s[k..] && Blanks(s[..k])
  {
    if s != "" && (s[0] == ' ' || s[0] == '\t') {
      k := SkippedBlanks(s[1..]);
      k := k + 1;
      assert s[1..][k - 1..] == s[k..];
      assert s[..k] == [s[0]] + s[1..][..k - 1];
    } else {
      k := 0;
      assert s[0..] == s;
    }
  }

  lemma {:induction false} ChunkyIs(line: string)
    ensures Chunky(line) <==>
            IsEncoding(line + "\r") && StartsWith(SkipBlanks((line + "\r")[18..]), "chunked")
  {
    hide SkipBlanks, StartsWith, Named, Blanks;
    NamedIs(line, "transfer-encoding:");
    WordBefore(line, "transfer-encoding:");
    assert NAME_ENCODING == "transfer-encoding:";
    if Chunky(line) {
      var k: nat :| 18 <= k <= |line| && Blanks(line[18..k]) && Named(line[k..], "chunked");
      LongEnough(line[k..], "chunked");
      ChunkedFound(line, k);
    }
    if IsEncoding(line + "\r") && StartsWith(SkipBlanks((line + "\r")[18..]), "chunked") {
      var k := ChunkedAt(line);
    }
  }

  lemma {:induction false} ChunkedFound(line: string, k: nat)
    requires 18 <= k <= |line| && Blanks(line[18..k]) && Named(line[k..], "chunked")
    ensures StartsWith(SkipBlanks((line + "\r")[18..]), "chunked")
  {
    hide SkipBlanks, StartsWith, Named, Blanks;
    NamedIs(line[k..], "chunked");
    WordBefore(line[k..], "chunked");
    LongEnough(line[k..], "chunked");
    FirstLetter(line[k..]);
    assert (line + "\r")[18..] == line[18..k] + (line[k..] + "\r");
    BlanksSkipped(line[18..k], line[k..] + "\r");
  }

  lemma {:induction false} ChunkedAt(line: string) returns (k: nat)
    requires |line| >= 18 && StartsWith(SkipBlanks((line + "\r")[18..]), "chunked")
    ensures 18 <= k <= |line| && Blanks(line[18..k]) && Named(line[k..], "chunked")
  {
    hide SkipBlanks, StartsWith, Named, Blanks;
    var t := (line + "\r")[18..];
    var j := SkippedBlanks(t);
    LongWord(t[j..], "chunked");
    k := 18 + j;
    assert t[j..] == line[k..] + "\r" && line[18..k] == t[..j];
    WordBefore(line[k..], "chunked");
    NamedIs(line[k..], "chunked");
  }

  lemma {:induction false} LongEnough(line: string, name: string)
    requires Named(line, name)
    ensures |line| >= |name|
  {
  }

  lemma {:induction false} LongWord(line: string, name: string)
    requires StartsWith(line, name)
    ensures |line| >= |name|
  {
  }

  lemma {:induction false} FirstLetter(s: string)
    requires Named(s, "chunked")
    ensures s[0] != ' ' && s[0] != '\t'
  {
    assert "chunked"[0] == 'c';
  }

  // ----- the length -----

  lemma {:induction false} WhiteSkipped(b: string, s: string)
    requires White(b) && (s == "" || !LengthSpace(s[0]))
    ensures SkipLengthSpace(b + s) == s
  {
    if b == "" {
      assert b + s == s;
    } else {
      assert (b + s)[1..] == b[1..] + s;
      WhiteSkipped(b[1..], s);
    }
  }

  lemma {:induction false} SkippedWhite(s: string) returns (k: nat)
    requires '\r' !in s
    ensures k <= |s| && White(s[..k]) && SkipLengthSpace(s + "\r") == (if k == |s| then "" else s[k..] + "\r")
    ensures k < |s| ==> !LengthSpace(s[k])
  {
    if s == "" {
      k := 0;
      assert s + "\r" == "\r" && "\r"[1..] == "";
    } else if LengthSpace(s[0]) {
      assert s[0] in s;
      k := SkippedWhite(s[1..]);
      k := k + 1;
      assert (s + "\r")[1..] == s[1..] + "\r";
      assert s[1..][k - 1..] == s[k..];
      assert s[..k] == [s[0]] + s[1..][..k - 1];
    } else {
      k := 0;
      assert s[0..] == s;
      assert (s + "\r")[0] == s[0];
    }
  }

  lemma {:induction false} RunOf(v: string, i: nat, j: nat)
    requires i < j <= |v| && (forall k | i <= k < j :: '0' <= v[k] <= '9') && (j < |v| ==> !('0' <= v[j] <= '9'))
    ensures AllDigits(v[i..j]) && DigitRun(v[i..] + "\r") == j - i && (v[i..] + "\r")[..j - i] == v[i..j]
  {
    var d := v[i..] + "\r";
    assert d[..j - i] == v[i..j];
    assert d[j - i] == if j < |v| then v[j] else '\r';
    assert AllDigits(d[..j - i]) by { assert forall k | 0 <= k < j - i :: v[i..j][k] == v[i + k]; }
    DigitRunIs(d, j - i);
  }

  /** The value behind white space and a plus. */
  lemma {:induction false} ValueFrom(s: string, d: string)
    requires SkipLengthSpace(s) == d || SkipLengthSpace(s) == "+" + d
    requires d != "" && IsDigit(d[0]) && DigitRun(d) > 0
    ensures LengthValue(s) == (Saturated(DecValue(d[..DigitRun(d)])), false)
  {
    hide DecValue, DigitRun, SkipLengthSpace;
    assert ("+" + d)[1..] == d;
  }

  /** A value that gives a number is read as that number. */
  lemma {:induction false} NumberRead(v: string, n: nat)
    requires GivesNumber(v, n)
    ensures LengthValue(v + "\r") == (n, false)
  {
    hide DecValue, DigitRun, AllDigits, SkipLengthSpace, LengthValue;
    var i: nat, j: nat :| i < j <= |v| && NumberCut(v, i, j, n);
    RunOf(v, i, j);
    var d := v[i..] + "\r";
    assert d[0] == v[i];
    LeadSkipped(v[..i], d);
    assert v + "\r" == v[..i] + d;
    ValueFrom(v + "\r", d);
  }

  lemma {:induction false} LeadSkipped(lead: string, d: string)
    requires Lead(lead) && d != "" && IsDigit(d[0])
    ensures SkipLengthSpace(lead + d) == d || SkipLengthSpace(lead + d) == "+" + d
  {
    if White(lead) {
      WhiteSkipped(lead, d);
    } else {
      var w := lead[..|lead| - 1];
      assert lead + d == w + ("+" + d);
      WhiteSkipped(w, "+" + d);
    }
  }

  /** And only such a value is usable. */
  lemma {:induction false} UsableGives(v: string)
    requires '\r' !in v && !LengthValue(v + "\r").1
    ensures exists n: nat :: GivesNumber(v, n)
  {
    hide DecValue, SkipLengthSpace, DigitRun, GivesNumber, White, LengthSpace, AllDigits;
    var k := SkippedWhite(v);
    assert DigitRun("") == 0 by { NoRun(); }
    assert k < |v|;
    var t := v[k..] + "\r";
    assert t[0] == v[k];
    var i := if v[k] == '+' then k + 1 else k;
    var d := v[i..] + "\r";
    assert t[i - k..] == d;
    LeadCut(v, k, i);
    DigitsCut(v, i);
  }

  lemma {:induction false} NoRun()
    ensures DigitRun("") == 0
  {
  }

  lemma {:induction false} LeadCut(v: string, k: nat, i: nat)
    requires k <= i <= |v| && White(v[..k]) && (i == k || (i == k + 1 && v[k] == '+'))
    ensures Lead(v[..i])
  {
    assert i > k ==> v[..i][..i - 1] == v[..k];
  }

  lemma {:induction false} DigitsCut(v: string, i: nat)
    requires i <= |v| && Lead(v[..i]) && DigitRun(v[i..] + "\r") > 0
    ensures exists n: nat :: GivesNumber(v, n)
  {
    hide DecValue, Lead;
    var d := v[i..] + "\r";
    var run := DigitRun(d);
    var j := i + run;
    RunInside(v[i..], run);
    assert v[i..][..run] == v[i..j];
    var n := Saturated(DecValue(v[i..j]));
    forall x | i <= x < j ensures '0' <= v[x] <= '9' { assert IsDigit(v[i..j][x - i]); }
    assert j < |v| ==> d[run] == v[j];
    assert NumberCut(v, i, j, n);
    assert GivesNumber(v, n);
  }

  lemma {:induction false} RunInside(s: string, run: nat)
    requires run <= |s| + 1 && AllDigits((s + "\r")[..run])
    ensures run <= |s| && (s + "\r")[..run] == s[..run]
  {
    var t := (s + "\r")[..run];
    if run > 0 { assert IsDigit(t[run - 1]); }
  }

  /** What the scan makes of one Content-Length field. */
  lemma {:induction false} LengthIs(line: string)
    requires Named(line, "content-length:") && '\r' !in line
    ensures IsLength(line + "\r") && !IsEncoding(line + "\r")
    ensures var r := LengthValue((line + "\r")[15..]);
            (r.1 <==> Unreadable(line)) && forall n: nat | Gives(line, n) :: r == (n, false)
  {
    hide LengthValue, GivesNumber, StartsWith;
    NamedIs(line, "content-length:");
    WordBefore(line, "content-length:");
    assert NAME_LENGTH == "content-length:" && NAME_ENCODING == "transfer-encoding:";
    OneNameOnly(line);
    var v := line[15..];
    assert (line + "\r")[15..] == v + "\r";
    forall n: nat | GivesNumber(v, n) ensures LengthValue(v + "\r") == (n, false) { NumberRead(v, n); }
    if !LengthValue(v + "\r").1 { UsableGives(v); }
  }

  lemma {:induction false} OneNameOnly(line: string)
    requires Named(line, "content-length:")
    ensures !StartsWith(line + "\r", NAME_ENCODING)
  {
    assert "content-length:"[0] == 'c' && NAME_ENCODING[0] == 't';
    assert (line + "\r")[0] == line[0];
  }

  lemma {:induction false} OtherLine(line: string)
    requires !Named(line, "content-length:")
    ensures !IsLength(line + "\r")
  {
    hide StartsWith, Named;
    NamedIs(line, "content-length:");
    WordBefore(line, "content-length:");
    assert NAME_LENGTH == "content-length:";
  }

  // ----- the scan -----

  /** What the scan has found once it has seen these lines. */
  ghost predicate Found(lines: seq<string>, st: Scan) {
    && (st.chunked <==> SomeChunky(lines))
    && (st.bad <==> SomeUnreadable(lines) || Conflict(lines))
    && (!st.bad ==> match st.length
                    case None => NoLength(lines)
                    case Some(n) => n >= 0 && SomeGives(lines, n) && AllGive(lines, n))
    && (st.length.None? ==> NoLength(lines))
  }

  ghost predicate AllGive(lines: seq<string>, n: nat) {
    forall l | l in lines && Named(l, "content-length:") :: Gives(l, n)
  }

  lemma {:induction false} NothingYet()
    ensures Found([], Scan(None, false, false))
  {
  }

  lemma {:induction false} ChunkySnoc(lines: seq<string>, l: string)
    ensures SomeChunky(lines + [l]) <==> SomeChunky(lines) || Chunky(l)
  {
    hide Chunky;
    InSnoc(lines, l);
  }

  lemma {:induction false} InSnoc(lines: seq<string>, l: string)
    ensures forall x :: x in lines + [l] <==> x in lines || x == l
  {
  }

  lemma {:induction false} LengthSnoc(lines: seq<string>, l: string)
    ensures SomeUnreadable(lines + [l]) <==> SomeUnreadable(lines) || Unreadable(l)
    ensures forall n: nat :: SomeGives(lines + [l], n) <==> SomeGives(lines, n) || Gives(l, n)
    ensures NoLength(lines + [l]) <==> NoLength(lines) && !Named(l, "content-length:")
    ensures forall n: nat :: AllGive(lines + [l], n) <==> AllGive(lines, n) && (Named(l, "content-length:") ==> Gives(l, n))
  {
    hide Gives, Unreadable, Named;
    InSnoc(lines, l);
  }

  lemma {:induction false} GivesOne(line: string, n: nat, k: nat)
    requires Gives(line, n) && Gives(line, k) && '\r' !in line
    ensures n == k
  {
    hide GivesNumber, LengthValue;
    LengthIs(line);
  }

  /** One more line that is no Content-Length field. */
  lemma {:induction false} OtherStep(lines: seq<string>, l: string, st: Scan)
    requires Found(lines, st) && !Named(l, "content-length:") && '\r' !in l
    ensures Found(lines + [l], ScanLine(st, l + "\r"))
  {
    hide Chunky, GivesNumber, SomeChunky, SomeGives, SomeUnreadable, NoLength, AllGive, LengthValue, StartsWith, Named;
    OtherLine(l);
    ChunkyIs(l);
    ChunkySnoc(lines, l);
    LengthSnoc(lines, l);
    OtherConflict(lines, l);
  }

  lemma {:induction false} OtherConflict(lines: seq<string>, l: string)
    requires !Named(l, "content-length:")
    ensures Conflict(lines + [l]) <==> Conflict(lines)
  {
    hide GivesNumber, SomeGives, Named;
    LengthSnoc(lines, l);
  }

  /** One more Content-Length field. */
  lemma {:induction false} LengthStep(lines: seq<string>, l: string, st: Scan)
    requires Found(lines, st) && Named(l, "content-length:") && '\r' !in l
    ensures Found(lines + [l], ScanLine(st, l + "\r"))
  {
    hide Chunky, GivesNumber, SomeChunky, SomeGives, SomeUnreadable, NoLength, AllGive, LengthValue, Named, Conflict;
    hide IsEncoding, IsLength;
    LongEnough(l, "content-length:");
    LengthIs(l);
    ChunkyIs(l);
    ChunkySnoc(lines, l);
    LengthSnoc(lines, l);
    var v := LengthValue((l + "\r")[15..]);
    LengthConflict(lines, l, st);
    if !Unreadable(l) {
      var n: nat :| GivesNumber(l[15..], n);
      assert Gives(l, n);
      assert v == (n as int, false);
      if st.length.None? { NoneToGive(lines, n); }
    }
  }

  lemma {:induction false} NoneToGive(lines: seq<string>, n: nat)
    requires NoLength(lines)
    ensures AllGive(lines, n) && !SomeUnreadable(lines) && !Conflict(lines)
  {
    hide GivesNumber, Named;
  }

  lemma {:induction false} LengthConflict(lines: seq<string>, l: string, st: Scan)
    requires Found(lines, st) && Named(l, "content-length:") && '\r' !in l
    ensures Conflict(lines) ==> Conflict(lines + [l])
    ensures forall n: nat | Gives(l, n) && !st.bad ::
              (Conflict(lines + [l]) <==> st.length.Some? && st.length.value != n)
    ensures Unreadable(l) ==> SomeUnreadable(lines + [l])
  {
    hide GivesNumber, Named, SomeChunky, SomeUnreadable, Unreadable;
    LengthSnoc(lines, l);
    forall n: nat | Gives(l, n) && !st.bad
      ensures Conflict(lines + [l]) <==> st.length.Some? && st.length.value != n
    {
      OneNumber(lines, l, st, n);
    }
  }

  lemma {:induction false} OneNumber(lines: seq<string>, l: string, st: Scan, n: nat)
    requires Found(lines, st) && !st.bad && Gives(l, n) && '\r' !in l && Named(l, "content-length:")
    ensures Conflict(lines + [l]) <==> st.length.Some? && st.length.value != n
  {
    hide GivesNumber, Named, SomeChunky, SomeUnreadable, Unreadable, Gives;
    LengthSnoc(lines, l);
    if st.length.Some? && st.length.value != n {
      assert SomeGives(lines + [l], n) && SomeGives(lines + [l], st.length.value);
    }
    if Conflict(lines + [l]) {
      var a: nat, b: nat :| a != b && SomeGives(lines + [l], a) && SomeGives(lines + [l], b);
      GivenOf(lines, l, st, n, a);
      GivenOf(lines, l, st, n, b);
    }
  }

  /** In lines without a fault every number given is the one found or the one of the last line. */
  lemma {:induction false} GivenOf(lines: seq<string>, l: string, st: Scan, n: nat, a: nat)
    requires Found(lines, st) && !st.bad && Gives(l, n) && '\r' !in l && SomeGives(lines + [l], a)
    ensures a == n || (st.length.Some? && a == st.length.value)
  {
    hide GivesNumber, Named, SomeChunky, SomeUnreadable, Unreadable;
    LengthSnoc(lines, l);
    if Gives(l, a) {
      GivesOne(l, n, a);
    } else {
      assert SomeGives(lines, a);
      assert st.length.Some? && st.length.value >= 0 && a != st.length.value ==> Conflict(lines);
    }
  }

  /** The scan of a head's lines finds exactly what they say. */
  lemma {:induction false} ScanFinds(lines: seq<string>)
    requires forall l | l in lines :: '\r' !in l
    ensures Found(lines, ScanLines(Scan(None, false, false), Returned(lines)))
    decreases |lines|
  {
    hide Found, ScanLine, ScanLines, Named, Returned;
    var st := Scan(None, false, false);
    if lines == [] {
      NothingYet();
      EmptyScan(st);
    } else {
      var n := |lines| - 1;
      var head, l := lines[..n], lines[n];
      assert lines == head + [l];
      assert l in lines && forall x | x in head :: x in lines;
      ScanFinds(head);
      ReturnedJoined(st, head, [l]);
      var before := ScanLines(st, Returned(head));
      ScanOne(before, l);
      if Named(l, "content-length:") { LengthStep(head, l, before); } else { OtherStep(head, l, before); }
    }
  }

  lemma {:induction false} EmptyScan(st: Scan)
    ensures ScanLines(st, Returned([])) == st
  {
  }

  // ----- the verdict -----

  /** The bytes of the header block. */
  function HeaderBytes(m: Message): int {
    if m.fields == [] then 0 else |CrLf(m.fields)| - 2
  }

  function HeadLines(m: Message): seq<string> {
    [RequestLine(m)] + m.fields
  }

  lemma {:induction false} ScanOfWritten(m: Message)
    requires Written(m)
    ensures HeadEnd(Text(m)) < |Text(m)| && Found(HeadLines(m), ScanHead(Text(m)))
  {
    hide CrLf, IndexOf, HeadEnd, Lines, ScanLines, RequestLine, Text, Found;
    HeadOfText(m);
    var lines := HeadLines(m);
    LinesOfHead(lines);
    ScanFinds(lines);
    var st := Scan(None, false, false);
    ScanJoined(st, Returned(lines), ["\r"]);
    EmptyLine(ScanLines(st, Returned(lines)));
  }

  lemma {:induction false} LimitsOfWritten(m: Message, lim: Limits)
    requires Written(m)
    ensures var raw := Text(m);
            && (LineRefused(raw, lim.line) <==> |RequestLine(m)| > lim.line)
            && |HeaderBlock(raw)| == HeaderBytes(m) && HeaderLines(raw) == |m.fields|
            && HeadEnd(raw) < |raw| && HeadEnd(raw) + 4 + |m.body| == |raw| && ' ' in raw
            && raw[HeadEnd(raw) + 4..] == m.body
  {
    hide CrLf, IndexOf, HeadEnd, Head, Text, RequestLine, HeaderBlock, HeaderLines;
    HeadOfText(m);
    BlockOfText(m);
    SpaceInText(m);
    PrefixHas(Text(m), |Text(m)|);
    assert '\n' in Text(m);
    if m.fields == [] { NoFields(); } else { assert m.fields[0] in HeadLines(m); FieldsHaveText(m.fields); }
  }

  lemma {:induction false} SpaceInText(m: Message)
    ensures ' ' in Text(m)
  {
    TextStarts(m);
    assert Text(m)[|m.verb|] == ' ';
  }

  /** The extent of the body the head tells: the one number its Content-Length fields give, or nothing. */
  ghost predicate Extent(lines: seq<string>, n: nat) {
    SomeGives(lines, n) || (NoLength(lines) && n == 0)
  }

  /** Whatever the fields of a written request are, it is refused for its line, for its headers, for a chunked body, for
      an unusable or a second, different length and for a body beyond the limit, in this order and for nothing else. */
  lemma {:induction false} Judged(m: Message, lim: Limits)
    requires Written(m)
    ensures var p, lines := Parse(Text(m), lim), HeadLines(m);
            if |RequestLine(m)| > lim.line then p == Refused(LineTooLong)
            else if HeaderBytes(m) > lim.headerBytes || |m.fields| > lim.headers then p == Refused(HeadersTooLarge)
            else if SomeChunky(lines) then p == Refused(Chunked)
            else if SomeUnreadable(lines) || Conflict(lines) then p == Refused(BadLength)
            else if exists n: nat :: n > lim.body && SomeGives(lines, n) then p == Refused(BodyTooLarge)
            else !p.Refused?
  {
    hide LineRefused, HeaderBlock, HeaderLines, ScanHead, HeadEnd, RequestOf, Marked, Text, RequestLine, SomeChunky,
      SomeUnreadable, Conflict, SomeGives, HeaderBytes;
    LimitsOfWritten(m, lim);
    ScanOfWritten(m);
    var s, lines := ScanHead(Text(m)), HeadLines(m);
    if !s.bad { BodyExtent(lines, s); }
  }

  /** What the scan says about the body when nothing is wrong. */
  lemma {:induction false} BodyExtent(lines: seq<string>, s: Scan)
    requires Found(lines, s) && !s.bad
    ensures Extent(lines, BodyLength(s)) && forall n: nat | Extent(lines, n) :: n == BodyLength(s)
    ensures BodyLength(s) > 0 ==> SomeGives(lines, BodyLength(s))
    ensures forall n: nat | SomeGives(lines, n) :: n == BodyLength(s)
  {
    hide Gives, SomeUnreadable, SomeChunky, Named;
    forall n: nat | SomeGives(lines, n) ensures n == BodyLength(s) {
      assert s.length.Some? && s.length.value >= 0 && s.length.value != n ==> Conflict(lines);
      if s.length.None? { NothingGiven(lines, n); }
    }
    if NoLength(lines) && s.length.Some? { NothingGiven(lines, s.length.value); }
  }

  lemma {:induction false} NothingGiven(lines: seq<string>, n: nat)
    requires NoLength(lines)
    ensures !SomeGives(lines, n)
  {
    hide Named, GivesNumber;
  }

  /** Bytes without a newline are waited on up to the line limit and a return, and refused beyond it. */
  lemma {:induction false} EndlessLine(raw: string, lim: Limits)
    requires '\n' !in raw
    ensures Parse(raw, lim) == if |raw| > lim.line + 1 then Refused(LineTooLong) else Incomplete
  {
    hide ScanHead, HeaderLines, RequestOf, Marked, LineLength;
    NewlineFound(raw);
    NoHead(raw);
  }

  lemma {:induction false} NoHead(raw: string)
    requires '\n' !in raw
    ensures HeadEnd(raw) == |raw|
  {
    var i := HeadEnd(raw);
  }

  /** A request that is not refused waits for as many bytes as its head tells, and gets exactly those as its body. */
  lemma {:induction false} BodyTaken(m: Message, lim: Limits, n: nat)
    requires Written(m) && !Parse(Text(m), lim).Refused? && Extent(HeadLines(m), n)
    ensures var p := Parse(Text(m), lim);
            if |m.body| < n then p == Incomplete
            else p.Accepted? && p.request.body == m.body[..n] && p.consumed + |m.body| == |Text(m)| + n
  {
    hide LineRefused, HeaderBlock, HeaderLines, ScanHead, HeadEnd, Marked, Text, RequestLine, SomeChunky,
      SomeUnreadable, Conflict, SomeGives, NoLength, Extent, FirstSpace, PathEnd, QueryMark, CString;
    LimitsOfWritten(m, lim);
    ScanOfWritten(m);
    var s, raw := ScanHead(Text(m)), Text(m);
    assert !s.bad;
    BodyExtent(HeadLines(m), s);
    if |m.body| >= n {
      var from := HeadEnd(raw) + 4;
      assert raw[from..from + n] == raw[from..][..n];
    }
  }
}
