/** runtime/json.c: a printed string parses back to itself exactly when it needs no numeric escape. */
module JsonTextProofs {
  import opened Basics
  import opened Digits
  import opened Texts
  import opened JsonText

  predicate NoNul(s: string) {
    '\0' !in s
  }

  /** A printed string after its opening quote, with what follows it. */
  function Closed(s: string, rest: string): (t: string)
    ensures |t| > |rest|
  {
    Escape(s) + "\"" + rest
  }

  /** Reading `t` gives the C string `want` and leaves `rest`. */
  predicate Reads(t: string, want: string, rest: string) {
    ParseText(t) == Good(want, rest)
  }

  lemma {:induction false} ClosedCons(s: string, rest: string)
    requires s != ""
    ensures Closed(s, rest) == Escaped(s[0]) + Closed(s[1..], rest)
  {
    assert Escape(s) == Escaped(s[0]) + Escape(s[1..]);
  }

  lemma {:induction false} ClosedEmpty(rest: string)
    ensures Closed("", rest) == "\"" + rest
  {
    assert "" + "\"" == "\"";
  }

  // ----- reading one step -----

  lemma {:induction false} CStringCons(b: char, w: string)
    ensures b == '\0' ==> CString([b] + w) == ""
    ensures b != '\0' ==> CString([b] + w) == [b] + CString(w)
  {
    assert ([b] + w)[1..] == w;
  }

  /** A step that stands for one byte other than NUL. */
  lemma {:induction false} PeelOne(t: string, want: string, rest: string, b: char, n: nat)
    requires At(t, 0) != '\0' && At(t, 0) != '\"' && StringStep(t) == Piece([b], n) && b != '\0'
    ensures Reads(t, want, rest) <==> want != "" && want[0] == b && Reads(Drop(t, n), want[1..], rest)
  {
    hide StringStep, CString;
    var r := Body(Drop(t, n));
    assert Body(t) == if n > |t| then Bad(Overrun) else Prepend([b], r);
    if r.Good? {
      CStringCons(b, r.value);
      var got := CString([b] + r.value);
      assert got[0] == b && got[1..] == CString(r.value);
      assert want != "" && want[0] == b ==> want == [b] + want[1..];
    }
  }

  lemma {:induction false} CStringStart(w: string)
    requires w != ""
    ensures if w[0] == '\0' then CString(w) == "" else CString(w) != "" && CString(w)[0] == w[0]
  {
  }

  /** The first byte of any step is the first one read, unless it is NUL, where the C string ends. */
  lemma {:induction false} PeelFirst(t: string, want: string, rest: string)
    requires At(t, 0) != '\0' && At(t, 0) != '\"' && StringStep(t).Piece?
    ensures Reads(t, want, rest) ==>
              var b := StringStep(t).bytes[0]; if b == '\0' then want == "" else want != "" && want[0] == b
  {
    hide CString, StringStep;
    var s := StringStep(t);
    var r := Body(Drop(t, s.length));
    assert Body(t) == if s.length > |t| then Bad(Overrun) else Prepend(s.bytes, r);
    if r.Good? {
      CStringStart(s.bytes + r.value);
    }
  }

  lemma {:induction false} PeelWrong(t: string, want: string, rest: string)
    requires At(t, 0) != '\0' && At(t, 0) != '\"' && StringStep(t).Wrong?
    ensures !Reads(t, want, rest)
  {
  }

  lemma {:induction false} PeelQuote(t: string, want: string, rest: string)
    requires At(t, 0) == '\"'
    ensures Reads(t, want, rest) <==> want == "" && t[1..] == rest
  {
    assert CString("") == "";
  }

  /** A string never ends before it starts. */
  lemma {:induction false} EndsLater(want: string, rest: string)
    ensures !Reads(rest, want, rest)
  {
  }

  predicate RawChar(c: char) {
    c >= ' ' && c != '\"' && c != '\\'
  }

  lemma {:induction false} PeelRaw(c: char, t: string, want: string, rest: string)
    requires RawChar(c)
    ensures Reads([c] + t, want, rest) <==> want != "" && want[0] == c && Reads(t, want[1..], rest)
  {
    assert Drop([c] + t, 1) == t;
    PeelOne([c] + t, want, rest, c, 1);
  }

  // ----- plain strings -----

  lemma {:induction false} PlainStep(c: char, t: string)
    requires PlainChar(c)
    ensures var u := Escaped(c) + t;
            At(u, 0) != '\0' && At(u, 0) != '\"' && StringStep(u) == Piece([c], |Escaped(c)|) && Drop(u, |Escaped(c)|) == t
  {
  }

  lemma {:induction false} PeelPlain(s: string, want: string, rest: string)
    requires s != "" && PlainChar(s[0])
    ensures Reads(Closed(s, rest), want, rest) <==>
            want != "" && want[0] == s[0] && Reads(Closed(s[1..], rest), want[1..], rest)
  {
    hide Escaped, StringStep;
    ClosedCons(s, rest);
    PlainStep(s[0], Closed(s[1..], rest));
    PeelOne(Closed(s, rest), want, rest, s[0], |Escaped(s[0])|);
  }

  /** A string without numeric escapes is read back, whatever follows it. */
  lemma {:induction false} PlainRoundTrip(s: string, rest: string)
    requires Plain(s)
    ensures Reads(Closed(s, rest), s, rest)
  {
    hide Reads, Closed;
    if s == "" {
      ClosedEmpty(rest);
      PeelQuote(Closed(s, rest), s, rest);
    } else {
      PlainRoundTrip(s[1..], rest);
      PeelPlain(s, s, rest);
    }
  }

  // ----- strings with a numeric escape -----

  predicate BadChar(c: char) {
    '\0' < c < ' ' && !Short(c)
  }

  lemma {:induction false} BadEscapeText(c: char)
    requires BadChar(c)
    ensures var e := Escaped(c);
            |e| == 6 && e[..4] == "\\u00" && (e[4] == '0' || e[4] == '1') && Hex(e[5]) == Some(c as nat % 16)
    ensures Hex(Escaped(c)[4]) == Some(c as nat / 16)
  {
    var e := Escaped(c);
    assert e == "\\u00" + [HexDigit(c as nat / 16), HexDigit(c as nat % 16)];
  }

  /** The numeric escape is read right, but one character after it is passed over too. */
  lemma {:induction false} BadStep(c: char, t: string)
    requires BadChar(c)
    ensures var u := Escaped(c) + t;
            At(u, 0) == '\\' && StringStep(u) == Piece([c], 7) && Drop(u, 7) == Drop(t, 1)
  {
    hide Escaped;
    BadEscapeText(c);
    var u := Escaped(c) + t;
    assert u[..4] == "\\u00" && At(u, 4) == Escaped(c)[4] && At(u, 5) == Escaped(c)[5];
    assert u[2] == u[..4][2] == '0' && u[3] == u[..4][3] == '0' && u[0] == u[..4][0] == '\\' && u[1] == u[..4][1] == 'u';
    assert Unit16(u, 2) == Some(c as nat);
  }

  lemma {:induction false} PeelBad(s: string, want: string, rest: string)
    requires s != "" && BadChar(s[0])
    ensures Reads(Closed(s, rest), want, rest) <==>
            want != "" && want[0] == s[0] && Reads(Drop(Closed(s[1..], rest), 1), want[1..], rest)
  {
    hide Escaped, StringStep, Reads, Closed;
    ClosedCons(s, rest);
    BadStep(s[0], Closed(s[1..], rest));
    PeelOne(Closed(s, rest), want, rest, s[0], 7);
  }

  /** Once a character has been lost, a text read in step with the printed one never catches up. */
  lemma {:induction false} NeverCatchesUp(lag: string, s: string, rest: string)
    requires lag != "" && Plain(lag) && NoNul(s)
    ensures !Reads(Closed(s, rest), lag + s, rest)
    decreases |s|
  {
    hide Reads, Closed;
    if s == "" {
      ClosedEmpty(rest);
      PeelQuote(Closed(s, rest), lag + s, rest);
    } else {
      assert s[0] != '\0';
      assert (lag + s)[0] == lag[0];
      if PlainChar(s[0]) {
        PeelPlain(s, lag + s, rest);
        assert (lag + s)[1..] == (lag[1..] + [s[0]]) + s[1..];
        NeverCatchesUp(lag[1..] + [s[0]], s[1..], rest);
      } else {
        PeelBad(s, lag + s, rest);
      }
    }
  }

  predicate OwedAt(lag: string, i: nat)
    requires i < |lag|
  {
    ' ' <= lag[i] < 128 as char && (lag[i] == 'u' ==> i + 4 < |lag| && lag[i + 3] != '0' && lag[i + 3] != '1')
  }

  /** What is still owed while escapes are read out of step: backslashes and escapes of printable characters. */
  predicate Owed(lag: string) {
    forall i | 0 <= i < |lag| :: OwedAt(lag, i)
  }

  lemma {:induction false} OwedPlain(lag: string, c: char)
    requires Owed(lag) && PlainChar(c)
    ensures Plain(lag + [c])
  {
    forall i | 0 <= i < |lag| ensures PlainChar((lag + [c])[i]) { assert OwedAt(lag, i); }
  }

  lemma {:induction false} OwedTail(lag: string)
    requires Owed(lag) && lag != ""
    ensures Owed(lag[1..])
  {
    forall i: nat | i < |lag[1..]| ensures OwedAt(lag[1..], i) { assert OwedAt(lag, i + 1); }
  }

  lemma {:induction false} OwedJoin(a: string, b: string)
    requires Owed(a) && Owed(b)
    ensures Owed(a + b)
  {
    forall i: nat | i < |a + b| ensures OwedAt(a + b, i) {
      assert i < |a| ==> OwedAt(a, i);
      assert i >= |a| ==> OwedAt(b, i - |a|);
    }
  }

  lemma {:induction false} OwedBackslash(lag: string)
    requires Owed(lag)
    ensures Owed(lag + "\\")
  {
    OwedJoin(lag, "\\");
  }

  /** The letters of a numeric escape whose backslash was passed over are not what is owed. */
  lemma {:induction false} BareEscape(lag: string, s: string, rest: string)
    requires Owed(lag) && s != "" && BadChar(s[0])
    ensures !Reads(Drop(Closed(s, rest), 1), lag + s, rest)
  {
    hide Reads, Escaped, Closed;
    var want, more := lag + s, Closed(s[1..], rest);
    ClosedCons(s, rest);
    BadEscapeText(s[0]);
    var e := Escaped(s[0]);
    var t := Drop(Closed(s, rest), 1);
    assert e[0] == e[..4][0] && e[1] == e[..4][1] == 'u' && e[2] == e[..4][2] == '0' && e[3] == e[..4][3] == '0';
    assert t == ['u'] + (['0'] + (['0'] + ([e[4]] + ([e[5]] + more))));
    PeelRaw('u', ['0'] + (['0'] + ([e[4]] + ([e[5]] + more))), want, rest);
    assert lag != "" ==> OwedAt(lag, 0) && want[0] == lag[0];
    assert lag == "" ==> want[0] == s[0];
    if want[0] == 'u' && |want| > 3 {
      PeelRaw('0', ['0'] + ([e[4]] + ([e[5]] + more)), want[1..], rest);
      PeelRaw('0', [e[4]] + ([e[5]] + more), want[2..], rest);
      assert want[1..][1..] == want[2..] && want[2..][1..] == want[3..];
      PeelRaw(e[4], [e[5]] + more, want[3..], rest);
      assert lag != "" ==> want[3] == lag[3];
    }
  }

  /** One character of the printed text was passed over. */
  lemma {:induction false} AfterSkip(lag: string, s: string, rest: string)
    requires Owed(lag) && NoNul(s)
    ensures !Reads(Drop(Closed(s, rest), 1), lag + s, rest)
    decreases |s|
  {
    hide Reads, Closed, StringStep, Owed, Plain;
    var want, t := lag + s, Drop(Closed(s, rest), 1);
    if s == "" {
      ClosedEmpty(rest);
      assert t == rest;
      EndsLater(want, rest);
    } else {
      var more := Closed(s[1..], rest);
      ClosedCons(s, rest);
      assert s[0] != '\0' && NoNul(s[1..]);
      if s[0] == '\"' {
        assert t == "\"" + more;
        PeelQuote(t, want, rest);
      } else if s[0] == '\\' {
        assert t == "\\" + more && want == (lag + "\\") + s[1..];
        OwedBackslash(lag);
        LooseBackslash(lag + "\\", s[1..], rest);
      } else if Short(s[0]) {
        SkippedShort(lag, s, rest);
      } else if s[0] >= ' ' {
        assert t == more && want == (lag + [s[0]]) + s[1..];
        OwedPlain(lag, s[0]);
        NeverCatchesUp(lag + [s[0]], s[1..], rest);
      } else {
        BareEscape(lag, s, rest);
      }
    }
  }

  /** The letter of a short escape whose backslash was passed over. */
  lemma {:induction false} SkippedShort(lag: string, s: string, rest: string)
    requires Owed(lag) && NoNul(s) && s != "" && Short(s[0])
    ensures !Reads(Drop(Closed(s, rest), 1), lag + s, rest)
  {
    hide Reads, Closed, StringStep;
    var want := lag + s;
    ClosedCons(s, rest);
    var c := Escaped(s[0])[1];
    var more := Closed(s[1..], rest);
    assert Drop(Closed(s, rest), 1) == [c] + more;
    PeelRaw(c, more, want, rest);
    if lag != "" {
      assert want[1..] == (lag[1..] + [s[0]]) + s[1..];
      OwedTail(lag);
      OwedPlain(lag[1..], s[0]);
      NeverCatchesUp(lag[1..] + [s[0]], s[1..], rest);
    }
  }

  /** A backslash of the printed text is read as the start of an escape. */
  lemma {:induction false} LooseBackslash(lag: string, s: string, rest: string)
    requires Owed(lag) && lag != "" && NoNul(s)
    ensures !Reads("\\" + Closed(s, rest), lag + s, rest)
    decreases |s|
  {
    hide Reads, Closed, Owed, Escaped, UnicodeStep, ShortEscape;
    var want, t := lag + s, "\\" + Closed(s, rest);
    ShortEscapes();
    if s == "" {
      ClosedEmpty(rest);
      PeelOne(t, want, rest, '\"', 2);
      assert Drop(t, 2) == rest;
      EndsLater(want[1..], rest);
    } else {
      assert s[0] != '\0' && NoNul(s[1..]);
      ClosedCons(s, rest);
      EscapedForms(s[0]);
      var e, more := Escaped(s[0]), Closed(s[1..], rest);
      assert t == "\\" + (e + more) && want[1..] == lag[1..] + s;
      OwedTail(lag);
      if RawChar(s[0]) {
        LooseRaw(lag, s, rest);
      } else {
        assert t[1] == e[0] == '\\';
        PeelOne(t, want, rest, '\\', 2);
        assert Drop(t, 2) == Drop(Closed(s, rest), 1);
        if s[0] == '\\' {
          assert Drop(t, 2) == "\\" + more && want[1..] == (lag[1..] + "\\") + s[1..];
          OwedBackslash(lag[1..]);
          LooseBackslash(lag[1..] + "\\", s[1..], rest);
        } else if s[0] == '\"' {
          assert Drop(t, 2) == "\"" + more;
          PeelQuote(Drop(t, 2), want[1..], rest);
        } else if Short(s[0]) {
          SkippedShort(lag[1..], s, rest);
        } else {
          BareEscape(lag[1..], s, rest);
        }
      }
    }
  }

  lemma {:induction false} ShortEscapes()
    ensures ShortEscape('\"') == Some('\"') && ShortEscape('\\') == Some('\\') && ShortEscape('u') == None
    ensures forall c | ShortEscape(c).Some? :: ShortEscape(c).value != '\0'
  {
  }

  lemma {:induction false} EscapedForms(c: char)
    requires c != '\0'
    ensures RawChar(c) ==> Escaped(c) == [c]
    ensures !RawChar(c) ==> |Escaped(c)| > 1 && Escaped(c)[0] == '\\'
    ensures c == '\\' ==> Escaped(c) == "\\\\"
    ensures c == '\"' ==> Escaped(c) == "\\\""
  {
  }

  /** A loose backslash before an unescaped character. */
  lemma {:induction false} LooseRaw(lag: string, s: string, rest: string)
    requires Owed(lag) && lag != "" && NoNul(s) && s != "" && RawChar(s[0])
    ensures !Reads("\\" + Closed(s, rest), lag + s, rest)
    decreases |s|, 1
  {
    hide Reads, Closed, Owed, Plain, Escaped, UnicodeStep, ShortEscape;
    var want, t, more := lag + s, "\\" + Closed(s, rest), Closed(s[1..], rest);
    ClosedCons(s, rest);
    EscapedForms(s[0]);
    ShortEscapes();
    assert t == ['\\', s[0]] + more && NoNul(s[1..]);
    if ShortEscape(s[0]).Some? {
      PeelOne(t, want, rest, ShortEscape(s[0]).value, 2);
      assert Drop(t, 2) == more && want[1..] == (lag[1..] + [s[0]]) + s[1..];
      OwedTail(lag);
      OwedPlain(lag[1..], s[0]);
      NeverCatchesUp(lag[1..] + [s[0]], s[1..], rest);
    } else if s[0] == 'u' {
      LooseUnicode(lag, s, rest);
    } else {
      PeelWrong(t, want, rest);
    }
  }

  /** Hexadecimal digits of a printed string are characters of the string. */
  lemma {:induction false} HexAhead(s: string, rest: string)
    requires Hex(Closed(s, rest)[0]).Some? && NoNul(s)
    ensures s != "" && s[0] == Closed(s, rest)[0] && Closed(s, rest) == [s[0]] + Closed(s[1..], rest) && NoNul(s[1..])
    ensures ' ' < s[0] < 128 as char && s[0] != 'u'
  {
    if s == "" {
      ClosedEmpty(rest);
    } else {
      assert s[0] != '\0';
      ClosedCons(s, rest);
      EscapedForms(s[0]);
    }
  }

  /** What the printed text puts after an escape cannot complete a surrogate pair. */
  lemma {:induction false} NoLowHalf(s: string, rest: string)
    requires NoNul(s)
    ensures var t := Closed(s, rest);
            At(t, 0) == '\\' && At(t, 1) == 'u' ==> Unit16(t, 2).Some? && !LowSurrogate(Unit16(t, 2).value)
  {
    hide Closed;
    if s == "" {
      ClosedEmpty(rest);
    } else {
      assert s[0] != '\0';
      ClosedCons(s, rest);
      var t := Closed(s, rest);
      if BadChar(s[0]) {
        BadEscapeText(s[0]);
        var e := Escaped(s[0]);
        assert e[2] == e[..4][2] == '0' && e[3] == e[..4][3] == '0';
        assert At(t, 2) == e[2] && At(t, 3) == e[3] && At(t, 4) == e[4] && At(t, 5) == e[5];
      } else if t[0] == '\\' {
        assert t[1] == Escaped(s[0])[1];
      }
    }
  }

  /** A loose backslash before the letter u and four hexadecimal digits of the string. */
  lemma {:induction false} LooseUnicode(lag: string, s: string, rest: string)
    requires Owed(lag) && lag != "" && NoNul(s) && s != "" && s[0] == 'u'
    ensures !Reads("\\" + Closed(s, rest), lag + s, rest)
    decreases |s|, 0
  {
    hide Reads, Closed, Owed, Escaped, UnicodeStep, ShortEscape;
    var want, t := lag + s, "\\" + Closed(s, rest);
    ClosedCons(s, rest);
    EscapedForms(s[0]);
    ShortEscapes();
    var after := Closed(s[1..], rest);
    assert t == "\\u" + after && NoNul(s[1..]);
    if StringStep(t).Wrong? {
      PeelWrong(t, want, rest);
    } else {
      var hex := FourDigits(s[1..], rest);
      var past := s[5..];
      assert s[1..][4..] == past;
      var cp := LooseStep(t, hex, past, rest);
      PeelFirst(t, want, rest);
      Utf8RoundTrip(cp);
      var b := Utf8(cp)[0];
      if b == lag[0] && b != '\0' {
        assert ' ' <= b < 128 as char by { OwedAscii(lag); }
        assert StringStep(t) == Piece([b], 7);
        PeelOne(t, want, rest, b, 7);
        var lag' := lag[1..] + "u" + hex;
        assert s == "u" + hex + past;
        assert want[1..] == lag' + past;
        OwedEscape(lag, hex, cp);
        AfterSkip(lag', past, rest);
        assert Drop(t, 7) == Drop(Closed(past, rest), 1) by { assert t == "\\u" + hex + Closed(past, rest); }
      }
    }
  }

  lemma {:induction false} OwedAscii(lag: string)
    requires Owed(lag) && lag != ""
    ensures ' ' <= lag[0] < 128 as char
  {
    assert OwedAt(lag, 0);
  }

  lemma {:induction false} FourDigits(s: string, rest: string) returns (hex: string)
    requires NoNul(s) && StringStep("\\u" + Closed(s, rest)).Piece?
    ensures |s| >= 4 && hex == s[..4] && Closed(s, rest) == hex + Closed(s[4..], rest) && NoNul(s[4..])
    ensures forall i | 0 <= i < 4 :: Hex(hex[i]).Some? && ' ' < hex[i] < 128 as char && hex[i] != 'u'
  {
    hide Closed;
    var t := "\\u" + Closed(s, rest);
    assert At(t, 1) == 'u';
    assert Unit16(t, 2).Some?;
    assert forall i: nat :: At(t, i + 2) == At(Closed(s, rest), i);
    assert At(t, 2) == At(Closed(s, rest), 0);
    HexAhead(s, rest);
    assert At(t, 3) == At(Closed(s[1..], rest), 0);
    HexAhead(s[1..], rest);
    assert s[1..][1..] == s[2..];
    assert At(t, 4) == At(Closed(s[2..], rest), 0);
    HexAhead(s[2..], rest);
    assert s[2..][1..] == s[3..];
    assert At(t, 5) == At(Closed(s[3..], rest), 0);
    HexAhead(s[3..], rest);
    assert s[3..][1..] == s[4..];
    hex := s[..4];
    assert Closed(s, rest) == [s[0], s[1], s[2], s[3]] + Closed(s[4..], rest);
    assert hex == [s[0], s[1], s[2], s[3]];
  }

  lemma {:induction false} LooseStep(t: string, hex: string, past: string, rest: string) returns (cp: nat)
    requires |hex| == 4 && t == "\\u" + (hex + Closed(past, rest)) && NoNul(past) && StringStep(t).Piece?
    requires forall i | 0 <= i < 4 :: Hex(hex[i]).Some?
    ensures cp < 0x1_0000 && StringStep(t) == Piece(Utf8(cp), 7) && Unit16(hex, 0) == Some(cp)
  {
    hide Closed, Utf8, Hex;
    HexOfNul();
    assert At(t, 0) == '\\' && At(t, 1) == 'u';
    assert At(t, 2) == hex[0] && At(t, 3) == hex[1] && At(t, 4) == hex[2] && At(t, 5) == hex[3];
    assert Unit16(t, 2) == Unit16(hex, 0);
    cp := Unit16(hex, 0).value;
    NoLowHalf(past, rest);
    var after := Closed(past, rest);
    assert At(t, 6) == At(after, 0) && At(t, 7) == At(after, 1);
    assert At(t, 8) == At(after, 2) && At(t, 9) == At(after, 3) && At(t, 10) == At(after, 4) && At(t, 11) == At(after, 5);
    assert Unit16(t, 8) == Unit16(after, 2);
  }

  /** The escape of a printable character is owed in its turn. */
  lemma {:induction false} OwedEscape(lag: string, hex: string, cp: nat)
    requires Owed(lag) && lag != "" && |hex| == 4 && Unit16(hex, 0) == Some(cp) && 0x20 <= cp < 0x80
    requires forall i | 0 <= i < 4 :: Hex(hex[i]).Some? && ' ' < hex[i] < 128 as char && hex[i] != 'u'
    ensures Owed(lag[1..] + "u" + hex)
  {
    hide Hex;
    var h0, h1, h2, h3 := Hex(hex[0]).value, Hex(hex[1]).value, Hex(hex[2]).value, Hex(hex[3]).value;
    assert cp == ((h0 * 16 + h1) * 16 + h2) * 16 + h3;
    ZeroAndOne();
    LeadingZeros(h0, h1, h2, h3);
    var e := "u" + hex;
    assert e[0] == 'u' && forall i | 1 <= i < 5 :: e[i] == hex[i - 1];
    forall i: nat | i < 5 ensures OwedAt(e, i) { }
    OwedTail(lag);
    OwedJoin(lag[1..], e);
    assert lag[1..] + "u" + hex == lag[1..] + e;
  }

  lemma {:induction false} LeadingZeros(h0: nat, h1: nat, h2: nat, h3: nat)
    requires h3 < 16 && 0x20 <= ((h0 * 16 + h1) * 16 + h2) * 16 + h3 < 0x80
    ensures h2 != 0 && h2 != 1
  {
  }

  lemma {:induction false} ZeroAndOne()
    ensures Hex('0') == Some(0) && Hex('1') == Some(1)
    ensures forall c | Hex(c).Some? :: Hex(c).value < 16
  {
  }

  // ----- the theorem -----

  lemma {:induction false} NumericEscapeBreaks(s: string, rest: string)
    requires NoNul(s) && !Plain(s)
    ensures !Reads(Closed(s, rest), s, rest)
    decreases |s|
  {
    hide Reads, Closed;
    assert s[0] != '\0' && NoNul(s[1..]);
    if PlainChar(s[0]) {
      PeelPlain(s, s, rest);
      assert !Plain(s[1..]) by {
        var i :| 0 <= i < |s| && !PlainChar(s[i]);
        assert s[1..][i - 1] == s[i];
      }
      NumericEscapeBreaks(s[1..], rest);
    } else {
      PeelBad(s, s, rest);
      assert "" + s[1..] == s[1..];
      AfterSkip("", s[1..], rest);
    }
  }

  /** A printed string is parsed back to itself exactly when the only control characters in it are newline,
      return and tab, whatever text follows it. */
  lemma {:induction false} StringRoundTripExact(s: string, rest: string)
    requires NoNul(s)
    ensures ParseText((PrintText(s) + rest)[1..]) == Good(s, rest) <==> Plain(s)
  {
    assert (PrintText(s) + rest)[1..] == Closed(s, rest);
    if Plain(s) { PlainRoundTrip(s, rest); } else { NumericEscapeBreaks(s, rest); }
  }

  /** The numeric escape of a code point outside the surrogates passes over the character behind it: documents that
      differ only there decode alike, so a quote there does not end the string. */
  lemma {:induction false} EscapePassesOneMore(hex: string, c: char, c': char, t: string)
    requires |hex| == 4 && Unit16(hex, 0).Some? && c != '\0' && c' != '\0'
    requires !HighSurrogate(Unit16(hex, 0).value) && !LowSurrogate(Unit16(hex, 0).value)
    ensures Body("\\u" + hex + [c] + t) == Body("\\u" + hex + [c'] + t)
  {
    EscapeThen(hex, c, t);
    EscapeThen(hex, c', t);
  }

  lemma {:induction false} EscapeThen(hex: string, c: char, t: string)
    requires |hex| == 4 && Unit16(hex, 0).Some?
    requires !HighSurrogate(Unit16(hex, 0).value) && !LowSurrogate(Unit16(hex, 0).value)
    ensures Body("\\u" + hex + [c] + t) == Prepend(Utf8(Unit16(hex, 0).value), Body(t))
  {
    var u := "\\u" + hex + [c] + t;
    assert At(u, 0) == '\\' && At(u, 1) == 'u';
    assert At(u, 2) == hex[0] && At(u, 3) == hex[1] && At(u, 4) == hex[2] && At(u, 5) == hex[3];
    assert Unit16(u, 2) == Unit16(hex, 0);
    assert Drop(u, 7) == t;
  }

  // ----- the steps of a string -----

  /** `k` is where a step of the string starts, or where its steps end. */
  predicate Reached(t: string, k: nat): (r: bool)
    ensures r ==> k <= |t|
    decreases |t|
  {
    k == 0 ||
    (At(t, 0) != '\0' && At(t, 0) != '\"' &&
     var s := StringStep(t); s.Piece? && s.length <= k && s.length <= |t| && Reached(t[s.length..], k - s.length))
  }

  /** The bytes the steps before `k` stand for. */
  function Decoded(t: string, k: nat): string
    requires Reached(t, k)
    decreases |t|
  {
    if k == 0 then "" else var s := StringStep(t); s.bytes + Decoded(t[s.length..], k - s.length)
  }

  /** Reading a string is reading on from any of its steps. */
  lemma {:induction false} BodyFrom(t: string, k: nat)
    requires Reached(t, k)
    ensures Body(t) == Prepend(Decoded(t, k), Body(t[k..]))
    decreases |t|
  {
    hide StringStep;
    if k == 0 {
      assert t[k..] == t;
      PrependTwice("", "", Body(t));
    } else {
      var s := StringStep(t);
      var u := t[s.length..];
      BodyFrom(u, k - s.length);
      assert u[k - s.length..] == t[k..];
      PrependTwice(s.bytes, Decoded(u, k - s.length), Body(t[k..]));
    }
  }

  /** A decoded NUL is not refused, wherever it stands: the string the program sees ends there, and the document is
      read on behind the closing quote. */
  lemma {:induction false} DecodedNulAccepted(t: string, k: nat, c: char, u: string)
    requires Reached(t, k) && t[k..] == "\\u0000" + [c] + u && Body(u).Good?
    ensures ParseText(t) == Good(CString(Decoded(t, k)), Body(u).rest)
  {
    hide Body, CString, Utf8;
    BodyFrom(t, k);
    assert "\\u" + "0000" + [c] + u == t[k..];
    EscapeThen("0000", c, u);
    assert Utf8(0) == ['\0'] by { NulByte(); }
    var before, after := Decoded(t, k), Body(u).value;
    CStringCut(before, after);
    assert before + (['\0'] + after) == before + ['\0'] + after;
  }

  lemma {:induction false} NulByte()
    ensures Utf8(0) == ['\0'] && Unit16("0000", 0) == Some(0)
  {
  }

  lemma {:induction false} CStringCut(a: string, b: string)
    ensures CString(a + ['\0'] + b) == CString(a)
  {
    hide IndexOf;
    var t, i := a + ['\0'] + b, IndexOf(a, '\0');
    assert t[..i] == a[..i];
    IndexOfIs(t, '\0', i);
  }

  // ----- the end of the text -----

  /** A numeric escape outside a surrogate pair, with the NUL of the text directly behind it. */
  predicate EscapeAtEnd(t: string) {
    |t| == 6 && t[0] == '\\' && t[1] == 'u' &&
    match Unit16(t, 2) { case None => false case Some(cp) => !HighSurrogate(cp) && !LowSurrogate(cp) }
  }

  lemma {:induction false} StepOverrun(t: string)
    requires At(t, 0) != '\0' && StringStep(t).Piece?
    ensures StringStep(t).length > |t| <==> EscapeAtEnd(t)
  {
    hide Utf8, Hex;
    HexOfNul();
    if At(t, 0) == '\\' { assert ShortEscape('\0').None? && ShortEscape('u').None?; }
  }

  lemma {:induction false} HexOfNul()
    ensures Hex('\0') == None
  {
  }

  /** The measuring pass leaves the text and its NUL if and only if one of its steps is a numeric escape that the NUL
      follows directly. */
  lemma {:induction false} OverrunExact(t: string)
    ensures Body(t) == Bad(Overrun) <==> exists k: nat :: Reached(t, k) && EscapeAtEnd(t[k..])
    decreases |t|
  {
    hide Body, StringStep, Prepend, EscapeAtEnd;
    if k: nat :| Reached(t, k) && EscapeAtEnd(t[k..]) {
      BodyFrom(t, k);
      EscapeOverruns(t[k..]);
      PrependBad(Decoded(t, k));
    }
    if Body(t) == Bad(Overrun) {
      var k := OverrunAt(t);
    }
  }

  lemma {:induction false} PrependBad(s: string)
    ensures Prepend(s, Bad(Overrun)) == Bad(Overrun)
  {
  }

  lemma {:induction false} EscapeOverruns(t: string)
    requires EscapeAtEnd(t)
    ensures Body(t) == Bad(Overrun)
  {
    hide Hex, Utf8;
    HexOfNul();
    assert ShortEscape('u').None?;
    assert StringStep(t).Piece?;
    StepOverrun(t);
  }

  lemma {:induction false} OverrunAt(t: string) returns (k: nat)
    requires Body(t) == Bad(Overrun)
    ensures Reached(t, k) && EscapeAtEnd(t[k..])
    decreases |t|
  {
    hide StringStep, EscapeAtEnd;
    var s := StringStep(t);
    WhyNot(t);
    StepOverrun(t);
    if s.length > |t| {
      k := 0;
      assert t[k..] == t;
    } else {
      var j := OverrunAt(t[s.length..]);
      k := s.length + j;
      assert t[k..] == t[s.length..][j..];
    }
  }

  /** No step is refused for leaving the text. */
  lemma {:induction false} WhyNot(t: string)
    requires Body(t) == Bad(Overrun)
    ensures At(t, 0) != '\0' && At(t, 0) != '\"' && StringStep(t).Piece?
  {
    hide Unit16, Utf8;
  }
}
