/** runtime/json.c: exactly which strings are read, and as what. */
module JsonWritten {
  import opened Basics
  import opened Digits
  import opened JsonText
  import opened JsonTextProofs

  // ----- how a string is written -----

  /** A character as itself, a short escape, a numeric escape with the character the parser loses behind it, or the escapes
      of a surrogate pair. */
  datatype Glyph = Itself(c: char) | Letter(c: char) | Numeric(hex: string, lost: char) | Pair(high: string, low: string)

  predicate FourHex(s: string) {
    |s| == 4 && AllHex(s)
  }

  /** As section 7 of RFC 8259 has them, but for the lost character. */
  predicate GlyphOk(g: Glyph) {
    match g
    case Itself(c) => c >= ' ' && c != '\"' && c != '\\'
    case Letter(c) => c in ['\"', '\\', '/', 'b', 'f', 'n', 'r', 't']
    case Numeric(hex, _) => FourHex(hex) && !(0xD800 <= HexValue(hex) <= 0xDFFF)
    case Pair(high, low) =>
      FourHex(high) && FourHex(low) && 0xD800 <= HexValue(high) <= 0xDBFF && 0xDC00 <= HexValue(low) <= 0xDFFF
  }

  function GlyphText(g: Glyph): string {
    match g
    case Itself(c) => [c]
    case Letter(c) => ['\\', c]
    case Numeric(hex, lost) => "\\u" + hex + [lost]
    case Pair(high, low) => "\\u" + high + "\\u" + low
  }

  /** The bytes a glyph stands for. */
  function GlyphBytes(g: Glyph): string
    requires GlyphOk(g)
  {
    match g
    case Itself(c) => [c]
    case Letter(c) =>
      if c == 'b' then [8 as char]
      else if c == 'f' then [12 as char]
      else if c == 'n' then [10 as char]
      else if c == 'r' then [13 as char]
      else if c == 't' then [9 as char]
      else [c]
    case Numeric(hex, _) => HexBound(hex); Utf8(HexValue(hex))
    case Pair(high, low) => Utf8(0x1_0000 + (HexValue(high) - 0xD800) * 0x400 + (HexValue(low) - 0xDC00))
  }

  predicate AllOk(gs: seq<Glyph>) {
    forall i | 0 <= i < |gs| :: GlyphOk(gs[i])
  }

  function GlyphsText(gs: seq<Glyph>): string {
    if gs == [] then "" else GlyphText(gs[0]) + GlyphsText(gs[1..])
  }

  function GlyphsBytes(gs: seq<Glyph>): string
    requires AllOk(gs)
  {
    if gs == [] then "" else GlyphBytes(gs[0]) + GlyphsBytes(gs[1..])
  }

  /** A string behind its opening quote, with what follows it. */
  function Quoted(gs: seq<Glyph>, rest: string): string {
    GlyphsText(gs) + "\"" + rest
  }

  // ----- hexadecimal -----

  lemma {:induction false} HexBound(s: string)
    requires FourHex(s)
    ensures HexValue(s) < 0x1_0000
    ensures Unit16(s, 0) == Some(HexValue(s))
  {
    var s3, s2, s1 := s[..3], s[..2], s[..1];
    assert s3[..2] == s2 && s2[..1] == s1 && s1[..0] == "";
    assert HexValue("") == 0;
    assert HexValue(s1) == Hex(s[0]).value;
    assert HexValue(s2) == HexValue(s1) * 16 + Hex(s[1]).value;
    assert HexValue(s3) == HexValue(s2) * 16 + Hex(s[2]).value;
    ZeroAndOne();
  }

  lemma {:induction false} UnitAt(t: string, i: nat)
    requires Unit16(t, i).Some?
    ensures i + 4 <= |t| && FourHex(t[i..i + 4]) && HexValue(t[i..i + 4]) == Unit16(t, i).value
  {
    HexOfNul();
    assert i + 4 <= |t|;
    var s := t[i..i + 4];
    assert At(t, i) == s[0] && At(t, i + 1) == s[1] && At(t, i + 2) == s[2] && At(t, i + 3) == s[3];
    HexBound(s);
  }

  lemma {:induction false} UnitIn(t: string, i: nat, hex: string)
    requires FourHex(hex) && i + 4 <= |t| && t[i..i + 4] == hex
    ensures Unit16(t, i) == Some(HexValue(hex)) && !HasNul(t, i)
  {
    hide HexValue;
    HexBound(hex);
    HexOfNul();
    assert At(t, i) == hex[0] && At(t, i + 1) == hex[1] && At(t, i + 2) == hex[2] && At(t, i + 3) == hex[3];
  }

  // ----- reading what is written -----

  /** One step of the parser reads one glyph. */
  lemma {:induction false} GlyphRead(g: Glyph, t: string)
    requires GlyphOk(g)
    ensures var u := GlyphText(g) + t;
            && At(u, 0) != '\0' && At(u, 0) != '\"'
            && StringStep(u) == Piece(GlyphBytes(g), |GlyphText(g)|) && u[|GlyphText(g)|..] == t
  {
    hide Utf8, HexValue, Unit16;
    var u := GlyphText(g) + t;
    match g
    case Itself(c) =>
    case Letter(c) =>
    case Numeric(hex, lost) =>
      assert u[..2] == "\\u" && u[2..6] == hex;
      UnitIn(u, 2, hex);
      assert At(u, 0) == '\\' && At(u, 1) == 'u' && ShortEscape('u').None?;
    case Pair(high, low) =>
      PairRead(high, low, t);
  }

  lemma {:induction false} PairRead(high: string, low: string, t: string)
    requires GlyphOk(Pair(high, low))
    ensures StringStep("\\u" + high + "\\u" + low + t) == Piece(GlyphBytes(Pair(high, low)), 12)
  {
    hide Utf8, HexValue, Unit16;
    var u := "\\u" + high + "\\u" + low + t;
    assert u[..2] == "\\u" && u[2..6] == high && u[6..8] == "\\u" && u[8..12] == low;
    UnitIn(u, 2, high);
    UnitIn(u, 8, low);
    assert At(u, 0) == u[..2][0] && At(u, 1) == u[..2][1] && At(u, 6) == u[6..8][0] && At(u, 7) == u[6..8][1];
    assert ShortEscape('u').None?;
  }

  lemma {:induction false} GlyphsRead(gs: seq<Glyph>, rest: string)
    requires AllOk(gs)
    ensures Body(Quoted(gs, rest)) == Good(GlyphsBytes(gs), rest)
    decreases |gs|
  {
    hide StringStep, GlyphOk, GlyphText, GlyphBytes, Body, Prepend;
    var t := Quoted(gs, rest);
    BodyStep(t);
    if gs == [] {
      assert t == "\"" + rest;
      assert t[1..] == rest;
    } else {
      GlyphsRead(gs[1..], rest);
      var u := Quoted(gs[1..], rest);
      assert t == GlyphText(gs[0]) + u;
      GlyphRead(gs[0], u);
      assert Prepend(GlyphBytes(gs[0]), Good(GlyphsBytes(gs[1..]), rest)) ==
             Good(GlyphBytes(gs[0]) + GlyphsBytes(gs[1..]), rest) by { Prepended(GlyphBytes(gs[0]), GlyphsBytes(gs[1..]), rest); }
    }
  }

  lemma {:induction false} Prepended(a: string, b: string, rest: string)
    ensures Prepend(a, Good(b, rest)) == Good(a + b, rest)
  {
  }

  // ----- nothing else is read -----

  /** A step of the parser is a glyph. */
  lemma {:induction false} GlyphOf(t: string) returns (g: Glyph)
    requires At(t, 0) != '\0' && At(t, 0) != '\"' && StringStep(t).Piece? && StringStep(t).length <= |t|
    ensures GlyphOk(g) && StringStep(t) == Piece(GlyphBytes(g), |GlyphText(g)|)
    ensures t == GlyphText(g) + t[StringStep(t).length..]
  {
    hide Utf8, HexValue, Unit16, HasNul;
    if t[0] != '\\' {
      g := Itself(t[0]);
    } else if ShortEscape(At(t, 1)).Some? {
      g := Letter(t[1]);
    } else if HighSurrogate(Unit16(t, 2).value) {
      g := PairOf(t);
    } else {
      UnitAt(t, 2);
      g := Numeric(t[2..6], t[6]);
      assert t[..2] == "\\u";
      assert t == t[..2] + t[2..6] + [t[6]] + t[7..];
    }
  }

  lemma {:induction false} PairOf(t: string) returns (g: Glyph)
    requires At(t, 0) == '\\' && At(t, 1) == 'u' && UnicodeStep(t).Piece? && HighSurrogate(Unit16(t, 2).value)
    requires UnicodeStep(t).length <= |t|
    ensures GlyphOk(g) && g.Pair? && UnicodeStep(t) == Piece(GlyphBytes(g), 12) && t == GlyphText(g) + t[12..]
  {
    hide Utf8, HexValue, Unit16, HasNul;
    UnitAt(t, 2);
    UnitAt(t, 8);
    g := Pair(t[2..6], t[8..12]);
    assert t[..2] == "\\u" && t[6..8] == "\\u";
    assert t == t[..2] + t[2..6] + t[6..8] + t[8..12] + t[12..];
  }

  lemma {:induction false} GlyphsOf(t: string) returns (gs: seq<Glyph>)
    requires Body(t).Good?
    ensures AllOk(gs) && t == Quoted(gs, Body(t).rest) && Body(t).value == GlyphsBytes(gs)
    decreases |t|
  {
    hide StringStep, GlyphOk, GlyphText, GlyphBytes, Body;
    BodyStep(t);
    StepForwards(t);
    if At(t, 0) == '\"' {
      gs := [];
      assert t == "\"" + t[1..];
    } else {
      var g := GlyphOf(t);
      var u := t[StringStep(t).length..];
      var more := GlyphsOf(u);
      gs := [g] + more;
      assert gs[1..] == more;
      assert t == GlyphText(g) + (GlyphsText(more) + "\"" + Body(t).rest);
      assert GlyphText(g) + (GlyphsText(more) + "\"" + Body(t).rest) == GlyphText(g) + GlyphsText(more) + "\"" + Body(t).rest;
    }
  }

  lemma {:induction false} StepForwards(t: string)
    ensures StringStep(t).Piece? ==> StringStep(t).length > 0
  {
    hide Utf8, Unit16;
  }

  /** A string is read, and as these bytes, if and only if it is written in these glyphs. */
  lemma {:induction false} StringLanguage(t: string, v: string, rest: string)
    ensures Body(t) == Good(v, rest)
            <==> exists gs: seq<Glyph> :: AllOk(gs) && t == Quoted(gs, rest) && v == GlyphsBytes(gs)
  {
    hide Body, AllOk, Quoted, GlyphsBytes;
    if Body(t) == Good(v, rest) {
      var gs := GlyphsOf(t);
    }
    if exists gs: seq<Glyph> :: AllOk(gs) && t == Quoted(gs, rest) && v == GlyphsBytes(gs) {
      var gs: seq<Glyph> :| AllOk(gs) && t == Quoted(gs, rest) && v == GlyphsBytes(gs);
      GlyphsRead(gs, rest);
    }
  }

  /** A surrogate pair is the code point that RFC 8259 takes it for, in the bytes of RFC 3629. */
  lemma {:induction false} PairMeans(high: string, low: string, cp: nat)
    requires GlyphOk(Pair(high, low))
    requires cp == (HexValue(high) - 0xD800) * 0x400 + (HexValue(low) - 0xDC00) + 0x1_0000
    ensures var b := GlyphBytes(Pair(high, low)); |b| == 4 && 0x1_0000 <= cp < 0x11_0000 && b == Utf8(cp)
    ensures var b := Utf8(cp); (forall i | 0 <= i < 4 :: b[i] as nat >= 0x80) && b[0] as nat >= 0xF0 && Utf8Value(b) == cp
  {
    hide HexValue, Utf8Value;
    Utf8RoundTrip(cp);
  }
}
