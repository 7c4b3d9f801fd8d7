/** runtime/json.c: documents as people write them, in any layout, are read as what they say. */
module JsonLayout {
  import opened Basics
  import opened Digits
  import opened Texts
  import opened JsonText
  import opened JsonTextProofs
  import opened JsonWritten
  import opened Json
  import opened JsonProofs

  // ----- documents as they are written -----

  /** A numeral of section 6 of RFC 8259. */
  datatype Numeral = Numeral(minus: bool, whole: string, fraction: string, exponent: string)

  datatype Doc =
    | DNull
    | DBool(b: bool)
    | DNumber(n: Numeral)
    | DString(gs: seq<Glyph>)
    | DObject(members: seq<Member>)
    | DArray(elems: seq<Doc>)

  datatype Member = Member(key: seq<Glyph>, value: Doc)

  predicate SomeDigits(s: string) {
    s != "" && AllDigits(s)
  }

  predicate NumeralOk(n: Numeral) {
    && SomeDigits(n.whole) && (n.whole[0] == '0' ==> n.whole == "0")
    && (n.fraction != "" ==> n.fraction[0] == '.' && SomeDigits(n.fraction[1..]))
    && (n.exponent != "" ==> n.exponent[0] in ['e', 'E'] && ExponentOk(n.exponent[1..]))
  }

  predicate ExponentOk(s: string) {
    SomeDigits(s) || (s != "" && s[0] in ['+', '-'] && SomeDigits(s[1..]))
  }

  function NumeralText(n: Numeral): string {
    (if n.minus then "-" else "") + n.whole + n.fraction + n.exponent
  }

  /** The integer of a numeral without fraction and exponent. */
  function WholeValue(n: Numeral): int
    requires NumeralOk(n)
  {
    if n.minus then -(DecValue(n.whole) as int) else DecValue(n.whole)
  }

  predicate IsWhole(n: Numeral) {
    n.fraction == "" && n.exponent == ""
  }

  /** A numeral the parser has a value for: an integer of 64 bits, or a finite float. */
  predicate InRange(finite: Floats, n: Numeral)
    requires NumeralOk(n)
  {
    if IsWhole(n) then -0x8000_0000_0000_0000 <= WholeValue(n) <= 0x7FFF_FFFF_FFFF_FFFF else finite(NumeralText(n))
  }

  /** What a document says. */
  function Meant(d: Doc): Value
    requires DocOk(d)
    decreases d, 0
  {
    match d
    case DNull => Null
    case DBool(b) => Bool(b)
    case DNumber(n) => if IsWhole(n) then Int(WholeValue(n)) else Float(NumeralText(n))
    case DString(gs) => Str(CString(GlyphsBytes(gs)))
    case DObject(members) => Obj(Collected([], members))
    case DArray(elems) => Arr(AllMeant(elems))
  }

  function AllMeant(elems: seq<Doc>): (r: seq<Value>)
    requires forall e | e in elems :: DocOk(e)
    ensures |r| == |elems| && forall i | 0 <= i < |elems| :: r[i] == Meant(elems[i])
    decreases elems, 0
  {
    if elems == [] then [] else [Meant(elems[0])] + AllMeant(elems[1..])
  }

  /** The fields an object has once these members were read in turn. */
  function Collected(fields: seq<Field>, members: seq<Member>): seq<Field>
    requires forall m | m in members :: MemberOk(m)
    decreases members, 0
  {
    if members == [] then fields
    else
      assert MemberOk(members[0]);
      Collected(Stored(fields, Field(KeyOf(members[0]), Meant(members[0].value))), members[1..])
  }

  function KeyOf(m: Member): string
    requires AllOk(m.key)
  {
    CString(GlyphsBytes(m.key))
  }

  predicate DocOk(d: Doc)
    decreases d, 0
  {
    match d
    case DNumber(n) => NumeralOk(n)
    case DString(gs) => AllOk(gs)
    case DObject(members) => forall m | m in members :: MemberOk(m)
    case DArray(elems) => forall e | e in elems :: DocOk(e)
    case _ => true
  }

  predicate MemberOk(m: Member)
    decreases m, 1
  {
    AllOk(m.key) && DocOk(m.value)
  }

  /** The parser has a value for everything in the document, and its lists are those it takes. */
  predicate Taken(finite: Floats, d: Doc)
    requires DocOk(d)
    decreases d, 0
  {
    match d
    case DNumber(n) => InRange(finite, n)
    case DObject(members) => forall m | m in members :: MemberTaken(finite, m)
    case DArray(elems) =>
      forall i | 0 <= i < |elems| ::
        ElemTaken(finite, elems[i]) && Kind(Meant(elems[i])) == Kind(Meant(elems[0]))
    case _ => true
  }

  predicate MemberTaken(finite: Floats, m: Member)
    requires MemberOk(m)
    decreases m, 1
  {
    Taken(finite, m.value)
  }

  predicate ElemTaken(finite: Floats, e: Doc)
    requires DocOk(e)
    decreases e, 1
  {
    !e.DNull? && !e.DArray? && Taken(finite, e)
  }

  /** How many levels lie below a document. */
  function Depth(d: Doc): nat
    decreases d
  {
    match d
    case DObject(members) => if members == [] then 0 else 1 + MembersDepth(members)
    case DArray(elems) => if elems == [] then 0 else 1 + ElemsDepth(elems)
    case _ => 0
  }

  function MembersDepth(members: seq<Member>): nat
    decreases members
  {
    if members == [] then 0 else Max(Depth(members[0].value), MembersDepth(members[1..]))
  }

  function ElemsDepth(elems: seq<Doc>): nat
    decreases elems
  {
    if elems == [] then 0 else Max(Depth(elems[0]), ElemsDepth(elems[1..]))
  }

  // ----- tokens and layouts -----

  function Tokens(d: Doc): seq<string>
    decreases d, 0
  {
    match d
    case DNull => ["null"]
    case DBool(b) => [if b then "true" else "false"]
    case DNumber(n) => [NumeralText(n)]
    case DString(gs) => ["\"" + GlyphsText(gs) + "\""]
    case DObject(members) => ["{"] + MembersTokens(members) + ["}"]
    case DArray(elems) => ["["] + ElemsTokens(elems) + ["]"]
  }

  function MemberTokens(m: Member): seq<string>
    decreases m, 1
  {
    ["\"" + GlyphsText(m.key) + "\"", ":"] + Tokens(m.value)
  }

  function MembersTokens(members: seq<Member>): seq<string>
    decreases members, 0
  {
    if members == [] then []
    else MemberTokens(members[0]) + (if |members| == 1 then [] else [","] + MembersTokens(members[1..]))
  }

  function ElemsTokens(elems: seq<Doc>): seq<string>
    decreases elems, 0
  {
    if elems == [] then []
    else Tokens(elems[0]) + (if |elems| == 1 then [] else [","] + ElemsTokens(elems[1..]))
  }

  /** Blanks, tabs, newlines and returns, as section 2 of RFC 8259 has them. */
  predicate Gap(g: string) {
    forall i | 0 <= i < |g| :: g[i] == ' ' || g[i] == '\t' || g[i] == '\n' || g[i] == '\r'
  }

  predicate Gaps(gaps: seq<string>) {
    forall i | 0 <= i < |gaps| :: Gap(gaps[i])
  }

  /** The tokens with a gap before each. */
  function Lay(tokens: seq<string>, gaps: seq<string>): string
    requires |gaps| == |tokens|
  {
    if tokens == [] then "" else gaps[0] + tokens[0] + Lay(tokens[1..], gaps[1..])
  }

  lemma {:induction false} LayJoined(a: seq<string>, b: seq<string>, gaps: seq<string>)
    requires |gaps| == |a| + |b| && Gaps(gaps)
    ensures Lay(a + b, gaps) == Lay(a, gaps[..|a|]) + Lay(b, gaps[|a|..]) && Gaps(gaps[..|a|]) && Gaps(gaps[|a|..])
    decreases |a|
  {
    hide Gap;
    if a == [] {
      assert a + b == b && gaps[0..] == gaps;
    } else {
      assert (a + b)[1..] == a[1..] + b;
      LayJoined(a[1..], b, gaps[1..]);
      assert gaps[1..][..|a| - 1] == gaps[..|a|][1..] && gaps[1..][|a| - 1..] == gaps[|a|..];
    }
  }

  lemma {:induction false} LayOne(token: string, gap: string)
    ensures Lay([token], [gap]) == gap + token
  {
    assert [token][1..] == [] && [gap][1..] == [];
    assert Lay([], []) == "";
  }

  // ----- white space -----

  lemma {:induction false} GapSkipped(g: string, t: string)
    requires Gap(g) && !Space(At(t, 0))
    ensures Ws(g + t) == t
  {
    if g == "" {
      assert g + t == t;
    } else {
      assert (g + t)[1..] == g[1..] + t;
      GapSkipped(g[1..], t);
    }
  }

  /** A text that starts with a token, once its gap is skipped. */
  lemma {:induction false} FirstToken(tokens: seq<string>, gaps: seq<string>, rest: string)
    requires |gaps| == |tokens| && Gaps(gaps) && tokens != [] && tokens[0] != "" && !Space(tokens[0][0])
    ensures Ws(Lay(tokens, gaps) + rest) == tokens[0] + (Lay(tokens[1..], gaps[1..]) + rest)
    ensures Gaps(gaps[1..])
  {
    hide Space;
    var t := tokens[0] + (Lay(tokens[1..], gaps[1..]) + rest);
    assert Lay(tokens, gaps) + rest == gaps[0] + t;
    assert At(t, 0) == tokens[0][0];
    GapSkipped(gaps[0], t);
  }

  lemma {:induction false} WsTwice(t: string)
    ensures Ws(Ws(t)) == Ws(t)
  {
    WsSkipsNothing(Ws(t));
  }

  /** A gap and a character that ends a number end a number. */
  lemma {:induction false} LaidStops(tokens: seq<string>, gaps: seq<string>, rest: string)
    requires |gaps| == |tokens| && Gaps(gaps) && tokens != [] && tokens[0] in [",", ":", "}", "]"]
    ensures Stops(Lay(tokens, gaps) + rest)
  {
    assert Gap(gaps[0]);
    var t := Lay(tokens, gaps) + rest;
    assert t == gaps[0] + (tokens[0] + (Lay(tokens[1..], gaps[1..]) + rest));
    if gaps[0] != "" { assert t[0] == gaps[0][0]; } else { assert t[0] == tokens[0][0]; }
  }

  // ----- numbers -----

  lemma {:induction false} DigitsThen(d: string, t: string)
    requires AllDigits(d) && !IsDigit(At(t, 0))
    ensures DigitRun(d + t) == |d| && (d + t)[..|d|] == d && (d + t)[|d|..] == t
  {
    assert (d + t)[..|d|] == d && (d + t)[|d|..] == t;
    assert t != "" ==> (d + t)[|d|] == t[0];
    DigitRunIs(d + t, |d|);
  }

  lemma {:induction false} NotADigit()
    ensures !IsDigit('.') && !IsDigit('e') && !IsDigit('E') && !IsDigit('+') && !IsDigit('-') && !IsDigit('\0')
  {
  }

  lemma {:induction false} SomeAfter(s: string, t: string, lead: string)
    requires SomeDigits(s) && !IsDigit(At(t, 0))
    ensures DigitsAfter(lead + s + t, |lead|) == Some(|lead| + |s|)
  {
    hide DigitRun;
    var u := lead + s + t;
    assert u[|lead|] == s[0] && u[|lead|..] == s + t;
    DigitsThen(s, t);
  }

  lemma {:induction false} ExponentRead(e: string, t: string)
    requires (e != "" ==> e[0] in ['e', 'E'] && ExponentOk(e[1..])) && Stops(t)
    ensures Exponent(e + t) == Some(|e|)
  {
    hide DigitsAfter, IsDigit;
    NotADigit();
    if e == "" {
      assert e + t == t;
    } else {
      var d := e[1..];
      assert At(e + t, 0) == e[0] && At(e + t, 1) == d[0];
      if SomeDigits(d) {
        assert e + t == e[..1] + d + t;
        assert IsDigit(d[0]);
        SomeAfter(d, t, e[..1]);
      } else {
        assert e + t == e[..2] + d[1..] + t;
        SomeAfter(d[1..], t, e[..2]);
      }
    }
  }

  lemma {:induction false} FractionRead(f: string, e: string, t: string)
    requires (f != "" ==> f[0] == '.' && SomeDigits(f[1..])) && (e != "" ==> e[0] in ['e', 'E']) && Stops(t)
    ensures Fraction(f + (e + t)) == Some(|f|)
  {
    hide DigitsAfter, IsDigit;
    NotADigit();
    assert At(e + t, 0) == if e == "" then At(t, 0) else e[0];
    if f == "" {
      assert f + (e + t) == e + t;
    } else {
      assert f + (e + t) == f[..1] + f[1..] + (e + t);
      SomeAfter(f[1..], e + t, f[..1]);
    }
  }

  lemma {:induction false} WholeRead(n: Numeral, t: string)
    requires NumeralOk(n) && !IsDigit(At(t, 0))
    ensures var u := n.whole + t;
            && IntPart(u) == Some(|n.whole|) && u[..|n.whole|] == n.whole && u[|n.whole|..] == t
            && !(At(u, 0) == '0' && IsDigit(At(u, 1)))
  {
    var u := n.whole + t;
    assert IsDigit(n.whole[0]) && At(u, 0) == n.whole[0];
    DigitsThen(n.whole, t);
    if n.whole[0] == '0' { assert At(u, 1) == At(t, 0); }
  }

  /** What is behind the whole part ends it. */
  lemma {:induction false} WholeEnds(n: Numeral, rest: string)
    requires NumeralOk(n) && Stops(rest)
    ensures !IsDigit(At(n.fraction + (n.exponent + rest), 0))
  {
    hide IsDigit;
    NotADigit();
    var t := n.fraction + (n.exponent + rest);
    assert At(t, 0) == if n.fraction != "" then n.fraction[0] else if n.exponent != "" then n.exponent[0] else At(rest, 0);
  }

  /** A numeral is read as the integer or the float it denotes, or refused for its range. */
  lemma {:induction false} NumeralParsed(finite: Floats, n: Numeral, rest: string)
    requires NumeralOk(n) && Stops(rest)
    ensures ParseNumber(finite, NumeralText(n) + rest) ==
            if !InRange(finite, n) then Bad(if IsWhole(n) then IntRange else FloatRange)
            else Good(if IsWhole(n) then Int(WholeValue(n)) else Float(NumeralText(n)), rest)
  {
    hide ParseNumber, IntPart, Fraction, Exponent, DecValue, IsDigit, AllDigits, NumeralText, NumeralOk, Drop, At, Stops;
    var t := NumeralText(n) + rest;
    var sign := if n.minus then 1 else 0;
    var w, f, e := |n.whole|, |n.fraction|, |n.exponent|;
    NumeralPieces(n, rest);
    var u := Drop(t, sign);
    NumberIs(finite, t, sign, w, f, e);
  }

  /** The number once its pieces are known. */
  lemma {:induction false} NumberIs(finite: Floats, t: string, sign: nat, w: nat, f: nat, e: nat)
    requires sign == if At(t, 0) == '-' then 1 else 0
    requires var u := Drop(t, sign);
             && IntPart(u) == Some(w) && !(At(u, 0) == '0' && IsDigit(At(u, 1)))
             && Fraction(Drop(u, w)) == Some(f) && Exponent(Drop(u, w + f)) == Some(e)
    ensures var u := Drop(t, sign);
            && w <= |u| && AllDigits(u[..w]) && sign + w + f + e <= |t|
            && ParseNumber(finite, t) ==
               if f + e > 0 then
                 if finite(t[..sign + w + f + e]) then Good(Float(t[..sign + w + f + e]), Drop(u, w + f + e)) else Bad(FloatRange)
               else
                 var v := if sign == 1 then -(DecValue(u[..w]) as int) else DecValue(u[..w]);
                 if INT_MIN <= v <= INT_MAX then Good(Int(v), Drop(u, w)) else Bad(IntRange)
  {
    hide ParseNumber, IntPart, Fraction, Exponent, DecValue, IsDigit, AllDigits, Drop, At;
    NumberUnfolds(finite, t, sign);
  }

  /** A written numeral in the parser's pieces. */
  lemma {:induction false} NumeralPieces(n: Numeral, rest: string)
    requires NumeralOk(n) && Stops(rest)
    ensures var t, sign := NumeralText(n) + rest, if n.minus then 1 else 0;
            var u, w, f, e := Drop(t, sign), |n.whole|, |n.fraction|, |n.exponent|;
            && sign == (if At(t, 0) == '-' then 1 else 0)
            && IntPart(u) == Some(w) && !(At(u, 0) == '0' && IsDigit(At(u, 1)))
            && Fraction(Drop(u, w)) == Some(f) && Exponent(Drop(u, w + f)) == Some(e)
            && w <= |u| && u[..w] == n.whole && Drop(u, w + f + e) == rest && Drop(u, w) == n.fraction + (n.exponent + rest)
            && sign + w + f + e == |NumeralText(n)| && t[..sign + w + f + e] == NumeralText(n)
            && AllDigits(n.whole) && (f == 0 <==> n.fraction == "") && (e == 0 <==> n.exponent == "")
  {
    hide IntPart, Fraction, Exponent, IsDigit, Drop, At, AllDigits;
    var lead := if n.minus then "-" else "";
    Slices(lead, n.whole, n.fraction, n.exponent, rest);
    WholeStart(n);
    assert (NumeralText(n) + rest)[..|lead| + |n.whole|] == lead + n.whole;
    FirstOf(lead, n.whole, NumeralText(n) + rest);
    WholeEnds(n, rest);
    WholeRead(n, n.fraction + (n.exponent + rest));
    FractionRead(n.fraction, n.exponent, rest);
    ExponentRead(n.exponent, rest);
  }

  lemma {:induction false} Slices(lead: string, w: string, f: string, e: string, rest: string)
    ensures var t := lead + w + f + e + rest;
            && Drop(t, |lead|) == w + (f + (e + rest))
            && Drop(w + (f + (e + rest)), |w|) == f + (e + rest)
            && Drop(w + (f + (e + rest)), |w| + |f|) == e + rest
            && Drop(w + (f + (e + rest)), |w| + |f| + |e|) == rest
            && t[..|lead| + |w| + |f| + |e|] == lead + w + f + e
            && t == lead + (w + (f + (e + rest)))
  {
  }

  lemma {:induction false} FirstOf(lead: string, w: string, t: string)
    requires w != "" && |lead| + |w| <= |t| && t[..|lead| + |w|] == lead + w && lead in ["", "-"] && w[0] != '-'
    ensures At(t, 0) == '-' <==> lead == "-"
  {
    assert t[0] == t[..|lead| + |w|][0];
  }

  lemma {:induction false} WholeStart(n: Numeral)
    requires NumeralOk(n)
    ensures n.whole != "" && n.whole[0] != '-' && IsDigit(n.whole[0]) && AllDigits(n.whole)
  {
  }

  // ----- scalars -----

  lemma {:induction false} TokenStarts(d: Doc)
    requires DocOk(d)
    ensures Tokens(d) != [] && Tokens(d)[0] != "" && !Space(Tokens(d)[0][0])
    ensures d.DObject? ==> Tokens(d)[0] == "{"
    ensures d.DArray? ==> Tokens(d)[0] == "["
    ensures !d.DObject? && !d.DArray? ==> |Tokens(d)| == 1 && Tokens(d)[0][0] != '{' && Tokens(d)[0][0] != '['
    ensures Tokens(d)[0][0] != ']' && Tokens(d)[0][0] != '}'
  {
    hide MembersTokens, ElemsTokens, GlyphsText, AllOk, MemberOk;
    if d.DNumber? {
      WholeStart(d.n);
      assert NumeralText(d.n)[0] == if d.n.minus then '-' else d.n.whole[0];
    }
  }

  /** What a scalar's token is read as. */
  lemma {:induction false} ScalarParsed(finite: Floats, d: Doc, rest: string)
    requires DocOk(d) && Taken(finite, d) && !d.DObject? && !d.DArray? && Stops(rest)
    ensures ParseScalar(finite, Tokens(d)[0] + rest) == Good(Meant(d), rest)
  {
    hide ParseNumber, ParseText, Literal, NumeralText, NumeralOk, AllOk, GlyphsText, GlyphsBytes, CString, InRange;
    var t := Tokens(d)[0] + rest;
    match d
    case DNull => LiteralRead("null", rest, Null); assert t[0] == 'n';
    case DBool(b) =>
      LiteralRead("true", rest, Bool(true));
      LiteralRead("false", rest, Bool(false));
      assert t[0] == if b then 't' else 'f';
    case DNumber(n) =>
      NumberStart(n);
      NumeralParsed(finite, n, rest);
      assert t[0] == NumeralText(n)[0];
    case DString(gs) =>
      assert t == "\"" + Quoted(gs, rest);
      assert t[1..] == Quoted(gs, rest);
      TextParsed(gs, rest);
  }

  lemma {:induction false} NumberStart(n: Numeral)
    requires NumeralOk(n)
    ensures NumeralText(n) != "" && (NumeralText(n)[0] == '-' || IsDigit(NumeralText(n)[0]))
  {
    WholeStart(n);
    assert NumeralText(n)[0] == if n.minus then '-' else n.whole[0];
  }

  lemma {:induction false} TextParsed(gs: seq<Glyph>, rest: string)
    requires AllOk(gs)
    ensures ParseText(Quoted(gs, rest)) == Good(CString(GlyphsBytes(gs)), rest)
  {
    hide Body, GlyphsBytes, Quoted;
    GlyphsRead(gs, rest);
  }

  // ----- values -----

  /** What parsing a laid out document must give. */
  function Answer(d: Doc, rest: string, depth: nat): Parsed<Value>
    requires DocOk(d)
  {
    if depth + Depth(d) <= MAX_DEPTH then Good(Meant(d), rest) else Bad(TooDeep)
  }

  /** Whatever the gaps between its tokens, a document is read as what it says, or refused for its depth. */
  lemma {:induction false} DocParsed(finite: Floats, d: Doc, gaps: seq<string>, rest: string, depth: nat)
    requires DocOk(d) && Taken(finite, d) && |gaps| == |Tokens(d)| && Gaps(gaps) && Stops(rest)
    ensures ParseValue(finite, Lay(Tokens(d), gaps) + rest, depth) == Answer(d, rest, depth)
    decreases d, 1
  {
    hide Tokens, DocOk, Taken, ParseScalar, ParseObject, ParseArray, Lay, Depth, Meant, Ws, Gaps;
    TokenStarts(d);
    FirstToken(Tokens(d), gaps, rest);
    var t := Tokens(d)[0] + (Lay(Tokens(d)[1..], gaps[1..]) + rest);
    assert t[0] == Tokens(d)[0][0];
    if depth <= MAX_DEPTH {
      if d.DObject? {
        assert t[1..] == Lay(Tokens(d)[1..], gaps[1..]) + rest;
        ObjectParsed(finite, d, gaps[1..], rest, depth);
      } else if d.DArray? {
        assert t[1..] == Lay(Tokens(d)[1..], gaps[1..]) + rest;
        ArrayParsed(finite, d, gaps[1..], rest, depth);
      } else {
        assert Lay(Tokens(d)[1..], gaps[1..]) == "" by { NoTokens(Tokens(d)[1..], gaps[1..]); }
        assert t == Tokens(d)[0] + rest;
        ScalarParsed(finite, d, rest);
        ScalarDepth(d);
      }
    }
  }

  lemma {:induction false} OnlyToken(token: string, gaps: seq<string>, rest: string)
    requires |gaps| == 1 && Gaps(gaps) && token != "" && token[0] in "}]"
    ensures Ws(Lay([token], gaps) + rest) == token + rest
  {
    hide Ws, Lay, Gaps;
    FirstToken([token], gaps, rest);
    NoTokens([token][1..], gaps[1..]);
    assert token + ("" + rest) == token + rest;
  }

  lemma {:induction false} NoTokens(tokens: seq<string>, gaps: seq<string>)
    requires tokens == [] && gaps == []
    ensures Lay(tokens, gaps) == ""
  {
  }

  lemma {:induction false} ScalarDepth(d: Doc)
    requires !d.DObject? && !d.DArray?
    ensures Depth(d) == 0
  {
  }

  lemma {:induction false} ObjectTokens(d: Doc)
    requires d.DObject? && DocOk(d)
    ensures Tokens(d)[1..] == MembersTokens(d.members) + ["}"] && forall m | m in d.members :: MemberOk(m)
    ensures Meant(d) == Obj(Collected([], d.members))
    ensures Depth(d) == if d.members == [] then 0 else 1 + MembersDepth(d.members)
  {
    hide MembersTokens, Collected, MembersDepth, MemberOk;
  }

  lemma {:induction false} ObjectParsed(finite: Floats, d: Doc, gaps: seq<string>, rest: string, depth: nat)
    requires d.DObject? && DocOk(d) && Taken(finite, d) && depth <= MAX_DEPTH
    requires Tokens(d) != [] && |gaps| == |Tokens(d)| - 1 && Gaps(gaps)
    ensures ParseObject(finite, Lay(Tokens(d)[1..], gaps) + rest, depth + 1) == Answer(d, rest, depth)
    decreases d, 0
  {
    hide Tokens, DocOk, ParseFields, Lay, Depth, Meant, Ws, Gaps, MembersTokens, Collected, MembersDepth, MemberOk, MemberTaken;
    ObjectTokens(d);
    var members := d.members;
    var tokens := MembersTokens(members) + ["}"];
    if members == [] {
      assert tokens == ["}"] by { NoMembers(); }
      assert |gaps| == |Tokens(d)[1..]|;
      OnlyToken("}", gaps, rest);
      assert ("}" + rest)[1..] == rest;
      NothingCollected([]);
    } else {
      MembersStart(members);
      FirstToken(tokens, gaps, rest);
      MembersParsed(finite, members, gaps, rest, depth + 1, []);
    }
  }

  lemma {:induction false} NoMembers()
    ensures MembersTokens([]) == [] && ElemsTokens([]) == [] && MembersDepth([]) == 0 && ElemsDepth([]) == 0
  {
  }

  lemma {:induction false} NothingCollected(fields: seq<Field>)
    ensures Collected(fields, []) == fields
  {
  }

  lemma {:induction false} MembersStart(members: seq<Member>)
    requires members != []
    ensures var tokens := MembersTokens(members) + ["}"]; tokens[0] != "" && tokens[0][0] == '\"' && !Space(tokens[0][0])
  {
    hide GlyphsText, Tokens;
  }

  /** What follows a member. */
  function MembersTail(more: seq<Member>): seq<string> {
    if more == [] then ["}"] else [","] + MembersTokens(more) + ["}"]
  }

  lemma {:induction false} MembersShape(members: seq<Member>)
    requires members != []
    ensures MembersTokens(members) + ["}"] == MemberTokens(members[0]) + MembersTail(members[1..])
    ensures MembersDepth(members) == Max(Depth(members[0].value), MembersDepth(members[1..]))
  {
    hide MemberTokens, Depth;
  }

  lemma {:induction false} CollectedStep(fields: seq<Field>, members: seq<Member>)
    requires members != [] && forall m | m in members :: MemberOk(m)
    ensures MemberOk(members[0]) && forall m | m in members[1..] :: MemberOk(m) && m in members
    ensures Collected(fields, members) ==
            Collected(Stored(fields, Field(KeyOf(members[0]), Meant(members[0].value))), members[1..])
  {
    hide Meant, KeyOf, Stored;
    assert members[0] in members && forall m | m in members[1..] :: m in members;
  }

  lemma {:induction false} MembersParsed(finite: Floats, members: seq<Member>, gaps: seq<string>, rest: string, depth: nat,
                                         fields: seq<Field>)
    requires members != [] && forall m | m in members :: MemberOk(m) && MemberTaken(finite, m)
    requires |gaps| == |MembersTokens(members) + ["}"]| && Gaps(gaps)
    ensures ParseFields(finite, Ws(Lay(MembersTokens(members) + ["}"], gaps) + rest), depth, fields) ==
            if depth + MembersDepth(members) <= MAX_DEPTH then Good(Obj(Collected(fields, members)), rest) else Bad(TooDeep)
    decreases members, 0
  {
    hide ParseField, Stored, Lay, Depth, Meant, Ws, Gaps, MembersTokens, MemberTokens, Collected, MembersDepth, MemberTaken,
      Space, Stops, KeyOf;
    var m, more := members[0], members[1..];
    assert m in members;
    var first, tail := MemberTokens(m), MembersTail(more);
    MembersShape(members);
    CollectedStep(fields, members);
    LayJoined(first, tail, gaps);
    var g, after := gaps[..|first|], gaps[|first|..];
    var behind := Lay(tail, after) + rest;
    assert Lay(first + tail, gaps) + rest == Lay(first, g) + behind;
    LaidStops(tail, after, rest);
    MemberParsed(finite, m, g, behind, depth);
    var t := Ws(Lay(first, g) + behind);
    FieldsTurn(finite, t, depth, fields);
    assert ',' != '}' && !Space(',') && !Space('}') by { hide *; SpaceNot(); }
    FirstToken(tail, after, rest);
    var left := Lay(tail[1..], after[1..]) + rest;
    if more == [] {
      assert tail == ["}"];
      NoTokens(tail[1..], after[1..]);
      NoMembers();
      NothingCollected(Stored(fields, Field(KeyOf(m), Meant(m.value))));
      assert ("}" + left)[1..] == left == rest;
    } else {
      assert tail[1..] == MembersTokens(more) + ["}"];
      assert ("," + left)[1..] == left;
      MembersParsed(finite, more, after[1..], rest, depth, Stored(fields, Field(KeyOf(m), Meant(m.value))));
    }
  }

  lemma {:induction false} SpaceNot()
    ensures !Space(',') && !Space('}') && !Space(']') && !Space(':') && !Space('\"')
  {
  }

  /** One turn over the fields, the field known. */
  lemma {:induction false} FieldsTurn(finite: Floats, t: string, depth: nat, fields: seq<Field>)
    ensures var f := ParseField(finite, t, depth);
            ParseFields(finite, t, depth, fields) ==
            if f.Bad? then Bad(f.why)
            else
              var all, u := Stored(fields, f.value), Ws(f.rest);
              if At(u, 0) == ',' then ParseFields(finite, Ws(u[1..]), depth, all)
              else if At(u, 0) == '}' then Good(Obj(all), u[1..])
              else Bad(ExpectedCommaOrBrace)
  {
    hide ParseField, Stored, Ws;
  }

  lemma {:induction false} MemberParsed(finite: Floats, m: Member, gaps: seq<string>, rest: string, depth: nat)
    requires MemberOk(m) && MemberTaken(finite, m) && |gaps| == |MemberTokens(m)| && Gaps(gaps) && Stops(rest)
    ensures ParseField(finite, Ws(Lay(MemberTokens(m), gaps) + rest), depth) ==
            if depth + Depth(m.value) <= MAX_DEPTH then Good(Field(KeyOf(m), Meant(m.value)), rest) else Bad(TooDeep)
    decreases m, 0
  {
    hide ParseText, ParseValue, Tokens, Lay, Depth, Meant, Ws, Gaps, DocOk, Taken, AllOk, GlyphsText, Stops, KeyOf;
    var tokens, values := MemberTokens(m), Tokens(m.value);
    var quoted := "\"" + GlyphsText(m.key) + "\"";
    assert tokens[1..] == [":"] + values && tokens[1..][1..] == values && tokens[0] == quoted && quoted[0] == '\"';
    SpaceNot();
    FirstToken(tokens, gaps, rest);
    var behind := Lay(tokens[1..], gaps[1..]) + rest;
    assert (quoted + behind)[1..] == Quoted(m.key, behind);
    TextParsed(m.key, behind);
    FirstToken(tokens[1..], gaps[1..], rest);
    var laid := Lay(values, gaps[1..][1..]) + rest;
    assert (":" + laid)[1..] == laid;
    DocParsed(finite, m.value, gaps[1..][1..], rest, depth);
    ValueWs(finite, laid, depth);
    KeyIs(m);
  }

  lemma {:induction false} KeyIs(m: Member)
    requires AllOk(m.key)
    ensures KeyOf(m) == CString(GlyphsBytes(m.key))
  {
  }

  /** White space in front of a value is skipped before the value is looked at. */
  lemma {:induction false} ValueWs(finite: Floats, t: string, depth: nat)
    ensures ParseValue(finite, Ws(t), depth) == ParseValue(finite, t, depth)
  {
    hide ParseScalar, ParseObject, ParseArray, Ws;
    WsTwice(t);
  }

  // ----- lists -----

  lemma {:induction false} ArrayTokens(finite: Floats, d: Doc)
    requires d.DArray? && DocOk(d) && Taken(finite, d)
    ensures Tokens(d)[1..] == ElemsTokens(d.elems) + ["]"] && forall e | e in d.elems :: DocOk(e)
    ensures Meant(d) == Arr(AllMeant(d.elems))
    ensures forall e | e in d.elems :: ElemTaken(finite, e) && Kind(Meant(e)) == Kind(Meant(d.elems[0]))
    ensures Depth(d) == if d.elems == [] then 0 else 1 + ElemsDepth(d.elems)
  {
    hide ElemsTokens, AllMeant, ElemsDepth, Kind, ElemTaken;
  }

  lemma {:induction false} ArrayParsed(finite: Floats, d: Doc, gaps: seq<string>, rest: string, depth: nat)
    requires d.DArray? && DocOk(d) && Taken(finite, d) && depth <= MAX_DEPTH
    requires Tokens(d) != [] && |gaps| == |Tokens(d)| - 1 && Gaps(gaps)
    ensures ParseArray(finite, Lay(Tokens(d)[1..], gaps) + rest, depth + 1) == Answer(d, rest, depth)
    decreases d, 0
  {
    hide Tokens, DocOk, Taken, ParseElems, Lay, Depth, Meant, Ws, Gaps, ElemsTokens, AllMeant, ElemsDepth, ElemTaken, Kind;
    ArrayTokens(finite, d);
    var elems := d.elems;
    var tokens := ElemsTokens(elems) + ["]"];
    if elems == [] {
      assert tokens == ["]"] by { NoMembers(); }
      FirstToken(tokens, gaps, rest);
      NoTokens(tokens[1..], gaps[1..]);
      assert "]" + ("" + rest) == "]" + rest && ("]" + rest)[1..] == rest;
      assert AllMeant(elems) == [] by { NothingMeant(elems); }
    } else {
      assert elems[0] in elems;
      assert ElemsLike(finite, elems, elems[0]);
      ElemsStarts(elems);
      FirstToken(tokens, gaps, rest);
      ElemsParsed(finite, elems, gaps, rest, depth + 1, [], elems[0]);
      assert [] + AllMeant(elems) == AllMeant(elems);
    }
  }

  lemma {:induction false} NothingMeant(elems: seq<Doc>)
    requires elems == []
    ensures AllMeant(elems) == []
  {
  }

  lemma {:induction false} ElemsStarts(elems: seq<Doc>)
    requires elems != [] && DocOk(elems[0])
    ensures var tokens := ElemsTokens(elems) + ["]"];
            tokens[0] != "" && !Space(tokens[0][0]) && tokens[0][0] != ']'
  {
    hide Tokens, Space;
    TokenStarts(elems[0]);
  }

  /** What follows an element. */
  function ElemsTail(more: seq<Doc>): seq<string> {
    if more == [] then ["]"] else [","] + ElemsTokens(more) + ["]"]
  }

  lemma {:induction false} ElemsShape(elems: seq<Doc>)
    requires elems != []
    ensures ElemsTokens(elems) + ["]"] == Tokens(elems[0]) + ElemsTail(elems[1..])
    ensures ElemsDepth(elems) == Max(Depth(elems[0]), ElemsDepth(elems[1..]))
  {
    hide Tokens, Depth;
  }

  lemma {:induction false} AllMeantStep(elems: seq<Doc>, acc: seq<Value>)
    requires elems != [] && forall e | e in elems :: DocOk(e)
    ensures DocOk(elems[0]) && forall e | e in elems[1..] :: DocOk(e) && e in elems
    ensures acc + AllMeant(elems) == acc + [Meant(elems[0])] + AllMeant(elems[1..])
  {
    hide Meant, DocOk;
    assert elems[0] in elems && forall e | e in elems[1..] :: e in elems;
    assert AllMeant(elems) == [Meant(elems[0])] + AllMeant(elems[1..]);
    Assoc(acc, [Meant(elems[0])], AllMeant(elems[1..]));
  }

  /** Elements a list takes behind one like `first`. */
  predicate ElemsLike(finite: Floats, elems: seq<Doc>, first: Doc) {
    DocOk(first) && forall e | e in elems :: DocOk(e) && ElemTaken(finite, e) && Kind(Meant(e)) == Kind(Meant(first))
  }

  lemma {:induction false} ElemsLikeStep(finite: Floats, elems: seq<Doc>, first: Doc)
    requires elems != [] && ElemsLike(finite, elems, first)
    ensures DocOk(first) && DocOk(elems[0]) && ElemTaken(finite, elems[0]) && Kind(Meant(elems[0])) == Kind(Meant(first))
    ensures ElemsLike(finite, elems[1..], first) && forall e | e in elems :: DocOk(e)
  {
    hide DocOk, ElemTaken, Meant, Kind;
    assert elems[0] in elems && forall e | e in elems[1..] :: e in elems;
  }

  lemma {:induction false} LikeFirst(finite: Floats, elems: seq<Doc>, first: Doc)
    requires ElemsLike(finite, elems, first)
    ensures DocOk(first) && forall e | e in elems :: DocOk(e)
  {
    hide DocOk, ElemTaken, Meant, Kind;
  }

  lemma {:induction false} ElemGoes(finite: Floats, acc: seq<Value>, e: Doc, first: Doc)
    requires DocOk(e) && ElemTaken(finite, e) && DocOk(first) && Kind(Meant(e)) == Kind(Meant(first))
    requires acc != [] ==> Kind(acc[0]) == Kind(Meant(first))
    ensures ElementProblem(acc, Meant(e)).None? && Taken(finite, e)
  {
    hide Kind, Collected, AllMeant, Taken;
  }

  lemma {:induction false} ElemsParsed(finite: Floats, elems: seq<Doc>, gaps: seq<string>, rest: string, depth: nat,
                                       acc: seq<Value>, first: Doc)
    requires elems != [] && ElemsLike(finite, elems, first)
    requires acc != [] ==> Kind(acc[0]) == (LikeFirst(finite, elems, first); Kind(Meant(first)))
    requires |gaps| == |ElemsTokens(elems) + ["]"]| && Gaps(gaps)
    ensures forall e | e in elems :: DocOk(e)
    ensures ParseElems(finite, Ws(Lay(ElemsTokens(elems) + ["]"], gaps) + rest), depth, acc) ==
            if depth + ElemsDepth(elems) <= MAX_DEPTH then Good(Arr(acc + AllMeant(elems)), rest) else Bad(TooDeep)
    decreases elems, 0
  {
    hide ParseValue, Lay, Depth, Meant, Ws, Gaps, Tokens, ElemsTokens, AllMeant, ElemsDepth, DocOk, Taken, ElemTaken, Space,
      Stops, Kind, ElementProblem, ElemsLike;
    var e, more := elems[0], elems[1..];
    ElemsLikeStep(finite, elems, first);
    var head, tail := Tokens(e), ElemsTail(more);
    ElemsShape(elems);
    AllMeantStep(elems, acc);
    LayJoined(head, tail, gaps);
    var g, after := gaps[..|head|], gaps[|head|..];
    var behind := Lay(tail, after) + rest;
    var t := Lay(head, g) + behind;
    assert Lay(head + tail, gaps) + rest == t;
    LaidStops(tail, after, rest);
    ElemGoes(finite, acc, e, first);
    DocParsed(finite, e, g, behind, depth);
    ValueWs(finite, t, depth);
    ElemsTurn(finite, Ws(t), depth, acc);
    SpaceNot();
    FirstToken(tail, after, rest);
    var left := Lay(tail[1..], after[1..]) + rest;
    if more == [] {
      assert tail == ["]"];
      NoTokens(tail[1..], after[1..]);
      NoMembers();
      NothingMeant(more);
      assert acc + [Meant(e)] + [] == acc + [Meant(e)];
      assert ("]" + left)[1..] == left == rest;
    } else {
      assert tail[1..] == ElemsTokens(more) + ["]"];
      assert ("," + left)[1..] == left;
      assert (acc + [Meant(e)])[0] == if acc == [] then Meant(e) else acc[0];
      ElemsParsed(finite, more, after[1..], rest, depth, acc + [Meant(e)], first);
    }
  }

  lemma {:induction false} ElemsTurn(finite: Floats, t: string, depth: nat, elems: seq<Value>)
    ensures var v := ParseValue(finite, t, depth);
            ParseElems(finite, t, depth, elems) ==
            if v.Bad? then Bad(v.why)
            else if ElementProblem(elems, v.value).Some? then Bad(ElementProblem(elems, v.value).value)
            else
              var all, u := elems + [v.value], Ws(v.rest);
              if At(u, 0) == ',' then ParseElems(finite, Ws(u[1..]), depth, all)
              else if At(u, 0) == ']' then Good(Arr(all), u[1..])
              else Bad(ExpectedCommaOrBracket)
  {
    hide ParseValue, ElementProblem, Ws;
  }

  // ----- documents -----

  /** An object in any layout, with white space behind it, is read as what it says exactly when no value in it lies more
      than 64 levels deep. */
  lemma {:induction false} LayoutParsed(finite: Floats, d: Doc, gaps: seq<string>, tail: string)
    requires d.DObject? && DocOk(d) && Taken(finite, d) && |gaps| == |Tokens(d)| && Gaps(gaps) && Gap(tail)
    ensures ParseDocument(finite, Lay(Tokens(d), gaps) + tail) ==
            if Depth(d) <= MAX_DEPTH then Good(Meant(d), "") else Bad(TooDeep)
  {
    hide ParseValue, Tokens, DocOk, Taken, Lay, Depth, Meant, Gaps;
    assert Stops(tail) by { assert tail != "" ==> tail[0] == ' ' || tail[0] == '\t' || tail[0] == '\n' || tail[0] == '\r'; }
    assert Ws(tail) == "" by { assert tail + "" == tail; GapSkipped(tail, ""); }
    DocParsed(finite, d, gaps, tail, 0);
    ObjectTokens(d);
  }
}
