/** runtime/json.c: nothing is accepted but JSON. */
module JsonLanguage {
  import opened Basics
  import opened Digits
  import opened Texts
  import opened JsonText
  import opened JsonTextProofs
  import opened JsonWritten
  import opened Json
  import opened JsonLayout

  // ----- white space -----

  /** What is skipped is a gap. */
  lemma {:induction false} GapOf(t: string) returns (g: string)
    ensures Gap(g) && t == g + Ws(t)
  {
    if t != "" && Space(t[0]) {
      var more := GapOf(t[1..]);
      g := [t[0]] + more;
      assert t == [t[0]] + t[1..];
    } else {
      g := "";
    }
  }

  // ----- numbers -----

  lemma {:induction false} SomeDigitsOf(t: string, skip: nat)
    requires DigitsAfter(t, skip).Some?
    ensures skip < DigitsAfter(t, skip).value <= |t| && SomeDigits(t[skip..DigitsAfter(t, skip).value])
  {
    var n := DigitRun(t[skip..]);
    assert t[skip..][..n] == t[skip..skip + n];
  }

  lemma {:induction false} FractionOf(t: string)
    requires Fraction(t).Some?
    ensures var f := t[..Fraction(t).value]; f != "" ==> f[0] == '.' && SomeDigits(f[1..])
  {
    hide DigitsAfter;
    if At(t, 0) == '.' {
      SomeDigitsOf(t, 1);
      var f := t[..Fraction(t).value];
      assert f[1..] == t[1..|f|];
    }
  }

  lemma {:induction false} ExponentOf(t: string)
    requires Exponent(t).Some?
    ensures var e := t[..Exponent(t).value]; e != "" ==> e[0] in ['e', 'E'] && ExponentOk(e[1..])
  {
    hide DigitsAfter;
    if At(t, 0) == 'e' || At(t, 0) == 'E' {
      var skip := if At(t, 1) == '+' || At(t, 1) == '-' then 2 else 1;
      SomeDigitsOf(t, skip);
      var e := t[..Exponent(t).value];
      assert e[skip..] == t[skip..|e|];
      if skip == 2 { assert e[1..][0] == t[1] && e[1..][1..] == e[2..]; }
    }
  }

  lemma {:induction false} WholeOf(u: string)
    requires IntPart(u).Some? && !(At(u, 0) == '0' && IsDigit(At(u, 1)))
    ensures IntPart(u).value <= |u|
    ensures var w := u[..IntPart(u).value]; SomeDigits(w) && (w[0] == '0' ==> w == "0")
  {
    if At(u, 0) == '0' { assert u[..1] == "0"; }
  }

  lemma {:induction false} NumeralWritten(finite: Floats, t: string) returns (n: Numeral)
    requires ParseNumber(finite, t).Good?
    ensures NumeralOk(n) && InRange(finite, n) && t == NumeralText(n) + ParseNumber(finite, t).rest
    ensures ParseNumber(finite, t).value == if IsWhole(n) then Int(WholeValue(n)) else Float(NumeralText(n))
  {
    hide ParseNumber, IntPart, Fraction, Exponent, DecValue, IsDigit, AllDigits, At, NumeralOk;
    var minus := At(t, 0) == '-';
    var sign := if minus then 1 else 0;
    NumberUnfolds(finite, t, sign);
    var u := Drop(t, sign);
    var w := IntPart(u).value;
    var f := Fraction(Drop(u, w)).value;
    var e := Exponent(Drop(u, w + f)).value;
    WholeOf(u);
    n := Pieces(t, sign, w, f, e);
  }

  lemma {:induction false} Pieces(t: string, sign: nat, w: nat, f: nat, e: nat) returns (n: Numeral)
    requires sign == (if At(t, 0) == '-' then 1 else 0)
    requires var u := Drop(t, sign);
             && w <= |u| && Fraction(Drop(u, w)) == Some(f) && Exponent(Drop(u, w + f)) == Some(e)
             && SomeDigits(u[..w]) && (u[..w][0] == '0' ==> u[..w] == "0") && sign + w + f + e <= |t|
    ensures NumeralOk(n) && n.minus == (sign == 1) && n.whole == Drop(t, sign)[..w]
    ensures (IsWhole(n) <==> f + e == 0) && NumeralText(n) == t[..sign + w + f + e]
    ensures t == NumeralText(n) + Drop(Drop(t, sign), w + f + e)
  {
    hide Fraction, Exponent, AllDigits, Drop;
    Cuts(t, sign, w, f, e);
    var u := Drop(t, sign);
    var x, y := Drop(u, w), Drop(u, w + f);
    FractionOf(x);
    ExponentOf(y);
    n := Numeral(sign == 1, u[..w], x[..f], y[..e]);
    MinusOf(t);
  }

  lemma {:induction false} MinusOf(t: string)
    ensures At(t, 0) == '-' ==> t[..1] == "-"
    ensures t[..0] == ""
  {
  }

  /** Four slices in a row. */
  lemma {:induction false} Cuts(t: string, a: nat, b: nat, c: nat, d: nat)
    requires a + b + c + d <= |t|
    ensures var u := Drop(t, a);
            && b <= |u| && c <= |Drop(u, b)| && d <= |Drop(u, b + c)|
            && t[..a + b + c + d] == t[..a] + u[..b] + Drop(u, b)[..c] + Drop(u, b + c)[..d]
            && t == t[..a + b + c + d] + Drop(u, b + c + d)
  {
  }

  // ----- scalars -----

  lemma {:induction false} LiteralWritten(t: string, word: string, v: Value)
    requires word != "" && Literal(t, word, v).Good?
    ensures t == word + Literal(t, word, v).rest && Literal(t, word, v).value == v
  {
  }

  /** A scalar and the token it was read from. */
  lemma {:induction false} ScalarWritten(finite: Floats, t: string) returns (d: Doc)
    requires ParseScalar(finite, t).Good?
    ensures DocOk(d) && Taken(finite, d) && !d.DObject? && !d.DArray? && Meant(d) == ParseScalar(finite, t).value
    ensures t == Tokens(d)[0] + ParseScalar(finite, t).rest
  {
    hide ParseNumber, ParseText, Literal, NumeralText, NumeralOk, AllOk, GlyphsText, GlyphsBytes, CString, InRange;
    var c := At(t, 0);
    if c == '\"' {
      var gs := TextWritten(t[1..]);
      d := DString(gs);
      var rest := ParseText(t[1..]).rest;
      assert t == "\"" + t[1..];
      assert t == "\"" + GlyphsText(gs) + "\"" + rest by {
        assert "\"" + (GlyphsText(gs) + "\"" + rest) == "\"" + GlyphsText(gs) + "\"" + rest;
      }
    } else if c == 't' {
      LiteralWritten(t, "true", Bool(true));
      d := DBool(true);
    } else if c == 'f' {
      LiteralWritten(t, "false", Bool(false));
      d := DBool(false);
    } else if c == 'n' {
      LiteralWritten(t, "null", Null);
      d := DNull;
    } else {
      var n := NumeralWritten(finite, t);
      d := DNumber(n);
    }
  }

  lemma {:induction false} TextWritten(t: string) returns (gs: seq<Glyph>)
    requires ParseText(t).Good?
    ensures AllOk(gs) && t == Quoted(gs, ParseText(t).rest) && ParseText(t).value == CString(GlyphsBytes(gs))
  {
    hide Body, AllOk, GlyphsBytes, CString;
    gs := GlyphsOf(t);
  }

  // ----- values -----

  /** The document `d` in the layout `gaps` is what was read, and `rest` is left. */
  ghost predicate Wrote(finite: Floats, t: string, d: Doc, gaps: seq<string>, rest: string) {
    && DocOk(d) && Taken(finite, d) && |gaps| == |Tokens(d)| && Gaps(gaps) && t == Lay(Tokens(d), gaps) + rest
  }

  lemma {:induction false} ValueWritten(finite: Floats, h: string, t: string, depth: nat) returns (d: Doc, gaps: seq<string>)
    requires Gap(h) && ParseValue(finite, t, depth).Good?
    ensures Wrote(finite, h + t, d, gaps, ParseValue(finite, t, depth).rest)
    ensures Meant(d) == ParseValue(finite, t, depth).value && depth + Depth(d) <= MAX_DEPTH
    decreases |t|, 1
  {
    hide ParseScalar, ParseObject, ParseArray, Ws, Tokens, DocOk, Taken, Meant, Depth, Lay, Gaps;
    var g0 := GapOf(t);
    var g, u := h + g0, Ws(t);
    GapTwice(h, g0);
    assert h + t == g + u;
    if At(u, 0) == '{' {
      assert u == "{" + u[1..];
      d, gaps := ObjectWritten(finite, g, u[1..], depth + 1);
    } else if At(u, 0) == '[' {
      assert u == "[" + u[1..];
      d, gaps := ArrayWritten(finite, g, u[1..], depth + 1);
    } else {
      d := ScalarWritten(finite, u);
      gaps := [g];
      OneToken(d, g);
      ScalarDepth(d);
      assert h + t == g + (Tokens(d)[0] + ParseScalar(finite, u).rest);
      assert g + (Tokens(d)[0] + ParseScalar(finite, u).rest) == g + Tokens(d)[0] + ParseScalar(finite, u).rest;
    }
  }

  lemma {:induction false} GapTwice(a: string, b: string)
    requires Gap(a) && Gap(b)
    ensures Gap(a + b) && Gap("")
  {
  }

  lemma {:induction false} OneToken(d: Doc, g: string)
    requires DocOk(d) && !d.DObject? && !d.DArray? && Gap(g)
    ensures |Tokens(d)| == 1 && Lay(Tokens(d), [g]) == g + Tokens(d)[0] && Gaps([g])
  {
    hide Gap;
    LayOne(Tokens(d)[0], g);
    assert Tokens(d) == [Tokens(d)[0]];
  }

  lemma {:induction false} LayCons(token: string, tokens: seq<string>, gap: string, gaps: seq<string>)
    requires |tokens| == |gaps| && Gap(gap) && Gaps(gaps)
    ensures Lay([token] + tokens, [gap] + gaps) == gap + token + Lay(tokens, gaps) && Gaps([gap] + gaps)
  {
    hide Gap;
    assert ([token] + tokens)[1..] == tokens && ([gap] + gaps)[1..] == gaps;
    forall i | 0 <= i < |[gap] + gaps| ensures Gap(([gap] + gaps)[i]) { assert i > 0 ==> ([gap] + gaps)[i] == gaps[i - 1]; }
  }

  lemma {:induction false} LayPlus(a: seq<string>, b: seq<string>, ga: seq<string>, gb: seq<string>)
    requires |a| == |ga| && |b| == |gb| && Gaps(ga) && Gaps(gb)
    ensures Lay(a + b, ga + gb) == Lay(a, ga) + Lay(b, gb) && Gaps(ga + gb)
  {
    hide Gap;
    forall i | 0 <= i < |ga + gb| ensures Gap((ga + gb)[i]) {
      assert (ga + gb)[i] == if i < |ga| then ga[i] else gb[i - |ga|];
    }
    LayJoined(a, b, ga + gb);
    assert (ga + gb)[..|a|] == ga && (ga + gb)[|a|..] == gb;
  }

  /** Five texts in a row. */
  lemma {:induction false} Row(a: string, b: string, c: string, d: string)
    ensures a + (b + (c + d)) == a + b + c + d && a + b + (c + d) == a + b + c + d
  {
  }

  lemma {:induction false} ObjectWritten(finite: Floats, g: string, t: string, depth: nat) returns (d: Doc, gaps: seq<string>)
    requires Gap(g) && 1 <= depth <= MAX_DEPTH + 1 && ParseObject(finite, t, depth).Good?
    ensures Wrote(finite, g + ("{" + t), d, gaps, ParseObject(finite, t, depth).rest)
    ensures Meant(d) == ParseObject(finite, t, depth).value && depth + Depth(d) <= MAX_DEPTH + 1
    decreases |t|, 3
  {
    hide ParseFields, Ws, MembersTokens, Collected, MembersDepth, Gap, Gaps, Lay, MemberOk, MemberTaken;
    var h := GapOf(t);
    var u := Ws(t);
    if At(u, 0) == '}' {
      assert u == "}" + u[1..];
      d := DObject([]);
      NoMembers();
      NothingCollected([]);
      gaps := [g, h];
      TwoTokens("{", "}", g, h);
      assert Tokens(d) == ["{", "}"];
      Row(g + "{", h, "}", u[1..]);
      assert g + ("{" + t) == g + "{" + (h + ("}" + u[1..]));
    } else {
      WsTwice(t);
      var members, inner := MembersWritten(finite, h, u, depth, []);
      d := DObject(members);
      gaps := [g] + inner;
      LayCons("{", MembersTokens(members) + ["}"], g, inner);
      assert Tokens(d) == ["{"] + (MembersTokens(members) + ["}"]);
      var rest := ParseObject(finite, t, depth).rest;
      assert g + ("{" + t) == g + "{" + (Lay(MembersTokens(members) + ["}"], inner) + rest);
    }
  }

  lemma {:induction false} TwoTokens(a: string, b: string, g: string, h: string)
    requires Gap(g) && Gap(h)
    ensures Lay([a, b], [g, h]) == g + a + h + b && Gaps([g, h])
  {
    hide Gap;
    LayOne(b, h);
    assert [a, b] == [a] + [b] && [g, h] == [g] + [h];
    assert Gaps([h]);
    LayCons(a, [b], g, [h]);
  }

  /** Members and the closing brace behind them. */
  lemma {:induction false} MembersWritten(finite: Floats, h: string, t: string, depth: nat, fields: seq<Field>)
    returns (members: seq<Member>, gaps: seq<string>)
    requires Gap(h) && Ws(t) == t && ParseFields(finite, t, depth, fields).Good?
    ensures members != [] && forall m | m in members :: MemberOk(m) && MemberTaken(finite, m)
    ensures |gaps| == |MembersTokens(members) + ["}"]| && Gaps(gaps)
    ensures h + t == Lay(MembersTokens(members) + ["}"], gaps) + ParseFields(finite, t, depth, fields).rest
    ensures ParseFields(finite, t, depth, fields).value == Obj(Collected(fields, members))
    ensures depth + MembersDepth(members) <= MAX_DEPTH
    decreases |t|, 2
  {
    hide ParseField, Stored, Ws, MembersTokens, MemberTokens, Collected, MembersDepth, Gap, Gaps, Lay, Meant, KeyOf, DocOk, AllOk,
      Taken, Depth;
    var f := ParseField(finite, t, depth);
    FieldsTurn(finite, t, depth, fields);
    var m, g := MemberWritten(finite, h, t, depth);
    var all, u := Stored(fields, f.value), Ws(f.rest);
    var k := GapOf(f.rest);
    if At(u, 0) == '}' {
      assert u == "}" + u[1..];
      members := [m];
      gaps := g + [k];
      LayOne("}", k);
      assert Gaps([k]) by { GapAlone(k); }
      LayPlus(MemberTokens(m), ["}"], g, [k]);
      OneMember(fields, m);
      Row(Lay(MemberTokens(m), g), k, "}", u[1..]);
    } else {
      assert At(u, 0) == ',';
      assert u == "," + u[1..];
      WsTwice(u[1..]);
      var l := GapOf(u[1..]);
      var more, inner := MembersWritten(finite, l, Ws(u[1..]), depth, all);
      members := [m] + more;
      assert members[1..] == more && members[0] == m;
      forall x | x in members ensures MemberOk(x) && MemberTaken(finite, x) { assert x == m || x in more; }
      gaps := g + ([k] + inner);
      MembersPut(m, more, g, k, inner, ParseFields(finite, t, depth, fields).rest);
      MembersShape(members);
      CollectedStep(fields, members);
    }
  }

  /** A member, a comma and more members. */
  lemma {:induction false} MembersPut(m: Member, more: seq<Member>, g: seq<string>, k: string, inner: seq<string>, rest: string)
    requires more != [] && |g| == |MemberTokens(m)| && Gaps(g) && Gap(k)
    requires |inner| == |MembersTokens(more) + ["}"]| && Gaps(inner)
    ensures var tokens, gaps := MembersTokens([m] + more) + ["}"], g + ([k] + inner);
            && |gaps| == |tokens| && Gaps(gaps)
            && Lay(tokens, gaps) + rest ==
               Lay(MemberTokens(m), g) + (k + ("," + (Lay(MembersTokens(more) + ["}"], inner) + rest)))
  {
    hide MembersTokens, MemberTokens, Gap, Gaps, Lay;
    var members, behind := [m] + more, MembersTokens(more) + ["}"];
    assert members[1..] == more && members[0] == m;
    MembersShape(members);
    assert MembersTail(more) == [","] + behind;
    TokensPut(MemberTokens(m), behind, g, k, inner, rest);
  }

  /** Tokens, a comma and more tokens. */
  lemma {:induction false} TokensPut(a: seq<string>, b: seq<string>, g: seq<string>, k: string, inner: seq<string>, rest: string)
    requires |g| == |a| && Gaps(g) && Gap(k) && |inner| == |b| && Gaps(inner)
    ensures var tokens, gaps := a + ([","] + b), g + ([k] + inner);
            && |gaps| == |tokens| && Gaps(gaps)
            && Lay(tokens, gaps) + rest == Lay(a, g) + (k + ("," + (Lay(b, inner) + rest)))
  {
    hide Gap, Gaps, Lay;
    LayCons(",", b, k, inner);
    LayPlus(a, [","] + b, g, [k] + inner);
    Five(Lay(a, g), k, ",", Lay(b, inner), rest);
  }

  lemma {:induction false} Five(a: string, b: string, c: string, d: string, e: string)
    ensures a + (b + c + d) + e == a + (b + (c + (d + e)))
  {
  }

  lemma {:induction false} GapAlone(g: string)
    requires Gap(g)
    ensures Gaps([g])
  {
  }

  lemma {:induction false} OneMember(fields: seq<Field>, m: Member)
    requires MemberOk(m)
    ensures MembersTokens([m]) == MemberTokens(m) && MembersDepth([m]) == Depth(m.value)
    ensures m in [m] && Collected(fields, [m]) == Stored(fields, Field(KeyOf(m), Meant(m.value)))
  {
    hide MemberTokens, Depth, Meant, KeyOf, Stored, DocOk, AllOk;
    assert [m][1..] == [];
    CollectedStep(fields, [m]);
    NothingCollected(Stored(fields, Field(KeyOf(m), Meant(m.value))));
    assert MembersTokens([m]) == MemberTokens(m) + [];
  }

  lemma {:induction false} MemberWritten(finite: Floats, h: string, t: string, depth: nat) returns (m: Member, gaps: seq<string>)
    requires Gap(h) && Ws(t) == t && ParseField(finite, t, depth).Good?
    ensures MemberOk(m) && MemberTaken(finite, m) && |gaps| == |MemberTokens(m)| && Gaps(gaps)
    ensures h + t == Lay(MemberTokens(m), gaps) + ParseField(finite, t, depth).rest
    ensures ParseField(finite, t, depth).value == Field(KeyOf(m), Meant(m.value)) && depth + Depth(m.value) <= MAX_DEPTH
    decreases |t|, 0
  {
    hide ParseText, ParseValue, Ws, Gap, Gaps, Lay, Meant, DocOk, AllOk, Taken, Depth, Tokens, GlyphsText, GlyphsBytes, CString;
    var k := ParseText(t[1..]);
    var gs := TextWritten(t[1..]);
    var l := GapOf(k.rest);
    var u := Ws(k.rest);
    assert u == ":" + u[1..];
    var v := u[1..];
    ValueWs(finite, v, depth);
    assert Gap("") && "" + v == v by { GapTwice(h, h); }
    var d, inner := ValueWritten(finite, "", v, depth);
    m := Member(gs, d);
    var quoted := "\"" + GlyphsText(gs) + "\"";
    gaps := [h, l] + inner;
    TwoTokens(quoted, ":", h, l);
    LayPlus([quoted, ":"], Tokens(d), [h, l], inner);
    var rest := ParseField(finite, t, depth).rest;
    assert t == "\"" + t[1..];
    assert t == quoted + k.rest by { Quotes(gs, k.rest); }
    Six(h, quoted, l, ":", Lay(Tokens(d), inner), rest);
  }

  lemma {:induction false} Quotes(gs: seq<Glyph>, rest: string)
    ensures "\"" + Quoted(gs, rest) == "\"" + GlyphsText(gs) + "\"" + rest
  {
  }

  lemma {:induction false} Six(a: string, b: string, c: string, d: string, e: string, f: string)
    ensures a + (b + (c + (d + (e + f)))) == a + b + c + d + e + f
  {
  }

  // ----- lists -----

  lemma {:induction false} ArrayWritten(finite: Floats, g: string, t: string, depth: nat) returns (d: Doc, gaps: seq<string>)
    requires Gap(g) && 1 <= depth <= MAX_DEPTH + 1 && ParseArray(finite, t, depth).Good?
    ensures Wrote(finite, g + ("[" + t), d, gaps, ParseArray(finite, t, depth).rest)
    ensures Meant(d) == ParseArray(finite, t, depth).value && depth + Depth(d) <= MAX_DEPTH + 1
    decreases |t|, 3
  {
    hide ParseElems, Ws, ElemsTokens, AllMeant, ElemsDepth, Gap, Gaps, Lay, ElemTaken;
    var h := GapOf(t);
    var u := Ws(t);
    if At(u, 0) == ']' {
      assert u == "]" + u[1..];
      d := DArray([]);
      NoMembers();
      NothingMeant([]);
      gaps := [g, h];
      TwoTokens("[", "]", g, h);
      assert Tokens(d) == ["[", "]"];
      Row(g + "[", h, "]", u[1..]);
      assert g + ("[" + t) == g + "[" + (h + ("]" + u[1..]));
    } else {
      WsTwice(t);
      var elems, inner := ElemsWritten(finite, h, u, depth, []);
      assert [] + AllMeant(elems) == AllMeant(elems);
      d := DArray(elems);
      gaps := [g] + inner;
      LayCons("[", ElemsTokens(elems) + ["]"], g, inner);
      assert Tokens(d) == ["["] + (ElemsTokens(elems) + ["]"]);
      var rest := ParseArray(finite, t, depth).rest;
      assert g + ("[" + t) == g + "[" + (Lay(ElemsTokens(elems) + ["]"], inner) + rest);
      TakenList(finite, elems);
    }
  }

  /** Elements that follow those read before. */
  predicate Goes(finite: Floats, acc: seq<Value>, elems: seq<Doc>) {
    && elems != [] && (forall e | e in elems :: DocOk(e) && ElemTaken(finite, e))
    && forall e | e in elems :: Kind(Meant(e)) == if acc == [] then Kind(Meant(elems[0])) else Kind(acc[0])
  }

  lemma {:induction false} TakenList(finite: Floats, elems: seq<Doc>)
    requires Goes(finite, [], elems)
    ensures DocOk(DArray(elems)) && Taken(finite, DArray(elems))
  {
    hide Meant, Kind, ElemTaken;
  }

  lemma {:induction false} ElemOf(finite: Floats, acc: seq<Value>, d: Doc)
    requires DocOk(d) && Taken(finite, d) && ElementProblem(acc, Meant(d)).None?
    ensures ElemTaken(finite, d) && (acc != [] ==> Kind(Meant(d)) == Kind(acc[0]))
  {
    hide Taken, Collected, AllMeant;
  }

  lemma {:induction false} GoesOn(finite: Floats, acc: seq<Value>, d: Doc, more: seq<Doc>)
    requires DocOk(d) && ElemTaken(finite, d) && (acc != [] ==> Kind(Meant(d)) == Kind(acc[0]))
    requires more != [] ==> Goes(finite, acc + [Meant(d)], more)
    ensures Goes(finite, acc, [d] + more)
  {
    hide Meant, Kind, ElemTaken, DocOk;
    var all := acc + [Meant(d)];
    assert all[0] == if acc == [] then Meant(d) else acc[0];
    forall e | e in [d] + more ensures DocOk(e) && ElemTaken(finite, e) { assert e == d || e in more; }
    forall e | e in [d] + more ensures Kind(Meant(e)) == if acc == [] then Kind(Meant(d)) else Kind(acc[0]) {
      assert e == d || e in more;
    }
    assert ([d] + more)[0] == d;
  }

  lemma {:induction false} ElemsWritten(finite: Floats, h: string, t: string, depth: nat, acc: seq<Value>)
    returns (elems: seq<Doc>, gaps: seq<string>)
    requires Gap(h) && Ws(t) == t && ParseElems(finite, t, depth, acc).Good?
    ensures Goes(finite, acc, elems) && forall e | e in elems :: DocOk(e)
    ensures |gaps| == |ElemsTokens(elems) + ["]"]| && Gaps(gaps)
    ensures h + t == Lay(ElemsTokens(elems) + ["]"], gaps) + ParseElems(finite, t, depth, acc).rest
    ensures ParseElems(finite, t, depth, acc).value == Arr(acc + AllMeant(elems))
    ensures depth + ElemsDepth(elems) <= MAX_DEPTH
    decreases |t|, 2
  {
    hide ParseValue, Ws, Tokens, ElemsTokens, AllMeant, ElemsDepth, Gap, Gaps, Lay, Meant, DocOk, Taken, Depth, ElemTaken, Kind,
      ElementProblem, Goes;
    var v := ParseValue(finite, t, depth);
    ElemsTurn(finite, t, depth, acc);
    var d, g := ValueWritten(finite, h, t, depth);
    ElemOf(finite, acc, d);
    var all, u := acc + [v.value], Ws(v.rest);
    var k := GapOf(v.rest);
    if At(u, 0) == ']' {
      assert u == "]" + u[1..];
      elems := [d];
      gaps := g + [k];
      LayOne("]", k);
      GapAlone(k);
      LayPlus(Tokens(d), ["]"], g, [k]);
      GoesOn(finite, acc, d, []);
      assert [d] + [] == [d];
      OneElem(d, acc);
      Row(Lay(Tokens(d), g), k, "]", u[1..]);
    } else {
      assert At(u, 0) == ',';
      assert u == "," + u[1..];
      WsTwice(u[1..]);
      var l := GapOf(u[1..]);
      var more, inner := ElemsWritten(finite, l, Ws(u[1..]), depth, all);
      elems := [d] + more;
      assert elems[1..] == more && elems[0] == d;
      GoesOn(finite, acc, d, more);
      forall x | x in elems ensures DocOk(x) { assert x == d || x in more; }
      gaps := g + ([k] + inner);
      assert more != [] by { Some0(finite, all, more); }
      ElemsPut(d, more, g, k, inner, ParseElems(finite, t, depth, acc).rest);
      JsonLayout.ElemsShape(elems);
      AllMeantStep(elems, acc);
    }
  }

  /** An element, a comma and more elements. */
  lemma {:induction false} ElemsPut(d: Doc, more: seq<Doc>, g: seq<string>, k: string, inner: seq<string>, rest: string)
    requires more != [] && |g| == |Tokens(d)| && Gaps(g) && Gap(k)
    requires |inner| == |ElemsTokens(more) + ["]"]| && Gaps(inner)
    ensures var tokens, gaps := ElemsTokens([d] + more) + ["]"], g + ([k] + inner);
            && |gaps| == |tokens| && Gaps(gaps)
            && Lay(tokens, gaps) + rest == Lay(Tokens(d), g) + (k + ("," + (Lay(ElemsTokens(more) + ["]"], inner) + rest)))
  {
    hide ElemsTokens, Tokens, Gap, Gaps, Lay;
    var elems, behind := [d] + more, ElemsTokens(more) + ["]"];
    assert elems[1..] == more && elems[0] == d;
    JsonLayout.ElemsShape(elems);
    assert JsonLayout.ElemsTail(more) == [","] + behind;
    TokensPut(Tokens(d), behind, g, k, inner, rest);
  }

  lemma {:induction false} Some0(finite: Floats, acc: seq<Value>, elems: seq<Doc>)
    requires Goes(finite, acc, elems)
    ensures elems != []
  {
  }

  lemma {:induction false} OneElem(d: Doc, acc: seq<Value>)
    requires DocOk(d)
    ensures ElemsTokens([d]) == Tokens(d) && ElemsDepth([d]) == Depth(d) && d in [d]
    ensures (forall e | e in [d] :: DocOk(e)) && acc + AllMeant([d]) == acc + [Meant(d)]
  {
    hide Tokens, Depth, Meant, DocOk;
    assert [d][1..] == [];
    assert ElemsTokens([d]) == Tokens(d) + [];
    assert AllMeant([d]) == [Meant(d)] + [];
  }

  // ----- documents -----

  /** The text is a layout of an object that the parser has values for, not more than 64 levels deep. */
  ghost predicate IsDocument(finite: Floats, text: string, d: Doc, gaps: seq<string>, tail: string) {
    && d.DObject? && DocOk(d) && Taken(finite, d) && |gaps| == |Tokens(d)| && Gaps(gaps) && Gap(tail)
    && text == Lay(Tokens(d), gaps) + tail && Depth(d) <= MAX_DEPTH
  }

  /** A text is accepted, and as a given object, if and only if it is a layout of a document that says it. */
  lemma {:induction false} DocumentLanguage(finite: Floats, text: string, v: Value)
    ensures ParseDocument(finite, text) == Good(v, "")
            <==> exists d: Doc, gaps: seq<string>, tail: string :: IsDocument(finite, text, d, gaps, tail) && Meant(d) == v
  {
    hide ParseDocument, Tokens, DocOk, Taken, Lay, Depth, Meant, Gaps, Gap;
    if ParseDocument(finite, text) == Good(v, "") {
      var d, gaps, tail := DocumentWritten(finite, text);
    }
    forall d: Doc, gaps: seq<string>, tail: string | IsDocument(finite, text, d, gaps, tail)
      ensures ParseDocument(finite, text) == Good(Meant(d), "")
    {
      LayoutParsed(finite, d, gaps, tail);
    }
  }

  lemma {:induction false} DocumentWritten(finite: Floats, text: string) returns (d: Doc, gaps: seq<string>, tail: string)
    requires ParseDocument(finite, text).Good?
    ensures IsDocument(finite, text, d, gaps, tail) && Meant(d) == ParseDocument(finite, text).value
  {
    hide ParseValue, Tokens, DocOk, Taken, Lay, Depth, Meant, Gaps, Gap, Ws;
    GapNone();
    assert "" + text == text;
    d, gaps := ValueWritten(finite, "", text, 0);
    tail := GapOf(ParseValue(finite, text, 0).rest);
    assert tail + "" == tail;
    MeantObject(d);
  }

  lemma {:induction false} GapNone()
    ensures Gap("")
  {
  }

  lemma {:induction false} MeantObject(d: Doc)
    requires DocOk(d)
    ensures Meant(d).Obj? <==> d.DObject?
  {
    hide Collected, AllMeant, NumeralOk, NumeralText, CString, GlyphsBytes, AllOk, MemberOk;
  }
}
