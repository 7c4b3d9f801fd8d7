/** runtime/json.c: which documents the parser reads beyond their end.

    What every parsing function leaves is the end of its text, so a string that is overrun ends where the
    document does. */
module JsonBounds {
  import opened Basics
  import opened Digits
  import opened JsonText
  import opened JsonTextProofs
  import opened Json

  /** The text ends with a numeric escape outside a surrogate pair. */
  predicate EndsInEscape(t: string) {
    |t| >= 6 && EscapeAtEnd(t[|t| - 6..])
  }

  predicate Suffix(u: string, t: string) {
    |u| <= |t| && u == t[|t| - |u|..]
  }

  lemma {:induction false} SuffixFrom(t: string, i: nat)
    requires i <= |t|
    ensures Suffix(t[i..], t)
  {
  }

  lemma {:induction false} SuffixOf(a: string, b: string, t: string)
    requires Suffix(a, b) && Suffix(b, t)
    ensures Suffix(a, t)
  {
    assert b[|b| - |a|..] == t[|t| - |a|..];
  }

  lemma {:induction false} EscapeOf(u: string, t: string)
    requires Suffix(u, t) && EndsInEscape(u)
    ensures EndsInEscape(t)
  {
    assert u[|u| - 6..] == t[|t| - 6..];
  }

  /** What parsing `t` gives: what is left is the end of `t`, and only a text with an escape at its end is left. */
  predicate Within<T>(t: string, p: Parsed<T>) {
    match p
    case Good(_, rest) => Suffix(rest, t)
    case Bad(why) => why == Overrun ==> EndsInEscape(t)
  }

  lemma {:induction false} Onward<T>(t: string, u: string, p: Parsed<T>)
    requires Suffix(u, t) && Within(u, p)
    ensures Within(t, p)
  {
    hide EndsInEscape, Suffix;
    match p
    case Good(_, rest) => SuffixOf(rest, u, t);
    case Bad(why) => if why == Overrun { EscapeOf(u, t); }
  }

  lemma {:induction false} WsWithin(t: string)
    ensures Suffix(Ws(t), t)
  {
    hide Space;
    if t != "" && Space(t[0]) {
      WsWithin(t[1..]);
      SuffixOf(Ws(t), t[1..], t);
    }
  }

  lemma {:induction false} BodyWithin(t: string)
    ensures Within(t, Body(t))
    decreases |t|
  {
    hide Body, StringStep, EscapeAtEnd, Within, Suffix, Prepend;
    BodyStep(t);
    OthersWithin(t);
    if At(t, 0) == '\"' {
      SuffixFrom(t, 1);
      LeftWithin(t, "", t[1..]);
    } else if At(t, 0) != '\0' {
      var s := StringStep(t);
      NoOverrunStep(t);
      if s.Piece? {
        StepOverrun(t);
        if s.length > |t| {
          EndWithin(t);
        } else {
          var u := t[s.length..];
          BodyWithin(u);
          SuffixFrom(t, s.length);
          Onward(t, u, Body(u));
          PrependSame(s.bytes, Body(u));
          SameWithin(t, Body(u), Body(t));
        }
      }
    }
  }

  lemma {:induction false} EndWithin(t: string)
    requires EscapeAtEnd(t)
    ensures Within<string>(t, Bad(Overrun))
  {
    assert t[|t| - 6..] == t;
  }

  lemma {:induction false} PrependSame(s: string, r: Parsed<string>)
    ensures var p := Prepend(s, r); (p.Good? <==> r.Good?) && (r.Good? ==> p.rest == r.rest) && (r.Bad? ==> p == r)
  {
  }

  lemma {:induction false} NoOverrunStep(t: string)
    ensures StringStep(t).Wrong? ==> StringStep(t).why != Overrun
  {
    hide Unit16, Utf8;
  }

  lemma {:induction false} TextWithin(t: string)
    ensures Within(t, ParseText(t))
  {
    hide Body;
    BodyWithin(t);
  }

  lemma {:induction false} NumberWithin(finite: Floats, t: string)
    ensures Within(t, ParseNumber(finite, t))
  {
    hide DecValue, Fraction, Exponent, AllDigits, IsDigit, Suffix;
    var u := Drop(t, if At(t, 0) == '-' then 1 else 0);
    var r := ParseNumber(finite, t);
    if r.Good? {
      var n := IntPart(u).value;
      var m := n + Fraction(u[n..]).value;
      var i := m + Exponent(u[m..]).value;
      assert r.rest == u[i..];
      SuffixFrom(u, i);
      SuffixFrom(t, |t| - |u|);
      SuffixOf(u[i..], u, t);
    }
  }

  lemma {:induction false} ScalarWithin(finite: Floats, t: string)
    ensures Within(t, ParseScalar(finite, t))
  {
    hide ParseText, ParseNumber, Within, IsDigit;
    NumberWithin(finite, t);
    LiteralWithin(t, "true", Bool(true));
    LiteralWithin(t, "false", Bool(false));
    LiteralWithin(t, "null", Null);
    if At(t, 0) == '\"' {
      TextWithin(t[1..]);
      Onward(t, t[1..], ParseText(t[1..]));
      SameWithin(t, ParseText(t[1..]), ParseScalar(finite, t));
    }
    OthersWithin(t);
  }

  lemma {:induction false} LiteralWithin(t: string, word: string, v: Value)
    requires word != ""
    ensures Within(t, Literal(t, word, v))
  {
  }

  lemma {:induction false} SameWithin<S, T>(t: string, p: Parsed<S>, q: Parsed<T>)
    requires Within(t, p) && (p.Good? <==> q.Good?) && (p.Good? ==> p.rest == q.rest) && (p.Bad? ==> p.why == q.why)
    ensures Within(t, q)
  {
  }

  lemma {:induction false} OthersWithin(t: string)
    ensures forall why: Problem | why != Overrun ::
              Within<Value>(t, Bad(why)) && Within<Field>(t, Bad(why)) && Within<string>(t, Bad(why))
  {
  }

  lemma {:induction false} ValueWithin(finite: Floats, t0: string, depth: nat)
    ensures Within(t0, ParseValue(finite, t0, depth))
    decreases |t0|, 1
  {
    hide ParseScalar, ParseObject, ParseArray, Within, Ws, Suffix;
    OthersWithin(t0);
    if depth <= MAX_DEPTH {
      var t := Ws(t0);
      WsWithin(t0);
      if At(t, 0) == '{' || At(t, 0) == '[' {
        SuffixFrom(t, 1);
        if At(t, 0) == '{' {
          ObjectWithin(finite, t[1..], depth + 1);
        } else {
          ArrayWithin(finite, t[1..], depth + 1);
        }
        SuffixOf(t[1..], t, t0);
        Onward(t0, t[1..], ParseValue(finite, t0, depth));
      } else {
        ScalarWithin(finite, t);
        Onward(t0, t, ParseScalar(finite, t));
      }
    }
  }

  lemma {:induction false} ObjectWithin(finite: Floats, t: string, depth: nat)
    ensures Within(t, ParseObject(finite, t, depth))
    decreases |t|, 3
  {
    hide ParseFields, Ws;
    var u := Ws(t);
    WsWithin(t);
    if At(u, 0) == '}' {
      SuffixFrom(u, 1);
      SuffixOf(u[1..], u, t);
    } else {
      FieldsWithin(finite, u, depth, []);
      Onward(t, u, ParseFields(finite, u, depth, []));
    }
  }

  lemma {:induction false} FieldWithin(finite: Floats, t: string, depth: nat)
    ensures Within(t, ParseField(finite, t, depth))
    decreases |t|, 0
  {
    hide ParseText, ParseValue, Within, Ws, Suffix;
    OthersWithin(t);
    if At(t, 0) == '\"' {
      SuffixFrom(t, 1);
      var k := ParseText(t[1..]);
      TextWithin(t[1..]);
      Onward(t, t[1..], k);
      var r := ParseField(finite, t, depth);
      if k.Bad? {
        SameWithin(t, k, r);
      } else {
        GoodWithin(t, k);
        var u := Ws(k.rest);
        WsWithin(k.rest);
        SuffixOf(u, k.rest, t);
        if At(u, 0) == ':' {
          SuffixFrom(u, 1);
          SuffixOf(u[1..], u, t);
          WsWithin(u[1..]);
          SuffixOf(Ws(u[1..]), u[1..], t);
          var v := ParseValue(finite, Ws(u[1..]), depth);
          ValueWithin(finite, Ws(u[1..]), depth);
          Onward(t, Ws(u[1..]), v);
          SameWithin(t, v, r);
        }
      }
    }
  }

  lemma {:induction false} GoodWithin<T>(t: string, p: Parsed<T>)
    requires Within(t, p) && p.Good?
    ensures Suffix(p.rest, t)
  {
  }

  /** What follows an item. */
  lemma {:induction false} AfterItem(t: string, rest: string)
    requires Suffix(rest, t)
    ensures var u := Ws(rest); u != "" ==> Suffix(u[1..], t) && Suffix(Ws(u[1..]), t)
  {
    hide Ws, Suffix;
    var u := Ws(rest);
    if u != "" {
      WsWithin(rest);
      SuffixOf(u, rest, t);
      SuffixFrom(u, 1);
      SuffixOf(u[1..], u, t);
      WsWithin(u[1..]);
      SuffixOf(Ws(u[1..]), u[1..], t);
    }
  }

  lemma {:induction false} FieldsWithin(finite: Floats, t: string, depth: nat, fields: seq<Field>)
    ensures Within(t, ParseFields(finite, t, depth, fields))
    decreases |t|, 2
  {
    hide ParseField, Stored, Ws, Suffix, Within;
    OthersWithin(t);
    var f := ParseField(finite, t, depth);
    FieldWithin(finite, t, depth);
    if f.Bad? {
      SameWithin(t, f, ParseFields(finite, t, depth, fields));
    } else {
      GoodWithin(t, f);
      AfterItem(t, f.rest);
      var all, u := Stored(fields, f.value), Ws(f.rest);
      if At(u, 0) == ',' {
        FieldsWithin(finite, Ws(u[1..]), depth, all);
        Onward(t, Ws(u[1..]), ParseFields(finite, Ws(u[1..]), depth, all));
      } else if At(u, 0) == '}' {
        LeftWithin(t, Obj(all), u[1..]);
      }
    }
  }

  lemma {:induction false} LeftWithin<T>(t: string, v: T, rest: string)
    requires Suffix(rest, t)
    ensures Within(t, Good(v, rest))
  {
  }

  lemma {:induction false} ArrayWithin(finite: Floats, t: string, depth: nat)
    ensures Within(t, ParseArray(finite, t, depth))
    decreases |t|, 3
  {
    hide ParseElems, Ws;
    var u := Ws(t);
    WsWithin(t);
    if At(u, 0) == ']' {
      SuffixFrom(u, 1);
      SuffixOf(u[1..], u, t);
    } else {
      ElemsWithin(finite, u, depth, []);
      Onward(t, u, ParseElems(finite, u, depth, []));
    }
  }

  lemma {:induction false} ElemsWithin(finite: Floats, t: string, depth: nat, elems: seq<Value>)
    ensures Within(t, ParseElems(finite, t, depth, elems))
    decreases |t|, 2
  {
    hide ParseValue, Kind, Ws, Suffix, Within;
    OthersWithin(t);
    var v := ParseValue(finite, t, depth);
    ValueWithin(finite, t, depth);
    if v.Good? && ElementProblem(elems, v.value).None? {
      GoodWithin(t, v);
      AfterItem(t, v.rest);
      var all, u := elems + [v.value], Ws(v.rest);
      if At(u, 0) == ',' {
        ElemsWithin(finite, Ws(u[1..]), depth, all);
        Onward(t, Ws(u[1..]), ParseElems(finite, Ws(u[1..]), depth, all));
      } else if At(u, 0) == ']' {
        LeftWithin(t, Arr(all), u[1..]);
      }
    }
  }

  /** Only a document whose last six characters are a numeric escape is read beyond its end, so any other text is safe
      to parse. */
  lemma {:induction false} SafeUnlessEscapeAtEnd(finite: Floats, text: string)
    requires !EndsInEscape(text)
    ensures ParseDocument(finite, text) != Bad(Overrun)
  {
    hide ParseValue, EndsInEscape;
    ValueWithin(finite, text, 0);
  }

  /** The shortest object that does it, cut off behind the escape. */
  lemma {:induction false} OverrunInput(finite: Floats)
    ensures ParseDocument(finite, "{\"a\":\"\\u0041") == Bad(Overrun)
  {
    hide ParseValue, ParseObject, ParseFields, ParseField, Ws;
    var t, field := "{\"a\":\"\\u0041", "\"a\":\"\\u0041";
    assert t[1..] == field;
    NoSpaceAhead();
    CutField(finite);
    FieldFails(finite, field, 1);
    ObjectFails(finite, field);
    ValueIsObject(finite, t);
  }

  lemma {:induction false} ObjectFails(finite: Floats, t: string)
    requires Ws(t) == t && At(t, 0) == '\"' && ParseFields(finite, t, 1, []) == Bad(Overrun)
    ensures ParseObject(finite, t, 1) == Bad(Overrun)
  {
    hide ParseFields, Ws;
  }

  lemma {:induction false} ValueIsObject(finite: Floats, t: string)
    requires Ws(t) == t && At(t, 0) == '{'
    ensures ParseValue(finite, t, 0) == ParseObject(finite, t[1..], 1)
  {
    hide ParseObject, Ws;
  }

  lemma {:induction false} CutField(finite: Floats)
    ensures ParseField(finite, "\"a\":\"\\u0041", 1) == Bad(Overrun)
  {
    hide ParseText, ParseValue, Ws;
    var field, value := "\"a\":\"\\u0041", "\"\\u0041";
    NoSpaceAhead();
    assert ParseText(field[1..]) == Good("a", ":" + value) by {
      KeyRead(":" + value);
      assert "a\"" + (":" + value) == field[1..];
    }
    assert (":" + value)[1..] == value;
    CutValue(finite, value);
  }

  lemma {:induction false} CutValue(finite: Floats, t: string)
    requires t == "\"\\u0041"
    ensures ParseValue(finite, t, 1) == Bad(Overrun)
  {
    hide ParseText, Ws;
    NoSpaceAhead();
    assert t[1..] == "\\u0041";
    CutOverruns(t[1..]);
  }

  lemma {:induction false} NoSpaceAhead()
    ensures forall t: string | t != "" && t[0] in "{:\"" :: Ws(t) == t
  {
  }

  lemma {:induction false} CutOverruns(t: string)
    requires t == "\\u0041"
    ensures ParseText(t) == Bad(Overrun)
  {
    hide Body;
    assert Unit16(t, 2) == Some(0x41);
    EscapeOverruns(t);
  }

  lemma {:induction false} KeyRead(rest: string)
    ensures ParseText("a\"" + rest) == Good("a", rest)
  {
    assert Closed("a", rest) == "a\"" + rest;
    PlainRoundTrip("a", rest);
  }

  lemma {:induction false} FieldFails(finite: Floats, t: string, depth: nat)
    requires ParseField(finite, t, depth) == Bad(Overrun)
    ensures ParseFields(finite, t, depth, []) == Bad(Overrun)
  {
    hide ParseField;
  }
}
