/** runtime/json.c: the recursive descent over a shared cursor.

    `Parser` holds what the C functions share: the text, the cursor and the first problem met. Each
    method starts with the cursor where its C function expects it and is proved to compute the function
    of module `Json` or `JsonText` of the same rank, as `Tells` says: on success it returns the value and
    leaves the cursor at what the function leaves of the text, on failure it returns None and records the
    problem unless an earlier one is recorded. A string is read in two passes: `Measure` counts the bytes
    and `Decode` fills an array of that size, so their agreement is part of the proof.

    `Cursor`, `CursorAhead` and `Shift` relate positions in the text to what is left of it; the functions
    are hidden in most methods, and lemmas such as `FieldsStep` give one turn of each at a time.

    The text is read through `Byte`, whose requires is the bound of the C string: no read lies behind the
    NUL that ends it. The code keeps that bound except where a numeric escape is the last thing in the text,
    which the functions call `Overrun`; the methods require another answer. */
module JsonParser {
  import opened Basics
  import opened Buffers
  import opened Digits
  import opened Texts
  import opened JsonText
  import opened Json
  import opened JsonObject

  /** The cursor and what is left of the text. */
  lemma {:induction false} Cursor(t: string, p: nat)
    ensures At(Drop(t, p), 0) == At(t, p)
    ensures p < |t| ==> Drop(t, p) != "" && Drop(t, p)[0] == t[p] && Drop(t, p)[1..] == Drop(t, p + 1)
    ensures p <= |t| ==> |Drop(t, p)| == |t| - p
    ensures At(t, p) != '\0' ==> p < |t|
    ensures p >= |t| ==> Drop(t, p) == ""
  {
  }

  lemma {:induction false} CursorAhead(t: string, p: nat, i: nat)
    ensures At(Drop(t, p), i) == At(t, p + i) && Drop(Drop(t, p), i) == Drop(t, p + i)
  {
  }

  /** What a parsing method leaves behind: the value and the cursor after it, or the first problem met. */
  predicate Tells<T(==)>(r: Option<T>, p: Parsed<T>, text: string, pos: nat, was: Option<Problem>, err: Option<Problem>) {
    match p
    case Good(v, rest) => r == Some(v) && pos <= |text| && Drop(text, pos) == rest && err == was
    case Bad(why) => r == None && err == if was.Some? then was else Some(why)
  }

  class Parser {
    const text: string
    const finite: Floats
    var pos: nat
    var err: Option<Problem>

    constructor (text: string, finite: Floats)
      ensures this.text == text && this.finite == finite && pos == 0 && err == None
    {
      this.text, this.finite := text, finite;
      pos, err := 0, None;
    }

    /** The character at `i`, read no further than the NUL behind the text. */
    function Byte(i: nat): (c: char)
      requires i <= |text|
      ensures c == At(text, i)
    {
      if i < |text| then text[i] else '\0'
    }

    /** One of four characters is the NUL; none behind it is looked at. */
    predicate NulWithin(i: nat)
      requires i <= |text|
      ensures NulWithin(i) == HasNul(text, i)
    {
      Byte(i) == '\0' || Byte(i + 1) == '\0' || Byte(i + 2) == '\0' || Byte(i + 3) == '\0'
    }

    /** json_fail: the first problem is the one reported. */
    method Fail(why: Problem)
      modifies `err
      ensures err == if old(err).Some? then old(err) else Some(why)
    {
      if err.None? { err := Some(why); }
    }

    /** json_ws. */
    method SkipSpace()
      requires pos <= |text|
      modifies `pos
      ensures old(pos) <= pos <= |text| && Drop(text, pos) == Ws(Drop(text, old(pos)))
    {
      hide Space;
      while Space(Byte(pos))
        invariant old(pos) <= pos <= |text| && Ws(Drop(text, pos)) == Ws(Drop(text, old(pos)))
        decreases |text| - pos
      {
        Cursor(text, pos);
        assert !Space('\0') by { NulIsNoSpace(); }
        pos := pos + 1;
      }
      Cursor(text, pos);
    }

    // ----- strings -----

    /** The step at `q`, as the measuring pass takes it: how many bytes, how many characters. */
    method MeasureStep(q: nat) returns (bytes: nat, length: nat, why: Option<Problem>)
      requires At(text, q) != '\0' && At(text, q) != '\"'
      ensures match StringStep(Drop(text, q))
              case Piece(b, n) => why == None && bytes == |b| && length == n
              case Wrong(w) => why == Some(w)
    {
      hide Hex, Utf8;
      CursorAhead(text, q, 0);
      CursorAhead(text, q, 1);
      bytes, length, why := 1, 1, None;
      if text[q] < ' ' { why := Some(ControlCharacter); return; }
      if text[q] != '\\' { return; }
      length := 2;
      var e := Byte(q + 1);
      if e == '\"' || e == '\\' || e == '/' { return; }
      if e == 'b' || e == 'f' || e == 'n' || e == 'r' || e == 't' { return; }
      if e != 'u' { why := Some(BadEscape); return; }
      bytes, length, why := MeasureUnicode(q);
    }

    method UnitAt(q: nat) returns (u: Option<nat>)
      requires q + 3 <= |text|
      ensures u == Unit16(text, q)
      ensures u.Some? ==> u.value < 0x1_0000
    {
      var h0, h1, h2, h3 := Hex(Byte(q)), Hex(Byte(q + 1)), Hex(Byte(q + 2)), Hex(Byte(q + 3));
      if h0.None? || h1.None? || h2.None? || h3.None? { return None; }
      u := Some(h0.value * 0x1000 + h1.value * 0x100 + h2.value * 0x10 + h3.value);
    }

    method MeasureUnicode(q: nat) returns (bytes: nat, length: nat, why: Option<Problem>)
      requires At(text, q + 1) == 'u'
      ensures match UnicodeStep(Drop(text, q))
              case Piece(b, n) => why == None && bytes == |b| && length == n
              case Wrong(w) => why == Some(w)
    {
      hide Unit16, Utf8;
      UnitAhead(text, q);
      bytes, length, why := 0, 0, None;
      if NulWithin(q + 2) { why := Some(TruncatedUnicode); return; }
      var cp := UnitAt(q + 2);
      if cp.None? { why := Some(BadUnicode); return; }
      if 0xD800 <= cp.value <= 0xDBFF {
        if Byte(q + 6) != '\\' || Byte(q + 7) != 'u' { why := Some(LoneSurrogate); return; }
        if NulWithin(q + 8) { why := Some(TruncatedUnicode); return; }
        var low := UnitAt(q + 8);
        if low.None? || low.value < 0xDC00 || low.value > 0xDFFF { why := Some(LoneSurrogate); return; }
        PairIsFour(cp.value, low.value);
        bytes, length := 4, 12;
      } else if 0xDC00 <= cp.value <= 0xDFFF {
        why := Some(LoneSurrogate);
      } else {
        bytes, length := Utf8Length(cp.value), 7;
      }
    }

    /** The bytes of a step that was measured, as the decoding pass takes it: without looking for problems. */
    method DecodeStep(q: nat) returns (bytes: string, length: nat)
      requires At(text, q) != '\0' && At(text, q) != '\"' && StringStep(Drop(text, q)).Piece?
      ensures StringStep(Drop(text, q)) == Piece(bytes, length)
    {
      hide Unit16, Utf8;
      CursorAhead(text, q, 0);
      CursorAhead(text, q, 1);
      if text[q] != '\\' { return [text[q]], 1; }
      var e := Byte(q + 1);
      if e == 'u' {
        UnitAhead(text, q);
        var cp := UnitAt(q + 2);
        if 0xD800 <= cp.value <= 0xDBFF {
          var low := UnitAt(q + 8);
          return Utf8(0x1_0000 + (cp.value - 0xD800) * 0x400 + (low.value - 0xDC00)), 12;
        }
        return Utf8(cp.value), 7;
      }
      length := 2;
      if e == 'b' { bytes := [8 as char]; }
      else if e == 'f' { bytes := [12 as char]; }
      else if e == 'n' { bytes := "\n"; }
      else if e == 'r' { bytes := "\r"; }
      else if e == 't' { bytes := "\t"; }
      else { bytes := [e]; }
    }

    /** The first pass: finds the closing quote and counts the decoded bytes. */
    method Measure(s: nat) returns (q: nat, decoded: nat, why: Option<Problem>)
      requires s <= |text| && Body(Drop(text, s)) != Bad(Overrun)
      ensures match Body(Drop(text, s))
              case Good(v, rest) => why == None && decoded == |v| && q < |text| && Drop(text, q + 1) == rest
              case Bad(w) => why == Some(w)
    {
      hide Body, StringStep;
      ghost var answer, done := Body(Drop(text, s)), "";
      q, decoded, why := s, 0, None;
      PrependTwice("", "", answer);
      while Byte(q) != '\0' && Byte(q) != '\"'
        invariant q <= |text| && answer == Prepend(done, Body(Drop(text, q))) && |done| == decoded
        decreases |text| - q
      {
        Cursor(text, q);
        BodyStep(Drop(text, q));
        ghost var step := StringStep(Drop(text, q));
        var bytes, n, wrong := MeasureStep(q);
        if wrong.Some? { why := wrong; return; }
        StepLength(Drop(text, q));
        CursorAhead(text, q, n);
        PrependTwice(done, step.bytes, Body(Drop(text, q + n)));
        done := done + step.bytes;
        decoded, q := decoded + bytes, q + n;
      }
      Cursor(text, q);
      CursorAhead(text, q, 1);
      BodyStep(Drop(text, q));
      if Byte(q) != '\"' { why := Some(Unterminated); }
    }

    /** The second pass: fills an array of exactly the measured length and its final NUL. */
    method Decode(s: nat, q: nat, decoded: nat) returns (out: array<char>)
      requires s <= |text| && q < |text|
      requires var b := Body(Drop(text, s)); b.Good? && |b.value| == decoded && b.rest == Drop(text, q + 1)
      ensures fresh(out) && out[..] == Body(Drop(text, s)).value + ['\0']
    {
      hide Body, StringStep;
      ghost var answer, done := Body(Drop(text, s)), "";
      out := new char[decoded + 1];
      var w, r := 0, s;
      PrependTwice("", "", answer);
      Ends(text, s, q);
      while r < q
        invariant r <= q && Body(Drop(text, r)).Good? && Body(Drop(text, r)).rest == Drop(text, q + 1)
        invariant answer == Prepend(done, Body(Drop(text, r))) && w == |done| <= decoded && out[..w] == done
      {
        Cursor(text, r);
        Inside(text, r, q);
        BodyStep(Drop(text, r));
        var bytes, n := DecodeStep(r);
        StepLength(Drop(text, r));
        CursorAhead(text, r, n);
        PrependTwice(done, bytes, Body(Drop(text, r + n)));
        Store(out, w, bytes);
        done := done + bytes;
        w, r := w + |bytes|, r + n;
        Ends(text, r, q);
      }
      Ends(text, r, q);
      BodyStep(Drop(text, q));
      AtEnd(text, q);
      assert w == decoded;
      out[w] := '\0';
      assert out[..] == out[..w] + ['\0'];
    }

    /** json_parse_string, with the cursor on the opening quote. */
    method ReadText() returns (r: Option<string>)
      requires pos < |text| && ParseText(Drop(text, pos + 1)) != Bad(Overrun)
      modifies this
      ensures Tells(r, ParseText(Drop(text, old(pos) + 1)), text, pos, old(err), err)
    {
      hide Body, IndexOf;
      var q, decoded, why := Measure(pos + 1);
      if why.Some? { Fail(why.value); return None; }
      var out := Decode(pos + 1, q, decoded);
      ghost var bytes := Body(Drop(text, pos + 1)).value;
      var n := 0;
      while out[n] != '\0'
        invariant n <= decoded && '\0' !in out[..n]
        decreases decoded - n
      {
        assert out[..n + 1] == out[..n] + [out[n]];
        assert n < decoded ==> out[..][n] == bytes[n];
        assert out[..][decoded] == '\0';
        n := n + 1;
      }
      CStringOf(bytes, out[..], n);
      pos := q + 1;
      r := Some(out[..n]);
    }

    // ----- numbers and words -----

    /** Skips digits from `s` on. */
    method SkipDigits(s: nat) returns (e: nat)
      requires s <= |text|
      ensures e == s + DigitRun(Drop(text, s)) <= |text|
    {
      hide IsDigit, DigitRun, Drop, At;
      e := s;
      DigitRunStep(text, e);
      while IsDigit(Byte(e))
        invariant s <= e <= |text| && DigitRun(Drop(text, s)) == e - s + DigitRun(Drop(text, e))
        invariant DigitRun(Drop(text, e)) > 0 <==> IsDigit(At(text, e))
        decreases |text| - e
      {
        DigitRunStep(text, e);
        e := e + 1;
        DigitRunStep(text, e);
      }
    }

    /** At least one digit after `skip` characters from `s`. */
    method SkipSomeDigits(s: nat, skip: nat) returns (e: Option<nat>)
      requires s + skip <= |text|
      ensures match DigitsAfter(Drop(text, s), skip)
              case Some(n) => e == Some(s + n) && s + n <= |text|
              case None => e == None
    {
      hide IsDigit, DigitRun;
      Cursor(text, s);
      Cursor(text, s + skip);
      CursorAhead(text, s, skip);
      NulIsNoDigit();
      if !IsDigit(Byte(s + skip)) { return None; }
      var n := SkipDigits(s + skip);
      e := Some(n);
    }

    /** The fraction and the exponent. */
    method SkipFraction(s: nat) returns (e: Option<nat>)
      requires s <= |text|
      ensures match Fraction(Drop(text, s))
              case None => e == None
              case Some(f) =>
                match Exponent(Drop(text, s + f))
                case None => e == None
                case Some(x) => e == Some(s + f + x) && s + f + x <= |text|
    {
      hide DigitsAfter, Drop, At;
      Cursor(text, s);
      var p := s;
      if Byte(s) == '.' {
        var f := SkipSomeDigits(s, 1);
        if f.None? { return None; }
        p := f.value;
      }
      Cursor(text, p);
      if Byte(p) == 'e' || Byte(p) == 'E' {
        CursorAhead(text, p, 1);
        Cursor(text, p + 1);
        e := SkipSomeDigits(p, if Byte(p + 1) == '+' || Byte(p + 1) == '-' then 2 else 1);
        return;
      }
      e := Some(p);
    }

    /** The integer part at `s`: its length, or the problem. */
    method MeasureInteger(s: nat) returns (n: Option<nat>, why: Problem)
      requires s <= |text|
      ensures var k := IntPart(Drop(text, s));
              if k.None? then n == None && why == BadNumber
              else if At(text, s) == '0' && IsDigit(At(text, s + 1)) then n == None && why == LeadingZero
              else n == k
    {
      hide DigitRun, IsDigit;
      Cursor(text, s);
      why := BadNumber;
      if Byte(s) == '0' {
        if IsDigit(Byte(s + 1)) { return None, LeadingZero; }
        return Some(1), why;
      }
      if '1' <= Byte(s) <= '9' {
        var e := SkipDigits(s);
        return Some(e - s), why;
      }
      n := None;
    }

    /** json_parse_number, with the cursor on a sign or a digit. */
    method ReadNumber() returns (r: Option<Value>)
      requires pos <= |text|
      modifies this
      ensures Tells(r, ParseNumber(finite, Drop(text, old(pos))), text, pos, old(err), err)
    {
      hide ParseNumber, IntPart, Fraction, Exponent, DecValue, AllDigits, IsDigit, Drop;
      var start, s := pos, pos;
      Cursor(text, pos);
      if Byte(s) == '-' { s := s + 1; }
      NumberCases(finite, text, start, s);
      var n, why := MeasureInteger(s);
      if n.None? { Fail(why); return None; }
      var end := SkipFraction(s + n.value);
      if end.None? { Fail(BadNumber); return None; }
      if end.value > s + n.value {
        var lexeme := text[start..end.value];
        if !finite(lexeme) { Fail(FloatRange); return None; }
        r := Some(Float(lexeme));
      } else {
        var v: int := DecValue(text[s..s + n.value]);
        if s > start { v := -v; }
        if v < INT_MIN || v > INT_MAX { Fail(IntRange); return None; }
        r := Some(Int(v));
      }
      pos := end.value;
    }

    /** json_lit. */
    method ReadLiteral(word: string, v: Value) returns (r: Option<Value>)
      requires pos <= |text| && word != ""
      modifies this
      ensures Tells(r, Literal(Drop(text, old(pos)), word, v), text, pos, old(err), err)
    {
      Cursor(text, pos);
      CursorAhead(text, pos, |word|);
      if |word| <= |text| - pos && text[pos..pos + |word|] == word {
        assert Drop(text, pos)[..|word|] == word;
        pos := pos + |word|;
        return Some(v);
      }
      assert |word| <= |text| - pos ==> Drop(text, pos)[..|word|] == text[pos..pos + |word|];
      Fail(BadLiteral);
      r := None;
    }

    method ReadScalar() returns (r: Option<Value>)
      requires pos <= |text| && ParseScalar(finite, Drop(text, pos)) != Bad(Overrun)
      modifies this
      ensures Tells(r, ParseScalar(finite, Drop(text, old(pos))), text, pos, old(err), err)
    {
      hide ParseNumber, ParseText, Literal, Drop, At;
      var c := Byte(pos);
      Cursor(text, pos);
      if c == '\"' {
        var s := ReadText();
        r := if s.Some? then Some(Str(s.value)) else None;
      } else if c == 't' {
        r := ReadLiteral("true", Bool(true));
      } else if c == 'f' {
        r := ReadLiteral("false", Bool(false));
      } else if c == 'n' {
        r := ReadLiteral("null", Null);
      } else if c == '-' || '0' <= c <= '9' {
        r := ReadNumber();
      } else if c == '\0' {
        Fail(EndOfInput);
        r := None;
      } else {
        Fail(UnexpectedCharacter);
        r := None;
      }
    }

    // ----- values -----

    /** json_parse_value. */
    method ReadValue(depth: nat) returns (r: Option<Value>)
      requires pos <= |text| && ParseValue(finite, Drop(text, pos), depth) != Bad(Overrun)
      modifies this
      ensures Tells(r, ParseValue(finite, Drop(text, old(pos)), depth), text, pos, old(err), err)
      decreases |text| - pos, 1
    {
      hide ParseObject, ParseArray, ParseScalar, Ws, Drop, At;
      if depth > MAX_DEPTH { Fail(TooDeep); return None; }
      ghost var from := pos;
      SkipSpace();
      Cursor(text, from);
      Cursor(text, pos);
      var c := Byte(pos);
      if c == '{' {
        r := ReadObject(depth + 1);
      } else if c == '[' {
        r := ReadArray(depth + 1);
      } else {
        r := ReadScalar();
      }
    }

    /** After an item: a comma and the space behind it, or the closing character. */
    method NextItem(close: char) returns (more: bool, done: bool)
      requires pos <= |text| && close != '\0' && close != ','
      modifies `pos
      ensures var u := Ws(Drop(text, old(pos)));
              more == (At(u, 0) == ',') && done == (At(u, 0) == close) &&
              (more ==> Drop(text, pos) == Ws(Drop(u, 1))) && (done ==> Drop(text, pos) == Drop(u, 1))
      ensures old(pos) <= pos <= |text|
    {
      hide Ws, Drop, At;
      SkipSpace();
      Cursor(text, pos);
      CursorAhead(text, pos, 1);
      more, done := Byte(pos) == ',', Byte(pos) == close;
      if more || done { pos := pos + 1; }
      if more { SkipSpace(); }
    }

    /** json_parse_object, with the cursor on the opening brace. */
    method ReadObject(depth: nat) returns (r: Option<Value>)
      requires pos < |text| && ParseObject(finite, Drop(text, pos + 1), depth) != Bad(Overrun)
      modifies this
      ensures Tells(r, ParseObject(finite, Drop(text, old(pos) + 1), depth), text, pos, old(err), err)
      decreases |text| - pos, 0
    {
      hide ParseField, ParseFields, Stored, SetField, Ws, Drop, At, Zip;
      ghost var from, was := pos, err;
      var o := new OrbitObject();
      pos := pos + 1;
      SkipSpace();
      Cursor(text, pos);
      if Byte(pos) == '}' {
        pos := pos + 1;
        return Some(Obj([]));
      }
      ghost var answer, fields := ParseFields(finite, Drop(text, pos), depth, []), [];
      while true
        invariant from < pos <= |text| && err == was && o.Valid() && fresh(o) && fresh(o.keys) && fresh(o.values)
        invariant o.Fields() == fields && answer == ParseFields(finite, Drop(text, pos), depth, fields)
        decreases |text| - pos
      {
        FieldsStep(finite, text, pos, depth, fields);
        ghost var before := pos;
        var f := ReadField(depth);
        if f.None? { return None; }
        Cursor(text, before);
        Cursor(text, pos);
        StoredIs(fields, f.value);
        if !f.value.value.Null? { o.Set(f.value.key, f.value.value); }
        fields := Stored(fields, f.value);
        var more, done := NextItem('}');
        if done { return Some(Obj(o.Fields())); }
        if !more { Fail(ExpectedCommaOrBrace); return None; }
      }
    }

    /** A key, a colon and a value. */
    method ReadField(depth: nat) returns (r: Option<Field>)
      requires pos <= |text| && ParseField(finite, Drop(text, pos), depth) != Bad(Overrun)
      modifies this
      ensures Tells(r, ParseField(finite, Drop(text, old(pos)), depth), text, pos, old(err), err)
      decreases |text| - pos, 0
    {
      hide ParseValue, ParseText, Ws, Drop, At;
      Cursor(text, pos);
      ghost var from := pos;
      if Byte(pos) != '\"' { Fail(KeyNotString); return None; }
      var key := ReadText();
      if key.None? { return None; }
      Cursor(text, from + 1);
      Cursor(text, pos);
      SkipSpace();
      Cursor(text, pos);
      if Byte(pos) != ':' { Fail(ExpectedColon); return None; }
      pos := pos + 1;
      SkipSpace();
      var v := ReadValue(depth);
      r := if v.Some? then Some(Field(key.value, v.value)) else None;
    }

    /** json_parse_array, with the cursor on the opening bracket. */
    method ReadArray(depth: nat) returns (r: Option<Value>)
      requires pos < |text| && ParseArray(finite, Drop(text, pos + 1), depth) != Bad(Overrun)
      modifies this
      ensures Tells(r, ParseArray(finite, Drop(text, old(pos) + 1), depth), text, pos, old(err), err)
      decreases |text| - pos, 0
    {
      hide ParseValue, ParseElems, ElementProblem, Ws, Drop, At;
      ghost var from, was := pos, err;
      var list: seq<Value> := [];
      pos := pos + 1;
      SkipSpace();
      Cursor(text, pos);
      if Byte(pos) == ']' {
        pos := pos + 1;
        return Some(Arr([]));
      }
      ghost var answer := ParseElems(finite, Drop(text, pos), depth, []);
      while true
        invariant from < pos <= |text| && err == was
        invariant answer == ParseElems(finite, Drop(text, pos), depth, list)
        decreases |text| - pos
      {
        ElemsStep(finite, text, pos, depth, list);
        ghost var before := pos;
        var v := ReadValue(depth);
        if v.None? { return None; }
        Cursor(text, before);
        Cursor(text, pos);
        var problem := CheckElement(list, v.value);
        if problem.Some? { Fail(problem.value); return None; }
        list := list + [v.value];
        var more, done := NextItem(']');
        if done { return Some(Arr(list)); }
        if !more { Fail(ExpectedCommaOrBracket); return None; }
      }
    }

    /** orbit_json_parse. */
    method ReadDocument() returns (r: Option<Value>, why: Option<Problem>)
      requires pos == 0 && err == None && ParseDocument(finite, text) != Bad(Overrun)
      modifies this
      ensures match ParseDocument(finite, text)
              case Good(v, _) => r == Some(v) && why == None
              case Bad(w) => r == None && why == Some(w)
    {
      hide ParseValue, Ws;
      assert Drop(text, 0) == text;
      var v := ReadValue(0);
      if v.None? { return None, err; }
      if !v.value.Obj? { return None, Some(NotObject); }
      SkipSpace();
      Cursor(text, pos);
      if pos < |text| { return None, Some(TrailingData); }
      r, why := v, None;
    }
  }

  method CheckElement(list: seq<Value>, v: Value) returns (why: Option<Problem>)
    ensures why == ElementProblem(list, v)
  {
    if v.Null? { return Some(NullElement); }
    if v.Arr? { return Some(NestedArray); }
    if list != [] && Kind(list[0]) != Kind(v) { return Some(MixedArray); }
    why := None;
  }

  /** One turn of the loop over fields. */
  lemma {:induction false} FieldsStep(finite: Floats, text: string, p: nat, depth: nat, fields: seq<Field>)
    requires p <= |text|
    ensures var f := ParseField(finite, Drop(text, p), depth);
            ParseFields(finite, Drop(text, p), depth, fields) ==
            if f.Bad? then Bad(f.why)
            else
              var all, u := Stored(fields, f.value), Ws(f.rest);
              if At(u, 0) == ',' then ParseFields(finite, Ws(Drop(u, 1)), depth, all)
              else if At(u, 0) == '}' then Good(Obj(all), Drop(u, 1))
              else Bad(ExpectedCommaOrBrace)
  {
    hide ParseField, Stored, Ws;
  }

  lemma {:induction false} ElemsStep(finite: Floats, text: string, p: nat, depth: nat, elems: seq<Value>)
    requires p <= |text|
    ensures var v := ParseValue(finite, Drop(text, p), depth);
            ParseElems(finite, Drop(text, p), depth, elems) ==
            if v.Bad? then Bad(v.why)
            else if ElementProblem(elems, v.value).Some? then Bad(ElementProblem(elems, v.value).value)
            else
              var all, u := elems + [v.value], Ws(v.rest);
              if At(u, 0) == ',' then ParseElems(finite, Ws(Drop(u, 1)), depth, all)
              else if At(u, 0) == ']' then Good(Arr(all), Drop(u, 1))
              else Bad(ExpectedCommaOrBracket)
  {
    hide ParseValue, ElementProblem, Ws;
  }

  lemma {:induction false} StoredIs(fields: seq<Field>, f: Field)
    ensures Stored(fields, f) == if f.value.Null? then fields else SetField(fields, f.key, f.value)
  {
  }

  lemma {:induction false} NulIsNoDigit()
    ensures !IsDigit('\0')
  {
  }

  lemma {:induction false} DigitRunStep(text: string, p: nat)
    requires p <= |text|
    ensures if IsDigit(At(text, p)) then p < |text| && DigitRun(Drop(text, p)) == 1 + DigitRun(Drop(text, p + 1))
            else DigitRun(Drop(text, p)) == 0
  {
    hide IsDigit;
    Cursor(text, p);
    NulIsNoDigit();
  }

  /** The value of a number from `start` whose digits are at `s` and which ends at `end`. */
  function NumberValue(finite: Floats, text: string, start: nat, s: nat, n: nat, end: nat): Parsed<Value>
    requires start <= s <= s + n <= end <= |text| && AllDigits(text[s..s + n])
  {
    if end > s + n then
      if finite(text[start..end]) then Good(Float(text[start..end]), Drop(text, end)) else Bad(FloatRange)
    else
      var v := if s > start then -(DecValue(text[s..s + n]) as int) else DecValue(text[s..s + n]);
      if INT_MIN <= v <= INT_MAX then Good(Int(v), Drop(text, end)) else Bad(IntRange)
  }

  /** json_parse_number, cut where the cursor stops. */
  lemma {:induction false} NumberCases(finite: Floats, text: string, start: nat, s: nat)
    requires start <= |text| && s == start + if At(text, start) == '-' then 1 else 0
    ensures s <= |text|
    ensures var answer := ParseNumber(finite, Drop(text, start));
            match IntPart(Drop(text, s))
            case None => answer == Bad(BadNumber)
            case Some(n) =>
              if At(text, s) == '0' && IsDigit(At(text, s + 1)) then answer == Bad(LeadingZero)
              else
                s + n <= |text| && AllDigits(text[s..s + n]) &&
                match Fraction(Drop(text, s + n))
                case None => answer == Bad(BadNumber)
                case Some(f) =>
                  match Exponent(Drop(text, s + n + f))
                  case None => answer == Bad(BadNumber)
                  case Some(e) =>
                    s + n + f + e <= |text| && answer == NumberValue(finite, text, start, s, n, s + n + f + e)
  {
    hide ParseNumber, DigitRun, Fraction, Exponent, DecValue, IsDigit, IntPart, AllDigits, Drop, At;
    Cursor(text, start);
    CursorAhead(text, start, s - start);
    CursorAhead(text, s, 1);
    Cursor(text, s);
    var t, u := Drop(text, start), Drop(text, s);
    NumberUnfolds(finite, t, s - start);
    if IntPart(u).Some? {
      var n := IntPart(u).value;
      IntPartDigits(u);
      Shift(text, s, n);
      if Fraction(Drop(u, n)).Some? {
        var f := Fraction(Drop(u, n)).value;
        Shift(text, s, n + f);
        if Exponent(Drop(u, n + f)).Some? {
          var e := Exponent(Drop(u, n + f)).value;
          Shift(text, s, n + f + e);
          Shift(text, start, s - start + n + f + e);
        }
      }
    }
  }

  lemma {:induction false} Shift(text: string, s: nat, n: nat)
    ensures Drop(Drop(text, s), n) == Drop(text, s + n)
    ensures s + n <= |text| ==> |Drop(text, s)| >= n && Drop(text, s)[..n] == text[s..s + n]
    ensures s <= |text| && n <= |Drop(text, s)| ==> s + n <= |text| && |Drop(text, s + n)| == |text| - s - n
  {
  }

  lemma {:induction false} NulIsNoSpace()
    ensures !Space('\0')
  {
  }

  lemma {:induction false} PairIsFour(high: nat, low: nat)
    requires HighSurrogate(high) && LowSurrogate(low)
    ensures |Utf8(Combined(high, low))| == 4
  {
  }

  lemma {:induction false} UnitAhead(t: string, q: nat)
    ensures Unit16(Drop(t, q), 2) == Unit16(t, q + 2) && Unit16(Drop(t, q), 8) == Unit16(t, q + 8)
    ensures HasNul(Drop(t, q), 2) == HasNul(t, q + 2) && HasNul(Drop(t, q), 8) == HasNul(t, q + 8)
    ensures At(Drop(t, q), 6) == At(t, q + 6) && At(Drop(t, q), 7) == At(t, q + 7)
  {
    hide Hex;
    forall i: nat | 2 <= i < 12 ensures At(Drop(t, q), i) == At(t, q + i) { CursorAhead(t, q, i); }
  }

  lemma {:induction false} StepLength(t: string)
    ensures StringStep(t).Piece? ==> 0 < StringStep(t).length <= 12
  {
    hide UnicodeStep, ShortEscape;
    assert UnicodeStep(t).Piece? ==> UnicodeStep(t).length == 12 || UnicodeStep(t).length == 7 by { UnicodeLength(t); }
  }

  lemma {:induction false} UnicodeLength(t: string)
    ensures UnicodeStep(t).Piece? ==> UnicodeStep(t).length == 12 || UnicodeStep(t).length == 7
  {
    hide Unit16, Utf8;
  }

  /** A string that ends after `q` is read from no later than `q`. */
  lemma {:induction false} Ends(t: string, r: nat, q: nat)
    requires q < |t| && Body(Drop(t, r)).Good? && Body(Drop(t, r)).rest == Drop(t, q + 1)
    ensures r <= q
  {
    hide Body;
    Cursor(t, r);
    Cursor(t, q + 1);
    assert |Drop(t, q + 1)| < |Drop(t, r)|;
  }

  /** Before its closing quote the string has another step. */
  lemma {:induction false} Inside(t: string, r: nat, q: nat)
    requires r < q < |t| && Body(Drop(t, r)).Good? && Body(Drop(t, r)).rest == Drop(t, q + 1)
    ensures At(t, r) != '\0' && At(t, r) != '\"' && StringStep(Drop(t, r)).Piece?
  {
    hide StringStep;
    Cursor(t, r);
    CursorAhead(t, r, 1);
    Cursor(t, r + 1);
    Cursor(t, q + 1);
  }

  lemma {:induction false} AtEnd(t: string, q: nat)
    requires q < |t| && Body(Drop(t, q)).Good? && Body(Drop(t, q)).rest == Drop(t, q + 1)
    ensures Body(Drop(t, q)).value == ""
  {
    hide StringStep;
    Cursor(t, q);
    var u := Drop(t, q);
    BodyStep(u);
    StepForward(u);
    var s := StringStep(u);
    if s.Piece? {
      var r := Body(Drop(u, s.length));
      assert r.Good? ==> |r.rest| < |Drop(u, s.length)| < |u|;
    }
  }

  lemma {:induction false} StepForward(u: string)
    ensures StringStep(u).Piece? && u != "" ==> |Drop(u, StringStep(u).length)| < |u|
  {
    hide StringStep;
  }

  lemma {:induction false} CStringOf(bytes: string, out: string, n: nat)
    requires out == bytes + ['\0'] && n <= |bytes| && '\0' !in out[..n] && out[n] == '\0'
    ensures CString(bytes) == out[..n]
  {
    assert out[..n] == bytes[..n];
    IndexOfIs(bytes, '\0', n);
  }
}
