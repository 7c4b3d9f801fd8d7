/** runtime/json.c: parsing a printed object gives back an equal object. */
module JsonProofs {
  import opened Basics
  import opened Digits
  import opened JsonText
  import opened JsonTextProofs
  import opened Json

  // ----- what can be printed without loss -----

  predicate DistinctKeys(fields: seq<Field>) {
    forall i, j | 0 <= i < j < |fields| :: fields[i].key != fields[j].key
  }

  /** Values that lose nothing but null fields: 64-bit integers, strings without numeric escapes, objects with
      distinct keys, lists of one element type that are not lists of lists. Floats are not among them. */
  predicate Printable(v: Value) {
    match v
    case Null => true
    case Int(i) => INT_MIN <= i <= INT_MAX
    case Float(_) => false
    case Bool(_) => true
    case Str(s) => Plain(s)
    case Obj(fields) => DistinctKeys(fields) && forall f | f in fields :: Plain(f.key) && Printable(f.value)
    case Arr(elems) =>
      forall i | 0 <= i < |elems| ::
        Printable(elems[i]) && !elems[i].Null? && !elems[i].Arr? && Kind(elems[i]) == Kind(elems[0])
  }

  function Max(a: nat, b: nat): nat {
    if a > b then a else b
  }

  /** How many levels lie below a value. */
  function Height(v: Value): nat
    decreases v
  {
    match v
    case Obj(fields) => if fields == [] then 0 else 1 + FieldsHeight(fields)
    case Arr(elems) => if elems == [] then 0 else 1 + ElemsHeight(elems)
    case _ => 0
  }

  function FieldsHeight(fields: seq<Field>): nat
    decreases fields
  {
    if fields == [] then 0 else Max(Height(fields[0].value), FieldsHeight(fields[1..]))
  }

  function ElemsHeight(elems: seq<Value>): nat
    decreases elems
  {
    if elems == [] then 0 else Max(Height(elems[0]), ElemsHeight(elems[1..]))
  }

  /** The value without its null fields, at every level. */
  function Strip(v: Value): (r: Value)
    ensures Kind(r) == Kind(v)
    decreases v
  {
    match v
    case Obj(fields) => Obj(StripFields(fields))
    case Arr(elems) => Arr(StripElems(elems))
    case _ => v
  }

  function StripFields(fields: seq<Field>): seq<Field>
    decreases fields
  {
    if fields == [] then []
    else
      (if fields[0].value.Null? then [] else [Field(fields[0].key, Strip(fields[0].value))]) + StripFields(fields[1..])
  }

  function StripElems(elems: seq<Value>): (r: seq<Value>)
    ensures |r| == |elems|
    decreases elems
  {
    if elems == [] then [] else [Strip(elems[0])] + StripElems(elems[1..])
  }

  // ----- a stripped object answers like the original -----

  lemma {:induction false} GetFieldCons(f: Field, fields: seq<Field>, key: string)
    ensures GetField([f] + fields, key) == if f.key == key then f.value else GetField(fields, key)
  {
    var all := [f] + fields;
    if f.key == key {
      KeyIndexIs(all, key, 0);
    } else {
      KeyIndexIs(all, key, 1 + KeyIndex(fields, key));
    }
  }

  lemma {:induction false} NoSuchKey(fields: seq<Field>, key: string)
    requires forall i | 0 <= i < |fields| :: fields[i].key != key
    ensures GetField(StripFields(fields), key) == Null && GetField(fields, key) == Null
  {
    KeyIndexIs(fields, key, |fields|);
    if fields != [] {
      NoSuchKey(fields[1..], key);
      var more := StripFields(fields[1..]);
      if fields[0].value.Null? {
        assert [] + more == more;
      } else {
        GetFieldCons(Field(fields[0].key, Strip(fields[0].value)), more, key);
      }
    } else {
      KeyIndexIs([], key, 0);
    }
  }

  /** Every getter of the stripped object answers as the original's does: a missing key and a null field read alike. */
  lemma {:induction false} StripIsObservedEqual(fields: seq<Field>, key: string)
    requires DistinctKeys(fields)
    ensures GetField(StripFields(fields), key) == Strip(GetField(fields, key))
  {
    if fields == [] {
      NoSuchKey(fields, key);
    } else {
      var f, rest := fields[0], fields[1..];
      assert fields == [f] + rest;
      assert forall i | 0 <= i < |rest| :: rest[i] == fields[i + 1];
      StripIsObservedEqual(rest, key);
      GetFieldCons(f, rest, key);
      var more := StripFields(rest);
      if f.value.Null? {
        assert [] + more == more;
        if f.key == key { NoSuchKey(rest, key); }
      } else {
        GetFieldCons(Field(f.key, Strip(f.value)), more, key);
      }
    }
  }

  // ----- numbers -----

  /** Text that does not continue a number. */
  predicate Stops(t: string) {
    !IsDigit(At(t, 0)) && At(t, 0) != '.' && At(t, 0) != 'e' && At(t, 0) != 'E'
  }

  lemma {:induction false} DigitsRead(n: nat, rest: string)
    requires Stops(rest)
    ensures IntPart(DecText(n) + rest) == Some(|DecText(n)|)
    ensures (DecText(n) + rest)[0] == '0' ==> !IsDigit(At(DecText(n) + rest, 1))
    ensures (DecText(n) + rest)[..|DecText(n)|] == DecText(n) && (DecText(n) + rest)[|DecText(n)|..] == rest
    ensures IsDigit((DecText(n) + rest)[0])
  {
    hide DecText, DecValue;
    var d := DecText(n);
    DecTextValue(n);
    var t := d + rest;
    assert t[..|d|] == d && t[|d|..] == rest && At(t, |d|) == At(rest, 0);
    assert t[0] == d[0];
    DigitRunIs(t, |d|);
  }

  lemma {:induction false} NoFraction(rest: string)
    requires Stops(rest)
    ensures Fraction(rest) == Some(0) && Exponent(rest[0..]) == Some(0)
  {
    assert rest[0..] == rest;
  }

  /** A numeral without fraction or exponent is an integer when it fits 64 bits, and refused when it does not. */
  lemma {:induction false} NumeralRead(finite: Floats, t: string, sign: nat, n: nat, rest: string)
    requires sign == if At(t, 0) == '-' then 1 else 0
    requires Drop(t, sign) == DecText(n) + rest && Stops(rest)
    ensures var v: int := if sign == 1 then 0 - n else n;
            ParseNumber(finite, t) == if INT_MIN <= v <= INT_MAX then Good(Int(v), rest) else Bad(IntRange)
  {
    hide DecText, IntPart, Fraction, Exponent, DecValue, IsDigit, AllDigits, DigitRun;
    DecTextValue(n);
    DigitsRead(n, rest);
    NoFraction(rest);
    var u := Drop(t, sign);
    var k := |DecText(n)|;
    assert u[..k] == DecText(n) && u[k..] == rest && u[k..][0..] == rest && u[k + 0..] == rest;
  }

  /** A printed integer is read back, the least one included. */
  lemma {:induction false} IntegerRoundTrip(finite: Floats, i: int, rest: string)
    requires INT_MIN <= i <= INT_MAX && Stops(rest)
    ensures ParseNumber(finite, IntText(i) + rest) == Good(Int(i), rest)
  {
    hide DecText, ParseNumber;
    var t := IntText(i) + rest;
    if i < 0 {
      assert t == "-" + (DecText(-i) + rest);
      assert Drop(t, 1) == DecText(-i) + rest;
      NumeralRead(finite, t, 1, -i, rest);
    } else {
      DigitsRead(i, rest);
      assert Drop(t, 0) == DecText(i) + rest;
      NumeralRead(finite, t, 0, i, rest);
    }
  }

  // ----- scalars -----

  lemma {:induction false} PrintStart(v: Value)
    requires Printable(v)
    ensures Print(v) != "" && !Space(Print(v)[0])
    ensures v.Int? ==> Print(v)[0] == '-' || IsDigit(Print(v)[0])
    ensures !v.Obj? && !v.Arr? ==> Print(v)[0] != '{' && Print(v)[0] != '['
    ensures v.Obj? ==> Print(v)[0] == '{'
    ensures v.Arr? ==> Print(v)[0] == '['
  {
  }

  lemma {:induction false} WsSkipsNothing(t: string)
    requires !Space(At(t, 0))
    ensures Ws(t) == t
  {
  }

  lemma {:induction false} LiteralRead(word: string, rest: string, v: Value)
    requires word != ""
    ensures Literal(word + rest, word, v) == Good(v, rest)
  {
    assert (word + rest)[..|word|] == word && (word + rest)[|word|..] == rest;
  }

  lemma {:induction false} ScalarRoundTrip(finite: Floats, v: Value, rest: string)
    requires Printable(v) && !v.Obj? && !v.Arr? && Stops(rest)
    ensures ParseScalar(finite, Print(v) + rest) == Good(v, rest)
  {
    hide ParseNumber, ParseText, Literal, IntText;
    var t := Print(v) + rest;
    match v
    case Null => LiteralRead("null", rest, Null); assert t[0] == 'n';
    case Bool(b) =>
      LiteralRead("true", rest, Bool(true));
      LiteralRead("false", rest, Bool(false));
      assert t[0] == if b then 't' else 'f';
    case Int(i) =>
      PrintStart(v);
      IntegerRoundTrip(finite, i, rest);
      assert t[0] == Print(v)[0];
    case Str(s) =>
      PlainHasNoNul(s);
      StringRoundTripExact(s, rest);
      assert t[0] == '\"';
  }

  lemma {:induction false} PlainHasNoNul(s: string)
    requires Plain(s)
    ensures NoNul(s)
  {
    forall i | 0 <= i < |s| ensures s[i] != '\0' { assert PlainChar(s[i]); }
  }

  // ----- values -----

  /** What parsing a printed value must give. */
  function Expected(v: Value, rest: string, depth: nat): Parsed<Value> {
    if depth + Height(v) <= MAX_DEPTH then Good(Strip(v), rest) else Bad(TooDeep)
  }

  /** Parsing inverts printing, for every nesting the depth limit allows, and refuses every deeper one. */
  lemma {:induction false} ValueRoundTrip(finite: Floats, v: Value, rest: string, depth: nat)
    requires Printable(v) && Stops(rest)
    ensures ParseValue(finite, Print(v) + rest, depth) == Expected(v, rest, depth)
    decreases v
  {
    hide Print, Printable, ParseScalar, ParseObject, ParseArray, Strip, Height;
    PrintStart(v);
    var t := Print(v) + rest;
    assert t[0] == Print(v)[0];
    WsSkipsNothing(t);
    if depth <= MAX_DEPTH {
      if v.Obj? {
        ObjectRoundTrip(finite, v, rest, depth);
      } else if v.Arr? {
        ArrayRoundTrip(finite, v, rest, depth);
      } else {
        ScalarRoundTrip(finite, v, rest);
        ScalarHeight(v);
      }
    }
  }

  lemma {:induction false} ScalarHeight(v: Value)
    requires !v.Obj? && !v.Arr?
    ensures Height(v) == 0 && Strip(v) == v
  {
  }

  lemma {:induction false} ObjectRoundTrip(finite: Floats, v: Value, rest: string, depth: nat)
    requires v.Obj? && Printable(v) && depth <= MAX_DEPTH
    ensures ParseObject(finite, (Print(v) + rest)[1..], depth + 1) == Expected(v, rest, depth)
    decreases v, 1
  {
    hide ParseFields, PrintFields;
    var fields := v.fields;
    var t := PrintFields(fields) + "}" + rest;
    assert (Print(v) + rest)[1..] == t;
    if fields == [] {
      assert PrintFields(fields) == "" by { NothingPrinted(); }
      assert t == "}" + rest;
      WsSkipsNothing(t);
    } else {
      FieldsStart(fields);
      assert t[0] == PrintFields(fields)[0];
      WsSkipsNothing(t);
      FieldsRoundTrip(finite, fields, rest, depth + 1, []);
      assert [] + StripFields(fields) == StripFields(fields);
    }
  }

  lemma {:induction false} NothingPrinted()
    ensures PrintFields([]) == "" && PrintElems([]) == ""
  {
  }

  lemma {:induction false} FieldsStart(fields: seq<Field>)
    requires fields != []
    ensures PrintFields(fields) != "" && PrintFields(fields)[0] == '\"'
  {
  }

  predicate FreshKeys(acc: seq<Field>, fields: seq<Field>) {
    forall i, j | 0 <= i < |acc| && 0 <= j < |fields| :: acc[i].key != fields[j].key
  }

  lemma {:induction false} StoredFresh(acc: seq<Field>, f: Field, v: Value)
    requires FreshKeys(acc, [f]) && v == Strip(f.value)
    ensures Stored(acc, Field(f.key, v)) == acc + Kept(f)
  {
    assert [f][0] == f;
    KeyIndexIs(acc, f.key, |acc|);
  }

  /** Reading one printed field. */
  lemma {:induction false} FieldRoundTrip(finite: Floats, f: Field, rest: string, depth: nat)
    requires Plain(f.key) && Printable(f.value) && Stops(rest)
    ensures ParseField(finite, PrintField(f) + rest, depth) ==
            if depth + Height(f.value) <= MAX_DEPTH then Good(Field(f.key, Strip(f.value)), rest) else Bad(TooDeep)
    decreases f, 0
  {
    hide Print, Printable, ParseValue, PrintText, ParseText, Strip, Height;
    var tail := ":" + (Print(f.value) + rest);
    var t := PrintField(f) + rest;
    assert t == PrintText(f.key) + tail;
    PlainHasNoNul(f.key);
    StringRoundTripExact(f.key, tail);
    TextStart(f.key);
    assert t[0] == PrintText(f.key)[0];
    WsSkipsNothing(tail);
    PrintStart(f.value);
    assert tail[1..] == Print(f.value) + rest;
    assert (Print(f.value) + rest)[0] == Print(f.value)[0];
    WsSkipsNothing(tail[1..]);
    ValueRoundTrip(finite, f.value, rest, depth);
  }

  lemma {:induction false} TextStart(s: string)
    ensures PrintText(s) != "" && PrintText(s)[0] == '\"'
  {
  }

  /** What follows a field. */
  function FieldsTail(more: seq<Field>, rest: string): string {
    (if more == [] then "}" else "," + PrintFields(more) + "}") + rest
  }

  lemma {:induction false} FieldsShape(fields: seq<Field>, rest: string)
    requires fields != []
    ensures PrintFields(fields) + "}" + rest == PrintField(fields[0]) + FieldsTail(fields[1..], rest)
  {
    hide PrintField;
  }

  lemma {:induction false} FieldsTailShape(more: seq<Field>, rest: string)
    ensures var t := FieldsTail(more, rest);
            && t != "" && Ws(t) == t && Stops(t)
            && t[0] == (if more == [] then '}' else ',')
            && t[1..] == if more == [] then rest else PrintFields(more) + "}" + rest
  {
    hide PrintFields;
    WsSkipsNothing(FieldsTail(more, rest));
  }

  function Kept(f: Field): seq<Field> {
    if f.value.Null? then [] else [Field(f.key, Strip(f.value))]
  }

  lemma {:induction false} FieldsStepFacts(fields: seq<Field>, acc: seq<Field>)
    requires fields != []
    ensures acc + StripFields(fields) == acc + Kept(fields[0]) + StripFields(fields[1..])
    ensures FieldsHeight(fields) == Max(Height(fields[0].value), FieldsHeight(fields[1..]))
  {
    hide Strip, Height;
    var first, more := Kept(fields[0]), StripFields(fields[1..]);
    assert StripFields(fields) == first + more;
    Assoc(acc, first, more);
  }

  lemma {:induction false} FieldsRoundTrip(finite: Floats, fields: seq<Field>, rest: string, depth: nat, acc: seq<Field>)
    requires fields != [] && DistinctKeys(fields) && FreshKeys(acc, fields)
    requires forall f | f in fields :: Plain(f.key) && Printable(f.value)
    ensures ParseFields(finite, PrintFields(fields) + "}" + rest, depth, acc) ==
            if depth + FieldsHeight(fields) <= MAX_DEPTH then Good(Obj(acc + StripFields(fields)), rest) else Bad(TooDeep)
    decreases fields, 0
  {
    hide Printable, ParseField, PrintField, PrintFields, FieldsTail, Stored, Strip, StripFields, Height, FieldsHeight;
    var f, more := fields[0], fields[1..];
    assert f in fields;
    FieldsShape(fields, rest);
    FieldsTailShape(more, rest);
    FieldsStepFacts(fields, acc);
    FieldRoundTrip(finite, f, FieldsTail(more, rest), depth);
    FirstFresh(acc, fields, Kept(f));
    StoredFresh(acc, f, Strip(f.value));
    NothingMore([], acc + Kept(f));
    if more != [] {
      FieldsStart(more);
      var next := PrintFields(more) + "}" + rest;
      assert next[0] == PrintFields(more)[0];
      WsSkipsNothing(next);
      FieldsRoundTrip(finite, more, rest, depth, acc + Kept(f));
    }
  }

  lemma {:induction false} FirstFresh(acc: seq<Field>, fields: seq<Field>, kept: seq<Field>)
    requires fields != [] && DistinctKeys(fields) && FreshKeys(acc, fields)
    requires forall k | k in kept :: k.key == fields[0].key
    ensures FreshKeys(acc, [fields[0]]) && FreshKeys(acc + kept, fields[1..]) && DistinctKeys(fields[1..])
    ensures forall f | f in fields[1..] :: f in fields
  {
    var more := fields[1..];
    assert forall j | 0 <= j < |more| :: more[j] == fields[j + 1];
    forall i, j | 0 <= i < |acc + kept| && 0 <= j < |more| ensures (acc + kept)[i].key != more[j].key {
      assert i >= |acc| ==> (acc + kept)[i] in kept;
    }
  }

  lemma {:induction false} ArrayRoundTrip(finite: Floats, v: Value, rest: string, depth: nat)
    requires v.Arr? && Printable(v) && depth <= MAX_DEPTH
    ensures ParseArray(finite, (Print(v) + rest)[1..], depth + 1) == Expected(v, rest, depth)
    decreases v, 1
  {
    hide ParseElems, PrintElems, Printable;
    var elems := v.elems;
    var t := PrintElems(elems) + "]" + rest;
    assert (Print(v) + rest)[1..] == t;
    ArrPrintable(v);
    if elems == [] {
      assert PrintElems(elems) == "" by { NothingPrinted(); }
      assert t == "]" + rest;
      WsSkipsNothing(t);
    } else {
      ElemsStart(elems);
      assert t[0] == PrintElems(elems)[0];
      WsSkipsNothing(t);
      ElemsRoundTrip(finite, elems, rest, depth + 1, []);
      assert [] + StripElems(elems) == StripElems(elems);
    }
  }

  predicate ElemOk(e: Value, kind: nat) {
    Printable(e) && !e.Null? && !e.Arr? && Kind(e) == kind
  }

  lemma {:induction false} ArrPrintable(v: Value)
    requires v.Arr? && Printable(v)
    ensures forall e | e in v.elems :: ElemOk(e, Kind(v.elems[0]))
  {
  }

  lemma {:induction false} ElemsStart(elems: seq<Value>)
    requires elems != [] && ElemOk(elems[0], Kind(elems[0]))
    ensures PrintElems(elems) != "" && !Space(PrintElems(elems)[0]) && PrintElems(elems)[0] != ']'
  {
    PrintStart(elems[0]);
    assert PrintElems(elems)[0] == Print(elems[0])[0];
    NotABracket(elems[0]);
  }

  lemma {:induction false} NotABracket(v: Value)
    requires Printable(v)
    ensures Print(v) != "" && Print(v)[0] != ']'
  {
  }

  /** What follows an element. */
  function ElemsTail(more: seq<Value>, rest: string): string {
    (if more == [] then "]" else "," + PrintElems(more) + "]") + rest
  }

  lemma {:induction false} ElemsShape(elems: seq<Value>, rest: string)
    requires elems != []
    ensures PrintElems(elems) + "]" + rest == Print(elems[0]) + ElemsTail(elems[1..], rest)
  {
  }

  lemma {:induction false} ElemsTailShape(more: seq<Value>, rest: string)
    ensures var t := ElemsTail(more, rest);
            && t != "" && Ws(t) == t && Stops(t)
            && t[0] == (if more == [] then ']' else ',')
            && t[1..] == if more == [] then rest else PrintElems(more) + "]" + rest
  {
    hide PrintElems;
    WsSkipsNothing(ElemsTail(more, rest));
  }

  lemma {:induction false} ElemsStepFacts(elems: seq<Value>, acc: seq<Value>)
    requires elems != []
    ensures acc + StripElems(elems) == acc + [Strip(elems[0])] + StripElems(elems[1..])
    ensures ElemsHeight(elems) == Max(Height(elems[0]), ElemsHeight(elems[1..]))
  {
    hide Strip, Height;
    var first, more := [Strip(elems[0])], StripElems(elems[1..]);
    assert StripElems(elems) == first + more;
    Assoc(acc, first, more);
  }

  lemma {:induction false} ElemsRoundTrip(finite: Floats, elems: seq<Value>, rest: string, depth: nat, acc: seq<Value>)
    requires elems != [] && forall e | e in elems :: ElemOk(e, Kind(elems[0]))
    requires acc != [] ==> Kind(acc[0]) == Kind(elems[0])
    ensures ParseElems(finite, PrintElems(elems) + "]" + rest, depth, acc) ==
            if depth + ElemsHeight(elems) <= MAX_DEPTH then Good(Arr(acc + StripElems(elems)), rest) else Bad(TooDeep)
    decreases elems, 0
  {
    hide Printable, ParseValue, Print, PrintElems, ElemsTail, Strip, StripElems, Height, ElemsHeight, Kind;
    var e, more := elems[0], elems[1..];
    assert e in elems && ElemOk(e, Kind(e));
    ElemsShape(elems, rest);
    ElemsTailShape(more, rest);
    ElemsStepFacts(elems, acc);
    ValueRoundTrip(finite, e, ElemsTail(more, rest), depth);
    StripKind(e);
    NothingMore(acc + [Strip(e)], []);
    if more != [] {
      assert more[0] in elems && forall x | x in more :: x in elems;
      ElemsStart(more);
      var next := PrintElems(more) + "]" + rest;
      assert next[0] == PrintElems(more)[0];
      WsSkipsNothing(next);
      ElemsRoundTrip(finite, more, rest, depth, acc + [Strip(e)]);
    }
  }

  lemma {:induction false} StripKind(v: Value)
    ensures Kind(Strip(v)) == Kind(v) && (Strip(v).Null? <==> v.Null?) && (Strip(v).Arr? <==> v.Arr?)
  {
  }

  lemma {:induction false} Assoc<T>(a: seq<T>, b: seq<T>, c: seq<T>)
    ensures a + (b + c) == a + b + c
  {
  }

  lemma {:induction false} NothingMore(acc: seq<Value>, kept: seq<Field>)
    ensures StripElems([]) == [] && StripFields([]) == [] && ElemsHeight([]) == 0 && FieldsHeight([]) == 0
    ensures acc + [] == acc && kept + [] == kept
  {
  }

  // ----- documents -----

  /** Parsing the printed form of an object gives an equal object, null fields aside, exactly when no value lies more
      than 64 levels deep. */
  lemma {:induction false} DocumentRoundTrip(finite: Floats, fields: seq<Field>)
    requires Printable(Obj(fields))
    ensures ParseDocument(finite, Print(Obj(fields))) ==
            if Height(Obj(fields)) <= MAX_DEPTH then Good(Obj(StripFields(fields)), "") else Bad(TooDeep)
  {
    hide Print, Printable, Height, ParseValue;
    ValueRoundTrip(finite, Obj(fields), "", 0);
    assert Print(Obj(fields)) + "" == Print(Obj(fields));
  }

  /** Read field by field, the object that comes back answers every getter like the one that was printed. */
  lemma {:induction false} ParsedAnswersAlike(finite: Floats, fields: seq<Field>, key: string)
    requires Printable(Obj(fields)) && Height(Obj(fields)) <= MAX_DEPTH
    ensures var r := ParseDocument(finite, Print(Obj(fields)));
            r.Good? && r.value.Obj? && GetField(r.value.fields, key) == Strip(GetField(fields, key))
  {
    hide Print, ParseDocument, Height;
    DocumentRoundTrip(finite, fields);
    StripIsObservedEqual(fields, key);
  }
}
