/** runtime/json.c: what parsing and printing mean, as functions of the text and of the value.

    A parsing function takes what is left of the text and gives a value with what it leaves, or the
    problem met first. Null fields are dropped, a repeated key overwrites and keeps its place, lists have
    one kind of elements, and no value may lie more than 64 levels deep.

    A float is kept as its decimal text; which of those texts strtod finds finite is a parameter.

    A printing function gives the text that the printer appends.

    The methods of the parser and of the printer are proved to compute these functions, and the round
    trips are proved about them. */
module Json {
  import opened Basics
  import opened Digits
  import opened JsonText

  const MAX_DEPTH := 64
  const INT_MIN := -0x8000_0000_0000_0000
  const INT_MAX := 0x7FFF_FFFF_FFFF_FFFF

  /** An OrbitValue with what it points to. A float is kept as its decimal text. */
  datatype Value =
    | Null
    | Int(i: int)
    | Float(text: string)
    | Bool(b: bool)
    | Str(s: string)
    | Obj(fields: seq<Field>)
    | Arr(elems: seq<Value>)

  datatype Field = Field(key: string, value: Value)

  /** A set of decimal texts: the ones strtod finds finite. */
  type Floats = string -> bool

  // ----- objects -----


  function KeyIndex(fields: seq<Field>, key: string): (i: nat)
    ensures i <= |fields| && (i < |fields| ==> fields[i].key == key)
    ensures forall k | 0 <= k < i :: fields[k].key != key
  {
    if fields == [] || fields[0].key == key then 0 else 1 + KeyIndex(fields[1..], key)
  }

  lemma {:induction false} KeyIndexIs(fields: seq<Field>, key: string, i: nat)
    requires i <= |fields| && (i < |fields| ==> fields[i].key == key)
    requires forall k | 0 <= k < i :: fields[k].key != key
    ensures KeyIndex(fields, key) == i
  {
    var j := KeyIndex(fields, key);
  }

  /** orbit_object_set: a repeated key overwrites and keeps its place. */
  function SetField(fields: seq<Field>, key: string, v: Value): (r: seq<Field>)
    ensures KeyIndex(fields, key) == |fields| ==> r == fields + [Field(key, v)]
  {
    var i := KeyIndex(fields, key);
    if i < |fields| then fields[i := Field(key, v)] else fields + [Field(key, v)]
  }

  /** orbit_object_get: null when the key is missing. */
  function GetField(fields: seq<Field>, key: string): Value {
    var i := KeyIndex(fields, key);
    if i < |fields| then fields[i].value else Null
  }

  // ----- tokens -----

  predicate Space(c: char) {
    c == ' ' || c == '\t' || c == '\n' || c == '\r'
  }

  function Ws(t: string): (r: string)
    ensures |r| <= |t| && !Space(At(r, 0))
  {
    if t != "" && Space(t[0]) then Ws(t[1..]) else t
  }

  /** The length of the integer part. */
  function IntPart(t: string): Option<nat> {
    if At(t, 0) == '0' then Some(1) else if '1' <= At(t, 0) <= '9' then Some(DigitRun(t)) else None
  }

  /** Digits after `skip` characters, at least one: their end. */
  function DigitsAfter(t: string, skip: nat): (n: Option<nat>)
    ensures n.Some? ==> skip < n.value <= |t|
  {
    if skip < |t| && IsDigit(t[skip]) then Some(skip + DigitRun(t[skip..])) else None
  }

  /** A fraction, then an exponent, either absent: the length of both and whether there is any. */
  function Fraction(t: string): (n: Option<nat>)
    ensures n.Some? ==> n.value <= |t|
  {
    if At(t, 0) == '.' then DigitsAfter(t, 1) else Some(0)
  }

  function Exponent(t: string): (n: Option<nat>)
    ensures n.Some? ==> n.value <= |t|
  {
    if At(t, 0) == 'e' || At(t, 0) == 'E' then
      DigitsAfter(t, if At(t, 1) == '+' || At(t, 1) == '-' then 2 else 1)
    else Some(0)
  }

  /** json_parse_number. */
  function ParseNumber(finite: Floats, t: string): (r: Parsed<Value>)
    ensures r.Good? ==> |r.rest| < |t|
  {
    var sign := if At(t, 0) == '-' then 1 else 0;
    var u := Drop(t, sign);
    var n := IntPart(u);
    if n.None? then Bad(BadNumber)
    else if u[0] == '0' && IsDigit(At(u, 1)) then Bad(LeadingZero)
    else
      var f := Fraction(u[n.value..]);
      if f.None? then Bad(BadNumber)
      else
        var e := Exponent(u[n.value + f.value..]);
        if e.None? then Bad(BadNumber)
        else if f.value + e.value > 0 then
          var text := t[..sign + n.value + f.value + e.value];
          if finite(text) then Good(Float(text), u[n.value + f.value + e.value..]) else Bad(FloatRange)
        else
          assert AllDigits(u[..n.value]);
          var v := if sign == 1 then -(DecValue(u[..n.value]) as int) else DecValue(u[..n.value]);
          if INT_MIN <= v <= INT_MAX then Good(Int(v), u[n.value..]) else Bad(IntRange)
  }

  /** json_parse_number, with every slice taken by `Drop`. */
  lemma {:induction false} NumberUnfolds(finite: Floats, t: string, sign: nat)
    requires sign == if At(t, 0) == '-' then 1 else 0
    ensures var u := Drop(t, sign);
            var answer := ParseNumber(finite, t);
            match IntPart(u)
            case None => answer == Bad(BadNumber)
            case Some(n) =>
              if At(u, 0) == '0' && IsDigit(At(u, 1)) then answer == Bad(LeadingZero)
              else
                match Fraction(Drop(u, n))
                case None => answer == Bad(BadNumber)
                case Some(f) =>
                  match Exponent(Drop(u, n + f))
                  case None => answer == Bad(BadNumber)
                  case Some(e) =>
                    n <= |u| && AllDigits(u[..n]) && sign + n + f + e <= |t| &&
                    answer ==
                    if f + e > 0 then
                      if finite(t[..sign + n + f + e]) then Good(Float(t[..sign + n + f + e]), Drop(u, n + f + e)) else Bad(FloatRange)
                    else
                      var v := if sign == 1 then -(DecValue(u[..n]) as int) else DecValue(u[..n]);
                      if INT_MIN <= v <= INT_MAX then Good(Int(v), Drop(u, n)) else Bad(IntRange)
  {
    hide DigitRun, Fraction, Exponent, DecValue, IsDigit, IntPart, AllDigits;
    IntPartDigits(Drop(t, sign));
  }

  lemma {:induction false} IntPartDigits(u: string)
    ensures IntPart(u).Some? ==> u != "" && IntPart(u).value <= |u| && AllDigits(u[..IntPart(u).value])
  {
  }

  function Literal(t: string, word: string, v: Value): (r: Parsed<Value>)
    requires word != ""
    ensures r.Good? ==> |r.rest| < |t|
  {
    if |word| <= |t| && t[..|word|] == word then Good(v, t[|word|..]) else Bad(BadLiteral)
  }

  // ----- values -----

  /** The tag json_parse_array compares. */
  function Kind(v: Value): nat {
    match v
    case Null => 0
    case Int(_) => 1
    case Float(_) => 2
    case Bool(_) => 3
    case Str(_) => 4
    case Obj(_) => 5
    case Arr(_) => 6
  }

  /** json_parse_value. */
  function ParseValue(finite: Floats, t0: string, depth: nat): (r: Parsed<Value>)
    ensures r.Good? ==> |r.rest| < |t0|
    decreases |t0|, 1
  {
    if depth > MAX_DEPTH then Bad(TooDeep)
    else
      var t := Ws(t0);
      var c := At(t, 0);
      if c == '{' then ParseObject(finite, t[1..], depth + 1)
      else if c == '[' then ParseArray(finite, t[1..], depth + 1)
      else ParseScalar(finite, t)
  }

  function ParseScalar(finite: Floats, t: string): (r: Parsed<Value>)
    ensures r.Good? ==> |r.rest| < |t|
  {
    var c := At(t, 0);
    if c == '\"' then
      var s := ParseText(t[1..]);
      if s.Good? then Good(Str(s.value), s.rest) else Bad(s.why)
    else if c == 't' then Literal(t, "true", Bool(true))
    else if c == 'f' then Literal(t, "false", Bool(false))
    else if c == 'n' then Literal(t, "null", Null)
    else if c == '-' || IsDigit(c) then ParseNumber(finite, t)
    else if c == '\0' then Bad(EndOfInput)
    else Bad(UnexpectedCharacter)
  }

  /** After the opening brace. */
  function ParseObject(finite: Floats, t: string, depth: nat): (r: Parsed<Value>)
    ensures r.Good? ==> |r.rest| < |t|
    decreases |t|, 3
  {
    var u := Ws(t);
    if At(u, 0) == '}' then Good(Obj([]), u[1..]) else ParseFields(finite, u, depth, [])
  }

  /** A key and a value. */
  function ParseField(finite: Floats, t: string, depth: nat): (r: Parsed<Field>)
    ensures r.Good? ==> |r.rest| < |t|
    decreases |t|, 0
  {
    if At(t, 0) != '\"' then Bad(KeyNotString)
    else
      var k := ParseText(t[1..]);
      if k.Bad? then Bad(k.why)
      else
        var u := Ws(k.rest);
        if At(u, 0) != ':' then Bad(ExpectedColon)
        else
          var v := ParseValue(finite, Ws(u[1..]), depth);
          if v.Bad? then Bad(v.why) else Good(Field(k.value, v.value), v.rest)
  }

  /** A null field is dropped: no setter takes one. */
  function Stored(fields: seq<Field>, f: Field): seq<Field> {
    if f.value.Null? then fields else SetField(fields, f.key, f.value)
  }

  function ParseFields(finite: Floats, t: string, depth: nat, fields: seq<Field>): (r: Parsed<Value>)
    ensures r.Good? ==> |r.rest| < |t|
    decreases |t|, 2
  {
    var f := ParseField(finite, t, depth);
    if f.Bad? then Bad(f.why)
    else
      var all, u := Stored(fields, f.value), Ws(f.rest);
      if At(u, 0) == ',' then ParseFields(finite, Ws(u[1..]), depth, all)
      else if At(u, 0) == '}' then Good(Obj(all), u[1..])
      else Bad(ExpectedCommaOrBrace)
  }

  /** After the opening bracket. */
  function ParseArray(finite: Floats, t: string, depth: nat): (r: Parsed<Value>)
    ensures r.Good? ==> |r.rest| < |t|
    decreases |t|, 3
  {
    var u := Ws(t);
    if At(u, 0) == ']' then Good(Arr([]), u[1..]) else ParseElems(finite, u, depth, [])
  }

  /** Why a value cannot follow these elements, if it cannot. */
  function ElementProblem(elems: seq<Value>, v: Value): Option<Problem> {
    if v.Null? then Some(NullElement)
    else if v.Arr? then Some(NestedArray)
    else if elems != [] && Kind(elems[0]) != Kind(v) then Some(MixedArray)
    else None
  }

  function ParseElems(finite: Floats, t: string, depth: nat, elems: seq<Value>): (r: Parsed<Value>)
    ensures r.Good? ==> |r.rest| < |t|
    decreases |t|, 2
  {
    var v := ParseValue(finite, t, depth);
    if v.Bad? then Bad(v.why)
    else if ElementProblem(elems, v.value).Some? then Bad(ElementProblem(elems, v.value).value)
    else
      var all, u := elems + [v.value], Ws(v.rest);
      if At(u, 0) == ',' then ParseElems(finite, Ws(u[1..]), depth, all)
      else if At(u, 0) == ']' then Good(Arr(all), u[1..])
      else Bad(ExpectedCommaOrBracket)
  }

  /** orbit_json_parse: the object, with nothing left. */
  function ParseDocument(finite: Floats, text: string): Parsed<Value> {
    var v := ParseValue(finite, text, 0);
    if v.Bad? then v
    else if !v.value.Obj? then Bad(NotObject)
    else if Ws(v.rest) != "" then Bad(TrailingData)
    else Good(v.value, "")
  }

  // ----- printing -----

  /** "%lld". */
  function IntText(i: int): string {
    if i < 0 then "-" + DecText(-i) else DecText(i)
  }

  /** json_put_value. */
  function Print(v: Value): string
    decreases v
  {
    match v
    case Null => "null"
    case Int(i) => IntText(i)
    case Float(text) => text
    case Bool(b) => if b then "true" else "false"
    case Str(s) => PrintText(s)
    case Obj(fields) => "{" + PrintFields(fields) + "}"
    case Arr(elems) => "[" + PrintElems(elems) + "]"
  }

  function PrintField(f: Field): string
    decreases f, 0
  {
    PrintText(f.key) + ":" + Print(f.value)
  }

  function PrintFields(fields: seq<Field>): string
    decreases fields
  {
    if fields == [] then ""
    else PrintField(fields[0]) + (if |fields| == 1 then "" else "," + PrintFields(fields[1..]))
  }

  function PrintElems(elems: seq<Value>): string
    decreases elems
  {
    if elems == [] then ""
    else Print(elems[0]) + (if |elems| == 1 then "" else "," + PrintElems(elems[1..]))
  }
}
