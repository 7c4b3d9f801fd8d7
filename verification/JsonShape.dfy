/** runtime/json.c: what the values that come out of the parser look like. */
module JsonShape {
  import opened Digits
  import opened JsonText
  import opened JsonTextProofs
  import opened Json
  import opened JsonProofs

  /** At every level: no null in an object or a list, no key twice in an object, no list in a list, one kind of elements
      in a list; integers have 64 bits, floats are finite, and no key and no string has a NUL. */
  predicate Uniform(finite: Floats, v: Value)
    decreases v, 0
  {
    match v
    case Null => true
    case Int(i) => INT_MIN <= i <= INT_MAX
    case Float(text) => finite(text)
    case Bool(_) => true
    case Str(s) => NoNul(s)
    case Obj(fields) => DistinctKeys(fields) && forall f | f in fields :: FieldUniform(finite, f)
    case Arr(elems) => forall i | 0 <= i < |elems| :: ElemUniform(finite, elems[i]) && Kind(elems[i]) == Kind(elems[0])
  }

  predicate FieldUniform(finite: Floats, f: Field)
    decreases f, 1
  {
    NoNul(f.key) && !f.value.Null? && Uniform(finite, f.value)
  }

  predicate ElemUniform(finite: Floats, e: Value)
    decreases e, 1
  {
    !e.Null? && !e.Arr? && Uniform(finite, e)
  }

  // ----- the pieces -----

  lemma {:induction false} TextNoNul(t: string)
    ensures ParseText(t).Good? ==> NoNul(ParseText(t).value)
  {
    hide Body;
  }

  lemma {:induction false} NumberUniform(finite: Floats, t: string)
    ensures var r := ParseNumber(finite, t);
            r.Good? ==> Uniform(finite, r.value) && Height(r.value) == 0
  {
    hide DecValue, IntPart, Fraction, Exponent, AllDigits, IsDigit, DistinctKeys;
  }

  lemma {:induction false} ScalarUniform(finite: Floats, t: string)
    ensures var r := ParseScalar(finite, t); r.Good? ==> Uniform(finite, r.value) && Height(r.value) == 0
  {
    hide ParseText, ParseNumber, IsDigit;
    NumberUniform(finite, t);
    if At(t, 0) == '\"' { TextNoNul(t[1..]); }
  }

  lemma {:induction false} ObjOf(finite: Floats, fields: seq<Field>)
    ensures Uniform(finite, Obj(fields)) <==> DistinctKeys(fields) && forall f | f in fields :: FieldUniform(finite, f)
  {
  }

  /** Storing a field keeps the keys distinct. */
  lemma {:induction false} StoredUniform(finite: Floats, fields: seq<Field>, f: Field)
    requires Uniform(finite, Obj(fields)) && NoNul(f.key) && Uniform(finite, f.value)
    ensures Uniform(finite, Obj(Stored(fields, f)))
  {
    hide Uniform, NoNul;
    ObjOf(finite, fields);
    ObjOf(finite, Stored(fields, f));
    var i := KeyIndex(fields, f.key);
    var all := Stored(fields, f);
    if !f.value.Null? {
      assert i == |fields| ==> all == fields + [Field(f.key, f.value)];
      assert i < |fields| ==> all == fields[i := Field(f.key, f.value)];
      forall g | g in all ensures FieldUniform(finite, g) { assert g in fields || g == Field(f.key, f.value); }
      assert forall j | 0 <= j < |all| :: all[j].key == if j < |fields| then fields[j].key else f.key;
    }
  }

  lemma {:induction false} StoredHeight(fields: seq<Field>, f: Field, n: nat)
    requires FieldsHeight(fields) <= n && Height(f.value) <= n
    ensures FieldsHeight(Stored(fields, f)) <= n
  {
    hide Height;
    var i := KeyIndex(fields, f.key);
    if !f.value.Null? {
      var g := Field(f.key, f.value);
      if i == |fields| {
        AppendHeight(fields, g, n);
      } else {
        ReplaceHeight(fields, i, g, n);
      }
    }
  }

  lemma {:induction false} AppendHeight(fields: seq<Field>, g: Field, n: nat)
    requires FieldsHeight(fields) <= n && Height(g.value) <= n
    ensures FieldsHeight(fields + [g]) <= n
  {
    hide Height;
    if fields != [] {
      AppendHeight(fields[1..], g, n);
      assert (fields + [g])[1..] == fields[1..] + [g];
    }
  }

  lemma {:induction false} ReplaceHeight(fields: seq<Field>, i: nat, g: Field, n: nat)
    requires i < |fields| && FieldsHeight(fields) <= n && Height(g.value) <= n
    ensures FieldsHeight(fields[i := g]) <= n
  {
    hide Height;
    if i == 0 {
      assert fields[i := g][1..] == fields[1..];
    } else {
      ReplaceHeight(fields[1..], i - 1, g, n);
      assert fields[i := g][1..] == fields[1..][i - 1 := g];
    }
  }

  lemma {:induction false} AppendElem(finite: Floats, elems: seq<Value>, e: Value, n: nat)
    requires Uniform(finite, Arr(elems)) && Uniform(finite, e) && ElementProblem(elems, e).None?
    requires ElemsHeight(elems) <= n && Height(e) <= n
    ensures Uniform(finite, Arr(elems + [e])) && ElemsHeight(elems + [e]) <= n
  {
    hide Kind, Height, FieldUniform, DistinctKeys, NoNul;
    ElemsAppend(elems, e, n);
    var all := elems + [e];
    ArrOf(finite, elems);
    ArrOf(finite, all);
    forall i | 0 <= i < |all| ensures ElemUniform(finite, all[i]) && Kind(all[i]) == Kind(all[0]) {
      assert i < |elems| ==> all[i] == elems[i];
    }
  }

  lemma {:induction false} ArrOf(finite: Floats, elems: seq<Value>)
    ensures Uniform(finite, Arr(elems)) <==>
            forall i | 0 <= i < |elems| :: ElemUniform(finite, elems[i]) && Kind(elems[i]) == Kind(elems[0])
  {
  }

  lemma {:induction false} ElemsAppend(elems: seq<Value>, e: Value, n: nat)
    requires ElemsHeight(elems) <= n && Height(e) <= n
    ensures ElemsHeight(elems + [e]) <= n
  {
    hide Height;
    if elems != [] {
      ElemsAppend(elems[1..], e, n);
      assert (elems + [e])[1..] == elems[1..] + [e];
    }
  }

  // ----- the theorem -----

  /** The parse of a value at a depth: uniform, and nothing in it below the limit. */
  predicate Fit(finite: Floats, r: Parsed<Value>, depth: nat) {
    r.Good? ==> Uniform(finite, r.value) && depth + Height(r.value) <= MAX_DEPTH
  }

  /** The parse of what is inside a container at a depth. */
  predicate FitBelow(finite: Floats, r: Parsed<Value>, depth: nat) {
    r.Good? ==> Uniform(finite, r.value) && depth + Height(r.value) <= MAX_DEPTH + 1
  }

  /** Whatever text the parser accepts, the value it gives is uniform at every level and lies within the depth limit. */
  lemma {:induction false} ParsedIsUniform(finite: Floats, t: string, depth: nat)
    ensures Fit(finite, ParseValue(finite, t, depth), depth)
    decreases |t|, 1
  {
    hide Uniform, Height, ParseScalar, ParseObject, ParseArray, Ws;
    if depth <= MAX_DEPTH {
      var u := Ws(t);
      if At(u, 0) == '{' {
        ObjectUniform(finite, u[1..], depth + 1);
      } else if At(u, 0) == '[' {
        ArrayUniform(finite, u[1..], depth + 1);
      } else {
        ScalarUniform(finite, u);
      }
    }
  }

  lemma {:induction false} EmptyContainers(finite: Floats)
    ensures Uniform(finite, Obj([])) && Uniform(finite, Arr([])) && Height(Obj([])) == 0 && Height(Arr([])) == 0
    ensures FieldsHeight([]) == 0 && ElemsHeight([]) == 0
  {
  }

  lemma {:induction false} ObjectUniform(finite: Floats, t: string, depth: nat)
    requires depth <= MAX_DEPTH + 1
    ensures FitBelow(finite, ParseObject(finite, t, depth), depth)
    decreases |t|, 3
  {
    hide Uniform, Height, ParseFields, Ws;
    EmptyContainers(finite);
    if At(Ws(t), 0) != '}' { FieldsUniform(finite, Ws(t), depth, []); }
  }

  lemma {:induction false} ArrayUniform(finite: Floats, t: string, depth: nat)
    requires depth <= MAX_DEPTH + 1
    ensures FitBelow(finite, ParseArray(finite, t, depth), depth)
    decreases |t|, 3
  {
    hide Uniform, Height, ParseElems, Ws;
    EmptyContainers(finite);
    if At(Ws(t), 0) != ']' { ElemsUniform(finite, Ws(t), depth, []); }
  }

  lemma {:induction false} ContainerHeight(fields: seq<Field>, elems: seq<Value>)
    ensures Height(Obj(fields)) <= 1 + FieldsHeight(fields) && Height(Arr(elems)) <= 1 + ElemsHeight(elems)
    ensures fields == [] ==> Height(Obj(fields)) == 0
  {
  }

  lemma {:induction false} FieldFit(finite: Floats, t: string, depth: nat)
    requires Fit(finite, ParseValue(finite, FieldValueText(t), depth), depth)
    ensures var f := ParseField(finite, t, depth);
            f.Good? ==> NoNul(f.value.key) && Uniform(finite, f.value.value) && depth + Height(f.value.value) <= MAX_DEPTH
  {
    hide ParseText, ParseValue, Uniform, Height, Ws, NoNul;
    if At(t, 0) == '\"' { TextNoNul(t[1..]); }
  }

  /** Where the value of a field starts, if it has one. */
  function FieldValueText(t: string): (v: string)
    ensures t != "" ==> |v| < |t|
  {
    if At(t, 0) != '\"' || ParseText(t[1..]).Bad? then ""
    else
      var u := Ws(ParseText(t[1..]).rest);
      if u == "" then "" else Ws(u[1..])
  }

  lemma {:induction false} FieldsUniform(finite: Floats, t: string, depth: nat, fields: seq<Field>)
    requires Uniform(finite, Obj(fields)) && (depth <= MAX_DEPTH ==> depth + FieldsHeight(fields) <= MAX_DEPTH)
    ensures FitBelow(finite, ParseFields(finite, t, depth, fields), depth)
    decreases |t|, 2
  {
    hide Uniform, Height, FieldsHeight, ParseField, Stored, Ws, NoNul, FieldValueText;
    var f := ParseField(finite, t, depth);
    if f.Good? {
      FieldParts(finite, t, depth);
      ParsedIsUniform(finite, FieldValueText(t), depth);
      FieldFit(finite, t, depth);
      StoredUniform(finite, fields, f.value);
      StoredHeight(fields, f.value, MAX_DEPTH - depth);
      var all, u := Stored(fields, f.value), Ws(f.rest);
      ContainerHeight(all, []);
      if At(u, 0) == ',' { FieldsUniform(finite, Ws(u[1..]), depth, all); }
    }
  }

  lemma {:induction false} FieldParts(finite: Floats, t: string, depth: nat)
    requires ParseField(finite, t, depth).Good?
    ensures t != "" && ParseValue(finite, FieldValueText(t), depth).Good? && depth <= MAX_DEPTH
  {
    hide ParseText, Ws, ParseObject, ParseArray, ParseScalar;
  }

  lemma {:induction false} ElemsUniform(finite: Floats, t: string, depth: nat, elems: seq<Value>)
    requires Uniform(finite, Arr(elems)) && (depth <= MAX_DEPTH ==> depth + ElemsHeight(elems) <= MAX_DEPTH)
    ensures FitBelow(finite, ParseElems(finite, t, depth, elems), depth)
    decreases |t|, 2
  {
    hide Uniform, Height, ElemsHeight, ParseValue, ElementProblem, Ws;
    var v := ParseValue(finite, t, depth);
    ParsedIsUniform(finite, t, depth);
    if v.Good? && ElementProblem(elems, v.value).None? {
      AppendElem(finite, elems, v.value, MAX_DEPTH - depth);
      var all, u := elems + [v.value], Ws(v.rest);
      ContainerHeight([], all);
      if At(u, 0) == ',' { ElemsUniform(finite, Ws(u[1..]), depth, all); }
    }
  }

  // ----- reading what was printed from what was read -----

  /** A value without the two things printing does not keep: floats, and strings with a numeric escape. */
  predicate Lossless(v: Value) {
    match v
    case Float(_) => false
    case Str(s) => Plain(s)
    case Obj(fields) => forall f | f in fields :: Plain(f.key) && Lossless(f.value)
    case Arr(elems) => forall i | 0 <= i < |elems| :: Lossless(elems[i])
    case _ => true
  }

  lemma {:induction false} UniformPrintable(finite: Floats, v: Value)
    requires Uniform(finite, v) && Lossless(v)
    ensures Printable(v) && Strip(v) == v
    decreases v
  {
    match v
    case Obj(fields) =>
      forall f | f in fields ensures Printable(f.value) && !f.value.Null? && Strip(f.value) == f.value {
        assert FieldUniform(finite, f);
        UniformPrintable(finite, f.value);
      }
      NothingStripped(fields);
    case Arr(elems) =>
      forall i | 0 <= i < |elems| ensures Printable(elems[i]) && Strip(elems[i]) == elems[i] {
        assert ElemUniform(finite, elems[i]);
        UniformPrintable(finite, elems[i]);
      }
      NoElemStripped(elems);
    case _ =>
  }

  lemma {:induction false} NothingStripped(fields: seq<Field>)
    requires forall f | f in fields :: !f.value.Null? && Strip(f.value) == f.value
    ensures StripFields(fields) == fields
  {
    if fields != [] {
      assert fields[0] in fields && forall f | f in fields[1..] :: f in fields;
      NothingStripped(fields[1..]);
    }
  }

  lemma {:induction false} NoElemStripped(elems: seq<Value>)
    requires forall i | 0 <= i < |elems| :: Strip(elems[i]) == elems[i]
    ensures StripElems(elems) == elems
  {
    if elems != [] { NoElemStripped(elems[1..]); }
  }

  /** A document that was read, printed and read again is the same object, field order and depth included, unless it has
      a float or a string with a control character other than newline, return and tab. */
  lemma {:induction false} ReparseStable(finite: Floats, text: string)
    requires var d := ParseDocument(finite, text); d.Good? && Lossless(d.value)
    ensures var v := ParseDocument(finite, text).value;
            ParseDocument(finite, Print(v)) == Good(v, "")
  {
    hide ParseValue, Print, Printable, Uniform, Lossless, Height;
    ParsedIsUniform(finite, text, 0);
    var v := ParseDocument(finite, text).value;
    UniformPrintable(finite, v);
    assert v == Obj(v.fields);
    DocumentRoundTrip(finite, v.fields);
    StripObj(v.fields);
  }

  lemma {:induction false} StripObj(fields: seq<Field>)
    ensures Strip(Obj(fields)) == Obj(StripFields(fields))
  {
  }
}
