/** runtime/json.c: repeated keys, and printed objects with white space in them. */
module JsonSpaced {
  import opened Basics
  import opened Digits
  import opened Texts
  import opened JsonText
  import opened JsonTextProofs
  import opened JsonWritten
  import opened Json
  import opened JsonProofs
  import opened JsonLayout

  // ----- repeated keys -----

  predicate MembersOk(members: seq<Member>) {
    forall m | m in members :: MemberOk(m)
  }

  /** The value of the last member with the key whose value is not null; null if there is none. */
  function LastValue(members: seq<Member>, key: string): Value
    requires MembersOk(members)
  {
    if members == [] then Null
    else
      var n := |members| - 1;
      assert MemberOk(members[n]);
      if KeyOf(members[n]) == key && Meant(members[n].value) != Null then Meant(members[n].value)
      else LastValue(members[..n], key)
  }

  /** The keys of the members that are not null, each where it comes first. */
  function FirstKeys(members: seq<Member>): seq<string>
    requires MembersOk(members)
  {
    if members == [] then []
    else
      var n := |members| - 1;
      assert MemberOk(members[n]);
      var before := FirstKeys(members[..n]);
      if KeyOf(members[n]) in before || Meant(members[n].value) == Null then before else before + [KeyOf(members[n])]
  }

  function KeysOf(fields: seq<Field>): (r: seq<string>)
    ensures |r| == |fields| && forall i | 0 <= i < |fields| :: r[i] == fields[i].key
  {
    if fields == [] then [] else [fields[0].key] + KeysOf(fields[1..])
  }

  lemma {:induction false} CollectedSnoc(fields: seq<Field>, members: seq<Member>, m: Member)
    requires MembersOk(members) && MemberOk(m)
    ensures MembersOk(members + [m])
    ensures Collected(fields, members + [m]) == Stored(Collected(fields, members), Field(KeyOf(m), Meant(m.value)))
    decreases |members|
  {
    hide Meant, KeyOf, Stored, DocOk, AllOk;
    if members == [] {
      assert [] + [m] == [m];
      assert m in [m] && [m][1..] == [];
      CollectedStep(fields, [m]);
      NothingCollected(Stored(fields, Field(KeyOf(m), Meant(m.value))));
      NothingCollected(fields);
    } else {
      assert (members + [m])[1..] == members[1..] + [m] && (members + [m])[0] == members[0];
      assert members[0] in members && forall x | x in members[1..] :: x in members;
      CollectedStep(fields, members);
      CollectedStep(fields, members + [m]);
      CollectedSnoc(Stored(fields, Field(KeyOf(members[0]), Meant(members[0].value))), members[1..], m);
    }
  }

  /** Setting a field answers its key and leaves every other answer, whether the key was there or not. */
  lemma {:induction false} SetAnswers(fields: seq<Field>, key: string, v: Value, other: string)
    ensures GetField(SetField(fields, key, v), other) == if other == key then v else GetField(fields, other)
  {
    var i, all := KeyIndex(fields, key), SetField(fields, key, v);
    var j := KeyIndex(fields, other);
    if i < |fields| {
      KeyIndexIs(all, other, j);
    } else {
      assert all == fields + [Field(key, v)];
      KeyIndexIs(all, other, if other == key then |fields| else if j < |fields| then j else |fields| + 1);
    }
  }

  /** And keeps the keys where they were, a new one last. */
  lemma {:induction false} SetKeys(fields: seq<Field>, key: string, v: Value)
    ensures KeysOf(SetField(fields, key, v)) == if key in KeysOf(fields) then KeysOf(fields) else KeysOf(fields) + [key]
  {
    var i, all := KeyIndex(fields, key), SetField(fields, key, v);
    if i < |fields| {
      assert KeysOf(fields)[i] == key;
      assert KeysOf(all) == KeysOf(fields);
    } else {
      assert key !in KeysOf(fields);
      assert KeysOf(all) == KeysOf(fields) + [key];
    }
  }

  /** A repeated key answers with its last value that is not null, and stays where it came first. */
  lemma {:induction false} RepeatedKeys(members: seq<Member>, key: string)
    requires MembersOk(members)
    ensures GetField(Collected([], members), key) == LastValue(members, key)
    ensures KeysOf(Collected([], members)) == FirstKeys(members)
    decreases |members|
  {
    hide Meant, KeyOf, SetField, GetField, DocOk, AllOk, Collected;
    if members == [] {
      NothingCollected([]);
      NoAnswer(key);
    } else {
      var n := |members| - 1;
      var before, m := members[..n], members[n];
      assert m in members && forall x | x in before :: x in members;
      assert members == before + [m];
      RepeatedKeys(before, key);
      CollectedSnoc([], before, m);
      SetAnswers(Collected([], before), KeyOf(m), Meant(m.value), key);
      SetKeys(Collected([], before), KeyOf(m), Meant(m.value));
    }
  }

  lemma {:induction false} NoAnswer(key: string)
    ensures GetField([], key) == Null
  {
  }

  // ----- printed values as documents -----

  /** A character as the printer writes it. */
  function Glyphed(c: char): Glyph {
    if c == '\"' || c == '\\' then Letter(c)
    else if c == '\n' then Letter('n')
    else if c == '\r' then Letter('r')
    else if c == '\t' then Letter('t')
    else Itself(c)
  }

  function AllGlyphed(s: string): seq<Glyph> {
    if s == "" then [] else [Glyphed(s[0])] + AllGlyphed(s[1..])
  }

  function NumeralOf(i: int): Numeral {
    Numeral(i < 0, if i < 0 then DecText(-i) else DecText(i), "", "")
  }

  function DocOf(v: Value): Doc
    requires Printable(v)
    decreases v, 0
  {
    match v
    case Null => DNull
    case Int(i) => DNumber(NumeralOf(i))
    case Bool(b) => DBool(b)
    case Str(s) => DString(AllGlyphed(s))
    case Obj(fields) => DObject(MembersOf(fields))
    case Arr(elems) => assert forall e | e in elems :: ElemOk(e, Kind(elems[0])) by { ArrPrintable(v); } DArray(ElemsOf(elems))
  }

  function MembersOf(fields: seq<Field>): (r: seq<Member>)
    requires forall f | f in fields :: Plain(f.key) && Printable(f.value)
    ensures |r| == |fields|
    decreases fields, 0
  {
    if fields == [] then []
    else assert fields[0] in fields; [Member(AllGlyphed(fields[0].key), DocOf(fields[0].value))] + MembersOf(fields[1..])
  }

  function ElemsOf(elems: seq<Value>): (r: seq<Doc>)
    requires forall e | e in elems :: Printable(e)
    ensures |r| == |elems|
    decreases elems, 0
  {
    if elems == [] then [] else assert elems[0] in elems; [DocOf(elems[0])] + ElemsOf(elems[1..])
  }

  /** The tokens without gaps. */
  function Glue(tokens: seq<string>): string {
    if tokens == [] then "" else tokens[0] + Glue(tokens[1..])
  }

  lemma {:induction false} GlueJoined(a: seq<string>, b: seq<string>)
    ensures Glue(a + b) == Glue(a) + Glue(b)
    decreases |a|
  {
    if a == [] {
      assert a + b == b;
    } else {
      assert (a + b)[1..] == a[1..] + b;
      GlueJoined(a[1..], b);
    }
  }

  lemma {:induction false} GlueOne(t: string)
    ensures Glue([t]) == t
  {
    assert [t][1..] == [];
    assert Glue([]) == "";
  }

  lemma {:induction false} GlyphsOfText(s: string)
    requires Plain(s)
    ensures AllOk(AllGlyphed(s)) && GlyphsText(AllGlyphed(s)) == Escape(s) && GlyphsBytes(AllGlyphed(s)) == s
    ensures CString(s) == s
    decreases |s|
  {
    PlainHasNoNul(s);
    CStringAll(s);
    if s != "" {
      forall i | 0 <= i < |s[1..]| ensures PlainChar(s[1..][i]) { assert PlainChar(s[i + 1]); }
      GlyphsOfText(s[1..]);
      GlyphOfChar(s[0]);
      var gs := AllGlyphed(s);
      assert gs[1..] == AllGlyphed(s[1..]);
      assert s == [s[0]] + s[1..];
    }
  }

  lemma {:induction false} CStringAll(s: string)
    requires NoNul(s)
    ensures CString(s) == s
  {
    assert s[..|s|] == s;
    IndexOfIs(s, '\0', |s|);
  }

  lemma {:induction false} GlyphOfChar(c: char)
    requires PlainChar(c)
    ensures GlyphOk(Glyphed(c)) && GlyphText(Glyphed(c)) == Escaped(c) && GlyphBytes(Glyphed(c)) == [c]
  {
  }

  lemma {:induction false} NumeralOfInt(i: int)
    requires INT_MIN <= i <= INT_MAX
    ensures var n := NumeralOf(i); NumeralOk(n) && NumeralText(n) == IntText(i) && IsWhole(n) && WholeValue(n) == i
  {
    hide DecText, DecValue, AllDigits;
    DecTextValue(if i < 0 then -i else i);
  }

  /** A printed value is a document in the tightest layout, and says the value without its null fields. */
  lemma {:induction false} PrintedDoc(finite: Floats, v: Value)
    requires Printable(v)
    ensures var d := DocOf(v);
            && DocOk(d) && Taken(finite, d) && Glue(Tokens(d)) == Print(v)
            && Meant(d) == Strip(v) && Depth(d) == Height(v) && (d.DNull? <==> v.Null?) && (d.DArray? <==> v.Arr?)
            && (d.DObject? <==> v.Obj?)
    decreases v, 1
  {
    hide GlyphsText, GlyphsBytes, AllOk, AllGlyphed, NumeralOk, NumeralText, DecText, CString;
    match v
    case Null => GlueOne("null");
    case Bool(b) => GlueOne(if b then "true" else "false");
    case Int(i) =>
      NumeralOfInt(i);
      GlueOne(IntText(i));
    case Str(s) =>
      GlyphsOfText(s);
      GlueOne(PrintText(s));
    case Obj(fields) => PrintedObject(finite, v);
    case Arr(elems) => PrintedArray(finite, v);
  }

  lemma {:induction false} PrintedObject(finite: Floats, v: Value)
    requires v.Obj? && Printable(v)
    ensures var d := DocOf(v);
            && d.DObject? && DocOk(d) && Taken(finite, d) && Glue(Tokens(d)) == Print(v)
            && Meant(d) == Strip(v) && Depth(d) == Height(v)
    decreases v, 0
  {
    hide MembersOf, MembersTokens, Collected, MembersDepth, StripFields, FieldsHeight, PrintFields, MemberOk, MemberTaken;
    var fields := v.fields;
    ObjPrintable(v);
    PrintedMembers(finite, fields, []);
    var tokens := MembersTokens(MembersOf(fields));
    GlueJoined(["{"] + tokens, ["}"]);
    GlueJoined(["{"], tokens);
    GlueOne("{");
    GlueOne("}");
    assert [] + StripFields(fields) == StripFields(fields);
    if fields == [] { NothingPrinted(); }
  }

  lemma {:induction false} ObjPrintable(v: Value)
    requires v.Obj? && Printable(v)
    ensures DistinctKeys(v.fields) && forall f | f in v.fields :: Plain(f.key) && Printable(f.value)
  {
  }

  lemma {:induction false} PrintedMembers(finite: Floats, fields: seq<Field>, acc: seq<Field>)
    requires DistinctKeys(fields) && FreshKeys(acc, fields) && forall f | f in fields :: Plain(f.key) && Printable(f.value)
    ensures var ms := MembersOf(fields);
            && (forall m | m in ms :: MemberOk(m) && MemberTaken(finite, m))
            && Glue(MembersTokens(ms)) == PrintFields(fields) && MembersDepth(ms) == FieldsHeight(fields)
            && Collected(acc, ms) == acc + StripFields(fields)
    decreases fields, 1
  {
    hide Printable, Tokens, DocOf, DocOk, Taken, Meant, Depth, Strip, Height, Print, PrintText, AllGlyphed, GlyphsText, Stored;
    if fields == [] {
      EmptyMembers(acc);
    } else {
      var f, more := fields[0], fields[1..];
      assert f in fields && forall x | x in more :: x in fields;
      PrintedMember(finite, f);
      var m := Member(AllGlyphed(f.key), DocOf(f.value));
      FirstFresh(acc, fields, Kept(f));
      StoredFresh(acc, f, Strip(f.value));
      PrintedMembers(finite, more, acc + Kept(f));
      var ms, rest := MembersOf(fields), MembersOf(more);
      assert ms == [m] + rest && ms[1..] == rest;
      MembersGlue(m, rest);
      FieldsStepFacts(fields, acc);
      assert Collected(acc, ms) == Collected(Stored(acc, Field(KeyOf(m), Meant(m.value))), rest) by {
        hide MemberOk;
        CollectedStep(acc, ms);
      }
    }
  }

  lemma {:induction false} EmptyMembers(acc: seq<Field>)
    ensures MembersOf([]) == [] && MembersTokens([]) == [] && MembersDepth([]) == 0 && Collected(acc, []) == acc
    ensures Glue([]) == "" && PrintFields([]) == "" && FieldsHeight([]) == 0 && acc + StripFields([]) == acc
  {
  }

  lemma {:induction false} PrintedMember(finite: Floats, f: Field)
    requires Plain(f.key) && Printable(f.value)
    ensures var m := Member(AllGlyphed(f.key), DocOf(f.value));
            && MemberOk(m) && MemberTaken(finite, m) && Glue(MemberTokens(m)) == PrintField(f)
            && KeyOf(m) == f.key && Meant(m.value) == Strip(f.value) && Depth(m.value) == Height(f.value)
    decreases f, 0
  {
    hide Tokens, DocOf, DocOk, Taken, Meant, Depth, Strip, Height, Print, Printable, AllGlyphed, GlyphsText, GlyphsBytes, AllOk;
    PrintedDoc(finite, f.value);
    GlyphsOfText(f.key);
    var quoted := PrintText(f.key);
    var tokens := Tokens(DocOf(f.value));
    GlueJoined([quoted, ":"], tokens);
    assert [quoted, ":"] == [quoted] + [":"];
    GlueJoined([quoted], [":"]);
    GlueOne(quoted);
    GlueOne(":");
  }

  lemma {:induction false} MembersGlue(m: Member, more: seq<Member>)
    ensures var ms := [m] + more;
            && Glue(MembersTokens(ms)) == Glue(MemberTokens(m)) + (if more == [] then "" else "," + Glue(MembersTokens(more)))
            && MembersDepth(ms) == Max(Depth(m.value), MembersDepth(more))
  {
    hide MemberTokens, Depth;
    var ms := [m] + more;
    assert ms[1..] == more && ms[0] == m;
    var tail := if more == [] then [] else [","] + MembersTokens(more);
    assert MembersTokens(ms) == MemberTokens(m) + tail;
    GlueJoined(MemberTokens(m), tail);
    if more != [] { GlueJoined([","], MembersTokens(more)); GlueOne(","); } else { assert Glue([]) == ""; }
  }

  lemma {:induction false} PrintedArray(finite: Floats, v: Value)
    requires v.Arr? && Printable(v)
    ensures var d := DocOf(v);
            && d.DArray? && DocOk(d) && Taken(finite, d) && Glue(Tokens(d)) == Print(v)
            && Meant(d) == Strip(v) && Depth(d) == Height(v)
    decreases v, 0
  {
    hide ElemsOf, ElemsTokens, AllMeant, ElemsDepth, StripElems, ElemsHeight, PrintElems, ElemTaken, Kind, MembersTokens;
    var elems := v.elems;
    ArrPrintable(v);
    PrintedElems(finite, elems);
    var ds := ElemsOf(elems);
    var tokens := ElemsTokens(ds);
    GlueJoined(["["] + tokens, ["]"]);
    GlueJoined(["["], tokens);
    GlueOne("[");
    GlueOne("]");
    SameKinds(elems, ds, finite);
    if elems == [] { NothingPrinted(); }
  }

  /** The elements of a printed list are of one kind as documents too. */
  lemma {:induction false} SameKinds(elems: seq<Value>, ds: seq<Doc>, finite: Floats)
    requires |ds| == |elems| && (elems != [] ==> forall e | e in elems :: ElemOk(e, Kind(elems[0])))
    requires forall i | 0 <= i < |ds| :: DocOk(ds[i]) && Meant(ds[i]) == Strip(elems[i])
    ensures forall i | 0 <= i < |ds| :: Kind(Meant(ds[i])) == Kind(Meant(ds[0]))
  {
    hide DocOk, Meant, Strip, Kind, Printable;
    forall i | 0 <= i < |ds| ensures Kind(Meant(ds[i])) == Kind(Meant(ds[0])) {
      assert elems[i] in elems && elems[0] in elems;
      StripKind(elems[i]);
      StripKind(elems[0]);
    }
  }

  lemma {:induction false} PrintedElems(finite: Floats, elems: seq<Value>)
    requires forall e | e in elems :: Printable(e) && !e.Null? && !e.Arr?
    ensures var ds := ElemsOf(elems);
            && (forall i | 0 <= i < |ds| :: DocOk(ds[i]) && ElemTaken(finite, ds[i]) && Meant(ds[i]) == Strip(elems[i]))
            && (forall d | d in ds :: DocOk(d))
            && Glue(ElemsTokens(ds)) == PrintElems(elems) && ElemsDepth(ds) == ElemsHeight(elems)
            && AllMeant(ds) == StripElems(elems)
    decreases elems, 1
  {
    hide Printable, Tokens, DocOf, DocOk, Taken, Meant, Depth, Strip, Height, Print;
    if elems == [] {
      EmptyElems();
    } else {
      var e, more := elems[0], elems[1..];
      assert e in elems && forall x | x in more :: x in elems;
      PrintedDoc(finite, e);
      PrintedElems(finite, more);
      var ds, rest := ElemsOf(elems), ElemsOf(more);
      assert ds == [DocOf(e)] + rest && ds[1..] == rest;
      ElemsGlue(DocOf(e), rest);
      forall d | d in ds ensures DocOk(d) { assert d == DocOf(e) || d in rest; }
    }
  }

  lemma {:induction false} EmptyElems()
    ensures ElemsOf([]) == [] && ElemsTokens([]) == [] && ElemsDepth([]) == 0 && AllMeant([]) == []
    ensures Glue([]) == "" && PrintElems([]) == "" && ElemsHeight([]) == 0 && StripElems([]) == []
  {
  }

  lemma {:induction false} ElemsGlue(d: Doc, more: seq<Doc>)
    ensures var ds := [d] + more;
            && Glue(ElemsTokens(ds)) == Glue(Tokens(d)) + (if more == [] then "" else "," + Glue(ElemsTokens(more)))
            && ElemsDepth(ds) == Max(Depth(d), ElemsDepth(more))
  {
    hide Tokens, Depth;
    var ds := [d] + more;
    assert ds[1..] == more && ds[0] == d;
    var tail := if more == [] then [] else [","] + ElemsTokens(more);
    assert ElemsTokens(ds) == Tokens(d) + tail;
    GlueJoined(Tokens(d), tail);
    if more != [] { GlueJoined([","], ElemsTokens(more)); GlueOne(","); } else { assert Glue([]) == ""; }
  }

  /** White space between the tokens of a printed object and behind it changes nothing. */
  lemma {:induction false} SpacedLikePrinted(finite: Floats, fields: seq<Field>, gaps: seq<string>, tail: string)
    requires Printable(Obj(fields)) && |gaps| == |Tokens(DocOf(Obj(fields)))| && Gaps(gaps) && Gap(tail)
    ensures Glue(Tokens(DocOf(Obj(fields)))) == Print(Obj(fields))
    ensures ParseDocument(finite, Lay(Tokens(DocOf(Obj(fields))), gaps) + tail) ==
            ParseDocument(finite, Print(Obj(fields)))
  {
    hide Printable, ParseDocument, Tokens, DocOf, DocOk, Taken, Meant, Depth, Height, Print, Lay, Gaps, Gap, StripFields;
    var v := Obj(fields);
    PrintedDoc(finite, v);
    LayoutParsed(finite, DocOf(v), gaps, tail);
    DocumentRoundTrip(finite, fields);
    StripObject(fields);
  }

  lemma {:induction false} StripObject(fields: seq<Field>)
    ensures Strip(Obj(fields)) == Obj(StripFields(fields))
  {
  }
}
