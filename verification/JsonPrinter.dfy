/** runtime/json.c: the printer over a buffer that doubles.

    `JsonBuf` is the buffer: an array, how much of it is text, and a NUL behind the text. `Reserve` moves
    the text to a larger array when room is short; the old array is left behind, as in the arena. Every
    other method appends, and its contract says what: the printed form of its argument, by the functions
    of module `Json`.

    Objects and lists are printed in loops that put a comma before every item but the first. What a loop
    still has to append is `FieldsFrom` or `ElemsFrom` of its index, so the text already there, followed
    by that, is always the printed form.

    The functions are hidden in the loops; the lemmas behind the class give one turn of each at a
    time. */
module JsonPrinter {
  import opened Buffers
  import opened Digits
  import opened JsonText
  import opened Json

  const FIRST_CAPACITY := 128

  lemma {:induction false} PrintedSoFar(s: string, i: nat)
    requires i < |s|
    ensures Escape(s[i..]) == Escaped(s[i]) + Escape(s[i + 1..])
  {
    assert s[i..][1..] == s[i + 1..];
  }

  /** The room doubled until it suffices: less than twice what is needed, and at least twice what there was. */
  function Doubled(room: nat, need: nat): (n: nat)
    requires room > 0
    ensures n >= need && (n != room ==> 2 * room <= n < 2 * need) && (room >= need ==> n == room)
    decreases need - room
  {
    if room >= need then room else Doubled(room * 2, need)
  }

  class JsonBuf {
    var data: array<char>
    var len: nat

    /** Room for the text and its final NUL. */
    predicate Valid()
      reads this, data
    {
      len < data.Length && data[len] == '\0'
    }

    function Text(): string
      requires Valid()
      reads this, data
    {
      data[..len]
    }

    /** The buffer orbit_object_to_json starts from. */
    constructor ()
      ensures Valid() && Text() == "" && fresh(data)
    {
      data := new char[FIRST_CAPACITY];
      len := 0;
      new;
      data[0] := '\0';
    }

    /** json_buf_reserve: doubles until `extra` more bytes fit, and copies forward. */
    method Reserve(extra: nat)
      requires Valid()
      modifies this
      ensures len == old(len) && len + extra <= data.Length && data[..len] == old(data[..len])
      ensures data.Length == Doubled(old(data.Length), len + extra)
      ensures if old(data.Length) >= len + extra then data == old(data) else fresh(data)
    {
      if len + extra <= data.Length { return; }
      var next := data.Length;
      while next < len + extra
        invariant next >= data.Length && Doubled(next, len + extra) == Doubled(data.Length, len + extra)
        decreases len + extra - next
      {
        next := next * 2;
      }
      var grown := new char[next];
      var i := 0;
      while i < len
        invariant i <= len && grown[..i] == data[..i]
        modifies grown
      {
        grown[i] := data[i];
        i := i + 1;
      }
      data := grown;
    }

    /** json_puts. */
    method Puts(s: string)
      requires Valid()
      modifies this, data
      ensures Valid() && Text() == old(Text()) + s
      ensures data == old(data) || fresh(data)
    {
      Reserve(|s| + 1);
      Store(data, len, s);
      len := len + |s|;
      data[len] := '\0';
    }

    /** json_putc. */
    method Putc(c: char)
      requires Valid()
      modifies this, data
      ensures Valid() && Text() == old(Text()) + [c]
      ensures data == old(data) || fresh(data)
    {
      Reserve(2);
      data[len] := c;
      len := len + 1;
      data[len] := '\0';
    }

    /** The branches json_put_string chooses between. */
    method PutEscaped(c: char)
      requires Valid()
      modifies this, data
      ensures Valid() && Text() == old(Text()) + Escaped(c)
      ensures data == old(data) || fresh(data)
    {
      ghost var was := Text();
      if c == '\"' || c == '\\' {
        Putc('\\');
        Putc(c);
        assert was + ['\\'] + [c] == was + ['\\', c];
      } else if c == '\n' {
        Puts("\\n");
      } else if c == '\r' {
        Puts("\\r");
      } else if c == '\t' {
        Puts("\\t");
      } else if c < ' ' {
        Puts("\\u00" + [HexDigit(c as nat / 16), HexDigit(c as nat % 16)]);
      } else {
        Putc(c);
      }
    }

    /** json_put_string. */
    method PutString(s: string)
      requires Valid()
      modifies this, data
      ensures Valid() && Text() == old(Text()) + PrintText(s)
      ensures data == old(data) || fresh(data)
    {
      hide Escaped, Escape;
      ghost var was := Text();
      Putc('\"');
      ghost var head := was + ['\"'];
      var i := 0;
      ghost var printed := "";
      assert s[0..] == s;
      while i < |s|
        invariant i <= |s| && Valid() && (data == old(data) || fresh(data))
        invariant Text() == head + printed && printed + Escape(s[i..]) == Escape(s)
      {
        PrintedSoFar(s, i);
        PutEscaped(s[i]);
        assert printed + (Escaped(s[i]) + Escape(s[i + 1..])) == printed + Escaped(s[i]) + Escape(s[i + 1..]);
        printed := printed + Escaped(s[i]);
        i := i + 1;
      }
      AllPrinted(s, printed);
      Putc('\"');
      assert head + printed + "\"" == was + PrintText(s);
    }

    /** json_put_value. */
    method PutValue(v: Value)
      requires Valid()
      modifies this, data
      ensures Valid() && Text() == old(Text()) + Print(v)
      ensures data == old(data) || fresh(data)
      decreases v, 1
    {
      hide IntText, PrintText, PrintFields, PrintElems;
      match v
      case Null => Puts("null");
      case Bool(b) => Puts(if b then "true" else "false");
      case Int(i) => Puts(IntText(i));
      case Float(text) => Puts(text);
      case Str(s) => PutString(s);
      case Obj(fields) => PutObject(fields);
      case Arr(elems) => PutList(elems);
    }

    /** json_put_list. */
    method PutList(elems: seq<Value>)
      requires Valid()
      modifies this, data
      ensures Valid() && Text() == old(Text()) + ("[" + PrintElems(elems) + "]")
      ensures data == old(data) || fresh(data)
      decreases elems, 0
    {
      hide ElemsFrom, Print, PrintElems;
      ghost var was := Text();
      Putc('[');
      ghost var head := was + ['['];
      ghost var printed := "";
      var i := 0;
      WholeElems(elems);
      while i < |elems|
        invariant i <= |elems| && Valid() && (data == old(data) || fresh(data))
        invariant Text() == head + printed && printed + ElemsFrom(elems, i) == PrintElems(elems)
      {
        ElemsFromStep(elems, i);
        ghost var piece := Comma(i) + Print(elems[i]);
        if i > 0 { Putc(','); }
        PutValue(elems[i]);
        Pieces(head, printed, i, Print(elems[i]), ElemsFrom(elems, i + 1));
        printed := printed + piece;
        i := i + 1;
      }
      ElemsDone(elems, printed);
      Putc(']');
      assert head + printed + "]" == was + ("[" + PrintElems(elems) + "]");
    }

    /** orbit_object_to_json_buf. */
    method PutObject(fields: seq<Field>)
      requires Valid()
      modifies this, data
      ensures Valid() && Text() == old(Text()) + ("{" + PrintFields(fields) + "}")
      ensures data == old(data) || fresh(data)
      decreases fields, 0
    {
      hide FieldsFrom, Print, PrintFields, PrintField;
      ghost var was := Text();
      Putc('{');
      ghost var head := was + ['{'];
      ghost var printed := "";
      var i := 0;
      WholeFields(fields);
      while i < |fields|
        invariant i <= |fields| && Valid() && (data == old(data) || fresh(data))
        invariant Text() == head + printed && printed + FieldsFrom(fields, i) == PrintFields(fields)
      {
        FieldsFromStep(fields, i);
        ghost var piece := Comma(i) + PrintField(fields[i]);
        if i > 0 { Putc(','); }
        PutField(fields[i]);
        Pieces(head, printed, i, PrintField(fields[i]), FieldsFrom(fields, i + 1));
        printed := printed + piece;
        i := i + 1;
      }
      FieldsDone(fields, printed);
      Putc('}');
      assert head + printed + "}" == was + ("{" + PrintFields(fields) + "}");
    }

    method PutField(f: Field)
      requires Valid()
      modifies this, data
      ensures Valid() && Text() == old(Text()) + PrintField(f)
      ensures data == old(data) || fresh(data)
      decreases f, 0
    {
      hide Print, PrintText;
      ghost var was := Text();
      PutString(f.key);
      Putc(':');
      PutValue(f.value);
      assert was + PrintText(f.key) + [':'] + Print(f.value) == was + PrintField(f);
    }
  }

  lemma {:induction false} AllPrinted(s: string, printed: string)
    requires printed + Escape(s[|s|..]) == Escape(s)
    ensures printed == Escape(s)
  {
    assert s[|s|..] == "" && printed + "" == printed;
  }

  function Comma(i: nat): string {
    if i > 0 then "," else ""
  }

  /** One more piece has been appended. */
  lemma {:induction false} Pieces(head: string, printed: string, i: nat, one: string, rest: string)
    ensures head + printed + one == head + (printed + one) && head + printed + [','] + one == head + (printed + ("," + one))
    ensures "" + one == one && printed + (Comma(i) + one + rest) == printed + (Comma(i) + one) + rest
  {
  }

  /** What printing still has to append from element `i` on, with the comma before it. */
  function ElemsFrom(elems: seq<Value>, i: nat): string
    requires i <= |elems|
  {
    if i == |elems| then "" else Comma(i) + PrintElems(elems[i..])
  }

  lemma {:induction false} WholeElems(elems: seq<Value>)
    ensures "" + ElemsFrom(elems, 0) == PrintElems(elems)
  {
    assert elems[0..] == elems;
  }

  lemma {:induction false} ElemsDone(elems: seq<Value>, printed: string)
    requires printed + ElemsFrom(elems, |elems|) == PrintElems(elems)
    ensures printed == PrintElems(elems)
  {
    assert printed + "" == printed;
  }

  lemma {:induction false} ElemsFromStep(elems: seq<Value>, i: nat)
    requires i < |elems|
    ensures ElemsFrom(elems, i) == Comma(i) + Print(elems[i]) + ElemsFrom(elems, i + 1)
  {
    hide Print;
    assert elems[i..][1..] == elems[i + 1..];
  }

  function FieldsFrom(fields: seq<Field>, i: nat): string
    requires i <= |fields|
  {
    if i == |fields| then "" else Comma(i) + PrintFields(fields[i..])
  }

  lemma {:induction false} WholeFields(fields: seq<Field>)
    ensures "" + FieldsFrom(fields, 0) == PrintFields(fields)
  {
    assert fields[0..] == fields;
  }

  lemma {:induction false} FieldsDone(fields: seq<Field>, printed: string)
    requires printed + FieldsFrom(fields, |fields|) == PrintFields(fields)
    ensures printed == PrintFields(fields)
  {
    assert printed + "" == printed;
  }

  lemma {:induction false} FieldsFromStep(fields: seq<Field>, i: nat)
    requires i < |fields|
    ensures FieldsFrom(fields, i) == Comma(i) + PrintField(fields[i]) + FieldsFrom(fields, i + 1)
  {
    hide PrintField;
    assert fields[i..][1..] == fields[i + 1..];
  }

  /** orbit_object_to_json. */
  method ObjectToJson(fields: seq<Field>) returns (s: string)
    ensures s == Print(Obj(fields))
  {
    hide PrintFields;
    var b := new JsonBuf();
    b.PutObject(fields);
    s := b.data[..b.len];
    assert s == "" + ("{" + PrintFields(fields) + "}");
  }
}
