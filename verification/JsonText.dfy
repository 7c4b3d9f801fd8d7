/** runtime/json.c: what a JSON string decodes to and how a string is printed.

    A text is a C string: one character a byte and a NUL behind them, which `At` reads. Functions take
    what is left of the text and return what is left after them.

    `StringStep` is one step inside a string: an ordinary character, a short escape, or a numeric escape
    with or without a second half. The code passes one character more than a numeric escape has, unless
    it is a pair; the step says so. When the NUL is that character, the code goes on reading behind the
    text, where nothing is known; `Body` answers `Overrun`.

    Problems are named in the order the code looks for them. */
module JsonText {
  import opened Basics
  import opened Digits
  import opened Texts

  /** Why a document is refused. */
  datatype Problem =
    | ControlCharacter | TruncatedUnicode | BadUnicode | LoneSurrogate | BadEscape | Unterminated
    | LeadingZero | BadNumber | IntRange | FloatRange
    | KeyNotString | ExpectedColon | ExpectedCommaOrBrace
    | NullElement | NestedArray | MixedArray | ExpectedCommaOrBracket
    | TooDeep | BadLiteral | EndOfInput | UnexpectedCharacter
    | NotObject | TrailingData
    | Overrun  // no message of the code: it reads behind the NUL of the text

  datatype Parsed<+T> = Good(value: T, rest: string) | Bad(why: Problem)

  function At(t: string, i: nat): char {
    if i < |t| then t[i] else '\0'
  }

  function Drop(t: string, n: nat): string {
    if n <= |t| then t[n..] else ""
  }

  // ----- characters -----

  /** Four hexadecimal digits at offset `i`. */
  function Unit16(t: string, i: nat): (u: Option<nat>)
    ensures u.Some? ==> u.value < 0x1_0000
  {
    var h0, h1, h2, h3 := Hex(At(t, i)), Hex(At(t, i + 1)), Hex(At(t, i + 2)), Hex(At(t, i + 3));
    if h0.None? || h1.None? || h2.None? || h3.None? then None
    else Some(((h0.value * 16 + h1.value) * 16 + h2.value) * 16 + h3.value)
  }

  /** The UTF-8 bytes of a code point. */
  function Utf8(cp: nat): (s: string)
    requires cp < 0x11_0000
    ensures s != ""
  {
    if cp < 0x80 then [cp as char]
    else if cp < 0x800 then [(0xC0 + cp / 0x40) as char, (0x80 + cp % 0x40) as char]
    else if cp < 0x1_0000 then
      [(0xE0 + cp / 0x1000) as char, (0x80 + cp / 0x40 % 0x40) as char, (0x80 + cp % 0x40) as char]
    else
      [(0xF0 + cp / 0x4_0000) as char, (0x80 + cp / 0x1000 % 0x40) as char, (0x80 + cp / 0x40 % 0x40) as char,
       (0x80 + cp % 0x40) as char]
  }

  /** json_utf8_len. */
  function Utf8Length(cp: nat): (n: nat)
    requires cp < 0x11_0000
    ensures n == |Utf8(cp)|
  {
    if cp < 0x80 then 1 else if cp < 0x800 then 2 else if cp < 0x1_0000 then 3 else 4
  }

  predicate HighSurrogate(u: nat) {
    0xD800 <= u <= 0xDBFF
  }

  predicate LowSurrogate(u: nat) {
    0xDC00 <= u <= 0xDFFF
  }

  function Combined(high: nat, low: nat): (cp: nat)
    requires HighSurrogate(high) && LowSurrogate(low)
    ensures 0x1_0000 <= cp < 0x11_0000
  {
    0x1_0000 + (high - 0xD800) * 0x400 + (low - 0xDC00)
  }

  predicate HasNul(t: string, i: nat) {
    At(t, i) == '\0' || At(t, i + 1) == '\0' || At(t, i + 2) == '\0' || At(t, i + 3) == '\0'
  }

  /** One step inside a string: the bytes it stands for and how many characters are passed. */
  datatype Step = Piece(bytes: string, length: nat) | Wrong(why: Problem)

  function ShortEscape(c: char): Option<char> {
    if c == '\"' || c == '\\' || c == '/' then Some(c)
    else if c == 'b' then Some(8 as char)
    else if c == 'f' then Some(12 as char)
    else if c == 'n' then Some('\n')
    else if c == 'r' then Some('\r')
    else if c == 't' then Some('\t')
    else None
  }

  /** An escape introduced by backslash and u. The code passes one character more than the escape has, except
      after a surrogate pair. */
  function UnicodeStep(t: string): Step {
    var cp := Unit16(t, 2);
    if HasNul(t, 2) then Wrong(TruncatedUnicode)
    else if cp.None? then Wrong(BadUnicode)
    else if HighSurrogate(cp.value) then
      var low := Unit16(t, 8);
      if At(t, 6) != '\\' || At(t, 7) != 'u' then Wrong(LoneSurrogate)
      else if HasNul(t, 8) then Wrong(TruncatedUnicode)
      else if low.None? || !LowSurrogate(low.value) then Wrong(LoneSurrogate)
      else Piece(Utf8(Combined(cp.value, low.value)), 12)
    else if LowSurrogate(cp.value) then Wrong(LoneSurrogate)
    else Piece(Utf8(cp.value), 7)
  }

  function StringStep(t: string): (s: Step)
    ensures s.Piece? ==> s.length > 0 && s.bytes != ""
  {
    var c := At(t, 0);
    if c < ' ' then Wrong(ControlCharacter)
    else if c != '\\' then Piece([c], 1)
    else if ShortEscape(At(t, 1)).Some? then Piece([ShortEscape(At(t, 1)).value], 2)
    else if At(t, 1) == 'u' then UnicodeStep(t)
    else Wrong(BadEscape)
  }

  function Prepend(s: string, r: Parsed<string>): Parsed<string> {
    if r.Good? then Good(s + r.value, r.rest) else r
  }

  lemma {:induction false} PrependTwice(a: string, b: string, r: Parsed<string>)
    ensures Prepend(a, Prepend(b, r)) == Prepend(a + b, r) && Prepend("", r) == r
  {
    if r.Good? { assert a + (b + r.value) == a + b + r.value && "" + r.value == r.value; }
  }

  /** The rest of a string after its opening quote, up to and including the closing one. */
  function Body(t: string): (r: Parsed<string>)
    ensures r.Good? ==> |r.rest| < |t|
    decreases |t|
  {
    if At(t, 0) == '\0' then Bad(Unterminated)
    else if t[0] == '\"' then Good("", t[1..])
    else
      var s := StringStep(t);
      if s.Wrong? then Bad(s.why)
      else if s.length > |t| then Bad(Overrun)
      else Prepend(s.bytes, Body(t[s.length..]))
  }

  /** One turn of the pass. */
  lemma {:induction false} BodyStep(t: string)
    ensures At(t, 0) == '\0' ==> Body(t) == Bad(Unterminated)
    ensures At(t, 0) == '\"' ==> Body(t) == Good("", Drop(t, 1))
    ensures At(t, 0) != '\0' && At(t, 0) != '\"' ==>
              var s := StringStep(t);
              Body(t) == if s.Wrong? then Bad(s.why)
                         else if s.length > |t| then Bad(Overrun)
                         else Prepend(s.bytes, Body(Drop(t, s.length)))
  {
  }

  /** json_parse_string: the C string of the decoded bytes. */
  function ParseText(t: string): (r: Parsed<string>)
    ensures r.Good? ==> |r.rest| < |t|
  {
    var r := Body(t);
    if r.Good? then Good(CString(r.value), r.rest) else r
  }

  // ----- printing -----

  predicate Short(c: char) {
    c == '\n' || c == '\r' || c == '\t'
  }

  function Escaped(c: char): string {
    if c == '\"' || c == '\\' then ['\\', c]
    else if c == '\n' then "\\n"
    else if c == '\r' then "\\r"
    else if c == '\t' then "\\t"
    else if c < ' ' then "\\u00" + [HexDigit(c as nat / 16), HexDigit(c as nat % 16)]
    else [c]
  }

  function Escape(s: string): string {
    if s == "" then "" else Escaped(s[0]) + Escape(s[1..])
  }

  /** json_put_string. */
  function PrintText(s: string): string {
    "\"" + Escape(s) + "\""
  }

  /** A character the printer writes without a numeric escape. */
  predicate PlainChar(c: char) {
    c >= ' ' || Short(c)
  }

  predicate Plain(s: string) {
    forall i | 0 <= i < |s| :: PlainChar(s[i])
  }

  // ----- UTF-8 -----

  /** The code point some bytes encode, by RFC 3629. */
  function Utf8Value(s: string): nat
    requires 1 <= |s| <= 4
    requires |s| == 2 ==> s[0] as nat >= 0xC0
    requires |s| == 3 ==> s[0] as nat >= 0xE0
    requires |s| == 4 ==> s[0] as nat >= 0xF0
    requires forall i | 1 <= i < |s| :: s[i] as nat >= 0x80
  {
    if |s| == 1 then s[0] as nat
    else if |s| == 2 then (s[0] as nat - 0xC0) * 0x40 + (s[1] as nat - 0x80)
    else if |s| == 3 then ((s[0] as nat - 0xE0) * 0x40 + (s[1] as nat - 0x80)) * 0x40 + (s[2] as nat - 0x80)
    else
      (((s[0] as nat - 0xF0) * 0x40 + (s[1] as nat - 0x80)) * 0x40 + (s[2] as nat - 0x80)) * 0x40 + (s[3] as nat - 0x80)
  }

  lemma {:induction false} Utf8RoundTrip(cp: nat)
    requires cp < 0x11_0000
    ensures Utf8Value(Utf8(cp)) == cp
    ensures |Utf8(cp)| == 1 ==> Utf8(cp)[0] as nat < 0x80
    ensures |Utf8(cp)| > 1 ==> forall i | 0 <= i < |Utf8(cp)| :: 0x80 <= Utf8(cp)[i] as nat < 0x100
  {
    assert cp == (cp / 0x1000 * 0x40 + cp / 0x40 % 0x40) * 0x40 + cp % 0x40;
    assert cp / 0x1000 == cp / 0x4_0000 * 0x40 + cp / 0x1000 % 0x40;
  }
}
