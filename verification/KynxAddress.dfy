/** runtime/kynx.c: the IPv4 and IPv6 text parsers.

    The functions say which texts are addresses by cutting them at their separators; the methods walk the
    text as the C code does and are proved to agree.

    An IPv4 address is a 32-bit number, an IPv6 address 16 bytes. A text with a colon is read as IPv6, any
    other as IPv4; the last piece of an IPv6 text may be a dotted quad. */
module KynxAddress {
  import opened Basics
  import opened Digits
  import opened Texts
  import opened KynxTypes

  type Bytes = seq<nat>

  // ----- IPv4 -----

  /** A decimal piece of a dotted quad; an empty piece is read as 0. */
  predicate IsOctet(s: string) {
    AllDigits(s) && DecValue(s) <= 255
  }

  function Combine(val: nat, ps: seq<string>): nat
    requires forall i | 0 <= i < |ps| :: IsOctet(ps[i])
    decreases |ps|
  {
    if ps == [] then val else assert IsOctet(ps[0]); Combine(val * 256 + DecValue(ps[0]), ps[1..])
  }

  /** The address a dotted quad denotes: exactly four pieces, the first in the high byte. */
  function Quad(s: string): Option<nat> {
    QuadOf(0, Split(s, '.'), 4)
  }

  function QuadOf(val: nat, ps: seq<string>, n: nat): Option<nat> {
    if |ps| == n && forall i | 0 <= i < |ps| :: IsOctet(ps[i]) then Some(Combine(val, ps)) else None
  }

  /** The address and octet read so far, and what is left to accept. */
  function QuadFrom(val: nat, octet: string, dots: nat, rest: string): Option<nat>
    requires IsOctet(octet)
    decreases |rest|
  {
    if rest == "" then if dots != 3 then None else Some(val * 256 + DecValue(octet))
    else if '0' <= rest[0] <= '9' then
      if IsOctet(octet + [rest[0]]) then QuadFrom(val, octet + [rest[0]], dots, rest[1..]) else None
    else if rest[0] == '.' && dots < 3 then QuadFrom(val * 256 + DecValue(octet), "", dots + 1, rest[1..])
    else None
  }

  lemma {:induction false} ReadEnd(val: nat, octet: string, dots: nat)
    requires IsOctet(octet)
    ensures QuadFrom(val, octet, dots, "") == if dots != 3 then None else Some(val * 256 + DecValue(octet))
  {
  }

  lemma {:induction false} ReadDigit(val: nat, octet: string, dots: nat, rest: string)
    requires IsOctet(octet) && rest != "" && '0' <= rest[0] <= '9'
    ensures IsOctet(octet + [rest[0]]) <==> DecValue(octet) * 10 + (rest[0] as nat - '0' as nat) <= 255
    ensures QuadFrom(val, octet, dots, rest) ==
            if IsOctet(octet + [rest[0]]) then QuadFrom(val, octet + [rest[0]], dots, rest[1..]) else None
    ensures IsOctet(octet + [rest[0]]) ==> DecValue(octet + [rest[0]]) == DecValue(octet) * 10 + (rest[0] as nat - '0' as nat)
  {
    DecSnoc(octet, rest[0]);
  }

  lemma {:induction false} ReadOther(val: nat, octet: string, dots: nat, rest: string)
    requires IsOctet(octet) && rest != "" && !('0' <= rest[0] <= '9')
    ensures IsOctet("") && DecValue("") == 0
    ensures QuadFrom(val, octet, dots, rest) ==
            if rest[0] == '.' && dots < 3 then QuadFrom(val * 256 + DecValue(octet), "", dots + 1, rest[1..]) else None
  {
  }

  /** Reading character by character accepts exactly the dotted quads and gives their address. */
  lemma {:induction false} QuadFromIsQuad(val: nat, octet: string, dots: nat, rest: string)
    requires IsOctet(octet) && dots <= 3
    ensures QuadFrom(val, octet, dots, rest) == QuadOf(val, Split(octet + rest, '.'), 4 - dots)
    decreases |rest|
  {
    hide QuadFrom, QuadOf, IsOctet, Split;
    OctetDigits(octet);
    var all := octet + rest;
    if rest == "" {
      assert all == octet;
      ReadEnd(val, octet, dots);
      LastOctet(val, octet, dots);
    } else if '0' <= rest[0] <= '9' {
      var more := octet + [rest[0]];
      assert all == more + rest[1..];
      ReadDigit(val, octet, dots, rest);
      if IsOctet(more) {
        QuadFromIsQuad(val, more, dots, rest[1..]);
      } else {
        OctetDigits(octet);
        NotOctetRefused(val, more, rest[1..], 4 - dots);
      }
    } else if rest[0] == '.' {
      ReadOther(val, octet, dots, rest);
      assert all == octet + ['.'] + rest[1..];
      SplitOctet(val, octet, rest[1..], dots);
      if dots < 3 {
        assert "" + rest[1..] == rest[1..];
        QuadFromIsQuad(val * 256 + DecValue(octet), "", dots + 1, rest[1..]);
      }
    } else {
      ReadOther(val, octet, dots, rest);
      var more := octet + [rest[0]];
      assert all == more + rest[1..];
      assert more[|octet|] == rest[0];
      OctetDigits(octet);
      OctetDigits(more);
      NotOctetRefused(val, more, rest[1..], 4 - dots);
    }
  }

  lemma {:induction false} OctetDigits(s: string)
    ensures IsOctet(s) ==> AllDigits(s)
    ensures IsOctet(s) ==> '.' !in s
  {
  }

  lemma {:induction false} LastOctet(val: nat, octet: string, dots: nat)
    requires IsOctet(octet) && dots <= 3
    ensures QuadOf(val, Split(octet, '.'), 4 - dots) == if dots != 3 then None else Some(val * 256 + DecValue(octet))
  {
    NoDot(octet);
    IndexOfIs(octet, '.', |octet|);
    assert Split(octet, '.') == [octet] + [];
    QuadOfCons(val, octet, [], 4 - dots);
  }

  lemma {:induction false} SplitOctet(val: nat, octet: string, rest: string, dots: nat)
    requires IsOctet(octet) && dots <= 3
    ensures QuadOf(val, Split(octet + ['.'] + rest, '.'), 4 - dots) ==
            if dots < 3 then QuadOf(val * 256 + DecValue(octet), Split(rest, '.'), 3 - dots) else None
  {
    var all := octet + ['.'] + rest;
    NoDot(octet);
    assert all[..|octet|] == octet && all[|octet| + 1..] == rest;
    IndexOfIs(all, '.', |octet|);
    assert Split(all, '.') == [octet] + Split(rest, '.');
    QuadOfCons(val, octet, Split(rest, '.'), 4 - dots);
  }

  lemma {:induction false} NotOctetRefused(val: nat, more: string, rest: string, n: nat)
    requires !IsOctet(more) && '.' !in more
    ensures QuadOf(val, Split(more + rest, '.'), n) == None
  {
    var all := more + rest;
    assert all[..|more|] == more;
    FirstPiece(all, |more|);
    LongerNotOctet(Split(all, '.')[0], more);
  }

  lemma {:induction false} NoDot(s: string)
    requires AllDigits(s)
    ensures '.' !in s
  {
  }

  /** Text without a separator so far is a prefix of the first piece. */
  lemma {:induction false} FirstPiece(s: string, n: nat)
    requires n <= |s| && '.' !in s[..n]
    ensures n <= |Split(s, '.')[0]| && Split(s, '.')[0][..n] == s[..n]
  {
    var i := IndexOf(s, '.');
    PrefixHas(s, n);
    assert n <= i;
    assert s[..i][..n] == s[..n];
  }

  lemma {:induction false} LongerNotOctet(p: string, start: string)
    requires |start| <= |p| && p[..|start|] == start && !IsOctet(start)
    ensures !IsOctet(p)
  {
    if AllDigits(p) {
      assert forall i | 0 <= i < |start| :: start[i] == p[i];
      DecGrows(p, |start|);
    }
  }

  lemma {:induction false} QuadOfCons(val: nat, octet: string, ps: seq<string>, n: nat)
    requires IsOctet(octet) && n > 0
    ensures QuadOf(val, [octet] + ps, n) == QuadOf(val * 256 + DecValue(octet), ps, n - 1)
  {
    var all := [octet] + ps;
    assert all[1..] == ps;
    assert forall i | 0 <= i < |ps| :: all[i + 1] == ps[i];
    assert (forall i | 0 <= i < |all| :: IsOctet(all[i])) <==> (forall i | 0 <= i < |ps| :: IsOctet(ps[i])) by {
      if forall i | 0 <= i < |ps| :: IsOctet(ps[i]) {
        forall i | 0 <= i < |all| ensures IsOctet(all[i]) { if i > 0 { assert all[i] == ps[i - 1]; } }
      }
    }
  }

  /** kynx_fast_parse_ipv4. */
  method ParseV4(s: string) returns (r: Option<nat>)
    ensures r == Quad(s)
  {
    hide Quad, QuadFrom, IsOctet, DecValue, AllDigits;
    ghost var answer := Quad(s);
    WholeQuad(s);
    var val: nat, octet: nat, dots: nat, i: nat := 0, 0, 0, 0;
    ghost var text := "";
    ghost var rest := s;
    EmptyOctet();
    while i < |s|
      invariant i <= |s| && rest == s[i..] && dots <= 3 && IsOctet(text) && AllDigits(text) && octet == DecValue(text)
      invariant answer == QuadFrom(val, text, dots, rest)
    {
      var c := s[i];
      assert rest != "" && rest[0] == c && rest[1..] == s[i + 1..];
      if '0' <= c <= '9' {
        ReadDigit(val, text, dots, rest);
        octet := octet * 10 + (c as nat - '0' as nat);
        if octet > 255 { return None; }
        text := text + [c];
        OctetDigits(text);
      } else {
        ReadOther(val, text, dots, rest);
        if c != '.' || dots >= 3 { return None; }
        val := val * 256 + octet;
        octet, text := 0, "";
        dots := dots + 1;
      }
      rest := rest[1..];
      i := i + 1;
    }
    ReadEnd(val, text, dots);
    if dots != 3 { return None; }
    r := Some(val * 256 + octet);
  }

  lemma {:induction false} WholeQuad(s: string)
    ensures IsOctet("") && QuadFrom(0, "", 0, s) == Quad(s)
  {
    QuadFromIsQuad(0, "", 0, s);
    assert "" + s == s;
  }

  lemma {:induction false} EmptyOctet()
    ensures IsOctet("") && AllDigits("") && DecValue("") == 0
  {
  }

  // ----- IPv6 -----

  /** One colon-separated piece: a dotted quad if it comes last, or a non-empty hex group of 16 bits. */
  predicate IsGroup(p: string) {
    p != "" && AllHex(p) && HexValue(p) <= 0xFFFF
  }

  function GroupBytes(v: nat): Bytes {
    [v / 256, v % 256]
  }

  function QuadBytes(q: nat): Bytes {
    [q / 0x100_0000, q / 0x1_0000 % 256, q / 256 % 256, q % 256]
  }

  function PieceBytes(p: string, last: bool): Option<Bytes> {
    if '.' in p then
      if last && |p| < 16 && Quad(p).Some? then Some(QuadBytes(Quad(p).value)) else None
    else if IsGroup(p) then Some(GroupBytes(HexValue(p)))
    else None
  }

  function PiecesBytes(ps: seq<string>): Option<Bytes> {
    if ps == [] then Some([])
    else
      var first, rest := PieceBytes(ps[0], |ps| == 1), PiecesBytes(ps[1..]);
      if first.None? || rest.None? then None else Some(first.value + rest.value)
  }

  /** A span without "::" and the bytes it denotes, at most 16. */
  function Span(s: string): Option<Bytes> {
    if s == "" then Some([])
    else
      var r := PiecesBytes(Split(s, ':'));
      if r.Some? && |r.value| <= 16 then r else None
  }

  /** The first "::", or the length. */
  function FindDouble(s: string): (i: nat)
    ensures i == |s| || (i + 1 < |s| && s[i] == ':' && s[i + 1] == ':')
    ensures forall k | 0 <= k < i && k + 1 < |s| :: !(s[k] == ':' && s[k + 1] == ':')
  {
    if |s| < 2 then |s|
    else if s[0] == ':' && s[1] == ':' then 0
    else 1 + FindDouble(s[1..])
  }

  /** The 16 bytes an IPv6 text denotes. */
  function Address6(s: string): Option<Bytes> {
    var i := FindDouble(s);
    if s == "" then None
    else if i == |s| then
      var r := Span(s);
      if r.Some? && |r.value| == 16 then r else None
    else
      var head, tail := Span(s[..i]), Span(s[i + 2..]);
      if head.None? || |head.value| > 14 || FindDouble(s[i + 2..]) < |s| - i - 2 then None
      else if tail.None? || |head.value| + |tail.value| > 16 then None
      else Some(head.value + Zeros(16 - |head.value| - |tail.value|) + tail.value)
  }

  function Zeros(n: nat): Bytes {
    seq(n, _ => 0)
  }

  /** The digit loop of kynx_parse_v6_span. */
  method ParseGroup(p: string) returns (r: Option<nat>)
    ensures r == if AllHex(p) && HexValue(p) <= 0xFFFF then Some(HexValue(p)) else None
  {
    var val, i := 0, 0;
    assert AllHex(p[..0]);
    while i < |p|
      invariant i <= |p| && AllHex(p[..i]) && val == HexValue(p[..i]) <= 0xFFFF
    {
      var d := Hex(p[i]);
      if d.None? { return None; }
      assert p[..i + 1] == p[..i] + [p[i]];
      HexSnoc(p[..i], p[i]);
      val := val * 16 + d.value;
      if val > 0xFFFF {
        if AllHex(p) { HexGrows(p, i + 1); }
        return None;
      }
      i := i + 1;
    }
    assert p[..i] == p;
    r := Some(val);
  }

  /** What the span loop makes of the rest of its text after `written` bytes. */
  ghost function SpanFrom(written: Bytes, rest: string): Option<Bytes> {
    var r := PiecesBytes(Split(rest, ':'));
    if r.Some? && |written| + |r.value| <= 16 then Some(written + r.value) else None
  }

  lemma {:induction false} PiecesCons(p: string, ps: seq<string>)
    ensures var first, more := PieceBytes(p, ps == []), PiecesBytes(ps);
            PiecesBytes([p] + ps) == if first.None? || more.None? then None else Some(first.value + more.value)
  {
    hide PieceBytes;
    assert ([p] + ps)[1..] == ps && ([p] + ps)[0] == p;
  }

  lemma {:induction false} EmptyPiece()
    ensures PiecesBytes(Split("", ':')) == None && PiecesBytes([]) == Some([])
  {
    assert Split("", ':') == [""];
    PiecesCons("", []);
    assert [""] + [] == [""];
  }

  lemma {:induction false} SpanJoin(written: Bytes, piece: Bytes, more: Bytes)
    ensures written + (piece + more) == (written + piece) + more && piece + [] == piece
  {
  }

  lemma {:induction false} SpanStep(written: Bytes, rest: string)
    ensures var i := IndexOf(rest, ':');
            var piece := PieceBytes(rest[..i], i == |rest|);
            && (piece.None? ==> SpanFrom(written, rest) == None)
            && (piece.Some? && |written| + |piece.value| > 16 ==> SpanFrom(written, rest) == None)
            && (piece.Some? && |written| + |piece.value| <= 16 ==>
                  SpanFrom(written, rest) ==
                  if i == |rest| then Some(written + piece.value) else SpanFrom(written + piece.value, rest[i + 1..]))
            && (i < |rest| && rest[i + 1..] == "" ==> SpanFrom(written, rest) == None)
  {
    hide PieceBytes, PiecesBytes, IndexOf, Split;
    var i := IndexOf(rest, ':');
    var p := rest[..i];
    EmptyPiece();
    if i == |rest| {
      assert p == rest;
      SplitWhole(rest, ':');
      PiecesCons(p, []);
      assert [p] + [] == [p];
      var piece := PieceBytes(p, true);
      if piece.Some? { SpanJoin(written, piece.value, []); }
    } else {
      var more := Split(rest[i + 1..], ':');
      assert rest == p + [':'] + rest[i + 1..];
      SplitFirst(p, rest[i + 1..], ':');
      PiecesCons(p, more);
      var piece := PieceBytes(p, false);
      if piece.Some? && PiecesBytes(more).Some? { SpanJoin(written, piece.value, PiecesBytes(more).value); }
    }
  }

  /** kynx_parse_v6_span. */
  method ParseSpan(s: string) returns (r: Option<Bytes>)
    ensures r == Span(s)
  {
    hide SpanFrom, Span, PieceBytes, Quad, IsGroup;
    ghost var answer := Span(s);
    SpanWhole(s);
    var written: Bytes, p := [], 0;
    assert s[0..] == s;
    while p < |s|
      invariant p <= |s| && |written| <= 16
      invariant p < |s| ==> answer == SpanFrom(written, s[p..])
      invariant p == |s| ==> answer == Some(written)
    {
      var rest := s[p..];
      var i := IndexOf(rest, ':');
      SpanStep(written, rest);
      var piece := ParsePiece(rest[..i], i == |rest|);
      if piece.None? || |written| + |piece.value| > 16 { return None; }
      written := written + piece.value;
      if i < |rest| {
        if p + i + 1 == |s| { assert rest[i + 1..] == ""; return None; }
        assert s[p + i + 1..] == rest[i + 1..];
        p := p + i + 1;
      } else {
        p := |s|;
      }
    }
    r := Some(written);
  }

  lemma {:induction false} SpanWhole(s: string)
    ensures s == "" ==> Span(s) == Some([])
    ensures s != "" ==> Span(s) == SpanFrom([], s)
  {
    var r := PiecesBytes(Split(s, ':'));
    if r.Some? { assert [] + r.value == r.value; }
  }

  /** One piece inside the span loop. */
  method ParsePiece(p: string, last: bool) returns (r: Option<Bytes>)
    ensures r == PieceBytes(p, last)
  {
    hide Quad, AllHex;
    if '.' in p {
      if |p| == 0 || |p| >= 16 || !last { return None; }
      var v4 := ParseV4(p);
      if v4.None? { return None; }
      r := Some(QuadBytes(v4.value));
    } else {
      if p == "" { return None; }
      var v := ParseGroup(p);
      if v.None? { return None; }
      r := Some(GroupBytes(v.value));
    }
  }

  /** strstr(s, "::"). */
  method FindColons(s: string) returns (i: nat)
    ensures i == FindDouble(s)
  {
    i := 0;
    assert s[0..] == s;
    while i + 1 < |s|
      invariant i <= |s| && FindDouble(s) == i + FindDouble(s[i..])
    {
      if s[i] == ':' && s[i + 1] == ':' { return; }
      assert s[i..][1..] == s[i + 1..];
      i := i + 1;
    }
    i := |s|;
  }

  /** kynx_parse_ipv6. */
  method ParseV6(s: string) returns (r: Option<Bytes>)
    ensures r == Address6(s)
  {
    hide Span, FindDouble;
    if s == "" { return None; }
    var sep := FindColons(s);
    if sep == |s| {
      var all := ParseSpan(s);
      return if all.Some? && |all.value| == 16 then all else None;
    }
    var head := ParseSpan(s[..sep]);
    if head.None? || |head.value| > 14 { return None; }
    var tail := s[sep + 2..];
    var again := FindColons(tail);
    if again < |tail| { return None; }
    var rest := ParseSpan(tail);
    if rest.None? || |head.value| + |rest.value| > 16 { return None; }
    r := Some(head.value + Zeros(16 - |head.value| - |rest.value|) + rest.value);
  }

  /** kynx_parse_ip. */
  function Parse(s: string): Option<IP> {
    if ':' in s then
      if Address6(s).Some? then Some(V6(Address6(s).value)) else None
    else if Quad(s).Some? then Some(V4(Quad(s).value))
    else None
  }

  method ParseIp(s: string) returns (r: Option<IP>)
    ensures r == Parse(s)
  {
    if ':' in s {
      var v6 := ParseV6(s);
      r := if v6.Some? then Some(V6(v6.value)) else None;
    } else {
      var v4 := ParseV4(s);
      r := if v4.Some? then Some(V4(v4.value)) else None;
    }
  }
}
