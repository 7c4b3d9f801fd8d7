/** runtime/kynx.c: exactly which texts are addresses, and which addresses they are. */
module KynxAddressLanguage {
  import opened Basics
  import opened Digits
  import opened Texts
  import opened KynxTypes
  import opened KynxAddress
  import opened KynxAddressProofs

  // ----- dotted quads -----

  /** Decimal digits of at most 255, or none at all. */
  predicate Octet(s: string) {
    (forall i | 0 <= i < |s| :: '0' <= s[i] <= '9') && AllDigits(s) && DecValue(s) <= 255
  }

  predicate QuadParts(s: string, p: string, q: string, r: string, t: string) {
    Octet(p) && Octet(q) && Octet(r) && Octet(t) && s == p + "." + q + "." + r + "." + t
  }

  lemma {:induction false} OctetNoDot(s: string)
    ensures Octet(s) <==> IsOctet(s)
    ensures Octet(s) ==> '.' !in s && ':' !in s
  {
    if IsOctet(s) { forall i | 0 <= i < |s| ensures '0' <= s[i] <= '9' { assert IsDigit(s[i]); } }
  }

  lemma {:induction false} FourJoined(p: string, q: string, r: string, t: string)
    ensures Join([p, q, r, t], '.') == p + "." + q + "." + r + "." + t
  {
    hide Join;
    JoinCons(p, [q, r, t], '.');
    JoinCons(q, [r, t], '.');
    JoinCons(r, [t], '.');
    JoinOne(t, '.');
    assert [p] + [q, r, t] == [p, q, r, t] && [q] + [r, t] == [q, r, t] && [r] + [t] == [r, t];
    assert p + ['.'] + (q + ['.'] + (r + ['.'] + t)) == p + "." + q + "." + r + "." + t;
  }

  /** A text is an IPv4 address if and only if it is four octets with dots between them, and it is theirs, the first the
      highest. */
  lemma {:induction false} QuadLanguage(s: string, v: nat)
    ensures Quad(s) == Some(v)
            <==> exists p, q, r, t ::
                   QuadParts(s, p, q, r, t)
                   && v == DecValue(p) * 0x100_0000 + DecValue(q) * 0x1_0000 + DecValue(r) * 0x100 + DecValue(t)
  {
    hide Quad, DecValue;
    forall p, q, r, t | QuadParts(s, p, q, r, t)
      ensures Quad(s) == Some(DecValue(p) * 0x100_0000 + DecValue(q) * 0x1_0000 + DecValue(r) * 0x100 + DecValue(t))
    {
      QuadRead(s, p, q, r, t);
    }
    if Quad(s) == Some(v) {
      var p, q, r, t := QuadSplit(s);
      QuadRead(s, p, q, r, t);
    }
  }

  lemma {:induction false} QuadRead(s: string, p: string, q: string, r: string, t: string)
    requires QuadParts(s, p, q, r, t)
    ensures Quad(s) == Some(DecValue(p) * 0x100_0000 + DecValue(q) * 0x1_0000 + DecValue(r) * 0x100 + DecValue(t))
  {
    hide Quad, DecValue, Octet;
    OctetNoDot(p);
    OctetNoDot(q);
    OctetNoDot(r);
    OctetNoDot(t);
    FourJoined(p, q, r, t);
    CombineFour(p, q, r, t);
  }

  lemma {:induction false} QuadSplit(s: string) returns (p: string, q: string, r: string, t: string)
    requires Quad(s).Some?
    ensures QuadParts(s, p, q, r, t)
  {
    hide DecValue, Split, Join, Octet, IsOctet;
    var ps := Split(s, '.');
    JoinSplit(s, '.');
    p, q, r, t := ps[0], ps[1], ps[2], ps[3];
    assert ps == [p, q, r, t];
    FourJoined(p, q, r, t);
    OctetNoDot(p);
    OctetNoDot(q);
    OctetNoDot(r);
    OctetNoDot(t);
  }

  // ----- spans of groups -----

  /** Hexadecimal digits, at least one, of at most 0xFFFF. */
  predicate Group(p: string, v: nat) {
    p != "" && AllHex(p) && HexValue(p) == v && v <= 0xFFFF
  }

  /** Groups, then perhaps a dotted quad of at most 15 characters, and the bytes they are. */
  predicate Denotes(ps: seq<string>, bytes: Bytes)
    decreases |ps|
  {
    if ps == [] then bytes == []
    else if '.' in ps[0] then
      |ps| == 1 && |ps[0]| <= 15 && ':' !in ps[0] && |bytes| == 4
      && Quad(ps[0]) == Some(bytes[0] * 0x100_0000 + bytes[1] * 0x1_0000 + bytes[2] * 0x100 + bytes[3])
      && forall i | 0 <= i < 4 :: bytes[i] < 256
    else
      |bytes| >= 2 && bytes[0] < 256 && bytes[1] < 256 && Group(ps[0], bytes[0] * 256 + bytes[1])
      && Denotes(ps[1..], bytes[2..])
  }

  lemma {:induction false} HexHasNoColon(p: string)
    requires AllHex(p)
    ensures ':' !in p && '.' !in p
  {
    HexPlain(p);
  }

  /** The four bytes of a 32-bit number are the ones it is made of. */
  lemma {:induction false} QuadBytesAre(q: nat, bytes: Bytes)
    requires q < 0x1_0000_0000 && |bytes| == 4
    ensures QuadBytes(q) == bytes
            <==> (forall i | 0 <= i < 4 :: bytes[i] < 256)
                 && q == bytes[0] * 0x100_0000 + bytes[1] * 0x1_0000 + bytes[2] * 0x100 + bytes[3]
  {
    var b := QuadBytes(q);
    QuadMade(q);
    if (forall i | 0 <= i < 4 :: bytes[i] < 256)
       && q == bytes[0] * 0x100_0000 + bytes[1] * 0x1_0000 + bytes[2] * 0x100 + bytes[3]
    {
      QuadOnce(b[0], b[1], b[2], b[3], bytes[0], bytes[1], bytes[2], bytes[3]);
      assert b == bytes;
    }
  }

  lemma {:induction false} QuadMade(q: nat)
    requires q < 0x1_0000_0000
    ensures var b := QuadBytes(q);
            && |b| == 4 && b[0] < 256 && b[1] < 256 && b[2] < 256 && b[3] < 256
            && q == b[0] * 0x100_0000 + b[1] * 0x1_0000 + b[2] * 0x100 + b[3]
  {
    var x, y := q / 0x1_0000, q / 256;
    assert x / 256 == q / 0x100_0000;
    assert y / 256 == x;
  }

  /** Four digits to the base 256 are told by the number. */
  lemma {:induction false} QuadOnce(a: nat, b: nat, c: nat, d: nat, e: nat, f: nat, g: nat, h: nat)
    requires b < 256 && c < 256 && d < 256 && f < 256 && g < 256 && h < 256
    requires a * 0x100_0000 + b * 0x1_0000 + c * 0x100 + d == e * 0x100_0000 + f * 0x1_0000 + g * 0x100 + h
    ensures a == e && b == f && c == g && d == h
  {
  }

  lemma {:induction false} GroupBytesAre(v: nat, bytes: Bytes)
    requires v <= 0xFFFF && |bytes| == 2
    ensures GroupBytes(v) == bytes <==> bytes[0] < 256 && bytes[1] < 256 && v == bytes[0] * 256 + bytes[1]
  {
    assert v == v / 256 * 256 + v % 256;
  }

  lemma {:induction false} QuadBelow(s: string)
    requires Quad(s).Some?
    ensures Quad(s).value < 0x1_0000_0000
  {
    hide Quad, DecValue;
    var p, q, r, t := QuadSplit(s);
    QuadRead(s, p, q, r, t);
  }

  /** The parser's reading of pieces is what they denote. */
  lemma {:induction false} PiecesDenote(ps: seq<string>, bytes: Bytes)
    requires NoneHas(ps, ':')
    ensures PiecesBytes(ps) == Some(bytes) <==> Denotes(ps, bytes)
    decreases |ps|
  {
    hide Quad, QuadBytes, GroupBytes, HexValue;
    if ps != [] {
      var p, more := ps[0], ps[1..];
      assert ':' !in p && NoneHas(more, ':');
      if '.' in p {
        QuadDenotes(ps, bytes);
      } else if IsGroup(p) {
        if |bytes| >= 2 { PiecesDenote(more, bytes[2..]); }
        GroupDenotes(ps, bytes);
      }
    }
  }

  lemma {:induction false} QuadDenotes(ps: seq<string>, bytes: Bytes)
    requires ps != [] && '.' in ps[0] && ':' !in ps[0]
    ensures PiecesBytes(ps) == Some(bytes) <==> Denotes(ps, bytes)
  {
    hide Quad, QuadBytes;
    var p := ps[0];
    if |ps| == 1 && |p| < 16 && Quad(p).Some? {
      var q := Quad(p).value;
      QuadBelow(p);
      FourBytes(q);
      if |bytes| == 4 { QuadBytesAre(q, bytes); }
      assert ps[1..] == [] && QuadBytes(q) + [] == QuadBytes(q);
    }
  }

  lemma {:induction false} GroupDenotes(ps: seq<string>, bytes: Bytes)
    requires ps != [] && '.' !in ps[0] && IsGroup(ps[0])
    requires |bytes| >= 2 ==> (PiecesBytes(ps[1..]) == Some(bytes[2..]) <==> Denotes(ps[1..], bytes[2..]))
    ensures PiecesBytes(ps) == Some(bytes) <==> Denotes(ps, bytes)
  {
    hide GroupBytes, HexValue;
    var g, rest := GroupBytes(HexValue(ps[0])), PiecesBytes(ps[1..]);
    TwoBytes(HexValue(ps[0]));
    assert PiecesBytes(ps) == if rest.None? then None else Some(g + rest.value);
    if |bytes| >= 2 {
      GroupBytesAre(HexValue(ps[0]), bytes[..2]);
      assert bytes == bytes[..2] + bytes[2..];
      if rest.Some? { assert g + rest.value == bytes <==> g == bytes[..2] && rest.value == bytes[2..] by { Parts(g, rest.value, bytes); } }
    }
  }

  lemma {:induction false} Parts(a: Bytes, b: Bytes, bytes: Bytes)
    requires |a| == 2 && |bytes| >= 2
    ensures a + b == bytes <==> a == bytes[..2] && b == bytes[2..]
  {
    assert bytes == bytes[..2] + bytes[2..];
    if a + b == bytes { assert (a + b)[..2] == a && (a + b)[2..] == b; }
  }

  lemma {:induction false} FourBytes(q: nat)
    ensures |QuadBytes(q)| == 4
  {
  }

  lemma {:induction false} TwoBytes(v: nat)
    ensures |GroupBytes(v)| == 2
  {
  }

  // ----- addresses -----

  /** A span as it is written: pieces without colons, none empty, joined by colons. */
  predicate Written(s: string, ps: seq<string>, bytes: Bytes) {
    s == Join(ps, ':') && NoneHas(ps, ':') && (forall i | 0 <= i < |ps| :: ps[i] != "") && Denotes(ps, bytes)
  }

  /** Eight groups, or six and a dotted quad. */
  predicate WrittenFull(s: string, ps: seq<string>, bytes: Bytes) {
    Written(s, ps, bytes) && |bytes| == 16
  }

  /** Two spans, either may be empty, with two colons between them and zeros to fill up, perhaps none. */
  predicate WrittenShort(s: string, h: string, hs: seq<string>, t: string, ts: seq<string>, hb: Bytes, tb: Bytes, bytes: Bytes) {
    && s == h + "::" + t && Written(h, hs, hb) && Written(t, ts, tb)
    && |hb| <= 14 && |hb| + |tb| <= 16 && bytes == hb + Zeros(16 - |hb| - |tb|) + tb
  }

  lemma {:induction false} WrittenPiecesOf(s: string, ps: seq<string>, bytes: Bytes)
    requires Written(s, ps, bytes) && |bytes| <= 16
    ensures Pieces(ps, bytes)
  {
    PiecesDenote(ps, bytes);
  }

  /** What a span that is read is written as. */
  lemma {:induction false} SpanWritten(s: string) returns (ps: seq<string>)
    requires Span(s).Some?
    ensures Written(s, ps, Span(s).value) && |Span(s).value| <= 16
  {
    hide Split, Join, PiecesBytes;
    if s == "" {
      ps := [];
      assert Join([], ':') == "" by { NothingJoined(); }
    } else {
      ps := Split(s, ':');
      JoinSplit(s, ':');
      PiecesDenote(ps, Span(s).value);
      NoneEmpty(ps);
    }
  }

  lemma {:induction false} NothingJoined()
    ensures Join([], ':') == ""
  {
  }

  lemma {:induction false} NoneEmpty(ps: seq<string>)
    requires PiecesBytes(ps).Some?
    ensures forall i | 0 <= i < |ps| :: ps[i] != ""
    decreases |ps|
  {
    hide Quad, HexValue, QuadBytes, GroupBytes;
    if ps != [] {
      NoneEmpty(ps[1..]);
      assert ps[0] != "";
      forall i | 0 <= i < |ps| ensures ps[i] != "" { assert i > 0 ==> ps[i] == ps[1..][i - 1]; }
    }
  }

  /** A text is an IPv6 address if and only if it is written in full, or with two colons once, and it is that address. */
  lemma {:induction false} AddressLanguage(s: string, bytes: Bytes)
    ensures Address6(s) == Some(bytes)
            <==> (exists ps :: WrittenFull(s, ps, bytes))
                 || (exists h, hs, t, ts, hb, tb :: WrittenShort(s, h, hs, t, ts, hb, tb, bytes))
  {
    hide Written, Address6;
    forall ps | WrittenFull(s, ps, bytes) ensures Address6(s) == Some(bytes) {
      WrittenPiecesOf(s, ps, bytes);
      assert s == Join(ps, ':') by { WrittenIs(s, ps, bytes); }
      FullPieces(ps, bytes);
    }
    forall h, hs, t, ts, hb, tb | WrittenShort(s, h, hs, t, ts, hb, tb, bytes) ensures Address6(s) == Some(bytes) {
      WrittenPiecesOf(h, hs, hb);
      WrittenPiecesOf(t, ts, tb);
      WrittenIs(h, hs, hb);
      WrittenIs(t, ts, tb);
      CompressedPieces(hs, ts, hb, tb);
    }
    if Address6(s) == Some(bytes) { AddressWritten(s, bytes); }
  }

  lemma {:induction false} WrittenIs(s: string, ps: seq<string>, bytes: Bytes)
    requires Written(s, ps, bytes)
    ensures s == Join(ps, ':')
  {
  }

  lemma {:induction false} AddressWritten(s: string, bytes: Bytes)
    requires Address6(s) == Some(bytes)
    ensures (exists ps :: WrittenFull(s, ps, bytes))
            || (exists h, hs, t, ts, hb, tb :: WrittenShort(s, h, hs, t, ts, hb, tb, bytes))
  {
    hide Span, Written;
    var i := FindDouble(s);
    if i == |s| {
      var ps := SpanWritten(s);
      assert WrittenFull(s, ps, bytes);
    } else {
      var h, t := s[..i], s[i + 2..];
      var hs := SpanWritten(h);
      var ts := SpanWritten(t);
      assert s == h + "::" + t;
      assert WrittenShort(s, h, hs, t, ts, Span(h).value, Span(t).value, bytes);
    }
  }

  /** So two colons may stand for no zeros at all, which section 2.2 of RFC 4291 does not have. */
  lemma {:induction false} NoZerosAccepted(groups: seq<nat>, texts: seq<string>)
    requires IsAddress(groups) && AllWrite(texts, groups)
    ensures Address6(Join(texts[..7], ':') + "::" + Join(texts[7..], ':')) == Some(GroupsBytes(groups))
  {
    hide Writes, GroupsBytes, Address6, PiecesBytes, Join;
    var hg, tg := groups[..7], groups[7..];
    WrittenPieces(texts[..7], hg);
    WrittenPieces(texts[7..], tg);
    CompressedPieces(texts[..7], texts[7..], GroupsBytes(hg), GroupsBytes(tg));
    GroupsConcat(hg, tg);
    assert hg + tg == groups;
    var hb, tb := GroupsBytes(hg), GroupsBytes(tg);
    assert hb + Zeros(0) + tb == hb + tb;
  }

  /** No text is an address of both families, so the colon the parser looks for first decides nothing by itself. */
  lemma {:induction false} ParseLanguage(s: string, v: nat, bytes: Bytes)
    ensures Parse(s) == Some(V4(v)) <==> Quad(s) == Some(v)
    ensures Parse(s) == Some(V6(bytes)) <==> Address6(s) == Some(bytes)
  {
    hide Quad, Address6, DecValue;
    if ':' in s && Quad(s).Some? {
      var p, q, r, t := QuadSplit(s);
      OctetNoDot(p);
      OctetNoDot(q);
      OctetNoDot(r);
      OctetNoDot(t);
    }
    if ':' !in s { OnePiece(s); }
  }

  lemma {:induction false} OnePiece(s: string)
    requires ':' !in s
    ensures Address6(s).None?
  {
    hide Quad, QuadBytes, HexValue, GroupBytes;
    SplitWhole(s, ':');
    assert FindDouble(s) == |s|;
    assert [s][1..] == [];
    var r := PieceBytes(s, true);
    if r.Some? {
      assert |r.value| <= 4 by {
        if '.' in s { FourBytes(Quad(s).value); } else { TwoBytes(HexValue(s)); }
      }
      assert PiecesBytes([s]) == Some(r.value + []);
    }
  }
}
