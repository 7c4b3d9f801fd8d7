/** IPv6 parsing inverts printing, as in section 2.2 of RFC 4291.

    Three forms are printed: eight groups, the same with one run of zero groups compressed, and six groups
    with a dotted quad. Dotted quads alone are the IPv4 form. */
module KynxAddressProofs {
  import opened Basics
  import opened Digits
  import opened Texts
  import opened KynxAddress

  /** `p` writes the 16-bit group `v`: one to four hexadecimal digits of either case. */
  predicate Writes(p: string, v: nat) {
    1 <= |p| <= 4 && AllHex(p) && HexValue(p) == v
  }

  /** The shortest lower-case text of a group. */
  function GroupText(v: nat): string
    requires v < 0x1_0000
  {
    if v < 16 then [HexDigit(v)]
    else if v < 256 then [HexDigit(v / 16), HexDigit(v % 16)]
    else if v < 4096 then [HexDigit(v / 256), HexDigit(v / 16 % 16), HexDigit(v % 16)]
    else [HexDigit(v / 4096), HexDigit(v / 256 % 16), HexDigit(v / 16 % 16), HexDigit(v % 16)]
  }

  lemma {:induction false} HexCons(s: string, d: nat)
    requires AllHex(s) && d < 16
    ensures AllHex(s + [HexDigit(d)]) && HexValue(s + [HexDigit(d)]) == HexValue(s) * 16 + d
  {
    HexSnoc(s, HexDigit(d));
  }

  lemma {:induction false} TwoDigits(a: nat, b: nat)
    requires a < 16 && b < 16
    ensures AllHex([HexDigit(a)]) && HexValue([HexDigit(a)]) == a
    ensures AllHex([HexDigit(a), HexDigit(b)]) && HexValue([HexDigit(a), HexDigit(b)]) == a * 16 + b
  {
    hide HexValue, AllHex, HexDigit;
    EmptyHex();
    HexCons("", a);
    HexCons([HexDigit(a)], b);
    assert "" + [HexDigit(a)] == [HexDigit(a)];
    assert [HexDigit(a)] + [HexDigit(b)] == [HexDigit(a), HexDigit(b)];
  }

  lemma {:induction false} FourDigits(a: nat, b: nat, c: nat, d: nat)
    requires a < 16 && b < 16 && c < 16 && d < 16
    ensures var three := [HexDigit(a), HexDigit(b), HexDigit(c)];
            AllHex(three) && HexValue(three) == (a * 16 + b) * 16 + c
    ensures var four := [HexDigit(a), HexDigit(b), HexDigit(c), HexDigit(d)];
            AllHex(four) && HexValue(four) == ((a * 16 + b) * 16 + c) * 16 + d
  {
    hide HexValue, AllHex, HexDigit;
    TwoDigits(a, b);
    HexCons([HexDigit(a), HexDigit(b)], c);
    HexCons([HexDigit(a), HexDigit(b), HexDigit(c)], d);
    assert [HexDigit(a), HexDigit(b)] + [HexDigit(c)] == [HexDigit(a), HexDigit(b), HexDigit(c)];
    assert [HexDigit(a), HexDigit(b), HexDigit(c)] + [HexDigit(d)] == [HexDigit(a), HexDigit(b), HexDigit(c), HexDigit(d)];
  }

  lemma {:induction false} HexParts(v: nat)
    requires v < 0x1_0000
    ensures v == v / 16 * 16 + v % 16
    ensures v / 16 == v / 256 * 16 + v / 16 % 16
    ensures v / 256 == v / 4096 * 16 + v / 256 % 16
    ensures v < 16 ==> v % 16 == v
    ensures v < 256 ==> v / 16 < 16
    ensures v < 4096 ==> v / 256 < 16
    ensures v / 4096 < 16
  {
  }

  lemma {:induction false} GroupTextWrites(v: nat)
    requires v < 0x1_0000
    ensures Writes(GroupText(v), v)
  {
    hide HexValue, AllHex, HexDigit;
    HexParts(v);
    if v < 256 {
      TwoDigits(if v < 16 then v else v / 16, v % 16);
    } else if v < 4096 {
      FourDigits(v / 256, v / 16 % 16, v % 16, 0);
    } else {
      FourDigits(v / 4096, v / 256 % 16, v / 16 % 16, v % 16);
    }
  }

  lemma {:induction false} EmptyHex()
    ensures AllHex("") && HexValue("") == 0
  {
  }

  predicate AllWrite(ps: seq<string>, groups: seq<nat>) {
    |ps| == |groups| && forall i | 0 <= i < |ps| :: Writes(ps[i], groups[i])
  }

  function GroupsBytes(groups: seq<nat>): (b: Bytes)
    ensures |b| == 2 * |groups|
  {
    if groups == [] then [] else GroupBytes(groups[0]) + GroupsBytes(groups[1..])
  }

  lemma {:induction false} GroupsConcat(a: seq<nat>, b: seq<nat>)
    ensures GroupsBytes(a + b) == GroupsBytes(a) + GroupsBytes(b)
  {
    if a == [] {
      assert a + b == b;
    } else {
      assert (a + b)[1..] == a[1..] + b;
      GroupsConcat(a[1..], b);
    }
  }

  lemma {:induction false} ZeroGroups(groups: seq<nat>)
    requires forall i | 0 <= i < |groups| :: groups[i] == 0
    ensures GroupsBytes(groups) == Zeros(2 * |groups|)
  {
    if groups != [] {
      ZeroGroups(groups[1..]);
      assert Zeros(2 * |groups|) == [0, 0] + Zeros(2 * |groups| - 2);
    }
  }

  /** Hex digits are neither separators nor dots. */
  lemma {:induction false} HexPlain(p: string)
    requires AllHex(p)
    ensures ':' !in p && '.' !in p
  {
  }

  lemma {:induction false} WrittenPiece(p: string, v: nat, last: bool)
    requires Writes(p, v) && v < 0x1_0000
    ensures PieceBytes(p, last) == Some(GroupBytes(v)) && ':' !in p && p != ""
  {
    HexPlain(p);
  }

  /** Pieces that denote bytes, none empty and none with a colon, so that their joined text is a span. */
  predicate Pieces(ps: seq<string>, bytes: Bytes) {
    && PiecesBytes(ps) == Some(bytes) && |bytes| <= 16
    && NoneHas(ps, ':') && forall i | 0 <= i < |ps| :: ps[i] != ""
  }

  lemma {:induction false} WrittenPieces(ps: seq<string>, groups: seq<nat>)
    requires AllWrite(ps, groups) && forall i | 0 <= i < |groups| :: groups[i] < 0x1_0000
    ensures PiecesBytes(ps) == Some(GroupsBytes(groups))
    ensures NoneHas(ps, ':') && forall i | 0 <= i < |ps| :: ps[i] != ""
  {
    hide Writes, PieceBytes;
    forall i | 0 <= i < |ps| ensures ':' !in ps[i] && ps[i] != "" { WrittenPiece(ps[i], groups[i], false); }
    if ps != [] {
      WrittenPiece(ps[0], groups[0], |ps| == 1);
      WrittenPieces(ps[1..], groups[1..]);
    }
  }

  lemma {:induction false} SpanOfPieces(ps: seq<string>, bytes: Bytes)
    requires Pieces(ps, bytes)
    ensures Span(Join(ps, ':')) == Some(bytes)
  {
    if ps != [] {
      SplitJoin(ps, ':');
      JoinShape(ps);
    }
  }

  predicate NoDouble(s: string) {
    forall k | 0 <= k && k + 1 < |s| :: !(s[k] == ':' && s[k + 1] == ':')
  }

  /** A joined span has no "::" and neither starts nor ends with a colon. */
  lemma {:induction false} JoinShape(ps: seq<string>)
    requires NoneHas(ps, ':') && forall i | 0 <= i < |ps| :: ps[i] != ""
    ensures ps != [] ==> Join(ps, ':') != ""
    ensures NoDouble(Join(ps, ':'))
    ensures Join(ps, ':') != "" ==> Join(ps, ':')[0] != ':' && Join(ps, ':')[|Join(ps, ':')| - 1] != ':'
  {
    if |ps| == 1 {
      assert ps[0][0] in ps[0] && ps[0][|ps[0]| - 1] in ps[0];
      forall k | 0 <= k < |ps[0]| ensures ps[0][k] != ':' { assert ps[0][k] in ps[0]; }
    } else if |ps| > 1 {
      JoinShape(ps[1..]);
      var p, rest := ps[0], Join(ps[1..], ':');
      var all := p + [':'] + rest;
      forall k | 0 <= k < |p| ensures p[k] != ':' { assert p[k] in p; }
      forall k | 0 <= k && k + 1 < |all| ensures !(all[k] == ':' && all[k + 1] == ':') {
        if k > |p| { assert all[k] == rest[k - |p| - 1] && all[k + 1] == rest[k - |p|]; }
      }
    }
  }

  lemma {:induction false} FindDoubleNone(s: string)
    requires NoDouble(s)
    ensures FindDouble(s) == |s|
  {
  }

  lemma {:induction false} FindDoubleAt(h: string, t: string)
    requires NoDouble(h) && (h != "" ==> h[|h| - 1] != ':')
    ensures FindDouble(h + "::" + t) == |h|
  {
    var s := h + "::" + t;
    var i := FindDouble(s);
    assert s[|h|] == ':' && s[|h| + 1] == ':';
    assert forall k | 0 <= k < |h| :: s[k] == h[k];
  }

  /** Any span of pieces on both sides of "::" parses to its bytes with zeros in between. */
  lemma {:induction false} CompressedPieces(hs: seq<string>, ts: seq<string>, hb: Bytes, tb: Bytes)
    requires Pieces(hs, hb) && Pieces(ts, tb) && |hb| + |tb| <= 16 && |hb| <= 14
    ensures Address6(Join(hs, ':') + "::" + Join(ts, ':')) == Some(hb + Zeros(16 - |hb| - |tb|) + tb)
  {
    hide Span;
    var h, t := Join(hs, ':'), Join(ts, ':');
    var s := h + "::" + t;
    JoinShape(hs);
    JoinShape(ts);
    SpanOfPieces(hs, hb);
    SpanOfPieces(ts, tb);
    FindDoubleAt(h, t);
    FindDoubleNone(t);
    assert s[..|h|] == h && s[|h| + 2..] == t;
  }

  lemma {:induction false} FullPieces(ps: seq<string>, bytes: Bytes)
    requires Pieces(ps, bytes) && |bytes| == 16
    ensures Address6(Join(ps, ':')) == Some(bytes)
  {
    hide Span;
    JoinShape(ps);
    SpanOfPieces(ps, bytes);
    FindDoubleNone(Join(ps, ':'));
    assert PiecesBytes([]) == Some([]);
  }

  /** An address: eight 16-bit groups. */
  predicate IsAddress(groups: seq<nat>) {
    |groups| == 8 && forall i | 0 <= i < 8 :: groups[i] < 0x1_0000
  }

  /** The full form of any address, in any choice of digits, parses to its 16 bytes. */
  lemma {:induction false} FullFormParses(groups: seq<nat>, texts: seq<string>)
    requires IsAddress(groups) && AllWrite(texts, groups)
    ensures Address6(Join(texts, ':')) == Some(GroupsBytes(groups))
  {
    WrittenPieces(texts, groups);
    FullPieces(texts, GroupsBytes(groups));
  }

  /** Compressing any non-empty run of zero groups, wherever it lies, still parses to the same 16 bytes. */
  lemma {:induction false} CompressedFormParses(groups: seq<nat>, texts: seq<string>, i: nat, j: nat)
    requires IsAddress(groups) && AllWrite(texts, groups)
    requires i < j <= 8 && forall k | i <= k < j :: groups[k] == 0
    ensures Address6(Join(texts[..i], ':') + "::" + Join(texts[j..], ':')) == Some(GroupsBytes(groups))
  {
    hide Writes, GroupsBytes, Address6, PiecesBytes, Join;
    var hg, zg, tg := groups[..i], groups[i..j], groups[j..];
    WrittenPieces(texts[..i], hg);
    WrittenPieces(texts[j..], tg);
    CompressedPieces(texts[..i], texts[j..], GroupsBytes(hg), GroupsBytes(tg));
    ZeroGroups(zg);
    GroupsConcat(hg, zg);
    GroupsConcat(hg + zg, tg);
    assert hg + zg + tg == groups;
  }

  /** The canonical text, full or compressed, parses back to the address. */
  lemma {:induction false} PrintedFormParses(groups: seq<nat>, i: nat, j: nat)
    requires IsAddress(groups) && i < j <= 8 && forall k | i <= k < j :: groups[k] == 0
    ensures var texts := seq(8, k requires 0 <= k < 8 => GroupText(groups[k]));
            && Address6(Join(texts, ':')) == Some(GroupsBytes(groups))
            && Address6(Join(texts[..i], ':') + "::" + Join(texts[j..], ':')) == Some(GroupsBytes(groups))
  {
    var texts := seq(8, k requires 0 <= k < 8 => GroupText(groups[k]));
    forall k | 0 <= k < 8 ensures Writes(texts[k], groups[k]) { GroupTextWrites(groups[k]); }
    FullFormParses(groups, texts);
    CompressedFormParses(groups, texts, i, j);
  }

  /** The mixed form x:x:x:x:x:x:d.d.d.d: the last 32 bits written as a dotted quad. */
  lemma {:induction false} MixedFormParses(groups: seq<nat>, texts: seq<string>, quad: string)
    requires |groups| == 6 && AllWrite(texts, groups) && forall i | 0 <= i < 6 :: groups[i] < 0x1_0000
    requires Quad(quad).Some? && |quad| < 16 && '.' in quad && ':' !in quad
    ensures Address6(Join(texts + [quad], ':')) == Some(GroupsBytes(groups) + QuadBytes(Quad(quad).value))
  {
    var bytes := GroupsBytes(groups) + QuadBytes(Quad(quad).value);
    MixedPieces(texts, groups, quad);
    FullPieces(texts + [quad], bytes);
  }

  lemma {:induction false} MixedPieces(texts: seq<string>, groups: seq<nat>, quad: string)
    requires |groups| <= 6 && AllWrite(texts, groups) && forall i | 0 <= i < |groups| :: groups[i] < 0x1_0000
    requires Quad(quad).Some? && |quad| < 16 && '.' in quad && ':' !in quad
    ensures Pieces(texts + [quad], GroupsBytes(groups) + QuadBytes(Quad(quad).value))
    decreases |texts|
  {
    hide Quad, Writes, PieceBytes;
    var ps := texts + [quad];
    assert PieceBytes(quad, true) == Some(QuadBytes(Quad(quad).value)) by { QuadPiece(quad); }
    if texts == [] {
      assert ps == [quad] && ps[1..] == [];
      assert PiecesBytes([]) == Some([]);
      assert QuadBytes(Quad(quad).value) + [] == GroupsBytes(groups) + QuadBytes(Quad(quad).value);
    } else {
      MixedPieces(texts[1..], groups[1..], quad);
      assert ps[1..] == texts[1..] + [quad];
      WrittenPiece(texts[0], groups[0], false);
      forall k | 0 <= k < |ps| ensures ':' !in ps[k] && ps[k] != "" { if k > 0 { assert ps[k] == ps[1..][k - 1]; } }
      assert GroupsBytes(groups) + QuadBytes(Quad(quad).value)
          == GroupBytes(groups[0]) + (GroupsBytes(groups[1..]) + QuadBytes(Quad(quad).value));
    }
  }

  lemma {:induction false} QuadPiece(quad: string)
    requires Quad(quad).Some? && |quad| < 16 && '.' in quad
    ensures PieceBytes(quad, true) == Some(QuadBytes(Quad(quad).value)) && quad != ""
  {
  }

  // ----- dotted quads -----

  lemma {:induction false} CombineFour(p: string, q: string, r: string, t: string)
    requires IsOctet(p) && IsOctet(q) && IsOctet(r) && IsOctet(t)
    requires NoneHas([p, q, r, t], '.')
    ensures Quad(Join([p, q, r, t], '.'))
            == Some(DecValue(p) * 0x100_0000 + DecValue(q) * 0x1_0000 + DecValue(r) * 0x100 + DecValue(t))
  {
    hide DecValue, IsOctet, Join, NoneHas;
    var ps := [p, q, r, t];
    SplitJoin(ps, '.');
    OctetDigits(p);
    OctetDigits(q);
    OctetDigits(r);
    OctetDigits(t);
    CombineStep(0, p, [q, r, t]);
    CombineStep(DecValue(p), q, [r, t]);
    CombineStep(DecValue(p) * 256 + DecValue(q), r, [t]);
    CombineStep((DecValue(p) * 256 + DecValue(q)) * 256 + DecValue(r), t, []);
    assert [p] + [q, r, t] == ps && [q] + [r, t] == [q, r, t] && [r] + [t] == [r, t] && [t] + [] == [t];
  }

  lemma {:induction false} CombineStep(val: nat, p: string, ps: seq<string>)
    requires IsOctet(p) && forall i | 0 <= i < |ps| :: IsOctet(ps[i])
    ensures AllDigits(p) && forall i | 0 <= i < |[p] + ps| :: IsOctet(([p] + ps)[i])
    ensures Combine(val, [p] + ps) == Combine(val * 256 + DecValue(p), ps)
    ensures ps == [] ==> Combine(val, ps) == val
  {
    assert ([p] + ps)[1..] == ps;
  }

  /** Four octets in decimal parse to the 32-bit address with the first in the high byte. */
  lemma {:induction false} QuadFormParses(a: nat, b: nat, c: nat, d: nat)
    requires a < 256 && b < 256 && c < 256 && d < 256
    ensures Quad(Join([DecText(a), DecText(b), DecText(c), DecText(d)], '.'))
            == Some(a * 0x100_0000 + b * 0x1_0000 + c * 0x100 + d)
  {
    hide DecText, DecValue, AllDigits, Quad, Join;
    OctetText(a);
    OctetText(b);
    OctetText(c);
    OctetText(d);
    CombineFour(DecText(a), DecText(b), DecText(c), DecText(d));
  }

  lemma {:induction false} OctetText(n: nat)
    requires n < 256
    ensures IsOctet(DecText(n)) && '.' !in DecText(n) && AllDigits(DecText(n)) && DecValue(DecText(n)) == n
  {
    DecTextValue(n);
  }

  /** An empty octet is read as 0, so three dots alone are an address. */
  lemma {:induction false} EmptyOctetsAccepted()
    ensures Quad("...") == Some(0)
  {
    hide Quad, Join;
    CombineFour("", "", "", "");
    JoinCons("", ["", "", ""], '.');
    JoinCons("", ["", ""], '.');
    JoinCons("", [""], '.');
    JoinOne("", '.');
    assert [""] + ["", "", ""] == ["", "", "", ""] && [""] + ["", ""] == ["", "", ""] && [""] + [""] == ["", ""];
    assert "" + ['.'] + ("" + ['.'] + ("" + ['.'] + "")) == "...";
  }
}
