/** runtime/kynx.c: when an address lies in a network.

    A network is an address and a prefix length. The code compares whole bytes and then one byte under a
    mask; what it means is that the first bits agree, and the two are proved to be the same. */
module KynxNetworks {
  import opened Digits
  import opened Numbers
  import opened Texts
  import opened KynxTypes
  import opened KynxAddress

  datatype Net = Net(ip: IP, prefix: int)

  function Width(ip: IP): nat {
    if ip.V4? then 32 else 128
  }

  /** The address as bytes, most significant first. */
  function AddressBytes(ip: IP): Bytes {
    match ip
    case NoIp => []
    case V4(bits) => QuadBytes(bits)
    case V6(bytes) => bytes
  }

  predicate AllBytes(b: Bytes) {
    forall i | 0 <= i < |b| :: b[i] < 256
  }

  /** The address came from a parser: 32 bits, or 16 bytes. */
  predicate Stored(ip: IP) {
    match ip
    case NoIp => false
    case V4(bits) => bits < 0x1_0000_0000
    case V6(bytes) => |bytes| == 16 && AllBytes(bytes)
  }

  function Pow2(n: nat): (p: nat)
    ensures p > 0
  {
    if n == 0 then 1 else 2 * Pow2(n - 1)
  }

  /** `x` shifted right by `m`. */
  function Shifted(x: nat, m: nat): nat {
    Quotient(x, Pow2(m))
  }

  /** A byte with all but its `rem` high bits cleared. */
  function Masked(x: nat, rem: nat): nat
    requires rem < 8
  {
    Shifted(x, 8 - rem) * Pow2(8 - rem)
  }

  /** Bit `j` of a byte, counted from the most significant. */
  function ByteBit(x: nat, j: nat): nat
    requires j < 8
  {
    Shifted(x, 7 - j) % 2
  }

  /** Bit `k` of a byte string, counted from the most significant. */
  function Bit(b: Bytes, k: nat): nat
    requires k < 8 * |b|
  {
    ByteBit(b[k / 8], k % 8)
  }

  function Clamp(prefix: int, total: nat): nat {
    if prefix < 0 then 0 else if prefix > total then total else prefix
  }

  predicate SameBits(a: Bytes, b: Bytes, n: nat)
    requires n <= 8 * |a| && n <= 8 * |b|
  {
    forall k: nat | k < n :: Bit(a, k) == Bit(b, k)
  }

  /** What being in a network means: same family and the same first `prefix` bits. */
  predicate InNet(ip: IP, net: Net)
    requires Stored(ip) && Stored(net.ip)
  {
    ip.V4? == net.ip.V4? &&
    assert 8 * |AddressBytes(ip)| == 8 * |AddressBytes(net.ip)| == Width(ip);
    SameBits(AddressBytes(ip), AddressBytes(net.ip), Clamp(net.prefix, Width(ip)))
  }

  // ----- bits of a byte -----

  lemma {:induction false} HalfShift(x: nat, m: nat)
    ensures Shifted(x, m + 1) == Shifted(x, m) / 2
  {
    var p := Pow2(m);
    assert Pow2(m + 1) == 2 * p;
    var q, h := Shifted(x, m), Shifted(x, m + 1);
    assert q * p <= x < q * p + p;
    assert h * (2 * p) <= x < h * (2 * p) + 2 * p;
    Between(q, h, p, x);
  }

  lemma {:induction false} Between(q: nat, h: nat, p: nat, x: nat)
    requires p > 0 && q * p <= x < q * p + p && h * (2 * p) <= x < h * (2 * p) + 2 * p
    ensures h == q / 2
  {
    assert (2 * h) * p < (q + 1) * p by { assert (2 * h) * p == h * (2 * p); }
    assert q * p < (2 * h + 2) * p by { assert (2 * h + 2) * p == h * (2 * p) + 2 * p; }
    Smaller(2 * h, q + 1, p);
    Smaller(q, 2 * h + 2, p);
  }

  lemma {:induction false} Smaller(a: nat, b: nat, p: nat)
    requires p > 0 && a * p < b * p
    ensures a < b
  {
    assert a >= b ==> (a - b) * p >= 0;
    assert (a - b) * p == a * p - b * p;
  }

  /** The high bits of two bytes agree exactly when one fewer agree and so does the next. */
  lemma {:induction false} HighBits(x: nat, y: nat, rem: nat)
    requires rem <= 8 && x < 256 && y < 256
    ensures Shifted(x, 8 - rem) == Shifted(y, 8 - rem) <==> forall j: nat | j < rem :: ByteBit(x, j) == ByteBit(y, j)
    decreases rem
  {
    if rem == 0 {
      ByteShiftedOut(x);
      ByteShiftedOut(y);
    } else {
      hide Shifted;
      HighBits(x, y, rem - 1);
      HalfShift(x, 8 - rem);
      HalfShift(y, 8 - rem);
      assert ByteBit(x, rem - 1) == Shifted(x, 8 - rem) % 2 && ByteBit(y, rem - 1) == Shifted(y, 8 - rem) % 2;
    }
  }

  lemma {:induction false} ByteShiftedOut(x: nat)
    requires x < 256
    ensures Shifted(x, 8) == 0 && Shifted(x, 0) == x
  {
    assert Pow2(8) == 2 * Pow2(7) && Pow2(7) == 2 * Pow2(6) && Pow2(6) == 2 * Pow2(5) && Pow2(5) == 2 * Pow2(4);
    assert Pow2(4) == 2 * Pow2(3) && Pow2(3) == 2 * Pow2(2) && Pow2(2) == 2 * Pow2(1) && Pow2(1) == 2 * Pow2(0);
    assert Pow2(8) == 256;
    var q := Shifted(x, 8);
    assert q * 256 <= x;
  }

  /** Two bytes agree above a mask exactly when their high bits agree. */
  lemma {:induction false} MaskedBits(x: nat, y: nat, rem: nat)
    requires rem < 8 && x < 256 && y < 256
    ensures Masked(x, rem) == Masked(y, rem) <==> forall j: nat | j < rem :: ByteBit(x, j) == ByteBit(y, j)
  {
    HighBits(x, y, rem);
    MulCancel(Shifted(x, 8 - rem), Shifted(y, 8 - rem), Pow2(8 - rem));
  }

  lemma {:induction false} MulCancel(a: nat, b: nat, p: nat)
    requires p > 0
    ensures a * p == b * p <==> a == b
  {
    assert (a - b) * p == a * p - b * p;
    assert a - b >= 1 ==> (a - b) * p >= p;
    assert a - b <= -1 ==> (a - b) * p <= -(p as int);
  }

  // ----- bits of a byte string -----

  lemma {:induction false} BitAt(b: Bytes, i: nat, j: nat)
    requires i < |b| && j < 8
    ensures Bit(b, 8 * i + j) == ByteBit(b[i], j)
  {
    assert (8 * i + j) / 8 == i && (8 * i + j) % 8 == j;
  }

  lemma {:induction false} LastByte(a: Bytes, b: Bytes, i: nat, rem: nat)
    requires rem < 8 && i < |a| && i < |b| && a[i] < 256 && b[i] < 256
    ensures Masked(a[i], rem) == Masked(b[i], rem)
            <==> forall k: nat | 8 * i <= k < 8 * i + rem :: Bit(a, k) == Bit(b, k)
  {
    hide Masked, Bit, ByteBit;
    MaskedBits(a[i], b[i], rem);
    if forall k: nat | 8 * i <= k < 8 * i + rem :: Bit(a, k) == Bit(b, k) {
      forall j: nat | j < rem ensures ByteBit(a[i], j) == ByteBit(b[i], j) {
        BitAt(a, i, j);
        BitAt(b, i, j);
        var k := 8 * i + j;
        assert Bit(a, k) == Bit(b, k);
      }
    } else {
      var k: nat :| 8 * i <= k < 8 * i + rem && Bit(a, k) != Bit(b, k);
      var j: nat := k - 8 * i;
      BitAt(a, i, j);
      BitAt(b, i, j);
      assert 8 * i + j == k;
      assert ByteBit(a[i], j) != ByteBit(b[i], j);
    }
  }

  /** Whole bytes agree exactly when all their bits do. */
  lemma {:induction false} FullBytes(a: Bytes, b: Bytes, full: nat)
    requires full <= |a| && full <= |b| && AllBytes(a) && AllBytes(b)
    ensures a[..full] == b[..full] <==> SameBits(a, b, 8 * full)
  {
    if SameBits(a, b, 8 * full) {
      forall i: nat | i < full ensures a[i] == b[i] {
        forall j: nat | j < 8 ensures ByteBit(a[i], j) == ByteBit(b[i], j) {
          BitAt(a, i, j);
          BitAt(b, i, j);
          assert Bit(a, 8 * i + j) == Bit(b, 8 * i + j);
        }
        HighBits(a[i], b[i], 8);
        ByteShiftedOut(a[i]);
        ByteShiftedOut(b[i]);
      }
    } else if a[..full] == b[..full] {
      forall k: nat | k < 8 * full ensures Bit(a, k) == Bit(b, k) {
        assert a[..full][k / 8] == a[k / 8] && b[..full][k / 8] == b[k / 8];
      }
    }
  }

  /** Comparing whole bytes and one masked byte compares exactly the first bits. */
  lemma {:induction false} PrefixBits(a: Bytes, b: Bytes, full: nat, rem: nat)
    requires |a| == |b| && rem < 8 && 8 * full + rem <= 8 * |a| && AllBytes(a) && AllBytes(b)
    ensures (a[..full] == b[..full] && (rem != 0 ==> Masked(a[full], rem) == Masked(b[full], rem)))
            <==> SameBits(a, b, 8 * full + rem)
  {
    hide Masked, Bit, Pow2;
    FullBytes(a, b, full);
    if rem != 0 {
      LastByte(a, b, full, rem);
    }
    if SameBits(a, b, 8 * full) && (rem != 0 ==> Masked(a[full], rem) == Masked(b[full], rem)) {
      forall k: nat | k < 8 * full + rem ensures Bit(a, k) == Bit(b, k) { }
    }
  }

  /** kynx_ip_in_net. */
  method IpInNet(ip: IP, net: Net) returns (r: bool)
    requires Stored(ip) && Stored(net.ip)
    ensures r == InNet(ip, net)
  {
    hide Masked, SameBits;
    if ip.V4? != net.ip.V4? { return false; }
    var total := if ip.V4? then 32 else 128;
    var prefix := net.prefix;
    if prefix < 0 { prefix := 0; }
    if prefix > total { prefix := total; }
    var a, b := AddressBytes(ip), AddressBytes(net.ip);
    StoredBytes(ip);
    StoredBytes(net.ip);
    var full, rem := prefix / 8, prefix % 8;
    PrefixBits(a, b, full, rem);
    if a[..full] != b[..full] { return false; }
    if rem != 0 {
      if Masked(a[full], rem) != Masked(b[full], rem) { return false; }
    }
    r := true;
  }

  lemma {:induction false} StoredBytes(ip: IP)
    requires Stored(ip)
    ensures 8 * |AddressBytes(ip)| == Width(ip) && AllBytes(AddressBytes(ip))
  {
  }

  // ----- what the parsers return is stored -----

  /** Parsed addresses are 32 bits or 16 bytes. */
  lemma {:induction false} ParsedIsStored(s: string)
    requires Parse(s).Some?
    ensures Stored(Parse(s).value)
  {
    if ':' in s {
      Address6Bytes(s);
    } else {
      QuadFits(s);
    }
  }

  lemma {:induction false} CombineFits(val: nat, ps: seq<string>, bound: nat)
    requires (forall i | 0 <= i < |ps| :: IsOctet(ps[i])) && val < bound
    ensures |ps| == 1 ==> Combine(val, ps) < bound * 0x100
    ensures |ps| == 2 ==> Combine(val, ps) < bound * 0x1_0000
    ensures |ps| == 3 ==> Combine(val, ps) < bound * 0x100_0000
    ensures |ps| == 4 ==> Combine(val, ps) < bound * 0x1_0000_0000
    decreases |ps|
  {
    if ps != [] {
      assert IsOctet(ps[0]);
      CombineFits(val * 256 + DecValue(ps[0]), ps[1..], bound * 256);
      if |ps| == 1 { assert ps[1..] == []; }
    }
  }

  lemma {:induction false} QuadFits(s: string)
    requires Quad(s).Some?
    ensures Quad(s).value < 0x1_0000_0000
  {
    CombineFits(0, Split(s, '.'), 1);
  }

  lemma {:induction false} PiecesAreBytes(ps: seq<string>)
    requires PiecesBytes(ps).Some?
    ensures AllBytes(PiecesBytes(ps).value)
  {
    hide Quad, IsGroup;
    if ps != [] {
      PiecesAreBytes(ps[1..]);
      if '.' in ps[0] {
        QuadFits(ps[0]);
      } else {
        GroupIsSmall(ps[0]);
      }
    }
  }

  lemma {:induction false} GroupIsSmall(p: string)
    requires IsGroup(p)
    ensures AllHex(p) && HexValue(p) <= 0xFFFF
  {
  }

  lemma {:induction false} Address6Bytes(s: string)
    requires Address6(s).Some?
    ensures |Address6(s).value| == 16 && AllBytes(Address6(s).value)
  {
    hide PiecesBytes, FindDouble;
    var i := FindDouble(s);
    if i == |s| {
      SpanIsBytes(s);
    } else {
      SpanIsBytes(s[..i]);
      SpanIsBytes(s[i + 2..]);
    }
  }

  lemma {:induction false} SpanIsBytes(s: string)
    ensures Span(s).Some? ==> AllBytes(Span(s).value)
  {
    if s != "" && Span(s).Some? { PiecesAreBytes(Split(s, ':')); }
  }
}
