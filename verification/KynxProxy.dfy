/** runtime/kynx.c: the list of trusted proxies and the X-Forwarded-For walk. */
module KynxProxy {
  import opened Basics
  import opened Digits
  import opened Texts
  import opened KynxTypes
  import opened KynxAddress
  import opened KynxAddressProofs
  import opened KynxNetworks

  const MAX_TRUSTED := 16
  const CIDR_BUFFER := 64
  const CANDIDATE_BUFFER := 64

  // ----- what an entry says -----

  /** The network a configured text names; None for every text that must trust nothing. */
  function Entry(cidr: string): Option<Net> {
    var i := IndexOf(cidr, '/');
    var ip := Parse(cidr[..i]);
    if |cidr| >= CIDR_BUFFER || ip.None? then None
    else if i == |cidr| then Some(Net(ip.value, Width(ip.value)))
    else
      var digits := cidr[i + 1..];
      if 1 <= |digits| <= 3 && AllDigits(digits) && DecValue(digits) <= Width(ip.value)
      then Some(Net(ip.value, DecValue(digits)))
      else None
  }

  function WithEntry(nets: seq<Net>, cidr: string): seq<Net> {
    var e := Entry(cidr);
    if e.None? || |nets| >= MAX_TRUSTED || e.value in nets then nets else nets + [e.value]
  }

  predicate ListOk(nets: seq<Net>) {
    && |nets| <= MAX_TRUSTED
    && (forall i | 0 <= i < |nets| :: Stored(nets[i].ip) && 0 <= nets[i].prefix <= Width(nets[i].ip))
    && (forall i, j | 0 <= i < j < |nets| :: nets[i] != nets[j])
  }

  lemma {:induction false} WithEntryOk(nets: seq<Net>, cidr: string)
    requires ListOk(nets)
    ensures ListOk(WithEntry(nets, cidr))
  {
    var i := IndexOf(cidr, '/');
    if Entry(cidr).Some? { ParsedIsStored(cidr[..i]); }
  }

  /** The list after a whole configuration. */
  function Configured(cidrs: seq<string>): seq<Net> {
    if cidrs == [] then [] else WithEntry(Configured(cidrs[..|cidrs| - 1]), cidrs[|cidrs| - 1])
  }

  lemma {:induction false} ConfiguredOk(cidrs: seq<string>)
    ensures ListOk(Configured(cidrs))
  {
    if cidrs != [] {
      ConfiguredOk(cidrs[..|cidrs| - 1]);
      WithEntryOk(Configured(cidrs[..|cidrs| - 1]), cidrs[|cidrs| - 1]);
    }
  }

  predicate Named(cidrs: seq<string>, net: Net) {
    exists i | 0 <= i < |cidrs| :: Entry(cidrs[i]) == Some(net)
  }

  /** A network is trusted only if some configured text names it, and, while the list has room, whenever one does. */
  lemma {:induction false} TrustedIffNamed(cidrs: seq<string>, net: Net)
    ensures net in Configured(cidrs) ==> Named(cidrs, net)
    ensures |Configured(cidrs)| < MAX_TRUSTED && Named(cidrs, net) ==> net in Configured(cidrs)
  {
    if cidrs != [] {
      var n := |cidrs| - 1;
      TrustedIffNamed(cidrs[..n], net);
      NamedSnoc(cidrs, net);
    }
  }

  lemma {:induction false} NamedSnoc(cidrs: seq<string>, net: Net)
    requires cidrs != []
    ensures Named(cidrs, net) <==> Named(cidrs[..|cidrs| - 1], net) || Entry(cidrs[|cidrs| - 1]) == Some(net)
  {
    hide Entry;
    var n := |cidrs| - 1;
    if Named(cidrs, net) {
      var i :| 0 <= i < |cidrs| && Entry(cidrs[i]) == Some(net);
      assert i < n ==> cidrs[..n][i] == cidrs[i];
    }
    if Named(cidrs[..n], net) {
      var i :| 0 <= i < n && Entry(cidrs[..n][i]) == Some(net);
      assert cidrs[..n][i] == cidrs[i];
    }
  }

  /** A prefix that is absent, too long or not made of digits trusts nothing, in particular not everything. */
  lemma {:induction false} MalformedPrefixTrustsNothing(nets: seq<Net>, cidr: string)
    requires '/' in cidr
    requires var d := cidr[IndexOf(cidr, '/') + 1..]; d == "" || |d| > 3 || !AllDigits(d)
    ensures WithEntry(nets, cidr) == nets
  {
  }

  predicate InSome(ip: IP, nets: seq<Net>)
    requires ListOk(nets) && Stored(ip)
  {
    exists i | 0 <= i < |nets| :: InNet(ip, nets[i])
  }

  predicate Trusted(s: string, nets: seq<Net>)
    requires ListOk(nets)
  {
    Parse(s).Some? && (ParsedIsStored(s); InSome(Parse(s).value, nets))
  }

  // ----- the X-Forwarded-For list -----

  predicate Blank(c: char) {
    c == ' ' || c == '\t'
  }

  function TrimLeft(s: string): string {
    if s != "" && Blank(s[0]) then TrimLeft(s[1..]) else s
  }

  function TrimRight(s: string): string {
    if s != "" && Blank(s[|s| - 1]) then TrimRight(s[..|s| - 1]) else s
  }

  /** A hop as it stands in the header, without the blanks around it. */
  function Trimmed(hop: string): string {
    TrimRight(TrimLeft(hop))
  }

  /** The text of a hop that is parsed: trimmed, and cut to fit its buffer. */
  function Candidate(hop: string): string {
    Cut(Trimmed(hop), CANDIDATE_BUFFER - 1)
  }

  function Cut(s: string, n: nat): string {
    if |s| > n then s[..n] else s
  }

  /** A hop that may be believed to be the client: an address outside every trusted network. */
  predicate Client(hop: string, nets: seq<Net>)
    requires ListOk(nets)
  {
    Parse(Candidate(hop)).Some? && !Trusted(Candidate(hop), nets)
  }

  function LastClient(hops: seq<string>, nets: seq<Net>): Option<string>
    requires ListOk(nets)
  {
    if hops == [] then None
    else if Client(hops[|hops| - 1], nets) then Some(Candidate(hops[|hops| - 1]))
    else LastClient(hops[..|hops| - 1], nets)
  }

  function Effective(peer: string, xff: string, nets: seq<Net>): string
    requires ListOk(nets)
  {
    if !Trusted(peer, nets) || LastClient(Split(xff, ','), nets).None? then peer
    else LastClient(Split(xff, ','), nets).value
  }

  /** The same three about hops of any length, as the documentation has them. */
  predicate WholeClient(hop: string, nets: seq<Net>)
    requires ListOk(nets)
  {
    Parse(Trimmed(hop)).Some? && !Trusted(Trimmed(hop), nets)
  }

  function LastWholeClient(hops: seq<string>, nets: seq<Net>): Option<string>
    requires ListOk(nets)
  {
    if hops == [] then None
    else if WholeClient(hops[|hops| - 1], nets) then Some(Trimmed(hops[|hops| - 1]))
    else LastWholeClient(hops[..|hops| - 1], nets)
  }

  function EffectiveWhole(peer: string, xff: string, nets: seq<Net>): string
    requires ListOk(nets)
  {
    if !Trusted(peer, nets) || LastWholeClient(Split(xff, ','), nets).None? then peer
    else LastWholeClient(Split(xff, ','), nets).value
  }

  /** With a trusted peer the answer is the rightmost hop that is a client, else the peer. */
  lemma {:induction false} RightmostClient(hops: seq<string>, nets: seq<Net>, i: nat)
    requires ListOk(nets) && i < |hops| && Client(hops[i], nets)
    requires forall j | i < j < |hops| :: !Client(hops[j], nets)
    ensures LastClient(hops, nets) == Some(Candidate(hops[i]))
  {
    hide Client, Candidate;
    if i < |hops| - 1 {
      RightmostClient(hops[..|hops| - 1], nets, i);
    }
  }

  lemma {:induction false} NoClientHop(hops: seq<string>, nets: seq<Net>)
    requires ListOk(nets)
    ensures LastClient(hops, nets).None? <==> forall j | 0 <= j < |hops| :: !Client(hops[j], nets)
  {
    hide Client, Candidate;
    if hops != [] {
      var n := |hops| - 1;
      NoClientHop(hops[..n], nets);
      assert forall j | 0 <= j < n :: hops[..n][j] == hops[j];
      assert (forall j | 0 <= j < |hops| :: !Client(hops[j], nets))
        <==> (forall j | 0 <= j < n :: !Client(hops[j], nets)) && !Client(hops[n], nets);
    }
  }

  /** What a client writes to the left of its own address never changes the answer. */
  lemma {:induction false} ForgedHopsIgnored(hops: seq<string>, forged: seq<string>, nets: seq<Net>)
    requires ListOk(nets) && LastClient(hops, nets).Some?
    ensures LastClient(forged + hops, nets) == LastClient(hops, nets)
  {
    var n := |hops| - 1;
    assert (forged + hops)[|forged + hops| - 1] == hops[n];
    if !Client(hops[n], nets) {
      assert (forged + hops)[..|forged + hops| - 1] == forged + hops[..n];
      ForgedHopsIgnored(hops[..n], forged, nets);
    }
  }

  /** The same, about the header: text before a comma cannot displace a client found after it. */
  lemma {:induction false} ForgedPrefixIgnored(peer: string, forged: string, xff: string, nets: seq<Net>)
    requires ListOk(nets) && LastClient(Split(xff, ','), nets).Some?
    ensures Effective(peer, forged + [','] + xff, nets) == Effective(peer, xff, nets)
  {
    hide LastClient, Trusted, Split;
    SplitJoined(forged, xff, ',');
    ForgedHopsIgnored(Split(xff, ','), Split(forged, ','), nets);
  }

  // ----- the buffer of a hop -----

  function ZeroDigits(n: nat): string {
    seq(n, _ => '0')
  }

  lemma {:induction false} ZeroDigitsValue(n: nat)
    ensures AllHex(ZeroDigits(n)) && HexValue(ZeroDigits(n)) == 0
  {
    if n > 0 {
      assert ZeroDigits(n)[..n - 1] == ZeroDigits(n - 1);
      ZeroDigitsValue(n - 1);
    }
  }

  /** A text of `n` characters that is no address and whose first 63 are one: zeros too many, and the letter z. */
  function OverlongHop(n: nat): (s: string)
    requires n >= CANDIDATE_BUFFER
    ensures |s| == n
  {
    "::" + (ZeroDigits(61) + Zs(n - 63))
  }

  function Zs(n: nat): (s: string)
    ensures |s| == n
  {
    seq(n, _ => 'z')
  }

  /** From 64 characters on, text that is no address at all can be taken for one. */
  lemma {:induction false} OverlongHopAccepted(n: nat)
    requires n >= CANDIDATE_BUFFER
    ensures var hop := OverlongHop(n);
            && |Trimmed(hop)| == n && ',' !in hop && Parse(Trimmed(hop)).None?
            && Candidate(hop) == "::" + ZeroDigits(61) && Parse(Candidate(hop)) == Some(V6(Zeros(16)))
  {
    hide Parse, PieceBytes, TrimLeft, TrimRight;
    var zeros, more := ZeroDigits(61), Zs(n - 63);
    CandidateCut(zeros, more);
    AfterColons(zeros);
    AfterColons(zeros + more);
    ZeroPieces(more);
    assert Zeros(14) + [0, 0] == Zeros(16);
  }

  lemma {:induction false} CandidateCut(zeros: string, more: string)
    requires zeros == ZeroDigits(61) && more != "" && forall i | 0 <= i < |more| :: more[i] == 'z'
    ensures var hop := "::" + (zeros + more); Trimmed(hop) == hop && Candidate(hop) == "::" + zeros
  {
    var hop := "::" + (zeros + more);
    assert hop[0] == ':' && hop[|hop| - 1] == 'z';
    assert hop[..63] == "::" + zeros;
  }

  lemma {:induction false} ZeroPieces(more: string)
    requires more != "" && forall i | 0 <= i < |more| :: more[i] == 'z'
    ensures PieceBytes(ZeroDigits(61), true) == Some([0, 0]) && PieceBytes(ZeroDigits(61) + more, true).None?
  {
    var zeros := ZeroDigits(61);
    ZeroDigitsValue(61);
    NoColon(zeros);
    NoColon(zeros + more);
    assert !AllHex(zeros + more) by { assert Hex((zeros + more)[61]).None?; }
  }

  lemma {:induction false} AfterColons(t: string)
    requires t != "" && forall i | 0 <= i < |t| :: t[i] == '0' || t[i] == 'z'
    ensures var p := PieceBytes(t, true);
            Parse("::" + t) ==
            if p.Some? && |p.value| <= 16 then Some(V6(Zeros(16 - |p.value|) + p.value)) else None
  {
    hide PieceBytes, Quad;
    var s := "::" + t;
    assert s[0] == ':' && s[1] == ':' && s[..0] == "" && s[2..] == t;
    NoColon(t);
    var p := PieceBytes(t, true);
    assert PiecesBytes([t][1..]) == Some([]);
    assert p.Some? ==> p.value + [] == p.value;
    assert forall z: Bytes :: [] + z == z;
  }

  lemma {:induction false} NoColon(s: string)
    requires forall i | 0 <= i < |s| :: s[i] == '0' || s[i] == 'z'
    ensures Split(s, ':') == [s] && FindDouble(s) == |s| && '.' !in s
  {
    IndexOfIs(s, ':', |s|);
    NoDoubleColon(s);
  }

  lemma {:induction false} NoDoubleColon(s: string)
    requires forall i | 0 <= i < |s| :: s[i] == '0' || s[i] == 'z'
    ensures FindDouble(s) == |s|
  {
    var i := FindDouble(s);
  }

  /** Every hop of `n` characters, blanks around it aside, is judged by all of them. */
  ghost predicate HopsJudgedWhole(n: nat) {
    forall hop: string, nets: seq<Net> | |Trimmed(hop)| == n && ListOk(nets) :: Client(hop, nets) == WholeClient(hop, nets)
  }

  /** That holds up to the size of the buffer. */
  lemma {:induction false} HopsJudgedWholeIff(n: nat)
    ensures HopsJudgedWhole(n) <==> n < CANDIDATE_BUFFER
  {
    hide Parse, TrimLeft, TrimRight;
    if n >= CANDIDATE_BUFFER {
      OverlongHopAccepted(n);
      assert Client(OverlongHop(n), []) && !WholeClient(OverlongHop(n), []) && ListOk([]);
    }
  }

  predicate ShortHops(hops: seq<string>, n: nat) {
    forall i | 0 <= i < |hops| :: |Trimmed(hops[i])| <= n
  }

  lemma {:induction false} ShortHopsWhole(hops: seq<string>, n: nat, nets: seq<Net>)
    requires ShortHops(hops, n) && n < CANDIDATE_BUFFER && ListOk(nets)
    ensures LastClient(hops, nets) == LastWholeClient(hops, nets)
  {
    hide Parse, TrimLeft, TrimRight, Trusted;
    if hops != [] {
      assert ShortHops(hops[..|hops| - 1], n);
      ShortHopsWhole(hops[..|hops| - 1], n, nets);
    }
  }

  /** The answer for every header without a longer hop than `n` characters is the last hop that is a client as it stands
      in the header. */
  ghost predicate HeadersJudgedWhole(n: nat) {
    forall peer: string, xff: string, nets: seq<Net> | ListOk(nets) && ShortHops(Split(xff, ','), n) ::
      Effective(peer, xff, nets) == EffectiveWhole(peer, xff, nets)
  }

  lemma {:induction false} HeadersJudgedWholeIff(n: nat)
    ensures HeadersJudgedWhole(n) <==> n < CANDIDATE_BUFFER
  {
    hide Trusted, LastClient, LastWholeClient, Trimmed, Split;
    if n < CANDIDATE_BUFFER {
      forall xff: string, nets: seq<Net> | ListOk(nets) && ShortHops(Split(xff, ','), n)
        ensures LastClient(Split(xff, ','), nets) == LastWholeClient(Split(xff, ','), nets) {
        ShortHopsWhole(Split(xff, ','), n, nets);
      }
    } else {
      OverlongHeaderBelieved();
      var hop := OverlongHop(64);
      assert Split(hop, ',') == [hop] && |Trimmed(hop)| == 64 by {
        OverlongHopAccepted(64);
        SplitWhole(hop, ',');
      }
      assert ShortHops(Split(hop, ','), n);
      assert ListOk(Behind());
    }
  }

  /** The trusted proxy 1.2.3.4 and no other. */
  function Behind(): (nets: seq<Net>)
    ensures ListOk(nets)
  {
    [Net(V4(0x0102_0304), 32)]
  }

  /** A header of one hop: sent through a trusted proxy it moves the answer away from the peer, to a text that
      is not in the header as a hop. */
  lemma {:induction false} OverlongHeaderBelieved()
    ensures Effective("1.2.3.4", OverlongHop(64), Behind()) == "::" + ZeroDigits(61)
    ensures EffectiveWhole("1.2.3.4", OverlongHop(64), Behind()) == "1.2.3.4"
  {
    hide Parse, Trimmed, Split, InNet, Candidate;
    var hop := OverlongHop(64);
    OverlongHopAccepted(64);
    SplitWhole(hop, ',');
    PeerTrusted();
    FamiliesDiffer("::" + ZeroDigits(61));
    assert [hop][..0] == [];
  }

  lemma {:induction false} FamiliesDiffer(s: string)
    requires Parse(s).Some? && Parse(s).value.V6?
    ensures !Trusted(s, Behind())
  {
    hide Parse, SameBits;
    ParsedIsStored(s);
  }

  lemma {:induction false} PeerTrusted()
    ensures Trusted("1.2.3.4", Behind())
  {
    hide Parse, SameBits;
    var ip := V4(0x0102_0304);
    PeerParses();
    ParsedIsStored("1.2.3.4");
    SameBitsRefl(ip);
    assert InNet(ip, Behind()[0]);
  }

  lemma {:induction false} PeerParses()
    ensures Parse("1.2.3.4") == Some(V4(0x0102_0304))
  {
    hide Quad, Join, DecText;
    OneDigits();
    QuadFormParses(1, 2, 3, 4);
    assert Join(["1", "2", "3", "4"], '.') == "1.2.3.4" by { PeerJoined(); }
  }

  lemma {:induction false} OneDigits()
    ensures DecText(1) == "1" && DecText(2) == "2" && DecText(3) == "3" && DecText(4) == "4"
  {
  }

  lemma {:induction false} PeerJoined()
    ensures Join(["1", "2", "3", "4"], '.') == "1.2.3.4"
  {
    hide Join;
    JoinCons("1", ["2", "3", "4"], '.');
    JoinCons("2", ["3", "4"], '.');
    JoinCons("3", ["4"], '.');
    JoinOne("4", '.');
    assert ["1"] + ["2", "3", "4"] == ["1", "2", "3", "4"] && ["2"] + ["3", "4"] == ["2", "3", "4"] && ["3"] + ["4"] == ["3", "4"];
    assert "1" + ['.'] + ("2" + ['.'] + ("3" + ['.'] + "4")) == "1.2.3.4";
  }

  lemma {:induction false} SameBitsRefl(ip: IP)
    requires Stored(ip)
    ensures InNet(ip, Net(ip, Width(ip)))
  {
    StoredBytes(ip);
  }

  // ----- one step of the walk -----

  /** `t` ends with the hop that starts at `b`. */
  predicate LastHopAt(t: string, b: nat) {
    b <= |t| && ',' !in t[b..] && (b > 0 ==> t[b - 1] == ',')
  }

  lemma {:induction false} SplitLast(t: string, b: nat)
    requires LastHopAt(t, b)
    ensures Split(t, ',') == if b == 0 then [t] else Split(t[..b - 1], ',') + [t[b..]]
  {
    if b == 0 {
      assert t[..|t|] == t == t[0..];
      IndexOfIs(t, ',', |t|);
    } else {
      assert t == t[..b - 1] + [','] + t[b..];
      SplitJoined(t[..b - 1], t[b..], ',');
      assert t[b..][..|t[b..]|] == t[b..];
      IndexOfIs(t[b..], ',', |t| - b);
    }
  }

  lemma {:induction false} LastStep(t: string, b: nat, nets: seq<Net>)
    requires ListOk(nets) && LastHopAt(t, b)
    ensures LastClient(Split(t, ','), nets) ==
            if Client(t[b..], nets) then Some(Candidate(t[b..]))
            else if b == 0 then None
            else LastClient(Split(t[..b - 1], ','), nets)
  {
    hide Client, Candidate;
    SplitLast(t, b);
    if b == 0 {
      assert t[b..] == t;
      assert [t][..0] == [];
    } else {
      var front := Split(t[..b - 1], ',');
      assert (front + [t[b..]])[..|front|] == front;
    }
  }

  lemma {:induction false} BlankIsNoClient(s: string, nets: seq<Net>)
    requires ListOk(nets) && TrimLeft(s) == ""
    ensures !Client(s, nets)
  {
    assert Candidate(s) == "";
    assert Split("", '.') == [""];
    assert Quad("").None?;
  }

  /** Leading blanks make the walk stop one early: it sees them again as a hop of their own, which is no client. */
  lemma {:induction false} BlanksSeenTwice(t: string, b: nat, start: nat, nets: seq<Net>)
    requires ListOk(nets) && LastHopAt(t, b) && b < start <= |t|
    requires !Client(t[b..], nets) && forall k | b <= k < start :: Blank(t[k])
    ensures LastClient(Split(t[..start - 1], ','), nets) == LastClient(Split(t, ','), nets)
  {
    hide Client, Candidate;
    var u := t[..start - 1];
    assert u[b..] == t[b..start - 1];
    assert forall k | 0 <= k < |u[b..]| :: u[b..][k] == t[b..][k];
    assert LastHopAt(u, b);
    AllBlank(u[b..]);
    BlankIsNoClient(u[b..], nets);
    LastStep(t, b, nets);
    LastStep(u, b, nets);
    assert b > 0 ==> u[..b - 1] == t[..b - 1];
  }

  lemma {:induction false} AllBlank(s: string)
    requires forall k | 0 <= k < |s| :: Blank(s[k])
    ensures TrimLeft(s) == ""
  {
    if s != "" { AllBlank(s[1..]); }
  }

  lemma {:induction false} TrimLeftStep(s: string, i: nat)
    requires i < |s|
    ensures TrimLeft(s[i..]) == if Blank(s[i]) then TrimLeft(s[i + 1..]) else s[i..]
  {
    assert s[i..][1..] == s[i + 1..];
  }

  lemma {:induction false} TrimRightStep(s: string, i: nat, j: nat)
    requires i < j <= |s|
    ensures TrimRight(s[i..j]) == if Blank(s[j - 1]) then TrimRight(s[i..j - 1]) else s[i..j]
  {
    assert s[i..j][..j - i - 1] == s[i..j - 1];
  }

  lemma {:induction false} TrimEmpty(s: string)
    ensures TrimLeft(s[|s|..]) == "" && forall i | 0 <= i <= |s| :: TrimRight(s[i..i]) == ""
  {
  }

  /** The two trimming loops. */
  method Trim(s: string) returns (start: nat, end: nat)
    ensures start <= end <= |s| && s[start..end] == TrimRight(TrimLeft(s))
    ensures forall k | 0 <= k < start :: Blank(s[k])
  {
    hide TrimLeft, TrimRight;
    start, end := 0, |s|;
    assert s[0..] == s;
    TrimEmpty(s);
    while start < |s| && Blank(s[start])
      invariant start <= |s| && TrimLeft(s) == TrimLeft(s[start..])
      invariant forall k | 0 <= k < start :: Blank(s[k])
    {
      TrimLeftStep(s, start);
      start := start + 1;
    }
    if start < |s| { TrimLeftStep(s, start); }
    ghost var t := s[start..];
    assert s[start..end] == t && TrimLeft(s) == t;
    while end > start && Blank(s[end - 1])
      invariant start <= end <= |s| && TrimRight(t) == TrimRight(s[start..end])
    {
      TrimRightStep(s, start, end);
      end := end - 1;
    }
    if end > start { TrimRightStep(s, start, end); }
  }

  /** strchr, and the inner loop that walks back to a comma. */
  method HopStart(t: string) returns (b: nat)
    ensures LastHopAt(t, b)
  {
    b := |t|;
    while b > 0 && t[b - 1] != ','
      invariant b <= |t| && ',' !in t[b..]
    {
      assert t[b - 1..] == [t[b - 1]] + t[b..];
      b := b - 1;
    }
  }

  class TrustedProxies {
    var nets: seq<Net>

    constructor ()
      ensures nets == [] && ListOk(nets)
    {
      nets := [];
    }

    /** orbit_kynx_add_trusted_proxy. */
    method Add(cidr: string)
      requires ListOk(nets)
      modifies this
      ensures nets == WithEntry(old(nets), cidr) && ListOk(nets)
    {
      hide Parse, Quad;
      WithEntryOk(nets, cidr);
      if cidr == "" || |cidr| >= CIDR_BUFFER {
        assert cidr == "" ==> Entry(cidr).None? by { assert Parse("").None? by { EmptyText(); } assert cidr == "" ==> cidr[..0] == ""; }
        return;
      }
      var slash := FindSlash(cidr);
      var prefix: int := -1;
      if slash < |cidr| {
        var digits := cidr[slash + 1..];
        var n := ReadPrefix(digits);
        if n.None? { return; }
        prefix := n.value;
      }
      var ip := ParseIp(cidr[..slash]);
      if ip.None? { return; }
      var max := if ip.value.V4? then 32 else 128;
      if prefix < 0 { prefix := max; }
      if prefix > max { return; }
      if |nets| >= MAX_TRUSTED { return; }
      var net := Net(ip.value, prefix);
      if net in nets { return; }
      nets := nets + [net];
    }

    /** orbit_kynx_is_trusted_proxy. */
    method IsTrusted(s: string) returns (r: bool)
      requires ListOk(nets)
      ensures r == Trusted(s, nets)
    {
      hide InNet, Parse;
      if |nets| == 0 { return false; }
      var ip := ParseIp(s);
      if ip.None? { return false; }
      ParsedIsStored(s);
      var i := 0;
      while i < |nets|
        invariant i <= |nets| && forall k | 0 <= k < i :: !InNet(ip.value, nets[k])
      {
        var inside := IpInNet(ip.value, nets[i]);
        if inside { return true; }
        i := i + 1;
      }
      r := false;
    }

    /** orbit_kynx_effective_ip: what is left in an output buffer of `outLen` bytes. */
    method EffectiveIp(peer: Option<string>, xff: Option<string>, outLen: nat) returns (out: string)
      requires ListOk(nets)
      ensures peer.None? || outLen == 0 ==> out == ""
      ensures peer.Some? && outLen > 0 ==>
                out == Cut(if xff.None? then peer.value else Effective(peer.value, xff.value, nets), outLen - 1)
    {
      hide LastClient, Client, Trusted, Candidate, Split, Parse, LastHopAt, ListOk;
      if outLen == 0 || peer.None? { return ""; }
      out := Cut(peer.value, outLen - 1);
      if xff.None? { return; }
      NoHops(nets);
      if xff.value == "" { return; }
      var trusted := IsTrusted(peer.value);
      if !trusted { return; }
      var client := Walk(xff.value);
      if client.Some? { out := Cut(client.value, outLen - 1); }
    }

    /** The right-to-left loop. */
    method Walk(xff: string) returns (client: Option<string>)
      requires ListOk(nets)
      ensures client == LastClient(Split(xff, ','), nets)
    {
      hide LastClient, Client, Trusted, Candidate, Split, Parse, LastHopAt, ListOk;
      ghost var answer := LastClient(Split(xff, ','), nets);
      NoHops(nets);
      var p: nat := |xff|;
      assert xff[..p] == xff && xff[..0] == "";
      while p > 0
        invariant p <= |xff| && answer == LastClient(Split(xff[..p], ','), nets)
        invariant p == 0 ==> answer == None
      {
        var t := xff[..p];
        var b := HopStart(t);
        HopBounds(t, b);
        LastStep(t, b, nets);
        var start, end := Trim(t[b..]);
        var found := TryHop(t[b..], start, end);
        if found.Some? { return found; }
        if b + start == 0 { return None; }
        if start > 0 {
          assert forall k | b <= k < b + start :: t[k] == t[b..][k - b];
          BlanksSeenTwice(t, b, b + start, nets);
        }
        assert xff[..b + start - 1] == t[..b + start - 1];
        p := b + start - 1;
      }
      client := None;
    }

    /** The hop between `start` and `end`: its candidate, if it is a client. */
    method TryHop(hop: string, start: nat, end: nat) returns (found: Option<string>)
      requires ListOk(nets)
      requires start <= end <= |hop| && hop[start..end] == TrimRight(TrimLeft(hop))
      ensures found == if Client(hop, nets) then Some(Candidate(hop)) else None
    {
      hide Trusted, Parse;
      if start == end { EmptyText(); return None; }
      var cand := Cut(hop[start..end], CANDIDATE_BUFFER - 1);
      var ip := ParseIp(cand);
      if ip.None? { return None; }
      var trusted := IsTrusted(cand);
      found := if trusted then None else Some(cand);
    }
  }

  lemma {:induction false} EmptyText()
    ensures Parse("").None?
  {
    assert Split("", '.') == [""];
  }

  lemma {:induction false} NoHops(nets: seq<Net>)
    requires ListOk(nets)
    ensures LastClient(Split("", ','), nets).None?
  {
    assert Split("", ',') == [""] && [""][..0] == [];
    assert TrimLeft("") == "";
    BlankIsNoClient("", nets);
  }

  lemma {:induction false} HopBounds(t: string, b: nat)
    requires LastHopAt(t, b)
    ensures b <= |t| && (b > 0 ==> t[b - 1] == ',')
  {
  }

  method FindSlash(s: string) returns (i: nat)
    ensures i == IndexOf(s, '/')
  {
    i := 0;
    assert s[0..] == s;
    while i < |s| && s[i] != '/'
      invariant i <= |s| && IndexOf(s, '/') == i + IndexOf(s[i..], '/')
    {
      assert s[i..][1..] == s[i + 1..];
      i := i + 1;
    }
  }

  /** The prefix length: one to three digits. */
  method ReadPrefix(digits: string) returns (n: Option<nat>)
    ensures n == if 1 <= |digits| <= 3 && AllDigits(digits) then Some(DecValue(digits)) else None
  {
    if |digits| == 0 || |digits| > 3 { return None; }
    var value, i := 0, 0;
    while i < |digits|
      invariant i <= |digits| && AllDigits(digits[..i]) && value == DecValue(digits[..i])
    {
      if digits[i] < '0' || digits[i] > '9' { return None; }
      assert digits[..i + 1] == digits[..i] + [digits[i]];
      DecSnoc(digits[..i], digits[i]);
      value := value * 10 + (digits[i] as nat - '0' as nat);
      i := i + 1;
    }
    assert digits[..i] == digits;
    n := Some(value);
  }
}
