/** runtime/kynx.c: what a configured network and an X-Forwarded-For header mean, on their text. */
module KynxProxyRules {
  import opened Basics
  import opened Digits
  import opened Texts
  import opened KynxTypes
  import opened KynxAddress
  import opened KynxNetworks
  import opened KynxProxy

  // ----- a configured network -----

  function AddressBits(ip: IP): nat {
    if ip.V4? then 32 else 128
  }

  /** An address without a prefix names the network of that address alone. */
  lemma {:induction false} AddressAlone(addr: string, net: Net)
    requires '/' !in addr
    ensures Entry(addr) == Some(net)
            <==> |addr| <= 63 && Parse(addr) == Some(net.ip) && net.prefix == AddressBits(net.ip)
  {
    hide Parse;
    IndexOfIs(addr, '/', |addr|);
    assert addr[..|addr|] == addr;
  }

  /** An address with a prefix of one to three digits, within its width, names that network; with any other text behind the
      slash it names none. */
  lemma {:induction false} AddressAndPrefix(addr: string, prefix: string, net: Net)
    requires '/' !in addr
    ensures Entry(addr + "/" + prefix) == Some(net)
            <==> && |addr| + 1 + |prefix| <= 63 && Parse(addr) == Some(net.ip)
                 && 1 <= |prefix| <= 3 && AllDigits(prefix)
                 && net.prefix == DecValue(prefix) <= AddressBits(net.ip)
  {
    hide Parse, DecValue;
    var s := addr + "/" + prefix;
    assert s[..|addr|] == addr && s[|addr|] == '/' && s[|addr| + 1..] == prefix;
    IndexOfIs(s, '/', |addr|);
  }

  // ----- a header -----

  predicate Blanks(s: string) {
    forall i | 0 <= i < |s| :: s[i] == ' ' || s[i] == '\t'
  }

  predicate NoBlankEnds(s: string) {
    s != "" ==> s[0] != ' ' && s[0] != '\t' && s[|s| - 1] != ' ' && s[|s| - 1] != '\t'
  }

  lemma {:induction false} LeftTrimmed(lead: string, rest: string)
    requires Blanks(lead) && (rest != "" ==> rest[0] != ' ' && rest[0] != '\t')
    ensures TrimLeft(lead + rest) == rest
  {
    if lead == "" {
      assert lead + rest == rest;
    } else {
      assert (lead + rest)[1..] == lead[1..] + rest;
      LeftTrimmed(lead[1..], rest);
    }
  }

  lemma {:induction false} RightTrimmed(rest: string, trail: string)
    requires Blanks(trail) && (rest != "" ==> rest[|rest| - 1] != ' ' && rest[|rest| - 1] != '\t')
    ensures TrimRight(rest + trail) == rest
  {
    if trail == "" {
      assert rest + trail == rest;
    } else {
      var t := trail[..|trail| - 1];
      assert (rest + trail)[..|rest + trail| - 1] == rest + t;
      RightTrimmed(rest, t);
    }
  }

  /** The blanks around a hop, and only those, are dropped. */
  lemma {:induction false} HopTrimmed(lead: string, core: string, trail: string)
    requires Blanks(lead) && Blanks(trail) && NoBlankEnds(core)
    ensures Trimmed(lead + core + trail) == core
  {
    if core == "" {
      assert lead + core + trail == lead + trail && Blanks(lead + trail);
      assert lead + trail + "" == lead + trail;
      LeftTrimmed(lead + trail, "");
    } else {
      assert lead + core + trail == lead + (core + trail);
      LeftTrimmed(lead, core + trail);
      RightTrimmed(core, trail);
    }
  }

  /** What stands before a hop in the header, and behind it: nothing, or text up to a comma. */
  predicate Front(s: string) {
    s != "" ==> s[|s| - 1] == ','
  }

  predicate Back(s: string) {
    s != "" ==> s[0] == ','
  }

  /** No hop of the text behind is an address outside the trusted networks. */
  predicate NoClientIn(s: string, nets: seq<Net>)
    requires ListOk(nets)
  {
    s != "" ==> forall i | 0 <= i < |Split(s[1..], ',')| :: !Client(Split(s[1..], ',')[i], nets)
  }

  lemma {:induction false} SplitAround(front: string, hop: string, back: string)
    requires Front(front) && Back(back) && ',' !in hop
    ensures var before := if front == "" then [] else Split(front[..|front| - 1], ',');
            var after := if back == "" then [] else Split(back[1..], ',');
            Split(front + hop + back, ',') == before + [hop] + after
  {
    hide Split;
    var rest := hop + back;
    SplitWhole(hop, ',');
    if back == "" {
      assert rest == hop;
    } else {
      assert rest == hop + [','] + back[1..];
      SplitJoined(hop, back[1..], ',');
    }
    if front == "" {
      assert front + hop + back == rest;
    } else {
      var f := front[..|front| - 1];
      assert front + hop + back == f + [','] + rest;
      SplitJoined(f, rest, ',');
    }
  }

  /** Behind a trusted peer the answer is an address outside the trusted networks, with or without blanks around it, behind
      which no other stands; whatever stands before it. */
  lemma {:induction false} ClientFound(peer: string, front: string, lead: string, client: string, trail: string, back: string,
                                       nets: seq<Net>)
    requires ListOk(nets) && Trusted(peer, nets)
    requires Front(front) && Back(back) && Blanks(lead) && Blanks(trail)
    requires |client| <= 63 && ',' !in client && NoBlankEnds(client)
    requires Parse(client).Some? && !Trusted(client, nets) && NoClientIn(back, nets)
    ensures Effective(peer, front + (lead + client + trail) + back, nets) == client
  {
    hide Parse, Trusted, Split, Trimmed, NoBlankEnds;
    var hop := lead + client + trail;
    var before := if front == "" then [] else Split(front[..|front| - 1], ',');
    var after := if back == "" then [] else Split(back[1..], ',');
    SplitAround(front, hop, back);
    HopTrimmed(lead, client, trail);
    var hops := before + [hop] + after;
    forall j | |before| < j < |hops| ensures !Client(hops[j], nets) { assert hops[j] == after[j - |before| - 1]; }
    RightmostClient(hops, nets, |before|);
  }

  /** The peer keeps its own address when it is not trusted, and when no hop of the header is such an address. */
  lemma {:induction false} PeerKept(peer: string, hops: seq<string>, nets: seq<Net>)
    requires ListOk(nets) && hops != [] && NoneHas(hops, ',')
    ensures !Trusted(peer, nets) || (forall i | 0 <= i < |hops| :: !Client(hops[i], nets))
            ==> Effective(peer, Join(hops, ','), nets) == peer
  {
    hide Client, Trusted, Split, LastClient;
    SplitJoin(hops, ',');
    NoClientHop(hops, nets);
  }

  /** Whether a hop is one: the blanks around it do not count, and it is one exactly when it is an address in no trusted
      network. */
  lemma {:induction false} ClientExactly(lead: string, core: string, trail: string, nets: seq<Net>)
    requires ListOk(nets) && Blanks(lead) && Blanks(trail) && NoBlankEnds(core) && |core| <= 63
    ensures Client(lead + core + trail, nets) <==> Parse(core).Some? && !Trusted(core, nets)
  {
    hide Parse, Trusted, Trimmed;
    HopTrimmed(lead, core, trail);
  }
}
