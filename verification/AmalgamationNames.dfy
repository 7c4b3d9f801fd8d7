/** scripts/amalgamate.py: the names of the include guards it adds, and which files share one. */
module AmalgamationNames {
  import opened Amalgamation

  predicate Lower(c: char) { 'a' <= c <= 'z' }
  predicate Upper(c: char) { 'A' <= c <= 'Z' }
  predicate Numeric(c: char) { '0' <= c <= '9' }
  predicate Alnum(c: char) { Lower(c) || Upper(c) || Numeric(c) }

  predicate NoAlnum(s: string) {
    forall i | 0 <= i < |s| :: !Alnum(s[i])
  }

  predicate AlnumEnds(s: string) {
    s != "" ==> Alnum(s[0]) && Alnum(s[|s| - 1])
  }

  /** What stands for `c` in a guard. */
  predicate StandsFor(g: char, c: char) {
    if Lower(c) then Upper(g) && g as int - 'A' as int == c as int - 'a' as int
    else if Upper(c) || Numeric(c) then g == c
    else g == '_'
  }

  /** Letters that differ in case alone, the same digit, or two characters that are neither. */
  predicate Alike(a: char, b: char) {
    || a == b
    || (Lower(a) && Upper(b) && a as int - 'a' as int == b as int - 'A' as int)
    || (Upper(a) && Lower(b) && a as int - 'A' as int == b as int - 'a' as int)
    || (!Alnum(a) && !Alnum(b))
  }

  lemma {:induction false} CharStands(c: char)
    ensures StandsFor(IdentChar(c), c) && (IdentChar(c) == '_' <==> !Alnum(c))
  {
  }

  lemma {:induction false} CharsStand(s: string)
    ensures |IdentChars(s)| == |s| && forall i | 0 <= i < |s| :: IdentChars(s)[i] == IdentChar(s[i])
  {
    hide IdentChar;
    if s != "" { CharsStand(s[1..]); }
  }

  predicate Underscores(s: string) {
    forall i | 0 <= i < |s| :: s[i] == '_'
  }

  lemma {:induction false} LeftStripped(lead: string, rest: string)
    requires Underscores(lead) && (rest != "" ==> rest[0] != '_')
    ensures StripLeft(lead + rest) == rest
  {
    if lead == "" {
      assert lead + rest == rest;
    } else {
      assert (lead + rest)[1..] == lead[1..] + rest;
      LeftStripped(lead[1..], rest);
    }
  }

  lemma {:induction false} RightStripped(rest: string, trail: string)
    requires Underscores(trail) && (rest != "" ==> rest[|rest| - 1] != '_')
    ensures StripRight(rest + trail) == rest
  {
    if trail == "" {
      assert rest + trail == rest;
    } else {
      var t := trail[..|trail| - 1];
      assert (rest + trail)[..|rest + trail| - 1] == rest + t;
      RightStripped(rest, t);
    }
  }

  lemma {:induction false} Stripped(lead: string, core: string, trail: string)
    requires Underscores(lead) && Underscores(trail) && (core != "" ==> core[0] != '_' && core[|core| - 1] != '_')
    ensures StripRight(StripLeft(lead + core + trail)) == core
  {
    if core == "" {
      assert lead + core + trail == (lead + trail) + "";
      LeftStripped(lead + trail, "");
    } else {
      assert lead + core + trail == lead + (core + trail);
      LeftStripped(lead, core + trail);
      RightStripped(core, trail);
    }
  }

  lemma {:induction false} CharsJoined(a: string, b: string)
    ensures IdentChars(a + b) == IdentChars(a) + IdentChars(b)
  {
    hide IdentChar;
    CharsStand(a);
    CharsStand(b);
    CharsStand(a + b);
  }

  lemma {:induction false} NoneStand(s: string)
    requires NoAlnum(s)
    ensures Underscores(IdentChars(s))
  {
    CharsStand(s);
  }

  lemma {:induction false} GuardText(lead: string, core: string, trail: string)
    requires NoAlnum(lead) && AlnumEnds(core) && NoAlnum(trail)
    ensures GuardFor(lead + core + trail) == "ORBIT_SEED_FILE_" + IdentChars(core)
  {
    hide IdentChar, IdentChars, StripLeft, StripRight;
    CharsJoined(lead + core, trail);
    CharsJoined(lead, core);
    NoneStand(lead);
    NoneStand(trail);
    CharsStand(core);
    if core != "" { CharStands(core[0]); CharStands(core[|core| - 1]); }
    Stripped(IdentChars(lead), IdentChars(core), IdentChars(trail));
  }

  /** A guard is the prefix and, for every character from the first letter or digit of the path to the last one, what stands
      for it: letters in upper case, digits, and an underscore for anything else. */
  lemma {:induction false} GuardSpelled(lead: string, core: string, trail: string, i: nat)
    requires NoAlnum(lead) && AlnumEnds(core) && NoAlnum(trail) && i < |core|
    ensures var g, n := GuardFor(lead + core + trail), |"ORBIT_SEED_FILE_"|;
            |g| == n + |core| && g[..n] == "ORBIT_SEED_FILE_" && StandsFor(g[n + i], core[i])
  {
    hide IdentChar, IdentChars, GuardFor;
    GuardText(lead, core, trail);
    CharsStand(core);
    CharStands(core[i]);
  }

  lemma {:induction false} AlikeExactly(a: char, b: char)
    ensures IdentChar(a) == IdentChar(b) <==> Alike(a, b)
  {
  }

  /** Two files share a guard exactly when their paths, from the first letter or digit to the last one, are equally long and
      alike character by character. */
  lemma {:induction false} SharedGuards(lead: string, core: string, trail: string, lead': string, core': string, trail': string)
    requires NoAlnum(lead) && AlnumEnds(core) && NoAlnum(trail)
    requires NoAlnum(lead') && AlnumEnds(core') && NoAlnum(trail')
    ensures GuardFor(lead + core + trail) == GuardFor(lead' + core' + trail')
            <==> |core| == |core'| && forall i | 0 <= i < |core| :: Alike(core[i], core'[i])
  {
    hide IdentChar, IdentChars, GuardFor, Alike;
    GuardText(lead, core, trail);
    GuardText(lead', core', trail');
    CharsStand(core);
    CharsStand(core');
    SamePrefix("ORBIT_SEED_FILE_", IdentChars(core), IdentChars(core'));
    forall i | 0 <= i < |core| && i < |core'| ensures IdentChars(core)[i] == IdentChars(core')[i] <==> Alike(core[i], core'[i]) {
      AlikeExactly(core[i], core'[i]);
    }
  }

  lemma {:induction false} SamePrefix(p: string, a: string, b: string)
    ensures p + a == p + b <==> a == b
  {
    assert (p + a)[|p|..] == a && (p + b)[|p|..] == b;
  }
}
