/** Cutting text at a character and putting the pieces together again.

    `Split` gives the pieces between the occurrences of a separator, at least one, and `Join` puts pieces
    together with the separator between them; each undoes the other as long as no piece has the
    separator in it.

    The parsers of the runtime walk from one separator to the next with memchr; `IndexOf` is the place
    they stop at.

    A C string ends at its first NUL, which is what `CString` cuts. */
module Texts {
  /** The first position of `c`, or the length. */
  function IndexOf(s: string, c: char): (i: nat)
    ensures i <= |s| && c !in s[..i] && (i < |s| ==> s[i] == c)
  {
    if s == "" || s[0] == c then 0
    else
      var k := IndexOf(s[1..], c);
      assert s[..1 + k] == [s[0]] + s[1..][..k];
      1 + k
  }

  lemma {:induction false} PrefixHas(s: string, n: nat)
    requires n <= |s|
    ensures forall i | 0 <= i < n :: s[i] in s[..n]
  {
    forall i | 0 <= i < n ensures s[i] in s[..n] { assert s[..n][i] == s[i]; }
  }

  lemma {:induction false} IndexOfIs(s: string, c: char, i: nat)
    requires i <= |s| && c !in s[..i] && (i < |s| ==> s[i] == c)
    ensures IndexOf(s, c) == i
  {
    var k := IndexOf(s, c);
    PrefixHas(s, i);
    PrefixHas(s, k);
  }

  lemma {:induction false} IndexOfNoLater(s: string, c: char, i: nat)
    requires i < |s| && s[i] == c
    ensures IndexOf(s, c) <= i
  {
    PrefixHas(s, IndexOf(s, c));
  }

  lemma {:induction false} IndexOfJoined(a: string, b: string, c: char)
    requires c in a
    ensures IndexOf(a, c) < |a| && IndexOf(a + b, c) == IndexOf(a, c)
  {
    var i := IndexOf(a, c);
    assert a[..|a|] == a;
    assert (a + b)[..i] == a[..i];
    IndexOfIs(a + b, c, i);
  }

  /** What a C string of these bytes reads as. */
  function CString(s: string): string {
    s[..IndexOf(s, '\0')]
  }

  /** The pieces between occurrences of `c`; never empty. */
  function Split(s: string, c: char): (ps: seq<string>)
    ensures |ps| > 0
    decreases |s|
  {
    var i := IndexOf(s, c);
    if i == |s| then [s] else [s[..i]] + Split(s[i + 1..], c)
  }

  function Join(ps: seq<string>, c: char): string {
    if ps == [] then ""
    else if |ps| == 1 then ps[0]
    else ps[0] + [c] + Join(ps[1..], c)
  }

  predicate NoneHas(ps: seq<string>, c: char) {
    forall i | 0 <= i < |ps| :: c !in ps[i]
  }

  lemma {:induction false} SplitJoin(ps: seq<string>, c: char)
    requires |ps| > 0 && NoneHas(ps, c)
    ensures Split(Join(ps, c), c) == ps
    decreases |ps|
  {
    var s := Join(ps, c);
    if |ps| == 1 {
      IndexOfIs(s, c, |s|);
    } else {
      assert s[..|ps[0]|] == ps[0];
      IndexOfIs(s, c, |ps[0]|);
      assert s[|ps[0]| + 1..] == Join(ps[1..], c);
      SplitJoin(ps[1..], c);
    }
  }

  lemma {:induction false} JoinCons(p: string, ps: seq<string>, c: char)
    requires ps != []
    ensures Join([p] + ps, c) == p + [c] + Join(ps, c)
    ensures NoneHas(ps, c) && c !in p ==> NoneHas([p] + ps, c)
  {
    assert ([p] + ps)[1..] == ps;
  }

  lemma {:induction false} JoinSplit(s: string, c: char)
    ensures Join(Split(s, c), c) == s && NoneHas(Split(s, c), c)
    decreases |s|
  {
    hide Join, NoneHas;
    var i := IndexOf(s, c);
    if i == |s| {
      assert s[..i] == s;
      JoinOne(s, c);
    } else {
      var rest := s[i + 1..];
      JoinSplit(rest, c);
      JoinCons(s[..i], Split(rest, c), c);
      assert s == s[..i] + [c] + rest;
    }
  }

  lemma {:induction false} JoinOne(s: string, c: char)
    ensures Join([s], c) == s && (c !in s ==> NoneHas([s], c))
  {
  }

  lemma {:induction false} SplitFirst(s: string, rest: string, c: char)
    requires c !in s
    ensures Split(s + [c] + rest, c) == [s] + Split(rest, c)
  {
    hide IndexOf;
    var t := s + [c] + rest;
    assert t[..|s|] == s && t[|s|] == c && t[|s| + 1..] == rest;
    IndexOfIs(t, c, |s|);
  }

  lemma {:induction false} SplitWhole(s: string, c: char)
    requires c !in s
    ensures Split(s, c) == [s]
  {
    hide IndexOf;
    assert s[..|s|] == s;
    IndexOfIs(s, c, |s|);
  }

  /** Splitting text with a separator in it splits both sides. */
  lemma {:induction false} SplitJoined(a: string, b: string, c: char)
    ensures Split(a + [c] + b, c) == Split(a, c) + Split(b, c)
    decreases |a|
  {
    hide Split;
    var i := IndexOf(a, c);
    if i == |a| {
      assert a[..i] == a;
      SplitFirst(a, b, c);
      SplitWhole(a, c);
    } else {
      var p, q := a[..i], a[i + 1..];
      assert a == p + [c] + q;
      SplitFirst(p, q, c);
      SplitFirst(p, q + [c] + b, c);
      assert a + [c] + b == p + [c] + (q + [c] + b);
      SplitJoined(q, b, c);
      assert [p] + (Split(q, c) + Split(b, c)) == ([p] + Split(q, c)) + Split(b, c);
    }
  }
}
