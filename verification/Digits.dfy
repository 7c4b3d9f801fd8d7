/** Decimal and hexadecimal numerals, as the runtime reads and prints them.

    A numeral is a text of digits; its value is defined by its last digit, because the loops of the
    runtime read from the left and multiply what they have by the base. `DecSnoc` and `HexSnoc` are that
    step, and `DecGrows` and `HexGrows` say that reading more digits never makes the value smaller, which
    is why those loops may stop at the first value that is too large.

    Leading zeros are numerals here, and so is the empty text, with the value 0; every use says whether
    it takes them. */
module Digits {
  import opened Basics

  function Hex(c: char): Option<nat> {
    if '0' <= c <= '9' then Some(c as nat - '0' as nat)
    else if 'a' <= c <= 'f' then Some(c as nat - 'a' as nat + 10)
    else if 'A' <= c <= 'F' then Some(c as nat - 'A' as nat + 10)
    else None
  }

  function HexDigit(d: nat): (c: char)
    requires d < 16
    ensures Hex(c) == Some(d)
  {
    if d < 10 then ('0' as nat + d) as char else ('a' as nat + (d - 10)) as char
  }

  predicate AllHex(s: string) {
    forall i | 0 <= i < |s| :: Hex(s[i]).Some?
  }

  function HexValue(s: string): nat
    requires AllHex(s)
  {
    if s == "" then 0 else HexValue(s[..|s| - 1]) * 16 + Hex(s[|s| - 1]).value
  }

  lemma {:induction false} HexSnoc(s: string, c: char)
    requires AllHex(s) && Hex(c).Some?
    ensures AllHex(s + [c]) && HexValue(s + [c]) == HexValue(s) * 16 + Hex(c).value
  {
    assert (s + [c])[..|s|] == s;
  }

  lemma {:induction false} HexGrows(s: string, n: nat)
    requires AllHex(s) && n <= |s|
    ensures HexValue(s[..n]) <= HexValue(s)
    decreases |s|
  {
    if n == |s| {
      assert s[..n] == s;
    } else {
      assert s[..|s| - 1][..n] == s[..n];
      HexGrows(s[..|s| - 1], n);
    }
  }

  predicate IsDigit(c: char) {
    '0' <= c <= '9'
  }

  function DigitValue(c: char): (d: nat)
    requires IsDigit(c)
    ensures d < 10
  {
    c as nat - '0' as nat
  }

  predicate AllDigits(s: string) {
    forall i | 0 <= i < |s| :: IsDigit(s[i])
  }

  /** The number a digit string denotes. */
  function DecValue(s: string): nat
    requires AllDigits(s)
  {
    if s == "" then 0 else DecValue(s[..|s| - 1]) * 10 + DigitValue(s[|s| - 1])
  }

  lemma {:induction false} DecSnoc(s: string, c: char)
    requires AllDigits(s) && IsDigit(c)
    ensures AllDigits(s + [c]) && DecValue(s + [c]) == DecValue(s) * 10 + DigitValue(c)
  {
    assert (s + [c])[..|s|] == s;
  }

  lemma {:induction false} DecGrows(s: string, n: nat)
    requires AllDigits(s) && n <= |s|
    ensures DecValue(s[..n]) <= DecValue(s)
    decreases |s|
  {
    if n == |s| {
      assert s[..n] == s;
    } else {
      assert s[..|s| - 1][..n] == s[..n];
      DecGrows(s[..|s| - 1], n);
    }
  }

  /** How many digits `t` starts with. */
  function DigitRun(t: string): (n: nat)
    ensures n <= |t| && AllDigits(t[..n]) && (n < |t| ==> !IsDigit(t[n]))
  {
    if t != "" && IsDigit(t[0]) then
      var n := DigitRun(t[1..]);
      assert forall i | 1 <= i < n + 1 :: t[i] == t[1..][..n][i - 1];
      1 + n
    else 0
  }

  lemma {:induction false} DigitRunIs(t: string, n: nat)
    requires n <= |t| && AllDigits(t[..n]) && (n < |t| ==> !IsDigit(t[n]))
    ensures DigitRun(t) == n
  {
    var k := DigitRun(t);
    assert forall i | 0 <= i < n :: t[..n][i] == t[i];
    assert forall i | 0 <= i < k :: t[..k][i] == t[i];
  }

  /** The shortest decimal numeral of `n`. */
  function DecText(n: nat): (s: string)
    ensures s != "" && AllDigits(s)
  {
    var last := ['0' + (n % 10) as char];
    if n < 10 then last else DecText(n / 10) + last
  }

  lemma {:induction false} DecTextValue(n: nat)
    ensures DecValue(DecText(n)) == n
    ensures n > 0 ==> DecText(n)[0] != '0'
    ensures n == 0 ==> DecText(n) == "0"
  {
    var last := '0' + (n % 10) as char;
    if n < 10 {
      DecSnoc("", last);
      assert "" + [last] == [last];
    } else {
      DecTextValue(n / 10);
      DecSnoc(DecText(n / 10), last);
    }
  }
}
