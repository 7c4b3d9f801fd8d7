/** The megabyte variables of runtime/arena.c. */
module ArenaConfig {
  import opened Basics
  import opened Digits
  import opened ArenaSpec

  const MEGABYTE: nat := 1024 * 1024

  /** A value the runtime can use: all digits, not zero, and its bytes fit a size_t. */
  predicate Usable(s: string) {
    s != "" && AllDigits(s) && 0 < DecValue(s) && DecValue(s) * MEGABYTE <= SIZE_MAX
  }

  /** orbit_arena_megabytes_from_env. */
  method MegabytesFromEnv(raw: Option<string>, fallback: nat) returns (r: nat)
    ensures r == if raw.Some? && Usable(raw.value) then DecValue(raw.value) * MEGABYTE else fallback
  {
    if raw.None? || raw.value == "" { return fallback; }
    var s, mb, i := raw.value, 0, 0;
    while i < |s|
      invariant i <= |s| && AllDigits(s[..i]) && mb == DecValue(s[..i]) <= SIZE_MAX
    {
      if s[i] < '0' || s[i] > '9' { return fallback; }
      var digit := DigitValue(s[i]);
      assert s[..i + 1][..i] == s[..i];
      if mb > (SIZE_MAX - digit) / 10 {
        if AllDigits(s) { DecGrows(s, i + 1); }
        return fallback;
      }
      mb := mb * 10 + digit;
      i := i + 1;
    }
    assert s[..i] == s;
    if mb == 0 { return fallback; }
    if mb > SIZE_MAX / MEGABYTE { return fallback; }
    r := mb * MEGABYTE;
  }
}
