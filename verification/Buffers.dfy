/** memcpy into a buffer. */
module Buffers {
  /** Copies `t` to position `w`. */
  method Store(buf: array<char>, w: nat, t: string)
    requires w + |t| <= buf.Length
    modifies buf
    ensures buf[..w + |t|] == old(buf[..w]) + t
  {
    var i := 0;
    while i < |t|
      invariant i <= |t| && buf[..w + i] == old(buf[..w]) + t[..i]
    {
      buf[w + i] := t[i];
      assert buf[..w + i + 1] == buf[..w + i] + [t[i]];
      i := i + 1;
    }
    assert t[..i] == t;
  }
}
