/** Bytes, and numbers laid out low byte first, as memcpy_le does on every host
    (library/include/dn_common.h). */
module Bytes {

  type Byte = x: int | 0 <= x < 256

  /** The number of values that fit in `n` bytes. */
  function Range(n: nat): (r: nat)
    ensures r >= 1
  {
    if n == 0 then 1 else 256 * Range(n - 1)
  }

  /** The `n` low-order bytes of `v`, the lowest first. */
  function LE(v: nat, n: nat): (s: seq<Byte>)
    ensures |s| == n
  {
    if n == 0 then [] else [v % 256] + LE(v / 256, n - 1)
  }

  function UnLE(s: seq<Byte>): (v: nat)
    ensures v < Range(|s|)
  {
    if s == [] then 0 else s[0] + 256 * UnLE(s[1..])
  }

  lemma {:induction false} UnLEofLE(v: nat, n: nat)
    requires v < Range(n)
    ensures UnLE(LE(v, n)) == v
  {
    if n > 0 {
      UnLEofLE(v / 256, n - 1);
      assert LE(v, n)[1..] == LE(v / 256, n - 1);
    }
  }

  lemma RangeValues()
    ensures Range(0) == 1 && Range(1) == 0x100 && Range(2) == 0x1_0000 && Range(4) == 0x1_0000_0000
  {
    assert Range(3) == 0x100_0000;
  }
}
