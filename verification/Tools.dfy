/** Small conversions and searches used across the program. */
module Tools {
  import opened Common

  /** The first index of `v`, or -1. */
  method SliceIndex<T(==)>(s: seq<T>, v: T) returns (i: int)
    ensures -1 <= i < |s|
    ensures i >= 0 ==> s[i] == v && v !in s[..i]
    ensures i < 0 ==> v !in s
  {
    for k := 0 to |s|
      invariant v !in s[..k]
    {
      if v == s[k] {
        return k;
      }
    }
    return -1;
  }

  /** Big endian, as on the wire. */
  function Uint16ToBytes(n: int): seq<byte>
    requires 0 <= n < 0x1_0000
  {
    [n / 256, n % 256]
  }

  /** Reads two bytes; with fewer the read fails and the value stays zero. */
  function BytesToUint16(b: seq<byte>): int {
    if |b| < 2 then 0 else (b[0] as int) * 256 + b[1]
  }

  lemma Uint16RoundTrip(n: int, b: seq<byte>)
    requires 0 <= n < 0x1_0000 && |b| == 2
    ensures BytesToUint16(Uint16ToBytes(n)) == n
    ensures var w := Uint16ToBytes(n); |w| == 2 && n == (w[0] as int) * 256 + w[1]
    ensures 0 <= BytesToUint16(b) < 0x1_0000 && Uint16ToBytes(BytesToUint16(b)) == b
  {
    assert ((b[0] as int) * 256 + b[1]) / 256 == b[0];
    assert b == [b[0], b[1]];
  }
}
