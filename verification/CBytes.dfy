/** Bytes and the fixed-width integer arithmetic the C sources rely on. */
module CBytes {
  newtype byte = x: int | 0 <= x < 256

  datatype Option<+T> = None | Some(value: T)

  const TWO_TO_32: int := 0x1_0000_0000
  const TWO_TO_64: int := 0x1_0000_0000_0000_0000

  function Pow2(k: nat): (p: int)
    ensures p > 0
  {
    if k == 0 then 1 else 2 * Pow2(k - 1)
  }

  /** A run of `n` zero bytes, as `memset` or `bfd_zalloc` leaves it. */
  function Zeros(n: nat): (s: seq<byte>)
    ensures |s| == n
    ensures forall i :: 0 <= i < n ==> s[i] == 0
  {
    seq(n, i => 0)
  }

  /** The low 32 bits of a value, as an unsigned int or a field keeps them. */
  function U32(x: int): (r: int)
    ensures 0 <= r < TWO_TO_32
  {
    x % TWO_TO_32
  }

  /** The two's complement reading of a 64-bit word. */
  function Signed64(w: int): int
    requires 0 <= w < TWO_TO_64
  {
    if w < TWO_TO_64 / 2 then w else w - TWO_TO_64
  }

  datatype Endian = Big | Little

  /** bfd_get_32 */
  function Get32(e: Endian, s: seq<byte>, at: nat): (x: int)
    requires at + 4 <= |s|
    ensures 0 <= x < TWO_TO_32
  {
    if e == Big then
      s[at] as int * 0x100_0000 + s[at + 1] as int * 0x1_0000 + s[at + 2] as int * 0x100 + s[at + 3] as int
    else
      s[at + 3] as int * 0x100_0000 + s[at + 2] as int * 0x1_0000 + s[at + 1] as int * 0x100 + s[at] as int
  }

  /** bfd_put_32: the low 32 bits of `x`. */
  function Put32(e: Endian, x: int): (s: seq<byte>)
    ensures |s| == 4
  {
    var b3, b2, b1, b0 := (x / 0x100_0000 % 0x100) as byte, (x / 0x1_0000 % 0x100) as byte,
                          (x / 0x100 % 0x100) as byte, (x % 0x100) as byte;
    if e == Big then [b3, b2, b1, b0] else [b0, b1, b2, b3]
  }

  lemma Halves(x: int)
    ensures x % TWO_TO_32 == x / 0x1_0000 % 0x1_0000 * 0x1_0000 + x % 0x1_0000
  {
    var q := x / 0x1_0000;
    assert x == q / 0x1_0000 * TWO_TO_32 + (q % 0x1_0000 * 0x1_0000 + x % 0x1_0000);
  }

  lemma Quarters(x: int)
    ensures x % 0x1_0000 == x / 0x100 % 0x100 * 0x100 + x % 0x100
  {
    var q := x / 0x100;
    assert x == q / 0x100 * 0x1_0000 + (q % 0x100 * 0x100 + x % 0x100);
  }

  lemma HalfShift(x: int)
    ensures x / 0x1_0000 / 0x100 == x / 0x100_0000
  {
    var q := x / 0x1_0000;
    assert x == q / 0x100 * 0x100_0000 + (q % 0x100 * 0x1_0000 + x % 0x1_0000);
  }

  lemma Put32Get32(e: Endian, x: int, s: seq<byte>, at: nat)
    requires at + 4 <= |s| && s[at..at + 4] == Put32(e, x)
    ensures Get32(e, s, at) == x % TWO_TO_32
  {
    var p := Put32(e, x);
    assert s[at] == p[0] && s[at + 1] == p[1] && s[at + 2] == p[2] && s[at + 3] == p[3];
    Halves(x);
    Quarters(x);
    Quarters(x / 0x1_0000);
    HalfShift(x);
  }

  /** Only the low 32 bits of a word are stored. */
  lemma Put32Wraps(e: Endian, x: int, y: int)
    requires x % TWO_TO_32 == y % TWO_TO_32
    ensures Put32(e, x) == Put32(e, y)
  {
    LowBytes(x, y, (x - y) / TWO_TO_32);
  }

  lemma LowBytes(x: int, y: int, q: int)
    requires x == y + q * TWO_TO_32
    ensures x % 0x100 == y % 0x100 && x / 0x100 % 0x100 == y / 0x100 % 0x100
    ensures x / 0x1_0000 % 0x100 == y / 0x1_0000 % 0x100 && x / 0x100_0000 % 0x100 == y / 0x100_0000 % 0x100
  {
    LowByte(x, y, q * 0x100_0000);
    assert x / 0x100 == y / 0x100 + q * 0x100_0000;
    LowByte(x / 0x100, y / 0x100, q * 0x1_0000);
    assert x / 0x1_0000 == y / 0x1_0000 + q * 0x1_0000;
    LowByte(x / 0x1_0000, y / 0x1_0000, q * 0x100);
    assert x / 0x100_0000 == y / 0x100_0000 + q * 0x100;
    LowByte(x / 0x100_0000, y / 0x100_0000, q);
  }

  lemma LowByte(x: int, y: int, n: int)
    requires x == y + n * 0x100
    ensures x % 0x100 == y % 0x100
  {
  }

  /** bfd_getb64 */
  function Get64(s: seq<byte>, at: nat): (x: int)
    requires at + 8 <= |s|
    ensures 0 <= x < TWO_TO_64
  {
    Get32(Big, s, at) * TWO_TO_32 + Get32(Big, s, at + 4)
  }

  /** bfd_putb64 */
  function Put64(x: int): (s: seq<byte>)
    ensures |s| == 8
  {
    Put32(Big, x / TWO_TO_32) + Put32(Big, x)
  }

  lemma EightAsTwo(s: seq<byte>, at: nat, high: seq<byte>, low: seq<byte>)
    requires |high| == |low| == 4 && at + 8 <= |s| && s[at..at + 8] == high + low
    ensures s[at..at + 4] == high && s[at + 4..at + 8] == low
  {
    forall k | 0 <= k < 4 ensures s[at + k] == high[k] && s[at + 4 + k] == low[k] {
      assert s[at..at + 8][k] == s[at + k] && s[at..at + 8][4 + k] == s[at + 4 + k];
    }
  }

  lemma Put64Get64(x: int, s: seq<byte>, at: nat)
    requires 0 <= x < TWO_TO_64 && at + 8 <= |s| && s[at..at + 8] == Put64(x)
    ensures Get64(s, at) == x
  {
    hide Get32, Put32;
    EightAsTwo(s, at, Put32(Big, x / TWO_TO_32), Put32(Big, x));
    Put32Get32(Big, x / TWO_TO_32, s, at);
    Put32Get32(Big, x, s, at + 4);
    hide Put64;
    assert x == x / TWO_TO_32 * TWO_TO_32 + x % TWO_TO_32;
  }
}
