/**
  The text in archive headers: numbers printed by printf and read back by strtol and sscanf,
  padded fields, and strings that end at a NUL.
 */
module ArText {
  import opened CBytes

  const SPACE: byte := 0x20
  const SLASH: byte := 0x2f
  const NEWLINE: byte := 0x0a
  const BACKQUOTE: byte := 0x60
  const COLON: byte := 0x3a
  const BACKSLASH: byte := 0x5c

  predicate IsDigitByte(b: byte) {
    0x30 <= b <= 0x39
  }

  /** isspace in the C locale. */
  predicate IsSpaceByte(b: byte) {
    b == SPACE || 0x09 <= b <= 0x0d
  }

  function Spaces(n: nat): (r: seq<byte>)
    ensures |r| == n && forall i :: 0 <= i < n ==> r[i] == SPACE
  {
    seq(n, _ => SPACE)
  }

  /** "%lu": the digits of a number. */
  function Decimal(n: nat): (r: seq<byte>)
    ensures |r| >= 1 && forall i :: 0 <= i < |r| ==> IsDigitByte(r[i])
  {
    (if n < 10 then [] else Decimal(n / 10)) + [(0x30 + n % 10) as byte]
  }

  function Pow10(k: nat): nat {
    if k == 0 then 1 else 10 * Pow10(k - 1)
  }

  /** A number has at most `k` digits exactly when it is below 10^k. */
  lemma {:induction false} DecimalLength(n: nat, k: nat)
    requires k >= 1
    ensures |Decimal(n)| <= k <==> n < Pow10(k)
  {
    if n >= 10 && k > 1 {
      DecimalLength(n / 10, k - 1);
      assert n / 10 < Pow10(k - 1) <==> n < 10 * Pow10(k - 1);
    } else if k > 1 {
      Pow10Grows(k - 1);
    }
  }

  lemma {:induction false} Pow10Grows(k: nat)
    ensures Pow10(k) >= 1
  {
    if k > 0 {
      Pow10Grows(k - 1);
    }
  }

  lemma Pow10Ten()
    ensures Pow10(10) == 10_000_000_000 && TWO_TO_32 < Pow10(10) < TWO_TO_64 / 2
  {
    assert Pow10(2) == 100 && Pow10(4) == 10_000 && Pow10(6) == 1_000_000 && Pow10(8) == 100_000_000;
  }

  // ----- Reading -----

  function SkipSpaces(s: seq<byte>, k: nat): (r: nat)
    requires k <= |s|
    ensures k <= r <= |s| && (r < |s| ==> !IsSpaceByte(s[r]))
    decreases |s| - k
  {
    if k < |s| && IsSpaceByte(s[k]) then SkipSpaces(s, k + 1) else k
  }

  function DigitsEnd(s: seq<byte>, k: nat): (r: nat)
    requires k <= |s|
    ensures k <= r <= |s| && (forall i :: k <= i < r ==> IsDigitByte(s[i])) && (r < |s| ==> !IsDigitByte(s[r]))
    decreases |s| - k
  {
    if k < |s| && IsDigitByte(s[k]) then DigitsEnd(s, k + 1) else k
  }

  function ValueOf(digits: seq<byte>): nat
    requires forall i :: 0 <= i < |digits| ==> IsDigitByte(digits[i])
  {
    if digits == [] then 0
    else
      assert IsDigitByte(digits[|digits| - 1]);
      ValueOf(digits[..|digits| - 1]) * 10 + (digits[|digits| - 1] as int - 0x30)
  }

  lemma LastDigit(d: seq<byte>, x: nat)
    requires x < 10 && forall i :: 0 <= i < |d| ==> IsDigitByte(d[i])
    ensures var e := d + [(0x30 + x) as byte]; (forall i :: 0 <= i < |e| ==> IsDigitByte(e[i])) && ValueOf(e) == ValueOf(d) * 10 + x
  {
    var e := d + [(0x30 + x) as byte];
    assert e[..|e| - 1] == d;
  }

  lemma {:induction false} ValueOfDecimal(n: nat)
    ensures ValueOf(Decimal(n)) == n
  {
    if n >= 10 {
      ValueOfDecimal(n / 10);
      LastDigit(Decimal(n / 10), n % 10);
    } else {
      assert Decimal(n) == [(0x30 + n) as byte];
      LastDigit([], n);
    }
  }

  lemma {:induction false} LeadingDigit(n: nat)
    requires n > 0
    ensures Decimal(n)[0] != 0x30
  {
    if n >= 10 {
      LeadingDigit(n / 10);
    }
  }

  /** Digits without a leading zero are how their value is printed. */
  lemma {:induction false} DecimalOfValue(x: seq<byte>)
    requires x != [] && (forall i :: 0 <= i < |x| ==> IsDigitByte(x[i])) && (x[0] != 0x30 || |x| == 1)
    ensures Decimal(ValueOf(x)) == x
  {
    var y, last := x[..|x| - 1], x[|x| - 1] as int - 0x30;
    assert x == y + [x[|x| - 1]] && 0 <= last < 10;
    if |x| == 1 {
      assert ValueOf(y) == 0;
    } else {
      DecimalOfValue(y);
      assert Decimal(0) == [0x30];
      TenTimes(ValueOf(y), last);
    }
  }

  lemma TenTimes(v: nat, d: nat)
    requires d < 10
    ensures (v * 10 + d) / 10 == v && (v * 10 + d) % 10 == d
  {
  }

  /** A number as strtol finds it: blanks, a sign, digits; without digits nothing is consumed. */
  datatype Number = Number(found: bool, value: int, end: nat)

  function ReadNumber(s: seq<byte>, k: nat): (r: Number)
    requires k <= |s|
    ensures k <= r.end <= |s|
  {
    var a := SkipSpaces(s, k);
    var signed := a < |s| && (s[a] == 0x2d || s[a] == 0x2b);
    var b := if signed then a + 1 else a;
    var e := DigitsEnd(s, b);
    if e == b then Number(false, 0, k)
    else Number(true, if signed && s[a] == 0x2d then 0 - ValueOf(s[b..e]) else ValueOf(s[b..e]), e)
  }

  lemma {:induction false} DigitsEndAt(s: seq<byte>, k: nat, e: nat)
    requires k <= e <= |s| && (forall i :: k <= i < e ==> IsDigitByte(s[i])) && (e < |s| ==> !IsDigitByte(s[e]))
    ensures DigitsEnd(s, k) == e
    decreases e - k
  {
    if k < e {
      DigitsEndAt(s, k + 1, e);
    }
  }

  lemma DigitsRead(s: seq<byte>, k: nat, d: seq<byte>)
    requires d != [] && (forall i :: 0 <= i < |d| ==> IsDigitByte(d[i]))
    requires k + |d| <= |s| && s[k..k + |d|] == d && (k + |d| < |s| ==> !IsDigitByte(s[k + |d|]))
    ensures ReadNumber(s, k) == Number(true, ValueOf(d), k + |d|)
  {
    forall i | k <= i < k + |d| ensures IsDigitByte(s[i]) {
      assert s[i] == s[k..k + |d|][i - k];
    }
    DigitsEndAt(s, k, k + |d|);
    assert IsDigitByte(s[k]);
    hide ValueOf;
  }

  /** A printed number that no digit follows reads back, up to where it ends. */
  lemma NumberReadsBack(s: seq<byte>, k: nat, n: nat)
    requires var d := Decimal(n); k + |d| <= |s| && s[k..k + |d|] == d && (k + |d| < |s| ==> !IsDigitByte(s[k + |d|]))
    ensures ReadNumber(s, k) == Number(true, n, k + |Decimal(n)|)
  {
    hide *;
    ValueOfDecimal(n);
    DigitsRead(s, k, Decimal(n));
  }

  // ----- Padded fields -----

  /** _bfd_ar_spacepad: fill a field of `n` bytes, truncating what does not fit. */
  function Padded(text: seq<byte>, n: nat): (r: seq<byte>)
    ensures |r| == n
  {
    if |text| < n then text + Spaces(n - |text|) else text[..n]
  }

  /** _bfd_ar_sizepad, which fails on a number that does not fit. */
  function SizeField(n: nat): (r: Option<seq<byte>>)
    ensures r.Some? ==> |r.value| == 10
    ensures r.Some? <==> |Decimal(n)| <= 10
  {
    if |Decimal(n)| > 10 then None else Some(Padded(Decimal(n), 10))
  }

  /** Exactly the sizes below 10^10 fit, and they read back. */
  lemma SizeReadsBack(n: nat)
    ensures SizeField(n).Some? <==> n < Pow10(10)
    ensures SizeField(n).Some? ==> ReadNumber(SizeField(n).value, 0).found && ReadNumber(SizeField(n).value, 0).value == n
  {
    DecimalLength(n, 10);
    if SizeField(n).Some? {
      NumberReadsBack(SizeField(n).value, 0, n);
    }
  }

  // ----- Pieces of a buffer -----

  /** The bytes from `k` on are `part`. */
  ghost predicate At(s: seq<byte>, k: nat, part: seq<byte>) {
    k + |part| <= |s| && s[k..k + |part|] == part
  }

  lemma AtFront(a: seq<byte>, b: seq<byte>)
    ensures At(a + b, 0, a) && At(a + b, |a|, b)
  {
  }

  /** A piece of a piece. */
  lemma AtAt(s: seq<byte>, k: nat, part: seq<byte>, i: nat, inner: seq<byte>)
    requires At(s, k, part) && At(part, i, inner)
    ensures At(s, k + i, inner)
  {
    forall j | 0 <= j < |inner| ensures s[k + i + j] == inner[j] {
      assert part[i..i + |inner|][j] == part[i + j] == s[k..k + |part|][i + j];
    }
  }

  lemma AtByte(s: seq<byte>, k: nat, part: seq<byte>, i: nat)
    requires At(s, k, part) && i < |part|
    ensures k + i < |s| && s[k + i] == part[i]
  {
    assert s[k..k + |part|][i] == s[k + i];
  }

  lemma AtSlice(s: seq<byte>, k: nat, part: seq<byte>)
    ensures At(s, k, part) <==> k + |part| <= |s| && s[k..k + |part|] == part
  {
  }

  lemma Get32At(e: Endian, s: seq<byte>, k: nat, x: int)
    requires At(s, k, Put32(e, x)) && 0 <= x < TWO_TO_32
    ensures k + 4 <= |s| && Get32(e, s, k) == x
  {
    hide Get32, Put32;
    Put32Get32(e, x, s, k);
  }

  lemma Get64At(s: seq<byte>, k: nat, x: int)
    requires At(s, k, Put64(x)) && 0 <= x < TWO_TO_64
    ensures k + 8 <= |s| && Get64(s, k) == x
  {
    hide Get64, Put64;
    Put64Get64(x, s, k);
  }

  // ----- C strings -----

  predicate NulFree(s: seq<byte>) {
    forall i :: 0 <= i < |s| ==> s[i] != 0
  }

  /** The string that starts at `k`; the buffer is followed by a NUL. */
  function CString(s: seq<byte>, k: nat): (r: seq<byte>)
    requires k <= |s|
    ensures k + |r| <= |s| && r == s[k..k + |r|] && NulFree(r) && (k + |r| < |s| ==> s[k + |r|] == 0)
    decreases |s| - k
  {
    if k == |s| || s[k] == 0 then [] else [s[k]] + CString(s, k + 1)
  }

  lemma CStringIs(s: seq<byte>, k: nat, name: seq<byte>)
    requires k + |name| <= |s| && s[k..k + |name|] == name && NulFree(name)
    requires k + |name| < |s| ==> s[k + |name|] == 0
    ensures CString(s, k) == name
  {
    var r := CString(s, k);
    forall i | 0 <= i < |name| ensures s[k + i] == name[i] {
      assert s[k..k + |name|][i] == s[k + i];
    }
    forall i | 0 <= i < |r| ensures s[k + i] == r[i] {
      assert s[k..k + |r|][i] == s[k + i];
    }
    if |r| != |name| {
      assert false;
    }
  }

  /** memchr: the first position of `b` in the first `n` bytes. */
  function Find(s: seq<byte>, n: nat, b: byte): (r: Option<nat>)
    requires n <= |s|
    ensures r.Some? ==> r.value < n && s[r.value] == b && forall i :: 0 <= i < r.value ==> s[i] != b
    ensures r.None? ==> forall i :: 0 <= i < n ==> s[i] != b
  {
    if n == 0 then None
    else
      var r := Find(s, n - 1, b);
      if r.Some? then r else if s[n - 1] == b then Some(n - 1) else None
  }
}
