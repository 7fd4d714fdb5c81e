/**
  The two look-ahead scans over an included header's symbols (the N_BINCL case of
  aout_link_write_symbols in aoutx.h): adding up a checksum of its stabs strings, and
  marking a duplicate's own symbols so that they are not written.
 */
module HeaderScan {
  import opened CBytes
  import opened LinkModel

  predicate IsDigit(c: char) {
    '0' <= c <= '9'
  }

  /** A plain C char is signed. */
  function CharValue(c: char): int {
    if c as int < 128 then c as int else c as int - 256
  }

  /** The first position at or after `k` that does not hold a digit. */
  function SkipDigits(s: string, k: nat): (r: nat)
    requires k <= |s|
    ensures k <= r <= |s|
    ensures forall j :: k <= j < r ==> IsDigit(s[j])
    ensures r < |s| ==> !IsDigit(s[r])
    decreases |s| - k
  {
    if k < |s| && IsDigit(s[k]) then SkipDigits(s, k + 1) else k
  }

  /** The string without the file numbers: the digits that follow an open parenthesis. */
  function Normalized(s: string): string
    decreases |s|
  {
    if s == [] then []
    else if s[0] == '(' then [s[0]] + Normalized(s[SkipDigits(s, 1)..])
    else [s[0]] + Normalized(s[1..])
  }

  function CharSum(s: string): int {
    if s == [] then 0 else CharValue(s[0]) + CharSum(s[1..])
  }

  /** The checksum of one stabs string, by the characters that remain without file numbers. */
  function StringTotal(s: string): int {
    CharSum(Normalized(s))
  }

  // ----- What the checksum is, character by character -----

  /** The character at `k` belongs to a file number: only digits stand between an open parenthesis and it. */
  predicate InFileNumber(s: string, k: nat)
    requires k < |s|
  {
    '0' <= s[k] <= '9' && k > 0 && (s[k - 1] == '(' || InFileNumber(s, k - 1))
  }

  /** The first `n` characters added up as signed 8-bit numbers, leaving out file numbers. */
  function SumOfFirst(s: string, n: nat): int
    requires n <= |s|
  {
    if n == 0 then 0
    else SumOfFirst(s, n - 1) + if InFileNumber(s, n - 1) then 0 else if s[n - 1] < 128 as char then s[n - 1] as int else s[n - 1] as int - 256
  }

  /** The checksum of a stabs string is that sum. */
  lemma TotalIsSum(s: string)
    ensures StringTotal(s) == SumOfFirst(s, |s|)
  {
    TotalFrom(s, 0);
    assert s[0..] == s;
  }

  /** The rest of the string, from a character that is in no file number. */
  lemma {:induction false} TotalFrom(s: string, k: nat)
    requires k <= |s| && (k < |s| ==> !InFileNumber(s, k))
    ensures SumOfFirst(s, k) + StringTotal(s[k..]) == SumOfFirst(s, |s|)
    decreases |s| - k
  {
    if k < |s| {
      var rest := s[k..];
      var n := if s[k] == '(' then SkipDigits(rest, 1) else 1;
      assert rest[n..] == s[k + n..];
      FileNumberAdds(s, k, n);
      TotalFrom(s, k + n);
    }
  }

  lemma {:induction false} FileNumberAdds(s: string, k: nat, n: nat)
    requires k < k + n <= |s| && !InFileNumber(s, k) && (n > 1 ==> s[k] == '(')
    requires forall j :: 1 <= j < n ==> IsDigit(s[k..][j])
    ensures SumOfFirst(s, k + n) == SumOfFirst(s, k) + CharValue(s[k])
    ensures n > 1 ==> InFileNumber(s, k + n - 1)
    ensures k + n < |s| && (n == 1 ==> s[k] != '(' || !IsDigit(s[k + n])) && (n > 1 ==> !IsDigit(s[k + n])) ==> !InFileNumber(s, k + n)
  {
    if n > 1 {
      FileNumberAdds(s, k, n - 1);
      assert s[k..][n - 1] == s[k + n - 1];
    }
  }

  /** Exchanging one character for another moves the checksum by their difference. */
  lemma OneCharacterCounts(before: string, c: char, d: char, after: string)
    requires !('0' <= c <= '9') && !('0' <= d <= '9') && c != '(' && d != '('
    ensures StringTotal([]) == 0
    ensures StringTotal(before + [c] + after) - StringTotal(before + [d] + after) ==
      (if c < 128 as char then c as int else c as int - 256) - if d < 128 as char then d as int else d as int - 256
  {
    var s, t := before + [c] + after, before + [d] + after;
    TotalIsSum(s);
    TotalIsSum(t);
    SumsDiffer(s, t, |before|, |s|);
  }

  lemma {:induction false} SumsDiffer(s: string, t: string, p: nat, n: nat)
    requires |s| == |t| && p < |s| && n <= |s| && forall j :: 0 <= j < |s| && j != p ==> s[j] == t[j]
    requires !('0' <= s[p] <= '9') && !('0' <= t[p] <= '9') && s[p] != '(' && t[p] != '('
    ensures SumOfFirst(s, n) - SumOfFirst(t, n) ==
      if n <= p then 0
      else (if s[p] < 128 as char then s[p] as int else s[p] as int - 256) - if t[p] < 128 as char then t[p] as int else t[p] as int - 256
    ensures n < |s| ==> InFileNumber(s, n) == InFileNumber(t, n)
  {
    if n > 0 {
      SumsDiffer(s, t, p, n - 1);
    }
  }

  /** Changing the file number after a parenthesis does not change the checksum. */
  lemma FileNumberIsIgnored(before: string, number: string, number': string, after: string)
    requires forall k :: 0 <= k < |number| ==> IsDigit(number[k])
    requires forall k :: 0 <= k < |number'| ==> IsDigit(number'[k])
    requires after != [] ==> !IsDigit(after[0])
    ensures StringTotal(before + (['('] + number + after)) == StringTotal(before + (['('] + number' + after))
  {
    NumberDropped(number, after);
    NumberDropped(number', after);
    SameAfterPrefix(before, ['('] + number + after, ['('] + number' + after);
  }

  lemma NumberDropped(number: string, after: string)
    requires forall k :: 0 <= k < |number| ==> IsDigit(number[k])
    requires after != [] ==> !IsDigit(after[0])
    ensures Normalized(['('] + number + after) == ['('] + Normalized(after)
  {
    var s := ['('] + number + after;
    SkipsExactly(s, 1, 1 + |number|);
    assert s[1 + |number|..] == after;
  }

  /** What precedes a parenthesis does not matter: no run of digits reaches past one. */
  lemma {:induction false} SameAfterPrefix(before: string, r: string, r': string)
    requires r != [] && r[0] == '(' && r' != [] && r'[0] == '('
    requires Normalized(r) == Normalized(r')
    ensures Normalized(before + r) == Normalized(before + r')
    decreases |before|
  {
    if before == [] {
      assert before + r == r && before + r' == r';
    } else {
      var k := if before[0] == '(' then SkipDigits(before, 1) else 1;
      NormalizedHead(before, r, k);
      NormalizedHead(before, r', k);
      SameAfterPrefix(before[k..], r, r');
    }
  }

  lemma NormalizedHead(before: string, r: string, k: nat)
    requires before != [] && r != [] && r[0] == '('
    requires k == if before[0] == '(' then SkipDigits(before, 1) else 1
    ensures Normalized(before + r) == [before[0]] + Normalized(before[k..] + r)
  {
    var s := before + r;
    assert s[k..] == before[k..] + r;
    if before[0] == '(' {
      forall j | 1 <= j < k ensures IsDigit(s[j]) {
        assert s[j] == before[j];
      }
      assert s[k] == if k < |before| then before[k] else '(';
      SkipsExactly(s, 1, k);
    }
  }

  lemma {:induction false} SkipsExactly(s: string, from: nat, end: nat)
    requires from <= end <= |s|
    requires forall j :: from <= j < end ==> IsDigit(s[j])
    requires end < |s| ==> !IsDigit(s[end])
    ensures SkipDigits(s, from) == end
    decreases end - from
  {
    if from < end {
      SkipsExactly(s, from + 1, end);
    }
  }

  /** The inner loop of the first scan; the pointer steps back after the digits as in the source. */
  method SumString(s: string) returns (val: int)
    ensures val == StringTotal(s)
  {
    val := 0;
    var k := 0;
    while k < |s|
      invariant 0 <= k <= |s|
      invariant val + StringTotal(s[k..]) == StringTotal(s)
    {
      ghost var rest := s[k..];
      val := val + CharValue(s[k]);
      if s[k] == '(' {
        ghost var open := k;
        k := k + 1;
        while k < |s| && IsDigit(s[k])
          invariant open < k <= |s|
          invariant forall j :: open < j < k ==> IsDigit(s[j])
        {
          k := k + 1;
        }
        SkipsExactly(rest, 1, k - open);
        assert rest[k - open..] == s[k..];
        assert Normalized(rest) == ['('] + Normalized(s[k..]);
        k := k - 1;
      } else {
        assert rest[1..] == s[k + 1..];
        assert Normalized(rest) == [s[k]] + Normalized(s[k + 1..]);
      }
      k := k + 1;
    }
  }

  // ----- The scans, by nesting depth -----

  /** The checksum of the symbols from `j` on that sit directly in the current header. */
  function HeaderTotal(syms: seq<Sym>, j: nat, nest: nat): int
    requires j <= |syms|
    decreases |syms| - j
  {
    if j == |syms| then 0
    else if syms[j].typ == N_EINCL then
      if nest == 0 then 0 else HeaderTotal(syms, j + 1, nest - 1)
    else if syms[j].typ == N_BINCL then HeaderTotal(syms, j + 1, nest + 1)
    else (if nest == 0 then StringTotal(syms[j].name) else 0) + HeaderTotal(syms, j + 1, nest)
  }

  /** The symbol map with the current header's own symbols, and its end, marked. */
  function Marked(syms: seq<Sym>, map_: seq<int>, j: nat, nest: nat): (r: seq<int>)
    requires j <= |syms| == |map_|
    ensures |r| == |map_|
    ensures forall k :: 0 <= k < |map_| ==> r[k] == map_[k] || (k >= j && r[k] == -1)
    decreases |syms| - j
  {
    if j == |syms| then map_
    else if syms[j].typ == N_EINCL then
      if nest == 0 then map_[j := -1] else Marked(syms, map_, j + 1, nest - 1)
    else if syms[j].typ == N_BINCL then Marked(syms, map_, j + 1, nest + 1)
    else Marked(syms, if nest == 0 then map_[j := -1] else map_, j + 1, nest)
  }

  /** First scan: the total wraps as a 64-bit bfd_vma. */
  method ScanHeader(syms: seq<Sym>, start: nat) returns (val: int)
    requires start <= |syms|
    ensures val == HeaderTotal(syms, start, 0) % TWO_TO_64
  {
    val := 0;
    var nest := 0;
    var j := start;
    while j < |syms|
      invariant start <= j <= |syms| && nest >= 0
      invariant (val + HeaderTotal(syms, j, nest)) % TWO_TO_64 == HeaderTotal(syms, start, 0) % TWO_TO_64
      invariant 0 <= val < TWO_TO_64
    {
      if syms[j].typ == N_EINCL {
        if nest == 0 {
          return;
        }
        nest := nest - 1;
      } else if syms[j].typ == N_BINCL {
        nest := nest + 1;
      } else if nest == 0 {
        var total := SumString(syms[j].name);
        WrapStep(val, total, HeaderTotal(syms, j + 1, nest));
        val := (val + total) % TWO_TO_64;
      }
      j := j + 1;
    }
  }

  lemma WrapStep(a: int, b: int, c: int)
    ensures ((a + b) % TWO_TO_64 + c) % TWO_TO_64 == (a + (b + c)) % TWO_TO_64
  {
  }

  /** Second scan. */
  method MarkHeader(syms: seq<Sym>, symbolMap: array<int>, start: nat)
    requires start <= |syms| <= symbolMap.Length
    modifies symbolMap
    ensures symbolMap[..|syms|] == Marked(syms, old(symbolMap[..|syms|]), start, 0)
    ensures symbolMap[|syms|..] == old(symbolMap[|syms|..])
  {
    var nest := 0;
    var j := start;
    while j < |syms|
      invariant start <= j <= |syms| && nest >= 0
      invariant Marked(syms, symbolMap[..|syms|], j, nest) == Marked(syms, old(symbolMap[..|syms|]), start, 0)
      invariant symbolMap[|syms|..] == old(symbolMap[|syms|..])
    {
      ghost var was := symbolMap[..|syms|];
      if syms[j].typ == N_EINCL {
        if nest == 0 {
          symbolMap[j] := -1;
          assert symbolMap[..|syms|] == was[j := -1];
          return;
        }
        nest := nest - 1;
      } else if syms[j].typ == N_BINCL {
        nest := nest + 1;
      } else if nest == 0 {
        symbolMap[j] := -1;
        assert symbolMap[..|syms|] == was[j := -1];
      }
      j := j + 1;
    }
  }
}
