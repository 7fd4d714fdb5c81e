/**
  Archive symbol maps (archive.c, archive64.c): the bytes of the BSD, COFF and 64-bit formats
  and the loops that read them, proved to undo each other.
 */
module ArMap {
  import opened CBytes
  import opened ArText

  /** An entry of the map: a symbol and the position of the member that defines it. */
  datatype Entry = Entry(name: seq<byte>, offset: int)

  /** `struct carsym`; the name is missing when the strings run out. */
  datatype Carsym = Carsym(name: Option<seq<byte>>, offset: int)

  // ----- Strings -----

  /** The names of the first `n` entries, each with its NUL. */
  function Strings(es: seq<Entry>, n: nat): seq<byte>
    requires n <= |es|
  {
    if n == 0 then [] else Strings(es, n - 1) + (es[n - 1].name + [0])
  }

  ghost predicate NulFreeNames(es: seq<Entry>) {
    forall k :: 0 <= k < |es| ==> NulFree(es[k].name)
  }

  lemma {:induction false} StringsGrow(es: seq<Entry>, k: nat, n: nat)
    requires k <= n <= |es|
    ensures Strings(es, k) <= Strings(es, n)
    decreases n
  {
    if k < n {
      StringsGrow(es, k, n - 1);
      LongerPrefix(Strings(es, k), Strings(es, n - 1), es[n - 1].name + [0]);
    }
  }

  lemma LongerPrefix(a: seq<byte>, b: seq<byte>, c: seq<byte>)
    requires a <= b
    ensures a <= b + c
  {
  }

  /** Name `k` stands where the names before it end. */
  lemma NameInStrings(es: seq<Entry>, k: nat, t: seq<byte>)
    requires k < |es| && Strings(es, |es|) <= t && NulFreeNames(es)
    ensures |Strings(es, k)| + |es[k].name| + 1 == |Strings(es, k + 1)| <= |t|
    ensures CString(t, |Strings(es, k)|) == es[k].name
  {
    StringsGrow(es, k + 1, |es|);
    var at, name := |Strings(es, k)|, es[k].name;
    assert Strings(es, k + 1) == Strings(es, k) + (name + [0]);
    hide Strings;
    InPrefix(Strings(es, k), name, Strings(es, |es|), Strings(es, k + 1), t);
    hide CString;
    CStringIs(t, at, name);
  }

  lemma InPrefix(a: seq<byte>, name: seq<byte>, all: seq<byte>, b: seq<byte>, t: seq<byte>)
    requires b == a + (name + [0]) && b <= all && all <= t
    ensures |a| + |name| + 1 <= |t| && t[|a|..|a| + |name|] == name && t[|a| + |name|] == 0
  {
    assert forall i :: 0 <= i < |b| ==> t[i] == all[i] == b[i];
    assert forall i :: 0 <= i < |name| ==> b[|a| + i] == name[i];
    assert b[|a| + |name|] == 0;
  }

  // ----- Rows of numbers -----

  /** `n` records of `width` bytes. */
  function Rows(rows: seq<seq<byte>>, n: nat): seq<byte>
    requires n <= |rows|
  {
    if n == 0 then [] else Rows(rows, n - 1) + rows[n - 1]
  }

  ghost predicate AllWide(rows: seq<seq<byte>>, width: nat) {
    forall k :: 0 <= k < |rows| ==> |rows[k]| == width
  }

  lemma {:induction false} RowsLength(rows: seq<seq<byte>>, width: nat, n: nat)
    requires AllWide(rows, width) && n <= |rows|
    ensures |Rows(rows, n)| == width * n
    decreases n
  {
    if n > 0 {
      RowsLength(rows, width, n - 1);
    }
  }

  lemma RowsStep(rows: seq<seq<byte>>, n: nat)
    requires 0 < n <= |rows|
    ensures Rows(rows, n) == Rows(rows, n - 1) + rows[n - 1]
  {
  }

  lemma {:induction false} RowAt(rows: seq<seq<byte>>, width: nat, n: nat, k: nat)
    requires AllWide(rows, width) && k < n <= |rows|
    ensures At(Rows(rows, n), width * k, rows[k])
    decreases n
  {
    hide *;
    RowsLength(rows, width, n - 1);
    RowsStep(rows, n);
    AtFront(Rows(rows, n - 1), rows[n - 1]);
    if k < n - 1 {
      RowAt(rows, width, n - 1, k);
      AtAt(Rows(rows, n), 0, Rows(rows, n - 1), width * k, rows[k]);
    }
  }

  function Offsets32(e: Endian, es: seq<Entry>): (r: seq<seq<byte>>)
    ensures |r| == |es|
  {
    seq(|es|, k requires 0 <= k < |es| => Put32(e, es[k].offset))
  }

  function Offsets64(es: seq<Entry>): (r: seq<seq<byte>>)
    ensures |r| == |es|
  {
    seq(|es|, k requires 0 <= k < |es| => Put64(es[k].offset))
  }

  /** BSD: each entry is the place of its name among the strings, and its offset. */
  function Ranlibs(e: Endian, es: seq<Entry>): (r: seq<seq<byte>>)
    ensures |r| == |es|
  {
    seq(|es|, k requires 0 <= k < |es| => Put32(e, |Strings(es, k)|) + Put32(e, es[k].offset))
  }

  // ----- The three formats -----

  /** A NUL if that makes the length even. */
  function EvenPad(n: nat): (r: seq<byte>)
    ensures (n + |r|) % 2 == 0 && |r| <= 1
  {
    if n % 2 == 1 then [0] else []
  }

  function Pad8(n: nat): (r: seq<byte>)
    ensures (n + |r|) % 8 == 0 && |r| < 8
  {
    Zeros((8 - n % 8) % 8)
  }

  function BsdBody(e: Endian, es: seq<Entry>): seq<byte> {
    var n, strings := |es|, Strings(es, |es|);
    var pad := EvenPad(|strings|);
    Put32(e, 8 * n) + Rows(Ranlibs(e, es), n) + Put32(e, |strings| + |pad|) + strings + pad
  }

  function CoffBody(es: seq<Entry>): seq<byte> {
    var n, strings := |es|, Strings(es, |es|);
    Put32(Big, n) + Rows(Offsets32(Big, es), n) + strings + EvenPad(4 * n + 4 + |strings|)
  }

  function Elf64Body(es: seq<Entry>): seq<byte> {
    var n, strings := |es|, Strings(es, |es|);
    Put64(n) + Rows(Offsets64(es), n) + strings + Pad8(8 * n + 8 + |strings|)
  }

  /** Four pieces one after the other, and what follows them. */
  lemma Pieces(a: seq<byte>, b: seq<byte>, c: seq<byte>, d: seq<byte>, rest: seq<byte>)
    ensures var s := a + b + c + d + rest;
      && At(s, 0, a) && At(s, |a|, b) && At(s, |a| + |b|, c) && At(s, |a| + |b| + |c|, d)
      && At(s, |a| + |b|, c + d) && At(s, 0, a + b + c + d)
  {
    hide *;
    var ab, abc, abcd, s := a + b, a + b + c, a + b + c + d, a + b + c + d + rest;
    AtFront(abcd, rest);
    AtFront(abc, d);
    AtFront(ab, c);
    AtFront(a, b);
    AtAt(s, 0, abcd, 0, abc);
    AtAt(s, 0, abcd, |abc|, d);
    AtAt(s, 0, abc, 0, ab);
    AtAt(s, 0, abc, |ab|, c);
    AtAt(s, 0, ab, 0, a);
    AtAt(s, 0, ab, |a|, b);
    Associates(ab, c, d);
    AtFront(ab, c + d);
    AtAt(s, 0, abcd, |ab|, c + d);
  }

  lemma Associates(a: seq<byte>, b: seq<byte>, c: seq<byte>)
    ensures a + b + c == a + (b + c)
  {
  }

  // ----- Reading the sequential formats -----

  /**
    The loop that gives the entries their names, one after the other.  The COFF reader stops
    when the strings run out and leaves the other entries empty; the 64-bit one goes on.
   */
  function NameEntries(offsets: seq<int>, strings: seq<byte>, i: nat, base: nat, stops: bool): (r: seq<Carsym>)
    requires i <= |offsets| && base <= |strings|
    ensures |r| == |offsets| - i
    decreases |offsets| - i
  {
    if i == |offsets| then []
    else if stops && base == |strings| then Missing(|offsets| - i)
    else
      var name := CString(strings, base);
      var next := base + |name| + (if base + |name| < |strings| then 1 else 0);
      [Carsym(Some(name), offsets[i])] + NameEntries(offsets, strings, i + 1, next, stops)
  }

  /** Entries left as bfd_zalloc made them. */
  function Missing(n: nat): (r: seq<Carsym>)
    ensures |r| == n
  {
    seq(n, _ => Carsym(None, 0))
  }

  function Words(raw: seq<byte>, at: nat, n: nat): (r: seq<int>)
    requires at + 4 * n <= |raw|
    ensures |r| == n
  {
    seq(n, k requires 0 <= k < n => Get32(Big, raw, at + 4 * k))
  }

  function LongWords(raw: seq<byte>, at: nat, n: nat): (r: seq<int>)
    requires at + 8 * n <= |raw|
    ensures |r| == n
  {
    seq(n, k requires 0 <= k < n => Get64(raw, at + 8 * k))
  }

  /** The entries as they should be read. */
  function AsRead(es: seq<Entry>): (r: seq<Carsym>)
    ensures |r| == |es|
  {
    seq(|es|, k requires 0 <= k < |es| => Carsym(Some(es[k].name), es[k].offset))
  }

  function OffsetsOf(es: seq<Entry>): (r: seq<int>)
    ensures |r| == |es|
  {
    seq(|es|, k requires 0 <= k < |es| => es[k].offset)
  }

  /** do_slurp_coff_armap, from behind the header; `size` is what the header says. */
  function SlurpCoff(raw: seq<byte>, size: nat): (r: Option<seq<Carsym>>) {
    if |raw| < 4 then None
    else
      var n := Get32(Big, raw, 0);
      if size < 4 + 4 * n || |raw| < size then None
      else Some(NameEntries(Words(raw, 4, n), raw[4 + 4 * n..size], 0, 0, true))
  }

  /** bfd_elf64_archive_slurp_armap, likewise. */
  function SlurpElf64(raw: seq<byte>, size: nat): (r: Option<seq<Carsym>>) {
    if |raw| < 8 then None
    else
      var n := Get64(raw, 0);
      if size < 8 + 8 * n || |raw| < size then None
      else Some(NameEntries(LongWords(raw, 8, n), raw[8 + 8 * n..size], 0, 0, false))
  }

  /** do_slurp_bsd_armap, likewise; an index beyond the map gives no name. */
  function SlurpBsd(e: Endian, raw: seq<byte>, size: nat): (r: Option<seq<Carsym>>) {
    if size < 4 || |raw| < size then None
    else
      var n := Get32(e, raw, 0) / 8;
      if n * 8 > size - 4 then None
      else Some(seq(n, k requires 0 <= k < n => BsdEntry(e, raw[..size], n, k)))
  }

  function BsdEntry(e: Endian, raw: seq<byte>, n: nat, k: nat): Carsym
    requires k < n && 4 + 8 * n <= |raw|
  {
    var at := 8 + 8 * n + Get32(e, raw, 4 + 8 * k);
    Carsym(if at <= |raw| then Some(CString(raw, at)) else None, Get32(e, raw, 8 + 8 * k))
  }

  // ----- The reading loops -----

  lemma NameStep(done: seq<Carsym>, offsets: seq<int>, strings: seq<byte>, i: nat, base: nat, stops: bool)
    requires i < |offsets| && base <= |strings| && !(stops && base == |strings|)
    ensures var name := CString(strings, base);
      var next := base + |name| + (if base + |name| < |strings| then 1 else 0);
      && next <= |strings|
      && done + NameEntries(offsets, strings, i, base, stops)
         == (done + [Carsym(Some(name), offsets[i])]) + NameEntries(offsets, strings, i + 1, next, stops)
  {
    hide CString;
    var name := CString(strings, base);
    var next := base + |name| + (if base + |name| < |strings| then 1 else 0);
    var rest := NameEntries(offsets, strings, i + 1, next, stops);
    assert NameEntries(offsets, strings, i, base, stops) == [Carsym(Some(name), offsets[i])] + rest;
    hide NameEntries;
    assert done + ([Carsym(Some(name), offsets[i])] + rest) == (done + [Carsym(Some(name), offsets[i])]) + rest;
  }

  lemma NameEnds(offsets: seq<int>, strings: seq<byte>, i: nat, base: nat, stops: bool)
    requires i <= |offsets| && base <= |strings| && (i == |offsets| || (stops && base == |strings|))
    ensures NameEntries(offsets, strings, i, base, stops) == Missing(|offsets| - i)
  {
  }

  /** The naming loop, with the offsets as they stand in the map. */
  method ReadNames(offsets: seq<int>, strings: seq<byte>, stops: bool) returns (carsyms: seq<Carsym>)
    ensures carsyms == NameEntries(offsets, strings, 0, 0, stops)
  {
    hide *;
    carsyms := [];
    var base, i := 0, 0;
    ghost var all := NameEntries(offsets, strings, 0, 0, stops);
    assert [] + all == all;
    while i < |offsets| && !(stops && base == |strings|)
      invariant 0 <= i <= |offsets| && 0 <= base <= |strings|
      invariant carsyms + NameEntries(offsets, strings, i, base, stops) == all
    {
      NameStep(carsyms, offsets, strings, i, base, stops);
      var name := CString(strings, base);
      carsyms := carsyms + [Carsym(Some(name), offsets[i])];
      var len := |name|;
      if base + len < |strings| {
        len := len + 1;
      }
      base := base + len;
      i := i + 1;
    }
    NameEnds(offsets, strings, i, base, stops);
    carsyms := carsyms + Missing(|offsets| - i);
  }

  method ReadCoffEntries(raw: seq<byte>, size: nat) returns (r: Option<seq<Carsym>>)
    ensures r == SlurpCoff(raw, size)
  {
    hide Get32, NameEntries, CString;
    if |raw| < 4 {
      return None;
    }
    var nsymz := Get32(Big, raw, 0);
    if size < 4 + 4 * nsymz || |raw| < size {
      return None;
    }
    var carsyms := ReadNames(Words(raw, 4, nsymz), raw[4 + 4 * nsymz..size], true);
    return Some(carsyms);
  }

  method ReadElf64Entries(raw: seq<byte>, size: nat) returns (r: Option<seq<Carsym>>)
    ensures r == SlurpElf64(raw, size)
  {
    hide Get64, NameEntries, CString;
    if |raw| < 8 {
      return None;
    }
    var nsymz := Get64(raw, 0);
    if size < 8 + 8 * nsymz || |raw| < size {
      return None;
    }
    var carsyms := ReadNames(LongWords(raw, 8, nsymz), raw[8 + 8 * nsymz..size], false);
    return Some(carsyms);
  }

  lemma FirstWord(e: Endian, raw: seq<byte>, size: nat)
    requires 4 <= size <= |raw|
    ensures Get32(e, raw[..size], 0) == Get32(e, raw, 0)
  {
    var s := raw[..size];
    assert s[0] == raw[0] && s[1] == raw[1] && s[2] == raw[2] && s[3] == raw[3];
  }

  method ReadBsdEntries(e: Endian, raw: seq<byte>, size: nat) returns (r: Option<seq<Carsym>>)
    ensures r == SlurpBsd(e, raw, size)
  {
    hide Get32, CString;
    if size < 4 || |raw| < size {
      return None;
    }
    var rawArmap := raw[..size];
    FirstWord(e, raw, size);
    var symdefCount := Get32(e, rawArmap, 0) / 8;
    if symdefCount * 8 > size - 4 {
      return None;
    }
    var entries := ReadRanlibs(e, rawArmap, symdefCount);
    assert entries == SlurpBsd(e, raw, size).value;
    return Some(entries);
  }

  method ReadRanlibs(e: Endian, rawArmap: seq<byte>, symdefCount: nat) returns (set_: seq<Carsym>)
    requires 4 + 8 * symdefCount <= |rawArmap|
    ensures |set_| == symdefCount && forall k :: 0 <= k < symdefCount ==> set_[k] == BsdEntry(e, rawArmap, symdefCount, k)
  {
    hide Get32, CString;
    set_ := [];
    var rbase, stringbase := 4, 4 + symdefCount * 8 + 4;
    var counter := 0;
    while counter < symdefCount
      invariant 0 <= counter <= symdefCount && rbase == 4 + 8 * counter && |set_| == counter
      invariant forall k :: 0 <= k < counter ==> set_[k] == BsdEntry(e, rawArmap, symdefCount, k)
    {
      var at := Get32(e, rawArmap, rbase) + stringbase;
      var entry := Carsym(if at <= |rawArmap| then Some(CString(rawArmap, at)) else None, Get32(e, rawArmap, rbase + 4));
      assert entry == BsdEntry(e, rawArmap, symdefCount, counter);
      set_ := set_ + [entry];
      counter, rbase := counter + 1, rbase + 8;
    }
  }

  // ----- Round trips -----

  /** Reading names in sequence from the strings that were written gives every name back. */
  lemma {:induction false} NamesInSequence(es: seq<Entry>, strings: seq<byte>, k: nat, stops: bool)
    requires k <= |es| && Strings(es, |es|) <= strings && NulFreeNames(es)
    ensures |Strings(es, k)| <= |strings|
    ensures NameEntries(OffsetsOf(es), strings, k, |Strings(es, k)|, stops) == AsRead(es)[k..]
    decreases |es| - k
  {
    hide CString, Strings, NulFreeNames;
    StringsGrow(es, k, |es|);
    if k < |es| {
      NameInStrings(es, k, strings);
      NamesInSequence(es, strings, k + 1, stops);
      assert AsRead(es)[k..] == [AsRead(es)[k]] + AsRead(es)[k + 1..];
    }
  }

  /** Whether every offset fits the four bytes it gets. */
  predicate Fit32(es: seq<Entry>) {
    forall k :: 0 <= k < |es| ==> 0 <= es[k].offset < TWO_TO_32
  }

  ghost predicate Offsets64Bit(es: seq<Entry>) {
    forall k :: 0 <= k < |es| ==> 0 <= es[k].offset < TWO_TO_64
  }

  lemma RowIs(es: seq<Entry>, k: nat)
    requires k < |es| && Fit32(es)
    ensures AllWide(Offsets32(Big, es), 4) && Offsets32(Big, es)[k] == Put32(Big, es[k].offset) && 0 <= es[k].offset < TWO_TO_32
  {
    hide Put32;
  }

  lemma WordIsOffset(es: seq<Entry>, raw: seq<byte>, at: nat, k: nat)
    requires At(raw, at, Rows(Offsets32(Big, es), |es|)) && Fit32(es) && k < |es|
    ensures at + 4 * k + 4 <= |raw| && Get32(Big, raw, at + 4 * k) == es[k].offset
  {
    hide *;
    RowIs(es, k);
    RowAt(Offsets32(Big, es), 4, |es|, k);
    AtAt(raw, at, Rows(Offsets32(Big, es), |es|), 4 * k, Put32(Big, es[k].offset));
    Get32At(Big, raw, at + 4 * k, es[k].offset);
  }

  lemma WordsAreOffsets(es: seq<Entry>, raw: seq<byte>, at: nat)
    requires at + 4 * |es| <= |raw| && At(raw, at, Rows(Offsets32(Big, es), |es|)) && Fit32(es)
    ensures Words(raw, at, |es|) == OffsetsOf(es)
  {
    hide At, Rows, Get32, Fit32, Offsets32;
    forall k | 0 <= k < |es| ensures Words(raw, at, |es|)[k] == OffsetsOf(es)[k] {
      WordIsOffset(es, raw, at, k);
    }
  }

  lemma LongRowIs(es: seq<Entry>, k: nat)
    requires k < |es| && Offsets64Bit(es)
    ensures AllWide(Offsets64(es), 8) && Offsets64(es)[k] == Put64(es[k].offset) && 0 <= es[k].offset < TWO_TO_64
  {
    hide Put32;
  }

  lemma LongWordIsOffset(es: seq<Entry>, raw: seq<byte>, at: nat, k: nat)
    requires At(raw, at, Rows(Offsets64(es), |es|)) && Offsets64Bit(es) && k < |es|
    ensures at + 8 * k + 8 <= |raw| && Get64(raw, at + 8 * k) == es[k].offset
  {
    hide *;
    LongRowIs(es, k);
    RowAt(Offsets64(es), 8, |es|, k);
    AtAt(raw, at, Rows(Offsets64(es), |es|), 8 * k, Put64(es[k].offset));
    Get64At(raw, at + 8 * k, es[k].offset);
  }

  lemma LongWordsAreOffsets(es: seq<Entry>, raw: seq<byte>, at: nat)
    requires at + 8 * |es| <= |raw| && At(raw, at, Rows(Offsets64(es), |es|)) && Offsets64Bit(es)
    ensures LongWords(raw, at, |es|) == OffsetsOf(es)
  {
    hide At, Rows, Get64, Offsets64Bit, Offsets64;
    forall k | 0 <= k < |es| ensures LongWords(raw, at, |es|)[k] == OffsetsOf(es)[k] {
      LongWordIsOffset(es, raw, at, k);
    }
  }

  lemma StringsFirst(es: seq<Entry>, strings: seq<byte>, stops: bool)
    requires Strings(es, |es|) <= strings && NulFreeNames(es)
    ensures NameEntries(OffsetsOf(es), strings, 0, 0, stops) == AsRead(es)
  {
    NamesInSequence(es, strings, 0, stops);
    assert AsRead(es)[0..] == AsRead(es);
  }

  lemma ConcatPrefix(a: seq<byte>, b: seq<byte>)
    ensures a <= a + b
  {
  }

  lemma CoffPieces(es: seq<Entry>, rest: seq<byte>)
    ensures var n, raw := |es|, CoffBody(es) + rest;
      var strings := Strings(es, n) + EvenPad(4 * n + 4 + |Strings(es, n)|);
      && |CoffBody(es)| == 4 + 4 * n + |strings|
      && At(raw, 0, Put32(Big, n)) && At(raw, 4, Rows(Offsets32(Big, es), n)) && At(raw, 4 + 4 * n, strings)
  {
    var n := |es|;
    var a, b, c := Put32(Big, n), Rows(Offsets32(Big, es), n), Strings(es, n);
    var d := EvenPad(4 * n + 4 + |c|);
    hide Put32, Rows, Strings, EvenPad;
    assert AllWide(Offsets32(Big, es), 4);
    assert CoffBody(es) == a + b + c + d;
    hide *;
    RowsLength(Offsets32(Big, es), 4, n);
    Pieces(a, b, c, d, rest);
  }

  /** Writing a COFF map and reading it back gives the same entries, whatever follows in the file. */
  lemma CoffRoundTrip(es: seq<Entry>, rest: seq<byte>)
    requires NulFreeNames(es) && Fit32(es) && |CoffBody(es)| < TWO_TO_32
    ensures SlurpCoff(CoffBody(es) + rest, |CoffBody(es)|) == Some(AsRead(es))
  {
    hide *;
    var n, raw := |es|, CoffBody(es) + rest;
    var c, d := Strings(es, n), EvenPad(4 * n + 4 + |Strings(es, n)|);
    CoffPieces(es, rest);
    Get32At(Big, raw, 0, n);
    WordsAreOffsets(es, raw, 4);
    ConcatPrefix(c, d);
    StringsFirst(es, c + d, true);
    AtSlice(raw, 4 + 4 * n, c + d);
    CoffIs(raw, |CoffBody(es)|, n, AsRead(es));
  }

  lemma CoffIs(raw: seq<byte>, size: nat, n: nat, r: seq<Carsym>)
    requires 4 + 4 * n <= size <= |raw| && Get32(Big, raw, 0) == n
    requires NameEntries(Words(raw, 4, n), raw[4 + 4 * n..size], 0, 0, true) == r
    ensures SlurpCoff(raw, size) == Some(r)
  {
    hide Get32, NameEntries, Words;
  }

  lemma Elf64Pieces(es: seq<Entry>, rest: seq<byte>)
    ensures var n, raw := |es|, Elf64Body(es) + rest;
      var strings := Strings(es, n) + Pad8(8 * n + 8 + |Strings(es, n)|);
      && |Elf64Body(es)| == 8 + 8 * n + |strings|
      && At(raw, 0, Put64(n)) && At(raw, 8, Rows(Offsets64(es), n)) && At(raw, 8 + 8 * n, strings)
  {
    var n := |es|;
    var a, b, c := Put64(n), Rows(Offsets64(es), n), Strings(es, n);
    var d := Pad8(8 * n + 8 + |c|);
    hide Put64, Rows, Strings, Pad8;
    assert AllWide(Offsets64(es), 8);
    assert Elf64Body(es) == a + b + c + d;
    hide *;
    RowsLength(Offsets64(es), 8, n);
    Pieces(a, b, c, d, rest);
  }

  /** Writing a 64-bit map and reading it back gives the same entries. */
  lemma Elf64RoundTrip(es: seq<Entry>, rest: seq<byte>)
    requires NulFreeNames(es) && Offsets64Bit(es) && |Elf64Body(es)| < TWO_TO_64
    ensures SlurpElf64(Elf64Body(es) + rest, |Elf64Body(es)|) == Some(AsRead(es))
  {
    hide *;
    var n, raw := |es|, Elf64Body(es) + rest;
    var c, d := Strings(es, n), Pad8(8 * n + 8 + |Strings(es, n)|);
    Elf64Pieces(es, rest);
    Get64At(raw, 0, n);
    LongWordsAreOffsets(es, raw, 8);
    ConcatPrefix(c, d);
    StringsFirst(es, c + d, false);
    AtSlice(raw, 8 + 8 * n, c + d);
    Elf64Is(raw, |Elf64Body(es)|, n, AsRead(es));
  }

  lemma Elf64Is(raw: seq<byte>, size: nat, n: nat, r: seq<Carsym>)
    requires 8 + 8 * n <= size <= |raw| && Get64(raw, 0) == n
    requires NameEntries(LongWords(raw, 8, n), raw[8 + 8 * n..size], 0, 0, false) == r
    ensures SlurpElf64(raw, size) == Some(r)
  {
    hide Get64, NameEntries, LongWords;
  }

  lemma RanlibIs(e: Endian, es: seq<Entry>, k: nat)
    requires k < |es|
    ensures AllWide(Ranlibs(e, es), 8)
    ensures Ranlibs(e, es)[k] == Put32(e, |Strings(es, k)|) + Put32(e, es[k].offset)
  {
    hide Put32, Strings;
  }

  /** A string in a piece that ends the buffer. */
  lemma StringInTail(raw: seq<byte>, at: nat, t: seq<byte>, k: nat)
    requires At(raw, at, t) && |raw| == at + |t| && k <= |t|
    ensures CString(raw, at + k) == CString(t, k)
  {
    hide *;
    AtSlice(raw, at, t);
    var name := CString(t, k);
    forall i | 0 <= i < |t| ensures raw[at + i] == t[i] {
      AtByte(raw, at, t, i);
    }
    forall i | 0 <= i < |name| ensures raw[at + k + i] == name[i] {
      assert t[k..k + |name|][i] == t[k + i] == raw[at + (k + i)];
    }
    assert k + |name| < |t| ==> raw[at + (k + |name|)] == t[k + |name|];
    CStringIs(raw, at + k, name);
  }

  lemma BsdBodyIs(e: Endian, es: seq<Entry>)
    ensures AllWide(Ranlibs(e, es), 8)
    ensures var n, c := |es|, Strings(es, |es|);
      var d := EvenPad(|c|);
      BsdBody(e, es) == Put32(e, 8 * n) + Rows(Ranlibs(e, es), n) + Put32(e, |c| + |d|) + c + d
  {
    hide Rows, Strings, EvenPad, Put32;
  }

  /** The pieces of a BSD map. */
  lemma BsdPieces(e: Endian, es: seq<Entry>)
    ensures var raw, n, t := BsdBody(e, es), |es|, Strings(es, |es|) + EvenPad(|Strings(es, |es|)|);
      && |raw| == 8 + 8 * n + |t| && At(raw, 0, Put32(e, 8 * n))
      && At(raw, 4, Rows(Ranlibs(e, es), n)) && At(raw, 8 + 8 * n, t)
  {
    hide *;
    var n, c := |es|, Strings(es, |es|);
    var a, b, d := Put32(e, 8 * n), Rows(Ranlibs(e, es), n), EvenPad(|c|);
    var w := Put32(e, |c| + |d|);
    var raw := BsdBody(e, es);
    BsdBodyIs(e, es);
    RowsLength(Ranlibs(e, es), 8, n);
    Associates(a + b + w, c, d);
    assert raw + [] == raw;
    Pieces(a, b, w, c + d, []);
  }

  lemma BsdEntryIs(e: Endian, es: seq<Entry>, k: nat)
    requires k < |es| && NulFreeNames(es) && Fit32(es) && |BsdBody(e, es)| < TWO_TO_32
    ensures 4 + 8 * |es| <= |BsdBody(e, es)|
    ensures BsdEntry(e, BsdBody(e, es), |es|, k) == Carsym(Some(es[k].name), es[k].offset)
  {
    hide *;
    var raw, n, x, y := BsdBody(e, es), |es|, |Strings(es, k)|, es[k].offset;
    var t := Strings(es, n) + EvenPad(|Strings(es, n)|);
    BsdPieces(e, es);
    RowIs(es, k);
    ConcatPrefix(Strings(es, n), EvenPad(|Strings(es, n)|));
    NameInStrings(es, k, t);
    RanlibReads(e, es, k);
    StringInTail(raw, 8 + 8 * n, t, x);
    BsdEntryAt(e, raw, n, k, x, y);
  }

  /** The two numbers of the k-th entry. */
  lemma RanlibReads(e: Endian, es: seq<Entry>, k: nat)
    requires k < |es| && NulFreeNames(es) && Fit32(es) && |BsdBody(e, es)| < TWO_TO_32 && |Strings(es, k)| < TWO_TO_32
    ensures 12 + 8 * k <= |BsdBody(e, es)|
    ensures Get32(e, BsdBody(e, es), 4 + 8 * k) == |Strings(es, k)| && Get32(e, BsdBody(e, es), 8 + 8 * k) == es[k].offset
  {
    hide *;
    var raw, n, x, y := BsdBody(e, es), |es|, |Strings(es, k)|, es[k].offset;
    BsdPieces(e, es);
    RanlibIs(e, es, k);
    RowIs(es, k);
    RowAt(Ranlibs(e, es), 8, n, k);
    AtFront(Put32(e, x), Put32(e, y));
    AtAt(raw, 4, Rows(Ranlibs(e, es), n), 8 * k, Ranlibs(e, es)[k]);
    AtAt(raw, 4 + 8 * k, Ranlibs(e, es)[k], 0, Put32(e, x));
    AtAt(raw, 4 + 8 * k, Ranlibs(e, es)[k], 4, Put32(e, y));
    Get32At(e, raw, 4 + 8 * k, x);
    Get32At(e, raw, 8 + 8 * k, y);
  }

  lemma BsdEntryAt(e: Endian, raw: seq<byte>, n: nat, k: nat, at: nat, offset: int)
    requires k < n && 8 + 8 * n + at <= |raw| && Get32(e, raw, 4 + 8 * k) == at && Get32(e, raw, 8 + 8 * k) == offset
    ensures BsdEntry(e, raw, n, k) == Carsym(Some(CString(raw, 8 + 8 * n + at)), offset)
  {
    hide Get32, CString;
  }

  /** Writing a BSD map and reading it back, in either byte order, gives the same entries. */
  lemma BsdRoundTrip(e: Endian, es: seq<Entry>, rest: seq<byte>)
    requires NulFreeNames(es) && Fit32(es) && |BsdBody(e, es)| < TWO_TO_32
    ensures SlurpBsd(e, BsdBody(e, es) + rest, |BsdBody(e, es)|) == Some(AsRead(es))
  {
    hide *;
    var raw, n := BsdBody(e, es), |es|;
    BsdPieces(e, es);
    Get32At(e, raw, 0, 8 * n);
    assert (raw + rest)[..|raw|] == raw;
    FirstWord(e, raw + rest, |raw|);
    forall k | 0 <= k < n ensures BsdEntry(e, raw, n, k) == AsRead(es)[k] {
      BsdEntryIs(e, es, k);
      AsReadAt(es, k);
    }
    BsdIs(e, raw + rest, |raw|, n, AsRead(es));
  }

  lemma AsReadAt(es: seq<Entry>, k: nat)
    requires k < |es|
    ensures AsRead(es)[k] == Carsym(Some(es[k].name), es[k].offset)
  {
  }

  lemma BsdIs(e: Endian, raw: seq<byte>, size: nat, n: nat, r: seq<Carsym>)
    requires 8 + 8 * n <= size <= |raw| && Get32(e, raw, 0) == 8 * n && |r| == n
    requires forall k :: 0 <= k < n ==> BsdEntry(e, raw[..size], n, k) == r[k]
    ensures SlurpBsd(e, raw, size) == Some(r)
  {
    hide Get32, BsdEntry;
    var read := SlurpBsd(e, raw, size);
    assert Get32(e, raw, 0) / 8 == n;
    assert read.Some? && |read.value| == n;
    assert read.value == r;
  }
}
