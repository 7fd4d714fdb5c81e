/**
  Archives as they are on disk, byte for byte: the marks, names and numbers that writer and reader
  (archive.c, archive64.c, include/aout/ar.h) have to agree on with other tools.
 */
module ArFormat {
  import opened CBytes
  import opened ArText
  import opened ArHeader
  import opened ArNames
  import opened ArNameReading
  import opened ArBsd44
  import opened ArMap
  import opened ArLayout
  import opened ArWriter
  import opened ArOpen

  // ----- The first eight bytes -----

  /** A file that is opened begins with them, or with "!<bout>\n", and is thin exactly if it says so. */
  lemma OpensByFirstEight(order: Endian, maxName: nat, file: seq<byte>)
    requires 4 <= maxName <= NAME_SIZE && Open(order, maxName, file).Some?
    ensures FirstEight(false) <= file || FirstEight(true) <= file || [0x21, 0x3c, 0x62, 0x6f, 0x75, 0x74, 0x3e, 0x0a] <= file
    ensures Open(order, maxName, file).value.archive.thin <==> FirstEight(true) <= file
  {
    assert Magic(true) == FirstEight(true) && Magic(false) == FirstEight(false);
    assert BoutMagic() == [0x21, 0x3c, 0x62, 0x6f, 0x75, 0x74, 0x3e, 0x0a];
    assert |file| >= 8;
    hide SlurpMap, SlurpNames, Magic, BoutMagic;
  }

  // ----- Headers -----

  /** The sixteen bytes that begin a map's header. */
  function MapMark(kind: MapKind): seq<byte> {
    match kind
    case BsdMap(_) =>
      [0x5f, 0x5f, 0x2e, 0x53, 0x59, 0x4d, 0x44, 0x45, 0x46, 0x20, 0x20, 0x20, 0x20, 0x20, 0x20, 0x20]   // __.SYMDEF
    case CoffMap =>
      [0x2f, 0x20, 0x20, 0x20, 0x20, 0x20, 0x20, 0x20, 0x20, 0x20, 0x20, 0x20, 0x20, 0x20, 0x20, 0x20]   // /
    case Elf64Map =>
      [0x2f, 0x53, 0x59, 0x4d, 0x36, 0x34, 0x2f, 0x20, 0x20, 0x20, 0x20, 0x20, 0x20, 0x20, 0x20, 0x20]   // /SYM64/
  }

  lemma MapMarkIs(kind: MapKind)
    ensures MapName(kind) == MapMark(kind)
  {
  }

  /** A header at `pos`: name, date, owner and mode, size in decimal, and the two bytes that end every header. */
  ghost predicate HeaderOnDisk(file: seq<byte>, pos: nat, name: seq<byte>, middle: seq<byte>, size: nat) {
    && pos + 60 <= |file| && file[pos..pos + 16] == name && file[pos + 16..pos + 48] == middle
    && DecimalOnDisk(file[pos + 48..pos + 58], size) && file[pos + 58] == 0x60 && file[pos + 59] == 0x0a
  }

  /** A number in ASCII digits, without leading zeros, filled up with blanks. */
  predicate DecimalOnDisk(field: seq<byte>, n: nat) {
    exists k :: 0 < k <= |field| && PrintedIn(field, k, n)
  }

  predicate PrintedIn(field: seq<byte>, k: nat, n: nat)
    requires 0 < k <= |field|
  {
    && (forall i :: 0 <= i < k ==> 0x30 <= field[i] <= 0x39) && (field[0] == 0x30 ==> k == 1)
    && (forall i :: k <= i < |field| ==> field[i] == 0x20) && Digits(field[..k]) == n
  }

  /** The value of some digits. */
  function Digits(d: seq<byte>): int {
    if d == [] then 0 else 10 * Digits(d[..|d| - 1]) + (d[|d| - 1] as int - 48)
  }

  lemma {:induction false} DigitsOf(n: nat)
    ensures var d := Decimal(n); Digits(d) == n && (forall i :: 0 <= i < |d| ==> 0x30 <= d[i] <= 0x39) && (d[0] == 0x30 ==> |d| == 1)
  {
    if n >= 10 {
      assert Decimal(n) == Decimal(n / 10) + [(0x30 + n % 10) as byte];
      LeadingDigit(n);
      DigitsOf(n / 10);
      hide Decimal;
      OneDigit(Decimal(n / 10), n % 10);
    } else {
      assert Decimal(n) == [] + [(0x30 + n) as byte];
      hide Decimal;
      OneDigit([], n);
    }
  }

  lemma OneDigit(d: seq<byte>, x: nat)
    requires x < 10
    ensures Digits(d + [(0x30 + x) as byte]) == 10 * Digits(d) + x
    ensures d == [] ==> Digits(d) == 0
  {
    var e := d + [(0x30 + x) as byte];
    assert e[..|e| - 1] == d;
  }

  lemma SizeOnDisk(n: nat)
    requires SizeField(n).Some?
    ensures DecimalOnDisk(SizeField(n).value, n)
  {
    hide *;
    DigitsOf(n);
    SizeFieldIs(n);
    PaddedDigits(Decimal(n), n);
  }

  lemma SizeFieldIs(n: nat)
    requires SizeField(n).Some?
    ensures SizeField(n).value == Padded(Decimal(n), 10) && 0 < |Decimal(n)| <= 10
  {
    hide Decimal, Padded;
  }

  lemma PaddedDigits(d: seq<byte>, n: nat)
    requires 0 < |d| <= 10 && Digits(d) == n && (forall i :: 0 <= i < |d| ==> 0x30 <= d[i] <= 0x39) && (d[0] == 0x30 ==> |d| == 1)
    ensures DecimalOnDisk(Padded(d, 10), n)
  {
    var f := Padded(d, 10);
    assert f[..|d|] == d;
    assert forall i :: 0 <= i < |d| ==> f[i] == f[..|d|][i];
    hide Digits, Padded;
    assert PrintedIn(f, |d|, n) by {
      assert forall i :: |d| <= i < |f| ==> f[i] == 0x20 by {
        BlanksBehind(d);
      }
    }
  }

  lemma BlanksBehind(d: seq<byte>)
    requires |d| <= 10
    ensures forall i :: |d| <= i < 10 ==> Padded(d, 10)[i] == 0x20
  {
  }

  lemma HeaderIsThere(file: seq<byte>, pos: nat, name: seq<byte>, middle: seq<byte>, n: nat)
    requires |name| == 16 && |middle| == 32 && SizeField(n).Some? && At(file, pos, Header(name, middle, SizeField(n).value))
    ensures HeaderOnDisk(file, pos, name, middle, n)
  {
    SizeOnDisk(n);
    var size := SizeField(n).value;
    var h := Header(name, middle, size);
    HeaderFields(name, middle, size);
    assert h[58] == h[58..60][0] && h[59] == h[58..60][1];
    hide SizeField, DecimalOnDisk, Header;
    FieldsAt(file, pos, h);
  }

  lemma FieldsAt(file: seq<byte>, pos: nat, h: seq<byte>)
    requires |h| == 60 && At(file, pos, h)
    ensures pos + 60 <= |file| && file[pos..pos + 16] == h[..16] && file[pos + 16..pos + 48] == h[16..48]
    ensures file[pos + 48..pos + 58] == h[48..58] && file[pos + 58] == h[58] && file[pos + 59] == h[59]
  {
    hide *;
    var a, b, c := h[..16], h[16..48], h[48..58];
    PieceOf(h, 0, 16);
    PieceOf(h, 16, 48);
    PieceOf(h, 48, 58);
    assert h[0..16] == a;
    AtAt(file, pos, h, 0, a);
    AtAt(file, pos, h, 16, b);
    AtAt(file, pos, h, 48, c);
    AtSlice(file, pos, h);
    AtSlice(file, pos, a);
    AtSlice(file, pos + 16, b);
    AtSlice(file, pos + 48, c);
    AtByte(file, pos, h, 58);
    AtByte(file, pos, h, 59);
  }

  lemma PieceOf(h: seq<byte>, from: nat, end: nat)
    requires from <= end <= |h|
    ensures At(h, from, h[from..end])
  {
  }

  // ----- Symbol maps -----

  /** Four bytes, the most significant first, or last. */
  predicate WordOnDisk(order: Endian, file: seq<byte>, at: nat, x: int) {
    at + 4 <= |file| &&
    x == if order == Big then
           file[at] as int * 0x100_0000 + file[at + 1] as int * 0x1_0000 + file[at + 2] as int * 0x100 + file[at + 3] as int
         else
           file[at] as int + file[at + 1] as int * 0x100 + file[at + 2] as int * 0x1_0000 + file[at + 3] as int * 0x100_0000
  }

  /** Eight, the most significant first. */
  predicate LongOnDisk(file: seq<byte>, at: nat, x: int) {
    at + 8 <= |file| &&
    x == (file[at] as int * 0x100_0000 + file[at + 1] as int * 0x1_0000 + file[at + 2] as int * 0x100 + file[at + 3] as int) * 0x1_0000_0000
         + file[at + 4] as int * 0x100_0000 + file[at + 5] as int * 0x1_0000 + file[at + 6] as int * 0x100 + file[at + 7] as int
  }

  /** A name and its NUL. */
  predicate NameOnDisk(file: seq<byte>, at: nat, name: seq<byte>) {
    at + |name| < |file| && (forall i :: 0 <= i < |name| ==> file[at + i] == name[i]) && file[at + |name|] == 0
  }

  /** How many bytes of names stand before the k-th. */
  function NamesBefore(fs: seq<Entry>, k: nat): nat
    requires k <= |fs|
  {
    if k == 0 then 0 else NamesBefore(fs, k - 1) + |fs[k - 1].name| + 1
  }

  /**
    The k-th entry of a map.  BSD: behind the length of the table, the place of the name and the
    offset; then the length of the names.  COFF and 64-bit: behind the number of entries, the
    offsets, most significant byte first; then the names in the same order.
   */
  ghost predicate EntryOnDisk(kind: MapKind, fs: seq<Entry>, raw: seq<byte>, k: nat)
    requires k < |fs|
  {
    var n, place := |fs|, NamesBefore(fs, k);
    match kind
    case BsdMap(order) =>
      && WordOnDisk(order, raw, 0, 8 * n) && WordOnDisk(order, raw, 4 + 8 * n, |raw| - 8 - 8 * n)
      && WordOnDisk(order, raw, 4 + 8 * k, place) && WordOnDisk(order, raw, 8 + 8 * k, fs[k].offset)
      && NameOnDisk(raw, 8 + 8 * n + place, fs[k].name)
    case CoffMap =>
      WordOnDisk(Big, raw, 0, n) && WordOnDisk(Big, raw, 4 + 4 * k, fs[k].offset) && NameOnDisk(raw, 4 + 4 * n + place, fs[k].name)
    case Elf64Map =>
      LongOnDisk(raw, 0, n) && LongOnDisk(raw, 8 + 8 * k, fs[k].offset) && NameOnDisk(raw, 8 + 8 * n + place, fs[k].name)
  }

  lemma WordIs(order: Endian, file: seq<byte>, at: nat, x: int)
    requires at + 4 <= |file| && Get32(order, file, at) == x
    ensures WordOnDisk(order, file, at, x)
  {
  }

  lemma LongIs(file: seq<byte>, at: nat, x: int)
    requires at + 8 <= |file| && Get64(file, at) == x
    ensures LongOnDisk(file, at, x)
  {
  }

  lemma {:induction false} PlaceIs(fs: seq<Entry>, k: nat)
    requires k <= |fs|
    ensures NamesBefore(fs, k) == |Strings(fs, k)|
  {
    if k > 0 {
      PlaceIs(fs, k - 1);
    }
  }

  /** The names stand one after the other in a piece of the map. */
  lemma NameIsThere(fs: seq<Entry>, k: nat, raw: seq<byte>, at: nat, t: seq<byte>)
    requires k < |fs| && Strings(fs, |fs|) <= t && At(raw, at, t)
    ensures NameOnDisk(raw, at + NamesBefore(fs, k), fs[k].name)
  {
    hide *;
    PlaceIs(fs, k);
    StringsGrow(fs, k + 1, |fs|);
    var place, name := |Strings(fs, k)|, fs[k].name;
    StringsStep(fs, k);
    InPrefix(Strings(fs, k), name, Strings(fs, |fs|), Strings(fs, k + 1), t);
    NameIsAt(raw, at, t, place, name);
  }

  lemma StringsStep(fs: seq<Entry>, k: nat)
    requires k < |fs|
    ensures Strings(fs, k + 1) == Strings(fs, k) + (fs[k].name + [0])
  {
  }

  lemma NameIsAt(raw: seq<byte>, at: nat, t: seq<byte>, place: nat, name: seq<byte>)
    requires At(raw, at, t) && place + |name| + 1 <= |t| && t[place..place + |name|] == name && t[place + |name|] == 0
    ensures NameOnDisk(raw, at + place, name)
  {
    forall i | 0 <= i < |name| ensures raw[at + place + i] == name[i] {
      AtByte(raw, at, t, place + i);
      assert t[place..place + |name|][i] == t[place + i];
    }
    AtByte(raw, at, t, place + |name|);
  }

  /** What the map writers put in the file is that, in all three formats. */
  lemma MapOnDisk(kind: MapKind, fs: seq<Entry>, k: nat)
    requires k < |fs| && Readable(kind, fs) && |MapBody(kind, fs)| < TWO_TO_32
    ensures EntryOnDisk(kind, fs, MapBody(kind, fs), k)
  {
    match kind
    case BsdMap(order) => BsdOnDisk(order, fs, k);
    case CoffMap => CoffOnDisk(fs, k);
    case Elf64Map => Elf64OnDisk(fs, k);
  }

  lemma BsdOnDisk(order: Endian, fs: seq<Entry>, k: nat)
    requires k < |fs| && NulFreeNames(fs) && Fit32(fs) && |BsdBody(order, fs)| < TWO_TO_32
    ensures EntryOnDisk(BsdMap(order), fs, BsdBody(order, fs), k)
  {
    hide *;
    var n, raw := |fs|, BsdBody(order, fs);
    var c, d := Strings(fs, n), EvenPad(|Strings(fs, n)|);
    BsdPieces(order, fs);
    LengthWord(order, fs);
    Get32At(order, raw, 0, 8 * n);
    WordIs(order, raw, 0, 8 * n);
    ConcatPrefix(c, d);
    NameIsThere(fs, k, raw, 8 + 8 * n, c + d);
    StringsLength(fs, k);
    RanlibReads(order, fs, k);
    PlaceIs(fs, k);
    WordIs(order, raw, 4 + 8 * k, NamesBefore(fs, k));
    WordIs(order, raw, 8 + 8 * k, fs[k].offset);
    IsBsdEntry(order, fs, raw, k);
  }

  lemma StringsLength(fs: seq<Entry>, k: nat)
    requires k < |fs|
    ensures |Strings(fs, k)| <= |Strings(fs, |fs|)|
  {
    StringsGrow(fs, k, |fs|);
    hide Strings;
  }

  lemma IsBsdEntry(order: Endian, fs: seq<Entry>, raw: seq<byte>, k: nat)
    requires k < |fs|
    requires var n, place := |fs|, NamesBefore(fs, k);
      && WordOnDisk(order, raw, 0, 8 * n) && WordOnDisk(order, raw, 4 + 8 * n, |raw| - 8 - 8 * n)
      && WordOnDisk(order, raw, 4 + 8 * k, place) && WordOnDisk(order, raw, 8 + 8 * k, fs[k].offset)
      && NameOnDisk(raw, 8 + 8 * n + place, fs[k].name)
    ensures EntryOnDisk(BsdMap(order), fs, raw, k)
  {
    hide WordOnDisk, NameOnDisk, NamesBefore;
  }

  /** The length of the names stands between table and names. */
  lemma LengthWord(order: Endian, fs: seq<Entry>)
    requires |BsdBody(order, fs)| < TWO_TO_32
    ensures var raw, n := BsdBody(order, fs), |fs|; WordOnDisk(order, raw, 4 + 8 * n, |raw| - 8 - 8 * n)
  {
    hide *;
    var n, c, d := |fs|, Strings(fs, |fs|), EvenPad(|Strings(fs, |fs|)|);
    var a, b, w := Put32(order, 8 * n), Rows(Ranlibs(order, fs), n), Put32(order, |c| + |d|);
    BsdBodyIs(order, fs);
    BsdPieces(order, fs);
    RowsLength(Ranlibs(order, fs), 8, n);
    Associates(a + b + w, c, d);
    assert BsdBody(order, fs) + [] == BsdBody(order, fs);
    Pieces(a, b, w, c + d, []);
    Get32At(order, BsdBody(order, fs), 4 + 8 * n, |c| + |d|);
    WordIs(order, BsdBody(order, fs), 4 + 8 * n, |c| + |d|);
  }

  lemma CoffOnDisk(fs: seq<Entry>, k: nat)
    requires k < |fs| && NulFreeNames(fs) && Fit32(fs) && |CoffBody(fs)| < TWO_TO_32
    ensures EntryOnDisk(CoffMap, fs, CoffBody(fs), k)
  {
    hide *;
    var n, raw := |fs|, CoffBody(fs);
    var c, d := Strings(fs, n), EvenPad(4 * n + 4 + |Strings(fs, n)|);
    assert raw + [] == raw;
    CoffPieces(fs, []);
    Get32At(Big, raw, 0, n);
    WordIs(Big, raw, 0, n);
    WordIsOffset(fs, raw, 4, k);
    WordIs(Big, raw, 4 + 4 * k, fs[k].offset);
    ConcatPrefix(c, d);
    NameIsThere(fs, k, raw, 4 + 4 * n, c + d);
    IsCoffEntry(fs, raw, k);
  }

  lemma IsCoffEntry(fs: seq<Entry>, raw: seq<byte>, k: nat)
    requires k < |fs|
    requires WordOnDisk(Big, raw, 0, |fs|) && WordOnDisk(Big, raw, 4 + 4 * k, fs[k].offset)
    requires NameOnDisk(raw, 4 + 4 * |fs| + NamesBefore(fs, k), fs[k].name)
    ensures EntryOnDisk(CoffMap, fs, raw, k)
  {
    hide WordOnDisk, NameOnDisk, NamesBefore;
  }

  lemma Elf64OnDisk(fs: seq<Entry>, k: nat)
    requires k < |fs| && NulFreeNames(fs) && Offsets64Bit(fs) && |Elf64Body(fs)| < TWO_TO_32
    ensures EntryOnDisk(Elf64Map, fs, Elf64Body(fs), k)
  {
    hide *;
    var n, raw := |fs|, Elf64Body(fs);
    var c, d := Strings(fs, n), Pad8(8 * n + 8 + |Strings(fs, n)|);
    assert raw + [] == raw;
    Elf64Pieces(fs, []);
    SizeIs();
    Get64At(raw, 0, n);
    LongIs(raw, 0, n);
    LongWordIsOffset(fs, raw, 8, k);
    LongIs(raw, 8 + 8 * k, fs[k].offset);
    ConcatPrefix(c, d);
    NameIsThere(fs, k, raw, 8 + 8 * n, c + d);
    IsElf64Entry(fs, raw, k);
  }

  lemma IsElf64Entry(fs: seq<Entry>, raw: seq<byte>, k: nat)
    requires k < |fs|
    requires LongOnDisk(raw, 0, |fs|) && LongOnDisk(raw, 8 + 8 * k, fs[k].offset)
    requires NameOnDisk(raw, 8 + 8 * |fs| + NamesBefore(fs, k), fs[k].name)
    ensures EntryOnDisk(Elf64Map, fs, raw, k)
  {
    hide LongOnDisk, NameOnDisk, NamesBefore;
  }

  // ----- What a reader looks for -----

  /** The old name of a BSD map, and that of a sorted one on Mac OS X, where it depends on what follows the header. */
  function OldMark(): seq<byte> {
    [0x5f, 0x5f, 0x2e, 0x53, 0x59, 0x4d, 0x44, 0x45, 0x46, 0x2f, 0x20, 0x20, 0x20, 0x20, 0x20, 0x20]     // __.SYMDEF/
  }

  function SortedMark(): seq<byte> {
    [0x23, 0x31, 0x2f, 0x32, 0x30, 0x20, 0x20, 0x20, 0x20, 0x20, 0x20, 0x20, 0x20, 0x20, 0x20, 0x20]     // #1/20
  }

  /** These sixteen bytes behind the magic begin a map. */
  predicate BeginsMap(b: seq<byte>) {
    && |b| >= 16
    && (b[..16] == MapMark(BsdMap(Big)) || b[..16] == OldMark() || b[..16] == MapMark(CoffMap) || b[..16] == MapMark(Elf64Map)
        || (b[..16] == SortedMark() && |b| >= 69 && b[60..69] == MapMark(BsdMap(Big))[..9]))
  }

  /** Without such a mark no map is read; and a file too short to tell fails. */
  lemma MarkTellsMap(order: Endian, a: Archive, file: seq<byte>)
    requires a.Valid() && |file| >= 8
    ensures var b, r := file[8..], SlurpMap(order, a, file, 8);
      r == Some(MapRead(None, 8)) <==>
        b == [] || (|b| >= 16 && !BeginsMap(b) && (b[..16] == SortedMark() ==> |b| >= 80))
  {
    NoMapIsSeen(order, a, file);
    MarksAre(order);
    hide SlurpMap, MapName, OldSymdefName, SortedMapName, SymdefName, MapMark, OldMark, SortedMark;
  }

  lemma MarksAre(order: Endian)
    ensures MapName(BsdMap(order)) == MapMark(BsdMap(Big)) && MapName(CoffMap) == MapMark(CoffMap) && MapName(Elf64Map) == MapMark(Elf64Map)
    ensures OldSymdefName() == OldMark() && SortedMapName() == SortedMark()
    ensures |MapMark(BsdMap(Big))| == 16 && SymdefName() == MapMark(BsdMap(Big))[..9] && HDR_SIZE == 60
  {
    assert OldSymdefName() == OldMark();
    assert SortedMapName() == SortedMark();
  }

  /** A name table begins with one of these. */
  lemma TableMarks(name: seq<byte>)
    ensures IsNamesName(name) <==>
      || name == [0x41, 0x52, 0x46, 0x49, 0x4c, 0x45, 0x4e, 0x41, 0x4d, 0x45, 0x53, 0x2f, 0x20, 0x20, 0x20, 0x20]   // ARFILENAMES/
      || name == [0x2f, 0x2f, 0x20, 0x20, 0x20, 0x20, 0x20, 0x20, 0x20, 0x20, 0x20, 0x20, 0x20, 0x20, 0x20, 0x20]   // //
  {
    assert [SLASH, SLASH] + Spaces(14)
        == [0x2f, 0x2f, 0x20, 0x20, 0x20, 0x20, 0x20, 0x20, 0x20, 0x20, 0x20, 0x20, 0x20, 0x20, 0x20, 0x20];
    assert [0x41, 0x52, 0x46, 0x49, 0x4c, 0x45, 0x4e, 0x41, 0x4d, 0x45, 0x53, SLASH] + Spaces(4)
        == [0x41, 0x52, 0x46, 0x49, 0x4c, 0x45, 0x4e, 0x41, 0x4d, 0x45, 0x53, 0x2f, 0x20, 0x20, 0x20, 0x20];
  }

  /** Leading members called __.SYMDEF are left out of an archive that gets a new map. */
  lemma OldMapsAreDropped(es: seq<Element>)
    ensures WithoutSymdef(es) == es <==> es == [] || es[0].filename != [0x5f, 0x5f, 0x2e, 0x53, 0x59, 0x4d, 0x44, 0x45, 0x46]
    ensures var r := WithoutSymdef(es);
      && |r| <= |es| && r == es[|es| - |r|..] && (r != [] ==> r[0].filename != [0x5f, 0x5f, 0x2e, 0x53, 0x59, 0x4d, 0x44, 0x45, 0x46])
      && forall k :: 0 <= k < |es| - |r| ==> es[k].filename == [0x5f, 0x5f, 0x2e, 0x53, 0x59, 0x4d, 0x44, 0x45, 0x46]
  {
    if es != [] && es[0].filename == SymdefName() {
      OldMapsAreDropped(es[1..]);
      assert WithoutSymdef(es) == WithoutSymdef(es[1..]);
    }
  }

  // ----- What a reader refuses -----

  /** A COFF map: no room for the count, for the offsets it announces, or for the size in its header. */
  lemma CoffRefused(raw: seq<byte>, size: nat)
    ensures SlurpCoff(raw, size).None? <==>
      || |raw| < 4 || |raw| < size
      || size < 4 + 4 * (raw[0] as int * 0x100_0000 + raw[1] as int * 0x1_0000 + raw[2] as int * 0x100 + raw[3] as int)
    ensures SlurpCoff(raw, size).Some? ==> WordOnDisk(Big, raw, 0, |SlurpCoff(raw, size).value|)
  {
    hide NameEntries, Words;
  }

  lemma Elf64Refused(raw: seq<byte>, size: nat)
    ensures SlurpElf64(raw, size).None? <==>
      || |raw| < 8 || |raw| < size
      || size < 8 + 8 * ((raw[0] as int * 0x100_0000 + raw[1] as int * 0x1_0000 + raw[2] as int * 0x100 + raw[3] as int) * 0x1_0000_0000
                         + raw[4] as int * 0x100_0000 + raw[5] as int * 0x1_0000 + raw[6] as int * 0x100 + raw[7] as int)
    ensures SlurpElf64(raw, size).Some? ==> LongOnDisk(raw, 0, |SlurpElf64(raw, size).value|)
  {
    hide NameEntries, LongWords;
  }

  /** A BSD map: likewise, with the length of the table instead of the count. */
  lemma BsdRefused(order: Endian, raw: seq<byte>, size: nat)
    ensures SlurpBsd(order, raw, size).None? <==> |raw| < 4 || size < 4 || |raw| < size || Get32(order, raw, 0) / 8 * 8 > size - 4
    ensures SlurpBsd(order, raw, size).Some? ==>
      exists length :: WordOnDisk(order, raw, 0, length) && |SlurpBsd(order, raw, size).value| == length / 8
  {
    hide BsdEntry;
    if |raw| >= 4 {
      WordIs(order, raw, 0, Get32(order, raw, 0));
    }
    hide Get32;
  }

  /**
    An entry that is read has a name and the offset that stands in the map; in a COFF map, those
    for which the strings do not suffice have no name and offset 0.
   */
  lemma {:induction false} EntriesRead(offsets: seq<int>, strings: seq<byte>, i: nat, base: nat, stops: bool, k: nat)
    requires i + k < |offsets| && base <= |strings|
    ensures var c := NameEntries(offsets, strings, i, base, stops)[k];
      if c.name.Some? then c.offset == offsets[i + k] else stops && c.offset == 0
    decreases k
  {
    hide CString;
    if !(stops && base == |strings|) {
      var name := CString(strings, base);
      var next := base + |name| + (if base + |name| < |strings| then 1 else 0);
      var rest := NameEntries(offsets, strings, i + 1, next, stops);
      assert NameEntries(offsets, strings, i, base, stops) == [Carsym(Some(name), offsets[i])] + rest;
      if k > 0 {
        EntriesRead(offsets, strings, i + 1, next, stops, k - 1);
      }
      hide NameEntries;
    }
  }

  lemma {:induction false} SkipsTo(s: seq<byte>, k: nat, a: nat)
    requires k <= a <= |s| && forall i :: k <= i < a ==> s[i] == 0x20 || 0x09 <= s[i] <= 0x0d
    requires a < |s| ==> s[a] != 0x20 && !(0x09 <= s[a] <= 0x0d)
    ensures SkipSpaces(s, k) == a
    decreases a - k
  {
    if k < a {
      SkipsTo(s, k + 1, a);
    }
  }

  lemma {:induction false} DigitsAre(d: seq<byte>)
    requires forall i :: 0 <= i < |d| ==> 0x30 <= d[i] <= 0x39
    ensures (forall i :: 0 <= i < |d| ==> IsDigitByte(d[i])) && ValueOf(d) == Digits(d)
  {
    if d != [] {
      DigitsAre(d[..|d| - 1]);
    }
  }

  lemma RunIs(s: seq<byte>, b: nat, e: nat)
    requires b <= e <= |s| && (forall i :: b <= i < e ==> 0x30 <= s[i] <= 0x39) && (e < |s| ==> !(0x30 <= s[e] <= 0x39))
    ensures DigitsEnd(s, b) == e && ValueOf(s[b..e]) == Digits(s[b..e])
  {
    DigitsEndAt(s, b, e);
    DigitsAre(s[b..e]);
    hide DigitsEnd, ValueOf, Digits;
  }

  /** A number: white space up to `a`, at most one sign, and digits up to `e`. */
  lemma NumberIsRead(s: seq<byte>, k: nat, a: nat, e: nat)
    requires k <= a <= |s| && forall i :: k <= i < a ==> s[i] == 0x20 || 0x09 <= s[i] <= 0x0d
    requires a < |s| ==> s[a] != 0x20 && !(0x09 <= s[a] <= 0x0d)
    requires var b := if a < |s| && (s[a] == 0x2d || s[a] == 0x2b) then a + 1 else a;
      b <= e <= |s| && (forall i :: b <= i < e ==> 0x30 <= s[i] <= 0x39) && (e < |s| ==> !(0x30 <= s[e] <= 0x39))
    ensures var b := if a < |s| && (s[a] == 0x2d || s[a] == 0x2b) then a + 1 else a;
      ReadNumber(s, k) ==
        if e == b then Number(false, 0, k)
        else Number(true, if s[a] == 0x2d then -Digits(s[b..e]) else Digits(s[b..e]), e)
  {
    hide SkipSpaces, DigitsEnd, ValueOf, Digits, IsDigitByte, IsSpaceByte;
    SkipsTo(s, k, a);
    RunIs(s, if a < |s| && (s[a] == 0x2d || s[a] == 0x2b) then a + 1 else a, e);
  }

  /** A number in a header is a signed 64-bit one, and a length behind "#1/" is cut to a signed 32-bit one. */
  lemma NumbersAreCut(hdr: seq<byte>, k: nat, value: int)
    requires k <= |hdr|
    ensures ReadLong(hdr, k).Some? <==> -0x8000_0000_0000_0000 <= ReadNumber(hdr, k).value <= 0x7fff_ffff_ffff_ffff
    ensures -0x8000_0000 <= ToInt(value) <= 0x7fff_ffff
    ensures if value <= 0x7fff_ffff_ffff_ffff then (value - ToInt(value)) % 0x1_0000_0000 == 0 else ToInt(value) == -1
  {
    hide ReadNumber;
  }

  /** Without a name table, a header that announces no name: the end of the file, the two last bytes, or a size without a digit. */
  lemma HeaderRefused(a: Archive, file: seq<byte>, pos: nat)
    requires a.Valid() && a.names.None?
    requires pos + 4 <= |file| ==> file[pos..pos + 3] != [0x23, 0x31, 0x2f]
    ensures ReadHeader(a, file, pos).None? <==>
      pos + 60 > |file| || file[pos + 58] != 0x60 || file[pos + 59] != 0x0a || !ReadNumber(file[pos + 48..pos + 58], 0).found
  {
    if pos + 60 <= |file| {
      var h := file[pos..pos + 60];
      AtSlice(file, pos, h);
      FieldsAt(file, pos, h);
      assert h[58..60] == [file[pos + 58], file[pos + 59]];
      assert file[pos..pos + 3] == [h[0], h[1], h[2]];
    }
    hide ReadNumber, NameEnd;
  }

  // ----- Which symbols a map has -----

  /** How many symbols among the first `n` go in the map: the visible ones that are defined, or common. */
  function MappedIn(symbols: seq<Symbol>, n: nat): nat
    requires n <= |symbols|
  {
    if n == 0 then 0
    else
      var s := symbols[n - 1];
      MappedIn(symbols, n - 1) + if (s.global || s.weak || s.indirect || s.unique || s.common) && !s.undefined then 1 else 0
  }

  function MappedBefore(es: seq<Element>, i: nat): nat
    requires i <= |es|
  {
    if i == 0 then 0
    else MappedBefore(es, i - 1) + if es[i - 1].isObject then MappedIn(es[i - 1].symbols, |es[i - 1].symbols|) else 0
  }

  /** The map has those of the object files and no others, in the order of the members and of their symbols. */
  lemma {:induction false} SymbolInMap(es: seq<Element>, n: nat, i: nat, j: nat)
    requires i < n <= |es| && es[i].isObject && j < |es[i].symbols|
    requires var s := es[i].symbols[j]; (s.global || s.weak || s.indirect || s.unique || s.common) && !s.undefined
    ensures var k := MappedBefore(es, i) + MappedIn(es[i].symbols, j); k < |Exports(es, n)| && Exports(es, n)[k] == (es[i].symbols[j].name, i)
  {
    hide *;
    MapLength(es, n - 1);
    if i < n - 1 {
      ExportsGrow(es, n, MappedBefore(es, i) + MappedIn(es[i].symbols, j));
      SymbolInMap(es, n - 1, i, j);
    } else {
      ObjectExports(es[i]);
      SymbolInElement(es[i].symbols, j, |es[i].symbols|);
      ExportsGrow(es, n, MappedBefore(es, i) + MappedIn(es[i].symbols, j));
    }
  }

  lemma ObjectExports(e: Element)
    requires e.isObject
    ensures ElementExports(e) == ExportsOf(e.symbols, |e.symbols|)
  {
    hide ExportsOf;
  }

  lemma ExportsGrow(es: seq<Element>, n: nat, k: nat)
    requires 0 < n <= |es|
    ensures var m, names := |Exports(es, n - 1)|, ElementExports(es[n - 1]);
      && |Exports(es, n)| == m + |names|
      && (k < m ==> Exports(es, n)[k] == Exports(es, n - 1)[k])
      && (m <= k < m + |names| ==> Exports(es, n)[k] == (names[k - m], n - 1))
  {
    hide ElementExports;
  }

  lemma {:induction false} SymbolInElement(symbols: seq<Symbol>, j: nat, n: nat)
    requires j < n <= |symbols|
    requires var s := symbols[j]; (s.global || s.weak || s.indirect || s.unique || s.common) && !s.undefined
    ensures MappedIn(symbols, j) < |ExportsOf(symbols, n)| && ExportsOf(symbols, n)[MappedIn(symbols, j)] == symbols[j].name
    decreases n
  {
    ElementLength(symbols, n - 1);
    if j < n - 1 {
      SymbolInElement(symbols, j, n - 1);
    }
  }

  lemma {:induction false} ElementLength(symbols: seq<Symbol>, n: nat)
    requires n <= |symbols|
    ensures |ExportsOf(symbols, n)| == MappedIn(symbols, n)
  {
    if n > 0 {
      ElementLength(symbols, n - 1);
    }
  }

  lemma {:induction false} MapLength(es: seq<Element>, n: nat)
    requires n <= |es|
    ensures |Exports(es, n)| == MappedBefore(es, n)
  {
    if n > 0 {
      MapLength(es, n - 1);
      ElementLength(es[n - 1].symbols, |es[n - 1].symbols|);
      hide ExportsOf, MappedIn;
    }
  }

  // ----- Names -----

  /** A header that refers to the name table: pad character and offset; in a thin archive, for a nested member, a colon and its place. */
  lemma ReferenceOnDisk(s: Style, ms: seq<Member>, i: nat, hdr: seq<byte>)
    requires s.Valid() && i < |ms| && |hdr| == HDR_SIZE && NeedsTable(s, ms[i])
    ensures var m, d := ms[i], Decimal(Offset(s, ms, i));
      var place := Decimal(if m.origin >= 60 then m.origin - 60 else 0);
      var text := if s.thin && m.origin > 0 && |d| + 1 < s.maxName - 1 then d + [0x3a] + place else d;
      && Named(s, ms, i, hdr)[0] == s.pad && Named(s, ms, i, hdr)[s.maxName..] == hdr[s.maxName..]
      && forall k :: 0 <= k < s.maxName - 1 ==> Named(s, ms, i, hdr)[1 + k] == if k < |text| then text[k] else 0x20
  {
    hide Offset, Decimal;
  }

  /** A short name in its header. */
  lemma NameOnHeader(s: Style, ms: seq<Member>, i: nat, hdr: seq<byte>)
    requires s.Valid() && i < |ms| && |hdr| == HDR_SIZE && !NeedsTable(s, ms[i])
    ensures var name, h := BaseOf(ms[i].filename), Named(s, ms, i, hdr);
      var n := if |name| > s.maxName then s.maxName else |name|;
      && h[..n] == name[..n] && (n < 16 ==> h[n] == s.pad && h[n + 1..] == hdr[n + 1..]) && (n == 16 ==> h[16..] == hdr[16..])
  {
    hide *;
    HeaderSizes();
    NamedShort(s, ms, i, hdr);
    NameThenPad(hdr, ShortName(s, ms[i]), s.pad);
  }

  lemma NameThenPad(hdr: seq<byte>, name: seq<byte>, pad: byte)
    requires |hdr| == HDR_SIZE && |name| <= NAME_SIZE
    ensures var n, h := |name|, WithName(hdr, name, pad);
      h[..n] == name && (n < 16 ==> h[n] == pad && h[n + 1..] == hdr[n + 1..]) && (n == 16 ==> h[16..] == hdr[16..])
  {
  }

  /** A BSD 4.4 name behind its header: "#1/" and the length, rounded up to four, then the name and NULs. */
  lemma Bsd44OnDisk(maxName: nat, hdr: seq<byte>, name: seq<byte>, size: nat)
    requires 14 <= maxName <= NAME_SIZE && |hdr| == HDR_SIZE
    ensures var n := (|name| + 3) / 4 * 4;
      var h, text := Announcing(maxName, hdr, n), [0x23, 0x31, 0x2f] + Decimal(n);
      && RoundUp4(|name|) == n && h[maxName..] == hdr[maxName..]
      && (forall k :: 0 <= k < maxName ==> h[k] == if k < |text| then text[k] else 0x20)
      && (SizeField(size + n).Some? && |text| > 3 ==>
            HeaderBytes(h, name, size) == Some(h[..48] + SizeField(size + n).value + h[58..] + name + Zeros(n - |name|)))
  {
    hide Decimal, SizeField;
  }

  /** What the clean-up makes of each byte of a name table: newlines, and slashes before them, become NULs, backslashes slashes. */
  lemma CleanedByte(t: seq<byte>, k: nat)
    requires k < |t|
    ensures var slashed := k > 0 && (t[k - 1] == 0x2f || t[k - 1] == 0x5c);
      var beforeNewline := k + 1 < |t| && t[k + 1] == 0x0a;
      Converted(t)[k] ==
        if t[k] == 0x0a then if slashed then 0x0a else 0
        else if t[k] == 0x2f || t[k] == 0x5c then if beforeNewline then 0 else 0x2f
        else t[k]
  {
  }

  // ----- The whole file -----

  /**
    An archive with a map: the first eight bytes, the map's header with its size in decimal, and
    its entries in the format's own bytes; then the rest from an even position on.
   */
  lemma MappedOnDisk(kind: MapKind, thin: bool, es: seq<Element>, ename: seq<byte>, etable: seq<byte>, stamp: seq<byte>, k: nat)
    requires |stamp| == 32 && |ename| == 16 && NamesFit(etable)
    requires var xs, size := Exports(es, |es|), MapSize(kind, Exports(es, |es|));
      size < TWO_TO_32 && k < |xs| && Readable(kind, MapEntries(kind, thin, es, ClaimedBase(size, |etable|)))
    ensures var size := MapSize(kind, Exports(es, |es|));
      var file, fs := ArchiveBytes(kind, thin, true, es, ename, etable, stamp), MapEntries(kind, thin, es, ClaimedBase(size, |etable|));
      && FirstEight(thin) <= file && HeaderOnDisk(file, 8, MapMark(kind), stamp, size) && 68 + size <= |file|
      && k < |fs| && EntryOnDisk(kind, fs, file[68..68 + size], k)
  {
    hide *;
    SizeIs();
    var size := MapSize(kind, Exports(es, |es|));
    var file, fs := ArchiveBytes(kind, thin, true, es, ename, etable, stamp), MapEntries(kind, thin, es, ClaimedBase(size, |etable|));
    ArchiveBegins(kind, thin, true, es, ename, etable, stamp);
    MappedParts(kind, thin, es, ename, etable, stamp);
    MapHeaderIs(kind, size, stamp);
    MapMarkIs(kind);
    HeaderIsThere(file, 8, MapMark(kind), stamp, size);
    AtSlice(file, 68, MapBody(kind, fs));
    MapOnDisk(kind, fs, k);
  }

  lemma MapHeaderIs(kind: MapKind, size: nat, stamp: seq<byte>)
    requires |stamp| == 32 && size < TWO_TO_32
    ensures SizeField(size).Some? && MapHeader(kind, size, stamp) == Header(MapName(kind), stamp, SizeField(size).value)
    ensures |MapMark(kind)| == 16 && |MapName(kind)| == 16
  {
    U32Fits(size);
    hide SizeField, MapName, Header;
  }

  // ----- The name table and the members -----

  /**
    The name table's header and the table: in SVR4 style each name ends in a slash and a newline,
    otherwise in a newline; an odd table is followed by another newline.
   */
  lemma TableOnDisk(file: seq<byte>, pos: nat, ename: seq<byte>, etable: seq<byte>)
    requires |ename| == 16 && NamesFit(etable) && etable != [] && At(file, pos, NamesPart(ename, etable))
    ensures var size := (|etable| + 1) / 2 * 2;
      && HeaderOnDisk(file, pos, ename, Spaces(32), size) && Spaces(32) == seq(32, _ => 0x20)
      && pos + 60 + size <= |file| && file[pos + 60..pos + 60 + |etable|] == etable
      && (|etable| % 2 == 1 ==> file[pos + 60 + |etable|] == 0x0a)
  {
    hide *;
    HeaderSizes();
    NamesHeaderAt(file, pos, ename, etable);
    BlanksAre();
    HeaderIsThere(file, pos, ename, Spaces(32), (|etable| + 1) / 2 * 2);
    PaddedAt(file, pos + 60, etable);
  }

  lemma BlanksAre()
    ensures Spaces(32) == seq(32, _ => 0x20)
  {
  }

  lemma PaddedAt(file: seq<byte>, pos: nat, text: seq<byte>)
    requires At(file, pos, text + OddPad(|text|))
    ensures pos + |text| + |text| % 2 <= |file| && file[pos..pos + |text|] == text
    ensures |text| % 2 == 1 ==> file[pos + |text|] == 0x0a
  {
    AtFront(text, OddPad(|text|));
    AtAt(file, pos, text + OddPad(|text|), 0, text);
    if |text| % 2 == 1 {
      AtByte(file, pos, text + OddPad(|text|), |text|);
    }
  }

  /** A member: its header, its contents and a newline if they are odd; in a thin archive the header alone. */
  lemma MemberOnDisk(file: seq<byte>, pos: nat, thin: bool, e: Element)
    requires At(file, pos, Written(thin, e))
    ensures pos + |e.head| <= |file| && file[pos..pos + |e.head|] == e.head
    ensures thin ==> |Written(thin, e)| == |e.head|
    ensures !thin ==>
      var at, n := pos + |e.head|, |e.contents|;
      && |Written(thin, e)| == |e.head| + n + n % 2
      && at + n + n % 2 <= |file| && file[at..at + n] == e.contents && (n % 2 == 1 ==> file[at + n] == 0x0a)
  {
    if !thin {
      Associates(e.head, e.contents, OddPad(|e.contents|));
      AtFront(e.head, e.contents + OddPad(|e.contents|));
      AtAt(file, pos, Written(thin, e), 0, e.head);
      AtAt(file, pos, Written(thin, e), |e.head|, e.contents + OddPad(|e.contents|));
      PaddedAt(file, pos + |e.head|, e.contents);
    }
  }

  /** Which names go in the table and how they end there. */
  lemma TableEntry(s: Style, ms: seq<Member>, i: nat)
    requires i < |ms|
    ensures var m := ms[i];
      var shared := s.thin && i > 0 && PathOf(m) == PathOf(ms[i - 1]);
      var name := if s.thin then s.adjust(if m.container.Some? then m.container.value else m.filename) else BaseOf(m.filename);
      Table(s, ms, i + 1) == Table(s, ms, i) +
        if !shared && (s.thin || (|BaseOf(m.filename)| > s.maxName && !s.traditional)) then name + if s.slash then [0x2f, 0x0a] else [0x0a]
        else []
  {
  }
}
