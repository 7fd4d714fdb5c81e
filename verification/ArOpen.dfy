/**
  Opening an archive (archive.c, archive64.c): its magic, its symbol map and its name table;
  and the theorem that an archive as written is opened with everything that went into it.
 */
module ArOpen {
  import opened CBytes
  import opened ArText
  import opened ArHeader
  import opened ArNameReading
  import opened ArMap
  import opened ArLayout
  import opened ArWriter

  /** What `struct artdata` and the flags hold after opening; `first` is first_file_filepos. */
  datatype Opened = Opened(archive: Archive, symdefs: Option<seq<Carsym>>, first: nat)

  datatype MapRead = MapRead(symdefs: Option<seq<Carsym>>, first: nat)

  datatype NamesRead = NamesRead(names: Option<seq<byte>>, first: nat)

  /** "__.SYMDEF/      " */
  function OldSymdefName(): seq<byte> {
    SymdefName() + [SLASH] + Spaces(6)
  }

  /** "#1/20           " */
  function SortedMapName(): seq<byte> {
    [0x23, 0x31, SLASH, 0x32, 0x30] + Spaces(11)
  }

  /** ARMAGB */
  function BoutMagic(): seq<byte> {
    [0x21, 0x3c, 0x62, 0x6f, 0x75, 0x74, 0x3e, NEWLINE]
  }

  function SlurpBsdAt(order: Endian, a: Archive, file: seq<byte>, pos: nat): Option<MapRead>
    requires a.Valid()
  {
    match ReadHeader(a, file, pos)
    case None => None
    case Some(h) =>
      match SlurpBsd(order, file[h.at..], h.parsedSize)
      case None => None
      case Some(syms) => Some(MapRead(Some(syms), Even(h.at + h.parsedSize)))
  }

  /** A second map, as PE archives have it, is skipped; the mask is an unsigned int. */
  function SkipSecond(a: Archive, file: seq<byte>, first: nat): nat
    requires a.Valid()
  {
    match ReadHeader(a, file, first)
    case None => first
    case Some(h) =>
      if h.header[0] == SLASH && h.header[1] == SPACE then first + U32(h.parsedSize + HDR_SIZE + 1) / 2 * 2 else first
  }

  function SlurpCoffAt(a: Archive, file: seq<byte>, pos: nat): Option<MapRead>
    requires a.Valid()
  {
    match ReadHeader(a, file, pos)
    case None => None
    case Some(h) =>
      match SlurpCoff(file[h.at..], h.parsedSize)
      case None => None
      case Some(syms) => Some(MapRead(Some(syms), SkipSecond(a, file, Even(h.at + h.parsedSize))))
  }

  function SlurpElf64At(a: Archive, file: seq<byte>, pos: nat): Option<MapRead>
    requires a.Valid()
  {
    match ReadHeader(a, file, pos)
    case None => None
    case Some(h) =>
      match SlurpElf64(file[h.at..], h.parsedSize)
      case None => None
      case Some(syms) => Some(MapRead(Some(syms), Even(h.at + h.parsedSize)))
  }

  /** bfd_slurp_armap: the name of the first member says which kind of map it is, if any. */
  function SlurpMap(order: Endian, a: Archive, file: seq<byte>, pos: nat): Option<MapRead>
    requires a.Valid() && pos <= |file|
  {
    if pos == |file| then Some(MapRead(None, pos))
    else if pos + 16 > |file| then None
    else
      var next := file[pos..pos + 16];
      if next == MapName(BsdMap(order)) || next == OldSymdefName() then SlurpBsdAt(order, a, file, pos)
      else if next == MapName(CoffMap) then SlurpCoffAt(a, file, pos)
      else if next == MapName(Elf64Map) then SlurpElf64At(a, file, pos)
      else if next == SortedMapName() then
        if pos + HDR_SIZE + 20 > |file| then None
        else if file[pos + HDR_SIZE..pos + HDR_SIZE + 9] == SymdefName() then SlurpBsdAt(order, a, file, pos)
        else Some(MapRead(None, pos))
      else Some(MapRead(None, pos))
  }

  predicate IsNamesName(name: seq<byte>) {
    name == [0x41, 0x52, 0x46, 0x49, 0x4c, 0x45, 0x4e, 0x41, 0x4d, 0x45, 0x53, SLASH] + Spaces(4)   // ARFILENAMES/
    || name == [SLASH, SLASH] + Spaces(14)
  }

  /** _bfd_slurp_extended_name_table */
  function SlurpNames(a: Archive, file: seq<byte>, pos: nat): Option<NamesRead>
    requires a.Valid()
  {
    if pos + 16 > |file| || !IsNamesName(file[pos..pos + 16]) then Some(NamesRead(None, pos))
    else
      match ReadHeader(a, file, pos)
      case None => None
      case Some(h) =>
        if h.at + h.parsedSize > |file| then None
        else Some(NamesRead(Some(Converted(file[h.at..h.at + h.parsedSize])), Even(h.at + h.parsedSize)))
  }

  /** bfd_generic_archive_p */
  function Open(order: Endian, maxName: nat, file: seq<byte>): Option<Opened>
    requires 4 <= maxName <= NAME_SIZE
  {
    if |file| < SARMAG then None
    else
      var thin := file[..SARMAG] == Magic(true);
      if file[..SARMAG] != Magic(false) && file[..SARMAG] != BoutMagic() && !thin then None
      else
        var a := Archive(maxName, thin, None);
        match SlurpMap(order, a, file, SARMAG)
        case None => None
        case Some(m) =>
          match SlurpNames(a, file, m.first)
          case None => None
          case Some(n) => Some(Opened(a.(names := n.names), m.symdefs, n.first))
  }

  // ----- Reading headers that are not members' -----

  lemma PlainHeaderReads(a: Archive, file: seq<byte>, pos: nat, name: seq<byte>, middle: seq<byte>, n: nat)
    requires a.Valid() && a.names.None? && |name| == 16 && |middle| == 32 && n < TWO_TO_64 && SizeField(n).Some?
    requires At(file, pos, Header(name, middle, SizeField(n).value)) && !HasBsd44Name(name)
    ensures var r := ReadHeader(a, file, pos);
      && r.Some? && r.value.parsedSize == n && r.value.at == pos + HDR_SIZE && r.value.at <= |file|
      && pos + 16 <= |file| && file[pos..pos + 16] == name
  {
    hide *;
    var size := SizeField(n).value;
    var hdr := Header(name, middle, size);
    HeaderFields(name, middle, size);
    AtSlice(file, pos, hdr);
    SizeIs();
    SizeReads(hdr, n);
    FrontOfSlice(file, pos, hdr, name);
    SameStart(hdr, name);
    NoTable(a, hdr);
    HeaderAlone(a, file, pos, hdr, n);
  }

  lemma SizeIs()
    ensures HDR_SIZE == 60 && SARMAG == 8 && NAME_SIZE == 16 && TWO_TO_32 < TWO_TO_64
  {
  }

  lemma FrontOfSlice(file: seq<byte>, pos: nat, hdr: seq<byte>, name: seq<byte>)
    requires |hdr| == 60 && pos + 60 <= |file| && file[pos..pos + 60] == hdr && |name| == 16 && hdr[..16] == name
    ensures file[pos..pos + 16] == name
  {
    assert file[pos..pos + 60][..16] == file[pos..pos + 16];
  }

  lemma SameStart(hdr: seq<byte>, name: seq<byte>)
    requires |name| == 16 && |hdr| == 60 && hdr[..16] == name
    ensures HasBsd44Name(hdr) == HasBsd44Name(name)
  {
    assert hdr[0] == hdr[..16][0] && hdr[1] == hdr[..16][1] && hdr[2] == hdr[..16][2] && hdr[3] == hdr[..16][3];
  }

  lemma NoTable(a: Archive, hdr: seq<byte>)
    requires a.Valid() && a.names.None? && |hdr| == HDR_SIZE
    ensures !HasExtendedName(a, hdr)
  {
    hide Find;
  }

  // ----- The parts of an archive -----

  lemma ArchiveParts(kind: MapKind, thin: bool, mapped: bool, es: seq<Element>, ename: seq<byte>, etable: seq<byte>, stamp: seq<byte>)
    requires |stamp| == 32 && |ename| == 16 && NamesFit(etable)
    ensures var file := ArchiveBytes(kind, thin, mapped, es, ename, etable, stamp);
      var m, n := MapPart(kind, thin, mapped, es, |etable|, stamp), NamesPart(ename, etable);
      && At(file, 0, Magic(thin)) && At(file, SARMAG, m) && At(file, SARMAG + |m|, n)
      && At(file, SARMAG + |m| + |n|, Members(thin, es, |es|))
      && |file| == SARMAG + |m| + |n| + |Members(thin, es, |es|)|
  {
    hide *;
    var m, n, ms := MapPart(kind, thin, mapped, es, |etable|, stamp), NamesPart(ename, etable), Members(thin, es, |es|);
    ArchiveIs(kind, thin, mapped, es, ename, etable, stamp);
    Pieces(Magic(thin), m, n, ms, []);
    assert Magic(thin) + m + n + ms + [] == Magic(thin) + m + n + ms;
  }

  /** Where the members start, from the bytes before them and as TrueBase has it. */
  lemma PrefixLength(kind: MapKind, thin: bool, es: seq<Element>, ename: seq<byte>, etable: seq<byte>, stamp: seq<byte>)
    requires |stamp| == 32 && |ename| == 16 && NamesFit(etable)
    ensures |MapPart(kind, thin, true, es, |etable|, stamp)| == HDR_SIZE + MapSize(kind, Exports(es, |es|))
    ensures |NamesPart(ename, etable)| == NamesLength(|etable|)
    ensures SARMAG + |MapPart(kind, thin, true, es, |etable|, stamp)| + |NamesPart(ename, etable)|
         == TrueBase(MapSize(kind, Exports(es, |es|)), |etable|)
  {
    hide MapSize, Exports, MapEntries, MapBody, ClaimedBase, SizeField, Header;
    BodySize(kind, thin, es, ClaimedBase(MapSize(kind, Exports(es, |es|)), |etable|));
  }

  /** The map's offsets are positions, exactly when map and name table are smaller than 4 GB. */
  lemma MapIsExact(kind: MapKind, thin: bool, es: seq<Element>, elength: nat, k: nat)
    requires AllSuit(kind, thin, es) && k < |Exports(es, |es|)|
    ensures var size := MapSize(kind, Exports(es, |es|));
      MapEntries(kind, thin, es, ClaimedBase(size, elength))[k].offset == TrueEntries(thin, es, TrueBase(size, elength))[k].offset
      <==> size + NamesLength(elength) < TWO_TO_32
  {
    hide *;
    var size := MapSize(kind, Exports(es, |es|));
    MapSizeIsEven(kind, Exports(es, |es|));
    BaseIsEven(size, elength);
    BaseIsExact(size, elength);
    EntriesAreTrue(kind, thin, es, ClaimedBase(size, elength));
    MapEntriesAre(kind, thin, es, ClaimedBase(size, elength));
    TrueEntryIs(thin, es, ClaimedBase(size, elength), k);
    TrueEntryIs(thin, es, TrueBase(size, elength), k);
  }

  lemma MapEntriesAre(kind: MapKind, thin: bool, es: seq<Element>, base: int)
    ensures MapEntries(kind, thin, es, base) == ComputedEntries(kind, thin, es, base)
  {
    hide ComputedEntries, Exports;
  }

  lemma TrueEntryIs(thin: bool, es: seq<Element>, base: int, k: nat)
    requires k < |Exports(es, |es|)|
    ensures Exports(es, |es|)[k].1 < |es|
    ensures TrueEntries(thin, es, base)[k] == Entry(Exports(es, |es|)[k].0, base + Start(thin, es, Exports(es, |es|)[k].1))
  {
    ExportsSorted(es, |es|);
    hide Exports, Start;
  }

  /** Every offset in the map is where the member that defines the symbol is written. */
  lemma MapLeadsToMembers(kind: MapKind, thin: bool, es: seq<Element>, ename: seq<byte>, etable: seq<byte>, stamp: seq<byte>, k: nat)
    requires |stamp| == 32 && |ename| == 16 && NamesFit(etable)
    requires AllSuit(kind, thin, es) && k < |Exports(es, |es|)|
    requires MapSize(kind, Exports(es, |es|)) + NamesLength(|etable|) < TWO_TO_32
    ensures Exports(es, |es|)[k].1 < |es|
    ensures var offset := MapEntries(kind, thin, es, ClaimedBase(MapSize(kind, Exports(es, |es|)), |etable|))[k].offset;
      && offset >= 0
      && At(ArchiveBytes(kind, thin, true, es, ename, etable, stamp), offset, Written(thin, es[Exports(es, |es|)[k].1]))
  {
    hide *;
    var size, owner := MapSize(kind, Exports(es, |es|)), Exports(es, |es|)[k].1;
    var file := ArchiveBytes(kind, thin, true, es, ename, etable, stamp);
    TrueEntryIs(thin, es, TrueBase(size, |etable|), k);
    MapIsExact(kind, thin, es, |etable|, k);
    ArchiveParts(kind, thin, true, es, ename, etable, stamp);
    PrefixLength(kind, thin, es, ename, etable, stamp);
    MemberAt(thin, es, owner);
    AtAt(file, TrueBase(size, |etable|), Members(thin, es, |es|), Start(thin, es, owner), Written(thin, es[owner]));
  }

  // ----- Opening what was written -----

  lemma Tail(s: seq<byte>, k: nat, part: seq<byte>)
    requires At(s, k, part)
    ensures k + |part| <= |s| && s[k..] == part + s[k + |part|..]
  {
  }

  lemma EvenStays(n: nat)
    requires n % 2 == 0
    ensures Even(n) == n
  {
  }

  lemma MapNamesAreDistinct(order: Endian, kind: MapKind)
    requires kind.BsdMap? ==> kind.order == order
    ensures !HasBsd44Name(MapName(kind)) && MapName(kind) != SortedMapName()
    ensures kind.CoffMap? || kind.Elf64Map? ==> MapName(kind) != MapName(BsdMap(order)) && MapName(kind) != OldSymdefName()
    ensures kind.Elf64Map? ==> MapName(kind) != MapName(CoffMap)
  {
    var n := MapName(kind);
    assert n[0] == (if kind.BsdMap? then 0x5f else SLASH);
    assert kind.Elf64Map? ==> n[1] == 0x53;
    assert kind.CoffMap? ==> n[1] == SPACE;
    assert MapName(BsdMap(order))[0] == 0x5f && OldSymdefName()[0] == 0x5f && SortedMapName()[0] == 0x23;
    assert MapName(CoffMap)[1] == SPACE;
  }

  /** What the map writer could store, the reader can read. */
  ghost predicate Readable(kind: MapKind, fs: seq<Entry>) {
    NulFreeNames(fs) && if kind.Elf64Map? then Offsets64Bit(fs) else Fit32(fs)
  }

  /** A map is read back from behind its header. */
  lemma BodyReads(kind: MapKind, fs: seq<Entry>, rest: seq<byte>)
    requires Readable(kind, fs) && |MapBody(kind, fs)| < TWO_TO_32
    ensures var raw, size := MapBody(kind, fs) + rest, |MapBody(kind, fs)|;
      && (kind.BsdMap? ==> SlurpBsd(kind.order, raw, size) == Some(AsRead(fs)))
      && (kind.CoffMap? ==> SlurpCoff(raw, size) == Some(AsRead(fs)))
      && (kind.Elf64Map? ==> SlurpElf64(raw, size) == Some(AsRead(fs)))
  {
    hide BsdBody, CoffBody, Elf64Body, SlurpBsd, SlurpCoff, SlurpElf64, AsRead;
    match kind
    case BsdMap(order) => BsdRoundTrip(order, fs, rest);
    case CoffMap => CoffRoundTrip(fs, rest);
    case Elf64Map => Elf64RoundTrip(fs, rest);
  }

  /** Where a reader goes on behind a map that ends at `pos`: a COFF map may be followed by another. */
  function BehindMap(kind: MapKind, a: Archive, file: seq<byte>, pos: nat): nat
    requires a.Valid()
  {
    if kind.CoffMap? then SkipSecond(a, file, pos) else pos
  }

  /** The map of a file, read where it was written. */
  lemma MapReads(kind: MapKind, order: Endian, a: Archive, file: seq<byte>, fs: seq<Entry>, stamp: seq<byte>)
    requires a.Valid() && a.names.None? && |stamp| == 32 && (kind.BsdMap? ==> kind.order == order)
    requires Readable(kind, fs)
    requires var size := |MapBody(kind, fs)|;
      && size < TWO_TO_32 && size % 2 == 0
      && At(file, SARMAG, MapHeader(kind, size, stamp)) && At(file, SARMAG + HDR_SIZE, MapBody(kind, fs))
    ensures SlurpMap(order, a, file, SARMAG)
         == Some(MapRead(Some(AsRead(fs)), BehindMap(kind, a, file, SARMAG + HDR_SIZE + |MapBody(kind, fs)|)))
  {
    hide *;
    SizeIs();
    var body := MapBody(kind, fs);
    var size := |body|;
    Fits(size);
    HeaderOf(kind, size, stamp);
    MapNamesAreDistinct(order, kind);
    PlainHeaderReads(a, file, SARMAG, MapName(kind), stamp, size);
    Tail(file, SARMAG + HDR_SIZE, body);
    BodyReads(kind, fs, file[SARMAG + HDR_SIZE + size..]);
    EvenSum(SARMAG + HDR_SIZE, size);
    EvenStays(SARMAG + HDR_SIZE + size);
    Dispatch(kind, order, a, file, AsRead(fs), size);
  }

  lemma Dispatch(kind: MapKind, order: Endian, a: Archive, file: seq<byte>, syms: seq<Carsym>, size: nat)
    requires a.Valid() && |file| >= 68 + size && file[8..24] == MapName(kind) && (kind.BsdMap? ==> kind.order == order)
    requires MapName(kind) != SortedMapName()
    requires kind.CoffMap? || kind.Elf64Map? ==> MapName(kind) != MapName(BsdMap(order)) && MapName(kind) != OldSymdefName()
    requires kind.Elf64Map? ==> MapName(kind) != MapName(CoffMap)
    requires var r := ReadHeader(a, file, 8); r.Some? && r.value.at == 68 && r.value.parsedSize == size
    requires kind.BsdMap? ==> SlurpBsd(kind.order, file[68..], size) == Some(syms)
    requires kind.CoffMap? ==> SlurpCoff(file[68..], size) == Some(syms)
    requires kind.Elf64Map? ==> SlurpElf64(file[68..], size) == Some(syms)
    requires Even(68 + size) == 68 + size
    ensures SlurpMap(order, a, file, 8) == Some(MapRead(Some(syms), BehindMap(kind, a, file, 68 + size)))
  {
    hide ReadHeader, SlurpBsd, SlurpCoff, SlurpElf64, SkipSecond, Even, MapName, SortedMapName, OldSymdefName;
    match kind
    case BsdMap(_) =>
    case CoffMap =>
    case Elf64Map =>
  }

  // ----- Behind the map -----

  /** Bytes that announce no name table. */
  predicate NoTableBytes(b: seq<byte>) {
    |b| >= 16 ==> !IsNamesName(b[..16])
  }

  /** No table is seen exactly in front of such bytes. */
  lemma NoTableIsSeen(a: Archive, file: seq<byte>, pos: nat)
    requires a.Valid() && pos <= |file|
    ensures NoTableBytes(file[pos..]) ==> SlurpNames(a, file, pos) == Some(NamesRead(None, pos))
    ensures !NoTableBytes(file[pos..]) ==> SlurpNames(a, file, pos).None? || SlurpNames(a, file, pos).value.names.Some?
  {
    hide ReadHeader, IsNamesName, Converted;
    assert |file| >= pos + 16 ==> file[pos..pos + 16] == file[pos..][..16];
  }

  /** Bytes behind a COFF map that are skipped as a second one: a header that begins with "/ " and does not wrap to nothing. */
  predicate SkippedBytes(b: seq<byte>) {
    && |b| >= HDR_SIZE && b[0] == SLASH && b[1] == SPACE && b[58..60] == Fmag()
    && var size := ParsedSize(b[..HDR_SIZE]); size.Some? && U32(size.value + HDR_SIZE + 1) / 2 * 2 != 0
  }

  /** Something is skipped exactly in front of such bytes. */
  lemma SecondIsSeen(a: Archive, file: seq<byte>, pos: nat)
    requires a.Valid() && a.names.None? && pos <= |file|
    ensures SkipSecond(a, file, pos) >= pos
    ensures SkipSecond(a, file, pos) == pos <==> !SkippedBytes(file[pos..])
  {
    hide ParsedSize, U32, Find;
    var b := file[pos..];
    if |b| >= HDR_SIZE {
      assert file[pos..pos + HDR_SIZE] == b[..HDR_SIZE];
      assert b[..HDR_SIZE][58..60] == b[58..60];
    }
  }

  lemma TableIsNotSkipped(b: seq<byte>)
    requires !NoTableBytes(b)
    ensures !SkippedBytes(b)
  {
    NamesNameIsPlain(b[..16]);
    hide IsNamesName;
  }

  /** Behind a map and without a name table, the first member must look like neither. */
  predicate PlainFirst(kind: MapKind, thin: bool, es: seq<Element>, etable: seq<byte>) {
    etable == [] ==>
      var b := Members(thin, es, |es|); NoTableBytes(b) && !(kind.CoffMap? && SkippedBytes(b))
  }

  /** What the file holds from `pos` on: the name table, if any, and the members. */
  ghost predicate RestAt(file: seq<byte>, pos: nat, thin: bool, es: seq<Element>, ename: seq<byte>, etable: seq<byte>)
    requires |ename| == 16 && NamesFit(etable)
  {
    && At(file, pos, NamesPart(ename, etable)) && At(file, pos + |NamesPart(ename, etable)|, Members(thin, es, |es|))
    && |file| == pos + |NamesPart(ename, etable)| + |Members(thin, es, |es|)|
  }

  lemma NamesHeaderAt(file: seq<byte>, pos: nat, ename: seq<byte>, etable: seq<byte>)
    requires |ename| == 16 && NamesFit(etable) && etable != [] && At(file, pos, NamesPart(ename, etable))
    ensures var m := (|etable| + 1) / 2 * 2;
      && SizeField(m).Some? && m == |etable + OddPad(|etable|)|
      && At(file, pos, Header(ename, Spaces(32), SizeField(m).value))
      && At(file, pos + HDR_SIZE, etable + OddPad(|etable|))
      && |NamesPart(ename, etable)| == HDR_SIZE + m && (HDR_SIZE + m) % 2 == 0
  {
    hide *;
    var m := (|etable| + 1) / 2 * 2;
    NamesPartIs(ename, etable);
    RoundedUp(|etable|);
    var h, t := Header(ename, Spaces(32), SizeField(m).value), etable + OddPad(|etable|);
    SizeIs();
    EvenSum(HDR_SIZE, m);
    AtFront(h, t);
    AtAt(file, pos, h + t, 0, h);
    AtAt(file, pos, h + t, |h|, t);
  }

  lemma NamesPartIs(ename: seq<byte>, etable: seq<byte>)
    requires |ename| == 16 && NamesFit(etable) && etable != []
    ensures var m := (|etable| + 1) / 2 * 2;
      SizeField(m).Some? && NamesPart(ename, etable) == Header(ename, Spaces(32), SizeField(m).value) + (etable + OddPad(|etable|))
  {
    hide SizeField, Header;
    Associates(Header(ename, Spaces(32), SizeField((|etable| + 1) / 2 * 2).value), etable, OddPad(|etable|));
  }

  lemma RoundedUp(n: nat)
    ensures (n + 1) / 2 * 2 == n + n % 2 && (n + 1) / 2 * 2 % 2 == 0
  {
  }

  lemma NamesNameIsPlain(ename: seq<byte>)
    requires IsNamesName(ename)
    ensures |ename| == 16 && !HasBsd44Name(ename) && !(ename[0] == SLASH && ename[1] == SPACE)
  {
    if ename[0] == SLASH {
      assert ename[1] == SLASH;
    } else {
      assert ename[0] == 0x41;
    }
  }

  /** The two bytes that would announce a second map. */
  lemma NoSecond(a: Archive, file: seq<byte>, pos: nat, first: seq<byte>)
    requires a.Valid() && |first| >= 2 && At(file, pos, first) && !(first[0] == SLASH && first[1] == SPACE)
    ensures SkipSecond(a, file, pos) == pos
  {
    AtByte(file, pos, first, 0);
    AtByte(file, pos, first, 1);
    hide U32;
    var r := ReadHeader(a, file, pos);
    if r.Some? {
      assert r.value.header[0] == file[pos] && r.value.header[1] == file[pos + 1];
    }
    hide ReadHeader;
  }

  /** The names read from behind the map are those of the table. */
  function NamesOfTable(etable: seq<byte>): Option<seq<byte>> {
    if etable == [] then None else Some(Converted(etable + OddPad(|etable|)))
  }

  lemma RestMeans(file: seq<byte>, pos: nat, thin: bool, es: seq<Element>, ename: seq<byte>, etable: seq<byte>)
    requires |ename| == 16 && NamesFit(etable)
    ensures RestAt(file, pos, thin, es, ename, etable) <==>
      && At(file, pos, NamesPart(ename, etable)) && At(file, pos + |NamesPart(ename, etable)|, Members(thin, es, |es|))
      && |file| == pos + |NamesPart(ename, etable)| + |Members(thin, es, |es|)|
  {
    hide At, NamesPart, Members;
  }

  lemma NoNamesPart(ename: seq<byte>, etable: seq<byte>)
    requires |ename| == 16 && etable == []
    ensures NamesFit(etable) && NamesPart(ename, etable) == [] && NamesOfTable(etable) == None
  {
  }

  lemma TableReads(a: Archive, file: seq<byte>, pos: nat, ename: seq<byte>, etable: seq<byte>)
    requires a.Valid() && a.names.None? && IsNamesName(ename) && |ename| == 16 && pos % 2 == 0
    requires NamesFit(etable) && etable != [] && |etable| < TWO_TO_32 && At(file, pos, NamesPart(ename, etable))
    ensures SkipSecond(a, file, pos) == pos
    ensures SlurpNames(a, file, pos) == Some(NamesRead(NamesOfTable(etable), pos + |NamesPart(ename, etable)|))
  {
    hide *;
    SizeIs();
    var m := (|etable| + 1) / 2 * 2;
    NamesNameIsPlain(ename);
    NamesHeaderAt(file, pos, ename, etable);
    assert m < TWO_TO_64 by { SmallTable(|etable|); }
    PlainHeaderReads(a, file, pos, ename, Spaces(32), m);
    HeaderFields(ename, Spaces(32), SizeField(m).value);
    NamePrefix(ename, Header(ename, Spaces(32), SizeField(m).value));
    NoSecond(a, file, pos, Header(ename, Spaces(32), SizeField(m).value));
    AtSlice(file, pos + HDR_SIZE, etable + OddPad(|etable|));
    EvenSum(pos, HDR_SIZE + m);
    EvenStays(pos + (HDR_SIZE + m));
    NamesAre(a, file, pos, etable, m);
  }

  lemma SmallTable(n: nat)
    requires n < TWO_TO_32
    ensures (n + 1) / 2 * 2 < TWO_TO_64
  {
  }

  lemma NamePrefix(ename: seq<byte>, h: seq<byte>)
    requires |ename| == 16 && |h| == 60 && h[..16] == ename
    ensures h[0] == ename[0] && h[1] == ename[1]
  {
    assert h[0] == h[..16][0] && h[1] == h[..16][1];
  }

  lemma NamesAre(a: Archive, file: seq<byte>, pos: nat, etable: seq<byte>, m: nat)
    requires a.Valid() && etable != [] && m == |etable + OddPad(|etable|)|
    requires pos + 60 + m <= |file| && file[pos + 60..pos + 60 + m] == etable + OddPad(|etable|) && IsNamesName(file[pos..pos + 16])
    requires var r := ReadHeader(a, file, pos); r.Some? && r.value.parsedSize == m && r.value.at == pos + 60
    requires Even(pos + (60 + m)) == pos + (60 + m)
    ensures SlurpNames(a, file, pos) == Some(NamesRead(NamesOfTable(etable), pos + 60 + m))
  {
    hide ReadHeader, Even, Converted, OddPad, IsNamesName;
  }

  // ----- The whole archive -----

  lemma MagicTells(file: seq<byte>, thin: bool)
    requires At(file, 0, Magic(thin))
    ensures |file| >= SARMAG && file[..SARMAG] == Magic(thin) && Magic(true) != Magic(false)
    ensures (file[..SARMAG] == Magic(true)) == thin
  {
    assert file[..SARMAG] == file[0..0 + SARMAG];
    assert Magic(true)[2] != Magic(false)[2];
  }

  /** Opening is reading the map, then the names behind it. */
  lemma OpenIs(order: Endian, maxName: nat, file: seq<byte>, thin: bool)
    requires 4 <= maxName <= NAME_SIZE && |file| >= SARMAG && file[..SARMAG] == Magic(thin) && (file[..SARMAG] == Magic(true)) == thin
    ensures Open(order, maxName, file) ==
      var a := Archive(maxName, thin, None);
      match SlurpMap(order, a, file, SARMAG)
      case None => None
      case Some(m) =>
        match SlurpNames(a, file, m.first)
        case None => None
        case Some(n) => Some(Opened(a.(names := n.names), m.symdefs, n.first))
  {
    hide SlurpMap, SlurpNames, Magic, BoutMagic;
    assert thin ==> file[..SARMAG] == Magic(true);
    assert !thin ==> file[..SARMAG] == Magic(false);
  }

  lemma MembersBehind(file: seq<byte>, pos: nat, members: seq<byte>)
    requires At(file, pos, members) && |file| == pos + |members|
    ensures file[pos..] == members
  {
  }

  /** Where a map's body ends. */
  function MapEnd(size: nat): nat {
    SARMAG + HDR_SIZE + size
  }

  lemma MapEndIs(size: nat)
    ensures MapEnd(size) == SARMAG + HDR_SIZE + size
  {
  }

  /** The parts of an archive with a map. */
  lemma MappedParts(kind: MapKind, thin: bool, es: seq<Element>, ename: seq<byte>, etable: seq<byte>, stamp: seq<byte>)
    requires |stamp| == 32 && |ename| == 16 && NamesFit(etable)
    ensures var size := MapSize(kind, Exports(es, |es|));
      var file, fs := ArchiveBytes(kind, thin, true, es, ename, etable, stamp), MapEntries(kind, thin, es, ClaimedBase(size, |etable|));
      && At(file, 0, Magic(thin)) && |MapBody(kind, fs)| == size
      && At(file, SARMAG, MapHeader(kind, size, stamp)) && At(file, SARMAG + HDR_SIZE, MapBody(kind, fs))
      && RestAt(file, MapEnd(size), thin, es, ename, etable)
      && MapEnd(size) + |NamesPart(ename, etable)| == TrueBase(size, |etable|)
  {
    hide *;
    var size := MapSize(kind, Exports(es, |es|));
    var file, fs := ArchiveBytes(kind, thin, true, es, ename, etable, stamp), MapEntries(kind, thin, es, ClaimedBase(size, |etable|));
    ArchiveParts(kind, thin, true, es, ename, etable, stamp);
    PrefixLength(kind, thin, es, ename, etable, stamp);
    MapPartIs(kind, thin, true, es, |etable|, stamp);
    BodySize(kind, thin, es, ClaimedBase(size, |etable|));
    AtFront(MapHeader(kind, size, stamp), MapBody(kind, fs));
    AtAt(file, SARMAG, MapPart(kind, thin, true, es, |etable|, stamp), 0, MapHeader(kind, size, stamp));
    AtAt(file, SARMAG, MapPart(kind, thin, true, es, |etable|, stamp), |MapHeader(kind, size, stamp)|, MapBody(kind, fs));
    MapEndIs(size);
    RestMeans(file, MapEnd(size), thin, es, ename, etable);
  }

  /**
    An archive written with a map is opened with that map, its name table, and the position of
    the first member, exactly if there is a name table or the first member looks like none and,
    behind a COFF map, not like a second map.
   */
  lemma OpensAsWritten(kind: MapKind, order: Endian, maxName: nat, thin: bool, es: seq<Element>, ename: seq<byte>, etable: seq<byte>,
                       stamp: seq<byte>)
    requires |stamp| == 32 && |ename| == 16 && NamesFit(etable) && IsNamesName(ename)
    requires 4 <= maxName <= NAME_SIZE && (kind.BsdMap? ==> kind.order == order)
    requires var size := MapSize(kind, Exports(es, |es|));
      && size + NamesLength(|etable|) < TWO_TO_32
      && Readable(kind, MapEntries(kind, thin, es, ClaimedBase(size, |etable|)))
    ensures var size := MapSize(kind, Exports(es, |es|));
      var fs := MapEntries(kind, thin, es, ClaimedBase(size, |etable|));
      Open(order, maxName, ArchiveBytes(kind, thin, true, es, ename, etable, stamp))
      == Some(Opened(Archive(maxName, thin, NamesOfTable(etable)), Some(AsRead(fs)), TrueBase(size, |etable|)))
      <==> PlainFirst(kind, thin, es, etable)
    ensures etable == [] && !NoTableBytes(Members(thin, es, |es|)) ==>
      var o := Open(order, maxName, ArchiveBytes(kind, thin, true, es, ename, etable, stamp)); o.None? || o.value.archive.names.Some?
  {
    hide *;
    var size := MapSize(kind, Exports(es, |es|));
    var file, fs := ArchiveBytes(kind, thin, true, es, ename, etable, stamp), MapEntries(kind, thin, es, ClaimedBase(size, |etable|));
    MapSizeIsEven(kind, Exports(es, |es|));
    TableBound(|etable|);
    MappedParts(kind, thin, es, ename, etable, stamp);
    OpensAt(kind, order, maxName, thin, file, fs, size, es, ename, etable, stamp, TrueBase(size, |etable|));
  }

  lemma OpensAt(kind: MapKind, order: Endian, maxName: nat, thin: bool, file: seq<byte>, fs: seq<Entry>, size: nat,
                es: seq<Element>, ename: seq<byte>, etable: seq<byte>, stamp: seq<byte>, first: nat)
    requires |stamp| == 32 && |ename| == 16 && NamesFit(etable) && IsNamesName(ename)
    requires 4 <= maxName <= NAME_SIZE && (kind.BsdMap? ==> kind.order == order)
    requires size % 2 == 0 && size < TWO_TO_32 && |etable| < TWO_TO_32 && Readable(kind, fs) && |MapBody(kind, fs)| == size
    requires At(file, 0, Magic(thin)) && At(file, SARMAG, MapHeader(kind, size, stamp)) && At(file, SARMAG + HDR_SIZE, MapBody(kind, fs))
    requires RestAt(file, MapEnd(size), thin, es, ename, etable)
    requires first == MapEnd(size) + |NamesPart(ename, etable)|
    ensures Open(order, maxName, file) == Some(Opened(Archive(maxName, thin, NamesOfTable(etable)), Some(AsRead(fs)), first))
       <==> PlainFirst(kind, thin, es, etable)
    ensures etable == [] && !NoTableBytes(Members(thin, es, |es|)) ==>
      var o := Open(order, maxName, file); o.None? || o.value.archive.names.Some?
  {
    hide *;
    SizeIs();
    MapEndIs(size);
    var a, pos := Archive(maxName, thin, None), MapEnd(size);
    ValidArchive(a);
    MagicTells(file, thin);
    EvenSum(SARMAG + HDR_SIZE, size);
    MapReads(kind, order, a, file, fs, stamp);
    OpenIs(order, maxName, file, thin);
    BehindIs(kind, a, file, pos);
    PlainMeans(kind, thin, es, etable);
    RestMeans(file, pos, thin, es, ename, etable);
    if etable != [] {
      TableReads(a, file, pos, ename, etable);
    } else {
      NoNamesPart(ename, etable);
      MembersBehind(file, pos, Members(thin, es, |es|));
      SecondIsSeen(a, file, pos);
      NoTableIsSeen(a, file, pos);
      if !NoTableBytes(Members(thin, es, |es|)) {
        TableIsNotSkipped(Members(thin, es, |es|));
      }
      var p := BehindMap(kind, a, file, pos);
      if p != pos {
        LandsFurther(a, file, p);
      }
    }
  }

  lemma BehindIs(kind: MapKind, a: Archive, file: seq<byte>, pos: nat)
    requires a.Valid()
    ensures BehindMap(kind, a, file, pos) == if kind.CoffMap? then SkipSecond(a, file, pos) else pos
  {
    hide SkipSecond;
  }

  lemma LandsFurther(a: Archive, file: seq<byte>, pos: nat)
    requires a.Valid()
    ensures SlurpNames(a, file, pos).Some? ==> SlurpNames(a, file, pos).value.first >= pos
  {
    hide ReadHeader, IsNamesName, Converted;
  }

  lemma PlainMeans(kind: MapKind, thin: bool, es: seq<Element>, etable: seq<byte>)
    ensures PlainFirst(kind, thin, es, etable) <==>
      (etable == [] ==>
        NoTableBytes(Members(thin, es, |es|)) && !(kind.CoffMap? && SkippedBytes(Members(thin, es, |es|))))
  {
    hide NoTableBytes, SkippedBytes, Members;
  }

  lemma ValidArchive(a: Archive)
    ensures a.Valid() <==> 4 <= a.maxName <= NAME_SIZE
  {
  }

  lemma TableBound(elength: nat)
    ensures elength <= NamesLength(elength)
  {
  }

  /** A name that announces no map by itself. */
  predicate NoMapName(order: Endian, name: seq<byte>) {
    name != MapName(BsdMap(order)) && name != OldSymdefName() && name != MapName(CoffMap) && name != MapName(Elf64Map)
  }

  /** Bytes behind the magic that announce no map; with "#1/20" it depends on the name behind the header. */
  predicate NoMapBytes(order: Endian, b: seq<byte>) {
    b == []
    || (|b| >= 16 && NoMapName(order, b[..16])
        && (b[..16] == SortedMapName() ==> |b| >= HDR_SIZE + 20 && b[HDR_SIZE..HDR_SIZE + 9] != SymdefName()))
  }

  /** No map is seen exactly behind such bytes. */
  lemma NoMapIsSeen(order: Endian, a: Archive, file: seq<byte>)
    requires a.Valid() && |file| >= 8
    ensures SlurpMap(order, a, file, 8) == Some(MapRead(None, 8)) <==> NoMapBytes(order, file[8..])
  {
    hide SlurpBsd, SlurpCoff, SlurpElf64, SkipSecond, Even, ReadHeader, MapName, OldSymdefName, SortedMapName, SymdefName;
    var b := file[8..];
    assert |file| >= 24 ==> file[8..24] == b[..16];
    assert |file| >= 88 ==> file[68..77] == b[60..69];
  }

  /** Without a map and a name table, the first member must not look like one. */
  predicate BareFirst(order: Endian, thin: bool, es: seq<Element>, etable: seq<byte>) {
    etable == [] ==> NoMapBytes(order, Members(thin, es, |es|)) && NoTableBytes(Members(thin, es, |es|))
  }

  /** An archive written without a map is opened without one, unless its first member looks like a map or a name table. */
  lemma OpensWithoutMap(kind: MapKind, order: Endian, maxName: nat, thin: bool, es: seq<Element>, ename: seq<byte>, etable: seq<byte>,
                        stamp: seq<byte>)
    requires |stamp| == 32 && |ename| == 16 && NamesFit(etable) && IsNamesName(ename)
    requires 4 <= maxName <= NAME_SIZE && |etable| < TWO_TO_32
    ensures Open(order, maxName, ArchiveBytes(kind, thin, false, es, ename, etable, stamp))
         == Some(Opened(Archive(maxName, thin, NamesOfTable(etable)), None, SARMAG + |NamesPart(ename, etable)|))
       <==> BareFirst(order, thin, es, etable)
    ensures etable == [] && !NoTableBytes(Members(thin, es, |es|)) ==>
      var o := Open(order, maxName, ArchiveBytes(kind, thin, false, es, ename, etable, stamp)); o.None? || o.value.archive.names.Some?
  {
    hide *;
    SizeIs();
    var file, a := ArchiveBytes(kind, thin, false, es, ename, etable, stamp), Archive(maxName, thin, None);
    ValidArchive(a);
    ArchiveParts(kind, thin, false, es, ename, etable, stamp);
    MapPartIs(kind, thin, false, es, |etable|, stamp);
    MagicTells(file, thin);
    RestMeans(file, SARMAG, thin, es, ename, etable);
    NoMapIsSeen(order, a, file);
    BareMeans(order, thin, es, etable);
    OpenIs(order, maxName, file, thin);
    if etable == [] {
      NoNamesPart(ename, etable);
      MembersBehind(file, SARMAG, Members(thin, es, |es|));
      NoTableIsSeen(a, file, SARMAG);
      if !NoTableBytes(file[SARMAG..]) {
        TableBytesAreNoMap(order, file[SARMAG..]);
      }
    } else {
      TableReads(a, file, SARMAG, ename, etable);
      TableIsNoMap(order, file, ename, etable);
    }
    MapLandsBehind(order, a, file);
  }

  /** Nothing but the absence of a map leaves the reader at the first position without one. */
  lemma MapLandsBehind(order: Endian, a: Archive, file: seq<byte>)
    requires a.Valid() && |file| >= SARMAG
    ensures var m := SlurpMap(order, a, file, SARMAG); m.Some? && m.value.symdefs.None? ==> m.value.first == SARMAG
  {
    hide ReadHeader, SlurpBsd, SlurpCoff, SlurpElf64, SkipSecond, Even, MapName, OldSymdefName, SortedMapName, SymdefName;
  }

  lemma TableIsNoMap(order: Endian, file: seq<byte>, ename: seq<byte>, etable: seq<byte>)
    requires |ename| == 16 && NamesFit(etable) && IsNamesName(ename) && etable != [] && At(file, SARMAG, NamesPart(ename, etable))
    ensures |file| >= 8 && NoMapBytes(order, file[8..])
  {
    hide *;
    SizeIs();
    NamesHeaderAt(file, SARMAG, ename, etable);
    var size := SizeField((|etable| + 1) / 2 * 2).value;
    HeaderFields(ename, Spaces(32), size);
    AtSlice(file, SARMAG, Header(ename, Spaces(32), size));
    FrontOfSlice(file, SARMAG, Header(ename, Spaces(32), size), ename);
    NamesNameIsNoMap(order, ename, file[8..]);
  }

  lemma TableBytesAreNoMap(order: Endian, b: seq<byte>)
    requires !NoTableBytes(b)
    ensures NoMapBytes(order, b)
  {
    NamesNameIsNoMap(order, b[..16], b);
    hide IsNamesName, NoMapBytes;
  }

  lemma BareMeans(order: Endian, thin: bool, es: seq<Element>, etable: seq<byte>)
    ensures BareFirst(order, thin, es, etable) <==>
      (etable == [] ==> NoMapBytes(order, Members(thin, es, |es|)) && NoTableBytes(Members(thin, es, |es|)))
  {
    hide NoMapBytes, NoTableBytes, Members;
  }

  lemma NamesNameIsNoMap(order: Endian, ename: seq<byte>, b: seq<byte>)
    requires IsNamesName(ename) && |b| >= 16 && b[..16] == ename
    ensures NoMapBytes(order, b)
  {
    assert MapName(BsdMap(order))[0] == 0x5f && OldSymdefName()[0] == 0x5f && SortedMapName()[0] == 0x23;
    assert MapName(CoffMap)[0] == SLASH && MapName(CoffMap)[1] == SPACE;
    assert MapName(Elf64Map)[0] == SLASH && MapName(Elf64Map)[1] == 0x53;
    assert ename[0] == 0x41 || (ename[0] == SLASH && ename[1] == SLASH);
  }

  // ----- With or without a map -----

  /** Where the first member is. */
  function FirstAt(kind: MapKind, mapped: bool, es: seq<Element>, elength: nat): nat {
    if mapped then TrueBase(MapSize(kind, Exports(es, |es|)), elength) else SARMAG + NamesLength(elength)
  }

  /**
    What lets an archive be opened as it was written: a map and a name table below 4 GB, with
    entries that can be read back, and a first member that looks like neither.
   */
  ghost predicate Openable(kind: MapKind, order: Endian, thin: bool, mapped: bool, es: seq<Element>, etable: seq<byte>) {
    if mapped then
      var size := MapSize(kind, Exports(es, |es|));
      && size + NamesLength(|etable|) < TWO_TO_32 && (kind.BsdMap? ==> kind.order == order)
      && Readable(kind, MapEntries(kind, thin, es, ClaimedBase(size, |etable|)))
      && PlainFirst(kind, thin, es, etable)
    else |etable| < TWO_TO_32 && BareFirst(order, thin, es, etable)
  }

  lemma OpenableMeans(kind: MapKind, order: Endian, thin: bool, mapped: bool, es: seq<Element>, etable: seq<byte>)
    requires Openable(kind, order, thin, mapped, es, etable)
    ensures |etable| < TWO_TO_32 && (!mapped ==> BareFirst(order, thin, es, etable))
    ensures mapped ==>
      var size := MapSize(kind, Exports(es, |es|));
      && size + NamesLength(|etable|) < TWO_TO_32 && (kind.BsdMap? ==> kind.order == order)
      && Readable(kind, MapEntries(kind, thin, es, ClaimedBase(size, |etable|)))
      && PlainFirst(kind, thin, es, etable)
  {
    TableBound(|etable|);
    hide PlainFirst, BareFirst, MapSize, Exports, NamesLength, Readable, MapEntries, ClaimedBase;
  }

  /** Opening leads to the members, which are all there is from the first one on. */
  lemma OpensAtMembers(kind: MapKind, order: Endian, maxName: nat, thin: bool, mapped: bool, es: seq<Element>, ename: seq<byte>,
                       etable: seq<byte>, stamp: seq<byte>)
    requires |stamp| == 32 && |ename| == 16 && NamesFit(etable) && IsNamesName(ename) && 4 <= maxName <= NAME_SIZE
    requires Openable(kind, order, thin, mapped, es, etable)
    ensures var file, first := ArchiveBytes(kind, thin, mapped, es, ename, etable, stamp), FirstAt(kind, mapped, es, |etable|);
      var o := Open(order, maxName, file);
      && o.Some? && o.value.archive == Archive(maxName, thin, NamesOfTable(etable)) && o.value.first == first
      && (o.value.symdefs.Some? <==> mapped) && first % 2 == 0
      && At(file, first, Members(thin, es, |es|)) && |file| == first + |Members(thin, es, |es|)|
  {
    hide *;
    OpenableMeans(kind, order, thin, mapped, es, etable);
    ArchiveParts(kind, thin, mapped, es, ename, etable, stamp);
    PrefixLength(kind, thin, es, ename, etable, stamp);
    FirstIs(kind, mapped, es, |etable|);
    if mapped {
      OpensAsWritten(kind, order, maxName, thin, es, ename, etable, stamp);
    } else {
      OpensWithoutMap(kind, order, maxName, thin, es, ename, etable, stamp);
      MapPartIs(kind, thin, false, es, |etable|, stamp);
    }
  }

  lemma FirstIs(kind: MapKind, mapped: bool, es: seq<Element>, elength: nat)
    ensures FirstAt(kind, mapped, es, elength) ==
      if mapped then TrueBase(MapSize(kind, Exports(es, |es|)), elength) else SARMAG + NamesLength(elength)
    ensures FirstAt(kind, mapped, es, elength) % 2 == 0
  {
    MapSizeIsEven(kind, Exports(es, |es|));
    BaseIsEven(MapSize(kind, Exports(es, |es|)), elength);
    NamesLengthIsEven(elength);
    EvenSum(SARMAG, NamesLength(elength));
    hide TrueBase, MapSize, Exports, NamesLength;
  }
}
