/**
  From members to an archive and back (archive.c): names, map and members written in one go,
  then opened, looked up by symbol and stepped through.
 */
module ArRoundTrip {
  import opened CBytes
  import opened ArText
  import opened ArHeader
  import opened ArBsd44
  import opened ArNames
  import opened ArNameReading
  import opened ArMap
  import opened ArLayout
  import opened ArWriter
  import opened ArOpen
  import opened ArElements

  /** What a member brings besides its name. */
  datatype Body = Body(contents: seq<byte>, isObject: bool, symbols: seq<Symbol>)

  /** The members with the headers the name-table builder leaves. */
  function Elements(s: Style, ms: seq<Member>, hdrs: seq<seq<byte>>, bodies: seq<Body>): (r: seq<Element>)
    requires s.Valid() && |ms| == |hdrs| == |bodies| && forall i :: 0 <= i < |hdrs| ==> |hdrs[i]| == HDR_SIZE
    ensures |r| == |ms|
  {
    seq(|ms|, i requires 0 <= i < |ms| =>
      Element(ms[i].filename, Named(s, ms, i, hdrs[i]), 0, bodies[i].contents, bodies[i].isObject, bodies[i].symbols))
  }

  /** The members left when leading old maps are dropped for a new one. */
  function Remaining(mapped: bool, es: seq<Element>): seq<Element> {
    if mapped then WithoutSymdef(es) else es
  }

  /** The archive's bytes, with or without a map. */
  function FileOf(s: Style, kind: MapKind, mapped: bool, ms: seq<Member>, hdrs: seq<seq<byte>>, bodies: seq<Body>,
                  ename: seq<byte>, stamp: seq<byte>): seq<byte>
    requires s.Valid() && |ms| == |hdrs| == |bodies| && |ename| == 16 && |stamp| == 32 && NamesFit(Table(s, ms, |ms|))
    requires forall i :: 0 <= i < |hdrs| ==> |hdrs[i]| == HDR_SIZE
  {
    ArchiveBytes(kind, s.thin, mapped, Remaining(mapped, Elements(s, ms, hdrs, bodies)), ename, Table(s, ms, |ms|), stamp)
  }

  /** Building the name table and writing the archive. */
  method WriteArchive(s: Style, kind: MapKind, hasMap: bool, ms: seq<Member>, headers: array<seq<byte>>, bodies: seq<Body>,
                      ename: seq<byte>, stamp: seq<byte>)
    returns (ok: bool, out: seq<byte>)
    requires s.Valid() && headers.Length == |ms| == |bodies| && |ename| == 16 && |stamp| == 32
    requires forall i :: 0 <= i < headers.Length ==> |headers[i]| == HDR_SIZE
    modifies headers
    ensures var es, etable := Elements(s, ms, old(headers[..]), bodies), Table(s, ms, |ms|);
      var kept, mapped := Kept(hasMap, es), Mapped(hasMap, es);
      && (ok <==> NamesFit(etable) && (mapped && !kind.Elf64Map? ==>
            Fit32(MapEntries(kind, s.thin, kept, ClaimedBase(MapSize(kind, Exports(kept, |kept|)), |etable|)))))
      && (ok ==> out == FileOf(s, kind, mapped, ms, old(headers[..]), bodies, ename, stamp))
  {
    assert forall es :: Kept(hasMap, es) == Remaining(Mapped(hasMap, es), es);
    hide Named, Table, Kept, Mapped, ArchiveBytes, NamesFit, MapEntries, ClaimedBase, MapSize, Exports, Fit32, Remaining;
    ghost var es := Elements(s, ms, headers[..], bodies);
    var table := ConstructExtendedNameTable(s, ms, headers);
    var elements := seq(|ms|, i requires 0 <= i < |ms| reads headers =>
      Element(ms[i].filename, headers[i], 0, bodies[i].contents, bodies[i].isObject, bodies[i].symbols));
    assert elements == es;
    var w := new ArchiveWriter(kind, s.thin, elements);
    ok := w.WriteArchiveContents(hasMap, ename, table[..], stamp);
    out := w.out;
  }

  // ----- What the theorems assume -----

  /** How the archive is read once it is open. */
  function ReaderOf(s: Style, ms: seq<Member>): (a: Archive)
    requires s.Valid()
    ensures a.Valid() && a.thin == s.thin && a.maxName == s.maxName
  {
    Archive(s.maxName, s.thin, NamesOfTable(Table(s, ms, |ms|)))
  }

  /** Headers with sizes and magic in place, and names that survive the archive. */
  ghost predicate Prepared(s: Style, ms: seq<Member>, hdrs: seq<seq<byte>>, bodies: seq<Body>) {
    && s.Valid() && (s.pad == SLASH || s.pad == SPACE) && |ms| == |hdrs| == |bodies|
    && forall i :: 0 <= i < |ms| ==> MemberPrepared(s, ms, i, hdrs[i], bodies[i])
  }

  ghost predicate MemberPrepared(s: Style, ms: seq<Member>, i: nat, hdr: seq<byte>, body: Body)
    requires s.Valid() && i < |ms|
  {
    FreshHeader(hdr, |body.contents|) && GoodName(s, ms[i], ReaderOf(s, ms), hdr)
  }

  lemma PreparedMeans(s: Style, ms: seq<Member>, i: nat, hdr: seq<byte>, body: Body)
    requires s.Valid() && i < |ms| && MemberPrepared(s, ms, i, hdr, body)
    ensures |hdr| == HDR_SIZE && FreshHeader(hdr, |body.contents|) && GoodName(s, ms[i], ReaderOf(s, ms), hdr)
    ensures |body.contents| < TWO_TO_64
  {
    hide GoodName, ReaderOf, SizeField, ParsedSize, Decimal;
    SizeReads(hdr, |body.contents|);
  }

  lemma PreparedAt(s: Style, ms: seq<Member>, hdrs: seq<seq<byte>>, bodies: seq<Body>, i: nat)
    requires Prepared(s, ms, hdrs, bodies) && i < |ms|
    ensures s.Valid() && (s.pad == SLASH || s.pad == SPACE) && |ms| == |hdrs| == |bodies|
    ensures forall j :: 0 <= j < |hdrs| ==> |hdrs[j]| == HDR_SIZE
    ensures MemberPrepared(s, ms, i, hdrs[i], bodies[i])
    ensures var e := Elements(s, ms, hdrs, bodies)[i];
      e.head == Named(s, ms, i, hdrs[i]) && e.contents == bodies[i].contents && e.extra == 0
  {
    PreparedHeaders(s, ms, hdrs, bodies);
    hide MemberPrepared, Named;
  }

  lemma PreparedHeaders(s: Style, ms: seq<Member>, hdrs: seq<seq<byte>>, bodies: seq<Body>)
    requires Prepared(s, ms, hdrs, bodies)
    ensures s.Valid() && (s.pad == SLASH || s.pad == SPACE) && |ms| == |hdrs| == |bodies|
    ensures forall j :: 0 <= j < |hdrs| ==> |hdrs[j]| == HDR_SIZE
  {
    hide GoodName, SizeField;
  }

  /** How many leading members hold old maps. */
  function Dropped(es: seq<Element>): (d: nat)
    ensures d <= |es|
  {
    if es != [] && es[0].filename == SymdefName() then 1 + Dropped(es[1..]) else 0
  }

  lemma {:induction false} WithoutIsSuffix(es: seq<Element>)
    ensures WithoutSymdef(es) == es[Dropped(es)..]
  {
    if es != [] && es[0].filename == SymdefName() {
      WithoutIsSuffix(es[1..]);
    }
  }

  /** How many members are left out. */
  function LeftOut(mapped: bool, es: seq<Element>): (d: nat)
    ensures d <= |es|
  {
    if mapped then Dropped(es) else 0
  }

  lemma RemainingIsSuffix(mapped: bool, es: seq<Element>)
    ensures Remaining(mapped, es) == es[LeftOut(mapped, es)..]
  {
    WithoutIsSuffix(es);
    hide WithoutSymdef, Dropped;
  }

  /** The formats that give this style's members the right positions. */
  predicate Fitting(kind: MapKind, s: Style) {
    kind.BsdMap? ==> !s.thin
  }

  lemma AllFit(kind: MapKind, s: Style, ms: seq<Member>, hdrs: seq<seq<byte>>, bodies: seq<Body>, d: nat)
    requires Prepared(s, ms, hdrs, bodies) && d <= |ms|
    ensures (forall j :: 0 <= j < |hdrs| ==> |hdrs[j]| == HDR_SIZE)
    ensures AllValid(Elements(s, ms, hdrs, bodies)[d..])
    ensures Fitting(kind, s) ==> AllSuit(kind, s.thin, Elements(s, ms, hdrs, bodies)[d..])
  {
    var es := Elements(s, ms, hdrs, bodies);
    PreparedHeaders(s, ms, hdrs, bodies);
    forall i | 0 <= i < |ms| ensures es[i].Valid() && (Fitting(kind, s) ==> Suits(kind, s.thin, es[i])) {
      PreparedAt(s, ms, hdrs, bodies, i);
    }
    hide Elements, Suits, Fitting;
  }

  /** The table with its padding, as the reader gets it. */
  function PaddedTable(s: Style, ms: seq<Member>): seq<byte> {
    var t := Table(s, ms, |ms|);
    if t == [] then [] else t + OddPad(|t|)
  }

  lemma TableIsRead(s: Style, ms: seq<Member>)
    requires s.Valid() && (s.pad == SLASH || s.pad == SPACE) && |Table(s, ms, |ms|)| < TWO_TO_32
    ensures ReadsTable(s, ms, ReaderOf(s, ms), PaddedTable(s, ms))
  {
    hide Table, Converted;
    Pow10Ten();
  }

  // ----- One member -----

  /** A member's header in the file, read with the table that was loaded, and its contents behind it. */
  ghost predicate MemberFound(s: Style, ms: seq<Member>, bodies: seq<Body>, a: Archive, file: seq<byte>, pos: nat, i: nat)
    requires s.Valid() && a.Valid() && |ms| == |bodies| && i < |ms|
  {
    match ReadHeader(a, file, pos)
    case None => false
    case Some(h) =>
      && h.filename == NameInArchive(s, ms[i]) && h.parsedSize == |bodies[i].contents| && h.extraSize == 0
      && h.at == pos + HDR_SIZE && (s.thin || At(file, h.at, bodies[i].contents))
  }

  /** Where a member was written it is found, unless its header refers to a place that is no long. */
  lemma MemberIsFound(s: Style, ms: seq<Member>, hdrs: seq<seq<byte>>, bodies: seq<Body>, file: seq<byte>, pos: nat, i: nat)
    requires Prepared(s, ms, hdrs, bodies) && i < |ms| && |Table(s, ms, |ms|)| < TWO_TO_32
    requires forall j :: 0 <= j < |hdrs| ==> |hdrs[j]| == HDR_SIZE
    requires At(file, pos, Written(s.thin, Elements(s, ms, hdrs, bodies)[i]))
    ensures MemberFound(s, ms, bodies, ReaderOf(s, ms), file, pos, i) <==> Legible(s, ms, i, hdrs[i])
    ensures var r := ReadHeader(ReaderOf(s, ms), file, pos);
      (r.Some? <==> Legible(s, ms, i, hdrs[i])) && (r.Some? ==> r.value.origin == OriginRead(s, ms, i, hdrs[i]))
  {
    hide *;
    HeaderSizes();
    PreparedAt(s, ms, hdrs, bodies, i);
    PreparedMeans(s, ms, i, hdrs[i], bodies[i]);
    TableIsRead(s, ms);
    var e, h := Elements(s, ms, hdrs, bodies)[i], Named(s, ms, i, hdrs[i]);
    WrittenParts(s.thin, e, file, pos);
    AtSlice(file, pos, h);
    MemberHeaderReads(s, ms, i, hdrs[i], |bodies[i].contents|, ReaderOf(s, ms), PaddedTable(s, ms), file, pos);
    FoundMeans(s, ms, bodies, ReaderOf(s, ms), file, pos, i);
  }

  lemma WrittenParts(thin: bool, e: Element, file: seq<byte>, pos: nat)
    requires At(file, pos, Written(thin, e))
    ensures At(file, pos, e.head) && (thin || At(file, pos + |e.head|, e.contents))
  {
    hide *;
    WrittenIs(thin, e);
    if !thin {
      var rest := e.contents + OddPad(|e.contents|);
      AtFront(e.head, rest);
      AtFront(e.contents, OddPad(|e.contents|));
      AtAt(file, pos, Written(thin, e), 0, e.head);
      AtAt(file, pos, Written(thin, e), |e.head|, rest);
      AtAt(file, pos + |e.head|, rest, 0, e.contents);
    }
  }

  lemma WrittenIs(thin: bool, e: Element)
    ensures Written(thin, e) == if thin then e.head else e.head + (e.contents + OddPad(|e.contents|))
  {
    Associates(e.head, e.contents, OddPad(|e.contents|));
    hide OddPad;
  }

  lemma FoundMeans(s: Style, ms: seq<Member>, bodies: seq<Body>, a: Archive, file: seq<byte>, pos: nat, i: nat)
    requires s.Valid() && a.Valid() && |ms| == |bodies| && i < |ms|
    requires s.thin || At(file, pos + HDR_SIZE, bodies[i].contents)
    ensures var r := ReadHeader(a, file, pos);
      MemberFound(s, ms, bodies, a, file, pos, i) <==>
        && r.Some? && r.value.filename == NameInArchive(s, ms[i]) && r.value.parsedSize == |bodies[i].contents|
        && r.value.extraSize == 0 && r.value.at == pos + HDR_SIZE
  {
    hide ReadHeader, NameInArchive, At;
  }

  // ----- Looking up a symbol -----

  /**
    Opening the archive and following the k-th entry of its map leads to the member that exports
    that symbol: its name, its size and, unless the archive is thin, its contents.
   */
  lemma SymbolLeadsToItsMember(s: Style, kind: MapKind, ms: seq<Member>, hdrs: seq<seq<byte>>, bodies: seq<Body>,
                               ename: seq<byte>, stamp: seq<byte>, order: Endian, k: nat)
    requires Prepared(s, ms, hdrs, bodies) && Fitting(kind, s) && |ename| == 16 && |stamp| == 32 && IsNamesName(ename)
    requires NamesFit(Table(s, ms, |ms|)) && forall i :: 0 <= i < |hdrs| ==> |hdrs[i]| == HDR_SIZE
    requires var es := WithoutSymdef(Elements(s, ms, hdrs, bodies));
      Openable(kind, order, s.thin, true, es, Table(s, ms, |ms|)) && k < |Exports(es, |es|)|
    ensures var es := WithoutSymdef(Elements(s, ms, hdrs, bodies));
      var file, x, d := FileOf(s, kind, true, ms, hdrs, bodies, ename, stamp), Exports(es, |es|)[k], |ms| - |es|;
      var o := Open(order, s.maxName, file);
      && o.Some? && o.value.archive == ReaderOf(s, ms)
      && o.value.symdefs.Some? && |o.value.symdefs.value| == |Exports(es, |es|)|
      && x.1 < |es| && d >= 0
      && var sym := o.value.symdefs.value[k];
         && sym.name == Some(x.0) && sym.offset >= 0
         && (MemberFound(s, ms, bodies, ReaderOf(s, ms), file, sym.offset, d + x.1) <==> Legible(s, ms, d + x.1, hdrs[d + x.1]))
  {
    hide *;
    PreparedHeaders(s, ms, hdrs, bodies);
    var all := Elements(s, ms, hdrs, bodies);
    WithoutIsSuffix(all);
    var es, d := WithoutSymdef(all), Dropped(all);
    var etable, size := Table(s, ms, |ms|), MapSize(kind, Exports(es, |es|));
    var file, fs := FileOf(s, kind, true, ms, hdrs, bodies, ename, stamp), MapEntries(kind, s.thin, es, ClaimedBase(size, |etable|));
    FileIs(s, kind, true, ms, hdrs, bodies, ename, stamp);
    OpenableMeans(kind, order, s.thin, true, es, etable);
    ReaderIs(s, ms);
    AllFit(kind, s, ms, hdrs, bodies, d);
    OpensAsWritten(kind, order, s.maxName, s.thin, es, ename, etable, stamp);
    MapLeadsToMembers(kind, s.thin, es, ename, etable, stamp, k);
    MapEntryIs(kind, s.thin, es, ClaimedBase(size, |etable|), k);
    AsReadAt(fs, k);
    var owner := Exports(es, |es|)[k].1;
    assert es[owner] == all[d + owner];
    MemberIsFound(s, ms, hdrs, bodies, file, fs[k].offset, d + owner);
  }

  lemma ReaderIs(s: Style, ms: seq<Member>)
    requires s.Valid()
    ensures ReaderOf(s, ms) == Archive(s.maxName, s.thin, NamesOfTable(Table(s, ms, |ms|))) && 4 <= s.maxName <= NAME_SIZE
  {
    hide NamesOfTable, Table;
  }

  lemma FileIs(s: Style, kind: MapKind, mapped: bool, ms: seq<Member>, hdrs: seq<seq<byte>>, bodies: seq<Body>, ename: seq<byte>,
               stamp: seq<byte>)
    requires s.Valid() && |ms| == |hdrs| == |bodies| && |ename| == 16 && |stamp| == 32 && NamesFit(Table(s, ms, |ms|))
    requires forall i :: 0 <= i < |hdrs| ==> |hdrs[i]| == HDR_SIZE
    ensures var all := Elements(s, ms, hdrs, bodies);
      && FileOf(s, kind, mapped, ms, hdrs, bodies, ename, stamp)
         == ArchiveBytes(kind, s.thin, mapped, Remaining(mapped, all), ename, Table(s, ms, |ms|), stamp)
      && (mapped ==> Remaining(mapped, all) == WithoutSymdef(all))
  {
    hide ArchiveBytes, WithoutSymdef, Elements, Table;
  }

  // ----- Stepping through -----

  /** A member's header can be read and, unless it is nested, its file in a thin archive be opened. */
  predicate CanFollow(s: Style, ms: seq<Member>, i: nat, hdr: seq<byte>, canOpen: seq<byte> -> bool)
    requires s.Valid() && i < |ms| && |hdr| == HDR_SIZE
  {
    Legible(s, ms, i, hdr) && (s.thin && OriginRead(s, ms, i, hdr) == 0 ==> canOpen(NameInArchive(s, ms[i])))
  }

  function Followed(s: Style, ms: seq<Member>, hdrs: seq<seq<byte>>, canOpen: seq<byte> -> bool): (r: seq<bool>)
    requires s.Valid() && |ms| == |hdrs| && forall i :: 0 <= i < |hdrs| ==> |hdrs[i]| == HDR_SIZE
    ensures |r| == |ms| && forall i :: 0 <= i < |ms| ==> r[i] == CanFollow(s, ms, i, hdrs[i], canOpen)
  {
    seq(|ms|, i requires 0 <= i < |ms| => CanFollow(s, ms, i, hdrs[i], canOpen))
  }

  /**
    Stepping through the opened archive, with or without a map, visits the members in order, and
    all of them exactly if each can be followed and, in an ordinary archive, none but the last is
    empty.
   */
  lemma SteppingVisitsTheMembers(s: Style, kind: MapKind, mapped: bool, ms: seq<Member>, hdrs: seq<seq<byte>>, bodies: seq<Body>,
                                 ename: seq<byte>, stamp: seq<byte>, order: Endian, canOpen: seq<byte> -> bool)
    requires Prepared(s, ms, hdrs, bodies) && |ename| == 16 && |stamp| == 32 && IsNamesName(ename)
    requires NamesFit(Table(s, ms, |ms|)) && forall i :: 0 <= i < |hdrs| ==> |hdrs[i]| == HDR_SIZE
    requires Openable(kind, order, s.thin, mapped, Remaining(mapped, Elements(s, ms, hdrs, bodies)), Table(s, ms, |ms|))
    requires |FileOf(s, kind, mapped, ms, hdrs, bodies, ename, stamp)| < TWO_TO_64
    ensures var es, d := Remaining(mapped, Elements(s, ms, hdrs, bodies)), LeftOut(mapped, Elements(s, ms, hdrs, bodies));
      var file, good := FileOf(s, kind, mapped, ms, hdrs, bodies, ename, stamp), Followed(s, ms, hdrs, canOpen)[d..];
      var o := Open(order, s.maxName, file);
      && o.Some? && o.value.archive == ReaderOf(s, ms) && |good| == |es|
      && VisitFrom(o.value.archive, canOpen, file, o.value.first) == Visited(s.thin, es, good, o.value.first, 0)
      && (|Visited(s.thin, es, good, o.value.first, 0)| == |es| <==> NothingStops(s.thin, es, good, 0))
  {
    hide *;
    PreparedHeaders(s, ms, hdrs, bodies);
    var all := Elements(s, ms, hdrs, bodies);
    RemainingIsSuffix(mapped, all);
    var es, d, etable := Remaining(mapped, all), LeftOut(mapped, all), Table(s, ms, |ms|);
    var file, a, good := FileOf(s, kind, mapped, ms, hdrs, bodies, ename, stamp), ReaderOf(s, ms), Followed(s, ms, hdrs, canOpen)[d..];
    FileIs(s, kind, mapped, ms, hdrs, bodies, ename, stamp);
    OpenableMeans(kind, order, s.thin, mapped, es, etable);
    ReaderIs(s, ms);
    AllFit(kind, s, ms, hdrs, bodies, d);
    OpensAtMembers(kind, order, s.maxName, s.thin, mapped, es, ename, etable, stamp);
    var base := FirstAt(kind, mapped, es, |etable|);
    StartOfAll(s.thin, es);
    forall k | 0 <= k < |es| ensures Met(a, canOpen, file, es[k], good[k], base + Start(s.thin, es, k)) {
      WrittenWhere(s.thin, es, file, base, k);
      assert es[k] == all[d + k] && good[k] == CanFollow(s, ms, d + k, hdrs[d + k], canOpen);
      MemberIsFound(s, ms, hdrs, bodies, file, base + Start(s.thin, es, k), d + k);
      PreparedAt(s, ms, hdrs, bodies, d + k);
      FoundIsMet(s, ms, hdrs, bodies, canOpen, file, base + Start(s.thin, es, k), d + k, es[k]);
    }
    IsMembersRead(a, canOpen, file, s.thin, es, good, base);
    VisitsMembers(a, canOpen, file, s.thin, es, good, base, 0);
    AllAreVisited(s.thin, es, good, base, 0);
  }

  lemma StartOfAll(thin: bool, es: seq<Element>)
    ensures Start(thin, es, |es|) == |Members(thin, es, |es|)| && Start(thin, es, 0) == 0
  {
  }

  lemma WrittenWhere(thin: bool, es: seq<Element>, file: seq<byte>, base: nat, k: nat)
    requires At(file, base, Members(thin, es, |es|)) && k < |es|
    ensures At(file, base + Start(thin, es, k), Written(thin, es[k]))
  {
    hide *;
    MemberAt(thin, es, k);
    AtAt(file, base, Members(thin, es, |es|), Start(thin, es, k), Written(thin, es[k]));
  }

  lemma FoundIsMet(s: Style, ms: seq<Member>, hdrs: seq<seq<byte>>, bodies: seq<Body>, canOpen: seq<byte> -> bool, file: seq<byte>,
                   pos: nat, i: nat, e: Element)
    requires s.Valid() && |ms| == |hdrs| == |bodies| && i < |ms| && |hdrs[i]| == HDR_SIZE
    requires MemberFound(s, ms, bodies, ReaderOf(s, ms), file, pos, i) <==> Legible(s, ms, i, hdrs[i])
    requires var r := ReadHeader(ReaderOf(s, ms), file, pos);
      (r.Some? <==> Legible(s, ms, i, hdrs[i])) && (r.Some? ==> r.value.origin == OriginRead(s, ms, i, hdrs[i]))
    requires |e.head| == HDR_SIZE && e.contents == bodies[i].contents
    ensures Met(ReaderOf(s, ms), canOpen, file, e, CanFollow(s, ms, i, hdrs[i], canOpen), pos)
  {
    hide ReadHeader, NameInArchive, At, Legible, OriginRead, NamesOfTable, Table;
  }

  lemma IsMembersRead(a: Archive, canOpen: seq<byte> -> bool, file: seq<byte>, thin: bool, es: seq<Element>, good: seq<bool>, base: nat)
    requires a.Valid() && a.thin == thin && AllValid(es) && base % 2 == 0 && |file| == base + Start(thin, es, |es|) < TWO_TO_64
    requires |good| == |es| && forall k :: 0 <= k < |es| ==> Met(a, canOpen, file, es[k], good[k], base + Start(thin, es, k))
    ensures MembersRead(a, canOpen, file, thin, es, good, base)
  {
    hide Met, Start;
  }

  // ----- A member called ARFILENAMES -----

  /** "ARFILENAMES", which an SVR4 header completes to the mark of a name table. */
  function TableLikeName(): (r: seq<byte>)
    ensures |r| == 11 && BaseName(r) && !Blank(r)
  {
    [0x41, 0x52, 0x46, 0x49, 0x4c, 0x45, 0x4e, 0x41, 0x4d, 0x45, 0x53]
  }

  /** A member of that name stands in its fresh header; but if it is the first of an archive without a name table, it is taken for one. */
  lemma ArfilenamesIsTakenForTable(s: Style, kind: MapKind, order: Endian, mapped: bool, es: seq<Element>, ename: seq<byte>, stamp: seq<byte>,
                                   hdr: seq<byte>)
    requires s.Valid() && s.pad == SLASH && |hdr| == HDR_SIZE && hdr[..16] == Spaces(16)
    requires es != [] && es[0].head == WithName(hdr, TableLikeName(), s.pad)
    requires |ename| == 16 && |stamp| == 32 && IsNamesName(ename)
    requires mapped ==>
      var size := MapSize(kind, Exports(es, |es|));
      && size < TWO_TO_32 && (kind.BsdMap? ==> kind.order == order) && Readable(kind, MapEntries(kind, s.thin, es, ClaimedBase(size, 0)))
    ensures Stands(s, Archive(s.maxName, s.thin, None), TableLikeName(), hdr) && !Openable(kind, order, s.thin, mapped, es, [])
    ensures var o := Open(order, s.maxName, ArchiveBytes(kind, s.thin, mapped, es, ename, [], stamp));
      o.None? || o.value.archive.names.Some?
  {
    TableLikeHeader(s, hdr);
    hide *;
    ReaderIs(s, []);
    NoNamesPart(ename, []);
    FirstHead(s.thin, es, es[0].head);
    TableIsSeenFirst(kind, order, s.thin, mapped, es);
    NothingFits();
    if mapped {
      OpensAsWritten(kind, order, s.maxName, s.thin, es, ename, [], stamp);
    } else {
      OpensWithoutMap(kind, order, s.maxName, s.thin, es, ename, [], stamp);
    }
  }

  lemma TableLikeHeader(s: Style, hdr: seq<byte>)
    requires s.Valid() && s.pad == SLASH && |hdr| == HDR_SIZE && hdr[..16] == Spaces(16)
    ensures Stands(s, Archive(s.maxName, s.thin, None), TableLikeName(), hdr)
    ensures var h := WithName(hdr, TableLikeName(), s.pad); IsNamesName(h[..16])
  {
    assert forall k :: 0 <= k < 16 ==> hdr[k] == hdr[..16][k] == SPACE;
    var h := WithName(hdr, TableLikeName(), s.pad);
    assert h[..16] == TableLikeName() + [SLASH] + Spaces(4);
  }

  lemma FirstHead(thin: bool, es: seq<Element>, head: seq<byte>)
    requires es != [] && es[0].head == head && |head| == HDR_SIZE
    ensures |Members(thin, es, |es|)| >= 16 && Members(thin, es, |es|)[..16] == head[..16]
  {
    FirstMember(thin, es);
    hide Members;
  }

  lemma FirstMember(thin: bool, es: seq<Element>)
    requires es != []
    ensures es[0].head <= Members(thin, es, |es|)
  {
    hide *;
    MembersGrow(thin, es, 1, |es|);
    MembersStep(thin, es, 0);
    NoMembers(thin, es);
    WrittenIs(thin, es[0]);
    FrontOfFront(es[0].head, Written(thin, es[0]), Members(thin, es, 1), Members(thin, es, |es|));
  }

  lemma FrontOfFront(head: seq<byte>, first: seq<byte>, one: seq<byte>, all: seq<byte>)
    requires head <= first && one == [] + first && one <= all
    ensures head <= all
  {
  }

  lemma TableIsSeenFirst(kind: MapKind, order: Endian, thin: bool, mapped: bool, es: seq<Element>)
    requires |Members(thin, es, |es|)| >= 16 && IsNamesName(Members(thin, es, |es|)[..16])
    ensures !NoTableBytes(Members(thin, es, |es|)) && !Openable(kind, order, thin, mapped, es, [])
  {
    hide Members, IsNamesName, MapSize, Exports, Readable, MapEntries, ClaimedBase, NoMapBytes;
  }

  lemma NothingFits()
    ensures NamesFit([]) && NamesLength(0) == 0 && TWO_TO_32 > 0
  {
  }
}
