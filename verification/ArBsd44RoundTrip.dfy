/**
  The same way from members to an archive and back (archive.c) for targets with BSD 4.4 names:
  there is no name table, and long names stand behind their headers.
 */
module ArBsd44RoundTrip {
  import opened CBytes
  import opened ArText
  import opened ArHeader
  import opened ArBsd44
  import opened ArNames
  import opened ArNameReading
  import opened ArMap
  import opened ArLayout
  import opened ArWriter
  import opened ArOpen
  import opened ArElements
  import opened ArRoundTrip

  /** A header after ConstructBsd44Names has been over it. */
  function Announced(maxName: nat, name: seq<byte>, hdr: seq<byte>): (r: seq<byte>)
    requires maxName <= NAME_SIZE && |hdr| == HDR_SIZE
    ensures |r| == HDR_SIZE
  {
    if IsLong(maxName, name) then Announcing(maxName, hdr, RoundUp4(|name|)) else hdr
  }

  /** What is written of a header, with the name behind an announcement. */
  function Head(maxName: nat, name: seq<byte>, hdr: seq<byte>, size: nat): Option<seq<byte>>
    requires maxName <= NAME_SIZE && |hdr| == HDR_SIZE
  {
    HeaderBytes(Announced(maxName, name, hdr), name, size)
  }

  /** The bytes of name that count as the member's; a short name keeps what its header had. */
  function ExtraSize(maxName: nat, name: seq<byte>, extra: nat): nat {
    if IsLong(maxName, name) then RoundUp4(|name|) else extra
  }

  /** A member as it comes: its file's name, its header, and what that says of a name behind it. */
  datatype Input = Input(filename: seq<byte>, hdr: seq<byte>, extra: nat, body: Body)
  {
    predicate Valid() { |hdr| == HDR_SIZE }

    function Name(): seq<byte> { BaseOf(filename) }
  }

  /** The header can be written: the size with the name has at most ten digits. */
  predicate HeadFits(maxName: nat, x: Input) {
    maxName <= NAME_SIZE && x.Valid() && Head(maxName, x.Name(), x.hdr, |x.body.contents|).Some?
  }

  function ElementOf(maxName: nat, x: Input): Element
    requires HeadFits(maxName, x)
  {
    Element(x.filename, Head(maxName, x.Name(), x.hdr, |x.body.contents|).value, ExtraSize(maxName, x.Name(), x.extra),
            x.body.contents, x.body.isObject, x.body.symbols)
  }

  ghost predicate HeadsFit(maxName: nat, xs: seq<Input>) {
    forall i :: 0 <= i < |xs| ==> HeadFits(maxName, xs[i])
  }

  /** The members with their names behind their headers. */
  ghost function ElementsOf(maxName: nat, xs: seq<Input>): (r: seq<Element>)
    requires HeadsFit(maxName, xs)
    ensures |r| == |xs| && forall i :: 0 <= i < |xs| ==> r[i] == ElementOf(maxName, xs[i])
  {
    seq(|xs|, i requires 0 <= i < |xs| => ElementOf(maxName, xs[i]))
  }

  /** There is no name table, so the name it would have does not matter. */
  function TableName(): (r: seq<byte>)
    ensures |r| == 16
  {
    [SLASH, SLASH] + Spaces(14)
  }

  /** The archive's bytes. */
  ghost function FileOf44(kind: MapKind, mapped: bool, es: seq<Element>, stamp: seq<byte>): seq<byte>
    requires |stamp| == 32
  {
    ArchiveBytes(kind, false, mapped, Remaining(mapped, es), TableName(), [], stamp)
  }

  // ----- Writing -----

  /** Announcing long names and writing the headers. */
  method BuildElements(maxName: nat, xs: seq<Input>) returns (elements: Option<seq<Element>>)
    requires 14 <= maxName <= NAME_SIZE && forall i :: 0 <= i < |xs| ==> xs[i].Valid()
    ensures elements.Some? <==> HeadsFit(maxName, xs)
    ensures elements.Some? ==> elements.value == ElementsOf(maxName, xs)
  {
    hide *;
    var heads, extras := Announce(maxName, xs);
    var es: seq<Element> := [];
    var i := 0;
    while i < |xs|
      invariant 0 <= i == |es| <= |xs|
      invariant forall k :: 0 <= k < i ==> HeadFits(maxName, xs[k]) && es[k] == ElementOf(maxName, xs[k])
    {
      HeadIs(maxName, xs[i], heads[i], extras[i]);
      var head := WriteHeader(heads[i], xs[i].Name(), |xs[i].body.contents|);
      if head.None? {
        NotAllFit(maxName, xs, i);
        return None;
      }
      es := es + [Element(xs[i].filename, head.value, extras[i], xs[i].body.contents, xs[i].body.isObject, xs[i].body.symbols)];
      i := i + 1;
    }
    AllFit44(maxName, xs);
    return Some(es);
  }

  /** A member's header and extra size, after long names were announced. */
  predicate IsAnnounced(maxName: nat, x: Input, head: seq<byte>, extra: nat) {
    maxName <= NAME_SIZE && x.Valid() && head == Announced(maxName, x.Name(), x.hdr) && extra == ExtraSize(maxName, x.Name(), x.extra)
  }

  /** ConstructBsd44Names over the members. */
  method Announce(maxName: nat, xs: seq<Input>) returns (heads: seq<seq<byte>>, extras: seq<nat>)
    requires 14 <= maxName <= NAME_SIZE && forall i :: 0 <= i < |xs| ==> xs[i].Valid()
    ensures |heads| == |extras| == |xs|
    ensures forall k :: 0 <= k < |xs| ==> IsAnnounced(maxName, xs[k], heads[k], extras[k])
  {
    hide *;
    forall k | 0 <= k < |xs| ensures |xs[k].hdr| == HDR_SIZE {
      ValidIs(xs[k]);
    }
    var names := seq(|xs|, i requires 0 <= i < |xs| => xs[i].Name());
    var headers := new seq<byte>[|xs|](i requires 0 <= i < |xs| => xs[i].hdr);
    var sizes := new nat[|xs|](i requires 0 <= i < |xs| => xs[i].extra);
    ConstructBsd44Names(maxName, names, headers, sizes);
    heads, extras := headers[..], sizes[..];
    forall k | 0 <= k < |xs| ensures IsAnnounced(maxName, xs[k], heads[k], extras[k]) {
      AnnouncedOne(maxName, xs[k], heads[k], extras[k]);
    }
  }

  lemma AnnouncedOne(maxName: nat, x: Input, head: seq<byte>, extra: nat)
    requires maxName <= NAME_SIZE && x.Valid() && |x.hdr| == HDR_SIZE
    requires if IsLong(maxName, x.Name()) then head == Announcing(maxName, x.hdr, RoundUp4(|x.Name()|)) && extra == RoundUp4(|x.Name()|)
             else head == x.hdr && extra == x.extra
    ensures IsAnnounced(maxName, x, head, extra)
  {
    hide Announcing, IsLong, RoundUp4, BaseOf;
  }

  lemma ValidIs(x: Input)
    ensures x.Valid() <==> |x.hdr| == HDR_SIZE
  {
  }

  lemma HeadIs(maxName: nat, x: Input, head: seq<byte>, extra: nat)
    requires IsAnnounced(maxName, x, head, extra)
    ensures |head| == HDR_SIZE
    ensures var bytes := HeaderBytes(head, x.Name(), |x.body.contents|);
      && (HeadFits(maxName, x) <==> bytes.Some?)
      && (bytes.Some? ==>
            var e := Element(x.filename, bytes.value, extra, x.body.contents, x.body.isObject, x.body.symbols); ElementOf(maxName, x) == e)
  {
    hide HeaderBytes, Announced, ExtraSize, BaseOf;
  }

  lemma NotAllFit(maxName: nat, xs: seq<Input>, i: nat)
    requires i < |xs| && !HeadFits(maxName, xs[i])
    ensures !HeadsFit(maxName, xs)
  {
  }

  lemma AllFit44(maxName: nat, xs: seq<Input>)
    requires forall i :: 0 <= i < |xs| ==> HeadFits(maxName, xs[i])
    ensures HeadsFit(maxName, xs)
  {
  }

  lemma KeptIs(hasMap: bool, es: seq<Element>)
    ensures Kept(hasMap, es) == Remaining(Mapped(hasMap, es), es)
  {
    hide WithoutSymdef, Mapped;
  }

  lemma FileIs44(kind: MapKind, mapped: bool, es: seq<Element>, stamp: seq<byte>)
    requires |stamp| == 32
    ensures FileOf44(kind, mapped, es, stamp) == ArchiveBytes(kind, false, mapped, Remaining(mapped, es), TableName(), [], stamp)
    ensures mapped ==> Remaining(mapped, es) == WithoutSymdef(es)
  {
    hide ArchiveBytes, WithoutSymdef;
  }

  /** Announcing long names and writing the archive. */
  method WriteBsd44Archive(maxName: nat, kind: MapKind, hasMap: bool, xs: seq<Input>, stamp: seq<byte>) returns (out: Option<seq<byte>>)
    requires 14 <= maxName <= NAME_SIZE && |stamp| == 32 && forall i :: 0 <= i < |xs| ==> xs[i].Valid()
    ensures out.Some? ==> HeadsFit(maxName, xs)
    ensures HeadsFit(maxName, xs) ==>
      var es := ElementsOf(maxName, xs);
      var kept, mapped := Kept(hasMap, es), Mapped(hasMap, es);
      && (out.Some? <==> (mapped && !kind.Elf64Map? ==>
            Fit32(MapEntries(kind, false, kept, ClaimedBase(MapSize(kind, Exports(kept, |kept|)), 0)))))
      && (out.Some? ==> out.value == FileOf44(kind, mapped, es, stamp))
  {
    hide *;
    var elements := BuildElements(maxName, xs);
    if elements.None? {
      return None;
    }
    KeptIs(hasMap, elements.value);
    FileIs44(kind, Mapped(hasMap, elements.value), elements.value, stamp);
    NoNamesPart(TableName(), []);
    var w := new ArchiveWriter(kind, false, elements.value);
    var ok := w.WriteArchiveContents(hasMap, TableName(), [], stamp);
    return if ok then Some(w.out) else None;
  }

  // ----- One member -----

  /** The archive as it is known once it is open. */
  function Reader44(maxName: nat): (a: Archive)
    requires 14 <= maxName <= NAME_SIZE
    ensures a.Valid() && a.maxName == maxName && !a.thin && a.names == None
  {
    Archive(maxName, false, None)
  }

  /** The name goes out behind its header, announced newly or by an earlier archive. */
  predicate GoesBehind(maxName: nat, x: Input)
    requires x.Valid()
  {
    var n := RoundUp4(|x.Name()|);
    n < TWO_TO_32 / 2 && (IsLong(maxName, x.Name()) || (Announces(x.hdr, n) && x.extra == n))
  }

  /** The header as it came holds the name itself, in whatever way that is read, and the size. */
  predicate HoldsOwnName(maxName: nat, x: Input)
    requires 14 <= maxName <= NAME_SIZE && x.Valid()
  {
    !IsLong(maxName, x.Name()) && x.extra == 0 && ReadsAs(Reader44(maxName), x.hdr, x.Name()) && ParsedSize(x.hdr) == Some(|x.body.contents|)
  }

  /** A member that survives. */
  ghost predicate InputPrepared(maxName: nat, x: Input)
    requires 14 <= maxName <= NAME_SIZE
  {
    HeadFits(maxName, x) && NulFree(x.filename) && x.hdr[58..60] == Fmag() && (GoesBehind(maxName, x) || HoldsOwnName(maxName, x))
  }

  /** The member's header at a position gives its name and size, and its contents follow. */
  ghost predicate Found44(a: Archive, x: Input, e: Element, file: seq<byte>, pos: nat)
    requires a.Valid()
  {
    match ReadHeader(a, file, pos)
    case None => false
    case Some(h) =>
      && h.filename == x.Name() && h.parsedSize == |e.contents| && h.at == pos + |e.head| && At(file, h.at, x.body.contents)
      && e.contents == x.body.contents
  }

  lemma Found44Means(a: Archive, x: Input, e: Element, file: seq<byte>, pos: nat)
    requires a.Valid() && e.contents == x.body.contents && At(file, pos + |e.head|, e.contents)
    ensures var r := ReadHeader(a, file, pos);
      Found44(a, x, e, file, pos) <==>
        r.Some? && r.value.filename == x.Name() && r.value.parsedSize == |e.contents| && r.value.at == pos + |e.head|
  {
    hide ReadHeader, At, BaseOf;
  }

  lemma InputMeans(maxName: nat, x: Input)
    requires 14 <= maxName <= NAME_SIZE && InputPrepared(maxName, x)
    ensures HeadFits(maxName, x) && NulFree(x.filename) && |x.hdr| == HDR_SIZE && x.Valid() && x.hdr[58..60] == Fmag()
    ensures GoesBehind(maxName, x) || HoldsOwnName(maxName, x)
  {
    hide Head, BaseOf, GoesBehind, HoldsOwnName;
  }

  /** The header that goes out announces the name: newly, or as it did before. */
  lemma GoesOutAnnouncing(maxName: nat, x: Input)
    requires 14 <= maxName <= NAME_SIZE && |x.hdr| == HDR_SIZE && x.hdr[58..60] == Fmag() && GoesBehind(maxName, x)
    ensures RoundUp4(|x.Name()|) < TWO_TO_32 / 2
    ensures var h := Announced(maxName, x.Name(), x.hdr);
      h[58..60] == Fmag() && Announces(h, RoundUp4(|x.Name()|)) && ExtraSize(maxName, x.Name(), x.extra) == RoundUp4(|x.Name()|)
  {
    Pow10Ten();
    var name := x.Name();
    hide BaseOf, RoundUp4, Announces, Announcing, Pow10, IsLong;
    if IsLong(maxName, name) {
      AnnouncementReads(maxName, x.hdr, RoundUp4(|name|));
      MagicKept(maxName, x.hdr, RoundUp4(|name|));
    }
  }

  lemma ElementIs(maxName: nat, x: Input)
    requires HeadFits(maxName, x)
    ensures var e, h := ElementOf(maxName, x), Announced(maxName, x.Name(), x.hdr);
      && HeaderBytes(h, x.Name(), |x.body.contents|) == Some(e.head) && e.contents == x.body.contents
      && e.extra == ExtraSize(maxName, x.Name(), x.extra) && e.filename == x.filename
  {
    hide HeaderBytes, Announced, ExtraSize, BaseOf;
  }

  lemma FullAnnounced(h: seq<byte>, name: seq<byte>, size: nat, file: seq<byte>, pos: nat, b: seq<byte>)
    requires |h| == HDR_SIZE && h[58..60] == Fmag() && Announces(h, RoundUp4(|name|)) && HeaderBytes(h, name, size) == Some(b)
    requires At(file, pos, b)
    ensures WrittenAt(h, name, size, file, pos) && HasBsd44Name(h) && HeaderBytes(h, name, size).value == b
  {
    hide HeaderBytes, RoundUp4, ReadNumber;
  }

  lemma NameIsFree(x: Input)
    requires NulFree(x.filename)
    ensures NulFree(x.Name()) && BaseName(x.Name())
  {
    var name := BaseOf(x.filename);
    SuffixIsFree(x.filename, name);
    hide BaseOf;
  }

  lemma AnnouncedIsFound(maxName: nat, x: Input, file: seq<byte>, pos: nat)
    requires 14 <= maxName <= NAME_SIZE && HeadFits(maxName, x) && NulFree(x.filename) && |x.hdr| == HDR_SIZE
    requires x.hdr[58..60] == Fmag() && GoesBehind(maxName, x)
    requires At(file, pos, Written(false, ElementOf(maxName, x)))
    ensures Found44(Reader44(maxName), x, ElementOf(maxName, x), file, pos)
    ensures |ElementOf(maxName, x).head| == HDR_SIZE + ElementOf(maxName, x).extra
  {
    hide *;
    HeaderSizes();
    NameIsFree(x);
    GoesOutAnnouncing(maxName, x);
    ElementIs(maxName, x);
    var a, e, h, name, size := Reader44(maxName), ElementOf(maxName, x), Announced(maxName, x.Name(), x.hdr), x.Name(), |x.body.contents|;
    WrittenParts(false, e, file, pos);
    FullAnnounced(h, name, size, file, pos, e.head);
    BytesPieces(h, name, size);
    Bsd44NameReads(a, h, name, size, file, pos);
    Found44Means(a, x, e, file, pos);
  }

  lemma ShortGoesOut(maxName: nat, x: Input)
    requires 14 <= maxName <= NAME_SIZE && HeadFits(maxName, x) && |x.hdr| == HDR_SIZE
    requires !IsLong(maxName, x.Name()) && !HasBsd44Name(x.hdr)
    ensures ElementOf(maxName, x).head == x.hdr && ElementOf(maxName, x).extra == x.extra
  {
    hide BaseOf, IsLong, HasBsd44Name;
  }

  lemma HoldsMeans(maxName: nat, x: Input)
    requires 14 <= maxName <= NAME_SIZE && x.Valid() && HoldsOwnName(maxName, x)
    ensures !IsLong(maxName, x.Name()) && x.extra == 0 && ReadsAs(Reader44(maxName), x.hdr, x.Name()) && !HasBsd44Name(x.hdr)
    ensures ParsedSize(x.hdr) == Some(|x.body.contents|)
  {
    hide BaseOf, IsLong, HasBsd44Name, HasExtendedName, NameEnd, ParsedSize;
  }

  lemma AloneIs(a: Archive, file: seq<byte>, pos: nat, h: seq<byte>)
    requires a.Valid() && a.names.None? && At(file, pos, h) && |h| == HDR_SIZE && !HasBsd44Name(h)
    ensures ReadHeader(a, file, pos) ==
      if h[58..60] == Fmag() && ParsedSize(h).Some? then Some(Areltdata(h[..NameEnd(a, h)], ParsedSize(h).value, 0, 0, h, pos + HDR_SIZE))
      else None
    ensures !HasExtendedName(a, h)
  {
    hide HasBsd44Name, NameEnd, ParsedSize;
  }

  /**
    A header that is kept as it came, from whatever archive: the member is found with its name and
    size if and only if the header holds them.
   */
  lemma KeptHeaderReads(maxName: nat, x: Input, file: seq<byte>, pos: nat)
    requires 14 <= maxName <= NAME_SIZE && HeadFits(maxName, x) && |x.hdr| == HDR_SIZE
    requires !IsLong(maxName, x.Name()) && !HasBsd44Name(x.hdr) && At(file, pos, Written(false, ElementOf(maxName, x)))
    ensures Found44(Reader44(maxName), x, ElementOf(maxName, x), file, pos) <==>
      x.hdr[58..60] == Fmag() && ParsedSize(x.hdr) == Some(|x.body.contents|) && ReadsAs(Reader44(maxName), x.hdr, x.Name())
  {
    hide *;
    HeaderSizes();
    ShortGoesOut(maxName, x);
    ElementIs(maxName, x);
    var a, e := Reader44(maxName), ElementOf(maxName, x);
    WrittenParts(false, e, file, pos);
    ReadsMeans(a, x.hdr, x.Name());
    AloneIs(a, file, pos, x.hdr);
    Found44Means(a, x, e, file, pos);
  }

  /** A reference to a name table, like "/123" in a header from an SVR4 archive, is not put right: the name is lost. */
  lemma OldReferenceLosesName(maxName: nat, x: Input, file: seq<byte>, pos: nat)
    requires 14 <= maxName <= NAME_SIZE && HeadFits(maxName, x) && NulFree(x.filename) && |x.hdr| == HDR_SIZE && x.hdr[0] == SLASH
    requires !IsLong(maxName, x.Name()) && x.Name() != [] && At(file, pos, Written(false, ElementOf(maxName, x)))
    ensures !Found44(Reader44(maxName), x, ElementOf(maxName, x), file, pos)
  {
    hide *;
    HeaderSizes();
    ElementIs(maxName, x);
    NameIsFree(x);
    SlashIsNoName(Reader44(maxName), x.hdr, x.Name());
    KeptHeaderReads(maxName, x, file, pos);
  }

  lemma SlashIsNoName(a: Archive, hdr: seq<byte>, name: seq<byte>)
    requires a.Valid() && |hdr| == HDR_SIZE && hdr[0] == SLASH && name != [] && BaseName(name)
    ensures !ReadsAs(a, hdr, name) && !HasBsd44Name(hdr)
  {
    hide NameEnd, HasExtendedName;
    if hdr[..NameEnd(a, hdr)] == name {
      FirstBytes(hdr, name, 0);
    }
  }

  /** Where a member was written it is found, with its name, size and contents. */
  lemma Bsd44MemberIsFound(maxName: nat, x: Input, file: seq<byte>, pos: nat)
    requires 14 <= maxName <= NAME_SIZE && InputPrepared(maxName, x)
    requires HeadFits(maxName, x) && At(file, pos, Written(false, ElementOf(maxName, x)))
    ensures Found44(Reader44(maxName), x, ElementOf(maxName, x), file, pos)
    ensures ElementOf(maxName, x).Valid()
  {
    hide *;
    InputMeans(maxName, x);
    HeaderSizes();
    ElementIs(maxName, x);
    if GoesBehind(maxName, x) {
      AnnouncedIsFound(maxName, x, file, pos);
      GoesOutAnnouncing(maxName, x);
    } else {
      HoldsMeans(maxName, x);
      ShortGoesOut(maxName, x);
      KeptHeaderReads(maxName, x, file, pos);
    }
    ElementValid(ElementOf(maxName, x), |x.Name()|);
  }

  lemma ElementValid(e: Element, n: nat)
    requires |e.head| == HDR_SIZE + e.extra && (e.extra == 0 || e.extra == RoundUp4(n))
    ensures e.Valid()
  {
  }

  // ----- Whole archives -----

  ghost predicate AllPrepared(maxName: nat, xs: seq<Input>)
    requires 14 <= maxName <= NAME_SIZE
  {
    forall i :: 0 <= i < |xs| ==> InputPrepared(maxName, xs[i])
  }

  lemma PreparedFit(maxName: nat, xs: seq<Input>)
    requires 14 <= maxName <= NAME_SIZE && AllPrepared(maxName, xs)
    ensures HeadsFit(maxName, xs) && forall i :: 0 <= i < |xs| ==> HeadFits(maxName, xs[i]) && InputPrepared(maxName, xs[i])
  {
    forall i | 0 <= i < |xs| ensures HeadFits(maxName, xs[i]) {
      InputMeans(maxName, xs[i]);
    }
    hide InputPrepared, HeadFits;
  }

  lemma AllValid44(maxName: nat, kind: MapKind, xs: seq<Input>, d: nat)
    requires 14 <= maxName <= NAME_SIZE && AllPrepared(maxName, xs) && d <= |xs| && HeadsFit(maxName, xs)
    ensures AllValid(ElementsOf(maxName, xs)[d..])
    ensures kind.BsdMap? ==> AllSuit(kind, false, ElementsOf(maxName, xs)[d..])
  {
    PreparedFit(maxName, xs);
    hide InputPrepared, HeadFits, ElementOf, Written;
    forall i | 0 <= i < |xs| ensures ElementOf(maxName, xs[i]).Valid() {
      AtFront(Written(false, ElementOf(maxName, xs[i])), []);
      Bsd44MemberIsFound(maxName, xs[i], Written(false, ElementOf(maxName, xs[i])) + [], 0);
    }
  }

  /** The first member's name does not make its header look like a map's. */
  predicate PlainName(name: seq<byte>) {
    !(SymdefName() <= name)
  }

  lemma TwentyReads(h: seq<byte>)
    requires |h| >= 60 && h[..16] == SortedMapName()
    ensures ReadNumber(h, 3).value == 20
  {
    var d: seq<byte> := [0x32, 0x30];
    assert SortedMapName()[3] == 0x32 && SortedMapName()[4] == 0x30 && SortedMapName()[5] == SPACE;
    assert forall k :: 0 <= k < 16 ==> h[k] == h[..16][k];
    assert h[3..5] == d;
    LastDigit([], 2);
    LastDigit([0x32], 0);
    assert d == [0x32] + [0x30] && [0x32] == [] + [0x32 as byte];
    DigitsRead(h, 3, d);
  }

  /** No map's name begins as an announcement does, but "#1/20". */
  lemma MapNamesDiffer(order: Endian, name: seq<byte>)
    requires |name| == 16 && name[0] == 0x23
    ensures NoMapName(order, name) && !IsNamesName(name)
  {
    assert MapName(BsdMap(order))[0] == 0x5f && OldSymdefName()[0] == 0x5f;
    assert MapName(CoffMap)[0] == SLASH && MapName(Elf64Map)[0] == SLASH;
  }

  /** "#1/20" is followed by the name. */
  lemma NameFollows(h: seq<byte>, name: seq<byte>, rest: seq<byte>, b: seq<byte>)
    requires |h| >= 60 && h <= b && Announces(h[..60], RoundUp4(|name|)) && b[..16] == SortedMapName()
    requires |h| == 60 + RoundUp4(|name|) && h[60..] == name + rest && PlainName(name)
    ensures |b| >= 80 && b[60..69] != SymdefName()
  {
    assert h[..60][..16] == b[..16];
    TwentyReads(h[..60]);
    hide ReadNumber;
    assert |name| >= 9;
    assert h[60..][..9] == name[..9];
    assert b[60..69] == h[60..69] == h[60..][..9];
  }

  /** A header that announces a name is no map's, whatever number it gives, if the name is not that of a map. */
  lemma AnnouncedIsPlain(order: Endian, h: seq<byte>, name: seq<byte>, rest: seq<byte>, b: seq<byte>)
    requires |h| >= 60 && h <= b && Announces(h[..60], RoundUp4(|name|))
    requires |h| == 60 + RoundUp4(|name|) && h[60..] == name + rest
    ensures !IsNamesName(b[..16]) && b[0] != SLASH
    ensures PlainName(name) ==> NoMapBytes(order, b)
  {
    hide ReadNumber, MapName, IsNamesName, PlainName, SortedMapName, NoMapName, SymdefName, RoundUp4;
    assert h[..60][0] == 0x23;
    assert b[..16][0] == h[..60][0];
    MapNamesDiffer(order, b[..16]);
    if PlainName(name) && b[..16] == SortedMapName() {
      NameFollows(h, name, rest, b);
    }
  }

  lemma NamesHaveSlashes(order: Endian, name: seq<byte>)
    requires |name| == 16 && name[0] != SLASH && name[2] != SLASH && name[9] != SLASH && name[11] != SLASH
    ensures !IsNamesName(name) && name != SortedMapName() && (NoMapName(order, name) <==> name != SymdefName() + Spaces(7))
  {
    assert OldSymdefName()[9] == SLASH && SortedMapName()[2] == SLASH && MapName(CoffMap)[0] == SLASH && MapName(Elf64Map)[0] == SLASH;
  }

  /** A name field without a slash. */
  predicate NoSlash(hdr: seq<byte>)
    requires |hdr| == HDR_SIZE
  {
    forall k :: 0 <= k < 14 ==> hdr[k] != SLASH
  }

  /** A header that begins like a BSD map's holds a name that does. */
  lemma SymdefHeld(a: Archive, h: seq<byte>, name: seq<byte>)
    requires a.Valid() && a.maxName >= 14 && |h| == HDR_SIZE && h[..16] == SymdefName() + Spaces(7) && h[..NameEnd(a, h)] == name
    ensures SymdefName() <= name
  {
    assert forall k :: 0 <= k < 9 ==> h[k] == h[..16][k] == SymdefName()[k] != SPACE;
    assert forall k :: 9 <= k < 16 ==> h[k] == h[..16][k] == SPACE;
    FindsNothing(h, a.maxName, 0);
    FindsNothing(h, a.maxName, SLASH);
    FindIs(h, a.maxName, SPACE, 9);
    assert h[..9] == h[..16][..9] == SymdefName();
  }

  /** Nor is one that holds a name and no slash. */
  lemma ShortIsPlain(order: Endian, maxName: nat, h: seq<byte>, name: seq<byte>, b: seq<byte>)
    requires 14 <= maxName <= NAME_SIZE && |h| == HDR_SIZE && h <= b && ReadsAs(Reader44(maxName), h, name) && NoSlash(h)
    ensures !IsNamesName(b[..16]) && b[0] != SLASH
    ensures PlainName(name) ==> NoMapBytes(order, b)
  {
    assert b[..16] == h[..16];
    hide NoMapName, IsNamesName, SortedMapName, SymdefName, NameEnd;
    NamesHaveSlashes(order, h[..16]);
    if h[..16] == SymdefName() + Spaces(7) {
      SymdefHeld(Reader44(maxName), h, name);
    }
  }

  /** Its header announces its name or has no slash in the name field. */
  predicate Plain44(maxName: nat, x: Input)
    requires x.Valid()
  {
    GoesBehind(maxName, x) || NoSlash(x.hdr)
  }

  lemma PlainMeans44(maxName: nat, x: Input)
    requires x.Valid()
    ensures Plain44(maxName, x) <==> GoesBehind(maxName, x) || NoSlash(x.hdr)
  {
    hide GoesBehind, NoSlash;
  }

  /** What such a member begins with is no name table's header, nor a map's unless its name is. */
  lemma HeadIsPlain(maxName: nat, order: Endian, x: Input, b: seq<byte>)
    requires 14 <= maxName <= NAME_SIZE && InputPrepared(maxName, x) && HeadFits(maxName, x) && ElementOf(maxName, x).head <= b
    requires x.Valid() && Plain44(maxName, x)
    ensures |b| >= 60 && !IsNamesName(b[..16]) && b[0] != SLASH
    ensures PlainName(x.Name()) ==> NoMapBytes(order, b)
  {
    hide *;
    HeaderSizes();
    InputMeans(maxName, x);
    ElementIs(maxName, x);
    var h, head, name, size := Announced(maxName, x.Name(), x.hdr), ElementOf(maxName, x).head, x.Name(), |x.body.contents|;
    if GoesBehind(maxName, x) {
      GoesOutAnnouncing(maxName, x);
      AnnouncesMeans(h, RoundUp4(|name|));
      BytesPieces(h, name, size);
      FrontIs(head, h);
      AnnouncesTheSame(h, head[..60], RoundUp4(|name|));
      AnnouncedIsPlain(order, head, name, Zeros(RoundUp4(|name|) - |name|), b);
    } else {
      HoldsMeans(maxName, x);
      ShortGoesOut(maxName, x);
      PlainMeans44(maxName, x);
      ShortIsPlain(order, maxName, head, name, b);
    }
  }

  lemma FrontIs(b: seq<byte>, h: seq<byte>)
    requires |b| >= 60 && |h| == 60 && b[..48] == h[..48]
    ensures b[..60][..48] == h[..48]
  {
  }

  /**
    Behind a map such a first member looks like neither a name table nor a second map; without
    one, not like a map unless its name does.
   */
  lemma FirstIsPlain(maxName: nat, kind: MapKind, order: Endian, mapped: bool, xs: seq<Input>)
    requires 14 <= maxName <= NAME_SIZE && AllPrepared(maxName, xs) && HeadsFit(maxName, xs)
    requires var d := LeftOut(mapped, ElementsOf(maxName, xs)); d < |xs| ==> xs[d].Valid() && Plain44(maxName, xs[d])
    ensures var es, d := Remaining(mapped, ElementsOf(maxName, xs)), LeftOut(mapped, ElementsOf(maxName, xs));
      && PlainFirst(kind, false, es, [])
      && ((d < |xs| ==> PlainName(xs[d].Name())) ==> BareFirst(order, false, es, []))
  {
    hide *;
    var all := ElementsOf(maxName, xs);
    var es, d := Remaining(mapped, all), LeftOut(mapped, all);
    RemainingIsSuffix(mapped, all);
    if es != [] {
      PreparedFit(maxName, xs);
      assert es[0] == all[d] == ElementOf(maxName, xs[d]);
      FirstMember(false, es);
      HeadIsPlain(maxName, order, xs[d], Members(false, es, |es|));
    } else {
      NoMembers(false, es);
    }
    BytesArePlain(kind, order, es);
  }

  lemma BytesArePlain(kind: MapKind, order: Endian, es: seq<Element>)
    requires var b := Members(false, es, |es|); b == [] || (|b| >= 16 && !IsNamesName(b[..16]) && b[0] != SLASH)
    ensures PlainFirst(kind, false, es, [])
    ensures var b := Members(false, es, |es|); b == [] || NoMapBytes(order, b) ==> BareFirst(order, false, es, [])
  {
    hide Members, IsNamesName, NoMapName;
  }

  /**
    Stepping through the opened archive, with or without a map, meets every member with its name,
    size and contents, and visits them in order up to the first without contents.
   */
  lemma Bsd44SteppingVisitsTheMembers(maxName: nat, kind: MapKind, mapped: bool, xs: seq<Input>, stamp: seq<byte>, order: Endian,
                                      canOpen: seq<byte> -> bool)
    requires 14 <= maxName <= NAME_SIZE && |stamp| == 32 && AllPrepared(maxName, xs) && HeadsFit(maxName, xs)
    requires Openable(kind, order, false, mapped, Remaining(mapped, ElementsOf(maxName, xs)), [])
    requires |FileOf44(kind, mapped, ElementsOf(maxName, xs), stamp)| < TWO_TO_64
    ensures var all := ElementsOf(maxName, xs);
      var file, es, d := FileOf44(kind, mapped, all, stamp), Remaining(mapped, all), LeftOut(mapped, all);
      var o, good := Open(order, maxName, file), AllGood(|es|);
      && o.Some? && o.value.archive == Reader44(maxName) && d + |es| == |xs|
      && (forall k :: 0 <= k < |es| ==> Found44(Reader44(maxName), xs[d + k], es[k], file, o.value.first + Start(false, es, k)))
      && VisitFrom(Reader44(maxName), canOpen, file, o.value.first) == Visited(false, es, good, o.value.first, 0)
      && (|Visited(false, es, good, o.value.first, 0)| == |es| <==> NothingStops(false, es, good, 0))
  {
    hide *;
    var all := ElementsOf(maxName, xs);
    var file, es, d, a := FileOf44(kind, mapped, all, stamp), Remaining(mapped, all), LeftOut(mapped, all), Reader44(maxName);
    var good := AllGood(|es|);
    RemainingIsSuffix(mapped, all);
    Ready44(maxName, kind, order, mapped, xs, stamp);
    var base := FirstAt(kind, mapped, es, 0);
    StartOfAll(false, es);
    forall k | 0 <= k < |es|
      ensures Found44(a, xs[d + k], es[k], file, base + Start(false, es, k))
      ensures Met(a, canOpen, file, es[k], good[k], base + Start(false, es, k))
    {
      WrittenWhere(false, es, file, base, k);
      PreparedFit(maxName, xs);
      assert es[k] == all[d + k] == ElementOf(maxName, xs[d + k]);
      Bsd44MemberIsFound(maxName, xs[d + k], file, base + Start(false, es, k));
      Found44IsMet(a, xs[d + k], canOpen, file, es[k], base + Start(false, es, k));
    }
    IsMembersRead(a, canOpen, file, false, es, good, base);
    VisitsMembers(a, canOpen, file, false, es, good, base, 0);
    AllAreVisited(false, es, good, base, 0);
  }

  function AllGood(n: nat): (r: seq<bool>)
    ensures |r| == n && forall i :: 0 <= i < n ==> r[i]
  {
    seq(n, _ => true)
  }

  lemma Found44IsMet(a: Archive, x: Input, canOpen: seq<byte> -> bool, file: seq<byte>, e: Element, pos: nat)
    requires a.Valid() && !a.thin && Found44(a, x, e, file, pos)
    ensures Met(a, canOpen, file, e, true, pos)
  {
    hide ReadHeader, At, BaseOf;
  }

  /** The archive is opened at its members. */
  lemma Ready44(maxName: nat, kind: MapKind, order: Endian, mapped: bool, xs: seq<Input>, stamp: seq<byte>)
    requires 14 <= maxName <= NAME_SIZE && |stamp| == 32 && AllPrepared(maxName, xs) && HeadsFit(maxName, xs)
    requires Openable(kind, order, false, mapped, Remaining(mapped, ElementsOf(maxName, xs)), [])
    ensures var all := ElementsOf(maxName, xs);
      var file, es := FileOf44(kind, mapped, all, stamp), Remaining(mapped, all);
      var o, first := Open(order, maxName, file), FirstAt(kind, mapped, es, 0);
      && o.Some? && o.value.archive == Reader44(maxName) && o.value.first == first && first % 2 == 0
      && At(file, first, Members(false, es, |es|)) && |file| == first + |Members(false, es, |es|)| && AllValid(es)
  {
    hide *;
    var all := ElementsOf(maxName, xs);
    var es, d := Remaining(mapped, all), LeftOut(mapped, all);
    RemainingIsSuffix(mapped, all);
    AllValid44(maxName, kind, xs, d);
    FileIs44(kind, mapped, all, stamp);
    NoTable44(maxName);
    OpensAtMembers(kind, order, maxName, false, mapped, es, TableName(), [], stamp);
  }

  lemma NoTable44(maxName: nat)
    requires 14 <= maxName <= NAME_SIZE
    ensures 4 <= maxName <= NAME_SIZE && Reader44(maxName) == Archive(maxName, false, None)
    ensures IsNamesName(TableName()) && NamesFit([]) && NamesOfTable([]) == None
  {
  }

  /** Following the k-th entry of the archive's BSD map leads to the member that exports the symbol. */
  lemma Bsd44SymbolLeadsToItsMember(maxName: nat, order: Endian, xs: seq<Input>, stamp: seq<byte>, k: nat)
    requires 14 <= maxName <= NAME_SIZE && |stamp| == 32 && AllPrepared(maxName, xs) && HeadsFit(maxName, xs)
    requires var es := WithoutSymdef(ElementsOf(maxName, xs));
      Openable(BsdMap(order), order, false, true, es, []) && k < |Exports(es, |es|)|
    ensures var all := ElementsOf(maxName, xs);
      var file, es := FileOf44(BsdMap(order), true, all, stamp), WithoutSymdef(all);
      var o, x, d := Open(order, maxName, file), Exports(es, |es|)[k], |all| - |es|;
      && o.Some? && o.value.archive == Reader44(maxName)
      && o.value.symdefs.Some? && |o.value.symdefs.value| == |Exports(es, |es|)| && x.1 < |es| && d >= 0
      && var sym := o.value.symdefs.value[k];
         sym.name == Some(x.0) && sym.offset >= 0 && Found44(Reader44(maxName), xs[d + x.1], es[x.1], file, sym.offset)
  {
    hide *;
    var kind, all := BsdMap(order), ElementsOf(maxName, xs);
    WithoutIsSuffix(all);
    var es, d := WithoutSymdef(all), Dropped(all);
    var size := MapSize(kind, Exports(es, |es|));
    var file, fs := FileOf44(kind, true, all, stamp), MapEntries(kind, false, es, ClaimedBase(size, 0));
    FileIs44(kind, true, all, stamp);
    AllValid44(maxName, kind, xs, d);
    OpenableMeans(kind, order, false, true, es, []);
    NoTable44(maxName);
    OpensAsWritten(kind, order, maxName, false, es, TableName(), [], stamp);
    MapLeadsToMembers(kind, false, es, TableName(), [], stamp, k);
    MapEntryIs(kind, false, es, ClaimedBase(size, 0), k);
    AsReadAt(fs, k);
    var owner := Exports(es, |es|)[k].1;
    PreparedFit(maxName, xs);
    assert es[owner] == all[d + owner] == ElementOf(maxName, xs[d + owner]);
    Bsd44MemberIsFound(maxName, xs[d + owner], file, fs[k].offset);
  }

}
