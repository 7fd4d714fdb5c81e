/**
  Writing an archive (archive.c, archive64.c): collecting the symbol map, the three map writers
  with their look-ahead positions, the name table, and the members.
 */
module ArWriter {
  import opened CBytes
  import opened ArText
  import opened ArHeader
  import opened ArMap
  import opened ArLayout

  // ----- What a map looks like -----

  function MapName(kind: MapKind): (r: seq<byte>)
    ensures |r| == 16
  {
    match kind
    case BsdMap(_) => [0x5f, 0x5f, 0x2e, 0x53, 0x59, 0x4d, 0x44, 0x45, 0x46] + Spaces(7)   // __.SYMDEF
    case CoffMap => [SLASH] + Spaces(15)
    case Elf64Map => [SLASH, 0x53, 0x59, 0x4d, 0x36, 0x34, SLASH] + Spaces(9)              // /SYM64/
  }

  function MapBody(kind: MapKind, es: seq<Entry>): seq<byte> {
    match kind
    case BsdMap(order) => BsdBody(order, es)
    case CoffMap => CoffBody(es)
    case Elf64Map => Elf64Body(es)
  }

  /** The header of a map; its size is an unsigned int, and `stamp` is the date and the owner. */
  function MapHeader(kind: MapKind, size: nat, stamp: seq<byte>): (r: seq<byte>)
    requires |stamp| == 32
    ensures |r| == HDR_SIZE
  {
    U32Fits(size);
    Header(MapName(kind), stamp, SizeField(U32(size)).value)
  }

  lemma U32Fits(size: int)
    ensures SizeField(U32(size)).Some?
  {
    DecimalLength(U32(size), 10);
    Pow10Ten();
    hide Decimal;
  }

  /** The length of a map depends on the names only. */
  lemma {:induction false} SameStrings(es: seq<Entry>, fs: seq<Entry>, n: nat)
    requires n <= |es| && |es| == |fs| && forall k :: 0 <= k < |es| ==> es[k].name == fs[k].name
    ensures Strings(es, n) == Strings(fs, n)
  {
    if n > 0 {
      SameStrings(es, fs, n - 1);
    }
  }

  /** The names of the map, with no offsets yet. */
  function NamesOf(xs: seq<(seq<byte>, nat)>): (r: seq<Entry>)
    ensures |r| == |xs|
  {
    seq(|xs|, k requires 0 <= k < |xs| => Entry(xs[k].0, 0))
  }

  function StringsOf(xs: seq<(seq<byte>, nat)>, n: nat): seq<byte>
    requires n <= |xs|
  {
    Strings(NamesOf(xs), n)
  }

  /** The map as it is collected: each symbol with its owner and the place of its name. */
  ghost predicate Collected(map_: seq<Orl>, xs: seq<(seq<byte>, nat)>) {
    && |map_| == |xs|
    && forall k :: 0 <= k < |map_| ==> map_[k] == Orl(xs[k].0, xs[k].1, |StringsOf(xs, k)|)
  }

  lemma {:induction false} CollectedPrefix(xs: seq<(seq<byte>, nat)>, ys: seq<(seq<byte>, nat)>, n: nat)
    requires xs <= ys && n <= |xs|
    ensures StringsOf(xs, n) == StringsOf(ys, n)
  {
    var es, fs := NamesOf(xs), NamesOf(ys);
    PrefixStrings(es, fs, n);
  }

  lemma {:induction false} PrefixStrings(es: seq<Entry>, fs: seq<Entry>, n: nat)
    requires n <= |es| <= |fs| && forall k :: 0 <= k < |es| ==> es[k].name == fs[k].name
    ensures Strings(es, n) == Strings(fs, n)
  {
    if n > 0 {
      PrefixStrings(es, fs, n - 1);
    }
  }

  /** One more symbol. */
  lemma CollectOne(map_: seq<Orl>, xs: seq<(seq<byte>, nat)>, name: seq<byte>, owner: nat)
    requires Collected(map_, xs)
    ensures var ys := xs + [(name, owner)];
      && Collected(map_ + [Orl(name, owner, |StringsOf(xs, |xs|)|)], ys)
      && |StringsOf(ys, |ys|)| == |StringsOf(xs, |xs|)| + |name| + 1
  {
    hide StringsOf;
    var ys, m := xs + [(name, owner)], map_ + [Orl(name, owner, |StringsOf(xs, |xs|)|)];
    forall k | 0 <= k <= |xs| ensures StringsOf(xs, k) == StringsOf(ys, k) {
      CollectedPrefix(xs, ys, k);
    }
    LongerByOne(ys, |xs|);
    forall k | 0 <= k < |m| ensures m[k] == Orl(ys[k].0, ys[k].1, |StringsOf(ys, k)|) {
      if k < |xs| {
        assert m[k] == map_[k] && ys[k] == xs[k];
      }
    }
  }

  lemma LongerByOne(ys: seq<(seq<byte>, nat)>, n: nat)
    requires n < |ys|
    ensures |StringsOf(ys, n + 1)| == |StringsOf(ys, n)| + |ys[n].0| + 1
  {
    hide Strings;
    assert NamesOf(ys)[n].name == ys[n].0;
    OneMoreString(NamesOf(ys), n);
  }

  lemma OneMoreString(es: seq<Entry>, n: nat)
    requires n < |es|
    ensures |Strings(es, n + 1)| == |Strings(es, n)| + |es[n].name| + 1
  {
  }

  /** The symbols of one member, behind those of the members before it. */
  function With(xs: seq<(seq<byte>, nat)>, names: seq<seq<byte>>, owner: nat): seq<(seq<byte>, nat)> {
    xs + seq(|names|, k requires 0 <= k < |names| => (names[k], owner))
  }

  lemma WithOne(xs: seq<(seq<byte>, nat)>, names: seq<seq<byte>>, name: seq<byte>, owner: nat)
    ensures With(xs, names + [name], owner) == With(xs, names, owner) + [(name, owner)]
    ensures With(xs, names + [], owner) == With(xs, names, owner) && With(xs, [], owner) == xs
  {
    assert names + [] == names;
  }

  function Even(n: nat): (r: nat)
    ensures r % 2 == 0 && n <= r
  {
    n + n % 2
  }

  function Eight(n: nat): (r: nat)
    ensures r % 2 == 0 && n <= r
  {
    RoundedToEight(n);
    n + (8 - n % 8) % 8
  }

  lemma RoundedToEight(n: nat)
    ensures (n + (8 - n % 8) % 8) % 2 == 0
  {
    var q, m := n / 8, n % 8;
    assert n == 8 * q + m;
    RestOfEight(m);
    AddTwos(0, 4 * q + if m == 0 then 0 else 4);
  }

  lemma RestOfEight(m: nat)
    requires m < 8
    ensures (8 - m) % 8 == if m == 0 then 0 else 8 - m
  {
  }

  /** The length of a map. */
  function MapSize(kind: MapKind, xs: seq<(seq<byte>, nat)>): nat {
    var n, strings := |xs|, |StringsOf(xs, |xs|)|;
    match kind
    case BsdMap(_) => 8 * n + 8 + Even(strings)
    case CoffMap => Even(4 * n + 4 + strings)
    case Elf64Map => Eight(8 * n + 8 + strings)
  }

  lemma MapSizeIsEven(kind: MapKind, xs: seq<(seq<byte>, nat)>)
    ensures MapSize(kind, xs) % 2 == 0
  {
    hide StringsOf, Even, Eight;
    if kind.BsdMap? {
      var half := Even(|StringsOf(xs, |xs|)|) / 2;
      assert MapSize(kind, xs) == 2 * (4 * |xs| + 4 + half);
      hide MapSize;
      TwiceIsEven(4 * |xs| + 4 + half);
    }
  }

  /** The map for the collected symbols, with offsets worked out from `base`. */
  function MapEntries(kind: MapKind, thin: bool, es: seq<Element>, base: int): (r: seq<Entry>)
    ensures |r| == |Exports(es, |es|)|
  {
    ComputedEntries(kind, thin, es, base)
  }

  lemma MapEntryIs(kind: MapKind, thin: bool, es: seq<Element>, base: int, k: nat)
    requires k < |Exports(es, |es|)|
    ensures var x := Exports(es, |es|)[k];
      && x.1 < |es| && (k > 0 ==> Exports(es, |es|)[k - 1].1 <= x.1)
      && MapEntries(kind, thin, es, base)[k] == Entry(x.0, Computed(kind, thin, es, base, x.1))
  {
    ExportsSorted(es, |es|);
    hide Exports, Computed;
  }

  lemma StringsAre(kind: MapKind, thin: bool, es: seq<Element>, base: int, n: nat)
    requires n <= |Exports(es, |es|)|
    ensures Strings(MapEntries(kind, thin, es, base), n) == StringsOf(Exports(es, |es|), n)
  {
    hide Computed, Exports;
    var fs, ns := MapEntries(kind, thin, es, base), NamesOf(Exports(es, |es|));
    forall k | 0 <= k < |fs| ensures fs[k].name == ns[k].name {
      MapEntryIs(kind, thin, es, base, k);
    }
    SameStrings(fs, ns, n);
  }

  /** The body's length is what was reserved for it. */
  lemma BodySize(kind: MapKind, thin: bool, es: seq<Element>, base: int)
    ensures |MapBody(kind, MapEntries(kind, thin, es, base))| == MapSize(kind, Exports(es, |es|))
  {
    hide Exports, ComputedEntries, Strings, Rows;
    var fs := MapEntries(kind, thin, es, base);
    var n := |fs|;
    StringsAre(kind, thin, es, base, n);
    match kind {
      case BsdMap(order) =>
        var strings := |Strings(fs, n)|;
        assert strings + |EvenPad(strings)| == Even(strings);
        assert AllWide(Ranlibs(order, fs), 8);
        RowsLength(Ranlibs(order, fs), 8, n);
      case CoffMap =>
        assert AllWide(Offsets32(Big, fs), 4);
        RowsLength(Offsets32(Big, fs), 4, n);
      case Elf64Map =>
        assert AllWide(Offsets64(fs), 8);
        RowsLength(Offsets64(fs), 8, n);
    }
  }

  /** The first map writers' test: a position that survives being an unsigned int. */
  lemma FitTest(x: int)
    ensures U32(x) == x <==> 0 <= x < TWO_TO_32
  {
  }

  // ----- Sizes added up as unsigned ints -----

  lemma WrapSum(a: int, b: int, c: int)
    ensures U32(U32(a) + U32(b) + c) == U32(a + b + c) && U32(b + U32(a)) == U32(a + b)
  {
    WrapTerm(a, U32(b) + c);
    WrapTerm(b, a + c);
    WrapTerm(a, b);
    hide U32;
  }

  lemma WrapTerm(a: int, b: int)
    ensures U32(U32(a) + b) == U32(a + b)
  {
  }

  lemma WrapTwice(a: int, b: int)
    ensures U32(U32(a) + b) == U32(a + b)
  {
  }

  lemma WrapEven(x: nat)
    ensures U32(x) % 2 == x % 2 && U32(U32(x) + U32(x) % 2) == U32(Even(x))
  {
    WrapMod2(x);
    WrapTwice(x, x % 2);
    hide U32;
  }

  lemma WrapMod2(x: nat)
    ensures U32(x) % 2 == x % 2
  {
    var q, y := x / TWO_TO_32, U32(x);
    assert x == TWO_TO_32 * q + y;
    hide U32;
    AddTwos(y, 0x8000_0000 * q);
  }

  lemma AddTwos(y: int, k: int)
    ensures (2 * k + y) % 2 == y % 2
  {
  }

  /** BFD_ALIGN to 8, on an unsigned int that is added to as one. */
  lemma WrapEight(x: nat)
    ensures var size := U32(x);
      var padding := (size + 7) / 8 * 8 - size;
      padding == (8 - x % 8) % 8 && U32(size + padding) == U32(Eight(x))
  {
    WrapMod8(x);
    RoundToEight(U32(x));
    WrapTwice(x, (8 - x % 8) % 8);
    hide U32;
  }

  lemma WrapMod8(x: nat)
    ensures U32(x) % 8 == x % 8
  {
    var q, y := x / TWO_TO_32, U32(x);
    assert x == TWO_TO_32 * q + y;
    hide U32;
    AddEights(y, 0x2000_0000 * q);
  }

  lemma AddEights(y: int, k: int)
    ensures (8 * k + y) % 8 == y % 8
  {
  }

  lemma RoundToEight(size: nat)
    ensures (size + 7) / 8 * 8 - size == (8 - size % 8) % 8
  {
  }

  // ----- What an archive looks like -----

  const DEFAULT_BUFFERSIZE: nat := 8192

  /** ARMAG and ARMAGT */
  function Magic(thin: bool): (r: seq<byte>)
    ensures |r| == SARMAG
  {
    [0x21, 0x3c] + (if thin then [0x74, 0x68, 0x69, 0x6e] else [0x61, 0x72, 0x63, 0x68]) + [0x3e, NEWLINE]
  }

  function SymdefName(): seq<byte> {
    [0x5f, 0x5f, 0x2e, 0x53, 0x59, 0x4d, 0x44, 0x45, 0x46]
  }

  /** A new map is made: leading members that hold an old one are left out. */
  function WithoutSymdef(es: seq<Element>): seq<Element> {
    if es != [] && es[0].filename == SymdefName() then WithoutSymdef(es[1..]) else es
  }

  predicate AnyObject(es: seq<Element>) {
    exists k :: 0 <= k < |es| && es[k].isObject
  }

  predicate Mapped(hasMap: bool, es: seq<Element>) {
    hasMap && AnyObject(es)
  }

  function Kept(hasMap: bool, es: seq<Element>): seq<Element> {
    if Mapped(hasMap, es) then WithoutSymdef(es) else es
  }

  /** The size of the table, rounded up, has at most ten digits. */
  predicate NamesFit(etable: seq<byte>) {
    etable == [] || SizeField((|etable| + 1) / 2 * 2).Some?
  }

  function NamesPart(ename: seq<byte>, etable: seq<byte>): seq<byte>
    requires |ename| == 16 && NamesFit(etable)
  {
    if etable == [] then []
    else Header(ename, Spaces(32), SizeField((|etable| + 1) / 2 * 2).value) + etable + OddPad(|etable|)
  }

  function MapPart(kind: MapKind, thin: bool, mapped: bool, es: seq<Element>, elength: nat, stamp: seq<byte>): seq<byte>
    requires |stamp| == 32
  {
    if !mapped then []
    else
      var size := MapSize(kind, Exports(es, |es|));
      MapHeader(kind, size, stamp) + MapBody(kind, MapEntries(kind, thin, es, ClaimedBase(size, elength)))
  }

  function ArchiveBytes(kind: MapKind, thin: bool, mapped: bool, es: seq<Element>, ename: seq<byte>, etable: seq<byte>,
                        stamp: seq<byte>): seq<byte>
    requires |stamp| == 32 && |ename| == 16 && NamesFit(etable)
  {
    Magic(thin) + MapPart(kind, thin, mapped, es, |etable|, stamp) + NamesPart(ename, etable) + Members(thin, es, |es|)
  }

  /** "!<arch>\n", and "!<thin>\n" for a thin archive. */
  function FirstEight(thin: bool): (r: seq<byte>)
    ensures |r| == 8
  {
    if thin then [0x21, 0x3c, 0x74, 0x68, 0x69, 0x6e, 0x3e, 0x0a] else [0x21, 0x3c, 0x61, 0x72, 0x63, 0x68, 0x3e, 0x0a]
  }

  /** Every archive begins with them. */
  lemma ArchiveBegins(kind: MapKind, thin: bool, mapped: bool, es: seq<Element>, ename: seq<byte>, etable: seq<byte>, stamp: seq<byte>)
    requires |stamp| == 32 && |ename| == 16 && NamesFit(etable)
    ensures FirstEight(thin) <= ArchiveBytes(kind, thin, mapped, es, ename, etable, stamp)
  {
    hide *;
    MagicIs(thin);
    Parts(kind, thin, mapped, es, ename, etable, stamp);
    var a, b, c, d := Magic(thin), MapPart(kind, thin, mapped, es, |etable|, stamp), NamesPart(ename, etable), Members(thin, es, |es|);
    assert a + b + c + d == a + (b + c + d);
  }

  lemma MagicIs(thin: bool)
    ensures Magic(thin) == FirstEight(thin)
  {
  }

  lemma Parts(kind: MapKind, thin: bool, mapped: bool, es: seq<Element>, ename: seq<byte>, etable: seq<byte>, stamp: seq<byte>)
    requires |stamp| == 32 && |ename| == 16 && NamesFit(etable)
    ensures ArchiveBytes(kind, thin, mapped, es, ename, etable, stamp)
         == Magic(thin) + MapPart(kind, thin, mapped, es, |etable|, stamp) + NamesPart(ename, etable) + Members(thin, es, |es|)
  {
    hide Magic, MapPart, NamesPart, Members;
  }

  /** The size of a COFF map and its padding, in unsigned ints. */
  method CoffSize(n: nat, stridx: nat) returns (mapsize: int, padit: int)
    ensures mapsize == U32(Even(4 * n + 4 + stridx)) && padit == (4 * n + 4 + stridx) % 2
  {
    hide *;
    var ranlibsize, stringsize := U32(4 * n + 4), U32(stridx);
    mapsize := U32(stringsize + ranlibsize);
    WrapSum(stridx, 4 * n + 4, 0);
    WrapEven(4 * n + 4 + stridx);
    padit := mapsize % 2;
    mapsize := U32(mapsize + padit);
  }

  /** The size of a 64-bit map and its padding. */
  method Elf64Size(n: nat, stridx: nat) returns (mapsize: int, padding: int)
    ensures mapsize == U32(Eight(8 * n + 8 + stridx)) && padding == (8 - (8 * n + 8 + stridx) % 8) % 8
  {
    hide *;
    var ranlibsize, stringsize := U32(8 * n + 8), U32(stridx);
    mapsize := U32(stringsize + ranlibsize);
    WrapSum(stridx, 8 * n + 8, 0);
    WrapEight(8 * n + 8 + stridx);
    padding := (mapsize + 7) / 8 * 8 - mapsize;
    mapsize := U32(mapsize + padding);
  }

  class ArchiveWriter {
    const kind: MapKind
    const thin: bool
    var elements: seq<Element>
    var out: seq<byte>

    constructor (kind: MapKind, thin: bool, elements: seq<Element>)
      ensures this.kind == kind && this.thin == thin && this.elements == elements && out == []
    {
      this.kind, this.thin, this.elements, out := kind, thin, elements, [];
    }

    /** The part of _bfd_compute_and_write_armap that maps over one member's symbols. */
    method CollectFrom(i: nat, map0: seq<Orl>, stridx0: nat) returns (map_: seq<Orl>, stridx: nat)
      requires i < |elements|
      requires Collected(map0, Exports(elements, i)) && stridx0 == |StringsOf(Exports(elements, i), |Exports(elements, i)|)|
      ensures var xs := Exports(elements, i + 1); Collected(map_, xs) && stridx == |StringsOf(xs, |xs|)|
    {
      hide *;
      map_, stridx := map0, stridx0;
      var e := elements[i];
      ghost var xs := Exports(elements, i);
      ExportsAre(elements, i);
      ExportsOfIs(e.symbols, 0);
      WithOne(xs, [], [], i);
      if e.isObject {
        var src := 0;
        while src < |e.symbols|
          invariant 0 <= src <= |e.symbols|
          invariant var ys := With(xs, ExportsOf(e.symbols, src), i); Collected(map_, ys) && stridx == |StringsOf(ys, |ys|)|
        {
          var sym := e.symbols[src];
          ExportsOfIs(e.symbols, src + 1);
          ghost var names := ExportsOf(e.symbols, src);
          WithOne(xs, names, sym.name, i);
          ExportedIs(sym);
          if (sym.global || sym.weak || sym.indirect || sym.unique || sym.common) && !sym.undefined {
            CollectOne(map_, With(xs, names, i), sym.name, i);
            map_ := map_ + [Orl(sym.name, i, stridx)];
            stridx := stridx + |sym.name| + 1;
          }
          src := src + 1;
        }
      }
    }

    /** The whole of the collection. */
    method CollectMap() returns (map_: seq<Orl>, stridx: nat)
      ensures var xs := Exports(elements, |elements|); Collected(map_, xs) && stridx == |StringsOf(xs, |xs|)|
    {
      map_, stridx := [], 0;
      var i := 0;
      assert Exports(elements, 0) == [];
      while i < |elements|
        invariant 0 <= i <= |elements|
        invariant var xs := Exports(elements, i); Collected(map_, xs) && stridx == |StringsOf(xs, |xs|)|
      {
        hide Exports, Collected, StringsOf;
        map_, stridx := CollectFrom(i, map_, stridx);
        i := i + 1;
      }
    }

    /** What a map writer leaves in the file: the map with the positions it worked out from `base`. */
    ghost predicate WroteMap(before: seq<byte>, base: int, stamp: seq<byte>)
      requires |stamp| == 32
      reads this
    {
      var fs := MapEntries(kind, thin, elements, base);
      out == before + MapHeader(kind, MapSize(kind, Exports(elements, |elements|)), stamp) + MapBody(kind, fs)
    }

    /** bsd_write_armap's step to the member that owns the next symbol. */
    method StepTo(owner: nat, current0: nat, firstreal0: int, ghost base: int) returns (current: nat, firstreal: int)
      requires kind.BsdMap? && current0 <= owner < |elements| && firstreal0 == Computed(kind, thin, elements, base, current0)
      ensures current == owner && firstreal == Computed(kind, thin, elements, base, owner)
    {
      current, firstreal := current0, firstreal0;
      while current != owner
        invariant current <= owner && firstreal == Computed(kind, thin, elements, base, current)
        decreases owner - current
      {
        var e := elements[current];
        firstreal := firstreal + (|e.contents| + e.extra + HDR_SIZE);
        firstreal := firstreal + firstreal % 2;
        current := current + 1;
      }
    }

    /** bsd_write_armap's loop over the symbols; the first position beyond four bytes stops it. */
    method WriteRanlibs(map_: seq<Orl>, base: int) returns (ok: bool)
      requires kind.BsdMap? && Collected(map_, Exports(elements, |elements|))
      modifies this`out
      ensures ok <==> Fit32(MapEntries(kind, thin, elements, base))
      ensures ok ==> out == old(out) + Rows(Ranlibs(kind.order, MapEntries(kind, thin, elements, base)), |map_|)
    {
      hide *;
      ghost var xs, fs := Exports(elements, |elements|), MapEntries(kind, thin, elements, base);
      ghost var rows := Ranlibs(kind.order, fs);
      CollectedLength(map_, xs);
      var firstreal, current := base, 0;
      ComputedStarts(kind, thin, elements, base);
      RowsIs(rows, 0);
      NoneFit(fs);
      assert out == out + [];
      var count := 0;
      while count < |map_|
        invariant 0 <= count <= |map_| && current <= |elements|
        invariant firstreal == Computed(kind, thin, elements, base, current)
        invariant current == if count > 0 then xs[count - 1].1 else 0
        invariant out == old(out) + Rows(rows, count)
        invariant Fit32(fs[..count])
      {
        CollectedAt(map_, xs, count);
        MapEntryIs(kind, thin, elements, base, count);
        if map_[count].owner != current {
          current, firstreal := StepTo(map_[count].owner, current, firstreal, base);
        }
        FitTest(firstreal);
        FitStep(fs, count);
        if firstreal != U32(firstreal) {
          return false;
        }
        StringsAre(kind, thin, elements, base, count);
        RanlibIs(kind.order, fs, count);
        RowsIs(rows, count + 1);
        out := out + (Put32(kind.order, map_[count].namidx) + Put32(kind.order, firstreal));
        Associates(old(out), Rows(rows, count), rows[count]);
        count := count + 1;
      }
      assert fs[..count] == fs;
      return true;
    }

    /** bsd_write_armap.  `padded` is the name table's length as the caller passes it on. */
    method WriteBsdArmap(padded: int, map_: seq<Orl>, stridx: nat, stamp: seq<byte>) returns (ok: bool, ghost base: int)
      requires kind.BsdMap? && |stamp| == 32
      requires var xs := Exports(elements, |elements|); Collected(map_, xs) && stridx == |StringsOf(xs, |xs|)|
      modifies this`out
      ensures base == U32(U32(MapSize(kind, Exports(elements, |elements|))) + padded) + HDR_SIZE + SARMAG
      ensures ok <==> Fit32(MapEntries(kind, thin, elements, base))
      ensures ok ==> WroteMap(old(out), base, stamp)
    {
      hide *;
      ghost var xs := Exports(elements, |elements|);
      var n := |map_|;
      CollectedLength(map_, xs);
      var padit := stridx % 2;
      var ranlibsize, stringsize := U32(8 * n), U32(stridx + padit);
      var mapsize := U32(ranlibsize + stringsize + 8);
      WrapSum(8 * n, stridx + padit, 8);
      MapSizeIs(kind, xs);
      U32Twice(MapSize(kind, xs));
      U32Fits(mapsize);
      var firstreal := U32(mapsize + padded) + HDR_SIZE + SARMAG;
      base := firstreal;
      ghost var fs := MapEntries(kind, thin, elements, base);
      WriteMapHeader(mapsize, stamp);
      HeaderOf(kind, MapSize(kind, xs), stamp);
      ghost var front0 := out;
      out := out + Put32(kind.order, ranlibsize);
      ok := WriteRanlibs(map_, firstreal);
      if !ok {
        return;
      }
      out := out + Put32(kind.order, stringsize);
      Put32Low(kind.order, 8 * n);
      Put32Low(kind.order, stridx + padit);
      WriteStrings(map_);
      StringsAre(kind, thin, elements, base, n);
      PadIs(stridx);
      if padit != 0 {
        out := out + [0];
      } else {
        assert out == out + [];
      }
      MapBodyIs(kind, fs, stridx);
      FiveTogether(front0, Put32(kind.order, 8 * n), Rows(Ranlibs(kind.order, fs), n), Put32(kind.order, stridx + padit),
                   Strings(fs, n), EvenPad(stridx));
      WroteWhen(front0, old(out), base, stamp);
    }

    /** coff_write_armap's loop: the offsets of each member's symbols, then on to the next member. */
    method WriteCoffOffsets(map_: seq<Orl>, base: int) returns (ok: bool)
      requires kind.CoffMap? && Collected(map_, Exports(elements, |elements|))
      modifies this`out
      ensures ok <==> Fit32(MapEntries(kind, thin, elements, base))
      ensures ok ==> out == old(out) + Rows(Offsets32(Big, MapEntries(kind, thin, elements, base)), |map_|)
    {
      hide *;
      ghost var xs, fs := Exports(elements, |elements|), MapEntries(kind, thin, elements, base);
      ghost var rows := Offsets32(Big, fs);
      CollectedLength(map_, xs);
      ComputedStarts(kind, thin, elements, base);
      RowsIs(rows, 0);
      NoneFit(fs);
      assert out == out + [];
      var archiveMemberFilePtr, current, count := base, 0, 0;
      while current < |elements| && count < |map_|
        invariant 0 <= count <= |map_| && current <= |elements|
        invariant archiveMemberFilePtr == Computed(kind, thin, elements, base, current)
        invariant count < |map_| ==> current <= xs[count].1
        invariant out == old(out) + Rows(rows, count)
        invariant Fit32(fs[..count])
      {
        while count < |map_| && map_[count].owner == current
          invariant 0 <= count <= |map_|
          invariant count < |map_| ==> current <= xs[count].1
          invariant out == old(out) + Rows(rows, count)
          invariant Fit32(fs[..count])
        {
          CollectedAt(map_, xs, count);
          MapEntryIs(kind, thin, elements, base, count);
          FitTest(archiveMemberFilePtr);
          FitStep(fs, count);
          if archiveMemberFilePtr != U32(archiveMemberFilePtr) {
            return false;
          }
          OffsetRows(fs, count);
          RowsIs(rows, count + 1);
          out := out + Put32(Big, archiveMemberFilePtr);
          Associates(old(out), Rows(rows, count), rows[count]);
          count := count + 1;
          if count < |map_| {
            MapEntryIs(kind, thin, elements, base, count);
          }
        }
        if count < |map_| {
          CollectedAt(map_, xs, count);
        }
        ComputedSteps(kind, thin, elements, base, current);
        archiveMemberFilePtr := archiveMemberFilePtr + HDR_SIZE;
        if !thin {
          archiveMemberFilePtr := archiveMemberFilePtr + |elements[current].contents|;
          archiveMemberFilePtr := archiveMemberFilePtr + archiveMemberFilePtr % 2;
        }
        current := current + 1;
      }
      if count < |map_| {
        MapEntryIs(kind, thin, elements, base, count);
      }
      assert fs[..count] == fs;
      return true;
    }

    /** coff_write_armap */
    method WriteCoffArmap(padded: int, map_: seq<Orl>, stridx: nat, stamp: seq<byte>) returns (ok: bool, ghost base: int)
      requires kind.CoffMap? && |stamp| == 32
      requires var xs := Exports(elements, |elements|); Collected(map_, xs) && stridx == |StringsOf(xs, |xs|)|
      modifies this`out
      ensures base == U32(U32(MapSize(kind, Exports(elements, |elements|))) + padded) + HDR_SIZE + SARMAG
      ensures ok <==> Fit32(MapEntries(kind, thin, elements, base))
      ensures ok ==> WroteMap(old(out), base, stamp)
    {
      hide *;
      ghost var xs := Exports(elements, |elements|);
      var n := |map_|;
      CollectedLength(map_, xs);
      var mapsize, padit := CoffSize(n, stridx);
      MapSizeIs(kind, xs);
      U32Twice(MapSize(kind, xs));
      U32Fits(mapsize);
      var first := U32(mapsize + padded) + HDR_SIZE + SARMAG;
      base := first;
      ghost var fs := MapEntries(kind, thin, elements, base);
      WriteMapHeader(mapsize, stamp);
      HeaderOf(kind, MapSize(kind, xs), stamp);
      ghost var front0 := out;
      out := out + Put32(Big, n);
      ok := WriteCoffOffsets(map_, first);
      if !ok {
        return;
      }
      WriteStrings(map_);
      StringsAre(kind, thin, elements, base, n);
      PadIs(4 * n + 4 + stridx);
      if padit != 0 {
        out := out + [0];
      } else {
        assert out == out + [];
      }
      MapBodyIs(kind, fs, stridx);
      FourTogether(front0, Put32(Big, n), Rows(Offsets32(Big, fs), n), Strings(fs, n), EvenPad(4 * n + 4 + stridx));
      WroteWhen(front0, old(out), base, stamp);
    }

    /** The same loop in bfd_elf64_archive_write_armap, which has room for every offset. */
    method WriteElf64Offsets(map_: seq<Orl>, base: int)
      requires kind.Elf64Map? && Collected(map_, Exports(elements, |elements|))
      modifies this`out
      ensures out == old(out) + Rows(Offsets64(MapEntries(kind, thin, elements, base)), |map_|)
    {
      hide *;
      ghost var xs, fs := Exports(elements, |elements|), MapEntries(kind, thin, elements, base);
      ghost var rows := Offsets64(fs);
      CollectedLength(map_, xs);
      ComputedStarts(kind, thin, elements, base);
      RowsIs(rows, 0);
      assert out == out + [];
      var archiveMemberFilePtr, current, count := base, 0, 0;
      while current < |elements| && count < |map_|
        invariant 0 <= count <= |map_| && current <= |elements|
        invariant archiveMemberFilePtr == Computed(kind, thin, elements, base, current)
        invariant count < |map_| ==> current <= xs[count].1
        invariant out == old(out) + Rows(rows, count)
      {
        while count < |map_| && map_[count].owner == current
          invariant 0 <= count <= |map_|
          invariant count < |map_| ==> current <= xs[count].1
          invariant out == old(out) + Rows(rows, count)
        {
          CollectedAt(map_, xs, count);
          MapEntryIs(kind, thin, elements, base, count);
          OffsetRows(fs, count);
          RowsIs(rows, count + 1);
          out := out + Put64(archiveMemberFilePtr);
          Associates(old(out), Rows(rows, count), rows[count]);
          count := count + 1;
          if count < |map_| {
            MapEntryIs(kind, thin, elements, base, count);
          }
        }
        if count < |map_| {
          CollectedAt(map_, xs, count);
        }
        ComputedSteps(kind, thin, elements, base, current);
        archiveMemberFilePtr := archiveMemberFilePtr + HDR_SIZE;
        if !thin {
          archiveMemberFilePtr := archiveMemberFilePtr + |elements[current].contents|;
        }
        archiveMemberFilePtr := archiveMemberFilePtr + archiveMemberFilePtr % 2;
        current := current + 1;
      }
      if count < |map_| {
        MapEntryIs(kind, thin, elements, base, count);
      }
    }

    /** bfd_elf64_archive_write_armap */
    method WriteElf64Armap(padded: int, map_: seq<Orl>, stridx: nat, stamp: seq<byte>) returns (ghost base: int)
      requires kind.Elf64Map? && |stamp| == 32
      requires var xs := Exports(elements, |elements|); Collected(map_, xs) && stridx == |StringsOf(xs, |xs|)|
      modifies this`out
      ensures base == U32(U32(MapSize(kind, Exports(elements, |elements|))) + padded) + HDR_SIZE + SARMAG
      ensures WroteMap(old(out), base, stamp)
    {
      hide *;
      ghost var xs := Exports(elements, |elements|);
      var n := |map_|;
      CollectedLength(map_, xs);
      var mapsize, padding := Elf64Size(n, stridx);
      MapSizeIs(kind, xs);
      U32Twice(MapSize(kind, xs));
      U32Fits(mapsize);
      var first := U32(mapsize + padded) + HDR_SIZE + SARMAG;
      base := first;
      ghost var fs := MapEntries(kind, thin, elements, base);
      WriteMapHeader(mapsize, stamp);
      HeaderOf(kind, MapSize(kind, xs), stamp);
      ghost var front0 := out;
      out := out + Put64(n);
      WriteElf64Offsets(map_, first);
      WriteStrings(map_);
      StringsAre(kind, thin, elements, base, n);
      Pad8Is(8 * n + 8 + stridx);
      WritePadding(padding);
      MapBodyIs(kind, fs, stridx);
      FourTogether(front0, Put64(n), Rows(Offsets64(fs), n), Strings(fs, n), Pad8(8 * n + 8 + stridx));
      WroteWhen(front0, old(out), base, stamp);
    }

    /** The zeros behind the names. */
    method WritePadding(padding: nat)
      modifies this`out
      ensures out == old(out) + Zeros(padding)
    {
      hide *;
      assert out == out + Zeros(0);
      var left := padding;
      while left != 0
        invariant 0 <= left <= padding && out == old(out) + Zeros(padding - left)
      {
        ZerosStep(padding - left);
        Associates(old(out), Zeros(padding - left), [0]);
        out := out + [0];
        left := left - 1;
      }
    }

    /** The names, each with its NUL. */
    method WriteStrings(map_: seq<Orl>)
      requires Collected(map_, Exports(elements, |elements|))
      modifies this`out
      ensures out == old(out) + StringsOf(Exports(elements, |elements|), |map_|)
    {
      hide *;
      ghost var xs := Exports(elements, |elements|);
      CollectedLength(map_, xs);
      StringsOfIs(xs, 0);
      var count := 0;
      assert out == out + [];
      while count < |map_|
        invariant 0 <= count <= |map_|
        invariant out == old(out) + StringsOf(xs, count)
      {
        CollectedAt(map_, xs, count);
        StringsOfIs(xs, count + 1);
        out := out + (map_[count].name + [0]);
        Associates(old(out), StringsOf(xs, count), map_[count].name + [0]);
        count := count + 1;
      }
    }

    lemma WroteWhen(front0: seq<byte>, before: seq<byte>, base: int, stamp: seq<byte>)
      requires |stamp| == 32
      requires front0 == before + MapHeader(kind, MapSize(kind, Exports(elements, |elements|)), stamp)
      requires out == front0 + MapBody(kind, MapEntries(kind, thin, elements, base))
      ensures WroteMap(before, base, stamp)
    {
      hide MapHeader, MapBody, MapSize, MapEntries, Exports;
    }

    /** The header of a map. */
    method WriteMapHeader(mapsize: int, stamp: seq<byte>)
      requires 0 <= mapsize < TWO_TO_32 && |stamp| == 32 && SizeField(mapsize).Some?
      modifies this`out
      ensures out == old(out) + Header(MapName(kind), stamp, SizeField(mapsize).value)
    {
      hide Header, SizeField, MapName;
      out := out + Header(MapName(kind), stamp, SizeField(mapsize).value);
    }

    /** _bfd_compute_and_write_armap: members called __.SYMDEF at the front are dropped for good. */
    method ComputeAndWriteArmap(elength: nat, stamp: seq<byte>) returns (ok: bool)
      requires |stamp| == 32
      modifies this`out, this`elements
      ensures elements == WithoutSymdef(old(elements))
      ensures var base := ClaimedBase(MapSize(kind, Exports(elements, |elements|)), elength);
        && (ok <==> kind.Elf64Map? || Fit32(MapEntries(kind, thin, elements, base)))
        && (ok ==> WroteMap(old(out), base, stamp))
    {
      hide *;
      var padded := U32(elength);
      if padded != 0 {
        padded := U32(padded + HDR_SIZE);
      }
      padded := U32(padded + padded % 2);
      PaddedIs(elength);
      while elements != [] && elements[0].filename == SymdefName()
        invariant WithoutSymdef(elements) == WithoutSymdef(old(elements)) && out == old(out)
        decreases |elements|
      {
        WithoutSymdefIs(elements);
        elements := elements[1..];
      }
      WithoutSymdefIs(elements);
      var map_, stridx := CollectMap();
      BaseIs(MapSize(kind, Exports(elements, |elements|)), elength);
      ghost var base;
      match kind {
        case BsdMap(_) => ok, base := WriteBsdArmap(padded, map_, stridx, stamp);
        case CoffMap => ok, base := WriteCoffArmap(padded, map_, stridx, stamp);
        case Elf64Map =>
          base := WriteElf64Armap(padded, map_, stridx, stamp);
          ok := true;
      }
    }

    /** The extended name table behind its header, padded with a newline. */
    method WriteNames(ename: seq<byte>, etable: seq<byte>) returns (ok: bool)
      requires |ename| == 16
      modifies this`out
      ensures ok <==> NamesFit(etable)
      ensures ok ==> out == old(out) + NamesPart(ename, etable)
    {
      hide SizeField, Header;
      if |etable| == 0 {
        return true;
      }
      var size := SizeField((|etable| + 1) / 2 * 2);
      if size.None? {
        return false;
      }
      out := out + Header(ename, Spaces(32), size.value);
      out := out + etable;
      if |etable| % 2 == 1 {
        out := out + [NEWLINE];
      } else {
        assert out == out + [];
      }
      Associates(old(out), Header(ename, Spaces(32), size.value), etable);
      Associates(old(out), Header(ename, Spaces(32), size.value) + etable, OddPad(|etable|));
      return true;
    }

    /** The members themselves, their contents a buffer at a time. */
    method WriteMembers()
      modifies this`out
      ensures out == old(out) + Members(thin, elements, |elements|)
    {
      hide *;
      NoMembers(thin, elements);
      assert out == out + [];
      var i := 0;
      while i < |elements|
        invariant 0 <= i <= |elements| && out == old(out) + Members(thin, elements, i)
      {
        ghost var before := out;
        WriteMember(elements[i]);
        MembersStep(thin, elements, i);
        Associates(old(out), Members(thin, elements, i), Written(thin, elements[i]));
        i := i + 1;
      }
    }

    method WriteMember(e: Element)
      modifies this`out
      ensures out == old(out) + Written(thin, e)
    {
      out := out + e.head;
      if thin {
        return;
      }
      var remaining, at := |e.contents|, 0;
      assert e.contents[..0] == [];
      while remaining != 0
        invariant 0 <= at && 0 <= remaining && at + remaining == |e.contents|
        invariant out == old(out) + e.head + e.contents[..at]
      {
        var amt := if DEFAULT_BUFFERSIZE > remaining then remaining else DEFAULT_BUFFERSIZE;
        assert e.contents[..at + amt] == e.contents[..at] + e.contents[at..at + amt];
        Associates(old(out) + e.head, e.contents[..at], e.contents[at..at + amt]);
        out := out + e.contents[at..at + amt];
        remaining, at := remaining - amt, at + amt;
      }
      assert e.contents[..at] == e.contents;
      if |e.contents| % 2 == 1 {
        out := out + [NEWLINE];
      } else {
        assert out == out + [];
      }
      Associates(old(out), e.head, e.contents);
      Associates(old(out), e.head + e.contents, OddPad(|e.contents|));
    }

    /** _bfd_write_archive_contents, once the headers are ready. */
    method WriteArchiveContents(hasMap: bool, ename: seq<byte>, etable: seq<byte>, stamp: seq<byte>) returns (ok: bool)
      requires |ename| == 16 && |stamp| == 32
      modifies this`out, this`elements
      ensures elements == Kept(hasMap, old(elements))
      ensures ok <==> NamesFit(etable) && (Mapped(hasMap, old(elements)) && !kind.Elf64Map? ==>
        Fit32(MapEntries(kind, thin, elements, ClaimedBase(MapSize(kind, Exports(elements, |elements|)), |etable|))))
      ensures ok ==> out == ArchiveBytes(kind, thin, Mapped(hasMap, old(elements)), elements, ename, etable, stamp)
      ensures ok ==> FirstEight(thin) <= out
    {
      hide *;
      var hasobjects := false;
      AnyObjectIs(elements, 0);
      var i := 0;
      while i < |elements|
        invariant 0 <= i <= |elements| && elements == old(elements)
        invariant hasobjects <==> hasMap && AnyObject(elements[..i])
      {
        AnyObjectIs(elements, i + 1);
        if hasMap && !hasobjects {
          if elements[i].isObject {
            hasobjects := true;
          }
        }
        i := i + 1;
      }
      assert elements[..i] == elements;
      MappedIs(hasMap, elements);
      out := Magic(thin);
      if hasMap && hasobjects {
        ok := ComputeAndWriteArmap(|etable|, stamp);
        if !ok {
          return;
        }
        WroteIs(out, Magic(thin), ClaimedBase(MapSize(kind, Exports(elements, |elements|)), |etable|), stamp);
      } else {
        assert out == out + [];
      }
      ghost var mapPart := MapPart(kind, thin, Mapped(hasMap, old(elements)), elements, |etable|, stamp);
      MapPartIs(kind, thin, Mapped(hasMap, old(elements)), elements, |etable|, stamp);
      assert out == Magic(thin) + mapPart;
      ok := WriteNames(ename, etable);
      if !ok {
        return;
      }
      WriteMembers();
      ArchiveIs(kind, thin, Mapped(hasMap, old(elements)), elements, ename, etable, stamp);
      ArchiveBegins(kind, thin, Mapped(hasMap, old(elements)), elements, ename, etable, stamp);
    }

    lemma WroteIs(now: seq<byte>, before: seq<byte>, base: int, stamp: seq<byte>)
      requires |stamp| == 32 && now == out && WroteMap(before, base, stamp)
      ensures now == before + (MapHeader(kind, MapSize(kind, Exports(elements, |elements|)), stamp)
                               + MapBody(kind, MapEntries(kind, thin, elements, base)))
    {
      hide MapHeader, MapBody, MapSize, MapEntries, Exports;
      Associates(before, MapHeader(kind, MapSize(kind, Exports(elements, |elements|)), stamp),
                 MapBody(kind, MapEntries(kind, thin, elements, base)));
    }
  }

  lemma ExportedIs(s: Symbol)
    ensures Exported(s) <==> (s.global || s.weak || s.indirect || s.unique || s.common) && !s.undefined
  {
  }

  lemma ExportsAre(es: seq<Element>, i: nat)
    requires i < |es|
    ensures Exports(es, i + 1)
         == With(Exports(es, i), if es[i].isObject then ExportsOf(es[i].symbols, |es[i].symbols|) else [], i)
  {
    hide ExportsOf;
  }

  lemma CollectedLength(map_: seq<Orl>, xs: seq<(seq<byte>, nat)>)
    requires Collected(map_, xs)
    ensures |map_| == |xs|
  {
  }

  lemma CollectedAt(map_: seq<Orl>, xs: seq<(seq<byte>, nat)>, k: nat)
    requires Collected(map_, xs) && k < |map_|
    ensures k < |xs| && map_[k] == Orl(xs[k].0, xs[k].1, |StringsOf(xs, k)|)
  {
    hide StringsOf;
  }

  lemma U32Twice(x: int)
    ensures U32(U32(x)) == U32(x)
  {
  }

  lemma ComputedStarts(kind: MapKind, thin: bool, es: seq<Element>, base: int)
    ensures Computed(kind, thin, es, base, 0) == base
  {
  }

  lemma FitStep(es: seq<Entry>, k: nat)
    requires k < |es| && Fit32(es[..k])
    ensures Fit32(es[..k + 1]) <==> 0 <= es[k].offset < TWO_TO_32
    ensures !(0 <= es[k].offset < TWO_TO_32) ==> !Fit32(es)
  {
    assert forall j :: 0 <= j < k ==> es[j] == es[..k][j];
    assert forall j :: 0 <= j <= k ==> es[j] == es[..k + 1][j];
  }

  lemma NoneFit(es: seq<Entry>)
    ensures Fit32(es[..0])
  {
  }

  lemma Put32Low(e: Endian, x: int)
    ensures Put32(e, U32(x)) == Put32(e, x)
  {
    hide Put32;
    Put32Wraps(e, U32(x), x);
  }

  lemma PadIs(n: nat)
    ensures EvenPad(n) == if n % 2 != 0 then [0] else []
  {
  }

  lemma FiveTogether(x: seq<byte>, a: seq<byte>, b: seq<byte>, c: seq<byte>, d: seq<byte>, e: seq<byte>)
    ensures x + a + b + c + d + e == x + (a + b + c + d + e)
  {
  }

  lemma HeaderOf(kind: MapKind, size: nat, stamp: seq<byte>)
    requires |stamp| == 32
    ensures SizeField(U32(size)).Some?
    ensures MapHeader(kind, size, stamp) == Header(MapName(kind), stamp, SizeField(U32(size)).value)
  {
    U32Fits(size);
    hide Header, SizeField, MapName;
  }

  lemma ComputedSteps(kind: MapKind, thin: bool, es: seq<Element>, base: int, k: nat)
    requires k < |es|
    ensures Computed(kind, thin, es, base, k + 1) == Advance(kind, thin, Computed(kind, thin, es, base, k), es[k])
    ensures var pos, e := Computed(kind, thin, es, base, k), es[k];
      var p := pos + HDR_SIZE + (if thin then 0 else |e.contents|);
      && (kind.CoffMap? ==> Advance(kind, thin, pos, e) == if thin then p else p + p % 2)
      && (kind.Elf64Map? ==> Advance(kind, thin, pos, e) == p + p % 2)
  {
  }

  lemma FourTogether(x: seq<byte>, a: seq<byte>, b: seq<byte>, c: seq<byte>, d: seq<byte>)
    ensures x + a + b + c + d == x + (a + b + c + d)
  {
  }

  lemma Pad8Is(n: nat)
    ensures Pad8(n) == Zeros((8 - n % 8) % 8) && Zeros(0) == []
  {
  }

  lemma ZerosStep(n: nat)
    ensures Zeros(n + 1) == Zeros(n) + [0]
  {
  }

  lemma PaddedIs(elength: nat)
    ensures var e := U32(elength); var e1 := if e != 0 then U32(e + HDR_SIZE) else e; PaddedLength(elength) == U32(e1 + e1 % 2)
  {
    hide U32;
  }

  lemma BaseIs(mapSize: nat, elength: nat)
    ensures ClaimedBase(mapSize, elength) == U32(U32(mapSize) + PaddedLength(elength)) + HDR_SIZE + SARMAG
  {
    hide U32, PaddedLength;
  }

  lemma NoMembers(thin: bool, es: seq<Element>)
    ensures Members(thin, es, 0) == []
  {
  }

  lemma MappedIs(hasMap: bool, es: seq<Element>)
    ensures Mapped(hasMap, es) <==> hasMap && AnyObject(es)
    ensures Kept(hasMap, es) == if Mapped(hasMap, es) then WithoutSymdef(es) else es
  {
    hide AnyObject, WithoutSymdef;
  }

  lemma MapPartIs(kind: MapKind, thin: bool, mapped: bool, es: seq<Element>, elength: nat, stamp: seq<byte>)
    requires |stamp| == 32
    ensures MapPart(kind, thin, mapped, es, elength, stamp) ==
      if !mapped then []
      else MapHeader(kind, MapSize(kind, Exports(es, |es|)), stamp)
           + MapBody(kind, MapEntries(kind, thin, es, ClaimedBase(MapSize(kind, Exports(es, |es|)), elength)))
  {
    hide MapHeader, MapBody, MapEntries, ClaimedBase, MapSize, Exports;
  }

  lemma ArchiveIs(kind: MapKind, thin: bool, mapped: bool, es: seq<Element>, ename: seq<byte>, etable: seq<byte>, stamp: seq<byte>)
    requires |stamp| == 32 && |ename| == 16 && NamesFit(etable)
    ensures ArchiveBytes(kind, thin, mapped, es, ename, etable, stamp)
         == Magic(thin) + MapPart(kind, thin, mapped, es, |etable|, stamp) + NamesPart(ename, etable) + Members(thin, es, |es|)
  {
    hide MapPart, NamesPart, Members, Magic;
  }

  // The definitions by recursion, one step at a time

  lemma ExportsOfIs(symbols: seq<Symbol>, n: nat)
    requires n <= |symbols|
    ensures ExportsOf(symbols, n) ==
      if n == 0 then [] else ExportsOf(symbols, n - 1) + (if Exported(symbols[n - 1]) then [symbols[n - 1].name] else [])
  {
  }

  lemma StringsOfIs(xs: seq<(seq<byte>, nat)>, n: nat)
    requires n <= |xs|
    ensures StringsOf(xs, n) == if n == 0 then [] else StringsOf(xs, n - 1) + (xs[n - 1].0 + [0])
  {
  }

  lemma RowsIs(rows: seq<seq<byte>>, n: nat)
    requires n <= |rows|
    ensures Rows(rows, n) == if n == 0 then [] else Rows(rows, n - 1) + rows[n - 1]
  {
  }

  lemma AnyObjectIs(es: seq<Element>, n: nat)
    requires n <= |es|
    ensures AnyObject(es[..n]) <==> n > 0 && (AnyObject(es[..n - 1]) || es[n - 1].isObject)
  {
    if n > 0 {
      assert forall k :: 0 <= k < n - 1 ==> es[..n][k] == es[..n - 1][k] == es[k];
      assert es[..n][n - 1] == es[n - 1];
    }
  }

  lemma WithoutSymdefIs(es: seq<Element>)
    ensures WithoutSymdef(es) == if es != [] && es[0].filename == SymdefName() then WithoutSymdef(es[1..]) else es
  {
    hide SymdefName;
  }

  // The formats of the three maps

  lemma MapSizeIs(kind: MapKind, xs: seq<(seq<byte>, nat)>)
    ensures var n, strings := |xs|, |StringsOf(xs, |xs|)|;
      MapSize(kind, xs) ==
        match kind
        case BsdMap(_) => 8 * n + (strings + strings % 2) + 8
        case CoffMap => Even(4 * n + 4 + strings)
        case Elf64Map => Eight(8 * n + 8 + strings)
  {
    hide StringsOf, Eight;
  }

  lemma MapBodyIs(kind: MapKind, fs: seq<Entry>, stridx: nat)
    requires stridx == |Strings(fs, |fs|)|
    ensures var n, names := |fs|, Strings(fs, |fs|);
      MapBody(kind, fs) ==
        match kind
        case BsdMap(order) =>
          Put32(order, 8 * n) + Rows(Ranlibs(order, fs), n) + Put32(order, stridx + stridx % 2) + names + EvenPad(stridx)
        case CoffMap => Put32(Big, n) + Rows(Offsets32(Big, fs), n) + names + EvenPad(4 * n + 4 + stridx)
        case Elf64Map => Put64(n) + Rows(Offsets64(fs), n) + names + Pad8(8 * n + 8 + stridx)
  {
    PadIs(stridx);
    hide Put32, Put64, Rows, Strings, EvenPad, Pad8;
  }

  lemma OffsetRows(es: seq<Entry>, k: nat)
    requires k < |es|
    ensures Offsets32(Big, es)[k] == Put32(Big, es[k].offset) && Offsets64(es)[k] == Put64(es[k].offset)
  {
    hide Put32, Put64;
  }
}
