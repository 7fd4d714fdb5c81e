/**
  Whole sections (aoutx.h): the reloc loops of the a.out linker patch the contents and the
  relocs in place, and two links in a row leave the same bytes as one.
 */
module RelocSections {
  import opened CBytes
  import opened LinkModel
  import opened LinkRelocs

  /** The value makes no difference to a 32-bit field. */
  predicate Vanishes(x: int) {
    x % TWO_TO_32 == 0
  }

  /** A 32-bit field and what to add to it, or to put in it. */
  datatype Patch = Patch(at: nat, add: int)

  ghost predicate Fits(c: seq<byte>, ps: seq<Patch>) {
    forall k :: 0 <= k < |ps| ==> ps[k].at + 4 <= |c|
  }

  ghost predicate Disjoint(ps: seq<Patch>) {
    forall j, k :: 0 <= j < k < |ps| ==> ps[j].at + 4 <= ps[k].at || ps[k].at + 4 <= ps[j].at
  }

  /** The bytes at `at` replaced by the word `x`. */
  function WithWord(e: Endian, c: seq<byte>, at: nat, x: int): (r: seq<byte>)
    requires at + 4 <= |c|
    ensures |r| == |c|
  {
    c[..at] + Put32(e, x) + c[at + 4..]
  }

  ghost predicate WordAt(e: Endian, c: seq<byte>, at: nat, x: int) {
    at + 4 <= |c| && c[at..at + 4] == Put32(e, x)
  }

  lemma WithWordAt(e: Endian, c: seq<byte>, at: nat, x: int)
    requires at + 4 <= |c|
    ensures WordAt(e, WithWord(e, c, at, x), at, x)
  {
  }

  lemma WithWordOutside(e: Endian, c: seq<byte>, at: nat, x: int, i: nat)
    requires at + 4 <= |c| && i < |c| && !(at <= i < at + 4)
    ensures WithWord(e, c, at, x)[i] == c[i]
  {
  }

  /** The value put in a field, which may hold an addend of its own. */
  function PatchValue(e: Endian, inPlace: bool, c: seq<byte>, p: Patch): int
    requires p.at + 4 <= |c|
  {
    (if inPlace then Get32(e, c, p.at) else 0) + p.add
  }

  /** _bfd_relocate_contents on a field of 32 bits: `inPlace` when the field holds the addend. */
  function Patched(e: Endian, inPlace: bool, c: seq<byte>, p: Patch): (r: seq<byte>)
    requires p.at + 4 <= |c|
    ensures |r| == |c|
  {
    WithWord(e, c, p.at, PatchValue(e, inPlace, c, p))
  }

  function PatchAll(e: Endian, inPlace: bool, c: seq<byte>, ps: seq<Patch>): (r: seq<byte>)
    requires Fits(c, ps)
    ensures |r| == |c|
  {
    if ps == [] then c
    else Patched(e, inPlace, PatchAll(e, inPlace, c, ps[..|ps| - 1]), ps[|ps| - 1])
  }

  /** Whether byte `i` belongs to the field of some patch. */
  ghost predicate Covers(ps: seq<Patch>, i: int) {
    exists k :: 0 <= k < |ps| && ps[k].at <= i < ps[k].at + 4
  }

  lemma {:induction false} PatchAllOutside(e: Endian, inPlace: bool, c: seq<byte>, ps: seq<Patch>, i: nat)
    requires Fits(c, ps) && i < |c| && !Covers(ps, i)
    ensures PatchAll(e, inPlace, c, ps)[i] == c[i]
  {
    if ps != [] {
      var n := |ps| - 1;
      assert !(ps[n].at <= i < ps[n].at + 4);
      forall k | 0 <= k < n ensures !(ps[..n][k].at <= i < ps[..n][k].at + 4) {
        assert ps[..n][k] == ps[k];
      }
      PatchAllLast(e, inPlace, c, ps);
      hide PatchAll, WithWord;
      PatchAllOutside(e, inPlace, c, ps[..n], i);
      var m := PatchAll(e, inPlace, c, ps[..n]);
      WithWordOutside(e, m, ps[n].at, PatchValue(e, inPlace, m, ps[n]), i);
    }
  }

  /** With disjoint fields, each field is patched exactly once. */
  lemma {:induction false} PatchAllAt(e: Endian, inPlace: bool, c: seq<byte>, ps: seq<Patch>, k: nat)
    requires Fits(c, ps) && Disjoint(ps) && k < |ps|
    ensures ps[k].at + 4 <= |c|
    ensures WordAt(e, PatchAll(e, inPlace, c, ps), ps[k].at, PatchValue(e, inPlace, c, ps[k]))
    decreases |ps|
  {
    var n, at := |ps| - 1, ps[k].at;
    var before, last := ps[..n], ps[n];
    hide *;
    AllButLast(c, ps, k);
    PatchAllLast(e, inPlace, c, ps);
    var m := PatchAll(e, inPlace, c, before);
    var x := PatchValue(e, inPlace, m, last);
    if k < n {
      PatchAllAt(e, inPlace, c, before, k);
      WithWordElsewhere(e, m, last.at, x, at, PatchValue(e, inPlace, c, ps[k]));
    } else {
      PatchAllUntouched(e, inPlace, c, before, last);
      WithWordAt(e, m, at, x);
    }
  }

  lemma PatchAllUntouched(e: Endian, inPlace: bool, c: seq<byte>, ps: seq<Patch>, p: Patch)
    requires Fits(c, ps) && p.at + 4 <= |c| && forall i :: p.at <= i < p.at + 4 ==> !Covers(ps, i)
    ensures PatchValue(e, inPlace, PatchAll(e, inPlace, c, ps), p) == PatchValue(e, inPlace, c, p)
  {
    var at := p.at;
    hide Fits, Covers, PatchAll;
    forall i | at <= i < at + 4 ensures PatchAll(e, inPlace, c, ps)[i] == c[i] {
      PatchAllOutside(e, inPlace, c, ps, i);
    }
    SameWord(e, PatchAll(e, inPlace, c, ps), c, at);
  }

  lemma AllButLast(c: seq<byte>, ps: seq<Patch>, k: nat)
    requires ps != [] && Fits(c, ps) && Disjoint(ps) && k < |ps|
    ensures var n := |ps| - 1;
      && Fits(c, ps[..n]) && Disjoint(ps[..n]) && ps[n].at + 4 <= |c| && ps[k].at + 4 <= |c|
      && (k < n ==> ps[..n][k] == ps[k] && (ps[k].at + 4 <= ps[n].at || ps[n].at + 4 <= ps[k].at))
      && forall i :: ps[n].at <= i < ps[n].at + 4 ==> !Covers(ps[..n], i)
  {
    var n := |ps| - 1;
    assert forall j :: 0 <= j < n ==> ps[..n][j] == ps[j];
  }

  lemma PatchAllLast(e: Endian, inPlace: bool, c: seq<byte>, ps: seq<Patch>)
    requires ps != [] && Fits(c, ps)
    ensures var n := |ps| - 1;
      && Fits(c, ps[..n]) && ps[n].at + 4 <= |c|
      && var m := PatchAll(e, inPlace, c, ps[..n]);
         PatchAll(e, inPlace, c, ps) == WithWord(e, m, ps[n].at, PatchValue(e, inPlace, m, ps[n]))
  {
  }

  lemma SameWord(e: Endian, c: seq<byte>, d: seq<byte>, at: nat)
    requires at + 4 <= |c| && at + 4 <= |d| && forall i :: at <= i < at + 4 ==> c[i] == d[i]
    ensures Get32(e, c, at) == Get32(e, d, at)
  {
  }

  lemma WithWordElsewhere(e: Endian, c: seq<byte>, at: nat, x: int, other: nat, y: int)
    requires at + 4 <= |c| && other + 4 <= |c| && (at + 4 <= other || other + 4 <= at)
    requires WordAt(e, c, other, y)
    ensures WordAt(e, WithWord(e, c, at, x), other, y)
  {
  }

  lemma WordRead(e: Endian, c: seq<byte>, at: nat, x: int)
    requires WordAt(e, c, at, x)
    ensures Get32(e, c, at) == x % TWO_TO_32
  {
    Put32Get32(e, x, c, at);
  }

  lemma FieldAfterPatches(e: Endian, inPlace: bool, c: seq<byte>, ps: seq<Patch>, k: nat, at: nat, add: int)
    requires Fits(c, ps) && Disjoint(ps) && k < |ps| && ps[k] == Patch(at, add) && at + 4 <= |c|
    ensures Get32(e, PatchAll(e, inPlace, c, ps), at) == U32((if inPlace then Get32(e, c, at) else 0) + add)
  {
    hide Get32, Put32, PatchAll, Disjoint, WordAt;
    PatchAllAt(e, inPlace, c, ps, k);
    WordRead(e, PatchAll(e, inPlace, c, ps), at, PatchValue(e, inPlace, c, ps[k]));
  }

  lemma DigitsDetermined(a3: int, a2: int, a1: int, a0: int, b3: int, b2: int, b1: int, b0: int)
    requires 0 <= a3 < 256 && 0 <= a2 < 256 && 0 <= a1 < 256 && 0 <= a0 < 256
    requires 0 <= b3 < 256 && 0 <= b2 < 256 && 0 <= b1 < 256 && 0 <= b0 < 256
    requires a3 * 0x100_0000 + a2 * 0x1_0000 + a1 * 0x100 + a0 == b3 * 0x100_0000 + b2 * 0x1_0000 + b1 * 0x100 + b0
    ensures a3 == b3 && a2 == b2 && a1 == b1 && a0 == b0
  {
  }

  /** A word determines its bytes. */
  lemma WordBytes(e: Endian, c: seq<byte>, at: nat, d: seq<byte>, at': nat, j: nat)
    requires at + 4 <= |c| && at' + 4 <= |d| && j < 4 && Get32(e, c, at) == Get32(e, d, at')
    ensures c[at + j] == d[at' + j]
  {
    var x0, x1, x2, x3 := c[at] as int, c[at + 1] as int, c[at + 2] as int, c[at + 3] as int;
    var y0, y1, y2, y3 := d[at'] as int, d[at' + 1] as int, d[at' + 2] as int, d[at' + 3] as int;
    match e
    case Big => DigitsDetermined(x0, x1, x2, x3, y0, y1, y2, y3);
    case Little => DigitsDetermined(x3, x2, x1, x0, y3, y2, y1, y0);
  }

  /** `qs` are the patches of a larger section, of which those from `first` on fall in the piece at `off`. */
  ghost predicate PieceOf(size: nat, ps: seq<Patch>, qs: seq<Patch>, off: nat, first: nat) {
    && first + |ps| <= |qs|
    && (forall k {:trigger ps[k]} :: 0 <= k < |ps| ==> qs[first + k].at == off + ps[k].at)
    && forall j {:trigger qs[j]} :: 0 <= j < |qs| && !(first <= j < first + |ps|) ==> qs[j].at + 4 <= off || off + size <= qs[j].at
  }

  lemma UncoveredInPiece(size: nat, ps: seq<Patch>, qs: seq<Patch>, off: nat, first: nat, i: nat)
    requires PieceOf(size, ps, qs, off, first) && i < size && !Covers(ps, i)
    ensures !Covers(qs, off + i)
  {
    forall j | 0 <= j < |qs| ensures !(qs[j].at <= off + i < qs[j].at + 4) {
      if first <= j < first + |ps| {
        var k := j - first;
        assert qs[first + k].at == off + ps[k].at;
      }
    }
  }

  /** Field `k` holds the same word in the piece and alone. */
  ghost predicate FieldAgrees(e: Endian, r: seq<byte>, off: nat, d: seq<byte>, at: nat) {
    at + 4 <= |d| && off + at + 4 <= |r| && Get32(e, r, off + at) == Get32(e, d, at)
  }

  /** Byte `i` is covered by no field and was the same before. */
  ghost predicate ByteAgrees(c: seq<byte>, m: seq<byte>, off: nat, i: nat) {
    i < |c| && off + i < |m| && m[off + i] == c[i]
  }

  lemma PieceByte(e: Endian, inPlace: bool, c: seq<byte>, ps: seq<Patch>, m: seq<byte>, qs: seq<Patch>, off: nat, first: nat, i: nat)
    requires Fits(c, ps) && Fits(m, qs) && off + |c| <= |m| && PieceOf(|c|, ps, qs, off, first) && i < |c|
    requires !Covers(ps, i) ==> ByteAgrees(c, m, off, i)
    requires forall k {:trigger ps[k]} :: 0 <= k < |ps| ==>
      FieldAgrees(e, PatchAll(e, inPlace, m, qs), off, PatchAll(e, inPlace, c, ps), ps[k].at)
    ensures PatchAll(e, inPlace, m, qs)[off + i] == PatchAll(e, inPlace, c, ps)[i]
  {
    hide *;
    var r, d := PatchAll(e, inPlace, m, qs), PatchAll(e, inPlace, c, ps);
    if Covers(ps, i) {
      var k := Coverer(ps, i);
      CoveredByte(e, r, off, d, ps[k].at, i);
    } else {
      UncoveredInPiece(|c|, ps, qs, off, first, i);
      PatchAllOutside(e, inPlace, m, qs, off + i);
      PatchAllOutside(e, inPlace, c, ps, i);
      SameByte(c, m, off, i);
    }
  }

  lemma SameByte(c: seq<byte>, m: seq<byte>, off: nat, i: nat)
    requires ByteAgrees(c, m, off, i)
    ensures i < |c| && off + i < |m| && m[off + i] == c[i]
  {
  }

  /**
    The final pass over a larger section, of which `c` is a piece, leaves in the piece what the
    pass over `c` alone leaves, as soon as it does so in every field.
   */
  lemma PieceAgrees(e: Endian, inPlace: bool, c: seq<byte>, ps: seq<Patch>, m: seq<byte>, qs: seq<Patch>, off: nat, first: nat)
    requires Fits(c, ps) && Fits(m, qs) && off + |c| <= |m| && PieceOf(|c|, ps, qs, off, first)
    requires forall i {:trigger Covers(ps, i)} :: 0 <= i < |c| && !Covers(ps, i) ==> ByteAgrees(c, m, off, i)
    requires forall k {:trigger ps[k]} :: 0 <= k < |ps| ==>
      FieldAgrees(e, PatchAll(e, inPlace, m, qs), off, PatchAll(e, inPlace, c, ps), ps[k].at)
    ensures PatchAll(e, inPlace, m, qs)[off..off + |c|] == PatchAll(e, inPlace, c, ps)
  {
    hide Get32, PatchAll, PieceOf, Covers, Fits, FieldAgrees, ByteAgrees;
    forall i | 0 <= i < |c| ensures PatchAll(e, inPlace, m, qs)[off + i] == PatchAll(e, inPlace, c, ps)[i] {
      PieceByte(e, inPlace, c, ps, m, qs, off, first, i);
    }
    SliceEquals(PatchAll(e, inPlace, m, qs), off, PatchAll(e, inPlace, c, ps));
  }

  lemma Coverer(ps: seq<Patch>, i: int) returns (k: nat)
    requires Covers(ps, i)
    ensures k < |ps| && ps[k].at <= i < ps[k].at + 4
  {
    k :| 0 <= k < |ps| && ps[k].at <= i < ps[k].at + 4;
  }

  lemma CoveredByte(e: Endian, r: seq<byte>, off: nat, d: seq<byte>, at: nat, i: nat)
    requires at <= i < at + 4 && i < |d| && off + |d| <= |r| && FieldAgrees(e, r, off, d, at)
    ensures r[off + i] == d[i]
  {
    hide Get32;
    WordBytes(e, r, off + at, d, at, i - at);
    assert off + at + (i - at) == off + i;
  }

  lemma SliceEquals(r: seq<byte>, off: nat, d: seq<byte>)
    requires off + |d| <= |r| && forall i :: 0 <= i < |d| ==> r[off + i] == d[i]
    ensures r[off..off + |d|] == d
  {
  }

  /** Coverage depends on the positions only. */
  lemma SameCover(ps: seq<Patch>, ps': seq<Patch>, i: int)
    requires |ps| == |ps'| && forall k :: 0 <= k < |ps| ==> ps[k].at == ps'[k].at
    ensures Covers(ps, i) <==> Covers(ps', i)
  {
  }

  // ----- Standard relocs over a section -----

  predicate AllOk(rels: seq<StdRel>, symbols: nat) {
    forall k :: 0 <= k < |rels| ==> StdOk(rels[k], symbols)
  }

  function PartialPatches(rels: seq<StdRel>, l: PartialLink): (r: seq<Patch>)
    requires l.Valid() && AllOk(rels, |l.symbols|)
    ensures |r| == |rels|
  {
    seq(|rels|, k requires 0 <= k < |rels| => Patch(rels[k].addr, PartialDelta(rels[k], l)))
  }

  function PartialRelocs(rels: seq<StdRel>, l: PartialLink): (r: seq<StdRel>)
    requires l.Valid() && AllOk(rels, |l.symbols|)
    ensures |r| == |rels|
  {
    seq(|rels|, k requires 0 <= k < |rels| => PartialReloc(rels[k], l))
  }

  function FinalPatches(rels: seq<StdRel>, l: LinkRelocs.FinalLink): (r: seq<Patch>)
    requires AllOk(rels, |l.address|)
    ensures |r| == |rels|
  {
    seq(|rels|, k requires 0 <= k < |rels| => Patch(rels[k].addr, FinalDelta(rels[k], l)))
  }

  /** The relocs of one section, sound and apart. */
  ghost predicate StdSection(rels: seq<StdRel>, symbols: nat, size: nat) {
    && AllOk(rels, symbols) && (forall k :: 0 <= k < |rels| ==> rels[k].addr + 4 <= size)
    && forall j, k :: 0 <= j < k < |rels| ==> rels[j].addr + 4 <= rels[k].addr || rels[k].addr + 4 <= rels[j].addr
  }

  /**
    A partial link's output section `m` with relocs `qs`, in which the relocated section `c`
    with relocs `rels` sits at the offset the link gave it; its relocs start at `first`, and no
    other section's reloc reaches into it.
   */
  ghost predicate Embedded(e: Endian, c: seq<byte>, rels: seq<StdRel>, p: PartialLink, m: seq<byte>, qs: seq<StdRel>,
                           first: nat, symbols: nat)
    requires p.Valid() && StdSection(rels, |p.symbols|, |c|)
  {
    var off := p.here.outOffset;
    && off + |c| <= |m| && first + |rels| <= |qs|
    && StdSection(qs, symbols, |m|)
    && qs[first..first + |rels|] == PartialRelocs(rels, p)
    && Fits(c, PartialPatches(rels, p))
    && m[off..off + |c|] == PatchAll(e, true, c, PartialPatches(rels, p))
    && forall j :: 0 <= j < |qs| && !(first <= j < first + |rels|) ==> qs[j].addr + 4 <= off || off + |c| <= qs[j].addr
  }

  lemma FinalPatchesFit(size: nat, rels: seq<StdRel>, l: LinkRelocs.FinalLink, k: nat)
    requires StdSection(rels, |l.address|, size) && k < |rels|
    ensures StdOk(rels[k], |l.address|) && rels[k].addr + 4 <= size
    ensures |FinalPatches(rels, l)| == |rels| && FinalPatches(rels, l)[k] == Patch(rels[k].addr, FinalDelta(rels[k], l))
    ensures forall c: seq<byte> :: |c| == size ==> Fits(c, FinalPatches(rels, l))
    ensures Disjoint(FinalPatches(rels, l))
  {
  }

  lemma PartialPatchesFit(size: nat, rels: seq<StdRel>, l: PartialLink, k: nat)
    requires l.Valid() && StdSection(rels, |l.symbols|, size) && k < |rels|
    ensures StdOk(rels[k], |l.symbols|) && rels[k].addr + 4 <= size
    ensures |PartialPatches(rels, l)| == |rels| && PartialPatches(rels, l)[k] == Patch(rels[k].addr, PartialDelta(rels[k], l))
    ensures forall c: seq<byte> :: |c| == size ==> Fits(c, PartialPatches(rels, l))
    ensures Disjoint(PartialPatches(rels, l))
  {
  }

  lemma PatchesFit(c: seq<byte>, rels: seq<StdRel>, l: LinkRelocs.FinalLink)
    requires StdSection(rels, |l.address|, |c|)
    ensures Fits(c, FinalPatches(rels, l))
  {
  }

  /** A field after a final link holds its old value plus the delta. */
  lemma FieldAfterFinal(e: Endian, c: seq<byte>, rels: seq<StdRel>, l: LinkRelocs.FinalLink, k: nat)
    requires StdSection(rels, |l.address|, |c|) && k < |rels|
    ensures Fits(c, FinalPatches(rels, l)) && StdOk(rels[k], |l.address|) && rels[k].addr + 4 <= |c|
    ensures Get32(e, PatchAll(e, true, c, FinalPatches(rels, l)), rels[k].addr)
         == U32(Get32(e, c, rels[k].addr) + FinalDelta(rels[k], l))
  {
    hide U32, FinalDelta, FinalPatches, AllOk, StdOk, Fits, Disjoint, Get32, PatchAll;
    FinalPatchesFit(|c|, rels, l, k);
    var ps := FinalPatches(rels, l);
    FieldAfterPatches(e, true, c, ps, k, rels[k].addr, FinalDelta(rels[k], l));
  }

  lemma FieldAfterPartial(e: Endian, c: seq<byte>, rels: seq<StdRel>, l: PartialLink, k: nat)
    requires l.Valid() && StdSection(rels, |l.symbols|, |c|) && k < |rels|
    ensures Fits(c, PartialPatches(rels, l)) && StdOk(rels[k], |l.symbols|) && rels[k].addr + 4 <= |c|
    ensures Get32(e, PatchAll(e, true, c, PartialPatches(rels, l)), rels[k].addr)
         == U32(Get32(e, c, rels[k].addr) + PartialDelta(rels[k], l))
  {
    hide U32, PartialDelta, PartialPatches, AllOk, StdOk, Fits, Disjoint, Get32, PatchAll;
    PartialPatchesFit(|c|, rels, l, k);
    var ps := PartialPatches(rels, l);
    FieldAfterPatches(e, true, c, ps, k, rels[k].addr, PartialDelta(rels[k], l));
  }

  /** A piece of a section reads the same inside the section. */
  lemma PieceRead(e: Endian, m: seq<byte>, off: nat, c: seq<byte>, at: nat)
    requires off + |c| <= |m| && m[off..off + |c|] == c && at + 4 <= |c|
    ensures Get32(e, m, off + at) == Get32(e, c, at)
  {
    assert c[at] == m[off + at] && c[at + 1] == m[off + at + 1] && c[at + 2] == m[off + at + 2] && c[at + 3] == m[off + at + 3];
  }

  /**
    Two links in a row give the field the value one link gives it, modulo 2^32, exactly when
    the reloc's skew vanishes modulo 2^32.
   */
  lemma FieldAfterTwoLinks(e: Endian, c: seq<byte>, rels: seq<StdRel>, p: PartialLink, m: seq<byte>, qs: seq<StdRel>, first: nat,
                           f: LinkRelocs.FinalLink, direct: LinkRelocs.FinalLink, k: nat)
    requires SameLayout(p, f, direct) && StdSection(rels, |p.symbols|, |c|) && k < |rels|
    requires Embedded(e, c, rels, p, m, qs, first, |f.address|)
    requires rels[k].extern ==> SameSymbol(p, f, direct, rels[k].index)
    ensures Fits(m, FinalPatches(qs, f)) && Fits(c, FinalPatches(rels, direct))
    ensures Get32(e, PatchAll(e, true, m, FinalPatches(qs, f)), p.here.outOffset + rels[k].addr)
            == Get32(e, PatchAll(e, true, c, FinalPatches(rels, direct)), rels[k].addr)
            <==> Vanishes(StdSkew(rels[k], p))
  {
    hide *;
    LayoutSymbols(p, f, direct);
    EmbeddedMeans(e, c, rels, p, m, qs, first, |f.address|);
    SectionMeans(rels, |p.symbols|, |c|);
    SectionMeans(qs, |f.address|, |m|);
    var off, q, at := p.here.outOffset, qs[first + k], rels[k].addr;
    EmbeddedReloc(e, c, rels, p, m, qs, first, |f.address|, k);
    FieldAfterFinal(e, m, qs, f, first + k);
    FieldAfterPartial(e, c, rels, p, k);
    TwoLinksOfStd(rels[k], p, f, direct);
    FieldAfterFinal(e, c, rels, direct, k);
    PieceRead(e, m, off, PatchAll(e, true, c, PartialPatches(rels, p)), at);
    SumsAgree(Get32(e, c, at), PartialDelta(rels[k], p), FinalDelta(q, f), FinalDelta(rels[k], direct), StdSkew(rels[k], p));
  }

  lemma EmbeddedMeans(e: Endian, c: seq<byte>, rels: seq<StdRel>, p: PartialLink, m: seq<byte>, qs: seq<StdRel>, first: nat,
                      symbols: nat)
    requires p.Valid() && StdSection(rels, |p.symbols|, |c|) && Embedded(e, c, rels, p, m, qs, first, symbols)
    ensures AllOk(rels, |p.symbols|) && Fits(c, PartialPatches(rels, p)) && p.here.outOffset >= 0
    ensures p.here.outOffset + |c| <= |m| && first + |rels| <= |qs| && StdSection(qs, symbols, |m|)
    ensures var off := p.here.outOffset; m[off..off + |c|] == PatchAll(e, true, c, PartialPatches(rels, p))
  {
    hide PatchAll, PartialPatches, AllOk, Fits, PartialRelocs;
  }

  lemma SectionMeans(rels: seq<StdRel>, symbols: nat, size: nat)
    requires StdSection(rels, symbols, size)
    ensures AllOk(rels, symbols) && forall k :: 0 <= k < |rels| ==> rels[k].addr + 4 <= size
  {
    hide AllOk;
  }

  lemma LayoutSymbols(p: PartialLink, f: LinkRelocs.FinalLink, direct: LinkRelocs.FinalLink)
    requires SameLayout(p, f, direct)
    ensures |direct.address| == |p.symbols| && p.Valid()
  {
  }

  /** The reloc as it appears in the partial link's output. */
  lemma EmbeddedReloc(e: Endian, c: seq<byte>, rels: seq<StdRel>, p: PartialLink, m: seq<byte>, qs: seq<StdRel>, first: nat,
                      symbols: nat, k: nat)
    requires p.Valid() && StdSection(rels, |p.symbols|, |c|) && k < |rels|
    requires Embedded(e, c, rels, p, m, qs, first, symbols)
    ensures StdOk(rels[k], |p.symbols|) && qs[first + k] == PartialReloc(rels[k], p)
    ensures qs[first + k].addr == p.here.outOffset + rels[k].addr && rels[k].addr + 4 <= |c|
    ensures StdSection(qs, symbols, |m|)
  {
    hide PatchAll, Get32, Fits;
    assert qs[first + k] == qs[first..first + |rels|][k];
  }

  lemma SumsAgree(x: int, d1: int, d2: int, d: int, skew: int)
    requires d1 + d2 == d + skew
    ensures U32(U32(x + d1) + d2) == U32(x + d) <==> Vanishes(skew)
  {
    var q := (x + d1) / TWO_TO_32;
    assert (x + d1) % TWO_TO_32 + d2 == x + d + skew - q * TWO_TO_32;
    var y := x + d;
    assert (y + skew - q * TWO_TO_32) % TWO_TO_32 == (y + skew) % TWO_TO_32;
    assert (y + skew) % TWO_TO_32 == y % TWO_TO_32 <==> skew % TWO_TO_32 == 0;
  }

  /** Every reloc of the section resolves alike and without skew. */
  ghost predicate NoSkew(rels: seq<StdRel>, p: PartialLink, f: LinkRelocs.FinalLink, direct: LinkRelocs.FinalLink)
    requires p.Valid() && AllOk(rels, |p.symbols|) && |p.symbols| == |direct.address|
  {
    forall k :: 0 <= k < |rels| ==>
      Vanishes(StdSkew(rels[k], p)) && (rels[k].extern ==> SameSymbol(p, f, direct, rels[k].index))
  }

  /** A partial link followed by a final one leaves the section's bytes as one final link does. */
  lemma SectionAfterTwoLinks(e: Endian, c: seq<byte>, rels: seq<StdRel>, p: PartialLink, m: seq<byte>, qs: seq<StdRel>, first: nat,
                             f: LinkRelocs.FinalLink, direct: LinkRelocs.FinalLink)
    requires SameLayout(p, f, direct) && StdSection(rels, |p.symbols|, |c|)
    requires Embedded(e, c, rels, p, m, qs, first, |f.address|) && NoSkew(rels, p, f, direct)
    ensures Fits(m, FinalPatches(qs, f)) && Fits(c, FinalPatches(rels, direct))
    ensures PatchAll(e, true, m, FinalPatches(qs, f))[p.here.outOffset..p.here.outOffset + |c|]
         == PatchAll(e, true, c, FinalPatches(rels, direct))
  {
    hide *;
    LayoutSymbols(p, f, direct);
    EmbeddedPatches(e, c, rels, p, m, qs, first, f, direct);
    var off, ps, fs := p.here.outOffset, FinalPatches(rels, direct), FinalPatches(qs, f);
    forall k {:trigger ps[k]} | 0 <= k < |ps|
      ensures FieldAgrees(e, PatchAll(e, true, m, fs), off, PatchAll(e, true, c, ps), ps[k].at)
    {
      FieldOfSection(e, c, rels, p, m, qs, first, f, direct, k);
    }
    forall i {:trigger Covers(ps, i)} | 0 <= i < |c| && !Covers(ps, i) ensures ByteAgrees(c, m, off, i) {
      ByteOfSection(e, c, rels, p, m, qs, first, f, direct, i);
    }
    PieceAgrees(e, true, c, ps, m, fs, off, first);
  }

  /** The final link's patches of an embedded section are those of the section, moved. */
  lemma EmbeddedPatches(e: Endian, c: seq<byte>, rels: seq<StdRel>, p: PartialLink, m: seq<byte>, qs: seq<StdRel>, first: nat,
                        f: LinkRelocs.FinalLink, direct: LinkRelocs.FinalLink)
    requires p.Valid() && |p.symbols| == |direct.address| && StdSection(rels, |p.symbols|, |c|)
    requires Embedded(e, c, rels, p, m, qs, first, |f.address|)
    ensures AllOk(qs, |f.address|) && AllOk(rels, |direct.address|) && p.here.outOffset >= 0
    ensures Fits(m, FinalPatches(qs, f)) && Fits(c, FinalPatches(rels, direct)) && p.here.outOffset + |c| <= |m|
    ensures |FinalPatches(rels, direct)| == |rels|
    ensures PieceOf(|c|, FinalPatches(rels, direct), FinalPatches(qs, f), p.here.outOffset, first)
  {
    hide Get32, PatchAll, FinalDelta, PartialDelta, StdOk;
    PatchesFit(c, rels, direct);
    PatchesFit(m, qs, f);
    var ps, fs := FinalPatches(rels, direct), FinalPatches(qs, f);
    forall k {:trigger ps[k]} | 0 <= k < |ps| ensures fs[first + k].at == p.here.outOffset + ps[k].at {
      EmbeddedReloc(e, c, rels, p, m, qs, first, |f.address|, k);
    }
    forall j {:trigger fs[j]} | 0 <= j < |fs| && !(first <= j < first + |ps|)
      ensures fs[j].at + 4 <= p.here.outOffset || p.here.outOffset + |c| <= fs[j].at
    {
      assert qs[j].addr + 4 <= p.here.outOffset || p.here.outOffset + |c| <= qs[j].addr;
    }
  }

  lemma FieldOfSection(e: Endian, c: seq<byte>, rels: seq<StdRel>, p: PartialLink, m: seq<byte>, qs: seq<StdRel>, first: nat,
                       f: LinkRelocs.FinalLink, direct: LinkRelocs.FinalLink, k: nat)
    requires SameLayout(p, f, direct) && StdSection(rels, |p.symbols|, |c|) && k < |rels|
    requires Embedded(e, c, rels, p, m, qs, first, |f.address|) && NoSkew(rels, p, f, direct)
    ensures Fits(m, FinalPatches(qs, f)) && Fits(c, FinalPatches(rels, direct))
    ensures FieldAgrees(e, PatchAll(e, true, m, FinalPatches(qs, f)), p.here.outOffset,
                        PatchAll(e, true, c, FinalPatches(rels, direct)), FinalPatches(rels, direct)[k].at)
  {
    hide *;
    LayoutSymbols(p, f, direct);
    EmbeddedReloc(e, c, rels, p, m, qs, first, |f.address|, k);
    EmbeddedPatches(e, c, rels, p, m, qs, first, f, direct);
    NoSkewAt(rels, p, f, direct, k);
    FinalPatchAt(rels, direct, k);
    FieldAfterTwoLinks(e, c, rels, p, m, qs, first, f, direct, k);
    FieldsAgree(e, PatchAll(e, true, m, FinalPatches(qs, f)), p.here.outOffset, PatchAll(e, true, c, FinalPatches(rels, direct)),
                rels[k].addr);
  }

  lemma FinalPatchAt(rels: seq<StdRel>, l: LinkRelocs.FinalLink, k: nat)
    requires AllOk(rels, |l.address|) && k < |rels|
    ensures |FinalPatches(rels, l)| == |rels| && FinalPatches(rels, l)[k].at == rels[k].addr
  {
  }

  lemma FieldsAgree(e: Endian, r: seq<byte>, off: nat, d: seq<byte>, at: nat)
    requires at + 4 <= |d| && off + at + 4 <= |r| && Get32(e, r, off + at) == Get32(e, d, at)
    ensures FieldAgrees(e, r, off, d, at)
  {
  }

  lemma NoSkewAt(rels: seq<StdRel>, p: PartialLink, f: LinkRelocs.FinalLink, direct: LinkRelocs.FinalLink, k: nat)
    requires p.Valid() && AllOk(rels, |direct.address|) && |p.symbols| == |direct.address| && k < |rels| && NoSkew(rels, p, f, direct)
    ensures StdOk(rels[k], |p.symbols|) && Vanishes(StdSkew(rels[k], p))
    ensures rels[k].extern ==> SameSymbol(p, f, direct, rels[k].index)
  {
  }

  lemma ByteOfSection(e: Endian, c: seq<byte>, rels: seq<StdRel>, p: PartialLink, m: seq<byte>, qs: seq<StdRel>, first: nat,
                      f: LinkRelocs.FinalLink, direct: LinkRelocs.FinalLink, i: nat)
    requires p.Valid() && |p.symbols| == |direct.address| && StdSection(rels, |p.symbols|, |c|) && i < |c|
    requires Embedded(e, c, rels, p, m, qs, first, |f.address|) && !Covers(FinalPatches(rels, direct), i)
    ensures ByteAgrees(c, m, p.here.outOffset, i)
  {
    hide Get32, PatchAll, FinalDelta, PartialDelta, StdOk, Fits, Covers;
    var off, ps1 := p.here.outOffset, PartialPatches(rels, p);
    SameCover(FinalPatches(rels, direct), ps1, i);
    PatchAllOutside(e, true, c, ps1, i);
    assert m[off + i] == m[off..off + |c|][i];
  }

  // ----- Extended relocs over a section -----

  predicate AllExtOk(rels: seq<ExtRel>, symbols: nat) {
    forall k :: 0 <= k < |rels| ==> ExtOk(rels[k], symbols)
  }

  function PartialExtRelocs(rels: seq<ExtRel>, l: PartialLink): (r: seq<ExtRel>)
    requires l.Valid() && AllExtOk(rels, |l.symbols|)
    ensures |r| == |rels|
  {
    seq(|rels|, k requires 0 <= k < |rels| => PartialExtReloc(rels[k], l))
  }

  function FinalExtPatches(rels: seq<ExtRel>, l: LinkRelocs.FinalLink): (r: seq<Patch>)
    requires AllExtOk(rels, |l.address|)
    ensures |r| == |rels|
  {
    seq(|rels|, k requires 0 <= k < |rels| => Patch(rels[k].addr, FinalExtValue(rels[k], l)))
  }

  /** The extended relocs of one section, sound and apart. */
  ghost predicate ExtSection(rels: seq<ExtRel>, symbols: nat, size: nat) {
    && AllExtOk(rels, symbols) && (forall k :: 0 <= k < |rels| ==> rels[k].addr + 4 <= size)
    && forall j, k :: 0 <= j < k < |rels| ==> rels[j].addr + 4 <= rels[k].addr || rels[k].addr + 4 <= rels[j].addr
  }

  lemma ExtPatchesFit(size: nat, rels: seq<ExtRel>, l: LinkRelocs.FinalLink)
    requires ExtSection(rels, |l.address|, size)
    ensures AllExtOk(rels, |l.address|) && |FinalExtPatches(rels, l)| == |rels| && Disjoint(FinalExtPatches(rels, l))
    ensures forall c: seq<byte> :: |c| == size ==> Fits(c, FinalExtPatches(rels, l))
  {
    hide FinalExtValue, ExtOk;
  }

  lemma ExtPatchAt(size: nat, rels: seq<ExtRel>, l: LinkRelocs.FinalLink, k: nat)
    requires ExtSection(rels, |l.address|, size) && k < |rels|
    ensures ExtOk(rels[k], |l.address|) && rels[k].addr + 4 <= size
    ensures FinalExtPatches(rels, l)[k] == Patch(rels[k].addr, FinalExtValue(rels[k], l))
  {
    hide FinalExtValue, ExtOk;
  }

  /** The field holds the value of its own reloc, whatever was there before. */
  lemma FieldAfterExtFinal(e: Endian, c: seq<byte>, rels: seq<ExtRel>, l: LinkRelocs.FinalLink, k: nat)
    requires ExtSection(rels, |l.address|, |c|) && k < |rels|
    ensures Fits(c, FinalExtPatches(rels, l)) && ExtOk(rels[k], |l.address|) && rels[k].addr + 4 <= |c|
    ensures Get32(e, PatchAll(e, false, c, FinalExtPatches(rels, l)), rels[k].addr) == U32(FinalExtValue(rels[k], l))
  {
    hide *;
    ExtPatchesFit(|c|, rels, l);
    ExtPatchAt(|c|, rels, l, k);
    FieldAfterPatches(e, false, c, FinalExtPatches(rels, l), k, rels[k].addr, FinalExtValue(rels[k], l));
  }
}
