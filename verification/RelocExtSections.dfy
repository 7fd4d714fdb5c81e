/**
  Whole sections with extended relocs (aout_link_input_section_ext in aoutx.h): a partial
  link rewrites the relocs only, and a final link of its output fills in the same fields.
 */
module RelocExtSections {
  import opened CBytes
  import opened LinkModel
  import opened LinkRelocs
  import opened RelocSections
  import opened RelocLoops

  /** Section `c` inside a partial link's output section `m`, whose relocs are `qs`. */
  ghost predicate ExtEmbedded(c: seq<byte>, rels: seq<ExtRel>, p: PartialLink, m: seq<byte>, qs: seq<ExtRel>, first: nat, symbols: nat)
    requires p.Valid() && ExtSection(rels, |p.symbols|, |c|)
  {
    var off := p.here.outOffset;
    && off + |c| <= |m| && first + |rels| <= |qs|
    && ExtSection(qs, symbols, |m|)
    && qs[first..first + |rels|] == PartialExtRelocs(rels, p)
    && m[off..off + |c|] == c
    && forall j :: 0 <= j < |qs| && !(first <= j < first + |rels|) ==> qs[j].addr + 4 <= off || off + |c| <= qs[j].addr
  }

  /** The reloc as it appears in the partial link's output. */
  lemma EmbeddedExtReloc(c: seq<byte>, rels: seq<ExtRel>, p: PartialLink, m: seq<byte>, qs: seq<ExtRel>, first: nat, symbols: nat, k: nat)
    requires p.Valid() && ExtSection(rels, |p.symbols|, |c|) && k < |rels|
    requires ExtEmbedded(c, rels, p, m, qs, first, symbols)
    ensures ExtOk(rels[k], |p.symbols|) && first + k < |qs| && qs[first + k] == PartialExtReloc(rels[k], p)
    ensures qs[first + k].addr == p.here.outOffset + rels[k].addr && rels[k].addr + 4 <= |c|
    ensures ExtSection(qs, symbols, |m|)
  {
    assert qs[first + k] == qs[first..first + |rels|][k];
  }

  lemma ShiftShows(x: int, y: int, skew: int)
    requires x == y + skew
    ensures U32(x) == U32(y) <==> Vanishes(skew)
  {
    SumsAgree(0, y, skew, y, skew);
    var q := y / TWO_TO_32;
    assert y % TWO_TO_32 + skew == x - q * TWO_TO_32;
  }

  /** Two links in a row fill the field as one does exactly when the reloc's skew vanishes modulo 2^32. */
  lemma FieldAfterTwoExtLinks(e: Endian, c: seq<byte>, rels: seq<ExtRel>, p: PartialLink, m: seq<byte>, qs: seq<ExtRel>, first: nat,
                              f: LinkRelocs.FinalLink, direct: LinkRelocs.FinalLink, k: nat)
    requires SameLayout(p, f, direct) && ExtSection(rels, |p.symbols|, |c|) && k < |rels|
    requires ExtEmbedded(c, rels, p, m, qs, first, |f.address|)
    requires rels[k].extern ==> SameSymbol(p, f, direct, rels[k].index)
    ensures Fits(m, FinalExtPatches(qs, f)) && Fits(c, FinalExtPatches(rels, direct))
    ensures Get32(e, PatchAll(e, false, m, FinalExtPatches(qs, f)), p.here.outOffset + rels[k].addr)
            == Get32(e, PatchAll(e, false, c, FinalExtPatches(rels, direct)), rels[k].addr)
            <==> Vanishes(ExtSkew(rels[k], p))
  {
    hide *;
    LayoutSymbols(p, f, direct);
    EmbeddedExtReloc(c, rels, p, m, qs, first, |f.address|, k);
    FieldAfterExtFinal(e, m, qs, f, first + k);
    FieldAfterExtFinal(e, c, rels, direct, k);
    TwoLinksOfExt(rels[k], p, f, direct);
    ShiftShows(FinalExtValue(qs[first + k], f), FinalExtValue(rels[k], direct), ExtSkew(rels[k], p));
  }

  /** Every reloc of the section resolves alike and without skew. */
  ghost predicate NoExtSkew(rels: seq<ExtRel>, p: PartialLink, f: LinkRelocs.FinalLink, direct: LinkRelocs.FinalLink)
    requires p.Valid() && AllExtOk(rels, |p.symbols|) && |p.symbols| == |direct.address|
  {
    forall k :: 0 <= k < |rels| ==>
      Vanishes(ExtSkew(rels[k], p)) && (rels[k].extern ==> SameSymbol(p, f, direct, rels[k].index))
  }

  /** A partial link followed by a final one leaves the section's bytes as one final link does. */
  lemma SectionAfterTwoExtLinks(e: Endian, c: seq<byte>, rels: seq<ExtRel>, p: PartialLink, m: seq<byte>, qs: seq<ExtRel>, first: nat,
                                f: LinkRelocs.FinalLink, direct: LinkRelocs.FinalLink)
    requires SameLayout(p, f, direct) && ExtSection(rels, |p.symbols|, |c|)
    requires ExtEmbedded(c, rels, p, m, qs, first, |f.address|) && NoExtSkew(rels, p, f, direct)
    ensures Fits(m, FinalExtPatches(qs, f)) && Fits(c, FinalExtPatches(rels, direct))
    ensures PatchAll(e, false, m, FinalExtPatches(qs, f))[p.here.outOffset..p.here.outOffset + |c|]
         == PatchAll(e, false, c, FinalExtPatches(rels, direct))
  {
    hide *;
    LayoutSymbols(p, f, direct);
    EmbeddedExtPatches(c, rels, p, m, qs, first, f, direct);
    var off, ps, fs := p.here.outOffset, FinalExtPatches(rels, direct), FinalExtPatches(qs, f);
    forall k {:trigger ps[k]} | 0 <= k < |ps|
      ensures FieldAgrees(e, PatchAll(e, false, m, fs), off, PatchAll(e, false, c, ps), ps[k].at)
    {
      FieldOfExtSection(e, c, rels, p, m, qs, first, f, direct, k);
    }
    forall i {:trigger Covers(ps, i)} | 0 <= i < |c| && !Covers(ps, i) ensures ByteAgrees(c, m, off, i) {
      CopiedByte(c, m, off, i);
    }
    PieceAgrees(e, false, c, ps, m, fs, off, first);
  }

  lemma CopiedByte(c: seq<byte>, m: seq<byte>, off: nat, i: nat)
    requires off + |c| <= |m| && m[off..off + |c|] == c && i < |c|
    ensures ByteAgrees(c, m, off, i)
  {
    assert m[off + i] == m[off..off + |c|][i];
  }

  /** The final link's patches of an embedded section are those of the section, moved. */
  lemma EmbeddedExtPatches(c: seq<byte>, rels: seq<ExtRel>, p: PartialLink, m: seq<byte>, qs: seq<ExtRel>, first: nat,
                           f: LinkRelocs.FinalLink, direct: LinkRelocs.FinalLink)
    requires p.Valid() && |p.symbols| == |direct.address| && ExtSection(rels, |p.symbols|, |c|)
    requires ExtEmbedded(c, rels, p, m, qs, first, |f.address|)
    ensures AllExtOk(qs, |f.address|) && AllExtOk(rels, |direct.address|) && p.here.outOffset >= 0
    ensures p.here.outOffset + |c| <= |m| && m[p.here.outOffset..p.here.outOffset + |c|] == c
    ensures Fits(m, FinalExtPatches(qs, f)) && Fits(c, FinalExtPatches(rels, direct))
    ensures |FinalExtPatches(rels, direct)| == |rels|
    ensures PieceOf(|c|, FinalExtPatches(rels, direct), FinalExtPatches(qs, f), p.here.outOffset, first)
  {
    hide FinalExtValue, ExtOk, PartialExtReloc, At, IsSectionIndex, Get32, PatchAll, Fits, Disjoint, PartialExtRelocs;
    ExtPatchesFit(|c|, rels, direct);
    ExtPatchesFit(|m|, qs, f);
    var ps, fs := FinalExtPatches(rels, direct), FinalExtPatches(qs, f);
    forall k {:trigger ps[k]} | 0 <= k < |ps| ensures fs[first + k].at == p.here.outOffset + ps[k].at {
      EmbeddedExtReloc(c, rels, p, m, qs, first, |f.address|, k);
    }
    forall j {:trigger fs[j]} | 0 <= j < |fs| && !(first <= j < first + |ps|)
      ensures fs[j].at + 4 <= p.here.outOffset || p.here.outOffset + |c| <= fs[j].at
    {
      assert qs[j].addr + 4 <= p.here.outOffset || p.here.outOffset + |c| <= qs[j].addr;
    }
  }

  lemma FieldOfExtSection(e: Endian, c: seq<byte>, rels: seq<ExtRel>, p: PartialLink, m: seq<byte>, qs: seq<ExtRel>, first: nat,
                          f: LinkRelocs.FinalLink, direct: LinkRelocs.FinalLink, k: nat)
    requires SameLayout(p, f, direct) && ExtSection(rels, |p.symbols|, |c|) && k < |rels|
    requires ExtEmbedded(c, rels, p, m, qs, first, |f.address|) && NoExtSkew(rels, p, f, direct)
    ensures Fits(m, FinalExtPatches(qs, f)) && Fits(c, FinalExtPatches(rels, direct))
    ensures FieldAgrees(e, PatchAll(e, false, m, FinalExtPatches(qs, f)), p.here.outOffset,
                        PatchAll(e, false, c, FinalExtPatches(rels, direct)), FinalExtPatches(rels, direct)[k].at)
  {
    hide *;
    LayoutSymbols(p, f, direct);
    EmbeddedExtReloc(c, rels, p, m, qs, first, |f.address|, k);
    EmbeddedExtPatches(c, rels, p, m, qs, first, f, direct);
    NoExtSkewAt(rels, p, f, direct, k);
    ExtPatchAt(|c|, rels, direct, k);
    FieldAfterTwoExtLinks(e, c, rels, p, m, qs, first, f, direct, k);
    FieldsAgree(e, PatchAll(e, false, m, FinalExtPatches(qs, f)), p.here.outOffset,
                PatchAll(e, false, c, FinalExtPatches(rels, direct)), rels[k].addr);
  }

  lemma NoExtSkewAt(rels: seq<ExtRel>, p: PartialLink, f: LinkRelocs.FinalLink, direct: LinkRelocs.FinalLink, k: nat)
    requires p.Valid() && AllExtOk(rels, |direct.address|) && |p.symbols| == |direct.address| && k < |rels| && NoExtSkew(rels, p, f, direct)
    ensures ExtOk(rels[k], |p.symbols|) && Vanishes(ExtSkew(rels[k], p))
    ensures rels[k].extern ==> SameSymbol(p, f, direct, rels[k].index)
  {
  }
}
