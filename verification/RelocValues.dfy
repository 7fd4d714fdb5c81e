/**
  What the reloc loops of the a.out linker (aoutx.h) put in fields and relocs, in the terms of the
  format: addresses of symbols, where sections were and where they go, and 32-bit words.
 */
module RelocValues {
  import opened CBytes
  import opened LinkModel
  import opened LinkRelocs
  import opened RelocSections

  /** The section a reloc that is not against a symbol refers to: 4 is text, 6 data and 8 BSS, whatever bit 0 says. */
  function Target(s: Sections, index: int): Placement {
    match index % 32 / 2
    case 2 => s.text
    case 3 => s.data
    case 4 => s.bss
    case _ => Placement(0, 0, 0)
  }

  /** The address of a symbol the partial link has a definition of, and 0 otherwise. */
  function KnownAddress(symbol: Option<Kind>): int {
    match symbol
    case Some(Defined(value, place, _)) => value + place
    case Some(DefWeak(value, place, _)) => value + place
    case _ => 0
  }

  /** The type of the section in which it has it. */
  function KnownSection(symbol: Option<Kind>): Option<int> {
    match symbol
    case Some(Defined(_, _, out)) => Some(match out case OutText => 4 case OutData => 6 case OutBss => 8 case OutOther => 2)
    case Some(DefWeak(_, _, out)) => Some(match out case OutText => 4 case OutData => 6 case OutBss => 8 case OutOther => 2)
    case _ => None
  }

  // ----- Standard relocs -----

  /**
    A final link adds to the field the symbol's address, less the section's own address if the
    reloc is pc-relative; or how far the section referred to moves, less the section's own move.
   */
  predicate StdFieldFinal(was: int, now: int, r: StdRel, l: LinkRelocs.FinalLink)
    requires StdOk(r, |l.address|)
  {
    var t, here := Target(l.sections, r.index), l.here;
    now == (was +
      if r.extern then l.address[r.index] - (if r.pcrel then here.outVma + here.outOffset else 0)
      else t.outVma + t.outOffset - t.vma - (if r.pcrel then here.outVma + here.outOffset - here.vma else 0)) % 0x1_0000_0000
  }

  /** A partial link, the address of a symbol it knows; and always less the section's own move. */
  predicate StdFieldPartial(was: int, now: int, r: StdRel, l: PartialLink)
    requires l.Valid() && StdOk(r, |l.symbols|)
  {
    var t, here := Target(l.sections, r.index), l.here;
    now == (was +
      (if r.extern then KnownAddress(l.symbols[r.index]) else t.outVma + t.outOffset - t.vma)
      - if r.pcrel then here.outVma + here.outOffset - here.vma else 0) % 0x1_0000_0000
  }

  /** The reloc moves with its section, and is against the section of a symbol that is known. */
  predicate StdRelocPartial(r: StdRel, out: StdRel, l: PartialLink)
    requires l.Valid() && StdOk(r, |l.symbols|)
  {
    && out.addr == r.addr + l.here.outOffset && out.pcrel == r.pcrel
    && if r.extern && KnownSection(l.symbols[r.index]).Some? then !out.extern && out.index == KnownSection(l.symbols[r.index]).value
       else out.extern == r.extern && out.index == if r.extern then l.newIndex[r.index] % 0x100_0000 else r.index
  }

  ghost predicate FieldFinal(e: Endian, c: seq<byte>, c': seq<byte>, r: StdRel, l: LinkRelocs.FinalLink)
    requires StdOk(r, |l.address|)
  {
    r.addr + 4 <= |c| == |c'| && StdFieldFinal(Get32(e, c, r.addr), Get32(e, c', r.addr), r, l)
  }

  ghost predicate FieldPartial(e: Endian, c: seq<byte>, c': seq<byte>, r: StdRel, l: PartialLink)
    requires l.Valid() && StdOk(r, |l.symbols|)
  {
    r.addr + 4 <= |c| == |c'| && StdFieldPartial(Get32(e, c, r.addr), Get32(e, c', r.addr), r, l)
  }

  /** Every field of a section after a final link. */
  ghost predicate StdFieldsFinal(e: Endian, c: seq<byte>, c': seq<byte>, rels: seq<StdRel>, l: LinkRelocs.FinalLink) {
    forall k :: 0 <= k < |rels| ==> StdOk(rels[k], |l.address|) && FieldFinal(e, c, c', rels[k], l)
  }

  /** And after a partial one, with the relocs it writes. */
  ghost predicate StdFieldsPartial(e: Endian, c: seq<byte>, c': seq<byte>, rels: seq<StdRel>, outs: seq<StdRel>, l: PartialLink)
    requires l.Valid()
  {
    |outs| == |rels| && forall k :: 0 <= k < |rels| ==>
      StdOk(rels[k], |l.symbols|) && FieldPartial(e, c, c', rels[k], l) && StdRelocPartial(rels[k], outs[k], l)
  }

  lemma FinalIs(was: int, r: StdRel, l: LinkRelocs.FinalLink)
    requires StdOk(r, |l.address|)
    ensures StdFieldFinal(was, U32(was + FinalDelta(r, l)), r, l)
  {
  }

  lemma PartialIs(was: int, r: StdRel, l: PartialLink)
    requires l.Valid() && StdOk(r, |l.symbols|)
    ensures StdFieldPartial(was, U32(was + PartialDelta(r, l)), r, l) && StdRelocPartial(r, PartialReloc(r, l), l)
  {
    assert N_TEXT as int == 4 && N_DATA as int == 6 && N_BSS as int == 8 && N_ABS as int == 2;
  }

  lemma OneFinal(e: Endian, c: seq<byte>, rels: seq<StdRel>, l: LinkRelocs.FinalLink, k: nat)
    requires StdSection(rels, |l.address|, |c|) && k < |rels|
    ensures Fits(c, FinalPatches(rels, l)) && StdOk(rels[k], |l.address|)
    ensures FieldFinal(e, c, PatchAll(e, true, c, FinalPatches(rels, l)), rels[k], l)
  {
    hide FinalDelta, FinalPatches, StdOk, Fits, Get32, PatchAll, StdSection, U32, StdFieldFinal, AllOk;
    FieldAfterFinal(e, c, rels, l, k);
    FinalIs(Get32(e, c, rels[k].addr), rels[k], l);
  }

  lemma OnePartial(e: Endian, c: seq<byte>, rels: seq<StdRel>, l: PartialLink, k: nat)
    requires l.Valid() && StdSection(rels, |l.symbols|, |c|) && k < |rels|
    ensures Fits(c, PartialPatches(rels, l)) && StdOk(rels[k], |l.symbols|) && AllOk(rels, |l.symbols|)
    ensures FieldPartial(e, c, PatchAll(e, true, c, PartialPatches(rels, l)), rels[k], l)
    ensures StdRelocPartial(rels[k], PartialRelocs(rels, l)[k], l)
  {
    hide *;
    SectionMeans(rels, |l.symbols|, |c|);
    PartialRelocAt(rels, l, k);
    FieldAfterPartial(e, c, rels, l, k);
    PartialIs(Get32(e, c, rels[k].addr), rels[k], l);
    IsFieldPartial(e, c, PatchAll(e, true, c, PartialPatches(rels, l)), rels[k], l);
  }

  lemma PartialRelocAt(rels: seq<StdRel>, l: PartialLink, k: nat)
    requires l.Valid() && AllOk(rels, |l.symbols|) && k < |rels|
    ensures StdOk(rels[k], |l.symbols|) && PartialRelocs(rels, l)[k] == PartialReloc(rels[k], l)
  {
    hide PartialReloc, StdOk;
  }

  lemma IsFieldPartial(e: Endian, c: seq<byte>, c': seq<byte>, r: StdRel, l: PartialLink)
    requires l.Valid() && StdOk(r, |l.symbols|) && r.addr + 4 <= |c| == |c'|
    requires Get32(e, c', r.addr) == U32(Get32(e, c, r.addr) + PartialDelta(r, l))
    requires StdFieldPartial(Get32(e, c, r.addr), U32(Get32(e, c, r.addr) + PartialDelta(r, l)), r, l)
    ensures FieldPartial(e, c, c', r, l)
  {
    hide StdOk, StdFieldPartial, Get32, U32, PartialDelta;
  }

  /** What the final link's loop leaves in the fields of relocs that do not overlap. */
  lemma AllFinal(e: Endian, c: seq<byte>, rels: seq<StdRel>, l: LinkRelocs.FinalLink)
    requires StdSection(rels, |l.address|, |c|) && AllOk(rels, |l.address|) && Fits(c, FinalPatches(rels, l))
    ensures StdFieldsFinal(e, c, PatchAll(e, true, c, FinalPatches(rels, l)), rels, l)
  {
    hide *;
    forall k | 0 <= k < |rels|
      ensures StdOk(rels[k], |l.address|) && FieldFinal(e, c, PatchAll(e, true, c, FinalPatches(rels, l)), rels[k], l)
    {
      OneFinal(e, c, rels, l, k);
    }
    IsFinal(e, c, PatchAll(e, true, c, FinalPatches(rels, l)), rels, l);
  }

  lemma IsFinal(e: Endian, c: seq<byte>, c': seq<byte>, rels: seq<StdRel>, l: LinkRelocs.FinalLink)
    requires forall k :: 0 <= k < |rels| ==> StdOk(rels[k], |l.address|) && FieldFinal(e, c, c', rels[k], l)
    ensures StdFieldsFinal(e, c, c', rels, l)
  {
    hide StdOk, FieldFinal;
  }

  /** What the partial link's loop leaves in fields and relocs. */
  lemma AllPartial(e: Endian, c: seq<byte>, rels: seq<StdRel>, l: PartialLink)
    requires l.Valid() && StdSection(rels, |l.symbols|, |c|) && AllOk(rels, |l.symbols|) && Fits(c, PartialPatches(rels, l))
    ensures StdFieldsPartial(e, c, PatchAll(e, true, c, PartialPatches(rels, l)), rels, PartialRelocs(rels, l), l)
  {
    hide *;
    var c', outs := PatchAll(e, true, c, PartialPatches(rels, l)), PartialRelocs(rels, l);
    forall k | 0 <= k < |rels|
      ensures StdOk(rels[k], |l.symbols|) && FieldPartial(e, c, c', rels[k], l) && StdRelocPartial(rels[k], outs[k], l)
    {
      OnePartial(e, c, rels, l, k);
    }
    IsPartial(e, c, c', rels, outs, l);
  }

  lemma IsPartial(e: Endian, c: seq<byte>, c': seq<byte>, rels: seq<StdRel>, outs: seq<StdRel>, l: PartialLink)
    requires l.Valid() && |outs| == |rels|
    requires forall k :: 0 <= k < |rels| ==>
      StdOk(rels[k], |l.symbols|) && FieldPartial(e, c, c', rels[k], l) && StdRelocPartial(rels[k], outs[k], l)
    ensures StdFieldsPartial(e, c, c', rels, outs, l)
  {
    hide StdOk, FieldPartial, StdRelocPartial;
  }

  /** A pc-relative call of a symbol at 0x3000 from the start of a section that goes to 0x1020. */
  lemma CallIsRelative(l: LinkRelocs.FinalLink)
    requires l.here == Placement(0, 0x1000, 0x20) && l.address == [0x3000]
    ensures U32(0 + FinalDelta(StdRel(0, 0, true, true), l)) == 0x1fe0
  {
  }

  // ----- Extended relocs -----

  /** A final link fills the field with the addend and the same address, less where the field is if the format counts from there. */
  predicate ExtFieldFinal(now: int, r: ExtRel, l: LinkRelocs.FinalLink)
    requires ExtOk(r, |l.address|)
  {
    var t, here := Target(l.sections, r.index), l.here;
    now == (r.addend
      + (if r.extern then l.address[r.index] - (if r.pcrel then here.outVma + here.outOffset else 0)
         else t.outVma + t.outOffset - t.vma - (if r.pcrel then here.outVma + here.outOffset - here.vma else 0))
      - if r.pcrel && r.pcrelOffset then r.addr else 0) % 0x1_0000_0000
  }

  /** A partial link changes the addend as it changes the field of a standard reloc, unless that counts from the field. */
  predicate ExtRelocPartial(r: ExtRel, out: ExtRel, l: PartialLink)
    requires l.Valid() && ExtOk(r, |l.symbols|)
  {
    var t, here := Target(l.sections, r.index), l.here;
    && out.addr == r.addr + here.outOffset && out.pcrel == r.pcrel && out.pcrelOffset == r.pcrelOffset
    && out.addend == r.addend
         + (if r.extern then KnownAddress(l.symbols[r.index]) else t.outVma + t.outOffset - t.vma)
         - (if r.pcrel && !r.pcrelOffset then here.outVma + here.outOffset - here.vma else 0)
    && if r.extern && KnownSection(l.symbols[r.index]).Some? then !out.extern && out.index == KnownSection(l.symbols[r.index]).value
       else out.extern == r.extern && out.index == if r.extern then l.newIndex[r.index] % 0x100_0000 else r.index
  }

  lemma ExtFinalIs(r: ExtRel, l: LinkRelocs.FinalLink)
    requires ExtOk(r, |l.address|)
    ensures ExtFieldFinal(U32(FinalExtValue(r, l)), r, l)
  {
  }

  lemma ExtPartialIs(r: ExtRel, l: PartialLink)
    requires l.Valid() && ExtOk(r, |l.symbols|)
    ensures ExtRelocPartial(r, PartialExtReloc(r, l), l)
  {
    assert N_TEXT as int == 4 && N_DATA as int == 6 && N_BSS as int == 8 && N_ABS as int == 2;
  }

  ghost predicate ExtField(e: Endian, c: seq<byte>, r: ExtRel, l: LinkRelocs.FinalLink)
    requires ExtOk(r, |l.address|)
  {
    r.addr + 4 <= |c| && ExtFieldFinal(Get32(e, c, r.addr), r, l)
  }

  ghost predicate ExtFieldsFinal(e: Endian, c: seq<byte>, rels: seq<ExtRel>, l: LinkRelocs.FinalLink) {
    forall k :: 0 <= k < |rels| ==> ExtOk(rels[k], |l.address|) && ExtField(e, c, rels[k], l)
  }

  ghost predicate ExtRelocsPartial(rels: seq<ExtRel>, outs: seq<ExtRel>, l: PartialLink)
    requires l.Valid()
  {
    |outs| == |rels| && forall k :: 0 <= k < |rels| ==> ExtOk(rels[k], |l.symbols|) && ExtRelocPartial(rels[k], outs[k], l)
  }

  lemma OneExtFinal(e: Endian, c: seq<byte>, rels: seq<ExtRel>, l: LinkRelocs.FinalLink, k: nat)
    requires ExtSection(rels, |l.address|, |c|) && k < |rels|
    ensures Fits(c, FinalExtPatches(rels, l)) && ExtOk(rels[k], |l.address|)
    ensures ExtField(e, PatchAll(e, false, c, FinalExtPatches(rels, l)), rels[k], l)
  {
    hide FinalExtValue, FinalExtPatches, ExtOk, Fits, Get32, PatchAll, ExtSection, U32, ExtFieldFinal, AllExtOk;
    FieldAfterExtFinal(e, c, rels, l, k);
    ExtFinalIs(rels[k], l);
  }

  /** What the final link's loop leaves in the fields. */
  lemma AllExtFinal(e: Endian, c: seq<byte>, rels: seq<ExtRel>, l: LinkRelocs.FinalLink)
    requires ExtSection(rels, |l.address|, |c|) && AllExtOk(rels, |l.address|) && Fits(c, FinalExtPatches(rels, l))
    ensures ExtFieldsFinal(e, PatchAll(e, false, c, FinalExtPatches(rels, l)), rels, l)
  {
    hide *;
    forall k | 0 <= k < |rels|
      ensures ExtOk(rels[k], |l.address|) && ExtField(e, PatchAll(e, false, c, FinalExtPatches(rels, l)), rels[k], l)
    {
      OneExtFinal(e, c, rels, l, k);
    }
    IsExtFinal(e, PatchAll(e, false, c, FinalExtPatches(rels, l)), rels, l);
  }

  lemma IsExtFinal(e: Endian, c: seq<byte>, rels: seq<ExtRel>, l: LinkRelocs.FinalLink)
    requires forall k :: 0 <= k < |rels| ==> ExtOk(rels[k], |l.address|) && ExtField(e, c, rels[k], l)
    ensures ExtFieldsFinal(e, c, rels, l)
  {
    hide ExtOk, ExtField;
  }

  /** What the partial link's loop makes of the relocs. */
  lemma AllExtPartial(rels: seq<ExtRel>, l: PartialLink)
    requires l.Valid() && AllExtOk(rels, |l.symbols|)
    ensures ExtRelocsPartial(rels, PartialExtRelocs(rels, l), l)
  {
    hide PartialExtReloc, ExtOk, ExtRelocPartial;
    forall k | 0 <= k < |rels| ensures ExtRelocPartial(rels[k], PartialExtRelocs(rels, l)[k], l) {
      ExtPartialIs(rels[k], l);
    }
  }
}
