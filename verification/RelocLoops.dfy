/**
  The reloc loops of aout_link_input_section_std and _ext (aoutx.h), which patch a section's
  contents and its relocs in place; and the extended relocs over two links in a row.
 */
module RelocLoops {
  import opened CBytes
  import opened LinkModel
  import opened LinkRelocs
  import opened RelocSections
  import opened RelocValues

  /** Storing the word that is already there changes nothing. */
  lemma StoreSame(e: Endian, c: seq<byte>, at: nat)
    requires at + 4 <= |c|
    ensures WithWord(e, c, at, Get32(e, c, at)) == c
  {
    hide *;
    var x := Get32(e, c, at);
    var d := WithWord(e, c, at, x);
    WithWordAt(e, c, at, x);
    WordRead(e, d, at, x);
    Word32(e, c, at);
    forall i | 0 <= i < |c| ensures d[i] == c[i] {
      if at <= i < at + 4 {
        WordBytes(e, d, at, c, at, i - at);
        assert at + (i - at) == i;
      } else {
        WithWordOutside(e, c, at, x, i);
      }
    }
  }

  lemma Word32(e: Endian, c: seq<byte>, at: nat)
    requires at + 4 <= |c|
    ensures Get32(e, c, at) % TWO_TO_32 == Get32(e, c, at)
  {
    hide Get32;
  }

  /** One field of the contents, in place. */
  method PatchField(e: Endian, inPlace: bool, contents: array<byte>, p: Patch)
    requires p.at + 4 <= contents.Length
    modifies contents
    ensures contents[..] == Patched(e, inPlace, old(contents[..]), p)
  {
    var x := (if inPlace then Get32(e, contents[..], p.at) else 0) + p.add;
    var w := Put32(e, x);
    var at := p.at;
    contents[at], contents[at + 1], contents[at + 2], contents[at + 3] := w[0], w[1], w[2], w[3];
    assert contents[..] == old(contents[..])[..at] + w + old(contents[..])[at + 4..];
  }

  lemma OneMorePatch(e: Endian, inPlace: bool, c: seq<byte>, ps: seq<Patch>, j: nat)
    requires j < |ps| && Fits(c, ps)
    ensures Fits(c, ps[..j]) && Fits(c, ps[..j + 1]) && ps[j].at + 4 <= |c|
    ensures PatchAll(e, inPlace, c, ps[..j + 1]) == Patched(e, inPlace, PatchAll(e, inPlace, c, ps[..j]), ps[j])
  {
    assert ps[..j + 1][..j] == ps[..j];
  }

  /** One reloc in the partial link's loop: the reloc to write, and what to add to its field. */
  method PartialRelocation(r: StdRel, l: PartialLink) returns (out: StdRel, relocation: int)
    requires l.Valid() && StdOk(r, |l.symbols|)
    ensures out == PartialReloc(r, l) && relocation == PartialDelta(r, l)
  {
    out, relocation := r, 0;
    if r.extern {
      match l.Known(r.index) {
        case Some((address, section)) =>
          // the symbol is known: make the reloc one against its section
          relocation := address;
          out := StdRel(r.addr, SectionIndex(section), false, r.pcrel);
        case None =>
          out := r.(index := l.newIndex[r.index] % 0x100_0000);
      }
    } else {
      relocation := Move(At(l.sections, IndexToSection(r.index)));
    }
    out := out.(addr := r.addr + l.here.outOffset);
    if r.pcrel {
      relocation := relocation - (l.here.outVma + l.here.outOffset - l.here.vma);
    }
  }

  /** aout_link_input_section_std in a partial link. */
  method RelocateStdPartial(e: Endian, l: PartialLink, relocs: array<StdRel>, contents: array<byte>)
    requires l.Valid() && AllOk(relocs[..], |l.symbols|)
    requires forall k :: 0 <= k < relocs.Length ==> relocs[k].addr + 4 <= contents.Length
    modifies relocs, contents
    ensures relocs[..] == PartialRelocs(old(relocs[..]), l)
    ensures Fits(old(contents[..]), PartialPatches(old(relocs[..]), l))
    ensures contents[..] == PatchAll(e, true, old(contents[..]), PartialPatches(old(relocs[..]), l))
    // What that means if the fields do not overlap
    ensures StdSection(old(relocs[..]), |l.symbols|, contents.Length) ==>
      StdFieldsPartial(e, old(contents[..]), contents[..], old(relocs[..]), relocs[..], l)
  {
    hide *;
    ghost var rels, c, ps := relocs[..], contents[..], PartialPatches(relocs[..], l);
    PartialFits(rels, l, c);
    NoPatches(e, true, c, ps);
    var j := 0;
    while j < relocs.Length
      invariant 0 <= j <= relocs.Length
      invariant forall i :: 0 <= i < j ==> StdOk(rels[i], |l.symbols|) && relocs[i] == PartialReloc(rels[i], l)
      invariant forall i :: j <= i < relocs.Length ==> relocs[i] == rels[i]
      invariant Fits(c, ps[..j]) && contents[..] == PatchAll(e, true, c, ps[..j])
    {
      OneMorePatch(e, true, c, ps, j);
      PartialAt(rels, l, j);
      var r := relocs[j];
      var out, relocation := PartialRelocation(r, l);
      relocs[j] := out;
      if relocation != 0 {
        PatchField(e, true, contents, Patch(r.addr, relocation));
      } else {
        StoreNothing(e, contents[..], r.addr);
      }
      j := j + 1;
    }
    assert ps[..j] == ps;
    PartialDone(rels, l, relocs[..]);
    if StdSection(rels, |l.symbols|, contents.Length) {
      AllPartial(e, c, rels, l);
    }
  }

  lemma PartialFits(rels: seq<StdRel>, l: PartialLink, c: seq<byte>)
    requires l.Valid() && AllOk(rels, |l.symbols|) && forall k :: 0 <= k < |rels| ==> rels[k].addr + 4 <= |c|
    ensures Fits(c, PartialPatches(rels, l))
  {
    hide PartialDelta, StdOk;
  }

  lemma PartialAt(rels: seq<StdRel>, l: PartialLink, j: nat)
    requires l.Valid() && AllOk(rels, |l.symbols|) && j < |rels|
    ensures StdOk(rels[j], |l.symbols|) && PartialPatches(rels, l)[j] == Patch(rels[j].addr, PartialDelta(rels[j], l))
  {
    hide PartialDelta, StdOk;
  }

  lemma PartialDone(rels: seq<StdRel>, l: PartialLink, out: seq<StdRel>)
    requires l.Valid() && AllOk(rels, |l.symbols|) && |out| == |rels|
    requires forall k :: 0 <= k < |rels| ==> StdOk(rels[k], |l.symbols|) && out[k] == PartialReloc(rels[k], l)
    ensures out == PartialRelocs(rels, l)
  {
    hide PartialReloc, StdOk;
  }

  lemma NoPatches(e: Endian, inPlace: bool, c: seq<byte>, ps: seq<Patch>)
    ensures Fits(c, ps[..0]) && PatchAll(e, inPlace, c, ps[..0]) == c
  {
  }

  lemma StoreNothing(e: Endian, c: seq<byte>, at: nat)
    requires at + 4 <= |c|
    ensures Patched(e, true, c, Patch(at, 0)) == c
  {
    hide WithWord, Get32;
    StoreSame(e, c, at);
  }

  /** The value the final link's loop computes for a standard reloc. */
  method FinalRelocation(r: StdRel, l: LinkRelocs.FinalLink) returns (relocation: int)
    requires StdOk(r, |l.address|)
    ensures relocation == FinalDelta(r, l)
  {
    if r.extern {
      relocation := l.address[r.index];
    } else {
      relocation := Move(At(l.sections, IndexToSection(r.index)));
      if r.pcrel {
        relocation := relocation + l.here.vma;
      }
    }
    // _bfd_final_link_relocate
    if r.pcrel {
      relocation := relocation - (l.here.outVma + l.here.outOffset);
    }
  }

  /** aout_link_input_section_std in a final link. */
  method RelocateStdFinal(e: Endian, l: LinkRelocs.FinalLink, relocs: array<StdRel>, contents: array<byte>)
    requires AllOk(relocs[..], |l.address|)
    requires forall k :: 0 <= k < relocs.Length ==> relocs[k].addr + 4 <= contents.Length
    modifies contents
    ensures Fits(old(contents[..]), FinalPatches(relocs[..], l))
    ensures contents[..] == PatchAll(e, true, old(contents[..]), FinalPatches(relocs[..], l))
    ensures StdSection(relocs[..], |l.address|, contents.Length) ==>
      StdFieldsFinal(e, old(contents[..]), contents[..], relocs[..], l)
  {
    hide PatchAll, Get32, Put32, FinalDelta, StdOk;
    ghost var c, ps := contents[..], FinalPatches(relocs[..], l);
    assert Fits(c, ps);
    NoPatches(e, true, c, ps);
    var j := 0;
    while j < relocs.Length
      invariant 0 <= j <= relocs.Length
      invariant contents[..] == PatchAll(e, true, c, ps[..j])
    {
      OneMorePatch(e, true, c, ps, j);
      var r := relocs[j];
      var relocation := FinalRelocation(r, l);
      PatchField(e, true, contents, Patch(r.addr, relocation));
      j := j + 1;
    }
    assert ps[..j] == ps;
    if StdSection(relocs[..], |l.address|, contents.Length) {
      AllFinal(e, c, relocs[..], l);
    }
  }

  // ----- Extended relocs -----

  /** One extended reloc in the partial link's loop. */
  method PartialExtRelocation(r: ExtRel, l: PartialLink) returns (out: ExtRel)
    requires l.Valid() && ExtOk(r, |l.symbols|)
    ensures out == PartialExtReloc(r, l)
  {
    out := r;
    var relocation := 0;
    if r.extern {
      match l.Known(r.index) {
        case Some((address, section)) =>
          relocation := address;
          out := r.(index := SectionIndex(section), extern := false);
        case None =>
          out := r.(index := l.newIndex[r.index] % 0x100_0000);
      }
    } else {
      relocation := Move(At(l.sections, IndexToSection(r.index)));
    }
    if r.pcrel && !r.pcrelOffset {
      relocation := relocation - (l.here.outVma + l.here.outOffset - l.here.vma);
    }
    if relocation != 0 {
      out := out.(addend := r.addend + relocation);
    }
    out := out.(addr := r.addr + l.here.outOffset);
  }

  /** aout_link_input_section_ext in a partial link: only the relocs change. */
  method RelocateExtPartial(l: PartialLink, relocs: array<ExtRel>)
    requires l.Valid() && AllExtOk(relocs[..], |l.symbols|)
    modifies relocs
    ensures relocs[..] == PartialExtRelocs(old(relocs[..]), l)
    ensures ExtRelocsPartial(old(relocs[..]), relocs[..], l)
  {
    hide PartialExtReloc, ExtOk;
    ghost var rels := relocs[..];
    var j := 0;
    while j < relocs.Length
      invariant 0 <= j <= relocs.Length
      invariant forall i :: 0 <= i < j ==> relocs[i] == PartialExtReloc(rels[i], l)
      invariant forall i :: j <= i < relocs.Length ==> relocs[i] == rels[i]
    {
      relocs[j] := PartialExtRelocation(relocs[j], l);
      j := j + 1;
    }
    assert relocs[..] == PartialExtRelocs(rels, l);
    AllExtPartial(rels, l);
  }

  /** The value the final link's loop computes for an extended reloc. */
  method FinalExtRelocation(r: ExtRel, l: LinkRelocs.FinalLink) returns (relocation: int)
    requires ExtOk(r, |l.address|)
    ensures relocation == FinalExtValue(r, l)
  {
    if r.extern {
      relocation := l.address[r.index];
    } else {
      relocation := Move(At(l.sections, IndexToSection(r.index)));
      if r.pcrel {
        relocation := relocation + l.here.vma;
      }
    }
    // _bfd_final_link_relocate
    relocation := relocation + r.addend;
    if r.pcrel {
      relocation := relocation - (l.here.outVma + l.here.outOffset);
      if r.pcrelOffset {
        relocation := relocation - r.addr;
      }
    }
  }

  /** aout_link_input_section_ext in a final link: the addend comes from the reloc. */
  method RelocateExtFinal(e: Endian, l: LinkRelocs.FinalLink, relocs: array<ExtRel>, contents: array<byte>)
    requires AllExtOk(relocs[..], |l.address|)
    requires forall k :: 0 <= k < relocs.Length ==> relocs[k].addr + 4 <= contents.Length
    modifies contents
    ensures Fits(old(contents[..]), FinalExtPatches(relocs[..], l))
    ensures contents[..] == PatchAll(e, false, old(contents[..]), FinalExtPatches(relocs[..], l))
    ensures ExtSection(relocs[..], |l.address|, contents.Length) ==> ExtFieldsFinal(e, contents[..], relocs[..], l)
  {
    hide PatchAll, Get32, Put32, FinalExtValue, ExtOk;
    ghost var c, ps := contents[..], FinalExtPatches(relocs[..], l);
    assert Fits(c, ps);
    NoPatches(e, false, c, ps);
    var j := 0;
    while j < relocs.Length
      invariant 0 <= j <= relocs.Length
      invariant contents[..] == PatchAll(e, false, c, ps[..j])
    {
      OneMorePatch(e, false, c, ps, j);
      var r := relocs[j];
      var relocation := FinalExtRelocation(r, l);
      PatchField(e, false, contents, Patch(r.addr, relocation));
      j := j + 1;
    }
    assert ps[..j] == ps;
    if ExtSection(relocs[..], |l.address|, contents.Length) {
      AllExtFinal(e, c, relocs[..], l);
    }
  }
}
