/**
  Relocating the sections of an a.out input file (aout_link_input_section_std and _ext in
  aoutx.h), for a partial link and for a final one.  Fields and addends are 32 bits, so
  all that matters of a relocation is its value modulo 2^32.
 */
module LinkRelocs {
  import opened CBytes
  import opened LinkModel

  // ----- Sections and symbols, as a link sees them -----

  datatype SectionId = TextId | DataId | BssId | AbsId

  function At(s: Sections, id: SectionId): Placement {
    match id
    case TextId => s.text
    case DataId => s.data
    case BssId => s.bss
    case AbsId => Placement(0, 0, 0)
  }

  /** How far a section moves in a link. */
  function Move(p: Placement): int {
    p.outVma + p.outOffset - p.vma
  }

  /** aout_reloc_index_to_section; other indices make the source abort. */
  predicate IsSectionIndex(index: int) {
    index % 32 / 2 <= 4
  }

  function IndexToSection(index: int): SectionId {
    match index % 32 / 2
    case 2 => TextId
    case 3 => DataId
    case 4 => BssId
    case _ => AbsId
  }

  /** The section index written for a symbol defined in an output section. */
  function SectionIndex(out: OutSection): int {
    match out
    case OutText => N_TEXT as int
    case OutData => N_DATA as int
    case OutBss => N_BSS as int
    case OutOther => N_ABS as int
  }

  function IdOf(out: OutSection): SectionId {
    match out
    case OutText => TextId
    case OutData => DataId
    case OutBss => BssId
    case OutOther => AbsId
  }

  /** The address and section of an entry that is defined. */
  function Definition(k: Kind): Option<(int, OutSection)> {
    match k
    case Defined(value, place, out) => Some((value + place, out))
    case DefWeak(value, place, out) => Some((value + place, out))
    case _ => None
  }

  /** The surroundings of a section in a partial link; `newIndex` numbers the output's symbols. */
  datatype PartialLink = PartialLink(here: Placement, sections: Sections, symbols: seq<Option<Kind>>, newIndex: seq<int>)
  {
    predicate Valid() { |symbols| == |newIndex| && here.outOffset >= 0 }

    function Known(index: int): Option<(int, OutSection)>
      requires Valid() && 0 <= index < |symbols|
    {
      match symbols[index]
      case None => None
      case Some(k) => Definition(k)
    }
  }

  /** The surroundings of a section in a final link; `address` gives every symbol's final address. */
  datatype FinalLink = FinalLink(here: Placement, sections: Sections, address: seq<int>)

  // ----- Standard relocs: the addend is in the section contents -----

  datatype StdRel = StdRel(addr: nat, index: int, extern: bool, pcrel: bool)

  predicate StdOk(r: StdRel, symbols: nat) {
    if r.extern then 0 <= r.index < symbols else IsSectionIndex(r.index)
  }

  /** What a partial link adds to the field. */
  function PartialDelta(r: StdRel, l: PartialLink): int
    requires l.Valid() && StdOk(r, |l.symbols|)
  {
    (if r.extern then
       match l.Known(r.index)
       case Some((address, _)) => address
       case None => 0
     else Move(At(l.sections, IndexToSection(r.index))))
    - if r.pcrel then Move(l.here) else 0
  }

  /** The reloc a partial link writes: three bytes of index. */
  function PartialReloc(r: StdRel, l: PartialLink): StdRel
    requires l.Valid() && StdOk(r, |l.symbols|)
  {
    var addr := r.addr + l.here.outOffset;
    if !r.extern then r.(addr := addr)
    else
      match l.Known(r.index)
      case Some((_, out)) => StdRel(addr, SectionIndex(out), false, r.pcrel)
      case None => StdRel(addr, l.newIndex[r.index] % 0x100_0000, true, r.pcrel)
  }

  /** What a final link adds to the field. */
  function FinalDelta(r: StdRel, l: FinalLink): int
    requires StdOk(r, |l.address|)
  {
    (if r.extern then l.address[r.index]
     else Move(At(l.sections, IndexToSection(r.index))) + if r.pcrel then l.here.vma else 0)
    - if r.pcrel then l.here.outVma + l.here.outOffset else 0
  }

  // ----- Extended relocs: the addend is in the reloc -----

  datatype ExtRel = ExtRel(addr: nat, index: int, extern: bool, pcrel: bool, pcrelOffset: bool, addend: int)

  predicate ExtOk(r: ExtRel, symbols: nat) {
    if r.extern then 0 <= r.index < symbols else IsSectionIndex(r.index)
  }

  function PartialExtReloc(r: ExtRel, l: PartialLink): ExtRel
    requires l.Valid() && ExtOk(r, |l.symbols|)
  {
    var addr := r.addr + l.here.outOffset;
    var shift := if r.pcrel && !r.pcrelOffset then Move(l.here) else 0;
    if !r.extern then r.(addr := addr, addend := r.addend + Move(At(l.sections, IndexToSection(r.index))) - shift)
    else
      match l.Known(r.index)
      case Some((address, out)) => r.(addr := addr, index := SectionIndex(out), extern := false, addend := r.addend + address - shift)
      case None => r.(addr := addr, index := l.newIndex[r.index] % 0x100_0000, addend := r.addend - shift)
  }

  /** The value a final link puts in the field. */
  function FinalExtValue(r: ExtRel, l: FinalLink): int
    requires ExtOk(r, |l.address|)
  {
    (if r.extern then l.address[r.index]
     else Move(At(l.sections, IndexToSection(r.index))) + if r.pcrel then l.here.vma else 0)
    + r.addend
    - (if r.pcrel then l.here.outVma + l.here.outOffset + (if r.pcrelOffset then r.addr else 0) else 0)
  }

  // ----- Two links in a row against one -----

  /** `second` places the sections that `first` produced. */
  predicate Follows(first: Placement, second: Placement) {
    second.vma == first.outVma
  }

  /** One link straight to where two links take a section. */
  function Through(first: Placement, second: Placement): Placement {
    Placement(first.vma, second.outVma, first.outOffset + second.outOffset)
  }

  /**
    A partial link, a final link of its output, and a final link of its input agree on
    placements and on what every symbol resolves to.
   */
  ghost predicate SameLayout(p: PartialLink, f: FinalLink, direct: FinalLink) {
    && p.Valid() && |direct.address| == |p.symbols|
    && Follows(p.here, f.here) && direct.here == Through(p.here, f.here)
    && (forall id {:trigger At(direct.sections, id)} :: id != AbsId ==>
          Follows(At(p.sections, id), At(f.sections, id)) && At(direct.sections, id) == Through(At(p.sections, id), At(f.sections, id)))
  }

  /** Symbol `i` resolves alike. */
  ghost predicate SameSymbol(p: PartialLink, f: FinalLink, direct: FinalLink, i: int)
    requires p.Valid() && 0 <= i < |p.symbols| == |direct.address|
  {
    match p.Known(i)
    case Some((address, out)) => direct.address[i] == address + Move(At(f.sections, IdOf(out)))
    case None => var j := p.newIndex[i] % 0x100_0000; j < |f.address| && direct.address[i] == f.address[j]
  }

  /** By how much two links differ from one on a standard reloc. */
  function StdSkew(r: StdRel, p: PartialLink): int
    requires p.Valid() && StdOk(r, |p.symbols|)
  {
    if !r.pcrel || !r.extern then 0
    else if p.Known(r.index).Some? then p.here.vma
    else p.here.vma - p.here.outVma
  }

  lemma SectionIndexMeansSection(out: OutSection)
    ensures IsSectionIndex(SectionIndex(out)) && IndexToSection(SectionIndex(out)) == IdOf(out)
  {
    assert N_TEXT as int == 4 && N_DATA as int == 6 && N_BSS as int == 8 && N_ABS as int == 2;
  }

  lemma TwoLinksOfStd(r: StdRel, p: PartialLink, f: FinalLink, direct: FinalLink)
    requires SameLayout(p, f, direct) && StdOk(r, |p.symbols|)
    requires r.extern ==> SameSymbol(p, f, direct, r.index)
    ensures StdOk(PartialReloc(r, p), |f.address|)
    ensures PartialDelta(r, p) + FinalDelta(PartialReloc(r, p), f) == FinalDelta(r, direct) + StdSkew(r, p)
  {
    if !r.extern {
      var id := IndexToSection(r.index);
      assert At(direct.sections, id) == At(direct.sections, id);
    } else {
      match p.Known(r.index)
      case Some((_, out)) => SectionIndexMeansSection(out);
      case None =>
    }
  }

  /** By how much two links differ from one on an extended reloc. */
  function ExtSkew(r: ExtRel, p: PartialLink): int
    requires p.Valid() && ExtOk(r, |p.symbols|)
  {
    if !r.pcrel then 0
    else if !r.extern then (if r.pcrelOffset then p.here.outVma - p.here.vma else 0)
    else if p.Known(r.index).Some? then (if r.pcrelOffset then p.here.outVma else p.here.vma)
    else if r.pcrelOffset then 0
    else p.here.vma - p.here.outVma
  }

  lemma TwoLinksOfExt(r: ExtRel, p: PartialLink, f: FinalLink, direct: FinalLink)
    requires SameLayout(p, f, direct) && ExtOk(r, |p.symbols|)
    requires r.extern ==> SameSymbol(p, f, direct, r.index)
    ensures ExtOk(PartialExtReloc(r, p), |f.address|)
    ensures FinalExtValue(PartialExtReloc(r, p), f) == FinalExtValue(r, direct) + ExtSkew(r, p)
  {
    if !r.extern {
      var id := IndexToSection(r.index);
      assert At(direct.sections, id) == At(direct.sections, id);
    } else {
      match p.Known(r.index)
      case Some((_, out)) => SectionIndexMeansSection(out);
      case None =>
    }
  }
}
