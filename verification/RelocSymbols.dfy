/**
  Which symbols the external relocs of a partial link name (aout_link_input_section_std and _ext
  in aoutx.h): the index put in a reloc against an undefined symbol leads to that symbol's record,
  so a later link resolves both alike.
 */
module RelocSymbols {
  import opened CBytes
  import opened LinkModel
  import opened SymbolWalk
  import opened SymbolInvariants
  import LinkRelocs

  /** The final links resolve symbols by their names. */
  ghost predicate ResolveByName(f: LinkRelocs.FinalLink, records: seq<Nlist>, address: string -> int) {
    |f.address| == |records| && forall j {:trigger records[j]} :: 0 <= j < |records| ==> f.address[j] == address(records[j].name)
  }

  /**
    Symbol `i` of the input, whose entry `k` has no definition, is given the index of that entry's
    record: it is what it was for the final link.
   */
  lemma UndefinedResolvesAlike(hash: seq<HashEntry>, st: State, k: nat, p: LinkRelocs.PartialLink, f: LinkRelocs.FinalLink,
                               direct: LinkRelocs.FinalLink, i: nat, address: string -> int)
    requires Coherent(hash, st) && k < |hash| && !hash[k].kind.Warning?
    requires p.Valid() && i < |p.symbols| == |direct.address| && p.Known(i) == None
    requires 0 <= p.newIndex[i] < |st.records| && st.origins[p.newIndex[i]].Entry() == Some(k)
    requires ResolveByName(f, st.records, address) && direct.address[i] == address(hash[k].name)
    ensures p.newIndex[i] < 0x100_0000 ==> LinkRelocs.SameSymbol(p, f, direct, i)
  {
    assert RecordOk(hash, st, p.newIndex[i]);
  }

  /**
    A reloc has three bytes for the index: what is written names the entry's record, and not that
    of another symbol, if and only if fewer than 2^24 records stand before it.
   */
  lemma LateSymbolsAreMistaken(hash: seq<HashEntry>, st: State, k: nat, p: LinkRelocs.PartialLink, r: LinkRelocs.StdRel,
                               x: LinkRelocs.ExtRel)
    requires Coherent(hash, st) && k < |hash| && p.Valid()
    requires r.extern && x.extern && 0 <= r.index == x.index < |p.symbols| && p.Known(r.index) == None
    requires 0 <= p.newIndex[r.index] < |st.records| && st.origins[p.newIndex[r.index]].Entry() == Some(k)
    ensures var r', x' := LinkRelocs.PartialReloc(r, p), LinkRelocs.PartialExtReloc(x, p);
      && r'.extern && x'.extern && 0 <= r'.index == x'.index < |st.records|
      && (st.origins[r'.index].Entry() == Some(k) <==> p.newIndex[r.index] < 0x100_0000)
  {
    var j := p.newIndex[r.index];
    if st.origins[j % 0x100_0000].Entry() == Some(k) {
      AtMostOneRecord(hash, st, j, j % 0x100_0000);
    }
  }

  /** The first to be mistaken gets the index of the output's first symbol. */
  lemma FirstMistaken(hash: seq<HashEntry>, st: State, k: nat, p: LinkRelocs.PartialLink, r: LinkRelocs.StdRel)
    requires Coherent(hash, st) && k < |hash| && p.Valid() && r.extern && 0 <= r.index < |p.symbols| && p.Known(r.index) == None
    requires p.newIndex[r.index] == 0x100_0000 < |st.records| && st.origins[0x100_0000].Entry() == Some(k)
    ensures LinkRelocs.PartialReloc(r, p).index == 0 && st.origins[0].Entry() != Some(k)
  {
    LateSymbolsAreMistaken(hash, st, k, p, r, LinkRelocs.ExtRel(r.addr, r.index, true, r.pcrel, false, 0));
  }

  /** An entry that stands for no symbol gets the index -2, which names one far behind. */
  lemma NoSymbolIsNamed(p: LinkRelocs.PartialLink, r: LinkRelocs.StdRel)
    requires p.Valid() && r.extern && 0 <= r.index < |p.symbols| && p.Known(r.index) == None && p.newIndex[r.index] == -2
    ensures LinkRelocs.PartialReloc(r, p).index == 0xff_fffe
  {
  }
}
