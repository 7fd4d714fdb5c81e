/**
  What aout_link_write_symbols (aoutx.h) does with one symbol, and with all symbols of an
  input file, as a function of the linker's state; and the invariants of that state.
 */
module SymbolWalk {
  import opened CBytes
  import opened LinkModel
  import opened HeaderScan

  /** Where an output record came from. */
  datatype Origin =
    | FileName                               // the symbol naming an input file
    | FromInput(i: nat, h: Option<nat>)      // symbol `i` of the current input, and its hash entry
    | FromTable(k: nat)                      // an entry written by aout_link_write_other_symbol
  {
    function Entry(): Option<nat> {
      match this
      case FileName => None
      case FromInput(_, h) => h
      case FromTable(k) => Some(k)
    }
  }

  /** The linker's state, as far as symbols go; `records` is the whole output symbol table so far. */
  datatype State = State(written: seq<bool>, indx: seq<int>, includes: set<(string, int)>,
                         records: seq<Nlist>, origins: seq<Origin>)

  /** The state while walking over one input: its entries and the two one-symbol flags. */
  datatype Walk = Walk(st: State, hashes: seq<Option<nat>>, pass: bool, skipNext: bool)

  /** One step: the new state, the symbol's slot of the map, and whether to mark a duplicate header. */
  datatype Stepped = Stepped(w: Walk, slot: int, exclude: bool)

  datatype Input = Input(filename: string, syms: seq<Sym>, sections: Sections)

  ghost predicate HashesIn(hash: seq<HashEntry>, hashes: seq<Option<nat>>) {
    forall i :: 0 <= i < |hashes| && hashes[i].Some? ==> hashes[i].value < |hash|
  }

  ghost predicate Shape(hash: seq<HashEntry>, st: State) {
    |st.written| == |st.indx| == |hash| && |st.records| == |st.origins|
  }

  ghost predicate WalkShape(hash: seq<HashEntry>, input: Input, w: Walk) {
    Shape(hash, w.st) && |w.hashes| == |input.syms| && HashesIn(hash, w.hashes) && LinksDown(hash)
  }

  /** Reading an input file gives debugging symbols no hash entry. */
  ghost predicate StabsHaveNoEntry(input: Input, hashes: seq<Option<nat>>)
    requires |hashes| == |input.syms|
  {
    forall i :: 0 <= i < |hashes| && input.syms[i].typ & N_STAB != 0 ==> hashes[i].None?
  }

  function Emitted(st: State, r: Nlist, o: Origin): State {
    st.(records := st.records + [r], origins := st.origins + [o])
  }

  /** The hash entry's name wins, except over the text of a warning. */
  function SymbolName(hash: seq<HashEntry>, sym: Sym, h: Option<nat>): string
    requires h.Some? ==> h.value < |hash|
  {
    if h.Some? && !hash[h.value].kind.Warning? then hash[h.value].name else sym.name
  }

  function OutName(o: Options, hash: seq<HashEntry>, h: Option<nat>, name: string): string
    requires h.Some? ==> h.value < |hash|
  {
    if !o.keepMemory && h.Some? then hash[h.value].name else name
  }

  /** The symbol is the target of an indirect or warning symbol and goes through unchanged. */
  function PassThrough(o: Options, input: Input, w: Walk, i: nat): Stepped
    requires i < |input.syms|
  {
    var sym := input.syms[i];
    var r := Nlist(sym.name, sym.typ, sym.other, sym.desc, sym.value % TWO_TO_32);
    Stepped(w.(st := Emitted(w.st, r, FromInput(i, None)), pass := false), |w.st.records|, false)
  }

  /** The symbol's entry has been written out already. */
  function AlreadyWritten(hash: seq<HashEntry>, input: Input, w: Walk, i: nat, h: nat): Stepped
    requires WalkShape(hash, input, w) && i < |input.syms| && h < |hash|
  {
    var typ := input.syms[i].typ;
    Stepped(w.(skipNext := Asks(typ)), w.st.indx[h], false)
  }

  function MarkWritten(st: State, h: Option<nat>): State
    requires h.Some? ==> h.value < |st.written|
  {
    if h.Some? then st.(written := st.written[h.value := true]) else st
  }

  /** The entry is given the index of the record about to be written. */
  function GiveIndex(st: State, h: Option<nat>): State
    requires h.Some? ==> h.value < |st.written| && h.value < |st.indx|
  {
    if h.Some? then st.(written := st.written[h.value := true], indx := st.indx[h.value := |st.records|]) else st
  }

  /** The record for a symbol that is neither skipped nor discarded, with its header looked up. */
  function Copy(o: Options, hash: seq<HashEntry>, input: Input, w: Walk, i: nat, h: Option<nat>, name: string, c: Classified)
    : Stepped
    requires i < |input.syms| && (h.Some? ==> h.value < |hash|)
  {
    var sym := input.syms[i];
    var outName := OutName(o, hash, h, name);
    if c.typ == N_BINCL then
      var total := HeaderTotal(input.syms, i + 1, 0) % TWO_TO_64;
      var duplicate := (name, total) in w.st.includes;
      var r := Nlist(outName, if duplicate then N_EXCL else N_BINCL, sym.other, sym.desc, total % TWO_TO_32);
      Stepped(w.(st := Emitted(w.st.(includes := w.st.includes + {(name, total)}), r, FromInput(i, h))),
              |w.st.records|, duplicate)
    else
      var r := Nlist(outName, c.typ, sym.other, sym.desc, c.value % TWO_TO_32);
      Stepped(w.(st := Emitted(w.st, r, FromInput(i, h))), |w.st.records|, false)
  }

  /** One symbol that is not marked: the body of the loop. */
  function Step(o: Options, hash: seq<HashEntry>, input: Input, w: Walk, i: nat): (r: Stepped)
    requires WalkShape(hash, input, w) && i < |input.syms|
    ensures WalkShape(hash, input, r.w)
  {
    if w.pass then PassThrough(o, input, w, i)
    else if w.skipNext then Stepped(w.(skipNext := false), -1, false)
    else
      var sym, h := input.syms[i], w.hashes[i];
      var name, resolved := SymbolName(hash, sym, h), ResolveOption(hash, h);
      var w1 := w.(hashes := w.hashes[i := resolved]);
      if h.Some? && w.st.written[h.value] then AlreadyWritten(hash, input, w1, i, h.value)
      else if Stripped(o, sym.typ, name) then Stepped(w1.(st := MarkWritten(w.st, h)), -1, false)
      else
        var c := Classify(hash, input.sections, sym, resolved);
        if h.None? && Discarded(o, c.typ, name) then Stepped(w1.(pass := false, skipNext := c.skipNext), -1, false)
        else Copy(o, hash, input, w1.(st := GiveIndex(w.st, h), pass := c.pass, skipNext := c.skipNext), i, h, name, c)
  }

  // The body of the loop for a symbol that neither flag applies to, case by case

  lemma StepWritten(o: Options, hash: seq<HashEntry>, input: Input, w: Walk, i: nat)
    requires WalkShape(hash, input, w) && i < |input.syms| && !w.pass && !w.skipNext
    requires w.hashes[i].Some? && w.st.written[w.hashes[i].value]
    ensures var sym, h := input.syms[i], w.hashes[i].value;
      Step(o, hash, input, w, i) ==
        Stepped(Walk(w.st, w.hashes[i := ResolveOption(hash, w.hashes[i])], false, Asks(sym.typ)),
                w.st.indx[h], false)
  {
    hide SymbolName, Stripped;
  }

  lemma StepStripped(o: Options, hash: seq<HashEntry>, input: Input, w: Walk, i: nat)
    requires WalkShape(hash, input, w) && i < |input.syms| && !w.pass && !w.skipNext
    requires !(w.hashes[i].Some? && w.st.written[w.hashes[i].value])
    requires Stripped(o, input.syms[i].typ, SymbolName(hash, input.syms[i], w.hashes[i]))
    ensures Step(o, hash, input, w, i)
         == Stepped(Walk(MarkWritten(w.st, w.hashes[i]), w.hashes[i := ResolveOption(hash, w.hashes[i])], false, false), -1, false)
  {
    hide SymbolName, Stripped, MarkWritten;
  }

  lemma StepKept(o: Options, hash: seq<HashEntry>, input: Input, w: Walk, i: nat)
    requires WalkShape(hash, input, w) && i < |input.syms| && !w.pass && !w.skipNext
    requires !(w.hashes[i].Some? && w.st.written[w.hashes[i].value])
    requires !Stripped(o, input.syms[i].typ, SymbolName(hash, input.syms[i], w.hashes[i]))
    ensures var sym, h := input.syms[i], w.hashes[i];
      var name, resolved := SymbolName(hash, sym, h), ResolveOption(hash, h);
      var c := Classify(hash, input.sections, sym, resolved);
      Step(o, hash, input, w, i) ==
        if h.None? && Discarded(o, c.typ, name) then Stepped(Walk(w.st, w.hashes[i := resolved], false, c.skipNext), -1, false)
        else Copy(o, hash, input, Walk(GiveIndex(w.st, h), w.hashes[i := resolved], c.pass, c.skipNext), i, h, name, c)
  {
    hide SymbolName, Classify, Stripped, Discarded, Copy, GiveIndex;
  }

  /** The walk and the symbol map together; a slot of -1 marks a symbol to leave out. */
  function StepMapped(o: Options, hash: seq<HashEntry>, input: Input, w: Walk, map_: seq<int>, i: nat): (r: (Walk, seq<int>))
    requires WalkShape(hash, input, w) && i < |input.syms| == |map_|
    ensures WalkShape(hash, input, r.0) && |r.1| == |map_|
  {
    if map_[i] == -1 then (w, map_)
    else
      var s := Step(o, hash, input, w, i);
      var slots := map_[i := s.slot];
      (s.w, if s.exclude then Marked(input.syms, slots, i + 1, 0) else slots)
  }

  function WalkTo(o: Options, hash: seq<HashEntry>, input: Input, w: Walk, map_: seq<int>, i: nat, end: nat): (r: (Walk, seq<int>))
    requires WalkShape(hash, input, w) && i <= end <= |input.syms| == |map_|
    ensures WalkShape(hash, input, r.0) && |r.1| == |map_|
    decreases end - i
  {
    if i == end then (w, map_)
    else
      var (w', map') := StepMapped(o, hash, input, w, map_, i);
      WalkTo(o, hash, input, w', map', i + 1, end)
  }

  lemma WalkNone(o: Options, hash: seq<HashEntry>, input: Input, w: Walk, map_: seq<int>, i: nat)
    requires WalkShape(hash, input, w) && i <= |input.syms| == |map_|
    ensures WalkTo(o, hash, input, w, map_, i, i) == (w, map_)
  {
  }

  lemma WalkOne(o: Options, hash: seq<HashEntry>, input: Input, w: Walk, map_: seq<int>, i: nat)
    requires WalkShape(hash, input, w) && i < |input.syms| == |map_|
    ensures WalkTo(o, hash, input, w, map_, i, i + 1) == StepMapped(o, hash, input, w, map_, i)
  {
    hide StepMapped;
  }

  /** The loop's first step, then the rest. */
  lemma WalkFirst(o: Options, hash: seq<HashEntry>, input: Input, w: Walk, map_: seq<int>, i: nat, end: nat)
    requires WalkShape(hash, input, w) && i < end <= |input.syms| == |map_|
    ensures var (w1, map1) := StepMapped(o, hash, input, w, map_, i);
      WalkTo(o, hash, input, w, map_, i, end) == WalkTo(o, hash, input, w1, map1, i + 1, end)
  {
    hide StepMapped, WalkShape;
  }

  lemma {:induction false} WalkSplits(o: Options, hash: seq<HashEntry>, input: Input, w: Walk, map_: seq<int>,
                                      i: nat, mid: nat, end: nat)
    requires WalkShape(hash, input, w) && i <= mid <= end <= |input.syms| == |map_|
    ensures var (w', map') := WalkTo(o, hash, input, w, map_, i, mid);
      WalkTo(o, hash, input, w, map_, i, end) == WalkTo(o, hash, input, w', map', mid, end)
    decreases mid - i
  {
    hide *;
    if i < mid {
      var (w', map') := StepMapped(o, hash, input, w, map_, i);
      WalkFirst(o, hash, input, w, map_, i, mid);
      WalkFirst(o, hash, input, w, map_, i, end);
      WalkSplits(o, hash, input, w', map', i + 1, mid, end);
    } else {
      WalkNone(o, hash, input, w, map_, i);
    }
  }

  /** Whether the file itself gets a symbol. */
  predicate NamesFile(o: Options, input: Input) {
    o.strip != StripAll && (o.strip != StripSome || input.filename in o.keep) && o.discard != DiscardAll
  }

  function WithFileName(o: Options, input: Input, st: State): State {
    if NamesFile(o, input) then
      var text := input.sections.text;
      Emitted(st, Nlist(input.filename, N_TEXT, 0, 0, (text.outVma + text.outOffset) % TWO_TO_32), FileName)
    else st
  }

  /** The symbol map before the loop. */
  function Cleared(n: nat): (r: seq<int>)
    ensures |r| == n && forall i :: 0 <= i < n ==> r[i] == 0
  {
    seq(n, _ => 0)
  }

  /** The whole of aout_link_write_symbols: the final walk and the symbol map. */
  function WriteSymbols(o: Options, hash: seq<HashEntry>, input: Input, hashes: seq<Option<nat>>, st: State): (r: (Walk, seq<int>))
    requires WalkShape(hash, input, Walk(st, hashes, false, false))
    ensures WalkShape(hash, input, r.0) && |r.1| == |input.syms|
  {
    WalkTo(o, hash, input, Walk(WithFileName(o, input, st), hashes, false, false), Cleared(|input.syms|), 0, |input.syms|)
  }

  /** aout_link_write_other_symbol on entry `k`. */
  function WriteOther(o: Options, hash: seq<HashEntry>, st: State, k: nat): (r: State)
    requires Shape(hash, st) && LinksDown(hash) && k < |hash|
    ensures Shape(hash, r)
  {
    var h := if hash[k].kind.Warning? then hash[k].kind.link else k;
    if hash[k].kind.Warning? && hash[h].kind.New? then st
    else if st.written[h] then st
    else
      var st1 := st.(written := st.written[h := true]);
      if st.indx[h] != -2 && (o.strip == StripAll || (o.strip == StripSome && hash[h].name !in o.keep)) then st1
      else
        match OtherRecord(hash[h])
        case None => st1
        case Some(r) => Emitted(st1.(indx := st.indx[h := |st.records|]), r, FromTable(h))
  }

  /** The symbol was stripped, but a reloc turns out to need it. */
  function Need(o: Options, hash: seq<HashEntry>, st: State, k: nat): (r: State)
    requires Shape(hash, st) && LinksDown(hash) && k < |hash|
    ensures Shape(hash, r)
  {
    if st.indx[k] >= 0 then st
    else WriteOther(o, hash, st.(indx := st.indx[k := -2], written := st.written[k := false]), k)
  }
}
