/**
  What a link writes for the symbols of one input file (aout_link_write_symbols in aoutx.h): which
  of them get a record under the strip and discard options, and what the record holds, in the
  numbers of the a.out format.
 */
module SymbolOutput {
  import opened CBytes
  import opened LinkModel
  import opened HeaderScan
  import opened SymbolWalk
  import opened SymbolInvariants

  // ----- Which symbols are written -----

  /** The strip option does not take the symbol away: -S takes what has a stab bit, -s everything, a keep list what is not in it. */
  predicate StripSpares(o: Options, typ: bv8, name: string) {
    && (o.strip == StripDebugger ==> typ & 0xe0 == 0)
    && (o.strip == StripSome ==> name in o.keep)
    && o.strip != StripAll
  }

  /** Nor does the discard option, which spares set elements; -x takes every other local symbol, -X local labels that are no stabs. */
  predicate DiscardSpares(o: Options, typ: bv8, name: string) {
    || (typ & 0x1e == 0x14 || typ & 0x1e == 0x16 || typ & 0x1e == 0x18 || typ & 0x1e == 0x1a)
    || (o.discard != DiscardAll && (o.discard == DiscardL ==> typ & 0xe0 != 0 || !o.isLocalLabel(name)))
  }

  /** A symbol that the loop reaches in this state gets a record. */
  predicate GetsRecord(o: Options, hash: seq<HashEntry>, input: Input, w: Walk, i: nat)
    requires i < |input.syms| == |w.hashes| && (w.hashes[i].Some? ==> w.hashes[i].value < |hash| == |w.st.written|)
  {
    var sym, h := input.syms[i], w.hashes[i];
    var name := if h.Some? && !hash[h.value].kind.Warning? then hash[h.value].name else sym.name;
    || w.pass
    || (&& !w.skipNext && (h.Some? ==> !w.st.written[h.value])
        && StripSpares(o, sym.typ, name) && (h.None? ==> DiscardSpares(o, sym.typ, name)))
  }

  /** What the loop puts in the map for the symbol: its record's index, or that of its entry's record if it has one, or -1. */
  function SlotFor(o: Options, hash: seq<HashEntry>, input: Input, w: Walk, i: nat): int
    requires i < |input.syms| == |w.hashes| && Shape(hash, w.st) && (w.hashes[i].Some? ==> w.hashes[i].value < |hash|)
  {
    var h := w.hashes[i];
    if GetsRecord(o, hash, input, w, i) then |w.st.records|
    else if !w.skipNext && h.Some? && w.st.written[h.value] then w.st.indx[h.value]
    else -1
  }

  /** The record at `r` is that of symbol `i` of the current input. */
  predicate IsOf(origin: Origin, i: nat) {
    origin.FromInput? && origin.i == i
  }

  lemma SparesMean(o: Options, typ: bv8, name: string)
    ensures StripSpares(o, typ, name) <==> !Stripped(o, typ, name)
    ensures DiscardSpares(o, typ, name) <==> !Discarded(o, typ, name)
  {
  }

  /** Without an entry the type is kept. */
  lemma LocalTypeStays(hash: seq<HashEntry>, s: Sections, sym: Sym)
    ensures Classify(hash, s, sym, None).typ == sym.typ
  {
    hide Moved, SetElementValue;
  }

  lemma StepGivesRecord(o: Options, hash: seq<HashEntry>, input: Input, w: Walk, i: nat)
    requires WalkShape(hash, input, w) && i < |input.syms|
    ensures var st, st' := w.st, Step(o, hash, input, w, i).w.st;
      if GetsRecord(o, hash, input, w, i) then
        && |st'.records| == |st.records| + 1 && st.records <= st'.records
        && st'.origins == st.origins + [st'.origins[|st.records|]] && IsOf(st'.origins[|st.records|], i)
      else st'.records == st.records && st'.origins == st.origins
    ensures Step(o, hash, input, w, i).slot == SlotFor(o, hash, input, w, i)
  {
    var sym, h := input.syms[i], w.hashes[i];
    SparesMean(o, sym.typ, SymbolName(hash, sym, h));
    if h.None? {
      LocalTypeStays(hash, input.sections, sym);
    }
    hide Classify, Stripped, Discarded, StripSpares, DiscardSpares, HeaderTotal, ResolveOption;
  }

  /** From `st` to `st'` only symbols from `i` on, and below `end`, got records. */
  ghost predicate OnlyFrom(st: State, st': State, i: nat, end: nat) {
    && |st.records| == |st.origins| && |st'.records| == |st'.origins| && Extends(st', st)
    && forall r {:trigger st'.origins[r]} :: |st.records| <= r < |st'.records| ==> st'.origins[r].FromInput? && i <= st'.origins[r].i < end
  }

  lemma MappedGivesRecord(o: Options, hash: seq<HashEntry>, input: Input, w: Walk, map_: seq<int>, i: nat)
    requires WalkShape(hash, input, w) && i < |input.syms| == |map_|
    ensures var (w', map') := StepMapped(o, hash, input, w, map_, i);
      && OnlyFrom(w.st, w'.st, i, i + 1) && |w'.st.records| <= |w.st.records| + 1
      && (|w'.st.records| > |w.st.records| <==> map_[i] != -1 && GetsRecord(o, hash, input, w, i))
      && (map_[i] != -1 ==> w'.st == Step(o, hash, input, w, i).w.st)
      && (forall j :: 0 <= j < i ==> map'[j] == map_[j]) && map'[i] == (if map_[i] == -1 then -1 else SlotFor(o, hash, input, w, i))
      && |w'.hashes| == |w.hashes| && forall j :: 0 <= j < |w.hashes| && j != i ==> w'.hashes[j] == w.hashes[j]
  {
    StepGivesRecord(o, hash, input, w, i);
    StepHashes(o, hash, input, w, i);
    hide Step, GetsRecord, SlotFor;
  }

  lemma {:induction false} WalkGivesRecords(o: Options, hash: seq<HashEntry>, input: Input, w: Walk, map_: seq<int>, i: nat, end: nat)
    requires WalkShape(hash, input, w) && i <= end <= |input.syms| == |map_|
    ensures var (w', map') := WalkTo(o, hash, input, w, map_, i, end);
      && (forall j :: 0 <= j < i ==> map'[j] == map_[j])
      && OnlyFrom(w.st, w'.st, i, end) && |w'.hashes| == |w.hashes|
      && forall j :: end <= j < |w.hashes| ==> w'.hashes[j] == w.hashes[j]
    decreases end - i
  {
    hide *;
    if i < end {
      var (w1, map1) := StepMapped(o, hash, input, w, map_, i);
      MappedGivesRecord(o, hash, input, w, map_, i);
      WalkFirst(o, hash, input, w, map_, i, end);
      WalkGivesRecords(o, hash, input, w1, map1, i + 1, end);
      OnlyFromBoth(w.st, w1.st, WalkTo(o, hash, input, w1, map1, i + 1, end).0.st, i, end);
    } else {
      WalkNone(o, hash, input, w, map_, i);
      OnlyFromNothing(hash, input, w, i);
    }
  }

  lemma OnlyFromBoth(st: State, st1: State, st2: State, i: nat, end: nat)
    requires OnlyFrom(st, st1, i, i + 1) && OnlyFrom(st1, st2, i + 1, end) && i < end
    ensures OnlyFrom(st, st2, i, end)
  {
    forall r | |st.records| <= r < |st2.records| ensures st2.origins[r].FromInput? && i <= st2.origins[r].i < end {
      assert r < |st1.records| ==> st2.origins[r] == st1.origins[r];
    }
  }

  lemma OnlyFromNothing(hash: seq<HashEntry>, input: Input, w: Walk, i: nat)
    requires WalkShape(hash, input, w)
    ensures OnlyFrom(w.st, w.st, i, i)
  {
  }

  /** The state and the map when the loop comes to symbol `i`. */
  function Before(o: Options, hash: seq<HashEntry>, input: Input, hashes: seq<Option<nat>>, st: State, i: nat): (r: (Walk, seq<int>))
    requires WalkShape(hash, input, Walk(st, hashes, false, false)) && i <= |input.syms|
    ensures WalkShape(hash, input, r.0) && |r.1| == |input.syms|
  {
    WalkTo(o, hash, input, Walk(WithFileName(o, input, st), hashes, false, false), Cleared(|input.syms|), 0, i)
  }

  /**
    Over a whole file: a symbol has a record if and only if it was not marked as part of a
    duplicate header, and it is the target of an indirect symbol or warning that is passed
    through, or it is none that is skipped, its entry has not been written, and neither option
    takes it.  That record is the only one, and the one the loop wrote when it came to the symbol;
    and the symbol map leads to it.
   */
  lemma WrittenExactly(o: Options, hash: seq<HashEntry>, input: Input, hashes: seq<Option<nat>>, st: State, i: nat)
    requires WalkShape(hash, input, Walk(st, hashes, false, false)) && i < |input.syms|
    ensures var (w0, map0) := Before(o, hash, input, hashes, st, i);
      var (w, map_) := WriteSymbols(o, hash, input, hashes, st);
      var st' := w.st;
      var written := map0[i] != -1 && GetsRecord(o, hash, input, w0, i);
      && w0.hashes[i] == hashes[i] && |st.records| <= |w0.st.records|
      && map_[i] == (if map0[i] == -1 then -1 else SlotFor(o, hash, input, w0, i))
      && (written ==>
            && |w0.st.records| < |st'.records| && IsOf(st'.origins[|w0.st.records|], i)
            && var st1 := Step(o, hash, input, w0, i).w.st;
               |st1.records| == |w0.st.records| + 1 && st'.records[|w0.st.records|] == st1.records[|w0.st.records|])
      && forall r :: |st.records| <= r < |st'.records| && IsOf(st'.origins[r], i) ==> written && r == |w0.st.records|
  {
    hide *;
    var n := |input.syms|;
    StartIs(o, hash, input, hashes, st);
    var w, map_ := Walk(WithFileName(o, input, st), hashes, false, false), Cleared(n);
    var (w0, map0) := Before(o, hash, input, hashes, st, i);
    WalkGivesRecords(o, hash, input, w, map_, 0, i);
    var (w1, map1) := StepMapped(o, hash, input, w0, map0, i);
    MappedGivesRecord(o, hash, input, w0, map0, i);
    WalkSplits(o, hash, input, w, map_, 0, i, n);
    WalkFirst(o, hash, input, w0, map0, i, n);
    WalkGivesRecords(o, hash, input, w1, map1, i + 1, n);
    BeforeIs(o, hash, input, hashes, st, i);
    OneRecord(st, w.st, w0.st, w1.st, WriteSymbols(o, hash, input, hashes, st).0.st, i, n);
  }

  lemma StartIs(o: Options, hash: seq<HashEntry>, input: Input, hashes: seq<Option<nat>>, st: State)
    requires WalkShape(hash, input, Walk(st, hashes, false, false))
    ensures var w := Walk(WithFileName(o, input, st), hashes, false, false);
      && WalkShape(hash, input, w) && |hashes| == |input.syms|
      && WriteSymbols(o, hash, input, hashes, st) == WalkTo(o, hash, input, w, Cleared(|input.syms|), 0, |input.syms|)
      && |w.st.records| == |w.st.origins| && Extends(w.st, st) && |st.records| == |st.origins|
      && forall r :: |st.records| <= r < |w.st.records| ==> w.st.origins[r] == FileName
  {
    hide WalkTo, LinksDown, HashesIn, NamesFile;
  }

  lemma BeforeIs(o: Options, hash: seq<HashEntry>, input: Input, hashes: seq<Option<nat>>, st: State, i: nat)
    requires WalkShape(hash, input, Walk(st, hashes, false, false)) && i <= |input.syms|
    ensures Before(o, hash, input, hashes, st, i)
         == WalkTo(o, hash, input, Walk(WithFileName(o, input, st), hashes, false, false), Cleared(|input.syms|), 0, i)
  {
    hide WalkTo, WalkShape;
  }

  lemma OneRecord(st: State, start: State, st0: State, st1: State, st': State, i: nat, n: nat)
    requires |st.records| == |st.origins| && Extends(start, st) && |start.records| == |start.origins|
    requires forall r :: |st.records| <= r < |start.records| ==> start.origins[r] == FileName
    requires OnlyFrom(start, st0, 0, i) && OnlyFrom(st0, st1, i, i + 1) && OnlyFrom(st1, st', i + 1, n)
    requires |st1.records| <= |st0.records| + 1
    ensures |st.records| <= |st0.records|
    ensures |st1.records| > |st0.records| ==>
      |st0.records| < |st'.records| && IsOf(st'.origins[|st0.records|], i) && st'.records[|st0.records|] == st1.records[|st0.records|]
    ensures forall r :: |st.records| <= r < |st'.records| && IsOf(st'.origins[r], i) ==> |st1.records| > |st0.records| && r == |st0.records|
  {
    assert |st1.records| > |st0.records| ==> st'.records[|st0.records|] == st1.records[|st0.records|];
    OriginAt(st0, st1, i, i + 1, |st0.records|);
    OriginAt(st1, st', i + 1, n, |st0.records|);
    forall r | |st.records| <= r < |st'.records| && IsOf(st'.origins[r], i) ensures |st1.records| > |st0.records| && r == |st0.records| {
      OriginAt(start, st0, 0, i, r);
      OriginAt(st0, st1, i, i + 1, r);
      OriginAt(st1, st', i + 1, n, r);
    }
    hide OnlyFrom;
  }

  lemma OriginAt(st: State, st': State, i: nat, end: nat, r: nat)
    requires OnlyFrom(st, st', i, end)
    ensures r < |st.origins| ==> r < |st'.origins| && st'.origins[r] == st.origins[r]
    ensures |st.origins| <= r < |st'.origins| ==> st'.origins[r].FromInput? && i <= st'.origins[r].i < end
    ensures |st.origins| == |st.records| <= |st'.records| == |st'.origins|
  {
    assert r < |st.origins| ==> st'.origins[r] == st.origins[r];
  }

  // ----- What a record holds -----

  /** Name, other and desc; and a symbol that is passed through is taken as it is. */
  lemma RecordKeeps(o: Options, hash: seq<HashEntry>, input: Input, w: Walk, i: nat)
    requires WalkShape(hash, input, w) && i < |input.syms| && GetsRecord(o, hash, input, w, i)
    ensures |Step(o, hash, input, w, i).w.st.records| == |w.st.records| + 1
    ensures var rec, sym, h := Step(o, hash, input, w, i).w.st.records[|w.st.records|], input.syms[i], w.hashes[i];
      && rec.other == sym.other && rec.desc == sym.desc
      && rec.name == (if w.pass || h.None? || (hash[h.value].kind.Warning? && o.keepMemory) then sym.name else hash[h.value].name)
      && (w.pass ==> rec.typ == sym.typ && rec.value == sym.value % 0x1_0000_0000)
  {
    StepGivesRecord(o, hash, input, w, i);
    SparesMean(o, input.syms[i].typ, SymbolName(hash, input.syms[i], w.hashes[i]));
    if w.hashes[i].None? {
      LocalTypeStays(hash, input.sections, input.syms[i]);
    }
    hide Classify, Stripped, Discarded, StripSpares, DiscardSpares, HeaderTotal, ResolveOption;
  }

  /** Anything but a header is written with the type and the value it is classified as. */
  lemma RecordClassified(o: Options, hash: seq<HashEntry>, input: Input, w: Walk, i: nat)
    requires WalkShape(hash, input, w) && i < |input.syms| && GetsRecord(o, hash, input, w, i) && !w.pass
    requires Classify(hash, input.sections, input.syms[i], ResolveOption(hash, w.hashes[i])).typ != 0x82
    ensures |Step(o, hash, input, w, i).w.st.records| == |w.st.records| + 1
    ensures var rec := Step(o, hash, input, w, i).w.st.records[|w.st.records|];
      var c := Classify(hash, input.sections, input.syms[i], ResolveOption(hash, w.hashes[i]));
      rec.typ == c.typ && rec.value == c.value % 0x1_0000_0000
  {
    StepGivesRecord(o, hash, input, w, i);
    SparesMean(o, input.syms[i].typ, SymbolName(hash, input.syms[i], w.hashes[i]));
    if w.hashes[i].None? {
      LocalTypeStays(hash, input.sections, input.syms[i]);
    }
    hide Classify, Stripped, Discarded, StripSpares, DiscardSpares, HeaderTotal, ResolveOption;
  }

  /**
    Types and values of symbols that are no headers.  Text, data and BSS symbols, also weak ones
    and stabs of these classes, move with their section; absolute symbols, other stabs, warnings,
    and indirect symbols without a definition keep their values; set elements move.
   */
  lemma LocalRecord(o: Options, hash: seq<HashEntry>, input: Input, w: Walk, i: nat)
    requires WalkShape(hash, input, w) && i < |input.syms| && GetsRecord(o, hash, input, w, i) && !w.pass
    requires input.syms[i].typ != 0x82
    ensures |Step(o, hash, input, w, i).w.st.records| == |w.st.records| + 1
    ensures var rec, sym, h := Step(o, hash, input, w, i).w.st.records[|w.st.records|], input.syms[i], w.hashes[i];
      var typ, base, text, data, bss := sym.typ, sym.typ & 0x1e, input.sections.text, input.sections.data, input.sections.bss;
      var inText, inData, inBss := base == 0x04 || typ == 0x0f, base == 0x06 || typ == 0x10, base == 0x08 || typ == 0x11;
      var inPlace := inText || inData || inBss || base == 0x02 || typ == 0x0e;
      && (inPlace || typ & 0xe0 != 0 || h.None? ==> rec.typ == typ)
      && (inText ==> rec.value == (text.outVma + text.outOffset + sym.value - text.vma) % 0x1_0000_0000)
      && (inData ==> rec.value == (data.outVma + data.outOffset + sym.value - data.vma) % 0x1_0000_0000)
      && (inBss ==> rec.value == (bss.outVma + bss.outOffset + sym.value - bss.vma) % 0x1_0000_0000)
      && (base == 0x02 || typ == 0x0e || typ == 0x1e || (base == 0x0a && h.None?) ==> rec.value == sym.value % 0x1_0000_0000)
      && (!inPlace && typ & 0xe0 != 0 ==> rec.value == sym.value % 0x1_0000_0000)
      && (h.None? && typ & 0xe0 == 0 ==>
            && (base == 0x16 ==> rec.value == (text.outVma + text.outOffset + sym.value - text.vma) % 0x1_0000_0000)
            && (base == 0x18 ==> rec.value == (data.outVma + data.outOffset + sym.value - data.vma) % 0x1_0000_0000)
            && (base == 0x1a ==> rec.value == (bss.outVma + bss.outOffset + sym.value - bss.vma) % 0x1_0000_0000)
            && (base == 0x14 ==> rec.value == sym.value % 0x1_0000_0000)
            && (base == 0x00 ==> rec.value == 0))
  {
    NoOtherHeader(hash, input.sections, input.syms[i], ResolveOption(hash, w.hashes[i]));
    RecordClassified(o, hash, input, w, i);
    hide Step, GetsRecord, HeaderTotal, FromEntry, WalkShape;
  }

  /** No type but its own becomes that of a header. */
  lemma NoOtherHeader(hash: seq<HashEntry>, s: Sections, sym: Sym, resolved: Option<nat>)
    requires sym.typ != 0x82 && (resolved.Some? ==> resolved.value < |hash|)
    ensures Classify(hash, s, sym, resolved).typ != 0x82
  {
    hide Moved, SetElementValue;
    if resolved.Some? && sym.typ & N_STAB == 0 {
      NotFromEntry(hash[resolved.value].kind, sym.typ);
    }
    hide FromEntry;
  }

  lemma NotFromEntry(kind: Kind, typ: bv8)
    requires typ & N_STAB == 0
    ensures FromEntry(kind, typ).typ != 0x82
  {
  }

  /** A reference is written as what the table says of it; and so is an entry no input file wrote. */
  lemma ReferenceRecord(o: Options, hash: seq<HashEntry>, input: Input, w: Walk, i: nat)
    requires WalkShape(hash, input, w) && i < |input.syms| && GetsRecord(o, hash, input, w, i) && !w.pass
    requires input.syms[i].typ == 0x01 && w.hashes[i].Some?
    ensures |Step(o, hash, input, w, i).w.st.records| == |w.st.records| + 1
    ensures var rec := Step(o, hash, input, w, i).w.st.records[|w.st.records|];
      TableSays(hash[Resolve(hash, w.hashes[i].value)].kind, rec.typ, rec.value)
  {
    NoOtherHeader(hash, input.sections, input.syms[i], ResolveOption(hash, w.hashes[i]));
    RecordClassified(o, hash, input, w, i);
    ReferenceIsTables(hash, input.sections, input.syms[i], Resolve(hash, w.hashes[i].value));
    hide Step, GetsRecord, HeaderTotal, FromEntry, WalkShape, TableSays, Classify;
  }

  lemma ReferenceIsTables(hash: seq<HashEntry>, s: Sections, sym: Sym, k: nat)
    requires k < |hash| && sym.typ == 0x01
    ensures var c := Classify(hash, s, sym, Some(k)); TableSays(hash[k].kind, c.typ, c.value % 0x1_0000_0000)
  {
    hide Moved, SetElementValue;
  }

  /** Type and value for each kind of entry; a definition counts from the start of its output section. */
  predicate TableSays(kind: Kind, typ: bv8, value: int) {
    match kind
    case Defined(v, place, out) =>
      value == (v + place) % 0x1_0000_0000
      && typ == (match out case OutText => 0x05 case OutData => 0x07 case OutBss => 0x09 case OutOther => 0x03)
    case DefWeak(v, place, out) =>
      value == (v + place) % 0x1_0000_0000
      && typ == (match out case OutText => 0x0f case OutData => 0x11 case OutBss => 0x11 case OutOther => 0x0f)
    case Common(size) => typ == 0x01 && value == size % 0x1_0000_0000
    case Undefined => typ == 0x01 && value == 0
    case UndefWeak => typ == 0x0d && value == 0
    case _ => true
  }

  /** aout_link_write_other_symbol: an entry, or a warning's, is written unless it was, or the strip option takes it and no reloc needs it. */
  lemma TableRecord(o: Options, hash: seq<HashEntry>, st: State, k: nat)
    requires Shape(hash, st) && LinksDown(hash) && k < |hash|
    ensures var h := if hash[k].kind.Warning? then hash[k].kind.link else k;
      var st', spared := WriteOther(o, hash, st, k), o.strip != StripAll && (o.strip == StripSome ==> hash[h].name in o.keep);
      var symbol := !hash[h].kind.New? && !hash[h].kind.Indirect? && !hash[h].kind.Warning?;
      if !st.written[h] && (st.indx[h] == -2 || spared) && symbol then
        && |st'.records| == |st.records| + 1 && st'.records[..|st.records|] == st.records && st'.indx[h] == |st.records|
        && var rec := st'.records[|st.records|];
           rec.name == hash[h].name && rec.other == 0 && rec.desc == 0 && TableSays(hash[h].kind, rec.typ, rec.value)
      else st'.records == st.records
  {
  }

  /** The symbol naming the file is written first: a text symbol at the start of the file's text. */
  lemma FileRecord(o: Options, input: Input, st: State)
    ensures var st', text := WithFileName(o, input, st), input.sections.text;
      if o.strip != StripAll && (o.strip == StripSome ==> input.filename in o.keep) && o.discard != DiscardAll then
        st'.records == st.records + [Nlist(input.filename, 0x04, 0, 0, (text.outVma + text.outOffset) % 0x1_0000_0000)]
      else st' == st
  {
  }

  /**
    What a symbol means for the next one.  A warning, or an indirect symbol without a definition,
    has the next one passed through; an indirect symbol with one, or either kind if its entry has
    been written, has it skipped.
   */
  lemma NextSymbol(o: Options, hash: seq<HashEntry>, input: Input, w: Walk, i: nat)
    requires WalkShape(hash, input, w) && i < |input.syms| && !(w.pass && w.skipNext)
    requires w.hashes[i].Some? ==> input.syms[i].typ & 0xe0 == 0
    ensures var w', typ, h := Step(o, hash, input, w, i).w, input.syms[i].typ, w.hashes[i];
      var free := !w.pass && !w.skipNext;
      var indirect, defined := typ & 0x1e == 0x0a,
          h.Some? && (var kind := hash[Resolve(hash, h.value)].kind; kind.Defined? || kind.DefWeak? || kind.Common?);
      var written := h.Some? && w.st.written[h.value] && (typ == 0x1e || indirect);
      && (w'.pass <==> free && GetsRecord(o, hash, input, w, i) && (typ == 0x1e || (indirect && !defined)))
      && (w'.skipNext <==> free && (written || (GetsRecord(o, hash, input, w, i) && indirect && defined)))
  {
    var sym, h := input.syms[i], w.hashes[i];
    SparesMean(o, sym.typ, SymbolName(hash, sym, h));
    FlagsClassified(hash, input.sections, sym, ResolveOption(hash, h));
    if h.None? {
      LocalTypeStays(hash, input.sections, sym);
    }
    hide Classify, Stripped, Discarded, StripSpares, DiscardSpares, HeaderTotal, SymbolName, HasDefinition;
  }

  lemma FlagsClassified(hash: seq<HashEntry>, s: Sections, sym: Sym, resolved: Option<nat>)
    requires resolved.Some? ==> resolved.value < |hash| && sym.typ & 0xe0 == 0
    ensures var c, indirect := Classify(hash, s, sym, resolved), sym.typ & 0x1e == 0x0a;
      var defined := resolved.Some? && (var kind := hash[resolved.value].kind; kind.Defined? || kind.DefWeak? || kind.Common?);
      (c.pass <==> sym.typ == 0x1e || (indirect && !defined)) && (c.skipNext <==> indirect && defined)
  {
    hide Moved, SetElementValue;
  }
}
