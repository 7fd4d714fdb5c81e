/**
  What every step of a link keeps: the correspondence between hash entries and output
  records, and the meaning of the symbol map.
 */
module SymbolInvariants {
  import opened CBytes
  import opened LinkModel
  import opened HeaderScan
  import opened SymbolWalk

  /** An entry's index, when it has one, is that of the one record written for it. */
  ghost predicate EntryOk(hash: seq<HashEntry>, st: State, k: nat)
    requires Shape(hash, st) && k < |hash|
  {
    && st.indx[k] >= -2
    && (st.indx[k] >= 0 ==> st.written[k] && st.indx[k] < |st.records| && st.origins[st.indx[k]].Entry() == Some(k))
  }

  /**
    A record's entry, when it has one, points back at the record and gave it its name; and if the
    record was written from the table, type and address as well.
   */
  ghost predicate RecordOk(hash: seq<HashEntry>, st: State, r: nat)
    requires Shape(hash, st) && r < |st.records|
  {
    match st.origins[r].Entry()
    case None => true
    case Some(k) =>
      && k < |hash| && st.indx[k] == r && (hash[k].kind.Warning? || st.records[r].name == hash[k].name)
      && (st.origins[r].FromTable? ==> OtherRecord(hash[k]) == Some(st.records[r]))
  }

  ghost predicate Coherent(hash: seq<HashEntry>, st: State) {
    && Shape(hash, st)
    && (forall k {:trigger EntryOk(hash, st, k)} :: 0 <= k < |hash| ==> EntryOk(hash, st, k))
    && (forall r {:trigger RecordOk(hash, st, r)} :: 0 <= r < |st.records| ==> RecordOk(hash, st, r))
  }

  /** The state in which a link starts. */
  function Initial(hash: seq<HashEntry>): State {
    State(seq(|hash|, _ => false), seq(|hash|, _ => -1), {}, [], [])
  }

  lemma InitialIsCoherent(hash: seq<HashEntry>)
    ensures Coherent(hash, Initial(hash))
  {
    forall k | 0 <= k < |hash| ensures EntryOk(hash, Initial(hash), k) {
    }
  }

  /** No entry has two records. */
  lemma AtMostOneRecord(hash: seq<HashEntry>, st: State, r: nat, r': nat)
    requires Coherent(hash, st) && r < |st.records| && r' < |st.records|
    requires st.origins[r].Entry().Some? && st.origins[r].Entry() == st.origins[r'].Entry()
    ensures r == r'
  {
    assert RecordOk(hash, st, r) && RecordOk(hash, st, r');
  }

  // ----- One change at a time -----

  /** A record with no entry behind it. */
  lemma EmitAnonymous(hash: seq<HashEntry>, st: State, rec: Nlist, o: Origin)
    requires Coherent(hash, st) && o.Entry() == None
    ensures Coherent(hash, Emitted(st, rec, o))
  {
    var st' := Emitted(st, rec, o);
    forall k | 0 <= k < |hash| ensures EntryOk(hash, st', k) {
      assert EntryOk(hash, st, k);
    }
    forall r | 0 <= r < |st'.records| ensures RecordOk(hash, st', r) {
      assert r < |st.records| ==> RecordOk(hash, st, r);
    }
  }

  /** The record of an entry that had none. */
  lemma EmitEntry(hash: seq<HashEntry>, st: State, rec: Nlist, o: Origin, h: nat)
    requires Coherent(hash, st) && h < |hash| && o.Entry() == Some(h) && st.indx[h] < 0
    requires hash[h].kind.Warning? || rec.name == hash[h].name
    requires o.FromTable? ==> OtherRecord(hash[h]) == Some(rec)
    ensures Coherent(hash, Emitted(GiveIndex(st, Some(h)), rec, o))
  {
    var st' := Emitted(GiveIndex(st, Some(h)), rec, o);
    forall k | 0 <= k < |hash| ensures EntryOk(hash, st', k) {
      assert EntryOk(hash, st, k);
    }
    forall r | 0 <= r < |st'.records| ensures RecordOk(hash, st', r) {
      assert r < |st.records| ==> RecordOk(hash, st, r);
    }
  }

  /** Flags of an entry without a record may change freely. */
  lemma ChangeFlags(hash: seq<HashEntry>, st: State, h: nat, written: bool, indx: int)
    requires Coherent(hash, st) && h < |hash| && -2 <= indx < 0
    requires st.indx[h] < 0
    ensures Coherent(hash, st.(written := st.written[h := written], indx := st.indx[h := indx]))
  {
    var st' := st.(written := st.written[h := written], indx := st.indx[h := indx]);
    forall k | 0 <= k < |hash| ensures EntryOk(hash, st', k) {
      assert EntryOk(hash, st, k);
    }
    forall r | 0 <= r < |st'.records| ensures RecordOk(hash, st', r) {
      assert RecordOk(hash, st, r);
    }
  }

  lemma IncludesDoNotMatter(hash: seq<HashEntry>, st: State, includes: set<(string, int)>)
    requires Coherent(hash, st)
    ensures Coherent(hash, st.(includes := includes))
  {
    var st' := st.(includes := includes);
    forall k | 0 <= k < |hash| ensures EntryOk(hash, st', k) {
      assert EntryOk(hash, st, k);
    }
    forall r | 0 <= r < |st'.records| ensures RecordOk(hash, st', r) {
      assert RecordOk(hash, st, r);
    }
  }

  lemma UnwrittenHasNoRecord(hash: seq<HashEntry>, st: State, h: nat)
    requires Coherent(hash, st) && h < |hash| && !st.written[h]
    ensures -2 <= st.indx[h] < 0
  {
    assert EntryOk(hash, st, h);
  }

  /** Marking an entry as written keeps coherence whether or not it has a record. */
  lemma MarkKeeps(hash: seq<HashEntry>, st: State, h: Option<nat>)
    requires Coherent(hash, st) && (h.Some? ==> h.value < |hash| && !st.written[h.value])
    ensures Coherent(hash, MarkWritten(st, h))
  {
    if h.Some? {
      UnwrittenHasNoRecord(hash, st, h.value);
      ChangeFlags(hash, st, h.value, true, st.indx[h.value]);
      assert st.indx[h.value := st.indx[h.value]] == st.indx;
    }
  }

  // ----- The operations -----

  lemma CopyKeeps(o: Options, hash: seq<HashEntry>, input: Input, w: Walk, st: State, i: nat, h: Option<nat>, c: Classified)
    requires Coherent(hash, st) && i < |input.syms|
    requires h.Some? ==> h.value < |hash| && !st.written[h.value]
    requires w.st == GiveIndex(st, h)
    ensures var s := Copy(o, hash, input, w, i, h, SymbolName(hash, input.syms[i], h), c);
      && Coherent(hash, s.w.st) && s.slot == |st.records| && |s.w.st.records| == |st.records| + 1
      && s.w.st.origins == st.origins + [FromInput(i, h)]
  {
    var name := SymbolName(hash, input.syms[i], h);
    var s := Copy(o, hash, input, w, i, h, name, c);
    var rec := s.w.st.records[|st.records|];
    var st1 := st.(includes := s.w.st.includes);
    IncludesDoNotMatter(hash, st, st1.includes);
    if h.Some? {
      UnwrittenHasNoRecord(hash, st1, h.value);
      EmitEntry(hash, st1, rec, FromInput(i, h), h.value);
    } else {
      EmitAnonymous(hash, st1, rec, FromInput(i, h));
    }
    assert s.w.st == Emitted(GiveIndex(st1, h), rec, FromInput(i, h));
  }

  /** The records so far are kept. */
  ghost predicate Extends(st': State, st: State) {
    st.records <= st'.records && st.origins <= st'.origins
  }

  /** A slot is a stripped marker, or the index of the symbol's own record or of its entry's. */
  ghost predicate RightSlot(st: State, base: nat, i: nat, h: Option<nat>, slot: int)
    requires |st.records| == |st.origins|
  {
    || slot == -1 || slot == -2
    || (0 <= slot < |st.records| &&
        ((slot >= base && st.origins[slot] == FromInput(i, None)) || (h.Some? && st.origins[slot].Entry() == h)))
  }

  lemma StepKeeps(o: Options, hash: seq<HashEntry>, input: Input, w: Walk, i: nat, base: nat)
    requires WalkShape(hash, input, w) && i < |input.syms| && Coherent(hash, w.st) && base <= |w.st.records|
    ensures var s := Step(o, hash, input, w, i);
      && Coherent(hash, s.w.st) && Extends(s.w.st, w.st)
      && |s.w.st.records| <= |w.st.records| + 1
      && RightSlot(s.w.st, base, i, w.hashes[i], s.slot)
      && forall j :: 0 <= j < |w.hashes| && j != i ==> s.w.hashes[j] == w.hashes[j]
  {
    var s := Step(o, hash, input, w, i);
    var sym, h := input.syms[i], w.hashes[i];
    if w.pass {
      EmitAnonymous(hash, w.st, s.w.st.records[|w.st.records|], FromInput(i, None));
    } else if w.skipNext {
    } else if h.Some? && w.st.written[h.value] {
      assert EntryOk(hash, w.st, h.value);
    } else {
      var name, resolved := SymbolName(hash, sym, h), ResolveOption(hash, h);
      var c := Classify(hash, input.sections, sym, resolved);
      if Stripped(o, sym.typ, name) {
        MarkKeeps(hash, w.st, h);
      } else if h.None? && Discarded(o, c.typ, name) {
      } else {
        var w1 := w.(hashes := w.hashes[i := resolved], st := GiveIndex(w.st, h), pass := c.pass, skipNext := c.skipNext);
        CopyKeeps(o, hash, input, w1, w.st, i, h, c);
        CopyExtends(o, hash, input, w1, w.st, i, h, name, c);
      }
    }
  }

  lemma CopyExtends(o: Options, hash: seq<HashEntry>, input: Input, w: Walk, st: State, i: nat, h: Option<nat>, name: string, c: Classified)
    requires i < |input.syms| && (h.Some? ==> h.value < |hash|) && Shape(hash, st)
    requires w.st == GiveIndex(st, h)
    ensures Extends(Copy(o, hash, input, w, i, h, name, c).w.st, st)
    ensures Copy(o, hash, input, w, i, h, name, c).w.hashes == w.hashes
  {
  }

  /** The map while walking: done below `i`, untouched or marked from `i` on. */
  ghost predicate MapOk(st: State, base: nat, hashes: seq<Option<nat>>, map_: seq<int>, i: nat)
    requires |st.records| == |st.origins| && |map_| == |hashes|
  {
    && (forall j :: 0 <= j < i && j < |map_| ==> RightSlot(st, base, j, hashes[j], map_[j]))
    && (forall j :: i <= j < |map_| ==> map_[j] == 0 || map_[j] == -1)
  }

  lemma RightSlotsStay(st: State, st': State, base: nat, i: nat, h: Option<nat>, slot: int)
    requires |st.records| == |st.origins| && |st'.records| == |st'.origins| && Extends(st', st)
    requires RightSlot(st, base, i, h, slot)
    ensures RightSlot(st', base, i, h, slot)
  {
  }

  lemma MappedStepKeeps(o: Options, hash: seq<HashEntry>, input: Input, w: Walk, map_: seq<int>, hashes: seq<Option<nat>>,
                        base: nat, i: nat)
    requires WalkShape(hash, input, w) && i < |input.syms| == |map_| == |hashes|
    requires Coherent(hash, w.st) && base <= |w.st.records| && MapOk(w.st, base, hashes, map_, i)
    requires w.hashes[i..] == hashes[i..]
    ensures var (w', map') := StepMapped(o, hash, input, w, map_, i);
      && Coherent(hash, w'.st) && Extends(w'.st, w.st) && |w'.st.records| <= |w.st.records| + 1
      && MapOk(w'.st, base, hashes, map', i + 1)
      && w'.hashes[i + 1..] == hashes[i + 1..]
  {
    assert w.hashes[i] == w.hashes[i..][0] == hashes[i];
    StepKeeps(o, hash, input, w, i, base);
    var (w', map') := StepMapped(o, hash, input, w, map_, i);
    var s := Step(o, hash, input, w, i);
    assert map_[i] != -1 ==> map'[i] == s.slot;
    hide StepMapped, Step, RightSlot, Extends;
    forall j | 0 <= j < i ensures RightSlot(w'.st, base, j, hashes[j], map'[j]) {
      RightSlotsStay(w.st, w'.st, base, j, hashes[j], map_[j]);
    }
    forall j | i + 1 <= j < |hashes| ensures w'.hashes[j] == hashes[j] {
      assert w.hashes[i..][j - i] == hashes[i..][j - i];
    }
  }

  lemma {:induction false} WalkKeeps(o: Options, hash: seq<HashEntry>, input: Input, w: Walk, map_: seq<int>,
                                     hashes: seq<Option<nat>>, base: nat, i: nat)
    requires WalkShape(hash, input, w) && i <= |input.syms| == |map_| == |hashes|
    requires Coherent(hash, w.st) && base <= |w.st.records| && MapOk(w.st, base, hashes, map_, i)
    requires w.hashes[i..] == hashes[i..]
    ensures var (w', map') := WalkTo(o, hash, input, w, map_, i, |input.syms|);
      && Coherent(hash, w'.st) && Extends(w'.st, w.st)
      && |w'.st.records| <= |w.st.records| + |input.syms| - i
      && MapOk(w'.st, base, hashes, map', |input.syms|)
    decreases |input.syms| - i
  {
    if i < |input.syms| {
      MappedStepKeeps(o, hash, input, w, map_, hashes, base, i);
      var (w1, map1) := StepMapped(o, hash, input, w, map_, i);
      hide StepMapped;
      WalkKeeps(o, hash, input, w1, map1, hashes, base, i + 1);
    }
  }

  /** After an input file: the state is coherent, and every slot of its map is right. */
  lemma WriteSymbolsKeeps(o: Options, hash: seq<HashEntry>, input: Input, hashes: seq<Option<nat>>, st: State)
    requires WalkShape(hash, input, Walk(st, hashes, false, false)) && Coherent(hash, st)
    ensures var (w, map_) := WriteSymbols(o, hash, input, hashes, st);
      && Coherent(hash, w.st) && Extends(w.st, st)
      && |w.st.records| <= |st.records| + |input.syms| + 1
      && forall i :: 0 <= i < |map_| ==> RightSlot(w.st, |st.records|, i, hashes[i], map_[i])
  {
    var st1 := WithFileName(o, input, st);
    if NamesFile(o, input) {
      EmitAnonymous(hash, st, st1.records[|st.records|], FileName);
    }
    WalkKeeps(o, hash, input, Walk(st1, hashes, false, false), Cleared(|input.syms|), hashes, |st.records|, 0);
  }

  lemma WriteOtherKeeps(o: Options, hash: seq<HashEntry>, st: State, k: nat)
    requires Coherent(hash, st) && LinksDown(hash) && k < |hash|
    ensures Coherent(hash, WriteOther(o, hash, st, k)) && Extends(WriteOther(o, hash, st, k), st)
  {
    var st' := WriteOther(o, hash, st, k);
    var h := if hash[k].kind.Warning? then hash[k].kind.link else k;
    if !st.written[h] {
      UnwrittenHasNoRecord(hash, st, h);
      if st'.records != st.records {
        EmitEntry(hash, st, OtherRecord(hash[h]).value, FromTable(h), h);
      } else {
        MarkKeeps(hash, st, Some(h));
      }
    }
  }

  lemma NeedKeeps(o: Options, hash: seq<HashEntry>, st: State, k: nat)
    requires Coherent(hash, st) && LinksDown(hash) && k < |hash|
    ensures Coherent(hash, Need(o, hash, st, k)) && Extends(Need(o, hash, st, k), st)
    ensures Need(o, hash, st, k).indx[k] >= 0 <==> st.indx[k] >= 0 || OtherRecord(hash[k]).Some?
    ensures Need(o, hash, st, k).indx[k] >= -2 && Need(o, hash, st, k).indx[k] != -1
  {
    if st.indx[k] < 0 {
      ChangeFlags(hash, st, k, false, -2);
      WriteOtherKeeps(o, hash, st.(indx := st.indx[k := -2], written := st.written[k := false]), k);
    }
  }

  // ----- Nothing is lost -----

  /** An entry the strip option does not want in the output. */
  predicate StrippedEntry(o: Options, e: HashEntry) {
    o.strip == StripAll || (o.strip == StripSome && e.name !in o.keep)
  }

  /** Entries that stand for a symbol of their own. */
  predicate HasSymbol(e: HashEntry) {
    OtherRecord(e).Some?
  }

  /** An entry marked as written has its record, unless it stands for none or was stripped. */
  ghost predicate NothingLost(o: Options, hash: seq<HashEntry>, st: State)
    requires Shape(hash, st)
  {
    forall k :: 0 <= k < |hash| && st.written[k] && HasSymbol(hash[k]) && !StrippedEntry(o, hash[k]) ==> st.indx[k] >= 0
  }

  lemma StepLosesNothing(o: Options, hash: seq<HashEntry>, input: Input, w: Walk, i: nat)
    requires WalkShape(hash, input, w) && i < |input.syms|
    requires NothingLost(o, hash, w.st) && (w.hashes[i].Some? ==> input.syms[i].typ & N_STAB == 0)
    ensures NothingLost(o, hash, Step(o, hash, input, w, i).w.st)
    ensures |w.st.written| == |Step(o, hash, input, w, i).w.st.written|
  {
  }

  lemma {:induction false} WalkLosesNothing(o: Options, hash: seq<HashEntry>, input: Input, w: Walk, map_: seq<int>, i: nat)
    requires WalkShape(hash, input, w) && i <= |input.syms| == |map_|
    requires NothingLost(o, hash, w.st) && forall j :: i <= j < |w.hashes| && w.hashes[j].Some? ==> input.syms[j].typ & N_STAB == 0
    ensures NothingLost(o, hash, WalkTo(o, hash, input, w, map_, i, |input.syms|).0.st)
    decreases |input.syms| - i
  {
    if i < |input.syms| {
      var (w1, map1) := StepMapped(o, hash, input, w, map_, i);
      if map_[i] != -1 {
        StepLosesNothing(o, hash, input, w, i);
        StepHashes(o, hash, input, w, i);
      }
      hide Step;
      assert forall j :: i + 1 <= j < |w.hashes| ==> w1.hashes[j] == w.hashes[j];
      WalkLosesNothing(o, hash, input, w1, map1, i + 1);
    }
  }

  lemma StepHashes(o: Options, hash: seq<HashEntry>, input: Input, w: Walk, i: nat)
    requires WalkShape(hash, input, w) && i < |input.syms|
    ensures forall j :: 0 <= j < |w.hashes| && j != i ==> Step(o, hash, input, w, i).w.hashes[j] == w.hashes[j]
  {
  }

  lemma WriteSymbolsLosesNothing(o: Options, hash: seq<HashEntry>, input: Input, hashes: seq<Option<nat>>, st: State)
    requires WalkShape(hash, input, Walk(st, hashes, false, false)) && NothingLost(o, hash, st)
    requires StabsHaveNoEntry(input, hashes)
    ensures NothingLost(o, hash, WriteSymbols(o, hash, input, hashes, st).0.st)
  {
    WalkLosesNothing(o, hash, input, Walk(WithFileName(o, input, st), hashes, false, false), Cleared(|input.syms|), 0);
  }

  lemma WriteOtherLosesNothing(o: Options, hash: seq<HashEntry>, st: State, k: nat)
    requires Shape(hash, st) && LinksDown(hash) && k < |hash| && NothingLost(o, hash, st)
    ensures NothingLost(o, hash, WriteOther(o, hash, st, k))
    ensures forall j :: 0 <= j < |hash| && st.written[j] ==> WriteOther(o, hash, st, k).written[j]
    ensures HasSymbol(hash[k]) ==> WriteOther(o, hash, st, k).written[k]
  {
  }

  /** bfd_hash_traverse over the table, from entry `k` on. */
  function Traverse(o: Options, hash: seq<HashEntry>, st: State, k: nat): (r: State)
    requires Shape(hash, st) && LinksDown(hash) && k <= |hash|
    ensures Shape(hash, r)
    decreases |hash| - k
  {
    if k == |hash| then st else Traverse(o, hash, WriteOther(o, hash, st, k), k + 1)
  }

  /** After the traversal every entry that stands for a symbol has its record, unless stripped. */
  lemma {:induction false} TraverseCompletes(o: Options, hash: seq<HashEntry>, st: State, k: nat)
    requires Coherent(hash, st) && LinksDown(hash) && k <= |hash| && NothingLost(o, hash, st)
    requires forall j :: 0 <= j < k && HasSymbol(hash[j]) ==> st.written[j]
    ensures var r := Traverse(o, hash, st, k);
      && Coherent(hash, r) && Extends(r, st) && NothingLost(o, hash, r)
      && forall j :: 0 <= j < |hash| && HasSymbol(hash[j]) && !StrippedEntry(o, hash[j]) ==> r.indx[j] >= 0
    decreases |hash| - k
  {
    if k < |hash| {
      WriteOtherKeeps(o, hash, st, k);
      WriteOtherLosesNothing(o, hash, st, k);
      hide WriteOther;
      TraverseCompletes(o, hash, WriteOther(o, hash, st, k), k + 1);
    }
  }

  lemma NeedLosesNothing(o: Options, hash: seq<HashEntry>, st: State, k: nat)
    requires Shape(hash, st) && LinksDown(hash) && k < |hash| && NothingLost(o, hash, st)
    ensures NothingLost(o, hash, Need(o, hash, st, k))
  {
  }

  lemma InitialLosesNothing(o: Options, hash: seq<HashEntry>)
    ensures NothingLost(o, hash, Initial(hash))
  {
  }

  /** An index once given is never changed. */
  lemma IndexStays(hash: seq<HashEntry>, st: State, st': State, k: nat)
    requires Coherent(hash, st) && Coherent(hash, st') && Extends(st', st) && k < |hash| && st.indx[k] >= 0
    ensures st'.indx[k] == st.indx[k] < |st'.records| && st'.origins[st'.indx[k]].Entry() == Some(k)
    ensures hash[k].kind.Warning? || st'.records[st'.indx[k]].name == hash[k].name
    ensures st'.origins[st'.indx[k]].FromTable? ==> OtherRecord(hash[k]) == Some(st'.records[st'.indx[k]])
  {
    assert EntryOk(hash, st, k);
    assert RecordOk(hash, st', st.indx[k]);
  }

  /**
    And if the record was written from an input file's reference, it has the type and the address
    of the entry too: the ones the traversal would have written.
   */
  lemma ReferenceIsResolved(o: Options, hash: seq<HashEntry>, input: Input, w: Walk, i: nat)
    requires WalkShape(hash, input, w) && i < |input.syms| && !w.pass && !w.skipNext
    requires input.syms[i].typ == N_UNDF | N_EXT && w.hashes[i].Some? && !w.st.written[w.hashes[i].value]
    requires !Stripped(o, input.syms[i].typ, SymbolName(hash, input.syms[i], w.hashes[i]))
    ensures var k := Resolve(hash, w.hashes[i].value); var entry := OtherRecord(hash[k]);
      entry.Some? ==>
        var st := Step(o, hash, input, w, i).w.st;
        && |st.records| == |w.st.records| + 1
        && st.records[|w.st.records|].typ == entry.value.typ && st.records[|w.st.records|].value == entry.value.value
  {
    var k := Resolve(hash, w.hashes[i].value);
    ReferenceClassifies(hash, input.sections, input.syms[i], k);
    StepKept(o, hash, input, w, i);
    hide Step, Classify, Stripped, Discarded, SymbolName, HeaderTotal, OtherRecord;
  }

  lemma ReferenceClassifies(hash: seq<HashEntry>, s: Sections, sym: Sym, k: nat)
    requires k < |hash| && sym.typ == N_UNDF | N_EXT
    ensures var c, entry := Classify(hash, s, sym, Some(k)), OtherRecord(hash[k]);
      entry.Some? ==> c.typ == entry.value.typ && c.typ != N_BINCL && c.value % TWO_TO_32 == entry.value.value
  {
    hide Moved, SetElementValue;
    match hash[k].kind
    case Defined(_, _, out) => ExternalTypes(out);
    case DefWeak(_, _, out) => ExternalTypes(out);
    case _ =>
  }

  /** A definition in an input file, of whatever strength. */
  predicate Defines(typ: bv8) {
    typ & N_STAB == 0
    && (typ & N_TYPE == N_TEXT || typ & N_TYPE == N_DATA || typ & N_TYPE == N_BSS || typ & N_TYPE == N_ABS
        || typ == N_WEAKT || typ == N_WEAKD || typ == N_WEAKB || typ == N_WEAKA)
  }

  /** Where such a definition ends up in the output. */
  function DefinedAt(s: Sections, sym: Sym): int {
    (if sym.typ & N_TYPE == N_TEXT || sym.typ == N_WEAKT then Moved(s.text, sym.value)
     else if sym.typ & N_TYPE == N_DATA || sym.typ == N_WEAKD then Moved(s.data, sym.value)
     else if sym.typ & N_TYPE == N_BSS || sym.typ == N_WEAKB then Moved(s.bss, sym.value)
     else sym.value) % TWO_TO_32
  }

  /** The type and address are those the linker settled on for an entry. */
  predicate IsSettled(k: Kind, typ: bv8, address: int) {
    match k
    case Defined(value, place, out) =>
      && address == (value + place) % 0x1_0000_0000
      && typ == (match out case OutText => 0x05 case OutData => 0x07 case OutBss => 0x09 case OutOther => 0x03)
    case DefWeak(value, place, out) =>
      && address == (value + place) % 0x1_0000_0000
      && typ == (match out case OutText => 0x0f case OutData => 0x10 case OutBss => 0x11 case OutOther => 0x0e)
    case _ => false
  }

  /** The entry's own record would say what was settled on: a definition that is not weak, or one whose weak type keeps its meaning. */
  predicate TableIsRight(k: Kind) {
    k.Defined? || (k.DefWeak? && (k.out == OutText || k.out == OutBss))
  }

  lemma SettledIsTable(e: HashEntry, typ: bv8, address: int)
    requires TableIsRight(e.kind)
    ensures OtherRecord(e).Some?
    ensures typ == OtherRecord(e).value.typ && address == OtherRecord(e).value.value <==> IsSettled(e.kind, typ, address)
  {
  }

  /**
    Of an entry's definitions in the input files, the first that is met is written as it is there,
    and stays the entry's record for the rest of the link: so that record says what the entry's own
    would have said if and only if that definition is the one the linker settled on.
   */
  lemma FirstDefinitionStays(o: Options, hash: seq<HashEntry>, input: Input, w: Walk, i: nat, st': State)
    requires WalkShape(hash, input, w) && i < |input.syms| && !w.pass && !w.skipNext && Coherent(hash, w.st)
    requires Defines(input.syms[i].typ) && w.hashes[i].Some? && !w.st.written[w.hashes[i].value]
    requires !Stripped(o, input.syms[i].typ, SymbolName(hash, input.syms[i], w.hashes[i]))
    requires Coherent(hash, st') && Extends(st', Step(o, hash, input, w, i).w.st)
    ensures var k, typ, address := w.hashes[i].value, input.syms[i].typ, DefinedAt(input.sections, input.syms[i]);
      && 0 <= st'.indx[k] < |st'.records|
      && var r := st'.records[st'.indx[k]];
         r.typ == typ && r.value == address
         && (TableIsRight(hash[k].kind) ==>
               && OtherRecord(hash[k]).Some?
               && var own := OtherRecord(hash[k]).value;
                  r.typ == own.typ && r.value == own.value <==> IsSettled(hash[k].kind, typ, address))
  {
    var sym, h, c := input.syms[i], w.hashes[i], Classify(hash, input.sections, input.syms[i], ResolveOption(hash, w.hashes[i]));
    DefinitionClassifies(hash, input.sections, sym, ResolveOption(hash, h));
    StepKept(o, hash, input, w, i);
    var st1, r := Step(o, hash, input, w, i).w.st, |w.st.records|;
    assert st1.origins[r] == FromInput(i, h);
    assert st'.records[r] == st1.records[r] && st'.origins[r] == st1.origins[r];
    assert RecordOk(hash, st', r);
    if TableIsRight(hash[h.value].kind) {
      SettledIsTable(hash[h.value], sym.typ, DefinedAt(input.sections, sym));
    }
    hide Step, Classify, Stripped, Discarded, SymbolName, HeaderTotal, OtherRecord, IsSettled, DefinedAt, Coherent, Defines;
  }

  lemma DefinitionClassifies(hash: seq<HashEntry>, s: Sections, sym: Sym, resolved: Option<nat>)
    requires Defines(sym.typ) && (resolved.Some? ==> resolved.value < |hash|)
    ensures var c := Classify(hash, s, sym, resolved);
      c.typ == sym.typ != N_BINCL && c.value % TWO_TO_32 == DefinedAt(s, sym) && !c.pass && !c.skipNext
  {
    hide Moved;
  }

  /** A weak definition met before the strong one of another file: the symbol stays weak, at the wrong place. */
  lemma WeakDefinitionStays(o: Options, hash: seq<HashEntry>, input: Input, w: Walk, i: nat, st': State)
    requires WalkShape(hash, input, w) && i < |input.syms| && !w.pass && !w.skipNext && Coherent(hash, w.st)
    requires w.hashes[i].Some? && !w.st.written[w.hashes[i].value]
    requires !Stripped(o, input.syms[i].typ, SymbolName(hash, input.syms[i], w.hashes[i]))
    requires Coherent(hash, st') && Extends(st', Step(o, hash, input, w, i).w.st)
    requires input.syms[i].typ == N_WEAKT && input.syms[i].value == 0x10 && input.sections.text == Placement(0, 0x1000, 0)
    requires hash[w.hashes[i].value].kind == Defined(0x20, 0x2000, OutText)
    ensures var k := w.hashes[i].value;
      && 0 <= st'.indx[k] < |st'.records|
      && st'.records[st'.indx[k]].typ == N_WEAKT && st'.records[st'.indx[k]].value == 0x1010
      && OtherRecord(hash[k]).value.typ == N_TEXT | N_EXT && OtherRecord(hash[k]).value.value == 0x2020
  {
    FirstDefinitionStays(o, hash, input, w, i, st');
    hide Step, Stripped, SymbolName, Coherent;
  }

  lemma ExternalTypes(out: OutSection)
    ensures ((N_UNDF | N_EXT) & !N_TYPE) | DefinedType(out, false) == DefinedType(out, false) | N_EXT != N_BINCL
    ensures ((N_UNDF | N_EXT) & !N_TYPE) | DefinedType(out, true) == DefinedType(out, true) | N_EXT != N_BINCL
  {
  }
}
