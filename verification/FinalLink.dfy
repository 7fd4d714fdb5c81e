/**
  The a.out final link's symbol table (aoutx.h), in place: hash entry flags, the symbol
  map and output buffer reused for every input, the running file position and the record
  count.  Each method is proved against SymbolWalk; the class invariant is kept by all.
 */
module FinalLink {
  import opened CBytes
  import opened LinkModel
  import opened HeaderScan
  import opened SymbolWalk
  import opened SymbolInvariants

  /** An input file; `symHashes` points from its symbols into the hash table. */
  class InputBfd {
    const input: Input
    var symHashes: seq<Option<nat>>

    constructor (input: Input, symHashes: seq<Option<nat>>)
      ensures this.input == input && this.symHashes == symHashes
    {
      this.input, this.symHashes := input, symHashes;
    }
  }

  /** The output file holds the records one after the other from `start` on, and nothing else there. */
  ghost predicate FileHolds(file: map<int, Nlist>, start: int, records: seq<Nlist>) {
    && (forall r {:trigger records[r]} :: 0 <= r < |records| ==> RecordPos(start, r) in file && file[RecordPos(start, r)] == records[r])
    && forall at :: at in file ==> start <= at < RecordPos(start, |records|) && (at - start) % 12 == 0
  }

  function RecordPos(start: int, r: int): int {
    start + 12 * r
  }

  /** A value as a record keeps it. */
  function Low32(x: int): int {
    x % TWO_TO_32
  }

  lemma FileGrows(file: map<int, Nlist>, start: int, records: seq<Nlist>, more: seq<Nlist>, file': map<int, Nlist>)
    requires FileHolds(file, start, records)
    requires file'.Keys == file.Keys + set j | 0 <= j < |more| :: RecordPos(RecordPos(start, |records|), j)
    requires forall at :: at in file ==> file'[at] == file[at]
    requires forall j {:trigger more[j]} :: 0 <= j < |more| ==> file'[RecordPos(RecordPos(start, |records|), j)] == more[j]
    ensures FileHolds(file', start, records + more)
  {
    var all := records + more;
    forall r | 0 <= r < |all| ensures RecordPos(start, r) in file' && file'[RecordPos(start, r)] == all[r] {
      if r >= |records| {
        assert all[r] == more[r - |records|];
        assert RecordPos(start, r) == RecordPos(RecordPos(start, |records|), r - |records|);
      } else {
        assert all[r] == records[r];
      }
    }
    forall at | at in file' ensures start <= at < RecordPos(start, |all|) && (at - start) % NLIST_SIZE == 0 {
      if at !in file {
        var j :| 0 <= j < |more| && at == RecordPos(RecordPos(start, |records|), j);
        assert at == RecordPos(start, |records| + j);
      }
    }
  }

  class FinalLink {
    const o: Options
    const hash: seq<HashEntry>
    // The hash entries' mutable fields
    var written: seq<bool>
    var indx: seq<int>
    // The header table
    var includes: set<(string, int)>
    // Buffers large enough for any input file
    const maxSymCount: nat
    const symbolMap: array<int>
    const outputSyms: array<Nlist>
    // The output file
    const symFilepos: int
    var symoff: int
    var symCount: nat
    var file: map<int, Nlist>
    // What has been written, in order
    ghost var records: seq<Nlist>
    ghost var origins: seq<Origin>

    ghost function St(): State
      reads this
    {
      State(written, indx, includes, records, origins)
    }

    /** True between the steps of a link that emit symbols. */
    ghost predicate Valid()
      reads this
    {
      && LinksDown(hash) && Shape(hash, St()) && Coherent(hash, St())
      && symbolMap.Length == maxSymCount && outputSyms.Length == maxSymCount + 1
      && symCount == |records| && symoff == RecordPos(symFilepos, symCount)
      && FileHolds(file, symFilepos, records)
    }

    constructor (o: Options, hash: seq<HashEntry>, symFilepos: int, maxSymCount: nat)
      requires LinksDown(hash)
      ensures Valid() && this.o == o && this.hash == hash && this.symFilepos == symFilepos && this.maxSymCount == maxSymCount
      ensures St() == Initial(hash) && fresh(symbolMap) && fresh(outputSyms)
    {
      this.o, this.hash, this.symFilepos, this.maxSymCount := o, hash, symFilepos, maxSymCount;
      written, indx, includes := seq(|hash|, _ => false), seq(|hash|, _ => -1), {};
      symbolMap := new int[maxSymCount];
      outputSyms := new Nlist[maxSymCount + 1](_ => Nlist("", N_UNDF, 0, 0, 0));
      symoff, symCount, file := symFilepos, 0, map[];
      records, origins := [], [];
      InitialIsCoherent(hash);
    }

    /** bfd_seek to symoff and bfd_bwrite of some records, behind those in the file. */
    method WriteRecords(recs: seq<Nlist>, ghost before: seq<Nlist>)
      requires symoff == RecordPos(symFilepos, |before|) && FileHolds(file, symFilepos, before)
      modifies this`file, this`symoff
      ensures symoff == RecordPos(symFilepos, |before + recs|) && FileHolds(file, symFilepos, before + recs)
    {
      hide FileHolds;
      ghost var file0 := file;
      var block := map j | 0 <= j < |recs| :: RecordPos(symoff, j) := recs[j];
      file := file + block;
      Appended(file0, recs, before, block);
      symoff := symoff + NLIST_SIZE * |recs|;
    }

    lemma Appended(file0: map<int, Nlist>, recs: seq<Nlist>, before: seq<Nlist>, block: map<int, Nlist>)
      requires symoff == RecordPos(symFilepos, |before|) && FileHolds(file0, symFilepos, before)
      requires block.Keys == set j | 0 <= j < |recs| :: RecordPos(symoff, j)
      requires forall j {:trigger recs[j]} :: 0 <= j < |recs| ==> block[RecordPos(symoff, j)] == recs[j]
      ensures FileHolds(file0 + block, symFilepos, before + recs)
    {
      forall at | at in file0 ensures at !in block && (file0 + block)[at] == file0[at] {
        assert at < RecordPos(symFilepos, |before|);
      }
      hide FileHolds;
      FileGrows(file0, symFilepos, before, recs, file0 + block);
    }

    // ----- aout_link_write_symbols -----

    ghost function Now(inp: InputBfd, pass: bool, skipNext: bool): Walk
      reads this, inp
    {
      Walk(St(), inp.symHashes, pass, skipNext)
    }

    /** Inside aout_link_write_symbols: `outsym` records wait in the buffer. */
    ghost predicate Walking(inp: InputBfd, pass: bool, skipNext: bool, outsym: nat)
      reads this, inp, symbolMap
    {
      && WalkShape(hash, inp.input, Now(inp, pass, skipNext))
      && |inp.input.syms| <= maxSymCount && symbolMap.Length == maxSymCount && outputSyms.Length == maxSymCount + 1
      && symCount == |records| && outsym <= |records|
    }

    /** The tail of the loop body: the record goes into the buffer and the symbol gets its slot. */
    method Put(rec: Nlist, ghost origin: Origin, outsym: nat)
      requires outsym < outputSyms.Length
      modifies this`symCount, this`records, this`origins, outputSyms
      ensures symCount == old(symCount) + 1
      ensures records == old(records) + [rec] && origins == old(origins) + [origin]
      ensures outputSyms[..outsym + 1] == old(outputSyms[..outsym]) + [rec]
    {
      outputSyms[outsym] := rec;
      symCount := symCount + 1;
      records, origins := records + [rec], origins + [origin];
    }

    /**
      The end of the loop body: look up a header and write the record.  The slot is filled
      in before the header's symbols are marked, which come after it.
     */
    method CopySymbol(inp: InputBfd, i: nat, h: Option<nat>, name: string, c: Classified, outsym: nat)
      requires i < |inp.input.syms| <= symbolMap.Length && outsym < outputSyms.Length
      requires symCount == |records| == |origins| && (h.Some? ==> h.value < |hash|)
      modifies this`includes, this`symCount, this`records, this`origins, symbolMap, outputSyms
      ensures ghost var n := |inp.input.syms|;
        ghost var s := old(Copy(o, hash, inp.input, Now(inp, c.pass, c.skipNext), i, h, name, c));
        && Now(inp, c.pass, c.skipNext) == s.w
        && symbolMap[..n] == (if s.exclude then Marked(inp.input.syms, old(symbolMap[..n])[i := s.slot], i + 1, 0)
                              else old(symbolMap[..n])[i := s.slot])
      ensures symCount == old(symCount) + 1 == |records| && old(records) <= records
      ensures outputSyms[..outsym + 1] == old(outputSyms[..outsym]) + records[|old(records)|..]
    {
      var syms := inp.input.syms;
      var sym := syms[i];
      ghost var n := |syms|;
      ghost var map0, count0 := symbolMap[..n], symCount;
      var typ, val := c.typ, c.value;
      symbolMap[i] := symCount;
      assert symbolMap[..n] == map0[i := count0];
      if typ == N_BINCL {
        val := ScanHeader(syms, i + 1);
        if (name, val) !in includes {
          includes := includes + {(name, val)};
        } else {
          typ := N_EXCL;
          MarkHeader(syms, symbolMap, i + 1);
          assert includes == includes + {(name, val)};
        }
      }
      var outName := OutName(o, hash, h, name);
      Put(Nlist(outName, typ, sym.other, sym.desc, val % TWO_TO_32), FromInput(i, h), outsym);
    }

    /** What `s` leaves in the symbol map. */
    ghost function SlotsAfter(inp: InputBfd, s: Stepped, map_: seq<int>, i: nat): seq<int>
      requires i < |inp.input.syms| == |map_|
    {
      if s.exclude then Marked(inp.input.syms, map_[i := s.slot], i + 1, 0) else map_[i := s.slot]
    }

    /** What becomes of a symbol that is not stripped, from the state `w` on. */
    ghost function Kept(inp: InputBfd, w: Walk, i: nat, h: Option<nat>, name: string, resolved: Option<nat>): Stepped
      requires i < |inp.input.syms| && (resolved.Some? ==> resolved.value < |hash|)
      requires h.Some? ==> h.value < |hash| == |w.st.written| == |w.st.indx|
    {
      var c := Classify(hash, inp.input.sections, inp.input.syms[i], resolved);
      if h.None? && Discarded(o, c.typ, name) then Stepped(Walk(w.st, w.hashes, false, c.skipNext), -1, false)
      else Copy(o, hash, inp.input, Walk(GiveIndex(w.st, h), w.hashes, c.pass, c.skipNext), i, h, name, c)
    }

    lemma KeptIs(inp: InputBfd, w: Walk, i: nat, h: Option<nat>, name: string, resolved: Option<nat>)
      requires i < |inp.input.syms| && (resolved.Some? ==> resolved.value < |hash|)
      requires h.Some? ==> h.value < |hash| == |w.st.written| == |w.st.indx|
      ensures var c := Classify(hash, inp.input.sections, inp.input.syms[i], resolved);
        Kept(inp, w, i, h, name, resolved) ==
          if h.None? && Discarded(o, c.typ, name) then Stepped(Walk(w.st, w.hashes, false, c.skipNext), -1, false)
          else Copy(o, hash, inp.input, Walk(GiveIndex(w.st, h), w.hashes, c.pass, c.skipNext), i, h, name, c)
    {
      hide Classify, Discarded, Copy, GiveIndex;
    }

    /** The loop body from there on: the type and value, the discard option, the entry's index, and the record. */
    method KeepSymbol(inp: InputBfd, i: nat, h: Option<nat>, name: string, resolved: Option<nat>, outsym0: nat)
      returns (pass: bool, skipNext: bool, outsym: nat)
      requires i < |inp.input.syms| <= symbolMap.Length && outsym0 < outputSyms.Length && symbolMap[i] == -1
      requires symCount == |records| == |origins| && |written| == |indx| == |hash|
      requires (h.Some? ==> h.value < |hash|) && (resolved.Some? ==> resolved.value < |hash|)
      modifies this`written, this`indx, this`includes, this`symCount, this`records, this`origins, symbolMap, outputSyms
      ensures ghost var n := |inp.input.syms|;
        ghost var s := Kept(inp, old(Now(inp, false, false)), i, h, name, resolved);
        && Now(inp, pass, skipNext) == s.w
        && symbolMap[..n] == SlotsAfter(inp, s, old(symbolMap[..n]), i)
      ensures outsym0 <= outsym <= outsym0 + 1
      ensures symCount == |records| && old(records) <= records && |records| - |old(records)| == outsym - outsym0
      ensures outputSyms[..outsym] == old(outputSyms[..outsym0]) + records[|old(records)|..]
    {
      hide *;
      ghost var w0, map0 := Now(inp, false, false), symbolMap[..|inp.input.syms|];
      NowIs(inp, false, false);
      KeptIs(inp, w0, i, h, name, resolved);
      SlotsIs(inp, Kept(inp, w0, i, h, name, resolved), map0, i);
      FlagsGiven(w0.st, h);
      var c := Classify(hash, inp.input.sections, inp.input.syms[i], resolved);
      pass, skipNext, outsym := c.pass, c.skipNext, outsym0;
      if h.Some? {
        written := written[h.value := true];
        indx := indx[h.value := symCount];
      }
      NowIs(inp, c.pass, c.skipNext);
      if h.None? && Discarded(o, c.typ, name) {
        assert map0[i := -1] == map0;
        pass := false;
        NowIs(inp, pass, skipNext);
      } else {
        CopySymbol(inp, i, h, name, c, outsym);
        outsym := outsym + 1;
      }
    }

    /** The loop body, for a symbol that neither flag applies to. */
    method VisitEntry(inp: InputBfd, i: nat, outsym0: nat) returns (pass: bool, skipNext: bool, outsym: nat)
      requires Walking(inp, false, false, outsym0) && i < |inp.input.syms| && outsym0 <= i + 1
      requires symbolMap[i] == -1
      modifies this`written, this`indx, this`includes, this`symCount, this`records, this`origins, inp`symHashes
      modifies symbolMap, outputSyms
      ensures Walking(inp, pass, skipNext, outsym) && outsym <= outsym0 + 1
      ensures ghost var n := |inp.input.syms|;
        ghost var s := old(Step(o, hash, inp.input, Now(inp, false, false), i));
        && Now(inp, pass, skipNext) == s.w
        && symbolMap[..n] == SlotsAfter(inp, s, old(symbolMap[..n]), i)
      ensures old(records) <= records && |records| - |old(records)| == outsym - outsym0
      ensures outputSyms[..outsym] == old(outputSyms[..outsym0]) + records[|old(records)|..]
    {
      hide *;
      WalkingMeans(inp, false, false, outsym0);
      ghost var w0 := Now(inp, false, false);
      StepKeepsShape(inp, w0, i);
      var sym := inp.input.syms[i];
      var h := inp.symHashes[i];
      ghost var n := |inp.input.syms|;
      ghost var map0 := symbolMap[..n];
      ghost var s := Step(o, hash, inp.input, w0, i);
      SlotsIs(inp, s, map0, i);
      HashIn(inp, w0, i);
      var name := SymbolName(hash, sym, h);
      var resolved := ResolveOption(hash, h);
      pass, skipNext, outsym := false, false, outsym0;
      inp.symHashes := inp.symHashes[i := resolved];
      NowIs(inp, false, false);
      ghost var w1 := Now(inp, false, false);
      assert w1.st == w0.st && w1.hashes == w0.hashes[i := resolved];
      if h.Some? && written[h.value] {
        StepWritten(o, hash, inp.input, w0, i);
        if Asks(sym.typ) {
          skipNext := true;
        }
        symbolMap[i] := indx[h.value];
        assert symbolMap[..n] == map0[i := indx[h.value]];
        NowIs(inp, pass, skipNext);
        assert Now(inp, pass, skipNext) == Walk(w1.st, w1.hashes, pass, skipNext) == s.w;
      } else if Stripped(o, sym.typ, name) {
        StepStripped(o, hash, inp.input, w0, i);
        FlagsGiven(w0.st, h);
        assert map0[i := -1] == map0;
        if h.Some? {
          written := written[h.value := true];
        }
        NowIs(inp, pass, skipNext);
        assert Now(inp, pass, skipNext) == Walk(MarkWritten(w1.st, h), w1.hashes, false, false) == s.w;
      } else {
        StepKept(o, hash, inp.input, w0, i);
        KeptIs(inp, w1, i, h, name, resolved);
        pass, skipNext, outsym := KeepSymbol(inp, i, h, name, resolved, outsym);
        assert Now(inp, pass, skipNext) == s.w;
      }
      IsWalking(inp, pass, skipNext, outsym, s);
    }

    lemma WalkingMeans(inp: InputBfd, pass: bool, skipNext: bool, outsym: nat)
      requires Walking(inp, pass, skipNext, outsym)
      ensures WalkShape(hash, inp.input, Now(inp, pass, skipNext))
      ensures |inp.symHashes| == |inp.input.syms| <= maxSymCount == symbolMap.Length && outputSyms.Length == maxSymCount + 1
      ensures symCount == |records| == |origins| && outsym <= |records| && |written| == |indx| == |hash| && LinksDown(hash)
      ensures Now(inp, pass, skipNext) == Walk(State(written, indx, includes, records, origins), inp.symHashes, pass, skipNext)
    {
      hide HashesIn, LinksDown;
    }

    lemma HashIn(inp: InputBfd, w: Walk, i: nat)
      requires WalkShape(hash, inp.input, w) && i < |inp.input.syms|
      ensures i < |w.hashes| && (w.hashes[i].Some? ==> w.hashes[i].value < |hash|)
    {
    }

    lemma NowIs(inp: InputBfd, pass: bool, skipNext: bool)
      ensures Now(inp, pass, skipNext) == Walk(State(written, indx, includes, records, origins), inp.symHashes, pass, skipNext)
      ensures St() == State(written, indx, includes, records, origins)
    {
    }

    lemma StepKeepsShape(inp: InputBfd, w: Walk, i: nat)
      requires WalkShape(hash, inp.input, w) && i < |inp.input.syms|
      ensures WalkShape(hash, inp.input, Step(o, hash, inp.input, w, i).w)
    {
      hide *;
    }

    lemma FlagsGiven(st: State, h: Option<nat>)
      requires h.Some? ==> h.value < |st.written| && h.value < |st.indx|
      ensures MarkWritten(st, h) == if h.Some? then st.(written := st.written[h.value := true]) else st
      ensures GiveIndex(st, h) ==
        if h.Some? then st.(written := st.written[h.value := true], indx := st.indx[h.value := |st.records|]) else st
    {
    }

    lemma SlotsIs(inp: InputBfd, s: Stepped, map_: seq<int>, i: nat)
      requires i < |inp.input.syms| == |map_|
      ensures SlotsAfter(inp, s, map_, i) == if s.exclude then Marked(inp.input.syms, map_[i := s.slot], i + 1, 0) else map_[i := s.slot]
    {
      hide Marked;
    }

    lemma IsWalking(inp: InputBfd, pass: bool, skipNext: bool, outsym: nat, s: Stepped)
      requires WalkShape(hash, inp.input, s.w) && Now(inp, pass, skipNext) == s.w
      requires |inp.input.syms| <= maxSymCount && symbolMap.Length == maxSymCount && outputSyms.Length == maxSymCount + 1
      requires symCount == |records| && outsym <= |records|
      ensures Walking(inp, pass, skipNext, outsym)
    {
      hide WalkShape;
    }

    /** The loop body, for a symbol that is not marked. */
    method VisitSymbol(inp: InputBfd, i: nat, pass0: bool, skip0: bool, outsym0: nat)
      returns (pass: bool, skipNext: bool, outsym: nat)
      requires Walking(inp, pass0, skip0, outsym0) && i < |inp.input.syms| && outsym0 <= i + 1
      requires symbolMap[i] != -1
      modifies this`written, this`indx, this`includes, this`symCount, this`records, this`origins, inp`symHashes
      modifies symbolMap, outputSyms
      ensures Walking(inp, pass, skipNext, outsym) && outsym <= outsym0 + 1
      ensures ghost var n := |inp.input.syms|;
        (Now(inp, pass, skipNext), symbolMap[..n])
        == old(StepMapped(o, hash, inp.input, Now(inp, pass0, skip0), symbolMap[..n], i))
      ensures old(records) <= records && |records| - |old(records)| == outsym - outsym0
      ensures outputSyms[..outsym] == old(outputSyms[..outsym0]) + records[|old(records)|..]
    {
      ghost var n := |inp.input.syms|;
      ghost var map0, w0 := symbolMap[..n], Now(inp, pass0, skip0);
      ghost var s := Step(o, hash, inp.input, w0, i);
      assert StepMapped(o, hash, inp.input, w0, map0, i) == (s.w, SlotsAfter(inp, s, map0, i));
      pass, skipNext, outsym := pass0, skip0, outsym0;
      symbolMap[i] := -1;
      assert symbolMap[..n] == map0[i := -1];
      assert map0[i := -1][i := s.slot] == map0[i := s.slot];
      if pass {
        hide StepMapped, Marked;
        var sym := inp.input.syms[i];
        pass := false;
        symbolMap[i] := symCount;
        Put(Nlist(sym.name, sym.typ, sym.other, sym.desc, sym.value % TWO_TO_32), FromInput(i, None), outsym);
        outsym := outsym + 1;
        assert symbolMap[..n] == map0[i := s.slot];
      } else if skipNext {
        hide StepMapped, Marked;
        skipNext := false;
      } else {
        hide StepMapped, Step, Marked;
        pass, skipNext, outsym := VisitEntry(inp, i, outsym);
      }
    }

    /** The loop of aout_link_write_symbols. */
    method WalkSymbols(inp: InputBfd, outsym0: nat) returns (pass: bool, skipNext: bool, outsym: nat)
      requires Walking(inp, false, false, outsym0) && outsym0 <= 1
      modifies this`written, this`indx, this`includes, this`symCount, this`records, this`origins, inp`symHashes
      modifies symbolMap, outputSyms
      ensures Walking(inp, pass, skipNext, outsym) && outsym <= |inp.input.syms| + 1
      ensures ghost var n := |inp.input.syms|;
        (Now(inp, pass, skipNext), symbolMap[..n])
        == old(WalkTo(o, hash, inp.input, Now(inp, false, false), symbolMap[..n], 0, n))
      ensures old(records) <= records && |records| - |old(records)| == outsym - outsym0
      ensures outputSyms[..outsym] == old(outputSyms[..outsym0]) + records[|old(records)|..]
    {
      hide *;
      WalkingMeans(inp, false, false, outsym0);
      pass, skipNext, outsym := false, false, outsym0;
      ghost var w0, map0, buffer0 := Now(inp, false, false), symbolMap[..|inp.input.syms|], outputSyms[..outsym0];
      var i := 0;
      WalkNone(o, hash, inp.input, w0, map0, 0);
      while i < |inp.input.syms|
        invariant 0 <= i <= |inp.input.syms| <= symbolMap.Length && 0 <= outsym <= i + 1 && outsym <= outputSyms.Length
        invariant Walking(inp, pass, skipNext, outsym)
        invariant WalkTo(o, hash, inp.input, w0, map0, 0, i) == (Now(inp, pass, skipNext), symbolMap[..|inp.input.syms|])
        invariant w0.st.records <= records && |records| - |w0.st.records| == outsym - outsym0
        invariant outputSyms[..outsym] == buffer0 + records[|w0.st.records|..]
      {
        WalkingMeans(inp, pass, skipNext, outsym);
        WalkSplits(o, hash, inp.input, w0, map0, 0, i, i + 1);
        WalkOne(o, hash, inp.input, Now(inp, pass, skipNext), symbolMap[..|inp.input.syms|], i);
        if symbolMap[i] != -1 {
          ghost var records1, buffer1 := records, outputSyms[..outsym];
          pass, skipNext, outsym := VisitSymbol(inp, i, pass, skipNext, outsym);
          WalkingMeans(inp, pass, skipNext, outsym);
          BufferGrows(w0.st.records, records1, records, buffer0, buffer1, outputSyms[..outsym]);
        } else {
          MarkedIsSkipped(inp, i, pass, skipNext, outsym);
        }
        i := i + 1;
      }
    }

    lemma BufferGrows(r0: seq<Nlist>, r1: seq<Nlist>, r2: seq<Nlist>, b0: seq<Nlist>, b1: seq<Nlist>, b2: seq<Nlist>)
      requires r0 <= r1 <= r2 && b1 == b0 + r1[|r0|..] && b2 == b1 + r2[|r1|..]
      ensures r0 <= r2 && b2 == b0 + r2[|r0|..]
    {
    }

    lemma MarkedIsSkipped(inp: InputBfd, i: nat, pass: bool, skipNext: bool, outsym: nat)
      requires Walking(inp, pass, skipNext, outsym) && i < |inp.input.syms| && symbolMap[i] == -1
      ensures ghost var n := |inp.input.syms|;
        StepMapped(o, hash, inp.input, Now(inp, pass, skipNext), symbolMap[..n], i) == (Now(inp, pass, skipNext), symbolMap[..n])
    {
    }

    /** The start of aout_link_write_symbols: the symbol naming the file, and a cleared map. */
    method BeginSymbols(inp: InputBfd) returns (outsym: nat)
      requires Valid() && WalkShape(hash, inp.input, Now(inp, false, false)) && |inp.input.syms| <= maxSymCount
      modifies this`symCount, this`records, this`origins, symbolMap, outputSyms
      ensures Walking(inp, false, false, outsym) && outsym <= 1
      ensures Now(inp, false, false) == old(Walk(WithFileName(o, inp.input, St()), inp.symHashes, false, false))
      ensures symbolMap[..|inp.input.syms|] == Cleared(|inp.input.syms|)
      ensures records == old(records) + outputSyms[..outsym]
    {
      hide *;
      ValidMeans();
      NowIs(inp, false, false);
      WriteSymbolsIs(inp, St(), inp.symHashes);
      ghost var w1 := Walk(WithFileName(o, inp.input, St()), inp.symHashes, false, false);
      outsym := 0;
      if NamesFile(o, inp.input) {
        var text := inp.input.sections.text;
        Put(Nlist(inp.input.filename, N_TEXT, 0, 0, Low32(text.outVma + text.outOffset)), FileName, outsym);
        outsym := outsym + 1;
      }
      ClearMap(|inp.input.syms|);
      NowIs(inp, false, false);
      assert Now(inp, false, false) == w1;
      IsWalking(inp, false, false, outsym, Stepped(w1, 0, false));
    }

    /**
      aout_link_write_symbols: fills the symbol map and appends this file's records.  The
      records never outgrow the buffer, and are flushed right behind those already written.
     */
    method WriteSymbols(inp: InputBfd)
      requires Valid() && WalkShape(hash, inp.input, Now(inp, false, false)) && |inp.input.syms| <= maxSymCount
      modifies this`written, this`indx, this`includes, this`symCount, this`records, this`origins, this`symoff, this`file
      modifies inp`symHashes, symbolMap, outputSyms
      ensures Valid() && WalkShape(hash, inp.input, Now(inp, false, false))
      ensures ghost var (w, slots) := old(SymbolWalk.WriteSymbols(o, hash, inp.input, inp.symHashes, St()));
        St() == w.st && inp.symHashes == w.hashes && symbolMap[..|inp.input.syms|] == slots
      ensures Extends(St(), old(St())) && |records| <= old(|records|) + |inp.input.syms| + 1
      ensures forall i :: 0 <= i < |inp.input.syms| ==>
        RightSlot(St(), old(|records|), i, old(inp.symHashes)[i], symbolMap[i])
    {
      hide *;
      ValidMeans();
      NowIs(inp, false, false);
      ghost var st0 := St();
      WriteSymbolsKeeps(o, hash, inp.input, inp.symHashes, st0);
      WriteSymbolsIs(inp, st0, inp.symHashes);
      var outsym := BeginSymbols(inp);
      NowIs(inp, false, false);
      var pass, skipNext;
      pass, skipNext, outsym := WalkSymbols(inp, outsym);
      WalkingMeans(inp, pass, skipNext, outsym);
      NowIs(inp, pass, skipNext);
      NowIs(inp, false, false);
      ShapeIgnoresFlags(inp, Now(inp, pass, skipNext), Now(inp, false, false));
      assert records == st0.records + outputSyms[..outsym];
      if outsym > 0 {
        WriteRecords(outputSyms[..outsym], st0.records);
      } else {
        assert records == st0.records;
      }
      NowIs(inp, false, false);
      MadeValid();
    }

    lemma ValidMeans()
      requires Valid()
      ensures LinksDown(hash) && Shape(hash, St()) && Coherent(hash, St())
      ensures symbolMap.Length == maxSymCount && outputSyms.Length == maxSymCount + 1
      ensures symCount == |records| == |origins| && |written| == |indx| == |hash|
      ensures symoff == RecordPos(symFilepos, symCount) && FileHolds(file, symFilepos, records)
      ensures St() == State(written, indx, includes, records, origins)
    {
      hide Coherent, LinksDown, FileHolds, RecordPos;
    }

    lemma MadeValid()
      requires LinksDown(hash) && Coherent(hash, St())
      requires symbolMap.Length == maxSymCount && outputSyms.Length == maxSymCount + 1
      requires symCount == |records| && symoff == RecordPos(symFilepos, |records|) && FileHolds(file, symFilepos, records)
      ensures Valid()
    {
      hide LinksDown, FileHolds, RecordPos;
    }

    /** aout_link_write_symbols from where the loop starts. */
    lemma WriteSymbolsIs(inp: InputBfd, st: State, hashes: seq<Option<nat>>)
      requires WalkShape(hash, inp.input, Walk(st, hashes, false, false))
      ensures var w1 := Walk(WithFileName(o, inp.input, st), hashes, false, false);
        && WalkShape(hash, inp.input, w1)
        && SymbolWalk.WriteSymbols(o, hash, inp.input, hashes, st)
           == WalkTo(o, hash, inp.input, w1, Cleared(|inp.input.syms|), 0, |inp.input.syms|)
      ensures var text := inp.input.sections.text;
        WithFileName(o, inp.input, st) ==
          if NamesFile(o, inp.input) then
            st.(records := st.records + [Nlist(inp.input.filename, N_TEXT, 0, 0, Low32(text.outVma + text.outOffset))],
                origins := st.origins + [FileName])
          else st
    {
      hide WalkTo, LinksDown, HashesIn, NamesFile;
    }

    lemma ShapeIgnoresFlags(inp: InputBfd, w: Walk, w': Walk)
      requires WalkShape(hash, inp.input, w) && w'.st == w.st && w'.hashes == w.hashes
      ensures WalkShape(hash, inp.input, w')
    {
    }

    method ClearMap(n: nat)
      requires n <= symbolMap.Length
      modifies symbolMap
      ensures symbolMap[..n] == Cleared(n)
    {
      forall i | 0 <= i < n {
        symbolMap[i] := 0;
      }
    }

    /** aout_link_write_other_symbol */
    method WriteOtherSymbol(k: nat)
      requires Valid() && k < |hash|
      modifies this`written, this`indx, this`symCount, this`records, this`origins, this`symoff, this`file
      ensures Valid() && St() == old(WriteOther(o, hash, St(), k))
      ensures Extends(St(), old(St()))
    {
      ghost var st0 := St();
      WriteOtherKeeps(o, hash, st0, k);
      hide Coherent;
      var h := k;
      if hash[h].kind.Warning? {
        h := hash[h].kind.link;
        if hash[h].kind.New? {
          return;
        }
      }
      if written[h] {
        return;
      }
      written := written[h := true];
      if indx[h] != -2 && (o.strip == StripAll || (o.strip == StripSome && hash[h].name !in o.keep)) {
        return;
      }
      var rec := OtherRecord(hash[h]);
      if rec.None? {
        return;
      }
      WriteRecords([rec.value], records);
      indx := indx[h := symCount];
      symCount := symCount + 1;
      records, origins := records + [rec.value], origins + [FromTable(h)];
    }

    /**
      The index to put in an external reloc against symbol `rIndex` of the input just written
      (the `-r` branches of aout_link_input_section_std and _ext).  A symbol that was stripped
      but has an entry is written after all; without an entry it is unattached.
     */
    method RelocIndex(inp: InputBfd, rIndex: nat) returns (index: int, attached: bool)
      requires Valid() && WalkShape(hash, inp.input, Now(inp, false, false))
      requires rIndex < |inp.input.syms| <= maxSymCount
      modifies this`written, this`indx, this`symCount, this`records, this`origins, this`symoff, this`file
      ensures Valid() && Extends(St(), old(St()))
      ensures ghost var h := inp.symHashes[rIndex];
        St() == if symbolMap[rIndex] == -1 && h.Some? then old(Need(o, hash, St(), h.value)) else old(St())
      ensures symbolMap[rIndex] != -1 ==> index == symbolMap[rIndex] && attached
      ensures symbolMap[rIndex] == -1 && inp.symHashes[rIndex].None? ==> index == 0 && !attached
      // The record the reloc ends up naming is the symbol's own entry's
      ensures ghost var h := inp.symHashes[rIndex];
        symbolMap[rIndex] == -1 && h.Some? ==>
          && attached && (index >= 0 <==> HasSymbol(hash[h.value]) || old(indx[h.value]) >= 0)
          && (index < 0 ==> index == -2) && (index >= 0 ==> index < |records| && origins[index].Entry() == h)
          && (HasSymbol(hash[h.value]) ==> records[index].name == hash[h.value].name)
    {
      index, attached := symbolMap[rIndex], true;
      if index == -1 {
        var h := inp.symHashes[rIndex];
        if h.Some? {
          NeedSymbol(h.value);
          index := indx[h.value];
          assert EntryOk(hash, St(), h.value);
          assert index >= 0 ==> RecordOk(hash, St(), index);
        } else {
          index, attached := 0, false;
        }
      }
    }

    /** A stripped symbol that a reloc refers to is written after all. */
    method NeedSymbol(k: nat)
      requires Valid() && k < |hash|
      modifies this`written, this`indx, this`symCount, this`records, this`origins, this`symoff, this`file
      ensures Valid() && St() == old(Need(o, hash, St(), k)) && Extends(St(), old(St()))
      ensures indx[k] >= 0 <==> old(indx[k]) >= 0 || HasSymbol(hash[k])
      ensures indx[k] >= -2 && indx[k] != -1
    {
      ghost var st0 := St();
      NeedKeeps(o, hash, st0, k);
      if indx[k] < 0 {
        ChangeFlags(hash, st0, k, false, -2);
        hide Coherent, WriteOther;
        indx := indx[k := -2];
        written := written[k := false];
        WriteOtherSymbol(k);
      }
    }

    /** bfd_hash_traverse with aout_link_write_other_symbol: every symbol not stripped now has its record. */
    method WriteRemaining()
      requires Valid() && NothingLost(o, hash, St())
      modifies this`written, this`indx, this`symCount, this`records, this`origins, this`symoff, this`file
      ensures Valid() && St() == old(Traverse(o, hash, St(), 0)) && Extends(St(), old(St()))
      ensures forall k :: 0 <= k < |hash| && HasSymbol(hash[k]) && !StrippedEntry(o, hash[k]) ==> indx[k] >= 0
    {
      ghost var st0 := St();
      TraverseCompletes(o, hash, st0, 0);
      hide Coherent, WriteOther, NothingLost;
      var k := 0;
      while k < |hash|
        invariant 0 <= k <= |hash| && Valid()
        invariant Traverse(o, hash, St(), k) == Traverse(o, hash, st0, 0)
      {
        WriteOtherSymbol(k);
        k := k + 1;
      }
    }

    /** aout_link_reloc_link_order against a symbol: the index, 0 when there is no such entry. */
    method LinkOrderIndex(h: Option<nat>) returns (index: int)
      requires Valid() && (h.Some? ==> h.value < |hash|)
      modifies this`written, this`indx, this`symCount, this`records, this`origins, this`symoff, this`file
      ensures Valid() && Extends(St(), old(St()))
      ensures h.Some? ==>
        && (index >= 0 <==> HasSymbol(hash[h.value]) || old(indx[h.value]) >= 0)
        && (index < 0 ==> index == -2) && (index >= 0 ==> index < |records| && origins[index].Entry() == h)
      ensures h.None? ==> index == 0
    {
      if h.Some? {
        NeedSymbol(h.value);
        index := indx[h.value];
        assert EntryOk(hash, St(), h.value);
      } else {
        index := 0;
      }
    }

    // ----- final_link -----

    /** What reading the input files guarantees before the final link. */
    ghost predicate Ready(inp: InputBfd)
      reads inp
    {
      && |inp.symHashes| == |inp.input.syms| <= maxSymCount && HashesIn(hash, inp.symHashes)
      && StabsHaveNoEntry(inp.input, inp.symHashes)
    }

    lemma ReadyMeans(inp: InputBfd)
      requires Valid() && Ready(inp)
      ensures WalkShape(hash, inp.input, Now(inp, false, false)) && StabsHaveNoEntry(inp.input, inp.symHashes)
      ensures |inp.input.syms| <= maxSymCount
    {
      hide HashesIn, StabsHaveNoEntry, Coherent, LinksDown, FileHolds;
    }

    /** aout_link_input_bfd: the symbols, then the relocs against symbols `externs`. */
    method LinkInput(inp: InputBfd, externs: seq<nat>)
      requires Valid() && Ready(inp) && NothingLost(o, hash, St())
      requires forall r :: r in externs ==> r < |inp.input.syms|
      modifies this`written, this`indx, this`includes, this`symCount, this`records, this`origins, this`symoff, this`file
      modifies inp`symHashes, symbolMap, outputSyms
      ensures Valid() && NothingLost(o, hash, St()) && Extends(St(), old(St()))
    {
      hide *;
      ValidMeans();
      ReadyMeans(inp);
      NowIs(inp, false, false);
      ghost var st0 := St();
      WriteSymbolsLosesNothing(o, hash, inp.input, inp.symHashes, st0);
      WriteSymbols(inp);
      ValidMeans();
      for j := 0 to |externs|
        invariant Valid() && Shape(hash, St()) && NothingLost(o, hash, St()) && Extends(St(), st0)
        invariant WalkShape(hash, inp.input, Now(inp, false, false))
      {
        ValidMeans();
        assert externs[j] in externs;
        NowIs(inp, false, false);
        HashIn(inp, Now(inp, false, false), externs[j]);
        var h := inp.symHashes[externs[j]];
        ghost var w1 := Now(inp, false, false);
        if h.Some? {
          NeedLosesNothing(o, hash, St(), h.value);
        }
        var _, _ := RelocIndex(inp, externs[j]);
        ExtendsFurther(st0, w1.st, St());
        ValidMeans();
        NowIs(inp, false, false);
        ShapeStays(inp, w1, Now(inp, false, false));
      }
    }

    /** What was kept and then kept again is kept. */
    lemma ExtendsFurther(st0: State, st1: State, st2: State)
      requires Extends(st1, st0) && Extends(st2, st1)
      ensures Extends(st2, st0)
    {
    }

    lemma ExtendsItself(st: State)
      ensures Extends(st, st)
    {
    }

    /** After the traversal nothing not stripped is without its record, and no later record changes that. */
    lemma AllHaveRecords(st: State)
      requires Valid() && Coherent(hash, st) && Extends(St(), st)
      requires forall k :: 0 <= k < |hash| && HasSymbol(hash[k]) && !StrippedEntry(o, hash[k]) ==> st.indx[k] >= 0
      ensures forall k :: 0 <= k < |hash| && HasSymbol(hash[k]) && !StrippedEntry(o, hash[k]) ==>
        && 0 <= indx[k] < |records| && origins[indx[k]].Entry() == Some(k) && records[indx[k]].name == hash[k].name
        && (origins[indx[k]].FromTable? ==> OtherRecord(hash[k]) == Some(records[indx[k]]))
    {
      ValidMeans();
      hide Coherent, StrippedEntry, Extends, FileHolds, LinksDown;
      forall k | 0 <= k < |hash| && HasSymbol(hash[k]) && !StrippedEntry(o, hash[k])
        ensures 0 <= indx[k] < |records| && origins[indx[k]].Entry() == Some(k) && records[indx[k]].name == hash[k].name
        ensures origins[indx[k]].FromTable? ==> OtherRecord(hash[k]) == Some(records[indx[k]])
      {
        IndexStays(hash, st, St(), k);
      }
    }

    lemma PositionIs(n: nat)
      ensures RecordPos(symFilepos, n) == symFilepos + NLIST_SIZE * n == symFilepos + n * NLIST_SIZE
    {
    }

    lemma ShapeStays(inp: InputBfd, w: Walk, w': Walk)
      requires WalkShape(hash, inp.input, w) && w'.hashes == w.hashes && Shape(hash, w'.st)
      ensures WalkShape(hash, inp.input, w')
    {
    }

    /**
      final_link: every input, then every remaining symbol, then the linker's own relocs.
      The string table goes right behind the last record.
     */
    method Link(dynamic: Option<nat>, inputs: seq<InputBfd>, externs: seq<seq<nat>>, linkOrders: seq<Option<nat>>)
      returns (aSyms: int, strFilepos: int)
      requires Valid() && St() == Initial(hash) && |externs| == |inputs|
      requires forall j :: 0 <= j < |inputs| ==> Ready(inputs[j])
      requires forall j, r :: 0 <= j < |inputs| && r in externs[j] ==> r < |inputs[j].input.syms|
      requires forall i, j :: 0 <= i < j < |inputs| ==> inputs[i] != inputs[j]
      requires dynamic.Some? ==> dynamic.value < |hash|
      requires forall h :: h in linkOrders && h.Some? ==> h.value < |hash|
      modifies this, inputs, symbolMap, outputSyms
      ensures Valid() && aSyms == NLIST_SIZE * |records| && strFilepos == symFilepos + aSyms == symoff
      ensures forall k :: 0 <= k < |hash| && HasSymbol(hash[k]) && !StrippedEntry(o, hash[k]) ==>
        && 0 <= indx[k] < |records| && origins[indx[k]].Entry() == Some(k) && records[indx[k]].name == hash[k].name
        && (origins[indx[k]].FromTable? ==> OtherRecord(hash[k]) == Some(records[indx[k]]))
    {
      hide *;
      ValidMeans();
      InitialLosesNothing(o, hash);
      if dynamic.Some? {
        WriteOtherLosesNothing(o, hash, St(), dynamic.value);
        WriteOtherSymbol(dynamic.value);
        ValidMeans();
      }
      for j := 0 to |inputs|
        invariant Valid() && Shape(hash, St()) && NothingLost(o, hash, St())
        invariant forall i :: j <= i < |inputs| ==> Ready(inputs[i])
      {
        LinkInput(inputs[j], externs[j]);
        ValidMeans();
      }
      WriteRemaining();
      ghost var st1 := St();
      ValidMeans();
      ExtendsItself(st1);
      for j := 0 to |linkOrders|
        invariant Valid() && Extends(St(), st1)
      {
        assert linkOrders[j] in linkOrders;
        ghost var st2 := St();
        var _ := LinkOrderIndex(linkOrders[j]);
        ExtendsFurther(st1, st2, St());
      }
      ValidMeans();
      AllHaveRecords(st1);
      aSyms := symCount * NLIST_SIZE;
      strFilepos := symFilepos + aSyms;
      PositionIs(symCount);
    }
  }

  /** The `max_sym_count` loop of final_link. */
  method MaxSymCount(inputs: seq<InputBfd>) returns (m: nat)
    ensures forall j :: 0 <= j < |inputs| ==> |inputs[j].input.syms| <= m
    ensures m == 0 || exists j :: 0 <= j < |inputs| && |inputs[j].input.syms| == m
  {
    m := 0;
    for j := 0 to |inputs|
      invariant forall i :: 0 <= i < j ==> |inputs[i].input.syms| <= m
      invariant m == 0 || exists i :: 0 <= i < j && |inputs[i].input.syms| == m
    {
      var sz := |inputs[j].input.syms|;
      if sz > m {
        m := sz;
      }
    }
  }
}
