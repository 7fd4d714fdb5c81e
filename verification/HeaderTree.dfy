/**
  Removing duplicate headers (aoutx.h): the flat loop with its two look-ahead scans is a
  recursive rewrite of the tree of included headers.
 */
module HeaderTree {
  import opened CBytes
  import opened LinkModel
  import opened HeaderScan
  import opened SymbolWalk

  /** A balanced run of symbols: plain ones, and headers closed by their own N_EINCL. */
  datatype Forest =
    | Empty
    | Plain(sym: Sym, rest: Forest)
    | Header(begin: Sym, body: Forest, end: Sym, rest: Forest)

  function Flatten(f: Forest): seq<Sym> {
    match f
    case Empty => []
    case Plain(sym, rest) => [sym] + Flatten(rest)
    case Header(begin, body, end, rest) => [begin] + Flatten(body) + [end] + Flatten(rest)
  }

  /** The brackets are brackets, and nothing else is. */
  ghost predicate WellNested(f: Forest) {
    match f
    case Empty => true
    case Plain(sym, rest) => sym.typ != N_BINCL && sym.typ != N_EINCL && WellNested(rest)
    case Header(begin, body, end, rest) =>
      begin.typ == N_BINCL && end.typ == N_EINCL && WellNested(body) && WellNested(rest)
  }

  /** The checksum of a header: the symbols directly in it, not those of nested headers. */
  function OwnTotal(f: Forest): int {
    match f
    case Empty => 0
    case Plain(sym, rest) => StringTotal(sym.name) + OwnTotal(rest)
    case Header(_, _, _, rest) => OwnTotal(rest)
  }

  /** What a header is recognized by. */
  function Key(f: Forest): (string, int)
    requires f.Header?
  {
    (f.begin.name, OwnTotal(f.body) % TWO_TO_64)
  }

  // ----- The recursive rewrite -----

  /** One symbol kept: the loop body without the header machinery's look-ahead. */
  function Keep(o: Options, hash: seq<HashEntry>, input: Input, w: Walk, i: nat): (r: (Walk, seq<int>))
    requires WalkShape(hash, input, w) && i < |input.syms|
    ensures WalkShape(hash, input, r.0) && |r.1| == 1
  {
    var s := Step(o, hash, input, w, i);
    (s.w, [s.slot])
  }

  /**
    Rewriting a forest whose symbols start at `i`; `dropped` says that it is the body of a
    duplicate, of which only nested headers survive.  Gives the walk and the symbols' slots.
   */
  function Rewrite(o: Options, hash: seq<HashEntry>, input: Input, w: Walk, f: Forest, i: nat, dropped: bool): (r: (Walk, seq<int>))
    requires WalkShape(hash, input, w) && i + |Flatten(f)| <= |input.syms|
    ensures WalkShape(hash, input, r.0) && |r.1| == |Flatten(f)|
    decreases f
  {
    match f
    case Empty => (w, [])
    case Plain(sym, rest) =>
      var (w1, slot) := if dropped then (w, [-1]) else Keep(o, hash, input, w, i);
      var (w2, slots) := Rewrite(o, hash, input, w1, rest, i + 1, dropped);
      (w2, slot + slots)
    case Header(begin, body, end, rest) =>
      var n := |Flatten(body)|;
      var (w1, first) := Keep(o, hash, input, w, i);
      var duplicate := Key(f) in w.st.includes;
      var (w2, inner) := Rewrite(o, hash, input, w1, body, i + 1, duplicate);
      var (w3, last) := if duplicate then (w2, [-1]) else Keep(o, hash, input, w2, i + 1 + n);
      var (w4, slots) := Rewrite(o, hash, input, w3, rest, i + 1 + n + 1, dropped);
      (w4, first + inner + last + slots)
  }

  // ----- What the theorem assumes -----

  /** Debugging symbols are all written. */
  predicate KeepsStabs(o: Options) {
    o.strip == StripNone && o.discard != DiscardAll
  }

  /** The symbol leaves a flag for the next one: it asks for one and is not a local label that is discarded. */
  predicate LeavesFlag(o: Options, sym: Sym, known: bool) {
    Asks(sym.typ) && (known || !Discarded(o, sym.typ, sym.name))
  }

  /** The flag behind a plain symbol: one that is affected by a flag leaves none. */
  predicate NextFlag(o: Options, sym: Sym, known: bool, flag: bool) {
    !flag && LeavesFlag(o, sym, known)
  }

  /** The flag behind a forest that starts at `i`; `known` tells which symbols have entries.  A header's end clears it. */
  predicate FlagAfter(o: Options, known: seq<bool>, f: Forest, i: nat, flag: bool)
    requires i + |Flatten(f)| <= |known|
    decreases f
  {
    match f
    case Empty => flag
    case Plain(sym, rest) => FlagAfter(o, known, rest, i + 1, NextFlag(o, sym, known[i], flag))
    case Header(_, body, _, rest) => FlagAfter(o, known, rest, i + 2 + |Flatten(body)|, false)
  }

  /** No header stands where a flag is left for it. */
  predicate Unpassed(o: Options, known: seq<bool>, f: Forest, i: nat, flag: bool)
    requires i + |Flatten(f)| <= |known|
    decreases f
  {
    match f
    case Empty => true
    case Plain(sym, rest) => Unpassed(o, known, rest, i + 1, NextFlag(o, sym, known[i], flag))
    case Header(_, body, _, rest) =>
      !flag && Unpassed(o, known, body, i + 1, false) && Unpassed(o, known, rest, i + 2 + |Flatten(body)|, false)
  }

  /** No header's end does. */
  predicate EndsUnpassed(o: Options, known: seq<bool>, f: Forest, i: nat)
    requires i + |Flatten(f)| <= |known|
    decreases f
  {
    match f
    case Empty => true
    case Plain(_, rest) => EndsUnpassed(o, known, rest, i + 1)
    case Header(_, body, _, rest) =>
      && !FlagAfter(o, known, body, i + 1, false)
      && EndsUnpassed(o, known, body, i + 1) && EndsUnpassed(o, known, rest, i + 2 + |Flatten(body)|)
  }

  /** What follows a symbol that asks is a plain symbol that does not, as the format has it. */
  ghost predicate Calm(f: Forest) {
    match f
    case Empty => true
    case Plain(sym, rest) => (Asks(sym.typ) ==> rest.Plain? && !Asks(rest.sym.typ)) && Calm(rest)
    case Header(_, body, _, rest) => Calm(body) && Calm(rest)
  }

  /** Then no flag reaches a bracket, whatever is discarded. */
  lemma {:induction false} CalmIsUnpassed(o: Options, known: seq<bool>, f: Forest, i: nat, flag: bool)
    requires Calm(f) && i + |Flatten(f)| <= |known| && (flag ==> f.Plain? && !Asks(f.sym.typ))
    ensures Unpassed(o, known, f, i, flag) && EndsUnpassed(o, known, f, i) && !FlagAfter(o, known, f, i, flag)
    decreases f
  {
    hide Discarded;
    match f
    case Empty =>
    case Plain(sym, rest) => CalmIsUnpassed(o, known, rest, i + 1, NextFlag(o, sym, known[i], flag));
    case Header(_, body, _, rest) =>
      CalmIsUnpassed(o, known, body, i + 1, false);
      CalmIsUnpassed(o, known, rest, i + 2 + |Flatten(body)|, false);
  }

  /** Which symbols have entries. */
  function Known(hashes: seq<Option<nat>>): (r: seq<bool>)
    ensures |r| == |hashes| && forall j :: 0 <= j < |hashes| ==> r[j] == hashes[j].Some?
  {
    seq(|hashes|, j requires 0 <= j < |hashes| => hashes[j].Some?)
  }

  /** The walk is between two symbols; at most one of its flags is set. */
  ghost predicate Between(hash: seq<HashEntry>, input: Input, w: Walk) {
    WalkShape(hash, input, w) && StabsHaveNoEntry(input, w.hashes) && !(w.pass && w.skipNext)
  }

  /** And the first does not affect the second. */
  ghost predicate Level(hash: seq<HashEntry>, input: Input, w: Walk) {
    Between(hash, input, w) && !w.pass && !w.skipNext
  }

  /** The walk has this flag, or none in a duplicate, whose plain symbols are not walked over. */
  ghost predicate Ready(hash: seq<HashEntry>, input: Input, w: Walk, known: seq<bool>, flag: bool, dropped: bool) {
    Between(hash, input, w) && Known(w.hashes) == known && (w.pass || w.skipNext <==> !dropped && flag)
  }

  lemma LevelIsReady(hash: seq<HashEntry>, input: Input, w: Walk, known: seq<bool>, flag: bool, dropped: bool)
    requires Level(hash, input, w) && Known(w.hashes) == known && !flag
    ensures Ready(hash, input, w, known, flag, dropped)
  {
  }

  lemma ReadyMeans(hash: seq<HashEntry>, input: Input, w: Walk, known: seq<bool>, flag: bool, dropped: bool)
    requires Ready(hash, input, w, known, flag, dropped)
    ensures WalkShape(hash, input, w) && Between(hash, input, w) && |known| == |input.syms| && Known(w.hashes) == known
    ensures !flag || dropped ==> Level(hash, input, w)
  {
  }

  // ----- The scans, over a tree -----

  /** The slots of a forest before the loop reaches it: a duplicate's own symbols are marked. */
  function FreshSlots(f: Forest, dropped: bool): (r: seq<int>)
    ensures |r| == |Flatten(f)|
  {
    match f
    case Empty => []
    case Plain(_, rest) => [if dropped then -1 else 0] + FreshSlots(rest, dropped)
    case Header(_, body, _, rest) => [0] + FreshSlots(body, false) + [0] + FreshSlots(rest, dropped)
  }

  lemma SubSlice<T>(s: seq<T>, j: nat, all: seq<T>, from: nat, end: nat)
    requires from <= end <= |all| && j + |all| <= |s| && s[j..j + |all|] == all
    ensures s[j + from..j + end] == all[from..end]
  {
    forall k | from <= k < end ensures s[j + k] == all[k] {
      assert s[j..j + |all|][k] == s[j + k];
    }
  }

  lemma Cat2<T>(a: seq<T>, x: T, r: seq<T>, b: seq<T>)
    ensures a + ([x] + r) + b == (a + [x]) + r + b
    ensures ([x] + r)[0] == x && ([x] + r)[1..] == r
  {
  }

  lemma Cat4<T>(a: seq<T>, x: T, inner: seq<T>, y: T, r: seq<T>, b: seq<T>)
    ensures a + ([x] + inner + [y] + r) + b == (a + [x]) + inner + ([y] + r + b)
    ensures a + ([x] + inner + [y] + r) + b == (a + [x] + inner + [y]) + r + b
    ensures var all := [x] + inner + [y] + r; var n := |inner|;
      && |all| == n + |r| + 2 && all[0] == x && all[1..1 + n] == inner && all[1 + n] == y && all[2 + n..] == r
  {
  }

  lemma FlattenHeader(f: Forest)
    requires f.Header?
    ensures Flatten(f) == [f.begin] + Flatten(f.body) + [f.end] + Flatten(f.rest)
  {
  }

  lemma FourPieces<T>(s: seq<T>, j: nat, x: T, inner: seq<T>, y: T, r: seq<T>)
    requires var all := [x] + inner + [y] + r; j + |all| <= |s| && s[j..j + |all|] == all
    ensures var n, m := |inner|, |r|;
      && j + n + m + 2 <= |s| && s[j] == x && s[j + 1..j + 1 + n] == inner
      && s[j + 1 + n] == y && s[j + 2 + n..j + 2 + n + m] == r
  {
    var all, n := [x] + inner + [y] + r, |inner|;
    forall k | 0 <= k < |all| ensures s[j + k] == all[k] {
      assert s[j..j + |all|][k] == s[j + k];
    }
    assert s[j + 0] == x && s[j + (1 + n)] == y;
    assert forall k :: 0 <= k < n ==> s[j + (1 + k)] == inner[k];
    assert forall k :: 0 <= k < |r| ==> s[j + (2 + n + k)] == r[k];
  }

  /** The pieces of a header's symbols. */
  lemma HeaderPieces(syms: seq<Sym>, j: nat, f: Forest)
    requires f.Header? && j + |Flatten(f)| <= |syms| && syms[j..j + |Flatten(f)|] == Flatten(f)
    ensures var n, m := |Flatten(f.body)|, |Flatten(f.rest)|;
      && |Flatten(f)| == n + m + 2
      && syms[j] == f.begin && syms[j + 1..j + 1 + n] == Flatten(f.body)
      && syms[j + 1 + n] == f.end && syms[j + 2 + n..j + 2 + n + m] == Flatten(f.rest)
  {
    hide *;
    FlattenHeader(f);
    FourPieces(syms, j, f.begin, Flatten(f.body), f.end, Flatten(f.rest));
  }

  lemma HeaderBrackets(syms: seq<Sym>, j: nat, f: Forest)
    requires f.Header? && WellNested(f) && j + |Flatten(f)| <= |syms| && syms[j..j + |Flatten(f)|] == Flatten(f)
    ensures |Flatten(f)| == |Flatten(f.body)| + |Flatten(f.rest)| + 2
    ensures syms[j].typ == N_BINCL && syms[j + 1 + |Flatten(f.body)|].typ == N_EINCL
    ensures WellNested(f.body) && WellNested(f.rest)
  {
    HeaderPieces(syms, j, f);
    hide Flatten;
  }

  lemma FreshHeader(f: Forest, dropped: bool)
    requires f.Header?
    ensures FreshSlots(f, dropped) == [0] + FreshSlots(f.body, false) + [0] + FreshSlots(f.rest, dropped)
  {
    hide Flatten;
  }

  lemma PlainPieces(syms: seq<Sym>, j: nat, f: Forest)
    requires f.Plain? && j + |Flatten(f)| <= |syms| && syms[j..j + |Flatten(f)|] == Flatten(f)
    ensures |Flatten(f)| == 1 + |Flatten(f.rest)|
    ensures syms[j] == f.sym && syms[j + 1..j + 1 + |Flatten(f.rest)|] == Flatten(f.rest)
  {
    var all := Flatten(f);
    Cat2([], f.sym, Flatten(f.rest), []);
    SubSlice(syms, j, all, 1, |all|);
    assert syms[j] == syms[j..j + |all|][0];
  }

  /** The first scan crosses a whole forest, adding its own total at depth 0 and nothing deeper. */
  lemma {:induction false} TotalOfForest(syms: seq<Sym>, j: nat, f: Forest, nest: nat)
    requires WellNested(f) && j + |Flatten(f)| <= |syms| && syms[j..j + |Flatten(f)|] == Flatten(f)
    ensures HeaderTotal(syms, j, nest)
         == (if nest == 0 then OwnTotal(f) else 0) + HeaderTotal(syms, j + |Flatten(f)|, nest)
    decreases f, 1
  {
    match f
    case Empty =>
    case Plain(sym, rest) =>
      PlainPieces(syms, j, f);
      TotalOfForest(syms, j + 1, rest, nest);
    case Header(_, _, _, _) => TotalOfHeader(syms, j, f, nest);
  }

  lemma {:induction false} TotalOfHeader(syms: seq<Sym>, j: nat, f: Forest, nest: nat)
    requires f.Header? && WellNested(f) && j + |Flatten(f)| <= |syms| && syms[j..j + |Flatten(f)|] == Flatten(f)
    ensures HeaderTotal(syms, j, nest)
         == (if nest == 0 then OwnTotal(f) else 0) + HeaderTotal(syms, j + |Flatten(f)|, nest)
    decreases f, 0
  {
    hide Flatten, WellNested;
    HeaderPieces(syms, j, f);
    HeaderBrackets(syms, j, f);
    var n := |Flatten(f.body)|;
    TotalOfForest(syms, j + 1, f.body, nest + 1);
    TotalOfForest(syms, j + 2 + n, f.rest, nest);
  }

  /** One step of the second scan. */
  lemma MarkedStep(syms: seq<Sym>, map_: seq<int>, j: nat, nest: nat)
    requires j < |syms| == |map_|
    ensures syms[j].typ == N_BINCL ==> Marked(syms, map_, j, nest) == Marked(syms, map_, j + 1, nest + 1)
    ensures syms[j].typ == N_EINCL && nest > 0 ==> Marked(syms, map_, j, nest) == Marked(syms, map_, j + 1, nest - 1)
    ensures syms[j].typ == N_EINCL && nest == 0 ==> Marked(syms, map_, j, nest) == map_[j := -1]
    ensures syms[j].typ != N_BINCL && syms[j].typ != N_EINCL ==>
      Marked(syms, map_, j, nest) == Marked(syms, if nest == 0 then map_[j := -1] else map_, j + 1, nest)
  {
  }

  /** The second scan crosses a whole forest, marking its own symbols at depth 0 and nothing deeper. */
  lemma {:induction false} MarksOfForest(syms: seq<Sym>, j: nat, f: Forest, nest: nat, a: seq<int>, b: seq<int>)
    requires WellNested(f) && j + |Flatten(f)| <= |syms| && syms[j..j + |Flatten(f)|] == Flatten(f)
    requires |a| == j && |b| == |syms| - j - |Flatten(f)|
    ensures Marked(syms, a + FreshSlots(f, false) + b, j, nest)
         == Marked(syms, a + FreshSlots(f, nest == 0) + b, j + |Flatten(f)|, nest)
    decreases f, 1
  {
    match f
    case Empty =>
    case Plain(_, _) => MarksOfPlain(syms, j, f, nest, a, b);
    case Header(_, _, _, _) => MarksOfHeader(syms, j, f, nest, a, b);
  }

  lemma {:induction false} MarksOfPlain(syms: seq<Sym>, j: nat, f: Forest, nest: nat, a: seq<int>, b: seq<int>)
    requires f.Plain? && WellNested(f) && j + |Flatten(f)| <= |syms| && syms[j..j + |Flatten(f)|] == Flatten(f)
    requires |a| == j && |b| == |syms| - j - |Flatten(f)|
    ensures Marked(syms, a + FreshSlots(f, false) + b, j, nest)
         == Marked(syms, a + FreshSlots(f, nest == 0) + b, j + |Flatten(f)|, nest)
    decreases f, 0
  {
    PlainPieces(syms, j, f);
    var slot, unread, marked := if nest == 0 then -1 else 0, FreshSlots(f.rest, false), FreshSlots(f.rest, nest == 0);
    MarkedStep(syms, a + ([0] + unread) + b, j, nest);
    Cat2(a, 0, unread, b);
    Cat2(a, slot, marked, b);
    SetSlot(a, 0, slot, unread, b);
    hide Marked;
    MarksOfForest(syms, j + 1, f.rest, nest, a + [slot], b);
  }

  lemma {:induction false} MarksOfHeader(syms: seq<Sym>, j: nat, f: Forest, nest: nat, a: seq<int>, b: seq<int>)
    requires f.Header? && WellNested(f) && j + |Flatten(f)| <= |syms| && syms[j..j + |Flatten(f)|] == Flatten(f)
    requires |a| == j && |b| == |syms| - j - |Flatten(f)|
    ensures Marked(syms, a + FreshSlots(f, false) + b, j, nest)
         == Marked(syms, a + FreshSlots(f, nest == 0) + b, j + |Flatten(f)|, nest)
    decreases f, 0
  {
    hide *;
    HeaderPieces(syms, j, f);
    HeaderBrackets(syms, j, f);
    var n, inside := |Flatten(f.body)|, FreshSlots(f.body, false);
    var after, marked := FreshSlots(f.rest, false), FreshSlots(f.rest, nest == 0);
    HeaderSlots(f, false, a, b);
    HeaderSlots(f, nest == 0, a, b);
    var all, a2 := (a + [0]) + inside + ([0] + (after + b)), ((a + [0]) + inside) + [0];
    MarkedStep(syms, all, j, nest);
    MarksOfForest(syms, j + 1, f.body, nest + 1, a + [0], [0] + (after + b));
    MarkedStep(syms, all, j + 1 + n, nest + 1);
    BehindEnd(a + [0], inside, after, b);
    BehindEnd(a + [0], inside, marked, b);
    MarksOfForest(syms, j + 2 + n, f.rest, nest, a2, b);
  }

  lemma BehindEnd(a: seq<int>, inside: seq<int>, after: seq<int>, b: seq<int>)
    ensures a + inside + ([0] + (after + b)) == ((a + inside) + [0]) + after + b
  {
  }

  lemma SetSlot(a: seq<int>, x: int, y: int, r: seq<int>, b: seq<int>)
    ensures ((a + [x]) + r + b)[|a| := y] == (a + [y]) + r + b
  {
  }

  // ----- One symbol of each kind -----

  lemma StepHashes(o: Options, hash: seq<HashEntry>, input: Input, w: Walk, i: nat)
    requires WalkShape(hash, input, w) && i < |input.syms|
    ensures forall j :: 0 <= j < |w.hashes| && (j != i || w.hashes[j].None?) ==> Step(o, hash, input, w, i).w.hashes[j] == w.hashes[j]
    ensures Known(Step(o, hash, input, w, i).w.hashes) == Known(w.hashes)
  {
  }

  /** Taking a type from the hash table does not turn a non-debugging symbol into one. */
  lemma TableTypeIsPlain(kind: Kind, typ: bv8)
    requires typ & N_STAB == 0
    ensures FromEntry(kind, typ).typ & N_STAB == 0
  {
  }

  /** A plain symbol marks nothing, and sets a flag only if it asks for that and is not affected by one. */
  lemma StepPlain(o: Options, hash: seq<HashEntry>, input: Input, w: Walk, i: nat)
    requires KeepsStabs(o) && Between(hash, input, w) && i < |input.syms| && input.syms[i].typ != N_BINCL
    ensures var s := Step(o, hash, input, w, i);
      && Between(hash, input, s.w) && !s.exclude && Known(s.w.hashes) == Known(w.hashes)
      && (s.w.pass || s.w.skipNext ==> Asks(input.syms[i].typ) && !w.pass && !w.skipNext)
  {
    StepHashes(o, hash, input, w, i);
    ClassifyPlain(hash, input.sections, input.syms[i], ResolveOption(hash, w.hashes[i]));
    hide Classify, Discarded, Stripped, SymbolName, ResolveOption;
  }

  lemma ClassifyPlain(hash: seq<HashEntry>, s: Sections, sym: Sym, resolved: Option<nat>)
    requires resolved.Some? ==> resolved.value < |hash|
    ensures var c := Classify(hash, s, sym, resolved);
      && (c.pass || c.skipNext ==> Asks(sym.typ)) && !(c.pass && c.skipNext)
      && (sym.typ & N_STAB != 0 ==> c.typ == sym.typ) && (sym.typ & N_STAB == 0 ==> c.typ & N_STAB == 0)
  {
    if resolved.Some? && sym.typ & N_STAB == 0 {
      TableTypeIsPlain(hash[resolved.value].kind, sym.typ);
    }
    hide Moved, SetElementValue;
  }

  /** An N_BINCL is written, as N_EXCL when its name and checksum have been seen. */
  lemma StepBegin(o: Options, hash: seq<HashEntry>, input: Input, w: Walk, i: nat)
    requires KeepsStabs(o) && Level(hash, input, w) && i < |input.syms| && input.syms[i].typ == N_BINCL
    ensures var s := Step(o, hash, input, w, i);
      var key := (input.syms[i].name, HeaderTotal(input.syms, i + 1, 0) % TWO_TO_64);
      && Level(hash, input, s.w) && Known(s.w.hashes) == Known(w.hashes) && s.slot == |w.st.records|
      && (s.exclude <==> key in w.st.includes)
      && s.w.st.includes == w.st.includes + {key}
      && s.w.st.records == w.st.records + [Nlist(key.0, if s.exclude then N_EXCL else N_BINCL,
                                                 input.syms[i].other, input.syms[i].desc, key.1 % TWO_TO_32)]
  {
    StepHashes(o, hash, input, w, i);
    assert N_BINCL & N_STAB != 0;
    assert w.hashes[i] == None;
  }

  /** Every symbol that asks is given a flag, whatever the hash table knows of it. */
  lemma AskersClassify(hash: seq<HashEntry>, s: Sections, sym: Sym, resolved: Option<nat>)
    requires (resolved.Some? ==> resolved.value < |hash|) && Asks(sym.typ) && (sym.typ & N_STAB != 0 ==> resolved.None?)
    ensures var c := Classify(hash, s, sym, resolved); c.pass || c.skipNext
    ensures resolved.None? ==> Classify(hash, s, sym, resolved).pass && Classify(hash, s, sym, resolved).typ == sym.typ
  {
    AskersAreOthers(sym.typ);
    hide Moved, SetElementValue;
  }

  lemma AskersAreOthers(typ: bv8)
    requires Asks(typ)
    ensures typ & N_TYPE != N_TEXT && typ & N_TYPE != N_DATA && typ & N_TYPE != N_BSS && typ & N_TYPE != N_ABS
    ensures typ != N_WEAKT && typ != N_WEAKD && typ != N_WEAKB && typ != N_WEAKA
    ensures typ & N_TYPE == N_INDR || typ == N_WARNING
  {
  }

  lemma StepFlags(o: Options, hash: seq<HashEntry>, input: Input, w: Walk, i: nat)
    requires KeepsStabs(o) && Level(hash, input, w) && i < |input.syms| && input.syms[i].typ != N_BINCL
    ensures var s := Step(o, hash, input, w, i);
      && (s.w.pass || s.w.skipNext <==> LeavesFlag(o, input.syms[i], w.hashes[i].Some?))
      && s.w.st.includes == w.st.includes
  {
    ClassifyPlain(hash, input.sections, input.syms[i], ResolveOption(hash, w.hashes[i]));
    if Asks(input.syms[i].typ) {
      AskersClassify(hash, input.sections, input.syms[i], ResolveOption(hash, w.hashes[i]));
    }
    hide Classify, Discarded, ResolveOption;
  }

  // ----- The flat loop refines the rewrite -----

  ghost predicate Placed(input: Input, f: Forest, i: nat) {
    && WellNested(f)
    && i + |Flatten(f)| <= |input.syms| && input.syms[i..i + |Flatten(f)|] == Flatten(f)
  }

  /**
    Over any forest in the input, in any context, the flat loop leaves exactly the state and
    the slots of the recursive rewrite, and no symbol outside it is affected.
   */
  lemma {:induction false} FlatIsRewrite(o: Options, hash: seq<HashEntry>, input: Input, w: Walk, f: Forest, i: nat,
                                         dropped: bool, known: seq<bool>, flag: bool, a: seq<int>, b: seq<int>)
    requires KeepsStabs(o) && Ready(hash, input, w, known, flag, dropped) && Placed(input, f, i)
    requires |known| == |input.syms| && Unpassed(o, known, f, i, flag)
    requires |a| == i && |b| == |input.syms| - i - |Flatten(f)|
    ensures var (w', slots) := Rewrite(o, hash, input, w, f, i, dropped);
      && Ready(hash, input, w', known, FlagAfter(o, known, f, i, flag), dropped)
      && WalkTo(o, hash, input, w, a + FreshSlots(f, dropped) + b, i, i + |Flatten(f)|) == (w', a + slots + b)
    decreases f, 1
  {
    match f
    case Empty =>
      assert a + FreshSlots(f, dropped) + b == a + [] + b;
    case Plain(_, _) => FlatPlain(o, hash, input, w, f, i, dropped, known, flag, a, b);
    case Header(_, _, _, _) => FlatHeader(o, hash, input, w, f, i, dropped, known, a, b);
  }

  lemma {:induction false} FlatPlain(o: Options, hash: seq<HashEntry>, input: Input, w: Walk, f: Forest, i: nat,
                                     dropped: bool, known: seq<bool>, flag: bool, a: seq<int>, b: seq<int>)
    requires f.Plain? && KeepsStabs(o) && Ready(hash, input, w, known, flag, dropped) && Placed(input, f, i)
    requires |known| == |input.syms| && Unpassed(o, known, f, i, flag)
    requires |a| == i && |b| == |input.syms| - i - |Flatten(f)|
    ensures var (w', slots) := Rewrite(o, hash, input, w, f, i, dropped);
      && Ready(hash, input, w', known, FlagAfter(o, known, f, i, flag), dropped)
      && WalkTo(o, hash, input, w, a + FreshSlots(f, dropped) + b, i, i + |Flatten(f)|) == (w', a + slots + b)
    decreases f, 0
  {
    hide *;
    PlainPlaced(input, f, i);
    ReadyMeans(hash, input, w, known, flag, dropped);
    PlainFlags(o, known, f, i, flag);
    var unread, flag' := FreshSlots(f.rest, dropped), NextFlag(o, f.sym, known[i], flag);
    var (w1, slot) := if dropped then (w, [-1]) else Keep(o, hash, input, w, i);
    PlainSlots(f, dropped);
    PlainRewrites(o, hash, input, w, f, i, dropped);
    PlainSteps(o, hash, input, w, i, dropped, a, unread + b);
    PlainReady(o, hash, input, w, f, i, dropped, known, flag);
    var (w', slots) := Rewrite(o, hash, input, w1, f.rest, i + 1, dropped);
    var mark := if dropped then -1 else 0;
    Cat2(a, mark, unread, b);
    Cat2(a, slot[0], slots, b);
    assert a + [mark] + (unread + b) == a + ([mark] + unread) + b;
    assert (a + slot) + unread + b == a + slot + (unread + b);
    WalkFirst(o, hash, input, w, a + FreshSlots(f, dropped) + b, i, i + |Flatten(f)|);
    FlatIsRewrite(o, hash, input, w1, f.rest, i + 1, dropped, known, flag', a + slot, b);
    assert slot == [slot[0]];
  }

  lemma PlainFlags(o: Options, known: seq<bool>, f: Forest, i: nat, flag: bool)
    requires f.Plain? && i + |Flatten(f)| <= |known| && |Flatten(f)| == 1 + |Flatten(f.rest)|
    ensures var flag' := NextFlag(o, f.sym, known[i], flag);
      && (Unpassed(o, known, f, i, flag) <==> Unpassed(o, known, f.rest, i + 1, flag'))
      && (EndsUnpassed(o, known, f, i) <==> EndsUnpassed(o, known, f.rest, i + 1))
      && FlagAfter(o, known, f, i, flag) == FlagAfter(o, known, f.rest, i + 1, flag')
  {
    hide Flatten, NextFlag;
  }

  lemma PlainPlaced(input: Input, f: Forest, i: nat)
    requires f.Plain? && Placed(input, f, i)
    ensures |Flatten(f)| == 1 + |Flatten(f.rest)| && Placed(input, f.rest, i + 1) && i + |Flatten(f)| <= |input.syms|
    ensures input.syms[i] == f.sym && f.sym.typ != N_BINCL && f.sym.typ != N_EINCL
  {
    PlainPieces(input.syms, i, f);
    hide Flatten;
  }

  /** Behind a plain symbol the walk has the flag it leaves. */
  lemma PlainReady(o: Options, hash: seq<HashEntry>, input: Input, w: Walk, f: Forest, i: nat, dropped: bool, known: seq<bool>, flag: bool)
    requires f.Plain? && KeepsStabs(o) && Ready(hash, input, w, known, flag, dropped) && Placed(input, f, i) && i < |input.syms|
    ensures WalkShape(hash, input, w) && |known| == |input.syms|
    ensures var w1 := if dropped then w else Keep(o, hash, input, w, i).0;
      Ready(hash, input, w1, known, NextFlag(o, f.sym, known[i], flag), dropped)
  {
    PlainPlaced(input, f, i);
    hide Placed, Flatten;
    if !dropped {
      StepPlain(o, hash, input, w, i);
      if !flag {
        StepFlags(o, hash, input, w, i);
      }
    }
    hide Step, Between, LeavesFlag;
  }

  lemma PlainSlots(f: Forest, dropped: bool)
    requires f.Plain?
    ensures FreshSlots(f, dropped) == [if dropped then -1 else 0] + FreshSlots(f.rest, dropped)
  {
  }

  lemma PlainRewrites(o: Options, hash: seq<HashEntry>, input: Input, w: Walk, f: Forest, i: nat, dropped: bool)
    requires f.Plain? && WalkShape(hash, input, w) && i + |Flatten(f)| <= |input.syms|
    requires |Flatten(f)| == 1 + |Flatten(f.rest)|
    ensures var (w1, slot) := if dropped then (w, [-1]) else Keep(o, hash, input, w, i);
      var (w', slots) := Rewrite(o, hash, input, w1, f.rest, i + 1, dropped);
      Rewrite(o, hash, input, w, f, i, dropped) == (w', slot + slots)
  {
    hide WalkShape, Keep, Flatten, Key;
  }

  /** The step over a plain symbol or a header's end: skipped in a duplicate, kept otherwise. */
  lemma PlainSteps(o: Options, hash: seq<HashEntry>, input: Input, w: Walk, i: nat, dropped: bool, a: seq<int>, b: seq<int>)
    requires KeepsStabs(o) && Between(hash, input, w) && i < |input.syms| && input.syms[i].typ != N_BINCL
    requires |a| == i && |b| == |input.syms| - i - 1
    ensures var (w1, slot) := if dropped then (w, [-1]) else Keep(o, hash, input, w, i);
      && Between(hash, input, w1) && Known(w1.hashes) == Known(w.hashes)
      && (!Asks(input.syms[i].typ) && (dropped ==> Level(hash, input, w)) ==> Level(hash, input, w1))
      && StepMapped(o, hash, input, w, a + [if dropped then -1 else 0] + b, i) == (w1, a + slot + b)
  {
    if !dropped {
      StepPlain(o, hash, input, w, i);
      var s := Step(o, hash, input, w, i);
      hide Step, Between, Asks;
      assert (a + [0] + b)[i := s.slot] == a + [s.slot] + b;
    }
  }

  lemma EndIsHarmless()
    ensures !Asks(N_EINCL) && N_EINCL != N_BINCL && N_EINCL != N_EXCL
  {
  }

  /** What the first step over a header does, in terms of the header. */
  lemma KeepHeader(o: Options, hash: seq<HashEntry>, input: Input, w: Walk, f: Forest, i: nat)
    requires f.Header? && KeepsStabs(o) && Level(hash, input, w) && Placed(input, f, i)
    ensures i < |input.syms| && WalkShape(hash, input, w)
    ensures var s := Step(o, hash, input, w, i);
      && Keep(o, hash, input, w, i) == (s.w, [s.slot])
      && Level(hash, input, s.w) && Known(s.w.hashes) == Known(w.hashes) && (s.exclude <==> Key(f) in w.st.includes)
      && s.w.st.includes == w.st.includes + {Key(f)}
      && s.w.st.records == w.st.records + [HeaderRecord(f, s.exclude)]
  {
    hide *;
    HeaderPlaced(input, f, i);
    LevelMeans(hash, input, w);
    HeaderKey(input, f, i);
    StepBegin(o, hash, input, w, i);
    KeepIsStep(o, hash, input, w, i);
    RecordOf(f, Step(o, hash, input, w, i).exclude);
  }

  lemma HeaderKey(input: Input, f: Forest, i: nat)
    requires f.Header? && Placed(input, f, i)
    ensures i < |input.syms| && input.syms[i] == f.begin && f.begin.typ == N_BINCL
    ensures Key(f) == (input.syms[i].name, HeaderTotal(input.syms, i + 1, 0) % TWO_TO_64)
  {
    hide Flatten;
    HeaderPieces(input.syms, i, f);
    HeaderBrackets(input.syms, i, f);
    TotalOfForest(input.syms, i + 1, f.body, 0);
  }

  lemma KeepIsStep(o: Options, hash: seq<HashEntry>, input: Input, w: Walk, i: nat)
    requires WalkShape(hash, input, w) && i < |input.syms|
    ensures var s := Step(o, hash, input, w, i); Keep(o, hash, input, w, i) == (s.w, [s.slot])
  {
    hide WalkShape, Step;
  }

  lemma RecordOf(f: Forest, seen: bool)
    requires f.Header?
    ensures HeaderRecord(f, seen) == Nlist(Key(f).0, if seen then N_EXCL else N_BINCL, f.begin.other, f.begin.desc, Key(f).1 % TWO_TO_32)
  {
    hide OwnTotal;
  }

  /** The first step over a header: its own slot, and its body's and its end's if it is a duplicate. */
  lemma HeaderOpens(o: Options, hash: seq<HashEntry>, input: Input, w: Walk, f: Forest, i: nat, a: seq<int>, b: seq<int>)
    requires f.Header? && KeepsStabs(o) && Level(hash, input, w) && Placed(input, f, i)
    requires |a| == i && |b| == |input.syms| - i - |Flatten(f.body)| - 2
    ensures var (w1, first) := Keep(o, hash, input, w, i);
      var duplicate := Key(f) in w.st.includes;
      && Level(hash, input, w1) && Known(w1.hashes) == Known(w.hashes)
      && StepMapped(o, hash, input, w, (a + [0]) + FreshSlots(f.body, false) + ([0] + b), i)
         == (w1, (a + first) + FreshSlots(f.body, duplicate) + ([if duplicate then -1 else 0] + b))
  {
    hide *;
    KeepHeader(o, hash, input, w, f, i);
    var s := Step(o, hash, input, w, i);
    PlacedNests(input, f, i);
    OpenedMap(input.syms, f, i, a, b, s.slot, s.exclude);
    MappedStep(o, hash, input, w, (a + [0]) + FreshSlots(f.body, false) + ([0] + b), i);
  }

  lemma PlacedNests(input: Input, f: Forest, i: nat)
    requires f.Header? && Placed(input, f, i)
    ensures WellNested(f) && i + |Flatten(f)| <= |input.syms| && input.syms[i..i + |Flatten(f)|] == Flatten(f)
    ensures |Flatten(f)| == |Flatten(f.body)| + |Flatten(f.rest)| + 2
  {
    HeaderPieces(input.syms, i, f);
    hide Flatten;
  }

  /** A step on a symbol that is not marked. */
  lemma MappedStep(o: Options, hash: seq<HashEntry>, input: Input, w: Walk, map_: seq<int>, i: nat)
    requires WalkShape(hash, input, w) && i < |input.syms| == |map_| && map_[i] == 0
    ensures var s := Step(o, hash, input, w, i);
      StepMapped(o, hash, input, w, map_, i)
      == (s.w, if s.exclude then Marked(input.syms, map_[i := s.slot], i + 1, 0) else map_[i := s.slot])
  {
  }

  /** What the second scan does to the map. */
  lemma OpenedMap(syms: seq<Sym>, f: Forest, i: nat, a: seq<int>, b: seq<int>, slot: int, duplicate: bool)
    requires f.Header? && WellNested(f) && i + |Flatten(f)| <= |syms| && syms[i..i + |Flatten(f)|] == Flatten(f)
    requires |a| == i && |b| == |syms| - i - |Flatten(f.body)| - 2
    ensures var map1 := ((a + [0]) + FreshSlots(f.body, false) + ([0] + b))[i := slot];
      (if duplicate then Marked(syms, map1, i + 1, 0) else map1)
      == (a + [slot]) + FreshSlots(f.body, duplicate) + ([if duplicate then -1 else 0] + b)
  {
    hide *;
    HeaderPieces(syms, i, f);
    HeaderBrackets(syms, i, f);
    SetSlot(a, 0, slot, FreshSlots(f.body, false), [0] + b);
    if duplicate {
      BodyMarked(syms, i + 1, f.body, a + [slot], b);
    }
  }

  /** The second scan marks a header's body and its end. */
  lemma BodyMarked(syms: seq<Sym>, j: nat, g: Forest, a: seq<int>, b: seq<int>)
    requires WellNested(g) && j + |Flatten(g)| < |syms| && syms[j..j + |Flatten(g)|] == Flatten(g)
    requires syms[j + |Flatten(g)|].typ == N_EINCL && |a| == j && |b| == |syms| - j - |Flatten(g)| - 1
    ensures Marked(syms, a + FreshSlots(g, false) + ([0] + b), j, 0) == a + FreshSlots(g, true) + ([-1] + b)
  {
    hide *;
    MarksOfForest(syms, j, g, 0, a, [0] + b);
    EndMarked(syms, a + FreshSlots(g, true), b);
  }

  lemma EndMarked(syms: seq<Sym>, front: seq<int>, b: seq<int>)
    requires |syms| == |front| + 1 + |b| && syms[|front|].typ == N_EINCL
    ensures Marked(syms, front + ([0] + b), |front|, 0) == front + ([-1] + b)
  {
    MarkedStep(syms, front + ([0] + b), |front|, 0);
    hide Marked;
    SetLast(front, 0, -1, b);
  }

  lemma SetLast(a: seq<int>, x: int, y: int, b: seq<int>)
    ensures (a + ([x] + b))[|a| := y] == a + ([y] + b)
  {
  }

  lemma {:induction false} FlatHeader(o: Options, hash: seq<HashEntry>, input: Input, w: Walk, f: Forest, i: nat,
                                      dropped: bool, known: seq<bool>, a: seq<int>, b: seq<int>)
    requires f.Header? && KeepsStabs(o) && Ready(hash, input, w, known, false, dropped) && Placed(input, f, i)
    requires |known| == |input.syms| && Unpassed(o, known, f, i, false)
    requires |a| == i && |b| == |input.syms| - i - |Flatten(f)|
    ensures var (w', slots) := Rewrite(o, hash, input, w, f, i, dropped);
      && Ready(hash, input, w', known, FlagAfter(o, known, f, i, false), dropped)
      && WalkTo(o, hash, input, w, a + FreshSlots(f, dropped) + b, i, i + |Flatten(f)|) == (w', a + slots + b)
    decreases f, 0
  {
    hide *;
    HeaderPlaced(input, f, i);
    HeaderSlots(f, dropped, a, b);
    ReadyMeans(hash, input, w, known, false, dropped);
    HeaderFlags(o, known, f, i);
    HeaderRewrites(o, hash, input, w, f, i, dropped);
    var n, m := |Flatten(f.body)|, |Flatten(f.rest)|;
    var after := FreshSlots(f.rest, dropped);
    var map0 := a + FreshSlots(f, dropped) + b;
    var duplicate := Key(f) in w.st.includes;
    var mark := if duplicate then -1 else 0;
    // the four parts of the rewrite
    var (w1, first) := Keep(o, hash, input, w, i);
    HeaderOpens(o, hash, input, w, f, i, a, after + b);
    LevelIsReady(hash, input, w1, known, false, duplicate);
    var (w2, inner) := Rewrite(o, hash, input, w1, f.body, i + 1, duplicate);
    FlatIsRewrite(o, hash, input, w1, f.body, i + 1, duplicate, known, false, a + first, [mark] + (after + b));
    var (w3, last) := if duplicate then (w2, [-1]) else Keep(o, hash, input, w2, i + 1 + n);
    var a2 := (a + first) + inner;
    EndIsHarmless();
    ReadyMeans(hash, input, w2, known, FlagAfter(o, known, f.body, i + 1, false), duplicate);
    PlainSteps(o, hash, input, w2, i + 1 + n, duplicate, a2, after + b);
    LevelIsReady(hash, input, w3, known, false, dropped);
    var (w4, slots) := Rewrite(o, hash, input, w3, f.rest, i + 2 + n, dropped);
    FlatIsRewrite(o, hash, input, w3, f.rest, i + 2 + n, dropped, known, false, a2 + last, b);
    // put together
    var end := i + 2 + n + m;
    Regroup(a, first, inner, mark, last, after, b);
    WalkFirst(o, hash, input, w, map0, i, end);
    WalkSplits(o, hash, input, w1, (a + first) + FreshSlots(f.body, duplicate) + ([mark] + (after + b)), i + 1, i + 1 + n, end);
    WalkFirst(o, hash, input, w2, a2 + [mark] + (after + b), i + 1 + n, end);
    Ungroup(a, first, inner, last, slots, b);
  }

  lemma HeaderFlags(o: Options, known: seq<bool>, f: Forest, i: nat)
    requires f.Header? && i + |Flatten(f)| <= |known| && |Flatten(f)| == |Flatten(f.body)| + |Flatten(f.rest)| + 2
    ensures var n := |Flatten(f.body)|;
      && (Unpassed(o, known, f, i, false) <==> Unpassed(o, known, f.body, i + 1, false) && Unpassed(o, known, f.rest, i + 2 + n, false))
      && (EndsUnpassed(o, known, f, i) <==>
            !FlagAfter(o, known, f.body, i + 1, false) && EndsUnpassed(o, known, f.body, i + 1) && EndsUnpassed(o, known, f.rest, i + 2 + n))
      && FlagAfter(o, known, f, i, false) == FlagAfter(o, known, f.rest, i + 2 + n, false)
  {
    hide Flatten;
  }

  lemma Ungroup(a: seq<int>, first: seq<int>, inner: seq<int>, last: seq<int>, slots: seq<int>, b: seq<int>)
    ensures (((a + first) + inner) + last) + slots + b == a + (first + inner + last + slots) + b
  {
  }

  /** The two ways of bracketing the map around a header's end. */
  lemma Regroup(a: seq<int>, first: seq<int>, inner: seq<int>, mark: int, last: seq<int>, after: seq<int>, b: seq<int>)
    ensures (a + first) + inner + ([mark] + (after + b)) == ((a + first) + inner) + [mark] + (after + b)
    ensures ((a + first) + inner) + last + (after + b) == (((a + first) + inner) + last) + after + b
  {
  }

  /** The parts of a header in the input. */
  lemma HeaderPlaced(input: Input, f: Forest, i: nat)
    requires f.Header? && Placed(input, f, i)
    ensures var n, m := |Flatten(f.body)|, |Flatten(f.rest)|;
      && |Flatten(f)| == n + m + 2 && Placed(input, f.body, i + 1) && Placed(input, f.rest, i + 2 + n)
      && i + 2 + n + m <= |input.syms| && input.syms[i + 1 + n].typ == N_EINCL
  {
    HeaderPieces(input.syms, i, f);
    hide Flatten;
  }

  /** The parts of a header in the map. */
  lemma HeaderSlots(f: Forest, dropped: bool, a: seq<int>, b: seq<int>)
    requires f.Header?
    ensures a + FreshSlots(f, dropped) + b == (a + [0]) + FreshSlots(f.body, false) + ([0] + (FreshSlots(f.rest, dropped) + b))
  {
    var inside, after := FreshSlots(f.body, false), FreshSlots(f.rest, dropped);
    assert FreshSlots(f, dropped) == [0] + inside + [0] + after;
    hide *;
    Cat4(a, 0, inside, 0, after, b);
    assert [0] + after + b == [0] + (after + b);
  }

  /** The parts of a header in the rewrite. */
  lemma HeaderRewrites(o: Options, hash: seq<HashEntry>, input: Input, w: Walk, f: Forest, i: nat, dropped: bool)
    requires f.Header? && WalkShape(hash, input, w) && i + |Flatten(f)| <= |input.syms|
    requires |Flatten(f)| == |Flatten(f.body)| + |Flatten(f.rest)| + 2
    ensures var n := |Flatten(f.body)|;
      var (w1, first) := Keep(o, hash, input, w, i);
      var (w2, inner) := Rewrite(o, hash, input, w1, f.body, i + 1, Key(f) in w.st.includes);
      var (w3, last) := if Key(f) in w.st.includes then (w2, [-1]) else Keep(o, hash, input, w2, i + 1 + n);
      var (w4, slots) := Rewrite(o, hash, input, w3, f.rest, i + 2 + n, dropped);
      Rewrite(o, hash, input, w, f, i, dropped) == (w4, first + inner + last + slots)
  {
    hide WalkShape, Keep, Flatten, Key;
  }

  /** aout_link_write_symbols on a file whose symbols are a forest. */
  lemma WriteSymbolsIsRewrite(o: Options, hash: seq<HashEntry>, input: Input, hashes: seq<Option<nat>>, st: State, f: Forest)
    requires KeepsStabs(o) && Level(hash, input, Walk(st, hashes, false, false))
    requires WellNested(f) && input.syms == Flatten(f) && Unpassed(o, Known(hashes), f, 0, false)
    ensures WriteSymbols(o, hash, input, hashes, st)
         == Rewrite(o, hash, input, Walk(WithFileName(o, input, st), hashes, false, false), f, 0, false)
  {
    hide *;
    var w := Walk(WithFileName(o, input, st), hashes, false, false);
    LevelMeans(hash, input, Walk(st, hashes, false, false));
    WalkOfWrite(o, hash, input, hashes, st);
    InPlace(input, f);
    AllZero(f);
    assert [] + FreshSlots(f, false) + [] == FreshSlots(f, false);
    LevelIsReady(hash, input, w, Known(hashes), false, false);
    FlatIsRewrite(o, hash, input, w, f, 0, false, Known(hashes), false, [], []);
    var (w', slots) := Rewrite(o, hash, input, w, f, 0, false);
    assert [] + slots + [] == slots;
  }

  lemma WalkOfWrite(o: Options, hash: seq<HashEntry>, input: Input, hashes: seq<Option<nat>>, st: State)
    requires Level(hash, input, Walk(st, hashes, false, false))
    ensures WalkShape(hash, input, Walk(st, hashes, false, false))
    ensures Level(hash, input, Walk(WithFileName(o, input, st), hashes, false, false))
    ensures WalkShape(hash, input, Walk(WithFileName(o, input, st), hashes, false, false))
    ensures WriteSymbols(o, hash, input, hashes, st)
         == WalkTo(o, hash, input, Walk(WithFileName(o, input, st), hashes, false, false), Cleared(|input.syms|), 0, |input.syms|)
  {
    hide WalkTo;
  }

  /** A file that is a forest. */
  lemma InPlace(input: Input, f: Forest)
    requires WellNested(f) && input.syms == Flatten(f)
    ensures Placed(input, f, 0) && |Flatten(f)| == |input.syms|
  {
    hide Flatten, WellNested;
  }

  lemma {:induction false} AllZero(f: Forest)
    ensures FreshSlots(f, false) == Cleared(|Flatten(f)|)
  {
    match f
    case Empty =>
    case Plain(_, rest) => AllZero(rest);
    case Header(_, body, _, rest) =>
      AllZero(body);
      AllZero(rest);
  }

  // ----- What the rewrite writes -----

  /** The headers of a forest in pre-order, nested ones included. */
  function Headers(f: Forest): seq<Forest>
    ensures forall h :: h in Headers(f) ==> h.Header?
  {
    match f
    case Empty => []
    case Plain(_, rest) => Headers(rest)
    case Header(_, body, _, rest) => [f] + Headers(body) + Headers(rest)
  }

  function Keys(hs: seq<Forest>): set<(string, int)>
    requires forall h :: h in hs ==> h.Header?
  {
    set h | h in hs :: Key(h)
  }

  /** The record of a header: an N_BINCL the first time its name and checksum are seen, an N_EXCL afterwards. */
  function HeaderRecord(h: Forest, seen: bool): Nlist
    requires h.Header?
  {
    Nlist(h.begin.name, if seen then 0xc2 else 0x82, h.begin.other, h.begin.desc, Key(h).1 % TWO_TO_32)
  }

  function Verdicts(hs: seq<Forest>, seen: set<(string, int)>): (r: seq<Nlist>)
    requires forall h :: h in hs ==> h.Header?
    ensures |r| == |hs|
  {
    if hs == [] then []
    else [HeaderRecord(hs[0], Key(hs[0]) in seen)] + Verdicts(hs[1..], seen + {Key(hs[0])})
  }

  /** The k-th header in pre-order is kept exactly when no earlier one has its name and checksum. */
  lemma {:induction false} FirstOneIsKept(hs: seq<Forest>, seen: set<(string, int)>, k: nat)
    requires (forall h :: h in hs ==> h.Header?) && k < |hs|
    ensures Verdicts(hs, seen)[k] == HeaderRecord(hs[k], Key(hs[k]) in seen || exists j :: 0 <= j < k && Key(hs[j]) == Key(hs[k]))
  {
    if k > 0 {
      var rest := hs[1..];
      FirstOneIsKept(rest, seen + {Key(hs[0])}, k - 1);
      assert rest[k - 1] == hs[k];
      if j :| 0 <= j < k && Key(hs[j]) == Key(hs[k]) && j > 0 {
        assert rest[j - 1] == hs[j];
      }
      assert forall j :: 0 <= j < k - 1 ==> rest[j] == hs[j + 1];
    }
  }

  lemma KeysSplit(hs: seq<Forest>)
    requires hs != [] && forall h :: h in hs ==> h.Header?
    ensures Keys(hs) == {Key(hs[0])} + Keys(hs[1..])
  {
    assert hs == [hs[0]] + hs[1..];
    hide Key;
  }

  lemma VerdictsStep(hs: seq<Forest>, seen: set<(string, int)>)
    requires hs != [] && forall h :: h in hs ==> h.Header?
    ensures Verdicts(hs, seen) == [HeaderRecord(hs[0], Key(hs[0]) in seen)] + Verdicts(hs[1..], seen + {Key(hs[0])})
  {
    hide Key, HeaderRecord;
  }

  lemma NoVerdicts(seen: set<(string, int)>)
    ensures Verdicts([], seen) == [] && Keys([]) == {}
  {
  }

  lemma {:induction false} VerdictsOfTwo(hs: seq<Forest>, hs': seq<Forest>, seen: set<(string, int)>)
    requires (forall h :: h in hs ==> h.Header?) && forall h :: h in hs' ==> h.Header?
    ensures forall h :: h in hs + hs' ==> h.Header?
    ensures Verdicts(hs + hs', seen) == Verdicts(hs, seen) + Verdicts(hs', seen + Keys(hs))
  {
    hide *;
    if hs == [] {
      NoVerdicts(seen);
      assert hs + hs' == hs' && seen + Keys(hs) == seen;
      assert [] + Verdicts(hs', seen) == Verdicts(hs', seen);
    } else {
      var seen1 := seen + {Key(hs[0])};
      VerdictsOfTwo(hs[1..], hs', seen1);
      assert (hs + hs')[1..] == hs[1..] + hs' && (hs + hs')[0] == hs[0];
      VerdictsStep(hs + hs', seen);
      VerdictsStep(hs, seen);
      KeysSplit(hs);
      assert seen1 + Keys(hs[1..]) == seen + Keys(hs);
      Grouped([HeaderRecord(hs[0], Key(hs[0]) in seen)], Verdicts(hs[1..], seen1), Verdicts(hs', seen + Keys(hs)));
    }
  }

  lemma Grouped<T>(a: seq<T>, b: seq<T>, c: seq<T>)
    ensures a + (b + c) == a + b + c
  {
  }

  /** The header records among some output. */
  function HeaderRecords(rs: seq<Nlist>): seq<Nlist> {
    if rs == [] then []
    else (if rs[0].typ == N_BINCL || rs[0].typ == N_EXCL then [rs[0]] else []) + HeaderRecords(rs[1..])
  }

  lemma {:induction false} HeaderRecordsOfTwo(a: seq<Nlist>, b: seq<Nlist>)
    ensures HeaderRecords(a + b) == HeaderRecords(a) + HeaderRecords(b)
  {
    if a == [] {
      assert a + b == b;
    } else {
      assert (a + b)[1..] == a[1..] + b && (a + b)[0] == a[0];
      HeaderRecordsOfTwo(a[1..], b);
      var first := if a[0].typ == N_BINCL || a[0].typ == N_EXCL then [a[0]] else [];
      assert HeaderRecords(a + b) == first + HeaderRecords(a[1..] + b);
      hide HeaderRecords;
      assert first + (HeaderRecords(a[1..]) + HeaderRecords(b)) == (first + HeaderRecords(a[1..])) + HeaderRecords(b);
    }
  }

  /** Reading output at nesting depth `depth`; -1 once an N_EINCL has nothing to close. */
  function DepthAfter(rs: seq<Nlist>, depth: int): int {
    if rs == [] || depth < 0 then depth
    else DepthAfter(rs[1..], if rs[0].typ == N_BINCL then depth + 1 else if rs[0].typ == N_EINCL then depth - 1 else depth)
  }

  lemma {:induction false} DepthOfTwo(a: seq<Nlist>, b: seq<Nlist>, depth: int)
    ensures DepthAfter(a + b, depth) == DepthAfter(b, DepthAfter(a, depth))
  {
    if a == [] {
      assert a + b == b;
    } else if depth < 0 {
    } else {
      assert (a + b)[1..] == a[1..] + b;
      DepthOfTwo(a[1..], b, if a[0].typ == N_BINCL then depth + 1 else if a[0].typ == N_EINCL then depth - 1 else depth);
    }
  }

  /** No plain symbol is already an N_EXCL left by an earlier link. */
  ghost predicate NoExclusions(f: Forest) {
    match f
    case Empty => true
    case Plain(sym, rest) => sym.typ != N_EXCL && NoExclusions(rest)
    case Header(_, body, _, rest) => NoExclusions(body) && NoExclusions(rest)
  }

  /** What a step over anything but an N_BINCL writes. */
  lemma StepWrites(o: Options, hash: seq<HashEntry>, input: Input, w: Walk, i: nat)
    requires KeepsStabs(o) && Between(hash, input, w) && i < |input.syms|
    requires var typ := input.syms[i].typ; typ != N_BINCL && typ != N_EXCL && (typ == N_EINCL ==> !w.pass && !w.skipNext)
    ensures var st' := Step(o, hash, input, w, i).w.st;
      && st'.includes == w.st.includes
      && ((st'.records == w.st.records && input.syms[i].typ != N_EINCL)
          || exists r :: st'.records == w.st.records + [r] && r.typ != N_BINCL && r.typ != N_EXCL
                         && (r.typ == N_EINCL <==> input.syms[i].typ == N_EINCL))
  {
    hide Classify, Stripped, Discarded, ResolveOption, HeaderTotal;
    ClassifyPlain(hash, input.sections, input.syms[i], ResolveOption(hash, w.hashes[i]));
    assert var c := Classify(hash, input.sections, input.syms[i], ResolveOption(hash, w.hashes[i]));
      c.typ != N_BINCL && c.typ != N_EXCL && (c.typ == N_EINCL <==> input.syms[i].typ == N_EINCL);
    EndIsKept(o, hash, input, w, i);
    var st' := Step(o, hash, input, w, i).w.st;
    if st'.records != w.st.records {
      assert st'.records == w.st.records + [st'.records[|w.st.records|]];
    }
  }

  /** A header's end is neither stripped nor discarded, and has no entry. */
  lemma EndIsKept(o: Options, hash: seq<HashEntry>, input: Input, w: Walk, i: nat)
    requires KeepsStabs(o) && Between(hash, input, w) && i < |input.syms|
    ensures input.syms[i].typ == N_EINCL ==>
      && w.hashes[i].None? && !Stripped(o, N_EINCL, input.syms[i].name) && !Discarded(o, N_EINCL, input.syms[i].name)
      && Classify(hash, input.sections, input.syms[i], None).typ == N_EINCL
  {
  }

  /** From `st` to `st'` the headers `hs` were written, in order, and the output nests. */
  ghost predicate Wrote(st: State, st': State, hs: seq<Forest>, change: int)
    requires forall h :: h in hs ==> h.Header?
  {
    && st.records <= st'.records
    && st'.includes == st.includes + Keys(hs)
    && HeaderRecords(st'.records[|st.records|..]) == Verdicts(hs, st.includes)
    && forall depth :: depth >= 0 && depth + change >= 0 ==> DepthAfter(st'.records[|st.records|..], depth) == depth + change
  }

  lemma WroteNothing(st: State)
    ensures Wrote(st, st, [], 0)
  {
    assert st.records[|st.records|..] == [];
  }

  lemma WroteTwo(st: State, st1: State, st2: State, hs: seq<Forest>, hs': seq<Forest>, change: int, change': int)
    requires (forall h :: h in hs ==> h.Header?) && forall h :: h in hs' ==> h.Header?
    requires Wrote(st, st1, hs, change) && Wrote(st1, st2, hs', change') && change >= 0
    ensures forall h :: h in hs + hs' ==> h.Header?
    ensures Wrote(st, st2, hs + hs', change + change')
  {
    var n, n1 := |st.records|, |st1.records|;
    var a, b := st1.records[n..], st2.records[n1..];
    assert st2.records[n..] == a + b;
    HeaderRecordsOfTwo(a, b);
    VerdictsOfTwo(hs, hs', st.includes);
    assert Keys(hs + hs') == Keys(hs) + Keys(hs');
    forall depth | depth >= 0 && depth + change + change' >= 0
      ensures DepthAfter(st2.records[n..], depth) == depth + change + change'
    {
      DepthOfTwo(a, b, depth);
    }
  }

  lemma WroteOne(st: State, st': State, r: Nlist)
    requires st'.records == st.records + [r] && st'.includes == st.includes && r.typ != N_BINCL && r.typ != N_EXCL
    ensures Wrote(st, st', [], if r.typ == N_EINCL then -1 else 0)
  {
    var new_ := st'.records[|st.records|..];
    assert new_ == [r] && new_[1..] == [];
  }

  lemma WroteHeader(st: State, st': State, h: Forest)
    requires h.Header? && st'.includes == st.includes + {Key(h)}
    requires st'.records == st.records + [HeaderRecord(h, Key(h) in st.includes)]
    ensures Wrote(st, st', [h], if Key(h) in st.includes then 0 else 1)
  {
    var new_ := st'.records[|st.records|..];
    assert new_ == [HeaderRecord(h, Key(h) in st.includes)] && new_[1..] == [];
    assert [h][1..] == [] && Keys([h]) == {Key(h)};
  }

  /** The first step over a header writes its record. */
  lemma KeepHeaderWrites(o: Options, hash: seq<HashEntry>, input: Input, w: Walk, f: Forest, i: nat)
    requires f.Header? && KeepsStabs(o) && Level(hash, input, w) && Placed(input, f, i)
    ensures Level(hash, input, Keep(o, hash, input, w, i).0) && Known(Keep(o, hash, input, w, i).0.hashes) == Known(w.hashes)
    ensures Wrote(w.st, Keep(o, hash, input, w, i).0.st, [f], if Key(f) in w.st.includes then 0 else 1)
  {
    hide *;
    KeepHeader(o, hash, input, w, f, i);
    var st' := Step(o, hash, input, w, i).w.st;
    WroteHeader(w.st, st', f);
  }

  /** A step over a plain symbol or a header's end. */
  lemma KeepWrites(o: Options, hash: seq<HashEntry>, input: Input, w: Walk, i: nat)
    requires KeepsStabs(o) && Between(hash, input, w) && i < |input.syms|
    requires var typ := input.syms[i].typ; typ != N_BINCL && typ != N_EXCL && (typ == N_EINCL ==> !w.pass && !w.skipNext)
    ensures Between(hash, input, Keep(o, hash, input, w, i).0) && Known(Keep(o, hash, input, w, i).0.hashes) == Known(w.hashes)
    ensures Level(hash, input, w) && !Asks(input.syms[i].typ) ==> Level(hash, input, Keep(o, hash, input, w, i).0)
    ensures Wrote(w.st, Keep(o, hash, input, w, i).0.st, [], if input.syms[i].typ == N_EINCL then -1 else 0)
  {
    StepPlain(o, hash, input, w, i);
    StepWrites(o, hash, input, w, i);
    var st' := Step(o, hash, input, w, i).w.st;
    assert st' == Keep(o, hash, input, w, i).0.st;
    hide Step, Between, Asks;
    if st'.records == w.st.records {
      WroteNothing(w.st);
      assert st'.records[|w.st.records|..] == w.st.records[|w.st.records|..];
    } else {
      var r :| st'.records == w.st.records + [r] && r.typ != N_BINCL && r.typ != N_EXCL
               && (r.typ == N_EINCL <==> input.syms[i].typ == N_EINCL);
      WroteOne(w.st, st', r);
    }
  }

  /**
    The rewrite writes one record per header, in pre-order: N_BINCL the first time a name and
    checksum are met and N_EXCL afterwards, also inside headers that are dropped; and what it
    writes is balanced at any depth.
   */
  lemma {:induction false} RewriteWrites(o: Options, hash: seq<HashEntry>, input: Input, w: Walk, f: Forest, i: nat, dropped: bool,
                                         known: seq<bool>, flag: bool)
    requires KeepsStabs(o) && Ready(hash, input, w, known, flag, dropped) && Placed(input, f, i) && NoExclusions(f)
    requires |known| == |input.syms| && Unpassed(o, known, f, i, flag) && EndsUnpassed(o, known, f, i)
    ensures Ready(hash, input, Rewrite(o, hash, input, w, f, i, dropped).0, known, FlagAfter(o, known, f, i, flag), dropped)
    ensures Wrote(w.st, Rewrite(o, hash, input, w, f, i, dropped).0.st, Headers(f), 0)
    decreases f, 1
  {
    match f
    case Empty => WroteNothing(w.st);
    case Plain(_, _) => PlainWrites(o, hash, input, w, f, i, dropped, known, flag);
    case Header(_, _, _, _) => HeaderWrites(o, hash, input, w, f, i, dropped, known);
  }

  lemma {:induction false} PlainWrites(o: Options, hash: seq<HashEntry>, input: Input, w: Walk, f: Forest, i: nat, dropped: bool,
                                       known: seq<bool>, flag: bool)
    requires f.Plain? && KeepsStabs(o) && Ready(hash, input, w, known, flag, dropped) && Placed(input, f, i) && NoExclusions(f)
    requires |known| == |input.syms| && Unpassed(o, known, f, i, flag) && EndsUnpassed(o, known, f, i)
    ensures Ready(hash, input, Rewrite(o, hash, input, w, f, i, dropped).0, known, FlagAfter(o, known, f, i, flag), dropped)
    ensures Wrote(w.st, Rewrite(o, hash, input, w, f, i, dropped).0.st, Headers(f), 0)
    decreases f, 0
  {
    hide *;
    PlainPlaced(input, f, i);
    ReadyMeans(hash, input, w, known, flag, dropped);
    PlainFlags(o, known, f, i, flag);
    PlainReady(o, hash, input, w, f, i, dropped, known, flag);
    PlainRewrites(o, hash, input, w, f, i, dropped);
    PlainParts(f);
    var flag' := NextFlag(o, f.sym, known[i], flag);
    if dropped {
      RewriteWrites(o, hash, input, w, f.rest, i + 1, dropped, known, flag');
    } else {
      KeepWrites(o, hash, input, w, i);
      var w1 := Keep(o, hash, input, w, i).0;
      var w2 := Rewrite(o, hash, input, w1, f.rest, i + 1, dropped).0;
      RewriteWrites(o, hash, input, w1, f.rest, i + 1, dropped, known, flag');
      WroteTwo(w.st, w1.st, w2.st, [], Headers(f.rest), 0, 0);
      assert [] + Headers(f.rest) == Headers(f.rest);
    }
  }

  lemma PlainParts(f: Forest)
    requires f.Plain? && NoExclusions(f)
    ensures NoExclusions(f.rest) && f.sym.typ != N_EXCL && Headers(f) == Headers(f.rest)
  {
  }

  lemma LevelMeans(hash: seq<HashEntry>, input: Input, w: Walk)
    requires Level(hash, input, w)
    ensures WalkShape(hash, input, w) && Between(hash, input, w) && !w.pass && !w.skipNext
  {
  }

  lemma HeaderParts(f: Forest)
    requires f.Header? && NoExclusions(f)
    ensures NoExclusions(f.body) && NoExclusions(f.rest) && Headers(f) == [f] + Headers(f.body) + Headers(f.rest)
  {
  }

  lemma {:induction false} HeaderWrites(o: Options, hash: seq<HashEntry>, input: Input, w: Walk, f: Forest, i: nat, dropped: bool,
                                        known: seq<bool>)
    requires f.Header? && KeepsStabs(o) && Ready(hash, input, w, known, false, dropped) && Placed(input, f, i) && NoExclusions(f)
    requires |known| == |input.syms| && Unpassed(o, known, f, i, false) && EndsUnpassed(o, known, f, i)
    ensures Ready(hash, input, Rewrite(o, hash, input, w, f, i, dropped).0, known, FlagAfter(o, known, f, i, false), dropped)
    ensures Wrote(w.st, Rewrite(o, hash, input, w, f, i, dropped).0.st, Headers(f), 0)
    decreases f, 0
  {
    hide *;
    var n := |Flatten(f.body)|;
    HeaderPlaced(input, f, i);
    HeaderParts(f);
    ReadyMeans(hash, input, w, known, false, dropped);
    HeaderFlags(o, known, f, i);
    HeaderRewrites(o, hash, input, w, f, i, dropped);
    EndIsHarmless();
    var duplicate := Key(f) in w.st.includes;
    var change := if duplicate then 0 else 1;
    var b, r := Headers(f.body), Headers(f.rest);
    KeepHeaderWrites(o, hash, input, w, f, i);
    var w1 := Keep(o, hash, input, w, i).0;
    LevelIsReady(hash, input, w1, known, false, duplicate);
    RewriteWrites(o, hash, input, w1, f.body, i + 1, duplicate, known, false);
    var w2 := Rewrite(o, hash, input, w1, f.body, i + 1, duplicate).0;
    WroteTwo(w.st, w1.st, w2.st, [f], b, change, 0);
    ReadyMeans(hash, input, w2, known, false, duplicate);
    var w3 := w2;
    if !duplicate {
      LevelMeans(hash, input, w2);
      KeepWrites(o, hash, input, w2, i + 1 + n);
      w3 := Keep(o, hash, input, w2, i + 1 + n).0;
      WroteTwo(w.st, w2.st, w3.st, [f] + b, [], change, -1);
      assert [f] + b + [] == [f] + b;
    }
    LevelIsReady(hash, input, w3, known, false, dropped);
    RewriteWrites(o, hash, input, w3, f.rest, i + 2 + n, dropped, known, false);
    var w4 := Rewrite(o, hash, input, w3, f.rest, i + 2 + n, dropped).0;
    WroteTwo(w.st, w3.st, w4.st, [f] + b, r, 0, 0);
  }

  /**
    The whole of aout_link_write_symbols on balanced input: after the symbol naming the file,
    the first header with each name and checksum is written as N_BINCL, every later one as
    N_EXCL, in pre-order, and the output is balanced again.
   */
  lemma DuplicatesAreExcluded(o: Options, hash: seq<HashEntry>, input: Input, hashes: seq<Option<nat>>, st: State, f: Forest)
    requires KeepsStabs(o) && Level(hash, input, Walk(st, hashes, false, false))
    requires WellNested(f) && NoExclusions(f) && input.syms == Flatten(f)
    requires Unpassed(o, Known(hashes), f, 0, false) && EndsUnpassed(o, Known(hashes), f, 0)
    ensures Wrote(WithFileName(o, input, st), WriteSymbols(o, hash, input, hashes, st).0.st, Headers(f), 0)
  {
    hide *;
    var w := Walk(WithFileName(o, input, st), hashes, false, false);
    LevelMeans(hash, input, Walk(st, hashes, false, false));
    WalkOfWrite(o, hash, input, hashes, st);
    InPlace(input, f);
    WriteSymbolsIsRewrite(o, hash, input, hashes, st, f);
    LevelIsReady(hash, input, w, Known(hashes), false, false);
    RewriteWrites(o, hash, input, w, f, 0, false, Known(hashes), false);
  }

  /** An end that an indirect symbol's target is taken for is lost, if that symbol's entry was written before. */
  lemma SkippedEndIsLost(o: Options, hash: seq<HashEntry>, input: Input, w: Walk, i: nat)
    requires KeepsStabs(o) && Level(hash, input, w) && i + 1 < |input.syms|
    requires input.syms[i].typ == N_INDR && input.syms[i + 1].typ == N_EINCL && w.hashes[i].Some? && w.st.written[w.hashes[i].value]
    ensures var w1 := Step(o, hash, input, w, i).w; Step(o, hash, input, w1, i + 1).w.st == w.st
  {
    StepWritten(o, hash, input, w, i);
    hide Classify, Stripped, Copy, SymbolName, ResolveOption;
  }

  // ----- Headers that are passed by -----

  /** The header was looked up, and recorded if it was new. */
  predicate SeenHeader(input: Input, w: Walk, s: Stepped, i: nat)
    requires i < |input.syms|
  {
    var key := (input.syms[i].name, HeaderTotal(input.syms, i + 1, 0) % TWO_TO_64);
    (s.exclude <==> key in w.st.includes) && s.w.st.includes == w.st.includes + {key}
  }

  lemma FlaggedHeader(o: Options, hash: seq<HashEntry>, input: Input, w: Walk, i: nat)
    requires WalkShape(hash, input, w) && i < |input.syms| && (w.pass || w.skipNext)
    ensures var s := Step(o, hash, input, w, i); !s.exclude && s.w.st.includes == w.st.includes && !SeenHeader(input, w, s, i)
  {
  }

  /**
    A header is looked up and recorded exactly if the symbol right before it leaves no flag: that
    symbol is itself affected by a flag, or is neither indirect nor a warning, or is discarded as
    a local label without an entry.
   */
  lemma HeaderIsSeen(o: Options, hash: seq<HashEntry>, input: Input, w: Walk, i: nat)
    requires KeepsStabs(o) && Between(hash, input, w) && i + 1 < |input.syms| && input.syms[i + 1].typ == N_BINCL
    ensures var w1 := Step(o, hash, input, w, i).w;
      SeenHeader(input, w1, Step(o, hash, input, w1, i + 1), i + 1)
      <==> !NextFlag(o, input.syms[i], w.hashes[i].Some?, w.pass || w.skipNext)
  {
    hide *;
    BetweenMeans(hash, input, w);
    AnyStepFlags(o, hash, input, w, i);
    var w1 := Step(o, hash, input, w, i).w;
    BetweenMeans(hash, input, w1);
    SeenMeans(input, w1, Step(o, hash, input, w1, i + 1), i + 1);
    if w1.pass || w1.skipNext {
      FlaggedHeader(o, hash, input, w1, i + 1);
    } else {
      StepBegin(o, hash, input, w1, i + 1);
    }
  }

  /** The flag a step leaves, whatever it is over. */
  lemma AnyStepFlags(o: Options, hash: seq<HashEntry>, input: Input, w: Walk, i: nat)
    requires KeepsStabs(o) && Between(hash, input, w) && i < |input.syms|
    ensures var w1 := Step(o, hash, input, w, i).w;
      && Between(hash, input, w1)
      && (w1.pass || w1.skipNext <==> NextFlag(o, input.syms[i], w.hashes[i].Some?, w.pass || w.skipNext))
  {
    hide *;
    BetweenMeans(hash, input, w);
    NextMeans(o, input.syms[i], w.hashes[i].Some?, w.pass || w.skipNext);
    if w.pass || w.skipNext {
      FlagIsCleared(o, hash, input, w, i);
    } else if input.syms[i].typ == N_BINCL {
      BeginLeavesNone(o, input.syms[i], w.hashes[i].Some?);
      StepBegin(o, hash, input, w, i);
      BetweenMeans(hash, input, Step(o, hash, input, w, i).w);
      LevelMeans(hash, input, Step(o, hash, input, w, i).w);
    } else {
      StepPlain(o, hash, input, w, i);
      StepFlags(o, hash, input, w, i);
    }
  }

  lemma BeginLeavesNone(o: Options, sym: Sym, known: bool)
    requires sym.typ == N_BINCL
    ensures !LeavesFlag(o, sym, known)
  {
  }

  lemma FlagIsCleared(o: Options, hash: seq<HashEntry>, input: Input, w: Walk, i: nat)
    requires Between(hash, input, w) && i < |input.syms| && (w.pass || w.skipNext)
    ensures var w1 := Step(o, hash, input, w, i).w; Between(hash, input, w1) && !w1.pass && !w1.skipNext
  {
  }

  lemma BetweenMeans(hash: seq<HashEntry>, input: Input, w: Walk)
    requires Between(hash, input, w)
    ensures WalkShape(hash, input, w) && (Level(hash, input, w) <==> !w.pass && !w.skipNext)
  {
  }

  lemma NextMeans(o: Options, sym: Sym, known: bool, flag: bool)
    ensures NextFlag(o, sym, known, flag) <==> !flag && LeavesFlag(o, sym, known)
  {
    hide LeavesFlag;
  }

  lemma SeenMeans(input: Input, w: Walk, s: Stepped, i: nat)
    requires i < |input.syms|
    ensures var key := (input.syms[i].name, HeaderTotal(input.syms, i + 1, 0) % TWO_TO_64);
      SeenHeader(input, w, s, i) <==> (s.exclude <==> key in w.st.includes) && s.w.st.includes == w.st.includes + {key}
  {
    hide HeaderTotal;
  }

  /** A debugging symbol of type 0x2a (N_MAIN) looks like an indirect symbol: a header behind it is written, but not seen. */
  lemma IndirectLookalikePassesHeader(o: Options, hash: seq<HashEntry>, input: Input, w: Walk, i: nat)
    requires KeepsStabs(o) && Level(hash, input, w) && i + 1 < |input.syms|
    requires input.syms[i].typ == 0x2a && input.syms[i + 1].typ == N_BINCL
    ensures var w1 := Step(o, hash, input, w, i).w;
      var s := Step(o, hash, input, w1, i + 1);
      && !SeenHeader(input, w1, s, i + 1) && s.w.st.includes == w.st.includes && !s.exclude
      && var sym := input.syms[i + 1];
         s.w.st.records == w1.st.records + [Nlist(sym.name, N_BINCL, sym.other, sym.desc, sym.value % TWO_TO_32)]
  {
    assert w.hashes[i] == None;
    HeaderIsSeen(o, hash, input, w, i);
    StepFlags(o, hash, input, w, i);
    hide HeaderTotal, SeenHeader;
  }

  // ----- Two headers of one name -----

  /** A stab outside the classes that move: its record. */
  lemma StepStab(o: Options, hash: seq<HashEntry>, input: Input, w: Walk, i: nat)
    requires KeepsStabs(o) && Level(hash, input, w) && i < |input.syms|
    requires input.syms[i].typ == 0x80 || input.syms[i].typ == 0xa2
    ensures var s, sym := Step(o, hash, input, w, i), input.syms[i];
      && Level(hash, input, s.w) && !s.exclude && s.w.st.includes == w.st.includes
      && s.w.st.records == w.st.records + [Nlist(sym.name, sym.typ, sym.other, sym.desc, sym.value % TWO_TO_32)]
  {
    assert w.hashes[i] == None;
    StepHashes(o, hash, input, w, i);
    hide HeaderTotal;
  }

  ghost predicate Unmarked(map_: seq<int>, i: nat) {
    forall j :: i <= j < |map_| ==> map_[j] == 0
  }

  /** What is written for the next symbol, a stab or a header that is new, and the walk behind it. */
  lemma OneOver(o: Options, hash: seq<HashEntry>, input: Input, w: Walk, map_: seq<int>, i: nat) returns (w': Walk, map': seq<int>)
    requires KeepsStabs(o) && Level(hash, input, w) && i < |input.syms| == |map_| && Unmarked(map_, i)
    requires var typ := input.syms[i].typ; typ == 0x80 || typ == 0xa2 || typ == 0x82
    requires input.syms[i].typ == 0x82 ==> (input.syms[i].name, HeaderTotal(input.syms, i + 1, 0) % TWO_TO_64) !in w.st.includes
    ensures WalkShape(hash, input, w) && Level(hash, input, w') && WalkShape(hash, input, w') && |map'| == |map_| && Unmarked(map', i + 1)
    ensures WalkTo(o, hash, input, w, map_, i, |input.syms|) == WalkTo(o, hash, input, w', map', i + 1, |input.syms|)
    ensures var sym, total := input.syms[i], HeaderTotal(input.syms, i + 1, 0) % TWO_TO_64;
      && w'.st.records == w.st.records
           + [Nlist(sym.name, sym.typ, sym.other, sym.desc, (if sym.typ == 0x82 then total else sym.value) % TWO_TO_32)]
      && w'.st.includes == if sym.typ == 0x82 then w.st.includes + {(sym.name, total)} else w.st.includes
  {
    LevelMeans(hash, input, w);
    if input.syms[i].typ == 0x82 {
      StepBegin(o, hash, input, w, i);
    } else {
      StepStab(o, hash, input, w, i);
    }
    hide Step, WalkShape, Level, HeaderTotal;
    w', map' := Step(o, hash, input, w, i).w, map_[i := Step(o, hash, input, w, i).slot];
    LevelMeans(hash, input, w');
    WalkFirst(o, hash, input, w, map_, i, |input.syms|);
  }

  /** "a.h" twice, once with the type "x" in it and once with "y". */
  function TwoHeaders(): seq<Sym> {
    [Sym("a.h", 0x82, 0, 0, 0), Sym("x:t1", 0x80, 0, 0, 0), Sym("", 0xa2, 0, 0, 0),
     Sym("a.h", 0x82, 0, 0, 0), Sym("y:t1", 0x80, 0, 0, 0), Sym("", 0xa2, 0, 0, 0)]
  }

  lemma TwoTotals()
    ensures HeaderTotal(TwoHeaders(), 1, 0) == 343 && HeaderTotal(TwoHeaders(), 4, 0) == 344
  {
    var syms := TwoHeaders();
    HeaderOfOne(syms, 1);
    HeaderOfOne(syms, 4);
    hide HeaderTotal;
    TwoStrings();
  }

  lemma TwoStrings()
    ensures StringTotal("x:t1") == 343 && StringTotal("y:t1") == 344
  {
    OneCharacterCounts("", 'x', 'y', ":t1");
    assert "" + ['x'] + ":t1" == "x:t1" && "" + ['y'] + ":t1" == "y:t1";
    TotalIsSum("x:t1");
    hide StringTotal;
    assert SumOfFirst("x:t1", 2) == 120 + 58;
    assert SumOfFirst("x:t1", 4) == SumOfFirst("x:t1", 2) + 116 + 49;
  }

  lemma HeaderOfOne(syms: seq<Sym>, j: nat)
    requires j + 1 < |syms| && syms[j].typ == 0x80 && syms[j + 1].typ == 0xa2
    ensures HeaderTotal(syms, j, 0) == StringTotal(syms[j].name)
  {
    hide StringTotal;
  }

  /** Their checksums differ, so both are kept, with what is in them. */
  lemma BothHeadersAreKept(o: Options, input: Input, hashes: seq<Option<nat>>, st: State)
    requires KeepsStabs(o) && input.syms == TwoHeaders() && Level([], input, Walk(st, hashes, false, false))
    requires ("a.h", 343) !in st.includes && ("a.h", 344) !in st.includes
    ensures WriteSymbols(o, [], input, hashes, st).0.st.records == WithFileName(o, input, st).records
        + [Nlist("a.h", 0x82, 0, 0, 343), Nlist("x:t1", 0x80, 0, 0, 0), Nlist("", 0xa2, 0, 0, 0),
           Nlist("a.h", 0x82, 0, 0, 344), Nlist("y:t1", 0x80, 0, 0, 0), Nlist("", 0xa2, 0, 0, 0)]
  {
    hide *;
    var w0, map0 := Walk(WithFileName(o, input, st), hashes, false, false), Cleared(|input.syms|);
    LevelMeans([], input, Walk(st, hashes, false, false));
    WalkOfWrite(o, [], input, hashes, st);
    AllCleared(|input.syms|);
    SameIncludes(o, input, st);
    TwoTotals();
    TwoAre();
    var w1, map1 := OneOver(o, [], input, w0, map0, 0);
    var w2, map2 := OneOver(o, [], input, w1, map1, 1);
    var w3, map3 := OneOver(o, [], input, w2, map2, 2);
    var w4, map4 := OneOver(o, [], input, w3, map3, 3);
    var w5, map5 := OneOver(o, [], input, w4, map4, 4);
    var w6, map6 := OneOver(o, [], input, w5, map5, 5);
    WalkNone(o, [], input, w6, map6, 6);
  }

  lemma AllCleared(n: nat)
    ensures Unmarked(Cleared(n), 0)
  {
  }

  lemma SameIncludes(o: Options, input: Input, st: State)
    ensures WithFileName(o, input, st).includes == st.includes
  {
  }

  lemma TwoAre()
    ensures TwoHeaders() ==
      [Sym("a.h", 0x82, 0, 0, 0), Sym("x:t1", 0x80, 0, 0, 0), Sym("", 0xa2, 0, 0, 0),
       Sym("a.h", 0x82, 0, 0, 0), Sym("y:t1", 0x80, 0, 0, 0), Sym("", 0xa2, 0, 0, 0)]
    ensures 0 % TWO_TO_32 == 0 && 343 % TWO_TO_64 % TWO_TO_32 == 343 && 344 % TWO_TO_64 % TWO_TO_32 == 344
    ensures 343 % TWO_TO_64 == 343 && 344 % TWO_TO_64 == 344
  {
  }
}
