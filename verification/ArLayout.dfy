/**
  Where things are in an archive (archive.c, archive64.c): the bytes the writer emits for each
  member, and the positions the symbol-map writers work out for them beforehand.
 */
module ArLayout {
  import opened CBytes
  import opened ArText
  import opened ArHeader
  import opened ArMap

  const SARMAG: nat := 8

  datatype Symbol = Symbol(name: seq<byte>, global: bool, weak: bool, indirect: bool, unique: bool, common: bool, undefined: bool)

  /**
    A member ready to be written: its header, with the `extra` bytes of a BSD 4.4 name behind
    it, its contents, whether it is recognized as an object file, and that file's symbols.
   */
  datatype Element = Element(filename: seq<byte>, head: seq<byte>, extra: nat, contents: seq<byte>, isObject: bool, symbols: seq<Symbol>)
  {
    predicate Valid() { |head| == HDR_SIZE + extra && extra % 4 == 0 }
  }

  ghost predicate AllValid(es: seq<Element>) {
    forall k :: 0 <= k < |es| ==> es[k].Valid()
  }

  // ----- What is written -----

  function OddPad(n: nat): (r: seq<byte>)
    ensures |r| == n % 2
  {
    if n % 2 == 1 then [NEWLINE] else []
  }

  function Written(thin: bool, e: Element): seq<byte> {
    if thin then e.head else e.head + e.contents + OddPad(|e.contents|)
  }

  function Members(thin: bool, es: seq<Element>, n: nat): seq<byte>
    requires n <= |es|
  {
    if n == 0 then [] else Members(thin, es, n - 1) + Written(thin, es[n - 1])
  }

  /** Where member `k` starts, counted from the first. */
  function Start(thin: bool, es: seq<Element>, k: nat): nat
    requires k <= |es|
  {
    |Members(thin, es, k)|
  }

  lemma {:induction false} MembersGrow(thin: bool, es: seq<Element>, k: nat, n: nat)
    requires k <= n <= |es|
    ensures Members(thin, es, k) <= Members(thin, es, n)
    decreases n
  {
    hide Written;
    if k < n {
      MembersGrow(thin, es, k, n - 1);
      var all := Members(thin, es, n);
      assert all == Members(thin, es, n - 1) + Written(thin, es[n - 1]);
      hide Members;
      LongerPrefix(Members(thin, es, k), Members(thin, es, n - 1), Written(thin, es[n - 1]));
    }
  }

  lemma MembersStep(thin: bool, es: seq<Element>, k: nat)
    requires k < |es|
    ensures Members(thin, es, k + 1) == Members(thin, es, k) + Written(thin, es[k])
    ensures Start(thin, es, k + 1) == Start(thin, es, k) + |Written(thin, es[k])|
  {
    hide Written;
  }

  /** Every member is found at its position. */
  lemma MemberAt(thin: bool, es: seq<Element>, k: nat)
    requires k < |es|
    ensures At(Members(thin, es, |es|), Start(thin, es, k), Written(thin, es[k]))
  {
    MembersGrow(thin, es, k + 1, |es|);
    MembersStep(thin, es, k);
    hide Members, Written;
    AtFront(Members(thin, es, k), Written(thin, es[k]));
    PrefixAt(Members(thin, es, k + 1), Members(thin, es, |es|));
    AtAt(Members(thin, es, |es|), 0, Members(thin, es, k + 1), Start(thin, es, k), Written(thin, es[k]));
  }

  lemma PrefixAt(a: seq<byte>, b: seq<byte>)
    requires a <= b
    ensures At(b, 0, a)
  {
  }

  // ----- The symbols of the map -----

  predicate Exported(s: Symbol) {
    (s.global || s.weak || s.indirect || s.unique || s.common) && !s.undefined
  }

  /** An entry of the map before its offset is known: the name, its owner, and where the name will stand. */
  datatype Orl = Orl(name: seq<byte>, owner: nat, namidx: int)

  function ExportsOf(symbols: seq<Symbol>, n: nat): seq<seq<byte>>
    requires n <= |symbols|
  {
    if n == 0 then []
    else ExportsOf(symbols, n - 1) + (if Exported(symbols[n - 1]) then [symbols[n - 1].name] else [])
  }

  function ElementExports(e: Element): seq<seq<byte>> {
    if e.isObject then ExportsOf(e.symbols, |e.symbols|) else []
  }

  /** The names and owners for the first `n` members. */
  function Exports(es: seq<Element>, n: nat): seq<(seq<byte>, nat)>
    requires n <= |es|
  {
    if n == 0 then []
    else
      var names := ElementExports(es[n - 1]);
      Exports(es, n - 1) + seq(|names|, k requires 0 <= k < |names| => (names[k], n - 1))
  }

  ghost predicate Sorted(xs: seq<(seq<byte>, nat)>, n: nat) {
    && (forall k :: 0 <= k < |xs| ==> xs[k].1 < n)
    && forall j, k :: 0 <= j < k < |xs| ==> xs[j].1 <= xs[k].1
  }

  lemma {:induction false} ExportsSorted(es: seq<Element>, n: nat)
    requires n <= |es|
    ensures Sorted(Exports(es, n), n)
  {
    hide ElementExports;
    if n > 0 {
      ExportsSorted(es, n - 1);
    }
  }

  // ----- Positions worked out in advance -----

  datatype MapKind = BsdMap(order: Endian) | CoffMap | Elf64Map

  /** How a map writer steps over a member. */
  function Advance(kind: MapKind, thin: bool, pos: int, e: Element): int {
    match kind
    case BsdMap(_) => var p := pos + (|e.contents| + e.extra + HDR_SIZE); p + p % 2
    case CoffMap => if thin then pos + HDR_SIZE else var p := pos + HDR_SIZE + |e.contents|; p + p % 2
    case Elf64Map => var p := pos + HDR_SIZE + (if thin then 0 else |e.contents|); p + p % 2
  }

  function Computed(kind: MapKind, thin: bool, es: seq<Element>, base: int, k: nat): int
    requires k <= |es|
  {
    if k == 0 then base else Advance(kind, thin, Computed(kind, thin, es, base, k - 1), es[k - 1])
  }

  /** BSD maps count the contents even of a thin archive's member; the others do not count long names. */
  predicate Suits(kind: MapKind, thin: bool, e: Element) {
    if kind.BsdMap? then !thin || e.contents == [] else e.extra == 0
  }

  lemma TwiceIsEven(x: int)
    ensures 2 * x % 2 == 0
  {
  }

  lemma EvenSum(a: int, b: int)
    requires a % 2 == 0 && b % 2 == 0
    ensures (a + b) % 2 == 0
  {
  }

  lemma WrittenLength(thin: bool, e: Element)
    requires e.Valid()
    ensures |e.head| % 2 == 0 && |Written(thin, e)| % 2 == 0
    ensures |Written(thin, e)| == |e.head| + (if thin then 0 else |e.contents| + |e.contents| % 2)
  {
    var n := |e.contents|;
    assert |Written(thin, e)| == |e.head| + (if thin then 0 else n + n % 2);
    hide Written;
    FourIsEven(e.extra);
    EvenSum(HDR_SIZE, e.extra);
    SumIsEven(n);
    EvenSum(|e.head|, n + n % 2);
  }

  lemma FourIsEven(n: nat)
    requires n % 4 == 0
    ensures n % 2 == 0
  {
    TwiceIsEven(2 * (n / 4));
  }

  lemma SumIsEven(n: nat)
    ensures (n + n % 2) % 2 == 0
  {
  }

  lemma OddFollows(at: int, size: int)
    requires at % 2 == 0
    ensures (at + size) % 2 == size % 2
  {
  }

  /** From an even position, the step is right exactly for the members the format suits. */
  lemma AdvanceIsExact(kind: MapKind, thin: bool, pos: int, e: Element)
    requires e.Valid() && pos % 2 == 0
    ensures Advance(kind, thin, pos, e) == pos + |Written(thin, e)| <==> Suits(kind, thin, e)
    ensures |Written(thin, e)| % 2 == 0
  {
    WrittenLength(thin, e);
    hide Written;
    var size := |e.contents|;
    EvenSum(pos, HDR_SIZE);
    EvenSum(pos, |e.head|);
    OddFollows(pos + HDR_SIZE, size);
    OddFollows(pos + |e.head|, size);
    assert pos + |e.head| + size == pos + (size + e.extra + HDR_SIZE);
  }

  ghost predicate AllSuit(kind: MapKind, thin: bool, es: seq<Element>) {
    forall k :: 0 <= k < |es| ==> es[k].Valid() && Suits(kind, thin, es[k])
  }

  /** The positions worked out in advance are where the members are put. */
  lemma {:induction false} ComputedIsStart(kind: MapKind, thin: bool, es: seq<Element>, base: int, k: nat)
    requires AllSuit(kind, thin, es) && base % 2 == 0 && k <= |es|
    ensures Computed(kind, thin, es, base, k) == base + Start(thin, es, k)
    ensures Start(thin, es, k) % 2 == 0
  {
    hide Advance, Written, Suits;
    if k > 0 {
      ComputedIsStart(kind, thin, es, base, k - 1);
      MembersStep(thin, es, k - 1);
      EvenSum(base, Start(thin, es, k - 1));
      AdvanceIsExact(kind, thin, base + Start(thin, es, k - 1), es[k - 1]);
      EvenSum(Start(thin, es, k - 1), |Written(thin, es[k - 1])|);
    }
  }

  /** And the first member a format does not suit throws off every later position. */
  lemma MisfitMovesTheRest(kind: MapKind, thin: bool, es: seq<Element>, base: int, k: nat)
    requires k < |es| && AllValid(es) && AllSuit(kind, thin, es[..k]) && base % 2 == 0 && !Suits(kind, thin, es[k])
    ensures Computed(kind, thin, es, base, k + 1) != base + Start(thin, es, k + 1)
  {
    hide Advance, Written, Suits;
    ComputedIsStart(kind, thin, es[..k], base, k);
    SamePrefix(kind, thin, es, base, k, k);
    MembersStep(thin, es, k);
    AdvanceIsExact(kind, thin, base + Start(thin, es, k), es[k]);
  }

  lemma {:induction false} SamePrefix(kind: MapKind, thin: bool, es: seq<Element>, base: int, n: nat, k: nat)
    requires k <= n <= |es|
    ensures Computed(kind, thin, es[..n], base, k) == Computed(kind, thin, es, base, k)
    ensures Members(thin, es[..n], k) == Members(thin, es, k)
  {
    hide Advance, Written;
    if k > 0 {
      SamePrefix(kind, thin, es, base, n, k - 1);
    }
  }

  /** The entries of the map as the writers work them out. */
  function ComputedEntries(kind: MapKind, thin: bool, es: seq<Element>, base: int): (r: seq<Entry>)
    ensures |r| == |Exports(es, |es|)|
  {
    ExportsSorted(es, |es|);
    var xs := Exports(es, |es|);
    seq(|xs|, k requires 0 <= k < |xs| => Entry(xs[k].0, Computed(kind, thin, es, base, xs[k].1)))
  }

  /** The entries of the map as they should be. */
  function TrueEntries(thin: bool, es: seq<Element>, base: int): (r: seq<Entry>)
    ensures |r| == |Exports(es, |es|)|
  {
    ExportsSorted(es, |es|);
    var xs := Exports(es, |es|);
    seq(|xs|, k requires 0 <= k < |xs| => Entry(xs[k].0, base + Start(thin, es, xs[k].1)))
  }

  lemma EntriesAreTrue(kind: MapKind, thin: bool, es: seq<Element>, base: int)
    requires AllSuit(kind, thin, es) && base % 2 == 0
    ensures ComputedEntries(kind, thin, es, base) == TrueEntries(thin, es, base)
  {
    var xs := Exports(es, |es|);
    ExportsSorted(es, |es|);
    hide Start, Exports, Computed;
    forall k | 0 <= k < |xs| ensures Computed(kind, thin, es, base, xs[k].1) == base + Start(thin, es, xs[k].1) {
      ComputedIsStart(kind, thin, es, base, xs[k].1);
    }
  }

  // ----- The start of the first member -----

  /** The name table with its header and padding; nothing for an empty one. */
  function NamesLength(elength: nat): nat {
    if elength == 0 then 0 else HDR_SIZE + elength + elength % 2
  }

  /** What _bfd_compute_and_write_armap makes of the length it is passed as an unsigned int. */
  function PaddedLength(elength: nat): int {
    var e := U32(elength);
    var e1 := if e != 0 then U32(e + HDR_SIZE) else e;
    U32(e1 + e1 % 2)
  }

  /** Where the map writers place the first member: the sum of the sizes is an unsigned int. */
  function ClaimedBase(mapSize: nat, elength: nat): int {
    U32(U32(mapSize) + PaddedLength(elength)) + HDR_SIZE + SARMAG
  }

  /** Where it is. */
  function TrueBase(mapSize: nat, elength: nat): int {
    SARMAG + HDR_SIZE + mapSize + NamesLength(elength)
  }

  /** The two agree exactly when map and name table together stay below 4 GB. */
  lemma BaseIsExact(mapSize: nat, elength: nat)
    ensures ClaimedBase(mapSize, elength) == TrueBase(mapSize, elength) <==> mapSize + NamesLength(elength) < TWO_TO_32
  {
    hide U32, PaddedLength, NamesLength;
    if mapSize + NamesLength(elength) < TWO_TO_32 {
      SmallLength(elength);
      Fits(mapSize);
      Fits(mapSize + NamesLength(elength));
    }
  }

  /** Both are even. */
  lemma BaseIsEven(mapSize: nat, elength: nat)
    requires mapSize % 2 == 0
    ensures TrueBase(mapSize, elength) % 2 == 0 && ClaimedBase(mapSize, elength) % 2 == 0
  {
    NamesLengthIsEven(elength);
    PaddedIsEven(elength);
    WrapKeepsEven(mapSize);
    hide U32, PaddedLength, NamesLength;
    EvenSum(SARMAG + HDR_SIZE, mapSize);
    EvenSum(SARMAG + HDR_SIZE + mapSize, NamesLength(elength));
    EvenSum(U32(mapSize), PaddedLength(elength));
    WrapKeepsEven(U32(mapSize) + PaddedLength(elength));
    EvenSum(U32(U32(mapSize) + PaddedLength(elength)), HDR_SIZE + SARMAG);
  }

  lemma NamesLengthIsEven(elength: nat)
    ensures NamesLength(elength) % 2 == 0
  {
  }

  lemma WrapKeepsEven(x: int)
    requires x % 2 == 0
    ensures U32(x) % 2 == 0
  {
    assert x == x / TWO_TO_32 * TWO_TO_32 + U32(x);
  }

  lemma PaddedIsEven(elength: nat)
    ensures PaddedLength(elength) % 2 == 0
  {
    var e := U32(elength);
    var e1 := if e != 0 then U32(e + HDR_SIZE) else e;
    WrapKeepsEven(e1 + e1 % 2);
    hide U32;
  }

  lemma Fits(x: int)
    requires 0 <= x < TWO_TO_32
    ensures U32(x) == x
  {
  }

  lemma SmallLength(elength: nat)
    requires NamesLength(elength) < TWO_TO_32
    ensures PaddedLength(elength) == NamesLength(elength)
  {
    Fits(elength);
    if elength != 0 {
      Fits(elength + HDR_SIZE);
      Fits(elength + HDR_SIZE + elength % 2);
      hide U32;
      assert (elength + HDR_SIZE) % 2 == elength % 2;
    }
  }
}
