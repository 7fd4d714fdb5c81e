/** ARM a.out relocations (aout-arm.c): the 26-bit branch fix-up and the reloc record coding. */
module ArmReloc {
  import opened CBytes

  // ----- The 26-bit branch -----

  datatype Status = Ok | Overflow | Undefined

  /** An input section: where it lands in the output. */
  datatype Placement = Placement(name: string, outputVma: int, outputOffset: int)

  datatype Symbol = Symbol(section: Placement, value: int, isUndefined: bool, isWeak: bool)

  /** The word-aligned range of a 24-bit branch field. */
  predicate BranchRange(displacement: int) {
    -0x200_0000 <= displacement < 0x200_0000
  }

  /** The branch distance an instruction word encodes. */
  function BranchDistance(word: int): int {
    var field := word % 0x100_0000;
    4 * (if field < 0x80_0000 then field else field - 0x100_0000)
  }

  /** The distance wanted: target plus what the word already holds, minus the place. */
  function Wanted(word: int, sym: Symbol, addend: int, input: Placement, addr: int): int {
    BranchDistance(word) + sym.value + sym.section.outputVma + sym.section.outputOffset + addend
    - input.outputVma - input.outputOffset - addr
  }

  /** The early exits of the fix-up, which leave everything as it was. */
  predicate Skipped(sym: Symbol, input: Placement, partialLink: bool) {
    (sym.isUndefined && !sym.isWeak) || (sym.section.name != input.name && partialLink)
  }

  method Store32(e: Endian, contents: array<byte>, addr: nat, x: int)
    requires addr + 4 <= contents.Length
    modifies contents
    ensures Get32(e, contents[..], addr) == x % TWO_TO_32
    ensures forall i :: 0 <= i < contents.Length && !(addr <= i < addr + 4) ==> contents[i] == old(contents[i])
  {
    var p := Put32(e, x);
    contents[addr], contents[addr + 1], contents[addr + 2], contents[addr + 3] := p[0], p[1], p[2], p[3];
    assert contents[..][addr..addr + 4] == p;
    Put32Get32(e, x, contents[..], addr);
  }

  /**
    fix_pcrel_26.  The displacement is kept in a 64-bit word; `howtoType` is the type of
    the reloc's howto afterwards.
   */
  method FixPcrel26(e: Endian, contents: array<byte>, addr: nat, sym: Symbol, addend: int, input: Placement,
                    partialLink: bool)
    returns (status: Status, howtoType: nat)
    requires addr + 4 <= contents.Length
    modifies contents
    ensures Skipped(sym, input, partialLink) ==>
      && status == (if sym.isUndefined && !sym.isWeak && !partialLink then Undefined else Ok)
      && howtoType == 3 && contents[..] == old(contents[..])
    ensures var displacement := Signed64(Word(old(Wanted(Get32(e, contents[..], addr), sym, addend, input, addr))));
      !Skipped(sym, input, partialLink) ==>
        && (displacement % 4 != 0 ==> status == Overflow && contents[..] == old(contents[..]))
        && (displacement % 4 == 0 ==>
              && (status == Ok <==> -0x200_0000 <= displacement < 0x200_0000)
              && (status == Ok || status == Overflow) && howtoType == 7
              && Get32(e, contents[..], addr) % 0x100_0000 == displacement / 4 % 0x100_0000
              && (status == Ok ==> BranchDistance(Get32(e, contents[..], addr)) == displacement))
    // An accepted branch leads as far beyond its target as the word held, counted from the branch's place in the output
    ensures !Skipped(sym, input, partialLink) && status == Ok ==>
      (input.outputVma + input.outputOffset + addr + BranchDistance(Get32(e, contents[..], addr))
       - (sym.section.outputVma + sym.section.outputOffset + sym.value + addend)
       - BranchDistance(old(Get32(e, contents[..], addr)))) % TWO_TO_64 == 0
    ensures Get32(e, contents[..], addr) / 0x100_0000 == old(Get32(e, contents[..], addr)) / 0x100_0000
    ensures forall i :: 0 <= i < contents.Length && !(addr <= i < addr + 4) ==> contents[i] == old(contents[i])
  {
    hide *;
    var target := Get32(e, contents[..], addr);
    SkippedWhen(sym, input, partialLink);
    status := Ok;
    howtoType := 3;
    if sym.isUndefined && !sym.isWeak {
      return if partialLink then Ok else Undefined, howtoType;
    }
    if sym.section.name != input.name && partialLink {
      return Ok, howtoType;
    }
    WantedIs(target, sym, addend, input, addr);
    var relocation := Word(SignExtend(target % 0x100_0000 * 4) + sym.value + sym.section.outputVma + sym.section.outputOffset + addend
                       - input.outputVma - input.outputOffset - addr);
    SignKeepsAlignment(relocation);
    if relocation % 4 != 0 {
      return Overflow, howtoType;
    }
    status := CheckRange(relocation);
    NewWord(target, relocation);
    BranchLeads(target, sym, addend, input, addr);
    target := WithField(target, relocation / 4);
    Store32(e, contents, addr, target);
    howtoType := 7;
  }

  /** A bfd_vma. */
  function Word(x: int): (w: int)
    ensures 0 <= w < TWO_TO_64
  {
    x % TWO_TO_64
  }

  lemma SkippedWhen(sym: Symbol, input: Placement, partialLink: bool)
    ensures Skipped(sym, input, partialLink) <==>
      (sym.isUndefined && !sym.isWeak) || (sym.section.name != input.name && partialLink)
  {
  }

  lemma WantedIs(word: int, sym: Symbol, addend: int, input: Placement, addr: int)
    ensures SignExtend(word % 0x100_0000 * 4) + sym.value + sym.section.outputVma + sym.section.outputOffset + addend
            - input.outputVma - input.outputOffset - addr == Wanted(word, sym, addend, input, addr)
  {
    FieldSignExtends(word);
    hide SignExtend, BranchDistance;
  }

  /** A displacement that is a word's signed reading leads where it is wanted. */
  lemma BranchLeads(word: int, sym: Symbol, addend: int, input: Placement, addr: int)
    ensures var displacement := Signed64(Word(Wanted(word, sym, addend, input, addr)));
      (input.outputVma + input.outputOffset + addr + displacement
       - (sym.section.outputVma + sym.section.outputOffset + sym.value + addend) - BranchDistance(word)) % TWO_TO_64 == 0
  {
    var x := Wanted(word, sym, addend, input, addr);
    assert x == BranchDistance(word) + (sym.section.outputVma + sym.section.outputOffset + sym.value + addend)
                - (input.outputVma + input.outputOffset + addr);
    hide Wanted, BranchDistance;
    SignedDiffers(x);
  }

  lemma SignedDiffers(x: int)
    ensures (Signed64(Word(x)) - x) % TWO_TO_64 == 0
  {
    var q := x / TWO_TO_64;
    assert Word(x) == x - q * TWO_TO_64;
    hide Word;
    assert Signed64(x - q * TWO_TO_64) - x == -q * TWO_TO_64 || Signed64(x - q * TWO_TO_64) - x == -(q + 1) * TWO_TO_64;
  }

  /** The word with the new field: its opcode stays, and in range the field decodes to the displacement. */
  lemma NewWord(word: int, relocation: int)
    requires 0 <= word < TWO_TO_32 && 0 <= relocation < TWO_TO_64 && relocation % 4 == 0
    ensures var t := WithField(word, relocation / 4);
      && t % TWO_TO_32 == t && t / 0x100_0000 == word / 0x100_0000
      && t % 0x100_0000 == Signed64(relocation) / 4 % 0x100_0000
      && (BranchRange(Signed64(relocation)) ==> BranchDistance(t) == Signed64(relocation))
  {
    SignKeepsAlignment(relocation);
    hide BranchDistance, BranchRange, Signed64, WithField;
    FieldDecodes(WithField(word, relocation / 4), relocation);
  }

  /** `(r ^ 0x02000000) - 0x02000000` on a 26-bit value. */
  function SignExtend(r: int): int {
    (if r / 0x200_0000 % 2 == 0 then r + 0x200_0000 else r - 0x200_0000) - 0x200_0000
  }

  lemma FieldSignExtends(word: int)
    ensures SignExtend(word % 0x100_0000 * 4) == BranchDistance(word)
  {
  }

  lemma SignKeepsAlignment(w: int)
    requires 0 <= w < TWO_TO_64
    ensures Signed64(w) % 4 == w % 4
    ensures w % 4 == 0 ==> Signed64(w) / 4 % 0x100_0000 == w / 4 % 0x100_0000
  {
    if w >= TWO_TO_64 / 2 {
      assert Signed64(w) == w + 4 * (-(TWO_TO_64 / 4));
      assert w % 4 == 0 ==> Signed64(w) / 4 == w / 4 - TWO_TO_64 / 4;
    }
  }

  /** `target &= ~0x00ffffff; target |= field & 0x00ffffff` */
  function WithField(word: int, field: int): (r: int)
    requires 0 <= word < TWO_TO_32
    ensures 0 <= r < TWO_TO_32
    ensures r / 0x100_0000 == word / 0x100_0000 && r % 0x100_0000 == field % 0x100_0000
  {
    word / 0x100_0000 * 0x100_0000 + field % 0x100_0000
  }

  /** The overflow test of fix_pcrel_26 on a word-aligned displacement. */
  method CheckRange(relocation: int) returns (status: Status)
    requires 0 <= relocation < TWO_TO_64
    ensures BranchRange(Signed64(relocation)) <==> -0x200_0000 <= Signed64(relocation) < 0x200_0000
    ensures status == if BranchRange(Signed64(relocation)) then Ok else Overflow
  {
    status := Ok;
    var high := relocation - relocation % 0x400_0000;
    if relocation / 0x200_0000 % 2 != 0 {
      if high != TWO_TO_64 - 0x400_0000 {
        status := Overflow;
      }
    } else if high != 0 {
      status := Overflow;
    }
  }

  lemma FieldDecodes(word: int, relocation: int)
    requires 0 <= word < TWO_TO_32 && 0 <= relocation < TWO_TO_64 && relocation % 4 == 0
    requires word % 0x100_0000 == relocation / 4 % 0x100_0000
    ensures BranchRange(Signed64(relocation)) ==> BranchDistance(word) == Signed64(relocation)
  {
  }

  // ----- Reloc records -----

  /** The index bytes, most significant first, and the type bits of an external reloc. */
  datatype Record = Record(index: seq<byte>, bits: bv8)

  datatype Howto = Howto(typ: nat, size: int, pcRelative: bool)

  /** Row 8 of the howto table is empty. */
  predicate InTable(i: nat) {
    i <= 10 && i != 8
  }

  /** The parts of the howto table's rows that the coding depends on. */
  function HowtoTable(i: nat): (h: Howto)
    requires InTable(i)
  {
    Howto(i,
          if i == 9 then -1 else if i == 10 then -2
          else if i == 3 || i == 7 then 2 else i % 4,
          3 <= i <= 6)
  }

  function IndexBytes(index: int): (s: seq<byte>)
    ensures |s| == 3
  {
    [(index / 0x1_0000 % 0x100) as byte, (index / 0x100 % 0x100) as byte, (index % 0x100) as byte]
  }

  /** The type bits; `length` is the C int shifted into place and cut to a byte. */
  function TypeBits(e: Endian, extern: bool, pcrel: bool, neg: bool, length: bv8): bv8 {
    match e
    case Big =>
      (if extern then 0x10 else 0) | (if pcrel then 0x80 else 0) | (if neg then 0x08 else 0) | (length << 5)
    case Little =>
      (if extern then 0x08 else 0) | (if pcrel then 0x01 else 0) | (if neg then 0x10 else 0) | (length << 1)
  }

  /** An int of the table's size column as the low byte of its two's complement form. */
  function SizeByte(size: int): bv8
    requires -2 <= size <= 3
  {
    match size case -2 => 0xfe case -1 => 0xff case 0 => 0 case 1 => 1 case 2 => 2 case 3 => 3
  }

  /** put_reloc */
  function PutReloc(e: Endian, extern: bool, index: int, i: nat): Record
    requires InTable(i)
  {
    var h := HowtoTable(i);
    var length := if h.typ == 3 || h.typ == 7 then 3 else h.size;
    Record(IndexBytes(index), TypeBits(e, extern, h.typ / 4 % 2 != 0, h.typ / 8 % 2 != 0, SizeByte(length)))
  }

  /** swap_std_reloc_out, once the index and extern flag have been chosen. */
  function SwapOut(e: Endian, extern: bool, index: int, i: nat): Record
    requires InTable(i)
  {
    var h := HowtoTable(i);
    var length := if h.typ == 3 || h.typ == 7 then 3 else if h.size < 0 then -h.size else h.size;
    var pcrel := if h.typ == 3 then false else if h.typ == 7 then true else h.pcRelative;
    Record(IndexBytes(index), TypeBits(e, extern, pcrel, h.size < 0, SizeByte(length)))
  }

  /** reloc_howto: the index, the extern flag, the row of the howto table and the r_pcrel flag. */
  function RelocHowto(e: Endian, r: Record): (int, bool, int, bool)
    requires |r.index| == 3
  {
    var b := r.bits;
    var length: int := (if e == Big then (b & 0x60) >> 5 else (b & 0x06) >> 1) as int;
    var done := if e == Big then b & 0x80 != 0 else b & 0x01 != 0;
    var neg := if e == Big then b & 0x08 != 0 else b & 0x10 != 0;
    var row := length + (if done then 4 else 0) + (if neg then 8 else 0);
    (r.index[0] as int * 0x1_0000 + r.index[1] as int * 0x100 + r.index[2] as int,
     if e == Big then b & 0x10 != 0 else b & 0x08 != 0,
     row,
     row == 3)
  }

  lemma IndexRoundTrip(index: int)
    ensures var b := IndexBytes(index);
      b[0] as int * 0x1_0000 + b[1] as int * 0x100 + b[2] as int == index % 0x100_0000
  {
    Quarters(index);
    var q := index / 0x1_0000;
    assert index == q / 0x100 * 0x100_0000 + (q % 0x100 * 0x1_0000 + index % 0x1_0000);
    assert index % 0x100_0000 == index / 0x1_0000 % 0x100 * 0x1_0000 + index % 0x1_0000;
  }

  /**
    A record on disk: the index, most significant byte first; and the bits, from the top down,
    pc-relative, length, external, negative, or the other way round in a little-endian file.
   */
  lemma RecordOnDisk(e: Endian, extern: bool, index: int, i: nat)
    requires i <= 10 && i != 8
    ensures var r, x, p, n := SwapOut(e, extern, index, i), if extern then 1 else 0, if 4 <= i <= 7 then 1 else 0, if i > 8 then 1 else 0;
      && |r.index| == 3 && r.index[0] as int * 0x1_0000 + r.index[1] as int * 0x100 + r.index[2] as int == index % 0x100_0000
      && r.bits as int == if e == Big then 0x80 * p + 0x20 * (i % 4) + 0x10 * x + 0x08 * n else 0x01 * p + 0x02 * (i % 4) + 0x08 * x + 0x10 * n
  {
    IndexRoundTrip(index);
    assert i in {0, 1, 2, 3, 4, 5, 6, 7, 9, 10};
  }

  /** Every kind of reloc survives being written out and read back, for any 24-bit index. */
  lemma SwapOutThenHowto(e: Endian, extern: bool, index: int, i: nat)
    requires i <= 10 && i != 8
    ensures RelocHowto(e, SwapOut(e, extern, index, i)) == (index % 0x100_0000, extern, i, i == 3)
  {
    IndexRoundTrip(index);
    assert i in {0, 1, 2, 3, 4, 5, 6, 7, 9, 10};
  }

  /**
    The linker's own coding does not negate a negative size, so the negated relocs do
    not survive: the sign bits spill over the flags.  Only the little-endian NEG32 against a
    symbol escapes, because the bit that spills is the extern flag it needs set anyway.
   */
  lemma PutRelocThenHowto(e: Endian, extern: bool, index: int, i: nat)
    requires InTable(i)
    ensures RelocHowto(e, PutReloc(e, extern, index, i)) == (index % 0x100_0000, extern, i, i == 3)
            <==> HowtoTable(i).size >= 0 || (e == Little && i == 10 && extern)
  {
    IndexRoundTrip(index);
    if i <= 7 {
      assert PutReloc(e, extern, index, i) == SwapOut(e, extern, index, i);
      SwapOutThenHowto(e, extern, index, i);
    } else {
      var bits := PutReloc(e, extern, index, i).bits;
      assert i == 9 && e == Big ==> bits & 0x80 != 0;
      assert i == 9 && e == Little ==> (bits & 0x06) >> 1 == 3;
      assert i == 10 && e == Big ==> bits & 0x80 != 0;
      assert i == 10 && e == Little ==> (bits & 0x06) >> 1 == 2 && bits & 0x01 == 0 && bits & 0x10 != 0 && bits & 0x08 != 0;
    }
  }
}
