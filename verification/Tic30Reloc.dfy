/**
  Relocating a field of a TMS320C30 object (aout-tic30.c).  Words are 64 bits; every
  mask in the two relocation types covered here is 2^bitsize - 1, so `& mask` is a
  remainder and `& ~mask` what is left of it, and both types shift right by two.
 */
module Tic30Reloc {
  import opened CBytes

  datatype Howto = Abs24 | Pcrel16

  datatype Status = Ok | Overflow | OutOfRange

  /** 2^bitsize, one more than the source and destination masks. */
  function Span(h: Howto): int {
    if h == Abs24 then 0x100_0000 else 0x1_0000
  }

  function Width(h: Howto): nat {
    if h == Abs24 then 3 else 2
  }

  // ----- What the arithmetic means -----

  /** The field read as a signed number. */
  function SignedField(h: Howto, field: int): int {
    if field < Span(h) / 2 then field else field - Span(h)
  }

  /** The sum with the relocation and the field both read as signed. */
  function SignedSum(h: Howto, relocation: int, field: int): int
    requires 0 <= relocation < TWO_TO_64
  {
    Signed64(relocation) / 4 + SignedField(h, field)
  }

  /** The sum with both read as unsigned. */
  function UnsignedSum(relocation: int, field: int): int {
    relocation / 4 + field
  }

  /** What the table's complain_on_overflow makes of the two readings. */
  predicate Overflows(h: Howto, relocation: int, field: int)
    requires 0 <= relocation < TWO_TO_64
  {
    match h
    case Pcrel16 => !(-Span(h) / 2 <= SignedSum(h, relocation, field) < Span(h) / 2)
    case Abs24 => !(UnsignedSum(relocation, field) < Span(h)) && !(-Span(h) <= SignedSum(h, relocation, field) < 0)
  }

  /** The range documented for a bitfield of n bits: -2^n to 2^n - 1. */
  predicate DocumentedRange(h: Howto, v: int) {
    -Span(h) <= v < Span(h)
  }

  // ----- Big-endian fields in the section contents -----

  function Field(h: Howto, contents: seq<byte>, at: nat): (x: int)
    requires at + Width(h) <= |contents|
    ensures 0 <= x < Span(h)
  {
    if h == Abs24 then
      contents[at] as int * 0x1_0000 + contents[at + 1] as int * 0x100 + contents[at + 2] as int
    else
      contents[at] as int * 0x100 + contents[at + 1] as int
  }

  /** The bytes of a field of two or three, put together again. */
  lemma FieldBytes(x: int)
    requires 0 <= x < 0x100_0000
    ensures x / 0x1_0000 % 0x100 * 0x1_0000 + x / 0x100 % 0x100 * 0x100 + x % 0x100 == x
    ensures x < 0x1_0000 ==> 0 <= x / 0x100 < 0x100 && x / 0x100 * 0x100 + x % 0x100 == x
  {
    var q := x / 0x100;
    assert x == 0x100 * q + x % 0x100;
    assert x / 0x1_0000 == q / 0x100;
    assert q == 0x100 * (q / 0x100) + q % 0x100;
  }

  method PutField(h: Howto, contents: array<byte>, at: nat, x: int)
    requires at + Width(h) <= contents.Length && 0 <= x < Span(h)
    modifies contents
    ensures Field(h, contents[..], at) == x
    ensures forall i :: 0 <= i < contents.Length && !(at <= i < at + Width(h)) ==> contents[i] == old(contents[i])
  {
    FieldBytes(x);
    if h == Abs24 {
      contents[at] := (x / 0x1_0000 % 0x100) as byte;
      contents[at + 1] := (x / 0x100 % 0x100) as byte;
      contents[at + 2] := (x % 0x100) as byte;
    } else {
      contents[at] := (x / 0x100) as byte;
      contents[at + 1] := (x % 0x100) as byte;
    }
  }

  /** Clearing the low bits leaves all ones above them exactly for -mask .. -1. */
  lemma AllOnesAbove(mask: int, s: int)
    requires mask == 0x100_0000 && -(TWO_TO_64 / 2) <= s < TWO_TO_64 / 2
    ensures var w := s % TWO_TO_64; w - w % mask == TWO_TO_64 - mask <==> -mask <= s < 0
  {
  }

  /** Setting the two top bits after a logical shift by two makes it an arithmetic one. */
  lemma ShiftKeepsSign(w: int)
    requires 0 <= w < TWO_TO_64
    ensures (if Signed64(w) >= 0 then w / 4 else Signed64(w / 4 + 3 * (TWO_TO_64 / 4))) == Signed64(w) / 4
    ensures -(TWO_TO_64 / 8) <= Signed64(w) / 4 < TWO_TO_64 / 8
  {
  }

  /** The test for the top bit of the field. */
  lemma SignBit(h: Howto, x: int)
    requires 0 <= x < Span(h)
    ensures x % Span(h) == x
    ensures x / (Span(h) / 2) % 2 != 0 <==> Span(h) / 2 <= x
  {
    match h
    case Abs24 =>
    case Pcrel16 =>
  }

  lemma AnyAbove(mask: int, v: int)
    requires mask == 0x100_0000 && 0 <= v
    ensures v - v % mask != 0 <==> mask <= v
  {
  }

  lemma AddedField(h: Howto, relocation: int, field: int)
    requires 0 <= relocation < TWO_TO_64 && 0 <= field < Span(h)
    ensures (field + relocation / 4) % Span(h) == SignedSum(h, relocation, field) % Span(h)
  {
    if h == Abs24 {
      BothReadingsGiveTheField(relocation, field);
    }
  }

  /** The overflow check of tic30_aout_relocate_contents, on the field `x` just read. */
  method CheckOverflow(h: Howto, relocation: int, x: int) returns (overflow: bool)
    requires 0 <= relocation < TWO_TO_64 && 0 <= x < Span(h)
    ensures overflow == Overflows(h, relocation, x)
  {
    hide *;
    SumsAre(h, relocation, x);
    ShiftKeepsSign(relocation);
    SignBit(h, x);
    OverflowsWhen(h, relocation, x);
    var mask := Span(h);
    var check := relocation / 4;
    var signedCheck := if Signed64(relocation) >= 0 then check else Signed64(check + 3 * (TWO_TO_64 / 4));
    var add := x % mask;
    var signedAdd := if add / (mask / 2) % 2 != 0 then add - mask else add;
    check := (check + add) % TWO_TO_64;
    signedCheck := signedCheck + signedAdd;
    assert check == UnsignedSum(relocation, x) && signedCheck == SignedSum(h, relocation, x);
    match h {
      case Pcrel16 =>
        var signedMax := mask / 2 - 1;
        var signedMin := -signedMax - 1;
        overflow := signedCheck > signedMax || signedCheck < signedMin;
      case Abs24 =>
        var wrapped := signedCheck % TWO_TO_64;
        AllOnesAbove(mask, signedCheck);
        AnyAbove(mask, check);
        overflow := check - check % mask != 0 && wrapped - wrapped % mask != TWO_TO_64 - mask;
    }
  }

  /** The sums that the check works out, and that they do not wrap. */
  lemma SumsAre(h: Howto, relocation: int, x: int)
    requires 0 <= relocation < TWO_TO_64 && 0 <= x < Span(h)
    ensures Span(h) > 1 && (h.Abs24? ==> Span(h) == 0x100_0000) && (h.Pcrel16? ==> Span(h) == 0x1_0000) && TWO_TO_64 > 0
    ensures UnsignedSum(relocation, x) == relocation / 4 + x && (relocation / 4 + x) % TWO_TO_64 == relocation / 4 + x >= 0
    ensures SignedField(h, x) == if x < Span(h) / 2 then x else x - Span(h)
    ensures SignedSum(h, relocation, x) == Signed64(relocation) / 4 + SignedField(h, x)
    ensures -(TWO_TO_64 / 2) <= SignedSum(h, relocation, x) < TWO_TO_64 / 2
    ensures 0 <= relocation / 4 + 3 * (TWO_TO_64 / 4) < TWO_TO_64
  {
  }

  lemma OverflowsWhen(h: Howto, relocation: int, x: int)
    requires 0 <= relocation < TWO_TO_64
    ensures var s, u := SignedSum(h, relocation, x), UnsignedSum(relocation, x);
      Overflows(h, relocation, x) <==>
        match h
        case Pcrel16 => !(-Span(h) / 2 <= s < Span(h) / 2)
        case Abs24 => !(u < Span(h)) && !(-Span(h) <= s < 0)
  {
    hide SignedSum, UnsignedSum;
  }

  /** The field that is stored: the sum of the low bits, cut to the field. */
  lemma StoredField(h: Howto, relocation: int, x: int)
    requires 0 <= relocation < TWO_TO_64 && 0 <= x < Span(h)
    ensures Span(h) > 0
    ensures x - x % Span(h) + (x % Span(h) + relocation / 4) % Span(h) == SignedSum(h, relocation, x) % Span(h)
    ensures 0 <= SignedSum(h, relocation, x) % Span(h) < Span(h)
  {
    AddedField(h, relocation, x);
    SignBit(h, x);
    hide SignedSum;
  }

  /** Three bytes, and two, most significant first. */
  function Bytes24(contents: seq<byte>, at: nat): int {
    if at + 3 <= |contents| then contents[at] as int * 0x1_0000 + contents[at + 1] as int * 0x100 + contents[at + 2] as int else 0
  }

  function Bytes16(contents: seq<byte>, at: nat): int {
    if at + 2 <= |contents| then contents[at] as int * 0x100 + contents[at + 1] as int else 0
  }

  lemma FieldInBytes(h: Howto, contents: seq<byte>, at: nat)
    requires at + Width(h) <= |contents|
    ensures Field(h, contents, at) == if h == Abs24 then Bytes24(contents, at) else Bytes16(contents, at)
  {
  }

  lemma FieldInWords(h: Howto, relocation: int, x: int)
    requires 0 <= relocation < TWO_TO_64 && 0 <= x < Span(h)
    ensures Span(h) == (if h == Abs24 then 0x100_0000 else 0x1_0000) && SignedSum(h, relocation, x) % Span(h) == (x + relocation / 4) % Span(h)
  {
    AddedField(h, relocation, x);
    hide SignedSum;
  }

  /** tic30_aout_relocate_contents */
  method RelocateContents(h: Howto, relocation: int, contents: array<byte>, at: nat) returns (status: Status)
    requires 0 <= relocation < TWO_TO_64 && at + Width(h) <= contents.Length
    modifies contents
    ensures status == if Overflows(h, relocation, old(Field(h, contents[..], at))) then Overflow else Ok
    ensures Field(h, contents[..], at) == SignedSum(h, relocation, old(Field(h, contents[..], at))) % Span(h)
    // In bytes, most significant first: the relocation in words of four bytes is added
    ensures h == Abs24 ==> Bytes24(contents[..], at) == (old(Bytes24(contents[..], at)) + relocation / 4) % 0x100_0000
    ensures h == Pcrel16 ==> Bytes16(contents[..], at) == (old(Bytes16(contents[..], at)) + relocation / 4) % 0x1_0000
    ensures forall i :: 0 <= i < contents.Length && !(at <= i < at + Width(h)) ==> contents[i] == old(contents[i])
  {
    hide *;
    var x := Field(h, contents[..], at);
    StoredField(h, relocation, x);
    FieldInBytes(h, contents[..], at);
    FieldInWords(h, relocation, x);
    var mask := Span(h);
    var overflow := CheckOverflow(h, relocation, x);
    x := x - x % mask + (x % mask + relocation / 4) % mask;
    PutField(h, contents, at, x);
    FieldInBytes(h, contents[..], at);
    status := if overflow then Overflow else Ok;
  }

  /**
    tic30_aout_final_link_relocate, for a section placed at `place` in the output.  The test lets
    through an address in the last bytes of the section, whose field then lies behind the limit;
    all that is asked is that the buffer holds the field.
   */
  method FinalLinkRelocate(h: Howto, limit: nat, place: int, contents: array<byte>, address: nat, value: int, addend: int)
    returns (status: Status)
    requires 0 <= place < TWO_TO_64 && 0 <= value < TWO_TO_64 && 0 <= addend < TWO_TO_64
    requires address <= limit ==> address + Width(h) <= contents.Length
    modifies contents
    ensures address > limit ==> status == OutOfRange && contents[..] == old(contents[..])
    ensures address <= limit ==>
      var relocation := Wrapped(value + addend - if h == Pcrel16 then place + address else 0);
      var field := old(Field(h, contents[..], address));
      && status == (if Overflows(h, relocation, field) then Overflow else Ok)
      && Field(h, contents[..], address) == SignedSum(h, relocation, field) % Span(h)
      && (h == Abs24 ==> Bytes24(contents[..], address) == (old(Bytes24(contents[..], address)) + relocation / 4) % 0x100_0000)
      && (h == Pcrel16 ==> Bytes16(contents[..], address) == (old(Bytes16(contents[..], address)) + relocation / 4) % 0x1_0000)
    ensures forall i :: 0 <= i < contents.Length && !(address <= i < address + Width(h)) ==> contents[i] == old(contents[i])
  {
    hide *;
    if address > limit {
      return OutOfRange;
    }
    WrappedTwice(value + addend, place, address);
    var relocation := Wrapped(value + addend);
    if h == Pcrel16 {
      relocation := Wrapped(relocation - place);
      relocation := Wrapped(relocation - address);
    }
    status := RelocateContents(h, relocation, contents, address);
  }

  /** A bfd_vma. */
  function Wrapped(x: int): (w: int)
    ensures 0 <= w < TWO_TO_64
  {
    x % TWO_TO_64
  }

  lemma WrappedDifference(a: int, b: int)
    ensures Wrapped(Wrapped(a) - b) == Wrapped(a - b)
  {
  }

  lemma WrappedTwice(a: int, b: int, c: int)
    ensures Wrapped(Wrapped(Wrapped(a) - b) - c) == Wrapped(a - (b + c))
  {
    WrappedDifference(a, b);
    WrappedDifference(a - b, c);
    hide Wrapped;
    assert a - b - c == a - (b + c);
  }

  // ----- Properties -----

  /** A pc-relative field that did not overflow reads back as the exact sum. */
  lemma PcrelFieldIsExact(relocation: int, field: int)
    requires 0 <= relocation < TWO_TO_64 && 0 <= field < Span(Pcrel16)
    ensures !Overflows(Pcrel16, relocation, field) <==>
      SignedField(Pcrel16, SignedSum(Pcrel16, relocation, field) % Span(Pcrel16)) == SignedSum(Pcrel16, relocation, field)
  {
  }

  /** Both readings of a 24-bit sum agree modulo 2^24: the field does not depend on the choice. */
  lemma BothReadingsGiveTheField(relocation: int, field: int)
    requires 0 <= relocation < TWO_TO_64 && 0 <= field < Span(Abs24)
    ensures SignedSum(Abs24, relocation, field) % Span(Abs24) == UnsignedSum(relocation, field) % Span(Abs24)
  {
    var carry := (if Signed64(relocation) < 0 then TWO_TO_64 / 4 / Span(Abs24) else 0) + (if field < Span(Abs24) / 2 then 0 else 1);
    assert UnsignedSum(relocation, field) == SignedSum(Abs24, relocation, field) + 0x100_0000 * carry;
    SpansDropOut(SignedSum(Abs24, relocation, field), carry);
    hide UnsignedSum, SignedSum;
  }

  lemma SpansDropOut(x: int, k: int)
    ensures (x + 0x100_0000 * k) % 0x100_0000 == x % 0x100_0000
  {
  }

  /** The addends have opposite signs and their sum is a non-negative value of the field. */
  predicate OppositeSignsMeetAboveZero(relocation: int, field: int)
    requires 0 <= relocation < TWO_TO_64
  {
    && (Signed64(relocation) < 0) != (SignedField(Abs24, field) < 0)
    && 0 <= SignedSum(Abs24, relocation, field) < Span(Abs24)
  }

  /**
    The documentation promises a complaint exactly when neither reading is in
    [-2^24, 2^24).  The code keeps that promise except in one case, where it complains
    about a sum that fits.
   */
  lemma BitfieldComplaint(relocation: int, field: int)
    requires 0 <= relocation < TWO_TO_64 && 0 <= field < Span(Abs24)
    ensures
      (Overflows(Abs24, relocation, field) <==>
        !DocumentedRange(Abs24, UnsignedSum(relocation, field)) && !DocumentedRange(Abs24, SignedSum(Abs24, relocation, field)))
      <==> !OppositeSignsMeetAboveZero(relocation, field)
  {
  }

  /** Adding -4 (one word back) to a field holding 5 is reported, although the sum is 4. */
  lemma FalseComplaint()
    ensures SignedSum(Abs24, TWO_TO_64 - 4, 5) == 4
    ensures Overflows(Abs24, TWO_TO_64 - 4, 5)
  {
  }
}
