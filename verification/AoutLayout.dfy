/**
  Laying out the sections of an a.out file (the adjust_*_magic functions of aoutx.h).
  Addresses and sizes are 64-bit words, so every sum is taken modulo 2^64.
 */
module AoutLayout {
  import opened CBytes

  function W(x: int): (w: int)
    ensures IsWord(w) && (IsWord(x) ==> w == x)
  {
    x % TWO_TO_64
  }

  predicate IsWord(x: int) {
    0 <= x < TWO_TO_64
  }

  lemma {:induction false} Pow2Splits(k: nat, m: nat)
    ensures Pow2(k + m) == Pow2(k) * Pow2(m)
  {
    if k > 0 {
      Pow2Splits(k - 1, m);
    }
  }

  lemma WordIsPow2()
    ensures Pow2(64) == TWO_TO_64
  {
    assert Pow2(4) == 16;
    hide Pow2;
    Pow2Splits(4, 4);
    assert Pow2(8) == 0x100;
    Pow2Splits(8, 8);
    assert Pow2(16) == 0x1_0000;
    Pow2Splits(16, 16);
    assert Pow2(32) == 0x1_0000_0000;
    Pow2Splits(32, 32);
  }

  /** `x & (boundary - 1)` and `x & ~(boundary - 1)` for a power of two. */
  predicate IsBoundary(b: int) {
    exists k: nat :: k < 64 && b == Pow2(k)
  }

  function RoundDown(x: int, boundary: int): (r: int)
    requires 0 <= x && boundary > 0
    ensures 0 <= r <= x
  {
    x - x % boundary
  }

  /** BFD_ALIGN: round up, or all ones when the sum wraps. */
  function BfdAlign(x: int, boundary: int): (r: int)
    requires boundary > 0
    ensures IsWord(r)
  {
    var sum := W(x + boundary - 1);
    if sum >= x then RoundDown(sum, boundary) else TWO_TO_64 - 1
  }

  /** align_power */
  function AlignPower(x: int, power: nat): (r: int)
    ensures IsWord(r)
  {
    RoundDown(W(x + Pow2(power) - 1), Pow2(power))
  }

  // ----- Remainders of wrapped sums -----

  lemma DivisorOfWord(b: int) returns (q: int)
    requires IsBoundary(b)
    ensures q * b == TWO_TO_64 && q > 0
  {
    var k: nat :| k < 64 && b == Pow2(k);
    WordIsPow2();
    Pow2Splits(64 - k, k);
    q := Pow2(64 - k);
  }

  lemma Shift(x: int, b: int, n: int)
    requires b > 0
    ensures (x + n * b) % b == x % b
  {
    var q, r := x / b, x % b;
    assert x + n * b == (q + n) * b + r;
    Unique(x + n * b, b, q + n, r);
  }

  lemma Unique(x: int, b: int, q: int, r: int)
    requires b > 0 && x == q * b + r && 0 <= r < b
    ensures x / b == q && x % b == r
  {
    var q', r' := x / b, x % b;
    assert (q - q') * b == r' - r;
    if q > q' {
      Scale(q - q', b);
      assert false;
    } else if q < q' {
      Scale(q' - q, b);
      assert false;
    }
  }

  lemma Scale(n: int, b: int)
    requires n >= 1 && b > 0
    ensures n * b >= b
  {
  }

  /** Wrapping at 2^64 does not change a remainder by a power of two. */
  lemma WrapKeepsRemainder(x: int, b: int)
    requires IsBoundary(b)
    ensures W(x) % b == x % b
  {
    var q := DivisorOfWord(b);
    var n := x / TWO_TO_64;
    assert x == W(x) + n * TWO_TO_64;
    assert n * TWO_TO_64 == (n * q) * b;
    Shift(W(x), b, n * q);
  }

  /** Remainders may be replaced by what they are remainders of. */
  lemma RemainderOfSum(x: int, y: int, b: int)
    requires b > 0
    ensures (x + y % b) % b == (x + y) % b
  {
    assert x + y == (x + y % b) + (y / b) * b;
    Shift(x + y % b, b, y / b);
  }

  /** The padding BFD_ALIGN adds brings a size to the next boundary. */
  lemma AlignPads(x: int, b: int)
    requires IsBoundary(b) && 0 <= x && x + b <= TWO_TO_64
    ensures BfdAlign(x, b) % b == 0
    ensures BfdAlign(x, b) - x == (-x) % b
  {
    var sum := x + b - 1;
    assert W(sum) == sum;
    var q, r := sum / b, sum % b;
    hide W;
    assert BfdAlign(x, b) == q * b;
    Unique(q * b, b, q, 0);
    Unique(-x, b, -q, q * b - x);
  }

  /** BFD_ALIGN gives the next multiple, or all ones where that is beyond the last word. */
  lemma AlignIs(x: int, b: int)
    requires IsBoundary(b) && IsWord(x)
    ensures if x + b - 1 < TWO_TO_64 then BfdAlign(x, b) % b == 0 && x <= BfdAlign(x, b) < x + b
            else BfdAlign(x, b) == 0xffff_ffff_ffff_ffff
  {
    BoundaryIsWord(b);
    var sum := x + b - 1;
    if sum < TWO_TO_64 {
      var q := sum / b;
      assert BfdAlign(x, b) == sum - sum % b == q * b;
      hide BfdAlign, IsBoundary;
      Unique(q * b, b, q, 0);
    } else {
      assert W(sum) == sum - TWO_TO_64 < x;
    }
  }

  lemma BoundaryIsWord(b: int)
    requires IsBoundary(b)
    ensures 0 < b < TWO_TO_64
  {
    var k: nat :| k < 64 && b == Pow2(k);
    WordIsPow2();
    Pow2AtMost(k, 63);
    assert Pow2(64) == 2 * Pow2(63);
  }

  // ----- The ZMAGIC rules as a specification -----

  datatype Params = Params(execBytes: int, diskBlock: int, page: int, segment: int, defaultTextVma: int,
                           ztih: bool, hasReloc: bool, mappedContiguous: bool, countHeader: bool)
  {
    ghost predicate Valid() {
      && IsBoundary(page) && IsBoundary(segment)
      && IsWord(execBytes) && IsWord(diskBlock) && IsWord(defaultTextVma)
    }
  }

  lemma ParamsMean(p: Params)
    requires p.Valid()
    ensures p.page > 0 && p.segment > 0 && IsWord(p.execBytes) && IsWord(p.diskBlock) && IsWord(p.defaultTextVma) && IsWord(0)
  {
  }

  /** The rules for the text, spelled out. */
  lemma TextRules(p: Params, userSet: bool, vma: int, size: int)
    requires p.page > 0
    ensures TextFilepos(p) == (if p.ztih then p.execBytes else p.diskBlock)
    ensures TextVma(p, userSet, vma) ==
      if userSet then vma else if p.hasReloc then 0 else if p.ztih then W(p.defaultTextVma + p.execBytes) else p.defaultTextVma
    ensures var end := W(if p.ztih then p.execBytes + size else size);
      var skew := if !userSet then 0 else if p.ztih then W(p.execBytes - vma) % p.page else W(-vma) % p.page;
      PaddedText(p, userSet, vma, size) == W(size + (skew + BfdAlign(end, p.page) - end))
  {
    hide W, BfdAlign;
  }

  function TextFilepos(p: Params): int {
    if p.ztih then p.execBytes else p.diskBlock
  }

  function TextVma(p: Params, userSet: bool, vma: int): int {
    if userSet then vma
    else if p.hasReloc then 0
    else if p.ztih then W(p.defaultTextVma + p.execBytes)
    else p.defaultTextVma
  }

  /** Where padding counts from: the header is part of the text only with text-includes-header. */
  function TextEnd(p: Params, size: int): int {
    W(if p.ztih then p.execBytes + size else size)
  }

  function TextPad(p: Params, userSet: bool, vma: int, size: int): int
    requires p.page > 0
  {
    (if !userSet then 0 else if p.ztih then W(p.execBytes - vma) % p.page else W(-vma) % p.page)
    + BfdAlign(TextEnd(p, size), p.page) - TextEnd(p, size)
  }

  function PaddedText(p: Params, userSet: bool, vma: int, size: int): int
    requires p.page > 0
  {
    W(size + TextPad(p, userSet, vma, size))
  }

  /** When padding makes the text end on a page boundary in memory. */
  predicate TextEndsOnPage(p: Params, userSet: bool)
    requires p.page > 0
  {
    || userSet
    || (if p.hasReloc then !p.ztih || p.execBytes % p.page == 0 else p.defaultTextVma % p.page == 0)
  }

  /** The text, and the header when it counts, is a page short of filling the address space. */
  predicate TextFits(p: Params, size: int) {
    0 <= size && p.execBytes + size + p.page <= TWO_TO_64
  }

  lemma TextPadEndsOnPage(p: Params, userSet: bool, vma: int, size: int)
    requires p.Valid() && IsWord(vma) && TextFits(p, size)
    ensures W(TextVma(p, userSet, vma) + PaddedText(p, userSet, vma, size)) % p.page == 0
            <==> TextEndsOnPage(p, userSet)
  {
    var at, pad := TextVma(p, userSet, vma), TextPad(p, userSet, vma, size);
    TextPadRemainder(p, userSet, vma, size);
    hide W, TextPad, TextVma, BfdAlign;
    WrapTwice(at, size + pad);
    WrapKeepsRemainder(at + size + pad, p.page);
  }

  lemma TextPadRemainder(p: Params, userSet: bool, vma: int, size: int)
    requires p.Valid() && IsWord(vma) && TextFits(p, size)
    ensures (TextVma(p, userSet, vma) + size + TextPad(p, userSet, vma, size)) % p.page == 0
            <==> TextEndsOnPage(p, userSet)
  {
    hide *;
    TextPadIs(p, userSet, vma, size);
    ParamsMean(p);
    var end, skew := if p.ztih then p.execBytes + size else size, if p.ztih then p.execBytes - vma else -vma;
    if userSet {
      UserSetText(p, vma);
      PadsCombine(vma + size, skew, end, p.page);
      CancelsOut(vma + size, skew, -end, p.page);
    } else {
      DefaultVma(p, vma);
      DefaultTextRemainder(p);
      HeadRemainder(TextVma(p, false, 0), size, end, if p.ztih then p.execBytes else 0, p.page);
    }
  }

  lemma CancelsOut(x: int, y: int, z: int, b: int)
    requires b > 0 && x + y + z == 0
    ensures (x + y + z) % b == 0
  {
  }

  lemma HeadRemainder(at: int, size: int, end: int, head: int, b: int)
    requires b > 0 && end == head + size
    ensures (at + size + (-end) % b) % b == (at - head) % b
  {
    RemainderOfSum(at + size, -end, b);
    assert at + size + -end == at - head;
  }

  lemma UserSetText(p: Params, vma: int)
    requires p.page > 0
    ensures TextVma(p, true, vma) == vma && TextEndsOnPage(p, true)
  {
  }

  lemma DefaultVma(p: Params, vma: int)
    ensures TextVma(p, false, vma) == TextVma(p, false, 0)
  {
    hide W;
  }

  lemma TextPadIs(p: Params, userSet: bool, vma: int, size: int)
    requires p.Valid() && IsWord(vma) && TextFits(p, size)
    ensures var end, skew := if p.ztih then p.execBytes + size else size, if p.ztih then p.execBytes - vma else -vma;
      TextPad(p, userSet, vma, size) == (if userSet then skew % p.page else 0) + (-end) % p.page
  {
    var end, skew := if p.ztih then p.execBytes + size else size, if p.ztih then p.execBytes - vma else -vma;
    assert TextEnd(p, size) == end;
    hide W, BfdAlign, IsBoundary, TextEnd;
    AlignPads(end, p.page);
    WrapKeepsRemainder(skew, p.page);
  }

  lemma PadsCombine(x: int, skew: int, end: int, b: int)
    requires b > 0
    ensures (x + skew % b + (-end) % b) % b == (x + skew - end) % b
  {
    RemainderOfSum(x + skew % b, -end, b);
    RemainderOfSum(x - end, skew, b);
  }

  lemma DefaultTextRemainder(p: Params)
    requires p.Valid()
    ensures (TextVma(p, false, 0) - if p.ztih then p.execBytes else 0) % p.page == 0 <==> TextEndsOnPage(p, false)
  {
    if p.ztih && p.hasReloc {
      NegatedRemainder(p.execBytes, p.page);
    } else if p.ztih {
      var sum := p.defaultTextVma + p.execBytes;
      WrapKeepsRemainder(sum, p.page);
      hide W;
      RemainderOfSum(-p.execBytes, W(sum), p.page);
      RemainderOfSum(-p.execBytes, sum, p.page);
    }
  }

  lemma NegatedRemainder(x: int, b: int)
    requires b > 0
    ensures (-x) % b == 0 <==> x % b == 0
  {
    RemainderOfSum(-x, x, b);
    RemainderOfSum(x, -x, b);
  }

  // ----- The layout, in place -----

  class Section {
    var vma: int
    var size: int
    var filepos: int
    const userSetVma: bool
    const alignmentPower: nat

    constructor (vma: int, size: int, userSetVma: bool, alignmentPower: nat)
      requires IsWord(vma) && IsWord(size)
      ensures this.vma == vma && this.size == size && this.userSetVma == userSetVma
      ensures this.alignmentPower == alignmentPower
    {
      this.vma, this.size, this.filepos := vma, size, 0;
      this.userSetVma, this.alignmentPower := userSetVma, alignmentPower;
    }
  }

  datatype Magic = Undecided | OMagic | NMagic | ZMagic

  function Signed32(x: int): int {
    if x % TWO_TO_32 < TWO_TO_32 / 2 then x % TWO_TO_32 else x % TWO_TO_32 - TWO_TO_32
  }

  class AoutFile {
    const p: Params
    const text: Section
    const data: Section
    const bss: Section
    var aText: int
    var aData: int
    var aBss: int
    var magic: Magic

    ghost predicate Valid()
      reads this, text, data, bss
    {
      && p.Valid() && text != data && data != bss && text != bss
      && IsWord(text.vma) && IsWord(text.size) && IsWord(data.vma) && IsWord(data.size)
      && IsWord(bss.vma) && IsWord(bss.size)
    }

    constructor (p: Params, text: Section, data: Section, bss: Section)
      ensures this.p == p && this.text == text && this.data == data && this.bss == bss
    {
      this.p, this.text, this.data, this.bss := p, text, data, bss;
      aText, aData, aBss, magic := 0, 0, 0, Undecided;
    }

    lemma ValidMeans()
      ensures Valid() <==>
        && p.Valid() && text != data && data != bss && text != bss
        && IsWord(text.vma) && IsWord(text.size) && IsWord(data.vma) && IsWord(data.size)
        && IsWord(bss.vma) && IsWord(bss.size)
    {
      hide IsWord;
    }

    /** adjust_z_magic: the text section, and the page boundary it is padded to. */
    method PadText()
      requires Valid()
      modifies text
      ensures Valid()
      ensures text.filepos == TextFilepos(p)
      ensures text.vma == TextVma(p, text.userSetVma, old(text.vma))
      ensures text.size == PaddedText(p, text.userSetVma, old(text.vma), old(text.size))
      ensures TextFits(p, old(text.size)) ==>
        (W(text.vma + text.size) % p.page == 0 <==> TextEndsOnPage(p, text.userSetVma))
    {
      hide *;
      ValidMeans();
      ParamsMean(p);
      ghost var vma0, size0 := text.vma, text.size;
      TextRules(p, text.userSetVma, vma0, size0);
      text.filepos := if p.ztih then p.execBytes else p.diskBlock;
      var textPad := 0;
      if !text.userSetVma {
        text.vma := if p.hasReloc then 0 else if p.ztih then W(p.defaultTextVma + p.execBytes) else p.defaultTextVma;
      } else if p.ztih {
        textPad := W(text.filepos - text.vma) % p.page;
      } else {
        textPad := W(-text.vma) % p.page;
      }
      var textEnd := if p.ztih then W(text.filepos + text.size) else W(text.size);
      textPad := textPad + BfdAlign(textEnd, p.page) - textEnd;
      text.size := W(text.size + textPad);
      ValidMeans();
      if TextFits(p, size0) {
        TextPadEndsOnPage(p, text.userSetVma, vma0, size0);
      }
    }

    /** adjust_z_magic: the data follow the text in the file, and in memory too when contiguous. */
    method PlaceData()
      requires Valid()
      modifies text`size, data`vma, data`filepos, this`aText
      ensures Valid()
      ensures data.vma == if data.userSetVma then old(data.vma) else BfdAlign(old(W(text.vma + text.size)), p.segment)
      ensures data.filepos == W(text.filepos + text.size)
      ensures text.size == if p.mappedContiguous then ContiguousText(text.vma, data.vma) else old(text.size)
      // A contiguous image is the file; but only if the data come behind the text is that a matter of filling a gap
      ensures p.mappedContiguous ==> W(data.filepos - text.filepos) == W(data.vma - text.vma)
      ensures p.mappedContiguous ==>
        (old(text.size) <= text.size && text.vma + text.size == data.vma <==> text.vma + old(text.size) <= data.vma)
      ensures aText == W(text.size + if p.ztih && p.countHeader then p.execBytes else 0)
    {
      hide *;
      ValidMeans();
      ParamsMean(p);
      FillsGap(text.vma, text.size, if data.userSetVma then data.vma else BfdAlign(W(text.vma + text.size), p.segment));
      if !data.userSetVma {
        data.vma := BfdAlign(W(text.vma + text.size), p.segment);
      }
      if p.mappedContiguous {
        GapCloses(data.vma, text.vma, text.size);
        var gap := W(data.vma - (text.vma + text.size));
        if gap > 0 {
          text.size := W(text.size + gap);
        }
      }
      data.filepos := W(text.filepos + text.size);
      aText := text.size;
      if p.ztih && p.countHeader {
        aText := W(aText + p.execBytes);
      }
      GapCloses(data.vma, text.vma, old(text.size));
      ContiguousFile(text.vma, data.vma, text.filepos);
      ValidMeans();
    }

    /** adjust_z_magic: rounding the data up to a page, and taking the excess out of the BSS. */
    method SizeData()
      requires Valid()
      modifies data`size, bss`vma, this`aData, this`aBss
      ensures Valid()
      ensures data.size == AlignPower(old(data.size), bss.alignmentPower)
      ensures aData == BfdAlign(data.size, p.page)
      ensures bss.vma == if bss.userSetVma then old(bss.vma) else W(data.vma + data.size)
      ensures data.size + p.page <= TWO_TO_64 ==>
        if AlignPower(bss.vma, bss.alignmentPower) == W(data.vma + data.size)
        then aData + aBss == (if aData > data.size + bss.size then aData else data.size + bss.size)
        else aBss == bss.size
    {
      hide BfdAlign, AlignPower;
      data.size := AlignPower(data.size, bss.alignmentPower);
      aData := BfdAlign(data.size, p.page);
      if data.size + p.page <= TWO_TO_64 {
        AlignPads(data.size, p.page);
      }
      var dataPad := W(aData - data.size);
      if !bss.userSetVma {
        bss.vma := W(data.vma + data.size);
      }
      if AlignPower(bss.vma, bss.alignmentPower) == W(data.vma + data.size) {
        aBss := if dataPad > bss.size then 0 else bss.size - dataPad;
      } else {
        aBss := bss.size;
      }
    }

    /** adjust_z_magic */
    method AdjustZMagic()
      requires Valid()
      modifies text, data, bss, this`aText, this`aData, this`aBss, this`magic
      ensures Valid() && magic == ZMagic && bss.size == old(bss.size)
      ensures text.filepos == TextFilepos(p) && data.filepos == W(text.filepos + text.size)
      ensures text.vma == TextVma(p, text.userSetVma, old(text.vma))
      ensures var padded := PaddedText(p, text.userSetVma, old(text.vma), old(text.size));
        && (TextFits(p, old(text.size)) ==>
              (W(text.vma + padded) % p.page == 0 <==> TextEndsOnPage(p, text.userSetVma)))
        && data.vma == (if data.userSetVma then old(data.vma) else BfdAlign(W(text.vma + padded), p.segment))
        && text.size == (if p.mappedContiguous then ContiguousText(text.vma, data.vma) else padded)
        && (p.mappedContiguous ==>
              (padded <= text.size && text.vma + text.size == data.vma <==> text.vma + padded <= data.vma))
      ensures p.mappedContiguous ==> W(data.filepos - text.filepos) == W(data.vma - text.vma)
      ensures aText == W(text.size + if p.ztih && p.countHeader then p.execBytes else 0)
      ensures data.size == AlignPower(old(data.size), bss.alignmentPower) && aData == BfdAlign(data.size, p.page)
      ensures bss.vma == if bss.userSetVma then old(bss.vma) else W(data.vma + data.size)
      ensures data.size + p.page <= TWO_TO_64 ==>
        if AlignPower(bss.vma, bss.alignmentPower) == W(data.vma + data.size)
        then aData + aBss == (if aData > data.size + bss.size then aData else data.size + bss.size)
        else aBss == bss.size
    {
      hide W, BfdAlign, AlignPower, ContiguousText, TextVma, PaddedText, TextEndsOnPage, TextFits;
      PadText();
      PlaceData();
      magic := ZMagic;
      SizeData();
    }

    /** adjust_n_magic */
    method AdjustNMagic()
      requires Valid() && bss.alignmentPower < 64   // a longer shift has no meaning in C
      modifies text, data, bss, this`aText, this`aData, this`aBss, this`magic
      ensures Valid() && magic == NMagic
      ensures text.filepos == p.execBytes && text.size == old(text.size)
      ensures text.vma == if text.userSetVma then old(text.vma) else 0
      ensures data.filepos == W(text.filepos + text.size)
      ensures data.vma == if data.userSetVma then old(data.vma) else BfdAlign(W(text.vma + text.size), p.segment)
      // The padded data end on the alignment of the BSS exactly if the padding fits an int
      ensures W(data.vma + data.size) == AlignPower(W(data.vma + old(data.size)), bss.alignmentPower)
         <==> (-W(data.vma + old(data.size))) % Pow2(bss.alignmentPower) < TWO_TO_32 / 2
      // but a BSS placed by default starts before the padding, so it follows the data only without any
      ensures bss.vma == (if bss.userSetVma then old(bss.vma) else W(data.vma + old(data.size)))
      ensures !bss.userSetVma ==>
        (bss.vma == W(data.vma + data.size) <==> W(data.vma + old(data.size)) % Pow2(IntBits(bss.alignmentPower)) == 0)
      ensures aText == text.size && aData == data.size && aBss == bss.size == old(bss.size)
    {
      hide *;
      ValidMeans();
      ParamsMean(p);
      var pos := p.execBytes;
      var vma := 0;
      text.filepos := pos;
      if !text.userSetVma {
        text.vma := vma;
      } else {
        vma := text.vma;
      }
      pos := W(pos + text.size);
      vma := W(vma + text.size);
      data.filepos := pos;
      if !data.userSetVma {
        data.vma := BfdAlign(vma, p.segment);
      }
      vma := data.vma;
      vma := W(vma + data.size);
      var pad := Signed32(W(AlignPower(vma, bss.alignmentPower) - vma));
      ghost var before := data.size;
      data.size := W(data.size + pad);
      pos := W(pos + data.size);
      WrapTwice(data.vma, before + pad);
      WrapTwice(pad, data.vma + before);
      IntPad(vma, bss.alignmentPower);
      if !bss.userSetVma {
        bss.vma := vma;
      } else {
        vma := bss.vma;
      }
      aText, aData, aBss := text.size, data.size, bss.size;
      magic := NMagic;
      ValidMeans();
    }

    /** adjust_o_magic: the BSS, and padding the data up to it; `vma` is the end of the data. */
    method CloseGap(vma: int)
      requires Valid() && vma == W(data.vma + data.size) && IsWord(data.filepos)
      modifies data`size, bss`vma, bss`filepos
      ensures Valid()
      ensures bss.vma == if bss.userSetVma then old(bss.vma) else vma
      ensures bss.filepos == W(data.filepos + data.size)
      ensures bss.vma == W(data.vma + data.size) <==> W(bss.vma - vma) < TWO_TO_32 / 2
      ensures var pad := Signed32(W(bss.vma - vma));
        data.size == if bss.userSetVma && pad > 0 then W(old(data.size) + pad) else old(data.size)
    {
      hide W, Signed32;
      var pos := W(data.filepos + data.size);
      if !bss.userSetVma {
        bss.vma := vma;
      } else {
        var pad := Signed32(W(bss.vma - vma));
        GapsClosed(bss.vma, vma);
        if pad > 0 {
          WrapTwice(data.vma, data.size + pad);
          WrapTwice(data.filepos, data.size + pad);
          WrapTwice(pad, data.vma + data.size);
          WrapTwice(pad, data.filepos + data.size);
          data.size := W(data.size + pad);
          pos := W(pos + pad);
        }
      }
      bss.filepos := pos;
    }

    /** adjust_o_magic */
    method AdjustOMagic()
      requires Valid()
      modifies text, data, bss, this`aText, this`aData, this`aBss, this`magic
      ensures Valid() && magic == OMagic
      ensures text.filepos == p.execBytes && text.size == old(text.size)
      ensures text.vma == if text.userSetVma then old(text.vma) else 0
      ensures data.filepos == W(text.filepos + text.size)
      ensures data.vma == if data.userSetVma then old(data.vma) else W(text.vma + text.size)
      ensures bss.vma == if bss.userSetVma then old(bss.vma) else W(data.vma + data.size)
      ensures bss.filepos == W(data.filepos + data.size)
      // Padding closes exactly the gaps below 2^31
      ensures bss.vma == W(data.vma + data.size) <==> W(bss.vma - W(data.vma + old(data.size))) < TWO_TO_32 / 2
      ensures var pad := Signed32(W(bss.vma - W(data.vma + old(data.size))));
        data.size == if bss.userSetVma && pad > 0 then W(old(data.size) + pad) else old(data.size)
      ensures aText == text.size && aData == data.size && aBss == bss.size == old(bss.size)
    {
      hide *;
      ValidMeans();
      ParamsMean(p);
      var pos := p.execBytes;
      var vma := 0;
      var pad := 0;
      text.filepos := pos;
      if !text.userSetVma {
        text.vma := vma;
      } else {
        vma := text.vma;
      }
      pos := W(pos + text.size);
      vma := W(vma + text.size);
      if !data.userSetVma {
        text.size := W(text.size + pad);
        pos := W(pos + pad);
        vma := W(vma + pad);
        data.vma := vma;
      } else {
        vma := data.vma;
      }
      data.filepos := pos;
      vma := W(vma + data.size);
      ValidMeans();
      CloseGap(vma);
      aText, aData, aBss := text.size, data.size, bss.size;
      magic := OMagic;
      ValidMeans();
    }
  }

  lemma WrapTwice(x: int, y: int)
    ensures W(x + W(y)) == W(x + y)
  {
  }

  /** A gap read as a signed int is closed by adding it, if positive, exactly below 2^31. */
  lemma GapsClosed(to: int, from: int)
    requires IsWord(to) && IsWord(from)
    ensures var gap := W(to - from); var pad := Signed32(gap);
      (if pad > 0 then W(from + pad) == to else from == to) <==> gap < TWO_TO_32 / 2
  {
  }

  /** Adding the wrapped gap makes the sizes meet, even when the gap is negative. */
  lemma GapCloses(to: int, from: int, size: int)
    requires IsWord(size)
    ensures var gap := W(to - (from + size)); gap >= 0 && W(size + gap) == W(to - from) && (gap == 0 ==> size == W(to - from))
  {
    WrapTwice(size, to - (from + size));
    WrapTwice(to - from - size, size);
  }

  /** The size that makes the text reach to the data, in wrapping arithmetic. */
  function ContiguousText(textVma: int, dataVma: int): (size: int)
    ensures IsWord(size)
  {
    W(dataVma - textVma)
  }

  lemma ContiguousFile(textVma: int, dataVma: int, textFilepos: int)
    ensures W(W(textFilepos + ContiguousText(textVma, dataVma)) - textFilepos) == W(dataVma - textVma)
    ensures ContiguousText(textVma, dataVma) == W(dataVma - textVma)
  {
    hide W;
    WrapTwice(textFilepos, dataVma - textVma);
    WrapTwice(-textFilepos, textFilepos + (dataVma - textVma));
  }

  /** The text grows to where the data begin exactly if they do not begin before it ends. */
  lemma FillsGap(textVma: int, size: int, dataVma: int)
    requires IsWord(textVma) && IsWord(size) && IsWord(dataVma)
    ensures var filled := ContiguousText(textVma, dataVma);
      size <= filled && textVma + filled == dataVma <==> textVma + size <= dataVma
  {
    if dataVma < textVma {
      assert W(dataVma - textVma) == dataVma - textVma + TWO_TO_64;
    }
  }

  /** Data placed inside the text cut it down to where they begin. */
  lemma TextIsCut()
    ensures ContiguousText(0x1_0000, 0x1_0800) == 0x800 < 0x1000
    ensures W(0x1_0800 - (0x1_0000 + 0x1000)) > 0
  {
    assert W(-0x800) == TWO_TO_64 - 0x800;
  }

  lemma {:induction false} Pow2AtMost(k: nat, m: nat)
    requires k <= m
    ensures Pow2(k) <= Pow2(m)
  {
    if k < m {
      Pow2AtMost(k, m - 1);
    }
  }

  lemma SmallWord(x: int, power: nat)
    requires 0 <= x < Pow2(power) && power <= 64
    ensures W(x) == x
  {
    Pow2AtMost(power, 64);
    WordIsPow2();
  }

  /** align_power adds less than its boundary, also when the sum wraps. */
  lemma AlignPowerAdds(x: int, power: nat)
    requires IsWord(x) && power < 64
    ensures var b := Pow2(power);
      W(AlignPower(x, power) - x) == b - 1 - (x + b - 1) % b
  {
    hide *;
    var b := Pow2(power);
    var sum := x + b - 1;
    var r := sum % b;
    AlignPowerIs(x, power);
    WrapTwice(-x - r, sum);
    assert AlignPower(x, power) - x == -x - r + W(sum);
    assert -x - r + sum == b - 1 - r;
    SmallWord(b - 1 - r, power);
  }

  lemma AlignPowerIs(x: int, power: nat)
    requires IsWord(x) && power < 64
    ensures var b := Pow2(power); AlignPower(x, power) == W(x + b - 1) - (x + b - 1) % b
  {
    var b := Pow2(power);
    assert IsBoundary(b);
    WrapKeepsRemainder(x + b - 1, b);
    hide W, Pow2, IsBoundary;
  }

  lemma WhatIsMissing(x: int, b: int)
    requires b > 0
    ensures b - 1 - (x + b - 1) % b == (-x) % b
  {
    var q, r := (x + b - 1) / b, (x + b - 1) % b;
    assert -x == (-q) * b + (b - 1 - r);
    Unique(-x, b, -q, b - 1 - r);
  }

  /** It adds what is missing to the next multiple. */
  lemma AlignPowerPads(x: int, power: nat)
    requires IsWord(x) && power < 64
    ensures W(AlignPower(x, power) - x) == (-x) % Pow2(power)
  {
    hide *;
    AlignPowerAdds(x, power);
    WhatIsMissing(x, Pow2(power));
  }

  /** An int holds the padding for at most this power; beyond it only the low bits count. */
  function IntBits(power: nat): nat {
    if power < 32 then power else 32
  }

  /** The padding of an NMAGIC file's data, cut to an int. */
  lemma IntPad(x: int, power: nat)
    requires IsWord(x) && power < 64
    ensures var pad := Signed32(W(AlignPower(x, power) - x));
      && (W(x + pad) == AlignPower(x, power) <==> (-x) % Pow2(power) < TWO_TO_32 / 2)
      && (W(x + pad) == x <==> x % Pow2(IntBits(power)) == 0)
  {
    hide *;
    var gap, b := W(AlignPower(x, power) - x), Pow2(power);
    AlignPowerPads(x, power);
    Pow2AtMost(power, 63);
    PadMeets(x, AlignPower(x, power), gap);
    LowBits(x, power);
  }

  /** A gap below 2^63 is closed by its low 32 bits as an int exactly below 2^31, and ignored exactly if they are zero. */
  lemma PadMeets(x: int, to: int, gap: int)
    requires IsWord(x) && IsWord(to) && gap == W(to - x) && gap < Pow2(63)
    ensures W(x + Signed32(gap)) == to <==> gap < TWO_TO_32 / 2
    ensures W(x + Signed32(gap)) == x <==> gap % TWO_TO_32 == 0
  {
    hide *;
    GapReaches(x, to);
    SignedLow(gap);
    var pad := Signed32(gap);
    PadIsClose(pad, gap);
    SameWord(x + pad, x + gap);
    SameWord(x + pad, x);
  }

  lemma GapReaches(x: int, to: int)
    requires IsWord(to) && IsWord(x)
    ensures W(x + W(to - x)) == to && W(x) == x && 0 <= W(to - x)
  {
    WrapTwice(x, to - x);
    hide W;
  }

  lemma PadIsClose(pad: int, gap: int)
    requires 0 <= gap < Pow2(63) && -TWO_TO_32 / 2 <= pad < TWO_TO_32 / 2
    ensures -TWO_TO_64 < pad - gap < TWO_TO_64 && -TWO_TO_64 < pad < TWO_TO_64
    ensures gap >= TWO_TO_32 / 2 ==> pad != gap
  {
    Pow2Of63();
    hide Pow2;
  }

  lemma SignedLow(gap: int)
    ensures -TWO_TO_32 / 2 <= Signed32(gap) < TWO_TO_32 / 2
    ensures 0 <= gap < TWO_TO_32 / 2 ==> Signed32(gap) == gap
    ensures Signed32(gap) == 0 <==> gap % TWO_TO_32 == 0
  {
  }

  /** Numbers less than 2^64 apart that wrap to the same word are equal. */
  lemma SameWord(x: int, y: int)
    requires -TWO_TO_64 < x - y < TWO_TO_64
    ensures W(x) == W(y) <==> x == y
  {
  }

  lemma Pow2Of63()
    ensures Pow2(63) == TWO_TO_64 / 2
  {
    WordIsPow2();
  }

  /** Whether the low 32 bits of the padding are zero can be seen from the address. */
  lemma LowBits(x: int, power: nat)
    requires power < 64
    ensures (-x) % Pow2(power) % TWO_TO_32 == 0 <==> x % Pow2(IntBits(power)) == 0
  {
    HalfWordIsPow2();
    if power < 32 {
      Pow2AtMost(power, 31);
      hide Pow2;
      NegatedRemainder(x, Pow2(power));
    } else {
      Pow2Splits(32, power - 32);
      hide Pow2;
      RemainderTwice(-x, TWO_TO_32, Pow2(power - 32));
      NegatedRemainder(x, TWO_TO_32);
    }
  }

  lemma RemainderTwice(x: int, m: int, n: int)
    requires m > 0 && n > 0
    ensures m * n > 0 && x % (m * n) % m == x % m
  {
    Scale(n, m);
    var q, r := x / (m * n), x % (m * n);
    assert x == r + (q * n) * m;
    Shift(r, m, q * n);
  }

  /** One byte of data at 0 before a BSS aligned to 16: 15 bytes of padding, and the BSS is still put at 1. */
  lemma BssOverlapsPadding()
    ensures Signed32(W(AlignPower(1, 4) - 1)) == 15 && 1 % Pow2(IntBits(4)) != 0
  {
    assert Pow2(4) == 16;
    AlignPowerPads(1, 4);
    hide Pow2, W, AlignPower;
  }

  /** Aligned to 2^32 instead, the padding is cut to -1, and takes the byte away. */
  lemma PaddingIsCut()
    ensures Signed32(W(AlignPower(1, 32) - 1)) == -1 && (-1) % Pow2(32) >= TWO_TO_32 / 2
  {
    HalfWordIsPow2();
    AlignPowerPads(1, 32);
    hide Pow2, W, AlignPower;
  }

  lemma HalfWordIsPow2()
    ensures Pow2(31) == TWO_TO_32 / 2 && Pow2(32) == TWO_TO_32
  {
    assert Pow2(3) == 8 && Pow2(4) == 16;
    hide Pow2;
    Pow2Splits(3, 4);
    assert Pow2(7) == 0x80;
    Pow2Splits(4, 4);
    assert Pow2(8) == 0x100;
    Pow2Splits(8, 8);
    assert Pow2(16) == 0x1_0000;
    Pow2Splits(7, 8);
    assert Pow2(15) == 0x8000;
    Pow2Splits(15, 16);
    Pow2Splits(16, 16);
  }
}
