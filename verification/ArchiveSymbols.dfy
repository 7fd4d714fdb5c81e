/**
  Deciding whether the link needs an archive member (aout_link_check_ar_symbols in aoutx.h):
  one pass over the member's symbols that stops at the first one the link is waiting for,
  and otherwise leaves nothing behind but larger common symbols.
 */
module ArchiveSymbols {
  import opened CBytes
  import opened LinkModel

  const N_FN: bv8 := 0x1f

  /** A linker hash entry, as far as the scan looks at it; `owned` when an input file refers to it. */
  datatype LinkEntry = Undef(owned: bool) | CommonSym(size: int, power: nat) | Settled

  datatype SkipMode = SkipNone | SkipText | SkipData | SkipAll

  /** The linker's hash table: names lead to entries, through indirections if any. */
  class LinkHash {
    const lookup: map<string, nat>
    var entries: seq<LinkEntry>

    ghost predicate Valid()
      reads this
    {
      forall name :: name in lookup ==> lookup[name] < |entries|
    }
  }

  predicate WeakDefinition(typ: bv8) {
    typ == N_WEAKA || typ == N_WEAKT || typ == N_WEAKD || typ == N_WEAKB
  }

  predicate StrongDefinition(typ: bv8) {
    typ == N_TEXT | N_EXT || typ == N_DATA | N_EXT || typ == N_BSS | N_EXT || typ == N_ABS | N_EXT || typ == N_INDR | N_EXT
  }

  predicate Invisible(typ: bv8) {
    (typ & N_EXT == 0 || typ & N_STAB != 0 || typ == N_FN) && !WeakDefinition(typ)
  }

  /** A common symbol of the member, with its size. */
  predicate Declares(sym: Sym) {
    sym.typ == 0x01 && sym.value != 0
  }

  /** Whether a definition of a symbol known as common is passed over; SkipNone acts as SkipAll. */
  predicate PassesOver(mode: SkipMode, typ: bv8) {
    match mode
    case SkipText => typ == N_TEXT | N_EXT
    case SkipData => typ == N_DATA | N_EXT
    case SkipNone => true
    case SkipAll => true
  }

  /** bfd_log2: the logarithm to base 2, rounded up. */
  method Log2(x: nat) returns (result: nat)
    ensures result == CeilLog2(x)
  {
    result := 0;
    if x <= 1 {
      return;
    }
    var y: nat := x - 1;
    result, y := 1, y / 2;
    while y != 0
      invariant result + Bits(y) == Bits(x - 1)
    {
      result, y := result + 1, y / 2;
    }
  }

  function Bits(x: nat): nat {
    if x == 0 then 0 else 1 + Bits(x / 2)
  }

  function CeilLog2(x: nat): nat {
    if x <= 1 then 0 else Bits(x - 1)
  }

  lemma {:induction false} BitsBound(x: nat)
    ensures x < Pow2(Bits(x)) && (x > 0 ==> Bits(x) > 0 && Pow2(Bits(x) - 1) <= x)
  {
    if x > 0 {
      BitsBound(x / 2);
    }
  }

  /** The least power of two that is not below `x`. */
  lemma CeilLog2IsLeast(x: nat)
    ensures x <= Pow2(CeilLog2(x))
    ensures CeilLog2(x) > 0 ==> Pow2(CeilLog2(x) - 1) < x
  {
    if x > 1 {
      BitsBound(x - 1);
    }
  }

  // ----- Which symbols the pass looks at, by the numbers of their types -----

  /** An external symbol that is no stab and no file name, or a weak definition. */
  predicate Visible(typ: bv8) {
    (typ & 0x01 == 0x01 && typ & 0xe0 == 0 && typ != 0x1f) || typ == 0x0e || typ == 0x0f || typ == 0x10 || typ == 0x11
  }

  /** An absolute, text, data, BSS or indirect symbol, external. */
  predicate Defining(typ: bv8) {
    typ == 0x03 || typ == 0x05 || typ == 0x07 || typ == 0x09 || typ == 0x0b
  }

  ghost predicate Sound(lookup: map<string, nat>, entries: seq<LinkEntry>, syms: seq<Sym>) {
    && (forall name :: name in lookup ==> lookup[name] < |entries|)
    && forall i :: 0 <= i < |syms| ==> 0 <= syms[i].value < TWO_TO_32
  }

  /** The link is waiting for the symbol, or knows it as common. */
  predicate Wanted(lookup: map<string, nat>, entries: seq<LinkEntry>, name: string) {
    name in lookup && lookup[name] < |entries| && (entries[lookup[name]].Undef? || entries[lookup[name]].CommonSym?)
  }

  /** As the source tests it. */
  predicate Pending(lookup: map<string, nat>, entries: seq<LinkEntry>, name: string)
    ensures Pending(lookup, entries, name) <==> Wanted(lookup, entries, name)
  {
    name in lookup && lookup[name] < |entries| && !entries[lookup[name]].Settled?
  }

  /** The symbol is followed by its target or its warning's subject, which is not looked at. */
  predicate TakesNext(lookup: map<string, nat>, entries: seq<LinkEntry>, sym: Sym) {
    if !Visible(sym.typ) then sym.typ == 0x1e || sym.typ == 0x0a
    else !Wanted(lookup, entries, sym.name) && sym.typ == 0x0b
  }

  predicate Examined(lookup: map<string, nat>, entries: seq<LinkEntry>, syms: seq<Sym>, i: nat)
    requires i < |syms|
  {
    i == 0 || !(Examined(lookup, entries, syms, i - 1) && TakesNext(lookup, entries, syms[i - 1]))
  }

  /** Symbol `i` is looked at and concerns entry `h`, which the link still wants. */
  predicate Concerns(lookup: map<string, nat>, entries: seq<LinkEntry>, syms: seq<Sym>, i: nat, h: nat)
    requires i < |syms|
  {
    && Examined(lookup, entries, syms, i) && Visible(syms[i].typ)
    && Wanted(lookup, entries, syms[i].name) && lookup[syms[i].name] == h
  }

  /** The member declares entry `h` common before symbol `i`. */
  ghost predicate DeclaredBefore(lookup: map<string, nat>, entries: seq<LinkEntry>, syms: seq<Sym>, i: nat, h: nat)
    requires i <= |syms|
  {
    exists j :: 0 <= j < i && Concerns(lookup, entries, syms, j, h) && Declares(syms[j])
  }

  /**
    The link needs the member because of symbol `i`.  It defines something undefined, weakly or
    not; or declares common what no input file refers to, only the command line; or it defines
    something that is common, here or before: if the mode passes over text, no text symbol, if it
    passes over data, no data symbol, and otherwise nothing.
   */
  ghost predicate AsksForMember(lookup: map<string, nat>, entries: seq<LinkEntry>, syms: seq<Sym>, mode: SkipMode, i: nat)
    requires i < |syms|
  {
    && Wanted(lookup, entries, syms[i].name)
    && var h, typ := lookup[syms[i].name], syms[i].typ;
       && Concerns(lookup, entries, syms, i, h)
       && if entries[h].Undef? && !DeclaredBefore(lookup, entries, syms, i, h) then
            || Defining(typ) || typ == 0x0e || typ == 0x0f || typ == 0x10 || typ == 0x11
            || (typ == 0x01 && syms[i].value != 0 && !entries[h].owned)
          else
            Defining(typ) && ((mode == SkipText && typ != 0x05) || (mode == SkipData && typ != 0x07))
  }

  // ----- What the pass leaves behind -----

  function Grown(e: LinkEntry, value: nat, align: nat): LinkEntry {
    match e
    case Undef(_) => CommonSym(value, if CeilLog2(value) > align then align else CeilLog2(value))
    case CommonSym(size, power) => CommonSym(if value > size then value else size, power)
    case Settled => Settled
  }

  /** The table after the first `i` symbols, if none of them asks. */
  function After(lookup: map<string, nat>, entries: seq<LinkEntry>, syms: seq<Sym>, align: nat, i: nat): (r: seq<LinkEntry>)
    requires Sound(lookup, entries, syms) && i <= |syms|
    ensures |r| == |entries|
  {
    if i == 0 then entries
    else
      var before := After(lookup, entries, syms, align, i - 1);
      var sym := syms[i - 1];
      if Wanted(lookup, entries, sym.name) && Concerns(lookup, entries, syms, i - 1, lookup[sym.name]) && Declares(sym) then
        before[lookup[sym.name] := Grown(before[lookup[sym.name]], sym.value, align)]
      else before
  }

  /** The first declaration of `h`, or the end. */
  function FirstDeclaration(lookup: map<string, nat>, entries: seq<LinkEntry>, syms: seq<Sym>, i: nat, h: nat): (j: nat)
    requires i <= |syms|
    ensures j <= i
    ensures forall k :: 0 <= k < j ==> !(Concerns(lookup, entries, syms, k, h) && Declares(syms[k]))
    ensures j < i ==> Concerns(lookup, entries, syms, j, h) && Declares(syms[j])
  {
    if i == 0 then 0
    else
      var j := FirstDeclaration(lookup, entries, syms, i - 1, h);
      if j < i - 1 || (Concerns(lookup, entries, syms, i - 1, h) && Declares(syms[i - 1])) then j else i
  }

  /**
    An entry the member does not declare is unchanged.  One it declares becomes common, as
    large as its old size and every declared size and no larger; its alignment is its old one,
    or that of the first declared size, capped.
   */
  lemma {:induction false} AfterMeans(lookup: map<string, nat>, entries: seq<LinkEntry>, syms: seq<Sym>, align: nat, i: nat, h: nat)
    requires Sound(lookup, entries, syms) && i <= |syms| && h < |entries|
    ensures var e, e' := entries[h], After(lookup, entries, syms, align, i)[h];
      if !DeclaredBefore(lookup, entries, syms, i, h) then e' == e
      else
        && e'.CommonSym?
        && (e.CommonSym? ==> e'.size >= e.size && e'.power == e.power)
        && (e.Undef? ==> var j := FirstDeclaration(lookup, entries, syms, i, h);
              j < i && e'.power == if CeilLog2(syms[j].value) > align then align else CeilLog2(syms[j].value))
        && (forall j :: 0 <= j < i && Concerns(lookup, entries, syms, j, h) && Declares(syms[j]) ==> e'.size >= syms[j].value)
        && ((e.CommonSym? && e'.size == e.size)
            || exists j :: 0 <= j < i && Concerns(lookup, entries, syms, j, h) && Declares(syms[j]) && e'.size == syms[j].value)
  {
    if i > 0 {
      AfterMeans(lookup, entries, syms, align, i - 1, h);
      hide Examined, Visible, CeilLog2;
      if Concerns(lookup, entries, syms, i - 1, h) && Declares(syms[i - 1]) {
        assert DeclaredBefore(lookup, entries, syms, i, h);
      }
    }
  }

  lemma WantedStays(lookup: map<string, nat>, entries: seq<LinkEntry>, syms: seq<Sym>, align: nat, i: nat, name: string)
    requires Sound(lookup, entries, syms) && i <= |syms|
    ensures Wanted(lookup, After(lookup, entries, syms, align, i), name) == Wanted(lookup, entries, name)
  {
    if name in lookup {
      AfterMeans(lookup, entries, syms, align, i, lookup[name]);
      if DeclaredBefore(lookup, entries, syms, i, lookup[name]) {
        var j :| 0 <= j < i && Concerns(lookup, entries, syms, j, lookup[name]) && Declares(syms[j]);
      }
    }
  }

  /** Nothing in between concerns the table: two symbols on. */
  lemma AfterTakesNext(lookup: map<string, nat>, entries: seq<LinkEntry>, syms: seq<Sym>, mode: SkipMode, align: nat, i: nat)
    requires Sound(lookup, entries, syms) && i < |syms|
    requires Examined(lookup, entries, syms, i) && TakesNext(lookup, entries, syms[i])
    ensures !AsksForMember(lookup, entries, syms, mode, i)
    ensures After(lookup, entries, syms, align, i + 1) == After(lookup, entries, syms, align, i)
    ensures i + 1 < |syms| ==>
      && !AsksForMember(lookup, entries, syms, mode, i + 1)
      && After(lookup, entries, syms, align, i + 2) == After(lookup, entries, syms, align, i)
      && (i + 2 < |syms| ==> Examined(lookup, entries, syms, i + 2))
  {
  }

  /** A symbol that is no concern of the link. */
  lemma Uninteresting(lookup: map<string, nat>, entries: seq<LinkEntry>, syms: seq<Sym>, mode: SkipMode, align: nat, i: nat)
    requires Sound(lookup, entries, syms) && i < |syms| && Examined(lookup, entries, syms, i)
    requires (!Visible(syms[i].typ) || !Wanted(lookup, entries, syms[i].name)) && !TakesNext(lookup, entries, syms[i])
    ensures !AsksForMember(lookup, entries, syms, mode, i)
    ensures After(lookup, entries, syms, align, i + 1) == After(lookup, entries, syms, align, i)
    ensures i + 1 < |syms| ==> Examined(lookup, entries, syms, i + 1)
  {
  }

  /** A symbol whose entry the link wants: whether it asks can be told from the table as it is by then. */
  lemma Interesting(lookup: map<string, nat>, entries: seq<LinkEntry>, syms: seq<Sym>, mode: SkipMode, align: nat, i: nat)
    requires Sound(lookup, entries, syms) && i < |syms| && Examined(lookup, entries, syms, i)
    requires Visible(syms[i].typ) && Wanted(lookup, entries, syms[i].name)
    ensures var sym, before := syms[i], After(lookup, entries, syms, align, i);
      var h := lookup[sym.name];
      && AsksForMember(lookup, entries, syms, mode, i) == AsksOf(before[h], sym, mode)
      && After(lookup, entries, syms, align, i + 1)
         == (if Declares(sym) then before[h := Grown(before[h], sym.value, align)] else before)
    ensures i + 1 < |syms| ==> Examined(lookup, entries, syms, i + 1)
  {
    AfterMeans(lookup, entries, syms, align, i, lookup[syms[i].name]);
    TypesAre(syms[i], mode);
    hide FirstDeclaration, CeilLog2, Grown, PassesOver, Visible, WeakDefinition, StrongDefinition;
  }

  predicate AsksOf(e: LinkEntry, sym: Sym, mode: SkipMode) {
    || (StrongDefinition(sym.typ) && (e.Undef? || !PassesOver(mode, sym.typ)))
    || (WeakDefinition(sym.typ) && e.Undef?)
    || (Declares(sym) && e.Undef? && !e.owned)
  }

  /**
    The scan: `needed` is the symbol at which the member is asked for, the first that asks;
    without one, only declared commons have changed.
   */
  method CheckArSymbols(hash: LinkHash, syms: seq<Sym>, mode: SkipMode, align: nat) returns (needed: Option<nat>)
    requires hash.Valid() && Sound(hash.lookup, hash.entries, syms)
    modifies hash`entries
    ensures hash.Valid()
    ensures needed.None? <==> forall i :: 0 <= i < |syms| ==> !AsksForMember(hash.lookup, old(hash.entries), syms, mode, i)
    ensures needed.Some? ==>
      && needed.value < |syms| && AsksForMember(hash.lookup, old(hash.entries), syms, mode, needed.value)
      && forall i :: 0 <= i < needed.value ==> !AsksForMember(hash.lookup, old(hash.entries), syms, mode, i)
    ensures hash.entries == After(hash.lookup, old(hash.entries), syms, align, if needed.Some? then needed.value else |syms|)
  {
    hide Asks, After, Concerns, Examined, Invisible, Visible, TakesNext, Declares, Grown, PassesOver, CeilLog2, AsksOf, Wanted;
    ghost var lookup, entries := hash.lookup, hash.entries;
    ScanStarts(lookup, entries, syms, align);
    var p := 0;
    while p < |syms|
      invariant 0 <= p <= |syms| + 1
      invariant p < |syms| ==> Examined(lookup, entries, syms, p)
      invariant hash.entries == After(lookup, entries, syms, align, if p <= |syms| then p else |syms|)
      invariant forall i :: 0 <= i < p && i < |syms| ==> !AsksForMember(lookup, entries, syms, mode, i)
    {
      var sym := syms[p];
      WantedStays(lookup, entries, syms, align, p, sym.name);
      TakesNextWhen(lookup, entries, sym);
      TypesAre(sym, mode);
      if Invisible(sym.typ) {
        if sym.typ == N_WARNING || sym.typ == N_INDR {
          AfterTakesNext(lookup, entries, syms, mode, align, p);
          p := p + 1;
        } else {
          Uninteresting(lookup, entries, syms, mode, align, p);
        }
        p := p + 1;
        continue;
      }
      if !Pending(hash.lookup, hash.entries, sym.name) {
        if sym.typ == N_INDR | N_EXT {
          AfterTakesNext(lookup, entries, syms, mode, align, p);
          p := p + 1;
        } else {
          Uninteresting(lookup, entries, syms, mode, align, p);
        }
        p := p + 1;
        continue;
      }
      Interesting(lookup, entries, syms, mode, align, p);
      WantedIsThere(hash.lookup, hash.entries, sym.name);
      var asks := Examine(hash, hash.lookup[sym.name], sym, mode, align);
      if asks {
        return Some(p);
      }
      p := p + 1;
    }
    return None;
  }

  lemma ScanStarts(lookup: map<string, nat>, entries: seq<LinkEntry>, syms: seq<Sym>, align: nat)
    requires Sound(lookup, entries, syms)
    ensures After(lookup, entries, syms, align, 0) == entries && (syms != [] ==> Examined(lookup, entries, syms, 0))
  {
  }

  lemma TakesNextWhen(lookup: map<string, nat>, entries: seq<LinkEntry>, sym: Sym)
    ensures TakesNext(lookup, entries, sym) <==>
      if Invisible(sym.typ) then sym.typ == N_WARNING || sym.typ == N_INDR
      else !Wanted(lookup, entries, sym.name) && sym.typ == N_INDR | N_EXT
  {
    hide Wanted;
  }

  /** The tests of the source, in numbers. */
  lemma TypesAre(sym: Sym, mode: SkipMode)
    ensures Visible(sym.typ) <==> !Invisible(sym.typ)
    ensures StrongDefinition(sym.typ) <==> Defining(sym.typ)
    ensures WeakDefinition(sym.typ) <==> sym.typ == 0x0e || sym.typ == 0x0f || sym.typ == 0x10 || sym.typ == 0x11
    ensures PassesOver(mode, sym.typ) <==> !((mode == SkipText && sym.typ != 0x05) || (mode == SkipData && sym.typ != 0x07))
    ensures sym.typ == N_UNDF | N_EXT <==> sym.typ == 0x01
  {
  }

  lemma WantedIsThere(lookup: map<string, nat>, entries: seq<LinkEntry>, name: string)
    requires Wanted(lookup, entries, name)
    ensures name in lookup && lookup[name] < |entries| && !entries[lookup[name]].Settled?
  {
  }

  lemma TypesApart(sym: Sym)
    ensures StrongDefinition(sym.typ) ==> !WeakDefinition(sym.typ) && !Declares(sym)
    ensures WeakDefinition(sym.typ) ==> !Declares(sym)
  {
  }

  /** The part of the loop that looks at a wanted entry. */
  method Examine(hash: LinkHash, h: nat, sym: Sym, mode: SkipMode, align: nat) returns (asks: bool)
    requires h < |hash.entries| && !hash.entries[h].Settled? && 0 <= sym.value
    modifies hash`entries
    ensures asks == AsksOf(old(hash.entries)[h], sym, mode)
    ensures hash.entries ==
      if !asks && Declares(sym) then old(hash.entries)[h := Grown(old(hash.entries)[h], sym.value, align)] else old(hash.entries)
  {
    TypesApart(sym);
    var e := hash.entries[h];
    if StrongDefinition(sym.typ) {
      if e.CommonSym? {
        if PassesOver(mode, sym.typ) {
          return false;
        }
      }
      return true;
    }
    if sym.typ == N_UNDF | N_EXT {
      if sym.value != 0 {
        if e.Undef? {
          if !e.owned {
            return true;
          }
          var power := Log2(sym.value);
          if power > align {
            power := align;
          }
          hash.entries := hash.entries[h := CommonSym(sym.value, power)];
        } else if sym.value > e.size {
          hash.entries := hash.entries[h := CommonSym(sym.value, e.power)];
        }
      }
    }
    if WeakDefinition(sym.typ) {
      if e.Undef? {
        return true;
      }
    }
    return false;
  }
}
