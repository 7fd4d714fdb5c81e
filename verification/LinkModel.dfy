/**
  The data the a.out linker works on (aoutx.h): symbol types, the link hash table,
  input files and output records, and the decisions taken about a single symbol.
 */
module LinkModel {
  import opened CBytes

  const N_UNDF: bv8 := 0x00
  const N_EXT: bv8 := 0x01
  const N_ABS: bv8 := 0x02
  const N_TEXT: bv8 := 0x04
  const N_DATA: bv8 := 0x06
  const N_BSS: bv8 := 0x08
  const N_INDR: bv8 := 0x0a
  const N_WEAKU: bv8 := 0x0d
  const N_WEAKA: bv8 := 0x0e
  const N_WEAKT: bv8 := 0x0f
  const N_WEAKD: bv8 := 0x10
  const N_WEAKB: bv8 := 0x11
  const N_SETA: bv8 := 0x14
  const N_SETT: bv8 := 0x16
  const N_SETD: bv8 := 0x18
  const N_SETB: bv8 := 0x1a
  const N_WARNING: bv8 := 0x1e
  const N_TYPE: bv8 := 0x1e
  const N_STAB: bv8 := 0xe0
  const N_BINCL: bv8 := 0x82
  const N_EINCL: bv8 := 0xa2
  const N_EXCL: bv8 := 0xc2

  /** EXTERNAL_NLIST_SIZE */
  const NLIST_SIZE: int := 12

  datatype OutSection = OutText | OutData | OutBss | OutOther

  /** The type of a hash entry; `place` is where the defining input section lands in the output. */
  datatype Kind =
    | New
    | Undefined
    | UndefWeak
    | Defined(value: int, place: int, out: OutSection)
    | DefWeak(value: int, place: int, out: OutSection)
    | Common(size: int)
    | Indirect(link: nat)
    | Warning(link: nat)

  datatype HashEntry = HashEntry(name: string, kind: Kind)

  /** A pointer to an entry is its number; links are acyclic, so entries can be numbered downwards. */
  predicate LinksDown(hash: seq<HashEntry>) {
    forall k :: 0 <= k < |hash| ==>
      && (hash[k].kind.Indirect? ==> hash[k].kind.link < k)
      && (hash[k].kind.Warning? ==> hash[k].kind.link < k)
  }

  /** Following indirect and warning entries to the base symbol. */
  function Resolve(hash: seq<HashEntry>, k: nat): (r: nat)
    requires LinksDown(hash) && k < |hash|
    ensures r <= k && !hash[r].kind.Indirect? && !hash[r].kind.Warning?
  {
    if hash[k].kind.Indirect? || hash[k].kind.Warning? then Resolve(hash, hash[k].kind.link) else k
  }

  function ResolveOption(hash: seq<HashEntry>, h: Option<nat>): (r: Option<nat>)
    requires LinksDown(hash) && (h.Some? ==> h.value < |hash|)
    ensures r.Some? <==> h.Some?
    ensures r.Some? ==> r.value < |hash| && !hash[r.value].kind.Indirect? && !hash[r.value].kind.Warning?
  {
    if h.Some? then Some(Resolve(hash, h.value)) else None
  }

  datatype Sym = Sym(name: string, typ: bv8, other: bv8, desc: int, value: int)

  /** An input section and where it lands in the output. */
  datatype Placement = Placement(vma: int, outVma: int, outOffset: int)

  datatype Sections = Sections(text: Placement, data: Placement, bss: Placement)

  /** A record of the output symbol table; the string table is folded into the name. */
  datatype Nlist = Nlist(name: string, typ: bv8, other: bv8, desc: int, value: int)

  datatype Strip = StripNone | StripDebugger | StripSome | StripAll

  datatype Discard = DiscardNone | DiscardSecMerge | DiscardL | DiscardAll

  datatype Options = Options(strip: Strip, keep: set<string>, discard: Discard, keepMemory: bool,
                             isLocalLabel: string -> bool)

  // ----- One symbol -----

  function Moved(p: Placement, value: int): int {
    p.outVma + p.outOffset + (value - p.vma)
  }

  predicate Stripped(o: Options, typ: bv8, name: string) {
    match o.strip
    case StripNone => false
    case StripDebugger => typ & N_STAB != 0
    case StripSome => name !in o.keep
    case StripAll => true
  }

  /** An indirect symbol or a warning, whose successor may have to be passed through or skipped. */
  predicate Asks(typ: bv8) {
    typ & N_TYPE == N_INDR || typ == N_WARNING
  }

  predicate IsSet(typ: bv8) {
    typ & N_TYPE == N_SETT || typ & N_TYPE == N_SETD || typ & N_TYPE == N_SETB || typ & N_TYPE == N_SETA
  }

  /** A local symbol dropped by the discard option. */
  predicate Discarded(o: Options, typ: bv8, name: string) {
    !IsSet(typ) &&
    match o.discard
    case DiscardNone => false
    case DiscardSecMerge => false
    case DiscardL => typ & N_STAB == 0 && o.isLocalLabel(name)
    case DiscardAll => true
  }

  predicate HasDefinition(k: Kind) {
    k.Defined? || k.DefWeak? || k.Common?
  }

  function DefinedType(out: OutSection, weak: bool): bv8 {
    match out
    case OutText => if weak then N_WEAKT else N_TEXT
    case OutData => if weak then N_WEAKD else N_DATA
    case OutBss => if weak then N_WEAKB else N_BSS
    case OutOther => if weak then N_WEAKA else N_ABS
  }

  /** The type and value to write, and whether the next symbol is to be passed through or skipped. */
  datatype Classified = Classified(typ: bv8, value: int, pass: bool, skipNext: bool)

  function Classify(hash: seq<HashEntry>, s: Sections, sym: Sym, resolved: Option<nat>): Classified
    requires resolved.Some? ==> resolved.value < |hash|
  {
    var typ := sym.typ;
    if typ & N_TYPE == N_TEXT || typ == N_WEAKT then
      Classified(typ, Moved(s.text, sym.value), false, false)
    else if typ & N_TYPE == N_DATA || typ == N_WEAKD then
      Classified(typ, Moved(s.data, sym.value), false, false)
    else if typ & N_TYPE == N_BSS || typ == N_WEAKB then
      Classified(typ, Moved(s.bss, sym.value), false, false)
    else if typ & N_TYPE == N_ABS || typ == N_WEAKA then
      Classified(typ, sym.value, false, false)
    else if (typ & N_TYPE == N_INDR && (resolved.None? || !HasDefinition(hash[resolved.value].kind))) || typ == N_WARNING then
      Classified(typ, sym.value, true, false)
    else if typ & N_STAB != 0 then
      Classified(typ, sym.value, false, false)
    else if resolved.None? then
      Classified(typ, SetElementValue(s, typ, sym.value), false, typ & N_TYPE == N_INDR)
    else
      FromEntry(hash[resolved.value].kind, typ)
  }

  function SetElementValue(s: Sections, typ: bv8, value: int): int {
    if typ & N_TYPE == N_SETT then Moved(s.text, value)
    else if typ & N_TYPE == N_SETD then Moved(s.data, value)
    else if typ & N_TYPE == N_SETB then Moved(s.bss, value)
    else if typ & N_TYPE == N_SETA then value
    else 0
  }

  /** A symbol whose value has to be taken from the hash table. */
  function FromEntry(kind: Kind, typ: bv8): Classified {
    var skip := typ & N_TYPE == N_INDR;
    match kind
    case Defined(value, place, out) =>
      Classified(((if typ == N_SETT || typ == N_SETD || typ == N_SETB || typ == N_SETA then typ | N_EXT else typ) & !N_TYPE)
                 | DefinedType(out, false), value + place, false, skip)
    case DefWeak(value, place, out) =>
      Classified(((if typ == N_SETT || typ == N_SETD || typ == N_SETB || typ == N_SETA then typ | N_EXT else typ) & !N_TYPE)
                 | DefinedType(out, true), value + place, false, skip)
    case Common(size) => Classified(typ, size, false, skip)
    case UndefWeak => Classified(N_WEAKU, 0, false, skip)
    case _ => Classified(typ, 0, false, skip)
  }

  /** What aout_link_write_other_symbol writes for an entry, if anything. */
  function OtherRecord(e: HashEntry): Option<Nlist> {
    match e.kind
    case New => None
    case Undefined => Some(Nlist(e.name, N_UNDF | N_EXT, 0, 0, 0))
    case Defined(value, place, out) => Some(Nlist(e.name, DefinedType(out, false) | N_EXT, 0, 0, (value + place) % TWO_TO_32))
    case DefWeak(value, place, out) => Some(Nlist(e.name, DefinedType(out, true) | N_EXT, 0, 0, (value + place) % TWO_TO_32))
    case Common(size) => Some(Nlist(e.name, N_UNDF | N_EXT, 0, 0, size % TWO_TO_32))
    case UndefWeak => Some(Nlist(e.name, N_WEAKU, 0, 0, 0))
    case Indirect(_) => None
    case Warning(_) => None
  }

  /**
    aout_link_write_other_symbol sets N_EXT in every type.  That marks an ordinary definition
    as external, but the weak types are no flag combinations: it leaves them alone exactly for
    text and BSS, turns a weak data symbol into a weak BSS one and a weak absolute one into
    weak text.
   */
  lemma ExternalBitOnWeakTypes(out: OutSection)
    ensures DefinedType(out, false) | N_EXT != DefinedType(out, false)
    ensures (DefinedType(out, false) | N_EXT) & N_TYPE == DefinedType(out, false)
    ensures DefinedType(out, true) | N_EXT == DefinedType(out, true) <==> out == OutText || out == OutBss
    ensures DefinedType(OutData, true) | N_EXT == DefinedType(OutBss, true)
    ensures DefinedType(OutOther, true) | N_EXT == DefinedType(OutText, true)
  {
    match out
    case OutText =>
    case OutData =>
    case OutBss =>
    case OutOther =>
  }
}
