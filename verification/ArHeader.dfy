/**
  Archive member headers: the 60 bytes of `struct ar_hdr` and how _bfd_generic_read_ar_hdr_mag
  (archive.c) makes sense of them.
 */
module ArHeader {
  import opened CBytes
  import opened ArText

  const HDR_SIZE: nat := 60
  const NAME_SIZE: nat := 16

  lemma HeaderSizes()
    ensures HDR_SIZE == 60 && NAME_SIZE == 16
    ensures SPACE != COLON && SPACE != SLASH && !IsDigitByte(SPACE) && !IsDigitByte(COLON) && !IsDigitByte(SLASH)
  {
  }

  /** ARFMAG */
  function Fmag(): (r: seq<byte>)
    ensures |r| == 2
  {
    [BACKQUOTE, NEWLINE]
  }

  /** ar_name, then ar_date, ar_uid, ar_gid and ar_mode together, then ar_size, then ar_fmag. */
  function Header(name: seq<byte>, middle: seq<byte>, size: seq<byte>): (r: seq<byte>)
    requires |name| == 16 && |middle| == 32 && |size| == 10
    ensures |r| == HDR_SIZE
  {
    name + middle + size + Fmag()
  }

  lemma HeaderFields(name: seq<byte>, middle: seq<byte>, size: seq<byte>)
    requires |name| == 16 && |middle| == 32 && |size| == 10
    ensures var h := Header(name, middle, size);
      h[..16] == name && h[16..48] == middle && h[48..58] == size && h[58..60] == Fmag()
  {
  }

  /** What an opened archive knows: `ar_max_namelen`, its kind, and its extended name table. */
  datatype Archive = Archive(maxName: nat, thin: bool, names: Option<seq<byte>>)
  {
    predicate Valid() { 4 <= maxName <= NAME_SIZE }
  }

  /** `struct areltdata`, with the position the file is left at. */
  datatype Areltdata = Areltdata(filename: seq<byte>, parsedSize: int, extraSize: int, origin: int, header: seq<byte>, at: nat)

  /** sscanf of ar_size: a minus sign is accepted, and the result wraps. */
  function ParsedSize(hdr: seq<byte>): (r: Option<int>)
    requires |hdr| == HDR_SIZE
    ensures r.Some? ==> 0 <= r.value < TWO_TO_64
  {
    var n := ReadNumber(hdr[48..58], 0);
    if n.found then Some(n.value % TWO_TO_64) else None
  }

  lemma SizeReads(hdr: seq<byte>, size: nat)
    requires |hdr| == 60 && SizeField(size) == Some(hdr[48..58])
    ensures ParsedSize(hdr) == Some(size) && size < Pow10(10) < TWO_TO_64
  {
    Pow10Ten();
    SizeReadsBack(size);
    hide SizeField, ReadNumber;
  }

  /** strtol of the header from `k` on; a value out of range is an error. */
  function ReadLong(hdr: seq<byte>, k: nat): (r: Option<Number>)
    requires k <= |hdr|
    ensures r.Some? ==> k <= r.value.end <= |hdr|
  {
    var n := ReadNumber(hdr, k);
    if -TWO_TO_64 / 2 <= n.value < TWO_TO_64 / 2 then Some(n) else None
  }

  /** get_extended_arelt_filename: the name and, for a thin archive's nested member, its origin. */
  function ExtendedName(a: Archive, names: seq<byte>, hdr: seq<byte>): Option<(seq<byte>, int)>
    requires |hdr| == HDR_SIZE
  {
    match ReadLong(hdr, 1)
    case None => None
    case Some(index) =>
      if index.value < 0 || index.value >= |names| then None
      else if a.thin && index.end < |hdr| && hdr[index.end] == COLON then
        match ReadLong(hdr, index.end + 1)
        case None => None
        case Some(origin) => Some((CString(names, index.value), origin.value))
      else Some((CString(names, index.value), 0))
  }

  predicate HasExtendedName(a: Archive, hdr: seq<byte>)
    requires a.Valid() && |hdr| == HDR_SIZE
  {
    (hdr[0] == SLASH || (hdr[0] == SPACE && Find(hdr, a.maxName, SLASH).None?)) && a.names.Some?
  }

  /** is_bsd44_extended_name */
  predicate HasBsd44Name(hdr: seq<byte>)
    requires |hdr| >= 4
  {
    hdr[0] == 0x23 && hdr[1] == 0x31 && hdr[2] == SLASH && IsDigitByte(hdr[3])
  }

  /** The end of a name in the header itself: a NUL, or else a slash, or else a blank. */
  function NameEnd(a: Archive, hdr: seq<byte>): (r: nat)
    requires a.Valid() && |hdr| == HDR_SIZE
    ensures r <= a.maxName
  {
    var nul, slash, space := Find(hdr, a.maxName, 0), Find(hdr, a.maxName, SLASH), Find(hdr, a.maxName, SPACE);
    if nul.Some? then nul.value
    else if slash.Some? then slash.value
    else if space.Some? then space.value
    else a.maxName
  }

  /** atoi: a long truncated to an int. */
  function ToInt(value: int): int {
    var long := if value >= TWO_TO_64 / 2 then TWO_TO_64 / 2 - 1 else value;
    var low := long % TWO_TO_32;
    if low < TWO_TO_32 / 2 then low else low - TWO_TO_32
  }

  /** _bfd_generic_read_ar_hdr with the file at `pos`. */
  function ReadHeader(a: Archive, file: seq<byte>, pos: nat): (r: Option<Areltdata>)
    requires a.Valid()
    ensures r.Some? ==> pos + HDR_SIZE <= r.value.at <= |file| && 0 <= r.value.parsedSize < TWO_TO_64 && r.value.extraSize >= 0
    ensures r.Some? ==> r.value.header == file[pos..pos + HDR_SIZE]
  {
    var at := pos + HDR_SIZE;
    if at > |file| then None
    else
      var hdr := file[pos..at];
      if hdr[58..60] != Fmag() then None
      else
        match ParsedSize(hdr)
        case None => None
        case Some(size) =>
          if HasExtendedName(a, hdr) then
            match ExtendedName(a, a.names.value, hdr)
            case None => None
            case Some((name, origin)) => Some(Areltdata(name, size, 0, origin, hdr, at))
          else if HasBsd44Name(hdr) then
            var len := ToInt(ReadNumber(hdr, 3).value);
            if len < 0 || at + len > |file| then None
            else Some(Areltdata(CString(file[at..at + len], 0), (size - len) % TWO_TO_64, len, 0, hdr, at + len))
          else Some(Areltdata(hdr[..NameEnd(a, hdr)], size, 0, 0, hdr, at))
  }

  // ----- Names that fit the header -----

  /** The name field begins with `name` and, if there is room for one, a pad character; anything may follow. */
  ghost predicate HoldsShort(a: Archive, pad: byte, hdr: seq<byte>, name: seq<byte>)
    requires a.Valid() && |hdr| == HDR_SIZE
  {
    |name| <= a.maxName && hdr[..|name|] == name && (|name| < NAME_SIZE ==> hdr[|name|] == pad)
  }

  /** The header is read as holding this name itself. */
  predicate ReadsAs(a: Archive, hdr: seq<byte>, name: seq<byte>)
    requires a.Valid() && |hdr| == HDR_SIZE
  {
    !HasExtendedName(a, hdr) && !HasBsd44Name(hdr) && hdr[..NameEnd(a, hdr)] == name
  }

  /** What lbasename leaves of a path: no slash, no NUL. */
  predicate BaseName(name: seq<byte>) {
    forall i :: 0 <= i < |name| ==> name[i] != 0 && name[i] != SLASH
  }

  predicate Blank(name: seq<byte>) {
    exists i :: 0 <= i < |name| && name[i] == SPACE
  }

  /** None of the bytes is among those left in the field behind a name of `n` bytes and its pad character. */
  predicate NoneLeft(a: Archive, hdr: seq<byte>, n: nat, b: byte)
    requires a.Valid() && |hdr| == HDR_SIZE
  {
    forall k :: n < k < a.maxName ==> hdr[k] != b
  }

  /** "#1", which a slash and a digit turn into a BSD 4.4 announcement. */
  function MarkerName(): (r: seq<byte>)
    ensures |r| == 2
  {
    [0x23, 0x31]
  }

  lemma FindIs(s: seq<byte>, n: nat, b: byte, at: nat)
    requires at < n <= |s| && s[at] == b && forall i :: 0 <= i < at ==> s[i] != b
    ensures Find(s, n, b) == Some(at)
  {
  }

  lemma FindsNothing(s: seq<byte>, n: nat, b: byte)
    requires n <= |s| && forall i :: 0 <= i < n ==> s[i] != b
    ensures Find(s, n, b) == None
  {
  }

  lemma FirstBytes(hdr: seq<byte>, name: seq<byte>, i: nat)
    requires |name| <= |hdr| && hdr[..|name|] == name && i < |name|
    ensures hdr[i] == name[i]
  {
    assert hdr[..|name|][i] == hdr[i];
  }

  /** The name is delimited rightly exactly when its end is found behind its last byte. */
  lemma EndTells(hdr: seq<byte>, name: seq<byte>, end: nat)
    requires |name| <= |hdr| && end <= |hdr| && hdr[..|name|] == name
    ensures hdr[..end] == name <==> end == |name|
  {
  }

  /**
    SVR4 style, padded with a slash: which names are read back, whatever the field held before.
    The slash of a padded "#1" together with a digit left behind it announces a BSD 4.4 name.
   */
  lemma SlashPaddedName(a: Archive, hdr: seq<byte>, name: seq<byte>)
    requires a.Valid() && |hdr| == HDR_SIZE && BaseName(name) && HoldsShort(a, SLASH, hdr, name)
    ensures ReadsAs(a, hdr, name) <==>
      if |name| == a.maxName then !Blank(name)
      else (name == [] ==> a.names.None?) && NoneLeft(a, hdr, |name|, 0) && !(name == MarkerName() && IsDigitByte(hdr[3]))
  {
    forall i | 0 <= i < |name| ensures hdr[i] == name[i] {
      FirstBytes(hdr, name, i);
    }
    EndTells(hdr, name, NameEnd(a, hdr));
    if |name| < a.maxName {
      FindIs(hdr, a.maxName, SLASH, |name|);
      if NoneLeft(a, hdr, |name|, 0) {
        FindsNothing(hdr, a.maxName, 0);
      }
    } else {
      FindsNothing(hdr, a.maxName, 0);
      FindsNothing(hdr, a.maxName, SLASH);
      if !Blank(name) {
        FindsNothing(hdr, a.maxName, SPACE);
      }
    }
  }

  /** BSD style, padded with a blank: a slash left behind the name is taken for its end as well. */
  lemma BlankPaddedName(a: Archive, hdr: seq<byte>, name: seq<byte>)
    requires a.Valid() && |hdr| == HDR_SIZE && BaseName(name) && HoldsShort(a, SPACE, hdr, name)
    ensures ReadsAs(a, hdr, name) <==>
      !Blank(name) && (name == [] ==> a.names.None?) && NoneLeft(a, hdr, |name|, 0) && NoneLeft(a, hdr, |name|, SLASH)
  {
    forall i | 0 <= i < |name| ensures hdr[i] == name[i] {
      FirstBytes(hdr, name, i);
    }
    EndTells(hdr, name, NameEnd(a, hdr));
    if NoneLeft(a, hdr, |name|, 0) {
      FindsNothing(hdr, a.maxName, 0);
      if NoneLeft(a, hdr, |name|, SLASH) {
        FindsNothing(hdr, a.maxName, SLASH);
        if !Blank(name) {
          if |name| < a.maxName {
            FindIs(hdr, a.maxName, SPACE, |name|);
          } else {
            FindsNothing(hdr, a.maxName, SPACE);
          }
        }
      }
    }
  }
}
