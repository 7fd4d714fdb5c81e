/**
  BSD 4.4 names (archive.c): a long name, or one with blanks, follows its header, padded to a
  multiple of four, and counts in the member's size.
 */
module ArBsd44 {
  import opened CBytes
  import opened ArText
  import opened ArHeader

  predicate IsLong(maxName: nat, name: seq<byte>) {
    |name| > maxName || Blank(name)
  }

  /** `(len + 3) & ~3` */
  function RoundUp4(n: nat): (r: nat)
    ensures n <= r < n + 4 && r % 4 == 0
  {
    (n + 3) / 4 * 4
  }

  function Marker(): (r: seq<byte>)
    ensures |r| == 3
  {
    [0x23, 0x31, SLASH]
  }

  /** A header that announces `extra` bytes of name. */
  function Announcing(maxName: nat, hdr: seq<byte>, extra: nat): (r: seq<byte>)
    requires |hdr| == HDR_SIZE && maxName <= NAME_SIZE
    ensures |r| == HDR_SIZE
  {
    Padded(Marker() + Decimal(extra), maxName) + hdr[maxName..]
  }

  /** _bfd_archive_bsd44_construct_extended_name_table: no table, but headers and extra sizes. */
  method ConstructBsd44Names(maxName: nat, names: seq<seq<byte>>, headers: array<seq<byte>>, extras: array<nat>)
    requires 14 <= maxName <= NAME_SIZE && headers.Length == extras.Length == |names|
    requires forall i :: 0 <= i < headers.Length ==> |headers[i]| == HDR_SIZE
    modifies headers, extras
    ensures forall i :: 0 <= i < |names| ==>
      if IsLong(maxName, names[i]) then
        headers[i] == Announcing(maxName, old(headers[i]), RoundUp4(|names[i]|)) && extras[i] == RoundUp4(|names[i]|)
      else headers[i] == old(headers[i]) && extras[i] == old(extras[i])
    // Names that do not fit or hold a blank, and no others, lose their own header
    ensures forall i :: 0 <= i < |names| ==>
      if |names[i]| > maxName || (exists k :: 0 <= k < |names[i]| && names[i][k] == 0x20) then extras[i] == (|names[i]| + 3) / 4 * 4
      else headers[i] == old(headers[i]) && extras[i] == old(extras[i])
  {
    hide Announcing;
    var i := 0;
    while i < |names|
      invariant 0 <= i <= |names|
      invariant forall k :: i <= k < |names| ==> headers[k] == old(headers[k]) && extras[k] == old(extras[k])
      invariant forall k :: 0 <= k < i ==>
        if IsLong(maxName, names[k]) then
          headers[k] == Announcing(maxName, old(headers[k]), RoundUp4(|names[k]|)) && extras[k] == RoundUp4(|names[k]|)
        else headers[k] == old(headers[k]) && extras[k] == old(extras[k])
    {
      var hasSpace, len := false, 0;
      while len < |names[i]|
        invariant 0 <= len <= |names[i]|
        invariant hasSpace <==> exists k :: 0 <= k < len && names[i][k] == SPACE
      {
        if names[i][len] == SPACE {
          hasSpace := true;
        }
        len := len + 1;
      }
      if len > maxName || hasSpace {
        len := RoundUp4(len);
        extras[i] := len;
        headers[i] := Announcing(maxName, headers[i], len);
      }
      i := i + 1;
    }
  }

  /** _bfd_bsd44_write_ar_hdr: the header and, behind an announcement, the name and its padding. */
  method WriteHeader(hdr0: seq<byte>, name: seq<byte>, parsedSize: nat) returns (bytes: Option<seq<byte>>)
    requires |hdr0| == HDR_SIZE
    ensures bytes == HeaderBytes(hdr0, name, parsedSize)
  {
    if HasBsd44Name(hdr0) {
      var paddedLen := RoundUp4(|name|);
      var size := SizeField(parsedSize + paddedLen);
      if size.None? {
        return None;
      }
      var out := hdr0[..48] + size.value + hdr0[58..] + name;
      PaddingIs(|name|);
      if |name| % 4 != 0 {
        out := out + Zeros(4 - |name| % 4);
      } else {
        assert out == out + Zeros(0);
      }
      return Some(out);
    }
    return Some(hdr0);
  }

  lemma PaddingIs(n: nat)
    ensures RoundUp4(n) - n == if n % 4 != 0 then 4 - n % 4 else 0
  {
    assert n == n / 4 * 4 + n % 4;
  }

  function HeaderBytes(hdr: seq<byte>, name: seq<byte>, parsedSize: nat): Option<seq<byte>>
    requires |hdr| == HDR_SIZE
  {
    if HasBsd44Name(hdr) then
      match SizeField(parsedSize + RoundUp4(|name|))
      case None => None
      case Some(size) => Some(hdr[..48] + size + hdr[58..] + name + Zeros(RoundUp4(|name|) - |name|))
    else Some(hdr)
  }

  lemma AnnouncementPieces(maxName: nat, hdr: seq<byte>, extra: nat)
    requires 14 <= maxName <= NAME_SIZE && |hdr| == HDR_SIZE && |Decimal(extra)| < maxName - 3
    ensures var h, d := Announcing(maxName, hdr, extra), Decimal(extra);
      && h[..3] == Marker() && h[3..3 + |d|] == d && h[3 + |d|] == SPACE && h[16..] == hdr[16..]
  {
    var text := Marker() + Decimal(extra);
    hide Decimal;
    var h := Announcing(maxName, hdr, extra);
    assert h[..|text|] == text;
    assert text[..3] == Marker() && text[3..] == Decimal(extra);
    assert h[..3] == text[..3];
    assert h[3..|text|] == text[3..];
  }

  /** A header that announces `n` bytes of name in front of its size field. */
  predicate Announces(h: seq<byte>, n: nat)
    requires |h| == HDR_SIZE
  {
    HasBsd44Name(h) && ReadNumber(h, 3).value == n && ReadNumber(h, 3).end < 48
  }

  /** The announcement is recognized, and its number read back. */
  lemma AnnouncementReads(maxName: nat, hdr: seq<byte>, extra: nat)
    requires 14 <= maxName <= NAME_SIZE && |hdr| == HDR_SIZE && extra < Pow10(10)
    ensures Announces(Announcing(maxName, hdr, extra), extra)
  {
    DecimalLength(extra, 10);
    hide *;
    HeaderSizes();
    AnnouncementPieces(maxName, hdr, extra);
    var h := Announcing(maxName, hdr, extra);
    NumberReadsBack(h, 3, extra);
    IsAnnouncement(h, Decimal(extra), extra);
  }

  lemma IsAnnouncement(h: seq<byte>, d: seq<byte>, n: nat)
    requires |h| == HDR_SIZE && d != [] && IsDigitByte(d[0]) && |d| <= 10
    requires h[..3] == Marker() && h[3..3 + |d|] == d && ReadNumber(h, 3) == Number(true, n, 3 + |d|)
    ensures Announces(h, n)
  {
    hide ReadNumber;
    assert h[0] == h[..3][0] && h[1] == h[..3][1] && h[2] == h[..3][2] && h[3] == h[3..3 + |d|][0];
  }

  /** Another header that begins the same announces the same. */
  lemma AnnouncesTheSame(h: seq<byte>, f: seq<byte>, n: nat)
    requires |h| == |f| == HDR_SIZE && f[..48] == h[..48] && Announces(h, n)
    ensures Announces(f, n)
  {
    assert forall k :: 0 <= k < 48 ==> f[k] == f[..48][k] == h[..48][k] == h[k];
    var e := ReadNumber(h, 3).end;
    assert e == DigitsEnd(h, 3) && f[3..e] == h[3..e];
    DigitsEndAt(f, 3, e);
  }

  lemma SmallInt(x: int)
    requires 0 <= x < TWO_TO_32 / 2
    ensures ToInt(x) == x
  {
  }

  lemma BytesPieces(hdr: seq<byte>, name: seq<byte>, parsedSize: nat)
    requires |hdr| == HDR_SIZE && HasBsd44Name(hdr) && HeaderBytes(hdr, name, parsedSize).Some?
    ensures SizeField(parsedSize + RoundUp4(|name|)).Some?
    ensures var b := HeaderBytes(hdr, name, parsedSize).value;
      && |b| == HDR_SIZE + RoundUp4(|name|)
      && b[..48] == hdr[..48] && b[48..58] == SizeField(parsedSize + RoundUp4(|name|)).value && b[58..60] == hdr[58..]
      && b[60..] == name + Zeros(RoundUp4(|name|) - |name|)
  {
    hide SizeField, RoundUp4;
    var size := SizeField(parsedSize + RoundUp4(|name|));
    assert size.Some?;
    var b := hdr[..48] + size.value + hdr[58..] + name + Zeros(RoundUp4(|name|) - |name|);
    assert b[60..] == name + Zeros(RoundUp4(|name|) - |name|);
    assert b[58..60] == hdr[58..];
  }

  /** A piece of the file, and pieces of that piece. */
  lemma FilePieces(file: seq<byte>, pos: nat, b: seq<byte>)
    requires |b| >= 60 && pos + |b| <= |file| && file[pos..pos + |b|] == b
    ensures var f := file[pos..pos + 60];
      && f[..48] == b[..48] && f[48..58] == b[48..58] && f[58..60] == b[58..60] && file[pos + 60..pos + |b|] == b[60..]
  {
    assert forall k {:trigger b[k]} :: 0 <= k < |b| ==> file[pos + k] == file[pos..pos + |b|][k];
    var f := file[pos..pos + 60];
    assert f == b[..60];
    assert file[pos + 60..pos + |b|] == b[60..];
  }

  /** The file holds an announcing header and the name at `pos`. */
  ghost predicate WrittenAt(h: seq<byte>, name: seq<byte>, size: nat, file: seq<byte>, pos: nat) {
    && |h| == HDR_SIZE && h[58..60] == Fmag() && Announces(h, RoundUp4(|name|))
    && HeaderBytes(h, name, size).Some?
    && var b := HeaderBytes(h, name, size).value; pos + |b| <= |file| && file[pos..pos + |b|] == b
  }

  lemma WrittenMeans(h: seq<byte>, name: seq<byte>, size: nat, file: seq<byte>, pos: nat)
    requires WrittenAt(h, name, size, file, pos)
    ensures |h| == HDR_SIZE && h[58..] == Fmag() && Announces(h, RoundUp4(|name|)) && HasBsd44Name(h)
    ensures HeaderBytes(h, name, size).Some?
    ensures var b := HeaderBytes(h, name, size).value; pos + |b| <= |file| && file[pos..pos + |b|] == b
  {
    hide HeaderBytes, HasBsd44Name, RoundUp4, ReadNumber;
  }

  lemma WrittenHeader(h: seq<byte>, name: seq<byte>, size: nat, file: seq<byte>, pos: nat)
    requires WrittenAt(h, name, size, file, pos)
    ensures pos + 60 + RoundUp4(|name|) <= |file| && size + RoundUp4(|name|) < Pow10(10)
    ensures var f := file[pos..pos + 60];
      f[58..60] == Fmag() && ParsedSize(f) == Some(size + RoundUp4(|name|)) && Announces(f, RoundUp4(|name|))
  {
    hide *;
    HeaderSizes();
    WrittenMeans(h, name, size, file, pos);
    var b := HeaderBytes(h, name, size).value;
    BytesPieces(h, name, size);
    HeaderPart(file, pos, b);
    AnnouncesTheSame(h, file[pos..pos + 60], RoundUp4(|name|));
    SizeReads(file[pos..pos + 60], size + RoundUp4(|name|));
  }

  lemma WrittenName(h: seq<byte>, name: seq<byte>, size: nat, file: seq<byte>, pos: nat)
    requires WrittenAt(h, name, size, file, pos) && NulFree(name)
    ensures |name| <= RoundUp4(|name|) && pos + 60 + RoundUp4(|name|) <= |file|
    ensures CString(file[pos + 60..pos + 60 + RoundUp4(|name|)], 0) == name
  {
    hide *;
    HeaderSizes();
    WrittenMeans(h, name, size, file, pos);
    var b := HeaderBytes(h, name, size).value;
    BytesPieces(h, name, size);
    BehindHeader(file, pos, b);
    NamePart(file, pos, b, name, RoundUp4(|name|));
  }

  lemma BehindHeader(file: seq<byte>, pos: nat, b: seq<byte>)
    requires |b| >= 60 && pos + |b| <= |file| && file[pos..pos + |b|] == b
    ensures file[pos + 60..pos + |b|] == b[60..]
  {
    FilePieces(file, pos, b);
  }

  lemma HeaderPart(file: seq<byte>, pos: nat, b: seq<byte>)
    requires |b| >= 60 && pos + |b| <= |file| && file[pos..pos + |b|] == b
    ensures var f := file[pos..pos + 60]; f[..48] == b[..48] && f[48..58] == b[48..58] && f[58..60] == b[58..60]
  {
    FilePieces(file, pos, b);
  }

  /**
    A name written behind the header that announces it is read back, with the member's own size,
    and the file is left at the member's contents.
   */
  lemma Bsd44NameReads(a: Archive, h: seq<byte>, name: seq<byte>, size: nat, file: seq<byte>, pos: nat)
    requires a.Valid() && WrittenAt(h, name, size, file, pos)
    requires NulFree(name) && RoundUp4(|name|) < TWO_TO_32 / 2
    ensures var r := ReadHeader(a, file, pos);
      && r.Some? && r.value.filename == name && r.value.parsedSize == size && r.value.extraSize == RoundUp4(|name|)
      && r.value.at == pos + HDR_SIZE + RoundUp4(|name|)
  {
    Pow10Ten();
    hide *;
    HeaderSizes();
    WrittenHeader(h, name, size, file, pos);
    WrittenName(h, name, size, file, pos);
    SmallInt(RoundUp4(|name|));
    AnnouncesMeans(file[pos..pos + 60], RoundUp4(|name|));
    Assemble(a, file, pos, name, size, RoundUp4(|name|));
  }

  lemma AnnouncesMeans(h: seq<byte>, n: nat)
    requires |h| == HDR_SIZE && Announces(h, n)
    ensures HasBsd44Name(h) && ReadNumber(h, 3).value == n
  {
    hide ReadNumber, HasBsd44Name;
  }

  lemma NamePart(file: seq<byte>, pos: nat, b: seq<byte>, name: seq<byte>, extra: nat)
    requires |name| <= extra && |b| == 60 + extra && pos + |b| <= |file| && NulFree(name)
    requires file[pos + 60..pos + |b|] == b[60..] && b[60..] == name + Zeros(extra - |name|)
    ensures CString(file[pos + 60..pos + 60 + extra], 0) == name
  {
    var c := b[60..];
    hide CString;
    assert c[0..0 + |name|] == name;
    CStringIs(c, 0, name);
  }

  lemma MagicKept(maxName: nat, hdr: seq<byte>, extra: nat)
    requires maxName <= NAME_SIZE && |hdr| == HDR_SIZE
    ensures Announcing(maxName, hdr, extra)[58..] == hdr[58..60]
  {
    hide Padded;
  }

  lemma Assemble(a: Archive, file: seq<byte>, pos: nat, name: seq<byte>, size: nat, extra: nat)
    requires a.Valid() && pos + 60 + extra <= |file|
    requires var f := file[pos..pos + 60];
      f[58..60] == Fmag() && ParsedSize(f) == Some(size + extra) && HasBsd44Name(f) && ToInt(ReadNumber(f, 3).value) == extra
    requires CString(file[pos + 60..pos + 60 + extra], 0) == name && size < TWO_TO_64
    ensures ReadHeader(a, file, pos)
         == Some(Areltdata(name, size, extra, 0, file[pos..pos + 60], pos + 60 + extra))
  {
    hide ParsedSize, CString, ToInt, ReadNumber;
  }
}
