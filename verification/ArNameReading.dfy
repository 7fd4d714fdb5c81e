/**
  Reading names back (archive.c): the clean-up of an extended name table after loading it, and
  the theorem that every header the builder left leads to its member's name.
 */
module ArNameReading {
  import opened CBytes
  import opened ArText
  import opened ArHeader
  import opened ArNames

  // ----- Cleaning up the table -----

  function Slashed(b: byte): byte {
    if b == BACKSLASH then SLASH else b
  }

  /** A newline becomes the NUL that ends a name, unless a slash before it does; backslashes become slashes. */
  function ConvertedByte(s: seq<byte>, k: nat): byte
    requires k < |s|
  {
    if s[k] == NEWLINE then (if k > 0 && Slashed(s[k - 1]) == SLASH then NEWLINE else 0)
    else if Slashed(s[k]) == SLASH && k + 1 < |s| && s[k + 1] == NEWLINE then 0
    else Slashed(s[k])
  }

  function Converted(s: seq<byte>): (r: seq<byte>)
    ensures |r| == |s| && forall k :: 0 <= k < |s| ==> r[k] == ConvertedByte(s, k)
  {
    seq(|s|, k requires 0 <= k < |s| => ConvertedByte(s, k))
  }

  /** The loop at the end of _bfd_slurp_extended_name_table. */
  method CleanUp(names: array<byte>)
    modifies names
    ensures names[..] == Converted(old(names[..]))
  {
    ghost var s := names[..];
    var temp := 0;
    while temp < names.Length
      invariant 0 <= temp <= names.Length
      invariant forall k :: temp <= k < names.Length ==> names[k] == s[k]
      invariant temp > 0 ==> names[temp - 1] == Pending(s, temp - 1)
      invariant forall k :: 0 <= k < temp - 1 ==> names[k] == ConvertedByte(s, k)
    {
      if names[temp] == NEWLINE {
        names[if temp > 0 && names[temp - 1] == SLASH then temp - 1 else temp] := 0;
      }
      if names[temp] == BACKSLASH {
        names[temp] := SLASH;
      }
      temp := temp + 1;
    }
    assert forall k :: 0 <= k < |s| ==> names[k] == ConvertedByte(s, k);
  }

  /** A byte before what follows it is known. */
  function Pending(s: seq<byte>, k: nat): byte
    requires k < |s|
  {
    if s[k] == NEWLINE then (if k > 0 && Slashed(s[k - 1]) == SLASH then NEWLINE else 0) else Slashed(s[k])
  }

  // ----- Finding a name in the table -----

  /** A name that survives the table: no newline or backslash, and no final slash that could be the terminator's. */
  predicate Sane(s: Style, name: seq<byte>) {
    && (forall i :: 0 <= i < |name| ==> name[i] != NEWLINE && name[i] != BACKSLASH)
    && (!s.slash && name != [] ==> name[|name| - 1] != SLASH)
  }

  /** An entry can start here: nothing is before it, or the newline of another one. */
  predicate EntryStarts(t: seq<byte>, k: nat) {
    k == 0 || (k <= |t| && t[k - 1] == NEWLINE)
  }

  /** The table holds a name's entry at `k`, byte by byte. */
  ghost predicate EntryThere(s: Style, t: seq<byte>, k: nat, name: seq<byte>) {
    && k + |name| + |Terminator(s)| <= |t| && EntryStarts(t, k) && (forall i :: 0 <= i < |name| ==> t[k + i] == name[i])
    && t[k + |name|] == (if s.slash then SLASH else NEWLINE) && (s.slash ==> t[k + |name| + 1] == NEWLINE)
  }

  lemma IsThere(s: Style, t: seq<byte>, k: nat, name: seq<byte>)
    requires At(t, k, name + Terminator(s)) && EntryStarts(t, k)
    ensures EntryThere(s, t, k, name)
  {
    var text := name + Terminator(s);
    forall i | 0 <= i < |text| ensures t[k + i] == text[i] {
      AtByte(t, k, text, i);
    }
    assert forall i :: 0 <= i < |name| ==> text[i] == name[i];
    assert s.slash ==> t[k + (|name| + 1)] == text[|name| + 1];
  }

  /** An entry is cleaned up to its name and a NUL, exactly for the names that survive. */
  lemma EntryConverts(s: Style, t: seq<byte>, k: nat, name: seq<byte>)
    requires NulFree(name) && At(t, k, name + Terminator(s)) && EntryStarts(t, k)
    ensures CString(Converted(t), k) == name <==> Sane(s, name)
  {
    hide *;
    IsThere(s, t, k, name);
    if Sane(s, name) {
      SaneSurvives(s, t, k, name);
    } else if CString(Converted(t), k) == name {
      SurvivorIsSane(s, t, k, name);
    }
  }

  lemma SaneSurvives(s: Style, t: seq<byte>, k: nat, name: seq<byte>)
    requires EntryThere(s, t, k, name) && NulFree(name) && Sane(s, name)
    ensures CString(Converted(t), k) == name
  {
    hide CString;
    var n, c := |name|, Converted(t);
    forall i | 0 <= i < n ensures c[k + i] == name[i] {
      assert i + 1 < n ==> t[k + (i + 1)] == name[i + 1];
    }
    assert n > 0 ==> t[k + (n - 1)] == name[n - 1];
    assert c[k + n] == 0;
    CStringIs(c, k, name);
  }

  lemma SurvivorIsSane(s: Style, t: seq<byte>, k: nat, name: seq<byte>)
    requires EntryThere(s, t, k, name) && NulFree(name) && CString(Converted(t), k) == name
    ensures Sane(s, name)
  {
    var n, c := |name|, Converted(t);
    hide CString;
    forall i | 0 <= i < n ensures c[k + i] == name[i] {
      assert c[k..k + n][i] == c[k + i];
    }
    forall i | 0 <= i < n ensures name[i] != NEWLINE {
      assert i > 0 ==> c[k + (i - 1)] == name[i - 1] != 0 && t[k + (i - 1)] == name[i - 1];
      assert c[k + i] == name[i] != 0;
    }
    assert n > 0 ==> c[k + (n - 1)] == name[n - 1] != 0;
  }

  lemma AtPrefix(a: seq<byte>, text: seq<byte>, t: seq<byte>)
    requires a + text <= t
    ensures At(t, |a|, text)
  {
  }

  lemma PrefixTransitive(a: seq<byte>, b: seq<byte>, c: seq<byte>)
    requires a <= b && b <= c
    ensures a <= c
  {
  }

  /** Behind any number of whole entries another one can start. */
  lemma {:induction false} TableEnds(s: Style, ms: seq<Member>, n: nat)
    requires n <= |ms|
    ensures EntryStarts(Table(s, ms, n), |Table(s, ms, n)|)
  {
    hide NeedsTable, StoredName, Reuses;
    if n > 0 {
      TableEnds(s, ms, n - 1);
      assert Table(s, ms, n) == Table(s, ms, n - 1) + Entry(s, ms, n - 1);
    }
  }

  lemma StartsInLonger(a: seq<byte>, t: seq<byte>)
    requires a <= t && EntryStarts(a, |a|)
    ensures EntryStarts(t, |a|)
  {
  }

  /** Every name that needs one has its entry at the offset its header is given. */
  lemma {:induction false} EntryAt(s: Style, ms: seq<Member>, i: nat, t: seq<byte>)
    requires i < |ms| && NeedsTable(s, ms[i]) && Table(s, ms, |ms|) <= t
    ensures At(t, Offset(s, ms, i), StoredName(s, ms[i]) + Terminator(s)) && EntryStarts(t, Offset(s, ms, i))
    decreases i
  {
    hide Table, BaseOf, Entry, EntryStarts;
    if Reuses(s, ms, i) {
      EntryAt(s, ms, i - 1, t);
    } else {
      TableStep(s, ms, i + 1);
      EntryIs(s, ms, i);
      TableGrows(s, ms, i + 1, |ms|);
      PrefixTransitive(Table(s, ms, i + 1), Table(s, ms, |ms|), t);
      AtPrefix(Table(s, ms, i), StoredName(s, ms[i]) + Terminator(s), t);
      TableEnds(s, ms, i);
      StartsInLonger(Table(s, ms, i), t);
    }
  }

  // ----- Following a reference -----

  /** The place of a nested member in its own archive; 0 for any other. */
  function PlaceOf(s: Style, m: Member): nat {
    if s.thin && m.origin > 0 then (if m.origin >= HDR_SIZE then m.origin - HDR_SIZE else 0) else 0
  }

  predicate Nested(s: Style, m: Member) {
    s.thin && m.origin > 0
  }

  /** The run of digits from `k` on. */
  function DigitRun(t: seq<byte>, k: nat): (r: seq<byte>)
    requires k <= |t|
    ensures forall i :: 0 <= i < |r| ==> IsDigitByte(r[i])
  {
    t[k..DigitsEnd(t, k)]
  }

  /** The digits found for a number printed in `room` bytes: its own, and if they fill those, the ones behind. */
  function DigitsFound(n: nat, room: nat, behind: seq<byte>): (r: seq<byte>)
    ensures (forall i :: 0 <= i < |behind| ==> IsDigitByte(behind[i])) ==> forall i :: 0 <= i < |r| ==> IsDigitByte(r[i])
  {
    var d := Decimal(n);
    if |d| < room then d else d[..room] + behind
  }

  /** The number is complete and delimited, or the digits behind the field happen to complete it. */
  predicate Complete(n: nat, room: nat, behind: seq<byte>) {
    |Decimal(n)| < room || behind == Decimal(n)[room..]
  }

  /** The room left for a nested member's place behind the offset and the colon. */
  function Room(s: Style, offset: nat): int {
    s.maxName - 2 - |Decimal(offset)|
  }

  lemma RoomIs(s: Style, offset: nat)
    requires s.Valid() && offset < Pow10(10)
    ensures 2 <= Room(s, offset) == s.maxName - 2 - |Decimal(offset)| && |Decimal(offset)| <= 10
  {
    DecimalLength(offset, 10);
    hide Decimal, Pow10;
  }

  /** The place that is read for a member, given the header its reference is put in. */
  function PlaceRead(s: Style, m: Member, offset: nat, hdr: seq<byte>): nat
    requires s.Valid() && |hdr| == HDR_SIZE && offset < Pow10(10)
  {
    RoomIs(s, offset);
    if Nested(s, m) then ValueOf(DigitsFound(PlaceOf(s, m), Room(s, offset), DigitRun(hdr, s.maxName))) else 0
  }

  /** The place of a nested member survives: it fits with something behind that ends it, or by coincidence. */
  predicate PlaceFits(s: Style, m: Member, offset: nat, hdr: seq<byte>)
    requires s.Valid() && |hdr| == HDR_SIZE && offset < Pow10(10)
  {
    RoomIs(s, offset);
    Nested(s, m) ==> Complete(PlaceOf(s, m), Room(s, offset), DigitRun(hdr, s.maxName))
  }

  /** The digits found have the number's value only if they are its own. */
  lemma FoundIsExact(n: nat, room: nat, behind: seq<byte>)
    requires room >= 2 && forall i :: 0 <= i < |behind| ==> IsDigitByte(behind[i])
    ensures ValueOf(DigitsFound(n, room, behind)) == n <==> Complete(n, room, behind)
    ensures behind == [] ==> ValueOf(DigitsFound(n, room, behind)) <= n
  {
    var d, x := Decimal(n), DigitsFound(n, room, behind);
    ValueOfDecimal(n);
    if |d| >= room {
      assert n > 0 by { assert |Decimal(0)| == 1; }
      LeadingDigit(n);
      assert x == d <==> behind == d[room..];
      hide Decimal, ValueOf;
      assert x[0] == d[0];
      DecimalOfValue(x);
      if behind == [] && room < |d| {
        FewerDigits(n, room);
        assert x == d[..room];
      }
    }
  }

  /** The place that is read is the member's own exactly if it fits. */
  lemma PlaceReadIsExact(s: Style, m: Member, offset: nat, hdr: seq<byte>)
    requires s.Valid() && |hdr| == HDR_SIZE && offset < Pow10(10)
    ensures PlaceRead(s, m, offset, hdr) == PlaceOf(s, m) <==> PlaceFits(s, m, offset, hdr)
    ensures !IsDigitByte(hdr[s.maxName]) ==> PlaceRead(s, m, offset, hdr) <= PlaceOf(s, m)
  {
    RoomIs(s, offset);
    FoundIsExact(PlaceOf(s, m), Room(s, offset), DigitRun(hdr, s.maxName));
    hide ValueOf, DigitsFound, Complete, Room, Decimal, Pow10;
  }

  /** The header of a member whose name is in the table, piece by piece. */
  lemma ReferencePieces(s: Style, m: Member, offset: nat, hdr: seq<byte>)
    requires s.Valid() && |hdr| == HDR_SIZE && offset < Pow10(10)
    ensures var h, d := [s.pad] + Reference(s, m, offset) + hdr[s.maxName..], Decimal(offset); var n := |d|;
      && |h| == HDR_SIZE && n <= 10 && h[0] == s.pad && At(h, 1, d) && h[1 + n] == (if Nested(s, m) then COLON else SPACE)
      && h[s.maxName..] == hdr[s.maxName..]
      && (Nested(s, m) ==> At(h, 2 + n, Padded(Decimal(PlaceOf(s, m)), Room(s, offset))))
  {
    hide *;
    HeaderSizes();
    StyleSize(s);
    RoomIs(s, offset);
    var r, d := Reference(s, m, offset), Decimal(offset);
    ReferenceIs(s, m, offset);
    var h := [s.pad] + r + hdr[s.maxName..];
    PiecesOf([s.pad], r, hdr[s.maxName..]);
    AtByte(h, 1, r, |d|);
    AtAt(h, 1, r, 0, d);
    if Nested(s, m) {
      AtAt(h, 1, r, |d| + 1, Padded(Decimal(PlaceOf(s, m)), Room(s, offset)));
    }
  }

  lemma PiecesOf(pad: seq<byte>, r: seq<byte>, rest: seq<byte>)
    requires |pad| == 1
    ensures var h := pad + r + rest; h[0] == pad[0] && At(h, 1, r) && h[1 + |r|..] == rest
  {
  }

  lemma ReferenceIs(s: Style, m: Member, offset: nat)
    requires s.Valid() && |Decimal(offset)| <= 10 && HDR_SIZE == 60
    ensures var r, n := Reference(s, m, offset), |Decimal(offset)|;
      && |r| == s.maxName - 1 && At(r, 0, Decimal(offset)) && r[n] == (if Nested(s, m) then COLON else SPACE)
      && (Nested(s, m) ==> At(r, n + 1, Padded(Decimal(PlaceOf(s, m)), Room(s, offset))))
  {
    hide *;
    StyleSize(s);
    ReferencePrinted(s, m, offset);
    var r, d := Reference(s, m, offset), Decimal(offset);
    if Nested(s, m) {
      var place := Padded(Decimal(PlaceOf(s, m)), Room(s, offset));
      AtFront(d + [COLON], place);
      AtFront(d, [COLON]);
      AtAt(r, 0, d + [COLON], 0, d);
      AtAt(r, 0, d + [COLON], |d|, [COLON]);
      AtByte(r, |d|, [COLON], 0);
    } else {
      AtFront(d, Spaces(s.maxName - 1 - |d|));
      AtByte(r, |d|, Spaces(s.maxName - 1 - |d|), 0);
    }
  }

  /** A reference: the offset, and a colon and the place, or blanks. */
  lemma ReferencePrinted(s: Style, m: Member, offset: nat)
    requires s.Valid() && |Decimal(offset)| <= 10
    ensures Room(s, offset) >= 2
    ensures Reference(s, m, offset) ==
      if Nested(s, m) then (Decimal(offset) + [COLON]) + Padded(Decimal(PlaceOf(s, m)), Room(s, offset))
      else Decimal(offset) + Spaces(s.maxName - 1 - |Decimal(offset)|)
  {
    hide Decimal;
    if Nested(s, m) {
      hide Padded;
    }
  }

  /** Cutting off digits makes a number smaller. */
  lemma {:induction false} FewerDigits(n: nat, k: nat)
    requires 0 < k < |Decimal(n)|
    ensures forall i :: 0 <= i < k ==> IsDigitByte(Decimal(n)[..k][i])
    ensures ValueOf(Decimal(n)[..k]) < n
  {
    var d := Decimal(n / 10);
    assert Decimal(n)[..k] == d[..k];
    if k == |d| {
      ValueOfDecimal(n / 10);
      assert d[..k] == d;
    } else {
      FewerDigits(n / 10, k);
    }
  }

  /** A number printed in a field is read as the digits found. */
  lemma FieldReads(h: seq<byte>, k: nat, end: nat, n: nat)
    requires k < end <= |h| && At(h, k, Padded(Decimal(n), end - k))
    ensures ReadNumber(h, k).found && ReadNumber(h, k).value == ValueOf(DigitsFound(n, end - k, DigitRun(h, end)))
  {
    hide *;
    FoundThere(h, k, end, n);
    DigitsRead(h, k, DigitsFound(n, end - k, DigitRun(h, end)));
  }

  /** The digits found are there, and no digit follows them. */
  lemma FoundThere(h: seq<byte>, k: nat, end: nat, n: nat)
    requires k < end <= |h| && At(h, k, Padded(Decimal(n), end - k))
    ensures var x := DigitsFound(n, end - k, DigitRun(h, end));
      && x != [] && k + |x| <= |h| && h[k..k + |x|] == x && (k + |x| < |h| ==> !IsDigitByte(h[k + |x|]))
  {
    hide *;
    HeaderSizes();
    FoundIs(n, end - k, DigitRun(h, end));
    if |Decimal(n)| < end - k {
      BlankFollows(h, k, end - k, Decimal(n));
    } else {
      RunFollows(h, k, end, Decimal(n));
    }
  }

  lemma FoundIs(n: nat, room: nat, behind: seq<byte>)
    ensures DigitsFound(n, room, behind) == (if |Decimal(n)| < room then Decimal(n) else Decimal(n)[..room] + behind)
  {
    hide Decimal;
  }

  lemma BlankFollows(h: seq<byte>, k: nat, room: nat, d: seq<byte>)
    requires |d| < room && At(h, k, Padded(d, room))
    ensures k + |d| < |h| && h[k..k + |d|] == d && h[k + |d|] == SPACE
  {
    AtByte(h, k, Padded(d, room), |d|);
    AtFront(d, Spaces(room - |d|));
    AtAt(h, k, Padded(d, room), 0, d);
  }

  lemma RunFollows(h: seq<byte>, k: nat, end: nat, d: seq<byte>)
    requires k < end <= |h| && |d| >= end - k && At(h, k, Padded(d, end - k))
    ensures var x := d[..end - k] + DigitRun(h, end);
      k + |x| <= |h| && h[k..k + |x|] == x && (k + |x| < |h| ==> !IsDigitByte(h[k + |x|]))
  {
    var x := d[..end - k] + DigitRun(h, end);
    assert h[k..end] == d[..end - k];
    assert h[k..k + |x|] == h[k..end] + h[end..DigitsEnd(h, end)];
  }

  lemma SameRun(h: seq<byte>, hdr: seq<byte>, k: nat)
    requires k <= |h| == |hdr| && h[k..] == hdr[k..]
    ensures DigitRun(h, k) == DigitRun(hdr, k)
  {
    var e := DigitsEnd(hdr, k);
    assert forall i :: k <= i < |h| ==> h[i] == h[k..][i - k] == hdr[k..][i - k] == hdr[i];
    DigitsEndAt(h, k, e);
    assert h[k..e] == hdr[k..e];
  }

  lemma ReferenceReads(s: Style, m: Member, offset: nat, hdr: seq<byte>)
    requires s.Valid() && |hdr| == HDR_SIZE && offset < Pow10(10)
    ensures var h := [s.pad] + Reference(s, m, offset) + hdr[s.maxName..];
      var index := ReadNumber(h, 1);
      && |h| == HDR_SIZE && index.found && index.value == offset && index.end < s.maxName
      && (h[index.end] == COLON <==> Nested(s, m))
      && (Nested(s, m) ==> ReadNumber(h, index.end + 1).value == PlaceRead(s, m, offset, hdr))
  {
    hide *;
    HeaderSizes();
    StyleSize(s);
    RoomIs(s, offset);
    ReferencePieces(s, m, offset, hdr);
    var h, d := [s.pad] + Reference(s, m, offset) + hdr[s.maxName..], Decimal(offset);
    AtSlice(h, 1, d);
    NumberReadsBack(h, 1, offset);
    if Nested(s, m) {
      FieldReads(h, 2 + |d|, s.maxName, PlaceOf(s, m));
      SameRun(h, hdr, s.maxName);
      PlaceReadIs(s, m, offset, hdr);
    }
  }

  lemma PlaceReadIs(s: Style, m: Member, offset: nat, hdr: seq<byte>)
    requires s.Valid() && |hdr| == HDR_SIZE && offset < Pow10(10) && Room(s, offset) >= 0
    ensures PlaceRead(s, m, offset, hdr) ==
      if Nested(s, m) then ValueOf(DigitsFound(PlaceOf(s, m), Room(s, offset), DigitRun(hdr, s.maxName))) else 0
  {
    RoomIs(s, offset);
    hide ValueOf, DigitsFound, Room, Nested, PlaceOf, DigitRun, Pow10;
  }

  lemma StyleSize(s: Style)
    requires s.Valid()
    ensures 14 <= s.maxName <= 16
  {
  }

  /** The archive is read with the style it was written in, and the table as the builder left it, perhaps padded. */
  ghost predicate ReadsTable(s: Style, ms: seq<Member>, a: Archive, t: seq<byte>) {
    && s.Valid() && a.Valid() && (s.pad == SLASH || s.pad == SPACE) && a.maxName == s.maxName && a.thin == s.thin
    && Table(s, ms, |ms|) <= t && |t| <= Pow10(10)
    && (t != [] ==> a.names == Some(Converted(t)))
  }

  lemma OffsetInTable(s: Style, ms: seq<Member>, i: nat, t: seq<byte>)
    requires i < |ms| && At(t, Offset(s, ms, i), StoredName(s, ms[i]) + Terminator(s))
    ensures Offset(s, ms, i) < |t|
  {
    hide Offset, StoredName;
  }

  lemma NoSlashInReference(s: Style, m: Member, offset: nat, hdr: seq<byte>)
    requires s.Valid() && |hdr| == HDR_SIZE && offset < Pow10(10) && s.pad == SPACE
    ensures var h := [s.pad] + Reference(s, m, offset) + hdr[s.maxName..];
      |h| == HDR_SIZE && Find(h, s.maxName, SLASH) == None
  {
    hide Find, Pow10, Decimal, Padded;
    var r, h := Reference(s, m, offset), [s.pad] + Reference(s, m, offset) + hdr[s.maxName..];
    forall k | 0 <= k < |r| ensures r[k] != SLASH {
      ReferenceText(s, m, offset, k);
    }
    hide Reference;
    forall k | 0 <= k < s.maxName ensures h[k] != SLASH {
      assert h[k] == if k == 0 then s.pad else r[k - 1];
    }
    FindsNothing(h, s.maxName, SLASH);
  }

  lemma ReferenceText(s: Style, m: Member, offset: nat, k: nat)
    requires s.Valid() && k < s.maxName - 1
    ensures var c := Reference(s, m, offset)[k]; IsDigitByte(c) || c == COLON || c == SPACE
  {
    hide Decimal;
  }

  /** The place that is read for the i-th member; 0 for a name in the header. */
  function OriginRead(s: Style, ms: seq<Member>, i: nat, hdr: seq<byte>): nat
    requires s.Valid() && i < |ms| && |hdr| == HDR_SIZE
  {
    if NeedsTable(s, ms[i]) && Offset(s, ms, i) < Pow10(10) then PlaceRead(s, ms[i], Offset(s, ms, i), hdr) else 0
  }

  lemma OriginIs(s: Style, ms: seq<Member>, i: nat, hdr: seq<byte>)
    requires s.Valid() && i < |ms| && |hdr| == HDR_SIZE && (NeedsTable(s, ms[i]) ==> Offset(s, ms, i) < Pow10(10))
    ensures NeedsTable(s, ms[i]) ==> OriginRead(s, ms, i, hdr) == PlaceRead(s, ms[i], Offset(s, ms, i), hdr)
    ensures !NeedsTable(s, ms[i]) ==> PlaceOf(s, ms[i]) == OriginRead(s, ms, i, hdr) == 0 && Legible(s, ms, i, hdr)
  {
    hide Offset, PlaceRead, BaseOf;
  }

  /** What is read for a nested member's place is a long. */
  predicate Legible(s: Style, ms: seq<Member>, i: nat, hdr: seq<byte>)
    requires s.Valid() && i < |ms| && |hdr| == HDR_SIZE
  {
    OriginRead(s, ms, i, hdr) < TWO_TO_64 / 2
  }

  lemma LegibleMeans(s: Style, ms: seq<Member>, i: nat, hdr: seq<byte>)
    requires s.Valid() && i < |ms| && |hdr| == HDR_SIZE
    ensures Legible(s, ms, i, hdr) <==> OriginRead(s, ms, i, hdr) < TWO_TO_64 / 2
  {
    hide OriginRead;
  }

  /**
    A name from the table is read back exactly if it survived the clean-up, together with what the
    header holds for its place; only if that is not a long does reading fail.
   */
  lemma LongNameReads(s: Style, ms: seq<Member>, i: nat, hdr: seq<byte>, a: Archive, t: seq<byte>)
    requires ReadsTable(s, ms, a, t) && i < |ms| && NeedsTable(s, ms[i]) && NulFree(StoredName(s, ms[i])) && |hdr| == HDR_SIZE
    ensures Offset(s, ms, i) < Pow10(10)
    ensures var h, offset := Named(s, ms, i, hdr), Offset(s, ms, i);
      && HasExtendedName(a, h)
      && var e := ExtendedName(a, a.names.value, h);
         && (e.Some? <==> Legible(s, ms, i, hdr))
         && (e.Some? ==>
               && (e.value.0 == StoredName(s, ms[i]) <==> Sane(s, StoredName(s, ms[i])))
               && e.value.1 == OriginRead(s, ms, i, hdr)
               && (e.value.1 == PlaceOf(s, ms[i]) <==> PlaceFits(s, ms[i], offset, hdr)))
  {
    hide *;
    var offset := Offset(s, ms, i);
    TableRead(s, ms, a, t);
    EntryAt(s, ms, i, t);
    OffsetInTable(s, ms, i, t);
    EntryConverts(s, t, offset, StoredName(s, ms[i]));
    NamedLong(s, ms, i, hdr);
    ReferenceReads(s, ms[i], offset, hdr);
    RoomIs(s, offset);
    PlaceReadIs(s, ms[i], offset, hdr);
    PlaceReadIsExact(s, ms[i], offset, hdr);
    OriginIs(s, ms, i, hdr);
    LegibleMeans(s, ms, i, hdr);
    if s.pad == SPACE {
      NoSlashInReference(s, ms[i], offset, hdr);
    }
    FrontOf(s.pad, Reference(s, ms[i], offset), hdr[s.maxName..]);
    ExtendedReads(s, ms[i], offset, Named(s, ms, i, hdr), a, Converted(t), PlaceRead(s, ms[i], offset, hdr));
  }

  lemma FrontOf(pad: byte, r: seq<byte>, rest: seq<byte>)
    ensures ([pad] + r + rest)[0] == pad
  {
  }

  lemma TableRead(s: Style, ms: seq<Member>, a: Archive, t: seq<byte>)
    requires ReadsTable(s, ms, a, t)
    ensures s.Valid() && a.Valid() && (s.pad == SLASH || s.pad == SPACE) && a.maxName == s.maxName && a.thin == s.thin
    ensures Table(s, ms, |ms|) <= t && |t| <= Pow10(10) && (t != [] ==> a.names == Some(Converted(t)))
    ensures Pow10(10) < TWO_TO_64 / 2
  {
    hide Table;
    Pow10Ten();
  }

  lemma ExtendedReads(s: Style, m: Member, offset: nat, h: seq<byte>, a: Archive, names: seq<byte>, place: nat)
    requires a.Valid() && |h| == HDR_SIZE && a.names == Some(names) && offset < |names| && |names| <= TWO_TO_64 / 2
    requires a.thin == s.thin && s.maxName == a.maxName && h[0] == s.pad
    requires s.pad == SLASH || (s.pad == SPACE && Find(h, s.maxName, SLASH) == None)
    requires var index := ReadNumber(h, 1);
      && index.found && index.value == offset && index.end < s.maxName && (h[index.end] == COLON <==> Nested(s, m))
      && (if Nested(s, m) then ReadNumber(h, index.end + 1).value == place else place == 0)
    ensures HasExtendedName(a, h)
    ensures ExtendedName(a, names, h) == if place < TWO_TO_64 / 2 then Some((CString(names, offset), place)) else None
  {
    hide ReadNumber, CString, Find;
  }

  // ----- Short names -----

  lemma ShortHeld(s: Style, ms: seq<Member>, i: nat, hdr: seq<byte>, a: Archive)
    requires s.Valid() && a.Valid() && a.maxName == s.maxName && i < |ms| && !NeedsTable(s, ms[i]) && |hdr| == HDR_SIZE
    ensures HoldsShort(a, s.pad, Named(s, ms, i, hdr), ShortName(s, ms[i]))
    ensures forall k :: |ShortName(s, ms[i])| < k < HDR_SIZE ==> Named(s, ms, i, hdr)[k] == hdr[k]
  {
    hide *;
    NamedShort(s, ms, i, hdr);
    StyleSize(s);
    ShortField(a, s.pad, hdr, ShortName(s, ms[i]));
  }

  lemma ShortField(a: Archive, pad: byte, hdr: seq<byte>, name: seq<byte>)
    requires a.Valid() && |hdr| == HDR_SIZE && |name| <= a.maxName
    ensures |name| <= NAME_SIZE && HoldsShort(a, pad, WithName(hdr, name, pad), name)
    ensures forall k :: |name| < k < HDR_SIZE ==> WithName(hdr, name, pad)[k] == hdr[k]
  {
  }

  /**
    The names that a header can hold, given what else was in its name field: blanks end one that
    has no pad character behind it, or a blank for one; NULs left behind end any name, slashes one
    without a slash of its own; and "#1/" must not be followed by a digit.
   */
  predicate Stands(s: Style, a: Archive, name: seq<byte>, hdr: seq<byte>)
    requires a.Valid() && |hdr| == HDR_SIZE
  {
    && (Blank(name) ==> s.pad == SLASH && |name| < s.maxName)
    && (name == [] ==> a.names.None?)
    && NoneLeft(a, hdr, |name|, 0)
    && (s.pad == SPACE ==> NoneLeft(a, hdr, |name|, SLASH))
    && !(s.pad == SLASH && name == MarkerName() && IsDigitByte(hdr[3]))
  }

  /** A name in the header is read back exactly if it stands. */
  lemma ShortNameReads(s: Style, ms: seq<Member>, i: nat, hdr: seq<byte>, a: Archive)
    requires s.Valid() && a.Valid() && (s.pad == SLASH || s.pad == SPACE) && a.maxName == s.maxName
    requires i < |ms| && !NeedsTable(s, ms[i]) && NulFree(ms[i].filename) && |hdr| == HDR_SIZE
    ensures ReadsAs(a, Named(s, ms, i, hdr), ShortName(s, ms[i])) <==> Stands(s, a, ShortName(s, ms[i]), hdr)
  {
    hide *;
    StyleSize(s);
    HeaderSizes();
    ShortHeld(s, ms, i, hdr, a);
    var h, name := Named(s, ms, i, hdr), ShortName(s, ms[i]);
    NamedShort(s, ms, i, hdr);
    ShortIsBase(s, ms[i]);
    if s.pad == SLASH {
      SlashPaddedName(a, h, name);
    } else {
      BlankPaddedName(a, h, name);
    }
    SameTail(s, a, h, hdr, name);
  }

  lemma ShortIsBase(s: Style, m: Member)
    requires s.Valid() && NulFree(m.filename)
    ensures BaseName(ShortName(s, m))
  {
    var name := BaseOf(m.filename);
    SuffixIsFree(m.filename, name);
    hide BaseOf;
  }

  lemma SuffixIsFree(path: seq<byte>, name: seq<byte>)
    requires NulFree(path) && |name| <= |path| && name == path[|path| - |name|..]
    ensures NulFree(name)
  {
  }

  lemma SameTail(s: Style, a: Archive, h: seq<byte>, hdr: seq<byte>, name: seq<byte>)
    requires a.Valid() && |h| == |hdr| == HDR_SIZE && a.maxName == s.maxName && 14 <= s.maxName && |name| <= s.maxName
    requires (s.pad == SLASH || s.pad == SPACE) && forall k :: |name| < k < HDR_SIZE ==> h[k] == hdr[k]
    ensures Stands(s, a, name, hdr) <==>
      if s.pad == SPACE then
        !Blank(name) && (name == [] ==> a.names.None?) && NoneLeft(a, h, |name|, 0) && NoneLeft(a, h, |name|, SLASH)
      else if |name| == a.maxName then !Blank(name)
      else (name == [] ==> a.names.None?) && NoneLeft(a, h, |name|, 0) && !(name == MarkerName() && IsDigitByte(h[3]))
  {
    hide Blank;
    assert NoneLeft(a, h, |name|, 0) <==> NoneLeft(a, hdr, |name|, 0);
    assert NoneLeft(a, h, |name|, SLASH) <==> NoneLeft(a, hdr, |name|, SLASH);
  }

  // ----- Names and places that are misread -----

  /** "fifteen letters" */
  function Fifteen(): (r: seq<byte>)
    ensures |r| == 15 && r[7] == SPACE && BaseName(r)
  {
    [0x66, 0x69, 0x66, 0x74, 0x65, 0x65, 0x6e, SPACE, 0x6c, 0x65, 0x74, 0x74, 0x65, 0x72, 0x73]
  }

  /** A name that fills a 15-byte field is cut at its blank. */
  lemma FullNameIsCut(names: Option<seq<byte>>, hdr: seq<byte>)
    requires |hdr| == HDR_SIZE && hdr[..15] == Fifteen()
    ensures ReadsAs(Archive(15, false, names), hdr, Fifteen()[..7])
  {
    var a := Archive(15, false, names);
    assert forall i :: 0 <= i < 15 ==> hdr[i] == hdr[..15][i] == Fifteen()[i];
    FindsNothing(hdr, 15, 0);
    FindsNothing(hdr, 15, SLASH);
    FindIs(hdr, 15, SPACE, 7);
    assert hdr[..7] == hdr[..15][..7];
  }

  /** "#1" put in a header that said "/1234" becomes "#1/34", the announcement of a BSD 4.4 name. */
  lemma NumberOneIsMisread(rest: seq<byte>)
    requires |rest| == HDR_SIZE - 5
    ensures var hdr := WithName([SLASH, 0x31, 0x32, 0x33, 0x34] + rest, MarkerName(), SLASH);
      HasBsd44Name(hdr) && hdr[2..5] == [SLASH, 0x33, 0x34]
  {
    var hdr0 := [SLASH, 0x31, 0x32, 0x33, 0x34] + rest;
    assert hdr0[3..][0] == 0x33 && hdr0[3..][1] == 0x34;
  }

  /** A place of 100,000,000 behind an offset of 12,345 fills a 16-byte field, and the date behind it is read along. */
  lemma DateIsReadAlong(s: Style, m: Member, hdr: seq<byte>)
    requires s.Valid() && s.maxName == 16 && s.thin && m.origin == 100_000_000 + HDR_SIZE
    requires |hdr| == HDR_SIZE && IsDigitByte(hdr[16])
    ensures 12_345 < Pow10(10) && PlaceOf(s, m) == 100_000_000 && PlaceRead(s, m, 12_345, hdr) != PlaceOf(s, m)
  {
    Pow10Ten();
    Powers();
    DecimalLength(12_345, 5);
    DecimalLength(12_345, 4);
    DecimalLength(100_000_000, 9);
    DecimalLength(100_000_000, 8);
    hide Decimal, Pow10, PlaceRead;
    PlaceReadIsExact(s, m, 12_345, hdr);
    RoomIs(s, 12_345);
  }

  lemma Powers()
    ensures Pow10(4) == 10_000 && Pow10(5) == 100_000 && Pow10(8) == 100_000_000 && Pow10(9) == 1_000_000_000
  {
    assert Pow10(2) == 100 && Pow10(4) == 10_000 && Pow10(6) == 1_000_000;
  }

  // ----- Whole headers -----

  /** What the builder is given: a header with its size and magic in place, and anything for a name. */
  ghost predicate FreshHeader(hdr: seq<byte>, size: nat) {
    |hdr| == HDR_SIZE && SizeField(size) == Some(hdr[48..58]) && hdr[58..60] == Fmag()
  }

  /** The name the archive gives a member. */
  function NameInArchive(s: Style, m: Member): seq<byte>
    requires s.Valid()
  {
    if NeedsTable(s, m) then StoredName(s, m) else ShortName(s, m)
  }

  /** The member's name, a C string, survives the table or stands in its header. */
  predicate GoodName(s: Style, m: Member, a: Archive, hdr: seq<byte>)
    requires s.Valid() && a.Valid() && |hdr| == HDR_SIZE
  {
    && NulFree(m.filename)
    && if NeedsTable(s, m) then NulFree(StoredName(s, m)) && Sane(s, StoredName(s, m)) else Stands(s, a, ShortName(s, m), hdr)
  }

  lemma NamedKeepsRest(s: Style, ms: seq<Member>, i: nat, hdr: seq<byte>)
    requires s.Valid() && i < |ms| && |hdr| == HDR_SIZE
    ensures Named(s, ms, i, hdr)[16..] == hdr[16..]
  {
    hide *;
    StyleSize(s);
    HeaderSizes();
    if NeedsTable(s, ms[i]) {
      NamedLong(s, ms, i, hdr);
      Tail([s.pad] + Reference(s, ms[i], Offset(s, ms, i)), hdr, s.maxName);
    } else {
      NamedShort(s, ms, i, hdr);
      var name := ShortName(s, ms[i]);
      WithNameIs(hdr, name, s.pad);
      if |name| < NAME_SIZE {
        Tail(name + [s.pad], hdr, |name| + 1);
      } else {
        Tail(name, hdr, |name|);
      }
    }
  }

  lemma WithNameIs(hdr: seq<byte>, name: seq<byte>, pad: byte)
    requires |hdr| == HDR_SIZE && |name| <= NAME_SIZE
    ensures WithName(hdr, name, pad) == if |name| < NAME_SIZE then name + [pad] + hdr[|name| + 1..] else name + hdr[|name|..]
  {
  }

  lemma Tail(first: seq<byte>, hdr: seq<byte>, n: nat)
    requires n == |first| <= 16 && |hdr| >= 16
    ensures (first + hdr[n..])[16..] == hdr[16..]
  {
  }

  lemma SliceOfTail(h: seq<byte>, hdr: seq<byte>)
    requires |h| == |hdr| == 60 && h[16..] == hdr[16..]
    ensures h[48..58] == hdr[48..58] && h[58..60] == hdr[58..60]
  {
    assert forall k :: 16 <= k < 60 ==> h[k] == h[16..][k - 16] && hdr[k] == hdr[16..][k - 16];
  }

  /**
    Reading a member's header, wherever it is, gives the name the archive gives the member, its
    size, and the place of a nested member if that fits; it fails only on a place that is no long.
   */
  lemma MemberHeaderReads(s: Style, ms: seq<Member>, i: nat, hdr: seq<byte>, size: nat, a: Archive, t: seq<byte>, file: seq<byte>, pos: nat)
    requires ReadsTable(s, ms, a, t) && i < |ms| && FreshHeader(hdr, size) && size < TWO_TO_64 && GoodName(s, ms[i], a, hdr)
    requires pos + HDR_SIZE <= |file| && file[pos..pos + HDR_SIZE] == Named(s, ms, i, hdr)
    ensures NeedsTable(s, ms[i]) ==> Offset(s, ms, i) < Pow10(10)
    ensures var r := ReadHeader(a, file, pos);
      && (r.Some? <==> Legible(s, ms, i, hdr))
      && (r.Some? ==>
            && r.value.filename == NameInArchive(s, ms[i]) && r.value.parsedSize == size && r.value.extraSize == 0
            && r.value.at == pos + HDR_SIZE && r.value.origin == OriginRead(s, ms, i, hdr))
    ensures OriginRead(s, ms, i, hdr) == PlaceOf(s, ms[i])
       <==> (NeedsTable(s, ms[i]) ==> PlaceFits(s, ms[i], Offset(s, ms, i), hdr))
  {
    hide *;
    HeaderSizes();
    TableRead(s, ms, a, t);
    MemberMeans(s, ms[i], a, hdr, size);
    var h := Named(s, ms, i, hdr);
    NamedKeepsRest(s, ms, i, hdr);
    SliceOfTail(h, hdr);
    SizeReads(h, size);
    if NeedsTable(s, ms[i]) {
      LongNameReads(s, ms, i, hdr, a, t);
      OriginIs(s, ms, i, hdr);
      PlaceReadIsExact(s, ms[i], Offset(s, ms, i), hdr);
      HeaderWithTable(a, file, pos, h, size);
    } else {
      ShortNameReads(s, ms, i, hdr, a);
      ReadsMeans(a, h, ShortName(s, ms[i]));
      HeaderAlone(a, file, pos, h, size);
      OriginIs(s, ms, i, hdr);
    }
  }

  lemma ReadsMeans(a: Archive, hdr: seq<byte>, name: seq<byte>)
    requires a.Valid() && |hdr| == HDR_SIZE
    ensures ReadsAs(a, hdr, name) <==> !HasExtendedName(a, hdr) && !HasBsd44Name(hdr) && hdr[..NameEnd(a, hdr)] == name
  {
    hide HasExtendedName, HasBsd44Name, NameEnd;
  }

  /** What a prepared member's header and name are known for. */
  lemma MemberMeans(s: Style, m: Member, a: Archive, hdr: seq<byte>, size: nat)
    requires s.Valid() && a.Valid() && FreshHeader(hdr, size) && GoodName(s, m, a, hdr)
    ensures |hdr| == 60 && SizeField(size) == Some(hdr[48..58]) && hdr[58..60] == Fmag() && NulFree(m.filename)
    ensures if NeedsTable(s, m) then NulFree(StoredName(s, m)) && Sane(s, StoredName(s, m)) else Stands(s, a, ShortName(s, m), hdr)
    ensures NameInArchive(s, m) == if NeedsTable(s, m) then StoredName(s, m) else ShortName(s, m)
  {
    hide SizeField, NeedsTable, StoredName, ShortName, Sane, Stands;
  }

  lemma HeaderWithTable(a: Archive, file: seq<byte>, pos: nat, h: seq<byte>, size: nat)
    requires a.Valid() && pos + HDR_SIZE <= |file| && file[pos..pos + HDR_SIZE] == h && h[58..60] == Fmag() && ParsedSize(h) == Some(size)
    requires HasExtendedName(a, h)
    ensures var e := ExtendedName(a, a.names.value, h);
      ReadHeader(a, file, pos) == if e.Some? then Some(Areltdata(e.value.0, size, 0, e.value.1, h, pos + HDR_SIZE)) else None
  {
    hide ParsedSize, HasExtendedName, ExtendedName;
  }

  lemma HeaderAlone(a: Archive, file: seq<byte>, pos: nat, h: seq<byte>, size: nat)
    requires a.Valid() && pos + HDR_SIZE <= |file| && file[pos..pos + HDR_SIZE] == h && h[58..60] == Fmag() && ParsedSize(h) == Some(size)
    requires !HasExtendedName(a, h) && !HasBsd44Name(h)
    ensures ReadHeader(a, file, pos) == Some(Areltdata(h[..NameEnd(a, h)], size, 0, 0, h, pos + HDR_SIZE))
  {
    hide ParsedSize, HasExtendedName, HasBsd44Name, NameEnd;
  }
}
