/**
  The extended name table (archive.c): the builder's two passes, one to measure and one to
  store, the clean-up after reading, and the way back from a header to the member's name.
 */
module ArNames {
  import opened CBytes
  import opened ArText
  import opened ArHeader

  /** A BFD to be archived; `container` is the archive it comes from, when that is not thin. */
  datatype Member = Member(filename: seq<byte>, container: Option<seq<byte>>, origin: nat)

  /**
    How a target writes names: `maxName` and `pad` from its vector, `slash` for the trailing
    slash of SVR4.  `adjust` stands for adjust_relative_path, which thin archives apply.
   */
  datatype Style = Style(maxName: nat, pad: byte, slash: bool, thin: bool, traditional: bool, adjust: seq<byte> -> seq<byte>)
  {
    ghost predicate Valid() { 14 <= maxName <= NAME_SIZE }
  }

  /** lbasename */
  function BaseOf(path: seq<byte>): (r: seq<byte>)
    ensures |r| <= |path| && r == path[|path| - |r|..] && forall i :: 0 <= i < |r| ==> r[i] != SLASH
    ensures |r| < |path| ==> path[|path| - |r| - 1] == SLASH
  {
    if path == [] || path[|path| - 1] == SLASH then []
    else BaseOf(path[..|path| - 1]) + [path[|path| - 1]]
  }

  function PathOf(m: Member): seq<byte> {
    if m.container.Some? then m.container.value else m.filename
  }

  /** What goes in the table for a member that has an entry of its own. */
  function StoredName(s: Style, m: Member): seq<byte> {
    if s.thin then s.adjust(PathOf(m)) else BaseOf(m.filename)
  }

  /** The member shares the entry of the one before it: both come from the same archive. */
  predicate Reuses(s: Style, ms: seq<Member>, i: nat)
    requires i < |ms|
  {
    s.thin && i > 0 && PathOf(ms[i]) == PathOf(ms[i - 1])
  }

  predicate NeedsTable(s: Style, m: Member) {
    s.thin || (|BaseOf(m.filename)| > s.maxName && !s.traditional)
  }

  function Terminator(s: Style): (r: seq<byte>)
    ensures |r| == if s.slash then 2 else 1
  {
    if s.slash then [SLASH, NEWLINE] else [NEWLINE]
  }

  function Entry(s: Style, ms: seq<Member>, i: nat): seq<byte>
    requires i < |ms|
  {
    if NeedsTable(s, ms[i]) && !Reuses(s, ms, i) then StoredName(s, ms[i]) + Terminator(s) else []
  }

  /** The table for the first `n` members. */
  function Table(s: Style, ms: seq<Member>, n: nat): seq<byte>
    requires n <= |ms|
  {
    if n == 0 then [] else Table(s, ms, n - 1) + Entry(s, ms, n - 1)
  }

  /** Where the name of member `i` starts in the table. */
  function Offset(s: Style, ms: seq<Member>, i: nat): nat
    requires i < |ms|
  {
    if Reuses(s, ms, i) then Offset(s, ms, i - 1) else |Table(s, ms, i)|
  }

  /** The reference to the table: the offset and, for a nested member, its place in its archive. */
  function Reference(s: Style, m: Member, offset: nat): (r: seq<byte>)
    requires s.Valid()
    ensures |r| == s.maxName - 1
  {
    var digits := Decimal(offset) + [COLON];
    if s.thin && m.origin > 0 && |digits| < s.maxName - 1 then
      digits + Padded(Decimal(if m.origin >= HDR_SIZE then m.origin - HDR_SIZE else 0), s.maxName - 1 - |digits|)
    else Padded(Decimal(offset), s.maxName - 1)
  }

  /** The name that the header itself holds. */
  function ShortName(s: Style, m: Member): (r: seq<byte>)
    requires s.Valid()
    ensures !NeedsTable(s, m) ==> |r| <= s.maxName
  {
    var name := BaseOf(m.filename);
    if |name| > s.maxName then name[..s.maxName] else name
  }

  /** A header with its own name, and a pad character if there is room for one. */
  function WithName(hdr: seq<byte>, name: seq<byte>, pad: byte): (r: seq<byte>)
    requires |hdr| == HDR_SIZE && |name| <= NAME_SIZE
    ensures |r| == HDR_SIZE
  {
    if |name| < NAME_SIZE then name + [pad] + hdr[|name| + 1..] else name + hdr[|name|..]
  }

  /** A header after the builder has been over it. */
  function Named(s: Style, ms: seq<Member>, i: nat, hdr: seq<byte>): (r: seq<byte>)
    requires s.Valid() && i < |ms| && |hdr| == HDR_SIZE
    ensures |r| == HDR_SIZE
  {
    if NeedsTable(s, ms[i]) then [s.pad] + Reference(s, ms[i], Offset(s, ms, i)) + hdr[s.maxName..]
    else WithName(hdr, ShortName(s, ms[i]), s.pad)
  }

  lemma EntryLength(s: Style, ms: seq<Member>, i: nat)
    requires i < |ms|
    ensures |Entry(s, ms, i)| ==
      if NeedsTable(s, ms[i]) && !Reuses(s, ms, i) then |StoredName(s, ms[i])| + if s.slash then 2 else 1 else 0
  {
    hide StoredName, NeedsTable, Reuses;
  }

  lemma NamedShort(s: Style, ms: seq<Member>, i: nat, hdr: seq<byte>)
    requires s.Valid() && i < |ms| && |hdr| == HDR_SIZE && !NeedsTable(s, ms[i])
    ensures var name := ShortName(s, ms[i]); var n := |name|;
      && name == BaseOf(ms[i].filename)[..n] && n == (if |BaseOf(ms[i].filename)| > s.maxName then s.maxName else |BaseOf(ms[i].filename)|)
      && n <= NAME_SIZE && Named(s, ms, i, hdr) == WithName(hdr, name, s.pad)
  {
    hide BaseOf, Reference, Offset;
  }

  // ----- The builder -----

  /** The first pass over one member: its share of the table, or its header put right. */
  method Measure(s: Style, ms: seq<Member>, i: nat, headers: array<seq<byte>>) returns (share: nat)
    requires s.Valid() && i < |ms| == headers.Length && |headers[i]| == HDR_SIZE
    modifies headers
    ensures share == |Entry(s, ms, i)|
    ensures headers[i] == if NeedsTable(s, ms[i]) then old(headers[i]) else Named(s, ms, i, old(headers[i]))
    ensures forall k :: 0 <= k < headers.Length && k != i ==> headers[k] == old(headers[k])
  {
    hide BaseOf, Entry, Named, ShortName;
    EntryLength(s, ms, i);
    if s.thin {
      if i > 0 && PathOf(ms[i - 1]) == PathOf(ms[i]) {
        return 0;
      }
      share := |s.adjust(PathOf(ms[i]))| + 1;
      if s.slash {
        share := share + 1;
      }
      return;
    }
    var normal := BaseOf(ms[i].filename);
    var thislen := |normal|;
    if thislen > s.maxName && s.traditional {
      thislen := s.maxName;
    }
    if thislen > s.maxName {
      share := thislen + 1;
      if s.slash {
        share := share + 1;
      }
    } else {
      share := 0;
      NamedShort(s, ms, i, headers[i]);
      headers[i] := PutInField(headers[i], normal[..thislen], s.pad, s.maxName);
    }
  }

  /** A header holding its own name; it may have referred to a table before. */
  method PutInField(hdr0: seq<byte>, name: seq<byte>, pad: byte, maxName: nat) returns (hdr: seq<byte>)
    requires |hdr0| == HDR_SIZE && |name| <= maxName <= NAME_SIZE
    ensures hdr == WithName(hdr0, name, pad)
  {
    FieldFixed(hdr0, name, pad);
    hdr := hdr0;
    if name != hdr0[..|name|] || (|name| < NAME_SIZE && hdr0[|name|] != pad) {
      hdr := name + hdr0[|name|..];
      if |name| < maxName || (|name| == maxName && |name| < NAME_SIZE) {
        hdr := hdr[|name| := pad];
      }
    }
  }

  /** strcpy and the terminator, into the table from `at` on. */
  method Store(table: array<byte>, at: nat, text: seq<byte>)
    requires at + |text| <= table.Length
    modifies table
    ensures table[..at] == old(table[..at]) && table[at..at + |text|] == text
    ensures table[at + |text|..] == old(table[at + |text|..])
  {
    var k := 0;
    while k < |text|
      invariant 0 <= k <= |text|
      invariant forall j :: 0 <= j < at ==> table[j] == old(table[j])
      invariant forall j :: 0 <= j < k ==> table[at + j] == text[j]
      invariant forall j :: at + k <= j < table.Length ==> table[j] == old(table[j])
    {
      table[at + k] := text[k];
      k := k + 1;
    }
    assert table[..at] == old(table[..at]);
    assert table[at..at + |text|] == text;
  }

  lemma {:induction false} TableGrows(s: Style, ms: seq<Member>, i: nat, n: nat)
    requires i <= n <= |ms|
    ensures Table(s, ms, i) <= Table(s, ms, n)
    decreases n
  {
    hide *;
    if i < n {
      TableGrows(s, ms, i, n - 1);
      TableStep(s, ms, n);
      PrefixOfSum(Table(s, ms, i), Table(s, ms, n - 1), Entry(s, ms, n - 1));
    }
  }

  lemma TableStep(s: Style, ms: seq<Member>, n: nat)
    requires 0 < n <= |ms|
    ensures Table(s, ms, n) == Table(s, ms, n - 1) + Entry(s, ms, n - 1)
  {
    hide Entry;
  }

  lemma PrefixOfSum(a: seq<byte>, b: seq<byte>, c: seq<byte>)
    requires a <= b
    ensures a <= b + c
  {
  }

  /** Putting a short name in its field, as the builder does it and as it is described. */
  lemma FieldFixed(hdr: seq<byte>, name: seq<byte>, pad: byte)
    requires |hdr| == HDR_SIZE && |name| <= NAME_SIZE
    ensures var n := |name|; var copied := name + hdr[n..];
      && |copied| == HDR_SIZE
      && (n < NAME_SIZE ==> copied[n := pad] == name + [pad] + hdr[n + 1..])
      && (hdr[..n] == name ==> copied == hdr)
      && (hdr[..n] == name && n < NAME_SIZE && hdr[n] == pad ==> hdr == name + [pad] + hdr[n + 1..])
  {
  }

  lemma JoinSlices(t: seq<byte>, n: nat, a: seq<byte>, b: seq<byte>)
    requires n == |a| && n + |b| <= |t| && t[..n] == a && t[n..n + |b|] == b
    ensures t[..n + |b|] == a + b
  {
    assert t[..n + |b|] == t[..n] + t[n..n + |b|];
  }

  /** Truncating all names leaves nothing for the table. */
  lemma {:induction false} NothingToStore(s: Style, ms: seq<Member>, n: nat, i: nat)
    requires i < n <= |ms| && |Table(s, ms, n)| == 0
    ensures !NeedsTable(s, ms[i])
    decreases n
  {
    hide BaseOf, Terminator, Entry;
    TableStep(s, ms, n);
    EntryLength(s, ms, n - 1);
    if i < n - 1 {
      NothingToStore(s, ms, n - 1, i);
    } else if s.thin {
      AllReused(s, ms, n - 1);
    }
  }

  /** In a thin archive the first member has an entry. */
  lemma {:induction false} AllReused(s: Style, ms: seq<Member>, i: nat)
    requires i < |ms| && s.thin
    ensures |Table(s, ms, i + 1)| > 0
    decreases i
  {
    hide BaseOf, Terminator, Entry, Table;
    TableStep(s, ms, i + 1);
    EntryLength(s, ms, i);
    if i > 0 {
      AllReused(s, ms, i - 1);
    }
  }

  /**
    _bfd_construct_extended_name_table.  The buffer has the length the first pass adds up, and
    the second pass fills it exactly; every header refers to the table or holds its name.
   */
  method ConstructExtendedNameTable(s: Style, ms: seq<Member>, headers: array<seq<byte>>) returns (table: array<byte>)
    requires s.Valid() && headers.Length == |ms| && forall i :: 0 <= i < headers.Length ==> |headers[i]| == HDR_SIZE
    modifies headers
    ensures fresh(table) && table[..] == Table(s, ms, |ms|)
    ensures forall i :: 0 <= i < headers.Length ==> headers[i] == Named(s, ms, i, old(headers[i]))
  {
    hide Named, Entry, NeedsTable;
    ghost var hdrs := headers[..];
    var total := 0;
    var i := 0;
    while i < |ms|
      invariant 0 <= i <= |ms| && total == |Table(s, ms, i)|
      invariant forall k :: 0 <= k < i ==> headers[k] == if NeedsTable(s, ms[k]) then hdrs[k] else Named(s, ms, k, hdrs[k])
      invariant forall k :: i <= k < |ms| ==> headers[k] == hdrs[k]
    {
      var share := Measure(s, ms, i, headers);
      total := total + share;
      i := i + 1;
    }
    table := new byte[total](_ => 0);
    if total == 0 {
      forall k | 0 <= k < |ms| ensures !NeedsTable(s, ms[k]) {
        NothingToStore(s, ms, |ms|, k);
      }
      return;
    }
    ghost var first := headers[..];
    var strptr, lastStroff := 0, 0;
    i := 0;
    while i < |ms|
      invariant 0 <= i <= |ms| && strptr == |Table(s, ms, i)| <= table.Length
      invariant table.Length == |Table(s, ms, |ms|)| && table[..strptr] == Table(s, ms, i)
      invariant s.thin && i > 0 ==> lastStroff == Offset(s, ms, i - 1)
      invariant forall k :: 0 <= k < i ==> headers[k] == Named(s, ms, k, hdrs[k])
      invariant forall k :: i <= k < |ms| ==> headers[k] == first[k]
    {
      TableGrows(s, ms, i + 1, |ms|);
      strptr, lastStroff := StoreOne(s, ms, i, headers, table, strptr, lastStroff);
      i := i + 1;
    }
    assert table[..strptr] == table[..];
  }

  /** The text of a reference; a nested member's place follows a colon. */
  method PrintReference(s: Style, m: Member, stroff: nat) returns (reference: seq<byte>)
    requires s.Valid()
    ensures reference == Reference(s, m, stroff)
  {
    hide Decimal, Padded;
    var digits := Decimal(stroff) + [COLON];
    if s.thin && m.origin > 0 && |digits| < s.maxName - 1 {
      var place := if m.origin >= HDR_SIZE then m.origin - HDR_SIZE else 0;
      reference := digits + Padded(Decimal(place), s.maxName - 1 - |digits|);
    } else {
      reference := Padded(Decimal(stroff), s.maxName - 1);
    }
  }

  /** The second pass over one member. */
  method StoreOne(s: Style, ms: seq<Member>, i: nat, headers: array<seq<byte>>, table: array<byte>, strptr0: nat, last0: nat)
    returns (strptr: nat, lastStroff: nat)
    requires s.Valid() && i < |ms| == headers.Length && |headers[i]| == HDR_SIZE
    requires strptr0 == |Table(s, ms, i)| && |Table(s, ms, i + 1)| <= table.Length && table[..strptr0] == Table(s, ms, i)
    requires s.thin && i > 0 ==> last0 == Offset(s, ms, i - 1)
    requires |Table(s, ms, |ms|)| > 0
    modifies headers, table
    ensures strptr == |Table(s, ms, i + 1)| && table[..strptr] == Table(s, ms, i + 1)
    ensures s.thin ==> lastStroff == Offset(s, ms, i)
    ensures headers[i] == if NeedsTable(s, ms[i]) then Named(s, ms, i, old(headers[i])) else old(headers[i])
    ensures forall k :: 0 <= k < headers.Length && k != i ==> headers[k] == old(headers[k])
  {
    hide BaseOf, Table, Named, Reference, Entry;
    strptr, lastStroff := strptr0, last0;
    TableStep(s, ms, i + 1);
    TraditionalHasNone(s, ms, |ms|);
    var normal := if s.thin then s.adjust(PathOf(ms[i])) else BaseOf(ms[i].filename);
    if |normal| > s.maxName || s.thin {
      EntryIs(s, ms, i);
      NamedLong(s, ms, i, headers[i]);
      var stroff := lastStroff;
      if !(s.thin && i > 0 && PathOf(ms[i - 1]) == PathOf(ms[i])) {
        var text := normal + Terminator(s);
        Store(table, strptr, text);
        JoinSlices(table[..], strptr, Table(s, ms, i), text);
        assert table[..][..strptr + |text|] == table[..strptr + |text|];
        stroff := strptr;
        lastStroff := stroff;
        strptr := strptr + |text|;
      }
      assert stroff == Offset(s, ms, i);
      var reference := PrintReference(s, ms[i], stroff);
      headers[i] := [s.pad] + reference + headers[i][s.maxName..];
    } else {
      EntryIs(s, ms, i);
    }
  }

  lemma EntryIs(s: Style, ms: seq<Member>, i: nat)
    requires i < |ms|
    ensures Entry(s, ms, i) == if NeedsTable(s, ms[i]) && !Reuses(s, ms, i) then StoredName(s, ms[i]) + Terminator(s) else []
  {
  }

  lemma NamedLong(s: Style, ms: seq<Member>, i: nat, hdr: seq<byte>)
    requires s.Valid() && i < |ms| && |hdr| == HDR_SIZE && NeedsTable(s, ms[i])
    ensures Named(s, ms, i, hdr) == [s.pad] + Reference(s, ms[i], Offset(s, ms, i)) + hdr[s.maxName..]
  {
    hide Reference, Offset, BaseOf;
  }

  lemma {:induction false} TraditionalHasNone(s: Style, ms: seq<Member>, n: nat)
    requires n <= |ms|
    ensures s.traditional && !s.thin ==> Table(s, ms, n) == []
    decreases n
  {
    if n > 0 {
      TraditionalHasNone(s, ms, n - 1);
    }
  }
}
