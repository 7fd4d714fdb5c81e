/**
  Getting at the members of an open archive (archive.c): the cache of elements by position, and
  stepping from one member to the next.
 */
module ArElements {
  import opened CBytes
  import opened ArText
  import opened ArHeader
  import opened ArLayout

  // ----- Stepping -----

  /** bfd_generic_openr_next_archived_file: unsigned 64-bit arithmetic, which may wrap. */
  function NextStart(thin: bool, proxyOrigin: nat, size: int): (r: Option<nat>)
    ensures r.Some? ==> r.value >= proxyOrigin && (r.value > proxyOrigin || thin)
  {
    if thin then Some(proxyOrigin)
    else
      var filestart := (proxyOrigin + size) % TWO_TO_64;
      var padded := (filestart + filestart % 2) % TWO_TO_64;
      if padded <= proxyOrigin then None else Some(padded)
  }

  /** A thin archive's member is a file of its own, or an element of another archive. */
  predicate Reachable(a: Archive, canOpen: seq<byte> -> bool, h: Areltdata) {
    a.thin && h.origin <= 0 ==> canOpen(h.filename)
  }

  /** The positions of the members that stepping from `pos` on visits; it ends on any bytes. */
  function VisitFrom(a: Archive, canOpen: seq<byte> -> bool, file: seq<byte>, pos: nat): (r: seq<nat>)
    requires a.Valid()
    ensures forall i, j :: 0 <= i < j < |r| ==> r[i] + HDR_SIZE <= r[j]
    ensures forall i :: 0 <= i < |r| ==> pos <= r[i] && r[i] + HDR_SIZE <= |file|
    decreases |file| - pos
  {
    match ReadHeader(a, file, pos)
    case None => []
    case Some(h) =>
      if !Reachable(a, canOpen, h) then []
      else
        var rest :=
          match NextStart(a.thin, h.at, h.parsedSize)
          case None => []
          case Some(next) => VisitFrom(a, canOpen, file, next);
        PutInFront(pos, rest, |file|);
        [pos] + rest
  }

  lemma PutInFront(pos: nat, rest: seq<nat>, size: nat)
    requires pos + HDR_SIZE <= size && forall i, j :: 0 <= i < j < |rest| ==> rest[i] + HDR_SIZE <= rest[j]
    requires forall i :: 0 <= i < |rest| ==> pos + HDR_SIZE <= rest[i] && rest[i] + HDR_SIZE <= size
    ensures var r := [pos] + rest;
      && (forall i, j :: 0 <= i < j < |r| ==> r[i] + HDR_SIZE <= r[j])
      && forall i :: 0 <= i < |r| ==> pos <= r[i] && r[i] + HDR_SIZE <= size
  {
  }

  // ----- The cache -----

  /** A BFD opened for a member. */
  class Elt {
    const data: Areltdata
    const key: nat
    const proxyOrigin: nat
    var isOpen: bool

    constructor (data: Areltdata, key: nat)
      ensures this.data == data && this.key == key && this.proxyOrigin == data.at && isOpen
    {
      this.data, this.key, this.proxyOrigin, isOpen := data, key, data.at, true;
    }
  }

  class ArchiveBfd {
    const file: seq<byte>
    const archive: Archive
    const first: nat
    const canOpen: seq<byte> -> bool
    var cache: map<nat, Elt>
    ghost var made: set<Elt>

    /**
      Every entry maps a position to an open element read from there, whose key is that
      position; and every element still open is in the cache.
     */
    ghost predicate Valid()
      reads this, made
    {
      && archive.Valid()
      && (forall p :: p in cache ==> cache[p] in made && cache[p].key == p && cache[p].isOpen)
      && (forall e :: e in made && e.isOpen ==> e.key in cache && cache[e.key] == e)
      && forall e :: e in made ==> ReadHeader(archive, file, e.key) == Some(e.data) && e.proxyOrigin == e.data.at
                                   && Reachable(archive, canOpen, e.data)
    }

    constructor (file: seq<byte>, archive: Archive, first: nat, canOpen: seq<byte> -> bool)
      requires archive.Valid()
      ensures Valid() && cache == map[] && made == {}
      ensures this.file == file && this.archive == archive && this.first == first && this.canOpen == canOpen
    {
      this.file, this.archive, this.first, this.canOpen := file, archive, first, canOpen;
      cache, made := map[], {};
    }

    /** _bfd_look_for_bfd_in_cache */
    method LookForBfdInCache(filepos: nat) returns (e: Elt?)
      ensures e == if filepos in cache then cache[filepos] else null
    {
      if filepos in cache {
        return cache[filepos];
      }
      return null;
    }

    /**
      _bfd_get_elt_at_filepos.  An element of a nested archive is to be found there, at the
      position it gives.
     */
    method GetEltAtFilepos(filepos: nat) returns (e: Elt?, nested: Option<Areltdata>)
      requires Valid()
      modifies this`cache, this`made
      ensures Valid() && old(made) <= made && forall x :: x in made - old(made) ==> fresh(x)
      ensures filepos in old(cache) ==> e == old(cache[filepos]) && nested == None && cache == old(cache)
      ensures filepos !in old(cache) && e != null ==> fresh(e) && cache == old(cache)[filepos := e]
      ensures e != null ==> nested == None && e in made && e.isOpen && e.key == filepos
      ensures e == null ==> cache == old(cache)
      ensures e == null && nested == None ==>
        var r := ReadHeader(archive, file, filepos); r.None? || !Reachable(archive, canOpen, r.value)
      ensures nested.Some? ==> e == null && archive.thin && nested.value.origin > 0 && ReadHeader(archive, file, filepos) == nested
    {
      hide Reachable, ReadHeader;
      nested := None;
      e := LookForBfdInCache(filepos);
      if e != null {
        return;
      }
      var r := ReadHeader(archive, file, filepos);
      if r.None? {
        return;
      }
      ReachableWhen(archive, canOpen, r.value);
      if archive.thin {
        if r.value.origin > 0 {
          return null, r;
        }
        if !canOpen(r.value.filename) {
          return;
        }
      }
      var n := new Elt(r.value, filepos);
      cache := cache[filepos := n];
      made := made + {n};
      e := n;
    }

    /** Closing an element takes it out of its archive's cache. */
    method CloseElement(e: Elt)
      requires Valid() && e in made && e.isOpen
      modifies this`cache, e
      ensures Valid() && !e.isOpen && cache == old(cache) - {e.key} && made == old(made)
    {
      hide Reachable, ReadHeader;
      if e.key in cache {
        assert cache[e.key] == e;
        cache := cache - {e.key};
      }
      e.isOpen := false;
    }

    /** Closing the archive closes every element still in the cache. */
    method CloseArchive()
      requires Valid()
      modifies this`cache, made
      ensures Valid() && cache == map[] && made == old(made) && forall e :: e in made ==> !e.isOpen
    {
      hide Reachable, ReadHeader;
      while cache != map[]
        invariant Valid() && made == old(made)
        decreases |cache|
      {
        var p :| p in cache;
        RemoveShrinks(cache, p);
        CloseElement(cache[p]);
      }
    }

    // ----- Stepping through the archive -----

    /**
      bfd_generic_openr_next_archived_file, after the member whose header data is given, or from
      the start; `at` is where it looks.
     */
    method OpenrNextArchivedFile(lastFile: Option<Areltdata>) returns (e: Elt?, nested: Option<Areltdata>, at: Option<nat>)
      requires Valid()
      modifies this`cache, this`made
      ensures Valid() && old(made) <= made && forall x :: x in made - old(made) ==> fresh(x)
      ensures at == if lastFile.None? then Some(first) else NextStart(archive.thin, lastFile.value.at, lastFile.value.parsedSize)
      ensures at.None? ==> e == null && nested == None && cache == old(cache)
      ensures e != null ==> at == Some(e.key) && e in made && e.isOpen && nested == None
      ensures e != null && at.value in old(cache) ==> e == old(cache[at.value])
      ensures nested.Some? ==> at.Some? && archive.thin && nested.value.origin > 0 && ReadHeader(archive, file, at.value) == nested
      ensures e == null && nested == None && at.Some? ==>
        var r := ReadHeader(archive, file, at.value); r.None? || !Reachable(archive, canOpen, r.value)
      ensures lastFile.Some? && e != null ==> e.proxyOrigin > lastFile.value.at
    {
      hide Reachable, ReadHeader;
      var filestart := first;
      if lastFile.Some? {
        filestart := lastFile.value.at;
        if !archive.thin {
          filestart := (filestart + lastFile.value.parsedSize) % TWO_TO_64;
          filestart := (filestart + filestart % 2) % TWO_TO_64;
          if filestart <= lastFile.value.at {
            return null, None, None;
          }
        }
      }
      at := Some(filestart);
      e, nested := GetEltAtFilepos(filestart);
    }

    lemma IsMade(e: Elt)
      requires Valid() && e in made
      ensures ReadHeader(archive, file, e.key) == Some(e.data) && Reachable(archive, canOpen, e.data)
    {
      hide ReadHeader, Reachable;
    }

    lemma IsValid()
      requires Valid()
      ensures archive.Valid()
    {
      hide ReadHeader, Reachable;
    }

    /** Stepping until there are no more members; nested ones count, wherever they are opened. */
    method VisitAll() returns (positions: seq<nat>)
      requires Valid()
      modifies this`cache, this`made
      ensures Valid() && positions == VisitFrom(archive, canOpen, file, first)
    {
      hide *;
      positions := [];
      var lastFile: Option<Areltdata> := None;
      IsValid();
      ghost var all := VisitFrom(archive, canOpen, file, first);
      var e, nested, at := OpenrNextArchivedFile(lastFile);
      RestIs(archive, canOpen, file, first);
      assert [] + all == all;
      while e != null || nested.Some?
        invariant Valid() && archive.Valid()
        invariant e != null ==> nested == None && at == Some(e.key) && e in made
        invariant nested.Some? ==> at.Some? && archive.thin && nested.value.origin > 0 && ReadHeader(archive, file, at.value) == nested
        invariant e == null && nested == None && at.Some? ==>
          var r := ReadHeader(archive, file, at.value); r.None? || !Reachable(archive, canOpen, r.value)
        invariant positions + Rest(archive, canOpen, file, at) == all
        decreases if at.Some? then |file| - at.value else -1
      {
        if e != null {
          IsMade(e);
          lastFile := Some(e.data);
        } else {
          lastFile := nested;
          NestedIsReachable(archive, canOpen, lastFile.value);
        }
        VisitOne(archive, canOpen, file, at.value, lastFile.value);
        ghost var next := NextStart(archive.thin, lastFile.value.at, lastFile.value.parsedSize);
        OneMore(positions, at.value, Rest(archive, canOpen, file, next));
        positions := positions + [at.value];
        e, nested, at := OpenrNextArchivedFile(lastFile);
      }
      VisitEnds(archive, canOpen, file, at);
    }
  }

  lemma ReachableWhen(a: Archive, canOpen: seq<byte> -> bool, h: Areltdata)
    ensures Reachable(a, canOpen, h) <==> (a.thin && h.origin <= 0 ==> canOpen(h.filename))
  {
  }

  lemma RemoveShrinks<K, V>(m: map<K, V>, k: K)
    requires k in m
    ensures |m - {k}| < |m|
  {
    var n := m - {k};
    assert n.Keys == m.Keys - {k};
    assert |n.Keys| == |m.Keys| - 1;
  }

  /** What stepping visits from where it looks next, if anywhere. */
  function Rest(a: Archive, canOpen: seq<byte> -> bool, file: seq<byte>, at: Option<nat>): seq<nat>
    requires a.Valid()
  {
    match at
    case None => []
    case Some(p) => VisitFrom(a, canOpen, file, p)
  }

  lemma RestIs(a: Archive, canOpen: seq<byte> -> bool, file: seq<byte>, p: nat)
    requires a.Valid()
    ensures Rest(a, canOpen, file, Some(p)) == VisitFrom(a, canOpen, file, p)
  {
  }

  lemma VisitOne(a: Archive, canOpen: seq<byte> -> bool, file: seq<byte>, p: nat, h: Areltdata)
    requires a.Valid() && ReadHeader(a, file, p) == Some(h) && Reachable(a, canOpen, h)
    ensures var next := NextStart(a.thin, h.at, h.parsedSize);
      && VisitFrom(a, canOpen, file, p) == [p] + Rest(a, canOpen, file, next)
      && p < |file| && (next.Some? ==> next.value > p)
    ensures Rest(a, canOpen, file, Some(p)) == VisitFrom(a, canOpen, file, p)
  {
    hide Reachable;
  }

  lemma VisitEnds(a: Archive, canOpen: seq<byte> -> bool, file: seq<byte>, at: Option<nat>)
    requires a.Valid()
    requires at.Some? ==> var r := ReadHeader(a, file, at.value); r.None? || !Reachable(a, canOpen, r.value)
    ensures Rest(a, canOpen, file, at) == []
  {
    hide ReadHeader, Reachable;
  }

  lemma NestedIsReachable(a: Archive, canOpen: seq<byte> -> bool, h: Areltdata)
    requires h.origin > 0
    ensures Reachable(a, canOpen, h)
  {
  }

  lemma OneMore(positions: seq<nat>, p: nat, rest: seq<nat>)
    ensures positions + ([p] + rest) == (positions + [p]) + rest
  {
  }

  // ----- Stepping through an archive that was written -----

  /**
    The headers of the members that are `good` read as they should, those of the others cannot be
    read or lead nowhere, and the members are all there is from `base` on.
   */
  ghost predicate MembersRead(a: Archive, canOpen: seq<byte> -> bool, file: seq<byte>, thin: bool, es: seq<Element>, good: seq<bool>,
                              base: nat) {
    && a.Valid() && a.thin == thin && AllValid(es) && base % 2 == 0 && |file| == base + Start(thin, es, |es|) < TWO_TO_64
    && |good| == |es|
    && forall k :: 0 <= k < |es| ==> Met(a, canOpen, file, es[k], good[k], base + Start(thin, es, k))
  }

  /** What stepping meets at a member. */
  ghost predicate Met(a: Archive, canOpen: seq<byte> -> bool, file: seq<byte>, e: Element, good: bool, pos: nat)
    requires a.Valid()
  {
    if good then MemberReads(a, canOpen, file, e, pos) else Stops(a, canOpen, file, pos)
  }

  ghost predicate MemberReads(a: Archive, canOpen: seq<byte> -> bool, file: seq<byte>, e: Element, pos: nat)
    requires a.Valid()
  {
    match ReadHeader(a, file, pos)
    case None => false
    case Some(h) => h.at == pos + |e.head| && h.parsedSize == |e.contents| && Reachable(a, canOpen, h)
  }

  predicate Stops(a: Archive, canOpen: seq<byte> -> bool, file: seq<byte>, pos: nat)
    requires a.Valid()
  {
    var r := ReadHeader(a, file, pos);
    r.None? || !Reachable(a, canOpen, r.value)
  }

  /** The members visited from `k` on: up to the first that cannot be opened, and none behind one without contents. */
  function Visited(thin: bool, es: seq<Element>, good: seq<bool>, base: nat, k: nat): seq<nat>
    requires k <= |es| == |good|
    decreases |es| - k
  {
    if k == |es| || !good[k] then []
    else [base + Start(thin, es, k)] + (if !thin && es[k].contents == [] then [] else Visited(thin, es, good, base, k + 1))
  }

  /** The step to the next member is right, and is refused behind an empty one. */
  lemma StepIsRight(thin: bool, es: seq<Element>, base: nat, k: nat)
    requires k < |es| && es[k].Valid() && (base + Start(thin, es, k)) % 2 == 0
    requires base + Start(thin, es, k + 1) < TWO_TO_64
    ensures var at := base + Start(thin, es, k) + |es[k].head|;
      && |Written(thin, es[k])| % 2 == 0
      && NextStart(thin, at, |es[k].contents|)
         == if !thin && es[k].contents == [] then None else Some(base + Start(thin, es, k + 1))
  {
    hide *;
    MembersStep(thin, es, k);
    WrittenLength(thin, es[k]);
    EvenSum(base + Start(thin, es, k), |es[k].head|);
    NextIs(thin, base + Start(thin, es, k) + |es[k].head|, |es[k].contents|);
  }

  lemma NextIs(thin: bool, at: nat, size: nat)
    requires at % 2 == 0 && (thin || at + size + size % 2 < TWO_TO_64)
    ensures NextStart(thin, at, size) == if thin then Some(at) else if size == 0 then None else Some(at + size + size % 2)
  {
    if !thin {
      OddFollows(at, size);
      SmallStays(at + size);
      SmallStays(at + size + size % 2);
    }
  }

  lemma SmallStays(x: nat)
    requires x < TWO_TO_64
    ensures x % TWO_TO_64 == x
  {
  }

  lemma {:induction false} StartIsEven(thin: bool, es: seq<Element>, k: nat)
    requires AllValid(es) && k <= |es|
    ensures Start(thin, es, k) % 2 == 0
  {
    hide Written;
    if k > 0 {
      StartIsEven(thin, es, k - 1);
      MembersStep(thin, es, k - 1);
      WrittenLength(thin, es[k - 1]);
      hide Start, Members;
    }
  }

  /** Stepping through the archive visits exactly the members, in order, as far as it gets. */
  lemma {:induction false} VisitsMembers(a: Archive, canOpen: seq<byte> -> bool, file: seq<byte>, thin: bool, es: seq<Element>,
                                         good: seq<bool>, base: nat, k: nat)
    requires MembersRead(a, canOpen, file, thin, es, good, base) && k <= |es| == |good|
    ensures a.Valid() && VisitFrom(a, canOpen, file, base + Start(thin, es, k)) == Visited(thin, es, good, base, k)
    decreases |es| - k
  {
    hide *;
    ReadMeans(a, canOpen, file, thin, es, good, base);
    VisitedIs(thin, es, good, base, k);
    var pos := base + Start(thin, es, k);
    if k == |es| {
      NothingAtEnd(a, canOpen, file);
    } else if !good[k] {
      StopsMeans(a, canOpen, file, es[k], pos);
      VisitEnds(a, canOpen, file, Some(pos));
      RestIs(a, canOpen, file, pos);
    } else {
      StartIsEven(thin, es, k);
      EvenSum(base, Start(thin, es, k));
      StartGrows(thin, es, k + 1);
      MemberReadsMeans(a, canOpen, file, es[k], pos);
      StepIsRight(thin, es, base, k);
      VisitOne(a, canOpen, file, pos, ReadHeader(a, file, pos).value);
      if thin || es[k].contents != [] {
        VisitsMembers(a, canOpen, file, thin, es, good, base, k + 1);
        RestIs(a, canOpen, file, base + Start(thin, es, k + 1));
      } else {
        NoRest(a, canOpen, file);
      }
    }
  }

  lemma ReadMeans(a: Archive, canOpen: seq<byte> -> bool, file: seq<byte>, thin: bool, es: seq<Element>, good: seq<bool>, base: nat)
    requires MembersRead(a, canOpen, file, thin, es, good, base)
    ensures a.Valid() && a.thin == thin && AllValid(es) && base % 2 == 0 && |file| == base + Start(thin, es, |es|) < TWO_TO_64
    ensures |good| == |es|
    ensures forall k :: 0 <= k < |es| ==> es[k].Valid() && Met(a, canOpen, file, es[k], good[k], base + Start(thin, es, k))
  {
    hide Met, Start;
  }

  lemma StopsMeans(a: Archive, canOpen: seq<byte> -> bool, file: seq<byte>, e: Element, pos: nat)
    requires a.Valid() && Met(a, canOpen, file, e, false, pos)
    ensures var r := ReadHeader(a, file, pos); r.None? || !Reachable(a, canOpen, r.value)
  {
    hide ReadHeader, Reachable;
  }

  lemma MemberReadsMeans(a: Archive, canOpen: seq<byte> -> bool, file: seq<byte>, e: Element, pos: nat)
    requires a.Valid() && Met(a, canOpen, file, e, true, pos)
    ensures var r := ReadHeader(a, file, pos);
      r.Some? && r.value.at == pos + |e.head| && r.value.parsedSize == |e.contents| && Reachable(a, canOpen, r.value)
  {
    hide ReadHeader, Reachable;
  }

  lemma VisitedIs(thin: bool, es: seq<Element>, good: seq<bool>, base: nat, k: nat)
    requires k <= |es| == |good|
    ensures Visited(thin, es, good, base, k) ==
      if k == |es| || !good[k] then []
      else [base + Start(thin, es, k)] + (if !thin && es[k].contents == [] then [] else Visited(thin, es, good, base, k + 1))
  {
    hide Start;
  }

  lemma NothingAtEnd(a: Archive, canOpen: seq<byte> -> bool, file: seq<byte>)
    requires a.Valid()
    ensures VisitFrom(a, canOpen, file, |file|) == []
  {
  }

  lemma NoRest(a: Archive, canOpen: seq<byte> -> bool, file: seq<byte>)
    requires a.Valid()
    ensures Rest(a, canOpen, file, None) == []
  {
  }

  lemma StartGrows(thin: bool, es: seq<Element>, k: nat)
    requires k <= |es|
    ensures Start(thin, es, k) <= Start(thin, es, |es|)
  {
    MembersGrow(thin, es, k, |es|);
  }

  /** From `k` on, every member can be opened, and none but the last is empty unless the archive is thin. */
  ghost predicate NothingStops(thin: bool, es: seq<Element>, good: seq<bool>, k: nat)
    requires |es| == |good|
  {
    && (forall j :: k <= j < |es| ==> good[j])
    && (thin || forall j :: k <= j < |es| - 1 ==> es[j].contents != [])
  }

  lemma StopsStep(thin: bool, es: seq<Element>, good: seq<bool>, k: nat)
    requires k <= |es| == |good|
    ensures NothingStops(thin, es, good, k) <==>
      k == |es| || (good[k] && NothingStops(thin, es, good, k + 1) && (thin || k == |es| - 1 || es[k].contents != []))
  {
  }

  /** Every member is visited exactly when nothing stops. */
  lemma {:induction false} AllAreVisited(thin: bool, es: seq<Element>, good: seq<bool>, base: nat, k: nat)
    requires k <= |es| == |good|
    ensures |Visited(thin, es, good, base, k)| <= |es| - k
    ensures |Visited(thin, es, good, base, k)| == |es| - k <==> NothingStops(thin, es, good, k)
    decreases |es| - k
  {
    hide Start, Visited, NothingStops;
    VisitedIs(thin, es, good, base, k);
    StopsStep(thin, es, good, k);
    if k < |es| {
      AllAreVisited(thin, es, good, base, k + 1);
      if k == |es| - 1 {
        VisitedIs(thin, es, good, base, k + 1);
        StopsStep(thin, es, good, k + 1);
      }
    }
  }

  lemma VisitedStep(thin: bool, es: seq<Element>, good: seq<bool>, base: nat, k: nat)
    requires k <= |es| == |good| && Visited(thin, es, good, base, k) != []
    ensures k < |es|
    ensures var v := Visited(thin, es, good, base, k);
      && v[0] == base + Start(thin, es, k)
      && (|v| > 1 ==> v[1..] == Visited(thin, es, good, base, k + 1))
  {
    hide Start;
  }

  /** Those visited are the members in order. */
  lemma {:induction false} VisitedInOrder(thin: bool, es: seq<Element>, good: seq<bool>, base: nat, k: nat, j: nat)
    requires k <= |es| == |good| && j < |Visited(thin, es, good, base, k)|
    ensures k + j < |es| && Visited(thin, es, good, base, k)[j] == base + Start(thin, es, k + j)
    decreases j
  {
    hide *;
    VisitedStep(thin, es, good, base, k);
    if j > 0 {
      VisitedInOrder(thin, es, good, base, k + 1, j - 1);
    }
  }
}
