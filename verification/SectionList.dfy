/**
  The doubly linked list of a BFD's sections (the bfd_section_list_* macros of
  bfd-in2.h).  Removal leaves the removed section's own links as they were; the
  class invariant says exactly how stale they may get.
 */
module SectionList {

  class Section {
    var next: Section?
    var prev: Section?

    constructor ()
      ensures next == null && prev == null
    {
      next, prev := null, null;
    }
  }

  /** A snapshot of one kind of link. */
  type Links = map<Section, Section?>

  function At(list: seq<Section>, i: int): Section? {
    if 0 <= i < |list| then list[i] else null
  }

  ghost predicate Distinct(list: seq<Section>) {
    forall i, j :: 0 <= i < j < |list| ==> list[i] != list[j]
  }

  /** The links at position `i` of the list. */
  ghost predicate LinkedAt(list: seq<Section>, known: set<Section>, next: Links, prev: Links, i: int)
    requires next.Keys == prev.Keys == known && 0 <= i < |list| && list[i] in known
  {
    && next[list[i]] == At(list, i + 1)
    && prev[list[i]] == At(list, i - 1)
  }

  /** Both directions of links describe `list`, on the sections of `known`. */
  ghost predicate Describe(list: seq<Section>, known: set<Section>, next: Links, prev: Links) {
    && next.Keys == prev.Keys == known
    && Distinct(list)
    && (forall s :: s in list ==> s in known)
    && forall i {:trigger LinkedAt(list, known, next, prev, i)} ::
         0 <= i < |list| ==> LinkedAt(list, known, next, prev, i)
  }

  /** A section out of the list may still point at a known one, but is not pointed back at. */
  ghost predicate StaleAt(list: seq<Section>, known: set<Section>, next: Links, prev: Links, s: Section)
    requires next.Keys == prev.Keys == known && s in known
  {
    next[s] != null ==> next[s] in known && (s !in list ==> prev[next[s]] != s)
  }

  ghost predicate StaleOutside(list: seq<Section>, known: set<Section>, next: Links, prev: Links)
    requires next.Keys == prev.Keys == known
  {
    forall s {:trigger StaleAt(list, known, next, prev, s)} ::
      s in known ==> StaleAt(list, known, next, prev, s)
  }

  function Without(s: seq<Section>, k: nat): (r: seq<Section>)
    requires k < |s|
  {
    s[..k] + s[k + 1..]
  }

  function With(s: seq<Section>, k: nat, x: Section): (r: seq<Section>)
    requires k <= |s|
  {
    s[..k] + [x] + s[k..]
  }

  /** Writing through a link that may be null. */
  function Relink(links: Links, s: Section?, target: Section?): Links {
    if s == null then links else links[s := target]
  }

  lemma WithoutMembers(list: seq<Section>, k: nat)
    requires k < |list| && Distinct(list)
    ensures Distinct(Without(list, k))
    ensures forall t :: t in Without(list, k) <==> t in list && t != list[k]
  {
    var r := Without(list, k);
    forall t | t in list && t != list[k] ensures t in r {
      var i :| 0 <= i < |list| && list[i] == t;
      assert t == r[if i < k then i else i - 1];
    }
  }

  lemma WithMembers(list: seq<Section>, k: nat, s: Section)
    requires k <= |list| && Distinct(list) && s !in list
    ensures Distinct(With(list, k, s))
    ensures forall t :: t in With(list, k, s) <==> t in list || t == s
  {
    var r := With(list, k, s);
    assert r[k] == s;
    forall t | t in list ensures t in r {
      var i :| 0 <= i < |list| && list[i] == t;
      assert t == r[if i < k then i else i + 1];
    }
  }

  /** The links after the writes of bfd_section_list_remove. */
  function UnlinkedNext(s: Section, next: Links, prev: Links): Links
    requires s in next && s in prev
  {
    Relink(next, prev[s], next[s])
  }

  function UnlinkedPrev(s: Section, next: Links, prev: Links): Links
    requires s in next && s in prev
  {
    Relink(prev, next[s], prev[s])
  }

  /** The neighbours of a section in the list. */
  lemma Around(list: seq<Section>, k: nat, known: set<Section>, next: Links, prev: Links)
    requires k < |list| && Describe(list, known, next, prev)
    ensures next.Keys == prev.Keys == known && Distinct(list) && forall i :: 0 <= i < |list| ==> list[i] in known
    ensures next[list[k]] == At(list, k + 1) && prev[list[k]] == At(list, k - 1)
  {
    assert LinkedAt(list, known, next, prev, k);
  }

  lemma UnlinkMade(list: seq<Section>, k: nat, known: set<Section>, next: Links, prev: Links, i: nat)
    requires k < |list| && i < |list| - 1 && Describe(list, known, next, prev)
    ensures var r, next', prev' := Without(list, k), UnlinkedNext(list[k], next, prev), UnlinkedPrev(list[k], next, prev);
      next'.Keys == prev'.Keys == known && r[i] in known && LinkedAt(r, known, next', prev', i)
  {
    Around(list, k, known, next, prev);
    Around(list, if i < k then i else i + 1, known, next, prev);
    UnlinkedLinks(list, k, known, next, prev);
    hide Describe, UnlinkedNext, UnlinkedPrev;
  }

  lemma UnlinkLeavesStale(list: seq<Section>, k: nat, known: set<Section>, next: Links, prev: Links, t: Section)
    requires k < |list| && Describe(list, known, next, prev) && StaleOutside(list, known, next, prev) && t in known
    ensures var r, next', prev' := Without(list, k), UnlinkedNext(list[k], next, prev), UnlinkedPrev(list[k], next, prev);
      next'.Keys == prev'.Keys == known && StaleAt(r, known, next', prev', t)
  {
    assert StaleAt(list, known, next, prev, t);
    Around(list, k, known, next, prev);
    UnlinkedLinks(list, k, known, next, prev);
    WithoutMembers(list, k);
    hide Describe, UnlinkedNext, UnlinkedPrev, StaleOutside, Without;
  }

  lemma Unlink(list: seq<Section>, k: nat, known: set<Section>, next: Links, prev: Links)
    requires k < |list| && Describe(list, known, next, prev) && StaleOutside(list, known, next, prev)
    ensures var next', prev' := UnlinkedNext(list[k], next, prev), UnlinkedPrev(list[k], next, prev);
      Describe(Without(list, k), known, next', prev') && StaleOutside(Without(list, k), known, next', prev')
  {
    var r := Without(list, k);
    WithoutMembers(list, k);
    Around(list, k, known, next, prev);
    UnlinkedLinks(list, k, known, next, prev);
    var next', prev' := UnlinkedNext(list[k], next, prev), UnlinkedPrev(list[k], next, prev);
    hide UnlinkedNext, UnlinkedPrev, LinkedAt, StaleAt;
    forall i | 0 <= i < |r| ensures LinkedAt(r, known, next', prev', i) {
      UnlinkMade(list, k, known, next, prev, i);
    }
    forall t | t in known ensures StaleAt(r, known, next', prev', t) {
      UnlinkLeavesStale(list, k, known, next, prev, t);
    }
  }

  /** The links after the writes of an insertion at position `k`. */
  function LinkedNext(list: seq<Section>, k: int, s: Section, next: Links): Links {
    Relink(next, At(list, k - 1), s)[s := At(list, k)]
  }

  function LinkedPrev(list: seq<Section>, k: int, s: Section, prev: Links): Links {
    Relink(prev, At(list, k), s)[s := At(list, k - 1)]
  }

  /** The neighbours of position `k` are in the list, and point at each other. */
  lemma Neighbours(list: seq<Section>, k: nat, known: set<Section>, next: Links, prev: Links)
    requires k <= |list| && Describe(list, known, next, prev)
    ensures k > 0 ==> list[k - 1] in known && next[list[k - 1]] == At(list, k)
    ensures k < |list| ==> list[k] in known && prev[list[k]] == At(list, k - 1)
    ensures next.Keys == prev.Keys == known && forall t :: t in list ==> t in known
  {
    assert k > 0 ==> LinkedAt(list, known, next, prev, k - 1);
    assert k < |list| ==> LinkedAt(list, known, next, prev, k);
  }

  lemma LinkMade(list: seq<Section>, k: nat, s: Section, known: set<Section>, next: Links, prev: Links, i: nat)
    requires k <= |list| && i <= |list| && Describe(list, known, next, prev) && s !in list
    ensures var r, next', prev' := With(list, k, s), LinkedNext(list, k, s, next), LinkedPrev(list, k, s, prev);
      |r| == |list| + 1 && r[i] in known + {s} && next'.Keys == prev'.Keys == known + {s} && LinkedAt(r, known + {s}, next', prev', i)
  {
    Neighbours(list, k, known, next, prev);
    if i != k {
      assert LinkedAt(list, known, next, prev, if i < k then i else i - 1);
    }
    assert Distinct(list);
    hide Describe, StaleOutside;
  }

  lemma LinksMade(list: seq<Section>, k: nat, s: Section, known: set<Section>, next: Links, prev: Links)
    requires k <= |list| && Describe(list, known, next, prev) && s !in list
    ensures Describe(With(list, k, s), known + {s}, LinkedNext(list, k, s, next), LinkedPrev(list, k, s, prev))
  {
    WithMembers(list, k, s);
    var r, next', prev' := With(list, k, s), LinkedNext(list, k, s, next), LinkedPrev(list, k, s, prev);
    LinkMade(list, k, s, known, next, prev, 0);
    forall i | 0 <= i < |r| ensures LinkedAt(r, known + {s}, next', prev', i) {
      LinkMade(list, k, s, known, next, prev, i);
    }
    hide With, LinkedNext, LinkedPrev, LinkedAt, Distinct;
  }

  lemma StaleStays(list: seq<Section>, k: nat, s: Section, known: set<Section>, next: Links, prev: Links, t: Section)
    requires k <= |list| && Describe(list, known, next, prev) && StaleOutside(list, known, next, prev) && s !in list && t in known + {s}
    ensures var next', prev' := LinkedNext(list, k, s, next), LinkedPrev(list, k, s, prev);
      next'.Keys == prev'.Keys == known + {s} && StaleAt(With(list, k, s), known + {s}, next', prev', t)
  {
    WithMembers(list, k, s);
    Neighbours(list, k, known, next, prev);
    assert t in known ==> StaleAt(list, known, next, prev, t);
    hide Describe, StaleOutside, With, Distinct;
  }

  lemma Link(list: seq<Section>, k: nat, s: Section, known: set<Section>, next: Links, prev: Links)
    requires k <= |list| && Describe(list, known, next, prev) && StaleOutside(list, known, next, prev)
    requires s !in list
    ensures var next', prev' := LinkedNext(list, k, s, next), LinkedPrev(list, k, s, prev);
      && Describe(With(list, k, s), known + {s}, next', prev')
      && StaleOutside(With(list, k, s), known + {s}, next', prev')
  {
    LinksMade(list, k, s, known, next, prev);
    var r, next', prev' := With(list, k, s), LinkedNext(list, k, s, next), LinkedPrev(list, k, s, prev);
    forall t | t in known + {s} ensures StaleAt(r, known + {s}, next', prev', t) {
      StaleStays(list, k, s, known, next, prev, t);
    }
    hide With, LinkedNext, LinkedPrev, StaleAt, LinkedAt, Distinct;
  }

  lemma OneLonger(list: seq<Section>, k: nat, s: Section)
    requires k <= |list|
    ensures |With(list, k, s)| == |list| + 1
  {
  }

  /** What is first and last after a removal. */
  lemma FirstAndLast(list: seq<Section>, k: nat)
    requires k < |list|
    ensures At(Without(list, k), 0) == (if k == 0 then At(list, 1) else list[0])
    ensures At(Without(list, k), |Without(list, k)| - 1) == (if k == |list| - 1 then At(list, k - 1) else list[|list| - 1])
  {
  }

  /** The links after a removal, section by section. */
  lemma UnlinkedLinks(list: seq<Section>, k: nat, known: set<Section>, next: Links, prev: Links)
    requires k < |list| && Describe(list, known, next, prev) && list[k] in known
    requires next[list[k]] == At(list, k + 1) && prev[list[k]] == At(list, k - 1)
    ensures var next', prev' := UnlinkedNext(list[k], next, prev), UnlinkedPrev(list[k], next, prev);
      && next'.Keys == prev'.Keys == known
      && forall t :: t in known ==>
           && next'[t] == (if t == At(list, k - 1) then At(list, k + 1) else next[t])
           && prev'[t] == (if t == At(list, k + 1) then At(list, k - 1) else prev[t])
  {
  }

  /** The links after an insertion, section by section. */
  lemma LinkedLinks(list: seq<Section>, k: nat, s: Section, known: set<Section>, next: Links, prev: Links)
    requires k <= |list| && next.Keys == prev.Keys == known && s !in list && forall t :: t in list ==> t in known
    ensures var next', prev' := LinkedNext(list, k, s, next), LinkedPrev(list, k, s, prev);
      && next'.Keys == prev'.Keys == known + {s}
      && next'[s] == At(list, k) && prev'[s] == At(list, k - 1)
      && forall t :: t in known && t != s ==>
           next'[t] == (if t == At(list, k - 1) then s else next[t]) && prev'[t] == (if t == At(list, k) then s else prev[t])
  {
  }

  /** What is first and last after an insertion. */
  lemma Ends(list: seq<Section>, k: nat, s: Section)
    requires k <= |list|
    ensures At(With(list, k, s), 0) == (if k == 0 then s else list[0])
    ensures At(With(list, k, s), |list|) == (if k == |list| then s else list[|list| - 1])
  {
  }

  class Bfd {
    var sections: Section?
    var sectionLast: Section?
    /** The sequence both directions of links describe. */
    ghost var list: seq<Section>
    /** Every section that has ever been in the list. */
    ghost var everInserted: set<Section>

    ghost function Next(): Links
      reads everInserted, this
    {
      map s | s in everInserted :: s.next
    }

    ghost function Prev(): Links
      reads everInserted, this
    {
      map s | s in everInserted :: s.prev
    }

    ghost predicate Valid()
      reads this, everInserted
    {
      && sections == At(list, 0)
      && sectionLast == At(list, |list| - 1)
      && Describe(list, everInserted, Next(), Prev())
      && StaleOutside(list, everInserted, Next(), Prev())
    }

    constructor ()
      ensures Valid() && list == [] && everInserted == {}
    {
      sections, sectionLast := null, null;
      list, everInserted := [], {};
    }

    lemma IsValid(next: Links, prev: Links)
      requires next.Keys == prev.Keys == everInserted
      requires forall t :: t in everInserted ==> t.next == next[t] && t.prev == prev[t]
      requires sections == At(list, 0) && sectionLast == At(list, |list| - 1)
      requires Describe(list, everInserted, next, prev) && StaleOutside(list, everInserted, next, prev)
      ensures Valid()
    {
      assert Next() == next && Prev() == prev;
      hide Describe, StaleOutside;
    }

    lemma Position(i: int)
      requires Valid() && 0 <= i < |list|
      ensures list[i] in everInserted
      ensures list[i].next == At(list, i + 1) && list[i].prev == At(list, i - 1)
    {
      assert list[i] in list;
      assert LinkedAt(list, everInserted, Next(), Prev(), i);
    }

    /** The neighbours in the list of the section at `k`. */
    lemma Around(k: int)
      requires Valid() && 0 <= k < |list|
      ensures k > 0 ==> list[k - 1] in everInserted && list[k - 1] != list[k]
      ensures k + 1 < |list| ==> list[k + 1] in everInserted && list[k + 1] != list[k]
      ensures 0 < k < |list| - 1 ==> list[k - 1] != list[k + 1]
    {
      if k > 0 {
        Position(k - 1);
      }
      if k + 1 < |list| {
        Position(k + 1);
      }
    }

    lemma LinksAreKnown(s: Section)
      requires Valid() && s in everInserted
      ensures s.next != null ==> s.next in everInserted && (s !in list ==> s.next.prev != s)
    {
      assert StaleAt(list, everInserted, Next(), Prev(), s);
    }

    /** bfd_section_removed_from_list, with its exact meaning. */
    predicate RemovedFromList(s: Section)
      requires Valid() && s in everInserted
      reads this, everInserted
      ensures RemovedFromList(s) <==> s !in list
    {
      LinkedWhenPresent(s);
      LinksAreKnown(s);
      if s.next == null then sectionLast != s else s.next.prev != s
    }

    lemma LinkedWhenPresent(s: Section)
      requires Valid() && s in everInserted
      ensures s in list ==> if s.next == null then sectionLast == s else s.next.prev == s
      ensures s !in list ==> sectionLast != s && (s.next != null ==> s.next.prev != s)
    {
      LinksAreKnown(s);
      if s in list {
        var i :| 0 <= i < |list| && list[i] == s;
        Position(i);
        if i + 1 < |list| {
          Position(i + 1);
        }
      }
    }

    method Remove(s: Section)
      requires Valid() && s in list
      modifies this, everInserted
      ensures Valid() && everInserted == old(everInserted)
      ensures exists k :: 0 <= k < |old(list)| && old(list)[k] == s && list == Without(old(list), k)
      ensures s.next == old(s.next) && s.prev == old(s.prev)
    {
      ghost var k :| 0 <= k < |list| && list[k] == s;
      Position(k);
      Around(k);
      hide Describe, StaleOutside, Distinct;
      var next, prev := s.next, s.prev;
      if prev != null {
        prev.next := next;
      } else {
        sections := next;
      }
      if next != null {
        next.prev := prev;
      } else {
        sectionLast := prev;
      }
      Unlinked(k, old(Next()), old(Prev()));
    }

    /** Records a removal whose link updates have been made. */
    ghost method Unlinked(k: nat, next: Links, prev: Links)
      requires k < |list| && next.Keys == prev.Keys == everInserted && list[k] in everInserted
      requires Describe(list, everInserted, next, prev) && StaleOutside(list, everInserted, next, prev)
      // Only the neighbours were written to
      requires next[list[k]] == At(list, k + 1) && prev[list[k]] == At(list, k - 1)
      requires forall t :: t in everInserted ==>
        && t.next == (if t == At(list, k - 1) then At(list, k + 1) else next[t])
        && t.prev == (if t == At(list, k + 1) then At(list, k - 1) else prev[t])
      requires sections == (if k == 0 then At(list, 1) else list[0])
      requires sectionLast == (if k == |list| - 1 then At(list, k - 1) else list[|list| - 1])
      modifies this`list
      ensures Valid() && list == Without(old(list), k)
    {
      hide *;
      UnlinkedLinks(list, k, everInserted, next, prev);
      Unlink(list, k, everInserted, next, prev);
      FirstAndLast(list, k);
      ghost var s := list[k];
      list := Without(list, k);
      IsValid(UnlinkedNext(s, next, prev), UnlinkedPrev(s, next, prev));
    }

    method Append(s: Section)
      requires Valid() && s !in list
      modifies this, everInserted, s
      ensures Valid() && everInserted == old(everInserted) + {s}
      ensures list == old(list) + [s]
    {
      if list != [] {
        Position(|list| - 1);
      }
      hide Describe, StaleOutside;
      s.next := null;
      if sectionLast != null {
        s.prev := sectionLast;
        sectionLast.next := s;
      } else {
        s.prev := null;
        sections := s;
      }
      sectionLast := s;
      Linked(|list|, s, old(Next()), old(Prev()));
      assert list == old(list) + [s];
    }

    method Prepend(s: Section)
      requires Valid() && s !in list
      modifies this, everInserted, s
      ensures Valid() && everInserted == old(everInserted) + {s}
      ensures list == [s] + old(list)
    {
      s.prev := null;
      if sections != null {
        s.next := sections;
        sections.prev := s;
      } else {
        s.next := null;
        sectionLast := s;
      }
      sections := s;
      Linked(0, s, old(Next()), old(Prev()));
    }

    method InsertAfter(a: Section, s: Section)
      requires Valid() && a in list && s !in list
      modifies this, everInserted, s
      ensures Valid() && everInserted == old(everInserted) + {s}
      ensures exists k :: 0 <= k < |old(list)| && old(list)[k] == a && list == With(old(list), k + 1, s)
    {
      ghost var k :| 0 <= k < |list| && list[k] == a;
      Position(k);
      Around(k);
      hide Describe, StaleOutside, With;
      Ends(list, k + 1, s);
      var next := a.next;
      s.next := next;
      s.prev := a;
      a.next := s;
      if next != null {
        next.prev := s;
      } else {
        sectionLast := s;
      }
      Linked(k + 1, s, old(Next()), old(Prev()));
    }

    method InsertBefore(b: Section, s: Section)
      requires Valid() && b in list && s !in list
      modifies this, everInserted, s
      ensures Valid() && everInserted == old(everInserted) + {s}
      ensures exists k :: 0 <= k < |old(list)| && old(list)[k] == b && list == With(old(list), k, s)
    {
      ghost var k :| 0 <= k < |list| && list[k] == b;
      Position(k);
      Around(k);
      hide Describe, StaleOutside, With;
      Ends(list, k, s);
      var prev := b.prev;
      s.prev := prev;
      s.next := b;
      b.prev := s;
      if prev != null {
        prev.next := s;
      } else {
        sections := s;
      }
      Linked(k, s, old(Next()), old(Prev()));
    }

    /** Records an insertion whose link updates have been made. */
    ghost method Linked(k: nat, s: Section, next: Links, prev: Links)
      requires k <= |list| && s !in list
      requires Describe(list, everInserted, next, prev) && StaleOutside(list, everInserted, next, prev)
      requires next.Keys == prev.Keys == everInserted
      // Only the new section and its neighbours were written to
      requires s.next == At(list, k) && s.prev == At(list, k - 1)
      requires forall t :: t in everInserted && t != s ==>
        t.next == (if t == At(list, k - 1) then s else next[t]) && t.prev == (if t == At(list, k) then s else prev[t])
      requires sections == At(With(list, k, s), 0) && sectionLast == At(With(list, k, s), |list|)
      modifies this`list, this`everInserted
      ensures Valid()
      ensures list == With(old(list), k, s) && everInserted == old(everInserted) + {s}
    {
      hide *;
      Neighbours(list, k, everInserted, next, prev);
      LinkedLinks(list, k, s, everInserted, next, prev);
      Link(list, k, s, everInserted, next, prev);
      ghost var next', prev' := LinkedNext(list, k, s, next), LinkedPrev(list, k, s, prev);
      OneLonger(list, k, s);
      forall t | t in everInserted + {s} ensures t.next == next'[t] && t.prev == prev'[t] {
      }
      list := With(list, k, s);
      everInserted := everInserted + {s};
      IsValid(next', prev');
    }

    /** Following `next` from the head visits the list in order. */
    method WalkForward() returns (visited: seq<Section>)
      requires Valid()
      ensures visited == list
    {
      visited := [];
      var p := sections;
      while p != null
        invariant |visited| <= |list| && visited == list[..|visited|] && p == At(list, |visited|)
        decreases |list| - |visited|
      {
        Position(|visited|);
        visited := visited + [p];
        p := p.next;
      }
    }

    /** Following `prev` from the tail visits the same list, backwards. */
    method WalkBackward() returns (visited: seq<Section>)
      requires Valid()
      ensures visited == list
    {
      visited := [];
      var p := sectionLast;
      while p != null
        invariant |visited| <= |list| && visited == list[|list| - |visited|..]
        invariant p == At(list, |list| - 1 - |visited|)
        decreases |list| - |visited|
      {
        Position(|list| - 1 - |visited|);
        visited := [p] + visited;
        p := p.prev;
      }
    }
  }
}
