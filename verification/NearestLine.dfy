/**
  Finding the source line nearest to an address (find_nearest_line in aoutx.h): one pass over
  the symbols, with a look-ahead at pairs of N_SO symbols, against a description of the
  nearest line and function symbols that does not mention the pass.
 */
module NearestLine {
  import opened CBytes
  import opened LinkModel

  const N_FUN: bv8 := 0x24
  const N_SLINE: bv8 := 0x44
  const N_DSLINE: bv8 := 0x46
  const N_BSLINE: bv8 := 0x48
  const N_SO: bv8 := 0x64
  const N_SOL: bv8 := 0x84

  /** What is looked up: the symbols, the address, and whether it is in the text section. */
  datatype Query = Query(syms: seq<Sym>, offset: int, text: bool)

  datatype Wanted = Line | Function

  // ----- Which symbols the pass reaches -----

  /** The second N_SO of a pair names the file; the first named its directory. */
  predicate Second(q: Query, i: nat)
    requires i < |q.syms|
  {
    i > 0 && q.syms[i].typ == 0x64 && q.syms[i - 1].typ == 0x64 && !Second(q, i - 1)
  }

  /** The pass ends here. */
  predicate Stops(q: Query, i: nat)
    requires i < |q.syms|
  {
    (q.syms[i].typ == 0x24 && q.syms[i].value > q.offset) || (Second(q, i) && !q.text)
  }

  predicate Scanned(q: Query, i: nat)
    requires i < |q.syms|
  {
    i == 0 || (Scanned(q, i - 1) && !Stops(q, i - 1))
  }

  lemma {:induction false} NothingAfterStop(q: Query, i: nat, j: nat)
    requires i < j < |q.syms| && Stops(q, i)
    ensures !Scanned(q, j)
  {
    if i < j - 1 {
      NothingAfterStop(q, i, j - 1);
    }
  }

  // ----- What is being looked for -----

  /** A candidate: at or below the address. */
  predicate Candidate(q: Query, w: Wanted, i: nat)
    requires i < |q.syms|
  {
    && Scanned(q, i) && q.syms[i].value <= q.offset
    && var typ := q.syms[i].typ;
       match w
       case Line => typ == 0x44 || typ == 0x46 || typ == 0x48
       case Function => typ == 0x24
  }

  /** The closest candidate; the last one of several at the same address. */
  ghost predicate Nearest(q: Query, w: Wanted, i: nat)
    requires i < |q.syms|
  {
    && Candidate(q, w, i)
    && forall j :: 0 <= j < |q.syms| && Candidate(q, w, j) ==>
         q.syms[j].value < q.syms[i].value || (q.syms[j].value == q.syms[i].value && j <= i)
  }

  lemma NearestIsOne(q: Query, w: Wanted, i: nat, j: nat)
    requires i < |q.syms| && j < |q.syms| && Nearest(q, w, i) && Nearest(q, w, j)
    ensures i == j
  {
  }

  /** A name like "main.o". */
  predicate EndsInO(name: string) {
    |name| >= 2 && name[|name| - 2] == '.' && name[|name| - 1] == 'o'
  }

  predicate NamesObject(name: string)
    ensures NamesObject(name) <==> EndsInO(name)
  {
    |name| >= 2 && name[|name| - 2..] == ".o"
  }

  /** The start of another source or object file, at or below the address. */
  predicate Boundary(q: Query, i: nat)
    requires i < |q.syms|
  {
    && Scanned(q, i) && q.syms[i].value <= q.offset
    && ((q.syms[i].typ == 0x64 && !Second(q, i)) || (q.syms[i].typ == 0x04 && EndsInO(q.syms[i].name)))
  }

  /** A later file starts between symbol `i` and the address, so `i` belongs to something else. */
  ghost predicate Overtaken(q: Query, i: nat)
    requires i < |q.syms|
  {
    exists b :: i < b < |q.syms| && Boundary(q, b) && q.syms[b].value > q.syms[i].value
  }

  // ----- The file names in force -----

  /** The file named last before symbol `n`. */
  function CurrentFile(q: Query, n: nat): Option<string>
    requires n <= |q.syms|
  {
    if n == 0 then None
    else if Scanned(q, n - 1) && (q.syms[n - 1].typ == 0x64 || q.syms[n - 1].typ == 0x84) then Some(q.syms[n - 1].name)
    else CurrentFile(q, n - 1)
  }

  function MainFile(q: Query, n: nat): Option<string>
    requires n <= |q.syms|
  {
    if n == 0 then None
    else if Scanned(q, n - 1) && q.syms[n - 1].typ == 0x64 then Some(q.syms[n - 1].name)
    else MainFile(q, n - 1)
  }

  function Directory(q: Query, n: nat): Option<string>
    requires n <= |q.syms|
  {
    if n == 0 then None
    else if Scanned(q, n - 1) && Second(q, n - 1) then Some(q.syms[n - 2].name)
    else Directory(q, n - 1)
  }

  lemma {:induction false} NamesAfterStop(q: Query, i: nat, n: nat)
    requires i < n <= |q.syms| && Stops(q, i)
    ensures MainFile(q, n) == MainFile(q, i + 1) && Directory(q, n) == Directory(q, i + 1)
    decreases n
  {
    if i + 1 < n {
      NothingAfterStop(q, i, n - 1);
      NamesAfterStop(q, i, n - 1);
    }
  }

  // ----- The pass -----

  /** The best candidate among the first `n` symbols, and whether a boundary has come since. */
  datatype Best = Best(low: int, at: Option<nat>, kept: bool)

  ghost predicate BestOf(q: Query, w: Wanted, n: nat, b: Best)
    requires n <= |q.syms|
  {
    match b.at
    case None => b.low == 0 && !b.kept && forall j :: 0 <= j < n ==> !Candidate(q, w, j)
    case Some(m) =>
      && m < n && Candidate(q, w, m) && b.low == q.syms[m].value
      && (forall j :: 0 <= j < n && Candidate(q, w, j) ==> q.syms[j].value < b.low || (q.syms[j].value == b.low && j <= m))
      && (b.kept <==> forall c :: m < c < n && Boundary(q, c) ==> q.syms[c].value <= b.low)
  }

  /** What one symbol does to the best candidate so far. */
  function Better(q: Query, w: Wanted, n: nat, b: Best): Best
    requires n < |q.syms|
  {
    if Candidate(q, w, n) && q.syms[n].value >= b.low then Best(q.syms[n].value, Some(n), true)
    else if Boundary(q, n) && q.syms[n].value > b.low then b.(kept := false)
    else b
  }

  lemma BetterIsBest(q: Query, w: Wanted, n: nat, b: Best)
    requires n < |q.syms| && 0 <= q.syms[n].value && BestOf(q, w, n, b)
    ensures BestOf(q, w, n + 1, Better(q, w, n, b))
  {
    hide Second, Scanned;
    match w
    case Line =>
    case Function =>
  }

  /** When the pass has ended, the best candidate is the nearest symbol. */
  lemma BestIsNearest(q: Query, w: Wanted, n: nat, b: Best)
    requires n <= |q.syms| && BestOf(q, w, n, b)
    requires forall j :: n <= j < |q.syms| ==> !Scanned(q, j)
    ensures b.at.Some? ==> Nearest(q, w, b.at.value) && (b.kept <==> !Overtaken(q, b.at.value))
    ensures b.at.None? ==> !b.kept && forall i :: 0 <= i < |q.syms| ==> !Nearest(q, w, i)
    ensures forall i :: 0 <= i < |q.syms| && Nearest(q, w, i) ==> b.at == Some(i)
  {
    hide Second, Scanned, NamesObject;
  }

  /** The results of the pass, before they are put into words. */
  datatype Found = Found(line: int, lineFile: Option<string>, lineDirectory: Option<string>,
                         mainFile: Option<string>, directory: Option<string>, func: Option<nat>)

  /** The line number, its file and its directory, of a candidate that still holds. */
  function LineOf(q: Query, b: Best): int {
    if b.kept && b.at.Some? && b.at.value < |q.syms| then q.syms[b.at.value].desc else 0
  }

  function FileOf(q: Query, b: Best): Option<string> {
    if b.kept && b.at.Some? && b.at.value < |q.syms| then CurrentFile(q, b.at.value) else None
  }

  function DirectoryOf(q: Query, b: Best): Option<string> {
    if b.at.Some? && b.at.value < |q.syms| then Directory(q, b.at.value) else None
  }

  function SymbolOf(b: Best): Option<nat> {
    if b.kept then b.at else None
  }

  predicate IsLine(typ: bv8) {
    typ == N_SLINE || typ == N_DSLINE || typ == N_BSLINE
  }

  /** What a symbol of each type does to what has been found. */
  lemma StepFinds(q: Query, n: nat, bl: Best, bf: Best)
    requires n < |q.syms| && Scanned(q, n) && BestOf(q, Line, n, bl) && BestOf(q, Function, n, bf) && 0 <= q.syms[n].value
    ensures var sym, bl', bf' := q.syms[n], Better(q, Line, n, bl), Better(q, Function, n, bf);
      var starts := sym.value <= q.offset && ((sym.typ == N_SO && !Second(q, n)) || (sym.typ == N_TEXT && NamesObject(sym.name)));
      && BestOf(q, Line, n + 1, bl') && BestOf(q, Function, n + 1, bf')
      && (if IsLine(sym.typ) && bl.low <= sym.value <= q.offset then
            bl'.low == sym.value && LineOf(q, bl') == sym.desc
            && FileOf(q, bl') == CurrentFile(q, n) && DirectoryOf(q, bl') == Directory(q, n)
          else
            && bl'.low == bl.low && DirectoryOf(q, bl') == DirectoryOf(q, bl)
            && LineOf(q, bl') == (if starts && sym.value > bl.low then 0 else LineOf(q, bl))
            && FileOf(q, bl') == if starts && sym.value > bl.low then None else FileOf(q, bl))
      && (if sym.typ == N_FUN && bf.low <= sym.value <= q.offset then bf'.low == sym.value && SymbolOf(bf') == Some(n)
          else bf'.low == bf.low && SymbolOf(bf') == if starts && sym.value > bf.low then None else SymbolOf(bf))
  {
    BetterIsBest(q, Line, n, bl);
    BetterIsBest(q, Function, n, bf);
    hide BestOf, Second, Scanned, NamesObject, CurrentFile, Directory;
  }

  /** The file names after one more symbol. */
  lemma StepNames(q: Query, n: nat)
    requires n < |q.syms| && Scanned(q, n)
    ensures var sym := q.syms[n];
      && CurrentFile(q, n + 1) == (if sym.typ == N_SO || sym.typ == N_SOL then Some(sym.name) else CurrentFile(q, n))
      && MainFile(q, n + 1) == (if sym.typ == N_SO then Some(sym.name) else MainFile(q, n))
      && Directory(q, n + 1) == if Second(q, n) then Some(q.syms[n - 1].name) else Directory(q, n)
    ensures n + 1 < |q.syms| ==>
      && Scanned(q, n + 1) == !Stops(q, n)
      && Second(q, n + 1) == (q.syms[n + 1].typ == N_SO && q.syms[n].typ == N_SO && !Second(q, n))
  {
  }

  /** The pass has ended after `n` symbols. */
  ghost predicate Ended(q: Query, n: nat) {
    n == |q.syms| || (0 < n < |q.syms| && Stops(q, n - 1))
  }

  lemma EndedMeans(q: Query, n: nat, bl: Best, bf: Best)
    requires n <= |q.syms| && Ended(q, n) && BestOf(q, Line, n, bl) && BestOf(q, Function, n, bf)
    ensures forall i :: 0 <= i < |q.syms| && Nearest(q, Line, i) ==>
      && LineOf(q, bl) == (if Overtaken(q, i) then 0 else q.syms[i].desc)
      && FileOf(q, bl) == (if Overtaken(q, i) then None else CurrentFile(q, i))
      && DirectoryOf(q, bl) == Directory(q, i)
    ensures (forall i :: 0 <= i < |q.syms| ==> !Nearest(q, Line, i)) ==> LineOf(q, bl) == 0
    ensures SymbolOf(bf).Some? <==> exists i :: 0 <= i < |q.syms| && Nearest(q, Function, i) && !Overtaken(q, i)
    ensures SymbolOf(bf).Some? ==> SymbolOf(bf).value < |q.syms| && Nearest(q, Function, SymbolOf(bf).value)
    ensures MainFile(q, |q.syms|) == MainFile(q, n) && Directory(q, |q.syms|) == Directory(q, n)
  {
    if n < |q.syms| {
      NamesAfterStop(q, n - 1, |q.syms|);
      forall j | n <= j < |q.syms| ensures !Scanned(q, j) {
        NothingAfterStop(q, n - 1, j);
      }
    }
    hide Scanned, Second, MainFile, Directory, CurrentFile, Overtaken, Stops;
    BestIsNearest(q, Line, n, bl);
    BestIsNearest(q, Function, n, bf);
    hide BestOf, Nearest;
  }

  lemma ScanBegins(q: Query)
    ensures q.syms != [] ==> Scanned(q, 0) && !Second(q, 0)
    ensures var b := Best(0, None, false);
      && BestOf(q, Line, 0, b) && BestOf(q, Function, 0, b)
      && LineOf(q, b) == 0 && FileOf(q, b) == None && DirectoryOf(q, b) == None && SymbolOf(b) == None
    ensures CurrentFile(q, 0) == MainFile(q, 0) == Directory(q, 0) == None
  {
  }

  lemma StopsWhen(q: Query, n: nat)
    requires n < |q.syms|
    ensures Stops(q, n) <==> (q.syms[n].typ == N_FUN && q.syms[n].value > q.offset) || (Second(q, n) && !q.text)
    ensures Second(q, n) ==> q.syms[n].typ == N_SO
  {
  }

  lemma EndsWhen(q: Query, n: nat)
    ensures Ended(q, n) <==> n == |q.syms| || (0 < n < |q.syms| && Stops(q, n - 1))
  {
  }

  lemma TypesDiffer(typ: bv8)
    ensures typ == N_TEXT ==> typ != N_SO && typ != N_SOL && !IsLine(typ) && typ != N_FUN
    ensures typ == N_SO ==> typ != N_SOL && !IsLine(typ) && typ != N_FUN
    ensures typ == N_SOL ==> !IsLine(typ) && typ != N_FUN
    ensures typ == N_FUN ==> !IsLine(typ)
  {
  }

  /** Every symbol the pass reaches is handled once, except that the second of a pair goes with the first. */
  ghost predicate OncePerSymbol(q: Query, n: nat, dispatched: multiset<nat>) {
    n <= |q.syms| && forall i: nat :: dispatched[i] == if i < n && Scanned(q, i) && !Second(q, i) then 1 else 0
  }

  lemma Dispatch(q: Query, n: nat, dispatched: multiset<nat>)
    requires n < |q.syms| && OncePerSymbol(q, n, dispatched)
    ensures Scanned(q, n) && !Second(q, n) ==> OncePerSymbol(q, n + 1, dispatched + multiset{n})
    ensures Second(q, n) ==> OncePerSymbol(q, n + 1, dispatched)
  {
    hide Second, Scanned;
  }

  lemma DispatchEnds(q: Query, n: nat, dispatched: multiset<nat>)
    requires Ended(q, n) && OncePerSymbol(q, n, dispatched)
    ensures OncePerSymbol(q, |q.syms|, dispatched)
  {
    hide Scanned, Second, Stops;
    if n < |q.syms| {
      forall i: nat ensures dispatched[i] == if i < |q.syms| && Scanned(q, i) && !Second(q, i) then 1 else 0 {
        if n <= i < |q.syms| {
          NothingAfterStop(q, n - 1, i);
        }
      }
    }
  }

  lemma NoneDispatched(q: Query)
    ensures OncePerSymbol(q, 0, multiset{})
  {
  }

  /** A boundary at `value`: what was found below it belongs to something else. */
  method Overtake(value: int, lowLine: int, lowFunc: int, line0: int, lineFile0: Option<string>, func0: Option<nat>)
    returns (line: int, lineFile: Option<string>, func: Option<nat>)
    ensures line == (if value > lowLine then 0 else line0) && lineFile == (if value > lowLine then None else lineFile0)
    ensures func == if value > lowFunc then None else func0
  {
    line, lineFile, func := line0, lineFile0, func0;
    if value > lowLine {
      line, lineFile := 0, None;
    }
    if value > lowFunc {
      func := None;
    }
  }

  /** The pass over the symbols: where it ends, and the best candidates there. */
  method Pass(q: Query) returns (r: Found, ghost dispatched: multiset<nat>, ghost end: nat, ghost bl: Best, ghost bf: Best)
    requires forall i :: 0 <= i < |q.syms| ==> 0 <= q.syms[i].value
    ensures Ended(q, end) && end <= |q.syms| && BestOf(q, Line, end, bl) && BestOf(q, Function, end, bf)
    ensures r == Found(LineOf(q, bl), FileOf(q, bl), DirectoryOf(q, bl), MainFile(q, end), Directory(q, end), SymbolOf(bf))
    ensures OncePerSymbol(q, end, dispatched)
  {
    hide *;
    var directory, mainFile, currentFile, lineFile, lineDirectory: Option<string> := None, None, None, None, None;
    var lowLine, lowFunc, line := 0, 0, 0;
    var func: Option<nat> := None;
    bl, bf := Best(0, None, false), Best(0, None, false);
    ScanBegins(q);
    NoneDispatched(q);
    dispatched := multiset{};
    end := |q.syms|;
    var p := 0;
    while p < |q.syms|
      invariant 0 <= p <= |q.syms|
      invariant p < |q.syms| ==> Scanned(q, p) && !Second(q, p)
      invariant OncePerSymbol(q, p, dispatched)
      invariant BestOf(q, Line, p, bl) && BestOf(q, Function, p, bf)
      invariant lowLine == bl.low && line == LineOf(q, bl) && lineFile == FileOf(q, bl) && lineDirectory == DirectoryOf(q, bl)
      invariant lowFunc == bf.low && func == SymbolOf(bf)
      invariant currentFile == CurrentFile(q, p) && mainFile == MainFile(q, p) && directory == Directory(q, p)
    {
      var sym := q.syms[p];
      TypesDiffer(sym.typ);
      StepFinds(q, p, bl, bf);
      StepNames(q, p);
      StopsWhen(q, p);
      bl, bf := Better(q, Line, p, bl), Better(q, Function, p, bf);
      Dispatch(q, p, dispatched);
      dispatched := dispatched + multiset{p};
      if sym.typ == N_TEXT {
        if sym.value <= q.offset
           && ((sym.value > lowLine && (lineFile.Some? || line != 0)) || (sym.value > lowFunc && func.Some?)) {
          if NamesObject(sym.name) {
            line, lineFile, func := Overtake(sym.value, lowLine, lowFunc, line, lineFile, func);
          }
        }
      } else if sym.typ == N_SO {
        if sym.value <= q.offset {
          line, lineFile, func := Overtake(sym.value, lowLine, lowFunc, line, lineFile, func);
        }
        mainFile, currentFile := Some(sym.name), Some(sym.name);
        p := p + 1;
        if p == |q.syms| {
          break;
        }
        if q.syms[p].typ != N_SO {
          continue;
        }
        StepFinds(q, p, bl, bf);
        StepNames(q, p);
        StopsWhen(q, p);
        bl, bf := Better(q, Line, p, bl), Better(q, Function, p, bf);
        Dispatch(q, p, dispatched);
        directory := currentFile;
        mainFile, currentFile := Some(q.syms[p].name), Some(q.syms[p].name);
        if !q.text {
          end := p + 1;
          break;
        }
      } else if sym.typ == N_SOL {
        currentFile := Some(sym.name);
      } else if IsLine(sym.typ) {
        if sym.value >= lowLine && sym.value <= q.offset {
          line, lowLine, lineFile, lineDirectory := sym.desc, sym.value, currentFile, directory;
        }
      } else if sym.typ == N_FUN {
        if sym.value >= lowFunc && sym.value <= q.offset {
          lowFunc, func := sym.value, Some(p);
        } else if sym.value > q.offset {
          end := p + 1;
          break;
        }
      }
      p := p + 1;
    }
    EndsWhen(q, end);
    r := Found(line, lineFile, lineDirectory, mainFile, directory, func);
  }

  method Scan(q: Query) returns (r: Found, ghost dispatched: multiset<nat>)
    requires forall i :: 0 <= i < |q.syms| ==> 0 <= q.syms[i].value
    ensures forall i :: 0 <= i < |q.syms| && Nearest(q, Line, i) ==>
      && r.line == (if Overtaken(q, i) then 0 else q.syms[i].desc)
      && r.lineFile == (if Overtaken(q, i) then None else CurrentFile(q, i))
      && r.lineDirectory == Directory(q, i)
    ensures (forall i :: 0 <= i < |q.syms| ==> !Nearest(q, Line, i)) ==> r.line == 0
    ensures r.func.Some? <==> exists i :: 0 <= i < |q.syms| && Nearest(q, Function, i) && !Overtaken(q, i)
    ensures r.func.Some? ==> r.func.value < |q.syms| && Nearest(q, Function, r.func.value)
    ensures r.mainFile == MainFile(q, |q.syms|) && r.directory == Directory(q, |q.syms|)
    ensures OncePerSymbol(q, |q.syms|, dispatched)
  {
    hide *;
    ghost var end, bl, bf;
    r, dispatched, end, bl, bf := Pass(q);
    EndedMeans(q, end, bl, bf);
    DispatchEnds(q, end, dispatched);
  }

  /** The part of a stabs string that is the symbol's name. */
  function BeforeColon(s: string): (r: string)
    ensures |r| <= |s| && r == s[..|r|] && ':' !in r && (|r| < |s| ==> s[|r|] == ':')
  {
    if s == [] || s[0] == ':' then [] else [s[0]] + BeforeColon(s[1..])
  }

  /** `path` is a file's name, behind its directory unless it is absolute or has none; `unknown` without a name. */
  predicate IsPath(path: string, file: Option<string>, directory: Option<string>, unknown: string) {
    match file
    case None => path == unknown
    case Some(name) =>
      if directory.None? || (|name| > 0 && name[0] == '/') then path == name
      else var n := |directory.value|; |path| == n + |name| && path[..n] == directory.value && path[n..] == name
  }

  /**
    find_nearest_line.  `unknown` is the name of the BFD itself and `leading` the character
    the target puts in front of symbols, if any.
   */
  method FindNearestLine(q: Query, unknown: string, leading: string)
    returns (filename: string, functionName: Option<string>, line: int)
    requires forall i :: 0 <= i < |q.syms| ==> 0 <= q.syms[i].value
    ensures line != 0 <==> exists i :: 0 <= i < |q.syms| && Nearest(q, Line, i) && !Overtaken(q, i) && q.syms[i].desc != 0
    ensures line != 0 ==> forall i :: 0 <= i < |q.syms| && Nearest(q, Line, i) ==>
      line == q.syms[i].desc && IsPath(filename, CurrentFile(q, i), Directory(q, i), unknown)
    ensures line == 0 ==> IsPath(filename, MainFile(q, |q.syms|), Directory(q, |q.syms|), unknown)
    ensures functionName.Some? <==> exists i :: 0 <= i < |q.syms| && Nearest(q, Function, i) && !Overtaken(q, i)
    ensures forall i :: 0 <= i < |q.syms| && Nearest(q, Function, i) && functionName.Some? ==>
      functionName.value == BeforeColon(leading + q.syms[i].name)
  {
    hide Nearest, Candidate, Overtaken, OncePerSymbol, CurrentFile, Directory, MainFile;
    var r, _ := Scan(q);
    line := r.line;
    var mainFile, directory := r.mainFile, r.directory;
    if line != 0 {
      mainFile, directory := r.lineFile, r.lineDirectory;
    }
    filename := unknown;
    match mainFile {
      case None =>
      case Some(name) =>
        if (name != [] && name[0] == '/') || directory.None? {
          filename := name;
        } else {
          filename := directory.value + name;
        }
    }
    functionName := None;
    if r.func.Some? {
      functionName := Some(BeforeColon(leading + q.syms[r.func.value].name));
      forall i | 0 <= i < |q.syms| && Nearest(q, Function, i) ensures i == r.func.value {
        NearestIsOne(q, Function, i, r.func.value);
      }
    }
  }
}
