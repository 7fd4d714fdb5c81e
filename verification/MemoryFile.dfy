/**
  The in-memory file behind a BFD (bfdio.c): a heap buffer that grows in steps of
  128 bytes, with the file position kept by the BFD itself.  It is proved to behave
  as a plain byte sequence with a cursor.
 */
module MemoryFile {
  import opened CBytes

  datatype Direction = ReadDirection | WriteDirection | BothDirection

  datatype Whence = SeekSet | SeekCur

  /** What a client of the file sees: its bytes and the current position. */
  datatype File = File(bytes: seq<byte>, pos: nat)

  datatype Op = Read(count: nat) | Write(data: seq<byte>) | Seek(position: int, whence: Whence)

  datatype Result = Bytes(bytes: seq<byte>) | Wrote(count: nat) | SeekOk | SeekFailed

  predicate Writable(d: Direction) {
    d != ReadDirection
  }

  /** `(n + 127) & ~127`: the capacity the source allocates for `n` bytes. */
  function RoundUp128(n: nat): (r: nat)
    ensures n <= r < n + 128 && r % 128 == 0
  {
    (n + 127) / 128 * 128
  }

  // ----- The simple file -----

  ghost predicate InRange(f: File) {
    f.pos <= |f.bytes|
  }

  /** Overwrite or extend at the cursor. */
  function Overwrite(bytes: seq<byte>, at: nat, data: seq<byte>): (r: seq<byte>)
    requires at <= |bytes|
    ensures |r| == if at + |data| > |bytes| then at + |data| else |bytes|
  {
    bytes[..at] + data + (if at + |data| < |bytes| then bytes[at + |data|..] else [])
  }

  function SeekTarget(f: File, position: int, whence: Whence): int {
    if whence == SeekSet then position else f.pos + position
  }

  function Step(dir: Direction, f: File, op: Op): (r: (File, Result))
    requires InRange(f)
    ensures InRange(r.0)
    ensures op.Read? ==> r.0.bytes == f.bytes
    ensures !Writable(dir) && !op.Write? ==> r.0.bytes == f.bytes
  {
    match op
    case Read(count) =>
      var end := if f.pos + count > |f.bytes| then |f.bytes| else f.pos + count;
      (f.(pos := end), Bytes(f.bytes[f.pos..end]))
    case Write(data) =>
      (File(Overwrite(f.bytes, f.pos, data), f.pos + |data|), Wrote(|data|))
    case Seek(position, whence) =>
      var target := SeekTarget(f, position, whence);
      if target < 0 then
        (f.(pos := 0), SeekFailed)
      else if target <= |f.bytes| then
        (f.(pos := target), SeekOk)
      else if Writable(dir) then
        (File(f.bytes + Zeros(target - |f.bytes|), target), SeekOk)
      else
        (f.(pos := |f.bytes|), SeekFailed)
  }

  function Run(dir: Direction, f: File, ops: seq<Op>): (r: (File, seq<Result>))
    requires InRange(f)
    ensures InRange(r.0) && |r.1| == |ops|
  {
    if ops == [] then (f, [])
    else
      var (g, rs) := Run(dir, f, ops[..|ops| - 1]);
      var (h, last) := Step(dir, g, ops[|ops| - 1]);
      (h, rs + [last])
  }

  /** Each byte, traced to the last write that covered it; zero when none did. */
  ghost function LastWritten(dir: Direction, start: File, ops: seq<Op>, i: nat): byte
    requires InRange(start)
  {
    if ops == [] then (if i < |start.bytes| then start.bytes[i] else 0)
    else
      var before := ops[..|ops| - 1];
      var at := Run(dir, start, before).0.pos;
      var op := ops[|ops| - 1];
      if op.Write? && at <= i < at + |op.data| then op.data[i - at]
      else LastWritten(dir, start, before, i)
  }

  /** A byte after one step: written by it, there before, or zero. */
  lemma StepAt(dir: Direction, f: File, op: Op, i: nat)
    requires InRange(f) && i < |Step(dir, f, op).0.bytes|
    ensures Step(dir, f, op).0.bytes[i] ==
      if op.Write? && f.pos <= i < f.pos + |op.data| then op.data[i - f.pos]
      else if i < |f.bytes| then f.bytes[i] else 0
  {
  }

  /** Over every run, every byte is the last one written there, and gaps read as zero. */
  lemma {:induction false} RunKeepsLastWrites(dir: Direction, start: File, ops: seq<Op>, i: nat)
    requires InRange(start)
    requires i < |Run(dir, start, ops).0.bytes|
    ensures Run(dir, start, ops).0.bytes[i] == LastWritten(dir, start, ops, i)
  {
    if ops != [] {
      var before := ops[..|ops| - 1];
      var g := Run(dir, start, before).0;
      StepAt(dir, g, ops[|ops| - 1], i);
      hide Step;
      if i < |g.bytes| {
        RunKeepsLastWrites(dir, start, before, i);
      } else {
        BeyondTheEndNothingWasWritten(dir, start, before, i);
      }
    }
  }

  lemma {:induction false} BeyondTheEndNothingWasWritten(dir: Direction, start: File, ops: seq<Op>, i: nat)
    requires InRange(start)
    requires |Run(dir, start, ops).0.bytes| <= i
    ensures |start.bytes| <= i && LastWritten(dir, start, ops, i) == 0
  {
    if ops != [] {
      BeyondTheEndNothingWasWritten(dir, start, ops[..|ops| - 1], i);
    }
  }

  /** What is written at a place is read back from it, by going there again or by going back. */
  lemma WrittenIsReadBack(dir: Direction, f: File, place: nat, data: seq<byte>)
    requires InRange(f) && Writable(dir)
    ensures var (f1, r1) := Step(dir, f, Seek(place, SeekSet));
      var (f2, r2) := Step(dir, f1, Write(data));
      var (f3, r3) := Step(dir, f2, Seek(-|data|, SeekCur));
      && r1 == r3 == SeekOk && r2 == Wrote(|data|)
      && Step(dir, f3, Read(|data|)).1 == Bytes(data)
      && Step(dir, Step(dir, f2, Seek(place, SeekSet)).0, Read(|data|)).1 == Bytes(data)
      // and reading has moved on to the end of the data
      && Step(dir, Step(dir, f3, Read(|data|)).0, Seek(0, SeekCur)).0.pos == place + |data|
  {
  }

  lemma SeekIs(dir: Direction, f: File, position: int, whence: Whence)
    requires InRange(f)
    ensures var (g, r) := Step(dir, f, Seek(position, whence)); var target := SeekTarget(f, position, whence);
      && r == (if 0 <= target && (target <= |f.bytes| || Writable(dir)) then SeekOk else SeekFailed)
      && g.bytes == (if target > |f.bytes| && Writable(dir) then f.bytes + Zeros(target - |f.bytes|) else f.bytes)
      && (r.SeekFailed? ==> g.pos == if target < 0 then 0 else |f.bytes|)
  {
  }

  lemma ZeroExtended(was: seq<byte>, after: seq<byte>, size: nat)
    requires |was| <= size <= |after|
    requires forall i :: 0 <= i < |after| ==> after[i] == if i < |was| then was[i] else 0
    ensures after[..size] == was + Zeros(size - |was|)
  {
  }

  /** Copying over the cursor overwrites, if the buffer is large enough and kept what it held. */
  lemma CopiedIn(was: seq<byte>, mid: seq<byte>, after: seq<byte>, at: nat, data: seq<byte>, size: nat)
    requires at <= |was| && size <= |mid| == |after| && size == (if at + |data| > |was| then at + |data| else |was|)
    requires forall i :: 0 <= i < |was| && !(at <= i < at + |data|) ==> mid[i] == was[i]
    requires forall i :: 0 <= i < |after| ==> after[i] == if at <= i < at + |data| then data[i - at] else mid[i]
    ensures after[..size] == Overwrite(was, at, data)
  {
    var r := Overwrite(was, at, data);
    forall i | 0 <= i < size ensures after[i] == r[i] {
    }
  }

  // ----- The buffer -----

  class InMemoryBfd {
    var buffer: array<byte>
    var size: nat
    var where: nat
    const direction: Direction

    /** The invariant of every reachable state. */
    ghost predicate Valid()
      reads this, buffer
    {
      && where <= size <= buffer.Length
      && (Writable(direction) ==> buffer.Length == RoundUp128(size))
      && forall i :: size <= i < buffer.Length && Writable(direction) ==> buffer[i] == 0
    }

    ghost function Abs(): File
      requires Valid()
      reads this, buffer
    {
      File(buffer[..size], where)
    }

    constructor (dir: Direction)
      ensures Valid() && direction == dir && fresh(buffer)
      ensures Abs() == File([], 0)
    {
      direction := dir;
      buffer := new byte[0];
      size := 0;
      where := 0;
    }

    /** `bfd_realloc_or_free` to a larger block, then the `memset` of [from, newsize). */
    method Grow(newsize: nat, from: nat)
      requires buffer.Length <= newsize && from <= newsize
      modifies this`buffer
      ensures fresh(buffer) && buffer.Length == newsize
      ensures forall i :: 0 <= i < from && i < old(buffer.Length) ==> buffer[i] == old(buffer[i])
      ensures forall i :: from <= i < newsize ==> buffer[i] == 0
    {
      var bigger := new byte[newsize];
      forall i | 0 <= i < buffer.Length {
        bigger[i] := buffer[i];
      }
      forall i | from <= i < newsize {
        bigger[i] := 0;
      }
      buffer := bigger;
    }

    /** memory_bread */
    method MemoryRead(count: nat) returns (data: seq<byte>)
      requires Valid()
      ensures data == Step(direction, Abs(), Read(count)).1.bytes
    {
      var get := count;
      if where + get > size {
        get := if size < where then 0 else size - where;
      }
      data := buffer[where..where + get];
      assert data == buffer[..size][where..where + get];
    }

    /** memory_bwrite: grows first, then copies over the cursor, which it leaves alone. */
    method MemoryWrite(data: seq<byte>) returns (n: nat)
      requires Valid() && Writable(direction)
      modifies this`buffer, this`size, buffer
      ensures where == old(where) && n == |data|
      ensures Valid() && (buffer == old(buffer) || fresh(buffer))
      ensures buffer[..size] == Overwrite(old(buffer[..size]), where, data)
    {
      hide RoundUp128, Overwrite;
      ghost var was := buffer[..size];
      if where + |data| > size {
        var oldsize := RoundUp128(size);
        size := where + |data|;
        var newsize := RoundUp128(size);
        if newsize > oldsize {
          Grow(newsize, size);
        }
      }
      assert forall i :: 0 <= i < where ==> buffer[i] == was[i];
      assert forall i :: where + |data| <= i < |was| ==> buffer[i] == was[i];
      assert forall i :: size <= i < buffer.Length ==> buffer[i] == 0;
      ghost var mid := buffer[..];
      CopyIn(data);
      CopiedIn(was, mid, buffer[..], where, data, size);
      assert buffer[..][..size] == buffer[..size];
      n := |data|;
    }

    /** The final memcpy of memory_bwrite. */
    method CopyIn(data: seq<byte>)
      requires where + |data| <= buffer.Length
      modifies buffer
      ensures forall i :: 0 <= i < buffer.Length ==>
        buffer[i] == if where <= i < where + |data| then data[i - where] else old(buffer[i])
    {
      forall i | where <= i < where + |data| {
        buffer[i] := data[i - where];
      }
    }

    /** memory_bseek: on success the caller moves the cursor; on failure it is moved here. */
    method MemorySeek(position: int, whence: Whence) returns (ok: bool)
      requires Valid()
      modifies this`buffer, this`size, this`where
      ensures Valid() && (buffer == old(buffer) || fresh(buffer))
      ensures var (f, r) := old(Step(direction, Abs(), Seek(position, whence)));
        && ok == r.SeekOk?
        && buffer[..size] == f.bytes
        && where == (if ok then old(where) else f.pos)
    {
      SeekIs(direction, Abs(), position, whence);
      hide RoundUp128, Step, Zeros;
      ghost var was := buffer[..size];
      var nwhere: int := if whence == SeekSet then position else where + position;
      if nwhere < 0 {
        where := 0;
        return false;
      }
      if nwhere > size {
        if direction == WriteDirection || direction == BothDirection {
          var oldsize := RoundUp128(size);
          size := nwhere;
          var newsize := RoundUp128(size);
          if newsize > oldsize {
            Grow(newsize, oldsize);
          }
          ZeroExtended(was, buffer[..], size);
          assert buffer[..][..size] == buffer[..size];
        } else {
          where := size;
          return false;
        }
      }
      ok := true;
    }

    /** bfd_bread */
    method Bread(count: nat) returns (data: seq<byte>)
      requires Valid()
      modifies this`where
      ensures Valid()
      ensures (Abs(), Bytes(data)) == old(Step(direction, Abs(), Read(count)))
    {
      data := MemoryRead(count);
      where := where + |data|;
    }

    /** bfd_bwrite */
    method Bwrite(data: seq<byte>) returns (n: nat)
      requires Valid() && Writable(direction)
      modifies this, buffer
      ensures Valid() && (buffer == old(buffer) || fresh(buffer))
      ensures (Abs(), Wrote(n)) == old(Step(direction, Abs(), Write(data)))
    {
      n := MemoryWrite(data);
      where := where + n;
    }

    /** bfd_tell on a BFD that is not inside an archive. */
    method Tell() returns (at: nat)
      requires Valid()
      modifies this`where
      ensures Valid() && where == old(where) && at == Abs().pos
    {
      at := where;
      where := at;
    }

    /** bfd_seek on a BFD that is not an archive nor inside one. */
    method Bseek(position: int, whence: Whence) returns (ok: bool)
      requires Valid()
      modifies this
      ensures Valid() && (buffer == old(buffer) || fresh(buffer))
      ensures (Abs(), if ok then SeekOk else SeekFailed) == old(Step(direction, Abs(), Seek(position, whence)))
    {
      if whence == SeekCur && position == 0 {
        return true;
      }
      if whence == SeekSet && position == where {
        return true;
      }
      ok := MemorySeek(position, whence);
      if !ok {
        var _ := Tell();
      } else if whence == SeekSet {
        where := position;
      } else {
        where := where + position;
      }
    }

    /** Any sequence of operations on a writable file refines the simple file. */
    method Perform(ops: seq<Op>) returns (results: seq<Result>)
      requires Valid() && Writable(direction)
      modifies this, buffer
      ensures Valid() && (buffer == old(buffer) || fresh(buffer))
      ensures (Abs(), results) == old(Run(direction, Abs(), ops))
    {
      results := [];
      for i := 0 to |ops|
        invariant Valid() && (buffer == old(buffer) || fresh(buffer))
        invariant (Abs(), results) == old(Run(direction, Abs(), ops[..i]))
      {
        assert ops[..i + 1][..i] == ops[..i];
        match ops[i] {
          case Read(count) =>
            var data := Bread(count);
            results := results + [Bytes(data)];
          case Write(data) =>
            var n := Bwrite(data);
            results := results + [Wrote(n)];
          case Seek(position, whence) =>
            var ok := Bseek(position, whence);
            results := results + [if ok then SeekOk else SeekFailed];
        }
      }
      assert ops[..|ops|] == ops;
    }
  }
}
