/** The rewindable ring buffer over a file (CBufferedFile in src/base/serialize.h), for any
    file contents and any pattern of short reads. */
module BufferedFile {
  import opened Quotients

  const UINT64: nat := 0x1_0000_0000_0000_0000

  // ------------------------------------------------------------ the positions

  /** The length of the file, the size of the buffer, the rewind distance, and how many bytes
      the file system is willing to give to its k-th caller; none is a failure. */
  datatype Setup = Setup(length: nat, size: nat, rewind: nat, answers: nat -> nat)

  datatype Cursor = Cursor(srcPos: nat, readPos: nat, readLimit: nat, calls: nat)

  const START := Cursor(0, 0, UINT64 - 1, 0)

  datatype Outcome = Read | PastLimit | TooLarge | FillFailed | Moved(ok: bool) | Limited(ok: bool)

  function Min(a: nat, b: nat): nat { if a < b then a else b }

  predicate InFile(c: Cursor, g: Setup) { c.readPos <= c.srcPos <= g.length }

  /** What `Fill` asks for once everything read has been consumed. */
  function Wanted(c: Cursor, g: Setup): nat
    requires g.rewind < g.size
  {
    Min(g.size - Slot(c.srcPos, g.size), g.size - g.rewind)
  }

  function Filled(c: Cursor, g: Setup): (r: Cursor)
    requires g.rewind < g.size && InFile(c, g)
    ensures InFile(r, g)
  {
    var got := Min(Min(Wanted(c, g), g.length - c.srcPos), g.answers(c.calls));
    c.(srcPos := c.srcPos + got, calls := c.calls + 1)
  }

  /** What can be copied in one piece. */
  function Chunk(c: Cursor, left: nat, g: Setup): (n: nat)
    requires g.size >= 1 && c.readPos < c.srcPos && left >= 1
    ensures 1 <= n <= left && c.readPos + n <= c.srcPos
  {
    Min(Min(left, g.size - Slot(c.readPos, g.size)), c.srcPos - c.readPos)
  }

  /** The reading loop: it fails when a fill brings nothing. */
  function ReadLoop(c: Cursor, left: nat, g: Setup): (r: (Cursor, bool))
    requires InFile(c, g) && (left > 0 ==> g.rewind < g.size)
    ensures InFile(r.0, g) && c.srcPos <= r.0.srcPos && r.0.readLimit == c.readLimit
    ensures r.1 ==> r.0.readPos == c.readPos + left
    ensures !r.1 ==> c.readPos <= r.0.readPos < c.readPos + left && r.0.readPos == r.0.srcPos
    decreases left
  {
    if left == 0 then (c, true)
    else
      var f := if c.readPos == c.srcPos then Filled(c, g) else c;
      if f.readPos == f.srcPos then (f, false)
      else
        var n := Chunk(f, left, g);
        ReadLoop(f.(readPos := f.readPos + n), left - n, g)
  }

  /** What a fill brings: as much as fits before the end of the ring and before the rewind window, as
      the file has and as the file system gives. */
  lemma FilledIs(c: Cursor, g: Setup)
    requires g.rewind < g.size && InFile(c, g)
    ensures var f := Filled(c, g);
      && f.calls == c.calls + 1 && f == c.(srcPos := f.srcPos, calls := f.calls)
      && var room := Min(g.size - c.srcPos % g.size, g.size - g.rewind);
         f.srcPos - c.srcPos == Min(Min(room, g.length - c.srcPos), g.answers(c.calls))
  {
    SlotIs(c.srcPos, g.size);
  }

  /** The loop fails exactly because a fill found the end of the file or was given nothing. */
  lemma {:induction false} LoopFails(c: Cursor, left: nat, g: Setup)
    requires InFile(c, g) && (left > 0 ==> g.rewind < g.size)
    ensures var (r, ok) := ReadLoop(c, left, g);
      r.calls >= c.calls && (!ok ==> r.calls > c.calls && (r.srcPos == g.length || g.answers(r.calls - 1) == 0))
    decreases left
  {
    hide Slot, Filled, Chunk;
    if left > 0 {
      if c.readPos == c.srcPos {
        FillGives(c, g);
      }
      var f := if c.readPos == c.srcPos then Filled(c, g) else c;
      if f.readPos != f.srcPos {
        var n := Chunk(f, left, g);
        LoopFails(f.(readPos := f.readPos + n), left - n, g);
      }
    }
  }

  lemma FillGives(c: Cursor, g: Setup)
    requires g.rewind < g.size && InFile(c, g)
    ensures var f := Filled(c, g);
      && f.calls == c.calls + 1 && f.readPos == c.readPos && c.srcPos <= f.srcPos
      && (f.srcPos == c.srcPos <==> c.srcPos == g.length || g.answers(c.calls) == 0)
  {
    hide Slot;
  }

  lemma LoopStep(c: Cursor, left: nat, g: Setup)
    requires InFile(c, g) && left > 0 && g.rewind < g.size
    ensures c.readPos < c.srcPos ==>
      var n := Chunk(c, left, g); ReadLoop(c, left, g) == ReadLoop(c.(readPos := c.readPos + n), left - n, g)
    ensures c.readPos == c.srcPos ==>
      var f := Filled(c, g); ReadLoop(c, left, g) == if f.srcPos > c.srcPos then ReadLoop(f, left, g) else (f, false)
  {
    hide Slot;
  }

  lemma LoopEnds(c: Cursor, g: Setup)
    requires InFile(c, g)
    ensures ReadLoop(c, 0, g) == (c, true)
  {
  }

  /** Unsigned 64-bit addition. */
  function Sum64(a: nat, b: nat): nat {
    (a + b) % UINT64
  }

  /** A size so large that its sum with the rewind distance wraps and passes for a small one. */
  predicate Slips(n: nat, rewind: nat, size: nat) {
    n + rewind >= UINT64 && n + rewind - UINT64 <= size
  }

  lemma SumsCompare(n: nat, rewind: nat, size: nat)
    requires n < UINT64 && rewind < UINT64 && size < UINT64
    ensures (Sum64(n, rewind) > size <==> n + rewind > size) <==> !Slips(n, rewind, size)
  {
  }

  function AfterRead(c: Cursor, n: nat, g: Setup): (Cursor, Outcome)
    requires InFile(c, g)
  {
    if Sum64(n, c.readPos) > c.readLimit then (c, PastLimit)
    else if n + g.rewind > g.size then (c, TooLarge)
    else
      var (r, ok) := ReadLoop(c, n, g);
      (r, if ok then Outcome.Read else FillFailed)
  }

  /** The outcomes of a read: the limit is passed by the 64-bit sum of size and position; else the size
      is larger than what the buffer keeps apart from the rewind window; else the bytes are there,
      or a fill found the end of the file or was given nothing before they were. */
  lemma AfterReadIs(c: Cursor, n: nat, g: Setup)
    requires InFile(c, g)
    ensures var (r, outcome) := AfterRead(c, n, g);
      if (n + c.readPos) % UINT64 > c.readLimit then outcome.PastLimit? && r == c
      else if n + g.rewind > g.size then outcome.TooLarge? && r == c
      else
        && r.readLimit == c.readLimit && r.calls >= c.calls
        && if outcome.Read? then r.readPos == c.readPos + n <= r.srcPos
           else
             && outcome.FillFailed? && c.readPos <= r.readPos < c.readPos + n && r.readPos == r.srcPos
             && r.calls > c.calls && (r.srcPos == g.length || g.answers(r.calls - 1) == 0)
  {
    hide ReadLoop;
    if n + g.rewind <= g.size {
      LoopFails(c, n, g);
    }
  }

  /** Where the reading position ends up when nPos is asked for, in 64-bit arithmetic. */
  function Target(nPos: nat, rewind: nat, srcPos: nat): nat {
    if Sum64(nPos, rewind) < srcPos then (srcPos + UINT64 - rewind % UINT64) % UINT64
    else if nPos > srcPos then srcPos
    else nPos
  }

  /** The position asked for is within the rewind distance of the source position. */
  predicate Reachable(nPos: nat, rewind: nat, srcPos: nat) {
    nPos + rewind < UINT64 && srcPos <= nPos + rewind && nPos <= srcPos
  }

  datatype Event = ReadBytes(size: nat) | MoveTo(position: nat) | LimitTo(position: nat)

  function Step(c: Cursor, e: Event, g: Setup): (Cursor, Outcome)
    requires InFile(c, g)
  {
    match e
    case ReadBytes(n) => AfterRead(c, n, g)
    case MoveTo(n) => (c.(readPos := Target(n, g.rewind, c.srcPos)), Moved(Reachable(n, g.rewind, c.srcPos)))
    case LimitTo(n) => if n < c.readPos then (c, Limited(false)) else (c.(readLimit := n), Limited(true))
  }

  // ------------------------------------------------------------------ the ring

  /** The place of position q in a ring of the given size. */
  function Slot(q: nat, size: nat): (r: nat)
    requires size >= 1
    ensures r < size
  {
    DivRem(q, size).1
  }

  lemma SlotIs(q: nat, size: nat)
    requires size >= 1
    ensures Slot(q, size) == q % size
  {
    var (k, r) := DivRem(q, size);
    UniqueQuotient(k, r, q / size, q % size, size);
  }

  lemma SlotAhead(q: nat, j: nat, size: nat)
    requires j < size
    ensures Slot(q + j, size) == if Slot(q, size) + j < size then Slot(q, size) + j else Slot(q, size) + j - size
  {
    hide DivRem;
    var (k, r) := DivRem(q, size);
    var (k', r') := DivRem(q + j, size);
    if r + j < size {
      UniqueQuotient(k', r', k, r + j, size);
    } else {
      assert (k + 1) * size == k * size + size;
      UniqueQuotient(k', r', k + 1, r + j - size, size);
    }
  }

  lemma SlotBehind(q: nat, size: nat)
    requires size >= 1
    ensures Slot(q + size, size) == Slot(q, size)
  {
    hide DivRem;
    var (k, r) := DivRem(q, size);
    var (k', r') := DivRem(q + size, size);
    assert (k + 1) * size == k * size + size;
    UniqueQuotient(k', r', k + 1, r, size);
  }

  /** The ring holds the last bytes read from the source, as many as it has room for. */
  ghost predicate Holds(ring: seq<nat>, source: seq<nat>, srcPos: nat) {
    && |ring| >= 1
    && srcPos <= |source|
    && forall q :: 0 <= q < srcPos && srcPos <= q + |ring| ==> ring[Slot(q, |ring|)] == source[q]
  }

  /** Reading more bytes to the place after the last one keeps the ring, as long as they do
      not run past its end. */
  lemma HoldsAfter(ring: seq<nat>, ring': seq<nat>, source: seq<nat>, srcPos: nat, got: nat)
    requires Holds(ring, source, srcPos) && |ring'| == |ring| && srcPos + got <= |source|
    requires Slot(srcPos, |ring|) + got <= |ring|
    requires forall k :: 0 <= k < |ring| ==>
        ring'[k] ==
          if Slot(srcPos, |ring|) <= k < Slot(srcPos, |ring|) + got
          then source[srcPos + k - Slot(srcPos, |ring|)]
          else ring[k]
    ensures Holds(ring', source, srcPos + got)
  {
    hide Slot;
    var size, pos := |ring|, Slot(srcPos, |ring|);
    forall q | 0 <= q < srcPos + got && srcPos + got <= q + size
      ensures ring'[Slot(q, size)] == source[q]
    {
      if q >= srcPos {
        SlotAhead(srcPos, q - srcPos, size);
      } else {
        SlotAhead(srcPos, q + size - srcPos, size);
        SlotBehind(q, size);
      }
    }
  }

  lemma WindowKept(ring: seq<nat>, ring': seq<nat>, source: seq<nat>, srcPos: nat, got: nat, rewind: nat)
    requires Holds(ring, source, srcPos) && Holds(ring', source, srcPos + got) && |ring'| == |ring|
    requires got + rewind <= |ring|
    ensures forall q :: 0 <= q < srcPos && srcPos <= q + rewind ==> ring'[Slot(q, |ring|)] == ring[Slot(q, |ring|)]
  {
    hide Slot;
  }

  /** Consecutive positions lie in consecutive places up to the end of the ring. */
  lemma Stretch(ring: seq<nat>, source: seq<nat>, srcPos: nat, readPos: nat, n: nat)
    requires Holds(ring, source, srcPos) && readPos + n <= srcPos <= readPos + |ring|
    requires Slot(readPos, |ring|) + n <= |ring|
    ensures ring[Slot(readPos, |ring|)..Slot(readPos, |ring|) + n] == source[readPos..readPos + n]
  {
    hide Slot;
    var pos := Slot(readPos, |ring|);
    var a, b := ring[pos..pos + n], source[readPos..readPos + n];
    forall j | 0 <= j < n
      ensures a[j] == b[j]
    {
      if j < |ring| {
        SlotAhead(readPos, j, |ring|);
      }
      assert ring[Slot(readPos + j, |ring|)] == source[readPos + j];
    }
  }

  class BufferedFile {
    const source: seq<nat>
    const answers: nat -> nat
    const rewind: nat
    const vchBuf: array<nat>
    var srcPos: nat
    var readPos: nat
    var readLimit: nat
    var calls: nat

    function Config(): Setup {
      Setup(|source|, vchBuf.Length, rewind, answers)
    }

    function Now(): Cursor
      reads this
    {
      Cursor(srcPos, readPos, readLimit, calls)
    }

    /** The bytes from the rewind window on are in the buffer. */
    ghost predicate Valid()
      reads this, vchBuf
    {
      && readPos <= srcPos <= |source| && |source| + vchBuf.Length < UINT64
      && vchBuf.Length < 0x1_0000_0000
      && srcPos <= readPos + (if rewind <= vchBuf.Length then vchBuf.Length else rewind)
      && (vchBuf.Length >= 1 ==> Holds(vchBuf[..], source, srcPos))
      && (vchBuf.Length == 0 ==> srcPos == 0)
    }

    constructor (file: seq<nat>, fileSystem: nat -> nat, size: nat, nRewind: nat)
      requires |file| + size < UINT64 && size < 0x1_0000_0000
      ensures Valid() && fresh(vchBuf) && source == file && Now() == START
      ensures Config() == Setup(|file|, size, nRewind, fileSystem)
    {
      source, answers, rewind := file, fileSystem, nRewind;
      srcPos, readPos, readLimit, calls := 0, 0, UINT64 - 1, 0;
      vchBuf := new nat[size](_ => 0);
    }

    /** Called when everything read from the source has been consumed. No byte of the rewind
        window is overwritten. */
    method Fill() returns (ok: bool)
      requires Valid() && readPos == srcPos && rewind < vchBuf.Length
      modifies this`srcPos, this`calls, vchBuf
      ensures Valid() && Now() == Filled(old(Now()), Config()) && (ok <==> srcPos > old(srcPos))
      ensures srcPos <= readPos + vchBuf.Length - rewind
      ensures forall q :: 0 <= q < old(srcPos) && old(srcPos) <= q + rewind ==>
        vchBuf[Slot(q, vchBuf.Length)] == old(vchBuf[Slot(q, vchBuf.Length)])
    {
      hide Slot, Holds;
      var size := vchBuf.Length;
      var pos := Slot(srcPos, size);
      var readNow := size - pos;
      var avail := size - (srcPos - readPos) - rewind;
      if avail < readNow {
        readNow := avail;
      }
      var got := Min(Min(readNow, |source| - srcPos), answers(calls));
      calls := calls + 1;
      if got == 0 {
        return false;
      }
      Receive(pos, got);
      srcPos := srcPos + got;
      ok := true;
    }

    /** The file system writes the next bytes of the file to the buffer. */
    method Receive(pos: nat, got: nat)
      requires Valid() && 1 <= got && rewind < vchBuf.Length && srcPos + got <= |source|
      requires pos == Slot(srcPos, vchBuf.Length) && pos + got <= vchBuf.Length && got + rewind <= vchBuf.Length
      modifies vchBuf
      ensures Holds(vchBuf[..], source, srcPos + got)
      ensures forall q :: 0 <= q < srcPos && srcPos <= q + rewind ==>
        vchBuf[Slot(q, vchBuf.Length)] == old(vchBuf[Slot(q, vchBuf.Length)])
    {
      hide Slot;
      ghost var before := vchBuf[..];
      forall k | pos <= k < pos + got {
        vchBuf[k] := source[srcPos + k - pos];
      }
      HoldsAfter(before, vchBuf[..], source, srcPos, got);
      WindowKept(before, vchBuf[..], source, srcPos, got, rewind);
    }

    /** Copies what lies in one piece of the ring, up to the source position. */
    method TakeChunk(left: nat) returns (chunk: seq<nat>)
      requires Valid() && left > 0 && readPos < srcPos && 1 <= vchBuf.Length && rewind <= vchBuf.Length
      modifies this`readPos
      ensures Valid() && Now() == old(Now()).(readPos := old(readPos) + Chunk(old(Now()), left, Config()))
      ensures chunk == source[old(readPos)..readPos]
    {
      hide Slot, Holds;
      var pos := Slot(readPos, vchBuf.Length);
      var now: nat := left;
      if now + pos > vchBuf.Length {
        now := vchBuf.Length - pos;
      }
      if now + readPos > srcPos {
        now := srcPos - readPos;
      }
      Stretch(vchBuf[..], source, srcPos, readPos, now);
      chunk := vchBuf[..][pos..pos + now];
      readPos := readPos + now;
    }

    /** A successful read returns exactly the source bytes at the reading position. A failed
        fill throws in the middle, with the position after the bytes already copied; the two
        checks throw before anything changes. */
    method ReadBytes(nSize: nat) returns (outcome: Outcome, data: seq<nat>)
      requires Valid() && nSize < UINT64 && rewind < UINT64 && !Slips(nSize, rewind, vchBuf.Length)
      modifies this`srcPos, this`readPos, this`calls, vchBuf
      ensures Valid() && (Now(), outcome) == AfterRead(old(Now()), nSize, Config())
      ensures outcome.Read? ==> readPos == old(readPos) + nSize <= |source| && data == source[old(readPos)..readPos]
    {
      SumsCompare(nSize, rewind, vchBuf.Length);
      hide Slot, Holds, ReadLoop, Sum64;
      data := [];
      if Sum64(nSize, readPos) > readLimit {
        return PastLimit, [];
      }
      if Sum64(nSize, rewind) > vchBuf.Length {
        return TooLarge, [];
      }
      var ok;
      ok, data := CopyOut(nSize);
      outcome := if ok then Outcome.Read else FillFailed;
    }

    method CopyOut(nSize: nat) returns (ok: bool, data: seq<nat>)
      requires Valid() && nSize + rewind <= vchBuf.Length
      modifies this`srcPos, this`readPos, this`calls, vchBuf
      ensures Valid() && (Now(), ok) == ReadLoop(old(Now()), nSize, Config())
      ensures old(readPos) <= readPos && data == source[old(readPos)..readPos]
    {
      hide Slot, Holds, ReadLoop;
      data := [];
      var left: nat := nSize;
      while left > 0
        invariant Valid() && old(readPos) <= readPos && left <= nSize
        invariant ReadLoop(Now(), left, Config()) == ReadLoop(old(Now()), nSize, Config())
        invariant data == source[old(readPos)..readPos]
      {
        var filled, chunk := Advance(left);
        if !filled {
          return false, data;
        }
        assert source[old(readPos)..readPos] == data + chunk;
        data := data + chunk;
        left := left - |chunk|;
      }
      LoopEnds(Now(), Config());
      ok := true;
    }

    /** One round of the reading loop: a fill if it is needed, then one piece. */
    method Advance(left: nat) returns (ok: bool, chunk: seq<nat>)
      requires Valid() && left > 0 && rewind < vchBuf.Length
      modifies this`srcPos, this`readPos, this`calls, vchBuf
      ensures Valid() && old(readPos) <= readPos && chunk == source[old(readPos)..readPos]
      ensures if ok then 1 <= |chunk| <= left &&
          ReadLoop(old(Now()), left, Config()) == ReadLoop(Now(), left - |chunk|, Config())
        else chunk == [] && ReadLoop(old(Now()), left, Config()) == (Now(), false)
    {
      hide Slot, Holds, ReadLoop;
      chunk := [];
      LoopStep(Now(), left, Config());
      if readPos == srcPos {
        ok := Fill();
        if !ok {
          return;
        }
        LoopStep(Now(), left, Config());
      }
      chunk := TakeChunk(left);
      ok := true;
    }

    /** Moves the reading position. The buffer still has what is to be read next exactly when the
        64-bit sum did not escape. */
    method SetPos(nPos: nat) returns (ok: bool)
      requires Valid() && nPos < UINT64 && rewind < UINT64
      modifies this`readPos
      ensures Now() == old(Now()).(readPos := Target(nPos, rewind, srcPos))
      ensures Valid() <==> !Escapes(nPos, rewind, srcPos)
      ensures ok == Reachable(nPos, rewind, srcPos) && (ok ==> readPos == nPos)
      ensures nPos + rewind < UINT64 ==>
        && readPos == (if nPos + rewind < srcPos then srcPos - rewind else Min(nPos, srcPos))
        && (ok <==> readPos == nPos)
    {
      StaysInWindow(nPos, rewind, srcPos);
      readPos := nPos;
      if Sum64(readPos, rewind) < srcPos {
        readPos := (srcPos + UINT64 - rewind) % UINT64;
        return false;
      } else if readPos > srcPos {
        readPos := srcPos;
        return false;
      } else {
        return true;
      }
    }

    method SetLimit(nPos: nat) returns (ok: bool)
      requires Valid()
      modifies this`readLimit
      ensures Valid() && (Now(), Limited(ok)) == Step(old(Now()), LimitTo(nPos), Config())
      ensures (ok <==> readPos <= nPos) && readLimit == if ok then nPos else old(readLimit)
    {
      if nPos < readPos {
        return false;
      }
      readLimit := nPos;
      return true;
    }
  }

  /** The sum with the rewind distance wraps to something small while less than that distance
      has been read. */
  predicate Escapes(nPos: nat, rewind: nat, srcPos: nat) {
    nPos + rewind >= UINT64 && nPos + rewind - UINT64 < srcPos < rewind
  }

  /** The new position is within the rewind window of the source position exactly when the
      sum does not escape. */
  lemma StaysInWindow(nPos: nat, rewind: nat, srcPos: nat)
    requires nPos < UINT64 && rewind < UINT64 && srcPos < UINT64
    ensures Target(nPos, rewind, srcPos) <= srcPos <= Target(nPos, rewind, srcPos) + rewind
      <==> !Escapes(nPos, rewind, srcPos)
    ensures Escapes(nPos, rewind, srcPos) ==> Target(nPos, rewind, srcPos) > srcPos
  {
  }

  /** Stepping back k bytes is honoured exactly when the target is within the rewind distance
      of what has been read from the source, not of the reading position. */
  lemma RewindExactly(readPos: nat, srcPos: nat, rewind: nat, k: nat)
    requires k <= readPos <= srcPos < UINT64 && srcPos + rewind < UINT64
    ensures Target(readPos - k, rewind, srcPos) == readPos - k <==> srcPos <= readPos - k + rewind
    ensures Reachable(readPos - k, rewind, srcPos) <==> srcPos <= readPos - k + rewind
  {
  }

  // --------------------------------------------------------------- whole runs

  /** Any 64-bit position, and any size that does not slip through the check. */
  predicate InRange(e: Event, rewind: nat, size: nat) {
    match e
    case ReadBytes(n) => n < UINT64 && !Slips(n, rewind, size)
    case MoveTo(n) => n < UINT64
    case LimitTo(n) => n < UINT64
  }

  /** The event takes the reading position out of the window. */
  predicate Leaves(e: Event, c: Cursor, rewind: nat) {
    e.MoveTo? && Escapes(e.position, rewind, c.srcPos)
  }

  /** An event: where it started, how it went and what was read. */
  datatype Entry = Entry(start: Cursor, outcome: Outcome, data: seq<nat>)

  /** The event went as its step says, and a successful read gave the bytes of the file at its
      position. */
  ghost predicate IsEntry(entry: Entry, next: Cursor, event: Event, file: seq<nat>, g: Setup)
    requires g.length == |file|
  {
    && InFile(entry.start, g)
    && (next, entry.outcome) == Step(entry.start, event, g)
    && (entry.outcome.Read? && event.ReadBytes? ==>
         var position := entry.start.readPos;
         position + event.size <= |file| && entry.data == file[position..position + event.size])
  }

  function Next(log: seq<Entry>, i: nat, last: Cursor): Cursor {
    if i < |log| then log[i].start else last
  }

  /** The log of a run: every event starts where the one before left off. */
  ghost predicate IsLog(log: seq<Entry>, first: Cursor, last: Cursor, events: seq<Event>, file: seq<nat>, g: Setup)
    requires g.length == |file|
  {
    && |log| == |events| && Next(log, 0, last) == first
    && forall i :: 0 <= i < |log| ==> IsEntry(log[i], Next(log, i + 1, last), events[i], file, g)
  }

  method Perform(f: BufferedFile, event: Event) returns (entry: Entry)
    requires f.Valid() && f.rewind < UINT64 && InRange(event, f.rewind, f.vchBuf.Length)
    modifies f, f.vchBuf
    ensures entry.start == old(f.Now()) && IsEntry(entry, f.Now(), event, f.source, f.Config())
    ensures f.Valid() <==> !Leaves(event, entry.start, f.rewind)
  {
    var start := f.Now();
    match event {
      case ReadBytes(n) =>
        var outcome, data := f.ReadBytes(n);
        entry := Entry(start, outcome, data);
      case MoveTo(n) =>
        var moved := f.SetPos(n);
        entry := Entry(start, Moved(moved), []);
      case LimitTo(n) =>
        var limited := f.SetLimit(n);
        entry := Entry(start, Limited(limited), []);
    }
  }

  /** Over every run of reads, repositionings and limits, with any answers of the file system, the
      positions are those of the steps, and each successful read gives the bytes of the file at
      the position it started from. The run stops early exactly at the first repositioning that
      leaves the window. */
  method Run(f: BufferedFile, events: seq<Event>) returns (log: seq<Entry>)
    requires f.Valid() && f.rewind < UINT64
    requires forall e :: e in events ==> InRange(e, f.rewind, f.vchBuf.Length)
    modifies f, f.vchBuf
    ensures |log| <= |events| && IsLog(log, old(f.Now()), f.Now(), events[..|log|], f.source, f.Config())
    ensures forall i :: 0 <= i < |log| && Leaves(events[i], log[i].start, f.rewind) ==> i == |log| - 1 && !f.Valid()
    ensures f.Valid() ==> |log| == |events|
    ensures !f.Valid() ==> log != [] && Leaves(events[|log| - 1], log[|log| - 1].start, f.rewind)
  {
    hide IsEntry, Leaves;
    log := [];
    ghost var g, first := f.Config(), f.Now();
    assert events[..0] == [];
    var i := 0;
    while i < |events|
      invariant 0 <= i <= |events| && |log| == i
      invariant f.Valid() && IsLog(log, first, f.Now(), events[..i], f.source, g)
      invariant forall j :: 0 <= j < i ==> !Leaves(events[j], log[j].start, f.rewind)
    {
      assert events[..i + 1] == events[..i] + [events[i]];
      var start := f.Now();
      var entry := Perform(f, events[i]);
      LogGrows(log, first, entry, f.Now(), events[..i], events[i], f.source, g);
      log := log + [entry];
      if Leaves(events[i], start, f.rewind) {
        return;
      }
      i := i + 1;
    }
  }

  lemma LogGrows(log: seq<Entry>, first: Cursor, entry: Entry, last: Cursor, events: seq<Event>, event: Event,
                 file: seq<nat>, g: Setup)
    requires g.length == |file| && IsLog(log, first, entry.start, events, file, g)
    requires IsEntry(entry, last, event, file, g)
    ensures IsLog(log + [entry], first, last, events + [event], file, g)
  {
    hide IsEntry;
    var more, all := log + [entry], events + [event];
    forall i | 0 <= i < |more|
      ensures IsEntry(more[i], Next(more, i + 1, last), all[i], file, g)
    {
      if i < |log| {
        assert IsEntry(log[i], Next(log, i + 1, entry.start), events[i], file, g);
      }
    }
  }

  // ----------------------------------------------------------------- examples

  function Always(n: nat): nat -> nat { _ => n }

  /** One byte of eight read ahead cannot be taken back with a rewind distance of two: asked for
      position 0, the buffer goes forward to position 6. */
  method RewindExample(file: seq<nat>) returns (f: BufferedFile, log: seq<Entry>)
    requires 8 <= |file| && |file| + 10 < UINT64
    ensures fresh(f) && f.Valid() && f.Config() == Setup(|file|, 10, 2, Always(8)) && f.source == file
    ensures IsLog(log, START, f.Now(), [Event.ReadBytes(1), MoveTo(0)], file, f.Config())
    ensures log[0].outcome.Read? && log[1].start.readPos == 1 && log[1].outcome == Moved(false) && f.readPos == 6
  {
    hide ReadLoop, Filled, Chunk, Slot;
    f := new BufferedFile(file, Always(8), 10, 2);
    var events := [Event.ReadBytes(1), MoveTo(0)];
    log := Run(f, events);
    assert f.Valid() && events[..2] == events;
    FirstRead(f.Config(), 1);
    assert IsEntry(log[0], log[1].start, events[0], file, f.Config());
    assert IsEntry(log[1], f.Now(), events[1], file, f.Config());
  }

  /** The first read fills the buffer once if the file system gives enough. */
  lemma FirstRead(g: Setup, n: nat)
    requires g.rewind < g.size && 1 <= n && n + g.rewind <= g.size && n < UINT64
    requires n <= g.answers(0) <= g.length && g.answers(0) + g.rewind <= g.size
    ensures AfterRead(START, n, g) == (Cursor(g.answers(0), n, UINT64 - 1, 1), Outcome.Read)
  {
    SlotZero(g.size);
    hide Slot;
    var f := Filled(START, g);
    assert f == Cursor(g.answers(0), 0, UINT64 - 1, 1);
    assert Chunk(f, n, g) == n;
    assert ReadLoop(START, n, g) == ReadLoop(f.(readPos := n), 0, g);
  }

  lemma SlotZero(size: nat)
    requires size >= 1
    ensures Slot(0, size) == 0
  {
    hide DivRem;
    var (k, r) := DivRem(0, size);
    UniqueQuotient(k, r, 0, 0, size);
  }

  /** With a rewind distance of 100, 50 bytes read and a position next to 2^64 asked for, the
      reading position leaves the window: the buffer is no longer valid. */
  method EscapeExample(file: seq<nat>) returns (f: BufferedFile, outcome: Outcome, data: seq<nat>)
    requires 50 <= |file| && |file| + 200 < UINT64
    ensures fresh(f) && f.Config() == Setup(|file|, 200, 100, Always(50)) && f.source == file
    ensures outcome.Read? && data == file[..50] && f.srcPos == 50
    ensures f.readPos == Target(UINT64 - 90, 100, 50) == UINT64 - 50 && !f.Valid()
  {
    f := new BufferedFile(file, Always(50), 200, 100);
    FirstRead(f.Config(), 50);
    outcome, data := f.ReadBytes(50);
    var moved := f.SetPos(UINT64 - 90);
  }
}
