/** The stride walk of `corrupt_nes_rom`, stated as a specification.

    The file is an in-memory sequence of byte values. The offsets are clamped
    to the file, strides of `chunk_size` offsets start at the clamped start,
    and each stride is corrupted or left alone as a whole. This module defines
    what a run leaves behind, offset by offset, without following the loop.
 */
module RomWalk {
  import opened ByteRules

  /** The arguments of `corrupt_nes_rom` that shape the walk. `logging`
      says whether a log file was named. */
  datatype Request = Request(
    startOffset: int,
    endOffset: int,
    methodName: string,
    pattern: seq<string>,
    chunkSize: int,
    logging: bool)

  /** The random choices of one run: for each stride, whether
      `random.random() < corruption_chance` held, and for each offset, the
      draw `corrupt_byte` consumes if that offset is rewritten. */
  datatype Choices = Choices(corrupts: seq<bool>, draws: seq<Draw>)

  /** One log record. As in the source, `originalByte` holds the value
      written, not the value read. */
  datatype LogEntry = LogEntry(offset: int, originalByte: int)

  /** Why a run stops early: `range` refuses a zero step; `ord` of the empty
      read past the end of an empty file; `corrupt_byte` refuses a name. */
  datatype RunError = ZeroChunkSize | EmptyRead | BadMethod(name: string)

  /** A run either completes, with the log it would dump, or stops at the
      first error with the bytes written so far still in the file (the log
      is then never written). */
  datatype RunOutcome =
    | Completed(rom: seq<int>, log: seq<LogEntry>)
    | Aborted(rom: seq<int>, error: RunError)

  predicate IsByteSeq(s: seq<int>) {
    forall i :: 0 <= i < |s| ==> IsByte(s[i])
  }

  predicate ValidDraws(s: seq<Draw>) {
    forall i :: 0 <= i < |s| ==> ValidDraw(s[i])
  }

  /** The clamped offsets: first and last offset of the walk, inclusive. */
  datatype Window = Window(lo: int, hi: int)

  /** `start = max(0, min(size - 1, start))`, then
      `end = max(start, min(size - 1, end))`: each offset saturates at the
      ends of the file, and the end never falls below the start. */
  function Clamp(size: nat, startOffset: int, endOffset: int): (w: Window)
    ensures 0 <= w.lo <= w.hi
    ensures size >= 1 ==> w.hi <= size - 1
    ensures size == 0 ==> w == Window(0, 0)
    ensures 0 <= startOffset <= endOffset < size ==> w == Window(startOffset, endOffset)
    ensures size >= 1 && startOffset <= 0 ==> w.lo == 0
    ensures 0 <= startOffset < size ==> w.lo == startOffset
    ensures size >= 1 && startOffset >= size - 1 ==> w.lo == size - 1
    ensures size >= 1 && endOffset <= w.lo ==> w.hi == w.lo
    ensures w.lo <= endOffset < size ==> w.hi == endOffset
    ensures size >= 1 && endOffset >= size - 1 ==> w.hi == size - 1
  {
    var lo := Max(0, Min(size - 1, startOffset));
    Window(lo, Max(lo, Min(size - 1, endOffset)))
  }

  function Min(a: int, b: int): int {
    if a <= b then a else b
  }

  function Max(a: int, b: int): int {
    if a <= b then b else a
  }

  /** Everything the walk depends on once the offsets are clamped. */
  datatype Plan = Plan(
    size: nat,
    lo: int,
    hi: int,
    chunk: int,
    methodName: string,
    pattern: seq<string>,
    corrupts: seq<bool>)

  function PlanOf(size: nat, req: Request, corrupts: seq<bool>): (p: Plan)
    ensures Clamp(size, req.startOffset, req.endOffset) == Window(p.lo, p.hi)
  {
    var w := Clamp(size, req.startOffset, req.endOffset);
    Plan(size, w.lo, w.hi, req.chunkSize, req.methodName, req.pattern, corrupts)
  }

  /** The number of strides `range(lo, hi + 1, chunk)` yields. */
  function StrideCount(p: Plan): nat
    requires p.chunk >= 1 && p.lo <= p.hi
  {
    StrideOf(p, p.hi) + 1
  }

  /** A plan the walk can run: a positive chunk size, a clamped window, and a
      decision for every stride. */
  predicate Walkable(p: Plan) {
    && p.chunk >= 1
    && 0 <= p.lo <= p.hi
    && (p.hi < p.size || p.hi == 0)
    && StrideCount(p) <= |p.corrupts|
  }

  /** The first offset of stride j: `range` adds the step j times. */
  function StrideStart(p: Plan, j: nat): int {
    if j == 0 then p.lo else StrideStart(p, j - 1) + p.chunk
  }

  /** The stride that offset o (at or after the window start) belongs to. */
  function StrideOf(p: Plan, o: int): nat
    requires p.chunk >= 1 && p.lo <= o
    decreases o - p.lo
  {
    if o < p.lo + p.chunk then 0 else StrideOf(p, o - p.chunk) + 1
  }

  /** The method name applied in the stride starting at s: the pattern,
      indexed by the stride's start offset, when it is non-empty, and the
      fixed method otherwise. For a positive divisor Dafny's `%` is Python's. */
  function RuleAt(p: Plan, s: int): string {
    if |p.pattern| > 0 then p.pattern[s % |p.pattern|] else p.methodName
  }

  /** Stride j is selected and its first byte cannot be corrupted: the read
      finds no byte, or the rule name is not one of the four. */
  predicate StrideFails(p: Plan, j: nat)
    requires Walkable(p) && j < StrideCount(p)
  {
    p.corrupts[j] && (StrideStart(p, j) >= p.size || !IsKnownName(RuleAt(p, StrideStart(p, j))))
  }

  /** The first failing stride at or after stride i, or the stride count
      when none fails. */
  function FirstFailure(p: Plan, i: nat): (k: nat)
    requires Walkable(p) && i <= StrideCount(p)
    ensures i <= k <= StrideCount(p)
    ensures forall j :: i <= j < k ==> !StrideFails(p, j)
    ensures k < StrideCount(p) ==> StrideFails(p, k)
    decreases StrideCount(p) - i
  {
    if i == StrideCount(p) then i
    else if StrideFails(p, i) then i
    else FirstFailure(p, i + 1)
  }

  /** The stride at which the walk stops. */
  ghost function Halt(p: Plan): nat
    requires Walkable(p)
  {
    FirstFailure(p, 0)
  }

  /** When no stride fails, the walk reaches the end of the window. */
  lemma HaltWhenNoneFails(p: Plan)
    requires Walkable(p)
    requires forall j :: 0 <= j < StrideCount(p) ==> !StrideFails(p, j)
    ensures Halt(p) == StrideCount(p)
  {
  }

  /** The error a run that stops at stride `Halt(p)` reports. */
  ghost function HaltError(p: Plan): RunError
    requires Walkable(p) && Halt(p) < StrideCount(p)
  {
    var s := StrideStart(p, Halt(p));
    if s >= p.size then EmptyRead else BadMethod(RuleAt(p, s))
  }

  /** Offset o lies in the window, in a selected stride before stride `bound`. */
  predicate InSelectedStride(p: Plan, o: int, bound: nat)
    requires p.chunk >= 1 && bound <= |p.corrupts|
  {
    p.lo <= o <= p.hi && StrideOf(p, o) < bound && p.corrupts[StrideOf(p, o)]
  }

  /** Offset o is rewritten by the run: an existing byte in a selected
      stride that the walk reaches before it stops. */
  ghost predicate Rewritten(p: Plan, o: int)
    requires Walkable(p)
  {
    0 <= o < p.size && InSelectedStride(p, o, Halt(p))
  }

  /** The inputs of a walk agree with its plan. */
  predicate Fits(p: Plan, rom: seq<int>, draws: seq<Draw>) {
    Walkable(p) && |rom| == p.size && |draws| == p.size && IsByteSeq(rom) && ValidDraws(draws)
  }

  /** The value written at a rewritten offset: its original byte corrupted
      by the rule of its stride, with the draw of that offset. */
  ghost function Rewrite(p: Plan, rom: seq<int>, draws: seq<Draw>, o: int): int
    requires Fits(p, rom, draws) && p.lo <= o < p.size
  {
    match CorruptByte(rom[o], RuleAt(p, StrideStart(p, StrideOf(p, o))), draws[o])
    case Corrupted(v) => v
    case UnknownMethod(_) => rom[o]
  }

  /** The entries the run logs for offsets in [first, past), in offset order. */
  ghost function Entries(p: Plan, rom: seq<int>, draws: seq<Draw>, first: int, past: int): seq<LogEntry>
    requires Fits(p, rom, draws)
    decreases past - first
  {
    if past <= first then []
    else
      Entries(p, rom, draws, first, past - 1)
      + (if Rewritten(p, past - 1) then [LogEntry(past - 1, Rewrite(p, rom, draws, past - 1))] else [])
  }

  /** Offsets that are not rewritten add nothing to the log. */
  lemma {:induction false} EntriesSkip(p: Plan, rom: seq<int>, draws: seq<Draw>, mid: int, past: int)
    requires Fits(p, rom, draws)
    requires p.lo <= mid <= past
    requires forall o :: mid <= o < past ==> !Rewritten(p, o)
    ensures Entries(p, rom, draws, p.lo, past) == Entries(p, rom, draws, p.lo, mid)
    decreases past - mid
  {
    if past > mid {
      EntriesSkip(p, rom, draws, mid, past - 1);
    }
  }

  /** What the source demands of a call, beyond what the model's random
      inputs need: byte values in the file, one decision per stride, one
      draw per offset. */
  predicate ValidInputs(rom: seq<int>, req: Request, ch: Choices) {
    && IsByteSeq(rom)
    && |ch.draws| == |rom|
    && ValidDraws(ch.draws)
    && (req.chunkSize >= 1 ==> StrideCount(PlanOf(|rom|, req, ch.corrupts)) <= |ch.corrupts|)
  }

  lemma PlanOfWalkable(rom: seq<int>, req: Request, ch: Choices)
    requires ValidInputs(rom, req, ch) && req.chunkSize >= 1
    ensures Fits(PlanOf(|rom|, req, ch.corrupts), rom, ch.draws)
  {
  }

  /** What `corrupt_nes_rom` leaves behind. A zero chunk size makes `range`
      raise before anything is written; a negative one makes the walk empty.
      Otherwise every byte is either its original value or, if rewritten,
      its corrupted value; the run completes exactly when no stride fails;
      and a completed run logs one entry per rewritten offset, in order. */
  ghost predicate RunSpec(rom: seq<int>, req: Request, ch: Choices, out: RunOutcome)
    requires ValidInputs(rom, req, ch)
  {
    if req.chunkSize == 0 then out == Aborted(rom, ZeroChunkSize)
    else if req.chunkSize < 0 then out == Completed(rom, [])
    else
      var p := PlanOf(|rom|, req, ch.corrupts);
      PlanOfWalkable(rom, req, ch);
      && |out.rom| == |rom|
      && (forall o :: 0 <= o < |rom| ==>
            out.rom[o] == (if Rewritten(p, o) then Rewrite(p, rom, ch.draws, o) else rom[o]))
      && (out.Completed? <==> Halt(p) == StrideCount(p))
      && (out.Aborted? ==> Halt(p) < StrideCount(p) && out.error == HaltError(p))
      && (out.Completed? ==>
            out.log == (if req.logging then Entries(p, rom, ch.draws, p.lo, p.hi + 1) else []))
  }

  /** A stride starts at least one chunk after the one before it. */
  lemma {:induction false} StrideStartGrows(p: Plan, i: nat, j: nat)
    requires p.chunk >= 1 && i < j
    ensures StrideStart(p, i) + p.chunk <= StrideStart(p, j)
    decreases j
  {
    if j > i + 1 {
      StrideStartGrows(p, i, j - 1);
    }
  }

  /** How offsets map to strides: offset o lies before stride j exactly when
      its stride index is below j, and in stride j exactly when it lies in
      [start of j, start of j + chunk). */
  lemma {:induction false} StrideOfBounds(p: Plan, o: int, j: nat)
    requires p.chunk >= 1 && p.lo <= o
    ensures StrideOf(p, o) < j <==> o < StrideStart(p, j)
    ensures StrideOf(p, o) == j <==> StrideStart(p, j) <= o < StrideStart(p, j) + p.chunk
    decreases o - p.lo
  {
    if o < p.lo + p.chunk {
      if j > 0 {
        StrideStartGrows(p, 0, j);
      }
    } else if j > 0 {
      StrideOfBounds(p, o - p.chunk, j - 1);
    }
  }

  /** Stride j exists exactly when its start is inside the window. */
  lemma StrideCountBounds(p: Plan, j: nat)
    requires p.chunk >= 1 && p.lo <= p.hi
    ensures p.lo <= StrideStart(p, j)
    ensures j < StrideCount(p) <==> StrideStart(p, j) <= p.hi
  {
    StrideOfBounds(p, p.hi, j);
    if j > 0 {
      StrideStartGrows(p, 0, j);
    }
  }
}
