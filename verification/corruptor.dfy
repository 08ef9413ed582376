/** The loop of `corrupt_nes_rom`: clamp the offsets, walk the strides, and
    rewrite and log every byte of each selected stride.

    Reading and writing the file becomes indexing and updating a sequence;
    the per-stride coin and the per-byte draws come in as `Choices`.
 */
module Corruptor {
  import opened ByteRules
  import opened RomWalk

  /** The file once the walk has handled the strides before stride j. */
  ghost predicate StoreAfter(p: Plan, rom: seq<int>, draws: seq<Draw>, store: seq<int>, j: nat)
    requires Fits(p, rom, draws) && j <= |p.corrupts|
  {
    && |store| == |rom|
    && forall o :: 0 <= o < |rom| ==>
         store[o] == (if InSelectedStride(p, o, j) then Rewrite(p, rom, draws, o) else rom[o])
  }

  /** The file once the walk has handled the strides before stride j and
      the offsets of stride j before `past`. */
  ghost predicate StoreWithin(p: Plan, rom: seq<int>, draws: seq<Draw>, store: seq<int>, j: nat, past: int)
    requires Fits(p, rom, draws) && j <= |p.corrupts|
  {
    && |store| == |rom|
    && forall o :: 0 <= o < |rom| ==>
         store[o] == (if InSelectedStride(p, o, j) || p.lo <= StrideStart(p, j) <= o < past
                      then Rewrite(p, rom, draws, o) else rom[o])
  }

  /** The log once the walk has handled the offsets before `past`. */
  ghost function LogUpTo(p: Plan, rom: seq<int>, draws: seq<Draw>, logging: bool, past: int): seq<LogEntry>
    requires Fits(p, rom, draws)
  {
    if logging then Entries(p, rom, draws, p.lo, past) else []
  }

  /** One pass of the inner loop: read offset o of selected stride j,
      corrupt it with the stride's rule, write it back and log it, or stop
      when the read finds no byte or the rule name is unknown. Only the
      stride's first offset can stop the run. */
  method CorruptOffset(
    p: Plan, rom: seq<int>, draws: seq<Draw>, logging: bool,
    j: nat, o: int, store0: seq<int>, log0: seq<LogEntry>)
    returns (store: seq<int>, log: seq<LogEntry>, failure: Option<RunError>)
    requires Fits(p, rom, draws)
    requires j < StrideCount(p) && j <= Halt(p) && p.corrupts[j]
    requires p.lo <= StrideStart(p, j) <= o < StrideStart(p, j) + p.chunk && o <= p.hi
    requires o > StrideStart(p, j) ==> j < Halt(p)
    requires StoreWithin(p, rom, draws, store0, j, o)
    requires log0 == LogUpTo(p, rom, draws, logging, o)
    ensures failure.Some? <==> Halt(p) == j
    ensures failure.Some? ==>
      o == StrideStart(p, j) && Halt(p) < StrideCount(p) && failure.value == HaltError(p)
      && store == store0
    ensures failure.None? ==> j < Halt(p)
    ensures failure.None? ==> StoreWithin(p, rom, draws, store, j, o + 1)
    ensures failure.None? ==> log == LogUpTo(p, rom, draws, logging, o + 1)
  {
    var offset := StrideStart(p, j);
    assert !StrideFails(p, j) <==> j < Halt(p);
    store, log := store0, log0;
    if o >= |store| {
      // `ord` of the empty read at the end of the file
      failure := Some(EmptyRead);
      return;
    }
    // the rule `RuleAt(p, offset)`: the pattern entry at the stride's start
    var name := if |p.pattern| > 0 then p.pattern[offset % |p.pattern|] else p.methodName;
    assert name == RuleAt(p, offset);
    var r := CorruptByte(store[o], name, draws[o]);
    if r.UnknownMethod? {
      failure := Some(BadMethod(r.name));
      return;
    }
    failure := None;
    WriteStep(p, rom, draws, j, o);
    StoreStep(p, rom, draws, store, j, o);
    store := store[o := r.value];
    if logging {
      log := log + [LogEntry(o, r.value)];
    }
  }

  /** The inner loop for one selected stride: rewrite its bytes up to the
      end of the window, or stop at its first byte when that byte cannot be
      read or its rule name is unknown. */
  method CorruptStride(
    p: Plan, rom: seq<int>, draws: seq<Draw>, logging: bool,
    j: nat, store0: seq<int>, log0: seq<LogEntry>)
    returns (store: seq<int>, log: seq<LogEntry>, failure: Option<RunError>)
    requires Fits(p, rom, draws)
    requires j < StrideCount(p) && j <= Halt(p) && p.corrupts[j]
    requires StoreAfter(p, rom, draws, store0, j)
    requires log0 == LogUpTo(p, rom, draws, logging, StrideStart(p, j))
    ensures failure.Some? <==> Halt(p) == j
    ensures failure.Some? ==> Halt(p) < StrideCount(p) && failure.value == HaltError(p) && store == store0
    ensures failure.None? ==> StoreAfter(p, rom, draws, store, j + 1)
    ensures failure.None? ==>
      log == LogUpTo(p, rom, draws, logging, Min(StrideStart(p, j + 1), p.hi + 1))
  {
    var offset := StrideStart(p, j);
    StrideCountBounds(p, j);
    store, log := store0, log0;
    var i := 0;
    assert StoreWithin(p, rom, draws, store, j, offset);
    while i < p.chunk
      invariant 0 <= i <= p.chunk
      invariant offset + i <= p.hi + 1
      invariant i > 0 ==> j < Halt(p)
      invariant i == 0 ==> store == store0
      invariant StoreWithin(p, rom, draws, store, j, offset + i)
      invariant log == LogUpTo(p, rom, draws, logging, offset + i)
    {
      if offset + i > p.hi {
        break;
      }
      var f;
      store, log, f := CorruptOffset(p, rom, draws, logging, j, offset + i, store, log);
      if f.Some? {
        failure := f;
        return;
      }
      i := i + 1;
    }
    failure := None;
    assert i > 0;
    FinishStride(p, rom, draws, store, j, offset + i);
  }

  method CorruptNesRom(rom: seq<int>, req: Request, ch: Choices) returns (out: RunOutcome)
    requires ValidInputs(rom, req, ch)
    ensures RunSpec(rom, req, ch, out)
  {
    if req.chunkSize == 0 {
      return Aborted(rom, ZeroChunkSize);
    }
    if req.chunkSize < 0 {
      return Completed(rom, []);
    }
    var p := PlanOf(|rom|, req, ch.corrupts);
    PlanOfWalkable(rom, req, ch);
    var store := rom;
    var log: seq<LogEntry> := [];
    var offset := p.lo;
    var j := 0;
    while offset <= p.hi
      invariant 0 <= j <= StrideCount(p)
      invariant offset == StrideStart(p, j)
      invariant j < StrideCount(p) <==> offset <= p.hi
      invariant j <= Halt(p)
      invariant StoreAfter(p, rom, ch.draws, store, j)
      invariant log == LogUpTo(p, rom, ch.draws, req.logging, Min(offset, p.hi + 1))
      decreases StrideCount(p) - j
    {
      if ch.corrupts[j] {
        var failure;
        store, log, failure := CorruptStride(p, rom, ch.draws, req.logging, j, store, log);
        if failure.Some? {
          StopAt(p, rom, ch.draws, store, j);
          return Aborted(store, failure.value);
        }
      } else {
        SkipStride(p, rom, ch.draws, store, req.logging, j);
      }
      offset := offset + req.chunkSize;
      j := j + 1;
      StrideCountBounds(p, j);
    }
    StopAt(p, rom, ch.draws, store, j);
    return Completed(store, log);
  }

  /** Writing offset o in selected stride j stores its rewritten value and
      adds one log entry. */
  lemma {:induction false} WriteStep(p: Plan, rom: seq<int>, draws: seq<Draw>, j: nat, o: int)
    requires Fits(p, rom, draws)
    requires j < Halt(p) && p.corrupts[j] && IsKnownName(RuleAt(p, StrideStart(p, j)))
    requires p.lo <= StrideStart(p, j) <= o < StrideStart(p, j) + p.chunk && o <= p.hi && o < p.size
    ensures StrideOf(p, o) == j && !InSelectedStride(p, o, j)
    ensures Rewritten(p, o)
    ensures Rewrite(p, rom, draws, o)
            == CorruptByte(rom[o], RuleAt(p, StrideStart(p, j)), draws[o]).value
    ensures Entries(p, rom, draws, p.lo, o + 1)
            == Entries(p, rom, draws, p.lo, o) + [LogEntry(o, Rewrite(p, rom, draws, o))]
  {
    StrideOfBounds(p, o, j);
  }

  /** Writing the rewritten value at offset o extends the handled part of
      stride j by one offset. */
  lemma StoreStep(p: Plan, rom: seq<int>, draws: seq<Draw>, store: seq<int>, j: nat, o: int)
    requires Fits(p, rom, draws) && j < |p.corrupts|
    requires p.lo <= StrideStart(p, j) <= o < p.size
    requires StoreWithin(p, rom, draws, store, j, o)
    ensures StoreWithin(p, rom, draws, store[o := Rewrite(p, rom, draws, o)], j, o + 1)
  {
  }

  /** After the inner loop has reached the end of stride j, or of the window,
      the stride counts as handled. */
  lemma FinishStride(p: Plan, rom: seq<int>, draws: seq<Draw>, store: seq<int>, j: nat, past: int)
    requires Fits(p, rom, draws)
    requires j < StrideCount(p) && p.corrupts[j]
    requires p.lo <= StrideStart(p, j) < past <= StrideStart(p, j) + p.chunk && past <= p.hi + 1
    requires past == StrideStart(p, j) + p.chunk || past == p.hi + 1
    requires StoreWithin(p, rom, draws, store, j, past)
    ensures past == Min(StrideStart(p, j + 1), p.hi + 1)
    ensures StoreAfter(p, rom, draws, store, j + 1)
  {
    StrideCountBounds(p, j);
    forall o | 0 <= o < |rom|
      ensures store[o] == (if InSelectedStride(p, o, j + 1) then Rewrite(p, rom, draws, o) else rom[o])
    {
      if p.lo <= o {
        StrideOfBounds(p, o, j);
      }
    }
  }

  /** An unselected stride changes nothing and logs nothing. */
  lemma SkipStride(p: Plan, rom: seq<int>, draws: seq<Draw>, store: seq<int>, logging: bool, j: nat)
    requires Fits(p, rom, draws)
    requires j < StrideCount(p) && j <= Halt(p) && !p.corrupts[j]
    requires StoreAfter(p, rom, draws, store, j)
    ensures j < Halt(p)
    ensures StoreAfter(p, rom, draws, store, j + 1)
    ensures LogUpTo(p, rom, draws, logging, Min(StrideStart(p, j + 1), p.hi + 1))
            == LogUpTo(p, rom, draws, logging, StrideStart(p, j))
  {
    StrideCountBounds(p, j);
    forall o | 0 <= o < |rom|
      ensures InSelectedStride(p, o, j + 1) <==> InSelectedStride(p, o, j)
    {
      if p.lo <= o {
        StrideOfBounds(p, o, j);
      }
    }
    var past := Min(StrideStart(p, j + 1), p.hi + 1);
    forall o | StrideStart(p, j) <= o < past
      ensures !Rewritten(p, o)
    {
      StrideOfBounds(p, o, j);
    }
    EntriesSkip(p, rom, draws, StrideStart(p, j), past);
  }

  /** When the walk stops before stride j, the strides it has handled are
      exactly the rewritten ones. */
  lemma StopAt(p: Plan, rom: seq<int>, draws: seq<Draw>, store: seq<int>, j: nat)
    requires Fits(p, rom, draws)
    requires j == Halt(p)
    requires StoreAfter(p, rom, draws, store, j)
    ensures forall o :: 0 <= o < |rom| ==>
      store[o] == (if Rewritten(p, o) then Rewrite(p, rom, draws, o) else rom[o])
  {
  }
}
