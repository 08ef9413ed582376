/** Properties of a run of `corrupt_nes_rom`, stated over every outcome the
    walk's specification admits (and so over the outcome `CorruptNesRom`
    returns).
 */
module WalkProperties {
  import opened ByteRules
  import opened RomWalk

  /** The offsets a log names. */
  ghost function LoggedOffsets(log: seq<LogEntry>): set<int> {
    set i | 0 <= i < |log| :: log[i].offset
  }

  /** Clamping is idempotent: a clamped window is left as it is. */
  lemma ClampIdempotent(size: nat, startOffset: int, endOffset: int)
    ensures var w := Clamp(size, startOffset, endOffset);
      Clamp(size, w.lo, w.hi) == w
  {
  }

  /** A log names only rewritten offsets of [first, past), each with its
      written value. */
  ghost predicate LogWithin(p: Plan, rom: seq<int>, draws: seq<Draw>, first: int, past: int, log: seq<LogEntry>)
    requires Fits(p, rom, draws)
  {
    forall i :: 0 <= i < |log| ==>
      first <= log[i].offset < past && Rewritten(p, log[i].offset)
      && log[i].originalByte == Rewrite(p, rom, draws, log[i].offset)
  }

  /** A log's offsets strictly increase. */
  predicate LogIncreasing(log: seq<LogEntry>) {
    forall i, k :: 0 <= i < k < |log| ==> log[i].offset < log[k].offset
  }

  /** The log of offsets [first, past) names only rewritten offsets of that
      range, each with its written value. */
  lemma {:induction false} EntriesWithin(p: Plan, rom: seq<int>, draws: seq<Draw>, first: int, past: int)
    requires Fits(p, rom, draws)
    ensures LogWithin(p, rom, draws, first, past, Entries(p, rom, draws, first, past))
    decreases past - first
  {
    if past > first {
      var prev := Entries(p, rom, draws, first, past - 1);
      EntriesWithin(p, rom, draws, first, past - 1);
      if Rewritten(p, past - 1) {
        var log := prev + [LogEntry(past - 1, Rewrite(p, rom, draws, past - 1))];
        assert Entries(p, rom, draws, first, past) == log;
        assert forall i :: 0 <= i < |prev| ==> log[i] == prev[i];
      } else {
        assert Entries(p, rom, draws, first, past) == prev;
      }
    }
  }

  /** The log of offsets [first, past) lists its offsets in strictly
      increasing order. */
  lemma {:induction false} EntriesInOrder(p: Plan, rom: seq<int>, draws: seq<Draw>, first: int, past: int)
    requires Fits(p, rom, draws)
    ensures LogIncreasing(Entries(p, rom, draws, first, past))
    decreases past - first
  {
    if past > first {
      var prev := Entries(p, rom, draws, first, past - 1);
      EntriesInOrder(p, rom, draws, first, past - 1);
      EntriesWithin(p, rom, draws, first, past - 1);
      if Rewritten(p, past - 1) {
        var log := prev + [LogEntry(past - 1, Rewrite(p, rom, draws, past - 1))];
        assert Entries(p, rom, draws, first, past) == log;
        assert forall i :: 0 <= i < |prev| ==> log[i] == prev[i];
      } else {
        assert Entries(p, rom, draws, first, past) == prev;
      }
    }
  }

  /** The log of offsets [first, past) names every rewritten offset there. */
  lemma {:induction false} EntriesComplete(p: Plan, rom: seq<int>, draws: seq<Draw>, first: int, past: int)
    requires Fits(p, rom, draws)
    ensures LoggedOffsets(Entries(p, rom, draws, first, past))
            == set o | first <= o < past && Rewritten(p, o)
    decreases past - first
  {
    var log := Entries(p, rom, draws, first, past);
    if past <= first {
      assert LoggedOffsets(log) == {};
    } else {
      var prev := Entries(p, rom, draws, first, past - 1);
      EntriesComplete(p, rom, draws, first, past - 1);
      if Rewritten(p, past - 1) {
        assert log == prev + [LogEntry(past - 1, Rewrite(p, rom, draws, past - 1))];
        assert LoggedOffsets(log) == LoggedOffsets(prev) + {past - 1} by {
          forall x | x in LoggedOffsets(log) ensures x in LoggedOffsets(prev) + {past - 1} {
            var i :| 0 <= i < |log| && log[i].offset == x;
            if i < |prev| {
              assert prev[i].offset == x;
            }
          }
          forall x | x in LoggedOffsets(prev) ensures x in LoggedOffsets(log) {
            var i :| 0 <= i < |prev| && prev[i].offset == x;
            assert log[i].offset == x;
          }
          assert log[|prev|].offset == past - 1;
        }
      } else {
        assert log == prev;
      }
    }
  }

  /** When every offset of [first, past) is rewritten, the log has one entry
      per offset. */
  lemma {:induction false} EntriesCount(p: Plan, rom: seq<int>, draws: seq<Draw>, first: int, past: int)
    requires Fits(p, rom, draws) && first <= past
    requires forall o :: first <= o < past ==> Rewritten(p, o)
    ensures |Entries(p, rom, draws, first, past)| == past - first
    decreases past - first
  {
    if past > first {
      EntriesCount(p, rom, draws, first, past - 1);
    }
  }

  /** Frame: a byte differs from the original only when the chunk size is
      positive and the byte lies inside the clamped window, in a stride whose
      coin came up. */
  lemma ChangesOnlyInSelectedStrides(rom: seq<int>, req: Request, ch: Choices, out: RunOutcome, o: int)
    requires ValidInputs(rom, req, ch) && RunSpec(rom, req, ch, out)
    requires 0 <= o < |out.rom| && o < |rom| && out.rom[o] != rom[o]
    ensures req.chunkSize >= 1
    ensures var p := PlanOf(|rom|, req, ch.corrupts);
      p.lo <= o <= p.hi && StrideOf(p, o) < |ch.corrupts| && ch.corrupts[StrideOf(p, o)]
  {
  }

  /** With no coin coming up, the file is untouched and the log is empty.
      (A zero chunk size still fails, before the first coin.) */
  lemma NoCoinNoChange(rom: seq<int>, req: Request, ch: Choices, out: RunOutcome)
    requires ValidInputs(rom, req, ch) && RunSpec(rom, req, ch, out) && req.chunkSize != 0
    requires forall j :: 0 <= j < |ch.corrupts| ==> !ch.corrupts[j]
    ensures out == Completed(rom, [])
  {
    if req.chunkSize >= 1 {
      var p := PlanOf(|rom|, req, ch.corrupts);
      PlanOfWalkable(rom, req, ch);
      HaltWhenNoneFails(p);
      assert out.rom == rom;
      EntriesSkip(p, rom, ch.draws, p.lo, p.hi + 1);
    }
  }

  /** In pattern mode every rewritten byte is corrupted with the pattern
      entry at the start offset of its stride, modulo the pattern length
      (`StrideOfBounds` places offset o in stride `StrideOf(p, o)`). */
  lemma PatternRuleOfStrideStart(rom: seq<int>, req: Request, ch: Choices, out: RunOutcome, o: int)
    requires ValidInputs(rom, req, ch) && RunSpec(rom, req, ch, out) && req.chunkSize >= 1
    requires |req.pattern| > 0
    ensures var p := PlanOf(|rom|, req, ch.corrupts);
      0 <= o < |rom| && Rewritten(p, o) ==>
        CorruptByte(rom[o], req.pattern[StrideStart(p, StrideOf(p, o)) % |req.pattern|], ch.draws[o])
        == Corrupted(out.rom[o])
  {
    var p := PlanOf(|rom|, req, ch.corrupts);
    PlanOfWalkable(rom, req, ch);
    if 0 <= o < |rom| && Rewritten(p, o) {
      assert !StrideFails(p, StrideOf(p, o));
    }
  }

  /** Without a pattern every rewritten byte is corrupted with the fixed
      method. */
  lemma FixedMethodRule(rom: seq<int>, req: Request, ch: Choices, out: RunOutcome, o: int)
    requires ValidInputs(rom, req, ch) && RunSpec(rom, req, ch, out) && req.chunkSize >= 1
    requires |req.pattern| == 0
    ensures 0 <= o < |rom| && Rewritten(PlanOf(|rom|, req, ch.corrupts), o) ==>
      CorruptByte(rom[o], req.methodName, ch.draws[o]) == Corrupted(out.rom[o])
  {
    var p := PlanOf(|rom|, req, ch.corrupts);
    PlanOfWalkable(rom, req, ch);
    if 0 <= o < |rom| && Rewritten(p, o) {
      assert !StrideFails(p, StrideOf(p, o));
    }
  }

  /** Every byte of the stride starting at s is corrupted with the rule named
      at s: the pattern entry at s modulo the pattern length, or the fixed
      method when there is no pattern. */
  lemma StrideUsesRuleOfItsStart(rom: seq<int>, req: Request, ch: Choices, out: RunOutcome, j: nat, o: int)
    requires ValidInputs(rom, req, ch) && RunSpec(rom, req, ch, out) && req.chunkSize >= 1
    ensures var p := PlanOf(|rom|, req, ch.corrupts);
      var s := StrideStart(p, j);
      s <= o < s + req.chunkSize && 0 <= o < |rom| && Rewritten(p, o) ==>
        && (|req.pattern| > 0 ==>
              CorruptByte(rom[o], req.pattern[s % |req.pattern|], ch.draws[o]) == Corrupted(out.rom[o]))
        && (|req.pattern| == 0 ==>
              CorruptByte(rom[o], req.methodName, ch.draws[o]) == Corrupted(out.rom[o]))
  {
    var p := PlanOf(|rom|, req, ch.corrupts);
    PlanOfWalkable(rom, req, ch);
    var s := StrideStart(p, j);
    if s <= o < s + req.chunkSize && 0 <= o < |rom| && Rewritten(p, o) {
      StrideOfBounds(p, o, j);
      if |req.pattern| > 0 {
        PatternRuleOfStrideStart(rom, req, ch, out, o);
      } else {
        FixedMethodRule(rom, req, ch, out, o);
      }
    }
  }

  /** A run is a function of its inputs: the specification admits one
      outcome. */
  lemma RunDeterministic(rom: seq<int>, req: Request, ch: Choices, out1: RunOutcome, out2: RunOutcome)
    requires ValidInputs(rom, req, ch)
    requires RunSpec(rom, req, ch, out1) && RunSpec(rom, req, ch, out2)
    ensures out1 == out2
  {
    if req.chunkSize >= 1 {
      assert out1.rom == out2.rom;
    }
  }

  /** Two requests whose offsets clamp to the same window run identically. */
  lemma SameWindowSameRun(rom: seq<int>, req1: Request, req2: Request, ch: Choices, out1: RunOutcome, out2: RunOutcome)
    requires req2 == req1.(startOffset := req2.startOffset, endOffset := req2.endOffset)
    requires Clamp(|rom|, req1.startOffset, req1.endOffset) == Clamp(|rom|, req2.startOffset, req2.endOffset)
    requires ValidInputs(rom, req1, ch) && RunSpec(rom, req1, ch, out1)
    requires ValidInputs(rom, req2, ch) && RunSpec(rom, req2, ch, out2)
    ensures out1 == out2
  {
    assert PlanOf(|rom|, req1, ch.corrupts) == PlanOf(|rom|, req2, ch.corrupts);
    if req1.chunkSize >= 1 {
      assert out1.rom == out2.rom;
    }
  }

  /** On a 100-byte file, offsets -5 and 10_000_000 behave as 0 and 99. */
  lemma OutOfRangeOffsetsCoverWholeFile(rom: seq<int>, req: Request, ch: Choices, out1: RunOutcome, out2: RunOutcome)
    requires |rom| == 100
    requires ValidInputs(rom, req.(startOffset := -5, endOffset := 10_000_000), ch)
    requires RunSpec(rom, req.(startOffset := -5, endOffset := 10_000_000), ch, out1)
    requires ValidInputs(rom, req.(startOffset := 0, endOffset := 99), ch)
    requires RunSpec(rom, req.(startOffset := 0, endOffset := 99), ch, out2)
    ensures out1 == out2
  {
    SameWindowSameRun(rom, req.(startOffset := -5, endOffset := 10_000_000),
      req.(startOffset := 0, endOffset := 99), ch, out1, out2);
  }

  /** Every rule name the request can use is one of the four. */
  predicate RulesKnown(req: Request) {
    if |req.pattern| > 0 then forall k :: 0 <= k < |req.pattern| ==> IsKnownName(req.pattern[k])
    else IsKnownName(req.methodName)
  }

  /** With every coin up and every rule known, a run on a non-empty file
      completes, rewrites every byte of the clamped window exactly once, and
      logs one entry per byte. */
  lemma EveryByteRewritten(rom: seq<int>, req: Request, ch: Choices, out: RunOutcome)
    requires ValidInputs(rom, req, ch) && RunSpec(rom, req, ch, out)
    requires req.chunkSize >= 1 && |rom| >= 1 && RulesKnown(req)
    requires forall j :: 0 <= j < |ch.corrupts| ==> ch.corrupts[j]
    ensures out.Completed?
    ensures var p := PlanOf(|rom|, req, ch.corrupts);
      forall o :: p.lo <= o <= p.hi ==> Rewritten(p, o)
    ensures var w := Clamp(|rom|, req.startOffset, req.endOffset);
      req.logging ==> |out.log| == w.hi - w.lo + 1
  {
    var p := PlanOf(|rom|, req, ch.corrupts);
    PlanOfWalkable(rom, req, ch);
    forall j | 0 <= j < StrideCount(p)
      ensures !StrideFails(p, j)
    {
      StrideCountBounds(p, j);
    }
    HaltWhenNoneFails(p);
    forall o | p.lo <= o <= p.hi
      ensures Rewritten(p, o)
    {
      StrideOfBounds(p, o, StrideOf(p, o));
      StrideCountBounds(p, StrideOf(p, o));
    }
    if req.logging {
      EntriesCount(p, rom, ch.draws, p.lo, p.hi + 1);
    }
  }

  /** A completed, logged run lists its offsets in increasing order. */
  lemma LogIncreasingInRun(rom: seq<int>, req: Request, ch: Choices, out: RunOutcome)
    requires ValidInputs(rom, req, ch) && RunSpec(rom, req, ch, out)
    requires out.Completed? && req.logging && req.chunkSize >= 1
    ensures LogIncreasing(out.log)
  {
    var p := PlanOf(|rom|, req, ch.corrupts);
    PlanOfWalkable(rom, req, ch);
    EntriesInOrder(p, rom, ch.draws, p.lo, p.hi + 1);
  }

  /** Each entry of a completed, logged run holds the byte now in the file
      at its offset. */
  lemma LogValuesInFile(rom: seq<int>, req: Request, ch: Choices, out: RunOutcome)
    requires ValidInputs(rom, req, ch) && RunSpec(rom, req, ch, out)
    requires out.Completed? && req.logging && req.chunkSize >= 1
    ensures forall i :: 0 <= i < |out.log| ==>
      0 <= out.log[i].offset < |out.rom| && out.log[i].originalByte == out.rom[out.log[i].offset]
  {
    var p := PlanOf(|rom|, req, ch.corrupts);
    PlanOfWalkable(rom, req, ch);
    EntriesWithin(p, rom, ch.draws, p.lo, p.hi + 1);
  }

  /** A completed, logged run logs exactly the rewritten offsets. */
  lemma LogNamesRewritten(rom: seq<int>, req: Request, ch: Choices, out: RunOutcome)
    requires ValidInputs(rom, req, ch) && RunSpec(rom, req, ch, out)
    requires out.Completed? && req.logging && req.chunkSize >= 1
    ensures LoggedOffsets(out.log)
            == set o | 0 <= o < |rom| && Rewritten(PlanOf(|rom|, req, ch.corrupts), o)
  {
    var p := PlanOf(|rom|, req, ch.corrupts);
    PlanOfWalkable(rom, req, ch);
    EntriesComplete(p, rom, ch.draws, p.lo, p.hi + 1);
    assert (set o | p.lo <= o < p.hi + 1 && Rewritten(p, o)) == (set o | 0 <= o < |rom| && Rewritten(p, o));
  }

  /** A completed, logged run logs the rewritten offsets, each once, in
      increasing order, and each entry's `originalByte` is the byte now in
      the file at that offset. */
  lemma LogMatchesFile(rom: seq<int>, req: Request, ch: Choices, out: RunOutcome)
    requires ValidInputs(rom, req, ch) && RunSpec(rom, req, ch, out)
    requires out.Completed? && req.logging && req.chunkSize >= 1
    ensures LogIncreasing(out.log)
    ensures forall i :: 0 <= i < |out.log| ==>
      0 <= out.log[i].offset < |out.rom| && out.log[i].originalByte == out.rom[out.log[i].offset]
    ensures LoggedOffsets(out.log)
            == set o | 0 <= o < |rom| && Rewritten(PlanOf(|rom|, req, ch.corrupts), o)
  {
    LogIncreasingInRun(rom, req, ch, out);
    LogValuesInFile(rom, req, ch, out);
    LogNamesRewritten(rom, req, ch, out);
  }

  /** An empty file: the clamped window is offset 0, so the one stride's coin
      decides between an untouched completion and the failed read. */
  lemma EmptyFileRun(req: Request, ch: Choices, out: RunOutcome)
    requires ValidInputs([], req, ch) && RunSpec([], req, ch, out) && req.chunkSize >= 1
    ensures |ch.corrupts| >= 1
    ensures out == (if ch.corrupts[0] then Aborted([], EmptyRead) else Completed([], []))
  {
    var p := PlanOf(0, req, ch.corrupts);
    PlanOfWalkable([], req, ch);
    assert StrideCount(p) == 1;
    if !ch.corrupts[0] {
      assert Halt(p) == 1 by {
        assert !StrideFails(p, 0);
      }
    }
  }

  /** On a non-empty file, an unknown fixed method fails the run exactly
      when some coin comes up, before any byte is written. */
  lemma UnknownMethodFailsOnlyWhenUsed(rom: seq<int>, req: Request, ch: Choices, out: RunOutcome)
    requires ValidInputs(rom, req, ch) && RunSpec(rom, req, ch, out)
    requires req.chunkSize >= 1 && |rom| >= 1 && |req.pattern| == 0 && !IsKnownName(req.methodName)
    ensures out.rom == rom
    ensures out.Aborted? <==>
      exists j :: 0 <= j < StrideCount(PlanOf(|rom|, req, ch.corrupts)) && ch.corrupts[j]
    ensures out.Aborted? ==> out.error == BadMethod(req.methodName)
  {
    var p := PlanOf(|rom|, req, ch.corrupts);
    PlanOfWalkable(rom, req, ch);
    forall o | 0 <= o < |rom|
      ensures !Rewritten(p, o)
    {
      if p.lo <= o && StrideOf(p, o) < Halt(p) {
        assert !StrideFails(p, StrideOf(p, o));
      }
    }
    assert out.rom == rom;
    if out.Aborted? {
      assert StrideFails(p, Halt(p));
      StrideCountBounds(p, Halt(p));
    }
    if exists j :: 0 <= j < StrideCount(p) && ch.corrupts[j] {
      var j :| 0 <= j < StrideCount(p) && ch.corrupts[j];
      assert StrideFails(p, j);
    }
  }

  /** Every byte a run leaves in the file is still a byte. */
  lemma RunKeepsBytes(rom: seq<int>, req: Request, ch: Choices, out: RunOutcome)
    requires ValidInputs(rom, req, ch) && RunSpec(rom, req, ch, out)
    ensures |out.rom| == |rom| && IsByteSeq(out.rom)
  {
    if req.chunkSize >= 1 {
      var p := PlanOf(|rom|, req, ch.corrupts);
      PlanOfWalkable(rom, req, ch);
      forall o | 0 <= o < |rom|
        ensures IsByte(out.rom[o])
      {
        if Rewritten(p, o) {
          assert !StrideFails(p, StrideOf(p, o));
        }
      }
    }
  }

  /** The pattern is indexed by the stride's start, not by the byte's own
      offset: with strides of two starting at 0 and 2, both pick
      `increment` from an `increment`/`decrement` pattern, so every byte of
      a zeroed four-byte file becomes 1 (indexing by byte offset would give
      1, 255, 1, 255). */
  lemma PatternIndexedByStrideStart(out: RunOutcome)
    requires var req := Request(0, 3, "flip_bit", ["increment", "decrement"], 2, true);
      var ch := Choices([true, true], [Draw(0, 0), Draw(0, 0), Draw(0, 0), Draw(0, 0)]);
      ValidInputs([0, 0, 0, 0], req, ch) && RunSpec([0, 0, 0, 0], req, ch, out)
    ensures out == Completed([1, 1, 1, 1], [LogEntry(0, 1), LogEntry(1, 1), LogEntry(2, 1), LogEntry(3, 1)])
  {
    var req := Request(0, 3, "flip_bit", ["increment", "decrement"], 2, true);
    var ch := Choices([true, true], [Draw(0, 0), Draw(0, 0), Draw(0, 0), Draw(0, 0)]);
    var p := PlanOf(4, req, ch.corrupts);
    assert p.lo == 0 && p.hi == 3;
    assert StrideOf(p, 3) == 1;
    assert StrideStart(p, 1) == 2;
    assert !StrideFails(p, 0) && !StrideFails(p, 1);
    assert Halt(p) == 2;
    assert out.rom == [1, 1, 1, 1];
  }

  /** With every coin up and the fixed method `increment`, a run on a
      non-empty file completes and increments every byte of the clamped
      window, wrapping 255 to 0. */
  lemma IncrementEverywhere(rom: seq<int>, req: Request, ch: Choices, out: RunOutcome)
    requires ValidInputs(rom, req, ch) && RunSpec(rom, req, ch, out)
    requires req.chunkSize >= 1 && |rom| >= 1 && req.pattern == [] && req.methodName == "increment"
    requires forall j :: 0 <= j < |ch.corrupts| ==> ch.corrupts[j]
    ensures out.Completed?
    ensures forall o :: Clamp(|rom|, req.startOffset, req.endOffset).lo <= o
                         <= Clamp(|rom|, req.startOffset, req.endOffset).hi ==>
      out.rom[o] == (if rom[o] == 255 then 0 else rom[o] + 1)
    ensures req.logging ==> |out.log| == Clamp(|rom|, req.startOffset, req.endOffset).hi
                                         - Clamp(|rom|, req.startOffset, req.endOffset).lo + 1
  {
    EveryByteRewritten(rom, req, ch, out);
  }
}
