/** The early release of the memory message: the state it leaves, and when the message
    overflows because of it. */
module ReleaseCondition {
  import opened Wrappers
  import opened Layout
  import opened Packing
  import opened GaplessChunks

  // ---------------------------------------------------------------- the state after the release

  /** The state right after the memory message has been dropped while a rejected chunk waited,
      if that happens in this pass. */
  function ReleasedIn(p: Packing, word: nat, noVariable: bool): (r: Option<Packing>)
    requires Sound(p)
    ensures r.Some? ==> Sound(r.value) && r.value.queue == []
    decreases |p.queue|
  {
    if p.queue == [] then None
    else
      StepSizes(p, word, noVariable);
      if CleanStep(p, noVariable) then ReleasedIn(Step(p, word, noVariable), word, noVariable)
      else Some(Step(p, word, noVariable))
  }

  /** The same for the whole run; the chunks that wait are in the queue again. */
  function Released(p: Packing, word: nat, noVariable: bool): (r: Option<Packing>)
    requires Sound(p) && p.processed == []
    ensures r.Some? ==> Sound(r.value) && r.value.processed == []
    decreases |p.queue|
  {
    var first := p.(progress := false);
    match ReleasedIn(first, word, noVariable)
    case Some(q) => Some(Refill(q))
    case None =>
      var r := Pass(first, word, noVariable);
      if r.progress then Released(Refill(r), word, noVariable) else None
  }

  /** A pass with such a release ends with it. */
  lemma {:induction false} ReleasedInPass(p: Packing, word: nat, noVariable: bool)
    requires Sound(p)
    ensures ReleasedIn(p, word, noVariable).None? <==> CleanPass(p, word, noVariable)
    ensures ReleasedIn(p, word, noVariable).Some? ==>
              var q := ReleasedIn(p, word, noVariable).value;
              q == Pass(p, word, noVariable) && q.progress && p.needMemoryMessage && |q.reg| > |p.reg|
    decreases |p.queue|
  {
    hide Accepts, Step, Sound;
    if p.queue != [] {
      StepSizes(p, word, noVariable);
      StepNeed(p, word, noVariable);
      ReleasedInPass(Step(p, word, noVariable), word, noVariable);
    }
  }

  lemma StepNeed(p: Packing, word: nat, noVariable: bool)
    requires Sound(p) && p.queue != []
    ensures var q := Step(p, word, noVariable);
            (q.needMemoryMessage ==> p.needMemoryMessage && q.maxBytes == p.maxBytes)
            && (p.needMemoryMessage && !q.needMemoryMessage ==> q.queue == [])
            && (!CleanStep(p, noVariable) ==>
                  p.needMemoryMessage && !q.needMemoryMessage && Accepts(p) && q.queue == [])
  {
    hide LayoutEnd, Laid, Keys, Placeable;
  }

  /** The run after the release is that of the state it leaves. */
  lemma {:induction false} ReleasedInRun(p: Packing, word: nat, noVariable: bool, reg: seq<Chunk>, mem: seq<Chunk>,
                                         words: int)
    requires Invariant(p, reg, mem, word, words) && p.processed == []
    ensures Released(p, word, noVariable).None? <==> CleanRun(p, word, noVariable)
    ensures Released(p, word, noVariable).Some? ==>
              var r := Released(p, word, noVariable).value;
              Invariant(r, reg, mem, word, words) && Pack(p, word, noVariable) == Pack(r, word, noVariable)
              && p.needMemoryMessage && !r.needMemoryMessage && |r.reg| > |reg|
    decreases |p.queue|
  {
    hide Pass, CleanPass, ReleasedIn, Invariant;
    var first := p.(progress := false);
    InvariantPinned(p, reg, mem, word, words);
    ReleasedInPass(first, word, noVariable);
    RefillInvariant(p, reg, mem, word, words);
    PassInvariant(first, reg, mem, word, noVariable, words);
    var r := Pass(first, word, noVariable);
    RefillInvariant(r, reg, mem, word, words);
    if ReleasedIn(first, word, noVariable).None? {
      if r.progress {
        ReleasedInRun(Refill(r), word, noVariable, reg, mem, words);
        if !first.needMemoryMessage {
          PassNeverRestores(first, word, noVariable);
        }
      }
    } else {
      NoLongerNeeded(first, word, noVariable);
    }
  }

  lemma InvariantPinned(p: Packing, reg: seq<Chunk>, mem: seq<Chunk>, word: nat, words: int)
    requires Invariant(p, reg, mem, word, words)
    ensures Sound(p) && Sound(p.(progress := false)) && |p.reg| >= |reg|
  {
  }

  lemma {:induction false} NoLongerNeeded(p: Packing, word: nat, noVariable: bool)
    requires Sound(p) && ReleasedIn(p, word, noVariable).Some?
    ensures !ReleasedIn(p, word, noVariable).value.needMemoryMessage
    decreases |p.queue|
  {
    hide Accepts, Step, Sound, CleanStep;
    StepSizes(p, word, noVariable);
    StepNeed(p, word, noVariable);
    if CleanStep(p, noVariable) {
      NoLongerNeeded(Step(p, word, noVariable), word, noVariable);
    }
  }

  // ---------------------------------------------------------------- chunks without gaps

  /** What was rejected would still exceed the capacity before the release. */
  lemma {:induction false} RejectedBeforeRelease(p: Packing, pinned: nat, word: nat, noVariable: bool, words: int)
    requires Budget(p, pinned, word, words) && Gapless(p, word)
    requires ReleasedIn(p, word, noVariable).Some?
    requires forall c :: c in p.processed ==> Total(p.reg) + c.size > p.maxBytes
    ensures var q := ReleasedIn(p, word, noVariable).value;
            Gapless(q, word) && Total(q.reg) <= p.maxBytes
            && forall c :: c in q.processed ==> Total(q.reg) + c.size > p.maxBytes
    decreases |p.queue|
  {
    hide Step, Accepts, Budget, CleanStep, Sound, Gapless;
    BudgetSound(p, pinned, word, words);
    var q := Step(p, word, noVariable);
    StepTotals(p, word, noVariable);
    StepSizes(p, word, noVariable);
    StepBudget(p, word, noVariable, pinned, words);
    StepNeed(p, word, noVariable);
    AcceptsByTotal(p, pinned, word, words);
    FirstNotNegative(p);
    if CleanStep(p, noVariable) {
      ReleasedInPass(q, word, noVariable);
      RejectedBeforeRelease(q, pinned, word, noVariable, words);
    }
  }

  lemma BudgetSound(p: Packing, pinned: nat, word: nat, words: int)
    requires Budget(p, pinned, word, words)
    ensures Sound(p)
  {
  }

  lemma FirstNotNegative(p: Packing)
    requires Sound(p)
    ensures p.queue != [] ==> p.queue[0].size >= 0
  {
    assert p.queue != [] ==> p.queue[0] in p.queue;
  }

  /** A pass keeps the sum of the sizes, takes all chunks if together they fit, and where it
      accepts one of chunks that each exceed a limit, it exceeds the limit. */
  lemma {:induction false} PassByTotal(p: Packing, pinned: nat, word: nat, noVariable: bool, words: int, limit: int)
    requires Budget(p, pinned, word, words) && Gapless(p, word) && !p.needMemoryMessage
    requires forall c :: c in p.queue ==> Total(p.reg) + c.size > limit
    ensures var q := Pass(p, word, noVariable);
            Gapless(q, word) && Everything(q) == Everything(p) && Total(q.reg) >= Total(p.reg)
            && (|q.reg| > |p.reg| ==> Total(q.reg) > limit)
            && (p.processed == [] && Total(p.reg) + Total(p.queue) <= p.maxBytes ==> q.processed == [])
    decreases |p.queue|
  {
    hide Step, Accepts, Budget, Sound, Gapless;
    if p.queue != [] {
      BudgetSound(p, pinned, word, words);
      var q := Step(p, word, noVariable);
      StepTotals(p, word, noVariable);
      StepSizes(p, word, noVariable);
      StepBudget(p, word, noVariable, pinned, words);
      StepCapacity(p, word, noVariable);
      AcceptsByTotal(p, pinned, word, words);
      FirstNotNegative(p);
      QueueNotNegative(q);
      PassByTotal(q, pinned, word, noVariable, words, limit);
    }
  }

  lemma StepCapacity(p: Packing, word: nat, noVariable: bool)
    requires Sound(p) && p.queue != [] && !p.needMemoryMessage
    ensures var q := Step(p, word, noVariable); !q.needMemoryMessage && q.maxBytes == p.maxBytes
  {
    hide LayoutEnd, Laid, Keys, Placeable;
  }

  lemma QueueNotNegative(p: Packing)
    requires Sound(p)
    ensures Total(p.queue) >= 0
  {
    TotalNotNegative(p.queue);
  }

  lemma BudgetRestart(p: Packing, pinned: nat, word: nat, words: int)
    requires Budget(p, pinned, word, words)
    ensures Budget(p.(progress := false), pinned, word, words)
    ensures p.queue == [] ==> Budget(Refill(p), pinned, word, words)
  {
  }

  /** The same for a run after the release. */
  lemma {:induction false} PackByTotal(p: Packing, pinned: nat, word: nat, noVariable: bool, words: int, limit: int)
    requires Budget(p, pinned, word, words) && Gapless(p, word) && !p.needMemoryMessage && p.processed == []
    requires forall c :: c in p.queue ==> Total(p.reg) + c.size > limit
    ensures var q := Pack(p, word, noVariable);
            Gapless(q, word) && !q.needMemoryMessage && Everything(q) == Everything(p)
            && Total(q.reg) >= Total(p.reg) && (|q.reg| > |p.reg| ==> Total(q.reg) > limit)
            && (Total(p.reg) + Total(p.queue) <= p.maxBytes ==> q.queue == [])
    decreases |p.queue|
  {
    hide Pass, Budget, Sound, Suits;
    var first := p.(progress := false);
    BudgetSound(p, pinned, word, words);
    BudgetRestart(p, pinned, word, words);
    BudgetSound(first, pinned, word, words);
    PassByTotal(first, pinned, word, noVariable, words, limit);
    var r := Pass(first, word, noVariable);
    PassKeepsBudget(first, pinned, word, noVariable, words);
    BudgetRestart(r, pinned, word, words);
    BudgetSound(Refill(r), pinned, word, words);
    SizesNotNegative(Refill(r));
    RefillGapless(p, word);
    RefillGapless(r, word);
    if r.progress {
      PackByTotal(Refill(r), pinned, word, noVariable, words, limit);
      EmptyNeedsNone(Refill(r), word, noVariable);
    }
  }

  lemma SizesNotNegative(p: Packing)
    requires Sound(p)
    ensures forall c :: c in p.queue ==> c.size >= 0
  {
  }

  lemma {:induction false} PassKeepsBudget(p: Packing, pinned: nat, word: nat, noVariable: bool, words: int)
    requires Budget(p, pinned, word, words)
    ensures Budget(Pass(p, word, noVariable), pinned, word, words)
    ensures Sound(p) && (!p.needMemoryMessage ==> !Pass(p, word, noVariable).needMemoryMessage)
    decreases |p.queue|
  {
    hide Step, Sound, Budget;
    BudgetSound(p, pinned, word, words);
    if p.queue != [] {
      StepSizes(p, word, noVariable);
      StepBudget(p, word, noVariable, pinned, words);
      StepNeed(p, word, noVariable);
      PassKeepsBudget(Step(p, word, noVariable), pinned, word, noVariable, words);
    }
  }

  /** The run from the early release on, for chunks that leave no gaps: a chunk stays in memory
      exactly if they do not fit together, and the packing goes beyond the capacity before the
      release exactly if one of them fits. */
  lemma AfterRelease(r: Packing, pinned: nat, reg: seq<Chunk>, mem: seq<Chunk>, word: nat, noVariable: bool, words: int)
    requires Invariant(r, reg, mem, word, words) && Gapless(r, word) && word > 0
    requires !r.needMemoryMessage && r.processed == [] && |r.reg| > |reg|
    requires Total(r.reg) <= r.maxBytes - 2 * word
    requires forall c :: c in r.queue ==> Total(r.reg) + c.size > r.maxBytes - 2 * word
    ensures Sound(r) && r.remaining == r.maxBytes - Total(r.reg)
    ensures var q := Pack(r, word, noVariable);
            (q.queue != [] <==> Total(r.queue) > r.remaining)
            && (LayoutEnd(q.reg, 0) > r.maxBytes - 2 * word <==> exists c :: c in r.queue && c.size <= r.remaining)
  {
    hide Pack, LayoutEnd, InOrder, AllStuck, Sound, Suits;
    var q := Pack(r, word, noVariable);
    PackResult(r, reg, mem, word, noVariable, words);
    PackByTotal(r, |reg|, word, noVariable, words, r.maxBytes - 2 * word);
    GaplessEnd(r, word);
    GaplessEnd(q, word);
    PackAcceptsNone(r, word, noVariable);
    StuckByTotal(r, word);
    if |q.reg| == |r.reg| {
      ShapeKeys(q.reg, r.reg);
      TotalOfKeys(r.reg, q.reg);
    }
  }

  lemma StuckByTotal(p: Packing, word: nat)
    requires Sound(p) && Gapless(p, word) && p.remaining == p.maxBytes - Total(p.reg)
    ensures AllStuck(p, p.queue) <==> forall c :: c in p.queue ==> c.size > p.remaining
  {
    hide TrialEnd;
    forall c | c in p.queue
      ensures c.size >= 0 && c.alignment > 0 && (Stuck(p, c) <==> c.size > p.remaining)
    {
      TrialTotal(p.reg, c, p.queue + p.processed, word);
    }
  }

  /** What is known of the state right after the release. */
  lemma {:induction false} ReleasedState(p: Packing, reg: seq<Chunk>, mem: seq<Chunk>, word: nat, noVariable: bool,
                                         words: int)
    requires Invariant(p, reg, mem, word, words) && p.processed == [] && Gapless(p, word)
    requires Released(p, word, noVariable).Some?
    ensures var r := Released(p, word, noVariable).value;
            Gapless(r, word) && r.maxBytes == p.maxBytes + 2 * word && Total(r.reg) <= p.maxBytes
            && forall c :: c in r.queue ==> Total(r.reg) + c.size > p.maxBytes
    decreases |p.queue|
  {
    hide Pass, Step, ReleasedIn, InOrder, LayoutEnd, Sound, Suits, CleanPass;
    var first := p.(progress := false);
    InvariantPinned(p, reg, mem, word, words);
    ReleasedInPass(first, word, noVariable);
    ReleasedInRun(p, word, noVariable, reg, mem, words);
    assert p.maxBytes + 2 * word == word * words;
    if ReleasedIn(first, word, noVariable).Some? {
      RefillGapless(p, word);
      RejectedBeforeRelease(first, |reg|, word, noVariable, words);
      RefillGapless(ReleasedIn(first, word, noVariable).value, word);
    } else {
      var r := Pass(first, word, noVariable);
      RefillInvariant(p, reg, mem, word, words);
      PassInvariant(first, reg, mem, word, noVariable, words);
      RefillInvariant(r, reg, mem, word, words);
      RefillGapless(p, word);
      PassKeepsGapless(first, word, noVariable);
      RefillGapless(r, word);
      if !r.needMemoryMessage {
        NotReleasedAgain(Refill(r), reg, mem, word, noVariable, words);
      }
      ReleasedState(Refill(r), reg, mem, word, noVariable, words);
    }
  }

  lemma NotReleasedAgain(p: Packing, reg: seq<Chunk>, mem: seq<Chunk>, word: nat, noVariable: bool, words: int)
    requires Invariant(p, reg, mem, word, words) && p.processed == [] && !p.needMemoryMessage
    ensures Released(p, word, noVariable).None?
  {
    ReleasedInRun(p, word, noVariable, reg, mem, words);
  }

  /** With chunks that leave no gaps the message overflows exactly if the memory message is
      dropped while rejected chunks wait, one of these fits the bytes that remain then, and
      all of them together do not. */
  lemma OverflowAtRelease(reg: seq<Chunk>, mem: seq<Chunk>, typed: nat, word: nat, noVariable: bool)
    requires word > 0 && Regular(reg, mem, word)
    requires Invariant(Start(reg, mem, typed, word, noVariable), reg, mem, word, 63 - 2 * typed)
    ensures var p := Start(reg, mem, typed, word, noVariable);
            var r := Released(p, word, noVariable);
            MessageWords(Pack(p, word, noVariable), word, typed, noVariable) > 63 <==>
              r.Some? && (exists c :: c in r.value.queue && c.size <= r.value.remaining)
              && Total(r.value.queue) > r.value.remaining
  {
    hide Pack, Released, Invariant, LayoutEnd, Gapless, Regular, CleanRun, Total;
    var p, words := Start(reg, mem, typed, word, noVariable), 63 - 2 * typed;
    StartGapless(reg, mem, typed, word, noVariable);
    InvariantPinned(p, reg, mem, word, words);
    MessageFitsExactly(reg, mem, typed, word, noVariable);
    ReleasedInRun(p, word, noVariable, reg, mem, words);
    if Released(p, word, noVariable).Some? {
      var r := Released(p, word, noVariable).value;
      ReleasedState(p, reg, mem, word, noVariable, words);
      AfterRelease(r, |reg|, reg, mem, word, noVariable, words);
    }
  }

  /** In general an overflow needs such a release after which a waiting chunk can be accepted. */
  lemma OverflowNeedsRelease(reg: seq<Chunk>, mem: seq<Chunk>, typed: nat, word: nat, noVariable: bool)
    requires word > 0
    requires Invariant(Start(reg, mem, typed, word, noVariable), reg, mem, word, 63 - 2 * typed)
    ensures var p := Start(reg, mem, typed, word, noVariable);
            var r := Released(p, word, noVariable);
            MessageWords(Pack(p, word, noVariable), word, typed, noVariable) > 63 ==>
              r.Some? && !AllStuck(r.value, r.value.queue)
  {
    hide Pack, Released, InOrder, LayoutEnd, CleanRun, AllStuck, Shape, Keys;
    var p, words := Start(reg, mem, typed, word, noVariable), 63 - 2 * typed;
    MessageFitsExactly(reg, mem, typed, word, noVariable);
    ReleasedInRun(p, word, noVariable, reg, mem, words);
    if Released(p, word, noVariable).Some? {
      var r := Released(p, word, noVariable).value;
      var q := Pack(r, word, noVariable);
      PackAcceptsNone(r, word, noVariable);
      ReleasedFits(p, reg, mem, word, noVariable, words);
      if |q.reg| == |r.reg| {
        ShapeKeys(q.reg, r.reg);
        LayoutEndOfKeys(q.reg, r.reg, 0);
      }
    }
  }

  /** The chunks that are in the registers at the release fit the capacity before it. */
  lemma {:induction false} ReleasedFits(p: Packing, reg: seq<Chunk>, mem: seq<Chunk>, word: nat, noVariable: bool,
                                        words: int)
    requires Invariant(p, reg, mem, word, words) && p.processed == []
    requires Released(p, word, noVariable).Some?
    ensures LayoutEnd(Released(p, word, noVariable).value.reg, 0) <= p.maxBytes
    decreases |p.queue|
  {
    hide Pass, Step, ReleasedIn, InOrder, LayoutEnd, Sound, CleanPass;
    var first := p.(progress := false);
    InvariantPinned(p, reg, mem, word, words);
    ReleasedInPass(first, word, noVariable);
    ReleasedInRun(p, word, noVariable, reg, mem, words);
    RefillInvariant(p, reg, mem, word, words);
    if ReleasedIn(first, word, noVariable).Some? {
      FitsInPass(first, |reg|, word, noVariable, words);
    } else {
      var r := Pass(first, word, noVariable);
      PassInvariant(first, reg, mem, word, noVariable, words);
      RefillInvariant(r, reg, mem, word, words);
      if !r.needMemoryMessage {
        NotReleasedAgain(Refill(r), reg, mem, word, noVariable, words);
      }
      ReleasedFits(Refill(r), reg, mem, word, noVariable, words);
    }
  }

  lemma {:induction false} FitsInPass(p: Packing, pinned: nat, word: nat, noVariable: bool, words: int)
    requires Budget(p, pinned, word, words) && ReleasedIn(p, word, noVariable).Some?
    ensures LayoutEnd(ReleasedIn(p, word, noVariable).value.reg, 0) <= p.maxBytes
    decreases |p.queue|
  {
    hide Step, Accepts, Budget, CleanStep, Sound, LayoutEnd;
    BudgetSound(p, pinned, word, words);
    StepSizes(p, word, noVariable);
    StepBudget(p, word, noVariable, pinned, words);
    StepNeed(p, word, noVariable);
    if CleanStep(p, noVariable) {
      ReleasedInPass(Step(p, word, noVariable), word, noVariable);
      FitsInPass(Step(p, word, noVariable), pinned, word, noVariable, words);
    } else {
      AcceptedEnd(p, word, noVariable);
    }
  }

  lemma AcceptedEnd(p: Packing, word: nat, noVariable: bool)
    requires Sound(p) && p.queue != [] && Accepts(p)
    ensures var q := Step(p, word, noVariable); Sound(q) && LayoutEnd(q.reg, 0) <= p.maxBytes
  {
    hide LayoutEnd, Laid, Keys, Shape, Placeable, Trial;
    StepShape(p, word, noVariable);
    TrialSize(p);
    var q := Step(p, word, noVariable);
    ShapeKeys(q.reg, Trial(p.reg, p.queue[0]));
    LayoutEndOfKeys(q.reg, Trial(p.reg, p.queue[0]), 0);
  }
}
