/** Chunks that fill the message registers without gaps: whole words, or small chunks of
    natural alignment behind them. What fits is then decided by the sum of the sizes. */
module GaplessChunks {
  import opened Wrappers
  import opened Layout
  import opened Packing

  function Total(s: seq<Chunk>): int {
    if s == [] then 0 else s[0].size + Total(s[1..])
  }

  lemma {:induction false} TotalConcat(s: seq<Chunk>, t: seq<Chunk>)
    ensures Total(s + t) == Total(s) + Total(t)
    decreases |s|
  {
    if s == [] {
      assert s + t == t;
    } else {
      TotalConcat(s[1..], t);
      assert (s + t)[1..] == s[1..] + t;
    }
  }

  lemma {:induction false} TotalOfKeys(s: seq<Chunk>, t: seq<Chunk>)
    requires Keys(s) == Keys(t)
    ensures Total(s) == Total(t)
    decreases |s|
  {
    assert |Keys(s)| == |s| && |Keys(t)| == |t|;
    if s != [] {
      assert Key(s[0]) == Keys(s)[0] == Keys(t)[0] == Key(t[0]);
      assert Keys(s[1..]) == Keys(s)[1..] && Keys(t[1..]) == Keys(t)[1..];
      TotalOfKeys(s[1..], t[1..]);
    }
  }

  lemma {:induction false} TotalNotNegative(s: seq<Chunk>)
    requires Placeable(s)
    ensures Total(s) >= 0 && forall c :: c in s ==> c.size <= Total(s)
    decreases |s|
  {
    if s != [] {
      assert s[0] in s;
      TotalNotNegative(s[1..]);
    }
  }

  // ---------------------------------------------------------------- two kinds of chunks

  /** Whole words, aligned to a word or less. */
  predicate Whole(c: Chunk, word: nat) {
    word > 0 && c.size >= 0 && c.size % word == 0 && c.alignment > 0 && word % c.alignment == 0
  }

  /** One byte, two or four bytes with natural alignment, or whole words. */
  predicate Natural(c: Chunk, word: nat) {
    c.alignment > 0 &&
    ((c.size == 1 && c.alignment == 1)
     || (c.size == 2 && 2 % c.alignment == 0)
     || ((c.size == 0 || c.size == 4) && 4 % c.alignment == 0)
     || (c.size > 4 && Whole(c, word)))
  }

  predicate AllWhole(s: seq<Chunk>, word: nat) {
    forall c :: c in s ==> Whole(c, word)
  }

  predicate AllNatural(s: seq<Chunk>, word: nat) {
    forall c :: c in s ==> Natural(c, word)
  }

  /** What alignment the place of a chunk in the list asks for. */
  function Unit(prio: int, word: nat): nat {
    if prio <= 1 then word else if prio == 2 then 4 else if prio == 3 then 2 else 1
  }

  /** In the order of their priorities, and in units of their places. */
  predicate Graded(s: seq<Chunk>, word: nat) {
    (forall i, j :: 0 <= i < j < |s| ==> s[i].prio <= s[j].prio) &&
    (forall c :: c in s ==> InUnits(c, word))
  }

  predicate InUnits(c: Chunk, word: nat) {
    var u := Unit(c.prio, word);
    u > 0 && c.size >= 0 && c.size % u == 0 && c.alignment > 0 && u % c.alignment == 0
  }

  /** A register list that has no gaps, and chunks that leave none when they are added. */
  predicate Suits(reg: seq<Chunk>, s: seq<Chunk>, word: nat) {
    word > 0 &&
    ((AllWhole(reg, word) && AllWhole(s, word)) || (word % 4 == 0 && Graded(reg, word) && AllNatural(s, word)))
  }

  predicate Gapless(p: Packing, word: nat) {
    Suits(p.reg, p.queue + p.processed, word)
  }

  lemma DividesThrough(x: int, word: nat, a: nat)
    requires word > 0 && a > 0 && x % word == 0 && word % a == 0
    ensures x % a == 0
  {
    var q, r := x / word, word / a;
    assert x == word * q && word == a * r;
    assert x == a * (r * q);
    MultipleOf(a, r * q);
  }

  /** Chunks of whole words leave no gaps. */
  lemma {:induction false} WholeEnd(s: seq<Chunk>, offset: int, word: nat)
    requires AllWhole(s, word) && word > 0 && offset % word == 0
    ensures Placeable(s) && LayoutEnd(s, offset) == offset + Total(s)
    decreases |s|
  {
    if s != [] {
      var c := s[0];
      assert Whole(c, word);
      DividesThrough(offset, word, c.alignment);
      MultiplesApart(offset, c.size, word);
      WholeEnd(s[1..], offset + c.size, word);
    }
  }

  /** Neither do chunks in the units of their places. */
  lemma {:induction false} GradedEnd(s: seq<Chunk>, offset: int, word: nat)
    requires Graded(s, word) && word > 0 && word % 4 == 0 && (s != [] ==> offset % Unit(s[0].prio, word) == 0)
    ensures Placeable(s) && LayoutEnd(s, offset) == offset + Total(s)
    decreases |s|
  {
    if s != [] {
      var c, u := s[0], Unit(s[0].prio, word);
      assert c in s && InUnits(c, word);
      DividesThrough(offset, u, c.alignment);
      MultiplesApart(offset, c.size, u);
      if |s| > 1 {
        UnitsDivide(c.prio, s[1].prio, word);
        DividesThrough(offset + c.size, u, Unit(s[1].prio, word));
      }
      GradedEnd(s[1..], offset + c.size, word);
    }
  }

  lemma UnitsDivide(p: int, q: int, word: nat)
    requires p <= q && word > 0 && word % 4 == 0
    ensures Unit(p, word) > 0 && Unit(q, word) > 0 && Unit(p, word) % Unit(q, word) == 0
  {
    DividesThrough(word, 4, 2);
    assert word == 1 * word && word % word == 0 by {
      MultipleOf(word, 1);
    }
  }

  lemma NoGapsEnd(reg: seq<Chunk>, s: seq<Chunk>, word: nat)
    requires Suits(reg, s, word)
    ensures Placeable(reg) && LayoutEnd(reg, 0) == Total(reg)
  {
    hide LayoutEnd, Placeable;
    if AllWhole(reg, word) && AllWhole(s, word) {
      WholeEnd(reg, 0, word);
    } else {
      if reg != [] {
        UnitsDivide(reg[0].prio, reg[0].prio, word);
      }
      GradedEnd(reg, 0, word);
    }
  }

  /** A chunk of natural alignment is ranked by what it can be aligned to. */
  lemma RankedInUnits(c: Chunk, word: nat)
    requires Natural(c, word) && word > 0 && word % 4 == 0
    ensures InUnits(Ranked(c), word)
  {
  }

  lemma InsertGraded(reg: seq<Chunk>, c: Chunk, word: nat)
    requires Graded(reg, word) && InUnits(c, word)
    ensures Graded(Insert(reg, c), word)
  {
    hide InUnits, InsertPos;
    var k, t := InsertPos(reg, c.prio), Insert(reg, c);
    forall i, j | 0 <= i < j < |t|
      ensures t[i].prio <= t[j].prio
    {
      InsertAt(reg, c, i);
      InsertAt(reg, c, j);
      if i == k && k < j - 1 {
        assert reg[k].prio <= reg[j - 1].prio;
      }
    }
    forall d | d in t
      ensures d == c || d in reg
    {
      var i :| 0 <= i < |t| && t[i] == d;
      InsertAt(reg, c, i);
    }
  }

  lemma InsertAt(reg: seq<Chunk>, c: Chunk, i: nat)
    requires i < |Insert(reg, c)|
    ensures var k, t := InsertPos(reg, c.prio), Insert(reg, c);
            |t| == |reg| + 1 && t[i] == if i < k then reg[i] else if i == k then c else reg[i - 1]
  {
    hide InsertPos;
  }

  lemma TrialSuits(reg: seq<Chunk>, c: Chunk, s: seq<Chunk>, word: nat)
    requires Suits(reg, s, word) && c in s
    ensures Placeable(reg) && c.size >= 0 && c.alignment > 0 && Suits(Trial(reg, c), s, word)
  {
    NoGapsEnd(reg, s, word);
    hide LayoutEnd, Placeable, InUnits, Graded;
    if AllWhole(reg, word) && AllWhole(s, word) {
      assert forall d :: d in Trial(reg, c) ==> d in reg || d == Ranked(c);
    } else {
      RankedInUnits(c, word);
      InsertGraded(reg, Ranked(c), word);
    }
  }

  /** The trial layout ends at the sum of the sizes. */
  lemma TrialTotal(reg: seq<Chunk>, c: Chunk, s: seq<Chunk>, word: nat)
    requires Suits(reg, s, word) && c in s
    ensures Placeable(reg) && c.size >= 0 && c.alignment > 0 && Suits(Trial(reg, c), s, word)
    ensures Total(Trial(reg, c)) == Total(reg) + c.size
    ensures TrialEnd(reg, c) == Total(reg) + c.size && LayoutEnd(reg, 0) == Total(reg)
  {
    hide LayoutEnd, Suits, Placeable;
    NoGapsEnd(reg, s, word);
    TrialSuits(reg, c, s, word);
    NoGapsEnd(Trial(reg, c), s, word);
    var k, d := Place(reg, c), Ranked(c);
    assert reg == reg[..k] + reg[k..];
    TotalConcat(reg[..k], reg[k..]);
    TotalConcat(reg[..k] + [d], reg[k..]);
    TotalConcat(reg[..k], [d]);
    assert Total([d]) == c.size;
  }

  lemma SuitsOfShape(reg: seq<Chunk>, reg': seq<Chunk>, s: seq<Chunk>, word: nat)
    requires Shape(reg) == Shape(reg') && Suits(reg, s, word)
    ensures Suits(reg', s, word)
  {
    forall i | 0 <= i < |reg'|
      ensures reg'[i].(offset := UNKNOWN) == reg[i].(offset := UNKNOWN) && reg[i] in reg
    {
      assert Shape(reg)[i] == Shape(reg')[i];
    }
    assert forall c :: c in reg' ==> exists i :: 0 <= i < |reg'| && reg'[i] == c;
  }

  lemma SuitsOfKeys(reg: seq<Chunk>, s: seq<Chunk>, t: seq<Chunk>, word: nat)
    requires Suits(reg, s, word) && forall d :: d in t ==> exists c :: c in s && Key(c) == Key(d)
    ensures Suits(reg, t, word)
  {
    hide Graded;
    forall d | d in t
      ensures exists c :: c in s && SameSize(c, d)
    {
      var c :| c in s && Key(c) == Key(d);
      SameKey(c, d);
    }
  }

  predicate SameSize(c: Chunk, d: Chunk) {
    c.size == d.size && c.alignment == d.alignment
  }

  lemma SameKey(c: Chunk, d: Chunk)
    requires Key(c) == Key(d)
    ensures SameSize(c, d)
  {
    assert Key(c).size == c.size && Key(d).size == d.size && Key(c).alignment == c.alignment;
  }

  /** One step moves a chunk of the queue to one of the other lists. */
  lemma StepTotals(p: Packing, word: nat, noVariable: bool)
    requires Sound(p) && Gapless(p, word) && p.queue != []
    ensures var q, c := Step(p, word, noVariable), p.queue[0];
            Sound(q) && Gapless(q, word) && q.queue == p.queue[1..]
            && Total(q.reg) == Total(p.reg) + (if Accepts(p) then c.size else 0)
            && Total(q.processed) == Total(p.processed) + (if Accepts(p) then 0 else c.size)
            && (forall d :: d in q.processed ==> d in p.processed || (!Accepts(p) && d.size == c.size))
            && (Accepts(p) ==> q.processed == p.processed && TrialEnd(p.reg, c) == Total(q.reg))
  {
    hide Step, Accepts, Trial, Keys, Shape, LayoutEnd, TrialEnd, Suits, Key, Sound;
    var q, c, s := Step(p, word, noVariable), p.queue[0], p.queue + p.processed;
    StepShape(p, word, noVariable);
    TrialTotal(p.reg, c, s, word);
    if Accepts(p) {
      ShapeKeys(q.reg, Trial(p.reg, c));
      TotalOfKeys(Trial(p.reg, c), q.reg);
      SuitsOfShape(Trial(p.reg, c), q.reg, s, word);
    } else {
      ShapeKeys(q.reg, p.reg);
      TotalOfKeys(p.reg, q.reg);
      SuitsOfShape(p.reg, q.reg, s, word);
      var d :| q.processed == p.processed + [d] && Key(d) == Key(c);
      SameKey(c, d);
      TotalConcat(p.processed, [d]);
      assert [d][1..] == [];
    }
    SuitsOfKeys(q.reg, s, q.queue + q.processed, word);
  }

  /** A chunk is accepted exactly if the sum of the sizes fits. */
  lemma AcceptsByTotal(p: Packing, pinned: nat, word: nat, words: int)
    requires Budget(p, pinned, word, words) && Gapless(p, word) && p.queue != []
    ensures Accepts(p) <==> Total(p.reg) + p.queue[0].size <= p.maxBytes
    ensures Total(p.reg) <= p.maxBytes
  {
    hide LayoutEnd, TrialEnd, Keys, Suits;
    TrialTotal(p.reg, p.queue[0], p.queue + p.processed, word);
    TotalNotNegative(p.reg);
  }

  function Everything(p: Packing): int {
    Total(p.reg) + Total(p.queue) + Total(p.processed)
  }

  lemma {:induction false} PassKeepsGapless(p: Packing, word: nat, noVariable: bool)
    requires Sound(p) && Gapless(p, word)
    ensures Gapless(Pass(p, word, noVariable), word) && Everything(Pass(p, word, noVariable)) == Everything(p)
    decreases |p.queue|
  {
    hide Step, Sound, Gapless;
    if p.queue != [] {
      StepSizes(p, word, noVariable);
      StepTotals(p, word, noVariable);
      PassKeepsGapless(Step(p, word, noVariable), word, noVariable);
    }
  }

  lemma RefillGapless(p: Packing, word: nat)
    requires Gapless(p, word)
    ensures p.queue == [] ==> Gapless(Refill(p), word) && Everything(Refill(p)) == Everything(p)
    ensures Gapless(p.(progress := false), word) && Everything(p.(progress := false)) == Everything(p)
  {
    hide Suits;
    assert p.queue == [] ==> p.processed + [] == p.queue + p.processed;
  }

  lemma {:induction false} PackKeepsGapless(p: Packing, word: nat, noVariable: bool)
    requires Sound(p) && p.processed == [] && Gapless(p, word)
    ensures Gapless(Pack(p, word, noVariable), word) && Everything(Pack(p, word, noVariable)) == Everything(p)
    decreases |p.queue|
  {
    hide Gapless, Pass, Everything;
    var r := Pass(p.(progress := false), word, noVariable);
    RefillGapless(p, word);
    PassKeepsGapless(p.(progress := false), word, noVariable);
    RefillGapless(r, word);
    if r.progress {
      PackKeepsGapless(Refill(r), word, noVariable);
    }
  }

  // ---------------------------------------------------------------- the whole run

  /** Pinned chunks that keep the priority they are created with, and natural ones, or whole
      words everywhere. */
  predicate Regular(reg: seq<Chunk>, mem: seq<Chunk>, word: nat) {
    word > 0 && AllWhole(reg, word) &&
    (AllWhole(mem, word) || (word % 4 == 0 && AllNatural(mem, word) && forall c :: c in reg ==> c.prio == 0))
  }

  lemma StartGapless(reg: seq<Chunk>, mem: seq<Chunk>, typed: nat, word: nat, noVariable: bool)
    requires Regular(reg, mem, word)
    ensures Gapless(Start(reg, mem, typed, word, noVariable), word)
    ensures Everything(Start(reg, mem, typed, word, noVariable)) == Total(reg) + Total(mem)
  {
    assert mem + [] == mem;
    if !AllWhole(mem, word) {
      forall c | c in reg
        ensures InUnits(c, word)
      {
      }
    }
  }

  /** The registers end up without gaps; a chunk that is left would exceed the capacity by
      its size, and none is left if all chunks together fit the capacity at the start. */
  lemma PackedWithoutGaps(reg: seq<Chunk>, mem: seq<Chunk>, typed: nat, word: nat, noVariable: bool)
    requires Regular(reg, mem, word)
    requires Invariant(Start(reg, mem, typed, word, noVariable), reg, mem, word, 63 - 2 * typed)
    ensures var p := Start(reg, mem, typed, word, noVariable);
            var q := Pack(p, word, noVariable);
            Sound(q) && LayoutEnd(q.reg, 0) == Total(q.reg) <= q.maxBytes
            && Total(q.reg) + Total(q.queue) == Total(reg) + Total(mem)
            && (forall c :: c in q.queue ==> Total(q.reg) + c.size > q.maxBytes)
            && (Total(reg) + Total(mem) <= p.maxBytes ==> q.queue == [])
  {
    hide Pack, InOrder, LayoutEnd, Gapless, AllStuck, Regular, Total;
    var p, words := Start(reg, mem, typed, word, noVariable), 63 - 2 * typed;
    var q := Pack(p, word, noVariable);
    StartGapless(reg, mem, typed, word, noVariable);
    PackResult(p, reg, mem, word, noVariable, words);
    PackKeepsGapless(p, word, noVariable);
    GaplessEnd(q, word);
    NothingTotal();
    StuckExceeds(q, |reg|, word, words);
    TotalNotNegative(q.queue);
    if !p.needMemoryMessage {
      PackNeverRestores(p, word, noVariable);
    }
    MoreCapacity(p, q, |reg|, |reg|, word, words);
    if q.queue != [] {
      assert q.queue[0] in q.queue;
    }
  }

  lemma NothingTotal()
    ensures Total([]) == 0
  {
  }

  lemma GaplessEnd(p: Packing, word: nat)
    requires Gapless(p, word)
    ensures Placeable(p.reg) && LayoutEnd(p.reg, 0) == Total(p.reg)
  {
    NoGapsEnd(p.reg, p.queue + p.processed, word);
  }

  lemma MoreCapacity(p: Packing, q: Packing, i: nat, j: nat, word: nat, words: int)
    requires Budget(p, i, word, words) && Budget(q, j, word, words) && (!p.needMemoryMessage ==> !q.needMemoryMessage)
    ensures p.maxBytes <= q.maxBytes
  {
    assert word * (words - 2) + 2 * word == word * words;
  }

  lemma StuckExceeds(p: Packing, pinned: nat, word: nat, words: int)
    requires Budget(p, pinned, word, words) && Gapless(p, word) && AllStuck(p, p.queue)
    ensures forall c :: c in p.queue ==> Total(p.reg) + c.size > p.maxBytes
  {
    hide LayoutEnd, TrialEnd, Suits;
    forall c | c in p.queue
      ensures Total(p.reg) + c.size > p.maxBytes
    {
      TrialTotal(p.reg, c, p.queue + p.processed, word);
      TotalNotNegative(p.reg);
    }
  }
}
