/** Greedy packing of fixed-size chunks into the message registers of a channel. */
module Packing {
  import opened Layout
  import opened Wrappers

  /** The lists and counters of the packing loop. `queue` is the memory list being
      drained, `processed` holds the chunks that did not fit in this pass. */
  datatype Packing = Packing(reg: seq<Chunk>, queue: seq<Chunk>, processed: seq<Chunk>,
                             needMemoryMessage: bool, maxBytes: int, remaining: int, progress: bool)

  function AlignmentPrio(sizeInBytes: int): int {
    if sizeInBytes == 1 then 4
    else if sizeInBytes == 2 then 3
    else if sizeInBytes <= 4 then 2
    else 1
  }

  ghost predicate Sound(p: Packing) {
    Placeable(p.reg) && Placeable(p.queue) && Placeable(p.processed)
  }

  function Ranked(c: Chunk): Chunk {
    c.(prio := AlignmentPrio(c.size))
  }

  /** The register list with one more chunk at its place. */
  function Trial(reg: seq<Chunk>, c: Chunk): (t: seq<Chunk>)
    requires Placeable(reg) && c.size >= 0 && c.alignment > 0
    ensures Placeable(t) && |t| == |reg| + 1
  {
    Insert(reg, Ranked(c))
  }

  function TrialEnd(reg: seq<Chunk>, c: Chunk): int
    requires Placeable(reg) && c.size >= 0 && c.alignment > 0
  {
    LayoutEnd(Trial(reg, c), 0)
  }

  function Place(reg: seq<Chunk>, c: Chunk): nat {
    InsertPos(reg, AlignmentPrio(c.size))
  }

  /** One chunk taken off the memory list: accepted if the layout with it fits,
      which may make the memory message unnecessary; otherwise set aside. */
  function Step(p: Packing, word: nat, noVariable: bool): (q: Packing)
    requires Sound(p) && p.queue != []
  {
    var c := p.queue[0];
    assert c in p.queue;
    if c.size > p.remaining then
      p.(queue := p.queue[1..], processed := p.processed + [c])
    else
      var laid := Laid(Trial(p.reg, c), 0);
      var used := TrialEnd(p.reg, c);
      if used <= p.maxBytes then
        var release := p.needMemoryMessage && p.queue[1..] == [] && noVariable;
        var maxBytes := if release then p.maxBytes + 2 * word else p.maxBytes;
        Packing(laid, p.queue[1..], p.processed, p.needMemoryMessage && !release, maxBytes, maxBytes - used, true)
      else
        var k := Place(p.reg, c);
        LaidKeeps(Trial(p.reg, c), 0);
        p.(reg := laid[..k] + laid[k + 1..], queue := p.queue[1..], processed := p.processed + [laid[k]])
  }

  predicate Accepts(p: Packing)
    requires Sound(p) && p.queue != []
  {
    var c := p.queue[0];
    assert c in p.queue;
    c.size <= p.remaining && TrialEnd(p.reg, c) <= p.maxBytes
  }

  /** A chunk and its place are all that a layout depends on. */
  function Shape(s: seq<Chunk>): (t: seq<Chunk>)
    ensures |t| == |s| && forall i :: 0 <= i < |s| ==> t[i] == s[i].(offset := UNKNOWN)
  {
    seq(|s|, i requires 0 <= i < |s| => s[i].(offset := UNKNOWN))
  }

  lemma ShapeConcat(s: seq<Chunk>, t: seq<Chunk>)
    ensures Shape(s + t) == Shape(s) + Shape(t) && Keys(s + t) == Keys(s) + Keys(t)
  {
  }

  lemma ShapeKeys(s: seq<Chunk>, t: seq<Chunk>)
    requires Shape(s) == Shape(t)
    ensures Keys(s) == Keys(t)
  {
    forall i | 0 <= i < |s|
      ensures Key(s[i]) == Key(t[i])
    {
      assert Shape(s)[i] == Shape(t)[i];
    }
  }

  lemma {:induction false} InsertPosOfShape(s: seq<Chunk>, t: seq<Chunk>, prio: int)
    requires Shape(s) == Shape(t)
    ensures InsertPos(s, prio) == InsertPos(t, prio)
  {
    forall i | 0 <= i < |s|
      ensures s[i].prio == t[i].prio
    {
      assert Shape(s)[i] == Shape(t)[i];
    }
    InsertPosUnique(t, prio, InsertPos(s, prio));
  }

  lemma TrialKeys(reg: seq<Chunk>, c: Chunk)
    requires Placeable(reg) && c.size >= 0 && c.alignment > 0
    ensures var k := Place(reg, c); Keys(Trial(reg, c)) == Keys(reg)[..k] + [Key(c)] + Keys(reg)[k..]
  {
    hide RoundUp;
  }

  lemma TrialEndOfShape(s: seq<Chunk>, t: seq<Chunk>, c: Chunk, d: Chunk)
    requires Placeable(s) && Shape(s) == Shape(t) && c.size >= 0 && c.alignment > 0 && Key(c) == Key(d)
    ensures Placeable(t) && d.size >= 0 && d.alignment > 0 && TrialEnd(s, c) == TrialEnd(t, d)
  {
    hide Insert, InsertPos, LayoutEnd, Keys, Shape, Placeable, Trial;
    ShapeKeys(s, t);
    PlaceableOfKeys(s, t);
    InsertPosOfShape(s, t, AlignmentPrio(c.size));
    assert d.size == Key(d).size == c.size && d.alignment == Key(d).alignment == c.alignment;
    TrialKeys(s, c);
    TrialKeys(t, d);
    LayoutEndOfKeys(Trial(s, c), Trial(t, d), 0);
  }

  /** Laying out a trial and taking the chunk out again restores the list, up to
      the offsets. */
  lemma TrialUndone(reg: seq<Chunk>, c: Chunk)
    requires Placeable(reg) && c.size >= 0 && c.alignment > 0
    ensures var l, k := Laid(Trial(reg, c), 0), Place(reg, c);
            |l| == |reg| + 1 && Placeable(l) && Shape(l) == Shape(Trial(reg, c)) && Key(l[k]) == Key(c)
            && Shape(l[..k] + l[k + 1..]) == Shape(reg)
  {
    hide Placeable, Laid, LayoutEnd, Shape, Keys, InsertPos, Trial, Insert;
    var t, k := Trial(reg, c), Place(reg, c);
    var l := Laid(t, 0);
    LaidKeeps(t, 0);
    PlaceableOfKeys(t, l);
    LaidShape(t, l);
    TrialShape(reg, c);
    RemoveInserted(reg, Ranked(c), k, l);
  }

  lemma LaidShape(t: seq<Chunk>, l: seq<Chunk>)
    requires |l| == |t| && forall i :: 0 <= i < |t| ==> l[i] == t[i].(offset := l[i].offset)
    ensures Shape(l) == Shape(t)
  {
  }

  lemma TrialShape(reg: seq<Chunk>, c: Chunk)
    requires Placeable(reg) && c.size >= 0 && c.alignment > 0
    ensures var k := Place(reg, c);
            k <= |reg| && Shape(Trial(reg, c)) == Shape(reg)[..k] + [Ranked(c).(offset := UNKNOWN)] + Shape(reg)[k..]
  {
    hide RoundUp;
  }

  lemma RemoveInserted(reg: seq<Chunk>, c: Chunk, k: nat, l: seq<Chunk>)
    requires k <= |reg| && |l| == |reg| + 1
    requires Shape(l) == Shape(reg)[..k] + [c.(offset := UNKNOWN)] + Shape(reg)[k..]
    ensures Key(l[k]) == Key(c) && Shape(l[..k] + l[k + 1..]) == Shape(reg)
  {
    var rest := l[..k] + l[k + 1..];
    assert Shape(l)[k] == c.(offset := UNKNOWN);
    forall i | 0 <= i < |reg|
      ensures Shape(rest)[i] == Shape(reg)[i]
    {
      assert rest[i] == l[if i < k then i else i + 1];
      assert Shape(l)[if i < k then i else i + 1] == Shape(reg)[i];
    }
  }

  /** What one step does to the register list: an accepted chunk is inserted at its
      place; a rejected trial leaves the list as it was, up to the offsets. */
  lemma StepShape(p: Packing, word: nat, noVariable: bool)
    requires Sound(p) && p.queue != []
    ensures var q, c := Step(p, word, noVariable), p.queue[0];
            Sound(q) && q.queue == p.queue[1..]
            && (if Accepts(p)
                then Shape(q.reg) == Shape(Trial(p.reg, c)) && q.processed == p.processed && q.progress
                else Shape(q.reg) == Shape(p.reg) && q.progress == p.progress
                     && exists d :: q.processed == p.processed + [d] && Key(d) == Key(c))
  {
    hide LayoutEnd, Laid, Keys, Shape, Trial, Step;
    assert p.queue[0] in p.queue;
    if Accepts(p) {
      AcceptedShape(p, word, noVariable);
    } else if p.queue[0].size <= p.remaining {
      UndoneShape(p, word, noVariable);
    } else {
      SkippedShape(p, word, noVariable);
    }
  }

  lemma AcceptedShape(p: Packing, word: nat, noVariable: bool)
    requires Sound(p) && p.queue != [] && Accepts(p)
    ensures var q, c := Step(p, word, noVariable), p.queue[0];
            Sound(q) && q.queue == p.queue[1..] && Placeable([c])
            && Shape(q.reg) == Shape(Trial(p.reg, c)) && q.processed == p.processed && q.progress
  {
    assert p.queue[0] in p.queue;
    assert Placeable(p.queue[1..]) && Placeable([p.queue[0]]);
    hide LayoutEnd, Laid, Keys, Shape, Placeable, Trial;
    TrialUndone(p.reg, p.queue[0]);
  }

  lemma UndoneShape(p: Packing, word: nat, noVariable: bool)
    requires Sound(p) && p.queue != [] && !Accepts(p) && p.queue[0].size <= p.remaining
    ensures p.queue[0].size >= 0 && p.queue[0].alignment > 0
    ensures var q, c := Step(p, word, noVariable), p.queue[0];
            var laid, k := Laid(Trial(p.reg, c), 0), Place(p.reg, c);
            Sound(q) && q.queue == p.queue[1..] && Shape(q.reg) == Shape(p.reg) && q.progress == p.progress
            && k < |laid| && q.processed == p.processed + [laid[k]] && Key(laid[k]) == Key(c)
  {
    hide *;
    SoundLists(p);
    UndoneStep(p, word, noVariable);
    TrialUndone(p.reg, p.queue[0]);
    var laid, k := Laid(Trial(p.reg, p.queue[0]), 0), Place(p.reg, p.queue[0]);
    PlaceableParts(p.reg, p.processed, laid, k, laid[..k] + laid[k + 1..]);
    ListsSound(Step(p, word, noVariable));
  }

  lemma SoundLists(p: Packing)
    requires Sound(p) && p.queue != []
    ensures Placeable(p.reg) && Placeable(p.processed) && Placeable(p.queue[1..])
  {
  }

  lemma ListsSound(p: Packing)
    requires Placeable(p.reg) && Placeable(p.processed) && Placeable(p.queue)
    ensures Sound(p)
  {
  }

  lemma UndoneStep(p: Packing, word: nat, noVariable: bool)
    requires Sound(p) && p.queue != [] && !Accepts(p) && p.queue[0].size <= p.remaining
    ensures p.queue[0].size >= 0 && p.queue[0].alignment > 0
    ensures var laid, k := Laid(Trial(p.reg, p.queue[0]), 0), Place(p.reg, p.queue[0]);
            k < |laid|
            && Step(p, word, noVariable)
               == p.(reg := laid[..k] + laid[k + 1..], queue := p.queue[1..], processed := p.processed + [laid[k]])
  {
    assert p.queue[0] in p.queue;
    hide LayoutEnd, Laid, Trial;
    LaidKeeps(Trial(p.reg, p.queue[0]), 0);
  }

  lemma SkippedShape(p: Packing, word: nat, noVariable: bool)
    requires Sound(p) && p.queue != [] && p.queue[0].size > p.remaining
    ensures var q, c := Step(p, word, noVariable), p.queue[0];
            Sound(q) && q.queue == p.queue[1..] && q.reg == p.reg && q.progress == p.progress
            && q.processed == p.processed + [c]
  {
    assert p.queue[0] in p.queue;
    assert Placeable(p.queue[1..]) && Placeable([p.queue[0]]);
    hide LayoutEnd, Laid, Keys, Shape, Placeable, Trial;
    PlaceableJoin(p.processed, [p.queue[0]]);
  }

  lemma PlaceableJoin(s: seq<Chunk>, t: seq<Chunk>)
    requires Placeable(s) && Placeable(t)
    ensures Placeable(s + t)
  {
  }

  lemma PlaceableParts(reg: seq<Chunk>, processed: seq<Chunk>, laid: seq<Chunk>, k: nat, rest: seq<Chunk>)
    requires Placeable(laid) && k < |laid| && rest == laid[..k] + laid[k + 1..] && Placeable(processed)
    ensures Placeable(rest) && Placeable(processed + [laid[k]])
  {
    assert laid[k] in laid;
  }

  lemma StepSizes(p: Packing, word: nat, noVariable: bool)
    requires Sound(p) && p.queue != []
    ensures var q := Step(p, word, noVariable);
            Sound(q) && |q.queue| == |p.queue| - 1
            && |q.reg| == |p.reg| + (if Accepts(p) then 1 else 0)
            && |q.reg| + |q.processed| == |p.reg| + |p.processed| + 1
            && (q.progress <==> p.progress || Accepts(p))
  {
    hide Step, Accepts, Sound, Trial;
    StepShape(p, word, noVariable);
    var q := Step(p, word, noVariable);
    assert |Shape(q.reg)| == |q.reg|;
    if Accepts(p) {
      TrialSize(p);
    }
  }

  lemma TrialSize(p: Packing)
    requires Sound(p) && p.queue != []
    ensures p.queue[0].size >= 0 && p.queue[0].alignment > 0 && |Shape(Trial(p.reg, p.queue[0]))| == |p.reg| + 1
  {
    assert p.queue[0] in p.queue;
  }

  /** Drains the memory list once. */
  function Pass(p: Packing, word: nat, noVariable: bool): (q: Packing)
    requires Sound(p)
    ensures Sound(q) && q.queue == [] && |q.reg| + |q.processed| == |p.reg| + |p.queue| + |p.processed|
    ensures |q.reg| >= |p.reg| && (q.progress <==> p.progress || |q.reg| > |p.reg|)
    decreases |p.queue|
  {
    if p.queue == [] then p
    else
      StepSizes(p, word, noVariable);
      Pass(Step(p, word, noVariable), word, noVariable)
  }

  /** The rejected chunks become the memory list again. */
  function Refill(p: Packing): Packing {
    p.(queue := p.processed, processed := [])
  }

  /** Passes until one makes no progress. */
  function Pack(p: Packing, word: nat, noVariable: bool): (q: Packing)
    requires Sound(p) && p.processed == []
    ensures Sound(q) && q.processed == [] && |q.reg| >= |p.reg|
    decreases |p.queue|
  {
    var r := Pass(p.(progress := false), word, noVariable);
    if r.progress then Pack(Refill(r), word, noVariable) else Refill(r)
  }

  // ---------------------------------------------------------------- conservation

  ghost function Population(p: Packing): multiset<Chunk> {
    multiset(Keys(p.reg)) + multiset(Keys(p.queue)) + multiset(Keys(p.processed))
  }

  ghost predicate UniqueIds(m: multiset<Chunk>) {
    forall a, b :: a in m && b in m && a.id == b.id ==> a == b && m[a] == 1
  }

  /** A step moves one chunk and loses or duplicates none. */
  lemma StepConserves(p: Packing, word: nat, noVariable: bool)
    requires Sound(p) && p.queue != []
    ensures Population(Step(p, word, noVariable)) == Population(p)
  {
    hide Step, Accepts, Trial, Keys, Shape, Placeable;
    var q, c := Step(p, word, noVariable), p.queue[0];
    StepShape(p, word, noVariable);
    KeysFirst(p.queue);
    if Accepts(p) {
      TrialSize(p);
      ShapeKeys(q.reg, Trial(p.reg, c));
      TrialPopulation(p.reg, c);
    } else {
      ShapeKeys(q.reg, p.reg);
      var d :| q.processed == p.processed + [d] && Key(d) == Key(c);
      ShapeConcat(p.processed, [d]);
      KeysOne(d);
    }
  }

  lemma KeysFirst(s: seq<Chunk>)
    requires s != []
    ensures multiset(Keys(s)) == multiset{Key(s[0])} + multiset(Keys(s[1..]))
  {
    assert Keys(s) == [Key(s[0])] + Keys(s[1..]);
  }

  lemma KeysOne(c: Chunk)
    ensures Keys([c]) == [Key(c)]
  {
  }

  lemma TrialPopulation(reg: seq<Chunk>, c: Chunk)
    requires Placeable(reg) && c.size >= 0 && c.alignment > 0
    ensures multiset(Keys(Trial(reg, c))) == multiset(Keys(reg)) + multiset{Key(c)}
  {
    hide Trial, Keys;
    TrialKeys(reg, c);
    var k := Place(reg, c);
    assert Keys(reg) == Keys(reg)[..k] + Keys(reg)[k..];
  }

  lemma {:induction false} PassConserves(p: Packing, word: nat, noVariable: bool)
    requires Sound(p)
    ensures Population(Pass(p, word, noVariable)) == Population(p)
    decreases |p.queue|
  {
    hide Population, Step, Sound;
    if p.queue != [] {
      StepSizes(p, word, noVariable);
      StepConserves(p, word, noVariable);
      PassConserves(Step(p, word, noVariable), word, noVariable);
    }
  }

  lemma RefillConserves(p: Packing)
    requires p.queue == []
    ensures Population(Refill(p)) == Population(p) && Population(p.(progress := false)) == Population(p)
  {
  }

  /** Packing conserves the chunks of a channel. */
  lemma {:induction false} PackConserves(p: Packing, word: nat, noVariable: bool)
    requires Sound(p) && p.processed == []
    ensures Population(Pack(p, word, noVariable)) == Population(p)
    decreases |p.queue|
  {
    hide Population, Placeable, Pass;
    var r := Pass(p.(progress := false), word, noVariable);
    RestartConserves(p);
    PassConserves(p.(progress := false), word, noVariable);
    RefillConserves(r);
    if r.progress {
      PackConserves(Refill(r), word, noVariable);
    }
  }

  lemma RestartConserves(p: Packing)
    ensures Population(p.(progress := false)) == Population(p)
  {
  }

  // ---------------------------------------------------------------- order

  /** a is b with some elements left out. */
  predicate Subsequence(a: seq<Chunk>, b: seq<Chunk>) {
    a == [] || (b != [] && ((a[0] == b[0] && Subsequence(a[1..], b[1..])) || Subsequence(a, b[1..])))
  }

  lemma {:induction false} SubsequenceSelf(a: seq<Chunk>)
    ensures Subsequence(a, a)
    decreases |a|
  {
    if a != [] {
      SubsequenceSelf(a[1..]);
    }
  }

  lemma {:induction false} SubsequenceTail(a: seq<Chunk>, b: seq<Chunk>)
    requires a != [] && Subsequence(a, b)
    ensures Subsequence(a[1..], b)
    decreases |b|
  {
    if !(a[0] == b[0] && Subsequence(a[1..], b[1..])) {
      SubsequenceTail(a, b[1..]);
    }
  }

  /** Leaving out one more element. */
  lemma {:induction false} SubsequenceRemove(a: seq<Chunk>, x: Chunk, c: seq<Chunk>, b: seq<Chunk>)
    requires Subsequence(a + [x] + c, b)
    ensures Subsequence(a + c, b)
    decreases |b|
  {
    var whole := a + [x] + c;
    if a == [] {
      assert whole[1..] == c && a + c == c;
      SubsequenceTail(whole, b);
    } else {
      assert whole[1..] == a[1..] + [x] + c && (a + c)[1..] == a[1..] + c;
      if whole[0] == b[0] && Subsequence(whole[1..], b[1..]) {
        SubsequenceRemove(a[1..], x, c, b[1..]);
      } else {
        SubsequenceRemove(a, x, c, b[1..]);
      }
    }
  }

  /** Inserting into the longer list. */
  lemma {:induction false} SubsequenceInsert(a: seq<Chunk>, b: seq<Chunk>, k: nat, x: Chunk)
    requires Subsequence(a, b) && k <= |b|
    ensures Subsequence(a, b[..k] + [x] + b[k..])
    decreases |b|
  {
    var c := b[..k] + [x] + b[k..];
    if a != [] {
      if k == 0 {
        assert c[1..] == b;
      } else {
        assert c[1..] == b[1..][..k - 1] + [x] + b[1..][k - 1..];
        if a[0] == b[0] && Subsequence(a[1..], b[1..]) {
          SubsequenceInsert(a[1..], b[1..], k - 1, x);
        } else {
          SubsequenceInsert(a, b[1..], k - 1, x);
        }
      }
    }
  }

  /** Chunks that were in the registers before stay there in their order, and the
      chunks left in memory keep theirs. */
  ghost predicate InOrder(p: Packing, reg: seq<Chunk>, mem: seq<Chunk>) {
    Subsequence(Keys(reg), Keys(p.reg)) && Subsequence(Keys(p.processed) + Keys(p.queue), Keys(mem))
  }

  lemma StepInOrder(p: Packing, word: nat, noVariable: bool, reg: seq<Chunk>, mem: seq<Chunk>)
    requires Sound(p) && p.queue != [] && InOrder(p, reg, mem)
    ensures InOrder(Step(p, word, noVariable), reg, mem)
  {
    hide Step, Accepts, Trial, Keys, Shape, Placeable, Subsequence;
    var q, c := Step(p, word, noVariable), p.queue[0];
    StepShape(p, word, noVariable);
    KeysHead(p.queue);
    if Accepts(p) {
      TrialSize(p);
      ShapeKeys(q.reg, Trial(p.reg, c));
      TrialKeys(p.reg, c);
      assert Keys(p.reg)[..Place(p.reg, c)] + Keys(p.reg)[Place(p.reg, c)..] == Keys(p.reg);
      SubsequenceInsert(Keys(reg), Keys(p.reg), Place(p.reg, c), Key(c));
      assert Keys(p.processed) + Keys(p.queue) == Keys(p.processed) + [Key(c)] + Keys(p.queue[1..]);
      SubsequenceRemove(Keys(p.processed), Key(c), Keys(p.queue[1..]), Keys(mem));
    } else {
      ShapeKeys(q.reg, p.reg);
      var d :| q.processed == p.processed + [d] && Key(d) == Key(c);
      ShapeConcat(p.processed, [d]);
      KeysOne(d);
      assert Keys(q.processed) + Keys(q.queue) == Keys(p.processed) + Keys(p.queue);
    }
  }

  lemma KeysHead(s: seq<Chunk>)
    requires s != []
    ensures Keys(s) == [Key(s[0])] + Keys(s[1..])
  {
  }

  // ---------------------------------------------------------------- budget

  /** The register list fits into the words that the flag leaves available, and
      `remaining` is what is free of them once a chunk has been accepted. */
  ghost predicate Budget(p: Packing, pinned: nat, word: nat, words: int) {
    Sound(p) && |p.reg| >= pinned &&
    p.maxBytes == Capacity(p, word, words) && LayoutEnd(p.reg, 0) <= p.maxBytes &&
    p.remaining == p.maxBytes - if |p.reg| == pinned then 0 else LayoutEnd(p.reg, 0)
  }

  function Capacity(p: Packing, word: nat, words: int): int {
    word * (if p.needMemoryMessage then words - 2 else words)
  }

  lemma StepBudget(p: Packing, word: nat, noVariable: bool, pinned: nat, words: int)
    requires Budget(p, pinned, word, words) && p.queue != []
    ensures Budget(Step(p, word, noVariable), pinned, word, words)
  {
    hide LayoutEnd, Laid, Keys, Shape, Placeable, Trial;
    var q, c := Step(p, word, noVariable), p.queue[0];
    StepShape(p, word, noVariable);
    StepSizes(p, word, noVariable);
    if Accepts(p) {
      TrialSize(p);
      ShapeKeys(q.reg, Trial(p.reg, c));
      LayoutEndOfKeys(q.reg, Trial(p.reg, c), 0);
      assert word * (words - 2) + 2 * word == word * words;
    } else {
      ShapeKeys(q.reg, p.reg);
      LayoutEndOfKeys(q.reg, p.reg, 0);
    }
  }

  // ---------------------------------------------------------------- why the leftovers stay

  /** The chunk is too large for what remains, or fails the trial layout. */
  predicate Stuck(p: Packing, c: Chunk)
    requires Sound(p) && c.size >= 0 && c.alignment > 0
  {
    c.size > p.remaining || TrialEnd(p.reg, c) > p.maxBytes
  }

  ghost predicate AllStuck(p: Packing, s: seq<Chunk>)
    requires Sound(p)
  {
    forall c :: c in s ==> c.size >= 0 && c.alignment > 0 && Stuck(p, c)
  }

  ghost predicate SameFrame(p: Packing, q: Packing) {
    Shape(q.reg) == Shape(p.reg) && q.maxBytes == p.maxBytes && q.remaining == p.remaining
    && q.needMemoryMessage == p.needMemoryMessage
  }

  lemma StuckInFrame(p: Packing, q: Packing, c: Chunk, d: Chunk)
    requires Sound(p) && Sound(q) && SameFrame(p, q) && c.size >= 0 && c.alignment > 0 && Key(c) == Key(d)
    ensures d.size >= 0 && d.alignment > 0 && (Stuck(p, c) <==> Stuck(q, d))
  {
    hide TrialEnd;
    TrialEndOfShape(p.reg, q.reg, c, d);
    assert d.size == Key(d).size == c.size;
  }

  lemma StepStuck(p: Packing, word: nat, noVariable: bool)
    requires Sound(p) && p.queue != [] && !Accepts(p) && AllStuck(p, p.processed)
    ensures var q := Step(p, word, noVariable); Sound(q) && SameFrame(p, q) && AllStuck(q, q.processed)
  {
    hide TrialEnd, Stuck, Keys, Shape, Placeable, Trial, Laid;
    var q, c := Step(p, word, noVariable), p.queue[0];
    StepShape(p, word, noVariable);
    RejectedFrame(p, word, noVariable);
    var d :| q.processed == p.processed + [d] && Key(d) == Key(c);
    RejectedIsStuck(p);
    forall x | x in q.processed
      ensures x.size >= 0 && x.alignment > 0 && Stuck(q, x)
    {
      if x in p.processed {
        StuckInFrame(p, q, x, x);
      } else {
        StuckInFrame(p, q, c, d);
      }
    }
  }

  lemma RejectedFrame(p: Packing, word: nat, noVariable: bool)
    requires Sound(p) && p.queue != [] && !Accepts(p)
    ensures SameFrame(p, Step(p, word, noVariable))
  {
    hide LayoutEnd, Laid, Trial;
    StepShape(p, word, noVariable);
  }

  lemma RejectedIsStuck(p: Packing)
    requires Sound(p) && p.queue != [] && !Accepts(p)
    ensures p.queue[0].size >= 0 && p.queue[0].alignment > 0 && Stuck(p, p.queue[0])
  {
    assert p.queue[0] in p.queue;
  }

  lemma {:induction false} PassStuck(p: Packing, word: nat, noVariable: bool)
    requires Sound(p) && AllStuck(p, p.processed) && |Pass(p, word, noVariable).reg| == |p.reg|
    ensures var q := Pass(p, word, noVariable); SameFrame(p, q) && AllStuck(q, q.processed)
    decreases |p.queue|
  {
    hide AllStuck, Step, Accepts, Sound;
    if p.queue != [] {
      StepSizes(p, word, noVariable);
      StepStuck(p, word, noVariable);
      PassStuck(Step(p, word, noVariable), word, noVariable);
    }
  }

  /** A pass accepts nothing exactly if every chunk is stuck from the start; the frame then
      stays as it was. */
  lemma {:induction false} PassAcceptsNone(p: Packing, word: nat, noVariable: bool)
    requires Sound(p)
    ensures var q := Pass(p, word, noVariable);
            (|q.reg| == |p.reg| <==> AllStuck(p, p.queue)) && (|q.reg| == |p.reg| ==> SameFrame(p, q))
    decreases |p.queue|
  {
    hide Step, Accepts, Sound, AllStuck, SameFrame;
    if p.queue == [] {
      FrameSelf(p);
    } else {
      StepSizes(p, word, noVariable);
      PassAcceptsNone(Step(p, word, noVariable), word, noVariable);
      StepAcceptsNone(p, word, noVariable);
    }
  }

  lemma FrameSelf(p: Packing)
    requires Sound(p)
    ensures SameFrame(p, p) && AllStuck(p, [])
  {
  }

  lemma StepAcceptsNone(p: Packing, word: nat, noVariable: bool)
    requires Sound(p) && p.queue != []
    ensures var q := Step(p, word, noVariable);
            Sound(q) && q.queue == p.queue[1..]
            && (Accepts(p) ==> !AllStuck(p, p.queue))
            && (!Accepts(p) ==> SameFrame(p, q) && (AllStuck(p, p.queue) <==> AllStuck(q, q.queue))
                                && forall x: Packing :: SameFrame(q, x) ==> SameFrame(p, x))
  {
    hide TrialEnd, Step, Shape, Placeable;
    var q, c := Step(p, word, noVariable), p.queue[0];
    assert c in p.queue;
    StepShape(p, word, noVariable);
    if !Accepts(p) {
      RejectedFrame(p, word, noVariable);
      RejectedIsStuck(p);
      hide Stuck;
      forall x | x in q.queue
        ensures x.size >= 0 && x.alignment > 0 && (Stuck(p, x) <==> Stuck(q, x))
      {
        SoundQueue(q, x);
        StuckInFrame(p, q, x, x);
      }
      assert p.queue == [c] + q.queue;
    }
  }

  lemma SoundQueue(p: Packing, c: Chunk)
    requires Sound(p) && c in p.queue
    ensures c.size >= 0 && c.alignment > 0
  {
  }

  /** A run accepts no chunk at all exactly if each is stuck before it starts. */
  lemma PackAcceptsNone(p: Packing, word: nat, noVariable: bool)
    requires Sound(p) && p.processed == []
    ensures var q := Pack(p, word, noVariable);
            (|q.reg| == |p.reg| <==> AllStuck(p, p.queue)) && (|q.reg| == |p.reg| ==> SameFrame(p, q))
  {
    hide Pass, Placeable, TrialEnd;
    PassAcceptsNone(p.(progress := false), word, noVariable);
  }

  // ---------------------------------------------------------------- whole runs

  /** Everything the packing loop maintains: `reg` and `mem` are the lists it
      started from. */
  ghost predicate Invariant(p: Packing, reg: seq<Chunk>, mem: seq<Chunk>, word: nat, words: int) {
    Budget(p, |reg|, word, words) && InOrder(p, reg, mem) && forall c :: c in p.reg ==> c.prio <= 99
  }

  lemma StepRanks(p: Packing, word: nat, noVariable: bool)
    requires Sound(p) && p.queue != [] && forall c :: c in p.reg ==> c.prio <= 99
    ensures forall c :: c in Step(p, word, noVariable).reg ==> c.prio <= 99
  {
    hide LayoutEnd, Laid, Keys, Placeable, AlignmentPrio;
    var q, c := Step(p, word, noVariable), p.queue[0];
    StepShape(p, word, noVariable);
    forall i | 0 <= i < |q.reg|
      ensures q.reg[i].prio <= 99
    {
      assert Shape(q.reg)[i].prio == q.reg[i].prio;
      if Accepts(p) {
        TrialSize(p);
        TrialRank(p.reg, c, i);
        assert Shape(Trial(p.reg, c))[i].prio == Trial(p.reg, c)[i].prio;
      } else {
        assert Shape(p.reg)[i].prio == p.reg[i].prio && p.reg[i] in p.reg;
      }
    }
  }

  lemma TrialRank(reg: seq<Chunk>, c: Chunk, i: nat)
    requires Placeable(reg) && c.size >= 0 && c.alignment > 0 && i <= |reg|
    requires forall d :: d in reg ==> d.prio <= 99
    ensures Trial(reg, c)[i].prio <= 99
  {
    var k, d := Place(reg, c), Trial(reg, c)[i];
    assert i != k ==> d in reg;
    assert Ranked(c).prio <= 99;
  }

  lemma {:induction false} PassInvariant(p: Packing, reg: seq<Chunk>, mem: seq<Chunk>, word: nat, noVariable: bool,
                                         words: int)
    requires Invariant(p, reg, mem, word, words)
    ensures Invariant(Pass(p, word, noVariable), reg, mem, word, words)
    decreases |p.queue|
  {
    hide Step, LayoutEnd, Subsequence, Keys, Placeable;
    if p.queue != [] {
      StepBudget(p, word, noVariable, |reg|, words);
      StepInOrder(p, word, noVariable, reg, mem);
      StepRanks(p, word, noVariable);
      StepSizes(p, word, noVariable);
      PassInvariant(Step(p, word, noVariable), reg, mem, word, noVariable, words);
    }
  }

  lemma RefillInvariant(p: Packing, reg: seq<Chunk>, mem: seq<Chunk>, word: nat, words: int)
    requires Invariant(p, reg, mem, word, words)
    ensures p.queue == [] ==> Invariant(Refill(p), reg, mem, word, words)
    ensures Invariant(p.(progress := false), reg, mem, word, words)
  {
    assert Keys([]) == [] && Keys(p.processed) + [] == Keys(p.processed) && [] + Keys(p.processed) == Keys(p.processed);
  }

  /** The whole packing run of a channel: the register list never exceeds its
      budget, keeps what was pinned there, and the chunks left in memory keep
      their order; each of them is too large for what remains, or fails the
      trial layout. */
  lemma {:induction false} PackResult(p: Packing, reg: seq<Chunk>, mem: seq<Chunk>, word: nat, noVariable: bool,
                                      words: int)
    requires Invariant(p, reg, mem, word, words) && p.processed == []
    ensures var q := Pack(p, word, noVariable); Invariant(q, reg, mem, word, words) && AllStuck(q, q.queue)
    decreases |p.queue|
  {
    hide Pass, LayoutEnd, Subsequence, Keys, Placeable, AllStuck, InOrder;
    var first := p.(progress := false);
    var r := Pass(first, word, noVariable);
    RefillInvariant(p, reg, mem, word, words);
    PassInvariant(first, reg, mem, word, noVariable, words);
    RefillInvariant(r, reg, mem, word, words);
    if r.progress {
      PackResult(Refill(r), reg, mem, word, noVariable, words);
    } else {
      NothingStuck(first);
      PassStuck(first, word, noVariable);
      RefillStuck(r);
    }
  }

  lemma NothingStuck(p: Packing)
    requires Sound(p) && p.processed == []
    ensures AllStuck(p, p.processed)
  {
  }

  lemma RefillStuck(p: Packing)
    requires Sound(p) && p.queue == [] && AllStuck(p, p.processed)
    ensures Sound(Refill(p)) && AllStuck(Refill(p), Refill(p).queue)
  {
    hide TrialEnd;
  }

  // ---------------------------------------------------------------- the 64 message registers

  /** The memory message is dropped only when no chunk is waiting to be retried. */
  predicate CleanStep(p: Packing, noVariable: bool)
    requires Sound(p) && p.queue != []
  {
    Accepts(p) && p.needMemoryMessage && p.queue[1..] == [] && noVariable ==> p.processed == []
  }

  predicate CleanPass(p: Packing, word: nat, noVariable: bool)
    requires Sound(p)
    decreases |p.queue|
  {
    p.queue != [] ==>
      (StepSizes(p, word, noVariable);
       CleanStep(p, noVariable) && CleanPass(Step(p, word, noVariable), word, noVariable))
  }

  predicate CleanRun(p: Packing, word: nat, noVariable: bool)
    requires Sound(p) && p.processed == []
    decreases |p.queue|
  {
    var first := p.(progress := false);
    CleanPass(first, word, noVariable) &&
    (var r := Pass(first, word, noVariable); r.progress ==> CleanRun(Refill(r), word, noVariable))
  }

  ghost predicate FlagRight(p: Packing) {
    p.needMemoryMessage || (p.queue == [] && p.processed == [])
  }

  lemma {:induction false} CleanPassKeepsFlag(p: Packing, word: nat, noVariable: bool)
    requires Sound(p) && FlagRight(p) && CleanPass(p, word, noVariable)
    ensures FlagRight(Pass(p, word, noVariable))
    decreases |p.queue|
  {
    if p.queue != [] {
      StepSizes(p, word, noVariable);
      StepFlag(p, word, noVariable);
      CleanPassKeepsFlag(Step(p, word, noVariable), word, noVariable);
    }
  }

  lemma StepFlag(p: Packing, word: nat, noVariable: bool)
    requires Sound(p) && p.queue != [] && FlagRight(p) && CleanStep(p, noVariable)
    ensures FlagRight(Step(p, word, noVariable))
  {
    hide LayoutEnd, Laid, Keys, Placeable;
  }

  /** A memory message once dropped is not brought back. */
  lemma {:induction false} PassNeverRestores(p: Packing, word: nat, noVariable: bool)
    requires Sound(p) && !p.needMemoryMessage
    ensures !Pass(p, word, noVariable).needMemoryMessage
    decreases |p.queue|
  {
    hide LayoutEnd, Laid, Keys, Placeable;
    if p.queue != [] {
      StepSizes(p, word, noVariable);
      PassNeverRestores(Step(p, word, noVariable), word, noVariable);
    }
  }

  lemma {:induction false} PackNeverRestores(p: Packing, word: nat, noVariable: bool)
    requires Sound(p) && p.processed == [] && !p.needMemoryMessage
    ensures !Pack(p, word, noVariable).needMemoryMessage
    decreases |p.queue|
  {
    var first := p.(progress := false);
    PassNeverRestores(first, word, noVariable);
    if Pass(first, word, noVariable).progress {
      PackNeverRestores(Refill(Pass(first, word, noVariable)), word, noVariable);
    }
  }

  /** A pass that drops the message too early ends without it and with a rejected chunk. */
  lemma {:induction false} UncleanPass(p: Packing, word: nat, noVariable: bool)
    requires Sound(p) && FlagRight(p) && !CleanPass(p, word, noVariable)
    ensures !Pass(p, word, noVariable).needMemoryMessage
    decreases |p.queue|
  {
    StepSizes(p, word, noVariable);
    var q := Step(p, word, noVariable);
    if CleanStep(p, noVariable) {
      StepFlag(p, word, noVariable);
      UncleanPass(q, word, noVariable);
    } else {
      UncleanStep(p, word, noVariable);
      PassNeverRestores(q, word, noVariable);
    }
  }

  lemma UncleanStep(p: Packing, word: nat, noVariable: bool)
    requires Sound(p) && p.queue != [] && !CleanStep(p, noVariable)
    ensures !Step(p, word, noVariable).needMemoryMessage
  {
    hide LayoutEnd, Laid, Keys, Placeable;
  }

  /** The finished run has its memory message whenever a chunk stays in memory exactly if
      the message was never dropped while a rejected chunk waited, or nothing stays. */
  lemma {:induction false} FlagExact(p: Packing, word: nat, noVariable: bool)
    requires Sound(p) && p.processed == [] && FlagRight(p)
    ensures FlagRight(Pack(p, word, noVariable)) <==>
              CleanRun(p, word, noVariable) || Pack(p, word, noVariable).queue == []
    decreases |p.queue|
  {
    hide Pass, CleanPass;
    var first := p.(progress := false);
    var r := Pass(first, word, noVariable);
    if CleanPass(first, word, noVariable) {
      CleanPassKeepsFlag(first, word, noVariable);
      if r.progress {
        FlagExact(Refill(r), word, noVariable);
      }
    } else {
      UncleanPass(first, word, noVariable);
      if r.progress {
        PackNeverRestores(Refill(r), word, noVariable);
      }
    }
  }

  /** Message registers of the finished message, the tag included: whole words of
      the register layout, two for each typed item, two for a memory message. */
  function MessageWords(p: Packing, word: nat, typed: nat, noVariable: bool): int
    requires Sound(p) && word > 0
  {
    RoundUp(LayoutEnd(p.reg, 0), word) / word + 2 * typed
    + if p.queue == [] && p.processed == [] && noVariable then 0 else 2
  }

  lemma WordsOf(bytes: int, word: nat, n: int)
    requires word > 0 && 0 <= bytes <= word * n
    ensures RoundUp(bytes, word) / word <= n
  {
    var r := RoundUp(bytes, word);
    var q := r / word;
    assert r == word * q;
    MultipleOf(word, n);
    MultiplesApart(r, word * n, word);
    assert q >= n + 1 ==> word * q >= word * n + word;
  }

  /** Where the flag is right the message leaves the 64 message registers a spare. */
  lemma MessageFits(p: Packing, pinned: nat, word: nat, typed: nat, noVariable: bool)
    requires word > 0 && Budget(p, pinned, word, 63 - 2 * typed)
    requires FlagRight(p) && (noVariable || p.needMemoryMessage)
    ensures MessageWords(p, word, typed, noVariable) <= 63
  {
    WordsOf(LayoutEnd(p.reg, 0), word, if p.needMemoryMessage then 61 - 2 * typed else 63 - 2 * typed);
  }

  /** State before packing: the budget assumes a memory message unless memory is
      empty to begin with; each typed item takes two registers. */
  function Start(reg: seq<Chunk>, mem: seq<Chunk>, typed: nat, word: nat, noVariable: bool): Packing {
    var need := mem != [] || !noVariable;
    var bytes := word * (if need then 61 - 2 * typed else 63 - 2 * typed);
    Packing(reg, mem, [], need, bytes, bytes, false)
  }

  /** The number of registers left is odd, so unless it is negative the tag fits. */
  lemma TagFits(tag: Chunk, mem: seq<Chunk>, typed: nat, word: nat, noVariable: bool)
    requires word > 0 && tag.size == word && tag.alignment == word && tag.prio <= 99
    requires Placeable(mem)
    ensures Start([tag], mem, typed, word, noVariable).maxBytes >= 0 ==>
              Invariant(Start([tag], mem, typed, word, noVariable), [tag], mem, word, 63 - 2 * typed)
  {
    var p := Start([tag], mem, typed, word, noVariable);
    TagEnd(tag, word);
    SubsequenceSelf(Keys([tag]));
    SubsequenceSelf(Keys(mem));
    assert Keys([]) + Keys(mem) == Keys(mem);
    var n := if p.needMemoryMessage then 61 - 2 * typed else 63 - 2 * typed;
    OddWords(word, n);
  }

  lemma TagEnd(tag: Chunk, word: nat)
    requires word > 0 && tag.size == word && tag.alignment == word
    ensures Placeable([tag]) && LayoutEnd([tag], 0) == word
  {
    assert RoundUp(0, word) == 0 && [tag][1..] == [];
  }

  lemma OddWords(word: nat, n: int)
    requires word > 0 && n % 2 == 1
    ensures word * n >= 0 ==> word * n >= word
  {
    if n < 0 {
      assert word * n < 0;
    } else {
      assert n >= 1 && word * n >= word;
    }
  }

  /** The message of a finished run needs more than 63 registers, the tag included, exactly
      if a chunk stayed in memory and the packing went beyond the capacity it started with.
      That takes an early release. */
  lemma MessageFitsExactly(reg: seq<Chunk>, mem: seq<Chunk>, typed: nat, word: nat, noVariable: bool)
    requires word > 0
    requires Invariant(Start(reg, mem, typed, word, noVariable), reg, mem, word, 63 - 2 * typed)
    ensures var p := Start(reg, mem, typed, word, noVariable);
            var q := Pack(p, word, noVariable);
            (MessageWords(q, word, typed, noVariable) > 63 <==> q.queue != [] && LayoutEnd(q.reg, 0) > p.maxBytes)
            && (MessageWords(q, word, typed, noVariable) > 63 ==> !CleanRun(p, word, noVariable))
  {
    hide Pack, CleanRun, InOrder, LayoutEnd, Placeable, AllStuck, RoundUp;
    var p := Start(reg, mem, typed, word, noVariable);
    var q := Pack(p, word, noVariable);
    StartFlag(reg, mem, typed, word, noVariable);
    PackResult(p, reg, mem, word, noVariable, 63 - 2 * typed);
    FlagExact(p, word, noVariable);
    if !noVariable {
      VariableKeepsFlag(p, word);
    }
    if CleanRun(p, word, noVariable) || q.queue == [] {
      MessageFits(q, |reg|, word, typed, noVariable);
    } else {
      EmptyNeedsNone(p, word, noVariable);
      WordsExact(LayoutEnd(q.reg, 0), word, 61 - 2 * typed);
    }
  }

  lemma StartFlag(reg: seq<Chunk>, mem: seq<Chunk>, typed: nat, word: nat, noVariable: bool)
    ensures FlagRight(Start(reg, mem, typed, word, noVariable))
  {
  }

  lemma EmptyNeedsNone(p: Packing, word: nat, noVariable: bool)
    requires Sound(p) && p.processed == []
    ensures p.queue == [] ==> Pack(p, word, noVariable).queue == []
  {
  }

  lemma WordsExact(bytes: int, word: nat, n: int)
    requires word > 0 && 0 <= bytes
    ensures RoundUp(bytes, word) / word <= n <==> bytes <= word * n
  {
    var r := RoundUp(bytes, word);
    var q := r / word;
    assert r == word * q;
    MultipleOf(word, n);
    if bytes <= word * n {
      MultiplesApart(r, word * n, word);
      assert q >= n + 1 ==> word * q >= word * n + word;
    } else {
      assert q <= n ==> word * q <= word * n;
    }
  }

  lemma {:induction false} VariablePassKeepsFlag(p: Packing, word: nat)
    requires Sound(p) && p.needMemoryMessage
    ensures Pass(p, word, false).needMemoryMessage
    decreases |p.queue|
  {
    hide LayoutEnd, Laid, Keys, Placeable;
    if p.queue != [] {
      StepSizes(p, word, false);
      VariablePassKeepsFlag(Step(p, word, false), word);
    }
  }

  /** With variable-size chunks in memory the memory message is never dropped. */
  lemma {:induction false} VariableKeepsFlag(p: Packing, word: nat)
    requires Sound(p) && p.processed == [] && p.needMemoryMessage
    ensures Pack(p, word, false).needMemoryMessage
    decreases |p.queue|
  {
    var first := p.(progress := false);
    VariablePassKeepsFlag(first, word);
    if Pass(first, word, false).progress {
      VariableKeepsFlag(Refill(Pass(first, word, false)), word);
    }
  }

  // ---------------------------------------------------------------- the loops

  /** The loop of the optimizer over the fixed-size chunks of a channel. */
  method PackFixed(start: Packing, word: nat, noVariable: bool) returns (end: Packing)
    requires Sound(start) && start.processed == [] && UniqueIds(Population(start))
    ensures end == Pack(start, word, noVariable)
  {
    end := start;
    var madeProgress := true;
    while madeProgress
      invariant Sound(end) && end.processed == [] && Population(end) == Population(start)
      invariant if madeProgress then Pack(end, word, noVariable) == Pack(start, word, noVariable)
                else end == Pack(start, word, noVariable)
      decreases |end.queue|, madeProgress
    {
      RestartConserves(end);
      PassConserves(end.(progress := false), word, noVariable);
      end := DrainQueue(end.(progress := false), word, noVariable);
      RefillConserves(end);
      madeProgress := end.progress;
      end := end.(queue := end.processed, processed := []);
    }
  }

  method DrainQueue(p: Packing, word: nat, noVariable: bool) returns (q: Packing)
    requires Sound(p) && UniqueIds(Population(p))
    ensures q == Pass(p, word, noVariable)
  {
    hide Step, Sound, Population;
    q := p;
    while q.queue != []
      invariant Sound(q) && Population(q) == Population(p) && Pass(q, word, noVariable) == Pass(p, word, noVariable)
      decreases |q.queue|
    {
      StepSizes(q, word, noVariable);
      StepConserves(q, word, noVariable);
      q := TryFirst(q, word, noVariable);
    }
  }

  /** Takes the first chunk of the memory list and tries it in the registers. */
  method TryFirst(p: Packing, word: nat, noVariable: bool) returns (q: Packing)
    requires Sound(p) && p.queue != [] && UniqueIds(Population(p))
    ensures q == Step(p, word, noVariable)
  {
    hide Laid, LayoutEnd, Keys, Shape, InsertPos, UniqueIds, Population;
    var chunk := p.queue[0];
    assert chunk in p.queue;
    q := p.(queue := p.queue[1..]);
    if chunk.size <= p.remaining {
      var reg := AddWithPrio(p.reg, chunk, AlignmentPrio(chunk.size));
      var laid, bytesCurrentlyUsed := LayoutList(reg);
      if bytesCurrentlyUsed <= p.maxBytes {
        q := q.(reg := laid, progress := true);
        if q.needMemoryMessage && q.queue == [] && noVariable {
          q := q.(needMemoryMessage := false, maxBytes := q.maxBytes + 2 * word);
        }
        q := q.(remaining := q.maxBytes - bytesCurrentlyUsed);
      } else {
        NewInRegisters(p, laid);
        var rest, removed := RemoveElement(laid, chunk.id, Place(p.reg, chunk));
        q := q.(reg := rest, processed := q.processed + [removed]);
      }
    } else {
      q := q.(processed := q.processed + [chunk]);
    }
  }

  /** The chunk on trial is the first in the list to carry its ID. */
  lemma NewInRegisters(p: Packing, laid: seq<Chunk>)
    requires Sound(p) && p.queue != [] && UniqueIds(Population(p))
    requires p.queue[0].size >= 0 && p.queue[0].alignment > 0 && laid == Laid(Trial(p.reg, p.queue[0]), 0)
    ensures var k := Place(p.reg, p.queue[0]);
            k < |laid| && laid[k].id == p.queue[0].id && forall i :: 0 <= i < k ==> laid[i].id != p.queue[0].id
  {
    var c, k := p.queue[0], Place(p.reg, p.queue[0]);
    LaidKeeps(Trial(p.reg, c), 0);
    forall i | 0 <= i < k
      ensures laid[i].id != c.id
    {
      assert laid[i].id == p.reg[i].id;
      DifferentIds(p, i, 0);
    }
  }

  lemma DifferentIds(p: Packing, i: nat, j: nat)
    requires UniqueIds(Population(p)) && i < |p.reg| && j < |p.queue|
    ensures p.reg[i].id != p.queue[j].id
  {
    var a, b := Key(p.reg[i]), Key(p.queue[j]);
    assert Keys(p.reg)[i] == a && Keys(p.queue)[j] == b;
    assert a in multiset(Keys(p.reg)) && b in multiset(Keys(p.queue));
    var m := Population(p);
    assert m[a] >= 1 && m[b] >= 1;
    assert a == b ==> m[a] >= 2;
  }
}
