/** A whole message channel: packing of fixed and variable-size chunks, the
    buffers for variable-size data, and the memory layout. */
module Channels {
  import opened Layout
  import opened Packing
  import opened VariableChunks
  import opened Wrappers

  // ---------------------------------------------------------------- stored offsets

  /** Offsets are aligned and the chunks do not overlap, in list order. */
  ghost predicate Placed(s: seq<Chunk>) {
    (forall i :: 0 <= i < |s| ==> Aligned(s[i]) && s[i].offset >= 0) &&
    (forall i, j :: 0 <= i < j < |s| ==> s[i].offset + s[i].size <= s[j].offset)
  }

  lemma LaidIsPlaced(s: seq<Chunk>)
    requires Placeable(s)
    ensures Placed(Laid(s, 0))
  {
    LaidIsArranged(s, 0);
  }

  lemma PlacedWithout(s: seq<Chunk>, k: nat)
    requires Placed(s) && k < |s|
    ensures Placed(s[..k] + s[k + 1..])
  {
    hide Aligned;
    var rest := s[..k] + s[k + 1..];
    assert forall i :: 0 <= i < |rest| ==> rest[i] == s[if i < k then i else i + 1];
  }

  /** A chunk on trial is laid out with the register list, accepted or not; a chunk too
      large to be tried leaves the list alone. */
  lemma StepPlaced(p: Packing, word: nat, noVariable: bool)
    requires Sound(p) && p.queue != []
    ensures var q := Step(p, word, noVariable);
            if p.queue[0].size <= p.remaining then Placed(q.reg) else q.reg == p.reg && q.remaining == p.remaining
  {
    hide Laid, LayoutEnd, Placed;
    var c := p.queue[0];
    assert c in p.queue;
    if c.size <= p.remaining {
      var t := Trial(p.reg, c);
      LaidIsPlaced(t);
      if !Accepts(p) {
        LaidKeeps(t, 0);
        PlacedWithout(Laid(t, 0), Place(p.reg, c));
      }
    }
  }

  /** Some chunk is small enough to be tried. */
  ghost predicate Tried(p: Packing) {
    exists c :: c in p.queue && c.size <= p.remaining
  }

  lemma TriedFirst(p: Packing)
    requires p.queue != []
    ensures Tried(p) <==> p.queue[0].size <= p.remaining || Tried(p.(queue := p.queue[1..]))
  {
    var rest := p.(queue := p.queue[1..]);
    if Tried(p) && p.queue[0].size > p.remaining {
      var c :| c in p.queue && c.size <= p.remaining;
      assert c in rest.queue;
    }
  }

  lemma TriedOfFrame(p: Packing, q: Packing)
    requires p.queue == q.queue && p.remaining == q.remaining
    ensures Tried(p) <==> Tried(q)
  {
  }

  lemma {:induction false} PassPlaced(p: Packing, word: nat, noVariable: bool)
    requires Sound(p)
    ensures var q := Pass(p, word, noVariable);
            (Placed(q.reg) <==> Placed(p.reg) || Tried(p)) && (!Tried(p) ==> q.reg == p.reg && q.progress == p.progress)
    decreases |p.queue|
  {
    hide Step, Placed, Placeable, Accepts, Tried;
    if p.queue == [] {
      NothingTried(p);
    } else {
      var q := Step(p, word, noVariable);
      StepSizes(p, word, noVariable);
      StepShape(p, word, noVariable);
      StepPlaced(p, word, noVariable);
      TriedFirst(p);
      PassPlaced(q, word, noVariable);
      if p.queue[0].size > p.remaining {
        TriedOfFrame(p.(queue := p.queue[1..]), q);
      }
    }
  }

  lemma NothingTried(p: Packing)
    requires p.queue == []
    ensures !Tried(p)
  {
  }

  /** The offsets in the finished register list are aligned and disjoint exactly if they
      were before or some chunk was small enough to be tried. */
  lemma {:induction false} PackPlaced(p: Packing, word: nat, noVariable: bool)
    requires Sound(p) && p.processed == []
    ensures Placed(Pack(p, word, noVariable).reg) <==> Placed(p.reg) || Tried(p)
    decreases |p.queue|
  {
    hide Placed, Pass, Placeable, Tried;
    var first := p.(progress := false);
    PassPlaced(first, word, noVariable);
    TriedOfFrame(p, first);
    var r := Pass(first, word, noVariable);
    if r.progress {
      PackPlaced(Refill(r), word, noVariable);
    }
  }

  // ---------------------------------------------------------------- where a chunk is found

  ghost predicate Holds(s: seq<Chunk>, id: nat) {
    exists i :: 0 <= i < |s| && s[i].id == id
  }

  ghost predicate HasId(m: multiset<Chunk>, id: nat) {
    exists k :: k in m && k.id == id
  }

  lemma HoldsKeys(s: seq<Chunk>, id: nat)
    ensures Holds(s, id) <==> HasId(multiset(Keys(s)), id)
  {
    if Holds(s, id) {
      var i :| 0 <= i < |s| && s[i].id == id;
      assert Keys(s)[i].id == id && Keys(s)[i] in multiset(Keys(s));
    }
    if HasId(multiset(Keys(s)), id) {
      var k :| k in multiset(Keys(s)) && k.id == id;
      var i :| 0 <= i < |s| && Keys(s)[i] == k;
      assert s[i].id == id;
    }
  }

  lemma HasIdSum(a: multiset<Chunk>, b: multiset<Chunk>, id: nat)
    ensures HasId(a + b, id) <==> HasId(a, id) || HasId(b, id)
  {
    if HasId(a, id) {
      var k :| k in a && k.id == id;
      assert k in a + b;
    }
    if HasId(b, id) {
      var k :| k in b && k.id == id;
      assert k in a + b;
    }
  }

  /** An ID is held by one of two lists. */
  lemma HoldsAll(s: seq<Chunk>, t: seq<Chunk>, id: nat)
    ensures Holds(s, id) || Holds(t, id) <==> HasId(AllChunks(s, t), id)
  {
    hide HasId, Holds, Keys;
    HoldsKeys(s, id);
    HoldsKeys(t, id);
    HasIdSum(multiset(Keys(s)), multiset(Keys(t)), id);
  }

  ghost function AllChunks(s: seq<Chunk>, t: seq<Chunk>): multiset<Chunk> {
    multiset(Keys(s)) + multiset(Keys(t))
  }

  /** Each chunk with an ID up to `last` that was in one of the lists reg and mem is in one
      of reg' and mem' afterwards, no other is, and no ID is in both or twice in one. */
  ghost predicate InOneList(reg: seq<Chunk>, mem: seq<Chunk>, reg': seq<Chunk>, mem': seq<Chunk>, last: nat) {
    (forall id: nat :: id <= last ==> (Holds(reg, id) || Holds(mem, id) <==> Holds(reg', id) || Holds(mem', id))) &&
    (forall id: nat :: !(Holds(reg', id) && Holds(mem', id))) &&
    UniqueIds(AllChunks(reg', mem'))
  }

  /** Conserving the chunks, with nothing added but chunks that carry new IDs, keeps each ID
      in exactly one list. */
  lemma ConservedInOneList(reg: seq<Chunk>, mem: seq<Chunk>, reg': seq<Chunk>, mem': seq<Chunk>, extra: seq<Chunk>,
                           last: nat)
    requires AllChunks(reg', mem') == AllChunks(reg, mem) + multiset(Keys(extra))
    requires UniqueIds(AllChunks(reg', mem')) && forall c :: c in extra ==> c.id > last
    ensures InOneList(reg, mem, reg', mem', last)
  {
    hide Keys, Holds, UniqueIds, HasId, AllChunks;
    forall id: nat | id <= last
      ensures Holds(reg, id) || Holds(mem, id) <==> Holds(reg', id) || Holds(mem', id)
    {
      HoldsAll(reg, mem, id);
      HoldsAll(reg', mem', id);
      HoldsKeys(extra, id);
      NotHeld(extra, id);
      HasIdSum(AllChunks(reg, mem), multiset(Keys(extra)), id);
    }
    forall id: nat
      ensures !(Holds(reg', id) && Holds(mem', id))
    {
      HeldOnce(reg', mem', id);
    }
  }

  lemma NotHeld(s: seq<Chunk>, id: nat)
    requires forall c :: c in s ==> c.id > id
    ensures !Holds(s, id)
  {
  }

  lemma HeldOnce(s: seq<Chunk>, t: seq<Chunk>, id: nat)
    requires UniqueIds(AllChunks(s, t))
    ensures !(Holds(s, id) && Holds(t, id))
  {
    HoldsKeys(s, id);
    HoldsKeys(t, id);
    forall a, b | a in multiset(Keys(s)) && b in multiset(Keys(t))
      ensures a.id != b.id
    {
      var m := AllChunks(s, t);
      assert m[a] >= 1 && m[b] >= 1;
      assert a == b ==> m[a] >= 2;
    }
  }

  lemma PopulationParts(p: Packing)
    requires p.processed == []
    ensures Population(p) == AllChunks(p.reg, p.queue)
  {
    assert Keys([]) == [];
  }

  // ---------------------------------------------------------------- the register buffer for variable-size data

  /** Bytes left after packing, rounded down to whole words. */
  function VarBudget(p: Packing, word: nat): int
    requires word > 0
  {
    RoundDown(p.remaining, word)
  }

  lemma CapacityIsMultiple(p: Packing, word: nat, words: int)
    requires word > 0
    ensures Capacity(p, word, words) % word == 0
  {
    MultipleOf(word, if p.needMemoryMessage then words - 2 else words);
  }

  lemma AppendAtEnd(s: seq<Chunk>, c: Chunk)
    requires forall d :: d in s ==> d.prio <= c.prio
    ensures Insert(s, c) == s + [c]
  {
    InsertPosUnique(s, c.prio, |s|);
  }

  lemma EndWithBuffer(reg: seq<Chunk>, buffer: Chunk, word: nat)
    requires Placeable(reg) && word > 0 && buffer.alignment == word && buffer.size >= 0
    ensures Placeable(reg + [buffer]) && LayoutEnd(reg + [buffer], 0) == RoundUp(LayoutEnd(reg, 0), word) + buffer.size
  {
    assert Placeable([buffer]) && [buffer][1..] == [];
    LayoutEndConcat(reg, [buffer], 0);
  }

  /** If a fixed-size chunk was accepted the buffer fits: the room the registers take was
      subtracted then. */
  lemma BufferAfterAccepted(p: Packing, pinned: nat, word: nat, words: int, buffer: Chunk, left: int)
    requires word > 0 && Budget(p, pinned, word, words)
    requires buffer.alignment == word && buffer.size == VarBudget(p, word) - left && buffer.size >= 0 && left >= 0
    ensures Placeable(p.reg + [buffer])
    ensures LayoutEnd(p.reg + [buffer], 0) == RoundUp(LayoutEnd(p.reg, 0), word) + buffer.size
    ensures |p.reg| != pinned ==> LayoutEnd(p.reg + [buffer], 0) <= p.maxBytes
  {
    hide LayoutEnd, RoundUp, RoundDown;
    EndWithBuffer(p.reg, buffer, word);
    CapacityIsMultiple(p, word, words);
    if |p.reg| != pinned {
      DownAndUp(p.maxBytes, LayoutEnd(p.reg, 0), word);
    }
  }

  /** No fixed-size chunk can be accepted, so nothing is subtracted for what the registers
      hold from the start; and the variable-size chunks that are moved leave less than that. */
  ghost predicate BufferOverflows(p: Packing, variable: seq<Chunk>, word: nat)
    requires Sound(p) && word > 0
  {
    var left := LeftOver(variable, p.remaining, word);
    AllStuck(p, p.queue) && left < p.remaining && left < RoundUp(LayoutEnd(p.reg, 0), word)
  }

  /** The budget for variable-size data and the bytes of it that get used. */
  function UsedBytes(p: Packing, variable: seq<Chunk>, word: nat): int
    requires word > 0
  {
    VarBudget(p, word) - LeftOver(variable, VarBudget(p, word), word)
  }

  /** The buffer for moved variable-size data overflows the packed registers exactly if the
      channel met the condition before it was packed. */
  lemma BufferOverflow(p: Packing, word: nat, words: int, variable: seq<Chunk>, buffer: Chunk)
    requires word > 0 && Invariant(p, p.reg, p.queue, word, words) && p.processed == [] && Sized(variable)
    requires buffer.alignment == word && buffer.size == UsedBytes(Pack(p, word, variable == []), variable, word)
    ensures var q := Pack(p, word, variable == []);
            Placeable(q.reg + [buffer])
            && (buffer.size > 0 && LayoutEnd(q.reg + [buffer], 0) > q.maxBytes <==> BufferOverflows(p, variable, word))
  {
    hide Pack, LayoutEnd, RoundUp, RoundDown, InOrder, AllStuck, LeftOver, Shape, Keys, Placeable, Sized;
    var q := Pack(p, word, variable == []);
    PackResult(p, p.reg, p.queue, word, variable == [], words);
    PackAcceptsNone(p, word, variable == []);
    DownIsMultiple(q.remaining, word);
    LeftOverUses(variable, VarBudget(q, word), word);
    if buffer.size > 0 {
      BufferAfterAccepted(q, |p.reg|, word, words, buffer, LeftOver(variable, VarBudget(q, word), word));
    } else {
      EndWithBuffer(q.reg, buffer, word);
    }
    if |q.reg| == |p.reg| {
      CapacityIsMultiple(p, word, words);
      WholeWords(p.remaining, word);
      ShapeKeys(q.reg, p.reg);
      LayoutEndOfKeys(q.reg, p.reg, 0);
    }
  }

  lemma WholeWords(x: int, word: nat)
    requires word > 0 && x % word == 0
    ensures RoundDown(x, word) == x
  {
  }

  /** Every variable-size chunk comes with a fixed-size one for its length, one word. */
  ghost predicate LengthsPresent(fixed: seq<Chunk>, variable: seq<Chunk>, word: nat) {
    forall v :: v in variable ==> exists c :: c in fixed && c.id == v.id && c.size == word && c.alignment == word
  }

  /** With nothing but the tag in the registers, a length for each variable-size chunk and no
      empty fixed-size chunk, the buffer overflows exactly if one word is available and a
      nonempty variable-size chunk fits it. */
  lemma BufferOverflowWithLengths(tag: Chunk, fixed: seq<Chunk>, variable: seq<Chunk>, typed: nat, word: nat)
    requires word > 0 && tag.size == word && tag.alignment == word
    requires Placeable(fixed) && (forall c :: c in fixed ==> c.size > 0) && Sized(variable)
    requires LengthsPresent(fixed, variable, word)
    requires Start([tag], fixed, typed, word, variable == []).maxBytes >= 0
    ensures var p := Start([tag], fixed, typed, word, variable == []);
            Sound(p)
            && (BufferOverflows(p, variable, word) <==> typed == 30 && exists v :: v in variable && 1 <= v.size <= word)
  {
    hide LayoutEnd, RoundUp, TrialEnd, LeftOver, Trial;
    var p := Start([tag], fixed, typed, word, variable == []);
    TagEnd(tag, word);
    MultipleOf(word, if p.needMemoryMessage then 61 - 2 * typed else 63 - 2 * typed);
    LeftOverUses(variable, p.remaining, word);
    UpIsSame(word, word);
    if BufferOverflows(p, variable, word) {
      var v :| v in variable && 1 <= v.size <= p.remaining;
      var c :| c in fixed && c.id == v.id && c.size == word && c.alignment == word;
      LengthBesideTag(tag, c, word);
      OneWord(word, 61 - 2 * typed);
    }
    if typed == 30 && exists v :: v in variable && 1 <= v.size <= word {
      forall c | c in fixed
        ensures Stuck(p, c)
      {
        ChunkBesideTag(tag, c, word);
      }
    }
  }

  lemma UpIsSame(x: int, word: nat)
    requires word > 0 && x % word == 0
    ensures RoundUp(x, word) == x
  {
  }

  lemma OneWord(word: nat, n: int)
    requires word > 0 && n % 2 == 1 && 0 <= word * n < 2 * word
    ensures n == 1
  {
    OddWords(word, n);
    assert n >= 2 ==> word * n >= word * 2;
    assert n <= 0 ==> word * n <= 0;
  }

  lemma LengthBesideTag(tag: Chunk, c: Chunk, word: nat)
    requires word > 0 && tag.size == tag.alignment == c.size == c.alignment == word
    ensures Placeable([tag]) && TrialEnd([tag], c) == 2 * word
  {
    hide RoundUp;
    EndOfTwo(tag, Ranked(c));
    EndOfTwo(Ranked(c), tag);
    UpIsSame(0, word);
    UpIsSame(word, word);
    TrialOfOne(tag, c);
  }

  lemma ChunkBesideTag(tag: Chunk, c: Chunk, word: nat)
    requires word > 0 && tag.size == tag.alignment == word && c.size > 0 && c.alignment > 0
    ensures Placeable([tag]) && TrialEnd([tag], c) > word
  {
    hide RoundUp;
    EndOfTwo(tag, Ranked(c));
    EndOfTwo(Ranked(c), tag);
    TrialOfOne(tag, c);
  }

  lemma TrialOfOne(tag: Chunk, c: Chunk)
    requires Placeable([tag]) && c.size >= 0 && c.alignment > 0
    ensures Trial([tag], c) == [tag, Ranked(c)] || Trial([tag], c) == [Ranked(c), tag]
  {
  }

  lemma EndOfTwo(a: Chunk, b: Chunk)
    requires Placeable([a, b])
    ensures LayoutEnd([a, b], 0) == RoundUp(RoundUp(0, a.alignment) + a.size, b.alignment) + b.size
  {
    hide RoundUp, LayoutEnd, Laid;
    assert [a, b][1..] == [b] && [b][1..] == [];
    LaidStep([a, b], 0);
    LaidStep([b], RoundUp(0, a.alignment) + a.size);
    LaidNothing(RoundUp(RoundUp(0, a.alignment) + a.size, b.alignment) + b.size);
  }

  /** Without a tag, as in the reply channel of a oneway operation, it never overflows. */
  lemma NoOverflowWithoutTag(fixed: seq<Chunk>, variable: seq<Chunk>, typed: nat, word: nat)
    requires word > 0 && Placeable(fixed) && Sized(variable)
    ensures var p := Start([], fixed, typed, word, variable == []); Sound(p) && !BufferOverflows(p, variable, word)
  {
    hide LeftOver, AllStuck;
    var p := Start([], fixed, typed, word, variable == []);
    MultipleOf(word, if p.needMemoryMessage then 61 - 2 * typed else 63 - 2 * typed);
    LeftOverUses(variable, p.remaining, word);
    UpIsSame(0, word);
  }

  lemma TwoChunksUnique(p: Packing, a: Chunk, b: Chunk)
    requires p.reg == [a] && p.queue == [b] && p.processed == [] && a.id != b.id
    ensures UniqueIds(Population(p))
  {
    assert Keys([a]) == [Key(a)] && Keys([b]) == [Key(b)] && Keys([]) == [];
    assert Population(p) == multiset{Key(a), Key(b)};
  }

  /** A channel of 4-byte words, 30 typed items, one bounded array of up to four bytes and
      its length, whose buffer overflows. */
  lemma BufferOverflowExists(tag: Chunk, length: Chunk, data: Chunk)
    requires tag == Chunk(3, 4, 4, 1, false, 0, UNKNOWN, UNKNOWN)
    requires length == Chunk(1, 4, 4, 1, false, 50, UNKNOWN, UNKNOWN)
    requires data == Chunk(1, 4, 1, 1, false, 50, UNKNOWN, UNKNOWN)
    ensures var p := Start([tag], [length], 30, 4, false);
            Invariant(p, [tag], [length], 4, 3) && UniqueIds(Population(p)) && BufferOverflows(p, [data], 4)
  {
    hide LayoutEnd, AllStuck, LeftOver, Invariant, BufferOverflows, Population, UniqueIds;
    assert length in [length] && data in [data];
    TagFits(tag, [length], 30, 4, false);
    BufferOverflowWithLengths(tag, [length], [data], 30, 4);
    TwoChunksUnique(Start([tag], [length], 30, 4, false), tag, length);
  }

  // ---------------------------------------------------------------- one channel

  datatype Outcome = Done | TooManyTypedItems | BufferTooLarge

  function VarBuffer(id: nat, bytes: int, word: nat, channels: bv32, transferred: bool): Chunk {
    Chunk(id, bytes, word, channels, transferred, 99, UNKNOWN, UNKNOWN)
  }

  /** The register list with the buffer for moved data, if there is any. */
  function WithBuffer(reg: seq<Chunk>, id: nat, bytes: int, word: nat, channels: bv32): seq<Chunk>
    requires Placeable(reg) && word > 0
  {
    if bytes > 0 then Laid(Insert(reg, VarBuffer(id, bytes, word, channels, true)), 0) else reg
  }

  /** The memory list with the buffer for the data that stayed, if there is any. */
  function MemoryList(mem: seq<Chunk>, id: nat, bytes: int, word: nat, channels: bv32): (list: seq<Chunk>)
    requires Placeable(mem) && word > 0
    ensures Placeable(list)
  {
    if bytes > 0 then Insert(mem, VarBuffer(id, bytes, word, channels, false)) else mem
  }

  /** The buffers a channel gets, numbered on from its last chunk ID. */
  function NewBuffers(last: nat, regBytes: int, memBytes: int, word: nat, channels: bv32): seq<Chunk> {
    (if regBytes > 0 then [VarBuffer(last + 1, regBytes, word, channels, true)] else []) +
    (if memBytes > 0 then [VarBuffer(MemoryBufferId(last, regBytes), memBytes, word, channels, false)] else [])
  }

  function MemoryBufferId(last: nat, regBytes: int): nat {
    if regBytes > 0 then last + 2 else last + 1
  }

  lemma IdsInTurn(last: nat, regBytes: int)
    ensures MemoryBufferId(last, regBytes) == last + (if regBytes > 0 then 1 else 0) + 1
  {
  }

  /** The chunk has got an offset, and stands in front of the first one with a higher
      priority number. */
  ghost predicate Behind(s: seq<Chunk>, c: Chunk) {
    exists k :: 0 <= k < |s| && s[k] == c.(offset := s[k].offset)
                && (forall j :: 0 <= j < k ==> s[j].prio <= c.prio) && (k + 1 < |s| ==> s[k + 1].prio > c.prio)
  }

  lemma InsertedBehind(s: seq<Chunk>, c: Chunk)
    requires Placeable(s) && c.size >= 0 && c.alignment > 0
    ensures Placeable(Insert(s, c)) && Behind(Laid(Insert(s, c), 0), c)
  {
    hide Laid, Keys, Placeable, Insert;
    InsertPlaceable(s, c);
    LaidKeeps(Insert(s, c), 0);
    InsertedAt(s, c);
    var k, l := InsertPos(s, c.prio), Laid(Insert(s, c), 0);
    assert l[k] == c.(offset := l[k].offset);
  }

  lemma InsertedAt(s: seq<Chunk>, c: Chunk)
    ensures var k, t := InsertPos(s, c.prio), Insert(s, c);
            k < |t| && t[k] == c && (forall j :: 0 <= j < k ==> t[j].prio <= c.prio)
            && (k + 1 < |t| ==> t[k + 1].prio > c.prio)
  {
  }

  /** Where the new buffers are, and how the memory list is laid out. */
  lemma BuffersBehind(p: Packing, mem: seq<Chunk>, last: nat, regBytes: int, memBytes: int, word: nat, channels: bv32)
    requires Sound(p) && word > 0
    requires mem == Laid(MemoryList(p.queue, MemoryBufferId(last, regBytes), memBytes, word, channels), 0)
    ensures Tight(mem)
    ensures regBytes > 0 ==>
              Behind(WithBuffer(p.reg, last + 1, regBytes, word, channels),
                     Chunk(last + 1, regBytes, word, channels, true, 99, UNKNOWN, UNKNOWN))
    ensures memBytes > 0 ==>
              Behind(mem, Chunk(last + (if regBytes > 0 then 2 else 1), memBytes, word, channels, false, 99, UNKNOWN,
                                UNKNOWN))
  {
    hide Laid, Behind, Tight, Insert;
    LaidIsTight(MemoryList(p.queue, MemoryBufferId(last, regBytes), memBytes, word, channels));
    if regBytes > 0 {
      InsertedBehind(p.reg, VarBuffer(last + 1, regBytes, word, channels, true));
    }
    if memBytes > 0 {
      InsertedBehind(p.queue, VarBuffer(MemoryBufferId(last, regBytes), memBytes, word, channels, false));
    }
  }

  lemma InsertKeys(s: seq<Chunk>, c: Chunk)
    ensures multiset(Keys(Insert(s, c))) == multiset(Keys(s)) + multiset{Key(c)}
  {
    KeysOfInsert(s, c);
    assert Keys(s) == Keys(s)[..InsertPos(s, c.prio)] + Keys(s)[InsertPos(s, c.prio)..];
  }

  lemma RegisterKeys(reg: seq<Chunk>, id: nat, bytes: int, word: nat, channels: bv32)
    requires Placeable(reg) && word > 0
    ensures multiset(Keys(WithBuffer(reg, id, bytes, word, channels)))
            == multiset(Keys(reg))
               + if bytes > 0 then multiset{Key(VarBuffer(id, bytes, word, channels, true))} else multiset{}
  {
    hide Laid, Keys, Insert;
    if bytes > 0 {
      var buffer := VarBuffer(id, bytes, word, channels, true);
      InsertPlaceable(reg, buffer);
      InsertKeys(reg, buffer);
      LaidKeeps(Insert(reg, buffer), 0);
    }
  }

  lemma MemoryKeys(mem: seq<Chunk>, id: nat, bytes: int, word: nat, channels: bv32)
    requires Placeable(mem) && word > 0
    ensures multiset(Keys(Laid(MemoryList(mem, id, bytes, word, channels), 0)))
            == multiset(Keys(mem))
               + if bytes > 0 then multiset{Key(VarBuffer(id, bytes, word, channels, false))} else multiset{}
  {
    hide Laid, Keys, Insert;
    if bytes > 0 {
      InsertKeys(mem, VarBuffer(id, bytes, word, channels, false));
    }
    LaidKeeps(MemoryList(mem, id, bytes, word, channels), 0);
  }

  /** Adding the buffers to the packed lists adds nothing but them. */
  lemma BuffersAdded(p: Packing, last: nat, regBytes: int, memBytes: int, word: nat, channels: bv32)
    requires Sound(p) && word > 0
    ensures AllChunks(WithBuffer(p.reg, last + 1, regBytes, word, channels),
                      Laid(MemoryList(p.queue, MemoryBufferId(last, regBytes), memBytes, word, channels), 0))
            == AllChunks(p.reg, p.queue) + multiset(Keys(NewBuffers(last, regBytes, memBytes, word, channels)))
  {
    hide Laid, Keys, WithBuffer, MemoryList, NewBuffers, MemoryBufferId, VarBuffer;
    RegisterKeys(p.reg, last + 1, regBytes, word, channels);
    MemoryKeys(p.queue, MemoryBufferId(last, regBytes), memBytes, word, channels);
    BufferKeys(last, regBytes, memBytes, word, channels);
  }

  lemma BufferKeys(last: nat, regBytes: int, memBytes: int, word: nat, channels: bv32)
    ensures multiset(Keys(NewBuffers(last, regBytes, memBytes, word, channels)))
            == (if regBytes > 0 then multiset{Key(VarBuffer(last + 1, regBytes, word, channels, true))} else multiset{})
               + (if memBytes > 0
                  then multiset{Key(VarBuffer(MemoryBufferId(last, regBytes), memBytes, word, channels, false))}
                  else multiset{})
  {
    var a := if regBytes > 0 then [VarBuffer(last + 1, regBytes, word, channels, true)] else [];
    var b := if memBytes > 0 then [VarBuffer(MemoryBufferId(last, regBytes), memBytes, word, channels, false)] else [];
    ShapeConcat(a, b);
    assert Keys(a) == if regBytes > 0 then [Key(a[0])] else [];
    assert Keys(b) == if memBytes > 0 then [Key(b[0])] else [];
  }

  lemma BuffersUnique(reg: seq<Chunk>, mem: seq<Chunk>, last: nat, regBytes: int, memBytes: int, word: nat,
                      channels: bv32)
    requires UniqueIds(AllChunks(reg, mem)) && forall c :: c in reg + mem ==> c.id <= last
    ensures UniqueIds(AllChunks(reg, mem) + multiset(Keys(NewBuffers(last, regBytes, memBytes, word, channels))))
  {
    hide Keys;
    BufferKeys(last, regBytes, memBytes, word, channels);
    forall a | a in AllChunks(reg, mem)
      ensures a.id <= last
    {
      AllChunksIds(reg, mem, a);
    }
  }

  lemma AllChunksIds(reg: seq<Chunk>, mem: seq<Chunk>, a: Chunk)
    requires a in AllChunks(reg, mem)
    ensures exists c :: c in reg + mem && c.id == a.id
  {
    if a in multiset(Keys(reg)) {
      var i :| 0 <= i < |reg| && Keys(reg)[i] == a;
      assert reg[i] in reg + mem;
    } else {
      var i :| 0 <= i < |mem| && Keys(mem)[i] == a;
      assert mem[i] in reg + mem;
    }
  }

  /** The chunks of a whole channel after packing and with the new buffers. */
  lemma FinalLists(p: Packing, noVariable: bool, last: nat, regBytes: int, memBytes: int, word: nat, channels: bv32)
    requires Sound(p) && p.processed == [] && UniqueIds(Population(p)) && word > 0
    requires forall c :: c in p.reg + p.queue ==> c.id <= last
    ensures var q := Pack(p, word, noVariable);
            var reg := WithBuffer(q.reg, last + 1, regBytes, word, channels);
            var mem := Laid(MemoryList(q.queue, MemoryBufferId(last, regBytes), memBytes, word, channels), 0);
            AllChunks(reg, mem)
              == AllChunks(p.reg, p.queue) + multiset(Keys(NewBuffers(last, regBytes, memBytes, word, channels)))
            && InOneList(p.reg, p.queue, reg, mem, last)
  {
    hide Pack, Laid, Keys, UniqueIds, WithBuffer, MemoryList, InOneList, AllChunks, Population;
    var q := Pack(p, word, noVariable);
    PackConserves(p, word, noVariable);
    PopulationParts(p);
    PopulationParts(q);
    BuffersAdded(q, last, regBytes, memBytes, word, channels);
    BuffersUnique(p.reg, p.queue, last, regBytes, memBytes, word, channels);
    var reg := WithBuffer(q.reg, last + 1, regBytes, word, channels);
    var mem := Laid(MemoryList(q.queue, MemoryBufferId(last, regBytes), memBytes, word, channels), 0);
    ConservedInOneList(p.reg, p.queue, reg, mem, NewBuffers(last, regBytes, memBytes, word, channels), last);
  }

  class Channel {
    var regFixed: seq<Chunk>
    var regVariable: seq<Chunk>
    var memFixed: seq<Chunk>
    var memVariable: seq<Chunk>
    var strings: seq<Chunk>
    var fpages: seq<Chunk>
    var chunkID: nat

    constructor ()
    {
      regFixed, regVariable, memFixed, memVariable, strings, fpages, chunkID := [], [], [], [], [], [], 0;
    }

    function Typed(): nat
      reads this
    {
      |strings| + |fpages|
    }

    function Before(word: nat): Packing
      reads this
    {
      Start(regFixed, memFixed, Typed(), word, memVariable == [])
    }

    ghost predicate Ready(word: nat)
      reads this
    {
      word > 0 && UniqueIds(Population(Before(word))) && Sound(Before(word)) && Sized(memVariable) &&
      UniqueIds(AllChunks(regVariable, memVariable)) && (forall c :: c in regFixed + memFixed ==> c.id <= chunkID) &&
      (Before(word).maxBytes >= 0 ==> Invariant(Before(word), regFixed, memFixed, word, 63 - 2 * Typed()))
    }

    /** Fixed-size chunks first, then variable-size ones with their buffer. */
    method PackRegisters(word: nat, channels: bv32) returns (outcome: Outcome, ghost packed: Packing)
      requires Ready(word) && Before(word).maxBytes >= 0
      modifies this
      ensures strings == old(strings) && fpages == old(fpages)
      ensures packed == Pack(old(Before(word)), word, old(memVariable) == [])
      ensures Invariant(packed, old(regFixed), old(memFixed), word, 63 - 2 * old(Typed()))
      ensures Moving(memVariable, regVariable, VarBudget(packed, word) - UsedBytes(packed, old(memVariable), word))
              == MoveAll(Moving(old(memVariable), old(regVariable), VarBudget(packed, word)), word)
      ensures multiset(Keys(memVariable)) + multiset(Keys(regVariable))
              == multiset(Keys(old(memVariable))) + multiset(Keys(old(regVariable)))
      ensures old(regVariable) <= regVariable && Subsequence(memVariable, old(memVariable))
      ensures memFixed == packed.queue
      ensures var bytes := VarBytes(regVariable[|old(regVariable)|..], word);
              bytes == UsedBytes(packed, old(memVariable), word)
              && regFixed == WithBuffer(packed.reg, old(chunkID) + 1, bytes, word, channels)
              && chunkID == old(chunkID) + (if bytes > 0 then 1 else 0)
              && forall c :: c in memVariable ==> !Fits(c, VarBudget(packed, word) - bytes)
      ensures outcome == BufferTooLarge <==> BufferOverflows(old(Before(word)), old(memVariable), word)
      ensures outcome == Done ==> Placeable(regFixed) && LayoutEnd(regFixed, 0) <= packed.maxBytes
      ensures outcome != TooManyTypedItems
    {
      hide *;
      ReadyParts(word);
      ghost var start, words := Before(word), 63 - 2 * Typed();
      var end := PackFixed(Before(word), word, memVariable == []);
      packed := end;
      PackResult(start, regFixed, memFixed, word, memVariable == [], words);
      memFixed := end.queue;
      memVariable, regVariable, outcome, regFixed, chunkID :=
        MoveData(end, start, memVariable, regVariable, word, words, channels, chunkID);
    }

    /** The memory list, with a buffer for the variable-size data that stayed. */
    method LayoutMemory(word: nat, channels: bv32)
      requires word > 0 && Placeable(memFixed)
      modifies `memFixed, `memVariable, `chunkID
      ensures Keys(memVariable) == Keys(old(memVariable)) && forall c :: c in memVariable ==> c.offset == UNKNOWN
      ensures var bytes := VarBytes(old(memVariable), word);
              var list := MemoryList(old(memFixed), old(chunkID) + 1, bytes, word, channels);
              memFixed == Laid(list, 0) && Arranged(memFixed, 0, LayoutEnd(list, 0))
              && chunkID == old(chunkID) + (if bytes > 0 then 1 else 0)
    {
      hide RoundUp, VarBytes, Laid, LayoutEnd, Arranged, Insert;
      var memVarbufSize;
      memVarbufSize := BufferSize(memVariable, word);
      memVariable := ForgetOffsets(memVariable);
      var list := memFixed;
      if memVarbufSize > 0 {
        chunkID := chunkID + 1;
        var buffer := VarBuffer(chunkID, memVarbufSize, word, channels, false);
        list := AddWithPrio(memFixed, buffer, 99);
        InsertPlaceable(memFixed, buffer);
      }
      var offset;
      memFixed, offset := LayoutList(list);
      LaidIsArranged(list, 0);
    }

    /** The optimizer's work on one channel: which of its three ends it comes to, and in the
        ordinary one, where every chunk of the channel has gone. */
    method Optimize(word: nat, channels: bv32) returns (outcome: Outcome, ghost packed: Packing)
      requires Ready(word)
      modifies this
      ensures outcome == TooManyTypedItems <==> old(Before(word)).maxBytes < 0
      ensures outcome == TooManyTypedItems ==> unchanged(this)
      ensures outcome == BufferTooLarge <==>
                old(Before(word)).maxBytes >= 0 && BufferOverflows(old(Before(word)), old(memVariable), word)
      ensures outcome != TooManyTypedItems ==>
                packed == Pack(old(Before(word)), word, old(memVariable) == []) && Sound(packed)
      ensures outcome != TooManyTypedItems ==>
                var used := UsedBytes(packed, old(memVariable), word);
                regFixed == WithBuffer(packed.reg, old(chunkID) + 1, used, word, channels)
      ensures outcome != TooManyTypedItems ==>
                var moved := MoveAll(Moving(old(memVariable), old(regVariable), VarBudget(packed, word)), word);
                regVariable == moved.reg && Keys(memVariable) == Keys(moved.mem)
      ensures outcome == Done ==> Placeable(regFixed) && LayoutEnd(regFixed, 0) <= packed.maxBytes
      ensures outcome == Done ==>
                AllChunks(regFixed, memFixed)
                == AllChunks(old(regFixed), old(memFixed))
                   + multiset(Keys(NewBuffers(old(chunkID), UsedBytes(packed, old(memVariable), word),
                                              VarBytes(memVariable, word), word, channels)))
      ensures outcome == Done ==>
                InOneList(old(regFixed), old(memFixed), regFixed, memFixed, old(chunkID))
                && InOneList(old(regVariable), old(memVariable), regVariable, memVariable, old(chunkID))
      ensures outcome == Done ==>
                Subsequence(Keys(old(regFixed)), Keys(regFixed)) && Subsequence(Keys(packed.queue), Keys(memFixed))
      ensures outcome == Done ==> Placed(memFixed) && Tight(memFixed)
      ensures outcome == Done ==>
                var used, kept := UsedBytes(packed, old(memVariable), word), VarBytes(memVariable, word);
                var next := old(chunkID) + if used > 0 then 2 else 1;
                (used > 0 ==>
                   Behind(regFixed, Chunk(old(chunkID) + 1, used, word, channels, true, 99, UNKNOWN, UNKNOWN)))
                && (kept > 0 ==> Behind(memFixed, Chunk(next, kept, word, channels, false, 99, UNKNOWN, UNKNOWN)))
      ensures outcome == Done ==>
                (Placed(regFixed) <==> Placed(old(regFixed)) || Tried(old(Before(word)))
                                       || UsedBytes(packed, old(memVariable), word) > 0)
      ensures outcome == Done ==>
                Keys(fpages) == Keys(old(fpages)) && forall k :: 0 <= k < |fpages| ==> fpages[k].offset == k
    {
      hide *;
      if Before(word).maxBytes < 0 {
        packed := Before(word);
        outcome := TooManyTypedItems;
        return;
      }
      ghost var start, words, last, before, registers := Before(word), 63 - 2 * Typed(), chunkID, memVariable,
        regVariable;
      ReadyParts(word);
      outcome, packed := PackRegisters(word, channels);
      ghost var bytes, mid := UsedBytes(packed, before, word), memVariable;
      PinnedKept(packed, start.reg, start.queue, last + 1, bytes, word, channels, words);
      if outcome == BufferTooLarge {
        return;
      }
      LayoutMemory(word, channels);
      VarBytesOfKeys(memVariable, mid, word);
      FinalLists(start, before == [], last, bytes, VarBytes(mid, word), word, channels);
      IdsInTurn(last, bytes);
      MemoryPlaced(packed.queue, memFixed, VarBytes(mid, word), MemoryBufferId(last, bytes), word, channels);
      BuffersBehind(packed, memFixed, last, bytes, VarBytes(mid, word), word, channels);
      RegistersPlaced(start, before == [], last + 1, bytes, word, channels);
      VariableInOneList(before, registers, memVariable, mid, regVariable, last);
      NumberPages();
    }

    method NumberPages()
      modifies `fpages
      ensures Keys(fpages) == Keys(old(fpages)) && forall k :: 0 <= k < |fpages| ==> fpages[k].offset == k
    {
      for k := 0 to |fpages|
        invariant |fpages| == |old(fpages)|
        invariant forall i :: 0 <= i < |fpages| ==> Key(fpages[i]) == Key(old(fpages)[i])
        invariant forall i :: 0 <= i < k ==> fpages[i].offset == i
      {
        fpages := fpages[k := fpages[k].(offset := k)];
      }
    }

    lemma ReadyParts(word: nat)
      requires Ready(word)
      ensures Before(word).reg == regFixed && Before(word).queue == memFixed && Before(word).processed == []
      ensures word > 0 && Sound(Before(word)) && UniqueIds(Population(Before(word)))
      ensures Sized(memVariable) && UniqueIds(AllChunks(regVariable, memVariable))
      ensures Before(word).maxBytes >= 0 ==> Invariant(Before(word), regFixed, memFixed, word, 63 - 2 * Typed())
      ensures forall c :: c in regFixed + memFixed ==> c.id <= chunkID
    {
    }
  }

  lemma VarBytesOfKeys(s: seq<Chunk>, t: seq<Chunk>, word: nat)
    requires word > 0 && Keys(s) == Keys(t)
    ensures VarBytes(s, word) == VarBytes(t, word)
  {
    hide RoundUp;
    assert |Keys(s)| == |s| && |Keys(t)| == |t|;
    if s != [] {
      var n := |s| - 1;
      assert Key(s[n]) == Keys(s)[n] == Keys(t)[n] == Key(t[n]);
      assert Keys(s[..n]) == Keys(s)[..n] == Keys(t)[..n] == Keys(t[..n]);
      VarBytesOfKeys(s[..n], t[..n], word);
    }
  }

  /** The register list carries proper offsets if it did, or a chunk was tried, or the buffer
      was added. */
  lemma RegistersPlaced(p: Packing, noVariable: bool, id: nat, bytes: int, word: nat, channels: bv32)
    requires Sound(p) && p.processed == [] && word > 0
    ensures var q := Pack(p, word, noVariable);
            Placed(WithBuffer(q.reg, id, bytes, word, channels)) <==> Placed(p.reg) || Tried(p) || bytes > 0
  {
    hide Pack, Laid, Placed, Tried, Insert;
    PackPlaced(p, word, noVariable);
    var q := Pack(p, word, noVariable);
    if bytes > 0 {
      var buffer := VarBuffer(id, bytes, word, channels, true);
      InsertPlaceable(q.reg, buffer);
      LaidIsPlaced(Insert(q.reg, buffer));
    }
  }

  /** What the registers held from the start is still there in its order. */
  lemma PinnedKept(p: Packing, reg: seq<Chunk>, mem: seq<Chunk>, id: nat, bytes: int, word: nat, channels: bv32,
                   words: int)
    requires Invariant(p, reg, mem, word, words) && word > 0
    ensures Sound(p) && Placeable(p.reg) && Placeable(p.queue)
            && Subsequence(Keys(reg), Keys(WithBuffer(p.reg, id, bytes, word, channels)))
  {
    hide Laid, Subsequence, LayoutEnd, Keys;
    if bytes > 0 {
      var buffer := VarBuffer(id, bytes, word, channels, true);
      InsertPlaceable(p.reg, buffer);
      LaidKeeps(Insert(p.reg, buffer), 0);
      KeysOfInsert(p.reg, buffer);
      SubsequenceInsert(Keys(reg), Keys(p.reg), InsertPos(p.reg, buffer.prio), Key(buffer));
    }
  }

  lemma SameSum(a: multiset<Chunk>, b: multiset<Chunk>, c: multiset<Chunk>, d: multiset<Chunk>)
    requires a + b == c + d
    ensures b + a == d + c
  {
    assert b + a == a + b && d + c == c + d;
  }

  lemma VariableInOneList(mem: seq<Chunk>, reg: seq<Chunk>, mem': seq<Chunk>, mid: seq<Chunk>, reg': seq<Chunk>,
                          last: nat)
    requires Keys(mem') == Keys(mid) && UniqueIds(AllChunks(reg, mem))
    requires multiset(Keys(mid)) + multiset(Keys(reg')) == multiset(Keys(mem)) + multiset(Keys(reg))
    ensures InOneList(reg, mem, reg', mem', last)
  {
    hide InOneList, UniqueIds;
    assert multiset(Keys([])) == multiset{};
    assert multiset(Keys(mem')) == multiset(Keys(mid));
    SameSum(multiset(Keys(mid)), multiset(Keys(reg')), multiset(Keys(mem)), multiset(Keys(reg)));
    ConservedInOneList(reg, mem, reg', mem', [], last);
  }

  lemma InsertPlaceable(s: seq<Chunk>, c: Chunk)
    requires Placeable(s) && c.size >= 0 && c.alignment > 0
    ensures Placeable(Insert(s, c)) && Subsequence(Keys(s), Keys(Insert(s, c)))
  {
    SubsequenceSelf(Keys(s));
    SubsequenceInsert(Keys(s), Keys(s), InsertPos(s, c.prio), Key(c));
    KeysOfInsert(s, c);
  }

  lemma KeysOfInsert(s: seq<Chunk>, c: Chunk)
    ensures var k := InsertPos(s, c.prio); Keys(Insert(s, c)) == Keys(s)[..k] + [Key(c)] + Keys(s)[k..]
  {
  }

  lemma MemoryPlaced(queue: seq<Chunk>, mem: seq<Chunk>, bytes: int, id: nat, word: nat, channels: bv32)
    requires word > 0 && Placeable(queue)
    requires mem == Laid(MemoryList(queue, id, bytes, word, channels), 0)
    ensures Placed(mem) && Subsequence(Keys(queue), Keys(mem))
  {
    var list := MemoryList(queue, id, bytes, word, channels);
    LaidIsPlaced(list);
    LaidKeeps(list, 0);
    SubsequenceSelf(Keys(queue));
    if bytes > 0 {
      InsertPlaceable(queue, VarBuffer(id, bytes, word, channels, false));
    }
  }

  /** The size of the memory buffer: every chunk rounded up to whole words. */
  method BufferSize(s: seq<Chunk>, word: nat) returns (bytes: int)
    requires word > 0
    ensures bytes == VarBytes(s, word)
  {
    hide RoundUp;
    bytes := 0;
    for i := 0 to |s|
      invariant bytes == VarBytes(s[..i], word)
    {
      var thisChunkSize := AlignOffset(s[i].size, word);
      bytes := bytes + thisChunkSize;
      assert s[..i + 1][..i] == s[..i];
    }
    assert s[..|s|] == s;
  }

  method ForgetOffsets(s: seq<Chunk>) returns (r: seq<Chunk>)
    ensures Keys(r) == Keys(s) && forall c :: c in r ==> c.offset == UNKNOWN
  {
    r := s;
    for i := 0 to |s|
      invariant |r| == |s|
      invariant forall j :: 0 <= j < |s| ==> r[j] == if j < i then s[j].(offset := UNKNOWN) else s[j]
    {
      r := r[i := r[i].(offset := UNKNOWN)];
    }
  }

  /** Bytes needed to receive a message with this memory list. */
  method MaxBytesRequired(mem: seq<Chunk>, ghost list: seq<Chunk>) returns (maxBytes: int)
    requires Placeable(list) && mem == Laid(list, 0)
    ensures maxBytes == LayoutEnd(list, 0)
  {
    maxBytes := 0;
    LaidKeeps(list, 0);
    for i := 0 to |mem|
      invariant maxBytes == LayoutEnd(list[..i], 0)
    {
      LaidAt(list, i);
      var end := mem[i].offset + mem[i].size;
      maxBytes := if end > maxBytes then end else maxBytes;
    }
    assert list[..|list|] == list;
  }

  lemma LaidAt(list: seq<Chunk>, i: nat)
    requires Placeable(list) && i < |Laid(list, 0)|
    ensures |Laid(list, 0)| == |list| && Placeable(list[..i]) && Placeable(list[..i + 1])
    ensures Laid(list, 0)[i].offset + Laid(list, 0)[i].size == LayoutEnd(list[..i + 1], 0)
    ensures LayoutEnd(list[..i], 0) <= LayoutEnd(list[..i + 1], 0)
  {
    LaidKeeps(list, 0);
    LaidAtFrom(list, 0, i);
    assert Placeable([list[i]]);
    LayoutEndConcat(list[..i], [list[i]], 0);
    assert list[..i] + [list[i]] == list[..i + 1];
  }

  lemma {:induction false} LaidAtFrom(list: seq<Chunk>, offset: int, i: nat)
    requires Placeable(list) && i < |list|
    ensures |Laid(list, offset)| == |list| && Placeable(list[..i + 1])
    ensures Laid(list, offset)[i].offset + Laid(list, offset)[i].size == LayoutEnd(list[..i + 1], offset)
    decreases i
  {
    hide RoundUp, IsMultiple, Keys, Laid, LayoutEnd, Placeable;
    LaidKeeps(list, offset);
    PartPlaceable(list, i);
    LaidStep(list, offset);
    LaidStep(list[..i + 1], offset);
    var next := RoundUp(offset, list[0].alignment) + list[0].size;
    assert list[..i + 1][1..] == list[1..][..i];
    if i > 0 {
      LaidAtFrom(list[1..], next, i - 1);
      LaidKeeps(list[1..], next);
    } else {
      assert list[..1] == [list[0]] && [list[0]][1..] == [];
      LaidNothing(next);
    }
  }

  lemma PartPlaceable(list: seq<Chunk>, i: nat)
    requires Placeable(list) && i < |list|
    ensures Placeable(list[..i + 1])
  {
  }

  lemma BufferEnd(s: seq<Chunk>, l: seq<Chunk>)
    requires Placeable(s) && l == Laid(s, 0)
    ensures Placeable(l) && LayoutEnd(l, 0) == LayoutEnd(s, 0)
  {
    LaidKeeps(s, 0);
    LayoutEndOfKeys(s, l, 0);
  }

  /** Moves variable-size data to packed registers and adds the buffer for it. */
  method MoveData(end: Packing, ghost start: Packing, mem: seq<Chunk>, reg: seq<Chunk>, word: nat, ghost words: int,
                  channels: bv32, id: nat)
    returns (mem': seq<Chunk>, reg': seq<Chunk>, outcome: Outcome, regFixed: seq<Chunk>, chunkID: nat)
    requires word > 0 && Invariant(start, start.reg, start.queue, word, words) && start.processed == [] && Sized(mem)
    requires end == Pack(start, word, mem == [])
    ensures Moving(mem', reg', VarBudget(end, word) - UsedBytes(end, mem, word))
            == MoveAll(Moving(mem, reg, VarBudget(end, word)), word)
    ensures multiset(Keys(mem')) + multiset(Keys(reg')) == multiset(Keys(mem)) + multiset(Keys(reg))
    ensures reg <= reg' && Subsequence(mem', mem)
    ensures var bytes := VarBytes(reg'[|reg|..], word);
            bytes == UsedBytes(end, mem, word)
            && Placeable(end.reg) && regFixed == WithBuffer(end.reg, id + 1, bytes, word, channels)
            && chunkID == id + (if bytes > 0 then 1 else 0)
            && forall c :: c in mem' ==> !Fits(c, VarBudget(end, word) - bytes)
    ensures outcome == BufferTooLarge <==> BufferOverflows(start, mem, word)
    ensures outcome == Done ==> Placeable(regFixed) && LayoutEnd(regFixed, 0) <= end.maxBytes
    ensures outcome != TooManyTypedItems
  {
    hide Pack, Subsequence, LayoutEnd, Placeable, Laid, RoundUp, RoundDown, VarBytes, Keys, WithBuffer,
         InOrder, MoveAll, LeftOver, BufferOverflows, AllStuck, Sized;
    PackResult(start, start.reg, start.queue, word, mem == [], words);
    DownIsMultiple(end.remaining, word);
    var budget := AlignDown(end.remaining, word);
    var remaining;
    mem', reg', remaining := PackVariable(mem, reg, budget, word);
    BufferOverflow(start, word, words, mem, VarBuffer(id + 1, budget - remaining, word, channels, true));
    outcome, regFixed, chunkID := AddBuffer(end, start.reg, start.queue, budget - remaining, word, words, channels, id);
  }

  /** Adds the buffer for the moved variable-size data to the packed registers. */
  method AddBuffer(end: Packing, ghost reg: seq<Chunk>, ghost mem: seq<Chunk>, bytes: int,
                   word: nat, ghost words: int, channels: bv32, id: nat)
    returns (outcome: Outcome, regFixed: seq<Chunk>, chunkID: nat)
    requires word > 0 && Invariant(end, reg, mem, word, words)
    ensures regFixed == WithBuffer(end.reg, id + 1, bytes, word, channels)
    ensures chunkID == id + (if bytes > 0 then 1 else 0)
    ensures var buffer := VarBuffer(id + 1, bytes, word, channels, true);
            bytes > 0 ==>
              Placeable(end.reg + [buffer])
              && (outcome == BufferTooLarge <==> LayoutEnd(end.reg + [buffer], 0) > end.maxBytes)
    ensures bytes <= 0 ==> outcome == Done
    ensures outcome != TooManyTypedItems
    ensures outcome == Done ==> Placeable(regFixed) && LayoutEnd(regFixed, 0) <= end.maxBytes
  {
    hide LayoutEnd, Laid, RoundUp, RoundDown, InOrder, Keys, Insert, Placeable;
    outcome, regFixed, chunkID := Done, end.reg, id;
    if bytes > 0 {
      chunkID := id + 1;
      var buffer := VarBuffer(chunkID, bytes, word, channels, true);
      EndWithBuffer(end.reg, buffer, word);
      AppendAtEnd(end.reg, buffer);
      regFixed := AddWithPrio(end.reg, buffer, 99);
      var bytesCurrentlyUsed;
      regFixed, bytesCurrentlyUsed := LayoutList(regFixed);
      BufferEnd(end.reg + [buffer], regFixed);
      if bytesCurrentlyUsed > end.maxBytes {
        outcome := BufferTooLarge;
      }
    }
  }
}
