/** String chunks of a connection and the server buffers assigned to them. */
module StringBuffers {
  import opened Layout
  import opened Wrappers

  predicate Uses(channels: bv32, i: nat) {
    i < 32 && channels & ((1 as bv32) << i) != 0
  }

  predicate HasIn(c: Chunk) {
    Uses(c.channels, 0)
  }

  predicate HasOut(c: Chunk) {
    Uses(c.channels, 1)
  }

  /** Buffers come in the order IN, INOUT, OUT, temporary. */
  function Rank(c: Chunk): int {
    if !c.transferred then 4
    else if !HasIn(c) then 3
    else if HasOut(c) then 2
    else 1
  }

  /** What the numbering does not change. */
  function Bare(c: Chunk): Chunk {
    c.(prio := 0, offset := UNKNOWN, bufferIndex := UNKNOWN)
  }

  function Bares(s: seq<Chunk>): (b: seq<Chunk>)
    ensures |b| == |s| && forall k :: 0 <= k < |s| ==> b[k] == Bare(s[k])
  {
    seq(|s|, k requires 0 <= k < |s| => Bare(s[k]))
  }

  predicate DistinctIds(s: seq<Chunk>) {
    forall j, k :: 0 <= j < k < |s| ==> s[j].id != s[k].id
  }

  /** One list of string chunks per channel; a chunk has the same identity, channels
      and flags in each list it is in, and is in the first if it has that channel. */
  predicate WellFormed(strings: seq<seq<Chunk>>) {
    |strings| > 0 &&
    (forall i :: 0 <= i < |strings| ==> DistinctIds(strings[i])) &&
    (forall c :: c in strings[0] ==> HasIn(c)) &&
    (forall i, c :: 0 <= i < |strings| && c in strings[i] && HasIn(c) ==>
        exists d :: d in strings[0] && d.id == c.id) &&
    Agreeing(strings)
  }

  predicate Agreeing(strings: seq<seq<Chunk>>) {
    forall i, j, c, d ::
        0 <= i < |strings| && 0 <= j < |strings| && c in strings[i] && d in strings[j] && c.id == d.id ==>
      c.channels == d.channels && c.transferred == d.transferred
  }

  // ---------------------------------------------------------------- the list of buffers

  /** The entry that stands for a string chunk. */
  function Entry(c: Chunk): Chunk {
    Chunk(c.id, 1, 1, c.channels, false, 0, UNKNOWN, UNKNOWN)
  }

  function Tag(c: Chunk): Chunk {
    Entry(c).(prio := Rank(c))
  }

  predicate SortedByPrio(s: seq<Chunk>) {
    forall j, k :: 0 <= j < k < |s| ==> s[j].prio <= s[k].prio
  }

  lemma InsertSorted(s: seq<Chunk>, c: Chunk)
    requires SortedByPrio(s)
    ensures SortedByPrio(Insert(s, c))
  {
  }

  lemma InsertMembers(s: seq<Chunk>, c: Chunk)
    ensures multiset(Insert(s, c)) == multiset(s) + multiset{c}
    ensures forall e :: e in Insert(s, c) <==> e == c || e in s
  {
    var k := InsertPos(s, c.prio);
    assert s == s[..k] + s[k..];
    assert forall e :: e in Insert(s, c) <==> e in multiset(Insert(s, c));
    assert forall e :: e in s <==> e in multiset(s);
  }

  /** The list holds exactly the entries of the given chunks, by rank, and repeats
      none that has the input channel. */
  ghost predicate Collected(buffers: seq<Chunk>, src: seq<Chunk>) {
    SortedByPrio(buffers) &&
    (forall c :: c in src ==> Tag(c) in buffers) &&
    (forall e :: e in buffers ==> exists c :: c in src && e == Tag(c)) &&
    OnceEach(buffers)
  }

  predicate OnceEach(buffers: seq<Chunk>) {
    forall j, k :: 0 <= j < k < |buffers| && buffers[j].id == buffers[k].id ==> !HasIn(buffers[j]) && !HasIn(buffers[k])
  }

  lemma CollectOne(buffers: seq<Chunk>, src: seq<Chunk>, c: Chunk)
    requires Collected(buffers, src)
    requires forall d :: d in src && d.id == c.id ==> !HasIn(c) && !HasIn(d)
    ensures Collected(Insert(buffers, Tag(c)), src + [c])
  {
    hide Rank, InsertPos, Uses;
    var after := Insert(buffers, Tag(c));
    InsertSorted(buffers, Tag(c));
    InsertMembers(buffers, Tag(c));
    forall e | e in after ensures exists d :: d in src + [c] && e == Tag(d) {
      if e == Tag(c) {
        assert c in src + [c];
      } else {
        var d :| d in src && e == Tag(d);
        assert d in src + [c];
      }
    }
    InsertOnce(buffers, Tag(c));
  }

  lemma InsertOnce(buffers: seq<Chunk>, c: Chunk)
    requires OnceEach(buffers) && forall e :: e in buffers && e.id == c.id ==> !HasIn(c) && !HasIn(e)
    ensures OnceEach(Insert(buffers, c))
  {
    hide Uses;
  }

  /** The first two loops: every chunk of the input channel, and those of the other
      channels that the input channel does not have. */
  method CollectBuffers(strings: seq<seq<Chunk>>) returns (buffers: seq<Chunk>, ghost src: seq<Chunk>)
    requires WellFormed(strings)
    ensures Collected(buffers, src) && From(strings, src, |strings|)
  {
    hide Agreeing, Collected, DistinctIds, From, HasIn;
    buffers, src := CollectInput(strings);
    for i := 1 to |strings|
      invariant Collected(buffers, src) && From(strings, src, i)
    {
      buffers, src := CollectChannel(strings, i, buffers, src);
    }
  }

  method CollectInput(strings: seq<seq<Chunk>>) returns (buffers: seq<Chunk>, ghost src: seq<Chunk>)
    requires WellFormed(strings)
    ensures Collected(buffers, src) && From(strings, src, 1)
  {
    hide Collected, From, Insert, Rank, HasIn, HasOut, Agreeing, DistinctIds;
    buffers, src := [], [];
    NothingCollected();
    for k := 0 to |strings[0]|
      invariant Collected(buffers, src) && src == strings[0][..k]
    {
      var chunk := strings[0][k];
      InputChannel(strings, k);
      var prio;
      if chunk.transferred {
        if HasOut(chunk) {
          prio := 2;
        } else {
          prio := 1;
        }
      } else {
        prio := 4;
      }
      CollectOne(buffers, src, chunk);
      buffers := AddWithPrio(buffers, Entry(chunk), prio);
      src := src + [chunk];
    }
    FromInput(strings);
  }

  ghost predicate From(strings: seq<seq<Chunk>>, src: seq<Chunk>, n: nat)
    requires |strings| > 0 && n <= |strings|
  {
    (forall c :: c in src ==> exists i :: 0 <= i < |strings| && c in strings[i]) &&
    (forall c :: c in strings[0] ==> c in src) &&
    (forall i, c :: 0 <= i < n && c in strings[i] && !HasIn(c) ==> c in src)
  }

  method CollectChannel(strings: seq<seq<Chunk>>, i: nat, buffers: seq<Chunk>, ghost src: seq<Chunk>)
    returns (buffers': seq<Chunk>, ghost src': seq<Chunk>)
    requires WellFormed(strings) && 0 < i < |strings| && Collected(buffers, src) && From(strings, src, i)
    ensures Collected(buffers', src') && From(strings, src', i + 1)
  {
    hide Uses, Rank, Collected, WellFormed, Insert, HasIn;
    buffers', src' := buffers, src;
    for k := 0 to |strings[i]|
      invariant Collected(buffers', src') && From(strings, src', i)
      invariant forall j :: 0 <= j < k && !HasIn(strings[i][j]) ==> strings[i][j] in src'
    {
      var chunk := strings[i][k];
      if !HasIn(chunk) {
        var prio := if chunk.transferred then 3 else 4;
        RankOutside(chunk);
        OtherChannel(strings, src', i, chunk);
        CollectOne(buffers', src', chunk);
        buffers' := AddWithPrio(buffers', Entry(chunk), prio);
        src' := src' + [chunk];
      }
    }
  }

  lemma RankOutside(c: Chunk)
    requires !HasIn(c)
    ensures Rank(c) == if c.transferred then 3 else 4
  {
  }

  lemma OtherChannel(strings: seq<seq<Chunk>>, src: seq<Chunk>, i: nat, c: Chunk)
    requires WellFormed(strings) && i < |strings| && From(strings, src, i) && c in strings[i] && !HasIn(c)
    ensures forall d :: d in src && d.id == c.id ==> !HasIn(c) && !HasIn(d)
    ensures From(strings, src + [c], i)
  {
    hide Uses, DistinctIds, Agreeing;
    forall d | d in src && d.id == c.id
      ensures !HasIn(d)
    {
      var j :| 0 <= j < |strings| && d in strings[j];
      SameKind(strings, j, d, i, c);
    }
  }

  lemma SameKind(strings: seq<seq<Chunk>>, i: nat, c: Chunk, j: nat, d: Chunk)
    requires Agreeing(strings) && i < |strings| && j < |strings| && c in strings[i] && d in strings[j] && c.id == d.id
    ensures c.channels == d.channels && c.transferred == d.transferred && HasIn(c) == HasIn(d) && Rank(c) == Rank(d)
  {
    hide Uses;
  }

  lemma NothingCollected()
    ensures Collected([], [])
  {
  }

  lemma InputChannel(strings: seq<seq<Chunk>>, k: nat)
    requires WellFormed(strings) && k < |strings[0]|
    ensures var c := strings[0][k];
            HasIn(c) && Rank(c) == (if !c.transferred then 4 else if HasOut(c) then 2 else 1)
            && forall d :: d in strings[0][..k] ==> d.id != c.id
  {
    hide Uses, Agreeing;
    assert strings[0][k] in strings[0];
  }

  lemma FromInput(strings: seq<seq<Chunk>>)
    requires WellFormed(strings)
    ensures strings[0][..|strings[0]|] == strings[0] && From(strings, strings[0], 1)
  {
    hide Uses, Agreeing, DistinctIds;
  }

  // ---------------------------------------------------------------- numbering

  /** The position of the first entry with this ID; the length if there is none. */
  function First(s: seq<Chunk>, id: nat): (k: nat)
    ensures k <= |s| && (k < |s| ==> s[k].id == id)
    ensures forall j :: 0 <= j < k ==> s[j].id != id
  {
    if s == [] || s[0].id == id then 0 else 1 + First(s[1..], id)
  }

  method NumberBuffers(buffers: seq<Chunk>) returns (r: seq<Chunk>)
    ensures |r| == |buffers| && forall k :: 0 <= k < |r| ==> r[k] == buffers[k].(bufferIndex := k)
  {
    r := buffers;
    for index := 0 to |buffers|
      invariant |r| == |buffers|
      invariant forall k :: 0 <= k < |r| ==> r[k] == if k < index then buffers[k].(bufferIndex := k) else buffers[k]
    {
      r := r[index := r[index].(bufferIndex := index)];
    }
  }

  predicate NumberedBy(c: Chunk, buffers: seq<Chunk>) {
    c.bufferIndex == c.prio == First(buffers, c.id) && First(buffers, c.id) < |buffers|
  }

  /** The list with its numbers, by increasing number. */
  predicate Numbered(s: seq<Chunk>, buffers: seq<Chunk>) {
    (forall k :: 0 <= k < |s| ==> NumberedBy(s[k], buffers)) && Increasing(s)
  }

  predicate Increasing(s: seq<Chunk>) {
    forall j, k :: 0 <= j < k < |s| ==> s[j].bufferIndex < s[k].bufferIndex
  }

  lemma InsertIncreasing(s: seq<Chunk>, c: Chunk)
    requires Increasing(s) && c.bufferIndex == c.prio
    requires forall k :: 0 <= k < |s| ==> s[k].bufferIndex == s[k].prio != c.prio
    ensures Increasing(Insert(s, c))
  {
  }

  lemma InsertNumbered(s: seq<Chunk>, buffers: seq<Chunk>, c: Chunk)
    requires Numbered(s, buffers) && NumberedBy(c, buffers) && forall k :: 0 <= k < |s| ==> s[k].id != c.id
    ensures Numbered(Insert(s, c), buffers)
  {
    hide NumberedBy, Insert, First, Increasing;
    forall k | 0 <= k < |s|
      ensures s[k].bufferIndex == s[k].prio != c.prio == c.bufferIndex
    {
      DifferentNumbers(s[k], c, buffers);
    }
    DifferentNumbers(c, c, buffers);
    InsertIncreasing(s, c);
    InsertShape(s, c);
  }

  lemma DifferentNumbers(c: Chunk, d: Chunk, buffers: seq<Chunk>)
    requires NumberedBy(c, buffers) && NumberedBy(d, buffers)
    ensures c.bufferIndex == c.prio && d.bufferIndex == d.prio
    ensures c.bufferIndex == d.bufferIndex <==> c.id == d.id
  {
  }

  lemma InsertShape(s: seq<Chunk>, c: Chunk)
    ensures var k := InsertPos(s, c.prio);
            k <= |s| && Insert(s, c) == s[..k] + [c] + s[k..]
  {
  }

  lemma InsertBares(s: seq<Chunk>, c: Chunk)
    ensures multiset(Bares(Insert(s, c))) == multiset(Bares(s)) + multiset{Bare(c)}
  {
    hide InsertPos, Bare;
    var k := InsertPos(s, c.prio);
    var front, back := Bares(s)[..k], Bares(s)[k..];
    assert Bares(Insert(s, c)) == front + ([Bare(c)] + back);
    assert Bares(s) == front + back;
    assert multiset(front + ([Bare(c)] + back)) == multiset(front) + (multiset{Bare(c)} + multiset(back));
  }

  /** The numbers go back to the chunks of one channel, whose list is sorted again. */
  method Transfer(s: seq<Chunk>, buffers: seq<Chunk>, numbered: seq<Chunk>) returns (r: seq<Chunk>)
    requires DistinctIds(s) && forall c :: c in s ==> First(buffers, c.id) < |buffers|
    requires |numbered| == |buffers| && forall k :: 0 <= k < |buffers| ==> numbered[k] == buffers[k].(bufferIndex := k)
    ensures multiset(Bares(r)) == multiset(Bares(s)) && Numbered(r, buffers)
    ensures forall k :: 0 <= k < |r| ==> r[k].offset == k
  {
    hide Numbered, First, Bares;
    var newList: seq<Chunk> := [];
    assert s[..0] == [];
    NothingNumbered(buffers);
    for n := 0 to |s|
      invariant multiset(Bares(newList)) == multiset(Bares(s[..n])) && Numbered(newList, buffers)
      invariant forall c :: c in newList ==> exists k :: 0 <= k < n && s[k].id == c.id
    {
      var chunk := s[n];
      assert chunk in s;
      newList := TransferOne(chunk, newList, buffers, numbered);
      BaresAppend(s, n);
    }
    assert s[..|s|] == s;
    r := NumberOffsets(newList, buffers);
  }

  lemma NothingNumbered(buffers: seq<Chunk>)
    ensures Numbered([], buffers) && Bares([]) == []
  {
  }

  lemma BaresAppend(s: seq<Chunk>, n: nat)
    requires n < |s|
    ensures Bares(s[..n + 1]) == Bares(s[..n]) + [Bare(s[n])]
  {
  }

  method TransferOne(chunk: Chunk, list: seq<Chunk>, ghost buffers: seq<Chunk>, numbered: seq<Chunk>)
    returns (newList: seq<Chunk>)
    requires First(buffers, chunk.id) < |buffers| && Numbered(list, buffers)
    requires forall c :: c in list ==> c.id != chunk.id
    requires |numbered| == |buffers| && forall k :: 0 <= k < |buffers| ==> numbered[k] == buffers[k].(bufferIndex := k)
    ensures multiset(Bares(newList)) == multiset(Bares(list)) + multiset{Bare(chunk)} && Numbered(newList, buffers)
    ensures forall c :: c in newList ==> c in list || c.id == chunk.id
  {
    hide Insert;
    ghost var at := First(buffers, chunk.id);
    assert numbered[at].id == chunk.id;
    var found, id := FindChunk(numbered, chunk.id);
    assert found && id == numbered[at];
    var next := chunk.(bufferIndex := id.bufferIndex);
    newList := AddWithPrio(list, next, id.bufferIndex);
    ghost var placed := next.(prio := id.bufferIndex);
    InsertNumbered(list, buffers, placed);
    InsertBares(list, placed);
    InsertMembers(list, placed);
  }

  method NumberOffsets(s: seq<Chunk>, ghost buffers: seq<Chunk>) returns (r: seq<Chunk>)
    requires Numbered(s, buffers)
    ensures Bares(r) == Bares(s) && Numbered(r, buffers) && forall k :: 0 <= k < |r| ==> r[k].offset == k
  {
    r := s;
    for offset := 0 to |s|
      invariant |r| == |s|
      invariant forall k :: 0 <= k < |r| ==> r[k] == if k < offset then s[k].(offset := k) else s[k]
    {
      r := r[offset := r[offset].(offset := offset)];
    }
  }

  // ---------------------------------------------------------------- what the numbers mean

  /** Equal numbers mean equal chunks, whatever the channels. */
  predicate OneBufferEach(strings: seq<seq<Chunk>>) {
    forall i, j, c, d :: 0 <= i < |strings| && 0 <= j < |strings| && c in strings[i] && d in strings[j] ==>
      (c.bufferIndex == d.bufferIndex <==> c.id == d.id)
  }

  /** Buffers are ordered IN, INOUT, OUT, temporary across all channels. */
  predicate OrderedByRank(strings: seq<seq<Chunk>>) {
    forall i, j, c, d ::
        0 <= i < |strings| && 0 <= j < |strings| && c in strings[i] && d in strings[j] && Rank(c) < Rank(d) ==>
      c.bufferIndex < d.bufferIndex
  }

  /** Within each message, strings appear in the order of their buffers. */
  predicate InMessageOrder(s: seq<Chunk>) {
    Increasing(s) && forall k :: 0 <= k < |s| ==> s[k].offset == k
  }

  /** Each transferred string of the channel arrives in the buffer of its position. */
  predicate ReceivedInPlace(s: seq<Chunk>) {
    forall k :: 0 <= k < |s| && s[k].transferred ==> s[k].bufferIndex == s[k].offset == k
  }

  /** The channel's list before and after. */
  predicate Renumbered(s: seq<Chunk>, r: seq<Chunk>, buffers: seq<Chunk>) {
    multiset(Bares(r)) == multiset(Bares(s)) && Numbered(r, buffers) && InMessageOrder(r)
  }

  predicate AllRenumbered(strings: seq<seq<Chunk>>, after: seq<seq<Chunk>>, buffers: seq<Chunk>) {
    |after| == |strings| && forall i :: 0 <= i < |strings| ==> Renumbered(strings[i], after[i], buffers)
  }

  lemma MemberBefore(s: seq<Chunk>, r: seq<Chunk>, c: Chunk) returns (d: Chunk)
    requires multiset(Bares(r)) == multiset(Bares(s)) && c in r
    ensures d in s && Bare(d) == Bare(c)
  {
    var k :| 0 <= k < |r| && r[k] == c;
    assert Bares(r)[k] in multiset(Bares(r));
    assert Bare(c) in Bares(s);
    var j :| 0 <= j < |s| && Bares(s)[j] == Bare(c);
    d := s[j];
  }

  lemma KindOfBare(c: Chunk, d: Chunk)
    requires Bare(c) == Bare(d)
    ensures c.id == d.id && c.channels == d.channels && c.transferred == d.transferred && HasIn(c) == HasIn(d)
            && Rank(c) == Rank(d)
  {
    hide Uses;
    assert c.id == Bare(c).id && c.channels == Bare(c).channels && c.transferred == Bare(c).transferred;
  }

  lemma EntryOf(strings: seq<seq<Chunk>>, src: seq<Chunk>, buffers: seq<Chunk>, i: nat, c: Chunk)
    requires WellFormed(strings) && Collected(buffers, src) && From(strings, src, |strings|)
    requires i < |strings| && c in strings[i]
    ensures First(buffers, c.id) < |buffers| && buffers[First(buffers, c.id)].prio == Rank(c)
  {
    hide Agreeing, DistinctIds, Rank, HasIn, First, Collected;
    var d := c;
    if c !in src {
      assert HasIn(c);
      d :| d in strings[0] && d.id == c.id;
    }
    var o := EntrySource(buffers, src, d);
    var j :| 0 <= j < |strings| && o in strings[j];
    SameKind(strings, i, c, j, o);
  }

  lemma EntrySource(buffers: seq<Chunk>, src: seq<Chunk>, d: Chunk) returns (o: Chunk)
    requires Collected(buffers, src) && d in src
    ensures First(buffers, d.id) < |buffers| && o in src && buffers[First(buffers, d.id)] == Tag(o) && o.id == d.id
  {
    hide SortedByPrio, OnceEach, Rank;
    assert Tag(d) in buffers;
    FirstFound(buffers, Tag(d));
    assert buffers[First(buffers, d.id)] in buffers;
    o :| o in src && buffers[First(buffers, d.id)] == Tag(o);
  }

  lemma FirstFound(s: seq<Chunk>, e: Chunk)
    requires e in s
    ensures First(s, e.id) < |s|
  {
  }

  /** The number of a chunk is the position of an entry of its rank. */
  lemma EntryAfter(strings: seq<seq<Chunk>>, after: seq<seq<Chunk>>, src: seq<Chunk>, buffers: seq<Chunk>, i: nat,
                   c: Chunk)
    requires WellFormed(strings) && Collected(buffers, src) && From(strings, src, |strings|)
    requires AllRenumbered(strings, after, buffers) && i < |after| && c in after[i]
    ensures 0 <= c.bufferIndex == First(buffers, c.id) < |buffers| && buffers[c.bufferIndex].prio == Rank(c)
  {
    hide WellFormed, Collected, From, Rank, InMessageOrder, Increasing;
    assert Renumbered(strings[i], after[i], buffers);
    var d := MemberBefore(strings[i], after[i], c);
    KindOfBare(c, d);
    EntryOf(strings, src, buffers, i, d);
    assert NumberedBy(c, buffers);
  }

  lemma NumbersSeparate(strings: seq<seq<Chunk>>, after: seq<seq<Chunk>>, src: seq<Chunk>, buffers: seq<Chunk>)
    requires WellFormed(strings) && Collected(buffers, src) && From(strings, src, |strings|)
    requires AllRenumbered(strings, after, buffers)
    ensures OneBufferEach(after) && OrderedByRank(after)
  {
    hide WellFormed, From, AllRenumbered, Rank, OnceEach;
    forall i, j, c, d | 0 <= i < |after| && 0 <= j < |after| && c in after[i] && d in after[j]
      ensures c.bufferIndex == d.bufferIndex <==> c.id == d.id
      ensures Rank(c) < Rank(d) ==> c.bufferIndex < d.bufferIndex
    {
      SizeAfter(strings, after, buffers);
      EntryAfter(strings, after, src, buffers, i, c);
      EntryAfter(strings, after, src, buffers, j, d);
    }
  }

  lemma SizeAfter(strings: seq<seq<Chunk>>, after: seq<seq<Chunk>>, buffers: seq<Chunk>)
    requires AllRenumbered(strings, after, buffers)
    ensures |after| == |strings|
    ensures forall i :: 0 <= i < |after| ==> Renumbered(strings[i], after[i], buffers)
  {
  }

  /** Increasing numbers that leave out none below m count up from zero. */
  lemma {:induction false} Dense(s: seq<Chunk>, m: int, k: nat)
    requires Increasing(s) && forall c :: c in s ==> c.bufferIndex >= 0
    requires k < m && forall v :: 0 <= v < m ==> Occurs(s, v)
    ensures k < |s| && s[k].bufferIndex == k
  {
    assert Occurs(s, k);
    var p :| 0 <= p < |s| && s[p].bufferIndex == k;
    if k > 0 {
      Dense(s, m, k - 1);
    }
    assert s[k] in s;
  }

  predicate Occurs(s: seq<Chunk>, v: int) {
    exists p :: 0 <= p < |s| && s[p].bufferIndex == v
  }

  /** Every entry for a transferred input string is the number of one. */
  lemma NumberOccurs(strings: seq<seq<Chunk>>, after: seq<seq<Chunk>>, src: seq<Chunk>, buffers: seq<Chunk>, v: nat)
    requires WellFormed(strings) && Collected(buffers, src) && From(strings, src, |strings|)
    requires AllRenumbered(strings, after, buffers)
    requires v < |buffers| && buffers[v].prio <= 2
    ensures |after| > 0 && Occurs(after[0], v)
  {
    hide WellFormed, Collected, From, HasIn, InMessageOrder, Increasing, First;
    var o := InputEntry(buffers, src, v);
    var d := InputMember(strings, src, o);
    assert Renumbered(strings[0], after[0], buffers);
    var c := MemberBefore(after[0], strings[0], d);
    KindOfBare(c, d);
    var p :| 0 <= p < |after[0]| && after[0][p] == c;
    assert NumberedBy(after[0][p], buffers);
  }

  lemma InputMember(strings: seq<seq<Chunk>>, src: seq<Chunk>, o: Chunk) returns (d: Chunk)
    requires WellFormed(strings) && From(strings, src, |strings|) && o in src && HasIn(o)
    ensures |strings| > 0 && d in strings[0] && d.id == o.id
  {
    hide Agreeing, DistinctIds, HasIn;
    var j :| 0 <= j < |strings| && o in strings[j];
    d :| d in strings[0] && d.id == o.id;
  }

  lemma InputEntry(buffers: seq<Chunk>, src: seq<Chunk>, v: nat) returns (o: Chunk)
    requires Collected(buffers, src) && v < |buffers| && buffers[v].prio <= 2
    ensures o in src && HasIn(o) && o.id == buffers[v].id && First(buffers, o.id) == v
  {
    hide SortedByPrio, OnceEach, Uses;
    assert buffers[v] in buffers;
    o :| o in src && buffers[v] == Tag(o);
    OnlyEntry(buffers, v);
  }

  lemma OnlyEntry(buffers: seq<Chunk>, v: nat)
    requires OnceEach(buffers) && v < |buffers| && HasIn(buffers[v])
    ensures First(buffers, buffers[v].id) == v
  {
  }

  /** Input strings are received in the buffers of their positions. */
  lemma InputInPlace(strings: seq<seq<Chunk>>, after: seq<seq<Chunk>>, src: seq<Chunk>, buffers: seq<Chunk>)
    requires WellFormed(strings) && Collected(buffers, src) && From(strings, src, |strings|)
    requires AllRenumbered(strings, after, buffers)
    ensures |after| > 0 && ReceivedInPlace(after[0])
  {
    hide WellFormed, Collected, From, Rank, Numbered, InsertPos, Occurs;
    SizeAfter(strings, after, buffers);
    AtLeastOne(strings);
    var s, m := after[0], InsertPos(buffers, 2);
    assert InMessageOrder(s);
    forall v | 0 <= v < m ensures Occurs(s, v) {
      NumberOccurs(strings, after, src, buffers, v);
    }
    forall c | c in s ensures c.bufferIndex >= 0 {
      EntryAfter(strings, after, src, buffers, 0, c);
    }
    forall k | 0 <= k < |s| && s[k].transferred
      ensures s[k].bufferIndex == s[k].offset == k
    {
      TransferredRank(strings, after, buffers, s[k]);
      EntryAfter(strings, after, src, buffers, 0, s[k]);
      BelowInsertPos(buffers, src, s[k].bufferIndex);
      Dense(s, m, s[k].bufferIndex);
    }
  }

  lemma AtLeastOne(strings: seq<seq<Chunk>>)
    requires WellFormed(strings)
    ensures |strings| > 0
  {
  }

  lemma TransferredRank(strings: seq<seq<Chunk>>, after: seq<seq<Chunk>>, buffers: seq<Chunk>, c: Chunk)
    requires WellFormed(strings) && AllRenumbered(strings, after, buffers)
    requires c in after[0] && c.transferred
    ensures Rank(c) <= 2
  {
    hide Agreeing, DistinctIds, Uses, Numbered, InMessageOrder;
    assert Renumbered(strings[0], after[0], buffers);
    var d := MemberBefore(strings[0], after[0], c);
    KindOfBare(c, d);
  }

  lemma BelowInsertPos(buffers: seq<Chunk>, src: seq<Chunk>, v: nat)
    requires Collected(buffers, src) && v < |buffers| && buffers[v].prio <= 2
    ensures v < InsertPos(buffers, 2)
  {
    hide OnceEach;
  }

  /** Numbering keeps the lists well-formed. */
  lemma StillWellFormed(strings: seq<seq<Chunk>>, after: seq<seq<Chunk>>, buffers: seq<Chunk>)
    requires WellFormed(strings) && AllRenumbered(strings, after, buffers)
    ensures WellFormed(after)
  {
    hide HasIn, First, Agreeing, InMessageOrder, Numbered, DistinctIds, Rank;
    forall i | 0 <= i < |after| ensures DistinctIds(after[i]) {
      assert Renumbered(strings[i], after[i], buffers);
      NumberedDistinct(after[i], buffers);
    }
    forall i, c | 0 <= i < |after| && c in after[i]
      ensures i == 0 ==> HasIn(c)
      ensures HasIn(c) ==> exists d :: d in after[0] && d.id == c.id
    {
      StillInput(strings, after, buffers, i, c);
    }
    StillAgreeing(strings, after, buffers);
  }

  lemma StillInput(strings: seq<seq<Chunk>>, after: seq<seq<Chunk>>, buffers: seq<Chunk>, i: nat, c: Chunk)
    requires WellFormed(strings) && AllRenumbered(strings, after, buffers) && i < |after| && c in after[i]
    ensures i == 0 ==> HasIn(c)
    ensures HasIn(c) ==> exists d :: d in after[0] && d.id == c.id
  {
    hide HasIn, Agreeing, Numbered, InMessageOrder, Rank, DistinctIds;
    assert Renumbered(strings[i], after[i], buffers) && Renumbered(strings[0], after[0], buffers);
    var d := MemberBefore(strings[i], after[i], c);
    KindOfBare(c, d);
    if HasIn(d) {
      var e :| e in strings[0] && e.id == d.id;
      var f := MemberBefore(after[0], strings[0], e);
      KindOfBare(e, f);
    }
  }

  lemma NumberedDistinct(s: seq<Chunk>, buffers: seq<Chunk>)
    requires Numbered(s, buffers)
    ensures DistinctIds(s)
  {
    hide First;
    forall j, k | 0 <= j < k < |s| ensures s[j].id != s[k].id {
      assert NumberedBy(s[j], buffers) && NumberedBy(s[k], buffers);
    }
  }

  lemma StillAgreeing(strings: seq<seq<Chunk>>, after: seq<seq<Chunk>>, buffers: seq<Chunk>)
    requires Agreeing(strings) && AllRenumbered(strings, after, buffers)
    ensures Agreeing(after)
  {
    hide Agreeing, Numbered, InMessageOrder, Rank, HasIn;
    forall i, j, c, d | 0 <= i < |after| && 0 <= j < |after| && c in after[i] && d in after[j] && c.id == d.id
      ensures c.channels == d.channels && c.transferred == d.transferred
    {
      assert Renumbered(strings[i], after[i], buffers) && Renumbered(strings[j], after[j], buffers);
      var c' := MemberBefore(strings[i], after[i], c);
      var d' := MemberBefore(strings[j], after[j], d);
      KindOfBare(c, c');
      KindOfBare(d, d');
      SameKind(strings, i, c', j, d');
    }
    AgreeingIf(after);
  }

  lemma AgreeingIf(strings: seq<seq<Chunk>>)
    requires forall i, j, c, d ::
               0 <= i < |strings| && 0 <= j < |strings| && c in strings[i] && d in strings[j] && c.id == d.id ==>
               c.channels == d.channels && c.transferred == d.transferred
    ensures Agreeing(strings)
  {
  }

  /** The order of the buffers in terms of flags and channels: strings that are transferred
      before temporary ones, input before output, and plain input before both. */
  predicate ComesBefore(c: Chunk, d: Chunk) {
    var inputC, inputD := c.channels & 1 != 0, d.channels & 1 != 0;
    var outputC, outputD := c.channels & 2 != 0, d.channels & 2 != 0;
    c.transferred &&
    (!d.transferred || (inputC && !inputD) || (inputC && inputD && !outputC && outputD))
  }

  lemma RankOfFields(c: Chunk, d: Chunk)
    requires ComesBefore(c, d)
    ensures Rank(c) < Rank(d)
  {
    FirstChannels(c.channels);
    FirstChannels(d.channels);
  }

  lemma FirstChannels(channels: bv32)
    ensures Uses(channels, 0) <==> channels & 1 != 0
    ensures Uses(channels, 1) <==> channels & 2 != 0
  {
    assert (1 as bv32) << 0 == 1 && (1 as bv32) << 1 == 2;
  }

  lemma OrderedByFields(strings: seq<seq<Chunk>>)
    requires OrderedByRank(strings)
    ensures forall i, j, c, d ::
              0 <= i < |strings| && 0 <= j < |strings| && c in strings[i] && d in strings[j] && ComesBefore(c, d) ==>
              c.bufferIndex < d.bufferIndex
  {
    hide Rank, ComesBefore;
    forall i, j, c, d | 0 <= i < |strings| && 0 <= j < |strings| && c in strings[i] && d in strings[j]
      && ComesBefore(c, d)
      ensures c.bufferIndex < d.bufferIndex
    {
      RankOfFields(c, d);
    }
  }

  // ---------------------------------------------------------------- the connection

  const MAX_CHANNELS := 15

  /** The string lists of a connection. */
  class Strings {
    var strings: seq<seq<Chunk>>
    var chunkID: nat
    /** Output channels that had their first fixed chunk. */
    var initialized: set<nat>

    ghost predicate Valid()
      reads this
    {
      WellFormed(strings) && |strings| <= MAX_CHANNELS && 0 in initialized &&
      forall i, c :: 0 <= i < |strings| && c in strings[i] ==> c.id <= chunkID
    }

    constructor (numChannels: nat)
      requires 0 < numChannels <= MAX_CHANNELS
      ensures Valid() && |strings| == numChannels && forall i :: 0 <= i < numChannels ==> strings[i] == []
    {
      strings := seq(numChannels, _ => []);
      chunkID := 0;
      initialized := {0};
    }

    /** A chunk of fixed size is a string when it is too large to copy; the first
        fixed chunk of each output channel is left out there. */
    method GetFixedCopyChunk(channels: bv32, size: int, alignment: nat) returns (id: nat)
      requires Valid()
      modifies this
      ensures Valid() && id == chunkID == old(chunkID) + 1 && |strings| == |old(strings)|
      ensures forall i :: 0 <= i < |strings| ==>
                strings[i] == if size >= 400 && Uses(channels, i) && i in old(initialized)
                              then old(strings[i]) + [Chunk(id, size, alignment, channels, true, 0, UNKNOWN, UNKNOWN)]
                                else old(strings[i])
      ensures initialized == old(initialized) + (set i | 0 <= i < |strings| && Uses(channels, i))
    {
      hide Uses, WellFormed;
      chunkID := chunkID + 1;
      id := chunkID;
      ghost var before, c := strings, Chunk(id, size, alignment, channels, true, 0, UNKNOWN, UNKNOWN);
      ghost var chosen := set j: nat | j < |strings| && size >= 400 && Uses(channels, j) && j in initialized;
      for i := 0 to |strings|
        invariant |strings| == |before| && chunkID == id
        invariant initialized == old(initialized) + (set j | 0 <= j < i && Uses(channels, j))
        invariant forall j :: 0 <= j < |strings| ==>
                    strings[j] == if j < i && j in chosen then before[j] + [c] else before[j]
      {
        if Uses(channels, i) {
          if i !in initialized {
            initialized := initialized + {i};
          } else if size >= 400 {
            strings := strings[i := strings[i] + [Chunk(id, size, alignment, channels, true, 0, UNKNOWN, UNKNOWN)]];
          }
        }
      }
      AtLeastOne(before);
      AddedWellFormed(before, strings, chosen, c, old(chunkID));
    }

    /** Data of bounded size is copied, with a string of its own to receive it on the
        server; data of unknown size is sent as a string. */
    method GetVariableCopyChunk(channels: bv32, maxSize: int) returns (id: nat)
      requires Valid()
      modifies this
      ensures Valid() && id == chunkID == old(chunkID) + 1 && |strings| == |old(strings)|
              && initialized == old(initialized)
      ensures forall i :: 0 <= i < |strings| ==>
                strings[i] == if Uses(channels, i)
                  then old(strings[i]) + [Chunk(id, maxSize, 1, channels, maxSize == UNKNOWN, 0, UNKNOWN, UNKNOWN)]
                              else old(strings[i])
    {
      hide Uses, WellFormed;
      chunkID := chunkID + 1;
      id := chunkID;
      ghost var before, c := strings, Chunk(id, maxSize, 1, channels, maxSize == UNKNOWN, 0, UNKNOWN, UNKNOWN);
      ghost var chosen := set j: nat | j < |strings| && Uses(channels, j);
      for i := 0 to |strings|
        invariant |strings| == |before| && chunkID == id && initialized == old(initialized)
        invariant forall j :: 0 <= j < |strings| ==>
                    strings[j] == if j < i && j in chosen then before[j] + [c] else before[j]
      {
        if Uses(channels, i) {
          strings := strings[i := strings[i]
            + [Chunk(id, maxSize, 1, channels, maxSize == UNKNOWN, 0, UNKNOWN, UNKNOWN)]];
        }
      }
      AtLeastOne(before);
      AddedWellFormed(before, strings, chosen, c, old(chunkID));
    }

    /** Numbers the buffers and gives each string its number. */
    method AssignBuffers()
      requires Valid()
      modifies `strings
      ensures Valid() && |strings| == |old(strings)|
      ensures forall i :: 0 <= i < |strings| ==>
                multiset(Bares(strings[i])) == multiset(Bares(old(strings)[i])) && InMessageOrder(strings[i])
      ensures OneBufferEach(strings) && OrderedByRank(strings) && ReceivedInPlace(strings[0])
      ensures forall i, j, c, d ::
                0 <= i < |strings| && 0 <= j < |strings| && c in strings[i] && d in strings[j] && ComesBefore(c, d) ==>
                c.bufferIndex < d.bufferIndex
    {
      hide WellFormed, Collected, From, Rank, OneBufferEach, OrderedByRank, ReceivedInPlace, ComesBefore;
      var buffers, src := CollectBuffers(strings);
      var numbered := NumberBuffers(buffers);
      ghost var before := strings;
      AtLeastOne(strings);
      for i := 0 to |strings|
        invariant |strings| == |before|
        invariant forall k :: i <= k < |strings| ==> strings[k] == before[k]
        invariant forall k :: 0 <= k < i ==> Renumbered(before[k], strings[k], buffers)
      {
        AllFound(before, src, buffers, i);
        var newList := Transfer(strings[i], buffers, numbered);
        strings := strings[i := newList];
      }
      assert AllRenumbered(before, strings, buffers);
      StillWellFormed(before, strings, buffers);
      NumbersSeparate(before, strings, src, buffers);
      InputInPlace(before, strings, src, buffers);
      OrderedByFields(strings);
      StillBounded(before, strings, buffers, chunkID);
    }
  }

  predicate Added(before: seq<seq<Chunk>>, after: seq<seq<Chunk>>, chosen: set<nat>, c: Chunk) {
    |after| == |before| &&
    forall i: nat :: i < |before| ==> after[i] == if i in chosen then before[i] + [c] else before[i]
  }

  /** A new chunk that is in the first list exactly if it has the input channel. */
  lemma AddedWellFormed(before: seq<seq<Chunk>>, after: seq<seq<Chunk>>, chosen: set<nat>, c: Chunk, last: nat)
    requires WellFormed(before) && Added(before, after, chosen, c) && c.id > last
    requires forall i, d :: 0 <= i < |before| && d in before[i] ==> d.id <= last
    requires chosen != {} && HasIn(c) ==> 0 in chosen
    requires 0 in chosen ==> HasIn(c)
    ensures WellFormed(after)
    ensures forall i, d :: 0 <= i < |after| && d in after[i] ==> d.id <= c.id
  {
    hide HasIn, Agreeing, Added;
    AddedMember(before, after, chosen, c, 0, c);
    AddedInput(before, after, chosen, c);
    AddedAgreeing(before, after, chosen, c, last);
    forall i, d | 0 <= i < |after| && d in after[i] ensures d.id <= c.id {
      AddedMember(before, after, chosen, c, i, d);
    }
    AddedDistinct(before, after, chosen, c, last);
  }

  lemma AddedMember(before: seq<seq<Chunk>>, after: seq<seq<Chunk>>, chosen: set<nat>, c: Chunk, i: nat, d: Chunk)
    requires Added(before, after, chosen, c) && i < |before|
    ensures |after| == |before| && (d in after[i] <==> d in before[i] || (i in chosen && d == c))
  {
  }

  lemma AddedDistinct(before: seq<seq<Chunk>>, after: seq<seq<Chunk>>, chosen: set<nat>, c: Chunk, last: nat)
    requires WellFormed(before) && Added(before, after, chosen, c) && c.id > last
    requires forall i, d :: 0 <= i < |before| && d in before[i] ==> d.id <= last
    ensures forall i :: 0 <= i < |after| ==> DistinctIds(after[i])
  {
    hide HasIn, Agreeing;
    forall i: nat | i < |after| ensures DistinctIds(after[i]) {
      assert DistinctIds(before[i]) && forall d :: d in before[i] ==> d.id != c.id;
    }
  }

  lemma AddedInput(before: seq<seq<Chunk>>, after: seq<seq<Chunk>>, chosen: set<nat>, c: Chunk)
    requires WellFormed(before) && Added(before, after, chosen, c)
    requires chosen != {} && HasIn(c) ==> 0 in chosen
    requires 0 in chosen ==> HasIn(c)
    ensures |after| > 0 && forall d :: d in after[0] ==> HasIn(d)
    ensures forall i, d :: 0 <= i < |after| && d in after[i] && HasIn(d) ==> exists e :: e in after[0] && e.id == d.id
  {
    hide HasIn, Agreeing, Added, DistinctIds;
    AddedMember(before, after, chosen, c, 0, c);
    forall d | d in after[0] ensures HasIn(d) {
      AddedMember(before, after, chosen, c, 0, d);
    }
    forall i, d | 0 <= i < |after| && d in after[i] && HasIn(d)
      ensures exists e :: e in after[0] && e.id == d.id
    {
      AddedMember(before, after, chosen, c, i, d);
      if d in before[i] {
        var e :| e in before[0] && e.id == d.id;
        AddedMember(before, after, chosen, c, 0, e);
      }
    }
  }

  lemma AddedAgreeing(before: seq<seq<Chunk>>, after: seq<seq<Chunk>>, chosen: set<nat>, c: Chunk, last: nat)
    requires before != [] && Agreeing(before) && Added(before, after, chosen, c) && c.id > last
    requires forall i, d :: 0 <= i < |before| && d in before[i] ==> d.id <= last
    ensures Agreeing(after)
  {
    hide HasIn, Agreeing, Added, Rank;
    AddedMember(before, after, chosen, c, 0, c);
    forall i, j, d, e | 0 <= i < |after| && 0 <= j < |after| && d in after[i] && e in after[j] && d.id == e.id
      ensures d.channels == e.channels && d.transferred == e.transferred
    {
      AddedMember(before, after, chosen, c, i, d);
      AddedMember(before, after, chosen, c, j, e);
      if d in before[i] && e in before[j] {
        SameKind(before, i, d, j, e);
      }
    }
    AgreeingIf(after);
  }

  lemma AllFound(strings: seq<seq<Chunk>>, src: seq<Chunk>, buffers: seq<Chunk>, i: nat)
    requires WellFormed(strings) && Collected(buffers, src) && From(strings, src, |strings|) && i < |strings|
    ensures DistinctIds(strings[i]) && forall c :: c in strings[i] ==> First(buffers, c.id) < |buffers|
  {
    hide Collected, From, Rank, Agreeing, HasIn;
    forall c | c in strings[i] ensures First(buffers, c.id) < |buffers| {
      EntryOf(strings, src, buffers, i, c);
    }
  }

  lemma StillBounded(before: seq<seq<Chunk>>, after: seq<seq<Chunk>>, buffers: seq<Chunk>, last: nat)
    requires AllRenumbered(before, after, buffers)
    requires forall i, d :: 0 <= i < |before| && d in before[i] ==> d.id <= last
    ensures forall i, d :: 0 <= i < |after| && d in after[i] ==> d.id <= last
  {
    hide Numbered, InMessageOrder, Rank, HasIn;
    forall i, d | 0 <= i < |after| && d in after[i] ensures d.id <= last {
      assert Renumbered(before[i], after[i], buffers);
      var c := MemberBefore(before[i], after[i], d);
      KindOfBare(d, c);
    }
  }
}
