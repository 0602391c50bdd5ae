/** Transfer of variable-size data through the `_varbuf` of a message: the size
    expressions put into the generated code, and the copy loops they control. */
module Marshalling {
  import opened Bits
  import opened Layout
  import opened VariableChunks

  const WORD_MASK := 0xFFFF_FFFC

  /** The arithmetic that the generated code applies to an element count. */
  datatype SizeExpr =
    | Size
    | Plus(e: SizeExpr, n: nat)
    | ShiftLeft(e: SizeExpr, n: nat)
    | ShiftRight(e: SizeExpr, n: nat)
    | Mask(e: SizeExpr, mask: nat)

  function Doubled(x: nat, n: nat): nat {
    if n == 0 then x else 2 * Doubled(x, n - 1)
  }

  function Halved(x: nat, n: nat): nat {
    if n == 0 then x else Halved(x, n - 1) / 2
  }

  function Value(e: SizeExpr, size: nat): nat {
    match e
    case Size => size
    case Plus(x, n) => Value(x, size) + n
    case ShiftLeft(x, n) => Doubled(Value(x, size), n)
    case ShiftRight(x, n) => Halved(Value(x, size), n)
    case Mask(x, m) => And(Value(x, size), m)
  }

  predicate IsElementSize(elementSize: nat) {
    elementSize == 1 || elementSize == 2 || elementSize == 4
  }

  /** The number of words to copy, or of bytes to advance. */
  function BuildSizeDwordAlign(elementSize: nat, scaleToChars: bool): SizeExpr
    requires IsElementSize(elementSize)
  {
    var shiftRight := if elementSize == 1 then 2 else if elementSize == 2 then 1 else 0;
    var roundUp := if elementSize == 1 then 3 else if elementSize == 2 then 1 else 0;
    var e := if roundUp != 0 then Plus(Size, roundUp) else Size;
    if scaleToChars then
      var shiftLeft := 2 - shiftRight;
      Mask(if shiftLeft != 0 then ShiftLeft(e, shiftLeft) else e, WORD_MASK)
    else if shiftRight != 0 then ShiftRight(e, shiftRight)
    else e
  }

  lemma WordMask(x: nat)
    requires x < 0x1_0000_0000
    ensures And(x, WORD_MASK) == x - x % 4
  {
    AndWordMask(x, 0x3FFF_FFFF);
    SmallPowers();
    AndBelow(x / 4, 30);
  }

  lemma SmallPowers()
    ensures Pow2(1) == 2 && Pow2(2) == 4 && Pow2(30) == 0x4000_0000
  {
    assert Pow2(4) == 16;
    Pow2Adds(4, 4);
    Pow2Adds(8, 8);
    Pow2Adds(16, 8);
    assert Pow2(6) == 64;
    Pow2Adds(24, 6);
  }

  lemma ShiftMeaning(e: SizeExpr, size: nat)
    ensures Value(ShiftLeft(e, 1), size) == 2 * Value(e, size)
    ensures Value(ShiftLeft(e, 2), size) == 4 * Value(e, size)
    ensures Value(ShiftRight(e, 1), size) == Value(e, size) / 2
    ensures Value(ShiftRight(e, 2), size) == Value(e, size) / 4
  {
    hide And;
    var x := Value(e, size);
    assert Doubled(x, 1) == 2 * x && Doubled(x, 2) == 2 * Doubled(x, 1);
    assert Halved(x, 1) == x / 2 && Halved(x, 2) == Halved(x, 1) / 2;
  }

  lemma RoundUpByQuarters(bytes: nat, more: nat)
    requires more == 3 || (more == 2 && bytes % 2 == 0) || (more == 0 && bytes % 4 == 0)
    ensures 4 * ((bytes + more) / 4) == RoundUp(bytes, 4)
  {
    hide *;
    QuarterBounds(bytes, more);
    MultipleOf(4, (bytes + more) / 4);
    Least(bytes, 4 * ((bytes + more) / 4));
  }

  lemma QuarterBounds(bytes: nat, more: nat)
    requires more == 3 || (more == 2 && bytes % 2 == 0) || (more == 0 && bytes % 4 == 0)
    ensures bytes <= 4 * ((bytes + more) / 4) < bytes + 4
  {
    var n := bytes + more;
    var q, m := n / 4, n % 4;
    assert n == 4 * q + m;
    if more == 2 {
      assert bytes == 2 * (bytes / 2);
      assert m == 2 * (bytes / 2 + 1 - 2 * q);
    } else if more == 0 {
      assert m == 0;
    }
  }

  lemma Least(bytes: nat, end: nat)
    requires bytes <= end < bytes + 4 && end % 4 == 0
    ensures end == RoundUp(bytes, 4)
  {
    var up := RoundUp(bytes, 4);
    MultiplesApart(up, end, 4);
    MultiplesApart(end, up, 4);
  }

  lemma RoundUpByMask(bytes: nat, more: nat)
    requires more == 3 || (more == 2 && bytes % 2 == 0) || (more == 0 && bytes % 4 == 0)
    requires bytes + 4 < 0x1_0000_0000
    ensures And(bytes + more, WORD_MASK) == RoundUp(bytes, 4)
  {
    hide RoundUp, And, IsMultiple;
    WordMask(bytes + more);
    RoundUpByQuarters(bytes, more);
  }

  lemma Quarter(n: nat)
    ensures (2 * n) / 4 == n / 2 && (4 * n) / 4 == n
  {
  }

  lemma AlignBytes(count: nat)
    requires count + 4 < 0x1_0000_0000
    ensures Value(BuildSizeDwordAlign(1, true), count) == RoundUp(count, 4)
    ensures 4 * Value(BuildSizeDwordAlign(1, false), count) == RoundUp(count, 4)
  {
    hide And, RoundUp, Pow2, IsMultiple;
    ShiftMeaning(Plus(Size, 3), count);
    RoundUpByMask(count, 3);
    RoundUpByQuarters(count, 3);
  }

  lemma HalvesRounded(count: nat)
    requires 2 * count + 4 < 0x1_0000_0000
    ensures And(2 * (count + 1), WORD_MASK) == 4 * ((count + 1) / 2) == RoundUp(2 * count, 4)
  {
    hide RoundUp, And, IsMultiple;
    RoundUpByMask(2 * count, 2);
    RoundUpByQuarters(2 * count, 2);
    Quarter(count + 1);
  }

  lemma WordsRounded(count: nat)
    requires 4 * count + 4 < 0x1_0000_0000
    ensures And(4 * count, WORD_MASK) == 4 * count == RoundUp(4 * count, 4)
  {
    hide RoundUp, And, IsMultiple;
    RoundUpByMask(4 * count, 0);
    RoundUpByQuarters(4 * count, 0);
    Quarter(count);
  }

  lemma AlignHalves(count: nat)
    requires 2 * count + 4 < 0x1_0000_0000
    ensures Value(BuildSizeDwordAlign(2, true), count) == RoundUp(2 * count, 4)
    ensures 4 * Value(BuildSizeDwordAlign(2, false), count) == RoundUp(2 * count, 4)
  {
    hide And, RoundUp, Pow2, IsMultiple;
    ShiftMeaning(Plus(Size, 1), count);
    HalvesRounded(count);
  }

  lemma AlignWords(count: nat)
    requires 4 * count + 4 < 0x1_0000_0000
    ensures Value(BuildSizeDwordAlign(4, true), count) == RoundUp(4 * count, 4)
    ensures 4 * Value(BuildSizeDwordAlign(4, false), count) == RoundUp(4 * count, 4)
  {
    hide And, RoundUp, Pow2, IsMultiple;
    ShiftMeaning(Size, count);
    WordsRounded(count);
  }

  /** Both expressions mean the data size rounded up to whole words: one in bytes,
      the other in words. */
  lemma DwordAlignMeaning(elementSize: nat, count: nat)
    requires IsElementSize(elementSize) && count * elementSize + 4 < 0x1_0000_0000
    ensures Value(BuildSizeDwordAlign(elementSize, true), count) == RoundUp(count * elementSize, 4)
    ensures 4 * Value(BuildSizeDwordAlign(elementSize, false), count) == RoundUp(count * elementSize, 4)
  {
    hide And, RoundUp, Pow2, Value, BuildSizeDwordAlign;
    if elementSize == 1 {
      AlignBytes(count);
    } else if elementSize == 2 {
      AlignHalves(count);
    } else {
      AlignWords(count);
    }
  }

  // ---------------------------------------------------------------- marshalling

  type Byte = bv8

  /** One variable-size chunk at run time: its element size and the bound in bytes
      it was declared with, and the element count and source memory of a call. The
      copy works in whole words, so it may read past the last element. */
  datatype Item = Item(elementSize: nat, bound: nat, count: nat, source: seq<Byte>)

  function Bytes(i: Item): nat {
    i.count * i.elementSize
  }

  /** What the copy transfers: the data, rounded up to whole words. */
  function Extent(i: Item): (n: nat)
    ensures n >= Bytes(i)
  {
    RoundUp(Bytes(i), 4)
  }

  predicate ValidItem(i: Item) {
    IsElementSize(i.elementSize) && Bytes(i) <= i.bound < 0x8000_0000 && |i.source| >= Extent(i)
  }

  predicate AllValid(items: seq<Item>) {
    forall k :: 0 <= k < |items| ==> ValidItem(items[k])
  }

  /** The whole words that the copy takes from the source. */
  function Sent(i: Item): seq<Byte> {
    if Extent(i) <= |i.source| then i.source[..Extent(i)] else i.source
  }

  /** The bytes that a sequence of chunks occupies in the buffer. */
  function Image(items: seq<Item>): seq<Byte> {
    if items == [] then [] else Image(items[..|items| - 1]) + Sent(items[|items| - 1])
  }

  function Bounds(items: seq<Item>): seq<int> {
    seq(|items|, k requires 0 <= k < |items| => items[k].bound)
  }

  function Sizes(s: seq<Chunk>): seq<int> {
    seq(|s|, k requires 0 <= k < |s| => s[k].size)
  }

  /** The room for chunks of the given sizes. */
  function Room(sizes: seq<int>, word: nat): int
    requires word > 0
  {
    if sizes == [] then 0 else Room(sizes[..|sizes| - 1], word) + RoundUp(sizes[|sizes| - 1], word)
  }

  lemma RoundUpMonotone(x: nat, y: nat, word: nat)
    requires x <= y && word > 0 && word % 4 == 0
    ensures RoundUp(x, 4) <= RoundUp(y, word)
  {
    hide RoundUp;
    WordMultiple(RoundUp(y, word), word);
    MultiplesApart(RoundUp(x, 4), RoundUp(y, word), 4);
  }

  lemma WordMultiple(r: int, word: nat)
    requires word % 4 == 0 && IsMultiple(r, word)
    ensures IsMultiple(r, 4)
  {
    var q, p := word / 4, r / word;
    assert r == word * p == 4 * (q * p);
    MultipleOf(4, q * p);
  }

  lemma {:induction false} ImageFits(items: seq<Item>, word: nat)
    requires word > 0 && word % 4 == 0 && AllValid(items)
    ensures |Image(items)| <= Room(Bounds(items), word)
    decreases |items|
  {
    hide RoundUp, IsMultiple;
    if items != [] {
      var n := |items| - 1;
      assert ValidItem(items[n]);
      assert Bounds(items)[..n] == Bounds(items[..n]);
      ImageFits(items[..n], word);
      RoundUpMonotone(Bytes(items[n]), items[n].bound, word);
    }
  }

  /** The optimizer adds up the sizes in the order in which it moves the chunks. */
  lemma {:induction false} RoomOfChunks(s: seq<Chunk>, word: nat)
    requires word > 0
    ensures VarBytes(s, word) == Room(Sizes(s), word)
    decreases |s|
  {
    hide RoundUp;
    if s != [] {
      assert Sizes(s)[..|s| - 1] == Sizes(s[..|s| - 1]);
      RoomOfChunks(s[..|s| - 1], word);
    }
  }

  lemma {:induction false} RoomRemove(sizes: seq<int>, k: nat, word: nat)
    requires word > 0 && k < |sizes|
    ensures Room(sizes, word) == Room(sizes[..k] + sizes[k + 1..], word) + RoundUp(sizes[k], word)
    decreases |sizes|
  {
    hide RoundUp;
    var n := |sizes| - 1;
    var rest := sizes[..k] + sizes[k + 1..];
    if k == n {
      assert rest == sizes[..n];
    } else {
      RoomRemove(sizes[..n], k, word);
      assert rest[..|rest| - 1] == sizes[..n][..k] + sizes[..n][k + 1..];
    }
  }

  lemma {:induction false} RoomOfOrder(a: seq<int>, b: seq<int>, word: nat)
    requires word > 0 && multiset(a) == multiset(b)
    ensures Room(a, word) == Room(b, word)
    decreases |a|
  {
    hide RoundUp;
    assert |a| == |multiset(a)| == |multiset(b)| == |b|;
    if a != [] {
      var n := |a| - 1;
      assert a[n] in multiset(b);
      var k :| 0 <= k < |b| && b[k] == a[n];
      SameRest(a, b, k);
      RoomOfOrder(a[..n], b[..k] + b[k + 1..], word);
      RoomRemove(b, k, word);
    }
  }

  lemma SameRest(a: seq<int>, b: seq<int>, k: nat)
    requires multiset(a) == multiset(b) && a != [] && k < |b| && b[k] == a[|a| - 1]
    ensures multiset(a[..|a| - 1]) == multiset(b[..k] + b[k + 1..])
  {
    var n := |a| - 1;
    var front, back, all := b[..k], b[k + 1..], a[..n];
    assert a == all + [a[n]];
    assert multiset(a) == multiset(all) + multiset{a[n]};
    assert b == front + ([b[k]] + back);
    assert multiset(b) == multiset(front) + (multiset{b[k]} + multiset(back));
    assert multiset(front + back) == multiset(front) + multiset(back);
    assert multiset(all) == multiset(a) - multiset{a[n]} == multiset(b) - multiset{b[k]};
  }

  /** The chunks of a call are those that were given room, in any order. */
  predicate RoomGivenTo(moved: seq<Chunk>, items: seq<Item>) {
    multiset(Sizes(moved)) == multiset(Bounds(items))
  }

  /** Data within its declared bounds never exceeds the buffer, in whatever order
      the chunks are marshalled. */
  lemma BufferHoldsData(moved: seq<Chunk>, items: seq<Item>, word: nat)
    requires word > 0 && word % 4 == 0 && AllValid(items) && RoomGivenTo(moved, items)
    ensures |Image(items)| <= VarBytes(moved, word)
  {
    ImageFits(items, word);
    RoomOfChunks(moved, word);
    RoomOfOrder(Sizes(moved), Bounds(items), word);
  }

  lemma {:induction false} ImagePrefix(items: seq<Item>, k: nat)
    requires k <= |items|
    ensures Image(items[..k]) <= Image(items)
    decreases |items| - k
  {
    if k == |items| {
      assert items[..k] == items;
    } else {
      ImagePrefix(items, k + 1);
      assert items[..k + 1][..k] == items[..k];
    }
  }

  lemma ImageStep(items: seq<Item>, k: nat)
    requires AllValid(items) && k <= |items|
    ensures k == 0 ==> Image(items[..k]) == []
    ensures k < |items| ==>
              ValidItem(items[k]) && IsElementSize(items[k].elementSize)
              && items[k].count * items[k].elementSize < 0x8000_0000
              && |Sent(items[k])| == Extent(items[k]) == RoundUp(items[k].count * items[k].elementSize, 4)
              && Image(items[..k + 1]) == Image(items[..k]) + Sent(items[k])
  {
    hide RoundUp;
    if k < |items| {
      assert items[..k + 1][..k] == items[..k];
      assert ValidItem(items[k]);
    }
  }

  /** The word copy of the generated code. */
  method CopyWords(buffer: array<Byte>, index: nat, source: seq<Byte>, words: nat)
    requires index + 4 * words <= buffer.Length && 4 * words <= |source|
    modifies buffer
    ensures buffer[..] == old(buffer[..])[..index] + source[..4 * words] + old(buffer[..])[index + 4 * words..]
  {
    for k := 0 to 4 * words
      invariant forall j :: 0 <= j < k ==> buffer[index + j] == source[j]
      invariant forall j :: 0 <= j < buffer.Length && !(index <= j < index + k) ==> buffer[j] == old(buffer[j])
    {
      buffer[index + k] := source[k];
    }
  }

  /** The part of the generated code that puts one chunk into the buffer: the copy
      and the advance of the running index. */
  method AssignToBuffer(item: Item, buffer: array<Byte>, index: nat) returns (next: nat)
    requires ValidItem(item) && index + Extent(item) <= buffer.Length
    modifies buffer
    ensures next == index + Extent(item)
    ensures buffer[..index] == old(buffer[..index]) && buffer[index..next] == Sent(item)
  {
    hide RoundUp, And, Pow2, BuildSizeDwordAlign, Value;
    DwordAlignMeaning(item.elementSize, item.count);
    CopyWords(buffer, index, item.source, Value(BuildSizeDwordAlign(item.elementSize, false), item.count));
    next := index + Value(BuildSizeDwordAlign(item.elementSize, true), item.count);
  }

  /** The client side: copies every chunk and sends its element count along. */
  method Marshal(items: seq<Item>, buffer: array<Byte>) returns (lengths: seq<nat>, index: nat)
    requires AllValid(items) && |Image(items)| <= buffer.Length
    modifies buffer
    ensures index == |Image(items)| <= buffer.Length && buffer[..index] == Image(items)
    ensures |lengths| == |items| && forall k :: 0 <= k < |items| ==> lengths[k] == items[k].count
  {
    hide *;
    lengths, index := [], 0;
    ImageStep(items, 0);
    for k := 0 to |items|
      invariant index == |Image(items[..k])| <= buffer.Length && buffer[..index] == Image(items[..k])
      invariant |lengths| == k && forall j :: 0 <= j < k ==> lengths[j] == items[j].count
    {
      ImageStep(items, k);
      ImagePrefix(items, k + 1);
      var next := AssignToBuffer(items[k], buffer, index);
      assert buffer[..next] == buffer[..index] + buffer[index..next];
      index := next;
      lengths := lengths + [items[k].count];
    }
    assert items[..|items|] == items;
  }

  /** The part of the generated code that takes one chunk out of the buffer. */
  method AssignFromBuffer(elementSize: nat, count: nat, buffer: array<Byte>, index: nat)
    returns (payload: seq<Byte>, next: nat)
    requires IsElementSize(elementSize) && count * elementSize < 0x8000_0000
    requires index + RoundUp(count * elementSize, 4) <= buffer.Length
    ensures next == index + RoundUp(count * elementSize, 4) && payload == buffer[index..next]
  {
    hide RoundUp, And, Pow2, BuildSizeDwordAlign, Value;
    DwordAlignMeaning(elementSize, count);
    payload := buffer[index..index + 4 * Value(BuildSizeDwordAlign(elementSize, false), count)];
    next := index + Value(BuildSizeDwordAlign(elementSize, true), count);
  }

  /** The server side: element sizes are known there, counts come with the message. */
  method Unmarshal(elementSizes: seq<nat>, lengths: seq<nat>, buffer: array<Byte>, ghost items: seq<Item>)
    returns (payloads: seq<seq<Byte>>, index: nat)
    requires |elementSizes| == |lengths| == |items| && AllValid(items)
    requires forall k :: 0 <= k < |items| ==> elementSizes[k] == items[k].elementSize && lengths[k] == items[k].count
    requires |Image(items)| <= buffer.Length && buffer[..|Image(items)|] == Image(items)
    ensures index == |Image(items)| && |payloads| == |items|
    ensures forall k :: 0 <= k < |items| ==> payloads[k] == Sent(items[k])
  {
    hide *;
    payloads, index := [], 0;
    ImageStep(items, 0);
    for k := 0 to |lengths|
      invariant index == |Image(items[..k])| && |payloads| == k
      invariant forall j :: 0 <= j < k ==> payloads[j] == Sent(items[j])
    {
      ImageStep(items, k);
      ImagePrefix(items, k + 1);
      assert buffer[..|Image(items)|][index..index + |Sent(items[k])|] == Sent(items[k]);
      var payload, next := AssignFromBuffer(elementSizes[k], lengths[k], buffer, index);
      payloads, index := payloads + [payload], next;
    }
    assert items[..|items|] == items;
  }

  /** The data of the call is at the start of what arrived. */
  predicate Delivered(payload: seq<Byte>, i: Item) {
    |payload| >= Bytes(i) && |i.source| >= Bytes(i) && payload[..Bytes(i)] == i.source[..Bytes(i)]
  }

  lemma SentIsDelivered(i: Item)
    requires ValidItem(i)
    ensures Delivered(Sent(i), i)
  {
    hide RoundUp;
    assert i.source[..Extent(i)][..Bytes(i)] == i.source[..Bytes(i)];
  }

  /** Sending and receiving in the same order returns every element count and every
      byte of data, and the two sides end at the same index, inside the buffer. */
  method Transfer(moved: seq<Chunk>, items: seq<Item>, word: nat)
    returns (counts: seq<nat>, data: seq<seq<Byte>>, sent: nat, received: nat)
    requires word > 0 && word % 4 == 0 && AllValid(items) && RoomGivenTo(moved, items)
    ensures |counts| == |data| == |items| && sent == received <= VarBytes(moved, word)
    ensures forall k :: 0 <= k < |items| ==> counts[k] == items[k].count && Delivered(data[k], items[k])
  {
    hide Sent, Delivered, ValidItem, Image, RoundUp;
    BufferHoldsData(moved, items, word);
    var buffer := new Byte[VarBytes(moved, word)](_ => 0);
    counts, sent := Marshal(items, buffer);
    var elementSizes := seq(|items|, k requires 0 <= k < |items| => items[k].elementSize);
    data, received := Unmarshal(elementSizes, counts, buffer, items);
    forall k | 0 <= k < |items| ensures Delivered(data[k], items[k]) {
      SentIsDelivered(items[k]);
    }
  }
}
