/** Several small chunks in one message register: how the client packs them and how
    the server takes them out again. */
module SubWords {
  import opened Bits

  const WORD := 0x1_0000_0000

  /** 256 to the power k. */
  function Bytes(k: nat): (b: nat)
    requires k <= 4
    ensures b > 0
  {
    if k == 0 then 1 else if k == 1 then 0x100 else if k == 2 then 0x1_0000 else if k == 3 then 0x100_0000 else WORD
  }

  /** A leaf has its size in bytes and the word of memory found at its address, the
      first byte lowest; only the first `size` bytes belong to it. */
  datatype Chunk = Leaf(size: nat, word: nat) | Shared(chunk1: Chunk, chunk2: Chunk)

  function Size(c: Chunk): nat {
    match c
    case Leaf(size, _) => size
    case Shared(c1, c2) => Size(c1) + Size(c2)
  }

  predicate Valid(c: Chunk) {
    match c
    case Leaf(size, word) => 1 <= size <= 4 && word < WORD
    case Shared(c1, c2) => Valid(c1) && Valid(c2)
  }

  /** The data of a leaf. */
  function Data(c: Chunk): nat
    requires c.Leaf? && c.size <= 4
  {
    c.word % Bytes(c.size)
  }

  // ---------------------------------------------------------------- generated expressions

  /** The client reads a leaf through an unsigned type; for three bytes there is only
      the type of four. */
  function StorageBytes(size: nat): (n: nat)
    ensures n <= 4
  {
    if size == 1 then 1 else if size == 2 then 2 else 4
  }

  /** The value that the client puts into the register, in 32-bit arithmetic. */
  function CachedInput(c: Chunk): (r: nat)
    requires Valid(c) && Size(c) <= 4
    ensures r < WORD
    decreases c
  {
    match c
    case Leaf(size, word) => word % Bytes(StorageBytes(size))
    case Shared(c1, c2) =>
      SizePositive(c1);
      SizePositive(c2);
      (CachedInput(c2) * Bytes(Size(c1)) + CachedInput(c1)) % WORD
  }

  lemma SizePositive(c: Chunk)
    requires Valid(c)
    ensures Size(c) >= 1
  {
  }

  /** Bitwise complement of a 32-bit word. */
  function Not(x: nat): nat
    requires x < WORD
  {
    WORD - 1 - x
  }

  function Mask(size: nat): nat
    requires 1 <= size < 4
  {
    Not((Not(Bytes(size)) + 1) % WORD)
  }

  /** The mask that the generator computes has a one for each bit of the chunk. */
  lemma MaskMeaning(size: nat)
    requires 1 <= size < 4
    ensures Mask(size) == Pow2(8 * size) - 1 == Bytes(size) - 1
  {
    assert Pow2(4) == 16;
    Pow2Adds(4, 4);
    Pow2Adds(8, 8);
    Pow2Adds(16, 8);
  }

  /** What the server takes from the register for a chunk at this offset. */
  function Extract(register: nat, offset: nat, size: nat): nat
    requires 1 <= size <= 4
  {
    var shifted := register / Bytes(offset % 4);
    if size < 4 then And(shifted, Mask(size)) else shifted
  }

  lemma ExtractMeaning(register: nat, offset: nat, size: nat)
    requires 1 <= size <= 4 && register < WORD && offset % 4 + size <= 4
    ensures Extract(register, offset, size) == register / Bytes(offset % 4) % Bytes(size)
  {
    hide And, Pow2;
    if size < 4 {
      MaskMeaning(size);
      AndLowMask(register / Bytes(offset % 4), 8 * size);
    }
  }

  /** Every leaf is taken out as it was: the first part of a shared chunk lies at its
      offset, the second behind the first. */
  predicate Delivered(c: Chunk, register: nat, offset: nat)
    requires Valid(c)
    decreases c
  {
    match c
    case Leaf(size, _) => Extract(register, offset, size) == Data(c)
    case Shared(c1, c2) => Delivered(c1, register, offset) && Delivered(c2, register, offset + Size(c1))
  }

  // ---------------------------------------------------------------- packing

  /** The data of all leaves, one behind the other. */
  function Image(c: Chunk): nat
    requires Valid(c) && Size(c) <= 4
    decreases c
  {
    match c
    case Leaf(_, _) => Data(c)
    case Shared(c1, c2) =>
      SizePositive(c1);
      SizePositive(c2);
      Image(c2) * Bytes(Size(c1)) + Image(c1)
  }

  lemma BytesAdd(a: nat, b: nat)
    requires a + b <= 4
    ensures Bytes(a + b) == Bytes(a) * Bytes(b)
  {
  }

  /** A number below a * b, split into a low and a high part. */
  lemma TwoParts(high: nat, low: nat, a: nat, b: nat)
    requires a > 0 && b > 0 && low < a && high < b
    ensures high * a + low < a * b
  {
    var gap := b - (high + 1);
    assert a * b == a * high + a + a * gap;
    NoLess(a, gap);
  }

  lemma NoLess(a: nat, b: nat)
    ensures a * b >= 0
  {
  }

  lemma {:induction false} ImageBound(c: Chunk)
    requires Valid(c) && Size(c) <= 4
    ensures Image(c) < Bytes(Size(c))
    decreases c
  {
    hide Bytes;
    if c.Shared? {
      SizePositive(c.chunk1);
      SizePositive(c.chunk2);
      ImageBound(c.chunk1);
      ImageBound(c.chunk2);
      BytesAdd(Size(c.chunk1), Size(c.chunk2));
      TwoParts(Image(c.chunk2), Image(c.chunk1), Bytes(Size(c.chunk1)), Bytes(Size(c.chunk2)));
    }
  }

  /** The byte behind a leaf of three bytes is in the way of the chunk above it. */
  predicate Spills(c: Chunk) {
    c.Shared? && c.chunk1.Leaf? && c.chunk1.size == 3 && c.chunk1.word >= Bytes(3)
  }

  lemma LeafExactly(c: Chunk)
    requires Valid(c) && c.Leaf? && (c.size == 3 ==> c.word < Bytes(3))
    ensures CachedInput(c) == Image(c)
  {
  }

  /** Up to three bytes, nothing but the data is packed, unless there is a leaf of three
      bytes. */
  lemma {:induction false} PackedExactly(c: Chunk)
    requires Valid(c) && Size(c) <= 3
    requires c.Leaf? && c.size == 3 ==> c.word < Bytes(3)
    ensures CachedInput(c) == Image(c)
    decreases c
  {
    hide CachedInput, Image;
    if c.Shared? {
      SizePositive(c.chunk1);
      SizePositive(c.chunk2);
      PackedExactly(c.chunk1);
      PackedExactly(c.chunk2);
      PackedStep(c);
      ImageBound(c);
    } else {
      LeafExactly(c);
    }
  }

  /** Without a spill, the register holds the data of all leaves in its low bytes. */
  lemma Packed(c: Chunk)
    requires Valid(c) && Size(c) <= 4 && !Spills(c)
    ensures CachedInput(c) % Bytes(Size(c)) == Image(c)
  {
    hide CachedInput, Image, Bytes;
    if c.Shared? {
      SizePositive(c.chunk1);
      SizePositive(c.chunk2);
      NoSpillBelow(c);
      PackedExactly(c.chunk1);
      PackedShared(c);
    } else {
      PackedLeaf(c);
    }
  }

  lemma NoSpillBelow(c: Chunk)
    requires c.Shared? && !Spills(c)
    ensures c.chunk1.Leaf? && c.chunk1.size == 3 ==> c.chunk1.word < Bytes(3)
  {
  }

  lemma PackedLeaf(c: Chunk)
    requires Valid(c) && c.Leaf? && Size(c) <= 4
    ensures CachedInput(c) % Bytes(Size(c)) == Image(c)
  {
  }

  lemma PackedShared(c: Chunk)
    requires Valid(c) && Size(c) <= 4 && c.Shared? && Size(c.chunk1) >= 1 && Size(c.chunk2) >= 1
    requires CachedInput(c.chunk1) == Image(c.chunk1)
    ensures CachedInput(c) % Bytes(Size(c)) == Image(c)
  {
    hide CachedInput, Image, Bytes;
    ImageBound(c);
    PackedStep(c);
    BelowBoth(Image(c), Bytes(Size(c)));
    if c.chunk2.Leaf? && c.chunk2.size == 3 {
      SizeOne(c);
      ImageBound(c.chunk1);
      TopThree(c.chunk2.word, CachedInput(c.chunk1));
    } else {
      PackedExactly(c.chunk2);
    }
  }

  lemma BelowBoth(x: nat, m: nat)
    requires x < m <= WORD
    ensures x % WORD == x && x % m == x
  {
    Remainder(x, WORD, 0, x);
    Remainder(x, m, 0, x);
  }

  lemma PackedStep(c: Chunk)
    requires Valid(c) && Size(c) <= 4 && c.Shared? && Size(c.chunk1) >= 1 && Size(c.chunk2) >= 1
    ensures Bytes(Size(c)) <= WORD && (Size(c) == 4 ==> Bytes(Size(c)) == WORD)
    ensures CachedInput(c) == (CachedInput(c.chunk2) * Bytes(Size(c.chunk1)) + CachedInput(c.chunk1)) % WORD
    ensures Image(c) == Image(c.chunk2) * Bytes(Size(c.chunk1)) + Image(c.chunk1)
    ensures c.chunk2.Leaf? && c.chunk2.size == 3 ==>
              CachedInput(c.chunk2) == c.chunk2.word && Image(c.chunk2) == c.chunk2.word % 0x100_0000
  {
  }

  lemma SizeOne(c: Chunk)
    requires c.Shared? && Size(c) <= 4 && Size(c.chunk1) >= 1 && Size(c.chunk2) == 3
    ensures Size(c.chunk1) == 1 && Bytes(Size(c.chunk1)) == 0x100 && Size(c) == 4
  {
  }

  /** Three bytes on top of one: what is behind them is shifted out. */
  lemma TopThree(word: nat, low: nat)
    requires word < WORD && low < 0x100
    ensures (word * 0x100 + low) % WORD == word % 0x100_0000 * 0x100 + low
  {
    var high := word / 0x100_0000;
    assert word * 0x100 + low == WORD * high + (word % 0x100_0000 * 0x100 + low);
  }

  lemma LowAndHigh(x: nat, a: nat, b: nat)
    requires a > 0 && b > 0
    ensures a * b > 0 && x % (a * b) % a == x % a && x % (a * b) / a == x / a % b && x / a / b == x / (a * b)
  {
    var q, r := x / a / b, x / a % b;
    assert x / a == b * q + r;
    assert x == a * (x / a) + x % a;
    assert a * (b * q + r) == (a * b) * q + a * r;
    var rest := a * r + x % a;
    TwoParts(r, x % a, a, b);
    assert x == (a * b) * q + rest;
    assert a * b > 0;
    Remainder(x, a * b, q, rest);
    Remainder(rest, a, r, x % a);
  }

  /** A register with the image at this offset delivers every leaf. */
  lemma {:induction false} ImageDelivered(c: Chunk, register: nat, offset: nat)
    requires Valid(c) && register < WORD && offset % 4 + Size(c) <= 4
    requires register / Bytes(offset % 4) % Bytes(Size(c)) == Image(c)
    ensures Delivered(c, register, offset)
    decreases c
  {
    hide Bytes, Extract;
    if c.Leaf? {
      ExtractMeaning(register, offset, c.size);
    } else {
      var s1, s2 := Size(c.chunk1), Size(c.chunk2);
      SizePositive(c.chunk1);
      SizePositive(c.chunk2);
      var x := register / Bytes(offset % 4);
      BytesAdd(s1, s2);
      BytesAdd(offset % 4, s1);
      LowAndHigh(x, Bytes(s1), Bytes(s2));
      LowAndHigh(register, Bytes(offset % 4), Bytes(s1));
      ImageBound(c.chunk1);
      ImageBound(c.chunk2);
      Remainder(Image(c), Bytes(s1), Image(c.chunk2), Image(c.chunk1));
      NextOffset(offset, s1);
      ImageDelivered(c.chunk1, register, offset);
      ImageDelivered(c.chunk2, register, offset + s1);
    }
  }

  lemma NextOffset(offset: nat, n: nat)
    requires offset % 4 + n < 4
    ensures (offset + n) % 4 == offset % 4 + n
  {
  }

  /** At a word boundary, packing and extraction return every leaf of any nesting of
      up to four bytes, exactly unless a leaf of three bytes with something else in the
      byte behind it lies below another chunk. */
  lemma DeliveredExactly(c: Chunk, offset: nat)
    requires Valid(c) && Size(c) <= 4 && offset % 4 == 0
    ensures Delivered(c, CachedInput(c), offset) <==> !Spills(c)
  {
    if Spills(c) {
      SpillCorrupts(c, offset);
    } else {
      Packed(c);
      ImageDelivered(c, CachedInput(c), offset);
    }
  }

  lemma SpillCorrupts(c: Chunk, offset: nat)
    requires Valid(c) && Size(c) <= 4 && offset % 4 == 0 && Spills(c)
    ensures !Delivered(c, CachedInput(c), offset)
  {
    hide Extract;
    SizePositive(c.chunk2);
    OneByte(c.chunk2);
    var w, v := c.chunk1.word, c.chunk2.word % 0x100;
    var register := CachedInput(c);
    assert CachedInput(c.chunk1) == w && CachedInput(c.chunk2) == v;
    assert register == (v * 0x100_0000 + w) % WORD;
    NextOffset(offset, 3);
    ExtractMeaning(register, offset + 3, 1);
    Carried(v, w);
  }

  lemma OneByte(c: Chunk)
    requires Valid(c) && Size(c) == 1
    ensures c.Leaf?
  {
    if c.Shared? {
      SizePositive(c.chunk1);
      SizePositive(c.chunk2);
    }
  }

  lemma Carried(v: nat, w: nat)
    requires v < 0x100 && 0x100_0000 <= w < WORD
    ensures (v * 0x100_0000 + w) % WORD / 0x100_0000 % 0x100 != v
  {
    var g, r := w / 0x100_0000, w % 0x100_0000;
    var sum := v * 0x100_0000 + w;
    assert sum == (v + g) * 0x100_0000 + r;
    if v + g < 0x100 {
      assert sum % WORD == (v + g) * 0x100_0000 + r;
    } else {
      assert sum % WORD == (v + g - 0x100) * 0x100_0000 + r;
    }
  }
}
