/** Message chunks, the priority lists that hold them, and their layout. */
module Layout {
  import opened Wrappers

  /** size is in bytes, or UNKNOWN. The last three fields are set while the message
      is being laid out. */
  datatype Chunk = Chunk(id: nat, size: int, alignment: nat, channels: bv32, transferred: bool,
                         prio: int, offset: int, bufferIndex: int)

  /** What a chunk is, regardless of where it has been put. */
  function Key(c: Chunk): Chunk {
    c.(prio := 0, offset := UNKNOWN)
  }

  function Keys(s: seq<Chunk>): (k: seq<Chunk>)
    ensures |k| == |s| && forall i :: 0 <= i < |s| ==> k[i] == Key(s[i])
  {
    seq(|s|, i requires 0 <= i < |s| => Key(s[i]))
  }

  predicate Placeable(s: seq<Chunk>) {
    forall c :: c in s ==> c.size >= 0 && c.alignment > 0
  }

  predicate IsMultiple(x: int, a: nat) {
    a > 0 && x % a == 0
  }

  /** The least multiple of a that is not below x. */
  function RoundUp(x: int, a: nat): (r: int)
    requires a > 0
    ensures x <= r < x + a && IsMultiple(r, a)
  {
    if x % a == 0 then x
    else
      RoundUpMultiple(x, a);
      x + (a - x % a)
  }

  lemma RoundUpMultiple(x: int, a: nat)
    requires a > 0 && x % a != 0
    ensures (x + (a - x % a)) % a == 0
  {
    var q := x / a;
    assert x + (a - x % a) == a * (q + 1);
    MultipleOf(a, q + 1);
  }

  lemma MultipleOf(a: int, q: int)
    requires a > 0
    ensures (a * q) % a == 0
  {
    var m: int := a * q;
    var e := m / a - q;
    assert a * e == -(m % a);
    assert e >= 1 ==> a * e >= a;
    assert e <= -1 ==> a * e <= -a;
  }

  function RoundDown(x: int, a: nat): int
    requires a > 0
  {
    x - x % a
  }

  /** Multiples of a that are less than a apart are equal. */
  lemma MultiplesApart(x: int, y: int, a: nat)
    requires a > 0 && x % a == 0 && y % a == 0
    ensures (x + y) % a == 0 && (x - y) % a == 0
    ensures x < y + a ==> x <= y
  {
    var p, q := x / a, y / a;
    assert x == a * p && y == a * q;
    assert x + y == a * (p + q) && x - y == a * (p - q);
    MultipleOf(a, p + q);
    MultipleOf(a, p - q);
    assert p >= q + 1 ==> a * (p - q) >= a;
    assert p <= q ==> a * (q - p) >= 0;
  }

  // ---------------------------------------------------------------- layout

  /** Chunks one after the other, each at the next aligned offset. */
  function Laid(s: seq<Chunk>, offset: int): seq<Chunk>
    requires Placeable(s)
    decreases |s|
  {
    if s == [] then []
    else
      var o := RoundUp(offset, s[0].alignment);
      [s[0].(offset := o)] + Laid(s[1..], o + s[0].size)
  }

  /** Laying out changes offsets only. */
  lemma {:induction false} LaidKeeps(s: seq<Chunk>, offset: int)
    requires Placeable(s)
    ensures var l := Laid(s, offset);
            |l| == |s| && Keys(l) == Keys(s) && forall i :: 0 <= i < |s| ==> l[i] == s[i].(offset := l[i].offset)
    decreases |s|
  {
    hide RoundUp, IsMultiple;
    if s != [] {
      LaidKeeps(s[1..], RoundUp(offset, s[0].alignment) + s[0].size);
    }
  }

  function LayoutEnd(s: seq<Chunk>, offset: int): (end: int)
    requires Placeable(s)
    ensures end >= offset
    decreases |s|
  {
    if s == [] then offset
    else LayoutEnd(s[1..], RoundUp(offset, s[0].alignment) + s[0].size)
  }

  predicate Aligned(c: Chunk) {
    IsMultiple(c.offset, c.alignment)
  }

  /** Aligned, in list order, without overlap, from `low` on and up to `high`. */
  ghost predicate Arranged(s: seq<Chunk>, low: int, high: int) {
    (forall i :: 0 <= i < |s| ==> Aligned(s[i]) && low <= s[i].offset && s[i].offset + s[i].size <= high) &&
    (forall i, j :: 0 <= i < j < |s| ==> s[i].offset + s[i].size <= s[j].offset)
  }

  /** Nothing is wasted: the first chunk is at the start, and each other one less than its
      alignment behind the one before. */
  ghost predicate Tight(s: seq<Chunk>) {
    (s != [] ==> s[0].offset == 0) &&
    forall i :: 0 < i < |s| ==> s[i].offset < s[i - 1].offset + s[i - 1].size + s[i].alignment
  }

  lemma LaidIsTight(s: seq<Chunk>)
    requires Placeable(s)
    ensures Tight(Laid(s, 0))
  {
    hide RoundUp;
    LaidKeeps(s, 0);
    if s != [] {
      RoundUpOfZero(s[0].alignment);
    }
    forall i | 0 < i < |s|
      ensures Laid(s, 0)[i].offset < Laid(s, 0)[i - 1].offset + s[i - 1].size + s[i].alignment
    {
      LaidNext(s, 0, i);
    }
  }

  lemma RoundUpOfZero(a: nat)
    requires a > 0
    ensures RoundUp(0, a) == 0
  {
  }

  lemma {:induction false} LaidNext(s: seq<Chunk>, offset: int, i: nat)
    requires Placeable(s) && 0 < i < |s|
    ensures |Laid(s, offset)| == |s|
    ensures Laid(s, offset)[i].offset < Laid(s, offset)[i - 1].offset + s[i - 1].size + s[i].alignment
    decreases i
  {
    hide IsMultiple, RoundUp, Keys;
    LaidKeeps(s, offset);
    var next := RoundUp(offset, s[0].alignment) + s[0].size;
    LaidKeeps(s[1..], next);
    if i > 1 {
      LaidNext(s[1..], next, i - 1);
    } else {
      assert Laid(s[1..], next)[0].offset == RoundUp(next, s[1].alignment);
    }
  }

  lemma {:induction false} LaidIsArranged(s: seq<Chunk>, offset: int)
    requires Placeable(s)
    ensures Arranged(Laid(s, offset), offset, LayoutEnd(s, offset))
    decreases |s|
  {
    hide IsMultiple, RoundUp;
    if s != [] {
      var o := RoundUp(offset, s[0].alignment);
      var first, rest := s[0].(offset := o), Laid(s[1..], o + s[0].size);
      assert Aligned(first);
      LaidIsArranged(s[1..], o + s[0].size);
      ArrangedInFront(first, rest, offset, o + s[0].size, LayoutEnd(s, offset));
    }
  }

  lemma ArrangedInFront(c: Chunk, s: seq<Chunk>, low: int, mid: int, high: int)
    requires Aligned(c) && low <= c.offset && c.offset + c.size <= mid && low <= mid <= high
    requires Arranged(s, mid, high)
    ensures Arranged([c] + s, low, high)
  {
    hide Aligned;
  }

  lemma {:induction false} LayoutEndConcat(s: seq<Chunk>, t: seq<Chunk>, offset: int)
    requires Placeable(s) && Placeable(t)
    ensures Placeable(s + t) && LayoutEnd(s + t, offset) == LayoutEnd(t, LayoutEnd(s, offset))
    decreases |s|
  {
    if s == [] {
      assert s + t == t;
    } else {
      LayoutEndConcat(s[1..], t, RoundUp(offset, s[0].alignment) + s[0].size);
      assert (s + t)[1..] == s[1..] + t;
    }
  }

  /** The layout depends only on what the chunks are. */
  lemma {:induction false} LayoutEndOfKeys(s: seq<Chunk>, t: seq<Chunk>, offset: int)
    requires Placeable(s) && Keys(s) == Keys(t)
    ensures Placeable(t) && LayoutEnd(s, offset) == LayoutEnd(t, offset)
    decreases |s|
  {
    hide RoundUp, IsMultiple;
    PlaceableOfKeys(s, t);
    if s != [] {
      assert Key(s[0]) == Keys(s)[0] == Keys(t)[0] == Key(t[0]);
      assert Keys(s[1..]) == Keys(s)[1..] && Keys(t[1..]) == Keys(t)[1..];
      LayoutEndOfKeys(s[1..], t[1..], RoundUp(offset, s[0].alignment) + s[0].size);
    }
  }

  lemma PlaceableOfKeys(s: seq<Chunk>, t: seq<Chunk>)
    requires Placeable(s) && Keys(s) == Keys(t)
    ensures Placeable(t)
  {
    forall c | c in t
      ensures c.size >= 0 && c.alignment > 0
    {
      var i :| 0 <= i < |t| && t[i] == c;
      assert Key(s[i]) == Keys(s)[i] == Keys(t)[i] == Key(t[i]) && s[i] in s;
    }
  }

  /** The layout loop of a list. */
  method LayoutList(s: seq<Chunk>) returns (l: seq<Chunk>, end: int)
    requires Placeable(s)
    ensures l == Laid(s, 0) && end == LayoutEnd(s, 0)
  {
    hide Laid, LayoutEnd, RoundUp, IsMultiple, Keys, Placeable;
    l, end := [], 0;
    var rest := s;
    assert [] + Laid(s, 0) == Laid(s, 0);
    while rest != []
      invariant Placeable(rest)
      invariant l + Laid(rest, end) == Laid(s, 0) && LayoutEnd(rest, end) == LayoutEnd(s, 0)
      decreases |rest|
    {
      LaidStep(rest, end);
      end := AlignOffset(end, rest[0].alignment);
      var c := rest[0].(offset := end);
      end := end + c.size;
      rest := rest[1..];
      Regroup(l, c, Laid(rest, end));
      l := l + [c];
    }
    LaidNothing(end);
  }

  lemma Regroup(l: seq<Chunk>, c: Chunk, r: seq<Chunk>)
    ensures l + ([c] + r) == l + [c] + r
  {
  }

  lemma LaidStep(s: seq<Chunk>, offset: int)
    requires Placeable(s) && s != []
    ensures s[0].alignment > 0 && Placeable(s[1..])
    ensures var o := RoundUp(offset, s[0].alignment);
            Laid(s, offset) == [s[0].(offset := o)] + Laid(s[1..], o + s[0].size)
            && LayoutEnd(s, offset) == LayoutEnd(s[1..], o + s[0].size)
  {
  }

  lemma LaidNothing(offset: int)
    ensures Laid([], offset) == [] && LayoutEnd([], offset) == offset
  {
  }

  /** The alignment loop of the layout. */
  method AlignOffset(from: int, a: nat) returns (offset: int)
    requires a > 0
    ensures offset == RoundUp(from, a)
  {
    offset := from;
    while offset % a != 0
      invariant from <= offset <= RoundUp(from, a)
      decreases RoundUp(from, a) - offset
    {
      offset := offset + 1;
    }
    NextMultiple(from, offset, a);
  }

  lemma NextMultiple(from: int, end: int, a: nat)
    requires IsMultiple(end, a) && from <= end <= RoundUp(from, a)
    ensures end == RoundUp(from, a)
  {
    var r := RoundUp(from, a);
    MultiplesApart(r, end, a);
  }

  // ---------------------------------------------------------------- priority lists

  /** Where a chunk of the given priority goes: behind all that do not rank lower. */
  function InsertPos(s: seq<Chunk>, prio: int): (k: nat)
    ensures k <= |s|
    ensures forall i :: 0 <= i < k ==> s[i].prio <= prio
    ensures k < |s| ==> s[k].prio > prio
  {
    if s == [] || s[0].prio > prio then 0 else 1 + InsertPos(s[1..], prio)
  }

  function Insert(s: seq<Chunk>, c: Chunk): seq<Chunk> {
    var k := InsertPos(s, c.prio);
    s[..k] + [c] + s[k..]
  }

  method AddWithPrio(s: seq<Chunk>, c: Chunk, prio: int) returns (r: seq<Chunk>)
    ensures r == Insert(s, c.(prio := prio))
  {
    var k := 0;
    while k < |s| && s[k].prio <= prio
      invariant 0 <= k <= |s|
      invariant forall i :: 0 <= i < k ==> s[i].prio <= prio
    {
      k := k + 1;
    }
    InsertPosUnique(s, prio, k);
    r := s[..k] + [c.(prio := prio)] + s[k..];
  }

  lemma InsertPosUnique(s: seq<Chunk>, prio: int, k: nat)
    requires k <= |s| && (forall i :: 0 <= i < k ==> s[i].prio <= prio) && (k < |s| ==> s[k].prio > prio)
    ensures k == InsertPos(s, prio)
  {
  }

  /** Removes the element with the given chunk ID. */
  method RemoveElement(s: seq<Chunk>, id: nat, ghost k: nat) returns (r: seq<Chunk>, removed: Chunk)
    requires k < |s| && s[k].id == id && forall i :: 0 <= i < k ==> s[i].id != id
    ensures removed == s[k] && r == s[..k] + s[k + 1..]
  {
    var i := 0;
    while s[i].id != id
      invariant 0 <= i <= k
      decreases k - i
    {
      i := i + 1;
    }
    removed := s[i];
    r := s[..i] + s[i + 1..];
  }

  /** The first chunk with the given ID. */
  method FindChunk(s: seq<Chunk>, id: nat) returns (found: bool, c: Chunk)
    ensures found <==> exists i :: 0 <= i < |s| && s[i].id == id
    ensures found ==> exists i :: 0 <= i < |s| && s[i] == c && c.id == id && forall j :: 0 <= j < i ==> s[j].id != id
  {
    c := Chunk(0, 0, 1, 0, false, 0, UNKNOWN, UNKNOWN);
    found := false;
    for i := 0 to |s|
      invariant !found && forall j :: 0 <= j < i ==> s[j].id != id
    {
      if s[i].id == id {
        return true, s[i];
      }
    }
  }
}
