/** Variable-size chunks of a channel: which of them are moved from memory to the
    message registers, and what they take there. */
module VariableChunks {
  import opened Layout
  import opened Packing
  import opened Wrappers

  /** Bytes that chunks of these sizes take when each starts on a word boundary. */
  function VarBytes(s: seq<Chunk>, word: nat): (bytes: int)
    requires word > 0
  {
    if s == [] then 0 else VarBytes(s[..|s| - 1], word) + RoundUp(s[|s| - 1].size, word)
  }

  predicate Fits(c: Chunk, remaining: int) {
    c.size != UNKNOWN && c.size <= remaining
  }

  /** Sizes of variable-size chunks are bounds in bytes, or unknown. */
  predicate Sized(s: seq<Chunk>) {
    forall c :: c in s ==> c.size >= 0 || c.size == UNKNOWN
  }

  lemma {:induction false} SubsequenceMember(a: seq<Chunk>, b: seq<Chunk>, x: Chunk)
    requires Subsequence(a, b) && x in a
    ensures x in b
    decreases |b|
  {
    if a[0] == b[0] && Subsequence(a[1..], b[1..]) {
      if x != a[0] {
        SubsequenceMember(a[1..], b[1..], x);
      }
    } else {
      SubsequenceMember(a, b[1..], x);
    }
  }

  method AlignDown(from: int, word: nat) returns (x: int)
    requires word > 0
    ensures x == RoundDown(from, word)
  {
    x := from;
    while x % word != 0
      invariant RoundDown(from, word) <= x <= from
      decreases x - RoundDown(from, word)
    {
      DownIsMultiple(from, word);
      x := x - 1;
    }
    DownIsMultiple(from, word);
    MultiplesApart(x, RoundDown(from, word), word);
  }

  lemma DownIsMultiple(from: int, word: nat)
    requires word > 0
    ensures RoundDown(from, word) % word == 0 && RoundDown(from, word) <= from < RoundDown(from, word) + word
  {
    assert RoundDown(from, word) == word * (from / word);
    MultipleOf(word, from / word);
  }

  /** Rounding the rest down costs what rounding the size up costs. */
  lemma DownAndUp(remaining: int, size: int, word: nat)
    requires word > 0 && remaining % word == 0 && size <= remaining
    ensures RoundDown(remaining - size, word) == remaining - RoundUp(size, word)
    ensures RoundUp(size, word) <= remaining && (remaining - RoundUp(size, word)) % word == 0
  {
    var r := RoundUp(size, word);
    assert r % word == 0;
    MultiplesApart(remaining, r, word);
    MultiplesApart(r, remaining, word);
    DownIsMultiple(remaining - size, word);
    var x, y := RoundDown(remaining - size, word), remaining - r;
    MultiplesApart(x, y, word);
    MultiplesApart(y, x, word);
  }

  // ---------------------------------------------------------------- which chunks are moved

  /** Chunks still in memory, chunks in the registers, and the bytes left for more. */
  datatype Moving = Moving(mem: seq<Chunk>, reg: seq<Chunk>, left: int)

  function Take(v: Moving, i: nat, word: nat): Moving
    requires word > 0 && i < |v.mem|
  {
    Moving(v.mem[..i] + v.mem[i + 1..], v.reg + [v.mem[i]], RoundDown(v.left - v.mem[i].size, word))
  }

  /** The rest of a scan from the given position. After a move the scan goes on behind
      the first chunk of the list. */
  function Scan(v: Moving, item: nat, word: nat): (w: Moving)
    requires word > 0
    ensures |w.mem| <= |v.mem| && (|w.mem| == |v.mem| ==> w == v)
    decreases |v.mem|, |v.mem| - item
  {
    if item >= |v.mem| then v
    else if Fits(v.mem[item], v.left) then Scan(Take(v, item, word), 1, word)
    else Scan(v, item + 1, word)
  }

  /** Scans until one moves nothing. */
  function MoveAll(v: Moving, word: nat): (w: Moving)
    requires word > 0
    decreases |v.mem|
  {
    var w := Scan(v, 0, word);
    if |w.mem| < |v.mem| then MoveAll(w, word) else w
  }

  /** The bytes left of a budget when no more chunks can be moved. */
  function LeftOver(mem: seq<Chunk>, budget: int, word: nat): int
    requires word > 0
  {
    MoveAll(Moving(mem, [], budget), word).left
  }

  /** Nothing is lost, the order of the chunks in memory is kept, and what is left are
      whole words, not less than nothing once a chunk has been moved. */
  ghost predicate Moved(v: Moving, w: Moving, word: nat) {
    word > 0 && multiset(Keys(w.mem)) + multiset(Keys(w.reg)) == multiset(Keys(v.mem)) + multiset(Keys(v.reg)) &&
    v.reg <= w.reg && Subsequence(w.mem, v.mem) &&
    w.left == v.left - VarBytes(w.reg[|v.reg|..], word) && w.left % word == 0 &&
    w.left <= v.left && (w.left < v.left ==> w.left >= 0)
  }

  lemma NothingMoved(v: Moving, word: nat)
    requires word > 0 && v.left % word == 0
    ensures Moved(v, v, word)
  {
    SubsequenceSelf(v.mem);
  }

  lemma TakeMoved(v: Moving, w: Moving, i: nat, word: nat)
    requires Moved(v, w, word) && Sized(v.mem) && i < |w.mem| && Fits(w.mem[i], w.left)
    ensures Moved(v, Take(w, i, word), word)
  {
    hide RoundDown, RoundUp, Subsequence, Keys, VarBytes;
    var m, r := w.mem, w.reg;
    MoveKeys(m, r, i);
    SubsequenceMember(m, v.mem, m[i]);
    assert m == m[..i] + [m[i]] + m[i + 1..];
    SubsequenceRemove(m[..i], m[i], m[i + 1..], v.mem);
    DownAndUp(w.left, m[i].size, word);
    assert (r + [m[i]])[|v.reg|..] == r[|v.reg|..] + [m[i]];
    VarBytesAppend(r[|v.reg|..], m[i], word);
  }

  lemma {:induction false} ScanMoved(v: Moving, w: Moving, item: nat, word: nat)
    requires word > 0 && Moved(v, w, word) && Sized(v.mem)
    ensures Moved(v, Scan(w, item, word), word)
    decreases |w.mem|, |w.mem| - item
  {
    hide Moved, Take;
    if item < |w.mem| {
      if Fits(w.mem[item], w.left) {
        TakeMoved(v, w, item, word);
        TakeShrinks(w, item, word);
        ScanMoved(v, Take(w, item, word), 1, word);
      } else {
        ScanMoved(v, w, item + 1, word);
      }
    }
  }

  lemma TakeShrinks(v: Moving, i: nat, word: nat)
    requires word > 0 && i < |v.mem|
    ensures |Take(v, i, word).mem| < |v.mem|
  {
  }

  lemma {:induction false} ScanStuck(v: Moving, item: nat, word: nat)
    requires word > 0 && |Scan(v, item, word).mem| == |v.mem|
    ensures forall j :: item <= j < |v.mem| ==> !Fits(v.mem[j], v.left)
    decreases |v.mem| - item
  {
    if item < |v.mem| && !Fits(v.mem[item], v.left) {
      ScanStuck(v, item + 1, word);
    }
  }

  /** The outcome of moving: nothing lost, whole words taken, and no chunk left in memory
      fits what is left. */
  lemma {:induction false} MoveAllResult(v: Moving, w: Moving, word: nat)
    requires word > 0 && Moved(v, w, word) && Sized(v.mem)
    ensures Moved(v, MoveAll(w, word), word)
    ensures forall c :: c in MoveAll(w, word).mem ==> !Fits(c, MoveAll(w, word).left)
    decreases |w.mem|
  {
    hide Moved, Scan, Fits;
    var x := Scan(w, 0, word);
    ScanMoved(v, w, 0, word);
    if |x.mem| < |w.mem| {
      MoveAllResult(v, x, word);
    } else {
      ScanStuck(w, 0, word);
    }
  }

  /** A scan that uses no bytes leaves every nonempty chunk where it is; one that finds no
      nonempty chunk to move uses none. */
  lemma {:induction false} ScanUses(v: Moving, item: nat, word: nat)
    requires word > 0 && v.left % word == 0 && Sized(v.mem)
    ensures var w := Scan(v, item, word);
            w.left % word == 0 && w.left <= v.left && (forall c :: c in w.mem ==> c in v.mem)
            && (w.left == v.left ==> forall c :: c in v.mem && c.size > 0 ==> c in w.mem)
            && ((forall c :: c in v.mem && Fits(c, v.left) ==> c.size == 0) ==> w.left == v.left)
    decreases |v.mem|, |v.mem| - item
  {
    if item < |v.mem| {
      if Fits(v.mem[item], v.left) {
        TakeUses(v, item, word);
        hide Take, Fits;
        ScanUses(Take(v, item, word), 1, word);
      } else {
        ScanUses(v, item + 1, word);
      }
    }
  }

  lemma TakeUses(v: Moving, i: nat, word: nat)
    requires word > 0 && v.left % word == 0 && Sized(v.mem) && i < |v.mem| && Fits(v.mem[i], v.left)
    ensures var w := Take(v, i, word);
            |w.mem| < |v.mem| && w.left % word == 0 && w.left <= v.left && Sized(w.mem)
            && (forall c :: c in w.mem ==> c in v.mem) && (forall c :: c in v.mem && c != v.mem[i] ==> c in w.mem)
            && (w.left == v.left <==> v.mem[i].size == 0)
  {
    hide RoundUp, RoundDown;
    var c := v.mem[i];
    assert c in v.mem;
    DownAndUp(v.left, c.size, word);
    if c.size == 0 {
      assert RoundUp(0, word) == 0 by {
        MultiplesApart(RoundUp(0, word), 0, word);
      }
    }
    assert v.mem == v.mem[..i] + [c] + v.mem[i + 1..];
  }

  lemma {:induction false} MoveAllUses(v: Moving, word: nat)
    requires word > 0 && v.left % word == 0 && Sized(v.mem)
    ensures var w := MoveAll(v, word);
            w.left <= v.left
            && (w.left == v.left ==> forall c :: c in v.mem && c.size > 0 ==> c in w.mem)
            && ((forall c :: c in v.mem && Fits(c, v.left) ==> c.size == 0) ==> w.left == v.left)
    decreases |v.mem|
  {
    hide Scan, Fits;
    ScanUses(v, 0, word);
    var w := Scan(v, 0, word);
    if |w.mem| < |v.mem| {
      MoveAllUses(w, word);
    }
  }

  /** Some of the budget is used exactly if a nonempty chunk fits it. */
  lemma LeftOverUses(mem: seq<Chunk>, budget: int, word: nat)
    requires word > 0 && budget % word == 0 && Sized(mem)
    ensures var left := LeftOver(mem, budget, word);
            left <= budget && left % word == 0 && (left < budget ==> left >= 0)
            && (left < budget <==> exists c :: c in mem && 1 <= c.size <= budget)
  {
    hide MoveAll, Subsequence;
    var v := Moving(mem, [], budget);
    NothingMoved(v, word);
    MoveAllResult(v, v, word);
    MoveAllUses(v, word);
    if c :| c in mem && 1 <= c.size <= budget {
      assert Fits(c, budget);
    }
  }

  /** What is left of the budget does not depend on what the registers hold already. */
  lemma {:induction false} ScanRegister(v: Moving, before: seq<Chunk>, item: nat, word: nat)
    requires word > 0
    ensures var w := Scan(v, item, word);
            Scan(v.(reg := before + v.reg), item, word) == w.(reg := before + w.reg)
    decreases |v.mem|, |v.mem| - item
  {
    hide RoundDown;
    if item < |v.mem| {
      if Fits(v.mem[item], v.left) {
        ScanRegister(Take(v, item, word), before, 1, word);
        assert before + (v.reg + [v.mem[item]]) == before + v.reg + [v.mem[item]];
      } else {
        ScanRegister(v, before, item + 1, word);
      }
    }
  }

  lemma {:induction false} MoveAllRegister(v: Moving, before: seq<Chunk>, word: nat)
    requires word > 0
    ensures MoveAll(v.(reg := before + v.reg), word).left == MoveAll(v, word).left
    decreases |v.mem|
  {
    ScanRegister(v, before, 0, word);
    var w := Scan(v, 0, word);
    if |w.mem| < |v.mem| {
      MoveAllRegister(w, before, word);
    }
  }

  /** Moves variable-size chunks from memory to the registers while they fit. */
  method PackVariable(mem: seq<Chunk>, reg: seq<Chunk>, budget: int, word: nat)
    returns (mem': seq<Chunk>, reg': seq<Chunk>, remaining: int)
    requires word > 0 && budget % word == 0 && Sized(mem)
    ensures Moving(mem', reg', remaining) == MoveAll(Moving(mem, reg, budget), word)
    ensures remaining == LeftOver(mem, budget, word)
    ensures multiset(Keys(mem')) + multiset(Keys(reg')) == multiset(Keys(mem)) + multiset(Keys(reg))
    ensures reg <= reg' && Subsequence(mem', mem)
    ensures remaining == budget - VarBytes(reg'[|reg|..], word) && remaining % word == 0
    ensures forall c :: c in mem' ==> !Fits(c, remaining)
    ensures remaining <= budget && (remaining < budget ==> remaining >= 0)
  {
    hide Scan, Fits, Subsequence, Keys, VarBytes;
    mem', reg', remaining := mem, reg, budget;
    ghost var start := Moving(mem, reg, budget);
    NothingMoved(start, word);
    MoveAllResult(start, start, word);
    MoveAllRegister(Moving(mem, [], budget), reg, word);
    assert reg + [] == reg;
    var madeProgress := true;
    while madeProgress
      invariant var v := Moving(mem', reg', remaining);
                MoveAll(start, word) == if madeProgress then MoveAll(v, word) else v
      decreases |mem'|, madeProgress
    {
      mem', reg', remaining, madeProgress := ScanVariable(mem', reg', remaining, word);
    }
  }

  method ScanVariable(m: seq<Chunk>, r: seq<Chunk>, left: int, word: nat)
    returns (mem': seq<Chunk>, reg': seq<Chunk>, remaining: int, madeProgress: bool)
    requires word > 0
    ensures Moving(mem', reg', remaining) == Scan(Moving(m, r, left), 0, word)
    ensures madeProgress <==> |mem'| < |m|
  {
    hide RoundDown;
    mem', reg', remaining, madeProgress := m, r, left, false;
    var item := 0;
    while item < |mem'|
      invariant Scan(Moving(mem', reg', remaining), item, word) == Scan(Moving(m, r, left), 0, word)
      invariant |mem'| <= |m| && (madeProgress <==> |mem'| < |m|)
      decreases |mem'|, |mem'| - item
    {
      var chunk := mem'[item];
      if Fits(chunk, remaining) {
        mem' := mem'[..item] + mem'[item + 1..];
        reg' := reg' + [chunk];
        item := 0;
        remaining := AlignDown(remaining - chunk.size, word);
        madeProgress := true;
      }
      item := item + 1;
    }
  }

  lemma VarBytesAppend(s: seq<Chunk>, c: Chunk, word: nat)
    requires word > 0
    ensures VarBytes(s + [c], word) == VarBytes(s, word) + RoundUp(c.size, word)
  {
    hide RoundUp;
    assert (s + [c])[..|s|] == s;
  }

  lemma MoveKeys(m: seq<Chunk>, r: seq<Chunk>, i: nat)
    requires i < |m|
    ensures multiset(Keys(m[..i] + m[i + 1..])) + multiset(Keys(r + [m[i]])) == multiset(Keys(m)) + multiset(Keys(r))
  {
    assert Keys(m) == Keys(m[..i]) + [Key(m[i])] + Keys(m[i + 1..]);
    assert Keys(m[..i] + m[i + 1..]) == Keys(m[..i]) + Keys(m[i + 1..]);
    assert Keys(r + [m[i]]) == Keys(r) + [Key(m[i])];
  }

  // ---------------------------------------------------------------- in which order they are moved

  lemma {:induction false} VarBytesConcat(s: seq<Chunk>, t: seq<Chunk>, word: nat)
    requires word > 0
    ensures VarBytes(s + t, word) == VarBytes(s, word) + VarBytes(t, word)
    decreases |t|
  {
    hide RoundUp;
    if t == [] {
      assert s + t == s;
    } else {
      var n := |t| - 1;
      VarBytesConcat(s, t[..n], word);
      assert (s + t)[..|s + t| - 1] == s + t[..n] && (s + t)[|s + t| - 1] == t[n];
    }
  }

  /** All chunks fit the budget together. */
  predicate AllFit(mem: seq<Chunk>, left: int, word: nat) {
    word > 0 && left % word == 0 && VarBytes(mem, word) <= left && forall c :: c in mem ==> c.size >= 0
  }

  lemma {:induction false} VarBytesCover(s: seq<Chunk>, word: nat)
    requires word > 0 && forall c :: c in s ==> c.size >= 0
    ensures VarBytes(s, word) >= 0 && forall c :: c in s ==> c.size <= VarBytes(s, word)
    decreases |s|
  {
    if s != [] {
      var n := |s| - 1;
      assert s[n] in s && s == s[..n] + [s[n]];
      VarBytesCover(s[..n], word);
    }
  }

  lemma TakeAllFit(v: Moving, i: nat, word: nat)
    requires AllFit(v.mem, v.left, word) && i < |v.mem|
    ensures Fits(v.mem[i], v.left) && AllFit(Take(v, i, word).mem, Take(v, i, word).left, word)
  {
    hide RoundUp, RoundDown, VarBytes;
    var a, c, b := v.mem[..i], v.mem[i], v.mem[i + 1..];
    VarBytesCover(v.mem, word);
    assert c in v.mem && v.mem == a + [c] + b;
    VarBytesConcat(a + [c], b, word);
    VarBytesAppend(a, c, word);
    VarBytesConcat(a, b, word);
    DownAndUp(v.left, c.size, word);
  }

  lemma {:induction false} ScanFromSecond(v: Moving, word: nat)
    requires AllFit(v.mem, v.left, word) && v.mem != []
    ensures var w := Scan(v, 1, word); w.mem == [v.mem[0]] && w.reg == v.reg + v.mem[1..] && AllFit(w.mem, w.left, word)
    decreases |v.mem|
  {
    hide AllFit, RoundDown;
    FitsWord(v.mem, v.left, word);
    if |v.mem| == 1 {
      assert v.mem == [v.mem[0]] && v.reg + [] == v.reg;
    } else {
      TakeAllFit(v, 1, word);
      ScanFromSecond(Take(v, 1, word), word);
      assert v.reg + [v.mem[1]] + v.mem[2..] == v.reg + v.mem[1..];
      assert (v.mem[..1] + v.mem[2..])[1..] == v.mem[2..];
    }
  }

  lemma FitsWord(mem: seq<Chunk>, left: int, word: nat)
    requires AllFit(mem, left, word)
    ensures word > 0
  {
  }

  /** As the scan goes on behind the first chunk of the list after each move, the second of
      several chunks that all fit is moved last. */
  lemma SecondMovesLast(mem: seq<Chunk>, reg: seq<Chunk>, budget: int, word: nat)
    requires AllFit(mem, budget, word) && |mem| >= 2
    ensures word > 0
    ensures var w := MoveAll(Moving(mem, reg, budget), word);
            w.mem == [] && w.reg == reg + [mem[0]] + mem[2..] + [mem[1]]
  {
    hide AllFit, RoundDown;
    FitsWord(mem, budget, word);
    var v := Moving(mem, reg, budget);
    TakeAllFit(v, 0, word);
    var first := Take(v, 0, word);
    assert first.mem == mem[1..] && first.reg == reg + [mem[0]];
    ScanFromSecond(first, word);
    var next := Scan(v, 0, word);
    assert next == Scan(first, 1, word) && next.mem == [mem[1]] && next.reg == reg + [mem[0]] + mem[2..];
    TakeAllFit(next, 0, word);
    var last := Take(next, 0, word);
    assert last.mem == [] && last.reg == next.reg + [mem[1]];
    assert Scan(next, 0, word) == last && MoveAll(last, word) == last;
  }
}
