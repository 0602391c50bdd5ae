/** A packing run that drops the memory message while a rejected chunk waits to be
    retried, and ends with one message register too many. */
module EarlyRelease {
  import opened Layout
  import opened Packing
  import opened Wrappers

  function Words(id: nat, bytes: int): Chunk {
    Chunk(id, bytes, 4, 1, true, 0, UNKNOWN, UNKNOWN)
  }

  function Tag(): Chunk { Words(0, 4) }

  function Big(): Chunk { Words(1, 300) }

  function Filler(): Chunk { Words(2, 232) }

  function Late(): Chunk { Words(3, 12) }

  function Last(): Chunk { Words(4, 4) }

  function At(c: Chunk, offset: int): Chunk { Ranked(c).(offset := offset) }

  function Begin(): Packing {
    Start([Tag()], [Big(), Filler(), Late(), Last()], 0, 4, true)
  }

  function Full(): seq<Chunk> {
    [Tag().(offset := 0), At(Filler(), 4), At(Late(), 236), At(Last(), 248)]
  }

  lemma Next(c: Chunk, s: seq<Chunk>, offset: int)
    requires Placeable([c] + s) && c.alignment == 4 && offset % 4 == 0
    ensures Placeable(s) && LayoutEnd([c] + s, offset) == LayoutEnd(s, offset + c.size)
    ensures Laid([c] + s, offset) == [c.(offset := offset)] + Laid(s, offset + c.size)
  {
    LaidStep([c] + s, offset);
    assert ([c] + s)[1..] == s;
    assert RoundUp(offset, 4) == offset;
  }

  lemma LayTwo(a: Chunk, b: Chunk, o: int)
    requires Placeable([a, b]) && a.alignment == b.alignment == 4 && a.size % 4 == o % 4 == 0
    ensures Laid([a, b], o) == [a.(offset := o), b.(offset := o + a.size)]
    ensures LayoutEnd([a, b], o) == o + a.size + b.size
  {
    hide Laid, LayoutEnd;
    assert [a] + [b] == [a, b] && [b] + [] == [b];
    Next(a, [b], o);
    Next(b, [], o + a.size);
    LaidNothing(o + a.size + b.size);
  }

  lemma LayThree(a: Chunk, b: Chunk, c: Chunk, o: int)
    requires Placeable([a, b, c]) && a.alignment == b.alignment == c.alignment == 4
             && a.size % 4 == b.size % 4 == o % 4 == 0
    ensures Laid([a, b, c], o) == [a.(offset := o), b.(offset := o + a.size), c.(offset := o + a.size + b.size)]
    ensures LayoutEnd([a, b, c], o) == o + a.size + b.size + c.size
  {
    hide Laid, LayoutEnd;
    assert [a] + [b, c] == [a, b, c];
    Next(a, [b, c], o);
    LayTwo(b, c, o + a.size);
  }

  lemma LayFour(a: Chunk, b: Chunk, c: Chunk, d: Chunk)
    requires Placeable([a, b, c, d]) && a.alignment == b.alignment == c.alignment == d.alignment == 4
    requires a.size % 4 == b.size % 4 == c.size % 4 == 0
    ensures Laid([a, b, c, d], 0)
         == [a.(offset := 0), b.(offset := a.size), c.(offset := a.size + b.size),
           d.(offset := a.size + b.size + c.size)]
    ensures LayoutEnd([a, b, c, d], 0) == a.size + b.size + c.size + d.size
  {
    hide Laid, LayoutEnd;
    assert [a] + [b, c, d] == [a, b, c, d];
    Next(a, [b, c, d], 0);
    LayThree(b, c, d, a.size);
  }

  /** The big chunk is too large. */
  lemma TryBig()
    ensures var p := Begin();
            Sound(p) && Step(p, 4, true) == Packing([Tag()], [Filler(), Late(), Last()], [Big()], true, 244, 244, false)
  {
    assert Begin().queue[1..] == [Filler(), Late(), Last()];
    assert [] + [Big()] == [Big()];
  }

  /** The filler fits. */
  lemma TryFiller()
    ensures var p := Packing([Tag()], [Filler(), Late(), Last()], [Big()], true, 244, 244, false);
            Sound(p) && Step(p, 4, true)
              == Packing([Tag().(offset := 0), At(Filler(), 4)], [Late(), Last()], [Big()], true, 244, 8, true)
  {
    hide Laid, LayoutEnd;
    assert [Filler(), Late(), Last()][1..] == [Late(), Last()];
    LayTwo(Tag(), Ranked(Filler()), 0);
    InsertPosUnique([Tag()], 1, 1);
    assert Trial([Tag()], Filler()) == [Tag(), Ranked(Filler())];
  }

  /** The late chunk does not fit; the last one does, and drops the memory message. */
  lemma SecondTwo()
    ensures var p := Packing([Tag().(offset := 0), At(Filler(), 4)], [Late(), Last()], [Big()], true, 244, 8, true);
            Sound(p) && Step(p, 4, true) == p.(queue := [Last()], processed := [Big(), Late()])
    ensures var p := Packing([Tag().(offset := 0), At(Filler(), 4)], [Last()], [Big(), Late()], true, 244, 8, true);
            Sound(p) && Step(p, 4, true)
              == Packing([Tag().(offset := 0), At(Filler(), 4), At(Last(), 236)], [], [Big(), Late()],
                         false, 252, 12, true)
  {
    var reg := [Tag().(offset := 0), At(Filler(), 4)];
    assert [Late(), Last()][1..] == [Last()] && [Last()][1..] == [] && [Big()] + [Late()] == [Big(), Late()];
    LayThree(reg[0], reg[1], Ranked(Last()), 0);
    InsertPosUnique(reg, 2, 2);
    assert Trial(reg, Last()) == [reg[0], reg[1], Ranked(Last())];
  }

  /** In the second pass the late chunk takes the two words that were freed. */
  lemma SecondPass()
    ensures var p := Packing([Tag().(offset := 0), At(Filler(), 4), At(Last(), 236)], [Big(), Late()], [],
                             false, 252, 12, false);
            Sound(p) && Step(p, 4, true) == p.(queue := [Late()], processed := [Big()])
    ensures var p := Packing([Tag().(offset := 0), At(Filler(), 4), At(Last(), 236)], [Late()], [Big()],
                             false, 252, 12, false);
            Sound(p) && Step(p, 4, true) == Packing(Full(), [], [Big()], false, 252, 0, true)
    ensures var p := Packing(Full(), [Big()], [], false, 252, 0, false);
            Sound(p) && Step(p, 4, true) == p.(queue := [], processed := [Big()])
  {
    var reg := [Tag().(offset := 0), At(Filler(), 4), At(Last(), 236)];
    assert [Big(), Late()][1..] == [Late()] && [Late()][1..] == [] && [Big()][1..] == [] && [] + [Big()] == [Big()];
    LayFour(reg[0], reg[1], Ranked(Late()), reg[2]);
    InsertPosUnique(reg, 1, 2);
    assert Trial(reg, Late()) == [reg[0], reg[1], Ranked(Late()), reg[2]];
  }

  lemma Passes()
    ensures Sound(Begin())
    ensures Pass(Begin(), 4, true)
         == Packing([Tag().(offset := 0), At(Filler(), 4), At(Last(), 236)], [], [Big(), Late()],
                    false, 252, 12, true)
    ensures var p := Packing([Tag().(offset := 0), At(Filler(), 4), At(Last(), 236)], [Big(), Late()], [],
                             false, 252, 12, false);
            Sound(p) && Pass(p, 4, true) == Packing(Full(), [], [Big()], false, 252, 0, true)
    ensures var p := Packing(Full(), [Big()], [], false, 252, 0, false);
            Sound(p) && Pass(p, 4, true) == p.(queue := [], processed := [Big()])
  {
    hide Step;
    TryBig();
    TryFiller();
    SecondTwo();
    SecondPass();
    var middle := Packing([Tag().(offset := 0), At(Filler(), 4)], [Last()], [Big(), Late()], true, 244, 8, true);
    assert Pass(middle, 4, true) == Step(middle, 4, true);
    var late := Packing([Tag().(offset := 0), At(Filler(), 4), At(Last(), 236)], [Late()], [Big()],
                        false, 252, 12, false);
    assert Pass(late, 4, true) == Step(late, 4, true);
  }

  /** With one 300-byte chunk, one of 232, one of 12 and one of 4, none of them
      variable and no typed item, the finished message needs 65 of the 64 message
      registers: the big chunk stays in memory after the memory message was
      dropped and its two registers were handed out. */
  lemma MessageOverflows()
    ensures Sound(Begin()) && !CleanRun(Begin(), 4, true)
    ensures var q := Pack(Begin(), 4, true);
            q.queue == [Big()] && !q.needMemoryMessage && MessageWords(q, 4, 0, true) == 65
  {
    hide Step, Pass, CleanRun, Laid, LayoutEnd, Invariant;
    Passes();
    var first := Packing([Tag().(offset := 0), At(Filler(), 4), At(Last(), 236)], [Big(), Late()], [],
                         false, 252, 12, false);
    var second := Packing(Full(), [Big()], [], false, 252, 0, false);
    assert Pack(second, 4, true) == second;
    assert Pack(second.(progress := true), 4, true) == second;
    assert Pack(first.(progress := true), 4, true) == second;
    LayFour(Full()[0], Full()[1], Full()[2], Full()[3]);
    TagFits(Tag(), [Big(), Filler(), Late(), Last()], 0, 4, true);
    if CleanRun(Begin(), 4, true) {
      MessageFitsExactly([Tag()], [Big(), Filler(), Late(), Last()], 0, 4, true);
    }
  }
}
