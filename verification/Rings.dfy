/** The circular sibling links of the nodes of a syntax tree: there is no end mark, and
    any node can stand for the ring it is in. */
module Rings {

  class Link {
    var prev: Link
    var next: Link

    constructor ()
      ensures prev == this && next == this && IsRing([this])
    {
      prev, next := this, this;
    }

    /** Puts the ring of newHead between this node and the one before it. */
    method Add(newHead: Link, ghost mine: seq<Link>, ghost other: seq<Link>)
      requires IsRing(mine) && mine[0] == this && IsRing(other) && other[0] == newHead
      requires forall n :: n in mine ==> n !in other
      modifies mine, other
      ensures IsRing(mine + other)
    {
      hide IsRing;
      RingEnds(mine);
      RingEnds(other);
      RingLinks(mine);
      RingLinks(other);
      Positions(mine);
      Positions(other);
      var newTail := newHead.prev;
      newTail.next := this;
      newHead.prev := this.prev;
      this.prev.next := newHead;
      this.prev := newTail;
      Spliced(mine, other);
    }

    /** Takes this node out of its ring; it becomes a ring of its own. */
    method Remove(ghost rest: seq<Link>)
      requires IsRing([this] + rest)
      modifies this, rest
      ensures IsRing([this]) && (rest != [] ==> IsRing(rest))
    {
      hide IsRing;
      ghost var ring := [this] + rest;
      RingEnds(ring);
      RingLinks(ring);
      Positions(ring);
      if next != this {
        prev.next := next;
        next.prev := prev;
      }
      prev := this;
      next := this;
      Alone(this);
      if rest != [] {
        Without(ring, rest);
      }
    }
  }

  /** Once round, every node followed by the next and the last by the first. */
  ghost predicate IsRing(s: seq<Link>)
    reads s
  {
    s != [] &&
    (forall i, j :: 0 <= i < j < |s| ==> s[i] != s[j]) &&
    (forall i :: 0 <= i < |s| - 1 ==> s[i].next == s[i + 1] && s[i + 1].prev == s[i]) &&
    s[|s| - 1].next == s[0] && s[0].prev == s[|s| - 1]
  }

  lemma RingEnds(s: seq<Link>)
    requires IsRing(s)
    ensures s != [] && s[|s| - 1].next == s[0] && s[0].prev == s[|s| - 1]
    ensures s[|s| - 1] in s && s[0] in s
            && (|s| > 1 ==> s[0].next == s[1] && s[1] in s && s[0] != s[1] && s[1].prev == s[0])
    ensures |s| == 1 ==> s[0].next == s[0]
  {
  }

  lemma RingLinks(s: seq<Link>)
    requires IsRing(s)
    ensures forall i :: 0 <= i < |s| - 1 ==> s[i].next == s[i + 1] && s[i + 1].prev == s[i]
    ensures forall i, j :: 0 <= i < j < |s| ==> s[i] != s[j]
  {
  }

  lemma Positions(s: seq<Link>)
    ensures forall i :: 0 <= i < |s| ==> s[i] in s
  {
  }

  lemma Alone(n: Link)
    requires n.next == n && n.prev == n
    ensures IsRing([n])
  {
  }

  lemma Spliced(a: seq<Link>, b: seq<Link>)
    requires a != [] && b != [] && forall n :: n in a ==> n !in b
    requires (forall i, j :: 0 <= i < j < |a| ==> a[i] != a[j]) && forall i, j :: 0 <= i < j < |b| ==> b[i] != b[j]
    requires forall i :: 0 <= i < |a| - 1 ==> a[i].next == a[i + 1] && a[i + 1].prev == a[i]
    requires forall i :: 0 <= i < |b| - 1 ==> b[i].next == b[i + 1] && b[i + 1].prev == b[i]
    requires a[|a| - 1].next == b[0] && b[0].prev == a[|a| - 1] && b[|b| - 1].next == a[0] && a[0].prev == b[|b| - 1]
    ensures IsRing(a + b)
  {
    var s := a + b;
    Positions(a);
    Positions(b);
    forall i | 0 <= i < |s| - 1
      ensures s[i].next == s[i + 1] && s[i + 1].prev == s[i]
    {
      if i < |a| - 1 {
        assert s[i] == a[i] && s[i + 1] == a[i + 1];
      } else if i == |a| - 1 {
        assert s[i] == a[i] && s[i + 1] == b[0];
      } else {
        assert s[i] == b[i - |a|] && s[i + 1] == b[i - |a| + 1];
      }
    }
  }

  lemma Without(ring: seq<Link>, rest: seq<Link>)
    requires ring != [] && rest != [] && ring == [ring[0]] + rest
    requires forall i, j :: 0 <= i < j < |ring| ==> ring[i] != ring[j]
    requires forall i :: 1 <= i < |ring| - 1 ==> ring[i].next == ring[i + 1] && ring[i + 1].prev == ring[i]
    requires ring[|ring| - 1].next == ring[1] && ring[1].prev == ring[|ring| - 1]
    ensures IsRing(rest)
  {
    assert forall i :: 0 <= i < |rest| ==> rest[i] == ring[i + 1];
  }
}
