/** The message chunk lists of the compiler: circular, doubly linked, with the list
    itself as the end mark, and kept in place by the chunks' own links. */
module Lists {
  import opened Layout
  import opened Wrappers

  class Node {
    var prev: Node?
    var next: Node?
    var chunk: Chunk

    constructor (chunk: Chunk)
      ensures this.chunk == chunk && prev == null && next == null
    {
      this.chunk := chunk;
      prev, next := null, null;
    }
  }

  class List {
    /** The end mark. */
    const end: Node
    ghost var elements: seq<Node>

    /** Once round: from the end mark back to the end mark. */
    ghost function Ring(): seq<Node>
      reads this
    {
      [end] + elements + [end]
    }

    ghost predicate Valid()
      reads this, end, elements
    {
      end !in elements && Distinct(elements) && Linked(Ring())
    }

    ghost function Contents(): (s: seq<Chunk>)
      reads this, elements
      ensures |s| == |elements| && forall i :: 0 <= i < |s| ==> s[i] == elements[i].chunk
    {
      seq(|elements|, i requires 0 <= i < |elements| reads this, elements => elements[i].chunk)
    }

    constructor ()
      ensures Valid() && elements == [] && fresh(end)
    {
      end := new Node(Chunk(0, 0, 1, 0, false, 0, UNKNOWN, UNKNOWN));
      elements := [];
      new;
      end.next, end.prev := end, end;
    }

    /** Puts an element in front of another one, or of the end mark. */
    method Add(at: Node, e: Node, ghost k: nat)
      requires Valid() && k <= |elements| && at == Ring()[k + 1]
      requires e != end && e !in elements && e.prev == null && e.next == null
      modifies this, e, end, elements
      ensures Valid() && elements == old(elements)[..k] + [e] + old(elements)[k..]
      ensures e.chunk == old(e.chunk) && forall n :: n in old(elements) ==> n.chunk == old(n.chunk)
    {
      hide Distinct;
      ghost var p := Ring();
      RingDistinct(end, elements);
      InRing(end, elements, k);
      DistinctWith(elements, k, e);
      assert p[k].next == p[k + 1] && p[k + 1].prev == p[k];
      e.next := at;
      e.prev := at.prev;
      at.prev.next := e;
      at.prev := e;
      elements := elements[..k] + [e] + elements[k..];
      assert forall i :: 0 <= i < |p| - 1 && i != k ==> p[i].next == p[i + 1] && p[i + 1].prev == p[i];
      InsertedRing(end, old(elements), k, e);
      InsertedLinks(p, k, e);
    }

    /** The first element of higher priority, or the end mark. */
    method FirstAbove(prio: int) returns (node: Node)
      requires Valid()
      ensures node == Ring()[InsertPos(Contents(), prio) + 1]
    {
      hide Linked, Distinct, InsertPos;
      ghost var s, p, k := Contents(), Ring(), 0;
      LinkAt(p, 0);
      node := end.next;
      while node != end && node.chunk.prio <= prio
        invariant 0 <= k <= |elements| && node == p[k + 1]
        invariant forall i :: 0 <= i < k ==> s[i].prio <= prio
        decreases |elements| - k
      {
        LinkAt(p, k + 1);
        node := node.next;
        k := k + 1;
      }
      InsertPosUnique(s, prio, k);
    }

    /** Puts an element behind all that do not rank lower. */
    method AddWithPrio(e: Node, prio: int)
      requires Valid() && e != end && e !in elements && e.prev == null && e.next == null
      modifies this, e, end, elements
      ensures Valid() && Contents() == Insert(old(Contents()), old(e.chunk).(prio := prio))
      ensures exists k :: 0 <= k <= |old(elements)| && elements == old(elements)[..k] + [e] + old(elements)[k..]
    {
      hide Linked, Distinct, InsertPos;
      ghost var s := Contents();
      ghost var k := InsertPos(s, prio);
      var node := FirstAbove(prio);
      Add(node, e, k);
      e.chunk := e.chunk.(prio := prio);
      assert Contents() == s[..k] + [old(e.chunk).(prio := prio)] + s[k..];
    }

    /** The relinking around an element that is taken out. */
    method Unlink(e: Node, ghost k: nat)
      requires Valid() && k < |elements| && elements[k] == e
      modifies this, end, elements
      ensures Valid() && elements == old(elements)[..k] + old(elements)[k + 1..] && e.next == null && e.prev == null
      ensures forall n :: n in old(elements) ==> n.chunk == old(n.chunk)
    {
      hide Distinct;
      ghost var p := Ring();
      RingDistinct(end, elements);
      InRing(end, elements, k);
      InRing(end, elements, k + 1);
      DistinctWithout(elements, k);
      assert p[k].next == p[k + 1] && p[k + 1].next == p[k + 2] && p[k + 1].prev == p[k] && p[k + 2].prev == p[k + 1];
      e.next.prev := e.prev;
      e.prev.next := e.next;
      e.prev := null;
      e.next := null;
      elements := elements[..k] + elements[k + 1..];
      assert forall j :: 0 <= j < |p| - 1 && j != k && j != k + 1 ==> p[j].next == p[j + 1] && p[j + 1].prev == p[j];
      RemovedRing(end, old(elements), k);
      RemovedLinks(p, k);
    }

    /** Takes the first element out. */
    method RemoveFirstElement() returns (e: Node)
      requires Valid() && elements != []
      modifies this, end, elements
      ensures Valid() && e == old(elements)[0] && elements == old(elements)[1..] && e.next == null && e.prev == null
      ensures forall n :: n in old(elements) ==> n.chunk == old(n.chunk)
    {
      hide Distinct;
      ghost var p := Ring();
      RingDistinct(end, elements);
      InRing(end, elements, 1);
      DistinctWithout(elements, 0);
      assert elements[..0] + elements[1..] == elements[1..];
      assert p[0].next == p[1] == elements[0] && p[1].next == p[2] && p[2].prev == p[1];
      e := end.next;
      end.next := end.next.next;
      end.next.prev := end;
      e.next := null;
      e.prev := null;
      elements := elements[1..];
      assert forall i :: 0 <= i < |p| - 1 && i != 0 && i != 1 ==> p[i].next == p[i + 1] && p[i + 1].prev == p[i];
      RemovedRing(end, old(elements), 0);
      assert elements == old(elements)[..0] + old(elements)[1..];
      RemovedLinks(p, 0);
    }

    method Locate(element: Node, ghost k: nat) returns (node: Node)
      requires Valid() && k < |elements| && elements[k] == element
      ensures node == element
    {
      hide Linked, Distinct;
      ghost var p, i := Ring(), 0;
      LinkAt(p, 0);
      node := end.next;
      while node != element
        invariant 0 <= i <= k && node == p[i + 1]
        decreases k - i
      {
        LinkAt(p, i + 1);
        node := node.next;
        i := i + 1;
      }
    }

    /** Takes an element out from where it is. */
    method RemoveElement(element: Node, ghost k: nat)
      requires Valid() && k < |elements| && elements[k] == element
      modifies this, end, elements
      ensures Valid() && elements == old(elements)[..k] + old(elements)[k + 1..]
      ensures element.next == null && element.prev == null
      ensures Contents() == old(Contents())[..k] + old(Contents())[k + 1..] && element.chunk == old(element.chunk)
    {
      hide Linked, Distinct;
      ghost var s := Contents();
      var node := Locate(element, k);
      Unlink(node, k);
      assert Contents() == s[..k] + s[k + 1..];
    }

    ghost predicate Apart(list: List)
      reads this, list
    {
      list != this && end != list.end && end !in list.elements && list.end !in elements &&
      forall n :: n in elements ==> n !in list.elements
    }

    /** Moves the first element of another list to the end of this one. */
    method TakeFirst(list: List)
      requires Valid() && list.Valid() && Apart(list) && list.elements != []
      modifies this, end, elements, list, list.end, list.elements
      ensures Valid() && list.Valid() && Apart(list)
      ensures elements == old(elements) + [old(list.elements)[0]] && list.elements == old(list.elements)[1..]
      ensures forall n :: n in elements || n in list.elements ==> n.chunk == old(n.chunk)
    {
      hide Linked, Distinct;
      ghost var theirs := list.elements;
      StillApart(elements, theirs, end, list.end);
      assert forall n :: n in Ring() ==> n != list.end && n !in theirs;
      var e := list.RemoveFirstElement();
      StillLinked(Ring());
      assert forall n :: n in list.Ring() ==> n != e && n != end && n !in elements;
      label Removed:
      Add(end, e, |elements|);
      assert forall n :: n in list.Ring() ==> unchanged@Removed(n);
      StillLinked@Removed(list.Ring());
    }

    /** Appends another list, which is empty afterwards. */
    method Merge(list: List)
      requires Valid() && list.Valid() && Apart(list)
      modifies this, end, elements, list, list.end, list.elements
      ensures Valid() && list.Valid() && elements == old(elements) + old(list.elements) && list.elements == []
      ensures Contents() == old(Contents()) + old(list.Contents())
    {
      hide Linked, Distinct;
      ghost var mine, theirs, k := elements, list.elements, 0;
      LinkAt(list.Ring(), 0);
      while list.end.next != list.end
        invariant 0 <= k <= |theirs| && Valid() && list.Valid() && Apart(list)
        invariant elements == mine + theirs[..k] && list.elements == theirs[k..]
        invariant list.end.next == list.Ring()[1]
        invariant forall n :: n in mine || n in theirs ==> n.chunk == old(n.chunk)
        decreases |theirs| - k
      {
        TakeFirst(list);
        k := k + 1;
        LinkAt(list.Ring(), 0);
      }
    }
  }

  lemma StillApart(mine: seq<Node>, theirs: seq<Node>, end: Node, theirEnd: Node)
    requires Distinct(theirs) && theirs != [] && end !in theirs && theirEnd !in mine && theirEnd !in theirs
    requires forall n :: n in mine ==> n !in theirs
    ensures mine[..|mine|] + [theirs[0]] + mine[|mine|..] == mine + [theirs[0]]
    ensures theirs[0] in theirs && theirs[0] !in theirs[1..] && end !in theirs[1..] && theirEnd !in mine + [theirs[0]]
    ensures forall n :: n in mine + [theirs[0]] ==> n !in theirs[1..]
  {
  }

  lemma DistinctWith(s: seq<Node>, k: nat, e: Node)
    requires Distinct(s) && k <= |s| && e !in s
    ensures Distinct(s[..k] + [e] + s[k..])
  {
  }

  lemma DistinctWithout(s: seq<Node>, k: nat)
    requires Distinct(s) && k < |s|
    ensures Distinct(s[..k] + s[k + 1..])
  {
  }

  twostate lemma StillLinked(ring: seq<Node>)
    requires old(Linked(ring)) && forall n :: n in ring ==> unchanged(n)
    ensures Linked(ring)
  {
    forall i | 0 <= i < |ring| - 1
      ensures ring[i].next == ring[i + 1] && ring[i + 1].prev == ring[i]
    {
      assert old(ring[i].next == ring[i + 1] && ring[i + 1].prev == ring[i]);
      assert ring[i] in ring && ring[i + 1] in ring;
    }
  }

  lemma LinkAt(ring: seq<Node>, i: nat)
    requires Linked(ring) && i + 1 < |ring|
    ensures ring[i].next == ring[i + 1] && ring[i + 1].prev == ring[i]
  {
  }

  lemma InsertedLinks(p: seq<Node>, k: nat, e: Node)
    requires k + 1 < |p| && e.next == p[k + 1] && e.prev == p[k] && p[k].next == e && p[k + 1].prev == e
    requires forall i :: 0 <= i < |p| - 1 && i != k ==> p[i].next == p[i + 1] && p[i + 1].prev == p[i]
    ensures Linked(p[..k + 1] + [e] + p[k + 1..])
  {
    var q := p[..k + 1] + [e] + p[k + 1..];
    forall i | 0 <= i < |q| - 1
      ensures q[i].next == q[i + 1] && q[i + 1].prev == q[i]
    {
      InsertedAt(p, k, e, i);
      InsertedAt(p, k, e, i + 1);
    }
  }

  lemma RemovedRing(end: Node, s: seq<Node>, k: nat)
    requires k < |s|
    ensures var p := [end] + s + [end];
            [end] + (s[..k] + s[k + 1..]) + [end] == p[..k + 1] + p[k + 2..]
  {
  }

  lemma RemovedLinks(p: seq<Node>, k: nat)
    requires k + 2 < |p| && p[k].next == p[k + 2] && p[k + 2].prev == p[k]
    requires forall i :: 0 <= i < |p| - 1 && i != k && i != k + 1 ==> p[i].next == p[i + 1] && p[i + 1].prev == p[i]
    ensures Linked(p[..k + 1] + p[k + 2..])
  {
    var q := p[..k + 1] + p[k + 2..];
    forall i | 0 <= i < |q| - 1
      ensures q[i].next == q[i + 1] && q[i + 1].prev == q[i]
    {
      assert q[i] == p[if i <= k then i else i + 1] && q[i + 1] == p[if i + 1 <= k then i + 1 else i + 2];
    }
  }

  lemma RingDistinct(end: Node, s: seq<Node>)
    requires end !in s && Distinct(s)
    ensures var p := [end] + s + [end];
            (forall i, j :: 0 <= i < j < |p| - 1 ==> p[i] != p[j]) && (forall i, j :: 0 < i < j < |p| ==> p[i] != p[j])
  {
    var p := [end] + s + [end];
    forall i | 0 < i < |p| - 1 ensures p[i] in s {
      assert p[i] == s[i - 1];
    }
  }

  lemma InRing(end: Node, s: seq<Node>, k: nat)
    requires k <= |s|
    ensures var p := [end] + s + [end];
            (p[k] == end || p[k] in s) && (p[k + 1] == end || p[k + 1] in s)
  {
  }

  lemma InsertedRing(end: Node, s: seq<Node>, k: nat, e: Node)
    requires k <= |s|
    ensures var p := [end] + s + [end];
            [end] + (s[..k] + [e] + s[k..]) + [end] == p[..k + 1] + [e] + p[k + 1..]
  {
  }

  lemma InsertedAt(p: seq<Node>, k: nat, e: Node, i: nat)
    requires k + 1 < |p| && i <= |p|
    ensures (p[..k + 1] + [e] + p[k + 1..])[i] == if i <= k then p[i] else if i == k + 1 then e else p[i - 1]
  {
  }

  /** Neighbours point at each other. */
  ghost predicate Linked(ring: seq<Node>)
    reads ring`next, ring`prev
  {
    forall i :: 0 <= i < |ring| - 1 ==> ring[i].next == ring[i + 1] && ring[i + 1].prev == ring[i]
  }
}
