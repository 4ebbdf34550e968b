/** The circular doubly linked list of live snapshots (db/snapshot.h lines 17-90), oldest first, with a dummy head
    whose links are rewired by New and Delete. */
module SnapshotLists {
  import opened DbFormat

  class SnapshotImpl {
    const sequenceNumber: Sequence
    var prev: SnapshotImpl?
    var next: SnapshotImpl?

    constructor (s: Sequence)
      ensures sequenceNumber == s
    {
      sequenceNumber := s;
      prev, next := null, null;
    }
  }

  ghost function NumbersOf(nodes: seq<SnapshotImpl>): (r: seq<Sequence>)
    ensures |r| == |nodes| && forall i :: 0 <= i < |r| ==> r[i] == nodes[i].sequenceNumber
  {
    seq(|nodes|, i requires 0 <= i < |nodes| => nodes[i].sequenceNumber)
  }

  lemma NumbersWithout(nodes: seq<SnapshotImpl>, i: nat)
    requires i < |nodes|
    ensures NumbersOf(nodes[..i] + nodes[i + 1..]) == NumbersOf(nodes)[..i] + NumbersOf(nodes)[i + 1..]
  {
  }

  lemma NumbersSnoc(nodes: seq<SnapshotImpl>, s: SnapshotImpl)
    ensures NumbersOf(nodes + [s]) == NumbersOf(nodes) + [s.sequenceNumber]
  {
  }

  class SnapshotList {
    const head: SnapshotImpl              // the dummy between newest and oldest
    ghost var nodes: seq<SnapshotImpl>    // oldest first

    /** The dummy and the snapshots, once around. */
    ghost function Ring(): seq<SnapshotImpl>
      reads this
    {
      [head] + nodes
    }

    /** The numbers of the live snapshots. */
    ghost function Numbers(): seq<Sequence>
      reads this
    {
      NumbersOf(nodes)
    }

    ghost function After(ring: seq<SnapshotImpl>, i: nat): SnapshotImpl
      requires i < |ring|
    {
      if i + 1 < |ring| then ring[i + 1] else ring[0]
    }

    ghost function Before(ring: seq<SnapshotImpl>, i: nat): SnapshotImpl
      requires i < |ring|
    {
      if i > 0 then ring[i - 1] else ring[|ring| - 1]
    }

    ghost predicate LinkedAt(ring: seq<SnapshotImpl>, i: nat)
      requires i < |ring|
      reads ring
    {
      ring[i].next == After(ring, i) && ring[i].prev == Before(ring, i)
    }

    ghost predicate Linked(ring: seq<SnapshotImpl>)
      reads ring
    {
      && (forall i, j :: 0 <= i < j < |ring| ==> ring[i] != ring[j])
      && (forall i :: 0 <= i < |ring| ==> LinkedAt(ring, i))
    }

    /** The links go around the ring both ways, and numbers do not decrease from the oldest on. */
    ghost predicate Valid()
      reads this, head, nodes
    {
      && Linked(Ring())
      && forall i, j :: 0 <= i < j < |nodes| ==> nodes[i].sequenceNumber <= nodes[j].sequenceNumber
    }

    constructor ()
      ensures Valid() && nodes == [] && fresh(head)
    {
      var h := new SnapshotImpl(0);
      head := h;
      nodes := [];
      new;
      h.prev, h.next := h, h;
    }

    method Empty() returns (r: bool)
      requires Valid()
      ensures r == (nodes == [])
    {
      assert LinkedAt(Ring(), 0);
      r := head.next == head;
    }

    /** The oldest snapshot: no live one has a smaller number. */
    method Oldest() returns (s: SnapshotImpl)
      requires Valid() && nodes != []
      ensures s == nodes[0] && forall t :: t in nodes ==> s.sequenceNumber <= t.sequenceNumber
    {
      assert LinkedAt(Ring(), 0);
      s := head.next;
    }

    method Newest() returns (s: SnapshotImpl)
      requires Valid() && nodes != []
      ensures s == nodes[|nodes| - 1] && forall t :: t in nodes ==> t.sequenceNumber <= s.sequenceNumber
    {
      assert LinkedAt(Ring(), 0);
      s := head.prev;
    }

    /** Appends a snapshot at the newest end. */
    method New(s: Sequence) returns (snapshot: SnapshotImpl)
      requires Valid() && (nodes != [] ==> nodes[|nodes| - 1].sequenceNumber <= s)
      modifies this, head, nodes
      ensures Valid() && fresh(snapshot) && snapshot.sequenceNumber == s
      ensures nodes == old(nodes) + [snapshot] && Numbers() == old(Numbers()) + [s]
    {
      hide NumbersOf, After, Before;
      ghost var ring := Ring();
      assert LinkedAt(ring, 0);
      assert Before(ring, 0) == ring[|ring| - 1] by { FirstBefore(ring); }
      var newest := head.prev;
      snapshot := new SnapshotImpl(s);
      snapshot.next := head;
      snapshot.prev := newest;
      newest.next := snapshot;
      head.prev := snapshot;
      NumbersSnoc(nodes, snapshot);
      nodes := nodes + [snapshot];
      assert Ring() == ring + [snapshot];
      forall j | 0 <= j < |ring|
        ensures ring[j].next == (if j == |ring| - 1 then snapshot else After(ring, j))
        ensures ring[j].prev == (if j == 0 then snapshot else Before(ring, j))
      {
        assert old(LinkedAt(ring, j));
      }
      Appended(ring, snapshot);
    }

    lemma FirstBefore(ring: seq<SnapshotImpl>)
      requires ring != []
      ensures Before(ring, 0) == ring[|ring| - 1]
    {
    }

    lemma Appended(ring: seq<SnapshotImpl>, s: SnapshotImpl)
      requires ring != [] && s !in ring && forall i, j :: 0 <= i < j < |ring| ==> ring[i] != ring[j]
      requires forall j :: 0 <= j < |ring| ==> ring[j].next == (if j == |ring| - 1 then s else After(ring, j))
      requires forall j :: 0 <= j < |ring| ==> ring[j].prev == (if j == 0 then s else Before(ring, j))
      requires s.next == ring[0] && s.prev == ring[|ring| - 1]
      ensures Linked(ring + [s])
    {
      var after := ring + [s];
      forall j | 0 <= j < |after| ensures LinkedAt(after, j) {
        assert after[j] == if j < |ring| then ring[j] else s;
      }
    }

    /** Unlinks a snapshot; the others keep their order. */
    method Delete(snapshot: SnapshotImpl, ghost i: nat)
      requires Valid() && i < |nodes| && nodes[i] == snapshot
      modifies this, head, nodes
      ensures Valid() && nodes == old(nodes[..i] + nodes[i + 1..])
      ensures Numbers() == old(Numbers()[..i] + Numbers()[i + 1..])
    {
      hide LinkedAt, After, Before, NumbersOf;
      ghost var ring, was, p := Ring(), nodes, i + 1;
      NumbersWithout(was, i);
      Unlink(snapshot, ring, p);
      Unlinked(ring, p);
      nodes := was[..i] + was[i + 1..];
      assert Ring() == ring[..p] + ring[p + 1..];
    }

    /** The two stores that join the neighbours. */
    method Unlink(snapshot: SnapshotImpl, ghost ring: seq<SnapshotImpl>, ghost p: nat)
      requires 1 <= p < |ring| && ring[p] == snapshot && Linked(ring)
      modifies ring
      ensures forall j :: 0 <= j < |ring| && j != p ==>
        ring[j].next == (if j == p - 1 then After(ring, p) else After(ring, j))
      ensures forall j :: 0 <= j < |ring| && j != p ==>
        ring[j].prev == (if ring[j] == After(ring, p) then ring[p - 1] else Before(ring, j))
    {
      ghost var l, r := ring[p - 1], After(ring, p);
      assert LinkedAt(ring, p);
      snapshot.prev.next := snapshot.next;
      snapshot.next.prev := snapshot.prev;
      forall j | 0 <= j < |ring| && j != p
        ensures ring[j].next == (if j == p - 1 then r else After(ring, j))
        ensures ring[j].prev == (if ring[j] == r then l else Before(ring, j))
      {
        assert old(LinkedAt(ring, j));
      }
    }

    /** The ring without the node at `p`, when its neighbours have been joined. */
    lemma Unlinked(ring: seq<SnapshotImpl>, p: nat)
      requires 1 <= p < |ring| && forall i, j :: 0 <= i < j < |ring| ==> ring[i] != ring[j]
      requires forall j :: 0 <= j < |ring| && j != p ==>
        ring[j].next == (if j == p - 1 then After(ring, p) else After(ring, j))
      requires forall j :: 0 <= j < |ring| && j != p ==>
        ring[j].prev == (if ring[j] == After(ring, p) then ring[p - 1] else Before(ring, j))
      ensures Linked(ring[..p] + ring[p + 1..])
    {
      var after := ring[..p] + ring[p + 1..];
      forall j | 0 <= j < |after| ensures LinkedAt(after, j) {
        var k := if j < p then j else j + 1;
        assert after[j] == ring[k];
        assert After(after, j) == if k == p - 1 then After(ring, p) else After(ring, k);
        assert Before(after, j) == if ring[k] == After(ring, p) then ring[p - 1] else Before(ring, k);
      }
      assert forall i, j :: 0 <= i < j < |after| ==> after[i] != after[j];
    }
  }
}
