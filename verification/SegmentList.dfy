/** The memory map as the program keeps it: a heap list of segments, extended at
    its end and searched from its head. */
module SegmentLists {
  import opened Pages

  class Node {
    var segment: Segment
    var next: Node?

    constructor (s: Segment)
      ensures segment == s && next == null
    {
      segment := s;
      next := null;
    }
  }

  class SegmentList {
    var head: Node?
    ghost var nodes: seq<Node>

    /** The nodes, from the head on, are linked in order, end in null and never
        repeat: the list is acyclic. */
    ghost predicate Valid()
      reads this, nodes
    {
      && (head == null <==> nodes == [])
      && (nodes != [] ==> head == nodes[0] && nodes[|nodes| - 1].next == null)
      && (forall k :: 0 <= k < |nodes| - 1 ==> nodes[k].next == nodes[k + 1])
      && (forall k, l :: 0 <= k < l < |nodes| ==> nodes[k] != nodes[l])
    }

    ghost function Contents(): (s: seq<Segment>)
      requires Valid()
      reads this, nodes
      ensures |s| == |nodes|
    {
      seq(|nodes|, k requires 0 <= k < |nodes| reads this, nodes => nodes[k].segment)
    }

    constructor ()
      ensures Valid() && Contents() == [] && nodes == []
    {
      head := null;
      nodes := [];
    }

    method Add(s: Segment)
      requires Valid()
      modifies this, nodes
      ensures Valid()
      ensures Contents() == old(Contents()) + [s]
      ensures |nodes| == |old(nodes)| + 1 && nodes[..|old(nodes)|] == old(nodes)
      ensures fresh(nodes[|old(nodes)|])
    {
      var element := new Node(s);
      if head == null {
        head := element;
      } else {
        var last: Node := head;
        ghost var k := 0;
        while last.next != null
          invariant 0 <= k < |nodes| && last == nodes[k]
          invariant last.next == if k + 1 < |nodes| then nodes[k + 1] else null
          decreases |nodes| - k
        {
          last := last.next;
          k := k + 1;
        }
        last.next := element;
      }
      nodes := nodes + [element];
    }

    /** The first segment, in list order, that covers the address. */
    method FindSegment(address: int) returns (found: Option<Segment>)
      requires Valid()
      ensures found == Find(Contents(), address)
    {
      var p := head;
      ghost var k := 0;
      ghost var all := Contents();
      while p != null
        invariant 0 <= k <= |nodes|
        invariant if k < |nodes| then p == nodes[k] else p == null
        invariant Find(all, address) == Find(all[k..], address)
        decreases |nodes| - k
      {
        assert all[k] == p.segment;
        if p.segment.Covers(address) {
          return Some(p.segment);
        }
        assert all[k..][1..] == all[k + 1..];
        p := p.next;
        k := k + 1;
      }
      return None;
    }
  }
}
