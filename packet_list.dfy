/** The earlier revisions of the packet list: a global list head onto
    which packet nodes are pushed. `packet_linked_list_add_packet` and
    `add_packet` are the same operation under two names, so one class
    models both globals. */
module PacketList {
  import opened Ipv4
  import opened SinglyLinkedList

  /** `packet_node_t` without its list link: a flow and its count. */
  datatype Packet = Packet(src: IpAddr, dest: IpAddr, refCounter: nat)

  /** The list after pushing `adds` one by one, first to last. */
  function AfterAdds<T>(nodes: seq<T>, adds: seq<T>): seq<T>
    decreases |adds|
  {
    if adds == [] then nodes else AfterAdds([adds[0]] + nodes, adds[1..])
  }

  function Reverse<T>(s: seq<T>): (r: seq<T>)
    ensures |r| == |s|
  {
    if s == [] then [] else Reverse(s[1..]) + [s[0]]
  }

  /** Pushing a run of nodes leaves them in reverse order of insertion,
      newest first, ahead of the nodes already there. */
  lemma {:induction false} AfterAddsReverses<T>(nodes: seq<T>, adds: seq<T>)
    ensures AfterAdds(nodes, adds) == Reverse(adds) + nodes
    decreases |adds|
  {
    if adds != [] {
      AfterAddsReverses([adds[0]] + nodes, adds[1..]);
      assert Reverse(adds) + nodes == Reverse(adds[1..]) + ([adds[0]] + nodes);
    }
  }

  /** One push extends a run of pushes by one more node. */
  lemma {:induction false} AfterAddsSnoc<T>(nodes: seq<T>, adds: seq<T>, x: T)
    ensures AfterAdds(nodes, adds + [x]) == [x] + AfterAdds(nodes, adds)
  {
    AfterAddsReverses(nodes, adds + [x]);
    AfterAddsReverses(nodes, adds);
    assert Reverse(adds + [x]) == [x] + Reverse(adds) by {
      ReverseSnoc(adds, x);
    }
  }

  lemma {:induction false} ReverseSnoc<T>(s: seq<T>, x: T)
    ensures Reverse(s + [x]) == [x] + Reverse(s)
  {
    if s != [] {
      ReverseSnoc(s[1..], x);
      assert (s + [x])[1..] == s[1..] + [x];
    } else {
      assert Reverse([x]) == Reverse([x][1..]) + [x];
    }
  }

  /** The global list (`packet_node_head` or `head`) and the nodes it
      holds, newest first. */
  class GlobalList {
    var head: Node?<Packet>
    ghost var nodes: seq<Node<Packet>>

    ghost predicate Valid()
      reads this, nodes
    {
      IsList(head, nodes)
    }

    /** The packets on the list, newest first. */
    ghost function Packets(): seq<Packet>
      reads this, nodes
    {
      Items(nodes)
    }

    constructor ()
      ensures Valid() && head == null && nodes == []
    {
      head := null;
      nodes := [];
    }

    /** `packet_linked_list_add_packet` / `add_packet`: a NULL node changes
        nothing; otherwise the node becomes the head, the earlier nodes
        follow in their prior order, and the list grows by one. */
    method AddPacket(packetNode: Node?<Packet>)
      requires Valid()
      requires packetNode != null ==> packetNode !in nodes
      modifies this, packetNode
      ensures Valid()
      ensures packetNode == null ==> head == old(head) && nodes == old(nodes)
      ensures packetNode != null ==>
        && head == packetNode && nodes == AfterAdds(old(nodes), [packetNode])
        && |nodes| == |old(nodes)| + 1 && nodes[1..] == old(nodes)
    {
      head := InsertAtHead(head, nodes, packetNode);
      if packetNode != null {
        nodes := [packetNode] + nodes;
      }
    }

    /** `packet_linked_list_delete_list`: the whole list goes to the list
        deleter with a release callback that frees only the node, and the
        global head becomes NULL. The deleter, `linked_list_delete_list`,
        is declared but not defined among the sources; this states its
        role: every node is released, in list order. */
    method DeleteList() returns (ghost released: seq<Node<Packet>>)
      requires Valid()
      modifies this
      ensures Valid() && head == null && nodes == []
      ensures released == old(nodes)
    {
      released := nodes;
      head := null;
      nodes := [];
    }
  }
}
