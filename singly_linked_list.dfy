/** The intrusive singly linked list: a chain of nodes joined by `next`
    pointers and ending in NULL. The caller keeps the head pointer; each
    operation takes the current head and returns the new one, as the C
    functions update `*head`. The ghost sequence `nodes` names the chain's
    nodes in list order. */
module SinglyLinkedList {
  import opened Bytes

  class Node<T> {
    var next: Node?<T>
    /** The payload; no list operation writes it. */
    const item: T

    constructor (item: T)
      ensures this.item == item && next == null
    {
      this.item := item;
      next := null;
    }
  }

  /** `head` starts a NULL-terminated chain that visits exactly `nodes`, in
      order, each node once. */
  ghost predicate IsList<T>(head: Node?<T>, nodes: seq<Node<T>>)
    reads nodes
  {
    && (forall i, j :: 0 <= i < j < |nodes| ==> nodes[i] != nodes[j])
    && (if nodes == [] then head == null else head == nodes[0])
    && (forall i :: 0 <= i < |nodes| - 1 ==> nodes[i].next == nodes[i + 1])
    && (nodes != [] ==> nodes[|nodes| - 1].next == null)
  }

  /** The items of the chain, in list order. */
  function Items<T>(nodes: seq<Node<T>>): (items: seq<T>)
    ensures |items| == |nodes|
    ensures forall i :: 0 <= i < |nodes| ==> items[i] == nodes[i].item
  {
    if nodes == [] then [] else [nodes[0].item] + Items(nodes[1..])
  }

  /** `nodes` without `node` (which a list holds at most once). */
  function Without<T>(nodes: seq<Node<T>>, node: Node<T>): seq<Node<T>>
  {
    if nodes == [] then []
    else if nodes[0] == node then Without(nodes[1..], node)
    else [nodes[0]] + Without(nodes[1..], node)
  }

  /** Without drops `node` and keeps every other node. */
  lemma {:induction false} WithoutMembers<T>(nodes: seq<Node<T>>, node: Node<T>, x: Node<T>)
    ensures x in Without(nodes, node) <==> x in nodes && x != node
  {
    if nodes != [] {
      WithoutMembers(nodes[1..], node, x);
      assert x in nodes <==> x == nodes[0] || x in nodes[1..];
    }
  }

  /** In a list without repeats, removing the node at position `k` keeps
      all others in their relative order. */
  lemma {:induction false} WithoutAt<T>(nodes: seq<Node<T>>, k: nat)
    requires k < |nodes|
    requires forall i, j :: 0 <= i < j < |nodes| ==> nodes[i] != nodes[j]
    ensures Without(nodes, nodes[k]) == nodes[..k] + nodes[k + 1..]
  {
    if k == 0 {
      assert nodes[0] !in nodes[1..] by {
        forall i | 0 <= i < |nodes[1..]| ensures nodes[1..][i] != nodes[0] {
          assert nodes[1..][i] == nodes[i + 1];
        }
      }
      WithoutAbsent(nodes[1..], nodes[0]);
      assert nodes[..0] + nodes[1..] == nodes[1..];
    } else {
      var rest := nodes[1..];
      assert nodes[0] != nodes[k];
      assert Without(nodes, nodes[k]) == [nodes[0]] + Without(rest, nodes[k]);
      assert rest[k - 1] == nodes[k];
      assert forall i, j :: 0 <= i < j < |rest| ==> rest[i] != rest[j] by {
        forall i, j | 0 <= i < j < |rest| ensures rest[i] != rest[j] {
          assert rest[i] == nodes[i + 1] && rest[j] == nodes[j + 1];
        }
      }
      WithoutAt(rest, k - 1);
      assert rest[..k - 1] == nodes[1..k];
      assert rest[k..] == nodes[k + 1..];
      assert nodes[..k] == [nodes[0]] + nodes[1..k];
    }
  }

  lemma {:induction false} WithoutAbsent<T>(nodes: seq<Node<T>>, node: Node<T>)
    requires node !in nodes
    ensures Without(nodes, node) == nodes
  {
    if nodes != [] {
      WithoutAbsent(nodes[1..], node);
    }
  }

  /** Position of the first item `matches` accepts, or `|nodes|` if none. */
  function FirstMatch<T>(nodes: seq<Node<T>>, matches: T -> bool): (k: nat)
    ensures k <= |nodes|
    ensures k < |nodes| ==> matches(nodes[k].item)
    ensures forall j :: 0 <= j < k ==> !matches(nodes[j].item)
  {
    if nodes == [] then 0
    else if matches(nodes[0].item) then 0
    else 1 + FirstMatch(nodes[1..], matches)
  }

  /** `insert_at_head`: a NULL node changes nothing; otherwise the node
      becomes the head and the old list follows it unchanged. */
  method InsertAtHead<T>(head: Node?<T>, ghost nodes: seq<Node<T>>, newNode: Node?<T>)
    returns (newHead: Node?<T>)
    requires IsList(head, nodes)
    requires newNode != null ==> newNode !in nodes
    modifies newNode
    ensures newNode == null ==> newHead == head
    ensures newNode != null ==> newHead == newNode
    ensures IsList(newHead, if newNode == null then nodes else [newNode] + nodes)
  {
    if newNode == null {
      return head;
    }
    ghost var r := [newNode] + nodes;
    newNode.next := head;
    newHead := newNode;
    forall k | 0 <= k < |r|
      ensures r[k].next == if k + 1 < |r| then r[k + 1] else null
    {
      if k > 0 {
        assert r[k] == nodes[k - 1] && nodes[k - 1] != newNode;
        assert old(nodes[k - 1].next) == if k < |nodes| then nodes[k] else null;
      } else if nodes != [] {
        assert r[1] == nodes[0];
      }
    }
  }

  /** The walk of `delete_node`: the node just before `node`, or NULL when
      no node of the list links to it. */
  method FindPredecessor<T>(head: Node?<T>, ghost nodes: seq<Node<T>>, node: Node<T>)
    returns (prev: Node?<T>, ghost i: nat)
    requires IsList(head, nodes)
    requires head != node
    ensures prev == null ==> node !in nodes
    ensures prev != null ==> i + 1 < |nodes| && prev == nodes[i] && node == nodes[i + 1]
  {
    prev := head;
    i := 0;
    while prev != null && prev.next != node
      invariant 0 <= i <= |nodes|
      invariant prev == if i < |nodes| then nodes[i] else null
      invariant forall j :: 0 <= j < i ==> nodes[j].next != node
      decreases |nodes| - i
    {
      prev := prev.next;
      i := i + 1;
    }
    if prev == null {
      forall k | 0 <= k < |nodes| ensures nodes[k] != node {
        if k > 0 {
          assert nodes[k - 1].next == nodes[k];
        }
      }
    }
  }

  /** Unlinking the node at position `i + 1` by pointing its predecessor past
      it leaves a list of the remaining nodes, in order, under the same head. */
  method UnlinkAfter<T>(head: Node?<T>, ghost nodes: seq<Node<T>>, prev: Node<T>, ghost i: nat)
    requires IsList(head, nodes)
    requires i + 1 < |nodes| && prev == nodes[i]
    modifies prev, nodes[i + 1]
    ensures IsList(head, nodes[..i + 1] + nodes[i + 2..]) && nodes[i + 1].next == null
  {
    var node := prev.next;
    ghost var r := nodes[..i + 1] + nodes[i + 2..];
    assert forall k :: 0 <= k < |r| ==> r[k] == if k <= i then nodes[k] else nodes[k + 1];
    prev.next := node.next;
    node.next := null;
    forall k | 0 <= k < |r| - 1
      ensures r[k].next == r[k + 1]
    {
      if k < i {
        assert old(nodes[k].next) == nodes[k + 1];
      } else if k > i {
        assert old(nodes[k + 1].next) == nodes[k + 2];
      }
    }
    if i + 2 == |nodes| {
      assert r[|r| - 1] == prev;
    } else {
      assert r[|r| - 1] == nodes[|nodes| - 1];
    }
  }

  /** The tail of a list is a list, started by the head's successor, and
      does not contain the head. */
  lemma ListTail<T>(head: Node<T>, nodes: seq<Node<T>>)
    requires IsList(head, nodes)
    ensures IsList(head.next, nodes[1..]) && head !in nodes[1..]
  {
    var rest := nodes[1..];
    forall i | 0 <= i < |rest| ensures rest[i] == nodes[i + 1] && rest[i] != head {
    }
    forall i | 0 <= i < |rest| - 1 ensures rest[i].next == rest[i + 1] {
      assert rest[i] == nodes[i + 1];
    }
  }

  /** Unlinking the head node: the list goes on from its successor with
      the remaining nodes in order, and the old head's `next` is cleared. */
  method UnlinkHead<T>(head: Node<T>, ghost nodes: seq<Node<T>>) returns (newHead: Node?<T>)
    requires IsList(head, nodes)
    modifies head
    ensures IsList(newHead, nodes[1..]) && head.next == null
  {
    ListTail(head, nodes);
    newHead := head.next;
    head.next := null;
  }

  /** `delete_node`: with a NULL node or an empty list nothing happens, not
      even the release. Otherwise the node, if the list holds it at position
      `k`, is unlinked (the others keep their order, see WithoutAt, and the
      node's `next` is cleared), and it is handed to the release callback
      (`freed`) if one is given, whether or not the list held it. */
  method DeleteNode<T>(head: Node?<T>, ghost nodes: seq<Node<T>>, node: Node?<T>, hasFreeData: bool)
    returns (newHead: Node?<T>, freed: bool, ghost k: nat)
    requires IsList(head, nodes)
    modifies nodes, node
    ensures freed == (node != null && nodes != [] && hasFreeData)
    ensures node == null || node !in nodes ==> newHead == head && IsList(head, nodes)
    ensures node != null && node !in nodes ==> node.next == old(node.next)
    ensures node != null && node in nodes ==>
      && k < |nodes| && nodes[k] == node
      && IsList(newHead, nodes[..k] + nodes[k + 1..]) && node.next == null
  {
    freed := false;
    newHead := head;
    k := 0;
    if node == null || head == null {
      return;
    }
    if head == node {
      assert nodes[..k] + nodes[k + 1..] == nodes[1..];
      newHead := UnlinkHead(head, nodes);
    } else {
      var prev;
      ghost var i;
      prev, i := FindPredecessor(head, nodes, node);
      if prev != null {
        k := i + 1;
        assert nodes[..k] + nodes[k + 1..] == nodes[..i + 1] + nodes[i + 2..];
        UnlinkAfter(head, nodes, prev, i);
      }
    }
    freed := hasFreeData;
  }

  /** `search`: the first node in list order whose item the match
      callback accepts, or NULL when none does or there is no callback. */
  method Search<T>(head: Node?<T>, ghost nodes: seq<Node<T>>, matchFunc: Option<T -> bool>)
    returns (r: Node?<T>)
    requires IsList(head, nodes)
    ensures matchFunc.None? ==> r == null
    ensures matchFunc.Some? ==>
      var f := FirstMatch(nodes, matchFunc.value);
      r == if f < |nodes| then nodes[f] else null
  {
    if matchFunc.None? {
      return null;
    }
    var matches := matchFunc.value;
    var current := head;
    ghost var i := 0;
    while current != null
      invariant 0 <= i <= |nodes|
      invariant current == if i < |nodes| then nodes[i] else null
      invariant forall j :: 0 <= j < i ==> !matches(nodes[j].item)
      decreases |nodes| - i
    {
      if matches(current.item) {
        FirstMatchIs(nodes, matches, i);
        return current;
      }
      current := current.next;
      i := i + 1;
    }
    FirstMatchIs(nodes, matches, |nodes|);
    r := null;
  }

  /** FirstMatch is the one position with no earlier match and a match there (or the end). */
  lemma {:induction false} FirstMatchIs<T>(nodes: seq<Node<T>>, matches: T -> bool, k: nat)
    requires k <= |nodes|
    requires k < |nodes| ==> matches(nodes[k].item)
    requires forall j :: 0 <= j < k ==> !matches(nodes[j].item)
    ensures FirstMatch(nodes, matches) == k
  {
  }
}
