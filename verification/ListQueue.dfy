/** The linked queue of data_structure/queue_list.c. */
module ListQueue {
  import opened Wrappers

  // ---------- the FIFO that the queue should be ----------

  datatype Op<T> = Push(x: T) | Pop
  datatype Reply<T> = Pushed(ret: int, size: int) | Popped(ret: int, item: Option<T>, size: int)

  /** What a FIFO holds after a run, and what every call and the size query behind it return. */
  function Fifo<T>(ops: seq<Op<T>>): (seq<T>, seq<Reply<T>>) {
    if ops == [] then ([], [])
    else
      var (f, replies) := Fifo(ops[..|ops| - 1]);
      match ops[|ops| - 1]
      case Push(x) => (f + [x], replies + [Pushed(0, |f| + 1)])
      case Pop =>
        if f == [] then (f, replies + [Popped(-1, None, 0)])
        else (f[1..], replies + [Popped(0, Some(f[0]), |f| - 1)])
  }

  // ---------- the C functions ----------

  class Node<T> {
    var data: T
    var next: Node?<T>

    constructor (d: T)
      ensures data == d && next == null
    {
      data, next := d, null;
    }
  }

  class Queue<T> {
    var head: Node?<T>
    var rear: Node?<T>
    var nodeSize: int
    /** The nodes from head on, and those given back with free. */
    ghost var nodes: seq<Node<T>>
    ghost var freed: set<Node<T>>

    /** create_queue */
    constructor ()
      ensures Valid() && Contents() == [] && nodes == []
    {
      head, rear, nodeSize := null, null, 0;
      nodes, freed := [], {};
    }

    /** The chain from head visits distinct nodes, none of them freed, and ends; node_size is its
        length. When the queue is empty nothing is said about rear: it may point to a freed node. */
    ghost predicate Valid()
      reads this, nodes
    {
      && nodeSize == |nodes|
      && head == (if nodes == [] then null else nodes[0])
      && (nodes != [] ==> rear == nodes[|nodes| - 1])
      && (forall i {:trigger nodes[i].next} :: 0 <= i < |nodes| - 1 ==> nodes[i].next == nodes[i + 1])
      && (nodes != [] ==> nodes[|nodes| - 1].next == null)
      && (forall i, j :: 0 <= i < j < |nodes| ==> nodes[i] != nodes[j])
      && (forall i :: 0 <= i < |nodes| ==> nodes[i] !in freed)
    }

    ghost function Contents(): (s: seq<T>)
      reads this, nodes
      ensures |s| == |nodes|
    {
      seq(|nodes|, i requires 0 <= i < |nodes| reads this, nodes => nodes[i].data)
    }

    method EmptyQueue() returns (b: bool)
      requires Valid()
      ensures b == (Contents() == [])
    {
      return head == null;
    }

    method GetQueueSize() returns (n: int)
      requires Valid()
      ensures n == |Contents()|
    {
      var empty := EmptyQueue();
      if empty {
        return 0;
      }
      return nodeSize;
    }

    method PushQueue(x: T) returns (ret: int)
      requires Valid()
      modifies this, nodes
      ensures Valid() && ret == 0 && freed == old(freed)
      ensures Contents() == old(Contents()) + [x]
      ensures |nodes| == |old(nodes)| + 1 && nodes[..|old(nodes)|] == old(nodes)
      ensures fresh(nodes[|old(nodes)|])
    {
      var temp := new Node(x);
      if head == null {
        head := temp;
        rear := temp;
      } else {
        assert rear !in freed;
        rear.next := temp;
        rear := temp;
      }
      nodes := nodes + [temp];
      nodeSize := nodeSize + 1;
      return 0;
    }

    method PopQueue() returns (ret: int, item: Option<T>)
      requires Valid()
      modifies this
      ensures Valid()
      ensures ret == (if old(Contents()) == [] then -1 else 0)
      ensures ret == -1 ==> item == None && Contents() == [] && freed == old(freed)
      ensures ret == 0 ==> item.Some? && old(Contents()) == [item.value] + Contents()
      ensures ret == 0 ==> nodes == old(nodes)[1..] && freed == old(freed) + {old(nodes)[0]}
    {
      var empty := EmptyQueue();
      if empty {
        return -1, None;
      }
      var temp := head;
      assert temp !in freed;
      item := Some(head.data);
      head := head.next;
      freed := freed + {temp};
      nodes := nodes[1..];
      nodeSize := nodeSize - 1;
      return 0, item;
    }
  }

  /** The command loop of the queue's test program, for any commands: the linked queue answers like a
      FIFO, and its size field stays the length of the chain. */
  method Drive<T>(q: Queue<T>, ops: seq<Op<T>>) returns (replies: seq<Reply<T>>)
    requires q.Valid() && q.nodes == []
    modifies q
    ensures q.Valid() && q.Contents() == Fifo(ops).0
    ensures replies == Fifo(ops).1
  {
    replies := [];
    for n := 0 to |ops|
      invariant q.Valid() && fresh(q.nodes)
      invariant (q.Contents(), replies) == Fifo(ops[..n])
    {
      assert ops[..n + 1][..n] == ops[..n];
      ghost var f := q.Contents();
      match ops[n]
      case Push(x) =>
        var ret := q.PushQueue(x);
        var size := q.GetQueueSize();
        replies := replies + [Pushed(ret, size)];
      case Pop =>
        var ret, item := q.PopQueue();
        var size := q.GetQueueSize();
        assert f != [] ==> f[0] == item.value && f[1..] == q.Contents();
        replies := replies + [Popped(ret, item, size)];
    }
    assert ops[..|ops|] == ops;
  }
}
