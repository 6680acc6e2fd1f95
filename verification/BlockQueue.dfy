/** The ring of byte blocks of common/queue.c, used by one thread at a time. Slot indices are
    incremented before use and one slot always stays free. */
module BlockQueue {
  import opened Bytes
  import opened CLibrary

  const MAX_DATA_SEQUEUE: nat := 3

  type index = i: int | 0 <= i < MAX_DATA_SEQUEUE

  function Succ(i: index): index { (i + 1) % MAX_DATA_SEQUEUE }

  /** The number of blocks between the indices. */
  function Occupied(front: index, rear: index): nat { (rear - front) % MAX_DATA_SEQUEUE }

  predicate IsEmpty(front: index, rear: index) { front == rear }

  predicate IsFull(front: index, rear: index) { Succ(rear) == front }

  function ReportedSize(front: index, rear: index): nat {
    if rear > front then rear - front else MAX_DATA_SEQUEUE + rear - front
  }

  /** The index tests tell the truth about the number of blocks; the queue holds at most two. */
  lemma IndexTests(front: index, rear: index)
    ensures IsEmpty(front, rear) <==> Occupied(front, rear) == 0
    ensures IsFull(front, rear) <==> Occupied(front, rear) == MAX_DATA_SEQUEUE - 1
    ensures Occupied(front, rear) <= MAX_DATA_SEQUEUE - 1
    ensures !IsFull(front, rear) ==> Occupied(front, Succ(rear)) == Occupied(front, rear) + 1
    ensures !IsEmpty(front, rear) ==> Occupied(Succ(front), rear) == Occupied(front, rear) - 1
  {
  }

  /** GetSequeueSize is the number of blocks exactly when the queue is not empty; for an empty queue
      it says 3, one more than the queue can hold. */
  lemma ReportedSizeExact(front: index, rear: index)
    ensures ReportedSize(front, rear) == Occupied(front, rear) <==> !IsEmpty(front, rear)
    ensures IsEmpty(front, rear) ==> ReportedSize(front, rear) == MAX_DATA_SEQUEUE
  {
  }

  lemma BlockFits(i: index, size: nat)
    ensures 0 <= i * size <= i * size + size <= MAX_DATA_SEQUEUE * size
  {
  }

  lemma BlocksDisjoint(i: index, j: index, size: nat)
    requires i != j
    ensures j * size + size <= i * size || i * size + size <= j * size
  {
  }

  function Block(data: seq<byte>, i: index, size: nat): seq<byte>
    requires |data| == MAX_DATA_SEQUEUE * size
  {
    BlockFits(i, size);
    data[i * size..i * size + size]
  }

  /** The blocks in the queue, oldest first. */
  function Blocks(front: index, rear: index, data: seq<byte>, size: nat): seq<seq<byte>>
    requires |data| == MAX_DATA_SEQUEUE * size
  {
    seq(Occupied(front, rear), k requires 0 <= k =>
          Block(data, (front + 1 + k) % MAX_DATA_SEQUEUE, size))
  }

  /** Writing one block changes that block and no other. */
  lemma OneBlockWritten(before: seq<byte>, after: seq<byte>, i: index, size: nat, block: seq<byte>)
    requires |before| == |after| == MAX_DATA_SEQUEUE * size
    requires 0 <= i * size <= i * size + size <= |after| && after[i * size..i * size + size] == block
    requires forall p :: 0 <= p < |after| && !(i * size <= p < i * size + size) ==> after[p] == before[p]
    ensures Block(after, i, size) == block
    ensures forall j: index :: j != i ==> Block(after, j, size) == Block(before, j, size)
  {
    forall j: index | j != i ensures Block(after, j, size) == Block(before, j, size) {
      BlockFits(j, size);
      BlocksDisjoint(i, j, size);
    }
  }

  /** Writing the block behind the last one appends it. */
  lemma BlocksAppend(front: index, rear: index, before: seq<byte>, after: seq<byte>, size: nat, block: seq<byte>)
    requires |before| == |after| == MAX_DATA_SEQUEUE * size
    requires !IsFull(front, rear)
    requires Block(after, Succ(rear), size) == block
    requires forall j: index :: j != Succ(rear) ==> Block(after, j, size) == Block(before, j, size)
    ensures Blocks(front, Succ(rear), after, size) == Blocks(front, rear, before, size) + [block]
  {
    hide Block;
    IndexTests(front, rear);
  }

  lemma BlocksTail(front: index, rear: index, data: seq<byte>, size: nat)
    requires |data| == MAX_DATA_SEQUEUE * size
    requires !IsEmpty(front, rear)
    ensures |Blocks(front, rear, data, size)| >= 1
    ensures Blocks(front, rear, data, size)[0] == Block(data, Succ(front), size)
    ensures Blocks(Succ(front), rear, data, size) == Blocks(front, rear, data, size)[1..]
  {
    hide Block;
    IndexTests(front, rear);
  }

  class DataSequeue {
    var front: index
    var rear: index
    const data: array<byte>

    /** CreateEmptyDataSequeue; malloc leaves the blocks arbitrary. */
    constructor (oneDataSize: nat)
      ensures Valid(oneDataSize) && Contents(oneDataSize) == [] && fresh(data)
    {
      data := new byte[MAX_DATA_SEQUEUE * oneDataSize];
      front, rear := 0, 0;
    }

    /** The block size is not stored: every call passes it again, and it has to be the one the queue
        was created with. */
    ghost predicate Valid(size: nat) { data.Length == MAX_DATA_SEQUEUE * size }

    ghost function Contents(size: nat): seq<seq<byte>>
      requires Valid(size)
      reads this, data
    {
      Blocks(front, rear, data[..], size)
    }

    method EmptyDataSequeue(ghost size: nat) returns (r: int)
      requires Valid(size)
      ensures r == if Contents(size) == [] then 1 else 0
    {
      IndexTests(front, rear);
      r := if front == rear then 1 else 0;
    }

    method FullDataSequeue(ghost size: nat) returns (r: int)
      requires Valid(size)
      ensures r == if |Contents(size)| == 2 then 1 else 0
    {
      IndexTests(front, rear);
      r := if (rear + 1) % MAX_DATA_SEQUEUE == front then 1 else 0;
    }

    method GetSequeueSize(ghost size: nat) returns (n: int)
      requires Valid(size)
      ensures n == if Contents(size) == [] then 3 else |Contents(size)|
    {
      IndexTests(front, rear);
      ReportedSizeExact(front, rear);
      n := if rear > front then rear - front else MAX_DATA_SEQUEUE + rear - front;
    }

    /** The memset and memcpy of EnDataQueue. */
    method StoreBlock(i: index, inData: array<byte>, size: nat)
      requires Valid(size) && inData != data && size <= inData.Length
      modifies data
      ensures Block(data[..], i, size) == inData[..size]
      ensures forall j: index :: j != i ==> Block(data[..], j, size) == old(Block(data[..], j, size))
    {
      BlockFits(i, size);
      Memset(data, i * size, 0, size);
      Memcpy(data, i * size, inData, 0, size);
      OneBlockWritten(old(data[..]), data[..], i, size, inData[..size]);
    }

    /** The memcpy of DeDataQueue. */
    method LoadBlock(i: index, outData: array<byte>, size: nat)
      requires Valid(size) && outData != data && size <= outData.Length
      modifies outData
      ensures outData[..] == Block(data[..], i, size) + old(outData[size..])
    {
      BlockFits(i, size);
      var start := i * size;
      Memcpy(outData, 0, data, start, size);
      assert outData[..size] == Block(data[..], i, size);
      assert outData[..] == outData[..size] + outData[size..];
    }

    method EnDataQueue(inData: array<byte>, oneDataSize: nat) returns (ret: int)
      requires Valid(oneDataSize) && inData != data && oneDataSize <= inData.Length
      modifies this`rear, data
      ensures Valid(oneDataSize)
      ensures ret == if |old(Contents(oneDataSize))| == 2 then -1 else 0
      ensures ret == 0 ==> Contents(oneDataSize) == old(Contents(oneDataSize)) + [inData[..oneDataSize]]
      ensures ret == -1 ==> rear == old(rear) && data[..] == old(data[..])
      ensures forall i: index :: i != rear ==>
                Block(data[..], i, oneDataSize) == old(Block(data[..], i, oneDataSize))
    {
      hide Block;
      var full := FullDataSequeue(oneDataSize);
      if full == 1 {
        return -1;
      }
      IndexTests(front, rear);
      ghost var before := data[..];
      rear := (rear + 1) % MAX_DATA_SEQUEUE;
      StoreBlock(rear, inData, oneDataSize);
      BlocksAppend(front, old(rear), before, data[..], oneDataSize, inData[..oneDataSize]);
      return 0;
    }

    method DeDataQueue(outData: array?<byte>, oneDataSize: nat) returns (ret: int)
      requires Valid(oneDataSize)
      requires outData != null ==> outData != data && oneDataSize <= outData.Length
      modifies this`front, outData
      ensures Valid(oneDataSize)
      ensures ret == if old(Contents(oneDataSize)) == [] then -1 else 0
      ensures ret == 0 ==> Contents(oneDataSize) == old(Contents(oneDataSize))[1..]
      ensures ret == 0 && outData != null ==>
                outData[..] == old(Contents(oneDataSize))[0] + old(outData[oneDataSize..])
      ensures ret == -1 ==> front == old(front) && (outData != null ==> outData[..] == old(outData[..]))
    {
      hide Block;
      var empty := EmptyDataSequeue(oneDataSize);
      if empty == 1 {
        return -1;
      }
      BlocksTail(front, rear, data[..], oneDataSize);
      front := (front + 1) % MAX_DATA_SEQUEUE;
      if outData != null {
        LoadBlock(front, outData, oneDataSize);
      }
      return 0;
    }

    method DeAllDataQueue(ghost size: nat) returns (ret: int)
      requires Valid(size)
      modifies this`front, this`rear
      ensures Valid(size) && ret == 0 && Contents(size) == []
    {
      front := 0;
      rear := 0;
      return 0;
    }
  }
}
