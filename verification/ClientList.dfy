/** The client list of sample/llist.c: a chain of addresses behind a header node. */
module ClientList {

  // ---------- the list as a value ----------

  /** `xs` without the first occurrence of `x`. */
  function RemoveFirst<T(==)>(xs: seq<T>, x: T): seq<T> {
    if xs == [] then []
    else if xs[0] == x then xs[1..]
    else [xs[0]] + RemoveFirst(xs[1..], x)
  }

  function InsertNew<T(==)>(xs: seq<T>, x: T): seq<T> { if x in xs then xs else [x] + xs }

  ghost predicate NoDuplicates<T>(xs: seq<T>) {
    forall i, j :: 0 <= i < j < |xs| ==> xs[i] != xs[j]
  }

  lemma {:induction false} RemoveAt<T>(xs: seq<T>, k: nat)
    requires k < |xs| && forall i :: 0 <= i < k ==> xs[i] != xs[k]
    ensures RemoveFirst(xs, xs[k]) == xs[..k] + xs[k + 1..]
  {
    if k > 0 {
      var t := xs[1..];
      assert t[k - 1] == xs[k];
      RemoveAt(t, k - 1);
      assert RemoveFirst(xs, xs[k]) == [xs[0]] + (t[..k - 1] + t[k..]);
      hide RemoveFirst;
      assert xs[..k] == [xs[0]] + t[..k - 1] && xs[k + 1..] == t[k..];
    }
  }

  lemma {:induction false} RemoveAbsent<T>(xs: seq<T>, x: T)
    requires x !in xs
    ensures RemoveFirst(xs, x) == xs
  {
    if xs != [] {
      RemoveAbsent(xs[1..], x);
    }
  }

  /** From a list without duplicates, removing the first occurrence removes the address. */
  lemma {:induction false} RemoveIsEntire<T>(xs: seq<T>, x: T)
    requires NoDuplicates(xs)
    ensures NoDuplicates(RemoveFirst(xs, x))
    ensures forall y :: y in RemoveFirst(xs, x) <==> y in xs && y != x
  {
    if xs != [] {
      var t := xs[1..];
      assert xs == [xs[0]] + t;
      RemoveIsEntire(t, x);
      assert xs[0] !in t;
    }
  }

  datatype Op<T> = Insert(x: T) | Delete(x: T)

  /** The list, and the set of addresses that it stands for, after a run of insertions and deletions. */
  function Run<T(==)>(ops: seq<Op<T>>): seq<T> {
    if ops == [] then []
    else
      var xs := Run(ops[..|ops| - 1]);
      match ops[|ops| - 1]
      case Insert(x) => InsertNew(xs, x)
      case Delete(x) => RemoveFirst(xs, x)
  }

  function RunSet<T(==)>(ops: seq<Op<T>>): set<T> {
    if ops == [] then {}
    else
      var s := RunSet(ops[..|ops| - 1]);
      match ops[|ops| - 1]
      case Insert(x) => s + {x}
      case Delete(x) => s - {x}
  }

  /** Every run of insert_nodulp_node and delete_node leaves each address at most once, and the list
      holds exactly the addresses inserted and not deleted since. */
  lemma {:induction false} RunIsSet<T>(ops: seq<Op<T>>)
    ensures NoDuplicates(Run(ops))
    ensures forall y :: y in Run(ops) <==> y in RunSet(ops)
    ensures |Run(ops)| == |RunSet(ops)|
  {
    if ops != [] {
      var before, last := ops[..|ops| - 1], ops[|ops| - 1];
      var xs := Run(before);
      RunIsSet(before);
      match last
      case Insert(x) =>
        assert RunSet(ops) == RunSet(before) + {x};
      case Delete(x) =>
        RemoveIsEntire(xs, x);
    }
    SetOfSeq(Run(ops), RunSet(ops));
  }

  lemma {:induction false} SetOfSeq<T>(xs: seq<T>, s: set<T>)
    requires NoDuplicates(xs) && forall y :: y in xs <==> y in s
    ensures |xs| == |s|
  {
    if xs == [] {
      assert s == {};
    } else {
      var t := xs[1..];
      assert xs == [xs[0]] + t;
      SetOfSeq(t, s - {xs[0]});
    }
  }

  // ---------- the C functions ----------

  class Node {
    var ipaddr: string
    var next: Node?

    constructor (ip: string)
      ensures ipaddr == ip && next == null
    {
      ipaddr, next := ip, null;
    }
  }

  class LinkList {
    const header: Node
    /** The nodes behind the header. */
    ghost var nodes: seq<Node>

    /** create_null_list_link */
    constructor ()
      ensures Valid() && Addresses() == [] && fresh(header)
    {
      header := new Node("");
      nodes := [];
    }

    ghost predicate Valid()
      reads this, header, nodes
    {
      && header.next == (if nodes == [] then null else nodes[0])
      && (forall i {:trigger nodes[i].next} :: 0 <= i < |nodes| - 1 ==> nodes[i].next == nodes[i + 1])
      && (nodes != [] ==> nodes[|nodes| - 1].next == null)
      && (forall i, j :: 0 <= i < j < |nodes| ==> nodes[i] != nodes[j])
      && (forall i :: 0 <= i < |nodes| ==> nodes[i] != header)
    }

    ghost function Addresses(): (s: seq<string>)
      reads this, nodes
      ensures |s| == |nodes|
    {
      seq(|nodes|, i requires 0 <= i < |nodes| reads this, nodes => nodes[i].ipaddr)
    }

    /** The node before position `i`. */
    ghost function Before(i: nat): Node
      requires i <= |nodes|
      reads this
    {
      if i == 0 then header else nodes[i - 1]
    }

    method IsNullListLink() returns (b: bool)
      requires Valid()
      ensures b == (Addresses() == [])
    {
      return header.next == null;
    }

    /** insert_link; the address has to fit char ipaddr[16] with its terminator. */
    method InsertLink(ipaddr: string)
      requires Valid() && |ipaddr| < 16
      modifies this, header
      ensures Valid() && Addresses() == [ipaddr] + old(Addresses())
      ensures |nodes| == |old(nodes)| + 1 && nodes[1..] == old(nodes) && fresh(nodes[0])
    {
      var q := new Node(ipaddr);
      q.next := header.next;
      header.next := q;
      nodes := [q] + nodes;
    }

    method SearchNode(ipaddr: string) returns (q: Node?)
      requires Valid()
      ensures q != null <==> ipaddr in Addresses()
      ensures q != null ==> q in nodes && q.ipaddr == ipaddr
    {
      var empty := IsNullListLink();
      q := header.next;
      if empty {
        return null;
      }
      ghost var i := 0;
      while q != null
        invariant 0 <= i <= |nodes|
        invariant q == if i < |nodes| then nodes[i] else null
        invariant forall j :: 0 <= j < i ==> Addresses()[j] != ipaddr
        decreases |nodes| - i
      {
        if q.ipaddr == ipaddr {
          assert Addresses()[i] == ipaddr;
          return q;
        }
        q := q.next;
        i := i + 1;
      }
      return null;
    }

    method InsertNodulpNode(ipaddr: string) returns (ret: int)
      requires Valid() && |ipaddr| < 16
      modifies this, header
      ensures Valid() && Addresses() == InsertNew(old(Addresses()), ipaddr)
      ensures ret == if ipaddr in old(Addresses()) then 0 else 1
    {
      ret := 0;
      var found := SearchNode(ipaddr);
      if found == null {
        InsertLink(ipaddr);
        ret := 1;
      }
    }

    /** Unlinks position `i`, whose node `q` follows `p`. */
    method Unlink(p: Node, q: Node, ghost i: nat)
      requires Valid() && i < |nodes| && q == nodes[i] && p == Before(i)
      modifies this`nodes, p`next
      ensures Valid() && nodes == old(nodes)[..i] + old(nodes)[i + 1..]
      ensures Addresses() == old(Addresses())[..i] + old(Addresses())[i + 1..]
    {
      p.next := q.next;
      nodes := nodes[..i] + nodes[i + 1..];
    }

    method DeleteNode(ipaddr: string)
      requires Valid()
      modifies this`nodes, header, nodes
      ensures Valid() && Addresses() == RemoveFirst(old(Addresses()), ipaddr)
    {
      ghost var all := Addresses();
      if header.next == null {
        return;
      }
      var q: Node? := header.next;
      var p := header;
      ghost var i := 0;
      while q != null
        invariant Valid() && Addresses() == all && nodes == old(nodes)
        invariant 0 <= i <= |nodes| && p == Before(i)
        invariant q == if i < |nodes| then nodes[i] else null
        invariant forall j :: 0 <= j < i ==> all[j] != ipaddr
        decreases |nodes| - i
      {
        if q.ipaddr == ipaddr {
          assert all[i] == ipaddr;
          Unlink(p, q, i);
          RemoveAt(all, i);
          return;
        }
        p := q;
        q := q.next;
        i := i + 1;
      }
      RemoveAbsent(all, ipaddr);
    }

    /** delete_this_node: unlinks the node and returns the one before it. The header file promises no
        more; when the node is not in the list the result is the last node, or the header. */
    method DeleteThisNode(thisNode: Node) returns (p: Node)
      requires Valid()
      modifies this`nodes, header, nodes
      ensures Valid()
      ensures forall i :: 0 <= i < |old(nodes)| && old(nodes)[i] == thisNode ==>
                && nodes == old(nodes)[..i] + old(nodes)[i + 1..]
                && Addresses() == old(Addresses())[..i] + old(Addresses())[i + 1..]
                && p == if i == 0 then header else old(nodes)[i - 1]
      ensures thisNode !in old(nodes) ==>
                && nodes == old(nodes) && Addresses() == old(Addresses())
                && p == if nodes == [] then header else nodes[|nodes| - 1]
    {
      ghost var all := Addresses();
      if header.next == null {
        return header;
      }
      var q: Node? := header.next;
      p := header;
      ghost var i := 0;
      while q != null
        invariant Valid() && Addresses() == all && nodes == old(nodes)
        invariant 0 <= i <= |nodes| && p == Before(i)
        invariant q == if i < |nodes| then nodes[i] else null
        invariant forall j :: 0 <= j < i ==> nodes[j] != thisNode
        decreases |nodes| - i
      {
        if q == thisNode {
          Unlink(p, q, i);
          return p;
        }
        p := q;
        q := q.next;
        i := i + 1;
      }
      return p;
    }

    method NumNode() returns (n: int)
      requires Valid()
      ensures n == |Addresses()|
    {
      n := 0;
      var llist := header;
      while llist.next != null
        invariant 0 <= n <= |nodes| && llist == Before(n)
        decreases |nodes| - n
      {
        n := n + 1;
        llist := llist.next;
      }
    }
  }
}
