/** The circular list of shared/data_struct/doubly_linked_list.c.  Memory never runs out
    here, and lists are not null. */
module DoublyLinkedList {
  import opened Options

  class Node<T> {
    var data: T
    var next: Node?<T>
    var prev: Node?<T>

    constructor (data0: T)
      ensures data == data0 && next == null && prev == null
    {
      data, next, prev := data0, null, null;
    }
  }

  /** The neighbours of place `i` in a ring of `n`. */
  function After(i: nat, n: nat): nat { if i + 1 == n then 0 else i + 1 }
  function Before(i: nat, n: nat): int { if i == 0 then n - 1 else i - 1 }

  ghost predicate Distinct<T>(nodes: seq<Node<T>>) {
    forall i, j {:trigger nodes[i], nodes[j]} :: 0 <= i < j < |nodes| ==> nodes[i] != nodes[j]
  }

  ghost predicate Forward<T>(nodes: seq<Node<T>>)
    reads nodes
  {
    forall i {:trigger nodes[i].next} :: 0 <= i < |nodes| ==> nodes[i].next == nodes[After(i, |nodes|)]
  }

  ghost predicate Backward<T>(nodes: seq<Node<T>>)
    reads nodes
  {
    forall i {:trigger nodes[i].prev} :: 0 <= i < |nodes| ==> nodes[i].prev == nodes[Before(i, |nodes|)]
  }

  /** Following `next` from any node meets every node once and comes back, and `prev` goes
      the same way round backwards. */
  ghost predicate Ring<T>(nodes: seq<Node<T>>)
    reads nodes
  {
    Distinct(nodes) && Forward(nodes) && Backward(nodes)
  }

  ghost function Data<T>(nodes: seq<Node<T>>): (r: seq<T>)
    reads nodes
    ensures |r| == |nodes| && forall i :: 0 <= i < |r| ==> r[i] == nodes[i].data
  {
    if nodes == [] then [] else Data(nodes[..|nodes| - 1]) + [nodes[|nodes| - 1].data]
  }

  // --- Splicing ---

  function Spliced<T>(list: seq<T>, k: nat, x: T): (r: seq<T>)
    requires k <= |list|
    ensures |r| == |list| + 1 && r[k] == x
  {
    list[..k] + [x] + list[k..]
  }

  function Cut<T>(list: seq<T>, k: nat): (r: seq<T>)
    requires k < |list|
    ensures |r| == |list| - 1
  {
    list[..k] + list[k + 1..]
  }

  /** Where the entries of a list are after a splice, and before a cut. */
  function Moved(i: nat, k: nat): nat { if i < k then i else i + 1 }

  lemma SplicedAt<T>(list: seq<T>, k: nat, x: T, i: nat)
    requires k <= |list| && i < |list|
    ensures Spliced(list, k, x)[Moved(i, k)] == list[i]
  {
  }

  lemma SplicedFrom<T>(list: seq<T>, k: nat, x: T, i: nat)
    requires k <= |list| && i <= |list|
    ensures Spliced(list, k, x)[i] == if i < k then list[i] else if i == k then x else list[i - 1]
  {
  }

  lemma CutAt<T>(list: seq<T>, k: nat, i: nat)
    requires k < |list| && i < |list| - 1
    ensures Cut(list, k)[i] == list[Moved(i, k)]
  {
  }

  /** The places on the two sides of gap `k` in a ring of `n`. */
  function Left(k: nat, n: nat): int { if k == 0 then n - 1 else k - 1 }
  function Right(k: nat, n: nat): nat { if k == n then 0 else k }

  lemma SplicedDistinct<T>(nodes: seq<Node<T>>, k: nat, x: Node<T>)
    requires Distinct(nodes) && x !in nodes && k <= |nodes|
    ensures Distinct(Spliced(nodes, k, x))
  {
    hide Spliced;
    var r := Spliced(nodes, k, x);
    forall i, j {:trigger r[i], r[j]} | 0 <= i < j < |r|
      ensures r[i] != r[j]
    {
      SplicedFrom(nodes, k, x, i);
      SplicedFrom(nodes, k, x, j);
    }
  }

  /** `x` is linked in at gap `k` of what is a ring otherwise. */
  ghost predicate LinkedIn<T>(nodes: seq<Node<T>>, k: nat, x: Node<T>)
    reads nodes, x
  {
    var n := |nodes|;
    && 0 < n && k <= n
    && x.prev == nodes[Left(k, n)] && x.next == nodes[Right(k, n)]
    && nodes[Left(k, n)].next == x && nodes[Right(k, n)].prev == x
    && (forall i {:trigger nodes[i].next} :: 0 <= i < n && i != Left(k, n) ==> nodes[i].next == nodes[After(i, n)])
    && (forall i {:trigger nodes[i].prev} :: 0 <= i < n && i != Right(k, n) ==> nodes[i].prev == nodes[Before(i, n)])
  }

  lemma LinkedForward<T>(nodes: seq<Node<T>>, k: nat, x: Node<T>)
    requires LinkedIn(nodes, k, x)
    ensures Forward(Spliced(nodes, k, x))
  {
    var r, n := Spliced(nodes, k, x), |nodes|;
    forall i {:trigger r[i].next} | 0 <= i < |r|
      ensures r[i].next == r[After(i, |r|)]
    {
      SplicedAt(nodes, k, x, Right(k, n));
      if i != k {
        var j := if i < k then i else i - 1;
        SplicedAt(nodes, k, x, j);
        SplicedAt(nodes, k, x, After(j, n));
        assert j != Left(k, n) ==> nodes[j].next == nodes[After(j, n)];
      }
    }
  }

  lemma LinkedBackward<T>(nodes: seq<Node<T>>, k: nat, x: Node<T>)
    requires LinkedIn(nodes, k, x)
    ensures Backward(Spliced(nodes, k, x))
  {
    var r, n := Spliced(nodes, k, x), |nodes|;
    forall i {:trigger r[i].prev} | 0 <= i < |r|
      ensures r[i].prev == r[Before(i, |r|)]
    {
      SplicedAt(nodes, k, x, Left(k, n));
      if i != k {
        var j := if i < k then i else i - 1;
        SplicedAt(nodes, k, x, j);
        SplicedAt(nodes, k, x, Before(j, n));
        assert j != Right(k, n) ==> nodes[j].prev == nodes[Before(j, n)];
      }
    }
  }

  lemma DataIs<T>(nodes: seq<Node<T>>, d: seq<T>)
    requires |d| == |nodes| && forall i {:trigger nodes[i].data} :: 0 <= i < |nodes| ==> nodes[i].data == d[i]
    ensures Data(nodes) == d
  {
  }

  lemma NoData<T>(nodes: seq<Node<T>>)
    ensures nodes == [] ==> Ring(nodes) && Data(nodes) == []
  {
  }

  lemma SplicedDataAt<T>(nodes: seq<Node<T>>, k: nat, x: Node<T>, i: nat)
    requires k <= |nodes| && i <= |nodes|
    ensures Spliced(nodes, k, x)[i].data == Spliced(Data(nodes), k, x.data)[i]
  {
    hide Data, Spliced;
    SplicedFrom(nodes, k, x, i);
    SplicedFrom(Data(nodes), k, x.data, i);
  }

  lemma SplicedData<T>(nodes: seq<Node<T>>, k: nat, x: Node<T>)
    requires k <= |nodes|
    ensures Data(Spliced(nodes, k, x)) == Spliced(Data(nodes), k, x.data)
  {
    hide Data, Spliced;
    var r := Spliced(nodes, k, x);
    forall i {:trigger r[i].data} | 0 <= i < |r|
      ensures r[i].data == Spliced(Data(nodes), k, x.data)[i]
    {
      SplicedDataAt(nodes, k, x, i);
    }
    DataIs(r, Spliced(Data(nodes), k, x.data));
  }

  lemma SplicedEnds<T>(list: seq<T>, k: nat, x: T)
    requires k <= |list|
    ensures Spliced(list, k, x)[0] == if k == 0 then x else list[0]
    ensures Spliced(list, k, x)[|list|] == if k == |list| then x else list[|list| - 1]
  {
  }

  lemma CutData<T>(nodes: seq<Node<T>>, k: nat)
    requires k < |nodes|
    ensures Data(Cut(nodes, k)) == Cut(Data(nodes), k)
  {
    hide Data;
    forall i | 0 <= i < |nodes| - 1
      ensures Cut(nodes, k)[i].data == Cut(Data(nodes), k)[i]
    {
      CutAt(nodes, k, i);
      CutAt(Data(nodes), k, i);
    }
    hide Cut;
    DataIs(Cut(nodes, k), Cut(Data(nodes), k));
  }

  /** The assignments that link `x` in between neighbours of a ring. */
  method LinkIn<T>(left: Node<T>, right: Node<T>, x: Node<T>, ghost nodes: seq<Node<T>>, ghost k: nat)
    requires Ring(nodes) && 0 < |nodes| && k <= |nodes| && x !in nodes
    requires left == nodes[Left(k, |nodes|)] && right == nodes[Right(k, |nodes|)]
    modifies nodes, x
    ensures Ring(Spliced(nodes, k, x))
    ensures Data(Spliced(nodes, k, x)) == Spliced(old(Data(nodes)), k, old(x.data))
  {
    LinkFields(left, right, x, nodes, k);
    hide Forward, Backward, Distinct, LinkedIn, Data, Spliced;
    SplicedDistinct(nodes, k, x);
    LinkedForward(nodes, k, x);
    LinkedBackward(nodes, k, x);
    SplicedData(nodes, k, x);
  }

  method LinkFields<T>(left: Node<T>, right: Node<T>, x: Node<T>, ghost nodes: seq<Node<T>>, ghost k: nat)
    requires Ring(nodes) && 0 < |nodes| && k <= |nodes| && x !in nodes
    requires left == nodes[Left(k, |nodes|)] && right == nodes[Right(k, |nodes|)]
    modifies nodes, x
    ensures LinkedIn(nodes, k, x) && x.data == old(x.data) && Data(nodes) == old(Data(nodes))
  {
    x.prev := left;
    x.next := right;
    left.next := x;
    right.prev := x;
    DataIs(nodes, old(Data(nodes)));
  }

  /** Node `k` is linked out of what is a ring otherwise. */
  ghost predicate LinkedOut<T>(nodes: seq<Node<T>>, k: nat)
    reads nodes
  {
    var n := |nodes|;
    && 2 <= n && k < n
    && nodes[Before(k, n)].next == nodes[After(k, n)] && nodes[After(k, n)].prev == nodes[Before(k, n)]
    && (forall i {:trigger nodes[i].next} :: 0 <= i < n && i != k && i != Before(k, n) ==> nodes[i].next == nodes[After(i, n)])
    && (forall i {:trigger nodes[i].prev} :: 0 <= i < n && i != k && i != After(k, n) ==> nodes[i].prev == nodes[Before(i, n)])
  }

  /** Where entry `i` of a cut list was. */
  lemma CutFrom<T>(list: seq<T>, k: nat, i: nat)
    requires k < |list| && i < |list| - 1
    ensures Cut(list, k)[i] == list[if i < k then i else i + 1]
  {
  }

  lemma CutDistinct<T>(nodes: seq<Node<T>>, k: nat)
    requires Distinct(nodes) && k < |nodes|
    ensures Distinct(Cut(nodes, k))
  {
    hide Cut;
    var r := Cut(nodes, k);
    forall i, j {:trigger r[i], r[j]} | 0 <= i < j < |r|
      ensures r[i] != r[j]
    {
      CutFrom(nodes, k, i);
      CutFrom(nodes, k, j);
    }
  }

  lemma OutForward<T>(nodes: seq<Node<T>>, k: nat)
    requires LinkedOut(nodes, k)
    ensures Forward(Cut(nodes, k))
  {
    hide Cut;
    var r, n := Cut(nodes, k), |nodes|;
    forall i {:trigger r[i].next} | 0 <= i < |r|
      ensures r[i].next == r[After(i, |r|)]
    {
      CutFrom(nodes, k, i);
      CutFrom(nodes, k, After(i, |r|));
      var j := if i < k then i else i + 1;
      assert j != Before(k, n) ==> nodes[j].next == nodes[After(j, n)];
    }
  }

  lemma OutBackward<T>(nodes: seq<Node<T>>, k: nat)
    requires LinkedOut(nodes, k)
    ensures Backward(Cut(nodes, k))
  {
    hide Cut;
    var r, n := Cut(nodes, k), |nodes|;
    forall i {:trigger r[i].prev} | 0 <= i < |r|
      ensures r[i].prev == r[Before(i, |r|)]
    {
      CutFrom(nodes, k, i);
      CutFrom(nodes, k, Before(i, |r|));
      var j := if i < k then i else i + 1;
      assert j != After(k, n) ==> nodes[j].prev == nodes[Before(j, n)];
    }
  }

  lemma CutEnds<T>(list: seq<T>, k: nat)
    requires k < |list| && 2 <= |list|
    ensures Cut(list, k)[0] == list[if k == 0 then 1 else 0]
    ensures Cut(list, k)[|list| - 2] == list[if k == |list| - 1 then |list| - 2 else |list| - 1]
  {
  }

  /** The assignments that link node `k` out. */
  method LinkOut<T>(left: Node<T>, right: Node<T>, ghost nodes: seq<Node<T>>, ghost k: nat)
    requires Ring(nodes) && 2 <= |nodes| && k < |nodes|
    requires left == nodes[Before(k, |nodes|)] && right == nodes[After(k, |nodes|)]
    modifies nodes
    ensures Ring(Cut(nodes, k)) && Data(Cut(nodes, k)) == Cut(old(Data(nodes)), k)
  {
    OutFields(left, right, nodes, k);
    hide Forward, Backward, Distinct, LinkedOut, Data, Cut;
    CutDistinct(nodes, k);
    OutForward(nodes, k);
    OutBackward(nodes, k);
    CutData(nodes, k);
  }

  method OutFields<T>(left: Node<T>, right: Node<T>, ghost nodes: seq<Node<T>>, ghost k: nat)
    requires Ring(nodes) && 2 <= |nodes| && k < |nodes|
    requires left == nodes[Before(k, |nodes|)] && right == nodes[After(k, |nodes|)]
    modifies nodes
    ensures LinkedOut(nodes, k) && Data(nodes) == old(Data(nodes))
  {
    left.next := right;
    right.prev := left;
    DataIs(nodes, old(Data(nodes)));
  }

  class List<T> {
    var head: Node?<T>
    var tail: Node?<T>
    var length: nat
    ghost var nodes: seq<Node<T>>

    ghost predicate Valid()
      reads this, nodes
    {
      && length == |nodes| && Ring(nodes)
      && head == (if nodes == [] then null else nodes[0])
      && tail == (if nodes == [] then null else nodes[|nodes| - 1])
    }

    ghost function Contents(): seq<T>
      reads this, nodes
    {
      Data(nodes)
    }

    constructor ()
      ensures Valid() && nodes == []
    {
      head, tail, length, nodes := null, null, 0, [];
    }


    /** A node of its own, the ring of a list that was empty. */
    method First(x: Node<T>)
      requires Valid() && nodes == []
      modifies this, x
      ensures Valid() && nodes == [x] && Contents() == [old(x.data)]
    {
      x.next, x.prev := x, x;
      head, tail, length, nodes := x, x, 1, [x];
      DataIs(nodes, [x.data]);
    }

    method PushFront(data: T)
      requires Valid()
      modifies this, nodes
      ensures Valid() && Contents() == [data] + old(Contents())
      ensures fresh(head) && nodes == Spliced(old(nodes), 0, head)
    {
      hide Ring, Data;
      var x := new Node(data);
      if length == 0 {
        First(x);
      } else {
        LinkIn(tail, head, x, nodes, 0);
        SplicedEnds(nodes, 0, x);
        head := x;
        length := length + 1;
        nodes := Spliced(nodes, 0, x);
      }
    }

    method PushBack(data: T)
      requires Valid()
      modifies this, nodes
      ensures Valid() && Contents() == old(Contents()) + [data]
      ensures fresh(tail) && nodes == Spliced(old(nodes), |old(nodes)|, tail)
    {
      hide Ring, Data;
      var x := new Node(data);
      if length == 0 {
        First(x);
      } else {
        LinkIn(tail, head, x, nodes, |nodes|);
        SplicedEnds(nodes, |nodes|, x);
        tail := x;
        length := length + 1;
        nodes := Spliced(nodes, |nodes|, x);
      }
    }

    /** `insert_after` a node of the list. */
    method InsertAfterNode(node: Node<T>, data: T, ghost i: nat) returns (x: Node<T>)
      requires Valid() && i < |nodes| && nodes[i] == node
      modifies this, nodes
      ensures Valid() && fresh(x) && nodes == Spliced(old(nodes), i + 1, x)
      ensures Contents() == Spliced(old(Contents()), i + 1, data)
    {
      hide Ring, Data, Spliced;
      x := new Node(data);
      NextOf(nodes, i);
      SplicedEnds(nodes, i + 1, x);
      LinkIn(node, node.next, x, nodes, i + 1);
      if tail == node {
        tail := x;
      }
      length := length + 1;
      nodes := Spliced(nodes, i + 1, x);
    }

    /** `insert_after`; after no node means at the front. */
    method InsertAfter(node: Node?<T>, data: T, ghost i: nat) returns (x: Node<T>)
      requires Valid() && (node != null ==> i < |nodes| && nodes[i] == node)
      modifies this, nodes
      ensures Valid() && fresh(x) && nodes == Spliced(old(nodes), if node == null then 0 else i + 1, x)
      ensures Contents() == Spliced(old(Contents()), if node == null then 0 else i + 1, data)
    {
      if node == null {
        PushFront(data);
        return head;
      }
      x := InsertAfterNode(node, data, i);
    }

    /** `insert_before`; before no node means at the back.  Before the head, the code
        inserts after the head's predecessor, which is the tail. */
    method InsertBefore(node: Node?<T>, data: T, ghost i: nat) returns (x: Node<T>)
      requires Valid() && (node != null ==> i < |nodes| && nodes[i] == node)
      modifies this, nodes
      ensures Valid() && fresh(x)
      ensures nodes == Spliced(old(nodes), if node == null || i == 0 then |old(nodes)| else i, x)
      ensures Contents() == Spliced(old(Contents()), if node == null || i == 0 then |old(nodes)| else i, data)
    {
      hide Ring, Data;
      if node == null {
        PushedAtEnd(nodes, Contents(), data);
        PushBack(data);
        return tail;
      }
      NextOf(nodes, i);
      x := InsertAfter(node.prev, data, Before(i, |nodes|));
    }

    method PopFront() returns (data: Option<T>)
      requires Valid()
      modifies this, nodes
      ensures Valid()
      ensures data == if old(nodes) == [] then None else Some(old(Contents())[0])
      ensures nodes == old(nodes)[(if old(nodes) == [] then 0 else 1)..]
      ensures Contents() == old(Contents())[(if old(nodes) == [] then 0 else 1)..]
    {
      hide Ring, Data;
      if length == 0 {
        return None;
      }
      data := Some(head.data);
      CutFirst(nodes);
      CutFirst(Contents());
      if length == 1 {
        head, tail, length, nodes := null, null, 0, nodes[1..];
        NoData(nodes);
      } else {
        CutHead();
      }
    }

    /** The head of a list of two or more linked out. */
    method CutHead()
      requires Valid() && 2 <= |nodes|
      modifies this, nodes
      ensures Valid() && nodes == Cut(old(nodes), 0) && Contents() == Cut(old(Contents()), 0)
    {
      hide Ring, Data, Cut;
      NextOf(nodes, 0);
      CutEnds(nodes, 0);
      CutLength(nodes, 0);
      head := head.next;
      LinkOut(tail, head, nodes, 0);
      length := length - 1;
      nodes := Cut(nodes, 0);
    }

    method PopBack() returns (data: Option<T>)
      requires Valid()
      modifies this, nodes
      ensures Valid()
      ensures data == if old(nodes) == [] then None else Some(old(Contents())[|old(nodes)| - 1])
      ensures nodes == old(nodes)[..(if old(nodes) == [] then 0 else |old(nodes)| - 1)]
      ensures Contents() == old(Contents())[..(if old(nodes) == [] then 0 else |old(nodes)| - 1)]
    {
      hide Ring, Data;
      if length == 0 {
        return None;
      }
      data := Some(tail.data);
      ghost var n := |nodes| - 1;
      if length == 1 {
        head, tail := null, null;
      } else {
        NextOf(nodes, n);
        CutEnds(nodes, n);
        tail := tail.prev;
        LinkOut(tail, head, nodes, n);
      }
      CutLast(nodes);
      CutLast(old(Contents()));
      length := length - 1;
      nodes := nodes[..n];
      NoData(nodes);
    }

    /** `remove` of a node of the list. */
    method Remove(node: Node?<T>, ghost i: nat) returns (data: Option<T>)
      requires Valid() && (node != null ==> i < |nodes| && nodes[i] == node)
      modifies this, nodes
      ensures Valid()
      ensures data == if node == null then None else Some(old(Contents())[i])
      ensures nodes == if node == null then old(nodes) else Cut(old(nodes), i)
      ensures Contents() == if node == null then old(Contents()) else Cut(old(Contents()), i)
    {
      hide Ring, Data;
      if node == null || length == 0 {
        return None;
      }
      NextOf(nodes, i);
      if node == head {
        CutFirst(nodes);
        CutFirst(Contents());
        data := PopFront();
        return;
      }
      if node == tail {
        CutLast(nodes);
        CutLast(Contents());
        data := PopBack();
        return;
      }
      CutEnds(nodes, i);
      data := Some(node.data);
      LinkOut(node.prev, node.next, nodes, i);
      length := length - 1;
      nodes := Cut(nodes, i);
    }

    method Clone() returns (clone: List<T>)
      requires Valid()
      ensures clone.Valid() && fresh(clone) && fresh(clone.nodes) && clone.Contents() == Contents()
    {
      hide Ring, Data;
      clone := new List();
      NoData(clone.nodes);
      DataLength(nodes);
      var it := head;
      for i := 0 to length
        invariant clone.Valid() && fresh(clone) && forall k :: 0 <= k < |clone.nodes| ==> fresh(clone.nodes[k])
        invariant it == if i < |nodes| then nodes[i] else head
        invariant clone.Contents() == Contents()[..i]
      {
        NextOf(nodes, i);
        DataNext(nodes, i);
        clone.PushBack(it.data);
        it := it.next;
      }
    }
  }

  lemma DataLength<T>(nodes: seq<Node<T>>)
    ensures |Data(nodes)| == |nodes| && (nodes == [] ==> Data(nodes) == []) && Data(nodes)[..|nodes|] == Data(nodes)
  {
  }

  lemma DataNext<T>(nodes: seq<Node<T>>, i: nat)
    requires i < |nodes|
    ensures |Data(nodes)| == |nodes| && Data(nodes)[..i + 1] == Data(nodes)[..i] + [nodes[i].data]
  {
  }

  lemma PushedAtEnd<T>(nodes: seq<Node<T>>, data: seq<T>, d: T)
    requires |nodes| == |data|
    ensures data + [d] == Spliced(data, |nodes|, d)
  {
  }

  lemma CutLength<T>(list: seq<T>, k: nat)
    requires k < |list|
    ensures |Cut(list, k)| == |list| - 1
  {
  }

  lemma CutFirst<T>(list: seq<T>)
    requires list != []
    ensures Cut(list, 0) == list[1..]
  {
  }

  lemma CutLast<T>(list: seq<T>)
    requires list != []
    ensures Cut(list, |list| - 1) == list[..|list| - 1]
  {
  }

  /** Removing undoes inserting. */
  lemma CutSpliced<T>(list: seq<T>, k: nat, x: T)
    requires k <= |list|
    ensures Cut(Spliced(list, k, x), k) == list
  {
  }

  /** Inserting before node `i` puts the new node right before it exactly if that is not
      the head. */
  lemma InsertBeforeExact<T>(nodes: seq<Node<T>>, i: nat, x: Node<T>)
    requires i < |nodes| && x !in nodes
    ensures Spliced(nodes, if i == 0 then |nodes| else i, x) == Spliced(nodes, i, x) <==> i != 0
  {
    SplicedEnds(nodes, |nodes|, x);
    SplicedEnds(nodes, 0, x);
  }

  lemma NextOf<T>(nodes: seq<Node<T>>, i: nat)
    requires Ring(nodes) && i < |nodes|
    ensures nodes[i].next == nodes[After(i, |nodes|)] && nodes[i].prev == nodes[Before(i, |nodes|)]
    ensures nodes[i] == nodes[|nodes| - 1] <==> i == |nodes| - 1
    ensures nodes[i] == nodes[0] <==> i == 0
  {
  }
}
