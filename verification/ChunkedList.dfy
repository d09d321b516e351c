/** The chunked list of shared/data_struct/chunked_list.c.  Memory never runs out here,
    and lists are not null. */
module ChunkedList {
  import opened Options

  // --- A list as a sequence of chunks ---

  function Flat<T>(chunks: seq<seq<T>>): seq<T> {
    if chunks == [] then [] else Flat(chunks[..|chunks| - 1]) + chunks[|chunks| - 1]
  }

  /** Every chunk holds 1 to `size` elements, except a lone empty one. */
  ghost predicate Filled<T>(chunks: seq<seq<T>>, size: nat) {
    chunks == [[]] || forall i :: 0 <= i < |chunks| ==> 1 <= |chunks[i]| <= size
  }

  /** All chunks are full, except perhaps the last. */
  ghost predicate Tight<T>(chunks: seq<seq<T>>, size: nat) {
    forall i :: 0 <= i < |chunks| - 1 ==> |chunks[i]| == size
  }

  /** `push_back`. */
  function Pushed<T>(chunks: seq<seq<T>>, size: nat, x: T): seq<seq<T>> {
    var n := |chunks| - 1;
    if chunks == [] || |chunks[n]| == size then chunks + [[x]] else chunks[n := chunks[n] + [x]]
  }

  /** `insert_after` chunk `i`. */
  function Inserted<T>(chunks: seq<seq<T>>, i: nat, size: nat, x: T): seq<seq<T>>
    requires i < |chunks|
  {
    if |chunks[i]| < size then chunks[i := chunks[i] + [x]] else chunks[..i + 1] + [[x]] + chunks[i + 1..]
  }

  /** `remove_node` of chunk `i`: its first element, and the chunk with its last one. */
  function Removed<T>(chunks: seq<seq<T>>, i: nat): seq<seq<T>>
    requires i < |chunks| && chunks[i] != []
  {
    if |chunks[i]| == 1 then chunks[..i] + chunks[i + 1..] else chunks[i := chunks[i][1..]]
  }

  lemma {:induction false} FlatConcat<T>(a: seq<seq<T>>, b: seq<seq<T>>)
    ensures Flat(a + b) == Flat(a) + Flat(b)
    decreases |b|
  {
    if b == [] {
      assert a + b == a;
    } else {
      var n := |b| - 1;
      FlatConcat(a, b[..n]);
      assert (a + b)[..|a + b| - 1] == a + b[..n];
    }
  }

  lemma FlatOne<T>(c: seq<T>)
    ensures Flat([c]) == c
  {
    assert [c][..0] == [];
  }

  lemma FlatThree<T>(a: seq<seq<T>>, c: seq<T>, b: seq<seq<T>>)
    ensures Flat(a + [c] + b) == Flat(a) + c + Flat(b)
  {
    FlatOne(c);
    hide Flat;
    FlatConcat(a, [c]);
    FlatConcat(a + [c], b);
  }

  lemma SplitAt<T>(list: seq<T>, i: nat)
    requires i < |list|
    ensures list == list[..i] + [list[i]] + list[i + 1..]
  {
  }

  /** The elements before, in and after chunk `i`. */
  lemma FlatParts<T>(chunks: seq<seq<T>>, i: nat)
    requires i < |chunks|
    ensures Flat(chunks) == Flat(chunks[..i]) + chunks[i] + Flat(chunks[i + 1..])
  {
    hide Flat;
    SplitAt(chunks, i);
    FlatThree(chunks[..i], chunks[i], chunks[i + 1..]);
  }

  lemma FlatReplaced<T>(chunks: seq<seq<T>>, i: nat, c: seq<T>)
    requires i < |chunks|
    ensures Flat(chunks[i := c]) == Flat(chunks[..i]) + c + Flat(chunks[i + 1..])
  {
    hide Flat;
    assert chunks[i := c] == chunks[..i] + [c] + chunks[i + 1..];
    FlatThree(chunks[..i], c, chunks[i + 1..]);
  }

  lemma FlatUpTo<T>(chunks: seq<seq<T>>, i: nat)
    requires i < |chunks|
    ensures Flat(chunks[..i + 1]) == Flat(chunks[..i]) + chunks[i]
  {
    hide Flat;
    assert chunks[..i + 1] == chunks[..i] + [chunks[i]];
    FlatConcat(chunks[..i], [chunks[i]]);
    FlatOne(chunks[i]);
  }

  lemma FlatTwo<T>(chunks: seq<seq<T>>, i: nat)
    requires i < |chunks|
    ensures Flat(chunks) == Flat(chunks[..i + 1]) + Flat(chunks[i + 1..])
    ensures Flat(chunks[..i + 1]) == Flat(chunks[..i]) + chunks[i]
  {
    hide Flat;
    FlatUpTo(chunks, i);
    assert chunks == chunks[..i + 1] + chunks[i + 1..];
    FlatConcat(chunks[..i + 1], chunks[i + 1..]);
  }

  lemma PushedFlat<T>(chunks: seq<seq<T>>, size: nat, x: T)
    ensures Flat(Pushed(chunks, size, x)) == Flat(chunks) + [x]
  {
    var n := |chunks| - 1;
    if chunks == [] || |chunks[n]| == size {
      FlatConcat(chunks, [[x]]);
      FlatOne([x]);
    } else {
      FlatReplaced(chunks, n, chunks[n] + [x]);
      assert chunks[n + 1..] == [];
    }
  }

  /** The new element comes right after the last one of chunk `i`, whether or not it gets
      a chunk of its own. */
  lemma InsertedFlat<T>(chunks: seq<seq<T>>, i: nat, size: nat, x: T)
    requires i < |chunks|
    ensures Flat(Inserted(chunks, i, size, x)) == Flat(chunks[..i + 1]) + [x] + Flat(chunks[i + 1..])
    ensures Flat(chunks) == Flat(chunks[..i + 1]) + Flat(chunks[i + 1..])
  {
    FlatTwo(chunks, i);
    hide Flat;
    if |chunks[i]| < size {
      FlatReplaced(chunks, i, chunks[i] + [x]);
      Assoc(Flat(chunks[..i]), chunks[i], [x]);
    } else {
      FlatThree(chunks[..i + 1], [x], chunks[i + 1..]);
    }
  }

  lemma Assoc<T>(a: seq<T>, b: seq<T>, c: seq<T>)
    ensures a + (b + c) == a + b + c
  {
  }

  /** What goes is the first element of chunk `i`. */
  lemma RemovedFlat<T>(chunks: seq<seq<T>>, i: nat)
    requires i < |chunks| && chunks[i] != []
    ensures Flat(Removed(chunks, i)) == Flat(chunks[..i]) + chunks[i][1..] + Flat(chunks[i + 1..])
    ensures Flat(chunks) == Flat(chunks[..i]) + [chunks[i][0]] + chunks[i][1..] + Flat(chunks[i + 1..])
  {
    hide Flat;
    FlatParts(chunks, i);
    assert chunks[i] == [chunks[i][0]] + chunks[i][1..];
    Assoc(Flat(chunks[..i]), [chunks[i][0]], chunks[i][1..]);
    if |chunks[i]| == 1 {
      FlatConcat(chunks[..i], chunks[i + 1..]);
    } else {
      FlatReplaced(chunks, i, chunks[i][1..]);
    }
  }

  lemma PushedFilled<T>(chunks: seq<seq<T>>, size: nat, x: T)
    requires Filled(chunks, size) && 1 <= size
    ensures Filled(Pushed(chunks, size, x), size)
  {
  }

  lemma InsertedFilled<T>(chunks: seq<seq<T>>, i: nat, size: nat, x: T)
    requires Filled(chunks, size) && 1 <= size && i < |chunks|
    ensures Filled(Inserted(chunks, i, size, x), size)
  {
  }

  lemma RemovedFilled<T>(chunks: seq<seq<T>>, i: nat, size: nat)
    requires Filled(chunks, size) && i < |chunks| && chunks[i] != []
    ensures Filled(Removed(chunks, i), size)
  {
  }

  lemma NoneFlat<T>(chunks: seq<seq<T>>, size: nat)
    requires Filled(chunks, size)
    ensures |Flat(chunks)| == 0 <==> chunks == [] || chunks == [[]]
  {
    if chunks != [] && chunks != [[]] {
      FlatParts(chunks, 0);
    }
  }

  // --- The list in memory ---

  /** `data` are the slots allocated behind the header; the first `count` are in use. */
  class Chunk<T(0)> {
    var count: nat
    var next: Chunk?<T>
    var data: seq<T>

    constructor (size: nat)
      ensures count == 0 && next == null && |data| == size
    {
      var garbage: T := *;
      count, next, data := 0, null, seq(size, _ => garbage);
    }

    ghost predicate Sized(size: nat)
      reads this
    {
      |data| == size && count <= size
    }

    ghost function Items(): seq<T>
      requires count <= |data|
      reads this
    {
      data[..count]
    }

    /** `data[count++] = x`. */
    method Append(x: T)
      requires count < |data|
      modifies `count, `data
      ensures |data| == |old(data)| && count == old(count) + 1 && Items() == old(Items()) + [x]
    {
      data := data[count := x];
      count := count + 1;
    }

    /** The loop that shifts the elements down over the first. */
    method Shift()
      requires 1 <= count <= |data|
      modifies `count, `data
      ensures |data| == |old(data)| && count == old(count) - 1 && Items() == old(Items())[1..]
    {
      for i := 1 to count
        invariant |data| == |old(data)| && count == old(count)
        invariant forall k :: 0 <= k < i - 1 ==> data[k] == old(data)[k + 1]
        invariant forall k :: i - 1 <= k < count ==> data[k] == old(data)[k]
      {
        data := data[i - 1 := data[i]];
      }
      count := count - 1;
    }
  }

  ghost predicate Chain<T(0)>(nodes: seq<Chunk<T>>) {
    forall i, j {:trigger nodes[i], nodes[j]} :: 0 <= i < j < |nodes| ==> nodes[i] != nodes[j]
  }

  /** Every node but number `gap` leads to the next, the last one nowhere. */
  ghost predicate ChainedBut<T(0)>(nodes: seq<Chunk<T>>, gap: int)
    reads nodes
  {
    forall i {:trigger nodes[i].next} ::
      0 <= i < |nodes| && i != gap ==> nodes[i].next == if i + 1 < |nodes| then nodes[i + 1] else null
  }

  lemma ChainSpliced<T(0)>(nodes: seq<Chunk<T>>, i: nat, x: Chunk<T>)
    requires Chain(nodes) && x !in nodes && i < |nodes| && ChainedBut(nodes, i)
    requires nodes[i].next == x && x.next == if i + 1 < |nodes| then nodes[i + 1] else null
    ensures var r := nodes[..i + 1] + [x] + nodes[i + 1..]; Chain(r) && ChainedBut(r, |r|)
  {
    var r := nodes[..i + 1] + [x] + nodes[i + 1..];
    forall k {:trigger r[k].next} | 0 <= k < |r|
      ensures r[k].next == if k + 1 < |r| then r[k + 1] else null
    {
      if k < i {
        assert r[k] == nodes[k] && nodes[k].next == nodes[k + 1];
      } else if k > i + 1 {
        assert r[k] == nodes[k - 1] && nodes[k - 1].next == if k < |nodes| then nodes[k] else null;
      }
    }
  }

  /** The chunks in memory hold what `chunks` says. */
  ghost predicate Hold<T(0)>(nodes: seq<Chunk<T>>, chunks: seq<seq<T>>, size: nat)
    reads nodes
  {
    |chunks| == |nodes| && forall i {:trigger nodes[i]} ::
      0 <= i < |nodes| ==> nodes[i].Sized(size) && nodes[i].Items() == chunks[i]
  }

  lemma HoldSpliced<T(0)>(nodes: seq<Chunk<T>>, chunks: seq<seq<T>>, size: nat, i: nat, x: Chunk<T>, c: seq<T>)
    requires Hold(nodes, chunks, size) && i <= |nodes| && x.Sized(size) && x.Items() == c
    ensures Hold(nodes[..i] + [x] + nodes[i..], chunks[..i] + [c] + chunks[i..], size)
  {
    var r, d := nodes[..i] + [x] + nodes[i..], chunks[..i] + [c] + chunks[i..];
    forall k {:trigger r[k]} | 0 <= k < |r|
      ensures r[k].Sized(size) && r[k].Items() == d[k]
    {
      if k < i {
        assert r[k] == nodes[k];
      } else if k > i {
        assert r[k] == nodes[k - 1];
      }
    }
  }

  lemma ChainAppended<T(0)>(nodes: seq<Chunk<T>>, x: Chunk<T>)
    requires Chain(nodes) && x !in nodes && ChainedBut(nodes, |nodes| - 1) && x.next == null
    requires nodes != [] ==> nodes[|nodes| - 1].next == x
    ensures Chain(nodes + [x]) && ChainedBut(nodes + [x], |nodes| + 1)
  {
    var r := nodes + [x];
    forall k {:trigger r[k].next} | 0 <= k < |r|
      ensures r[k].next == if k + 1 < |r| then r[k + 1] else null
    {
      if k < |nodes| {
        assert r[k] == nodes[k] && (k + 1 < |nodes| ==> nodes[k].next == nodes[k + 1]);
      }
    }
  }

  lemma HoldAppended<T(0)>(nodes: seq<Chunk<T>>, chunks: seq<seq<T>>, size: nat, x: Chunk<T>)
    requires Hold(nodes, chunks, size) && x.Sized(size)
    ensures Hold(nodes + [x], chunks + [x.Items()], size)
  {
    HoldSpliced(nodes, chunks, size, |nodes|, x, x.Items());
    assert nodes[..|nodes|] + [x] + nodes[|nodes|..] == nodes + [x];
    assert chunks[..|nodes|] + [x.Items()] + chunks[|nodes|..] == chunks + [x.Items()];
  }

  lemma ChainCut<T(0)>(nodes: seq<Chunk<T>>, i: nat)
    requires Chain(nodes) && 1 <= i < |nodes| && ChainedBut(nodes, i - 1)
    requires nodes[i - 1].next == if i + 1 < |nodes| then nodes[i + 1] else null
    ensures var r := nodes[..i] + nodes[i + 1..]; Chain(r) && ChainedBut(r, |r|)
  {
    var r := nodes[..i] + nodes[i + 1..];
    forall k {:trigger r[k].next} | 0 <= k < |r|
      ensures r[k].next == if k + 1 < |r| then r[k + 1] else null
    {
      var j := if k < i then k else k + 1;
      assert r[k] == nodes[j];
      assert j != i - 1 ==> nodes[j].next == if j + 1 < |nodes| then nodes[j + 1] else null;
    }
  }

  lemma LastIs<T(0)>(nodes: seq<Chunk<T>>, i: nat)
    requires Chain(nodes) && i < |nodes|
    ensures nodes[i] == nodes[|nodes| - 1] <==> i == |nodes| - 1
  {
  }

  lemma HoldCut<T(0)>(nodes: seq<Chunk<T>>, chunks: seq<seq<T>>, size: nat, i: nat)
    requires Hold(nodes, chunks, size) && i < |nodes|
    ensures Hold(nodes[..i] + nodes[i + 1..], chunks[..i] + chunks[i + 1..], size)
  {
    var r, d := nodes[..i] + nodes[i + 1..], chunks[..i] + chunks[i + 1..];
    forall k {:trigger r[k]} | 0 <= k < |r|
      ensures r[k].Sized(size) && r[k].Items() == d[k]
    {
      assert r[k] == nodes[if k < i then k else k + 1];
    }
  }

  class List<T(0)> {
    const chunkSize: nat
    var length: nat
    var head: Chunk?<T>
    var tail: Chunk?<T>
    ghost var nodes: seq<Chunk<T>>
    ghost var chunks: seq<seq<T>>

    ghost predicate Chained()
      reads this, nodes
    {
      Chain(nodes) && ChainedBut(nodes, |nodes|)
      && head == (if nodes == [] then null else nodes[0])
      && tail == (if nodes == [] then null else nodes[|nodes| - 1])
    }

    ghost predicate Holds()
      reads this, nodes
    {
      Hold(nodes, chunks, chunkSize)
    }

    ghost predicate Linked()
      reads this, nodes
    {
      1 <= chunkSize && Chained() && Holds()
    }

    ghost predicate Valid()
      reads this, nodes
    {
      Linked() && Filled(chunks, chunkSize) && length == |Flat(chunks)|
    }

    ghost function Contents(): seq<T>
      reads this
    {
      Flat(chunks)
    }

    /** `create`. */
    constructor (size: nat)
      requires 1 <= size
      ensures Valid() && chunkSize == size && chunks == [[]] && fresh(nodes)
    {
      var node := new Chunk<T>(size);
      chunkSize, length, head, tail := size, 0, node, node;
      nodes, chunks := [node], [[]];
      new;
      FlatOne<T>([]);
    }

    /** A new empty chunk at the end. */
    method AddChunk()
      requires Linked()
      modifies this, nodes
      ensures Linked() && length == old(length)
      ensures tail != null && fresh(tail) && nodes == old(nodes) + [tail] && chunks == old(chunks) + [[]]
    {
      hide Chain, ChainedBut, Hold;
      EndsAgree();
      var node := new Chunk<T>(chunkSize);
      assert node.Items() == [];
      LinkTail(node);
      if tail == null {
        head := node;
      }
      tail := node;
      nodes, chunks := nodes + [node], chunks + [[]];
    }

    /** The pointer that leads to a chunk at the end. */
    method LinkTail(node: Chunk<T>)
      requires Linked() && node !in nodes && node.Sized(chunkSize) && node.next == null
      modifies nodes
      ensures Chain(nodes + [node]) && ChainedBut(nodes + [node], |nodes| + 1)
      ensures Hold(nodes + [node], chunks + [old(node.Items())], chunkSize)
    {
      if tail != null {
        tail.next := node;
      }
      ChainAppended(nodes, node);
      HoldAppended(nodes, chunks, chunkSize, node);
    }

    /** An element behind the last one of chunk `i`, which has room. */
    method AppendTo(node: Chunk<T>, ghost i: nat, x: T)
      requires Linked() && i < |nodes| && nodes[i] == node && |chunks[i]| < chunkSize
      modifies this, node
      ensures Linked() && nodes == old(nodes) && chunks == old(chunks)[i := old(chunks)[i] + [x]]
      ensures length == old(length) + 1
    {
      node.Append(x);
      length := length + 1;
      chunks := chunks[i := chunks[i] + [x]];
    }

    method PushBack(x: T)
      requires Valid()
      modifies this, nodes
      ensures Valid() && Contents() == old(Contents()) + [x] && chunks == Pushed(old(chunks), chunkSize, x)
      ensures forall i {:trigger nodes[i]} :: 0 <= i < |nodes| ==> fresh(nodes[i]) || (i < |old(nodes)| && nodes[i] == old(nodes)[i])
    {
      hide Chained, Holds, Filled, Flat;
      PushedFlat(chunks, chunkSize, x);
      PushedFilled(chunks, chunkSize, x);
      EndsAgree();
      if tail == null {
        AddChunk();
      }
      EndsAgree();
      if tail.count == chunkSize {
        AddChunk();
      }
      EndsAgree();
      PushedSteps(old(chunks), chunkSize, x);
      AppendTo(tail, |nodes| - 1, x);
    }

    lemma EndsAgree()
      requires Linked()
      ensures |nodes| == |chunks| && (tail == null <==> nodes == []) && (head == null <==> nodes == [])
      ensures nodes != [] ==> tail == nodes[|nodes| - 1] && head == nodes[0]
      ensures nodes != [] ==> tail.Sized(chunkSize) && tail.Items() == chunks[|nodes| - 1]
      ensures nodes != [] ==> head.Sized(chunkSize) && head.Items() == chunks[0]
    {
    }

    lemma NodeAgrees(i: nat)
      requires Linked() && i < |nodes|
      ensures |nodes| == |chunks| && nodes[i].Sized(chunkSize) && nodes[i].Items() == chunks[i]
      ensures nodes[i].next == if i + 1 < |nodes| then nodes[i + 1] else null
      ensures nodes[i] == tail <==> i == |nodes| - 1
      ensures nodes[i] == head <==> i == 0
    {
    }

    /** A chunk of one element behind chunk `i`. */
    method SplitOff(node: Chunk<T>, ghost i: nat, x: T) returns (fresh1: Chunk<T>)
      requires Linked() && i < |nodes| && nodes[i] == node
      modifies this, node
      ensures Linked() && fresh(fresh1) && nodes == old(nodes)[..i + 1] + [fresh1] + old(nodes)[i + 1..]
      ensures chunks == old(chunks)[..i + 1] + [[x]] + old(chunks)[i + 1..] && length == old(length) + 1
    {
      hide Hold, ChainedBut, Chain;
      NodeAgrees(i);
      fresh1 := new Chunk<T>(chunkSize);
      assert fresh1.Items() == [];
      fresh1.Append(x);
      assert fresh1.Items() == [x];
      assert Linked();
      LinkBehind(node, i, fresh1);
      if tail == node {
        tail := fresh1;
      }
      length := length + 1;
      nodes, chunks := nodes[..i + 1] + [fresh1] + nodes[i + 1..], chunks[..i + 1] + [[x]] + chunks[i + 1..];
    }

    method LinkBehind(node: Chunk<T>, ghost i: nat, x: Chunk<T>)
      requires Linked() && i < |nodes| && nodes[i] == node && x !in nodes && x.Sized(chunkSize)
      modifies node, x
      ensures Chain(nodes[..i + 1] + [x] + nodes[i + 1..])
      ensures ChainedBut(nodes[..i + 1] + [x] + nodes[i + 1..], |nodes| + 1)
      ensures Hold(nodes[..i + 1] + [x] + nodes[i + 1..], chunks[..i + 1] + [old(x.Items())] + chunks[i + 1..], chunkSize)
    {
      x.next := node.next;
      node.next := x;
      assert x.Items() == old(x.Items());
      ChainSpliced(nodes, i, x);
      HoldSpliced(nodes, chunks, chunkSize, i + 1, x, x.Items());
    }

    /** `insert_after` a chunk of the list; after none means at the end. */
    method InsertAfter(node: Chunk?<T>, ghost i: nat, x: T) returns (at: Chunk<T>)
      requires Valid() && (node != null ==> i < |nodes| && nodes[i] == node)
      modifies this, nodes
      ensures Valid() && at in nodes
      ensures node == null ==>
        Contents() == old(Contents()) + [x] && chunks == Pushed(old(chunks), chunkSize, x) && at == nodes[|nodes| - 1]
      ensures node != null ==> Contents() == Flat(old(chunks)[..i + 1]) + [x] + Flat(old(chunks)[i + 1..])
      ensures node != null ==> |old(chunks)| == |old(nodes)| && chunks == Inserted(old(chunks), i, chunkSize, x)
      ensures node != null ==>
        if |old(chunks)[i]| < chunkSize then at == node && nodes == old(nodes)
        else fresh(at) && nodes == old(nodes)[..i + 1] + [at] + old(nodes)[i + 1..]
    {
      hide Chained, Holds, Filled, Flat;
      EndsAgree();
      if node == null {
        PushBack(x);
        EndsAgree();
        return tail;
      }
      NodeAgrees(i);
      InsertedFlat(chunks, i, chunkSize, x);
      InsertedFilled(chunks, i, chunkSize, x);
      if node.count < chunkSize {
        AppendTo(node, i, x);
        at := node;
      } else {
        at := SplitOff(node, i, x);
      }
    }

    /** The first element of chunk `i` shifted out. */
    method TakeFirst(node: Chunk<T>, ghost i: nat)
      requires Linked() && i < |nodes| && nodes[i] == node && chunks[i] != [] && length > 0
      modifies this, node
      ensures Linked() && nodes == old(nodes) && chunks == old(chunks)[i := old(chunks)[i][1..]]
      ensures length == old(length) - 1
    {
      node.Shift();
      length := length - 1;
      chunks := chunks[i := chunks[i][1..]];
    }

    method PopFront() returns (x: Option<T>)
      requires Valid()
      modifies this, nodes
      ensures Valid()
      ensures x == if old(Contents()) == [] then None else Some(old(Contents())[0])
      ensures Contents() == if old(Contents()) == [] then [] else old(Contents())[1..]
      ensures old(Contents()) == [] ==> chunks == old(chunks) && nodes == old(nodes)
      ensures old(Contents()) != [] ==>
        && |old(chunks)| == |old(nodes)| > 0 && old(chunks)[0] != [] && chunks == Removed(old(chunks), 0)
        && nodes == old(nodes)[(if |old(chunks)[0]| == 1 then 1 else 0)..]
    {
      hide Chained, Holds, Filled, Flat;
      NoneFlat(chunks, chunkSize);
      EndsAgree();
      if head == null || length == 0 {
        return None;
      }
      FirstChunk(chunks, chunkSize);
      x := Some(head.data[0]);
      assert head.Items()[0] == head.data[0];
      if head.count > 1 {
        TakeFirst(head, 0);
      } else {
        DropHead();
        assert chunks == old(chunks)[..0] + old(chunks)[1..];
      }
    }

    method DropHead()
      requires Linked() && nodes != [] && length > 0
      modifies this
      ensures Linked() && nodes == old(nodes)[1..] && chunks == old(chunks)[1..] && length == old(length) - 1
    {
      head := head.next;
      if head == null {
        tail := null;
      }
      length := length - 1;
      nodes, chunks := nodes[1..], chunks[1..];
    }

    /** A chunk other than the first linked out. */
    method DropAfter(prev: Chunk<T>, node: Chunk<T>, ghost i: nat)
      requires Linked() && 1 <= i < |nodes| && nodes[i] == node && nodes[i - 1] == prev
      modifies this, prev
      ensures Linked() && nodes == old(nodes)[..i] + old(nodes)[i + 1..] && length == old(length)
      ensures chunks == old(chunks)[..i] + old(chunks)[i + 1..]
    {
      hide Chain, ChainedBut, Hold;
      NodeAgrees(i);
      LastIs(nodes, i);
      LinkPast(prev, node, i);
      if tail == node {
        tail := prev;
      }
      nodes, chunks := nodes[..i] + nodes[i + 1..], chunks[..i] + chunks[i + 1..];
    }

    method LinkPast(prev: Chunk<T>, node: Chunk<T>, ghost i: nat)
      requires Linked() && 1 <= i < |nodes| && nodes[i] == node && nodes[i - 1] == prev
      modifies prev
      ensures var r := nodes[..i] + nodes[i + 1..]; Chain(r) && ChainedBut(r, |r|)
      ensures Hold(nodes[..i] + nodes[i + 1..], chunks[..i] + chunks[i + 1..], chunkSize)
    {
      prev.next := node.next;
      ChainCut(nodes, i);
      HoldCut(nodes, chunks, chunkSize, i);
    }

    /** The search for the predecessor of `node`: number `k`, or the last chunk. */
    method FindBefore(node: Chunk<T>) returns (prev: Chunk<T>, ghost k: nat)
      requires Linked() && nodes != []
      ensures k < |nodes| && prev == nodes[k]
      ensures if k + 1 < |nodes| then nodes[k + 1] == node else node !in nodes[1..]
    {
      hide Chain, Hold;
      prev, k := head, 0;
      while prev.next != null && prev.next != node
        invariant k < |nodes| && prev == nodes[k]
        invariant forall j :: 1 <= j <= k ==> nodes[j] != node
        decreases |nodes| - k
      {
        NodeAgrees(k);
        prev := prev.next;
        k := k + 1;
      }
      NodeAgrees(k);
    }

    /** `remove_node`: the first element of that chunk, and the chunk with its last one.
        A chunk that is not in the list is refused. */
    method RemoveNode(node: Chunk?<T>, ghost i: nat) returns (x: Option<T>)
      requires Valid() && (node != null && node in nodes ==> i < |nodes| && nodes[i] == node)
      modifies this, nodes
      ensures Valid()
      ensures node == null || node !in old(nodes) || old(Contents()) == [] ==>
        x.None? && chunks == old(chunks) && nodes == old(nodes)
      ensures node != null && node in old(nodes) && old(Contents()) != [] ==>
        var front, back := Flat(old(chunks)[..i]), Flat(old(chunks)[i + 1..]);
        |old(chunks)| == |old(nodes)| && old(chunks)[i] != [] && x == Some(old(chunks)[i][0])
        && Contents() == front + old(chunks)[i][1..] + back && chunks == Removed(old(chunks), i)
        && nodes == if |old(chunks)[i]| == 1 then old(nodes)[..i] + old(nodes)[i + 1..] else old(nodes)
    {
      hide Chained, Hold, Filled, Flat;
      EndsAgree();
      if node == null || head == null {
        return None;
      }
      if node == head {
        NodeAgrees(i);
        HeadParts(chunks, chunkSize);
        x := PopFront();
        return;
      }
      var prev, k := FindBefore(node);
      NodeAgrees(k);
      if prev.next != node {
        NotBehind(nodes, node);
        return None;
      }
      SamePlace(i, k + 1);
      NodeAgrees(i);
      LaterChunk(chunks, i, chunkSize);
      x := Some(node.data[0]);
      assert node.Items()[0] == node.data[0];
      TakeFirst(node, i);
      NodeAgrees(i);
      if node.count == 0 {
        NodeAgrees(k);
        DropAfter(prev, node, i);
        assert chunks == old(chunks)[..i] + old(chunks)[i + 1..];
      }
    }

    lemma SamePlace(i: nat, j: nat)
      requires Linked() && i < |nodes| && j < |nodes| && nodes[i] == nodes[j]
      ensures i == j
    {
    }

    method Clone() returns (clone: List<T>)
      requires Valid()
      ensures clone.Valid() && fresh(clone) && fresh(clone.nodes) && clone.Contents() == Contents()
      ensures clone.chunkSize == chunkSize && Tight(clone.chunks, chunkSize)
    {
      hide Chained, Hold, Filled, Flat;
      clone := new List(chunkSize);
      FlatOne<T>([]);
      EndsAgree();
      ghost var k := 0;
      var it := head;
      assert chunks[..0] == [];
      NoChunks<T>();
      while it != null
        invariant k <= |nodes| == |chunks| && it == if k < |nodes| then nodes[k] else null
        invariant clone.Valid() && fresh(clone) && fresh(clone.nodes) && clone.Contents() == Flat(chunks[..k])
        invariant clone.chunkSize == chunkSize && Tight(clone.chunks, chunkSize)
        decreases |nodes| - k
      {
        NodeAgrees(k);
        for i := 0 to it.count
          invariant clone.Valid() && fresh(clone) && fresh(clone.nodes)
          invariant clone.chunkSize == chunkSize && Tight(clone.chunks, chunkSize)
          invariant clone.Contents() == Flat(chunks[..k]) + it.data[..i]
        {
          assert it.data[..i + 1] == it.data[..i] + [it.data[i]];
          clone.PushBack(it.data[i]);
        }
        FlatUpTo(chunks, k);
        it := it.next;
        k := k + 1;
      }
      assert chunks[..k] == chunks;
    }
  }

  lemma NoChunks<T>()
    ensures Flat<T>([]) == []
  {
  }

  lemma NotBehind<T(0)>(nodes: seq<Chunk<T>>, node: Chunk<T>)
    requires nodes != [] && nodes[0] != node && node !in nodes[1..]
    ensures node !in nodes
  {
    assert nodes == [nodes[0]] + nodes[1..];
  }

  lemma HeadParts<T>(chunks: seq<seq<T>>, size: nat)
    requires Filled(chunks, size) && chunks != []
    ensures Flat(chunks) != [] ==> chunks[0] != [] && Flat(chunks)[0] == chunks[0][0]
    ensures Flat(chunks) != [] ==> Flat(chunks)[1..] == Flat(chunks[..0]) + chunks[0][1..] + Flat(chunks[1..])
  {
    hide Flat, Filled, Removed;
    if Flat(chunks) != [] {
      FirstChunk(chunks, size);
      RemovedFlat(chunks, 0);
      NoChunks<T>();
      assert chunks[..0] == [];
      FirstOf(chunks[0], Flat(chunks[1..]), Flat(chunks));
    }
  }

  lemma LaterChunk<T>(chunks: seq<seq<T>>, i: nat, size: nat)
    requires Filled(chunks, size) && 1 <= i < |chunks|
    ensures chunks[i] != [] && Flat(chunks) != [] && Filled(Removed(chunks, i), size)
    ensures Flat(Removed(chunks, i)) == Flat(chunks[..i]) + chunks[i][1..] + Flat(chunks[i + 1..])
    ensures |Flat(Removed(chunks, i))| == |Flat(chunks)| - 1
  {
    hide Flat;
    RemovedFlat(chunks, i);
    RemovedFilled(chunks, i, size);
  }

  lemma PushedSteps<T>(chunks: seq<seq<T>>, size: nat, x: T)
    ensures (chunks + [[]])[|chunks| := (chunks + [[]])[|chunks|] + [x]] == chunks + [[x]]
  {
    assert (chunks + [[]])[|chunks|] + [x] == [x];
  }

  lemma FirstChunk<T>(chunks: seq<seq<T>>, size: nat)
    requires Filled(chunks, size) && Flat(chunks) != []
    ensures chunks != [] && chunks[0] != [] && Filled(Removed(chunks, 0), size)
    ensures Flat(chunks)[0] == chunks[0][0] && Flat(Removed(chunks, 0)) == Flat(chunks)[1..]
  {
    hide Flat, Filled, Removed;
    NoneFlat(chunks, size);
    NonemptyFirst(chunks, size);
    NoChunks<T>();
    assert chunks[..0] == [];
    RemovedFlat(chunks, 0);
    RemovedFilled(chunks, 0, size);
    FirstOf(chunks[0], Flat(chunks[1..]), Flat(chunks));
  }

  lemma NonemptyFirst<T>(chunks: seq<seq<T>>, size: nat)
    requires Filled(chunks, size) && chunks != [] && chunks != [[]]
    ensures chunks[0] != []
  {
    assert |chunks| == 1 ==> chunks == [chunks[0]];
  }

  lemma FirstOf<T>(c: seq<T>, rest: seq<T>, flat: seq<T>)
    requires c != [] && flat == [c[0]] + c[1..] + rest
    ensures flat[0] == c[0] && flat[1..] == c[1..] + rest
  {
  }
}
