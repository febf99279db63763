/** The linked list of memory blocks under ByteArray, and the copying loops that walk it. */
module NodeList {
  import opened Words
  import opened FlatMemory

  /** A block of memory, always `size` bytes of it, and the link to the next block. */
  class Node {
    var mem: seq<byte>
    const size: nat
    var next: Node?

    /** new char[s]: the bytes are whatever the allocator left there. */
    constructor (s: nat)
      ensures size == s && |mem| == s && next == null
    {
      assert |seq(s, _ => 0)| == s;
      var leftover: seq<byte> :| |leftover| == s;
      mem := leftover;
      size := s;
      next := null;
    }
  }

  /** The nodes form one acyclic list of equally sized, unshared buffers. */
  ghost predicate Linked(nodes: seq<Node>, base: nat)
    reads nodes
  {
    && base >= 1 && nodes != []
    && Unshared(nodes)
    && (forall i :: 0 <= i < |nodes| ==> nodes[i].size == base && |nodes[i].mem| == base)
    && (forall i {:trigger nodes[i].next} :: 0 <= i < |nodes| ==> nodes[i].next == NodeAt(nodes, i + 1))
  }

  /** No node occurs twice. */
  ghost predicate Unshared(nodes: seq<Node>) {
    nodes == [] ||
    var last := |nodes| - 1;
    && Unshared(nodes[..last])
    && nodes[last] !in nodes[..last]
  }

  lemma LinkedShape(nodes: seq<Node>, base: nat)
    requires Linked(nodes, base)
    ensures base >= 1 && nodes != [] && forall i :: 0 <= i < |nodes| ==> nodes[i].size == base
  {
  }

  lemma LinkedOne(n: Node, base: nat)
    requires base >= 1 && n.size == base == |n.mem| && n.next == null
    ensures Linked([n], base)
  {
    assert Unshared([]);
    assert [n][..0] == [];
  }

  lemma {:induction false} UnsharedPair(nodes: seq<Node>, i: nat, j: nat)
    requires Unshared(nodes) && i < |nodes| && j < |nodes| && i != j
    ensures nodes[i] != nodes[j]
    decreases |nodes|
  {
    var last := |nodes| - 1;
    if i < last && j < last {
      UnsharedPair(nodes[..last], i, j);
    }
  }

  ghost function NodeAt(nodes: seq<Node>, i: nat): Node? {
    if i < |nodes| then nodes[i] else null
  }

  /** The memory of the first k nodes. */
  ghost function Contents(nodes: seq<Node>, k: nat): (bufs: seq<seq<byte>>)
    requires k <= |nodes|
    reads nodes
    ensures |bufs| == k
    ensures forall i :: 0 <= i < k ==> bufs[i] == nodes[i].mem
  {
    if k == 0 then [] else Contents(nodes, k - 1) + [nodes[k - 1].mem]
  }

  /** All bytes of the nodes in order. */
  ghost function Flat(nodes: seq<Node>): seq<byte>
    reads nodes
  {
    Join(Contents(nodes, |nodes|), |nodes|)
  }

  /** memcpy into the memory of node k: the flat sequence changes there and nowhere else. */
  method Store(node: Node, base: nat, off: nat, src: seq<byte>, from: nat, n: nat, ghost nodes: seq<Node>, ghost k: nat)
    requires Linked(nodes, base) && k < |nodes| && node == nodes[k]
    requires off + n <= base && from + n <= |src|
    modifies node`mem
    ensures Linked(nodes, base)
    ensures Offset(base, k) + off + n <= |old(Flat(nodes))|
    ensures Flat(nodes) == Splice(old(Flat(nodes)), Offset(base, k) + off, src[from..from + n])
  {
    ghost var before := Contents(nodes, |nodes|);
    SpliceNode(before, base, k, off, src[from..from + n], |nodes|);
    node.mem := Splice(node.mem, off, src[from..from + n]);
    forall i | 0 <= i < |nodes| && i != k
      ensures nodes[i].mem == before[i]
    {
      UnsharedPair(nodes, i, k);
    }
    assert Contents(nodes, |nodes|) == before[k := node.mem];
  }

  /** memcpy out of the memory of node k: a range of the flat sequence. */
  method Load(node: Node, base: nat, off: nat, n: nat, ghost nodes: seq<Node>, ghost k: nat) returns (s: seq<byte>)
    requires Linked(nodes, base) && k < |nodes| && node == nodes[k] && off + n <= base
    ensures Offset(base, k) + off + n <= |Flat(nodes)|
    ensures s == Flat(nodes)[Offset(base, k) + off..Offset(base, k) + off + n]
  {
    s := node.mem[off..off + n];
    SliceNode(Contents(nodes, |nodes|), base, k, off, n, |nodes|);
  }

  /** node holds position pos of the list; at the end of the last node it is null. */
  ghost predicate Cursor(nodes: seq<Node>, base: nat, node: Node?, pos: nat)
    requires base >= 1
  {
    pos <= Offset(base, |nodes|) && node == NodeAt(nodes, NodeOf(base, pos))
  }

  lemma CursorInList(nodes: seq<Node>, base: nat, node: Node?, pos: nat)
    requires base >= 1 && Cursor(nodes, base, node, pos)
    ensures node == null <==> pos == Offset(base, |nodes|)
    ensures node != null ==> NodeOf(base, pos) < |nodes| && node == nodes[NodeOf(base, pos)]
    ensures Offset(base, NodeOf(base, pos)) <= pos < Offset(base, NodeOf(base, pos)) + base
    ensures pos < Offset(base, |nodes|) ==> Offset(base, NodeOf(base, pos)) + base <= Offset(base, |nodes|)
  {
    OffsetOfNode(base, pos);
    if NodeOf(base, pos) < |nodes| {
      OffsetMono(base, NodeOf(base, pos), |nodes|);
    } else {
      OffsetMono(base, |nodes|, NodeOf(base, pos));
    }
  }

  /** A cursor at the end of the old list becomes one at the first new node. */
  lemma CursorGrows(nodes: seq<Node>, more: seq<Node>, base: nat, node: Node?, pos: nat)
    requires base >= 1 && Cursor(nodes, base, node, pos)
    ensures Cursor(nodes + more, base, if node == null then NodeAt(nodes + more, |nodes|) else node, pos)
  {
    CursorInList(nodes, base, node, pos);
    OffsetMono(base, |nodes|, |nodes + more|);
    if node == null {
      NodeOfOffset(base, |nodes|, 0);
    }
  }

  /** Moving on inside a node, or from its end to the next one. */
  lemma CursorMoves(nodes: seq<Node>, base: nat, node: Node, pos: nat, n: nat)
    requires Linked(nodes, base) && Cursor(nodes, base, node, pos) && n > 0
    requires pos - Offset(base, NodeOf(base, pos)) + n <= base
    ensures pos + n <= Offset(base, |nodes|)
    ensures Cursor(nodes, base, if pos - Offset(base, NodeOf(base, pos)) + n == base then node.next else node, pos + n)
    ensures pos - Offset(base, NodeOf(base, pos)) + n == base ==> pos + n == Offset(base, NodeOf(base, pos + n))
  {
    CursorInList(nodes, base, node, pos);
    var k := NodeOf(base, pos);
    var r := pos - Offset(base, k) + n;
    if r == base {
      NodeOfOffset(base, k + 1, 0);
    } else {
      NodeOfOffset(base, k, r);
    }
  }

  /** Where the copying loop of write stands after `done` bytes: memory f spliced that far, the cursor behind it. */
  ghost predicate Copied(nodes: seq<Node>, base: nat, cur: Node?, f: seq<byte>, pos: nat, buf: seq<byte>, done: nat)
    reads nodes
  {
    && Linked(nodes, base) && |f| == Offset(base, |nodes|) && pos + |buf| <= |f| && done <= |buf|
    && Cursor(nodes, base, cur, pos + done)
    && Flat(nodes) == Splice(f, pos, buf[..done])
  }

  /** One turn of the loop: n bytes into the current node, and on to the next one at its end. */
  method CopyChunk(node: Node, base: nat, off: nat, buf: seq<byte>, done: nat, n: nat,
                   ghost nodes: seq<Node>, ghost f: seq<byte>, ghost pos: nat) returns (cur: Node?)
    requires Copied(nodes, base, node, f, pos, buf, done)
    requires off == pos + done - Offset(base, NodeOf(base, pos + done))
    requires 0 < n && off + n <= base && done + n <= |buf|
    modifies nodes`mem
    ensures Copied(nodes, base, cur, f, pos, buf, done + n)
    ensures off + n == base ==> pos + done + n == Offset(base, NodeOf(base, pos + done + n))
  {
    CursorInList(nodes, base, node, pos + done);
    Store(node, base, off, buf, done, n, nodes, NodeOf(base, pos + done));
    SpliceNext(f, pos, buf, done, n);
    CursorMoves(nodes, base, node, pos + done, n);
    cur := if off + n == base then node.next else node;
  }

  lemma CopiedNothing(nodes: seq<Node>, base: nat, cur: Node?, pos: nat, buf: seq<byte>)
    requires Linked(nodes, base) && Cursor(nodes, base, cur, pos)
    requires pos + |buf| <= Offset(base, |nodes|) == |Flat(nodes)|
    ensures Copied(nodes, base, cur, Flat(nodes), pos, buf, 0)
  {
  }

  /** In front of more bytes to copy the cursor is in a node. */
  lemma CopiedCursor(nodes: seq<Node>, base: nat, cur: Node?, f: seq<byte>, pos: nat, buf: seq<byte>, done: nat)
    requires Copied(nodes, base, cur, f, pos, buf, done) && done < |buf|
    ensures cur != null
    ensures Offset(base, NodeOf(base, pos + done)) <= pos + done < Offset(base, NodeOf(base, pos + done)) + base
  {
    CursorInList(nodes, base, cur, pos + done);
  }

  /** The copying loop of write: from position pos on, into as many nodes as it takes. */
  method CopyIn(buf: seq<byte>, start: Node, base: nat, pos: nat, ghost nodes: seq<Node>) returns (cur: Node?)
    requires Linked(nodes, base) && Cursor(nodes, base, start, pos)
    requires pos + |buf| <= Offset(base, |nodes|) == |Flat(nodes)|
    modifies nodes`mem
    ensures Copied(nodes, base, cur, old(Flat(nodes)), pos, buf, |buf|)
  {
    hide Copied, Cursor, Flat, NodeOf, Offset;
    ghost var f := Flat(nodes);
    CursorInList(nodes, base, start, pos);
    CopiedNothing(nodes, base, start, pos, buf);
    var nodePos := PositionInNode(pos, base);
    var left, nodeCap, bufPos := |buf|, start.size - nodePos, 0;
    cur := start;
    while left > 0
      invariant 0 <= left && left + bufPos == |buf|
      invariant Copied(nodes, base, cur, f, pos, buf, bufPos)
      invariant left > 0 ==> nodePos == pos + bufPos - Offset(base, NodeOf(base, pos + bufPos))
      invariant 0 < nodeCap == base - nodePos
    {
      var n := if left <= nodeCap then left else nodeCap;
      CopiedCursor(nodes, base, cur, f, pos, buf, bufPos);
      assert n < left ==> nodePos + n == base;
      cur := CopyChunk(cur, base, nodePos, buf, bufPos, n, nodes, f, pos);
      left := left - n;
      bufPos := bufPos + n;
      nodePos := 0;
      nodeCap := base;
    }
  }

  lemma FlatLength(nodes: seq<Node>, base: nat)
    requires Linked(nodes, base)
    ensures |Flat(nodes)| == Offset(base, |nodes|)
  {
    JoinLength(Contents(nodes, |nodes|), base, |nodes|);
  }

  /** Links one more node behind the last. */
  method Extend(tail: Node, base: nat, ghost nodes: seq<Node>) returns (n: Node)
    requires Linked(nodes, base) && tail == nodes[|nodes| - 1]
    modifies tail`next
    ensures fresh(n)
    ensures Linked(nodes + [n], base)
  {
    n := new Node(base);
    tail.next := n;
    ghost var more := nodes + [n];
    assert more[..|nodes|] == nodes;
    forall i | 0 <= i < |more|
      ensures more[i].next == NodeAt(more, i + 1)
    {
      if i < |nodes| - 1 {
        UnsharedPair(nodes, i, |nodes| - 1);
      }
    }
  }

  method FindTail(root: Node, ghost nodes: seq<Node>) returns (tmp: Node)
    requires nodes != [] && Linked(nodes, root.size) && root == nodes[0]
    ensures tmp == nodes[|nodes| - 1]
  {
    tmp := root;
    ghost var k := 0;
    while tmp.next != null
      invariant k < |nodes| && tmp == nodes[k]
      decreases |nodes| - k
    {
      tmp := tmp.next;
      k := k + 1;
    }
  }

  /** Links count new nodes behind the tail: the first of them, and the capacity they add. */
  method AppendNodes(tail: Node, base: nat, count: nat, ghost nodes: seq<Node>)
    returns (first: Node?, added: nat, ghost more: seq<Node>)
    requires Linked(nodes, base) && tail == nodes[|nodes| - 1]
    modifies tail`next
    ensures Linked(nodes + more, base) && |more| == count && added == Offset(base, count)
    ensures forall i :: 0 <= i < |more| ==> fresh(more[i])
    ensures first == NodeAt(nodes + more, |nodes|)
  {
    hide Linked, Unshared;
    var tmp := tail;
    var newNodes := count;
    first, added, more := null, 0, [];
    assert nodes + more == nodes;
    LinkedShape(nodes, base);
    while newNodes > 0
      invariant 0 <= newNodes && newNodes + |more| == count && added == Offset(base, |more|)
      invariant Linked(nodes + more, base) && tmp == (nodes + more)[|nodes + more| - 1]
      invariant forall i :: 0 <= i < |more| ==> fresh(more[i])
      invariant first == NodeAt(nodes + more, |nodes|)
    {
      ghost var list := nodes + more;
      tmp := Extend(tmp, base, list);
      assert list + [tmp] == nodes + (more + [tmp]);
      more := more + [tmp];
      if first == null {
        first := tmp;
      }
      newNodes := newNodes - 1;
      added := added + base;
    }
  }

  /** The loop of setPosition: whole nodes are skipped while more than a node is left. */
  method Seek(target: nat, root: Node, base: nat, ghost nodes: seq<Node>) returns (cur: Node?)
    requires Linked(nodes, base) && root == nodes[0] && target <= Offset(base, |nodes|)
    ensures Cursor(nodes, base, cur, target)
  {
    var val: nat := target;
    cur := root;
    ghost var k := 0;
    while val > cur.size
      invariant k < |nodes| && cur == nodes[k] && Offset(base, k) + val == target
      decreases val
    {
      assert k + 1 < |nodes| by {
        assert Offset(base, k + 1) < target;
      }
      val := val - cur.size;
      cur := cur.next;
      k := k + 1;
    }
    if val == cur.size {
      NodeOfOffset(base, k + 1, 0);
      cur := cur.next;
    } else {
      NodeOfOffset(base, k, val);
    }
  }

  /** One turn of read's copying loop: n bytes from the current node, and on to the next one at its end. */
  method LoadChunk(node: Node, base: nat, off: nat, n: nat, ghost nodes: seq<Node>, ghost pos: nat)
    returns (s: seq<byte>, cur: Node?)
    requires Linked(nodes, base) && Cursor(nodes, base, node, pos)
    requires off == pos - Offset(base, NodeOf(base, pos))
    requires 0 < n && off + n <= base
    ensures pos + n <= |Flat(nodes)| && s == Flat(nodes)[pos..pos + n]
    ensures Cursor(nodes, base, cur, pos + n)
    ensures off + n == base ==> pos + n == Offset(base, NodeOf(base, pos + n))
  {
    CursorInList(nodes, base, node, pos);
    s := Load(node, base, off, n, nodes, NodeOf(base, pos));
    CursorMoves(nodes, base, node, pos, n);
    cur := if off + n == base then node.next else node;
  }

  lemma {:induction false} SliceMore<T>(f: seq<T>, a: nat, m: nat, n: nat)
    requires a + m + n <= |f|
    ensures f[a..a + m] + f[a + m..a + m + n] == f[a..a + m + n]
  {
  }

  /**
   * The loop of both reads: n bytes from a position in node `start` on. It runs through the nodes as long as there are
   * any; ok is false if it comes to dereference the null behind the last one.
   */
  method CopyOut(n: nat, start: Node, base: nat, first: nat, ghost nodes: seq<Node>, ghost pos: nat)
    returns (ok: bool, buf: seq<byte>, cur: Node?)
    requires Linked(nodes, base) && Cursor(nodes, base, start, pos) && pos <= Offset(base, |nodes|) == |Flat(nodes)|
    requires first == pos - Offset(base, NodeOf(base, pos))
    ensures ok <==> pos + n <= |Flat(nodes)|
    ensures ok ==> buf == Flat(nodes)[pos..pos + n] && Cursor(nodes, base, cur, pos + n)
  {
    hide Cursor, Flat, NodeOf, Offset, Unshared;
    CursorInList(nodes, base, start, pos);
    var nodePos := first;
    var left, nodeCap := n, start.size - nodePos;
    buf, cur := [], start;
    while left > 0
      invariant 0 <= left && left + |buf| == n && pos + |buf| <= |Flat(nodes)|
      invariant Cursor(nodes, base, cur, pos + |buf|)
      invariant left > 0 ==> nodePos == pos + |buf| - Offset(base, NodeOf(base, pos + |buf|))
      invariant 0 < nodeCap == base - nodePos
      invariant buf == Flat(nodes)[pos..pos + |buf|]
    {
      CursorInList(nodes, base, cur, pos + |buf|);
      if cur == null {
        return false, buf, cur;
      }
      var m := if left <= nodeCap then left else nodeCap;
      var s, next := LoadChunk(cur, base, nodePos, m, nodes, pos + |buf|);
      SliceMore(Flat(nodes), pos, |buf|, m);
      cur := next;
      buf := buf + s;
      left := left - m;
      nodePos := 0;
      nodeCap := base;
    }
    ok := true;
  }

  /** The place of `pos` in its node, taken in the node of `position`. */
  function StartIn(base: nat, position: nat, pos: nat): nat
    requires base >= 1
  {
    OffsetOfNode(base, pos);
    Offset(base, NodeOf(base, position)) + (pos - Offset(base, NodeOf(base, pos)))
  }

  lemma {:induction false} ReadStartInNode(base: nat, position: nat, pos: nat)
    requires base >= 1
    ensures NodeOf(base, StartIn(base, position, pos)) == NodeOf(base, position)
    ensures StartIn(base, position, pos) - Offset(base, NodeOf(base, position))
        == pos - Offset(base, NodeOf(base, pos)) < base
    ensures StartIn(base, position, pos) == pos <==> NodeOf(base, pos) == NodeOf(base, position)
  {
    OffsetOfNode(base, pos);
    OffsetOfNode(base, position);
    NodeOfOffset(base, NodeOf(base, position), pos - Offset(base, NodeOf(base, pos)));
  }

  /** With nodes of 4 bytes and the cursor at 5, reading at 1 reads byte 5. */
  lemma {:induction false} ReadsElsewhere()
    ensures StartIn(4, 5, 1) == 5
  {
    ReadStartInNode(4, 5, 1);
    assert NodeOf(4, 5) == 1 && NodeOf(4, 1) == 0 && Offset(4, 1) == 4;
  }

  /** m_position % m_baseSize */
  method PositionInNode(pos: nat, base: nat) returns (r: nat)
    requires base >= 1
    ensures r == pos - Offset(base, NodeOf(base, pos))
  {
    NodeOfIsQuotient(base, pos);
    r := pos % base;
  }

  /** How many nodes hold m more bytes: the quotient rounded up, and no more than that. */
  method NodesFor(m: nat, d: nat) returns (n: nat)
    requires d > 0 && m > 0
    ensures n >= 1 && Offset(d, n - 1) < m <= Offset(d, n)
  {
    n := m / d + (if m % d != 0 then 1 else 0);
    DivModDef(m, d);
    OffsetIsProduct(d, m / d);
    if m % d == 0 {
      assert m / d != 0;
    }
  }
}
