/** yuan/bytearray.cc: a byte array in a linked list of equally sized nodes, with a cursor. */
module ByteArrays {
  import opened Words
  import opened Codec
  import opened FlatMemory
  import opened NodeList

  /** What reading from the start of a written list gives, by the codec's round trip. */
  lemma WrittenReadsBack(order: ByteOrder, host: ByteOrder, enc: Writer<Item>, dec: Reader<Shape, Item>,
                         d: seq<byte>, start: nat, xs: seq<Item>, data: seq<byte>, room: nat)
    requires IsItemWriter(enc, order, host) && IsItemReader(dec, order, host)
    requires start <= |d| && forall i :: 0 <= i < |xs| ==> xs[i].Valid()
    requires data == Overlay(d, start, EncodeAll(enc, xs)) && |data| <= start + room
    ensures ReadsBack(DecodeAll(dec, Shapes(xs), room, data[start..]), xs, |EncodeAll(enc, xs)|,
                      Readable(enc, xs, room))
  {
    var rest := OverlayFrom(d, start, EncodeAll(enc, xs));
    ListRoundTrip(order, host, enc, dec, xs, room, rest);
  }

  // ---------------------------------------------------------------- position, size and capacity

  datatype Room = Room(position: nat, size: nat, capacity: nat)

  /** The capacity there is if it is enough, and else the least multiple of the base size that is. */
  function CapacityFor(base: nat, capacity: nat, need: nat): (c: nat)
    requires base >= 1
  {
    if need <= capacity then capacity else (need + base - 1) / base * base
  }

  lemma {:induction false} CapacityIsLeast(base: nat, nodes: nat, need: nat, more: nat)
    requires base >= 1 && more >= nodes
    ensures need <= base * nodes ==> CapacityFor(base, base * nodes, need) == base * nodes
    ensures more > nodes && base * more - base < need <= base * more ==>
              CapacityFor(base, base * nodes, need) == base * more
  {
    if more > nodes && base * more - base < need <= base * more {
      MulMono(base, nodes, more - 1);
      MulLess(base, more);
      DivModUnique(need + base - 1, base, more, need + base - 1 - base * more);
      MulCommutes(base, more);
    }
  }

  lemma MulLess(a: int, b: int)
    ensures a * (b - 1) == a * b - a
  {
  }

  lemma MulCommutes(a: int, b: int)
    ensures a * b == b * a
  {
  }

  /** No smaller multiple is enough, and it never shrinks. */
  lemma {:induction false} CapacityBounds(base: nat, capacity: nat, need: nat) returns (m: nat)
    requires base >= 1
    ensures need <= CapacityFor(base, capacity, need) && capacity <= CapacityFor(base, capacity, need)
    ensures need > capacity ==>
              CapacityFor(base, capacity, need) == base * m && base * m - base < need
  {
    m := (need + base - 1) / base;
    DivModDef(need + base - 1, base);
    MulCommutes(base, m);
  }

  lemma {:induction false} GrowTwice(base: nat, capacity: nat, a: nat, b: nat)
    requires base >= 1 && a <= b
    ensures CapacityFor(base, CapacityFor(base, capacity, a), b) == CapacityFor(base, capacity, b)
  {
    if a > capacity {
      var m := CapacityBounds(base, capacity, a);
      if b <= base * m {
        CapacityIsLeast(base, 0, b, m);
        assert CapacityFor(base, base * 0, b) == base * m;
      }
    }
  }

  /** A write of n bytes. */
  function AfterWrite(base: nat, r: Room, n: nat): Room
    requires base >= 1
  {
    if n == 0 then r
    else Room(r.position + n, if r.position + n > r.size then r.position + n else r.size,
              CapacityFor(base, r.capacity, r.size + n))
  }

  lemma WroteSome(base: nat, r: Room, n: nat, position: nat, size: nat, capacity: nat)
    requires base >= 1 && n > 0 && position == r.position + n
    requires size == (if position > r.size then position else r.size)
    requires capacity == CapacityFor(base, r.capacity, r.size + n)
    ensures Room(position, size, capacity) == AfterWrite(base, r, n)
  {
  }

  /** The write or writes of one item. */
  function AfterItem(base: nat, r: Room, x: Item): Room
    requires base >= 1 && x.Valid()
  {
    match x
    case Fuint(w, _) => AfterWrite(base, r, w)
    case Fint(w, _) => AfterWrite(base, r, w)
    case Uint(_, v) => AfterWrite(base, r, |Varint(v)|)
    case Int(b, z) => AfterWrite(base, r, |Varint(Zigzag(b, z))|)
    case Text(p, s) => AfterWrite(base, AfterWrite(base, r, p), |s|)
  }

  function AfterItems(base: nat, r: Room, xs: seq<Item>): Room
    requires base >= 1 && forall i :: 0 <= i < |xs| ==> xs[i].Valid()
  {
    if xs == [] then r else AfterItem(base, AfterItems(base, r, xs[..|xs| - 1]), xs[|xs| - 1])
  }

  lemma {:induction false} AfterItemsMore(base: nat, r: Room, xs: seq<Item>, i: nat)
    requires base >= 1 && i < |xs| && forall j :: 0 <= j < |xs| ==> xs[j].Valid()
    ensures AfterItems(base, r, xs[..i + 1]) == AfterItem(base, AfterItems(base, r, xs[..i]), xs[i])
  {
    assert xs[..i + 1][..i] == xs[..i];
  }

  lemma {:induction false} AfterWriteAtEnd(base: nat, end: nat, capacity: nat, n: nat)
    requires base >= 1 && end <= capacity
    ensures AfterWrite(base, Room(end, end, capacity), n)
         == Room(end + n, end + n, CapacityFor(base, capacity, end + n))
  {
  }

  lemma {:induction false} EncodedSize(order: ByteOrder, host: ByteOrder, x: Item)
    requires x.Valid()
    ensures |Encode(order, host, x)| == match x
                                        case Fuint(w, _) => w
                                        case Fint(w, _) => w
                                        case Uint(_, v) => |Varint(v)|
                                        case Int(b, z) => |Varint(Zigzag(b, z))|
                                        case Text(p, s) => p + |s|
  {
    hide Varint, Zigzag;
  }

  lemma {:induction false} AfterItemAtEnd(base: nat, end: nat, capacity: nat, x: Item, order: ByteOrder,
                                          host: ByteOrder)
    requires base >= 1 && end <= capacity && x.Valid()
    ensures var n := |Encode(order, host, x)|;
            AfterItem(base, Room(end, end, capacity), x)
              == Room(end + n, end + n, CapacityFor(base, capacity, end + n))
  {
    hide AfterWrite, CapacityFor, Encode, Varint, Zigzag;
    EncodedSize(order, host, x);
    match x
    case Text(p, s) =>
      AfterWriteAtEnd(base, end, capacity, p);
      var m := CapacityBounds(base, capacity, end + p);
      AfterWriteAtEnd(base, end + p, CapacityFor(base, capacity, end + p), |s|);
      GrowTwice(base, capacity, end + p, end + p + |s|);
    case _ => AfterWriteAtEnd(base, end, capacity, |Encode(order, host, x)|);
  }

  /** Appending a list leaves the capacity there was, or the least number of whole nodes that holds everything. */
  lemma {:induction false} AfterAppending(base: nat, end: nat, capacity: nat, xs: seq<Item>, enc: Writer<Item>,
                                          order: ByteOrder, host: ByteOrder)
    requires base >= 1 && end <= capacity && IsItemWriter(enc, order, host)
    requires forall i :: 0 <= i < |xs| ==> xs[i].Valid()
    ensures var n := |EncodeAll(enc, xs)|;
            AfterItems(base, Room(end, end, capacity), xs)
              == Room(end + n, end + n, CapacityFor(base, capacity, end + n))
    decreases |xs|
  {
    hide AfterItem, CapacityFor, EncodeAll;
    if xs == [] {
      NothingAppended(base, end, capacity, enc);
    } else {
      var front, last := xs[..|xs| - 1], xs[|xs| - 1];
      var n := |EncodeAll(enc, front)|;
      AfterAppending(base, end, capacity, front, enc, order, host);
      assert xs == front + [last];
      EncodeAllLast(enc, front, last);
      var m := CapacityBounds(base, capacity, end + n);
      AfterItemAtEnd(base, end + n, CapacityFor(base, capacity, end + n), last, order, host);
      GrowTwice(base, capacity, end + n, end + n + |enc(last)|);
      assert enc(last) == Encode(order, host, last);
    }
  }

  lemma NothingAppended(base: nat, end: nat, capacity: nat, enc: Writer<Item>)
    requires base >= 1 && end <= capacity
    ensures |EncodeAll(enc, [])| == 0 && CapacityFor(base, capacity, end) == capacity
  {
  }

  class ByteArray {
    const baseSize: nat
    const host: ByteOrder
    var position: nat
    var size: nat
    var capacity: nat
    var endian: ByteOrder
    var root: Node
    var cur: Node?
    ghost var nodes: seq<Node> // the linked list from root on

    ghost predicate Valid()
      reads this, nodes
    {
      && Linked(nodes, baseSize) && nodes[0] == root
      && capacity == Offset(baseSize, |nodes|)
      && position <= size <= capacity
      && Cursor(nodes, baseSize, cur, position)
    }

    function RoomNow(): Room
      reads this
    {
      Room(position, size, capacity)
    }

    /** The bytes written so far: the flat byte array this object stands for. */
    ghost function Data(): (s: seq<byte>)
      requires Valid()
      reads this, nodes
      ensures |s| == size
    {
      JoinLength(Contents(nodes, |nodes|), baseSize, |nodes|);
      Flat(nodes)[..size]
    }

    /** The cursor is null exactly at the end of the last node, and else the node numbered position / baseSize. */
    lemma CursorIsQuotient()
      requires Valid()
      ensures capacity == baseSize * |nodes|
      ensures cur == null <==> position == capacity
      ensures cur != null ==> cur == NodeAt(nodes, position / baseSize)
    {
      OffsetIsProduct(baseSize, |nodes|);
      CursorInList(nodes, baseSize, cur, position);
      NodeOfIsQuotient(baseSize, position);
    }

    lemma Bounds()
      requires Valid()
      ensures baseSize >= 1 && position <= size <= capacity
    {
    }

    /** The list only grew, by nodes that did not exist before. */
    twostate predicate Grew()
      reads this
    {
      && old(nodes) <= nodes && root == old(root) && endian == old(endian)
      && forall i :: |old(nodes)| <= i < |nodes| ==> fresh(nodes[i])
    }

    /** Same first node, and no node taken from elsewhere. */
    twostate predicate Kept()
      reads this
    {
      && root == old(root) && endian == old(endian)
      && forall i :: 0 <= i < |nodes| ==> nodes[i] in old(nodes) || fresh(nodes[i])
    }

    constructor (base: nat, host: ByteOrder)
      requires base >= 1
      ensures Valid() && baseSize == base && this.host == host && endian == BigEndian
      ensures position == 0 && Data() == [] && capacity == base
      ensures forall n <- nodes :: fresh(n)
    {
      baseSize := base;
      this.host := host;
      position := 0;
      size := 0;
      capacity := base;
      endian := BigEndian;
      var n := new Node(base);
      root := n;
      cur := n;
      nodes := [n];
      new;
      LinkedOne(n, base);
    }

    lemma CapacityOfNodes(have: nat, more: nat, need: nat)
      requires baseSize >= 1 && more >= 1
      requires Offset(baseSize, have) + Offset(baseSize, more - 1) < need
      requires need <= Offset(baseSize, have) + Offset(baseSize, more)
      ensures CapacityFor(baseSize, Offset(baseSize, have), need) == Offset(baseSize, have + more)
    {
      OffsetAdd(baseSize, have, more);
      OffsetIsProduct(baseSize, have);
      OffsetIsProduct(baseSize, have + more);
      CapacityIsLeast(baseSize, have, need, have + more);
    }

    method AddCapacity(value: nat)
      requires Valid()
      modifies this`capacity, this`cur, this`nodes, nodes`next
      ensures Valid() && Grew()
      ensures capacity >= size + value && capacity >= old(capacity)
      ensures capacity == CapacityFor(baseSize, old(capacity), size + value)
      ensures value > 0 ==> cur != null
    {
      hide Linked, Cursor;
      if value == 0 {
        return;
      }
      LinkedShape(nodes, baseSize);
      if value <= capacity - size {
        CursorInList(nodes, baseSize, cur, position);
        return;
      }
      var missing := value - (capacity - size);
      var newNodes := NodesFor(missing, baseSize);
      var tail := FindTail(root, nodes);
      var firstNew, added, more := AppendNodes(tail, baseSize, newNodes, nodes);
      CursorGrows(nodes, more, baseSize, cur, position);
      OffsetAdd(baseSize, |nodes|, |more|);
      CapacityOfNodes(|nodes|, newNodes, size + value);
      nodes := nodes + more;
      capacity := capacity + added;
      if cur == null {
        cur := firstNew;
      }
    }

    /** Appending nodes keeps the bytes there were. */
    twostate lemma FlatKept()
      requires old(Valid()) && Grew()
      requires forall i :: 0 <= i < |old(nodes)| ==> old(nodes)[i].mem == old(nodes[i].mem)
      ensures |old(Flat(nodes))| == Offset(baseSize, |old(nodes)|)
      ensures old(Flat(nodes)) <= Flat(nodes)
    {
      ghost var before, after := old(Contents(nodes, |nodes|)), Contents(nodes, |nodes|);
      JoinLength(before, baseSize, |before|);
      forall i | 0 <= i < |before|
        ensures before[i] == after[i]
      {
        assert old(nodes)[i].mem == old(nodes[i].mem);
      }
      JoinPrefix(before, after, |before|, |after|);
    }

    /** addCapacity as write needs it: the cursor is usable and the bytes are still there. */
    method MakeRoom(value: nat)
      requires Valid() && value > 0
      modifies this`capacity, this`cur, this`nodes, nodes`next
      ensures Valid() && Grew() && cur != null
      ensures size + value <= capacity && capacity >= old(capacity) == |old(Flat(nodes))|
      ensures capacity == CapacityFor(baseSize, old(capacity), size + value)
      ensures old(Flat(nodes)) <= Flat(nodes) && |Flat(nodes)| == capacity
    {
      AddCapacity(value);
      FlatKept();
      FlatLength(nodes, baseSize);
    }

    /** write once there is room: only memory and the cursor change. */
    method WriteInPlace(buf: seq<byte>)
      requires Valid() && cur != null && position + |buf| <= capacity == |Flat(nodes)|
      modifies this`position, this`size, this`cur, nodes`mem
      ensures Valid()
      ensures position == old(position) + |buf| && size == if position > old(size) then position else old(size)
      ensures Flat(nodes) == Splice(old(Flat(nodes)), old(position), buf)
    {
      var pos := position;
      position := pos + |buf|;
      if position > size {
        size := position;
      }
      cur := CopyIn(buf, cur, baseSize, pos, nodes);
      assert buf[..|buf|] == buf;
    }

    /** With flat array d and the cursor at pos to begin with, exactly e has been written. */
    ghost predicate Holds(d: seq<byte>, pos: nat, e: seq<byte>)
      reads this, nodes
    {
      && Valid() && pos <= |d|
      && position == pos + |e|
      && Data() == Overlay(d, pos, e)
    }

    /** Outcome of a writer: its bytes overwrite the flat array at the cursor, which moves behind them. */
    twostate predicate Wrote(e: seq<byte>)
      reads this, nodes
    {
      old(Valid()) && Holds(old(Data()), old(position), e) && Kept() && capacity >= old(capacity)
    }

    /** write of at least one byte, on the memory of the nodes. */
    method WriteNodes(buf: seq<byte>) returns (ghost roomy: seq<byte>)
      requires Valid() && buf != []
      modifies this, nodes
      ensures Valid() && Kept() && RoomNow() == AfterWrite(baseSize, old(RoomNow()), |buf|)
      ensures old(position) + |buf| <= |roomy| == capacity == |Flat(nodes)| && old(Flat(nodes)) <= roomy
      ensures |old(Flat(nodes))| == old(capacity) && Flat(nodes) == Splice(roomy, old(position), buf)
    {
      hide Linked, Cursor, CapacityFor, AfterWrite, Offset, Splice;
      Bounds();
      ghost var before := RoomNow();
      MakeRoom(|buf|);
      roomy := Flat(nodes);
      WriteInPlace(buf);
      FlatLength(nodes, baseSize);
      WroteSome(baseSize, before, |buf|, position, size, capacity);
    }

    method Write(buf: seq<byte>)
      requires Valid()
      modifies this, nodes
      ensures Wrote(buf)
      ensures RoomNow() == AfterWrite(baseSize, old(RoomNow()), |buf|)
      ensures old(capacity) == |old(Flat(nodes))| && capacity == |Flat(nodes)|
      ensures size < old(capacity) ==> Flat(nodes)[size..old(capacity)] == old(Flat(nodes))[size..]
    {
      hide Linked, Cursor, CapacityFor, Offset, Splice;
      FlatLength(nodes, baseSize);
      if |buf| == 0 {
        return;
      }
      ghost var roomy := WriteNodes(buf);
      OverlayOfSplice(old(Flat(nodes)), roomy, old(size), old(position), buf, size);
      if size < old(capacity) {
        SpliceKeepsRest(old(Flat(nodes)), roomy, old(position), buf, size);
      }
    }

    /** Outcome of a reader: the cursor moved over n bytes and nothing else changed. */
    twostate predicate Advanced(n: nat)
      reads this, nodes
    {
      old(Valid()) && Valid() && position == old(position) + n && Data() == old(Data())
    }

    /**
     * read: the next n bytes and past them, unless there are not that many (thrown as out_of_range)
     * or the cursor it dereferences is null.
     */
    method Read(n: nat) returns (r: Decoded<seq<byte>>)
      requires Valid()
      modifies this`position, this`cur
      ensures Advanced(r.used)
      ensures r == DecodeRaw(n, capacity - old(position), Data()[old(position)..])
    {
      if n > size - position {
        return OutOfRange(0);
      }
      CursorInList(nodes, baseSize, cur, position);
      if cur == null {
        return NullCursor(0);
      }
      FlatLength(nodes, baseSize);
      var nodePos := PositionInNode(position, baseSize);
      var ok, buf, next := CopyOut(n, cur, baseSize, nodePos, nodes, position);
      DataSlice(position, n);
      cur := next;
      position := position + n;
      r := Got(buf, n);
    }

    lemma DataSlice(pos: nat, n: nat)
      requires Valid() && pos + n <= size
      ensures |Flat(nodes)| == capacity
      ensures Data()[pos..][..n] == Flat(nodes)[pos..pos + n]
    {
      FlatLength(nodes, baseSize);
    }

    /**
     * read at a position, without moving the cursor. Whatever the position, it starts in the current node, at the
     * position's place in its own node; and it dereferences null if there is no current node or it runs past the last
     * one. So it reads the bytes at the position if and only if that is in the current node, or they happen to agree.
     * The number of readable bytes is a size_t, and wraps around behind the size.
     */
    method ReadAt(n: nat, pos: nat) returns (r: Decoded<seq<byte>>)
      requires Valid()
      ensures capacity == |Flat(nodes)|
      ensures r == if n > ReadSizeAt(pos) then OutOfRange(0)
                   else if position == capacity || ReadStart(pos) + n > capacity then NullCursor(0)
                   else Got(Flat(nodes)[ReadStart(pos)..ReadStart(pos) + n], n)
      ensures ReadStart(pos) == pos <==> NodeOf(baseSize, pos) == NodeOf(baseSize, position)
      ensures pos <= size && position < capacity && ReadStart(pos) == pos ==>
                r == DecodeRaw(n, capacity - pos, Data()[pos..])
    {
      FlatLength(nodes, baseSize);
      CursorInList(nodes, baseSize, cur, position);
      ReadStartInNode(baseSize, position, pos);
      if n > ReadSizeAt(pos) {
        return OutOfRange(0);
      }
      if cur == null {
        return NullCursor(0);
      }
      var nodePos := PositionInNode(pos, baseSize);
      var ok, buf, next := CopyOut(n, cur, baseSize, nodePos, nodes, ReadStart(pos));
      if !ok {
        return NullCursor(0);
      }
      if pos <= size && n <= size - pos {
        DataSlice(pos, n);
      }
      r := Got(buf, n);
    }

    /** m_size - position, which wraps around as a size_t. */
    function ReadSizeAt(pos: nat): nat
      reads this
    {
      if pos <= size then size - pos else (size - pos) % U64
    }

    /** Behind the size it is almost 2^64. */
    lemma ReadSizeWraps(pos: nat)
      ensures pos <= size ==> pos + ReadSizeAt(pos) == size
      ensures size < pos < U64 ==> pos + ReadSizeAt(pos) == size + U64
    {
    }

    /** Where a read at this position starts. */
    ghost function ReadStart(pos: nat): nat
      requires baseSize >= 1
      reads this
    {
      StartIn(baseSize, position, pos)
    }

    /** All bytes from the cursor to the end; nothing moves. */
    method ToString() returns (s: seq<byte>)
      requires Valid()
      ensures s == Data()[position..]
    {
      if size - position == 0 {
        return [];
      }
      CursorInList(nodes, baseSize, cur, position);
      var r := ReadAt(size - position, position);
      s := r.value;
    }

    /** setPosition: false stands for the exception, which leaves everything as it was. */
    method SetPosition(val: nat) returns (ok: bool)
      requires Valid()
      modifies this`position, this`size, this`cur
      ensures Valid() && ok == (val <= capacity)
      ensures ok ==> position == val && size == (if val > old(size) then val else old(size))
      ensures !ok ==> position == old(position) && size == old(size) && cur == old(cur)
      ensures old(Data()) <= Data()
    {
      FlatLength(nodes, baseSize);
      if val > capacity {
        return false;
      }
      if val > size {
        size := val;
      }
      position := val;
      cur := Seek(val, root, baseSize, nodes);
      ok := true;
    }

    /** clear: back to the first node, whose memory is kept; the other nodes are freed. */
    method Clear()
      requires Valid()
      modifies this`position, this`size, this`capacity, this`cur, this`nodes, root`next
      ensures Valid() && position == 0 && Data() == [] && capacity == baseSize
      ensures nodes == [root] && root.mem == old(root.mem)
    {
      position, size, capacity := 0, 0, baseSize;
      cur := root.next;
      ghost var k := 1;
      while cur != null
        invariant 1 <= k <= |nodes| && cur == NodeAt(nodes, k)
        modifies this`cur
        decreases |nodes| - k
      {
        cur := cur.next;
        k := k + 1;
      }
      cur := root;
      root.next := null;
      nodes := [root];
      LinkedOne(root, baseSize);
    }

    // ---------------------------------------------------------------- typed writers

    /** setIsLittleEndian: what is there keeps its bytes; Codec.FixedInOtherOrder is what reading makes of them. */
    method SetIsLittleEndian(little: bool)
      requires Valid()
      modifies this`endian
      ensures Valid() && Data() == old(Data()) && position == old(position)
      ensures endian == if little then LittleEndian else BigEndian
    {
      endian := if little then LittleEndian else BigEndian;
    }

    method WriteFuint(w: nat, u: nat)
      requires Valid() && IsWidth(w) && u < Pow256(w)
      modifies this, nodes
      ensures Wrote(EncodeFixed(endian, host, w, u))
      ensures RoomNow() == AfterWrite(baseSize, old(RoomNow()), w)
    {
      var value := u;
      if endian != host && w > 1 {
        value := ByteSwap(value, w);
      }
      Write(Native(host, value, w));
    }

    method WriteFint(w: nat, i: int)
      requires Valid() && IsWidth(w) && SignedRange(8 * w, i)
      modifies this, nodes
      ensures Wrote(EncodeFixed(endian, host, w, ToUnsigned(8 * w, i)))
      ensures RoomNow() == AfterWrite(baseSize, old(RoomNow()), w)
    {
      Pow256IsPow2(w);
      WriteFuint(w, ToUnsigned(8 * w, i));
    }

    method WriteUint(bits: nat, v: nat)
      requires Valid() && (bits == 32 || bits == 64) && v < Pow2(bits)
      modifies this, nodes
      ensures Wrote(Varint(v))
      ensures RoomNow() == AfterWrite(baseSize, old(RoomNow()), |Varint(v)|)
    {
      hide Varint, Overlay, Linked, Cursor, Flat;
      var s := VarintBytes(bits, v);
      Write(s);
    }

    method WriteInt(bits: nat, z: int)
      requires Valid() && (bits == 32 || bits == 64) && SignedRange(bits, z)
      modifies this, nodes
      ensures Wrote(Varint(Zigzag(bits, z)))
      ensures RoomNow() == AfterWrite(baseSize, old(RoomNow()), |Varint(Zigzag(bits, z))|)
    {
      WriteUint(bits, Zigzag(bits, z));
    }

    /** More bytes behind those written so far. */
    method WriteBehind(buf: seq<byte>, ghost d: seq<byte>, ghost pos: nat, ghost e: seq<byte>)
      requires Holds(d, pos, e)
      modifies this, nodes
      ensures Holds(d, pos, e + buf) && Kept() && capacity >= old(capacity)
      ensures RoomNow() == AfterWrite(baseSize, old(RoomNow()), |buf|)
    {
      hide Valid, Data, Overlay;
      Write(buf);
      OverlayTwice(d, pos, e, buf);
    }

    method WriteText(prefix: nat, s: seq<byte>)
      requires Valid() && (prefix == 2 || prefix == 4 || prefix == 8)
      modifies this, nodes
      ensures Wrote(EncodeText(endian, host, prefix, s))
      ensures RoomNow() == AfterWrite(baseSize, AfterWrite(baseSize, old(RoomNow()), prefix), |s|)
    {
      hide Valid, Data, Overlay, EncodeFixed, Truncated;
      ghost var data, pos := Data(), position;
      ghost var e := EncodeFixed(endian, host, prefix, Truncated(|s|, prefix));
      WriteFuint(prefix, Truncated(|s|, prefix));
      WriteBehind(s, data, pos, e);
    }

    method WriteItem(x: Item)
      requires Valid() && x.Valid()
      modifies this, nodes
      ensures Wrote(Encode(endian, host, x))
      ensures RoomNow() == AfterItem(baseSize, old(RoomNow()), x)
    {
      match x
      case Fuint(w, u) => WriteFuint(w, u);
      case Fint(w, i) => WriteFint(w, i);
      case Uint(b, v) => WriteUint(b, v);
      case Int(b, z) => WriteInt(b, z);
      case Text(p, s) => WriteText(p, s);
    }

    /** One more item behind the first i. */
    method WriteNext(xs: seq<Item>, i: nat, ghost enc: Writer<Item>, ghost d: seq<byte>, ghost pos: nat)
      requires IsItemWriter(enc, endian, host)
      requires i < |xs| && xs[i].Valid() && Holds(d, pos, EncodeAll(enc, xs[..i]))
      modifies this, nodes
      ensures Holds(d, pos, EncodeAll(enc, xs[..i + 1]))
      ensures Kept() && capacity >= old(capacity)
      ensures RoomNow() == AfterItem(baseSize, old(RoomNow()), xs[i])
    {
      hide Valid, Data, Overlay, EncodeAll, Encode;
      OverlayTwice(d, pos, EncodeAll(enc, xs[..i]), enc(xs[i]));
      EncodeAllNext(enc, xs, i);
      WriteItem(xs[i]);
    }

    lemma HoldsNothing(xs: seq<Item>, enc: Writer<Item>)
      requires Valid()
      ensures Holds(Data(), position, EncodeAll(enc, xs[..0]))
    {
    }

    method WriteAll(xs: seq<Item>, ghost enc: Writer<Item>)
      requires Valid() && IsItemWriter(enc, endian, host) && forall i :: 0 <= i < |xs| ==> xs[i].Valid()
      modifies this, nodes
      ensures Wrote(EncodeAll(enc, xs))
      ensures RoomNow() == AfterItems(baseSize, old(RoomNow()), xs)
    {
      hide Valid, Data, Overlay, EncodeAll;
      ghost var d, pos := Data(), position;
      Bounds();
      HoldsNothing(xs, enc);
      for i := 0 to |xs|
        invariant Holds(d, pos, EncodeAll(enc, xs[..i]))
        invariant Kept() && capacity >= old(capacity)
        invariant RoomNow() == AfterItems(baseSize, old(RoomNow()), xs[..i])
      {
        AfterItemsMore(baseSize, old(RoomNow()), xs, i);
        WriteNext(xs, i, enc, d, pos);
      }
      assert xs[..|xs|] == xs;
    }

    // ---------------------------------------------------------------- typed readers

    method ReadFuint(w: nat) returns (r: Decoded<nat>)
      requires Valid() && w > 0
      modifies this`position, this`cur
      ensures Advanced(r.used)
      ensures r == DecodeFixed(endian, host, w, Data()[old(position)..])
    {
      var d := Read(w);
      if d.OutOfRange? {
        return OutOfRange(0);
      }
      var value := FromNative(host, d.value);
      if endian != host && w > 1 {
        value := ByteSwap(value, w);
      }
      r := Got(value, w);
    }

    method ReadFint(w: nat) returns (r: Decoded<int>)
      requires Valid() && IsWidth(w)
      modifies this`position, this`cur
      ensures Advanced(r.used)
      ensures r == DecodeFint(endian, host, w, Data()[old(position)..])
    {
      var d := ReadFuint(w);
      Pow256IsPow2(w);
      if d.Got? {
        r := Got(ToSigned(8 * w, d.value), d.used);
      } else {
        r := OutOfRange(d.used);
      }
    }

    /** readFuint8. */
    method ReadByte() returns (r: Decoded<byte>)
      requires Valid()
      modifies this`position, this`cur
      ensures Advanced(r.used)
      ensures r == if old(position) == size then OutOfRange(0) else Got(Data()[old(position)], 1)
    {
      var d := ReadFuint(1);
      FixedByte(endian, host, Data()[old(position)..]);
      r := if d.Got? then Got(d.value, 1) else OutOfRange(0);
    }

    /** One turn of readUint's loop, n bytes after its start: either the outcome or the bits so far. */
    method ReadSeven(bits: nat, i: nat, sum: nat, n: nat, ghost data: seq<byte>)
      returns (done: bool, sum': nat, r: Decoded<nat>)
      requires Valid() && Data() == data && i < bits && sum < Pow2(i)
      modifies this`position, this`cur
      ensures Valid() && Data() == data
      ensures position + n == old(position) + if done then r.used else n + 1
      ensures done ==> r == Accumulate(DecodeVarint(bits, i, data[old(position)..]), sum, n)
      ensures !done ==> sum' < Pow2(i + 7)
      ensures !done ==> Accumulate(DecodeVarint(bits, i, data[old(position)..]), sum, n)
                        == Accumulate(DecodeVarint(bits, i + 7, data[position..]), sum', n + 1)
    {
      var tmp := ReadByte();
      if tmp.Got? {
        done, sum' := OrSeven(bits, i, sum, n, tmp.value, data, position - 1);
        r := Got(sum', n + 1);
      } else {
        NothingToRead(bits, i, sum, n, data, position);
        done, sum', r := true, 0, OutOfRange(n);
      }
    }

    /** readUint32/64: the bytes before an exception stay consumed. */
    method ReadUint(bits: nat) returns (r: Decoded<nat>)
      requires Valid() && bits > 0
      modifies this`position, this`cur
      ensures Advanced(r.used)
      ensures r == DecodeVarint(bits, 0, Data()[old(position)..])
    {
      hide Valid, Data, DecodeVarint;
      var result, i, n := 0, 0, 0;
      ghost var data, start := Data(), position;
      Bounds();
      while i < bits
        invariant 0 <= i && 0 <= n && 0 <= result < Pow2(i)
        invariant Valid() && Data() == data && position == start + n <= |data|
        invariant DecodeVarint(bits, 0, data[start..]) == Accumulate(DecodeVarint(bits, i, data[position..]), result, n)
        modifies this`position, this`cur
        decreases bits - i
      {
        var done, sum, last := ReadSeven(bits, i, result, n, data);
        Bounds();
        if done {
          return last;
        }
        result, i, n := sum, i + 7, n + 1;
      }
      DecodeEnds(bits, i, data[position..]);
      r := Got(result, n);
    }

    method ReadInt(bits: nat) returns (r: Decoded<int>)
      requires Valid() && bits > 0
      modifies this`position, this`cur
      ensures Advanced(r.used)
      ensures r == DecodeInt(bits, Data()[old(position)..])
    {
      var d := ReadUint(bits);
      DecodeVarintInWord(bits, Data()[old(position)..]);
      match d
      case Got(v, n) => r := Got(Unzigzag(bits, v), n);
      case OutOfRange(n) => r := OutOfRange(n);
      case NullCursor(n) => r := NullCursor(n);
    }

    method ReadText(prefix: nat) returns (r: Decoded<seq<byte>>)
      requires Valid() && prefix > 0
      modifies this`position, this`cur
      ensures Advanced(r.used)
      ensures r == DecodeText(endian, host, prefix, capacity - old(position), Data()[old(position)..])
    {
      hide Valid, Data;
      Bounds();
      var d := ReadFuint(prefix);
      if !d.Got? {
        return OutOfRange(0);
      }
      var s := Read(d.value);
      match s
      case Got(t, n) => r := Got(t, prefix + n);
      case OutOfRange(n) => r := OutOfRange(prefix + n);
      case NullCursor(n) => r := NullCursor(prefix + n);
    }

    /** The reader that matches the writer of an item of this shape. */
    method ReadItem(sh: Shape) returns (r: Decoded<Item>)
      requires Valid() && sh.Valid()
      modifies this`position, this`cur
      ensures Advanced(r.used)
      ensures r == Decode(endian, host, sh, capacity - old(position), Data()[old(position)..])
    {
      hide Valid, Data;
      match sh
      case SFuint(w) =>
        var d := ReadFuint(w);
        r := if d.Got? then Got(Fuint(w, d.value), d.used) else OutOfRange(d.used);
      case SFint(w) =>
        var d := ReadFint(w);
        r := if d.Got? then Got(Fint(w, d.value), d.used) else OutOfRange(d.used);
      case SUint(b) =>
        var d := ReadUint(b);
        r := if d.Got? then Got(Uint(b, d.value), d.used) else OutOfRange(d.used);
      case SInt(b) =>
        var d := ReadInt(b);
        r := if d.Got? then Got(Int(b, d.value), d.used) else OutOfRange(d.used);
      case SText(p) =>
        var d := ReadText(p);
        match d {
          case Got(s, n) => r := Got(Text(p, s), n);
          case OutOfRange(n) => r := OutOfRange(n);
          case NullCursor(n) => r := NullCursor(n);
        }
    }

    method ReadNext(sh: Shape, ghost dec: Reader<Shape, Item>, ghost data: seq<byte>) returns (r: Decoded<Item>)
      requires Valid() && Data() == data && sh.Valid() && IsItemReader(dec, endian, host)
      modifies this`position, this`cur
      ensures Valid() && Data() == data && position == old(position) + r.used
      ensures r == dec(sh, capacity - old(position), data[old(position)..])
    {
      r := ReadItem(sh);
    }

    /** One reader after the other, until an exception ends it. */
    method ReadAll(shs: seq<Shape>, ghost dec: Reader<Shape, Item>, ghost data: seq<byte>)
      returns (r: Decoded<seq<Item>>)
      requires Valid() && Data() == data
      requires IsItemReader(dec, endian, host) && forall i :: 0 <= i < |shs| ==> shs[i].Valid()
      modifies this`position, this`cur
      ensures Valid() && Data() == data && position == old(position) + r.used
      ensures r == DecodeAll(dec, shs, capacity - old(position), data[old(position)..])
      decreases |shs|
    {
      hide Valid, Data, DecodeAll, IsItemReader;
      Bounds();
      if shs == [] {
        DecodeAllNothing(dec, capacity - position, data[position..]);
        return Got([], 0);
      }
      ghost var room, pos := capacity - position, position;
      var d := ReadNext(shs[0], dec, data);
      DecodeAllNext(dec, shs, room, data, pos, d);
      assert capacity - position == room - d.used && position == pos + d.used;
      if !d.Got? {
        return Prepend(d, OutOfRange(0));
      }
      var tail := ReadAll(shs[1..], dec, data);
      r := Prepend(d, tail);
    }

    /** Writing a list and going back to where it starts. */
    method WriteAndRewind(xs: seq<Item>, ghost enc: Writer<Item>)
      requires Valid() && IsItemWriter(enc, endian, host) && forall i :: 0 <= i < |xs| ==> xs[i].Valid()
      modifies this, nodes
      ensures Valid() && Data() == Overlay(old(Data()), old(position), EncodeAll(enc, xs))
      ensures position == old(position) && endian == old(endian)
      ensures capacity == AfterItems(baseSize, old(RoomNow()), xs).capacity
    {
      var start := position;
      WriteAll(xs, enc);
      ghost var data := Data();
      var ok := SetPosition(start);
      assert Data() == data;
    }

    /**
     * Writing a list, going back with setPosition and reading with the matching readers: the same
     * list and the same end position if the list is Readable in the nodes there are then, which the sizes written
     * decide, and otherwise an exception, a null cursor or another list.
     */
    method RoundTrip(xs: seq<Item>, ghost enc: Writer<Item>, ghost dec: Reader<Shape, Item>)
      returns (r: Decoded<seq<Item>>)
      requires Valid() && forall i :: 0 <= i < |xs| ==> xs[i].Valid()
      requires IsItemWriter(enc, endian, host) && IsItemReader(dec, endian, host)
      modifies this, nodes
      ensures Valid() && Data() == Overlay(old(Data()), old(position), EncodeAll(enc, xs))
      ensures position == old(position) + r.used && endian == old(endian)
      ensures capacity == AfterItems(baseSize, old(RoomNow()), xs).capacity >= old(position)
      ensures ReadsBack(r, xs, |EncodeAll(enc, xs)|,
                        Readable(enc, xs, AfterItems(baseSize, old(RoomNow()), xs).capacity - old(position)))
    {
      hide *;
      ghost var before, pos := Data(), position;
      Bounds();
      WriteAndRewind(xs, enc);
      ghost var data := Data();
      Bounds();
      ShapesValid(xs);
      r := ReadAll(Shapes(xs), dec, data);
      WrittenReadsBack(endian, host, enc, dec, before, pos, xs, data, capacity - pos);
    }
  }
}
