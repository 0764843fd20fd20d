/**
 The chunked byte buffer (Helens/bytearray.h, Helens/bytearray.cc): a singly linked list of
 nodes of one size, a position, and a cached pointer to the node the position is in.
 */
module ByteBuffer {
  import opened Arith
  import opened Chunks

  /** How a call ends: normally with a value, or by throwing std::out_of_range. */
  datatype Result<T> = Ok(value: T) | OutOfRange

  class Node {
    const mem: array<Byte>
    var next: Node?

    constructor (size: nat)
      ensures fresh(mem) && mem.Length == size && next == null
    {
      mem := new Byte[size];
      next := null;
    }
  }

  /** A stretch of memory handed to scatter/gather I/O (struct iovec). */
  datatype Region = Region(mem: array<Byte>, off: nat, len: nat)

  /** The regions that hold the flat bytes [p, p + n): one per node touched, in order. */
  ghost function Regions(nodes: seq<Node>, base: nat, p: nat, n: nat): seq<Region>
    requires base > 0 && p + n <= Off(base, |nodes|)
    decreases n
  {
    if n == 0 then []
    else
      OffBelow(base, p, |nodes|);
      var at := p % base;
      var m := if base - at >= n then n else base - at;
      [Region(nodes[p / base].mem, at, m)] + Regions(nodes, base, p + m, n - m)
  }

  lemma RegionsStep(nodes: seq<Node>, base: nat, k: nat, at: nat, n: nat)
    requires base > 0 && k < |nodes| && at < base && n > 0 && Off(base, k) + at + n <= Off(base, |nodes|)
    ensures var m := if base - at >= n then n else base - at;
      Regions(nodes, base, Off(base, k) + at, n)
        == [Region(nodes[k].mem, at, m)] + Regions(nodes, base, Off(base, k) + at + m, n - m)
  {
    OffDiv(base, k, at);
  }

  function Max(a: nat, b: nat): nat { if a < b then b else a }

  class ByteArray {
    const baseSize: nat
    var position: nat
    var capacity: nat
    var size: nat
    var littleEndian: bool
    var root: Node
    var cur: Node?

    // the flat view: the node list in order, and all bytes of all nodes in order
    ghost var nodes: seq<Node>
    ghost var bytes: seq<Byte>
    ghost var footprint: set<object>

    /** The node list is what the links say it is. */
    ghost predicate Linked()
      reads this`nodes, this`root, nodes`next
    {
      && baseSize > 0 && nodes != [] && root == nodes[0]
      && (forall i {:trigger nodes[i].next} :: 0 <= i < |nodes| ==> nodes[i].next == if i + 1 < |nodes| then nodes[i + 1] else null)
      && (forall i, j :: 0 <= i < j < |nodes| ==> nodes[i] != nodes[j] && nodes[i].mem != nodes[j].mem)
      && (forall i :: 0 <= i < |nodes| ==> nodes[i].mem.Length == baseSize)
    }

    /** Node `i` holds the i-th chunk of the flat bytes. */
    ghost predicate Holds()
      reads this`nodes, this`bytes, set n | n in nodes :: n.mem
    {
      && |bytes| == Off(baseSize, |nodes|)
      && (forall i :: 0 <= i < |nodes| ==> Off(baseSize, i) + baseSize <= |bytes|)
      && (forall i :: 0 <= i < |nodes| ==> nodes[i].mem[..] == Chunk(bytes, baseSize, i))
    }

    ghost predicate Owns()
      reads this`nodes, this`footprint
    {
      this in footprint && forall n :: n in nodes ==> n in footprint && n.mem in footprint
    }

    /** The cached node is the one the position lies in, or null at the very end. */
    ghost predicate CursorAt(p: nat)
      reads this`nodes, this`bytes, this`cur
    {
      p <= |bytes| && baseSize > 0 &&
      if p == |bytes| then cur == null
      else p / baseSize < |nodes| && cur == nodes[p / baseSize]
    }

    ghost predicate Valid()
      reads this, footprint
      ensures Valid() ==> this in footprint
    {
      && Owns() && Linked() && Holds()
      && capacity == |bytes|
      && position <= size <= capacity
      && CursorAt(position)
    }

    constructor (base: nat)
      requires base > 0
      ensures Valid() && fresh(footprint)
      ensures baseSize == base && position == 0 && size == 0 && capacity == base && !littleEndian
    {
      baseSize := base;
      position, capacity, size := 0, base, 0;
      littleEndian := false;
      var n := new Node(base);
      root, cur := n, n;
      nodes := [n];
      bytes := n.mem[..];
      footprint := {this, n, n.mem};
      new;
      assert Off(base, 0) == 0 && Off(base, 1) == base;
      assert Chunk(bytes, base, 0) == bytes;
    }

    method GetReadSize() returns (n: nat)
      requires Valid()
      ensures n == size - position
    {
      n := size - position;
    }

    // ----- capacity -----

    /** Make room for `n` more bytes after the position, in whole nodes and no more than needed. */
    method AddCapacity(n: nat)
      requires Valid()
      modifies footprint
      ensures Valid() && fresh(footprint - old(footprint)) && footprint >= old(footprint)
      ensures position == old(position) && size == old(size) && littleEndian == old(littleEndian)
      ensures |old(bytes)| <= |bytes| && bytes[..|old(bytes)|] == old(bytes)
      ensures position + n <= capacity
      ensures capacity == old(capacity) || capacity < position + n + baseSize
      ensures old(position) + n <= old(capacity) ==> capacity == old(capacity)
    {
      hide Off, Chunk, Linked, Holds, Owns, CursorAt;
      var oldCap := capacity - position;
      if n == 0 || oldCap >= n { return; }
      RootNode();
      var count := (n - oldCap + baseSize - 1) / baseSize;
      CeilCovers(n - oldCap, baseSize);
      Grow(count);
    }

    /** Append `count` nodes; the cursor, if it was past the end, moves to the first of them. */
    method Grow(count: nat)
      requires Valid() && count > 0
      modifies footprint
      ensures Valid() && fresh(footprint - old(footprint)) && footprint >= old(footprint)
      ensures position == old(position) && size == old(size) && littleEndian == old(littleEndian)
      ensures |bytes| == |old(bytes)| + Off(baseSize, count) && bytes[..|old(bytes)|] == old(bytes)
    {
      hide Off, Chunk, Linked, Holds, Owns, CursorAt;
      var oldCap := capacity - position;
      RootNode();
      BytesLength();
      OwnsNodes();
      var last := LastNode();
      assert last in nodes;
      var first := AppendNodes(last, count);
      BytesLength();
      if oldCap == 0 {
        cur := first;
      }
      CursorGrown(first);
    }

    /** With nodes appended, a cursor inside keeps its node and one at the end gets the first new one. */
    twostate lemma CursorGrown(new first: Node)
      requires old(CursorAt(position)) && position == old(position)
      requires baseSize > 0 && |old(nodes)| < |nodes| && nodes[..|old(nodes)|] == old(nodes) && first == nodes[|old(nodes)|]
      requires old(|bytes| == Off(baseSize, |nodes|)) && |bytes| == Off(baseSize, |nodes|)
      requires cur == if old(position == |bytes|) then first else old(cur)
      ensures CursorAt(position)
    {
      hide Off;
      CursorKept(baseSize, |old(nodes)|, |nodes|, position);
      var k := position / baseSize;
      assert k < |old(nodes)| ==> nodes[..|old(nodes)|][k] == nodes[k];
    }

    method LastNode() returns (tmp: Node)
      requires Valid()
      ensures tmp == nodes[|nodes| - 1]
    {
      tmp := root;
      ghost var k := 0;
      while tmp.next != null
        invariant 0 <= k < |nodes| && tmp == nodes[k]
        decreases |nodes| - k
      {
        tmp := tmp.next;
        k := k + 1;
      }
    }

    /** Link `count` new nodes behind the last one. */
    method AppendNodes(last: Node, count: nat) returns (first: Node)
      requires Owns() && Linked() && Holds() && capacity == |bytes|
      requires last == nodes[|nodes| - 1] && count > 0
      modifies this`nodes, this`bytes, this`footprint, this`capacity, last
      ensures Owns() && Linked() && Holds() && capacity == |bytes|
      ensures fresh(footprint - old(footprint)) && footprint >= old(footprint)
      ensures |nodes| == |old(nodes)| + count && nodes[..|old(nodes)|] == old(nodes)
      ensures first == nodes[|old(nodes)|]
      ensures |bytes| == |old(bytes)| + Off(baseSize, count) && bytes[..|old(bytes)|] == old(bytes)
    {
      hide Owns, Linked, Holds, Off;
      OffOne(baseSize);
      var tmp := AppendNode(last);
      first := tmp;
      for i := 1 to count
        invariant Owns() && Linked() && Holds() && capacity == |bytes|
        invariant fresh(footprint - old(footprint)) && footprint >= old(footprint)
        invariant |nodes| == |old(nodes)| + i && nodes[..|old(nodes)|] == old(nodes)
        invariant first == nodes[|old(nodes)|] && tmp == nodes[|nodes| - 1] && fresh(tmp)
        invariant |bytes| == |old(bytes)| + Off(baseSize, i) && bytes[..|old(bytes)|] == old(bytes)
      {
        OffNext(baseSize, i);
        tmp := AppendNode(tmp);
      }
    }

    method AppendNode(last: Node) returns (n: Node)
      requires Owns() && Linked() && Holds() && capacity == |bytes|
      requires last == nodes[|nodes| - 1]
      modifies this`nodes, this`bytes, this`footprint, this`capacity, last
      ensures Owns() && Linked() && Holds() && capacity == |bytes|
      ensures fresh(n) && fresh(n.mem) && footprint == old(footprint) + {n, n.mem}
      ensures nodes == old(nodes) + [n]
      ensures |bytes| == |old(bytes)| + baseSize && bytes[..|old(bytes)|] == old(bytes)
    {
      hide Off, Chunk;
      n := new Node(baseSize);
      last.next := n;
      assert last in nodes;
      OffNext(baseSize, |nodes|);
      forall i | 0 <= i < |nodes| ensures Chunk(bytes + n.mem[..], baseSize, i) == Chunk(bytes, baseSize, i) {
        AppendChunk(bytes, baseSize, n.mem[..], i);
      }
      LastChunk(bytes, baseSize, n.mem[..], |nodes|);
      nodes := nodes + [n];
      bytes := bytes + n.mem[..];
      footprint := footprint + {n, n.mem};
      capacity := capacity + baseSize;
    }

    // ----- what the representation says about the cursor -----

    lemma CursorNode()
      requires Valid() && position < capacity
      ensures position / baseSize < |nodes| && cur == nodes[position / baseSize]
      ensures position == Off(baseSize, position / baseSize) + position % baseSize
      ensures position % baseSize < baseSize
    {
      OffSplit(baseSize, position);
    }

    lemma CursorAtEnd()
      requires Valid() && position == capacity
      ensures cur == null
    {}

    lemma OwnsNodes()
      requires Owns()
      ensures this in footprint && forall n :: n in nodes ==> n in footprint && n.mem in footprint
    {}

    lemma RootNode()
      requires Linked()
      ensures baseSize > 0 && |nodes| > 0 && root == nodes[0] && root.mem.Length == baseSize
    {}

    lemma BytesLength()
      requires Holds()
      ensures |bytes| == Off(baseSize, |nodes|)
    {}

    // ----- writing and reading -----

    /** memcpy into the memory of node `k`. */
    method Poke(mem: array<Byte>, ghost k: nat, at: nat, piece: seq<Byte>)
      requires Owns() && Linked() && Holds()
      requires k < |nodes| && mem == nodes[k].mem && at + |piece| <= baseSize
      modifies this`bytes, nodes[k].mem
      ensures Owns() && Linked() && Holds()
      ensures Off(baseSize, k) + at + |piece| <= |old(bytes)|
      ensures bytes == Splice(old(bytes), Off(baseSize, k) + at, piece)
    {
      hide Off, Chunk, Splice;
      CopyIn(mem, at, piece);
      SpliceOwnChunk(bytes, baseSize, k, at, piece);
      forall i | 0 <= i < |nodes| && i != k
        ensures Chunk(Splice(bytes, Off(baseSize, k) + at, piece), baseSize, i) == Chunk(bytes, baseSize, i)
      {
        SpliceOtherChunk(bytes, baseSize, k, at, piece, i);
      }
      bytes := Splice(bytes, Off(baseSize, k) + at, piece);
    }

    static method CopyIn(mem: array<Byte>, at: nat, piece: seq<Byte>)
      requires at + |piece| <= mem.Length
      modifies mem
      ensures mem[..] == Splice(old(mem[..]), at, piece)
    {
      forall i | 0 <= i < |piece| {
        mem[at + i] := piece[i];
      }
      assert mem[..at] == old(mem[..at]);
      assert mem[at..at + |piece|] == piece;
      assert mem[at + |piece|..] == old(mem[at + |piece|..]);
      assert mem[..] == mem[..at] + mem[at..at + |piece|] + mem[at + |piece|..];
    }

    /** Step the cached node over `n` bytes that end at or before the end of node `k`. */
    method Advance(ghost k: nat, at: nat, n: nat)
      requires Linked() && |bytes| == Off(baseSize, |nodes|)
      requires k < |nodes| && cur == nodes[k] && n > 0 && at + n <= baseSize
      modifies this`cur
      ensures CursorAt(Off(baseSize, k) + at + n)
      ensures k + 1 < |nodes| && at + n == baseSize ==> cur == nodes[k + 1]
    {
      hide Off;
      CursorStep(baseSize, k, at + n, |nodes|);
      assert nodes[k].next == if k + 1 < |nodes| then nodes[k + 1] else null;
      if cur.mem.Length == at + n {
        cur := cur.next;
      }
    }

    method Write(buf: seq<Byte>)
      requires Valid()
      modifies footprint
      ensures Valid() && fresh(footprint - old(footprint)) && footprint >= old(footprint)
      ensures position == old(position) + |buf| && size == Max(old(size), position)
      ensures littleEndian == old(littleEndian)
      ensures WroteAt(old(bytes), bytes, old(position), buf)
    {
      hide Off, Chunk, Splice, Linked, Holds;
      if |buf| == 0 { return; }
      AddCapacity(|buf|);
      ghost var start, before := position, bytes;
      WriteAll(buf);
      assert bytes[..start] == before[..start] == old(bytes)[..start];
      if position > size {
        size := position;
      }
    }

    /** The copying loop of `write`, once there is room. */
    method WriteAll(buf: seq<Byte>)
      requires Valid() && |buf| > 0 && position + |buf| <= capacity
      modifies this`position, this`cur, this`bytes, set n | n in nodes :: n.mem
      ensures Owns() && Linked() && Holds() && CursorAt(position)
      ensures position == old(position) + |buf|
      ensures bytes == Splice(old(bytes), old(position), buf)
    {
      hide Owns, Linked, Holds, Off, Splice, CursorAt;
      RootNode();
      CursorNode();
      ghost var k: nat := position / baseSize;
      var npos: nat := position % baseSize;
      var bpos: nat, left: nat := 0, |buf|;
      SpliceNothing(bytes, position);
      while left > 0
        invariant Owns() && Linked() && Holds() && |bytes| == |old(bytes)|
        invariant bpos + left == |buf| && position == old(position) + bpos
        invariant left > 0 ==> k < |nodes| && cur == nodes[k] && npos < baseSize
        invariant left > 0 ==> position == Off(baseSize, k) + npos
        invariant left == 0 ==> CursorAt(position)
        invariant bytes == Splice(old(bytes), old(position), buf[..bpos])
      {
        var n := if baseSize - npos >= left then left else baseSize - npos;
        assert nodes[k] in nodes;
        WriteChunk(k, npos, buf[bpos..bpos + n]);
        SpliceMore(old(bytes), old(position), buf, bpos, n);
        BytesLength();
        OffNext(baseSize, k);
        if n < left { MoreNodes(baseSize, k, |nodes|); }
        position := position + n;
        bpos := bpos + n;
        left := left - n;
        npos := 0;
        k := k + 1;
      }
      assert buf[..bpos] == buf;
    }

    /** One round of the loop: fill part of the cursor's node and step the cursor. */
    method WriteChunk(ghost k: nat, at: nat, piece: seq<Byte>)
      requires Owns() && Linked() && Holds()
      requires k < |nodes| && cur == nodes[k] && |piece| > 0 && at + |piece| <= baseSize
      modifies this`cur, this`bytes, nodes[k].mem
      ensures Owns() && Linked() && Holds()
      ensures Off(baseSize, k) + at + |piece| <= |old(bytes)|
      ensures bytes == Splice(old(bytes), Off(baseSize, k) + at, piece)
      ensures CursorAt(Off(baseSize, k) + at + |piece|)
      ensures k + 1 < |nodes| && at + |piece| == baseSize ==> cur == nodes[k + 1]
    {
      hide Owns, Linked, Holds, Off, Splice, CursorAt;
      Poke(cur.mem, k, at, piece);
      BytesLength();
      Advance(k, at, |piece|);
    }

    lemma NodeBytes(k: nat, at: nat, n: nat)
      requires Linked() && Holds() && k < |nodes| && at + n <= baseSize
      ensures Off(baseSize, k) + at + n <= |bytes|
      ensures nodes[k].mem[at..at + n] == bytes[Off(baseSize, k) + at..Off(baseSize, k) + at + n]
    {
      hide Off;
      var o := Off(baseSize, k);
      assert nodes[k].mem[..] == bytes[o..o + baseSize];
      assert nodes[k].mem[at..at + n] == nodes[k].mem[..][at..at + n];
      SliceSlice(bytes, o, baseSize, at, n);
    }

    /**
     A read of nothing at the end of the capacity would follow the null cursor, so the source demands
     that it is not asked for there.
     */
    method Read(n: nat) returns (r: Result<seq<Byte>>)
      requires Valid() && (n > 0 || position < capacity)
      modifies this`position, this`cur
      ensures Valid()
      ensures r.Ok? <==> n <= size - old(position)
      ensures r.Ok? ==> position == old(position) + n && r.value == bytes[old(position)..position]
      ensures r.OutOfRange? ==> position == old(position) && cur == old(cur)
    {
      hide Owns, Linked, Holds, Off;
      if n > size - position { return OutOfRange; }
      ghost var k: nat := position / baseSize;
      var npos: nat := position % baseSize;
      var left: nat, out := n, [];
      CursorNode();
      BytesLength();
      while left > 0
        invariant left <= n && position == old(position) + (n - left)
        invariant left > 0 ==> k < |nodes| && cur == nodes[k] && npos < baseSize
        invariant left > 0 ==> position == Off(baseSize, k) + npos
        invariant CursorAt(position)
        invariant out == bytes[old(position)..position]
      {
        var m := if baseSize - npos >= left then left else baseSize - npos;
        NodeBytes(k, npos, m);
        NodeLength(k);
        out := out + cur.mem[npos..npos + m];
        if m < left { MoreNodes(baseSize, k, |nodes|); }
        Advance(k, npos, m);
        OffNext(baseSize, k);
        position := position + m;
        left := left - m;
        npos := 0;
        k := k + 1;
      }
      return Ok(out);
    }

    lemma NodeLength(k: nat)
      requires Linked() && k < |nodes|
      ensures nodes[k].mem.Length == baseSize
    {}

    method SetPosition(v: nat) returns (r: Result<()>)
      requires Valid()
      modifies this`position, this`size, this`cur
      ensures Valid()
      ensures r.Ok? <==> v <= capacity
      ensures r.Ok? ==> position == v && size == Max(old(size), v)
      ensures r.OutOfRange? ==> position == old(position) && size == old(size) && cur == old(cur)
    {
      hide Owns, Off, Holds, Linked, CursorAt;
      if v > capacity { return OutOfRange; }
      BytesLength();
      position := v;
      if position > size {
        size := position;
      }
      Seek(v);
      return Ok(());
    }

    /** The walk from the first node to the one position `v` lies in. */
    method Seek(v: nat)
      requires Linked() && v <= |bytes| == Off(baseSize, |nodes|)
      modifies this`cur
      ensures CursorAt(v)
    {
      hide Off, Linked;
      RootNode();
      OffOne(baseSize);
      cur := root;
      ghost var k: nat := 0;
      var left: nat := v;
      while left > cur.mem.Length
        modifies this`cur
        invariant k < |nodes| && cur != null && cur == nodes[k] && cur.mem.Length == baseSize
        invariant v == Off(baseSize, k) + left
        decreases left
      {
        OffNext(baseSize, k);
        MoreNodes(baseSize, k, |nodes|);
        NodeLink(k);
        NodeLength(k + 1);
        left := left - cur.mem.Length;
        cur := cur.next;
        k := k + 1;
      }
      if left > 0 {
        CursorStep(baseSize, k, left, |nodes|);
      } else {
        OffDiv(baseSize, k, 0);
        OffStrict(baseSize, k, |nodes|);
      }
      NodeLink(k);
      if left == cur.mem.Length {
        cur := cur.next;
      }
    }

    /** The walk over the nodes behind the first, which are let go. */
    method ReleaseTail()
      requires Linked()
      modifies this`cur
    {
      var tmp := root.next;
      ghost var k := 1;
      while tmp != null
        modifies this`cur
        invariant 1 <= k <= |nodes| && tmp == if k < |nodes| then nodes[k] else null
        decreases |nodes| - k
      {
        cur := tmp;
        tmp := tmp.next;
        k := k + 1;
      }
    }

    /** Keep only the first node. */
    method Clear()
      requires Valid()
      modifies this`position, this`size, this`capacity, this`cur, this`nodes, this`bytes, root`next
      ensures Valid() && footprint == old(footprint)
      ensures position == 0 && size == 0 && capacity == baseSize
      ensures nodes == [root] && bytes == old(bytes)[..baseSize]
    {
      hide Off, Chunk, Linked, Holds, Owns, CursorAt;
      FirstNode();
      OwnsNodes();
      assert root in nodes;
      position, size, capacity := 0, 0, baseSize;
      ReleaseTail();
      nodes := [root];
      bytes := bytes[..baseSize];
      cur := root;
      root.next := null;
      OnlyNode();
    }

    /** The memory of the first node is the beginning of the flat bytes. */
    lemma FirstNode()
      requires Linked() && Holds()
      ensures 0 < baseSize <= |bytes| && nodes != [] && root == nodes[0]
      ensures root.mem.Length == baseSize && root.mem[..] == bytes[..baseSize]
    {
      hide Off;
      OffOne(baseSize);
      OffMono(baseSize, 1, |nodes|);
      FirstChunk(bytes, baseSize);
    }

    lemma OnlyNode()
      requires nodes == [root] && root.next == null && root.mem.Length == baseSize > 0 && bytes == root.mem[..]
      requires this in footprint && root in footprint && root.mem in footprint && cur == root
      ensures Owns() && Linked() && Holds() && CursorAt(0)
    {
      hide Off;
      OffOne(baseSize);
      OnlyChunk(bytes, baseSize);
    }

    // ----- reading at a position without moving -----

    /**
     The positional read starts in the cursor's node whatever the position, at the position's offset
     within a node.
     */
    ghost function PeekStart(at: nat): nat
      requires baseSize > 0
      reads this`position
    {
      Off(baseSize, position / baseSize) + at % baseSize
    }

    /** So it reads the bytes that were asked for exactly when both lie in the same node. */
    lemma PeekExact(at: nat)
      requires baseSize > 0
      ensures PeekStart(at) == at <==> at / baseSize == position / baseSize
    {
      OffSplit(baseSize, at);
      OffInjective(baseSize, at / baseSize, position / baseSize);
    }

    /** m_size - position in size_t: past the size it wraps around, and the check lets anything through. */
    function Remaining(at: nat): nat
      requires at <= size || at < U64_LIMIT
      reads this`size
    {
      if at <= size then size - at else U64_LIMIT + size - at
    }

    method ReadAt(n: nat, at: nat) returns (r: Result<seq<Byte>>)
      requires Valid() && (at <= size || at < U64_LIMIT)
      requires n <= Remaining(at) ==> position < capacity && PeekStart(at) + n <= capacity
      ensures r.Ok? <==> n <= Remaining(at)
      ensures r.Ok? <==> at + n <= if at <= size then size else U64_LIMIT + size
      ensures r.Ok? ==> r.value == bytes[PeekStart(at)..PeekStart(at) + n]
    {
      hide Owns, Linked, Holds, Off;
      if n > Remaining(at) { return OutOfRange; }
      CursorNode();
      BytesLength();
      ghost var k := position / baseSize;
      var out := CopyOut(cur, k, at % baseSize, n);
      return Ok(out);
    }

    /** Copy `n` bytes from offset `at` of node `k` on, following the links. */
    method CopyOut(start: Node, ghost k0: nat, at: nat, n: nat) returns (out: seq<Byte>)
      requires Linked() && Holds() && k0 < |nodes| && start == nodes[k0] && at < baseSize
      requires Off(baseSize, k0) + at + n <= |bytes|
      ensures out == bytes[Off(baseSize, k0) + at..Off(baseSize, k0) + at + n]
    {
      hide Linked, Holds, Off;
      BytesLength();
      var node := start;
      ghost var k: nat, p: nat := k0, Off(baseSize, k0) + at;
      var npos: nat, left: nat := at, n;
      out := [];
      while left > 0
        invariant left <= n
        invariant left > 0 ==> k < |nodes| && node == nodes[k] && npos < baseSize
        invariant left > 0 ==> p + (n - left) == Off(baseSize, k) + npos
        invariant out == bytes[p..p + (n - left)]
      {
        var m := if baseSize - npos >= left then left else baseSize - npos;
        NodeBytes(k, npos, m);
        NodeLength(k);
        out := out + node.mem[npos..npos + m];
        if m < left {
          MoreNodes(baseSize, k, |nodes|);
          NodeLink(k);
          node := node.next;
        }
        OffNext(baseSize, k);
        left := left - m;
        npos := 0;
        k := k + 1;
      }
    }

    lemma NodeLink(k: nat)
      requires Linked() && k < |nodes|
      ensures nodes[k].next == if k + 1 < |nodes| then nodes[k + 1] else null
    {}

    /** Everything from the position to the end of the data. */
    method ToString() returns (str: seq<Byte>)
      requires Valid()
      ensures str == bytes[position..size]
    {
      var n := GetReadSize();
      if n == 0 { return []; }
      PeekExact(position);
      var r := ReadAt(n, position);
      str := r.value;
    }

    // ----- scatter/gather regions -----

    /** Walk the links from offset `at` of node `k0` and collect the memory of the next `n` bytes. */
    method Collect(start: Node, ghost k0: nat, at: nat, n: nat) returns (regions: seq<Region>)
      requires Linked() && k0 < |nodes| && start == nodes[k0] && at < baseSize
      requires Off(baseSize, k0) + at + n <= Off(baseSize, |nodes|)
      ensures regions == Regions(nodes, baseSize, Off(baseSize, k0) + at, n)
    {
      hide Linked, Off, Regions;
      RootNode();
      var node := start;
      ghost var k: nat, p: nat := k0, Off(baseSize, k0) + at;
      var npos: nat, left: nat := at, n;
      regions := [];
      while left > 0
        invariant left <= n && p + left <= Off(baseSize, |nodes|)
        invariant left > 0 ==> k < |nodes| && node == nodes[k] && npos < baseSize && p == Off(baseSize, k) + npos
        invariant regions + Regions(nodes, baseSize, p, left) == Regions(nodes, baseSize, Off(baseSize, k0) + at, n)
      {
        NodeLength(k);
        RegionsStep(nodes, baseSize, k, npos, left);
        var m := if baseSize - npos >= left then left else baseSize - npos;
        regions := regions + [Region(node.mem, npos, m)];
        if m < left {
          MoreNodes(baseSize, k, |nodes|);
          NodeLink(k);
          node := node.next;
        }
        OffNext(baseSize, k);
        p := p + m;
        left := left - m;
        npos := 0;
        k := k + 1;
      }
      NoRegions(nodes, baseSize, p);
    }

    /** The readable bytes after the position, at most `len` of them. */
    method GetReadBuffers(len: nat) returns (n: nat, regions: seq<Region>)
      requires Valid()
      ensures n == if len > size - position then size - position else len
      ensures regions == Regions(nodes, baseSize, position, n)
    {
      hide Off, Regions, Linked, Holds;
      BytesLength();
      RootNode();
      n := if len > size - position then size - position else len;
      if n == 0 {
        NoRegions(nodes, baseSize, position);
        return n, [];
      }
      CursorNode();
      regions := Collect(cur, position / baseSize, position % baseSize, n);
    }

    /**
     The same from an explicit position. The length is still cut to what can be read from the
     cursor's position, so the bytes lie within the data for every position up to the cursor's.
     */
    method GetReadBuffersAt(len: nat, at: nat) returns (n: nat, regions: seq<Region>)
      requires Valid()
      requires at + (if len > size - position then size - position else len) <= capacity
      ensures n == if len > size - position then size - position else len
      ensures regions == Regions(nodes, baseSize, at, n)
      ensures at <= position ==> at + n <= size
    {
      hide Off, Regions, Linked, Holds, Owns;
      BytesLength();
      RootNode();
      n := if len > size - position then size - position else len;
      if n == 0 {
        NoRegions(nodes, baseSize, at);
        return n, [];
      }
      OffSplit(baseSize, at);
      OffBelow(baseSize, at, |nodes|);
      var node := NodeAt(at / baseSize);
      regions := Collect(node, at / baseSize, at % baseSize, n);
    }

    method NodeAt(index: nat) returns (node: Node)
      requires Linked() && index < |nodes|
      ensures node == nodes[index]
    {
      node := root;
      var count := index;
      while count > 0
        invariant 0 <= count <= index && node == nodes[index - count]
      {
        node := node.next;
        count := count - 1;
      }
    }

    /** Room for the next `len` bytes, as memory regions. */
    method GetWriteBuffers(len: nat) returns (n: nat, regions: seq<Region>)
      requires Valid()
      modifies footprint
      ensures Valid() && fresh(footprint - old(footprint)) && footprint >= old(footprint)
      ensures position == old(position) && size == old(size) && littleEndian == old(littleEndian)
      ensures |old(bytes)| <= |bytes| && bytes[..|old(bytes)|] == old(bytes)
      ensures n == len && position + len <= capacity
      ensures position + len <= Off(baseSize, |nodes|) && regions == Regions(nodes, baseSize, position, len)
    {
      hide Off, Regions, Linked, Holds;
      RootNode();
      if len > 0 {
        AddCapacity(len);
      }
      BytesLength();
      if len == 0 {
        NoRegions(nodes, baseSize, position);
        return 0, [];
      }
      CursorNode();
      regions := Collect(cur, position / baseSize, position % baseSize, len);
      n := len;
    }

    /** What a scatter read does with the regions: fill them, in order, with the bytes received. */
    method Receive(regions: seq<Region>, input: seq<Byte>)
      requires Owns() && Linked() && Holds() && position + |input| <= Off(baseSize, |nodes|)
      requires regions == Regions(nodes, baseSize, position, |input|)
      modifies this`bytes, set n | n in nodes :: n.mem
      ensures Owns() && Linked() && Holds()
      ensures |old(bytes)| == Off(baseSize, |nodes|)
      ensures bytes == Splice(old(bytes), position, input)
    {
      hide Owns, Linked, Holds, Off, Splice, Regions;
      RootNode();
      BytesLength();
      SpliceNothing(bytes, position);
      var done: nat, i: nat := 0, 0;
      assert regions[0..] == regions;
      while i < |regions|
        invariant i <= |regions| && done <= |input| && Owns() && Linked() && Holds()
        invariant regions[i..] == Regions(nodes, baseSize, position + done, |input| - done)
        invariant bytes == Splice(old(bytes), position, input[..done])
      {
        ghost var p, left := position + done, |input| - done;
        if left == 0 { NoRegions(nodes, baseSize, p); }
        OffSplit(baseSize, p);
        OffBelow(baseSize, p, |nodes|);
        RegionsStep(nodes, baseSize, p / baseSize, p % baseSize, left);
        var r := regions[i];
        assert r == regions[i..][0];
        assert regions[i + 1..] == regions[i..][1..];
        Poke(r.mem, p / baseSize, r.off, input[done..done + r.len]);
        SpliceMore(old(bytes), position, input, done, r.len);
        done := done + r.len;
        i := i + 1;
      }
      RegionsLeft(nodes, baseSize, position + done, |input| - done);
      assert input[..done] == input;
    }

    /** Asking for write buffers, filling them and moving the position is a write. */
    method WriteThroughBuffers(input: seq<Byte>)
      requires Valid()
      modifies footprint
      ensures Valid() && fresh(footprint - old(footprint)) && footprint >= old(footprint)
      ensures position == old(position) + |input| && size == Max(old(size), position)
      ensures littleEndian == old(littleEndian)
      ensures WroteAt(old(bytes), bytes, old(position), input)
    {
      hide Linked, Holds, Off, Splice, Regions;
      var n, regions := GetWriteBuffers(|input|);
      ghost var before := bytes;
      OwnsNodes();
      Receive(regions, input);
      BytesLength();
      var r := SetPosition(position + |input|);
      ghost var start := old(position);
      assert bytes == Splice(before, start, input);
      assert bytes[..start] == before[..start] == old(bytes)[..start];
    }
  }

  lemma RegionsLeft(nodes: seq<Node>, base: nat, p: nat, n: nat)
    requires base > 0 && p + n <= Off(base, |nodes|) && Regions(nodes, base, p, n) == []
    ensures n == 0
  {}

  lemma NoRegions(nodes: seq<Node>, base: nat, p: nat)
    requires base > 0 && p <= Off(base, |nodes|)
    ensures Regions(nodes, base, p, 0) == [] && Gather([]) == []
  {}

  /** The bytes a list of regions holds, in order. */
  ghost function Gather(regions: seq<Region>): seq<Byte>
    requires forall i :: 0 <= i < |regions| ==> regions[i].off + regions[i].len <= regions[i].mem.Length
    reads set r | r in regions :: r.mem
  {
    if regions == [] then []
    else regions[0].mem[regions[0].off..regions[0].off + regions[0].len] + Gather(regions[1..])
  }

  /** Every region lies inside its memory, and no two share memory. */
  ghost predicate Apart(regions: seq<Region>) {
    && (forall i :: 0 <= i < |regions| ==> regions[i].off + regions[i].len <= regions[i].mem.Length)
    && (forall i, j :: 0 <= i < j < |regions| ==> regions[i].mem != regions[j].mem)
  }

  /** Region `i` lies in the i-th node from the one that holds position `p`. */
  lemma {:induction false} RegionsInNodes(nodes: seq<Node>, base: nat, p: nat, n: nat)
    requires base > 0 && p + n <= Off(base, |nodes|)
    ensures var rs := Regions(nodes, base, p, n);
      && (rs != [] ==> p / base + |rs| <= |nodes|)
      && forall i :: 0 <= i < |rs| ==> rs[i].mem == nodes[p / base + i].mem && rs[i].off + rs[i].len <= base
    decreases n
  {
    hide Off, Regions;
    if n == 0 {
      NoRegions(nodes, base, p);
    } else {
      OffSplit(base, p);
      OffBelow(base, p, |nodes|);
      var k, at := p / base, p % base;
      var m := if base - at >= n then n else base - at;
      RegionsStep(nodes, base, k, at, n);
      var rs, rest := Regions(nodes, base, p, n), Regions(nodes, base, p + m, n - m);
      RegionsInNodes(nodes, base, p + m, n - m);
      assert rs == [Region(nodes[k].mem, at, m)] + rest;
      if m < n {
        OffNext(base, k);
        OffDiv(base, k + 1, 0);
        assert (p + m) / base == k + 1;
      } else {
        NoRegions(nodes, base, p + m);
      }
    }
  }

  lemma RegionsApart(b: ByteArray, p: nat, n: nat)
    requires b.Linked() && p + n <= Off(b.baseSize, |b.nodes|)
    ensures Apart(Regions(b.nodes, b.baseSize, p, n))
  {
    hide Off, Regions;
    RegionsInNodes(b.nodes, b.baseSize, p, n);
    var rs, k := Regions(b.nodes, b.baseSize, p, n), p / b.baseSize;
    forall i, j | 0 <= i < j < |rs| ensures rs[i].mem != rs[j].mem {
      assert b.nodes[k + i].mem != b.nodes[k + j].mem;
    }
  }

  /** The regions of [p, p + n) gather to exactly those flat bytes. */
  lemma {:induction false} RegionsGather(b: ByteArray, p: nat, n: nat)
    requires b.Linked() && b.Holds() && p + n <= Off(b.baseSize, |b.nodes|)
    ensures var rs := Regions(b.nodes, b.baseSize, p, n);
      Apart(rs) && Gather(rs) == b.bytes[p..p + n]
    decreases n
  {
    hide Off, Regions, ByteArray.Linked, ByteArray.Holds, Apart, Gather;
    b.RootNode();
    b.BytesLength();
    RegionsApart(b, p, n);
    if n == 0 {
      NoRegions(b.nodes, b.baseSize, p);
    } else {
      var base := b.baseSize;
      var m := if base - p % base >= n then n else base - p % base;
      RegionsApart(b, p + m, n - m);
      GatherHead(b, p, n, m);
      RegionsGather(b, p + m, n - m);
      SliceJoin(b.bytes, p, m, n);
    }
  }

  /** The first region gathers the first bytes. */
  lemma GatherHead(b: ByteArray, p: nat, n: nat, m: nat)
    requires b.Linked() && b.Holds() && b.baseSize > 0 && p + n <= Off(b.baseSize, |b.nodes|) == |b.bytes|
    requires n > 0 && m == if b.baseSize - p % b.baseSize >= n then n else b.baseSize - p % b.baseSize
    requires Apart(Regions(b.nodes, b.baseSize, p, n)) && Apart(Regions(b.nodes, b.baseSize, p + m, n - m))
    ensures Gather(Regions(b.nodes, b.baseSize, p, n)) == b.bytes[p..p + m] + Gather(Regions(b.nodes, b.baseSize, p + m, n - m))
  {
    hide Off, Regions, ByteArray.Linked, ByteArray.Holds, Gather;
    var base := b.baseSize;
    OffSplit(base, p);
    OffBelow(base, p, |b.nodes|);
    var k, at := p / base, p % base;
    RegionsStep(b.nodes, base, k, at, n);
    b.NodeBytes(k, at, m);
    GatherCons(Region(b.nodes[k].mem, at, m), Regions(b.nodes, base, p + m, n - m));
  }

  lemma GatherCons(r: Region, rest: seq<Region>)
    requires Apart([r] + rest) && Apart(rest)
    ensures r.off + r.len <= r.mem.Length
    ensures Gather([r] + rest) == r.mem[r.off..r.off + r.len] + Gather(rest)
  {
    var rs := [r] + rest;
    assert rs[0] == r && rs[1..] == rest;
  }

  /**
   Two nodes of two bytes hold 1, 2, 3, 4; the position is 0. Asked for the byte at 2, the positional
   read returns the byte at 0.
   */
  method PositionalReadMisses() returns (r: Result<seq<Byte>>, there: Byte)
    ensures r == Ok([1]) && there == 3
  {
    hide ByteArray.Linked, ByteArray.Holds, ByteArray.Owns, ByteArray.CursorAt, WroteAt, Off;
    var b := new ByteArray(2);
    ghost var before := b.bytes;
    b.Write([1, 2, 3, 4]);
    Wrote(before, b.bytes, [1, 2, 3, 4]);
    var moved := b.SetPosition(2);
    var here := b.Read(1);
    there := here.value[0];
    moved := b.SetPosition(0);
    OffOne(2);
    assert b.PeekStart(2) == 0 && b.bytes[0..1] == [1];
    r := b.ReadAt(1, 2);
  }

  lemma Wrote(before: seq<Byte>, after: seq<Byte>, data: seq<Byte>)
    requires WroteAt(before, after, 0, data)
    ensures |data| <= |after| && forall i :: 0 <= i < |data| ==> after[i] == data[i]
  {
    assert after[0..|data|] == data;
  }
}
