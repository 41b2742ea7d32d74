/** The growable byte array: a singly linked chain of equally sized nodes with a cursor. */
module ByteArrays {
  import opened Bytes
  import opened Blocks
  import opened Vectored

  datatype ReadStatus =
    | Done
    | OutOfRange      // std::out_of_range: more bytes asked for than are readable
    | NullCursor      // the code dereferences a null current node: it has no defined result

  /** A piece of node memory handed to the vectored socket calls. */
  datatype IoBuffer = IoBuffer(mem: array<byte>, off: nat, len: nat)

  class Node {
    const mem: array<byte>
    var next: Node?

    constructor (size: nat)
      ensures fresh(mem) && mem.Length == size && next == null
    {
      mem := new byte[size];
      next := null;
    }
  }

  /** memcpy of `src` into `dst + off`. */
  method CopyInto(dst: array<byte>, off: nat, src: seq<byte>)
    requires off + |src| <= dst.Length
    modifies dst
    ensures dst[..] == Splice(old(dst[..]), off, src)
  {
    forall k | 0 <= k < |src| {
      dst[off + k] := src[k];
    }
  }

  ghost function Contents(ns: seq<Node>, mems: set<array<byte>>): (bs: seq<seq<byte>>)
    requires forall i :: 0 <= i < |ns| ==> ns[i].mem in mems
    reads mems
  {
    seq(|ns|, i requires 0 <= i < |ns| && ns[i].mem in mems reads mems => ns[i].mem[..])
  }

  ghost predicate WellFormed(bufs: seq<IoBuffer>) {
    forall v :: v in bufs ==> v.off + v.len <= v.mem.Length
  }

  /** No two buffers share a byte of memory. */
  ghost predicate Disjoint(bufs: seq<IoBuffer>) {
    forall i, j :: 0 <= i < j < |bufs| && bufs[i].mem == bufs[j].mem ==>
      bufs[i].off + bufs[i].len <= bufs[j].off || bufs[j].off + bufs[j].len <= bufs[i].off
  }

  /** Byte `k` of `a` belongs to one of the buffers. */
  ghost predicate Inside(bufs: seq<IoBuffer>, a: array<byte>, k: int) {
    exists v :: v in bufs && v.mem == a && v.off <= k < v.off + v.len
  }

  ghost function Memory(bufs: seq<IoBuffer>): set<array<byte>> {
    set v: IoBuffer | v in bufs :: v.mem
  }

  ghost function Pieces(bufs: seq<IoBuffer>, mems: set<array<byte>>): seq<seq<byte>>
    reads mems
    requires WellFormed(bufs) && Memory(bufs) <= mems
  {
    seq(|bufs|, i requires 0 <= i < |bufs| && WellFormed(bufs) && bufs[i].mem in mems reads mems =>
      bufs[i].mem[bufs[i].off..bufs[i].off + bufs[i].len])
  }

  /** The bytes a vector of buffers holds, in order. */
  ghost function Gather(bufs: seq<IoBuffer>): seq<byte>
    reads Memory(bufs)
    requires WellFormed(bufs)
  {
    Concat(Pieces(bufs, Memory(bufs)))
  }

  lemma NothingGathered()
    ensures Gather([]) == []
  {
  }

  lemma GatherSnoc(bufs: seq<IoBuffer>, v: IoBuffer)
    requires WellFormed(bufs + [v])
    ensures WellFormed(bufs) && WellFormed([v])
    ensures Gather(bufs + [v]) == Gather(bufs) + v.mem[v.off..v.off + v.len]
  {
    assert forall u :: u in bufs ==> u in bufs + [v];
    assert v in bufs + [v];
    var all := bufs + [v];
    var ps := Pieces(all, Memory(all));
    assert ps[..|bufs|] == Pieces(bufs, Memory(bufs));
  }

  /** The lengths of the buffers. */
  function Lens(bufs: seq<IoBuffer>): (lens: seq<nat>)
    ensures |lens| == |bufs|
    ensures forall i :: 0 <= i < |bufs| ==> lens[i] == bufs[i].len
  {
    if bufs == [] then [] else Lens(bufs[..|bufs| - 1]) + [bufs[|bufs| - 1].len]
  }

  function TotalLength(bufs: seq<IoBuffer>): nat {
    if bufs == [] then 0 else TotalLength(bufs[..|bufs| - 1]) + bufs[|bufs| - 1].len
  }

  lemma SplicedBetween(s: seq<byte>, t: seq<byte>, p: nat, q: nat, got: seq<byte>)
    requires p <= q <= |s| == |t| && |got| <= q - p
    requires s[p..q] == Splice(t[p..q], 0, got)
    requires forall x :: 0 <= x < |s| && !(p <= x < q) ==> s[x] == t[x]
    ensures s == Splice(t, p, got)
  {
    forall x | 0 <= x < |s|
      ensures s[x] == Splice(t, p, got)[x]
    {
      if p <= x < q {
        assert s[x] == s[p..q][x - p];
      }
    }
  }

  lemma NoLens(b: nat, p: nat, n: nat)
    requires b > 0
    ensures NodePieces(b, p, n) == Lens([]) + NodePieces(b, p, n)
    ensures NodePieces(b, p + n, 0) == []
  {
  }

  /** Cutting off the next piece of a request. */
  lemma NextPiece(bufs: seq<IoBuffer>, v: IoBuffer, b: nat, p: nat, left: nat)
    requires b > 0 && 0 < left && v.len == if b - p % b >= left then left else b - p % b
    ensures Lens(bufs) + NodePieces(b, p, left) == Lens(bufs + [v]) + NodePieces(b, p + v.len, left - v.len)
  {
    assert (bufs + [v])[..|bufs|] == bufs;
    assert NodePieces(b, p, left) == [v.len] + NodePieces(b, p + v.len, left - v.len);
  }

  class ByteArray {
    const baseSize: nat
    const swapped: bool            // the array's byte order is not the machine's
    var position: nat
    var capacity: nat
    var size: nat
    var root: Node
    var cur: Node?
    ghost var nodes: seq<Node>
    ghost var at: nat              // index of `cur` in the chain, or its length when `cur` is null

    ghost var links: set<Node>           // the nodes of the chain
    ghost var mems: set<array<byte>>     // and the memory they own

    ghost predicate Chain()
      reads this`nodes, this`root, this`capacity, this`links, this`mems, links
    {
      && baseSize > 0
      && |nodes| > 0 && nodes[0] == root
      && (forall i :: 0 <= i < |nodes| ==> nodes[i] in links && nodes[i].mem in mems)
      && capacity == Start(|nodes|, baseSize)
      && (forall i :: 0 <= i < |nodes| ==> nodes[i].mem.Length == baseSize)
      && (forall i {:trigger nodes[i].next} :: 0 <= i < |nodes| ==>
            nodes[i].next == if i + 1 < |nodes| then nodes[i + 1] else null)
      && (forall i, j :: 0 <= i < j < |nodes| ==> nodes[i] != nodes[j] && nodes[i].mem != nodes[j].mem)
    }

    /** `cur` is the node that holds `position`; it is null exactly when the array is filled to capacity. */
    ghost predicate Cursor()
      reads this`nodes, this`cur, this`at, this`position, this`capacity
    {
      if at < |nodes| then
        cur == nodes[at] && Start(at, baseSize) <= position < Start(at, baseSize) + baseSize
      else
        at == |nodes| && cur == null && position == capacity
    }

    ghost predicate Valid()
      reads this, links
    {
      Chain() && Cursor() && position <= size <= capacity
    }

    /** The memory this array may touch only ever grows, and only by newly allocated nodes. */
    twostate predicate Extends()
      reads this
    {
      old(links) <= links && old(mems) <= mems && fresh(links - old(links)) && fresh(mems - old(mems))
    }

    lemma BasePositive()
      requires Chain()
      ensures baseSize > 0
    {
    }

    /** All bytes of the chain, including the unused tail of the last node. */
    ghost function Flat(): seq<byte>
      reads this`nodes, this`root, this`capacity, this`links, this`mems, links, mems
      requires Chain()
    {
      Concat(Contents(nodes, mems))
    }

    lemma FlatLength()
      requires Chain()
      ensures Uniform(Contents(nodes, mems), baseSize) && |Flat()| == capacity
    {
      ConcatLength(Contents(nodes, mems), baseSize);
    }

    /** The bytes written so far: what the array means to its users. */
    ghost function Data(): (d: seq<byte>)
      reads this`size, this`nodes, this`root, this`capacity, this`links, this`mems, links, mems
      requires Chain() && size <= capacity
      ensures |d| == size
    {
      FlatLength();
      Flat()[..size]
    }

    constructor (base: nat)
      requires base > 0
      ensures Valid() && fresh(links) && fresh(mems) && baseSize == base && !swapped
      ensures position == 0 && size == 0 && capacity == base
    {
      var first := new Node(base);
      baseSize, swapped := base, false;
      position, capacity, size := 0, base, 0;
      root, cur := first, first;
      nodes, at, links, mems := [first], 0, {first}, {first.mem};
    }

    function ReadSize(): nat
      reads this
      requires position <= size
    {
      size - position
    }

    lemma Linked(n: Node, chain: seq<Node>, cap: nat)
      requires nodes == chain + [n] && |chain| > 0 && root == chain[0] && baseSize > 0
      requires cap == Start(|chain|, baseSize) && capacity == cap + baseSize
      requires n.next == null && n.mem.Length == baseSize && n in links && n.mem in mems
      requires chain[|chain| - 1].next == n
      requires forall i :: 0 <= i < |chain| ==>
        chain[i] in links && chain[i].mem in mems && chain[i].mem.Length == baseSize
      requires forall i {:trigger chain[i].next} :: 0 <= i < |chain| - 1 ==> chain[i].next == chain[i + 1]
      requires forall i, j :: 0 <= i < j < |chain| ==> chain[i] != chain[j] && chain[i].mem != chain[j].mem
      requires forall i :: 0 <= i < |chain| ==> chain[i] != n && chain[i].mem != n.mem
      ensures Chain()
    {
    }

    /** Links one more node behind `tail`, the last one. */
    method AppendNode(tail: Node) returns (n: Node)
      requires Chain() && tail == nodes[|nodes| - 1]
      modifies tail`next, this`nodes, this`links, this`mems, this`capacity
      ensures Chain() && Extends() && nodes == old(nodes) + [n]
      ensures capacity == old(capacity) + baseSize
      ensures |old(Flat())| == old(capacity) && |Flat()| == capacity
      ensures Flat()[..old(capacity)] == old(Flat())
    {
      FlatLength();
      ghost var bs := Contents(nodes, mems);
      n := new Node(baseSize);
      tail.next := n;
      nodes := nodes + [n];
      links, mems := links + {n}, mems + {n.mem};
      capacity := capacity + baseSize;
      Linked(n, old(nodes), old(capacity));
      hide Chain;
      assert Contents(nodes, mems) == bs + [n.mem[..]];
      assert Contents(nodes, mems)[..|bs|] == bs;
      FlatLength();
    }

    /** Walks to the end of the chain. */
    method LastNode() returns (tail: Node)
      requires Chain()
      ensures tail == nodes[|nodes| - 1]
    {
      tail := root;
      ghost var t := 0;
      while tail.next != null
        invariant 0 <= t < |nodes| && tail == nodes[t]
        invariant nodes[t].next == if t + 1 < |nodes| then nodes[t + 1] else null
        decreases |nodes| - t
      {
        tail := tail.next;
        t := t + 1;
      }
    }

    lemma LastIsOwned()
      requires Chain()
      ensures |nodes| > 0 && nodes[|nodes| - 1] in links
    {
    }

    /** Appends `count` nodes and returns the first of them. */
    method AppendNodes(count: nat) returns (first: Node?)
      requires Chain()
      modifies links, this`nodes, this`links, this`mems, this`capacity
      ensures Chain() && Extends()
      ensures |nodes| == |old(nodes)| + count && nodes[..|old(nodes)|] == old(nodes)
      ensures first == if count == 0 then null else nodes[|old(nodes)|]
      ensures capacity == old(capacity) + Start(count, baseSize)
      ensures |old(Flat())| == old(capacity) && |Flat()| == capacity
      ensures Flat()[..old(capacity)] == old(Flat())
    {
      hide Flat, Contents, Concat, Chain;
      FlatLength();
      LastIsOwned();
      var tail := LastNode();
      first := null;
      var i := 0;
      while i < count
        invariant 0 <= i <= count
        invariant Chain() && Extends()
        invariant 0 < |nodes| == |old(nodes)| + i && nodes[..|old(nodes)|] == old(nodes)
        invariant tail == nodes[|nodes| - 1]
        invariant first == if i == 0 then null else nodes[|old(nodes)|]
        invariant capacity == old(capacity) + Start(i, baseSize)
        invariant |Flat()| == capacity && Flat()[..old(capacity)] == old(Flat())
      {
        LastIsOwned();
        tail := AppendNode(tail);
        if first == null {
          first := tail;
        }
        i := i + 1;
      }
    }

    lemma CursorAtEnd()
      requires Chain() && Cursor()
      ensures at == |nodes| <==> position == capacity
      ensures Start(at, baseSize) <= position <= capacity
      ensures position < capacity ==> at < |nodes| && cur == nodes[at]
      ensures cur != null ==> cur.mem.Length == baseSize && cur.mem in mems
    {
      StartOrder(at, |nodes|, baseSize);
    }

    /** Grows the chain until `n` bytes fit behind the cursor; no byte already stored changes. */
    method AddCapacity(n: nat)
      requires Valid()
      modifies this, links
      ensures Valid() && Extends()
      ensures position == old(position) && size == old(size)
      ensures capacity == Grown(old(capacity), position + n, baseSize)
      ensures |Flat()| == capacity && old(|Flat()|) == old(capacity)
      ensures Flat()[..old(capacity)] == old(Flat())
    {
      hide Flat, Contents, Concat;
      FlatLength();
      CursorAtEnd();
      if n == 0 {
        return;
      }
      var oldCap := capacity - position;
      if oldCap >= n {
        return;
      }
      var missing := n - oldCap;
      var count := Ceil(missing, baseSize);
      CeilBounds(missing, baseSize);
      assert count > 0;
      var first := AppendNodes(count);
      if oldCap == 0 {
        cur := first;
      }
    }

    /** memcpy into the current node. */
    method CopyToNode(npos: nat, d: seq<byte>)
      requires Chain() && at < |nodes| && cur == nodes[at] && npos + |d| <= baseSize
      modifies cur.mem
      ensures |Flat()| == |old(Flat())| == capacity && Start(at, baseSize) + npos + |d| <= capacity
      ensures Flat() == Splice(old(Flat()), Start(at, baseSize) + npos, d)
    {
      FlatLength();
      ghost var bs := Contents(nodes, mems);
      ConcatSplice(bs, baseSize, at, npos, d);
      CopyInto(cur.mem, npos, d);
      assert Contents(nodes, mems) == bs[at := Splice(bs[at], npos, d)];
    }

    /** Moves the cursor on by `n`, leaving the current node once it is used up. */
    method Advance(npos: nat, n: nat)
      requires Chain() && at < |nodes| && cur == nodes[at] && npos + n <= baseSize && npos < baseSize
      requires position == Start(at, baseSize) + npos
      modifies this`cur, this`at, this`position
      ensures Cursor() && position == old(position) + n
      ensures at == if npos + n == baseSize then old(at) + 1 else old(at)
    {
      assert nodes[at].next == if at + 1 < |nodes| then nodes[at + 1] else null;
      position := position + n;
      if cur.mem.Length == npos + n {
        cur := cur.next;
        at := at + 1;
      }
    }

    /** Where in the current node the next byte goes. */
    function NodeOffset(): nat
      reads this`position
      requires baseSize > 0
    {
      position % baseSize
    }

    lemma CursorOffset()
      requires Chain() && Cursor() && cur != null
      ensures NodeOffset() < baseSize && position == Start(at, baseSize) + NodeOffset()
    {
      OffsetInBlock(at, baseSize, position - Start(at, baseSize));
    }

    /** One round of the copy loop: fills (part of) the current node and moves on. */
    method StoreInNode(npos: nat, d: seq<byte>)
      requires Chain() && at < |nodes| && cur == nodes[at] && npos + |d| <= baseSize
      requires npos < baseSize && position == Start(at, baseSize) + npos
      modifies cur.mem, this`cur, this`at, this`position
      ensures Cursor() && position == old(position) + |d| <= capacity
      ensures npos + |d| == baseSize ==> position == Start(at, baseSize)
      ensures |Flat()| == |old(Flat())| == capacity
      ensures Flat() == Splice(old(Flat()), old(position), d)
    {
      hide Flat;
      CopyToNode(npos, d);
      Advance(npos, |d|);
    }

    /** The copy loop of `write`, once the chain is long enough. */
    method WriteAcross(src: seq<byte>)
      requires Chain() && Cursor() && 0 < |src| && position + |src| <= capacity
      modifies this`cur, this`at, this`position, mems
      ensures Chain() && Cursor() && position == old(position) + |src|
      ensures |Flat()| == |old(Flat())| == capacity
      ensures Flat() == Splice(old(Flat()), old(position), src)
    {
      hide *;
      FlatLength();
      CursorAtEnd();
      CursorOffset();
      SpliceNothing(Flat(), position);
      var npos := NodeOffset();
      var ncap := cur.mem.Length - npos;
      var bpos := 0;
      var left := |src|;
      assert src[..bpos] == [];
      while left > 0
        invariant 0 <= left && bpos + left == |src| && bpos >= 0
        invariant Chain() && Cursor() && position == old(position) + bpos
        invariant left > 0 ==> 0 <= npos < baseSize && position == Start(at, baseSize) + npos && ncap == baseSize - npos
        invariant |Flat()| == capacity && Flat() == Splice(old(Flat()), old(position), src[..bpos])
      {
        var n := if ncap >= left then left else ncap;
        CursorAtEnd();
        StoreInNode(npos, src[bpos..bpos + n]);
        SpliceMore(old(Flat()), old(position), src, bpos, n);
        CursorAtEnd();
        bpos := bpos + n;
        if ncap >= left {
          left := 0;
        } else {
          left := left - ncap;
          ncap := cur.mem.Length;
          npos := 0;
        }
      }
      assert src[..bpos] == src;
    }

    /** Stores `src` at the cursor, across as many nodes as it takes. */
    method Write(src: seq<byte>)
      requires Valid()
      modifies this, links, mems
      ensures Valid() && Extends()
      ensures position == old(position) + |src| && size == Max(old(size), position)
      ensures capacity == Grown(old(capacity), position, baseSize)
      ensures Data() == Overwrite(old(Data()), old(position), src)
    {
      hide Contents, Concat;
      FlatLength();
      if |src| == 0 {
        assert Data() == Overwrite(old(Data()), old(position), src);
        return;
      }
      AddCapacity(|src|);
      ghost var flat := Flat();
      assert flat[..size] == old(Data());
      WriteAcross(src);
      if position > size {
        size := position;
      }
      SpliceIsOverwrite(flat, old(size), old(position), src);
    }

    lemma NodeSlice(npos: nat, n: nat)
      requires Chain() && at < |nodes| && cur == nodes[at] && npos + n <= baseSize
      ensures |Flat()| == capacity && Start(at, baseSize) + npos + n <= capacity
      ensures cur.mem[npos..npos + n] == Flat()[Start(at, baseSize) + npos..Start(at, baseSize) + npos + n]
    {
      FlatLength();
      var bs := Contents(nodes, mems);
      ConcatSlice(bs, baseSize, at, npos, n);
      assert bs[at] == cur.mem[..];
    }

    /** One round of the copy-out loop. */
    method TakeFromNode(npos: nat, n: nat) returns (piece: seq<byte>)
      requires Chain() && at < |nodes| && cur == nodes[at] && npos + n <= baseSize
      requires npos < baseSize && position == Start(at, baseSize) + npos
      modifies this`cur, this`at, this`position
      ensures Cursor() && position == old(position) + n <= capacity == |Flat()|
      ensures npos + n == baseSize ==> position == Start(at, baseSize)
      ensures piece == Flat()[old(position)..position]
    {
      NodeSlice(npos, n);
      hide Flat, Contents, Concat;
      piece := cur.mem[npos..npos + n];
      Advance(npos, n);
    }

    /** The copy loop of `read`. */
    method ReadAcross(n: nat) returns (out: seq<byte>)
      requires Chain() && Cursor() && cur != null && position + n <= capacity
      modifies this`position, this`cur, this`at
      ensures Cursor() && position == old(position) + n <= |Flat()|
      ensures out == Flat()[old(position)..position]
    {
      hide *;
      FlatLength();
      CursorAtEnd();
      CursorOffset();
      var npos := NodeOffset();
      var ncap := cur.mem.Length - npos;
      var left := n;
      out := [];
      while left > 0
        invariant 0 <= left <= n && position == old(position) + n - left
        invariant Cursor()
        invariant left > 0 ==> 0 <= npos < baseSize && position == Start(at, baseSize) + npos && ncap == baseSize - npos
        invariant out == Flat()[old(position)..position]
      {
        var k := if ncap >= left then left else ncap;
        CursorAtEnd();
        ghost var from := position;
        var piece := TakeFromNode(npos, k);
        JoinSlices(Flat(), old(position), from, position);
        out := out + piece;
        CursorAtEnd();
        if ncap >= left {
          left := 0;
        } else {
          left := left - ncap;
          ncap := cur.mem.Length;
          npos := 0;
        }
      }
    }

    /** Takes `n` bytes at the cursor, or reports why it cannot. Never changes stored bytes. */
    method Read(n: nat) returns (st: ReadStatus, out: seq<byte>)
      requires Valid()
      modifies this`position, this`cur, this`at
      ensures Valid()
      ensures st == if n > size - old(position) then OutOfRange
                    else if n == 0 && old(position) == capacity then NullCursor
                    else Done
      ensures st == Done ==> position == old(position) + n && out == Data()[old(position)..position]
      ensures st != Done ==> position == old(position) && out == []
    {
      hide Flat, Contents, Concat, Chain;
      if n > ReadSize() {
        return OutOfRange, [];
      }
      FlatLength();
      CursorAtEnd();
      if cur == null {
        return NullCursor, [];
      }
      out := ReadAcross(n);
      st := Done;
      SliceOfPrefix(Flat(), size, old(position), position);
    }

    lemma NextNode(i: nat)
      requires Chain() && i < |nodes|
      ensures Start(i + 1, baseSize) == Start(i, baseSize) + baseSize <= capacity && nodes[i].mem.Length == baseSize
      ensures Start(i + 1, baseSize) < capacity ==> i + 1 < |nodes| && nodes[i].next == nodes[i + 1]
      ensures Start(i + 1, baseSize) == capacity ==> i + 1 == |nodes| && nodes[i].next == null
    {
      StartOrder(i + 1, |nodes|, baseSize);
      assert nodes[i].next == if i + 1 < |nodes| then nodes[i + 1] else null;
    }

    /** Finds the node of byte `v` by walking from the root. */
    method Seek(v: nat)
      requires Chain() && v <= capacity
      modifies this`cur, this`at
      ensures if at < |nodes| then cur == nodes[at] && Start(at, baseSize) <= v < Start(at, baseSize) + baseSize
              else at == |nodes| && cur == null && v == capacity
    {
      cur, at := root, 0;
      var rest := v;
      NextNode(0);
      while rest > cur.mem.Length
        invariant 0 <= at < |nodes| && cur == nodes[at]
        invariant 0 <= rest && Start(at, baseSize) + rest == v
        decreases rest
      {
        NextNode(at);
        rest := rest - cur.mem.Length;
        cur, at := cur.next, at + 1;
      }
      NextNode(at);
      if rest == cur.mem.Length {
        cur, at := cur.next, at + 1;
      }
    }

    /** Moves the cursor, extending the data over bytes it skips; refuses to leave the chain. */
    method SetPosition(v: nat) returns (ok: bool)
      requires Valid()
      modifies this`position, this`cur, this`at, this`size
      ensures Valid()
      ensures ok == (v <= capacity)
      ensures ok ==> position == v && size == Max(old(size), v)
      ensures !ok ==> position == old(position) && size == old(size)
    {
      if v > capacity {
        return false;
      }
      position := v;
      if position > size {
        size := position;
      }
      hide Chain;
      Seek(v);
      ok := true;
    }

    /** `v` is a non-empty piece of one node, and its first byte is byte `p` of the array. */
    ghost predicate Covers(v: IoBuffer, p: nat)
      reads this`nodes
    {
      && v.len > 0
      && exists i :: 0 <= i < |nodes| && v.mem == nodes[i].mem && v.off + v.len <= baseSize &&
                     p == Start(i, baseSize) + v.off
    }

    /** The buffers cover bytes `p .. q` of the array, in order, without gap or overlap. */
    ghost predicate Tiles(bufs: seq<IoBuffer>, p: nat, q: nat)
      reads this`nodes
    {
      if bufs == [] then p == q
      else
        var v := bufs[|bufs| - 1];
        p + v.len <= q && Covers(v, q - v.len) && Tiles(bufs[..|bufs| - 1], p, q - v.len)
    }

    lemma TilesNone(p: nat)
      ensures Tiles([], p, p)
    {
    }

    /** Appending a piece of node `i` extends a tiling that ends where the piece starts. */
    lemma TilesPush(bufs: seq<IoBuffer>, v: IoBuffer, i: nat, p: nat)
      requires Chain() && i < |nodes| && v.mem == nodes[i].mem && 0 < v.len && v.off + v.len <= baseSize
      requires p <= Start(i, baseSize) + v.off && Tiles(bufs, p, Start(i, baseSize) + v.off)
      ensures Tiles(bufs + [v], p, Start(i, baseSize) + v.off + v.len)
    {
      assert (bufs + [v])[..|bufs|] == bufs;
      assert Covers(v, Start(i, baseSize) + v.off);
    }

    lemma CoveredSlice(v: IoBuffer, p: nat)
      requires Chain() && Covers(v, p)
      ensures v.off + v.len <= v.mem.Length && v.mem in mems && p + v.len <= |Flat()| == capacity
      ensures v.mem[v.off..v.off + v.len] == Flat()[p..p + v.len]
    {
      var i :| 0 <= i < |nodes| && v.mem == nodes[i].mem && v.off + v.len <= baseSize &&
               p == Start(i, baseSize) + v.off;
      FlatLength();
      var bs := Contents(nodes, mems);
      ConcatSlice(bs, baseSize, i, v.off, v.len);
      assert bs[i] == v.mem[..];
    }

    /** Buffers that tile `p .. q` hold exactly those bytes of the array. */
    lemma {:induction false} TilesGather(bufs: seq<IoBuffer>, p: nat, q: nat)
      requires Chain() && Tiles(bufs, p, q)
      ensures WellFormed(bufs) && Memory(bufs) <= mems && (forall v :: v in bufs ==> v.len > 0)
      ensures p <= q && (bufs != [] ==> q <= |Flat()|) && TotalLength(bufs) == q - p
      ensures bufs != [] ==> Gather(bufs) == Flat()[p..q]
      decreases |bufs|
    {
      hide Gather, Flat;
      if bufs != [] {
        var init, v := bufs[..|bufs| - 1], bufs[|bufs| - 1];
        CoveredSlice(v, q - v.len);
        TilesGather(init, p, q - v.len);
        assert bufs == init + [v];
        GatherSnoc(init, v);
        JoinSlices(Flat(), p, q - v.len, q);
        assert init == [] ==> Gather(init) == [] by {
          NothingGathered();
        }
      }
    }

    /** The same for buffers over stored data. */
    lemma TilesData(bufs: seq<IoBuffer>, p: nat, q: nat)
      requires Valid() && Tiles(bufs, p, q) && q <= size
      ensures WellFormed(bufs) && Memory(bufs) <= mems && (forall v :: v in bufs ==> v.len > 0)
      ensures p <= q && TotalLength(bufs) == q - p && Gather(bufs) == Data()[p..q]
    {
      hide Gather, Contents, Concat, Memory, TotalLength;
      TilesGather(bufs, p, q);
      FlatLength();
      if bufs == [] {
        NothingGathered();
      } else {
        SliceOfPrefix(Flat(), size, p, q);
      }
    }

    /** A byte of node `i` lies in a tiling buffer only if it is one of the bytes tiled. */
    lemma {:induction false} TilesInside(bufs: seq<IoBuffer>, p: nat, q: nat, i: nat, k: nat)
      requires Chain() && Tiles(bufs, p, q) && i < |nodes| && k < baseSize
      requires Inside(bufs, nodes[i].mem, k)
      ensures p <= Start(i, baseSize) + k < q
      decreases |bufs|
    {
      var last := bufs[|bufs| - 1];
      var u :| u in bufs && u.mem == nodes[i].mem && u.off <= k < u.off + u.len;
      if u == last {
        var j :| 0 <= j < |nodes| && u.mem == nodes[j].mem && u.off + u.len <= baseSize &&
                 q - u.len == Start(j, baseSize) + u.off;
        assert i == j;
        TilesGather(bufs[..|bufs| - 1], p, q - u.len);
      } else {
        var init := bufs[..|bufs| - 1];
        assert u in init;
        TilesInside(init, p, q - last.len, i, k);
      }
    }

    /** A tiling buffer ends before any byte behind the tiling that lies in the same node. */
    lemma TilesBefore(bufs: seq<IoBuffer>, p: nat, q: nat, u: IoBuffer, j: nat, off: nat)
      requires Chain() && Tiles(bufs, p, q) && u in bufs && j < |nodes| && u.mem == nodes[j].mem
      requires off <= baseSize && q == Start(j, baseSize) + off
      ensures u.off + u.len <= off
    {
      hide Tiles, Gather, Flat, Covers;
      TilesGather(bufs, p, q);
      assert u.len > 0 && u.off + u.len <= u.mem.Length;
      assert Inside(bufs, nodes[j].mem, u.off + u.len - 1);
      TilesInside(bufs, p, q, j, u.off + u.len - 1);
    }

    lemma {:induction false} TilesDisjoint(bufs: seq<IoBuffer>, p: nat, q: nat)
      requires Chain() && Tiles(bufs, p, q)
      ensures Disjoint(bufs)
      decreases |bufs|
    {
      hide Chain;
      if bufs != [] {
        var init, v := bufs[..|bufs| - 1], bufs[|bufs| - 1];
        TilesDisjoint(init, p, q - v.len);
        var j :| 0 <= j < |nodes| && v.mem == nodes[j].mem && v.off + v.len <= baseSize &&
                 q - v.len == Start(j, baseSize) + v.off;
        forall i | 0 <= i < |init| && init[i].mem == v.mem
          ensures init[i].off + init[i].len <= v.off
        {
          TilesBefore(init, p, q - v.len, init[i], j, v.off);
        }
      }
    }

    /** Every byte of the chain that the buffers do not hold is as it is in `flat`. */
    ghost predicate SameOutside(bufs: seq<IoBuffer>, flat: seq<byte>)
      reads this`nodes, mems, this`mems
      requires forall i :: 0 <= i < |nodes| ==> nodes[i].mem in mems && nodes[i].mem.Length == baseSize
    {
      forall i, k :: 0 <= i < |nodes| && 0 <= k < baseSize && !Inside(bufs, nodes[i].mem, k) ==>
        Start(i, baseSize) + k < |flat| && nodes[i].mem[k] == flat[Start(i, baseSize) + k]
    }

    lemma ByteOutside(bufs: seq<IoBuffer>, p: nat, q: nat, flat: seq<byte>, x: nat)
      requires Chain() && Tiles(bufs, p, q) && |flat| == capacity && x < capacity && !(p <= x < q)
      requires SameOutside(bufs, flat)
      ensures x < |Flat()| && Flat()[x] == flat[x]
    {
      hide Tiles, Inside, Concat;
      FlatLength();
      ConcatAt(Contents(nodes, mems), baseSize, x);
      var i, k := x / baseSize, x % baseSize;
      if Inside(bufs, nodes[i].mem, k) {
        TilesInside(bufs, p, q, i, k);
      }
    }

    /** Changing what tiling buffers hold, and nothing else, splices the array's bytes. */
    lemma ScatterIsSplice(bufs: seq<IoBuffer>, p: nat, q: nat, flat: seq<byte>, got: seq<byte>)
      requires Chain() && Tiles(bufs, p, q) && bufs != [] && |flat| == capacity && p <= q <= capacity && |got| <= q - p
      requires WellFormed(bufs) && Gather(bufs) == Splice(flat[p..q], 0, got)
      requires SameOutside(bufs, flat)
      ensures Flat() == Splice(flat, p, got)
    {
      hide Gather, SameOutside, Tiles, Flat;
      FlatLength();
      TilesGather(bufs, p, q);
      forall x | 0 <= x < capacity && !(p <= x < q)
        ensures Flat()[x] == flat[x]
      {
        ByteOutside(bufs, p, q, flat, x);
      }
      SplicedBetween(Flat(), flat, p, q, got);
    }

    lemma NodeByte(i: nat, k: nat)
      requires Chain() && i < |nodes| && k < baseSize
      ensures Start(i, baseSize) + k < capacity == |Flat()| && Flat()[Start(i, baseSize) + k] == nodes[i].mem[k]
    {
      FlatLength();
      var bs := Contents(nodes, mems);
      ConcatSlice(bs, baseSize, i, k, 1);
      var x := Start(i, baseSize) + k;
      assert Flat()[x] == Flat()[x..x + 1][0] == bs[i][k..k + 1][0];
    }

    /** The loop shared by `getReadBuffers` and `getWriteBuffers`: cut `n` bytes at the cursor along node borders. */
    method CutAtCursor(n: nat) returns (bufs: seq<IoBuffer>)
      requires Chain() && Cursor() && 0 < n && position + n <= capacity
      ensures Tiles(bufs, position, position + n)
      ensures Lens(bufs) == NodePieces(baseSize, position, n)
    {
      hide *;
      CursorAtEnd();
      CursorOffset();
      var npos := NodeOffset();
      var ncap := cur.mem.Length - npos;
      var node := cur;
      NoLens(baseSize, position, n);
      ghost var i := at;
      var left := n;
      bufs := [];
      TilesNone(position);
      while left > 0
        invariant 0 <= left <= n
        invariant left > 0 ==> 0 <= i < |nodes| && node == nodes[i] && 0 <= npos < baseSize && ncap == baseSize - npos
                               && position + n - left == Start(i, baseSize) + npos
        invariant Tiles(bufs, position, position + n - left)
        invariant NodePieces(baseSize, position, n) == Lens(bufs) + NodePieces(baseSize, position + n - left, left)
      {
        OffsetInBlock(i, baseSize, npos);
        if ncap >= left {
          NextPiece(bufs, IoBuffer(node.mem, npos, left), baseSize, position + n - left, left);
          TilesPush(bufs, IoBuffer(node.mem, npos, left), i, position);
          bufs := bufs + [IoBuffer(node.mem, npos, left)];
          left := 0;
        } else {
          NextPiece(bufs, IoBuffer(node.mem, npos, ncap), baseSize, position + n - left, left);
          TilesPush(bufs, IoBuffer(node.mem, npos, ncap), i, position);
          bufs := bufs + [IoBuffer(node.mem, npos, ncap)];
          left := left - ncap;
          NextNode(i);
          node := node.next;
          i := i + 1;
          NextNode(i);
          ncap := node.mem.Length;
          npos := 0;
        }
      }
    }

    /** Buffers over the next readable bytes, at most `len` of them; the cursor stays. */
    method GetReadBuffers(len: nat) returns (bufs: seq<IoBuffer>, n: nat)
      requires Valid()
      ensures n == Min(len, size - position)
      ensures Tiles(bufs, position, position + n)
      ensures Lens(bufs) == NodePieces(baseSize, position, n)
    {
      n := if len > ReadSize() then ReadSize() else len;
      if n == 0 {
        return [], 0;
      }
      bufs := CutAtCursor(n);
    }

    method ReserveAtCursor(len: nat) returns (bufs: seq<IoBuffer>)
      requires Valid() && 0 < len
      modifies this, links
      ensures Valid() && Extends()
      ensures position == old(position) && size == old(size)
      ensures capacity == Grown(old(capacity), position + len, baseSize)
      ensures Tiles(bufs, position, position + len)
      ensures Lens(bufs) == NodePieces(baseSize, position, len)
      ensures Data() == old(Data())
    {
      hide Contents, Concat, Tiles, Grown;
      AddCapacity(len);
      assert Data() == old(Data());
      hide Data, Flat;
      assert position + len <= capacity;
      bufs := CutAtCursor(len);
    }

    /** Buffers over `len` writable bytes behind the cursor, growing the chain for them; cursor and data stay. */
    method GetWriteBuffers(len: nat) returns (bufs: seq<IoBuffer>, n: nat)
      requires Valid()
      modifies this, links
      ensures Valid() && Extends()
      ensures n == len && position == old(position) && size == old(size)
      ensures capacity == Grown(old(capacity), position + len, baseSize)
      ensures Tiles(bufs, position, position + n)
      ensures Lens(bufs) == NodePieces(baseSize, position, n)
      ensures Data() == old(Data())
    {
      hide Contents, Concat, Grown, Chain;
      n := len;
      if len == 0 {
        return [], 0;
      }
      bufs := ReserveAtCursor(len);
    }
  }
}
