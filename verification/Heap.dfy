/** The allocator and the packed nodes it holds. Blocks live at machine addresses; malloc may return
    any unused address with any bytes in it, realloc may move the block or leave it where it is.
    Touching a block that is not live, or bytes outside a block, is excluded by preconditions. */
module Heap {
  import opened Bytes
  import opened NodeLayout
  import opened Sets

  type Memory = map<Addr, seq<Byte>>

  /** The block at a packs v. */
  ghost predicate Stores(mem: Memory, a: Addr, v: NodeView) {
    a in mem && Fits(v) && mem[a] == Encode(v)
  }

  /** The block at a became the block b at a', possibly at a new address; nothing else changed. */
  ghost predicate Moved(before: Memory, after: Memory, a: Addr, a': Addr, b: seq<Byte>) {
    a in before && (a' == a || a' !in before) && after == (before - {a})[a' := b]
  }

  /** There is an address malloc can return. */
  ghost predicate HasRoom(mem: Memory) {
    exists a: Addr :: a !in mem
  }

  /** Fewer live blocks than addresses leave room for one more. */
  lemma RoomFor(mem: Memory)
    requires |mem| < 0xFFFF_FFFF_FFFF_FFFF
    ensures HasRoom(mem)
  {
    var all := AddressesUpTo(0xFFFF_FFFF_FFFF_FFFF);
    if forall a: Addr :: a in mem {
      SubsetSize(all, mem.Keys);
      assert false;
    }
  }

  ghost function AddressesUpTo(k: nat): (s: set<Addr>)
    requires k < 0x1_0000_0000_0000_0000
    ensures |s| == k && forall a: Addr :: a in s <==> a <= k
  {
    if k == 0 then {} else AddressesUpTo(k - 1) + {k as Addr}
  }

  class Heap {
    var mem: Memory

    constructor ()
      ensures mem == map[]
    {
      mem := map[];
    }

    // ----- the C library

    method Malloc(size: nat) returns (a: Addr)
      requires HasRoom(mem)
      modifies this
      ensures a !in old(mem) && a in mem && |mem[a]| == size
      ensures mem == old(mem)[a := mem[a]]
    {
      a :| a !in mem;
      mem := mem[a := seq(size, _ => 0)];
    }

    method Realloc(a: Addr, size: nat) returns (a': Addr)
      requires a in mem
      modifies this
      ensures a' in mem && |mem[a']| == size && Moved(old(mem), mem, a, a', mem[a'])
      ensures forall i :: 0 <= i < size && i < |old(mem)[a]| ==> mem[a'][i] == old(mem)[a][i]
    {
      a' :| a' == a || a' !in mem;
      var b := mem[a];
      mem := (mem - {a})[a' := seq(size, i requires 0 <= i < size => if i < |b| then b[i] else 0)];
    }

    method Free(a: Addr)
      requires a in mem
      modifies this
      ensures mem == old(mem) - {a}
    {
      mem := mem - {a};
    }

    method Memcpy(a: Addr, off: nat, bytes: seq<Byte>)
      requires a in mem && off + |bytes| <= |mem[a]|
      modifies this
      ensures mem == old(mem)[a := Splice(old(mem)[a], off, bytes)]
    {
      mem := mem[a := Splice(mem[a], off, bytes)];
    }

    // ----- the setters of `node`; each is one memcpy into the live block

    method SetRefcount(a: Addr, value: nat)
      requires a in mem && |mem[a]| >= HEADER
      modifies this
      ensures mem == old(mem)[a := WithRefcount(old(mem)[a], value)]
    {
      Memcpy(a, 0, U32Word(value));
    }

    method SetPrefix(a: Addr, bytes: seq<Byte>)
      requires a in mem && WellSized(mem[a]) && |bytes| == PrefixLength(mem[a])
      modifies this
      ensures mem == old(mem)[a := WithPrefix(old(mem)[a], bytes)]
    {
      Memcpy(a, HEADER, bytes);
    }

    method SetFirstBytes(a: Addr, bytes: seq<Byte>)
      requires a in mem && WellSized(mem[a]) && |bytes| == EdgeCount(mem[a])
      modifies this
      ensures mem == old(mem)[a := WithFirstBytes(old(mem)[a], bytes)]
    {
      Memcpy(a, FirstBytes(mem[a]), bytes);
    }

    method SetNodePtrs(a: Addr, bytes: seq<Byte>)
      requires a in mem && WellSized(mem[a]) && |bytes| == 8 * EdgeCount(mem[a])
      modifies this
      ensures mem == old(mem)[a := WithNodePtrs(old(mem)[a], bytes)]
    {
      Memcpy(a, NodePtrs(mem[a]), bytes);
    }

    method SetNodeAt(a: Addr, i: nat, child: Addr)
      requires a in mem && WellSized(mem[a]) && i < EdgeCount(mem[a])
      modifies this
      ensures mem == old(mem)[a := WithNodeAt(old(mem)[a], i, child)]
    {
      Memcpy(a, NodePtrs(mem[a]) + 8 * i, PointerWord(child));
    }

    method SetEdgeAt(a: Addr, i: nat, byte: Byte, child: Addr)
      requires a in mem && WellSized(mem[a]) && i < EdgeCount(mem[a])
      modifies this
      ensures mem == old(mem)[a := WithEdgeAt(old(mem)[a], i, byte, child)]
    {
      ghost var b := Write(mem[a], FirstBytes(mem[a]) + i, [byte]);
      Memcpy(a, FirstBytes(mem[a]) + i, [byte]);
      assert mem[a] == b;
      SetNodeAt(a, i, child);
    }

    /** resize: realloc to the exact size, then rewrite both lengths in the header. */
    method Resize(a: Addr, prefixLength: nat, edges: nat) returns (a': Addr)
      requires a in mem && |mem[a]| >= HEADER
      modifies this
      ensures a' in mem && Moved(old(mem), mem, a, a', mem[a'])
      ensures Resized(old(mem)[a], mem[a'], prefixLength, edges)
    {
      a' := Realloc(a, BlockSize(prefixLength, edges));
      ghost var b := mem[a'];
      Memcpy(a', 4, U32Word(prefixLength));
      ghost var b1 := mem[a'];
      SpliceKeepsBelow(b, 4, U32Word(prefixLength), 0, 4);
      assert b1[0..4] == b[0..4] == old(mem)[a][..4];
      assert b1[4..8] == U32Word(prefixLength);
      Memcpy(a', 8, U32Word(edges));
      ghost var b2 := mem[a'];
      SpliceKeepsBelow(b1, 8, U32Word(edges), 0, 4);
      SpliceKeepsBelow(b1, 8, U32Word(edges), 4, 8);
      assert b2[..HEADER] == b2[0..4] + b2[4..8] + b2[8..12];
    }

    method MakeNode(refs: nat, prefixLength: nat, edges: nat) returns (a: Addr)
      requires HasRoom(mem)
      modifies this
      ensures a !in old(mem) && a in mem && mem == old(mem)[a := mem[a]]
      ensures |mem[a]| == BlockSize(prefixLength, edges)
      ensures mem[a][..HEADER] == Header(refs, prefixLength, edges)
    {
      a := Malloc(BlockSize(prefixLength, edges));
      Memcpy(a, 0, U32Word(refs));
      ghost var b1 := mem[a];
      Memcpy(a, 4, U32Word(prefixLength));
      ghost var b2 := mem[a];
      SpliceKeepsBelow(b1, 4, U32Word(prefixLength), 0, 4);
      Memcpy(a, 8, U32Word(edges));
      ghost var b3 := mem[a];
      SpliceKeepsBelow(b2, 8, U32Word(edges), 0, 4);
      SpliceKeepsBelow(b2, 8, U32Word(edges), 4, 8);
      assert b3[..HEADER] == b3[0..4] + b3[4..8] + b3[8..12];
    }

    // ----- the edits insert and erase make to one packed node

    /** A leaf holding one occurrence of the rest of a key. */
    method NewLeaf(bytes: seq<Byte>) returns (a: Addr)
      requires HasRoom(mem) && |bytes| < U32_LIMIT
      modifies this
      ensures a !in old(mem) && mem == old(mem)[a := Encode(NodeView(1, bytes, [], []))]
    {
      a := MakeNode(1, |bytes|, 0);
      ghost var b := mem[a];
      ghost var v := NodeView(1, bytes, [], []);
      FilledPacks(b, v);
      SetPrefix(a, bytes);
      PrefixOnlyPacks(b, v);
    }

    /** memmove of the pointer chunk one byte right, into the room resize made. */
    method ShiftRight(a: Addr)
      requires a in mem && WellSized(mem[a]) && EdgeCount(mem[a]) > 0
      modifies this
      ensures mem == old(mem)[a := ShiftedRight(old(mem)[a])]
    {
      var off := NodePtrs(mem[a]);
      Memcpy(a, off, mem[a][off - 1..off - 1 + 8 * (EdgeCount(mem[a]) - 1)]);
    }

    /** memmove of the pointer chunk one byte left, over the last first byte. */
    method ShiftLeft(a: Addr)
      requires a in mem && WellSized(mem[a]) && EdgeCount(mem[a]) > 0
      modifies this
      ensures mem == old(mem)[a := ShiftedLeft(old(mem)[a])]
    {
      Memcpy(a, NodePtrs(mem[a]) - 1, NodePtrsOf(mem[a]));
    }

    /** One more edge: resize, shift the pointer chunk one byte right, write the last slot. */
    method AppendEdge(a: Addr, byte: Byte, child: Addr, ghost v: NodeView) returns (a': Addr)
      requires Stores(mem, a, v) && |v.firsts| + 1 < U32_LIMIT
      modifies this
      ensures Moved(old(mem), mem, a, a', Encode(v.(firsts := v.firsts + [byte], ptrs := v.ptrs + [child])))
    {
      EncodeReads(v);
      a' := Resize(a, PrefixLength(mem[a]), EdgeCount(mem[a]) + 1);
      AppendedPacks(v, mem[a'], byte, child);
      WriteLastEdge(a', byte, child);
    }

    method WriteLastEdge(a: Addr, byte: Byte, child: Addr)
      requires a in mem && WellSized(mem[a]) && EdgeCount(mem[a]) > 0
      modifies this
      ensures var b := old(mem)[a];
              mem == old(mem)[a := WithEdgeAt(ShiftedRight(b), EdgeCount(b) - 1, byte, child)]
    {
      ghost var s := ShiftedRight(mem[a]);
      ShiftRight(a);
      assert mem[a] == s;
      SetEdgeAt(a, EdgeCount(mem[a]) - 1, byte, child);
    }

    /** A copy of the part of a node after the first j prefix bytes, with the node's key and edges. */
    method CopyTail(a: Addr, j: nat, ghost v: NodeView) returns (t: Addr)
      requires HasRoom(mem) && Stores(mem, a, v) && j <= |v.prefix|
      modifies this
      ensures t !in old(mem) && mem == old(mem)[t := Encode(v.(prefix := v.prefix[j..]))]
    {
      EncodeReads(v);
      ghost var w := v.(prefix := v.prefix[j..]);
      t := MakeNode(Refcount(mem[a]), PrefixLength(mem[a]) - j, EdgeCount(mem[a]));
      ghost var b := mem[t];
      FilledPacks(b, w);
      SetPrefix(t, PrefixOf(mem[a])[j..]);
      SetFirstBytes(t, FirstBytesOf(mem[a]));
      SetNodePtrs(t, NodePtrsOf(mem[a]));
    }

    /** The node keeps its first j prefix bytes, loses its key and gets two edges. */
    method Fork(a: Addr, j: nat, x0: Byte, a0: Addr, x1: Byte, a1: Addr, ghost v: NodeView) returns (a': Addr)
      requires Stores(mem, a, v) && j <= |v.prefix|
      modifies this
      ensures Moved(old(mem), mem, a, a', Encode(NodeView(0, v.prefix[..j], [x0, x1], [a0, a1])))
    {
      EncodeReads(v);
      a' := Resize(a, j, 2);
      ForkPacks(v, mem[a'], j, x0, a0, x1, a1);
      WriteFork(a', x0, a0, x1, a1);
    }

    method WriteFork(a: Addr, x0: Byte, a0: Addr, x1: Byte, a1: Addr)
      requires a in mem && WellSized(mem[a]) && EdgeCount(mem[a]) == 2
      modifies this
      ensures mem == old(mem)[a := WithEdgeAt(WithEdgeAt(WithRefcount(old(mem)[a], 0), 0, x0, a0), 1, x1, a1)]
    {
      ghost var r1 := WithRefcount(mem[a], 0);
      SetRefcount(a, 0);
      assert mem[a] == r1;
      ghost var r2 := WithEdgeAt(r1, 0, x0, a0);
      SetEdgeAt(a, 0, x0, a0);
      assert mem[a] == r2;
      SetEdgeAt(a, 1, x1, a1);
    }

    /** The node keeps its first j prefix bytes, holds the key that ends there and gets one edge. */
    method KeepFront(a: Addr, j: nat, x: Byte, child: Addr, ghost v: NodeView) returns (a': Addr)
      requires Stores(mem, a, v) && j <= |v.prefix|
      modifies this
      ensures Moved(old(mem), mem, a, a', Encode(NodeView(1, v.prefix[..j], [x], [child])))
    {
      EncodeReads(v);
      a' := Resize(a, j, 1);
      KeyedFrontPacks(v, mem[a'], j, x, child);
      SetEdgeAt(a', 0, x, child);
      SetRefcount(a', 1);
    }

    /** The node a absorbs the prefix, key and edges of the node c, whose block is then freed by the caller. */
    method Absorb(a: Addr, c: Addr, ghost v: NodeView, ghost w: NodeView) returns (a': Addr)
      requires a != c && Stores(mem, a, v) && Stores(mem, c, w) && |v.prefix| + |w.prefix| < U32_LIMIT
      modifies this
      ensures Moved(old(mem), mem, a, a', Encode(Merged(v, w)))
    {
      EncodeReads(v);
      var k := PrefixLength(mem[a]);
      a' := ResizeFor(a, c, v, w);
      CopyInto(a', c, k);
    }

    method ResizeFor(a: Addr, c: Addr, ghost v: NodeView, ghost w: NodeView) returns (a': Addr)
      requires a != c && Stores(mem, a, v) && Stores(mem, c, w) && |v.prefix| + |w.prefix| < U32_LIMIT
      modifies this
      ensures a' != c && a' in mem && Moved(old(mem), mem, a, a', mem[a'])
      ensures c in mem && WellSized(mem[a']) && WellSized(mem[c])
      ensures PrefixLength(mem[a']) == |v.prefix| + PrefixLength(mem[c]) && EdgeCount(mem[a']) == EdgeCount(mem[c])
      ensures Absorbed(mem[a'], mem[c], |v.prefix|) == Encode(Merged(v, w))
    {
      EncodeReads(v);
      EncodeReads(w);
      a' := Resize(a, PrefixLength(mem[a]) + PrefixLength(mem[c]), EdgeCount(mem[c]));
      AbsorbPacks(v, w, mem[a']);
    }

    /** Everything but the header lengths of c, copied behind the first k prefix bytes of a. */
    method CopyInto(a: Addr, c: Addr, k: nat)
      requires a != c && a in mem && c in mem && WellSized(mem[a]) && WellSized(mem[c])
      requires PrefixLength(mem[a]) == k + PrefixLength(mem[c]) && EdgeCount(mem[a]) == EdgeCount(mem[c])
      modifies this
      ensures mem == old(mem)[a := Absorbed(old(mem)[a], old(mem)[c], k)]
    {
      ghost var d := mem[c];
      ghost var r1 := Write(mem[a], HEADER + k, PrefixOf(d));
      Memcpy(a, HEADER + k, PrefixOf(mem[c]));
      assert mem[a] == r1 && mem[c] == d;
      ghost var r2 := WithFirstBytes(r1, FirstBytesOf(d));
      SetFirstBytes(a, FirstBytesOf(mem[c]));
      assert mem[a] == r2 && mem[c] == d;
      ghost var r3 := WithNodePtrs(r2, NodePtrsOf(d));
      SetNodePtrs(a, NodePtrsOf(mem[c]));
      assert mem[a] == r3 && mem[c] == d;
      SetRefcount(a, Refcount(mem[c]));
    }

    /** One edge less: the last edge moves into slot i, the pointers shift one byte left, the block shrinks. */
    method RemoveEdge(a: Addr, i: nat, ghost v: NodeView) returns (a': Addr)
      requires Stores(mem, a, v) && i < |v.ptrs|
      modifies this
      ensures Moved(old(mem), mem, a, a', Encode(WithoutEdge(v, i)))
    {
      MoveLastEdge(a, i, v);
      ghost var n := |v.firsts| - 1;
      ghost var w := v.(firsts := v.firsts[i := v.firsts[n]], ptrs := v.ptrs[i := v.ptrs[n]]);
      assert mem == old(mem)[a := Encode(w)];
      a' := DropLastEdge(a, w);
    }

    method MoveLastEdge(a: Addr, i: nat, ghost v: NodeView)
      requires Stores(mem, a, v) && i < |v.ptrs|
      modifies this
      ensures var n := |v.firsts| - 1;
              mem == old(mem)[a := Encode(v.(firsts := v.firsts[i := v.firsts[n]], ptrs := v.ptrs[i := v.ptrs[n]]))]
    {
      EncodeReads(v);
      var last := EdgeCount(mem[a]) - 1;
      NodeAtReads(v, last);
      var byte := mem[a][FirstBytes(mem[a]) + last];
      var child: Addr := NodeAt(mem[a], last);
      EdgeAtPacks(v, i, byte, child);
      SetEdgeAt(a, i, byte, child);
    }

    method DropLastEdge(a: Addr, ghost v: NodeView) returns (a': Addr)
      requires Stores(mem, a, v) && |v.firsts| > 0
      modifies this
      ensures Moved(old(mem), mem, a, a',
                    Encode(v.(firsts := v.firsts[..|v.firsts| - 1], ptrs := v.ptrs[..|v.ptrs| - 1])))
    {
      EncodeReads(v);
      ShiftLeft(a);
      ghost var s := ShiftedLeft(Encode(v));
      assert mem == old(mem)[a := s];
      a' := Resize(a, PrefixLength(mem[a]), EdgeCount(mem[a]) - 1);
      DropLastPacks(v, mem[a']);
    }
  }
}
