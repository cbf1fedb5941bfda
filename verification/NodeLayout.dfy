/** The packed node: a header of three 32-bit words, then the prefix, the first bytes and the
    child pointers (radix_tree.hpp, "Wrapper type for a node's data layout"). */
module NodeLayout {
  import opened Bytes

  /** What a packed block says. */
  datatype NodeView = NodeView(refs: nat, prefix: seq<Byte>, firsts: seq<Byte>, ptrs: seq<Addr>)

  const HEADER := 12

  ghost predicate Fits(v: NodeView) {
    v.refs < U32_LIMIT && |v.prefix| < U32_LIMIT && |v.firsts| == |v.ptrs| < U32_LIMIT
  }

  /** A header, the prefix, and one byte and one 8-byte pointer per edge. */
  function BlockSize(prefixLength: nat, edges: nat): (size: nat) {
    HEADER + prefixLength + 9 * edges
  }

  function PointerChunk(ptrs: seq<Addr>): (bytes: seq<Byte>)
    ensures |bytes| == 8 * |ptrs|
  {
    if ptrs == [] then [] else PointerWord(ptrs[0]) + PointerChunk(ptrs[1..])
  }

  function Header(refs: nat, prefixLength: nat, edges: nat): (bytes: seq<Byte>)
    ensures |bytes| == HEADER
  {
    U32Word(refs) + U32Word(prefixLength) + U32Word(edges)
  }

  /** The block that holds a node. */
  function Encode(v: NodeView): (b: seq<Byte>)
    requires |v.firsts| == |v.ptrs|
    ensures |b| == BlockSize(|v.prefix|, |v.firsts|)
  {
    Header(v.refs, |v.prefix|, |v.firsts|) + v.prefix + v.firsts + PointerChunk(v.ptrs)
  }

  // ----- the accessors of `node`, on the bytes of a block

  function Refcount(b: seq<Byte>): (n: nat)
    requires |b| >= HEADER
  {
    ReadU32(b, 0)
  }

  function PrefixLength(b: seq<Byte>): (n: nat)
    requires |b| >= HEADER
  {
    ReadU32(b, 4)
  }

  function EdgeCount(b: seq<Byte>): (n: nat)
    requires |b| >= HEADER
  {
    ReadU32(b, 8)
  }

  /** The block has the size its header asks for. */
  predicate WellSized(b: seq<Byte>) {
    |b| >= HEADER && |b| == BlockSize(PrefixLength(b), EdgeCount(b))
  }

  /** Offset of the chunk of first bytes. */
  function FirstBytes(b: seq<Byte>): (off: nat)
    requires WellSized(b)
    ensures HEADER <= off <= |b| - 9 * EdgeCount(b)
  {
    HEADER + PrefixLength(b)
  }

  /** Offset of the chunk of child pointers. */
  function NodePtrs(b: seq<Byte>): (off: nat)
    requires WellSized(b)
    ensures HEADER <= off <= |b| - 8 * EdgeCount(b)
  {
    HEADER + PrefixLength(b) + EdgeCount(b)
  }

  function PrefixOf(b: seq<Byte>): (bytes: seq<Byte>)
    requires WellSized(b)
    ensures |bytes| == PrefixLength(b)
  {
    b[HEADER..HEADER + PrefixLength(b)]
  }

  function FirstBytesOf(b: seq<Byte>): (bytes: seq<Byte>)
    requires WellSized(b)
    ensures |bytes| == EdgeCount(b)
  {
    b[FirstBytes(b)..FirstBytes(b) + EdgeCount(b)]
  }

  function NodePtrsOf(b: seq<Byte>): (bytes: seq<Byte>)
    requires WellSized(b)
    ensures |bytes| == 8 * EdgeCount(b)
  {
    b[NodePtrs(b)..NodePtrs(b) + 8 * EdgeCount(b)]
  }

  function NodeAt(b: seq<Byte>, i: nat): (p: nat)
    requires WellSized(b) && i < EdgeCount(b)
  {
    ReadU64(b, NodePtrs(b) + 8 * i)
  }

  // ----- the setters of `node`, as the block they leave

  ghost predicate SameLengths(b: seq<Byte>, r: seq<Byte>)
    requires |b| >= HEADER
  {
    |r| == |b| && PrefixLength(r) == PrefixLength(b) && EdgeCount(r) == EdgeCount(b)
  }

  /** The block after bytes behind its header were overwritten. */
  function Write(b: seq<Byte>, off: nat, bytes: seq<Byte>): (r: seq<Byte>)
    requires |b| >= HEADER && HEADER <= off && off + |bytes| <= |b|
    ensures SameLengths(b, r)
  {
    SpliceKeepsBelow(b, off, bytes, 4, 8);
    SpliceKeepsBelow(b, off, bytes, 8, 12);
    Splice(b, off, bytes)
  }

  function WithRefcount(b: seq<Byte>, value: nat): (r: seq<Byte>)
    requires |b| >= HEADER
    ensures SameLengths(b, r)
  {
    SpliceKeepsAbove(b, 0, U32Word(value), 4, 8);
    SpliceKeepsAbove(b, 0, U32Word(value), 8, 12);
    Splice(b, 0, U32Word(value))
  }

  function WithPrefix(b: seq<Byte>, bytes: seq<Byte>): (r: seq<Byte>)
    requires WellSized(b) && |bytes| == PrefixLength(b)
    ensures SameLengths(b, r)
  {
    Write(b, HEADER, bytes)
  }

  function WithFirstBytes(b: seq<Byte>, bytes: seq<Byte>): (r: seq<Byte>)
    requires WellSized(b) && |bytes| == EdgeCount(b)
    ensures SameLengths(b, r)
  {
    Write(b, FirstBytes(b), bytes)
  }

  function WithNodePtrs(b: seq<Byte>, bytes: seq<Byte>): (r: seq<Byte>)
    requires WellSized(b) && |bytes| == 8 * EdgeCount(b)
    ensures SameLengths(b, r)
  {
    Write(b, NodePtrs(b), bytes)
  }

  function WithNodeAt(b: seq<Byte>, i: nat, child: Addr): (r: seq<Byte>)
    requires WellSized(b) && i < EdgeCount(b)
    ensures SameLengths(b, r)
  {
    Write(b, NodePtrs(b) + 8 * i, PointerWord(child))
  }

  function WithEdgeAt(b: seq<Byte>, i: nat, byte: Byte, child: Addr): (r: seq<Byte>)
    requires WellSized(b) && i < EdgeCount(b)
    ensures SameLengths(b, r)
  {
    WithNodeAt(Write(b, FirstBytes(b) + i, [byte]), i, child)
  }

  // ----- a packed node reads back

  lemma HeaderReads(b: seq<Byte>, refs: nat, prefixLength: nat, edges: nat)
    requires |b| >= HEADER && b[..HEADER] == Header(refs, prefixLength, edges)
    ensures Refcount(b) == refs % U32_LIMIT
    ensures PrefixLength(b) == prefixLength % U32_LIMIT
    ensures EdgeCount(b) == edges % U32_LIMIT
  {
    var h := Header(refs, prefixLength, edges);
    WordInside(b, h, 0, U32Word(refs));
    WordInside(b, h, 4, U32Word(prefixLength));
    WordInside(b, h, 8, U32Word(edges));
  }

  /** A prefix length survives its 32-bit field exactly if it is below 2^32. */
  lemma LengthIsExact(b: seq<Byte>, refs: nat, prefixLength: nat, edges: nat)
    requires |b| >= HEADER && b[..HEADER] == Header(refs, prefixLength, edges)
    ensures PrefixLength(b) == prefixLength <==> prefixLength < U32_LIMIT
  {
    HeaderReads(b, refs, prefixLength, edges);
  }

  lemma WordInside(b: seq<Byte>, h: seq<Byte>, off: nat, w: seq<Byte>)
    requires off + 4 <= HEADER == |h| <= |b| && b[..HEADER] == h && h[off..off + 4] == w
    ensures ReadU32(b, off) == Value(w)
  {
    assert b[off..off + 4] == b[..HEADER][off..off + 4];
  }

  lemma SmallModU32(n: nat)
    requires n < U32_LIMIT
    ensures n % U32_LIMIT == n
  {}

  lemma EncodeChunks(v: NodeView)
    requires Fits(v)
    ensures var b := Encode(v); var p := HEADER + |v.prefix|; var f := p + |v.firsts|;
            b[..HEADER] == Header(v.refs, |v.prefix|, |v.firsts|)
            && b[HEADER..p] == v.prefix && b[p..f] == v.firsts && b[f..] == PointerChunk(v.ptrs)
  {
  }

  /** Every field of a packed node but the single pointers reads back. */
  lemma EncodeReads(v: NodeView)
    requires Fits(v)
    ensures var b := Encode(v);
            Refcount(b) == v.refs && PrefixLength(b) == |v.prefix| && EdgeCount(b) == |v.firsts|
            && WellSized(b) && PrefixOf(b) == v.prefix && FirstBytesOf(b) == v.firsts
            && NodePtrsOf(b) == PointerChunk(v.ptrs)
  {
    var b := Encode(v);
    EncodeChunks(v);
    HeaderReads(b, v.refs, |v.prefix|, |v.firsts|);
    SmallModU32(v.refs);
    SmallModU32(|v.prefix|);
    SmallModU32(|v.firsts|);
  }

  lemma {:induction false} PointerChunkAt(ptrs: seq<Addr>, i: nat)
    requires i < |ptrs|
    ensures PointerChunk(ptrs)[8 * i..8 * i + 8] == PointerWord(ptrs[i])
  {
    var c := PointerChunk(ptrs);
    if i == 0 {
      assert c[0..8] == PointerWord(ptrs[0]);
    } else {
      PointerChunkAt(ptrs[1..], i - 1);
      assert c[8..] == PointerChunk(ptrs[1..]);
      SliceOfTail(c, 8, 8 * i - 8, 8 * i);
    }
  }

  lemma SliceOfTail(c: seq<Byte>, k: nat, lo: nat, hi: nat)
    requires lo <= hi && k + hi <= |c|
    ensures c[k..][lo..hi] == c[k + lo..k + hi]
  {}

  lemma {:induction false} PointerChunkConcat(p: seq<Addr>, q: seq<Addr>)
    ensures PointerChunk(p + q) == PointerChunk(p) + PointerChunk(q)
  {
    if p == [] {
      assert p + q == q;
    } else {
      PointerChunkConcat(p[1..], q);
      var x := PointerWord(p[0]);
      assert (p + q)[1..] == p[1..] + q && (p + q)[0] == p[0];
      Reassociate(x, PointerChunk(p[1..]), PointerChunk(q));
    }
  }

  lemma Reassociate(x: seq<Byte>, y: seq<Byte>, z: seq<Byte>)
    ensures x + (y + z) == (x + y) + z
  {}

  lemma PointerChunkOne(a: Addr)
    ensures PointerChunk([a]) == PointerWord(a)
  {
    assert PointerChunk([a]) == PointerWord(a) + PointerChunk([a][1..]);
  }

  /** The i-th pointer of a packed node reads back. */
  lemma NodeAtReads(v: NodeView, i: nat)
    requires Fits(v) && i < |v.ptrs|
    ensures var b := Encode(v);
            WellSized(b) && i < EdgeCount(b) && NodeAt(b, i) == v.ptrs[i]
            && b[FirstBytes(b) + i] == v.firsts[i]
  {
    var b := Encode(v);
    EncodeReads(v);
    EncodeChunks(v);
    var f := HEADER + |v.prefix| + |v.firsts|;
    PointerChunkAt(v.ptrs, i);
    SliceOfTail(b, f, 8 * i, 8 * i + 8);
    assert FirstBytesOf(b)[i] == b[FirstBytes(b) + i];
  }

  // ----- what each setter does to a block laid out in its four chunks

  /** b is the header h, the prefix p, the first bytes f and the pointer chunk c, in this order. */
  ghost predicate Laid(b: seq<Byte>, h: seq<Byte>, p: seq<Byte>, f: seq<Byte>, c: seq<Byte>) {
    |h| == HEADER && b == h + p + f + c && |c| == 8 * |f|
    && PrefixLength(b) == |p| && EdgeCount(b) == |f|
  }

  /** A well-sized block is laid out in four chunks. */
  lemma Unpack(b: seq<Byte>)
    requires WellSized(b)
    ensures Laid(b, b[..HEADER], PrefixOf(b), FirstBytesOf(b), NodePtrsOf(b))
  {
    var p, f := FirstBytes(b), NodePtrs(b);
    assert b == b[..HEADER] + b[HEADER..p] + b[p..f] + b[f..];
    assert b[f..] == NodePtrsOf(b);
  }

  lemma LaidPrefix(b: seq<Byte>, h: seq<Byte>, p: seq<Byte>, f: seq<Byte>, c: seq<Byte>, p': seq<Byte>)
    requires Laid(b, h, p, f, c) && |p'| == |p|
    ensures Laid(WithPrefix(b, p'), h, p', f, c)
  {
    assert b == h + p + (f + c);
    SpliceMiddle(h, p, f + c, p');
    assert h + p' + (f + c) == h + p' + f + c;
  }

  lemma LaidFirstBytes(b: seq<Byte>, h: seq<Byte>, p: seq<Byte>, f: seq<Byte>, c: seq<Byte>, f': seq<Byte>)
    requires Laid(b, h, p, f, c) && |f'| == |f|
    ensures Laid(WithFirstBytes(b, f'), h, p, f', c)
  {
    SpliceMiddle(h + p, f, c, f');
  }

  lemma LaidNodePtrs(b: seq<Byte>, h: seq<Byte>, p: seq<Byte>, f: seq<Byte>, c: seq<Byte>, c': seq<Byte>)
    requires Laid(b, h, p, f, c) && |c'| == |c|
    ensures Laid(WithNodePtrs(b, c'), h, p, f, c')
  {
    assert b == (h + p + f) + c + [];
    SpliceMiddle(h + p + f, c, [], c');
    assert h + p + f + c' + [] == h + p + f + c';
  }

  lemma LaidNodeAt(b: seq<Byte>, h: seq<Byte>, p: seq<Byte>, f: seq<Byte>, c: seq<Byte>, i: nat, a: Addr)
    requires Laid(b, h, p, f, c) && i < |f|
    ensures Laid(WithNodeAt(b, i, a), h, p, f, Splice(c, 8 * i, PointerWord(a)))
  {
    SpliceTail(h + p + f, c, 8 * i, PointerWord(a));
  }

  lemma SpliceTail(h: seq<Byte>, c: seq<Byte>, off: nat, y: seq<Byte>)
    requires off + |y| <= |c|
    ensures Splice(h + c, |h| + off, y) == h + Splice(c, off, y)
  {
    var b := h + c;
    assert b[..|h| + off] == h + c[..off];
    assert b[|h| + off + |y|..] == c[off + |y|..];
  }

  lemma LaidFirstByteAt(b: seq<Byte>, h: seq<Byte>, p: seq<Byte>, f: seq<Byte>, c: seq<Byte>, i: nat, x: Byte)
    requires Laid(b, h, p, f, c) && i < |f|
    ensures Laid(Write(b, FirstBytes(b) + i, [x]), h, p, f[i := x], c)
  {
    SpliceInside(h + p, f, c, i, x);
  }

  lemma SpliceInside(a: seq<Byte>, f: seq<Byte>, c: seq<Byte>, i: nat, x: Byte)
    requires i < |f|
    ensures Splice(a + f + c, |a| + i, [x]) == a + f[i := x] + c
  {
    var b := a + f + c;
    assert b[..|a| + i] == a + f[..i];
    assert b[|a| + i + 1..] == f[i + 1..] + c;
  }

  lemma LaidEdgeAt(b: seq<Byte>, h: seq<Byte>, p: seq<Byte>, f: seq<Byte>, c: seq<Byte>,
                   i: nat, x: Byte, a: Addr)
    requires Laid(b, h, p, f, c) && i < |f|
    ensures Laid(WithEdgeAt(b, i, x, a), h, p, f[i := x], Splice(c, 8 * i, PointerWord(a)))
  {
    LaidFirstByteAt(b, h, p, f, c, i, x);
    LaidNodeAt(Write(b, FirstBytes(b) + i, [x]), h, p, f[i := x], c, i, a);
  }

  lemma LaidRefcount(b: seq<Byte>, h: seq<Byte>, p: seq<Byte>, f: seq<Byte>, c: seq<Byte>, n: nat)
    requires Laid(b, h, p, f, c)
    ensures Laid(WithRefcount(b, n), U32Word(n) + h[4..], p, f, c)
  {
    assert b == [] + h[..4] + (h[4..] + p + f + c);
    SpliceMiddle([], h[..4], h[4..] + p + f + c, U32Word(n));
    assert [] + U32Word(n) + (h[4..] + p + f + c) == U32Word(n) + h[4..] + p + f + c;
  }

  /** A block laid out in the chunks of v packs v. */
  lemma LaidPacks(b: seq<Byte>, v: NodeView)
    requires |v.firsts| == |v.ptrs|
    requires Laid(b, Header(v.refs, |v.prefix|, |v.firsts|), v.prefix, v.firsts, PointerChunk(v.ptrs))
    ensures b == Encode(v)
  {}

  /** A packed node is laid out in the chunks of its fields. */
  lemma PackedIsLaid(v: NodeView)
    requires Fits(v)
    ensures Laid(Encode(v), Header(v.refs, |v.prefix|, |v.firsts|), v.prefix, v.firsts, PointerChunk(v.ptrs))
  {
    EncodeReads(v);
  }

  lemma PointerChunkUpdate(ptrs: seq<Addr>, i: nat, a: Addr)
    requires i < |ptrs|
    ensures Splice(PointerChunk(ptrs), 8 * i, PointerWord(a)) == PointerChunk(ptrs[i := a])
  {
    var p, q := ptrs[..i], ptrs[i + 1..];
    assert ptrs == p + [ptrs[i]] + q;
    assert ptrs[i := a] == p + [a] + q;
    ThreePointerChunks(p, ptrs[i], q);
    ThreePointerChunks(p, a, q);
    SpliceMiddle(PointerChunk(p), PointerWord(ptrs[i]), PointerChunk(q), PointerWord(a));
  }

  lemma ThreePointerChunks(p: seq<Addr>, a: Addr, q: seq<Addr>)
    ensures PointerChunk(p + [a] + q) == PointerChunk(p) + PointerWord(a) + PointerChunk(q)
  {
    PointerChunkConcat(p + [a], q);
    PointerChunkConcat(p, [a]);
    PointerChunkOne(a);
  }

  // ----- the edits insert and erase make to a packed node

  /** set_node_at changes exactly one pointer. */
  lemma NodeAtPacks(v: NodeView, i: nat, a: Addr)
    requires Fits(v) && i < |v.ptrs|
    ensures WellSized(Encode(v)) && i < EdgeCount(Encode(v))
    ensures WithNodeAt(Encode(v), i, a) == Encode(v.(ptrs := v.ptrs[i := a]))
  {
    var b := Encode(v);
    PackedIsLaid(v);
    LaidNodeAt(b, Header(v.refs, |v.prefix|, |v.firsts|), v.prefix, v.firsts, PointerChunk(v.ptrs), i, a);
    PointerChunkUpdate(v.ptrs, i, a);
    LaidPacks(WithNodeAt(b, i, a), v.(ptrs := v.ptrs[i := a]));
  }

  /** set_refcount changes exactly the reference count, truncated to 32 bits. */
  lemma RefcountPacks(v: NodeView, n: nat)
    requires Fits(v)
    ensures |Encode(v)| >= HEADER && WithRefcount(Encode(v), n) == Encode(v.(refs := n % U32_LIMIT))
  {
    var h := Header(v.refs, |v.prefix|, |v.firsts|);
    PackedIsLaid(v);
    LaidRefcount(Encode(v), h, v.prefix, v.firsts, PointerChunk(v.ptrs), n);
    RefcountHeader(v.refs, n, |v.prefix|, |v.firsts|);
    LaidPacks(WithRefcount(Encode(v), n), v.(refs := n % U32_LIMIT));
  }

  lemma RefcountHeader(refs: nat, n: nat, prefixLength: nat, edges: nat)
    ensures U32Word(n) + Header(refs, prefixLength, edges)[4..] == Header(n % U32_LIMIT, prefixLength, edges)
  {
    SameValue(U32Word(n), U32Word(n % U32_LIMIT));
  }

  /** A block with the right header, once its three chunks are written. */
  lemma FilledPacks(b: seq<Byte>, v: NodeView)
    requires Fits(v) && |b| == BlockSize(|v.prefix|, |v.firsts|)
    requires b[..HEADER] == Header(v.refs, |v.prefix|, |v.firsts|)
    ensures WellSized(b) && PrefixLength(b) == |v.prefix| && EdgeCount(b) == |v.firsts|
    ensures WithNodePtrs(WithFirstBytes(WithPrefix(b, v.prefix), v.firsts), PointerChunk(v.ptrs)) == Encode(v)
  {
    LengthsRead(b, v.refs, |v.prefix|, |v.firsts|);
    Unpack(b);
    var h, p, f, c := b[..HEADER], PrefixOf(b), FirstBytesOf(b), NodePtrsOf(b);
    LaidPrefix(b, h, p, f, c, v.prefix);
    var b1 := WithPrefix(b, v.prefix);
    LaidFirstBytes(b1, h, v.prefix, f, c, v.firsts);
    var b2 := WithFirstBytes(b1, v.firsts);
    LaidNodePtrs(b2, h, v.prefix, v.firsts, c, PointerChunk(v.ptrs));
    LaidPacks(WithNodePtrs(b2, PointerChunk(v.ptrs)), v);
  }

  /** A node without edges is packed once its prefix is written. */
  lemma PrefixOnlyPacks(b: seq<Byte>, v: NodeView)
    requires Fits(v) && v.firsts == [] && v.ptrs == [] && |b| == BlockSize(|v.prefix|, 0)
    requires b[..HEADER] == Header(v.refs, |v.prefix|, 0)
    requires WellSized(b) && PrefixLength(b) == |v.prefix| && EdgeCount(b) == 0
    ensures WithPrefix(b, v.prefix) == Encode(v)
  {
    Unpack(b);
    LaidPrefix(b, b[..HEADER], PrefixOf(b), FirstBytesOf(b), NodePtrsOf(b), v.prefix);
    assert FirstBytesOf(b) == [] && NodePtrsOf(b) == [];
    LaidPacks(WithPrefix(b, v.prefix), v);
  }

  lemma LengthsRead(b: seq<Byte>, refs: nat, prefixLength: nat, edges: nat)
    requires |b| == BlockSize(prefixLength, edges) && b[..HEADER] == Header(refs, prefixLength, edges)
    requires prefixLength < U32_LIMIT && edges < U32_LIMIT
    ensures WellSized(b) && PrefixLength(b) == prefixLength && EdgeCount(b) == edges
  {
    HeaderReads(b, refs, prefixLength, edges);
    SmallModU32(prefixLength);
    SmallModU32(edges);
  }

  /** The block after the pointer chunk was shifted one byte right, into the room resize made. */
  function ShiftedRight(b: seq<Byte>): (r: seq<Byte>)
    requires WellSized(b) && EdgeCount(b) > 0
    ensures SameLengths(b, r)
  {
    var off := NodePtrs(b);
    Write(b, off, b[off - 1..off - 1 + 8 * (EdgeCount(b) - 1)])
  }

  /** r is b resized: the reference count and the bytes behind the header that fit are kept. */
  ghost predicate Resized(b: seq<Byte>, r: seq<Byte>, prefixLength: nat, edges: nat)
    requires |b| >= HEADER
  {
    |r| == BlockSize(prefixLength, edges)
    && r[..HEADER] == b[..4] + U32Word(prefixLength) + U32Word(edges)
    && forall i :: HEADER <= i < |b| && i < |r| ==> r[i] == b[i]
  }

  lemma ResizedHeader(v: NodeView, r: seq<Byte>, prefixLength: nat, edges: nat)
    requires Fits(v) && Resized(Encode(v), r, prefixLength, edges)
    requires prefixLength < U32_LIMIT && edges < U32_LIMIT
    ensures r[..HEADER] == Header(v.refs, prefixLength, edges)
    ensures WellSized(r) && PrefixLength(r) == prefixLength && EdgeCount(r) == edges
  {
    EncodeChunks(v);
    var b := Encode(v);
    var h := Header(v.refs, |v.prefix|, |v.firsts|);
    assert b[..4] == b[..HEADER][..4] == h[..4] == U32Word(v.refs);
    LengthsRead(r, v.refs, prefixLength, edges);
  }

  /** The bytes of the prefix survive a resize as far as both prefixes reach. */
  lemma ResizedPrefix(v: NodeView, r: seq<Byte>, prefixLength: nat, edges: nat, k: nat)
    requires Fits(v) && Resized(Encode(v), r, prefixLength, edges)
    requires k <= |v.prefix| && k <= prefixLength
    ensures r[HEADER..HEADER + k] == v.prefix[..k]
  {
    EncodeChunks(v);
    var b := Encode(v);
    assert b[HEADER..HEADER + k] == b[HEADER..HEADER + |v.prefix|][..k];
    SameSlice(r, b, HEADER, HEADER + k);
  }

  /** The room resize makes for one more edge. */
  lemma ResizedRoom(v: NodeView, r: seq<Byte>)
    requires Fits(v) && Resized(Encode(v), r, |v.prefix|, |v.firsts| + 1)
    ensures var q := HEADER + |v.prefix| + |v.firsts|;
            r[HEADER..q] == v.prefix + v.firsts && r[q..q + 8 * |v.firsts|] == PointerChunk(v.ptrs)
  {
    var b := Encode(v);
    var p := HEADER + |v.prefix|;
    var q := p + |v.firsts|;
    EncodeChunks(v);
    SliceSplits(b, HEADER, p, q);
    SameSlice(r, b, HEADER, q);
    SameSlice(r, b, q, |b|);
    assert b[q..|b|] == b[q..];
  }

  /** One more edge: the shift and set_edge_at pack the old edges plus the new one. */
  lemma AppendedPacks(v: NodeView, r: seq<Byte>, byte: Byte, child: Addr)
    requires Fits(v) && |v.firsts| + 1 < U32_LIMIT && Resized(Encode(v), r, |v.prefix|, |v.firsts| + 1)
    ensures WellSized(r) && PrefixLength(r) == |v.prefix| && EdgeCount(r) == |v.firsts| + 1
    ensures WithEdgeAt(ShiftedRight(r), |v.firsts|, byte, child)
         == Encode(v.(firsts := v.firsts + [byte], ptrs := v.ptrs + [child]))
  {
    ResizedHeader(v, r, |v.prefix|, |v.firsts| + 1);
    ResizedRoom(v, r);
    ShiftedPacks(v, r, byte, child);
  }

  lemma ShiftedPacks(v: NodeView, r: seq<Byte>, byte: Byte, child: Addr)
    requires Fits(v) && |r| == BlockSize(|v.prefix|, |v.firsts| + 1)
    requires r[..HEADER] == Header(v.refs, |v.prefix|, |v.firsts| + 1)
    requires r[HEADER..HEADER + |v.prefix| + |v.firsts|] == v.prefix + v.firsts
    requires r[HEADER + |v.prefix| + |v.firsts|..HEADER + |v.prefix| + |v.firsts| + 8 * |v.firsts|]
          == PointerChunk(v.ptrs)
    requires PrefixLength(r) == |v.prefix| && EdgeCount(r) == |v.firsts| + 1
    ensures WithEdgeAt(ShiftedRight(r), |v.firsts|, byte, child)
         == Encode(v.(firsts := v.firsts + [byte], ptrs := v.ptrs + [child]))
  {
    var n := |v.firsts|;
    var h := r[..HEADER];
    var c := PointerChunk(v.ptrs);
    var q := HEADER + |v.prefix| + n;
    var j := r[q..];
    SliceOfTail(r, q, 0, |c|);
    assert r == h + (v.prefix + v.firsts) + j by { assert r == r[..HEADER] + r[HEADER..q] + r[q..]; }
    ShiftLays(r, h, v.prefix, v.firsts, j, c);
    var s := ShiftedRight(r);
    LaidEdgeAt(s, h, v.prefix, v.firsts + j[..1], c + j[|j| - 8..], n, byte, child);
    LastSlot(v.firsts, j[0], byte, c, j[|j| - 8..], PointerWord(child));
    PointerChunkConcat(v.ptrs, [child]);
    PointerChunkOne(child);
    assert j[..1] == [j[0]];
    LaidPacks(WithEdgeAt(s, n, byte, child), v.(firsts := v.firsts + [byte], ptrs := v.ptrs + [child]));
  }

  lemma ShiftLays(r: seq<Byte>, h: seq<Byte>, p: seq<Byte>, f: seq<Byte>, j: seq<Byte>, c: seq<Byte>)
    requires |h| == HEADER && |c| == 8 * |f| && |j| == |c| + 9 && r == h + (p + f) + j && j[..|c|] == c
    requires PrefixLength(r) == |p| && EdgeCount(r) == |f| + 1
    ensures WellSized(r)
    ensures Laid(ShiftedRight(r), h, p, f + j[..1], c + j[|j| - 8..])
  {
    var x, k := h + (p + f), j[1 + |c|..];
    SlideRight(x, j, |c|);
    assert (x + j[..1]) + c + k == h + p + (f + j[..1]) + (c + k);
  }

  /** Copying the first n bytes of j one place to the right keeps the byte in front of them. */
  lemma SlideRight(x: seq<Byte>, j: seq<Byte>, n: nat)
    requires n < |j|
    ensures (x + j)[|x|..|x| + n] == j[..n]
    ensures Splice(x + j, |x| + 1, j[..n]) == (x + j[..1]) + j[..n] + j[1 + n..]
  {
    var m, k := j[1..1 + n], j[1 + n..];
    assert x + j == (x + j[..1]) + m + k by { assert j == j[..1] + m + k; }
    SpliceMiddle(x + j[..1], m, k, j[..n]);
  }

  lemma LastSlot(f: seq<Byte>, x: Byte, y: Byte, c: seq<Byte>, k: seq<Byte>, w: seq<Byte>)
    requires |c| == 8 * |f| && |k| == |w| == 8
    ensures (f + [x])[|f| := y] == f + [y]
    ensures Splice(c + k, 8 * |f|, w) == c + w
  {
    assert c + k == c + k + [];
    SpliceMiddle(c, k, [], w);
    assert c + w + [] == c + w;
  }

  /** set_edge_at changes exactly one edge. */
  lemma EdgeAtPacks(v: NodeView, i: nat, x: Byte, a: Addr)
    requires Fits(v) && i < |v.ptrs|
    ensures WellSized(Encode(v)) && i < EdgeCount(Encode(v))
    ensures WithEdgeAt(Encode(v), i, x, a) == Encode(v.(firsts := v.firsts[i := x], ptrs := v.ptrs[i := a]))
  {
    var b := Encode(v);
    PackedIsLaid(v);
    LaidEdgeAt(b, Header(v.refs, |v.prefix|, |v.firsts|), v.prefix, v.firsts, PointerChunk(v.ptrs), i, x, a);
    PointerChunkUpdate(v.ptrs, i, a);
    LaidPacks(WithEdgeAt(b, i, x, a), v.(firsts := v.firsts[i := x], ptrs := v.ptrs[i := a]));
  }

  /** The front half of a split node that gets two edges and no key. */
  lemma ForkPacks(v: NodeView, r: seq<Byte>, j: nat, x0: Byte, a0: Addr, x1: Byte, a1: Addr)
    requires Fits(v) && j <= |v.prefix| && Resized(Encode(v), r, j, 2)
    ensures WellSized(r) && EdgeCount(r) == 2
    ensures WithEdgeAt(WithEdgeAt(WithRefcount(r, 0), 0, x0, a0), 1, x1, a1)
         == Encode(NodeView(0, v.prefix[..j], [x0, x1], [a0, a1]))
  {
    ResizedHeader(v, r, j, 2);
    ResizedPrefix(v, r, j, 2, j);
    Unpack(r);
    var h, p, f, c := r[..HEADER], v.prefix[..j], FirstBytesOf(r), NodePtrsOf(r);
    var r0 := WithRefcount(r, 0);
    LaidRefcount(r, h, p, f, c, 0);
    RefcountHeader(v.refs, 0, j, 2);
    var h0 := Header(0, j, 2);
    var r1 := WithEdgeAt(r0, 0, x0, a0);
    LaidEdgeAt(r0, h0, p, f, c, 0, x0, a0);
    var c1 := Splice(c, 0, PointerWord(a0));
    LaidEdgeAt(r1, h0, p, f[0 := x0], c1, 1, x1, a1);
    TwoPointers(c, a0, a1);
    var f1: seq<Byte> := f[0 := x0];
    assert f1[1 := x1] == [x0, x1];
    LaidPacks(WithEdgeAt(r1, 1, x1, a1), NodeView(0, p, [x0, x1], [a0, a1]));
  }

  lemma TwoPointers(c: seq<Byte>, a0: Addr, a1: Addr)
    requires |c| == 16
    ensures Splice(Splice(c, 0, PointerWord(a0)), 8, PointerWord(a1)) == PointerChunk([a0, a1])
  {
    assert [a0, a1] == [a0] + [a1];
    PointerChunkConcat([a0], [a1]);
    PointerChunkOne(a0);
    PointerChunkOne(a1);
  }

  /** The front half of a split node that ends where a key ends. */
  lemma KeyedFrontPacks(v: NodeView, r: seq<Byte>, j: nat, x: Byte, a: Addr)
    requires Fits(v) && j <= |v.prefix| && Resized(Encode(v), r, j, 1)
    ensures WellSized(r) && EdgeCount(r) == 1
    ensures WithRefcount(WithEdgeAt(r, 0, x, a), 1) == Encode(NodeView(1, v.prefix[..j], [x], [a]))
  {
    ResizedHeader(v, r, j, 1);
    ResizedPrefix(v, r, j, 1, j);
    Unpack(r);
    var h, p, f, c := r[..HEADER], v.prefix[..j], FirstBytesOf(r), NodePtrsOf(r);
    LaidEdgeAt(r, h, p, f, c, 0, x, a);
    var c1 := Splice(c, 0, PointerWord(a));
    PointerChunkOne(a);
    assert c1 == PointerChunk([a]);
    assert f[0 := x] == [x];
    LaidRefcount(WithEdgeAt(r, 0, x, a), h, p, [x], c1, 1);
    RefcountHeader(v.refs, 1, j, 1);
    LaidPacks(WithRefcount(WithEdgeAt(r, 0, x, a), 1), NodeView(1, p, [x], [a]));
  }

  /** A node v merged with its only remaining child w. */
  ghost function Merged(v: NodeView, w: NodeView): NodeView {
    NodeView(w.refs, v.prefix + w.prefix, w.firsts, w.ptrs)
  }

  /** The block b after the prefix of d was copied behind its first k prefix bytes, and d's edges and key over
      its own. */
  function Absorbed(b: seq<Byte>, d: seq<Byte>, k: nat): (r: seq<Byte>)
    requires WellSized(b) && WellSized(d)
    requires PrefixLength(b) == k + PrefixLength(d) && EdgeCount(b) == EdgeCount(d)
  {
    var r1 := Write(b, HEADER + k, PrefixOf(d));
    WithRefcount(WithNodePtrs(WithFirstBytes(r1, FirstBytesOf(d)), NodePtrsOf(d)), Refcount(d))
  }

  lemma AbsorbPacks(v: NodeView, w: NodeView, r: seq<Byte>)
    requires Fits(v) && Fits(w) && |v.prefix| + |w.prefix| < U32_LIMIT
    requires Resized(Encode(v), r, |v.prefix| + |w.prefix|, |w.firsts|)
    ensures var d := Encode(w);
            WellSized(r) && WellSized(d) && PrefixLength(r) == |v.prefix| + PrefixLength(d)
            && EdgeCount(r) == EdgeCount(d) && Absorbed(r, d, |v.prefix|) == Encode(Merged(v, w))
  {
    MergePacks(v, w, r);
    EncodeReads(w);
  }

  lemma MergedPrefix(v: NodeView, w: NodeView, r: seq<Byte>)
    requires Fits(v) && Fits(w) && |v.prefix| + |w.prefix| < U32_LIMIT
    requires Resized(Encode(v), r, |v.prefix| + |w.prefix|, |w.firsts|)
    ensures WellSized(r) && EdgeCount(r) == |w.firsts| && PrefixLength(r) == |v.prefix| + |w.prefix|
    ensures r[..HEADER] == Header(v.refs, |v.prefix| + |w.prefix|, |w.firsts|)
    ensures Laid(Write(r, HEADER + |v.prefix|, w.prefix), r[..HEADER],
                 v.prefix + w.prefix, FirstBytesOf(r), NodePtrsOf(r))
  {
    var pl, ec := |v.prefix| + |w.prefix|, |w.firsts|;
    ResizedHeader(v, r, pl, ec);
    ResizedPrefix(v, r, pl, ec, |v.prefix|);
    UnpackTail(r, v.prefix);
    var tail := r[HEADER + |v.prefix|..HEADER + pl];
    LaidPrefixTail(r, r[..HEADER], v.prefix, tail, FirstBytesOf(r), NodePtrsOf(r), w.prefix);
  }

  lemma UnpackTail(r: seq<Byte>, p: seq<Byte>)
    requires WellSized(r) && |p| <= PrefixLength(r) && r[HEADER..HEADER + |p|] == p
    ensures Laid(r, r[..HEADER], p + r[HEADER + |p|..HEADER + PrefixLength(r)], FirstBytesOf(r), NodePtrsOf(r))
  {
    Unpack(r);
    SliceSplits(r, HEADER, HEADER + |p|, HEADER + PrefixLength(r));
  }

  /** The writes that merge w into the resized block of v. */
  lemma MergePacks(v: NodeView, w: NodeView, r: seq<Byte>)
    requires Fits(v) && Fits(w) && |v.prefix| + |w.prefix| < U32_LIMIT
    requires Resized(Encode(v), r, |v.prefix| + |w.prefix|, |w.firsts|)
    ensures WellSized(r) && EdgeCount(r) == |w.firsts| && PrefixLength(r) == |v.prefix| + |w.prefix|
    ensures var r1 := Write(r, HEADER + |v.prefix|, w.prefix);
            WithRefcount(WithNodePtrs(WithFirstBytes(r1, w.firsts), PointerChunk(w.ptrs)), w.refs)
            == Encode(Merged(v, w))
  {
    var pl, ec := |v.prefix| + |w.prefix|, |w.firsts|;
    MergedPrefix(v, w, r);
    var h, f, c := r[..HEADER], FirstBytesOf(r), NodePtrsOf(r);
    var r1 := Write(r, HEADER + |v.prefix|, w.prefix);
    LaidFirstBytes(r1, h, v.prefix + w.prefix, f, c, w.firsts);
    var r2 := WithFirstBytes(r1, w.firsts);
    LaidNodePtrs(r2, h, v.prefix + w.prefix, w.firsts, c, PointerChunk(w.ptrs));
    var r3 := WithNodePtrs(r2, PointerChunk(w.ptrs));
    LaidRefcount(r3, h, v.prefix + w.prefix, w.firsts, PointerChunk(w.ptrs), w.refs);
    RefcountHeader(v.refs, w.refs, pl, ec);
    SmallModU32(w.refs);
    LaidPacks(WithRefcount(r3, w.refs), Merged(v, w));
  }

  lemma SliceSplits(b: seq<Byte>, lo: nat, mid: nat, hi: nat)
    requires lo <= mid <= hi <= |b|
    ensures b[lo..hi] == b[lo..mid] + b[mid..hi]
  {
  }

  lemma LaidPrefixTail(b: seq<Byte>, h: seq<Byte>, p: seq<Byte>, t: seq<Byte>, f: seq<Byte>, c: seq<Byte>,
                       t': seq<Byte>)
    requires Laid(b, h, p + t, f, c) && |t'| == |t|
    ensures Laid(Write(b, HEADER + |p|, t'), h, p + t', f, c)
  {
    assert b == (h + p) + t + (f + c);
    SpliceMiddle(h + p, t, f + c, t');
    assert (h + p) + t' + (f + c) == h + (p + t') + f + c;
  }

  /** The block after the pointer chunk was shifted one byte left, over the last first byte. */
  function ShiftedLeft(b: seq<Byte>): (r: seq<Byte>)
    requires WellSized(b) && EdgeCount(b) > 0
    ensures SameLengths(b, r)
  {
    Write(b, NodePtrs(b) - 1, NodePtrsOf(b))
  }

  /** The edges with slot i taken over by the last edge. */
  ghost function WithoutEdge(v: NodeView, i: nat): NodeView
    requires i < |v.firsts| == |v.ptrs|
  {
    var n := |v.firsts| - 1;
    v.(firsts := v.firsts[i := v.firsts[n]][..n], ptrs := v.ptrs[i := v.ptrs[n]][..n])
  }

  /** Shifting the pointers left and shrinking drops exactly the last edge. */
  lemma DropLastPacks(v: NodeView, r: seq<Byte>)
    requires Fits(v) && |v.firsts| > 0
    requires WellSized(Encode(v)) && EdgeCount(Encode(v)) > 0
    requires Resized(ShiftedLeft(Encode(v)), r, |v.prefix|, |v.firsts| - 1)
    ensures r == Encode(v.(firsts := v.firsts[..|v.firsts| - 1], ptrs := v.ptrs[..|v.ptrs| - 1]))
  {
    var n := |v.firsts| - 1;
    var b := Encode(v);
    var s := ShiftedLeft(b);
    var c := PointerChunk(v.ptrs);
    var f := v.firsts[..n];
    var h := Header(v.refs, |v.prefix|, n + 1);
    EncodeReads(v);
    assert v.firsts == f + [v.firsts[n]];
    ShiftedLeftBytes(b, h, v.prefix, f, v.firsts[n], c);
    ShrunkPacks(v, s, r);
  }

  lemma ShrunkPacks(v: NodeView, s: seq<Byte>, r: seq<Byte>)
    requires Fits(v) && |v.firsts| > 0
    requires var c := PointerChunk(v.ptrs); var n := |v.firsts| - 1;
             s == Header(v.refs, |v.prefix|, n + 1) + ((v.prefix + v.firsts[..n]) + c + c[|c| - 1..])
    requires Resized(s, r, |v.prefix|, |v.firsts| - 1)
    ensures r == Encode(v.(firsts := v.firsts[..|v.firsts| - 1], ptrs := v.ptrs[..|v.ptrs| - 1]))
  {
    var n := |v.firsts| - 1;
    var c := PointerChunk(v.ptrs);
    var f := v.firsts[..n];
    ShrunkHeader(s, Header(v.refs, |v.prefix|, n + 1), (v.prefix + f) + c + c[|c| - 1..], v.refs, |v.prefix|, n + 1);
    LastPointerChunk(v.ptrs);
    ShrunkBytes(s, r, Header(v.refs, |v.prefix|, n), v.prefix + f, c, c[..8 * n]);
  }

  lemma ShrunkHeader(s: seq<Byte>, h: seq<Byte>, t: seq<Byte>, refs: nat, prefixLength: nat, edges: nat)
    requires h == Header(refs, prefixLength, edges) && s == h + t
    ensures s[..4] == U32Word(refs)
  {
    assert s[..4] == h[..4];
  }

  lemma LastPointerChunk(ptrs: seq<Addr>)
    requires ptrs != []
    ensures PointerChunk(ptrs)[..8 * (|ptrs| - 1)] == PointerChunk(ptrs[..|ptrs| - 1])
  {
    var n := |ptrs| - 1;
    InitLast(ptrs);
    PointerChunkConcat(ptrs[..n], [ptrs[n]]);
    TakeFirst(PointerChunk(ptrs[..n]), PointerChunk([ptrs[n]]));
  }

  lemma InitLast(ptrs: seq<Addr>)
    requires ptrs != []
    ensures ptrs == ptrs[..|ptrs| - 1] + [ptrs[|ptrs| - 1]]
  {
  }

  lemma TakeFirst(x: seq<Byte>, y: seq<Byte>)
    ensures (x + y)[..|x|] == x
  {
  }

  lemma ShiftedLeftBytes(b: seq<Byte>, h: seq<Byte>, p: seq<Byte>, f: seq<Byte>, x: Byte, c: seq<Byte>)
    requires |h| == HEADER && b == h + p + (f + [x]) + c && |c| == 8 * |f| + 8
    requires PrefixLength(b) == |p| && EdgeCount(b) == |f| + 1
    ensures WellSized(b) && ShiftedLeft(b) == h + ((p + f) + c + c[|c| - 1..])
  {
    var a := h + (p + f);
    assert b == a + ([x] + c);
    assert b[|a| + 1..] == c;
    assert NodePtrsOf(b) == c;
    SlideLeft(a, x, c);
    assert a + (c + c[|c| - 1..]) == h + ((p + f) + c + c[|c| - 1..]);
  }

  /** Copying c one place to the left leaves its last byte behind it. */
  lemma SlideLeft(a: seq<Byte>, x: Byte, c: seq<Byte>)
    requires |c| > 0
    ensures Splice(a + ([x] + c), |a|, c) == a + (c + c[|c| - 1..])
  {
    var k, z := [x] + c, c[|c| - 1..];
    assert k == [] + k[..|c|] + z;
    SpliceMiddle([], k[..|c|], z, c);
    SpliceTail(a, k, 0, c);
    assert [] + c + z == c + z;
  }

  lemma ShrunkBytes(s: seq<Byte>, r: seq<Byte>, h: seq<Byte>, m: seq<Byte>, c: seq<Byte>, c0: seq<Byte>)
    requires |h| == HEADER && |c| >= 8 && c[..|c| - 8] == c0
    requires |s| == HEADER + |m| + |c| + 1 && s[HEADER..] == m + c + c[|c| - 1..]
    requires |r| == HEADER + |m| + |c0| && r[..HEADER] == h
    requires forall i :: HEADER <= i < |r| ==> r[i] == s[i]
    ensures r == h + m + c0
  {
    assert r[HEADER..] == s[HEADER..|r|] == s[HEADER..][..|m| + |c0|];
    assert (m + c + c[|c| - 1..])[..|m| + |c0|] == m + c0;
    assert r == r[..HEADER] + r[HEADER..];
    assert h + (m + c0) == h + m + c0;
  }
}
