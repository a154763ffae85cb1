/** Reference-counted chunks of the receive chain (src/util/chk_bytechunk.c).

The receiver creates its chunks one after the other and links each to the one
before it, so chunk `k` is the k-th of the connection and its `next` is `k + 1`.
Only the chunks not yet freed are in the map.
*/
module ChunkHeap {
  import opened Bytes

  datatype Cell = Cell(refcount: nat, data: seq<Byte>, linked: bool)

  type Heap = map<nat, Cell>

  /** Memory holds exactly the chunks from `lo` to `top`, in one chain, and every count is the number
      of owners: the predecessor's `next`, if any, and the roots. Nothing is kept that no root needs. */
  ghost predicate RefsOk(mem: Heap, lo: nat, top: nat, roots: multiset<nat>) {
    && lo <= top
    && (forall k :: k in mem <==> lo <= k < top)
    && (forall k :: lo <= k < top ==>
          mem[k].refcount == roots[k] + (if k > lo then 1 else 0) && mem[k].linked == (k + 1 < top))
    && (forall k :: k in roots ==> lo <= k < top)
    && (lo < top ==> lo in roots)
  }

  /** `chk_bytechunk_retain` */
  function Retain(mem: Heap, k: nat): (r: Heap)
    requires k in mem
  {
    mem[k := mem[k].(refcount := mem[k].refcount + 1)]
  }

  lemma Smaller(mem: Heap, k: nat)
    requires k in mem
    ensures |mem - {k}| < |mem|
  {
    assert (mem - {k}).Keys == mem.Keys - {k};
  }

  /** `chk_bytechunk_release`: freeing a chunk releases its successor. */
  function Release(mem: Heap, k: nat): (r: Heap)
    requires k in mem
    decreases |mem|
  {
    if mem[k].refcount > 1 then mem[k := mem[k].(refcount := mem[k].refcount - 1)]
    else if mem[k].linked && k + 1 in mem then Smaller(mem, k); Release(mem - {k}, k + 1)
    else mem - {k}
  }

  lemma RetainOk(mem: Heap, lo: nat, top: nat, roots: multiset<nat>, k: nat)
    requires RefsOk(mem, lo, top, roots) && lo <= k < top
    ensures RefsOk(Retain(mem, k), lo, top, roots + multiset{k})
  {
  }

  lemma DecrementOk(mem: Heap, lo: nat, top: nat, roots: multiset<nat>, k: nat)
    requires RefsOk(mem, lo, top, roots) && k in roots && mem[k].refcount > 1
    ensures RefsOk(Release(mem, k), lo, top, roots - multiset{k})
  {
  }

  /** A root with no other owner is the first chunk of the chain. Freeing it turns its `next`
      pointer into a reference still to be given up. */
  lemma FreeFirstOk(mem: Heap, lo: nat, top: nat, roots: multiset<nat>, k: nat)
    requires RefsOk(mem, lo, top, roots) && k in roots && mem[k].refcount <= 1
    ensures k == lo
    ensures lo + 1 < top ==>
              && k + 1 in mem && Release(mem, k) == Release(mem - {k}, k + 1)
              && RefsOk(mem - {k}, lo + 1, top, roots - multiset{k} + multiset{k + 1})
    ensures lo + 1 == top ==> RefsOk(Release(mem, k), top, top, roots - multiset{k})
  {
  }

  lemma MoveRoot(roots: multiset<nat>, j: nat)
    ensures roots + multiset{j} - multiset{j} == roots && j in roots + multiset{j}
  {
  }

  lemma RootIn(mem: Heap, lo: nat, top: nat, roots: multiset<nat>, k: nat)
    requires RefsOk(mem, lo, top, roots) && k in roots
    ensures k in mem && lo <= k < top
  {
  }

  /** Giving up a root frees exactly the chunks no owner is left for. */
  lemma {:induction false} ReleaseOk(mem: Heap, lo: nat, top: nat, roots: multiset<nat>, k: nat) returns (lo': nat)
    requires RefsOk(mem, lo, top, roots) && k in roots
    ensures k in mem && lo <= lo' && RefsOk(Release(mem, k), lo', top, roots - multiset{k})
    decreases top - lo
  {
    hide RefsOk, Release;
    RootIn(mem, lo, top, roots, k);
    if mem[k].refcount > 1 {
      lo' := lo;
      DecrementOk(mem, lo, top, roots, k);
    } else {
      FreeFirstOk(mem, lo, top, roots, k);
      if lo + 1 < top {
        MoveRoot(roots - multiset{k}, k + 1);
        lo' := ReleaseOk(mem - {k}, k + 1, top, roots - multiset{k} + multiset{k + 1}, k + 1);
      } else {
        lo' := top;
      }
    }
  }

  /** A new chunk at the end, owned by its predecessor's `next` or, if it is the first in memory, by a root. */
  function Extend(mem: Heap, top: nat, data: seq<Byte>): (r: Heap) {
    var m := if top > 0 && top - 1 in mem then mem[top - 1 := mem[top - 1].(linked := true)] else mem;
    m[top := Cell(1, data, false)]
  }

  lemma ExtendOk(mem: Heap, lo: nat, top: nat, roots: multiset<nat>, data: seq<Byte>)
    requires RefsOk(mem, lo, top, roots)
    ensures RefsOk(Extend(mem, top, data), lo, top + 1, if lo < top then roots else roots + multiset{top})
  {
  }

  // ---- Contents ----

  /** The position in the connection's stream of byte `pos` of chunk `k`. */
  function At(k: nat, pos: nat, cap: nat): (p: nat) {
    k * cap + pos
  }

  lemma NextChunk(k: nat, cap: nat)
    ensures At(k + 1, 0, cap) == At(k, cap, cap)
  {
  }

  lemma AtAdd(k: nat, pos: nat, n: nat, cap: nat)
    ensures At(k, pos + n, cap) == At(k, pos, cap) + n
  {
  }

  lemma AtMonotone(k: nat, j: nat, cap: nat)
    requires k <= j
    ensures At(k, 0, cap) <= At(j, 0, cap)
  {
  }

  /** A stream position inside the first `top` chunks. */
  lemma AtBelow(k: nat, pos: nat, top: nat, cap: nat)
    requires cap > 0 && At(k, pos, cap) < At(top, 0, cap)
    ensures k < top
  {
    if top <= k { AtMonotone(top, k, cap); }
  }

  /** Chunk `k` holds its share of the stream. */
  ghost predicate ChunkHolds(data: seq<Byte>, k: nat, cap: nat, stream: seq<Byte>) {
    && |data| == cap
    && (forall i {:trigger data[i]} :: 0 <= i < cap && At(k, i, cap) < |stream| ==> data[i] == stream[At(k, i, cap)])
  }

  ghost predicate Holds(mem: Heap, cap: nat, stream: seq<Byte>) {
    forall k :: k in mem ==> ChunkHolds(mem[k].data, k, cap, stream)
  }

  /** The receive memory: counts are exact, no chunk is missing or leaked, and the chunks hold the
      last part of the stream up to `top` chunks. */
  ghost predicate MemOk(mem: Heap, top: nat, roots: multiset<nat>, cap: nat, stream: seq<Byte>) {
    cap > 0 && Holds(mem, cap, stream) && exists lo: nat :: RefsOk(mem, lo, top, roots)
  }

  lemma RetainMem(mem: Heap, top: nat, roots: multiset<nat>, cap: nat, stream: seq<Byte>, k: nat)
    requires MemOk(mem, top, roots, cap, stream) && k in mem
    ensures MemOk(Retain(mem, k), top, roots + multiset{k}, cap, stream)
  {
    var lo: nat :| RefsOk(mem, lo, top, roots);
    RetainOk(mem, lo, top, roots, k);
  }

  lemma {:induction false} ReleaseData(mem: Heap, k: nat)
    requires k in mem
    ensures forall j :: j in Release(mem, k) ==> j in mem && Release(mem, k)[j].data == mem[j].data
    decreases |mem|
  {
    if mem[k].refcount <= 1 && mem[k].linked && k + 1 in mem {
      Smaller(mem, k);
      ReleaseData(mem - {k}, k + 1);
    }
  }

  lemma ReleaseMem(mem: Heap, top: nat, roots: multiset<nat>, cap: nat, stream: seq<Byte>, k: nat)
    requires MemOk(mem, top, roots, cap, stream) && k in roots
    ensures k in mem && MemOk(Release(mem, k), top, roots - multiset{k}, cap, stream)
  {
    var lo: nat :| RefsOk(mem, lo, top, roots);
    var lo' := ReleaseOk(mem, lo, top, roots, k);
    ReleaseData(mem, k);
  }

  /** From a root on, every chunk is in memory and owned. */
  lemma RootMem(mem: Heap, top: nat, roots: multiset<nat>, cap: nat, stream: seq<Byte>, k: nat)
    requires MemOk(mem, top, roots, cap, stream) && k in roots
    ensures k < top && forall j :: k <= j < top ==> j in mem && mem[j].refcount > 0 && mem[j].linked == (j + 1 < top)
  {
  }

  lemma ExtendMem(mem: Heap, top: nat, roots: multiset<nat>, cap: nat, stream: seq<Byte>, data: seq<Byte>)
    requires MemOk(mem, top, roots, cap, stream) && |data| == cap && |stream| <= At(top, 0, cap)
    ensures MemOk(Extend(mem, top, data), top + 1, if mem == map[] then roots + multiset{top} else roots, cap, stream)
  {
    var lo: nat :| RefsOk(mem, lo, top, roots);
    ExtendOk(mem, lo, top, roots, data);
    assert mem == map[] <==> lo == top by { if lo < top { assert lo in mem; } }
  }

  // ---- Writing received bytes ----

  function Store(mem: Heap, k: nat, pos: nat, bytes: seq<Byte>): (r: Heap)
    requires k in mem && pos + |bytes| <= |mem[k].data|
  {
    mem[k := mem[k].(data := Overwrite(mem[k].data, pos, bytes))]
  }

  lemma OverwriteHolds(data: seq<Byte>, k: nat, pos: nat, cap: nat, stream: seq<Byte>, bytes: seq<Byte>)
    requires ChunkHolds(data, k, cap, stream) && |stream| == At(k, pos, cap) && pos + |bytes| <= cap
    ensures ChunkHolds(Overwrite(data, pos, bytes), k, cap, stream + bytes)
  {
  }

  lemma OtherHolds(data: seq<Byte>, j: nat, k: nat, pos: nat, cap: nat, stream: seq<Byte>, bytes: seq<Byte>)
    requires ChunkHolds(data, j, cap, stream) && j != k && |stream| == At(k, pos, cap) && pos + |bytes| <= cap
    ensures ChunkHolds(data, j, cap, stream + bytes)
  {
    if j < k { AtMonotone(j + 1, k, cap); NextChunk(j, cap); }
    if k < j { AtMonotone(k + 1, j, cap); NextChunk(k, cap); }
  }

  /** Storing bytes at the end of the stream extends the stream and disturbs nothing before it. */
  lemma StoreMem(mem: Heap, top: nat, roots: multiset<nat>, cap: nat, stream: seq<Byte>, k: nat, pos: nat,
      bytes: seq<Byte>)
    requires MemOk(mem, top, roots, cap, stream) && k in mem && |stream| == At(k, pos, cap) && pos + |bytes| <= cap
    ensures |mem[k].data| == cap && MemOk(Store(mem, k, pos, bytes), top, roots, cap, stream + bytes)
  {
    assert ChunkHolds(mem[k].data, k, cap, stream);
    var mem' := Store(mem, k, pos, bytes);
    forall j | j in mem' ensures ChunkHolds(mem'[j].data, j, cap, stream + bytes) {
      if j == k { OverwriteHolds(mem[k].data, k, pos, cap, stream, bytes); }
      else { OtherHolds(mem[j].data, j, k, pos, cap, stream, bytes); }
    }
    var lo: nat :| RefsOk(mem, lo, top, roots);
    assert RefsOk(mem', lo, top, roots);
  }

  // ---- Reading along the chain ----

  lemma HoldsSlice(data: seq<Byte>, k: nat, cap: nat, stream: seq<Byte>, pos: nat, n: nat)
    requires ChunkHolds(data, k, cap, stream) && pos + n <= cap && At(k, pos + n, cap) <= |stream|
    ensures data[pos..pos + n] == stream[At(k, pos, cap)..At(k, pos, cap) + n]
  {
    var b := stream[At(k, pos, cap)..At(k, pos, cap) + n];
    forall i | 0 <= i < n ensures data[pos..pos + n][i] == b[i] {
      assert data[pos + i] == stream[At(k, pos + i, cap)];
    }
  }

  /** `chk_bytechunk_read`: copies across chunk boundaries until `size` bytes were read or the chain ends. */
  method Read(mem: Heap, b: nat, at: nat, want: nat, ghost top: nat, ghost roots: multiset<nat>, cap: nat,
      ghost stream: seq<Byte>)
    returns (out: seq<Byte>, b': nat, pos: nat)
    requires MemOk(mem, top, roots, cap, stream) && at <= cap
    requires b in mem
    requires (forall j :: b <= j < top ==> j in mem && |mem[j].data| == cap && mem[j].linked == (j + 1 < top))
    requires At(b, at, cap) + want <= |stream| <= At(top, 0, cap)
    ensures out == stream[At(b, at, cap)..At(b, at, cap) + want]
    ensures b <= b' < top && pos <= cap && At(b', pos, cap) == At(b, at, cap) + want
  {
    out, b', pos := [], b, at;
    var size := want;
    assert b < top;
    while size > 0
      invariant 0 <= size <= want && b <= b' < top && pos <= cap
      invariant At(b', pos, cap) == At(b, at, cap) + (want - size)
      invariant out == stream[At(b, at, cap)..At(b, at, cap) + (want - size)]
      decreases size, top - b'
    {
      var copy := Min(cap - pos, size);
      assert ChunkHolds(mem[b'].data, b', cap, stream);
      HoldsSlice(mem[b'].data, b', cap, stream, pos, copy);
      out := out + mem[b'].data[pos..pos + copy];
      size, pos := size - copy, pos + copy;
      if size > 0 {
        NextChunk(b', cap);
        AtBelow(b' + 1, 0, top, cap);
        assert mem[b'].linked;
        pos, b' := 0, b' + 1;
      }
    }
  }

  // ---- What a window of the chain holds ----

  /** `n` bytes can be read in memory from byte `pos` of chunk `k` on, following the links. */
  ghost predicate Readable(mem: Heap, k: nat, pos: nat, n: nat)
    decreases n
  {
    n == 0 || (
      && k in mem && pos < |mem[k].data|
      && var m := Min(|mem[k].data| - pos, n); m == n || (mem[k].linked && Readable(mem, k + 1, 0, n - m)))
  }

  /** The bytes in memory. */
  ghost function BytesAt(mem: Heap, k: nat, pos: nat, n: nat): (r: seq<Byte>)
    requires Readable(mem, k, pos, n)
    decreases n
  {
    if n == 0 then []
    else
      var m := Min(|mem[k].data| - pos, n);
      mem[k].data[pos..pos + m] + if m == n then [] else BytesAt(mem, k + 1, 0, n - m)
  }

  /** Memory from an owned chunk on holds the stream. */
  lemma {:induction false} BytesAreStream(mem: Heap, top: nat, cap: nat, stream: seq<Byte>, k: nat, pos: nat, n: nat)
    requires cap > 0 && Holds(mem, cap, stream) && pos < cap && At(k, pos, cap) + n <= |stream| <= At(top, 0, cap)
    requires forall j :: k <= j < top ==> j in mem && mem[j].linked == (j + 1 < top)
    ensures Readable(mem, k, pos, n) && BytesAt(mem, k, pos, n) == stream[At(k, pos, cap)..At(k, pos, cap) + n]
    decreases n
  {
    hide At, Holds, BytesAt, Readable;
    if n == 0 {
      NoBytes(mem, k, pos);
      assert stream[At(k, pos, cap)..At(k, pos, cap)] == [];
    } else {
      AtBelow(k, pos, top, cap);
      var m, a := Min(cap - pos, n), At(k, pos, cap);
      ChunkSlice(mem, cap, stream, k, pos, m);
      if m < n {
        NextChunk(k, cap);
        AtAdd(k, pos, m, cap);
        AtBelow(k + 1, 0, top, cap);
        BytesAreStream(mem, top, cap, stream, k + 1, 0, n - m);
        assert stream[a..a + n] == stream[a..a + m] + stream[a + m..a + n];
      }
      BytesStep(mem, k, pos, n, m);
    }
  }

  lemma {:induction false} NoBytes(mem: Heap, k: nat, pos: nat)
    ensures Readable(mem, k, pos, 0) && BytesAt(mem, k, pos, 0) == []
  {
  }

  lemma {:induction false} BytesStep(mem: Heap, k: nat, pos: nat, n: nat, m: nat)
    requires n > 0 && k in mem && pos < |mem[k].data| && m == Min(|mem[k].data| - pos, n)
    requires m < n ==> mem[k].linked && Readable(mem, k + 1, 0, n - m)
    ensures Readable(mem, k, pos, n)
    ensures BytesAt(mem, k, pos, n) ==
              if m < n then mem[k].data[pos..pos + m] + BytesAt(mem, k + 1, 0, n - m) else mem[k].data[pos..pos + m]
  {
  }

  lemma ChunkSlice(mem: Heap, cap: nat, stream: seq<Byte>, k: nat, pos: nat, m: nat)
    requires Holds(mem, cap, stream) && k in mem && pos + m <= cap && At(k, pos, cap) + m <= |stream|
    ensures |mem[k].data| == cap && mem[k].data[pos..pos + m] == stream[At(k, pos, cap)..At(k, pos, cap) + m]
  {
    hide At;
    AtAdd(k, pos, m, cap);
    assert ChunkHolds(mem[k].data, k, cap, stream);
    HoldsSlice(mem[k].data, k, cap, stream, pos, m);
  }
}
