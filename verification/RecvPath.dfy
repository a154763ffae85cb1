/** The receive side of src/socket/chk_stream_socket.c with the packet decoder of
src/socket/chk_decoder.c: a chain of reference-counted chunks filled by `readv`,
cut into packets that share the chunks.

`Inv` ties every reference held anywhere to the chunks' counts, and every cursor
to one position of the byte stream received so far.
*/
module RecvPath {
  import opened Bytes
  import opened ChunkHeap
  import Framing

  /** `packet_decoder`: the window of bytes received but not yet handed out. */
  datatype Decoder = Decoder(b: Option<nat>, spos: nat, size: nat, max: nat)

  /** A `chk_bytebuffer` made from a chunk: a window into the shared chain. */
  datatype Packet = Packet(head: nat, spos: nat, datasize: nat)

  /** `current` is the packet being delivered, `live` the ones the client has cloned and not yet deleted. */
  datatype Receiver = Receiver(
    mem: Heap, top: nat, cap: nat, next: Option<nat>, pos: nat,
    dec: Decoder, current: Option<Packet>, live: seq<Packet>, rclose: bool)

  // ---- Owners ----

  ghost function Ref(o: Option<nat>): (r: multiset<nat>) {
    if o.Some? then multiset{o.value} else multiset{}
  }

  ghost function Heads(ps: seq<Packet>): (r: multiset<nat>) {
    multiset(seq(|ps|, i requires 0 <= i < |ps| => ps[i].head))
  }

  ghost function CurrentRef(o: Option<Packet>): (r: multiset<nat>) {
    if o.Some? then multiset{o.value.head} else multiset{}
  }

  /** Every reference from outside the chain. */
  ghost function Roots(r: Receiver): (m: multiset<nat>) {
    Ref(r.next) + Ref(r.dec.b) + CurrentRef(r.current) + Heads(r.live)
  }

  lemma HeadsAppend(ps: seq<Packet>, p: Packet)
    ensures Heads(ps + [p]) == Heads(ps) + multiset{p.head}
  {
    var hs := seq(|ps|, i requires 0 <= i < |ps| => ps[i].head);
    assert seq(|ps + [p]|, i requires 0 <= i < |ps + [p]| => (ps + [p])[i].head) == hs + [p.head];
  }

  lemma HeadsConcat(ps: seq<Packet>, qs: seq<Packet>)
    ensures Heads(ps + qs) == Heads(ps) + Heads(qs)
  {
    var hs := seq(|ps|, i requires 0 <= i < |ps| => ps[i].head);
    var gs := seq(|qs|, i requires 0 <= i < |qs| => qs[i].head);
    assert seq(|ps + qs|, i requires 0 <= i < |ps + qs| => (ps + qs)[i].head) == hs + gs;
  }

  lemma HeadsRemove(ps: seq<Packet>, k: nat)
    requires k < |ps|
    ensures Heads(ps[..k] + ps[k + 1..]) == Heads(ps) - multiset{ps[k].head} && ps[k].head in Heads(ps)
  {
    assert ps == ps[..k] + [ps[k]] + ps[k + 1..];
    HeadsConcat(ps[..k] + [ps[k]], ps[k + 1..]);
    HeadsAppend(ps[..k], ps[k]);
    HeadsConcat(ps[..k], ps[k + 1..]);
  }

  lemma HeadIn(ps: seq<Packet>, p: Packet)
    requires p in ps
    ensures p.head in Heads(ps)
  {
    var k :| 0 <= k < |ps| && ps[k] == p;
    HeadsRemove(ps, k);
  }

  lemma RootsNext(r: Receiver, r': Receiver)
    requires r'.dec.b == r.dec.b && r'.current == r.current && r'.live == r.live && r.next.Some?
    ensures r.next.value in Roots(r) && Roots(r') == Roots(r) - multiset{r.next.value} + Ref(r'.next)
  {
  }

  lemma RootsDecoder(r: Receiver, r': Receiver)
    requires r'.next == r.next && r'.current == r.current && r'.live == r.live && r.dec.b.Some?
    ensures r.dec.b.value in Roots(r) && Roots(r') == Roots(r) - multiset{r.dec.b.value} + Ref(r'.dec.b)
  {
  }

  lemma RootsClone(r: Receiver, r': Receiver, p: Packet)
    requires r'.next == r.next && r'.dec.b == r.dec.b && r'.current == r.current && r'.live == r.live + [p]
    requires r.current == Some(p) || p in r.live
    ensures p.head in Roots(r) && Roots(r') == Roots(r) + multiset{p.head}
  {
    if p in r.live { HeadIn(r.live, p); }
    HeadsAppend(r.live, p);
  }

  lemma RootsDrop(r: Receiver, r': Receiver, k: nat)
    requires r'.next == r.next && r'.dec.b == r.dec.b && r'.current == r.current
    requires k < |r.live| && r'.live == r.live[..k] + r.live[k + 1..]
    ensures r.live[k].head in Roots(r) && Roots(r') == Roots(r) - multiset{r.live[k].head}
  {
    HeadsRemove(r.live, k);
  }

  lemma RootsDelivered(r: Receiver, r': Receiver)
    requires r'.next == r.next && r'.dec.b == r.dec.b && r'.live == r.live && r.current.Some? && r'.current.None?
    ensures r.current.value.head in Roots(r) && Roots(r') == Roots(r) - multiset{r.current.value.head}
  {
  }

  // ---- Windows into the stream ----

  ghost predicate WindowOk(p: Packet, cap: nat, n: nat) {
    p.spos < cap && At(p.head, p.spos, cap) + p.datasize <= n
  }

  /** The bytes of the stream a packet stands for. */
  ghost function Content(p: Packet, cap: nat, stream: seq<Byte>): (r: seq<Byte>)
    requires WindowOk(p, cap, |stream|)
  {
    stream[At(p.head, p.spos, cap)..At(p.head, p.spos, cap) + p.datasize]
  }

  /** The decoder's window starts at stream position `consumed` and ends at the end of the stream. */
  ghost predicate DecoderAt(d: Decoder, cap: nat, consumed: nat, n: nat) {
    && consumed + d.size == n && d.max < U32
    && (if d.b.Some? then d.spos < cap && At(d.b.value, d.spos, cap) == consumed else d.size == 0)
  }

  /** The socket's write position is `unread` bytes before the end of the stream. */
  ghost predicate RecvAt(r: Receiver, n: nat, unread: nat) {
    if r.next.Some? then r.pos < r.cap && At(r.next.value, r.pos, r.cap) + unread == n
    else r.top == 0 && n == 0 && unread == 0
  }

  ghost predicate Inv(r: Receiver, stream: seq<Byte>, consumed: nat, unread: nat) {
    && r.cap >= 1024 && |stream| <= At(r.top, 0, r.cap)
    && MemOk(r.mem, r.top, Roots(r), r.cap, stream)
    && DecoderAt(r.dec, r.cap, consumed, |stream|)
    && RecvAt(r, |stream|, unread)
    && (r.current.Some? ==> WindowOk(r.current.value, r.cap, |stream|))
    && (forall i :: 0 <= i < |r.live| ==> WindowOk(r.live[i], r.cap, |stream|))
  }

  // ---- What the client may do with packets ----

  /** `chk_bytebuffer_clone` of the packet being delivered or of one kept earlier. */
  function Cloned(r: Receiver, p: Packet): (r': Receiver)
    requires p.head in r.mem
  {
    r.(mem := Retain(r.mem, p.head), live := r.live + [p])
  }

  lemma CloneInv(r: Receiver, stream: seq<Byte>, consumed: nat, unread: nat, p: Packet)
    requires Inv(r, stream, consumed, unread) && (r.current == Some(p) || p in r.live)
    ensures p.head in r.mem && Inv(Cloned(r, p), stream, consumed, unread)
  {
    hide MemOk, Roots;
    RootsClone(r, r.(live := r.live + [p]), p);
    RootMem(r.mem, r.top, Roots(r), r.cap, stream, p.head);
    RetainMem(r.mem, r.top, Roots(r), r.cap, stream, p.head);
    RootsClone(r, Cloned(r, p), p);
  }

  /** `chk_bytebuffer_del` of a kept packet. */
  function Dropped(r: Receiver, k: nat): (r': Receiver)
    requires k < |r.live| && r.live[k].head in r.mem
  {
    r.(mem := Release(r.mem, r.live[k].head), live := r.live[..k] + r.live[k + 1..])
  }

  lemma DropInv(r: Receiver, stream: seq<Byte>, consumed: nat, unread: nat, k: nat)
    requires Inv(r, stream, consumed, unread) && k < |r.live|
    ensures r.live[k].head in r.mem && Inv(Dropped(r, k), stream, consumed, unread)
  {
    hide MemOk, Roots;
    RootsDrop(r, r.(live := r.live[..k] + r.live[k + 1..]), k);
    ReleaseMem(r.mem, r.top, Roots(r), r.cap, stream, r.live[k].head);
    RootsDrop(r, Dropped(r, k), k);
  }

  /** `chk_bytebuffer_del` of the packet after its callback. */
  function Delivered(r: Receiver): (r': Receiver)
    requires r.current.Some? && r.current.value.head in r.mem
  {
    r.(mem := Release(r.mem, r.current.value.head), current := None)
  }

  lemma DeliveredInv(r: Receiver, stream: seq<Byte>, consumed: nat, unread: nat)
    requires Inv(r, stream, consumed, unread) && r.current.Some?
    ensures r.current.value.head in r.mem && Inv(Delivered(r), stream, consumed, unread)
  {
    hide MemOk, Roots;
    RootsDelivered(r, r.(current := None));
    ReleaseMem(r.mem, r.top, Roots(r), r.cap, stream, r.current.value.head);
    RootsDelivered(r, Delivered(r));
  }

  // ---- Moving the cursors ----

  /** A cursor leaves chunk `k`: its successor, if any, is retained before `k` is released. */
  function Follow(mem: Heap, k: nat): (r: (Heap, Option<nat>))
    requires k in mem && (mem[k].linked ==> k + 1 in mem)
  {
    if mem[k].linked then (Release(Retain(mem, k + 1), k), Some(k + 1)) else (Release(mem, k), None)
  }

  lemma FollowMem(mem: Heap, top: nat, roots: multiset<nat>, cap: nat, stream: seq<Byte>, k: nat)
    requires MemOk(mem, top, roots, cap, stream) && k in roots
    ensures k in mem && k < top && (mem[k].linked ==> k + 1 in mem) && (mem[k].linked <==> k + 1 < top)
    ensures MemOk(Follow(mem, k).0, top, roots - multiset{k} + Ref(Follow(mem, k).1), cap, stream)
  {
    hide MemOk, Release;
    RootMem(mem, top, roots, cap, stream, k);
    var roots' := roots - multiset{k};
    if k + 1 < top {
      RetainMem(mem, top, roots, cap, stream, k + 1);
      ReleaseMem(Retain(mem, k + 1), top, roots + multiset{k + 1}, cap, stream, k);
      assert roots + multiset{k + 1} - multiset{k} == roots' + Ref(Some(k + 1));
    } else {
      ReleaseMem(mem, top, roots, cap, stream, k);
      assert roots' + Ref(None) == roots';
    }
  }

  lemma FollowNext(mem: Heap, k: nat)
    requires k in mem && (mem[k].linked ==> k + 1 in mem)
    ensures Follow(mem, k).1 == if mem[k].linked then Some(k + 1) else None
  {
  }

  /** One round of the decoder's adjustment loop: `n` bytes further, and on to the next chunk at the end of one. */
  function DecoderStep(r: Receiver, n: nat): (r': Receiver)
    requires r.dec.b.Some? && r.dec.b.value in r.mem && n <= r.dec.size
    requires r.mem[r.dec.b.value].linked ==> r.dec.b.value + 1 in r.mem
  {
    var d := r.dec.(spos := r.dec.spos + n, size := r.dec.size - n);
    if d.spos >= r.cap then
      var (mem, b) := Follow(r.mem, d.b.value);
      r.(mem := mem, dec := d.(b := b, spos := 0))
    else r.(dec := d)
  }

  lemma DecoderStepInv(r: Receiver, stream: seq<Byte>, consumed: nat, unread: nat, n: nat)
    requires Inv(r, stream, consumed, unread) && r.dec.b.Some? && n <= r.dec.size && r.dec.spos + n <= r.cap
    ensures r.dec.b.value in r.mem && (r.mem[r.dec.b.value].linked ==> r.dec.b.value + 1 in r.mem)
    ensures Inv(DecoderStep(r, n), stream, consumed + n, unread)
  {
    hide MemOk, Roots, Follow, At;
    RootsDecoder(r, r);
    FollowMem(r.mem, r.top, Roots(r), r.cap, stream, r.dec.b.value);
    var k, r' := r.dec.b.value, DecoderStep(r, n);
    RootsDecoder(r, r');
    if r.dec.spos + n < r.cap { assert Roots(r) - multiset{k} + Ref(r.dec.b) == Roots(r); }
    DecoderMoves(r, consumed, |stream|, n);
  }

  lemma DecoderMoves(r: Receiver, consumed: nat, len: nat, n: nat)
    requires DecoderAt(r.dec, r.cap, consumed, len) && r.dec.b.Some? && n <= r.dec.size && r.dec.spos + n <= r.cap
    requires r.dec.b.value in r.mem && (r.mem[r.dec.b.value].linked ==> r.dec.b.value + 1 in r.mem)
    requires r.dec.b.value < r.top && (r.mem[r.dec.b.value].linked <==> r.dec.b.value + 1 < r.top)
    requires len <= At(r.top, 0, r.cap)
    ensures DecoderAt(DecoderStep(r, n).dec, r.cap, consumed + n, len)
  {
    hide Follow, At;
    FollowNext(r.mem, r.dec.b.value);
    NextChunk(r.dec.b.value, r.cap);
    AtAdd(r.dec.b.value, r.dec.spos, n, r.cap);
  }

  /** One round of `update_next_recv_pos`, after the successor chunk was made sure of. */
  function RecvStep(r: Receiver, n: nat): (r': Receiver)
    requires r.next.Some? && r.next.value in r.mem
    requires r.mem[r.next.value].linked ==> r.next.value + 1 in r.mem
  {
    if r.pos + n >= r.cap then
      var (mem, b) := Follow(r.mem, r.next.value);
      r.(mem := mem, next := b, pos := 0)
    else r.(pos := r.pos + n)
  }

  lemma RecvStepInv(r: Receiver, stream: seq<Byte>, consumed: nat, unread: nat, n: nat)
    requires Inv(r, stream, consumed, unread) && r.next.Some? && n <= unread && r.pos + n <= r.cap
    requires r.pos + n == r.cap ==> r.next.value + 1 < r.top
    ensures r.next.value in r.mem && (r.mem[r.next.value].linked ==> r.next.value + 1 in r.mem)
    ensures Inv(RecvStep(r, n), stream, consumed, unread - n)
  {
    hide MemOk, Roots, Follow, At;
    RootsNext(r, r);
    FollowMem(r.mem, r.top, Roots(r), r.cap, stream, r.next.value);
    RootsNext(r, RecvStep(r, n));
    FollowNext(r.mem, r.next.value);
    NextChunk(r.next.value, r.cap);
    AtAdd(r.next.value, r.pos, n, r.cap);
  }

  /** A new chunk at the end of the chain. */
  function Grown(r: Receiver, data: seq<Byte>): (r': Receiver) {
    r.(mem := Extend(r.mem, r.top, data), top := r.top + 1)
  }

  lemma GrowInv(r: Receiver, stream: seq<Byte>, consumed: nat, unread: nat, data: seq<Byte>)
    requires Inv(r, stream, consumed, unread) && r.next.Some? && |data| == r.cap
    ensures Inv(Grown(r, data), stream, consumed, unread)
  {
    hide MemOk, Roots;
    RootsNext(r, r);
    RootMem(r.mem, r.top, Roots(r), r.cap, stream, r.next.value);
    assert r.next.value in r.mem;
    NextChunk(r.top, r.cap);
    ExtendMem(r.mem, r.top, Roots(r), r.cap, stream, data);
    RootsNext(r, Grown(r, data));
  }

  /** The first chunk of a connection. */
  function First(r: Receiver, data: seq<Byte>): (r': Receiver) {
    r.(mem := Extend(r.mem, r.top, data), top := r.top + 1, next := Some(r.top), pos := 0)
  }

  lemma FirstInv(r: Receiver, stream: seq<Byte>, consumed: nat, data: seq<Byte>)
    requires Inv(r, stream, consumed, 0) && r.next.None? && |data| == r.cap
    ensures Inv(First(r, data), stream, consumed, 0)
  {
    ExtendMem(r.mem, r.top, Roots(r), r.cap, stream, data);
    hide MemOk;
    NextChunk(r.top, r.cap);
    assert Roots(First(r, data)) == Roots(r) + multiset{r.top};
  }

  // ---- Reading from the kernel ----

  /** `malloc` does not initialise a chunk. */
  method NewData(cap: nat) returns (data: seq<Byte>)
    ensures |data| == cap
  {
    data := seq(cap, _ => 0);
  }

  /** The size of the iovecs `prepare_recv` offers. */
  function Room(r: Receiver): (n: nat) {
    if r.next.None? || r.pos == 0 then r.cap else if r.pos < r.cap then r.cap - r.pos + r.cap else 0
  }

  /** `prepare_recv`: one or two iovecs; the second one is a whole chunk. */
  method PrepareRecv(r: Receiver, ghost stream: seq<Byte>, ghost consumed: nat) returns (r': Receiver, iovs: seq<nat>)
    requires Inv(r, stream, consumed, 0)
    ensures Inv(r', stream, consumed, 0) && r' == r.(mem := r'.mem, top := r'.top, next := r'.next, pos := r'.pos)
    ensures r'.next.Some? && (r.next.Some? ==> r'.next == r.next && r'.pos == r.pos)
    ensures iovs == if r'.pos == 0 then [r.cap] else [r.cap - r'.pos, r.cap]
    ensures r'.pos > 0 ==> r'.next.value + 1 < r'.top
    ensures Room(r') == Room(r) == if |iovs| == 1 then iovs[0] else iovs[0] + iovs[1]
  {
    hide MemOk, Roots, Release, At;
    r' := r;
    if r.next.None? {
      var data := NewData(r.cap);
      FirstInv(r, stream, consumed, data);
      r' := First(r, data);
    }
    iovs := [r'.cap - r'.pos];
    if r'.cap - r'.pos < r'.cap {
      r' := EnsureNext(r', stream, consumed, 0);
      iovs := iovs + [r'.cap];
    }
  }

  /** The chunk being filled gets a successor unless it has one. */
  method EnsureNext(r: Receiver, ghost stream: seq<Byte>, ghost consumed: nat, ghost unread: nat) returns (r': Receiver)
    requires Inv(r, stream, consumed, unread) && r.next.Some?
    ensures Inv(r', stream, consumed, unread) && r' == r.(mem := r'.mem, top := r'.top)
    ensures r.next.value + 1 < r'.top
  {
    hide MemOk, Roots, Release, At;
    r' := r;
    RootsNext(r, r);
    RootMem(r.mem, r.top, Roots(r), r.cap, stream, r.next.value);
    if !r.mem[r.next.value].linked {
      var data := NewData(r.cap);
      GrowInv(r, stream, consumed, unread, data);
      r' := Grown(r, data);
    }
  }

  /** `readv` fills the first iovec, then the second. */
  function Filled(r: Receiver, bytes: seq<Byte>): (r': Receiver)
    requires r.next.Some? && r.pos < r.cap && |bytes| <= Room(r)
    requires r.next.value in r.mem && |r.mem[r.next.value].data| == r.cap
    requires |bytes| > r.cap - r.pos ==> r.next.value + 1 in r.mem && |r.mem[r.next.value + 1].data| == r.cap
  {
    var n := Min(r.cap - r.pos, |bytes|);
    var mem := Store(r.mem, r.next.value, r.pos, bytes[..n]);
    r.(mem := if n < |bytes| then Store(mem, r.next.value + 1, 0, bytes[n..]) else mem)
  }

  /** `packet_decoder_update` with the bytes just read. */
  function Updated(r: Receiver, n: nat): (r': Receiver)
    requires r.next.Some? && r.next.value in r.mem
  {
    if r.dec.b.None? then
      r.(mem := Retain(r.mem, r.next.value), dec := r.dec.(b := r.next, spos := r.pos, size := n))
    else r.(dec := r.dec.(size := r.dec.size + n))
  }

  lemma ChunkData(mem: Heap, top: nat, roots: multiset<nat>, cap: nat, stream: seq<Byte>, k: nat)
    requires MemOk(mem, top, roots, cap, stream) && k in mem
    ensures |mem[k].data| == cap
  {
    assert ChunkHolds(mem[k].data, k, cap, stream);
  }

  lemma FilledMem(r: Receiver, stream: seq<Byte>, consumed: nat, bytes: seq<Byte>)
    requires Inv(r, stream, consumed, 0) && r.next.Some? && |bytes| <= Room(r)
    requires r.pos > 0 ==> r.next.value + 1 < r.top
    ensures r.next.value in r.mem && |r.mem[r.next.value].data| == r.cap
    ensures |bytes| > r.cap - r.pos ==> r.next.value + 1 in r.mem && |r.mem[r.next.value + 1].data| == r.cap
    ensures MemOk(Filled(r, bytes).mem, r.top, Roots(r), r.cap, stream + bytes)
    ensures |stream + bytes| <= At(r.top, 0, r.cap)
    ensures r.next.value in Filled(r, bytes).mem
  {
    hide MemOk, Roots;
    var k, n := r.next.value, Min(r.cap - r.pos, |bytes|);
    RootsNext(r, r);
    RootMem(r.mem, r.top, Roots(r), r.cap, stream, k);
    ChunkData(r.mem, r.top, Roots(r), r.cap, stream, k);
    StoreMem(r.mem, r.top, Roots(r), r.cap, stream, k, r.pos, bytes[..n]);
    NextChunk(k, r.cap);
    AtMonotone(k + 1, r.top, r.cap);
    if n < |bytes| {
      var mem := Store(r.mem, k, r.pos, bytes[..n]);
      ChunkData(r.mem, r.top, Roots(r), r.cap, stream, k + 1);
      StoreMem(mem, r.top, Roots(r), r.cap, stream + bytes[..n], k + 1, 0, bytes[n..]);
      assert stream + bytes == stream + bytes[..n] + bytes[n..];
      NextChunk(k + 1, r.cap);
      AtMonotone(k + 2, r.top, r.cap);
    } else {
      assert bytes[..n] == bytes;
    }
  }

  lemma ReceivedInv(r: Receiver, stream: seq<Byte>, consumed: nat, bytes: seq<Byte>)
    requires Inv(r, stream, consumed, 0) && r.next.Some? && |bytes| <= Room(r)
    requires r.pos > 0 ==> r.next.value + 1 < r.top
    ensures r.next.value in r.mem && |r.mem[r.next.value].data| == r.cap
    ensures |bytes| > r.cap - r.pos ==> r.next.value + 1 in r.mem && |r.mem[r.next.value + 1].data| == r.cap
    ensures r.next.value in Filled(r, bytes).mem
    ensures Inv(Updated(Filled(r, bytes), |bytes|), stream + bytes, consumed, |bytes|)
  {
    hide MemOk, Roots, Filled, At;
    FilledMem(r, stream, consumed, bytes);
    FilledFrame(r, bytes);
    var f := Filled(r, bytes);
    RootsNext(r, f);
    if r.dec.b.None? {
      RetainMem(f.mem, r.top, Roots(r), r.cap, stream + bytes, r.next.value);
    }
    RootsUpdated(r, Updated(f, |bytes|));
  }

  lemma FilledFrame(r: Receiver, bytes: seq<Byte>)
    requires r.next.Some? && r.pos < r.cap && |bytes| <= Room(r)
    requires r.next.value in r.mem && |r.mem[r.next.value].data| == r.cap
    requires |bytes| > r.cap - r.pos ==> r.next.value + 1 in r.mem && |r.mem[r.next.value + 1].data| == r.cap
    ensures Filled(r, bytes) == r.(mem := Filled(r, bytes).mem)
  {
  }

  lemma RootsUpdated(r: Receiver, r': Receiver)
    requires r'.next == r.next && r'.current == r.current && r'.live == r.live
    requires r.next.Some? && r'.dec.b == if r.dec.b.None? then r.next else r.dec.b
    ensures Roots(r') == if r.dec.b.None? then Roots(r) + multiset{r.next.value} else Roots(r)
  {
  }

  /** `update_next_recv_pos` */
  method UpdateNextRecvPos(r: Receiver, n: nat, ghost stream: seq<Byte>, ghost consumed: nat) returns (r': Receiver)
    requires Inv(r, stream, consumed, n) && r.next.Some?
    ensures Inv(r', stream, consumed, 0) && r'.next.Some?
    ensures r' == r.(mem := r'.mem, top := r'.top, next := r'.next, pos := r'.pos)
  {
    hide MemOk, Roots, Release, At;
    r' := r;
    var bytes := n;
    while bytes > 0
      invariant 0 <= bytes <= n && Inv(r', stream, consumed, bytes) && r'.next.Some?
      invariant r' == r.(mem := r'.mem, top := r'.top, next := r'.next, pos := r'.pos)
    {
      var size := Min(r'.cap - r'.pos, bytes);
      if r'.pos + size >= r'.cap {
        r' := EnsureNext(r', stream, consumed, bytes);
      }
      RecvStepInv(r', stream, consumed, bytes, size);
      RecvStepNext(r', stream, consumed, bytes, size);
      r', bytes := RecvStep(r', size), bytes - size;
    }
  }

  lemma RecvStepNext(r: Receiver, stream: seq<Byte>, consumed: nat, unread: nat, n: nat)
    requires Inv(r, stream, consumed, unread) && r.next.Some? && r.pos + n <= r.cap
    requires r.pos + n == r.cap ==> r.next.value + 1 < r.top
    ensures r.next.value in r.mem && (r.mem[r.next.value].linked ==> r.next.value + 1 in r.mem)
    ensures RecvStep(r, n).next.Some?
  {
    hide MemOk, Roots, Release;
    RootsNext(r, r);
    RootMem(r.mem, r.top, Roots(r), r.cap, stream, r.next.value);
  }

  // ---- packet_decoder_unpack ----

  /** `chk_bytebuffer_new_bychunk` on the decoder's window. */
  function Opened(r: Receiver, total: nat): (r': Receiver)
    requires r.dec.b.Some? && r.dec.b.value in r.mem
  {
    r.(mem := Retain(r.mem, r.dec.b.value), current := Some(Packet(r.dec.b.value, r.dec.spos, total)))
  }

  lemma RootsOpened(r: Receiver, r': Receiver)
    requires r'.next == r.next && r'.dec.b == r.dec.b && r'.live == r.live && r.current.None? && r'.current.Some?
    ensures Roots(r') == Roots(r) + multiset{r'.current.value.head}
  {
  }

  lemma OpenedInv(r: Receiver, stream: seq<Byte>, consumed: nat, unread: nat, total: nat)
    requires Inv(r, stream, consumed, unread) && r.dec.b.Some? && r.current.None? && total <= r.dec.size
    ensures r.dec.b.value in r.mem && Inv(Opened(r, total), stream, consumed, unread)
    ensures Content(Opened(r, total).current.value, r.cap, stream) == stream[consumed..consumed + total]
  {
    hide MemOk, Roots, At;
    RootsDecoder(r, r);
    RootMem(r.mem, r.top, Roots(r), r.cap, stream, r.dec.b.value);
    RetainMem(r.mem, r.top, Roots(r), r.cap, stream, r.dec.b.value);
    RootsOpened(r, Opened(r, total));
  }

  /** The adjustment loop: the window moves on by `total` bytes, chunk by chunk. */
  method Advance(r: Receiver, total: nat, ghost stream: seq<Byte>, ghost consumed: nat, ghost unread: nat)
    returns (r': Receiver)
    requires Inv(r, stream, consumed, unread) && r.dec.b.Some? && total <= r.dec.size
    ensures Inv(r', stream, consumed + total, unread)
    ensures r' == r.(mem := r'.mem, dec := r'.dec) && r'.dec.max == r.dec.max
  {
    hide MemOk, Roots, Release, At;
    r' := r;
    var left := total;
    while true
      invariant 0 <= left <= total && Inv(r', stream, consumed + (total - left), unread)
      invariant r'.dec.b.Some? && left <= r'.dec.size
      invariant r' == r.(mem := r'.mem, dec := r'.dec) && r'.dec.max == r.dec.max
      decreases left
    {
      var size := Min(r'.cap - r'.dec.spos, left);
      DecoderStepInv(r', stream, consumed + (total - left), unread, size);
      r', left := DecoderStep(r', size), left - size;
      if r'.dec.b.None? || left == 0 { break; }
    }
  }

  /** The four header bytes, read across a chunk boundary if need be. */
  method ReadHeader(r: Receiver, ghost stream: seq<Byte>, ghost consumed: nat, ghost unread: nat) returns (len: nat)
    requires Inv(r, stream, consumed, unread) && r.dec.b.Some? && r.dec.size > 4
    ensures len == Framing.Be32(stream[consumed..])
  {
    hide MemOk, Roots, Release;
    RootsDecoder(r, r);
    RootMem(r.mem, r.top, Roots(r), r.cap, stream, r.dec.b.value);
    WholeChunks(r.mem, r.top, Roots(r), r.cap, stream);
    var header, b, pos := Read(r.mem, r.dec.b.value, r.dec.spos, 4, r.top, Roots(r), r.cap, stream);
    assert header == stream[consumed..][..4];
    len := Framing.Be32(header);
  }

  lemma WholeChunks(mem: Heap, top: nat, roots: multiset<nat>, cap: nat, stream: seq<Byte>)
    requires MemOk(mem, top, roots, cap, stream)
    ensures forall k :: k in mem ==> |mem[k].data| == cap
  {
    forall k | k in mem ensures |mem[k].data| == cap { ChunkData(mem, top, roots, cap, stream, k); }
  }

  /** `packet_decoder_unpack` */
  method Unpack(r: Receiver, ghost stream: seq<Byte>, ghost consumed: nat, ghost unread: nat)
    returns (r': Receiver, o: Framing.Outcome)
    requires Inv(r, stream, consumed, unread) && r.current.None?
    ensures o == Framing.Next(stream[consumed..], r.dec.max)
    ensures if o.Packet? then
              && o.total <= |stream| - consumed && Inv(r', stream, consumed + o.total, unread)
              && r' == r.(mem := r'.mem, dec := r'.dec, current := r'.current) && r'.dec.max == r.dec.max
              && r'.current.Some? && r'.current.value.datasize == o.total && WindowOk(r'.current.value, r.cap, |stream|)
              && Content(r'.current.value, r.cap, stream) == stream[consumed..consumed + o.total]
            else r' == r
  {
    hide MemOk, Roots, Release, At;
    r' := r;
    if r.dec.size <= 4 { return r, Framing.More; }
    var len := ReadHeader(r, stream, consumed, unread);
    var total := (4 + len) % U32;
    if len == 0 { return r, Framing.ZeroLength; }
    if total > r.dec.max { return r, Framing.TooLarge; }
    if total > r.dec.size { return r, Framing.More; }
    OpenedInv(r, stream, consumed, unread, total);
    r' := Advance(Opened(r, total), total, stream, consumed, unread);
    o := Framing.Packet(total);
  }

  // ---- process_read ----

  /** All bytes received, how many of them were cut into packets, the packets handed to the callback,
      and how many of the bytes the socket's own cursor has not passed yet. */
  datatype History = History(stream: seq<Byte>, consumed: nat, delivered: seq<seq<Byte>>, unread: nat)

  /** The packets delivered are legal packets and make up the consumed part of the stream; what the
      client holds is some of them. */
  ghost predicate LogOk(r: Receiver, g: History) {
    && g.consumed <= |g.stream| && Join(g.delivered) == g.stream[..g.consumed]
    && (forall i :: 0 <= i < |g.delivered| ==> Framing.Whole(g.delivered[i], r.dec.max))
    && (r.current.Some? ==> IsDelivered(r.current.value, r.cap, g))
    && (forall i :: 0 <= i < |r.live| ==> IsDelivered(r.live[i], r.cap, g))
  }

  ghost predicate IsDelivered(p: Packet, cap: nat, g: History) {
    WindowOk(p, cap, |g.stream|) && Content(p, cap, g.stream) in g.delivered
  }

  ghost predicate Ok(r: Receiver, g: History) {
    Inv(r, g.stream, g.consumed, g.unread) && LogOk(r, g)
  }

  /** Between events: no packet is waiting, unless a callback has closed the socket. */
  ghost predicate Settled(r: Receiver, g: History) {
    && Ok(r, g) && r.current.None?
    && (!r.rclose ==> g.unread == 0 && Framing.Decodes(g.stream, r.dec.max, g.delivered, g.stream[g.consumed..]))
  }

  /** What was delivered before a later read stays as it was. */
  ghost predicate Grew(g: History, g': History) {
    g.stream <= g'.stream && g.delivered <= g'.delivered
  }

  lemma StillDelivered(p: Packet, cap: nat, g: History, g': History)
    requires IsDelivered(p, cap, g) && Grew(g, g')
    ensures IsDelivered(p, cap, g') && Content(p, cap, g'.stream) == Content(p, cap, g.stream)
  {
    assert Content(p, cap, g'.stream) == Content(p, cap, g.stream);
    var k :| 0 <= k < |g.delivered| && g.delivered[k] == Content(p, cap, g.stream);
    assert g'.delivered[k] == g.delivered[k];
  }

  ghost function WithBytes(g: History, bytes: seq<Byte>): (g': History) {
    g.(stream := g.stream + bytes, unread := |bytes|)
  }

  lemma BytesLogOk(r: Receiver, g: History, bytes: seq<Byte>, r': Receiver)
    requires LogOk(r, g) && r.current.None?
    requires r'.current.None? && r'.live == r.live && r'.cap == r.cap && r'.dec.max == r.dec.max
    ensures LogOk(r', WithBytes(g, bytes))
  {
    var g' := WithBytes(g, bytes);
    assert g'.stream[..g.consumed] == g.stream[..g.consumed];
    forall i | 0 <= i < |r.live| ensures IsDelivered(r.live[i], r.cap, g') {
      StillDelivered(r.live[i], r.cap, g, g');
    }
  }

  ghost function WithPacket(g: History, n: nat): (g': History)
    requires g.consumed + n <= |g.stream|
  {
    g.(consumed := g.consumed + n, delivered := g.delivered + [g.stream[g.consumed..g.consumed + n]])
  }

  lemma CutIsWhole(stream: seq<Byte>, consumed: nat, max: nat, n: nat)
    requires consumed + n <= |stream| && max < U32 && n > 4
    requires Framing.Next(stream[consumed..], max) == Framing.Packet(n)
    ensures Framing.Whole(stream[consumed..consumed + n], max)
  {
    Framing.CutIsWholeIffNoWrap(stream[consumed..], max);
    assert stream[consumed..][..n] == stream[consumed..consumed + n];
  }

  lemma PacketLogOk(r: Receiver, g: History, n: nat, r': Receiver)
    requires LogOk(r, g) && r.current.None? && g.consumed + n <= |g.stream| && r.dec.max < U32
    requires Framing.Next(g.stream[g.consumed..], r.dec.max) == Framing.Packet(n) && n > 4
    requires r'.live == r.live && r'.cap == r.cap && r'.dec.max == r.dec.max
    requires r'.current.Some? && WindowOk(r'.current.value, r.cap, |g.stream|)
    requires Content(r'.current.value, r.cap, g.stream) == g.stream[g.consumed..g.consumed + n]
    ensures LogOk(r', WithPacket(g, n))
  {
    var g', d := WithPacket(g, n), g.stream[g.consumed..g.consumed + n];
    hide At, Framing.Next;
    CutIsWhole(g.stream, g.consumed, r.dec.max, n);
    JoinSnoc(g.delivered, d);
    assert g.stream[..g.consumed + n] == g.stream[..g.consumed] + d;
    forall i | 0 <= i < |r.live| ensures IsDelivered(r.live[i], r.cap, g') {
      StillDelivered(r.live[i], r.cap, g, g');
    }
    assert d in g'.delivered;
  }

  lemma WithinStream(r: Receiver, g: History)
    requires Ok(r, g)
    ensures g.consumed <= |g.stream| && r.dec.max < U32
  {
  }

  lemma CursorLogOk(r: Receiver, g: History, r': Receiver)
    requires LogOk(r, g) && r.current.None? && !Framing.Next(g.stream[g.consumed..], r.dec.max).Packet?
    requires r'.current.None? && r'.live == r.live && r'.cap == r.cap && r'.dec == r.dec
    ensures LogOk(r', g.(unread := 0))
    ensures Framing.Decodes(g.stream, r'.dec.max, g.delivered, g.stream[g.consumed..])
  {
    assert g.stream == g.stream[..g.consumed] + g.stream[g.consumed..];
  }

  lemma UnwrappedNext(stream: seq<Byte>, consumed: nat, max: nat, n: nat)
    requires consumed + n <= |stream| && Framing.Unwrapped(stream[consumed..], max)
    requires Framing.Next(stream[consumed..], max) == Framing.Packet(n)
    ensures n > 4 && Framing.Unwrapped(stream[consumed + n..], max)
  {
    assert stream[consumed..][n..] == stream[consumed + n..];
  }

  lemma CloseReadOk(r: Receiver, g: History)
    requires Ok(r, g)
    ensures Ok(r.(rclose := true), g)
  {
    hide MemOk, At;
    assert Roots(r.(rclose := true)) == Roots(r);
  }

  /** A socket on which the packet decoder is installed. */
  class PacketSocket {
    var r: Receiver
    ghost var g: History

    ghost predicate Valid()
      reads this
    {
      Settled(r, g)
    }

    constructor (cap: nat, max: nat)
      requires cap >= 1024 && max < U32
      ensures Valid() && g == History([], 0, [], 0) && r.live == [] && !r.rclose && r.cap == cap && r.dec.max == max
    {
      r := Receiver(map[], 0, cap, None, 0, Decoder(None, 0, 0, max), None, [], false);
      g := History([], 0, [], 0);
      new;
      assert RefsOk(map[], 0, 0, Roots(r));
      assert MemOk(r.mem, r.top, Roots(r), r.cap, g.stream);
    }

    /** The client clones the packet it is given or one it kept. */
    method Clone(p: Packet)
      requires Ok(r, g) && (r.current == Some(p) || p in r.live)
      modifies `r
      ensures Ok(r, g) && r == old(r).(mem := r.mem, live := old(r.live) + [p])
    {
      hide MemOk, Roots, Release, At;
      CloneInv(r, g.stream, g.consumed, g.unread, p);
      r := Cloned(r, p);
    }

    /** The client deletes a packet it kept. */
    method Drop(k: nat)
      requires Ok(r, g) && k < |r.live|
      modifies `r
      ensures Ok(r, g) && r == old(r).(mem := r.mem, live := old(r.live)[..k] + old(r.live)[k + 1..])
    {
      hide MemOk, Roots, Release, At;
      DropInv(r, g.stream, g.consumed, g.unread, k);
      r := Dropped(r, k);
    }

    /** Any callback: it may clone and delete packets and may close the socket. */
    method Callback()
      requires Ok(r, g) && r.current.Some?
      modifies `r
      ensures Ok(r, g) && r == old(r).(mem := r.mem, live := r.live, rclose := r.rclose)
      ensures old(r.rclose) ==> r.rclose
    {
      hide MemOk, Roots, Release, At;
      var n: nat := *;
      while n > 0
        invariant Ok(r, g) && r == old(r).(mem := r.mem, live := r.live)
      {
        if * {
          Clone(r.current.value);
        } else if r.live != [] {
          var k :| 0 <= k < |r.live|;
          if * { Clone(r.live[k]); } else { Drop(k); }
        }
        n := n - 1;
      }
      if * {
        CloseReadOk(r, g);
        r := r.(rclose := true);
      }
    }

    /** One packet: the callback, then `chk_bytebuffer_del`. */
    method DeliverOne()
      requires Ok(r, g) && r.current.Some?
      modifies `r
      ensures Ok(r, g) && r == old(r).(mem := r.mem, live := r.live, rclose := r.rclose, current := None)
      ensures old(r.rclose) ==> r.rclose
    {
      hide MemOk, Roots, Release, At;
      Callback();
      DeliveredInv(r, g.stream, g.consumed, g.unread);
      r := Delivered(r);
    }

    /** One call of the decoder: the packet it cuts off, if any, is logged as delivered. */
    method UnpackNext() returns (o: Framing.Outcome)
      requires Ok(r, g) && r.current.None? && Framing.Unwrapped(g.stream[g.consumed..], r.dec.max)
      modifies this
      ensures Ok(r, g) && r.dec.max == old(r.dec.max) && r == old(r).(mem := r.mem, dec := r.dec, current := r.current)
      ensures o == Framing.Next(old(g).stream[old(g).consumed..], r.dec.max)
      ensures if o.Packet? then
                && r.current.Some? && o.total > 0
                && old(g).consumed + o.total <= |old(g).stream| && g == WithPacket(old(g), o.total)
                && Framing.Unwrapped(g.stream[g.consumed..], r.dec.max)
              else r == old(r) && g == old(g)
    {
      hide MemOk, Roots, Release, At, Inv, LogOk, Content, Framing.Next, Framing.Unwrapped;
      ghost var before := r;
      WithinStream(r, g);
      r, o := Unpack(r, g.stream, g.consumed, g.unread);
      if o.Packet? {
        UnwrappedNext(g.stream, g.consumed, r.dec.max, o.total);
        PacketLogOk(before, g, o.total, r);
        g := WithPacket(g, o.total);
      }
    }

    /** The unpack loop: packets are delivered until there is none or a callback closes the socket. */
    method DeliverAll() returns (o: Framing.Outcome)
      requires Ok(r, g) && r.current.None? && !r.rclose && r.next.Some?
      requires Framing.Unwrapped(g.stream[g.consumed..], r.dec.max)
      modifies this
      ensures Ok(r, g) && r.current.None? && Grew(old(g), g) && r.next.Some?
      ensures g.stream == old(g.stream) && g.unread == old(g.unread) && r.cap == old(r.cap)
      ensures r.dec.max == old(r.dec.max)
      ensures !r.rclose ==> !o.Packet? && o == Framing.Next(g.stream[g.consumed..], r.dec.max)
    {
      hide MemOk, Roots, Release, At, Inv, LogOk, Framing.Next, Framing.Unwrapped;
      WithinStream(r, g);
      while true
        invariant Ok(r, g) && r.current.None? && !r.rclose && r.next.Some? && Grew(old(g), g)
        invariant g.consumed <= |g.stream|
        invariant g.stream == old(g.stream) && g.unread == old(g.unread) && r.cap == old(r.cap)
        invariant r.dec.max == old(r.dec.max)
        invariant Framing.Unwrapped(g.stream[g.consumed..], r.dec.max)
        decreases |g.stream| - g.consumed
      {
        o := UnpackNext();
        if !o.Packet? { return; }
        DeliverOne();
        if r.rclose { return; }
      }
    }

    /** `readv` stores the bytes `input`, and the decoder's window is extended by them. */
    method Receive(input: seq<Byte>)
      requires Valid() && !r.rclose && 0 < |input| <= Room(r)
      modifies this
      ensures Ok(r, g) && g == WithBytes(old(g), input) && r.next.Some?
      ensures r == old(r).(mem := r.mem, top := r.top, next := r.next, pos := r.pos, dec := r.dec)
      ensures r.dec.max == old(r.dec.max)
    {
      hide MemOk, Roots, Release, At;
      var iovs;
      ghost var before := r;
      r, iovs := PrepareRecv(r, g.stream, g.consumed);
      ReceivedInv(r, g.stream, g.consumed, input);
      FilledFrame(r, input);
      hide Filled;
      r := Updated(Filled(r, input), |input|);
      BytesLogOk(before, g, input, r);
      g := WithBytes(g, input);
    }

    /** `process_read` when `readv` returned the bytes `input`, as many as the iovecs allow. */
    method OnReadable(input: seq<Byte>) returns (o: Framing.Outcome)
      requires Valid() && !r.rclose && 0 < |input| <= Room(r)
      requires Framing.Unwrapped(g.stream[g.consumed..] + input, r.dec.max)
      modifies this
      ensures Valid() && Grew(old(g), g) && g.stream == old(g.stream) + input && r.cap == old(r.cap)
      ensures r.dec.max == old(r.dec.max)
      ensures !r.rclose ==> !o.Packet? && g.unread == 0 && o == Framing.Next(g.stream[g.consumed..], r.dec.max)
    {
      hide MemOk, Roots, Release, At, Inv, Framing.Next;
      assert (g.stream + input)[g.consumed..] == g.stream[g.consumed..] + input by { WithinStream(r, g); }
      Receive(input);
      o := DeliverAll();
      var closes: bool := *;
      if !r.rclose && !o.More? && closes {
        // The callback is told about the error and closes the socket.
        CloseReadOk(r, g);
        r := r.(rclose := true);
      }
      if !r.rclose {
        ghost var before := r;
        r := UpdateNextRecvPos(r, |input|, g.stream, g.consumed);
        CursorLogOk(before, g, r);
        g := g.(unread := 0);
      }
    }

    /** `process_read` when `readv` returned 0 or failed. */
    method OnEnd()
      requires Valid()
      modifies `r
      ensures Valid() && r == old(r).(rclose := true)
    {
      r := r.(rclose := true);
    }

    /** `release_socket`: the socket and the decoder give up their references; packets the client kept live on. */
    method Close()
      requires Valid()
      modifies `r
      ensures MemOk(r.mem, r.top, Heads(r.live), r.cap, g.stream)
      ensures r == old(r).(mem := r.mem, next := None, dec := r.dec) && r.dec == old(r.dec).(b := None)
      ensures r.live == [] ==> r.mem == map[]
      ensures forall p :: p in r.live ==> StillHeld(r.mem, p, g)
    {
      hide Inv, LogOk, MemOk, Roots, Heads, StillHeld;
      MemoryOf(r, g);
      r := ReleaseRefs(r, g.stream);
      SameLog(old(r), r, g);
      StillHeldAfterClose(r, g);
      if r.live == [] {
        RootsKept(r);
        NoOwners(r.mem, r.top, r.cap, g.stream);
      }
    }
  }

  lemma MemoryOf(r: Receiver, g: History)
    requires Ok(r, g)
    ensures MemOk(r.mem, r.top, Roots(r), r.cap, g.stream) && |g.stream| <= At(r.top, 0, r.cap)
  {
  }

  lemma SameLog(r: Receiver, r': Receiver, g: History)
    requires LogOk(r, g) && r'.current == r.current && r'.live == r.live && r'.cap == r.cap && r'.dec.max == r.dec.max
    ensures LogOk(r', g)
  {
    hide IsDelivered;
  }

  /** The socket's own reference and the decoder's are given up. */
  method ReleaseRefs(r: Receiver, ghost stream: seq<Byte>) returns (r': Receiver)
    requires MemOk(r.mem, r.top, Roots(r), r.cap, stream) && r.current.None?
    ensures MemOk(r'.mem, r.top, Heads(r.live), r.cap, stream)
    ensures r' == r.(mem := r'.mem, next := None, dec := r'.dec) && r'.dec == r.dec.(b := None)
  {
    hide MemOk, Roots, Release, At;
    r' := r;
    ghost var was := r;
    if r.next.Some? {
      RootsNext(r, r.(next := None));
      ReleaseMem(r.mem, r.top, Roots(r), r.cap, stream, r.next.value);
      r' := r.(mem := Release(r.mem, r.next.value), next := None);
      RootsNext(was, r');
      assert Roots(was) - multiset{was.next.value} + Ref(None) == Roots(was) - multiset{was.next.value};
    }
    was := r';
    if r'.dec.b.Some? {
      RootsDecoder(r', r'.(dec := r'.dec.(b := None)));
      ReleaseMem(r'.mem, r'.top, Roots(r'), r'.cap, stream, r'.dec.b.value);
      r' := r'.(mem := Release(r'.mem, r'.dec.b.value), dec := r'.dec.(b := None));
      RootsDecoder(was, r');
      assert Roots(was) - multiset{was.dec.b.value} + Ref(None) == Roots(was) - multiset{was.dec.b.value};
    }
    RootsKept(r');
  }

  /** A packet can be read in memory and is one of those delivered. */
  ghost predicate StillHeld(mem: Heap, p: Packet, g: History) {
    Readable(mem, p.head, p.spos, p.datasize) && BytesAt(mem, p.head, p.spos, p.datasize) in g.delivered
  }

  lemma StillHeldAfterClose(r: Receiver, g: History)
    requires MemOk(r.mem, r.top, Heads(r.live), r.cap, g.stream) && |g.stream| <= At(r.top, 0, r.cap) && LogOk(r, g)
    ensures forall p :: p in r.live ==> StillHeld(r.mem, p, g)
  {
    hide MemOk, At, Content, Heads, Readable, BytesAt;
    forall p | p in r.live ensures StillHeld(r.mem, p, g) {
      HeadIn(r.live, p);
      assert IsDelivered(p, r.cap, g);
      PacketInMemory(r.mem, r.top, Heads(r.live), r.cap, g.stream, p);
    }
  }

  lemma RootsKept(r: Receiver)
    requires r.next.None? && r.dec.b.None? && r.current.None?
    ensures Roots(r) == Heads(r.live) && (r.live == [] ==> Heads(r.live) == multiset{})
  {
  }

  /** Memory without owners is empty. */
  lemma NoOwners(mem: Heap, top: nat, cap: nat, stream: seq<Byte>)
    requires MemOk(mem, top, multiset{}, cap, stream)
    ensures mem == map[]
  {
    var lo: nat :| RefsOk(mem, lo, top, multiset{});
    assert lo == top;
  }

  /** However the stream was cut up by `readv`, a sender's packets are delivered exactly and in order. */
  lemma LegalPacketsDelivered(r: Receiver, g: History, ps: seq<seq<Byte>>, p: seq<Byte>, n: nat)
    requires Settled(r, g) && !r.rclose
    requires forall i :: 0 <= i < |ps| ==> Framing.Legal(ps[i], r.dec.max)
    requires Framing.Legal(p, r.dec.max) && n < |Framing.Frame(p)|
    requires g.stream == Join(Framing.FrameAll(ps, r.dec.max)) + Framing.Frame(p)[..n]
    ensures g.delivered == Framing.FrameAll(ps, r.dec.max)
  {
    Framing.LegalStreamDecodes(ps, p, n, r.dec.max);
    Framing.DecodingUnique(g.stream, r.dec.max, g.delivered, g.stream[g.consumed..],
                           Framing.FrameAll(ps, r.dec.max), Framing.Frame(p)[..n]);
  }

  /** A packet whose head is owned can be read in memory, and its bytes are those it was cut from. */
  lemma PacketInMemory(mem: Heap, top: nat, roots: multiset<nat>, cap: nat, stream: seq<Byte>, p: Packet)
    requires MemOk(mem, top, roots, cap, stream) && |stream| <= At(top, 0, cap)
    requires p.head in roots && WindowOk(p, cap, |stream|)
    ensures Readable(mem, p.head, p.spos, p.datasize)
    ensures BytesAt(mem, p.head, p.spos, p.datasize) == Content(p, cap, stream)
  {
    hide At, RefsOk;
    RootMem(mem, top, roots, cap, stream, p.head);
    BytesAreStream(mem, top, cap, stream, p.head, p.spos, p.datasize);
  }

  /** Every packet the client holds can be read in memory, and its bytes are those of a packet that was delivered. */
  lemma KeptPacketReadable(r: Receiver, g: History, p: Packet)
    requires Ok(r, g) && p in r.live
    ensures Readable(r.mem, p.head, p.spos, p.datasize) && WindowOk(p, r.cap, |g.stream|)
    ensures BytesAt(r.mem, p.head, p.spos, p.datasize) == Content(p, r.cap, g.stream)
    ensures Content(p, r.cap, g.stream) in g.delivered
  {
    hide MemOk, At, Content;
    HeadIn(r.live, p);
    assert IsDelivered(p, r.cap, g);
    PacketInMemory(r.mem, r.top, Roots(r), r.cap, g.stream, p);
  }

  /** Later reads do not change the bytes in memory of a packet the client still holds. */
  lemma KeptPacketsUnchanged(r: Receiver, g: History, r': Receiver, g': History, p: Packet)
    requires Ok(r, g) && Ok(r', g') && Grew(g, g') && r'.cap == r.cap && p in r.live && p in r'.live
    ensures Readable(r.mem, p.head, p.spos, p.datasize) && Readable(r'.mem, p.head, p.spos, p.datasize)
    ensures BytesAt(r'.mem, p.head, p.spos, p.datasize) == BytesAt(r.mem, p.head, p.spos, p.datasize)
    ensures BytesAt(r.mem, p.head, p.spos, p.datasize) in g.delivered
  {
    hide Ok, Grew;
    KeptPacketReadable(r, g, p);
    KeptPacketReadable(r', g', p);
    assert IsDelivered(p, r.cap, g);
    StillDelivered(p, r.cap, g, g');
  }

  // ---- A whole run over a sender's stream ----

  /** The next read of a legal stream meets what the read event asks for. */
  lemma NextReadUnwrapped(r: Receiver, g: History, input: seq<Byte>, whole: seq<Byte>)
    requires Settled(r, g) && !r.rclose && g.stream + input <= whole && Framing.Unwrapped(whole, r.dec.max)
    ensures g.consumed <= |g.stream| && Framing.Unwrapped(g.stream[g.consumed..] + input, r.dec.max)
  {
    hide Inv, Framing.Unwrapped;
    var rest := g.stream[g.consumed..];
    Framing.PrefixIsUnwrapped(g.stream + input, whole, r.dec.max);
    assert g.stream + input == Join(g.delivered) + (rest + input);
    Framing.UnwrappedAfter(g.delivered, rest + input, r.dec.max);
  }

  /** Only a sender's packets are ever delivered, in order, whether or not a callback closes. */
  lemma DeliveredArePackets(r: Receiver, g: History, whole: seq<Byte>, frames: seq<seq<Byte>>, part: seq<Byte>)
    requires Settled(r, g) && g.stream <= whole && Framing.Decodes(whole, r.dec.max, frames, part)
    ensures g.delivered <= frames
    ensures !r.rclose && g.stream == whole ==> g.delivered == frames
  {
    hide Inv, Framing.Next;
    assert Join(g.delivered) <= whole;
    Framing.PacketsArePrefix(whole, r.dec.max, frames, part, g.delivered);
    if !r.rclose && g.stream == whole {
      Framing.DecodingUnique(whole, r.dec.max, g.delivered, g.stream[g.consumed..], frames, part);
    }
  }

  lemma HasRoom(r: Receiver, g: History)
    requires Settled(r, g)
    ensures Room(r) > 0
  {
    hide MemOk;
  }

  /** A new socket fed with a sender's frames and a part of one more: `counts` says how many bytes each `readv` would
      like to return. Exactly the frames are delivered, in order, or a callback has closed the socket before. */
  method ServeLegal(cap: nat, max: nat, ps: seq<seq<Byte>>, p: seq<Byte>, n: nat, counts: nat -> nat)
    returns (sock: PacketSocket)
    requires cap >= 1024 && max < U32 && forall i :: 0 <= i < |ps| ==> Framing.Legal(ps[i], max)
    requires Framing.Legal(p, max) && n < |Framing.Frame(p)|
    ensures sock.Valid() && sock.g.delivered <= Framing.FrameAll(ps, max)
    ensures sock.r.rclose || (
              && sock.g.stream == Join(Framing.FrameAll(ps, max)) + Framing.Frame(p)[..n]
              && sock.g.delivered == Framing.FrameAll(ps, max))
  {
    hide Settled, Framing.Unwrapped, Framing.Decodes, Framing.Frame;
    var frames, part := Framing.FrameAll(ps, max), Framing.Frame(p)[..n];
    var whole := Join(frames) + part;
    Framing.LegalStreamDecodes(ps, p, n, max);
    Framing.DecodedIsUnwrapped(whole, max, frames, part);
    sock := new PacketSocket(cap, max);
    var done, i := 0, 0;
    while done < |whole| && !sock.r.rclose
      invariant 0 <= done <= |whole| && 0 <= i && sock.Valid() && fresh(sock) && sock.r.dec.max == max
      invariant sock.g.stream == whole[..done]
      decreases |whole| - done
    {
      HasRoom(sock.r, sock.g);
      var m := Min(Min(if counts(i) == 0 then 1 else counts(i), Room(sock.r)), |whole| - done);
      var input := whole[done..done + m];
      assert whole[..done] + input == whole[..done + m];
      NextReadUnwrapped(sock.r, sock.g, input, whole);
      var _ := sock.OnReadable(input);
      done, i := done + m, i + 1;
    }
    assert done == |whole| ==> whole[..done] == whole;
    DeliveredArePackets(sock.r, sock.g, whole, frames, part);
  }

  // ---- packet_reader ----

  datatype Reader = Reader(cur: nat, readpos: nat, remain: nat)

  /** The reader has handed out `done` payload bytes of packet `p`. */
  ghost predicate ReaderAt(rd: Reader, p: Packet, cap: nat, top: nat, done: nat) {
    && p.datasize >= 4 && p.head <= rd.cur < top && rd.readpos <= cap
    && At(rd.cur, rd.readpos, cap) == At(p.head, p.spos, cap) + 4 + done && rd.remain + done + 4 == p.datasize
  }

  /** `packet_reader_init`: skips the header, which may straddle two chunks. */
  method ReaderInit(r: Receiver, p: Packet, ghost stream: seq<Byte>, ghost consumed: nat, ghost unread: nat)
    returns (rd: Reader)
    requires Inv(r, stream, consumed, unread) && (p in r.live || r.current == Some(p)) && p.datasize > 4
    ensures ReaderAt(rd, p, r.cap, r.top, 0)
  {
    hide MemOk, Roots, Release;
    RootsClone(r, r.(live := r.live + [p]), p);
    RootMem(r.mem, r.top, Roots(r), r.cap, stream, p.head);
    var inHead := r.cap - p.spos;
    if 1 <= inHead <= 3 {
      NextChunk(p.head, r.cap);
      AtBelow(p.head + 1, 0, r.top, r.cap);
      rd := Reader(p.head + 1, 4 - inHead, p.datasize - 4);
    } else {
      rd := Reader(p.head, p.spos + 4, p.datasize - 4);
    }
  }

  lemma Subslice(s: seq<Byte>, at: nat, n: nat, done: nat, size: nat)
    requires at + n <= |s| && 4 + done + size <= n
    ensures s[at..at + n][4..][done..done + size] == s[at + 4 + done..at + 4 + done + size]
  {
    var c := s[at..at + n];
    var a, b := c[4..][done..done + size], s[at + 4 + done..at + 4 + done + size];
    forall i | 0 <= i < size ensures a[i] == b[i] {
      assert c[4..][done + i] == c[4 + done + i];
    }
  }

  lemma PayloadSlice(p: Packet, cap: nat, stream: seq<Byte>, done: nat, size: nat)
    requires WindowOk(p, cap, |stream|) && 4 + done + size <= p.datasize
    ensures
      var from := At(p.head, p.spos, cap) + 4 + done;
      from + size <= |stream| && Content(p, cap, stream)[4..][done..done + size] == stream[from..from + size]
  {
    Subslice(stream, At(p.head, p.spos, cap), p.datasize, done, size);
  }

  /** `reader_read`: the next `size` payload bytes, or nothing if fewer remain. */
  method ReaderRead(rd: Reader, size: nat, r: Receiver, p: Packet, ghost stream: seq<Byte>, ghost consumed: nat,
      ghost unread: nat, ghost done: nat)
    returns (ok: bool, out: seq<Byte>, rd': Reader)
    requires Inv(r, stream, consumed, unread) && (p in r.live || r.current == Some(p))
    requires WindowOk(p, r.cap, |stream|) && ReaderAt(rd, p, r.cap, r.top, done)
    ensures ok <==> done + size <= p.datasize - 4
    ensures ok ==> out == Content(p, r.cap, stream)[4..][done..done + size] && ReaderAt(rd', p, r.cap, r.top, done + size)
    ensures !ok ==> rd' == rd
  {
    hide MemOk, Roots, Release, At, Content;
    if size > rd.remain { return false, [], rd; }
    RootsClone(r, r.(live := r.live + [p]), p);
    RootMem(r.mem, r.top, Roots(r), r.cap, stream, p.head);
    WholeChunks(r.mem, r.top, Roots(r), r.cap, stream);
    var cur, pos;
    out, cur, pos := Read(r.mem, rd.cur, rd.readpos, size, r.top, Roots(r), r.cap, stream);
    ok, rd' := true, Reader(cur, pos, rd.remain - size);
    PayloadSlice(p, r.cap, stream, done, size);
  }
}
