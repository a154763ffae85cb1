/** The send side of src/socket/chk_stream_socket.c: two queues of chunked
buffers, gathered writes, short writes and the rule that a started buffer is
finished before anything else goes out. */
module SendPath {
  import opened Bytes

  const MAX_WBAF: nat := 1024
  const MAX_SEND_SIZE: nat := 1024 * 64

  /** `internal` is the size the buffer was queued with; it differs from `datasize` once part of it was sent. */
  datatype Buffer = Buffer(chunks: Chain, spos: nat, datasize: nat, internal: nat)

  ghost predicate BufferOk(b: Buffer) {
    && ChainOk(b.chunks) && b.datasize > 0 && b.chunks != [] && b.spos < b.chunks[0].cap
    && b.spos + b.datasize <= |Data(b.chunks)| && b.datasize <= b.internal
  }

  /** The bytes of a buffer still to be sent. */
  ghost function Content(b: Buffer): (r: seq<Byte>)
    requires BufferOk(b)
    ensures |r| == b.datasize
  {
    Data(b.chunks)[b.spos..b.spos + b.datasize]
  }

  predicate Partial(b: Buffer) {
    b.internal != b.datasize
  }

  ghost predicate QueueOk(q: seq<Buffer>) {
    && (forall i :: 0 <= i < |q| ==> BufferOk(q[i]))
    && (forall i :: 0 < i < |q| ==> !Partial(q[i]))
  }

  /** The contents of a queue, buffer by buffer. */
  ghost function Contents(q: seq<Buffer>): (r: seq<seq<Byte>>)
    requires forall i :: 0 <= i < |q| ==> BufferOk(q[i])
  {
    seq(|q|, i requires 0 <= i < |q| => Content(q[i]))
  }

  ghost function Pending(q: seq<Buffer>): (r: seq<Byte>)
    requires forall i :: 0 <= i < |q| ==> BufferOk(q[i])
  {
    Join(Contents(q))
  }

  // ---- prepare_send: gathering ----

  /** The first `size` bytes of a window lie in the head chunk; the rest follows. */
  lemma SliceSplit(chunk: Chain, pos: nat, datasize: nat, size: nat)
    requires ChainOk(chunk) && chunk != [] && pos <= chunk[0].cap && pos + datasize <= |Data(chunk)|
    requires size <= chunk[0].cap - pos && size <= datasize
    ensures Data(chunk)[pos..pos + datasize] == chunk[0].data[pos..pos + size] + Data(chunk)[pos + size..pos + datasize]
    ensures size == chunk[0].cap - pos || size == datasize ==>
              datasize - size <= |Data(chunk[1..])|
              && Data(chunk)[pos + size..pos + datasize] == Data(chunk[1..])[..datasize - size]
  {
    Windows(chunk[0].data, Data(chunk[1..]), pos, datasize, size);
  }

  lemma Windows(a: seq<Byte>, z: seq<Byte>, pos: nat, datasize: nat, size: nat)
    requires pos + datasize <= |a + z| && pos + size <= |a| && size <= datasize
    ensures (a + z)[pos..pos + datasize] == a[pos..pos + size] + (a + z)[pos + size..pos + datasize]
    ensures pos + size == |a| ==> (a + z)[pos + size..pos + datasize] == z[..datasize - size]
    ensures size == datasize ==> (a + z)[pos + size..pos + datasize] == []
  {
  }

  /** The stretches of memory a window of `datasize` bytes consists of, chunk by chunk. */
  ghost function Pieces(chunk: Chain, pos: nat, datasize: nat): (ps: seq<seq<Byte>>)
    requires ChainOk(chunk) && (chunk != [] ==> pos < chunk[0].cap)
    decreases |chunk|
  {
    if chunk == [] || datasize == 0 then []
    else
      var size := Min(chunk[0].cap - pos, datasize);
      [chunk[0].data[pos..pos + size]] + Pieces(chunk[1..], 0, datasize - size)
  }

  ghost predicate NoneEmpty(ps: seq<seq<Byte>>) {
    forall i :: 0 <= i < |ps| ==> ps[i] != []
  }

  lemma {:induction false} PiecesJoin(chunk: Chain, pos: nat, datasize: nat)
    requires ChainOk(chunk) && (chunk != [] ==> pos < chunk[0].cap) && pos + datasize <= |Data(chunk)|
    ensures Join(Pieces(chunk, pos, datasize)) == Data(chunk)[pos..pos + datasize] && NoneEmpty(Pieces(chunk, pos, datasize))
    decreases |chunk|
  {
    if chunk != [] && datasize > 0 {
      var size := Min(chunk[0].cap - pos, datasize);
      SliceSplit(chunk, pos, datasize, size);
      PiecesJoin(chunk[1..], 0, datasize - size);
    }
  }

  ghost function PiecesOf(b: Buffer): (ps: seq<seq<Byte>>)
    requires BufferOk(b)
  {
    Pieces(b.chunks, b.spos, b.datasize)
  }

  lemma PiecesOfOk(b: Buffer)
    requires BufferOk(b)
    ensures Join(PiecesOf(b)) == Content(b) && NoneEmpty(PiecesOf(b)) && PiecesOf(b) != []
  {
    PiecesJoin(b.chunks, b.spos, b.datasize);
  }

  /** At most the first `n` of a sequence. */
  ghost function Front<T>(s: seq<T>, n: nat): (r: seq<T>)
    ensures r <= s && |r| == Min(n, |s|)
  {
    s[..Min(n, |s|)]
  }

  lemma JoinPrefix(ps: seq<seq<Byte>>, qs: seq<seq<Byte>>)
    requires ps <= qs
    ensures Join(ps) <= Join(qs)
  {
    assert qs[..|ps|] == ps;
    JoinTakeDrop(qs, |ps|);
  }

  lemma JoinLonger(ps: seq<seq<Byte>>, k: nat)
    requires k < |ps| && NoneEmpty(ps)
    ensures |Join(ps[..k])| < |Join(ps)|
  {
    JoinSplit(ps, k);
  }

  /** One iovec more, cut to `size` bytes. */
  lemma GatherStep(iovs: seq<seq<Byte>>, ps: seq<seq<Byte>>, size: nat, room: nat)
    requires |iovs| < |ps| && |iovs| < room && iovs == ps[..|iovs|] && size <= |ps[|iovs|]|
    ensures
      var iovs' := iovs + [ps[|iovs|][..size]];
      && |Join(iovs')| == |Join(iovs)| + size && Join(iovs') <= Join(Front(ps, room))
      && (size == |ps[|iovs|]| ==> iovs' == ps[..|iovs'|])
  {
    hide Join;
    var k := |iovs|;
    JoinSnoc(iovs, ps[k][..size]);
    JoinSplit(ps, k);
    JoinPrefix(ps[..k + 1], Front(ps, room));
    assert Join(iovs) + ps[k][..size] <= Join(iovs) + ps[k];
    assert size == |ps[k]| ==> ps[k][..size] == ps[k] && ps[..k] + [ps[k]] == ps[..k + 1];
  }

  /** The inner loop of `prepare_send`: iovecs for one buffer.  With `capped` the total size
      of the write is limited; once it is reached the remaining entries are empty. */
  method GatherBuffer(b: Buffer, room: nat, capped: bool, sent: nat) returns (iovs: seq<seq<Byte>>, total: nat)
    requires BufferOk(b) && (capped ==> sent < MAX_SEND_SIZE)
    ensures |iovs| <= room && total == sent + |Join(iovs)|
    ensures if capped && total >= MAX_SEND_SIZE then total == MAX_SEND_SIZE && Join(iovs) <= Join(Front(PiecesOf(b), room))
            else iovs == Front(PiecesOf(b), room)
  {
    iovs, total := [], sent;
    ghost var ps := PiecesOf(b);
    var pos: nat, chunk, datasize: nat := b.spos, b.chunks, b.datasize;
    while |iovs| < room && chunk != [] && datasize > 0
      invariant ChainOk(chunk) && |iovs| <= room && total == sent + |Join(iovs)| && (chunk != [] ==> pos < chunk[0].cap)
      invariant capped ==> total <= MAX_SEND_SIZE
      invariant if capped && total == MAX_SEND_SIZE then Join(iovs) <= Join(Front(ps, room))
                else |iovs| <= |ps| && iovs == ps[..|iovs|] && ps[|iovs|..] == Pieces(chunk, pos, datasize)
      decreases |chunk|
    {
      var size := Min(chunk[0].cap - pos, datasize);
      ghost var whole := size;
      if capped { size := Min(size, MAX_SEND_SIZE - total); }
      if capped && total == MAX_SEND_SIZE {
        JoinSnoc(iovs, chunk[0].data[pos..pos + size]);
      } else {
        assert ps[|iovs|] == chunk[0].data[pos..pos + whole] && ps[|iovs| + 1..] == ps[|iovs|..][1..];
        GatherStep(iovs, ps, size, room);
        assert ps[|iovs|][..size] == chunk[0].data[pos..pos + size];
      }
      iovs, datasize, total := iovs + [chunk[0].data[pos..pos + size]], datasize - size, total + size;
      chunk, pos := chunk[1..], 0;
    }
  }

  /** The stretches of memory a queue consists of. */
  ghost function AllPieces(q: seq<Buffer>): (ps: seq<seq<Byte>>)
    requires forall i :: 0 <= i < |q| ==> BufferOk(q[i])
  {
    if q == [] then [] else AllPieces(q[..|q| - 1]) + PiecesOf(q[|q| - 1])
  }

  lemma PiecesNext(q: seq<Buffer>, j: nat)
    requires j < |q| && forall i :: 0 <= i < |q| ==> BufferOk(q[i])
    ensures AllPieces(q[..j + 1]) == AllPieces(q[..j]) + PiecesOf(q[j])
  {
    assert q[..j + 1][..j] == q[..j];
  }

  lemma {:induction false} PiecesPrefix(q: seq<Buffer>, j: nat)
    requires j <= |q| && forall i :: 0 <= i < |q| ==> BufferOk(q[i])
    ensures AllPieces(q[..j]) <= AllPieces(q)
    decreases |q| - j
  {
    hide AllPieces;
    if j == |q| {
      assert q[..j] == q;
    } else {
      PiecesPrefix(q, j + 1);
      PiecesNext(q, j);
    }
  }

  lemma {:induction false} AllPiecesJoin(q: seq<Buffer>)
    requires forall i :: 0 <= i < |q| ==> BufferOk(q[i])
    ensures Join(AllPieces(q)) == Pending(q) && NoneEmpty(AllPieces(q)) && (q != [] ==> AllPieces(q) != [])
  {
    if q != [] {
      hide Content, PiecesOf, Join;
      var front, last := q[..|q| - 1], q[|q| - 1];
      AllPiecesJoin(front);
      PiecesOfOk(last);
      JoinAppend(AllPieces(front), PiecesOf(last));
      JoinSnoc(Contents(front), Content(last));
      assert Contents(q) == Contents(front) + [Content(last)];
    } else {
      assert Contents(q) == [];
    }
  }

  /** What one gather takes of a queue: the first 1024 stretches, cut at 64 KiB. */
  ghost function Gathered(q: seq<Buffer>): (r: seq<Byte>)
    requires forall i :: 0 <= i < |q| ==> BufferOk(q[i])
  {
    Front(Join(Front(AllPieces(q), MAX_WBAF)), MAX_SEND_SIZE)
  }

  /** One gather can take the whole queue. */
  ghost predicate Fits(q: seq<Buffer>)
    requires forall i :: 0 <= i < |q| ==> BufferOk(q[i])
  {
    |AllPieces(q)| <= MAX_WBAF && |Pending(q)| <= MAX_SEND_SIZE
  }

  /** A gather takes the first pending bytes, all of them exactly when there are few enough in few enough stretches. */
  lemma GatheredIsAllIff(q: seq<Buffer>)
    requires forall i :: 0 <= i < |q| ==> BufferOk(q[i])
    ensures Gathered(q) <= Pending(q) && (q != [] ==> |Gathered(q)| > 0)
    ensures |Gathered(q)| == |Pending(q)| <==> Fits(q)
    ensures Fits(q) <==> |AllPieces(q)| <= 1024 && |Pending(q)| <= 65_536
    ensures |AllPieces(q)| <= 1024 ==> |Gathered(q)| == Min(65_536, |Pending(q)|)
  {
    hide Join, AllPieces, Pending;
    AllPiecesJoin(q);
    var ps := AllPieces(q);
    JoinPrefix(Front(ps, MAX_WBAF), ps);
    if |ps| > MAX_WBAF { JoinLonger(ps, MAX_WBAF); } else { assert Front(ps, MAX_WBAF) == ps; }
    if q != [] {
      JoinPrefix(ps[..1], Front(ps, MAX_WBAF));
      JoinLonger(ps[..1], 0);
    }
  }

  /** One buffer more in the outer loop. */
  lemma GatherMore(q: seq<Buffer>, j: nat, iovs: seq<seq<Byte>>, more: seq<seq<Byte>>, full: bool)
    requires j < |q| && (forall i :: 0 <= i < |q| ==> BufferOk(q[i]))
    requires |iovs| < MAX_WBAF && iovs == Front(AllPieces(q[..j]), MAX_WBAF)
    requires var first := Front(PiecesOf(q[j]), MAX_WBAF - |iovs|); if full then Join(more) <= Join(first) else more == first
    ensures Join(iovs + more) == Join(iovs) + Join(more) <= Join(Front(AllPieces(q), MAX_WBAF))
    ensures !full ==> iovs + more == Front(AllPieces(q[..j + 1]), MAX_WBAF)
  {
    hide Join, AllPieces, PiecesOf, BufferOk;
    var first := Front(PiecesOf(q[j]), MAX_WBAF - |iovs|);
    PiecesNext(q, j);
    PiecesPrefix(q, j + 1);
    assert iovs + first == Front(AllPieces(q[..j + 1]), MAX_WBAF);
    JoinPrefix(iovs + first, Front(AllPieces(q), MAX_WBAF));
    JoinAppend(iovs, first);
    JoinAppend(iovs, more);
    assert Join(iovs) + Join(more) <= Join(iovs) + Join(first);
  }

  /** The outer loop of `prepare_send`. */
  method GatherQueue(q: seq<Buffer>) returns (iovs: seq<seq<Byte>>)
    requires QueueOk(q)
    ensures |iovs| <= MAX_WBAF && Join(iovs) == Gathered(q)
  {
    hide BufferOk, AllPieces, PiecesOf, Join;
    iovs := [];
    var sent: nat, j: nat := 0, 0;
    NothingGathered(q);
    while j < |q| && |iovs| < MAX_WBAF && sent < MAX_SEND_SIZE
      invariant j <= |q| && |iovs| <= MAX_WBAF && sent == |Join(iovs)| <= MAX_SEND_SIZE
      invariant if sent < MAX_SEND_SIZE then iovs == Front(AllPieces(q[..j]), MAX_WBAF)
                else Join(iovs) <= Join(Front(AllPieces(q), MAX_WBAF))
      decreases |q| - j, MAX_SEND_SIZE - sent
    {
      var more, total := GatherBuffer(q[j], MAX_WBAF - |iovs|, true, sent);
      GatherMore(q, j, iovs, more, total == MAX_SEND_SIZE);
      iovs, sent := iovs + more, total;
      if sent < MAX_SEND_SIZE { j := j + 1; }
    }
    PiecesPrefix(q, j);
    if sent < MAX_SEND_SIZE {
      if j == |q| { assert q[..j] == q; }
      assert iovs == Front(AllPieces(q), MAX_WBAF);
    }
  }

  lemma NothingGathered(q: seq<Buffer>)
    ensures AllPieces(q[..0]) == [] && Join([]) == []
  {
  }

  // ---- update_send_list: dropping what was written ----

  /** One step of the partial branch: part of the head chunk has been sent. */
  function Advanced(b: Buffer, size: nat): (b': Buffer)
    requires b.chunks != [] && size <= b.datasize
  {
    var spos := b.spos + size;
    if spos >= b.chunks[0].cap then b.(spos := 0, chunks := b.chunks[1..], datasize := b.datasize - size)
    else b.(spos := spos, datasize := b.datasize - size)
  }

  lemma AdvancedOk(b: Buffer, size: nat)
    requires BufferOk(b) && size < b.datasize && size <= b.chunks[0].cap - b.spos
    ensures BufferOk(Advanced(b, size)) && Content(Advanced(b, size)) == Content(b)[size..]
  {
    SliceSplit(b.chunks, b.spos, b.datasize, size);
    assert Data(b.chunks) == b.chunks[0].data + Data(b.chunks[1..]);
    if b.spos + size == b.chunks[0].cap {
      assert Data(b.chunks[1..]) != [];
    }
  }

  /** The bytes handed to the kernel move `spos` and drop used-up chunks. */
  method AdvanceBuffer(b: Buffer, n: nat) returns (b': Buffer)
    requires BufferOk(b) && n < b.datasize
    ensures BufferOk(b') && Content(b') == Content(b)[n..] && b'.internal == b.internal
  {
    b' := b;
    var bytes: nat := n;
    while bytes > 0
      invariant bytes <= n && BufferOk(b') && b'.internal == b.internal
      invariant bytes < b'.datasize && Content(b') == Content(b)[n - bytes..]
    {
      var size := Min(b'.chunks[0].cap - b'.spos, bytes);
      AdvancedOk(b', size);
      b', bytes := Advanced(b', size), bytes - size;
    }
  }

  // ---- What has gone out: the abstract view ----

  datatype Item<T> = Item(urgent: bool, content: T)

  /** The contents of one of the two queues among a list of tagged items, in order. */
  ghost function Of<T>(items: seq<Item<T>>, urgent: bool): (r: seq<T>) {
    if items == [] then []
    else
      var last := items[|items| - 1];
      Of(items[..|items| - 1], urgent) + (if last.urgent == urgent then [last.content] else [])
  }

  ghost function All<T>(items: seq<Item<T>>): (r: seq<T>) {
    seq(|items|, i requires 0 <= i < |items| => items[i].content)
  }

  ghost function Tagged<T>(urgent: bool, cs: seq<T>): (r: seq<Item<T>>) {
    seq(|cs|, i requires 0 <= i < |cs| => Item(urgent, cs[i]))
  }

  lemma OfSnoc<T>(items: seq<Item<T>>, x: Item<T>, u: bool)
    ensures Of(items + [x], u) == Of(items, u) + (if x.urgent == u then [x.content] else [])
  {
    assert (items + [x])[..|items|] == items;
  }

  lemma TaggedSnoc<T>(urgent: bool, cs: seq<T>, c: T)
    ensures Tagged(urgent, cs + [c]) == Tagged(urgent, cs) + [Item(urgent, c)]
  {
  }

  lemma {:induction false} OfTagged<T>(items: seq<Item<T>>, urgent: bool, cs: seq<T>, u: bool)
    ensures Of(items + Tagged(urgent, cs), u) == Of(items, u) + (if u == urgent then cs else [])
    decreases |cs|
  {
    hide Of;
    if cs == [] {
      assert items + Tagged(urgent, cs) == items;
    } else {
      var front, last := cs[..|cs| - 1], cs[|cs| - 1];
      OfTagged(items, urgent, front, u);
      OfSnoc(items + Tagged(urgent, front), Item(urgent, last), u);
      TaggedSnoc(urgent, front, last);
      assert cs == front + [last];
      assert items + Tagged(urgent, cs) == items + Tagged(urgent, front) + [Item(urgent, last)];
    }
  }

  /** A queue seen from outside: the unsent bytes of each buffer, and whether the first was begun. */
  datatype View = View(cs: seq<seq<Byte>>, begun: bool)

  /** What is missing on the wire of a begun buffer. */
  ghost function Rest(v: View): (r: seq<Byte>) {
    if v.begun && v.cs != [] then v.cs[0] else []
  }

  /** The buffers not begun yet. */
  ghost function Waiting(v: View): (r: seq<seq<Byte>>) {
    if v.begun && v.cs != [] then v.cs[1..] else v.cs
  }

  /** Everything handed to the kernel, the buffers begun so far in order, and the buffers accepted by each queue. */
  datatype History = History(
    wire: seq<Byte>, begun: seq<Item<seq<Byte>>>, acceptedNormal: seq<seq<Byte>>, acceptedUrgent: seq<seq<Byte>>)

  /** The wire is a sequence of whole buffers and at most one prefix, and each queue goes out in
      the order it was filled. */
  ghost predicate HistoryOk(normal: View, urgent: View, h: History) {
    && !(normal.begun && urgent.begun)
    && h.wire + Rest(if urgent.begun then urgent else normal) == Join(All(h.begun))
    && Fifo(h.begun, false, normal, h.acceptedNormal)
    && Fifo(h.begun, true, urgent, h.acceptedUrgent)
  }

  /** What one queue accepted is what it has begun plus what still waits, in order. */
  ghost predicate Fifo(begun: seq<Item<seq<Byte>>>, urgent: bool, v: View, accepted: seq<seq<Byte>>) {
    accepted == Of(begun, urgent) + Waiting(v)
  }

  /** Dropping `n` bytes: `m` buffers are touched; with `cut` the last of them only lost a prefix. */
  ghost predicate Dropped(v: View, n: nat, v': View, m: nat, cut: bool) {
    && m <= |v.cs| && 0 < n <= |Join(v.cs)| && (v.begun ==> m >= 1)
    && v'.begun == cut && Waiting(v') == v.cs[m..]
    && (cut ==> v'.cs != [] && m > 0 && |v'.cs[0]| < |v.cs[m - 1]|)
    && Join(v.cs[..m]) == Join(v.cs)[..n] + Rest(v')
  }

  /** The buffers a write begins. */
  ghost function Newly(v: View, m: nat): (r: seq<seq<Byte>>)
    requires m <= |v.cs| && (v.begun ==> m >= 1)
  {
    v.cs[if v.begun then 1 else 0..m]
  }

  ghost function Sent(v: View, urgent: bool, h: History, n: nat, m: nat): (h': History)
    requires m <= |v.cs| && (v.begun ==> m >= 1) && n <= |Join(v.cs)|
  {
    h.(wire := h.wire + Join(v.cs)[..n], begun := h.begun + Tagged(urgent, Newly(v, m)))
  }

  lemma WireGrows(wire: seq<Byte>, rest: seq<Byte>, sent: seq<Byte>, rest': seq<Byte>, whole: seq<Byte>,
      newly: seq<Byte>)
    requires wire + rest == whole && sent + rest' == rest + newly
    ensures (wire + sent) + rest' == whole + newly
  {
    assert (wire + sent) + rest' == wire + (sent + rest');
    assert wire + (rest + newly) == (wire + rest) + newly;
  }

  lemma DroppedParts(v: View, n: nat, v': View, m: nat, cut: bool)
    requires Dropped(v, n, v', m, cut)
    ensures Waiting(v) == Newly(v, m) + Waiting(v')
    ensures Join(v.cs)[..n] + Rest(v') == Rest(v) + Join(Newly(v, m))
  {
    if v.begun { assert v.cs[..m][1..] == Newly(v, m); } else { assert v.cs[..m] == Newly(v, m); }
  }

  lemma JoinBegun(begun: seq<Item<seq<Byte>>>, urgent: bool, newly: seq<seq<Byte>>)
    ensures Join(All(begun + Tagged(urgent, newly))) == Join(All(begun)) + Join(newly)
  {
    assert All(begun + Tagged(urgent, newly)) == All(begun) + newly;
    JoinAppend(All(begun), newly);
  }

  lemma SendKeepsFifo(begun: seq<Item<seq<Byte>>>, urgent: bool, v: View, n: nat, v': View, m: nat, cut: bool,
      accepted: seq<seq<Byte>>)
    requires Dropped(v, n, v', m, cut) && Fifo(begun, urgent, v, accepted)
    ensures Fifo(begun + Tagged(urgent, Newly(v, m)), urgent, v', accepted)
  {
    OfTagged(begun, urgent, Newly(v, m), urgent);
    DroppedParts(v, n, v', m, cut);
    AppendAssoc(Of(begun, urgent), Newly(v, m), Waiting(v'));
  }

  lemma SendKeepsOtherFifo(begun: seq<Item<seq<Byte>>>, urgent: bool, newly: seq<seq<Byte>>, other: View,
      accepted: seq<seq<Byte>>)
    requires Fifo(begun, !urgent, other, accepted)
    ensures Fifo(begun + Tagged(urgent, newly), !urgent, other, accepted)
  {
    OfTagged(begun, urgent, newly, !urgent);
  }

  lemma SendKeepsWire(wire: seq<Byte>, begun: seq<Item<seq<Byte>>>, urgent: bool, v: View, n: nat, v': View, m: nat,
      cut: bool)
    requires Dropped(v, n, v', m, cut) && wire + Rest(v) == Join(All(begun))
    ensures wire + Join(v.cs)[..n] + Rest(v') == Join(All(begun + Tagged(urgent, Newly(v, m))))
  {
    DroppedParts(v, n, v', m, cut);
    JoinBegun(begun, urgent, Newly(v, m));
    WireGrows(wire, Rest(v), Join(v.cs)[..n], Rest(v'), Join(All(begun)), Join(Newly(v, m)));
  }

  /** A write on one queue, while the other is not begun, keeps the history intact. */
  lemma SendKeepsHistory(v: View, other: View, urgent: bool, h: History, n: nat, v': View, m: nat, cut: bool)
    requires if urgent then HistoryOk(other, v, h) else HistoryOk(v, other, h)
    requires !other.begun && Dropped(v, n, v', m, cut)
    ensures var h' := Sent(v, urgent, h, n, m); if urgent then HistoryOk(other, v', h') else HistoryOk(v', other, h')
  {
    SendKeepsWire(h.wire, h.begun, urgent, v, n, v', m, cut);
    SendKeepsFifo(h.begun, urgent, v, n, v', m, cut, if urgent then h.acceptedUrgent else h.acceptedNormal);
    SendKeepsOtherFifo(h.begun, urgent, Newly(v, m), other, if urgent then h.acceptedNormal else h.acceptedUrgent);
  }

  // ---- update_send_list ----

  predicate HeadPartial(q: seq<Buffer>) {
    q != [] && Partial(q[0])
  }

  ghost function ViewOf(q: seq<Buffer>): (v: View)
    requires QueueOk(q)
  {
    View(Contents(q), HeadPartial(q))
  }

  lemma WholeDropped(v: View, k: nat)
    requires 0 < k <= |v.cs| && |Join(v.cs[..k])| > 0
    ensures Dropped(v, |Join(v.cs[..k])|, View(v.cs[k..], false), k, false)
  {
    JoinTakeDrop(v.cs, k);
  }

  lemma CutDropped(v: View, k: nat, m: nat)
    requires k < |v.cs| && 0 < m < |v.cs[k]|
    ensures Dropped(v, |Join(v.cs[..k])| + m, View([v.cs[k][m..]] + v.cs[k + 1..], true), k + 1, true)
  {
    JoinCut(v.cs, k, m);
  }

  lemma ViewDrop(q: seq<Buffer>, k: nat)
    requires QueueOk(q) && 0 < k <= |q|
    ensures QueueOk(q[k..]) && ViewOf(q[k..]) == View(Contents(q)[k..], false)
  {
    assert Contents(q[k..]) == Contents(q)[k..];
  }

  lemma ViewCut(q: seq<Buffer>, k: nat, b: Buffer, m: nat)
    requires QueueOk(q) && k < |q| && m <= q[k].datasize && BufferOk(b) && Partial(b)
    requires Content(b) == Content(q[k])[m..]
    ensures QueueOk([b] + q[k + 1..])
    ensures ViewOf([b] + q[k + 1..]) == View([Contents(q)[k][m..]] + Contents(q)[k + 1..], true)
  {
    assert Contents([b] + q[k + 1..]) == [Contents(q)[k][m..]] + Contents(q)[k + 1..];
  }

  /** Whole buffers have been dropped. */
  lemma DroppedWhole(q: seq<Buffer>, k: nat, n: nat)
    requires QueueOk(q) && 0 < k <= |q| && n == |Join(Contents(q)[..k])| > 0
    ensures QueueOk(q[k..]) && Dropped(ViewOf(q), n, ViewOf(q[k..]), k, false)
    ensures n <= |Pending(q)| && Pending(q[k..]) == Pending(q)[n..]
  {
    ViewDrop(q, k);
    WholeDropped(ViewOf(q), k);
    JoinTakeDrop(Contents(q), k);
  }

  /** The write ended inside buffer `k`. */
  lemma DroppedCut(q: seq<Buffer>, k: nat, b: Buffer, m: nat, n: nat)
    requires QueueOk(q) && k < |q| && 0 < m < q[k].datasize && n == |Join(Contents(q)[..k])| + m
    requires BufferOk(b) && Content(b) == Content(q[k])[m..] && b.internal == q[k].internal
    ensures QueueOk([b] + q[k + 1..]) && Dropped(ViewOf(q), n, ViewOf([b] + q[k + 1..]), k + 1, true)
    ensures n <= |Pending(q)| && Pending([b] + q[k + 1..]) == Pending(q)[n..]
  {
    hide Dropped, Data, ChainOk, Join;
    ViewCut(q, k, b, m);
    CutDropped(ViewOf(q), k, m);
    JoinCut(Contents(q), k, m);
  }

  /** `update_send_list`: drop exactly the first `n` pending bytes. */
  method UpdateSendList(q: seq<Buffer>, n: nat) returns (q': seq<Buffer>, ghost m: nat, ghost cut: bool)
    requires QueueOk(q) && 0 < n <= |Pending(q)|
    ensures QueueOk(q') && Pending(q') == Pending(q)[n..]
    ensures Dropped(ViewOf(q), n, ViewOf(q'), m, cut)
  {
    hide Dropped, ViewOf, ChainOk, Data;
    q', m, cut := q, 0, false;
    var bytes: nat := n;
    while bytes > 0
      invariant bytes <= n && m <= |q| && (cut ==> bytes == 0)
      invariant !cut ==> q' == q[m..] && |Join(Contents(q)[..m])| + bytes == n
      invariant bytes == 0 ==> QueueOk(q') && Pending(q') == Pending(q)[n..] && Dropped(ViewOf(q), n, ViewOf(q'), m, cut)
    {
      JoinTakeDrop(Contents(q), m);
      assert m < |q|;
      JoinSplit(Contents(q), m);
      if bytes >= q'[0].datasize {
        bytes := bytes - q'[0].datasize;
        q', m := q'[1..], m + 1;
        DroppedWhole(q, m, n - bytes);
      } else {
        var b := AdvanceBuffer(q'[0], bytes);
        DroppedCut(q, m, b, bytes, n);
        q', m, cut, bytes := [b] + q'[1..], m + 1, true, 0;
      }
    }
  }

  // ---- The socket ----

  const SEND_BYTES_LOW_WATER: nat := 64 * 1024

  datatype Socket = Socket(
    normal: seq<Buffer>, urgent: seq<Buffer>, sendingUrgent: bool, sendBytes: nat,
    rclose: bool, wclose: bool, closed: bool, inLoop: bool, noDelay: bool, highWaterMark: nat)

  ghost predicate SocketOk(s: Socket, h: History) {
    && QueueOk(s.normal) && QueueOk(s.urgent)
    && HistoryOk(ViewOf(s.normal), ViewOf(s.urgent), h)
    && (HeadPartial(s.normal) ==> !s.sendingUrgent)
    && CountOk(s)
  }

  /** `send_bytes` is the number of bytes pending in both queues, as a 32-bit counter. */
  ghost predicate CountOk(s: Socket)
    requires QueueOk(s.normal) && QueueOk(s.urgent)
  {
    s.sendBytes == (|Pending(s.normal)| + |Pending(s.urgent)|) % U32
  }

  function Chosen(s: Socket): (q: seq<Buffer>) {
    if s.sendingUrgent then s.urgent else s.normal
  }

  lemma EmptyIffNothingPending(q: seq<Buffer>)
    requires QueueOk(q)
    ensures Pending(q) == [] <==> q == []
  {
    if q != [] { JoinSplit(Contents(q), 0); }
  }

  /** The urgent queue is next, unless a normal buffer has been begun. */
  predicate GoesUrgent(s: Socket) {
    s.urgent != [] && !HeadPartial(s.normal)
  }

  ghost function Next(s: Socket): (q: seq<Buffer>) {
    if GoesUrgent(s) then s.urgent else s.normal
  }

  /** What `prepare_send` offers the kernel: of a begun normal buffer that keeps urgent ones waiting only the rest. */
  ghost function Offer(s: Socket): (r: seq<Byte>)
    requires QueueOk(s.normal) && QueueOk(s.urgent)
  {
    if s.urgent != [] && HeadPartial(s.normal) then Join(Front(PiecesOf(s.normal[0]), MAX_WBAF)) else Gathered(Next(s))
  }

  /** There is something to send, and what is offered can be taken. */
  ghost predicate Offers(s: Socket) {
    QueueOk(s.normal) && QueueOk(s.urgent) && |Offer(s)| > 0 && Offer(s) <= Pending(Next(s))
  }

  lemma OfferOk(s: Socket)
    requires QueueOk(s.normal) && QueueOk(s.urgent)
    ensures Offer(s) <= Pending(Next(s)) && (s.normal != [] || s.urgent != [] ==> Offers(s))
    ensures s.urgent != [] && HeadPartial(s.normal) ==> |Offer(s)| <= s.normal[0].datasize
  {
    hide Join, PiecesOf, Gathered, Content;
    GatheredIsAllIff(Next(s));
    if s.urgent != [] && HeadPartial(s.normal) {
      var ps := PiecesOf(s.normal[0]);
      PiecesOfOk(s.normal[0]);
      JoinPrefix(Front(ps, MAX_WBAF), ps);
      JoinPrefix(ps[..1], Front(ps, MAX_WBAF));
      JoinLonger(ps[..1], 0);
      JoinSplit(Contents(s.normal), 0);
      assert Contents(s.normal)[..0] == [] && Join([]) == [] by { NothingGathered([]); }
    }
  }

  /** `prepare_send` */
  method PrepareSend(s: Socket) returns (s': Socket, iovs: seq<seq<Byte>>)
    requires QueueOk(s.normal) && QueueOk(s.urgent) && (HeadPartial(s.normal) ==> !s.sendingUrgent)
    ensures s' == s.(sendingUrgent := GoesUrgent(s)) && Join(iovs) == Offer(s) && |iovs| <= MAX_WBAF
  {
    hide Join, PiecesOf, BufferOk, Gathered;
    if s.urgent != [] && s.normal != [] && Partial(s.normal[0]) {
      // Finish the begun normal buffer first.
      var total: nat;
      iovs, total := GatherBuffer(s.normal[0], MAX_WBAF, false, 0);
      return s, iovs;
    }
    s' := s.(sendingUrgent := s.urgent != []);
    iovs := GatherQueue(Chosen(s'));
  }

  /** The socket after `update_send_list` replaced the chosen queue. */
  function Written(s: Socket, q: seq<Buffer>, n: nat): (s': Socket) {
    (if s.sendingUrgent then s.(urgent := q) else s.(normal := q)).(sendBytes := (s.sendBytes - n) % U32)
  }

  lemma CountStep(total: nat, n: nat)
    requires n <= total
    ensures (total % U32 - n) % U32 == (total - n) % U32
  {
    var k := total / U32;
    assert total % U32 - n == (total - n) - U32 * k;
  }

  lemma WriteKeepsHistory(s: Socket, h: History, n: nat, q': seq<Buffer>, m: nat, cut: bool)
    requires QueueOk(s.normal) && QueueOk(s.urgent) && QueueOk(q')
    requires HistoryOk(ViewOf(s.normal), ViewOf(s.urgent), h)
    requires !HeadPartial(if s.sendingUrgent then s.normal else s.urgent)
    requires Dropped(ViewOf(Chosen(s)), n, ViewOf(q'), m, cut)
    ensures
      var s' := Written(s, q', n);
      HistoryOk(ViewOf(s'.normal), ViewOf(s'.urgent), Sent(ViewOf(Chosen(s)), s.sendingUrgent, h, n, m))
  {
    if s.sendingUrgent {
      SendKeepsHistory(ViewOf(s.urgent), ViewOf(s.normal), true, h, n, ViewOf(q'), m, cut);
    } else {
      SendKeepsHistory(ViewOf(s.normal), ViewOf(s.urgent), false, h, n, ViewOf(q'), m, cut);
    }
  }

  lemma WriteKeepsCount(s: Socket, n: nat, q': seq<Buffer>)
    requires QueueOk(s.normal) && QueueOk(s.urgent) && QueueOk(q') && CountOk(s)
    requires n <= |Pending(Chosen(s))| && Pending(q') == Pending(Chosen(s))[n..]
    ensures CountOk(Written(s, q', n))
  {
    CountStep(|Pending(s.normal)| + |Pending(s.urgent)|, n);
  }

  /** A short or complete write on the chosen queue. */
  lemma WriteKeepsOk(s: Socket, h: History, n: nat, q': seq<Buffer>, m: nat, cut: bool)
    requires SocketOk(s, h)
    requires !HeadPartial(if s.sendingUrgent then s.normal else s.urgent)
    requires QueueOk(q') && Dropped(ViewOf(Chosen(s)), n, ViewOf(q'), m, cut) && Pending(q') == Pending(Chosen(s))[n..]
    ensures SocketOk(Written(s, q', n), Sent(ViewOf(Chosen(s)), s.sendingUrgent, h, n, m))
  {
    WriteKeepsCount(s, n, q');
    WriteKeepsHistory(s, h, n, q', m, cut);
  }

  /** A write confined to the first buffer, already begun, begins no other. */
  lemma NothingElseBegun(v: View, n: nat, v': View, m: nat, cut: bool)
    requires Dropped(v, n, v', m, cut) && v.begun && n <= |v.cs[0]|
    requires forall i :: 0 <= i < |v.cs| ==> |v.cs[i]| > 0
    ensures Newly(v, m) == []
  {
    if m >= 2 {
      JoinSplit(v.cs, m - 1);
      assert false;
    }
  }

  datatype Errno = NoError | Again | Failed

  datatype Code = Ok | ReadOnlyBuffer | InvalidBuffer | SocketClosed | StreamWriteError | HighWater

  /** What the kernel may answer: it takes some bytes, at most `most`, or none. */
  datatype Answer = Takes(most: nat) | Refuses | Breaks

  /** How many of `m` bytes offered the kernel takes. */
  function Count(k: Answer, m: nat): (n: nat)
    requires m > 0
    ensures n <= m && (n > 0 <==> k.Takes?)
  {
    if k.Takes? then Min(if k.most == 0 then 1 else k.most, m) else 0
  }

  function ErrnoOf(k: Answer): (e: Errno) {
    match k
    case Takes(_) => NoError
    case Refuses => Again
    case Breaks => Failed
  }

  /** `writev`: the bytes taken are the first of the iovecs, and they go on the wire. */
  method DoWrite(wire: seq<Byte>, iovs: seq<seq<Byte>>, k: Answer) returns (wire': seq<Byte>, n: nat, e: Errno)
    requires |Join(iovs)| > 0
    ensures e == ErrnoOf(k) && n == Count(k, |Join(iovs)|) && wire' == wire + Join(iovs)[..n]
  {
    var all := Join(iovs);
    n, e := Count(k, |all|), ErrnoOf(k);
    wire' := wire + all[..n];
  }

  /** Both histories agree on what was accepted, and the second only adds to the first. */
  ghost predicate Extends(h: History, h': History) {
    && h'.acceptedNormal == h.acceptedNormal && h'.acceptedUrgent == h.acceptedUrgent
    && h.wire <= h'.wire && h.begun <= h'.begun
  }

  ghost predicate OnlyUrgentSince(begun: seq<Item<seq<Byte>>>, from: nat) {
    forall i :: from <= i < |begun| ==> begun[i].urgent
  }

  /** Takes the bytes the kernel took off the chosen queue. */
  method Commit(s: Socket, ghost h: History, n: nat, ghost taken: seq<Byte>) returns (s': Socket, ghost h': History)
    requires SocketOk(s, h) && !HeadPartial(if s.sendingUrgent then s.normal else s.urgent)
    requires |taken| == n > 0 && taken <= Pending(Chosen(s))
    requires s.urgent != [] && !s.sendingUrgent ==> HeadPartial(s.normal) && n <= s.normal[0].datasize
    ensures SocketOk(s', h') && Extends(h, h') && h'.wire == h.wire + taken
    ensures s.urgent != [] ==> OnlyUrgentSince(h'.begun, |h.begun|)
    ensures QueueOk(Chosen(s')) && Pending(Chosen(s')) == Pending(Chosen(s))[n..] && s' == Written(s, Chosen(s'), n)
  {
    hide SocketOk, QueueOk, BufferOk, Contents, Pending, Join, Dropped, ViewOf, Extends, OnlyUrgentSince, Sent;
    QueuesOk(s, h);
    var q';
    ghost var m, cut;
    q', m, cut := UpdateSendList(Chosen(s), n);
    DroppedBegins(ViewOf(Chosen(s)), n, ViewOf(q'), m, cut);
    WriteKeepsOk(s, h, n, q', m, cut);
    SentWire(s, h, n, m, taken);
    if s.urgent != [] { SentUrgent(s, h, n, q', m, cut); }
    h' := Sent(ViewOf(Chosen(s)), s.sendingUrgent, h, n, m);
    s' := Written(s, q', n);
  }

  lemma DroppedBegins(v: View, n: nat, v': View, m: nat, cut: bool)
    requires Dropped(v, n, v', m, cut)
    ensures m <= |v.cs| && (v.begun ==> m >= 1) && n <= |Join(v.cs)|
  {
  }

  /** What a write logs on the wire is what the kernel took. */
  lemma SentWire(s: Socket, h: History, n: nat, m: nat, taken: seq<Byte>)
    requires QueueOk(Chosen(s)) && |taken| == n && taken <= Pending(Chosen(s))
    requires var v := ViewOf(Chosen(s)); m <= |v.cs| && (v.begun ==> m >= 1) && n <= |Join(v.cs)|
    ensures
      var h' := Sent(ViewOf(Chosen(s)), s.sendingUrgent, h, n, m);
      Extends(h, h') && h'.wire == h.wire + taken
  {
    hide Join;
    assert taken == Pending(Chosen(s))[..n];
  }

  /** With urgent buffers waiting, a write begins none but urgent ones. */
  lemma SentUrgent(s: Socket, h: History, n: nat, q': seq<Buffer>, m: nat, cut: bool)
    requires QueueOk(Chosen(s)) && QueueOk(q') && Dropped(ViewOf(Chosen(s)), n, ViewOf(q'), m, cut)
    requires !s.sendingUrgent ==> HeadPartial(s.normal) && n <= s.normal[0].datasize
    ensures m <= |Contents(Chosen(s))| && (HeadPartial(Chosen(s)) ==> m >= 1) && n <= |Pending(Chosen(s))|
    ensures OnlyUrgentSince(Sent(ViewOf(Chosen(s)), s.sendingUrgent, h, n, m).begun, |h.begun|)
  {
    hide Join;
    var v := ViewOf(Chosen(s));
    if !s.sendingUrgent { NothingElseBegun(v, n, ViewOf(q'), m, cut); }
    BegunTagged(h.begun, s.sendingUrgent, Newly(v, m));
  }

  lemma BegunTagged(begun: seq<Item<seq<Byte>>>, urgent: bool, newly: seq<seq<Byte>>)
    requires urgent || newly == []
    ensures OnlyUrgentSince(begun + Tagged(urgent, newly), |begun|)
  {
  }

  lemma FlagsDoNotMatter(s: Socket, h: History, sendingUrgent: bool, wclose: bool)
    requires SocketOk(s, h) && (HeadPartial(s.normal) ==> !sendingUrgent)
    ensures SocketOk(s.(sendingUrgent := sendingUrgent, wclose := wclose), h)
  {
  }

  /** A write that leaves nothing behind on a socket the peer has closed, or that breaks, closes it for writing. */
  ghost predicate Shuts(s: Socket, k: Answer)
    requires Offers(s)
  {
    k.Breaks? || (k.Takes? && s.rclose && Count(k, |Offer(s)|) == |Pending(s.normal)| + |Pending(s.urgent)|)
  }

  /** The socket after a write the kernel answered with `k`. */
  ghost predicate Wrote(s: Socket, k: Answer, s': Socket)
    requires Offers(s)
  {
    var n := Count(k, |Offer(s)|);
    var q := if GoesUrgent(s) then s'.urgent else s'.normal;
    && QueueOk(q) && Pending(q) == Pending(Next(s))[n..]
    && s' == Written(s.(sendingUrgent := GoesUrgent(s), wclose := s.wclose || Shuts(s, k)), q, n)
  }

  /** How a write may change the socket and its history, `wire'` being what has gone to the kernel so far. */
  ghost predicate WriteEffect(s: Socket, h: History, k: Answer, s': Socket, h': History, wire': seq<Byte>)
    requires Offers(s)
  {
    && SocketOk(s', h') && Extends(h, h') && h'.wire == wire' == h.wire + Offer(s)[..Count(k, |Offer(s)|)]
    && (s.urgent != [] ==> OnlyUrgentSince(h'.begun, |h.begun|))
    && (!k.Takes? ==> h' == h && s'.normal == s.normal && s'.urgent == s.urgent)
    && Wrote(s, k, s')
  }

  lemma ExtendsSelf(h: History)
    ensures Extends(h, h) && OnlyUrgentSince(h.begun, |h.begun|)
  {
  }

  lemma QueuesOk(s: Socket, h: History)
    requires SocketOk(s, h)
    ensures QueueOk(s.normal) && QueueOk(s.urgent) && (HeadPartial(s.normal) ==> !s.sendingUrgent)
  {
  }

  /** Once the queue is chosen, the head of the other one has not been begun, and what is offered can be taken. */
  lemma Prepared(s: Socket, h: History, s1: Socket)
    requires SocketOk(s, h) && (s.normal != [] || s.urgent != []) && s1 == s.(sendingUrgent := GoesUrgent(s))
    ensures SocketOk(s1, h) && !HeadPartial(if s1.sendingUrgent then s1.normal else s1.urgent)
    ensures Offers(s) && Offers(s1) && Offer(s1) == Offer(s) && Chosen(s1) == Next(s)
    ensures s.urgent != [] && !s1.sendingUrgent ==> HeadPartial(s.normal) && |Offer(s)| <= s.normal[0].datasize
  {
    hide Join, Gathered, PiecesOf, BufferOk, Contents, Fifo;
    OfferOk(s);
  }

  /** `process_write`: one gathered write.  While urgent buffers wait, no normal buffer is begun. */
  method ProcessWrite(s: Socket, wire: seq<Byte>, k: Answer, ghost h: History)
    returns (s': Socket, wire': seq<Byte>, ghost h': History, e: Errno)
    requires SocketOk(s, h) && h.wire == wire && (s.normal != [] || s.urgent != [])
    ensures Offers(s) && e == ErrnoOf(k) && WriteEffect(s, h, k, s', h', wire')
  {
    hide SocketOk, QueueOk, Pending, Join, WriteEffect, Offer;
    QueuesOk(s, h);
    var s1, iovs, n;
    s1, iovs := PrepareSend(s);
    Prepared(s, h, s1);
    wire', n, e := DoWrite(wire, iovs, k);
    s', h' := AfterWrite(s1, h, k, n, e);
    FlagOnly(s, s1, h, k, s', h', wire');
  }

  lemma FlagOnly(s: Socket, s1: Socket, h: History, k: Answer, s': Socket, h': History, wire': seq<Byte>)
    requires Offers(s)
    requires s1 == s.(sendingUrgent := GoesUrgent(s)) && Offers(s1) && Offer(s1) == Offer(s)
    requires WriteEffect(s1, h, k, s', h', wire')
    ensures WriteEffect(s, h, k, s', h', wire')
  {
    hide SocketOk, Pending, QueueOk, Offer;
  }

  /** What `process_write` does when the kernel has answered. */
  method AfterWrite(s: Socket, ghost h: History, k: Answer, n: nat, e: Errno) returns (s': Socket, ghost h': History)
    requires SocketOk(s, h) && !HeadPartial(if s.sendingUrgent then s.normal else s.urgent)
    requires s.sendingUrgent == GoesUrgent(s) && Offers(s)
    requires e == ErrnoOf(k) && n == Count(k, |Offer(s)|)
    requires s.urgent != [] && !s.sendingUrgent ==> HeadPartial(s.normal) && n <= s.normal[0].datasize
    ensures WriteEffect(s, h, k, s', h', h.wire + Offer(s)[..n])
  {
    hide SocketOk, QueueOk, BufferOk, Contents, Pending, Join, Extends, OnlyUrgentSince, Offer, Shuts;
    QueuesOk(s, h);
    ExtendsSelf(h);
    s', h' := s, h;
    if e.NoError? {
      s', h' := Commit(s, h, n, Offer(s)[..n]);
      QueuesOk(s', h');
      ShutsIff(s, k, n, s');
      if s'.normal == [] && s'.urgent == [] && s'.rclose {
        WcloseOk(s', h');
        s' := s'.(wclose := true);
      }
    } else {
      NothingTaken(s, h, k);
      if e.Failed? {
        WcloseOk(s, h);
        s' := s'.(wclose := true);
      }
    }
  }

  lemma ShutsIff(s: Socket, k: Answer, n: nat, s': Socket)
    requires Offers(s) && QueueOk(s'.normal) && QueueOk(s'.urgent) && k.Takes? && n == Count(k, |Offer(s)|)
    requires s.sendingUrgent == GoesUrgent(s) && s' == Written(s, Chosen(s'), n)
    requires Pending(Chosen(s')) == Pending(Next(s))[n..]
    ensures Shuts(s, k) <==> s'.normal == [] && s'.urgent == [] && s'.rclose
  {
    hide Pending, QueueOk, Offer;
    EmptyIffNothingPending(s'.normal);
    EmptyIffNothingPending(s'.urgent);
  }

  lemma NothingTaken(s: Socket, h: History, k: Answer)
    requires SocketOk(s, h) && !k.Takes? && Offers(s)
    ensures (s.sendBytes - 0) % U32 == s.sendBytes && h.wire + Offer(s)[..0] == h.wire
    ensures Pending(Next(s)) == Pending(Next(s))[0..] && (Shuts(s, k) <==> k.Breaks?)
  {
    hide Pending, HistoryOk, Offer;
  }

  lemma WcloseOk(s: Socket, h: History)
    requires SocketOk(s, h)
    ensures SocketOk(s.(wclose := true), h)
  {
    FlagsDoNotMatter(s, h, s.sendingUrgent, true);
  }

  ghost function Accept(h: History, urgent: bool, content: seq<Byte>): (h': History) {
    if urgent then h.(acceptedUrgent := h.acceptedUrgent + [content])
    else h.(acceptedNormal := h.acceptedNormal + [content])
  }

  /** The socket with a buffer appended to one of its queues. */
  function Queued(s: Socket, b: Buffer, urgent: bool): (s': Socket) {
    (if urgent then s.(urgent := s.urgent + [b]) else s.(normal := s.normal + [b]))
      .(sendBytes := (s.sendBytes + b.datasize) % U32)
  }

  lemma QueueKeepsView(q: seq<Buffer>, b: Buffer)
    requires QueueOk(q) && BufferOk(b) && !Partial(b)
    ensures QueueOk(q + [b]) && ViewOf(q + [b]) == View(Contents(q) + [Content(b)], HeadPartial(q))
    ensures Pending(q + [b]) == Pending(q) + Content(b) && (HeadPartial(q) ==> Contents(q) != [])
  {
    assert Contents(q + [b]) == Contents(q) + [Content(b)];
    JoinSnoc(Contents(q), Content(b));
  }

  /** Appending to one queue appends to what it accepted and leaves the wire alone. */
  lemma PushKeepsHistory(v: View, other: View, urgent: bool, h: History, c: seq<Byte>)
    requires if urgent then HistoryOk(other, v, h) else HistoryOk(v, other, h)
    requires v.begun ==> v.cs != []
    ensures
      var v', h' := View(v.cs + [c], v.begun), Accept(h, urgent, c);
      if urgent then HistoryOk(other, v', h') else HistoryOk(v', other, h')
  {
    var v' := View(v.cs + [c], v.begun);
    assert Rest(v') == Rest(v);
    assert Waiting(v') == Waiting(v) + [c];
    AppendAssoc(Of(h.begun, urgent), Waiting(v), [c]);
  }

  lemma PushKeepsCount(s: Socket, b: Buffer, urgent: bool)
    requires QueueOk(s.normal) && QueueOk(s.urgent) && CountOk(s) && BufferOk(b) && !Partial(b)
    ensures QueueOk(Queued(s, b, urgent).normal) && QueueOk(Queued(s, b, urgent).urgent)
    ensures CountOk(Queued(s, b, urgent))
  {
    QueueKeepsView(if urgent then s.urgent else s.normal, b);
    AddStep(|Pending(s.normal)| + |Pending(s.urgent)|, b.datasize);
  }

  lemma AddStep(total: nat, n: nat)
    ensures (total % U32 + n) % U32 == (total + n) % U32
  {
    var k := total / U32;
    assert total % U32 + n == (total + n) - U32 * k;
  }

  lemma QueueKeepsOk(s: Socket, h: History, b: Buffer, urgent: bool)
    requires SocketOk(s, h) && BufferOk(b) && !Partial(b)
    ensures SocketOk(Queued(s, b, urgent), Accept(h, urgent, Content(b)))
  {
    hide HistoryOk, CountOk, Content, BufferOk, Join, Pending, Contents, Accept;
    PushKeepsCount(s, b, urgent);
    if urgent {
      QueueKeepsView(s.urgent, b);
      PushKeepsHistory(ViewOf(s.urgent), ViewOf(s.normal), true, h, Content(b));
    } else {
      QueueKeepsView(s.normal, b);
      PushKeepsHistory(ViewOf(s.normal), ViewOf(s.urgent), false, h, Content(b));
    }
  }

  // ---- _chk_stream_socket_send ----

  predicate Accepts(s: Socket, b: Buffer, readOnly: bool) {
    !readOnly && b.datasize != 0 && !s.closed && !s.wclose
  }

  /** The send call writes at once, before it returns. */
  predicate Tries(s: Socket, b: Buffer) {
    s.inLoop && ((s.sendBytes + b.datasize) % U32 >= SEND_BYTES_LOW_WATER || (s.noDelay && s.sendBytes == 0))
  }

  ghost predicate Sendable(s: Socket, b: Buffer) {
    QueueOk(s.normal) && QueueOk(s.urgent) && (b.datasize > 0 ==> BufferOk(b.(internal := b.datasize)))
  }

  /** The socket with an accepted buffer, before anything is written. */
  function Pushed(s: Socket, b: Buffer, urgent: bool): (s': Socket) {
    Queued(s, b.(internal := b.datasize), urgent)
  }

  lemma PushedOffers(s: Socket, b: Buffer, urgent: bool)
    requires Sendable(s, b) && b.datasize > 0
    ensures Offers(Pushed(s, b, urgent))
  {
    QueueKeepsView(if urgent then s.urgent else s.normal, b.(internal := b.datasize));
    OfferOk(Pushed(s, b, urgent));
  }

  /** The code returned when a write was tried on `s`, which already holds the buffer: a write that leaves the
      buffer's queue empty is reported as an error. */
  ghost function LateCode(s: Socket, urgent: bool, k: Answer): (code: Code)
    requires Offers(s)
  {
    var n := Count(k, |Offer(s)|);
    if k.Breaks? || (GoesUrgent(s) == urgent && n == |Pending(Next(s))|) then StreamWriteError
    else if (s.sendBytes - n) % U32 >= s.highWaterMark then HighWater
    else Ok
  }

  /** The code the send call returns. */
  ghost function SendCode(s: Socket, b: Buffer, readOnly: bool, urgent: bool, k: Answer): (code: Code)
    requires Sendable(s, b)
  {
    if readOnly then ReadOnlyBuffer
    else if b.datasize == 0 then InvalidBuffer
    else if s.closed || s.wclose then SocketClosed
    else if !Tries(s, b) then Ok
    else
      PushedOffers(s, b, urgent);
      LateCode(Pushed(s, b, urgent), urgent, k)
  }

  /** The socket after a send call that accepted the buffer. */
  ghost predicate AfterSend(s: Socket, b: Buffer, urgent: bool, k: Answer, s': Socket)
    requires Sendable(s, b) && b.datasize > 0
  {
    PushedOffers(s, b, urgent);
    if Tries(s, b) then Wrote(Pushed(s, b, urgent), k, s') else s' == Pushed(s, b, urgent)
  }

  /** The send call leaves an open socket open for writing. */
  ghost predicate StaysOpen(s: Socket, b: Buffer, urgent: bool, k: Answer)
    requires Sendable(s, b) && b.datasize > 0
  {
    PushedOffers(s, b, urgent);
    !Tries(s, b) || !Shuts(Pushed(s, b, urgent), k)
  }

  /** An accepted buffer is reported as accepted, whatever the kernel does, exactly when no write is tried; when one is,
      a kernel that breaks makes the call fail for sure. */
  lemma AcceptedIsOkIff(s: Socket, b: Buffer, readOnly: bool, urgent: bool)
    requires Sendable(s, b) && Accepts(s, b, readOnly)
    ensures (forall k :: SendCode(s, b, readOnly, urgent, k).Ok?) <==> !Tries(s, b)
    ensures Tries(s, b) <==>
            s.inLoop && ((s.sendBytes + b.datasize) % 0x1_0000_0000 >= 65_536 || (s.noDelay && s.sendBytes == 0))
    ensures Tries(s, b) ==> SendCode(s, b, readOnly, urgent, Breaks).StreamWriteError?
  {
    hide QueueOk, BufferOk, Offer, Pending;
    assert SendCode(s, b, readOnly, urgent, Breaks).Ok? <==> !Tries(s, b);
  }

  /** No error is missed: a send call that closes the socket for writing fails. */
  lemma OkStaysOpen(s: Socket, b: Buffer, urgent: bool, k: Answer)
    requires Sendable(s, b) && SendCode(s, b, false, urgent, k).Ok?
    ensures Accepts(s, b, false) && StaysOpen(s, b, urgent, k)
  {
    hide Pending, QueueOk, Offer, BufferOk;
    PushedOffers(s, b, urgent);
    var s1 := Pushed(s, b, urgent);
    EmptyIffNothingPending(if urgent then s1.urgent else s1.normal);
  }

  // ---- An error reported for an accepted buffer on a socket that stays open ----

  /** One write can empty the queue the buffer was put into, and leave the socket open. */
  ghost predicate CanEmpty(s: Socket, b: Buffer, urgent: bool)
    requires Sendable(s, b) && b.datasize > 0
  {
    PushedOffers(s, b, urgent);
    var other := if urgent then s.normal else s.urgent;
    && (if urgent then !HeadPartial(s.normal) else s.urgent == [])
    && Fits((if urgent then s.urgent else s.normal) + [b.(internal := b.datasize)])
    && !(s.rclose && other == [])
  }

  /** The 32-bit count of pending bytes can be at the high-water mark after a write: it is there before, or the write can
      take more than the count says. */
  ghost predicate CanExceed(s: Socket, b: Buffer, urgent: bool)
    requires Sendable(s, b) && b.datasize > 0
  {
    PushedOffers(s, b, urgent);
    var s1 := Pushed(s, b, urgent);
    s1.sendBytes >= s.highWaterMark || |Offer(s1)| > s1.sendBytes
  }

  lemma CanEmptyIff(s: Socket, b: Buffer, urgent: bool)
    requires Sendable(s, b) && b.datasize > 0
    ensures Offers(Pushed(s, b, urgent))
    ensures
      var s1 := Pushed(s, b, urgent);
      var other := if urgent then s.normal else s.urgent;
      CanEmpty(s, b, urgent) <==>
      GoesUrgent(s1) == urgent && |Offer(s1)| == |Pending(Next(s1))| && !(s.rclose && Pending(other) == [])
  {
    hide BufferOk, Gathered, Fits, Pending;
    var s1, b' := Pushed(s, b, urgent), b.(internal := b.datasize);
    PushedOffers(s, b, urgent);
    EmptyIffNothingPending(if urgent then s.normal else s.urgent);
    GatheredIsAllIff(Next(s1));
    if !urgent && s.urgent != [] && HeadPartial(s.normal) {
      OfferOk(s1);
      MoreThanHead(s1.normal);
    }
  }

  lemma MoreThanHead(q: seq<Buffer>)
    requires QueueOk(q) && |q| > 1
    ensures q[0].datasize < |Pending(q)|
  {
    JoinSplit(Contents(q), 0);
    JoinSplit(Contents(q), 1);
  }

  /** When the send call can report an error for a buffer it has accepted, on a socket that stays open. */
  lemma LateErrorIff(s: Socket, b: Buffer, urgent: bool)
    requires Sendable(s, b) && Accepts(s, b, false) && CountOk(s) && s.highWaterMark < U32
    ensures (exists k :: !SendCode(s, b, false, urgent, k).Ok? && StaysOpen(s, b, urgent, k)) <==>
            Tries(s, b) && (CanEmpty(s, b, urgent) || CanExceed(s, b, urgent))
  {
    hide QueueOk, BufferOk, Offer, Pending, CanEmpty, Tries, GoesUrgent;
    if Tries(s, b) {
      forall k | !SendCode(s, b, false, urgent, k).Ok? && StaysOpen(s, b, urgent, k)
        ensures CanEmpty(s, b, urgent) || CanExceed(s, b, urgent)
      {
        LateErrorCause(s, b, urgent, k);
      }
      if CanEmpty(s, b, urgent) || CanExceed(s, b, urgent) { var _ := LateErrorWitness(s, b, urgent); }
    }
  }

  lemma LateErrorCause(s: Socket, b: Buffer, urgent: bool, k: Answer)
    requires Sendable(s, b) && Accepts(s, b, false) && Tries(s, b)
    requires !SendCode(s, b, false, urgent, k).Ok? && StaysOpen(s, b, urgent, k)
    ensures CanEmpty(s, b, urgent) || CanExceed(s, b, urgent)
  {
    hide QueueOk, BufferOk, Offer, Pending, CanEmpty, Tries;
    PushedOffers(s, b, urgent);
    CanEmptyIff(s, b, urgent);
  }

  /** A kernel answer that makes it happen. */
  lemma LateErrorWitness(s: Socket, b: Buffer, urgent: bool) returns (k: Answer)
    requires Sendable(s, b) && Accepts(s, b, false) && CountOk(s) && s.highWaterMark < U32 && Tries(s, b)
    requires CanEmpty(s, b, urgent) || CanExceed(s, b, urgent)
    ensures !SendCode(s, b, false, urgent, k).Ok? && StaysOpen(s, b, urgent, k)
  {
    hide QueueOk, BufferOk, Offer, Pending, CanEmpty, Tries;
    PushedOffers(s, b, urgent);
    CanEmptyIff(s, b, urgent);
    var s1 := Pushed(s, b, urgent);
    if CanEmpty(s, b, urgent) {
      k := Takes(|Offer(s1)|);
    } else if s1.sendBytes >= s.highWaterMark {
      k := Refuses;
    } else {
      k := Takes(s1.sendBytes + 1);
      PushKeepsCount(s, b.(internal := b.datasize), urgent);
    }
  }

  /** `wire` is what `writev` was given and took. */
  class Sender {
    var s: Socket
    var wire: seq<Byte>
    ghost var h: History

    ghost predicate Valid()
      reads this
    {
      SocketOk(s, h) && h.wire == wire
    }

    constructor (inLoop: bool, noDelay: bool)
      ensures Valid() && h == History([], [], [], [])
      ensures s == Socket([], [], false, 0, false, false, false, inLoop, noDelay, 64 * 1024 * 1024)
    {
      s := Socket([], [], false, 0, false, false, false, inLoop, noDelay, 64 * 1024 * 1024);
      wire := [];
      h := History([], [], [], []);
    }

    /** The write event of the loop. */
    method OnWritable(k: Answer) returns (e: Errno)
      requires Valid() && (s.normal != [] || s.urgent != [])
      modifies this
      ensures Valid() && Offers(old(s)) && e == ErrnoOf(k) && WriteEffect(old(s), old(h), k, s, h, wire)
    {
      s, wire, h, e := ProcessWrite(s, wire, k, h);
    }

    /** `_chk_stream_socket_send`: a buffer is accepted unless it is read-only, empty or the socket is closed.
        When a write is tried at once, the error code is returned although the buffer was accepted, also
        when that write emptied the queue. */
    method Send(b: Buffer, readOnly: bool, urgent: bool, k: Answer) returns (code: Code)
      requires Valid() && (b.datasize > 0 ==> BufferOk(b.(internal := b.datasize)))
      modifies this
      ensures Valid() && Sendable(old(s), b) && code == SendCode(old(s), b, readOnly, urgent, k)
      ensures readOnly ==> code == ReadOnlyBuffer
      ensures !readOnly && b.datasize == 0 ==> code == InvalidBuffer
      ensures !readOnly && b.datasize > 0 && (old(s).closed || old(s).wclose) ==> code == SocketClosed
      ensures !Accepts(old(s), b, readOnly) ==> s == old(s) && wire == old(wire) && h == old(h)
      ensures !readOnly && b.datasize > 0 && !old(s).closed && !old(s).wclose ==>
                var total := (old(s).sendBytes + b.datasize) % 0x1_0000_0000;
                var own := if urgent then s.urgent else s.normal;
                if old(s).inLoop && (total >= 65_536 || (old(s).noDelay && old(s).sendBytes == 0)) then
                  && code == (if k.Breaks? || (k.Takes? && own == []) then StreamWriteError
                              else if s.sendBytes >= s.highWaterMark then HighWater else Ok)
                  && (s.wclose <==> k.Breaks? || (k.Takes? && s.rclose && s.normal == [] && s.urgent == []))
                else code == Ok && !s.wclose && s.sendBytes == total
      ensures Accepts(old(s), b, readOnly) ==>
                && AfterSend(old(s), b, urgent, k, s) && s.wclose == !StaysOpen(old(s), b, urgent, k)
                && Extends(Accept(old(h), urgent, Content(b.(internal := b.datasize))), h)
                && (!Tries(old(s), b) ==> wire == old(wire))
    {
      hide SocketOk, Offers, QueueOk, BufferOk, Content, WriteEffect, Wrote, LateCode, Shuts, Extends;
      QueuesOk(s, h);
      if readOnly { return ReadOnlyBuffer; }
      if b.datasize == 0 { return InvalidBuffer; }
      if s.closed || s.wclose { return SocketClosed; }
      var b' := b.(internal := b.datasize);
      var oldSendBytes := s.sendBytes;
      QueueKeepsOk(s, h, b', urgent);
      PushedOffers(s, b, urgent);
      s, h := Queued(s, b', urgent), Accept(h, urgent, Content(b'));
      ExtendsSelf(h);
      code := Ok;
      if s.inLoop && (s.sendBytes >= SEND_BYTES_LOW_WATER || (s.noDelay && oldSendBytes == 0)) {
        var e;
        ghost var s1, h0 := s, h;
        s, wire, h, e := ProcessWrite(s, wire, k, h);
        Tried(s1, urgent, k, s, h0, h, wire);
        var rest := if urgent then s.urgent else s.normal;
        if !(e.Again? || (e.NoError? && rest != [])) {
          return StreamWriteError;
        }
        if s.sendBytes >= s.highWaterMark {
          return HighWater;
        }
      }
    }
  }

  /** Whether the buffer's own queue is empty after the write. */
  lemma LeftEmptyIff(s: Socket, urgent: bool, k: Answer, s': Socket)
    requires Offers(s) && Wrote(s, k, s') && (if urgent then s.urgent else s.normal) != []
    ensures (if urgent then s'.urgent else s'.normal) == [] <==>
            GoesUrgent(s) == urgent && Count(k, |Offer(s)|) == |Pending(Next(s))|
  {
    hide Pending, QueueOk, Offer, Shuts;
    EmptyIffNothingPending(if GoesUrgent(s) then s'.urgent else s'.normal);
  }

  /** What the send call sees of the write it tried. */
  lemma Tried(s: Socket, urgent: bool, k: Answer, s': Socket, h: History, h': History, wire': seq<Byte>)
    requires Offers(s) && WriteEffect(s, h, k, s', h', wire') && (if urgent then s.urgent else s.normal) != []
    ensures Wrote(s, k, s') && SocketOk(s', h') && Extends(h, h') && h'.wire == wire'
    ensures s'.wclose == (s.wclose || Shuts(s, k)) && s'.highWaterMark == s.highWaterMark && s'.rclose == s.rclose
    ensures Shuts(s, k) <==> k.Breaks? || (k.Takes? && s.rclose && s'.normal == [] && s'.urgent == [])
    ensures LateCode(s, urgent, k) ==
            if k.Breaks? || (k.Takes? && (if urgent then s'.urgent else s'.normal) == []) then StreamWriteError
            else if s'.sendBytes >= s.highWaterMark then HighWater
            else Ok
  {
    hide SocketOk, Pending, QueueOk, Offer, Extends;
    LeftEmptyIff(s, urgent, k, s');
    QueuesOk(s', h');
    EmptyIffNothingPending(s'.normal);
    EmptyIffNothingPending(s'.urgent);
  }

  /** A buffer of one chunk filled to its end. */
  function OneChunk(data: seq<Byte>): (b: Buffer) {
    Buffer([Chunk.Chunk(|data|, data)], 0, |data|, |data|)
  }

  lemma OneChunkOk(data: seq<Byte>)
    requires data != []
    ensures BufferOk(OneChunk(data)) && Content(OneChunk(data)) == data && PiecesOf(OneChunk(data)) == [data]
    ensures !Partial(OneChunk(data))
  {
    var b := OneChunk(data);
    assert b.chunks[1..] == [] && Data(b.chunks) == data + Data([]);
    assert data[0..|data|] == data && Pieces([], 0, 0) == [];
  }

  lemma OneBuffer(b: Buffer)
    requires BufferOk(b) && !Partial(b)
    ensures QueueOk([b]) && Pending([b]) == Content(b) && AllPieces([b]) == PiecesOf(b)
  {
    assert Contents([b]) == [Content(b)];
    JoinSnoc([], Content(b));
    assert [] + [Content(b)] == [Content(b)] && [b][..0] == [];
  }

  /** A socket with nothing to send. */
  predicate Idle(s: Socket) {
    s.normal == [] && s.urgent == [] && s.sendBytes == 0
  }

  /** On an idle socket a write can leave nothing behind of a buffer of one chunk of at most 64 KiB. */
  lemma IdleCanEmpty(s: Socket, data: seq<Byte>)
    requires Idle(s) && !s.rclose && 0 < |data| <= MAX_SEND_SIZE
    ensures Sendable(s, OneChunk(data)) && CanEmpty(s, OneChunk(data), false)
  {
    OneChunkOk(data);
    OneBuffer(OneChunk(data));
    assert [] + [OneChunk(data)] == [OneChunk(data)];
  }

  /** Such a write is reported as a failure, and leaves the socket idle and open. */
  lemma IdleLateError(s: Socket, data: seq<Byte>, most: nat, s': Socket)
    requires Idle(s) && !s.rclose && 0 < |data| <= MAX_SEND_SIZE && most >= |data|
    requires Accepts(s, OneChunk(data), false) && Tries(s, OneChunk(data)) && Sendable(s, OneChunk(data))
    ensures SendCode(s, OneChunk(data), false, false, Takes(most)) == StreamWriteError
    ensures StaysOpen(s, OneChunk(data), false, Takes(most))
    ensures AfterSend(s, OneChunk(data), false, Takes(most), s') <==> s' == s.(sendingUrgent := false)
  {
    hide QueueOk, BufferOk, Offer, Pending, CanEmpty, Tries;
    var b := OneChunk(data);
    IdleCanEmpty(s, data);
    CanEmptyIff(s, b, false);
    var s1 := Pushed(s, b, false);
    assert s1.normal == [b] && Pending([b]) == data by {
      OneChunkOk(data);
      OneBuffer(b);
    }
    if AfterSend(s, b, false, Takes(most), s') {
      LeftEmptyIff(s1, false, Takes(most), s');
    }
    EmptyIffNothingPending([]);
  }

  /** How it comes about: on a new socket a complete write of 64 KiB is reported as a failure, the socket stays open with
      nothing pending, and takes the next, smaller buffer, whatever the kernel answers then. */
  method LateError(data: seq<Byte>, next: seq<Byte>, most: nat, k: Answer)
    returns (sender: Sender, first: Code, second: Code)
    requires |data| == 65_536 <= most && 0 < |next| < 65_536
    ensures first == StreamWriteError && second == Ok && fresh(sender) && sender.Valid()
    ensures sender.s.normal == [OneChunk(next)] && sender.s.urgent == [] && !sender.s.wclose
  {
    hide SocketOk, BufferOk, StaysOpen, AfterSend, SendCode, Wrote, WriteEffect;
    OneChunkOk(data);
    OneChunkOk(next);
    sender := new Sender(true, false);
    ghost var s := sender.s;
    first := sender.Send(OneChunk(data), false, false, Takes(most));
    IdleLateError(s, data, most, sender.s);
    s := sender.s;
    second := sender.Send(OneChunk(next), false, false, k);
    NotTried(s, OneChunk(next), false, k, sender.s);
  }

  lemma NotTried(s: Socket, b: Buffer, urgent: bool, k: Answer, s': Socket)
    requires Sendable(s, b) && Accepts(s, b, false) && !Tries(s, b) && AfterSend(s, b, urgent, k, s')
    ensures SendCode(s, b, false, urgent, k) == Ok && s' == Pushed(s, b, urgent) && StaysOpen(s, b, urgent, k)
  {
  }
}
