/** Reading, draining and rewriting the data of a buffer (src/util/chk_bytechunk.c). */
module BufferAccess {
  import opened Bytes
  import opened ByteBuffer

  // ---- chk_bytebuffer_read ----

  /** Byte `pos` of the `i`-th chunk is byte `At` of the path. */
  ghost function At(cells: map<nat, Cell>, ids: seq<nat>, i: nat, pos: nat): (n: nat)
    requires In(cells, ids) && i <= |ids|
  {
    |Along(cells, ids[..i])| + pos
  }

  lemma {:induction false} AtStart(cells: map<nat, Cell>, ids: seq<nat>, pos: nat)
    requires In(cells, ids)
    ensures At(cells, ids, 0, pos) == pos && ids[..|ids|] == ids && At(cells, ids, |ids|, 0) == |Along(cells, ids)|
  {
    assert ids[..0] == [] && ids[..|ids|] == ids;
  }

  /** The end of a chunk is the start of the next. */
  lemma {:induction false} AtNext(cells: map<nat, Cell>, ids: seq<nat>, i: nat)
    requires In(cells, ids) && i < |ids|
    ensures At(cells, ids, i, |cells[ids[i]].data|) == At(cells, ids, i + 1, 0) <= |Along(cells, ids)|
  {
    DataAt(cells, ids, i);
  }

  lemma {:induction false} AtAdd(cells: map<nat, Cell>, ids: seq<nat>, i: nat, pos: nat, n: nat)
    requires In(cells, ids) && i <= |ids|
    ensures At(cells, ids, i, pos + n) == At(cells, ids, i, pos) + n
  {
  }

  lemma {:induction false} SliceInChunk(cells: map<nat, Cell>, ids: seq<nat>, i: nat, pos: nat, n: nat)
    requires In(cells, ids) && i < |ids| && pos + n <= |cells[ids[i]].data|
    ensures
      var at := At(cells, ids, i, pos);
      at + n <= |Along(cells, ids)| && cells[ids[i]].data[pos..pos + n] == Along(cells, ids)[at..at + n]
  {
    DataAt(cells, ids, i);
    Middle(Along(cells, ids[..i]), cells[ids[i]].data, Along(cells, ids[i + 1..]), pos, n);
  }

  lemma {:induction false} Middle(a: seq<Byte>, d: seq<Byte>, z: seq<Byte>, pos: nat, n: nat)
    requires pos + n <= |d|
    ensures (a + d + z)[|a| + pos..|a| + pos + n] == d[pos..pos + n]
  {
  }

  /** The cursor of a loop along a path: chunk `i`, or none behind the last. */
  ghost predicate CursorAt(cells: map<nat, Cell>, ids: seq<nat>, c: Option<nat>, i: nat, pos: nat, at: nat) {
    && In(cells, ids) && i <= |ids| && At(cells, ids, i, pos) == at
    && (if i < |ids| then c == Some(ids[i]) && pos < |cells[ids[i]].data| else c.None? && pos == 0)
  }

  /** The chunk after the `i`-th of a complete path. */
  lemma {:induction false} NextInPath(cells: map<nat, Cell>, ids: seq<nat>, i: nat)
    requires Path(cells, ids) && i < |ids| && cells[ids[|ids| - 1]].next.None?
    ensures cells[ids[i]].next == if i + 1 < |ids| then Some(ids[i + 1]) else None
  {
  }

  /** Moves a cursor by `n` bytes inside its chunk, and on to the next chunk at the end of it. */
  lemma {:induction false} CursorStep(cells: map<nat, Cell>, ids: seq<nat>, c: Option<nat>, i: nat, pos: nat, at: nat,
      n: nat)
    requires Path(cells, ids) && ids != [] && cells[ids[|ids| - 1]].next.None? && CursorAt(cells, ids, c, i, pos, at)
    requires i < |ids|
    requires pos + n <= |cells[ids[i]].data|
    ensures at + n <= |Along(cells, ids)|
    ensures if pos + n < |cells[ids[i]].data| then CursorAt(cells, ids, c, i, pos + n, at + n)
            else CursorAt(cells, ids, cells[ids[i]].next, i + 1, 0, at + n)
  {
    hide Along;
    NextInPath(cells, ids, i);
    AtNext(cells, ids, i);
    AtAdd(cells, ids, i, pos, n);
    SliceInChunk(cells, ids, i, pos, n);
  }

  /** The first loop of `chk_bytebuffer_read`: skips `offset` bytes. */
  method Skip(s: Store, b: Buffer, offset: nat, ghost ids: seq<nat>) returns (c: Option<nat>, pos: nat, ghost i: nat)
    requires Ok(s, b, ids) && b.head.Some? && s.cells[ids[|ids| - 1]].next.None? && offset <= b.datasize
    ensures CursorAt(s.cells, ids, c, i, pos, b.spos + offset)
  {
    hide Along;
    c, pos, i := b.head, b.spos, 0;
    AtStart(s.cells, ids, pos);
    var left := offset;
    while left > 0
      invariant 0 <= left <= offset && CursorAt(s.cells, ids, c, i, pos, b.spos + (offset - left))
      decreases left
    {
      AtStart(s.cells, ids, 0);
      assert i < |ids|;
      var skip := Min(|s.cells[c.value].data| - pos, left);
      CursorStep(s.cells, ids, c, i, pos, b.spos + (offset - left), skip);
      pos, left := pos + skip, left - skip;
      if pos >= |s.cells[c.value].data| {
        c, pos, i := s.cells[c.value].next, 0, i + 1;
      }
    }
  }

  lemma {:induction false} SliceOfSlice(d: seq<Byte>, from: nat, size: nat, offset: nat, n: nat)
    requires from + size <= |d| && offset + n <= size
    ensures d[from..from + size][offset..offset + n] == d[from + offset..from + offset + n]
  {
    var a, b := d[from..from + size][offset..offset + n], d[from + offset..from + offset + n];
    assert forall i :: 0 <= i < n ==> a[i] == d[from + offset + i] == b[i];
    assert a == b;
  }

  /** `chk_bytebuffer_read` */
  method Read(s: Store, b: Buffer, offset: nat, size: nat, ghost ids: seq<nat>) returns (out: seq<Byte>)
    requires Ok(s, b, ids) && (b.head.Some? ==> s.cells[ids[|ids| - 1]].next.None?)
    ensures out == if offset > b.datasize then [] else Content(s, b, ids)[offset..offset + Min(size, b.datasize - offset)]
  {
    hide Along;
    out := [];
    if offset > b.datasize { return; }
    if b.head.None? { return; }
    ghost var d := Along(s.cells, ids);
    var c: Option<nat>, pos: nat;
    ghost var i: nat;
    c, pos, i := Skip(s, b, offset, ids);
    var total := Min(size, b.datasize - offset);
    var left := total;
    ghost var at := b.spos + offset;
    while left > 0
      invariant 0 <= left <= total && (left > 0 ==> CursorAt(s.cells, ids, c, i, pos, at + (total - left)))
      invariant out == d[at..at + (total - left)]
      decreases left
    {
      AtStart(s.cells, ids, 0);
      assert i < |ids|;
      var n := Min(|s.cells[c.value].data| - pos, left);
      SliceInChunk(s.cells, ids, i, pos, n);
      CursorStep(s.cells, ids, c, i, pos, at + (total - left), n);
      out := out + s.cells[c.value].data[pos..pos + n];
      pos, left := pos + n, left - n;
      if left > 0 {
        c, pos, i := s.cells[c.value].next, 0, i + 1;
      }
    }
    SliceOfSlice(d, b.spos, b.datasize, offset, total);
  }

  // ---- chk_bytebuffer_read_drain ----

  /** The head chunk is used up: it is unlinked, and freed unless somebody else holds it too. */
  function HeadDropped(s: Store, b: Buffer, shared: bool): (r: (Store, Buffer))
    requires b.head.Some? && b.head.value in s.cells
  {
    var k := b.head.value;
    (s.(cells := if shared then s.cells[k := s.cells[k].(next := None)] else s.cells - {k}),
     b.(head := s.cells[k].next, spos := 0))
  }

  /** A whole path, down to the chunk without a successor. */
  ghost predicate Ends(s: Store, b: Buffer, ids: seq<nat>) {
    Ok(s, b, ids) && (b.head.Some? ==> s.cells[ids[|ids| - 1]].next.None?)
  }

  /** What is left of the content inside the drain loop, where the tail is not reset yet. */
  ghost predicate Remains(s: Store, b: Buffer, ids: seq<nat>, rest: seq<Byte>) {
    var b1 := if b.head.None? then b.(tail := None) else b;
    Ends(s, b1, ids) && Content(s, b1, ids) == rest
  }

  lemma {:induction false} RemainsHead(s: Store, b: Buffer, ids: seq<nat>, rest: seq<Byte>)
    requires Remains(s, b, ids, rest)
    ensures |rest| == b.datasize
    ensures rest != [] ==> ids != [] && b.head.Some? && b.head.value in s.cells && b.spos < |s.cells[b.head.value].data|
  {
  }

  /** The first `n` bytes of a path that all lie in its head, and what is behind them. */
  lemma {:induction false} HeadBytes(cells: map<nat, Cell>, ids: seq<nat>, from: nat, size: nat, n: nat)
    requires In(cells, ids) && ids != [] && n <= size && from + n <= |cells[ids[0]].data|
    requires from + size <= |Along(cells, ids)|
    ensures cells[ids[0]].data[from..from + n] == Along(cells, ids)[from..from + size][..n]
    ensures Along(cells, ids)[from + n..from + size] == Along(cells, ids)[from..from + size][n..]
    ensures In(cells, ids[1..]) && |Along(cells, ids)| == |cells[ids[0]].data| + |Along(cells, ids[1..])|
    ensures from + n == |cells[ids[0]].data| ==>
              Along(cells, ids[1..])[..size - n] == Along(cells, ids)[from..from + size][n..]
  {
    FrontBytes(cells[ids[0]].data, Along(cells, ids[1..]), from, size, n);
  }

  lemma {:induction false} FrontBytes(d: seq<Byte>, z: seq<Byte>, from: nat, size: nat, n: nat)
    requires n <= size && from + n <= |d| && from + size <= |d + z|
    ensures d[from..from + n] == (d + z)[from..from + size][..n]
    ensures (d + z)[from + n..from + size] == (d + z)[from..from + size][n..]
    ensures from + n == |d| ==> z[..size - n] == (d + z)[from..from + size][n..]
  {
    var w := (d + z)[from..from + size];
    assert forall i :: 0 <= i < n ==> w[i] == d[from + i];
    assert w[..n] == d[from..from + n];
    assert w[n..] == (d + z)[from + n..from + size];
  }

  lemma {:induction false} DropHead(s: Store, b: Buffer, ids: seq<nat>, shared: bool)
    requires Path(s.cells, ids) && ids != [] && b.head == Some(ids[0]) && s.cells[ids[|ids| - 1]].next.None?
    ensures
      var (s', b') := HeadDropped(s, b, shared);
      && Path(s'.cells, ids[1..]) && Along(s'.cells, ids[1..]) == Along(s.cells, ids[1..])
      && b'.head == (if |ids| == 1 then None else Some(ids[1]))
      && (|ids| > 1 ==> s'.cells[ids[|ids| - 1]].next.None?)
  {
    hide Along;
    var s' := HeadDropped(s, b, shared).0;
    NextInPath(s.cells, ids, 0);
    var t := ids[1..];
    assert forall i :: 0 <= i < |t| ==> t[i] == ids[i + 1] && t[i] in s'.cells && s'.cells[t[i]] == s.cells[t[i]];
    DataSame(s.cells, s'.cells, t);
  }

  /** Some bytes of the head chunk are taken, not all. */
  lemma {:induction false} TakeSome(s: Store, b: Buffer, ids: seq<nat>, rest: seq<Byte>, n: nat)
    requires Remains(s, b, ids, rest) && n <= |rest| && b.head.Some? && b.spos + n < |s.cells[b.head.value].data|
    ensures s.cells[b.head.value].data[b.spos..b.spos + n] == rest[..n]
    ensures Remains(s, b.(spos := b.spos + n, datasize := b.datasize - n), ids, rest[n..])
  {
    HeadBytes(s.cells, ids, b.spos, b.datasize, n);
  }

  /** The head chunk is used up. */
  lemma {:induction false} TakeAll(s: Store, b: Buffer, ids: seq<nat>, rest: seq<Byte>, n: nat, shared: bool)
    requires Remains(s, b, ids, rest) && n <= |rest| && b.head.Some? && b.spos + n == |s.cells[b.head.value].data|
    ensures s.cells[b.head.value].data[b.spos..b.spos + n] == rest[..n]
    ensures
      var (s', b') := HeadDropped(s, b.(spos := b.spos + n, datasize := b.datasize - n), shared);
      Remains(s', b', ids[1..], rest[n..])
  {
    var b1 := b.(spos := b.spos + n, datasize := b.datasize - n);
    HeadBytes(s.cells, ids, b.spos, b.datasize, n);
    DropHead(s, b1, ids, shared);
    hide Path, In;
    var t := ids[1..];
    assert t != [] ==> t[|t| - 1] == ids[|ids| - 1];
    if t == [] {
      assert Along(s.cells, t) == [] && rest[n..] == [];
    } else {
      assert Path(s.cells, ids);
      NonEmptyAt(s.cells, ids, 1);
    }
  }

  lemma {:induction false} NonEmptyAt(cells: map<nat, Cell>, ids: seq<nat>, i: nat)
    requires Path(cells, ids) && i < |ids|
    ensures ids[i] in cells && |cells[ids[i]].data| > 0
  {
  }

  /** The tail is the end of the path and the next byte goes right behind the data. */
  ghost predicate TailOk(s: Store, b: Buffer, ids: seq<nat>) {
    b.head.Some? ==>
      && ids != [] && In(s.cells, ids)
      && var n := |ids| - 1;
         && b.tail == Some(ids[n]) && s.cells[ids[n]].next.None? && b.appendPos <= |s.cells[ids[n]].data|
         && |Along(s.cells, ids[..n])| + b.appendPos == b.spos + b.datasize
  }

  lemma {:induction false} AppendableIff(s: Store, b: Buffer, ids: seq<nat>)
    requires Ok(s, b, ids)
    ensures Appendable(s, b, ids) <==> !b.copyOnWrite && TailOk(s, b, ids)
  {
  }

  lemma {:induction false} TailAfterTake(s: Store, b: Buffer, ids: seq<nat>, rest: seq<Byte>, n: nat, shared: bool)
    requires Remains(s, b, ids, rest) && n <= |rest| && b.head.Some? && TailOk(s, b, ids)
    ensures TailOk(s, b.(spos := b.spos + n, datasize := b.datasize - n), ids)
    ensures
      var (s', b') := HeadDropped(s, b.(spos := b.spos + n, datasize := b.datasize - n), shared);
      b.spos + n == |s.cells[b.head.value].data| ==> TailOk(s', b', ids[1..])
  {
    hide Along, Content;
    var b1 := b.(spos := b.spos + n, datasize := b.datasize - n);
    var s', t := HeadDropped(s, b1, shared).0, ids[1..];
    DropHead(s, b1, ids, shared);
    if t != [] {
      var m := |t| - 1;
      assert t[m] == ids[|ids| - 1] && t[m] != ids[0];
      FrontWithoutHead(s.cells, ids);
      DataSame(s.cells, s'.cells, t[..m]);
    }
  }

  /** All but the last chunk, with and without the first. */
  lemma {:induction false} FrontWithoutHead(cells: map<nat, Cell>, ids: seq<nat>)
    requires In(cells, ids) && |ids| > 1
    ensures |Along(cells, ids[..|ids| - 1])| == |cells[ids[0]].data| + |Along(cells, ids[1..][..|ids| - 2])|
  {
    assert ids[..|ids| - 1][1..] == ids[1..][..|ids| - 2] && ids[..|ids| - 1][0] == ids[0];
  }

  /** `chk_bytebuffer_read_drain`: the bytes read are gone from the front, whether or not others hold the chunks. */
  method ReadDrain(s: Store, b: Buffer, size: nat, shared: bool, ghost ids: seq<nat>)
    returns (s': Store, b': Buffer, out: seq<Byte>, ghost ids': seq<nat>)
    requires Ends(s, b, ids)
    ensures Ends(s', b', ids')
    ensures if b.head.None? || size > b.datasize then out == [] && s' == s && b' == b && ids' == ids
            else out == Content(s, b, ids)[..size] && Content(s', b', ids') == Content(s, b, ids)[size..]
    ensures b'.readOnly == b.readOnly && b'.copyOnWrite == b.copyOnWrite && (TailOk(s, b, ids) ==> TailOk(s', b', ids'))
  {
    hide TailOk, Along;
    s', b', out, ids' := s, b, [], ids;
    if b.head.None? || size > b.datasize { return; }
    ghost var all := Content(s, b, ids);
    assert all[0..] == all && Remains(s, b, ids, all);
    var left := size;
    s', b', out, ids' := DrainLoop(s, b, size, shared, ids, all);
    if b'.head.None? { NoTail(s', b', ids'); b' := b'.(tail := None); }
  }

  lemma {:induction false} NoTail(s: Store, b: Buffer, ids: seq<nat>)
    requires b.head.None?
    ensures TailOk(s, b.(tail := None), ids)
  {
  }

  method DrainLoop(s: Store, b: Buffer, size: nat, shared: bool, ghost ids: seq<nat>, ghost all: seq<Byte>)
    returns (s': Store, b': Buffer, out: seq<Byte>, ghost ids': seq<nat>)
    requires Remains(s, b, ids, all) && size <= |all|
    ensures Remains(s', b', ids', all[size..]) && out == all[..size]
    ensures b'.readOnly == b.readOnly && b'.copyOnWrite == b.copyOnWrite && (TailOk(s, b, ids) ==> TailOk(s', b', ids'))
  {
    hide Remains, TailOk;
    s', b', out, ids' := s, b, [], ids;
    var left := size;
    assert all[0..] == all;
    while left > 0
      invariant 0 <= left <= size && Remains(s', b', ids', all[size - left..]) && out == all[..size - left]
      invariant b'.readOnly == b.readOnly && b'.copyOnWrite == b.copyOnWrite
      invariant (TailOk(s, b, ids) ==> TailOk(s', b', ids'))
    {
      ghost var done, rest := size - left, all[size - left..];
      RemainsHead(s', b', ids', rest);
      var d := s'.cells[b'.head.value].data;
      var n := Min(|d| - b'.spos, left);
      DrainSlices(all, done, n);
      if TailOk(s, b, ids) { TailAfterTake(s', b', ids', rest, n, shared); }
      out := out + d[b'.spos..b'.spos + n];
      left := left - n;
      if left > 0 || b'.spos + n >= |d| {
        TakeAll(s', b', ids', rest, n, shared);
        var dropped := HeadDropped(s', b'.(spos := b'.spos + n, datasize := b'.datasize - n), shared);
        s', b', ids' := dropped.0, dropped.1, ids'[1..];
      } else {
        TakeSome(s', b', ids', rest, n);
        b' := b'.(spos := b'.spos + n, datasize := b'.datasize - n);
      }
    }
  }

  /** Reading off the front, in terms of the whole content. */
  lemma {:induction false} DrainSlices(all: seq<Byte>, done: nat, n: nat)
    requires done + n <= |all|
    ensures all[..done] + all[done..][..n] == all[..done + n] && all[done..][n..] == all[done + n..]
  {
  }

  lemma {:induction false} FirstOfMany(cells: map<nat, Cell>, ids: seq<nat>)
    requires Path(cells, ids) && ids != []
    ensures |ids| > 1 ==> cells[ids[0]].next == Some(ids[1])
  {
    assert |ids| > 1 ==> cells[ids[0]].next == Some(ids[0 + 1]);
  }

  /** Using up a shared head chunk also unlinks it for whoever else holds it: a clone stays whole exactly when its data
      ends in that chunk. */
  lemma {:induction false} CloneSurvivesDrainIff(s: Store, b: Buffer, c: Buffer, ids: seq<nat>)
    requires Ends(s, b, ids) && b.head.Some? && Ok(s, c, ids) && c.head == b.head
    ensures
      var s' := HeadDropped(s, b, true).0;
      (exists cs :: Ok(s', c, cs)) <==> c.spos + c.datasize <= |s.cells[b.head.value].data|
  {
    var s', k := HeadDropped(s, b, true).0, b.head.value;
    assert Along(s'.cells, [k]) == s.cells[k].data + Along(s'.cells, []);
    if c.spos + c.datasize <= |s.cells[k].data| {
      assert Ok(s', c, [k]);
    }
    forall cs | Ok(s', c, cs) ensures c.spos + c.datasize <= |s.cells[k].data| {
      FirstOfMany(s'.cells, cs);
      assert cs == [k];
    }
  }

  // ---- chk_bytebuffer_rewrite ----

  lemma {:induction false} OverwriteMore(d: seq<Byte>, at: nat, v: seq<Byte>, w: seq<Byte>)
    requires at + |v| + |w| <= |d|
    ensures Overwrite(Overwrite(d, at, v), at + |v|, w) == Overwrite(d, at, v + w)
  {
  }

  /** From position `at` on, the bytes along the path are `v`; nothing else changed. */
  ghost predicate Rewritten(s: Store, s': Store, ids: seq<nat>, at: nat, v: seq<Byte>)
    requires In(s.cells, ids)
  {
    && s'.fresh_ == s.fresh_ && s'.cells.Keys == s.cells.Keys && Path(s'.cells, ids)
    && (forall k :: k in s.cells ==>
          && s'.cells[k].next == s.cells[k].next && |s'.cells[k].data| == |s.cells[k].data|
          && (k !in ids ==> s'.cells[k] == s.cells[k]))
    && at + |v| <= |Along(s.cells, ids)| && Along(s'.cells, ids) == Overwrite(Along(s.cells, ids), at, v)
  }

  lemma {:induction false} NothingRewritten(s: Store, ids: seq<nat>, at: nat)
    requires Path(s.cells, ids) && at <= |Along(s.cells, ids)|
    ensures Rewritten(s, s, ids, at, [])
  {
    var d := Along(s.cells, ids);
    assert Overwrite(d, at, []) == d;
  }

  /** One `memcpy` of the write loop. */
  lemma {:induction false} RewriteStep(s: Store, s': Store, ids: seq<nat>, at: nat, v: seq<Byte>, c: Option<nat>,
      i: nat, pos: nat, w: seq<Byte>)
    requires Path(s.cells, ids) && Rewritten(s, s', ids, at, v) && i < |ids|
    requires CursorAt(s'.cells, ids, c, i, pos, at + |v|)
    requires pos + |w| <= |s'.cells[ids[i]].data|
    ensures
      var s2 := s'.(cells := Put(s'.cells, ids[i], pos, w));
      Rewritten(s, s2, ids, at, v + w) && CursorAt(s2.cells, ids, c, i, pos, at + |v|)
  {
    hide Along, Overwrite;
    PutData(s'.cells, ids, i, pos, w);
    PutPath(s'.cells, ids, i, pos, w);
    OverwriteMore(Along(s.cells, ids), at, v, w);
  }

  lemma {:induction false} RewrittenEnds(s: Store, s': Store, ids: seq<nat>, at: nat, v: seq<Byte>)
    requires Path(s.cells, ids) && ids != [] && s.cells[ids[|ids| - 1]].next.None? && Rewritten(s, s', ids, at, v)
    ensures Path(s'.cells, ids) && s'.cells[ids[|ids| - 1]].next.None?
    ensures |Along(s'.cells, ids)| == |Along(s.cells, ids)|
  {
  }

  /** A cursor sits in its chunk, and is at the end of the path exactly when there is none. */
  lemma {:induction false} CursorIn(cells: map<nat, Cell>, ids: seq<nat>, c: Option<nat>, i: nat, pos: nat, at: nat)
    requires CursorAt(cells, ids, c, i, pos, at)
    ensures c.Some? <==> i < |ids|
    ensures c.Some? ==> c.value == ids[i] && c.value in cells && pos < |cells[c.value].data| && at < |Along(cells, ids)|
    ensures c.None? ==> at == |Along(cells, ids)|
  {
    hide Along;
    AtStart(cells, ids, 0);
    if i < |ids| { SliceInChunk(cells, ids, i, pos, 1); }
  }

  /** A complete path, with successors down to its last chunk. */
  ghost predicate Complete(cells: map<nat, Cell>, ids: seq<nat>) {
    Path(cells, ids) && ids != [] && cells[ids[|ids| - 1]].next.None?
  }

  /** Where the write loop stands: the first `n` bytes of `v` are written, and the cursor is behind them. */
  ghost predicate Writing(s: Store, s': Store, ids: seq<nat>, at: nat, v: seq<Byte>, c: Option<nat>, i: nat, pos: nat,
      n: nat) {
    && Complete(s.cells, ids) && n <= |v| && Rewritten(s, s', ids, at, v[..n])
    && (n < |v| ==> CursorAt(s'.cells, ids, c, i, pos, at + n))
  }

  lemma {:induction false} WritingStart(s: Store, ids: seq<nat>, at: nat, v: seq<Byte>, c: Option<nat>, i: nat,
      pos: nat)
    requires Complete(s.cells, ids) && CursorAt(s.cells, ids, c, i, pos, at)
    ensures Writing(s, s, ids, at, v, c, i, pos, 0)
  {
    CursorIn(s.cells, ids, c, i, pos, at);
    NothingRewritten(s, ids, at);
    assert v[..0] == [];
  }

  lemma {:induction false} WritingIn(s: Store, s': Store, ids: seq<nat>, at: nat, v: seq<Byte>, c: Option<nat>, i: nat,
      pos: nat, n: nat)
    requires Writing(s, s', ids, at, v, c, i, pos, n)
    ensures In(s.cells, ids) && at + n <= |Along(s.cells, ids)|
    ensures n < |v| && c.Some? ==> c.value in s'.cells && pos < |s'.cells[c.value].data|
    ensures n < |v| && c.None? ==> at + n == |Along(s.cells, ids)|
  {
    hide Along, Overwrite;
    RewrittenEnds(s, s', ids, at, v[..n]);
    if n < |v| { CursorIn(s'.cells, ids, c, i, pos, at + n); }
  }

  lemma {:induction false} WritingStep(s: Store, s': Store, ids: seq<nat>, at: nat, v: seq<Byte>, c: Option<nat>,
      i: nat, pos: nat, n: nat, m: nat)
    requires Writing(s, s', ids, at, v, c, i, pos, n) && n < |v| && c.Some? && c.value in s'.cells
    requires m == Min(|s'.cells[c.value].data| - pos, |v| - n)
    ensures
      var s2 := s'.(cells := Put(s'.cells, c.value, pos, v[n..n + m]));
      if n + m < |v| then Writing(s, s2, ids, at, v, s2.cells[c.value].next, i + 1, 0, n + m)
      else Writing(s, s2, ids, at, v, c, i, pos + m, n + m)
  {
    hide Along, Overwrite, Path, Rewritten;
    var w := v[n..n + m];
    RewriteStep(s, s', ids, at, v[..n], c, i, pos, w);
    assert v[..n] + w == v[..n + m];
    var s2 := s'.(cells := Put(s'.cells, c.value, pos, w));
    RewrittenEnds(s, s2, ids, at, v[..n + m]);
    CursorStep(s2.cells, ids, c, i, pos, at + n, m);
  }

  /** `chk_bytechunk_write`: `v` overwrites the path from the cursor on, as far as the path goes. */
  method WriteAt(s: Store, c: Option<nat>, pos: nat, v: seq<Byte>, ghost ids: seq<nat>, ghost i: nat, ghost at: nat)
    returns (s': Store, written: nat)
    requires Complete(s.cells, ids) && CursorAt(s.cells, ids, c, i, pos, at)
    ensures at <= |Along(s.cells, ids)| && written == Min(|v|, |Along(s.cells, ids)| - at)
    ensures Rewritten(s, s', ids, at, v[..written]) && (v == [] ==> s' == s)
  {
    hide Writing, Along, CursorAt, Rewritten, Overwrite, Path, Complete;
    s', written := s, 0;
    var c', pos' := c, pos;
    ghost var i' := i;
    WritingStart(s, ids, at, v, c, i, pos);
    while written < |v| && c'.Some?
      invariant (v == [] ==> s' == s) && 0 <= written && 0 <= i' && 0 <= pos'
      invariant Writing(s, s', ids, at, v, c', i', pos', written)
      decreases |v| - written
    {
      WritingIn(s, s', ids, at, v, c', i', pos', written);
      var n := Min(|s'.cells[c'.value].data| - pos', |v| - written);
      WritingStep(s, s', ids, at, v, c', i', pos', written, n);
      s' := s'.(cells := Put(s'.cells, c'.value, pos', v[written..written + n]));
      written, pos' := written + n, pos' + n;
      if written < |v| {
        c', pos', i' := s'.cells[c'.value].next, 0, i' + 1;
      }
    }
    WritingIn(s, s', ids, at, v, c', i', pos', written);
    WritingDone(s, s', ids, at, v, c', i', pos', written);
  }

  lemma {:induction false} WritingDone(s: Store, s': Store, ids: seq<nat>, at: nat, v: seq<Byte>, c: Option<nat>,
      i: nat, pos: nat, n: nat)
    requires Writing(s, s', ids, at, v, c, i, pos, n)
    ensures n <= |v| && In(s.cells, ids) && Rewritten(s, s', ids, at, v[..n])
  {
  }

  /** Finds byte `offset` of the data; `index` is uninitialised in the original and only set when there is a way to go. */
  method Seek(s: Store, b: Buffer, offset: nat, index0: nat, ghost ids: seq<nat>)
    returns (c: Option<nat>, index: nat, ghost i: nat)
    requires Ends(s, b, ids) && b.head.Some?
    ensures offset == 0 ==> c == b.head && index == index0
    ensures offset > 0 ==>
              if b.spos + offset <= |Along(s.cells, ids)| then CursorAt(s.cells, ids, c, i, index, b.spos + offset)
              else c.None?
  {
    hide Along;
    c, index, i := b.head, index0, 0;
    var left, spos := offset, b.spos;
    AtStart(s.cells, ids, spos);
    while left > 0
      invariant 0 <= left <= offset && 0 <= spos && 0 <= i <= |ids|
      invariant c.Some? && (offset == 0 ==> c == b.head && index == index0)
      invariant offset > 0 ==> CursorAt(s.cells, ids, c, i, if left > 0 then spos else index, b.spos + (offset - left))
    {
      var tmp := |s.cells[c.value].data| - spos;
      if tmp <= left {
        CursorStep(s.cells, ids, c, i, spos, b.spos + (offset - left), tmp);
        left, index, spos := left - tmp, 0, 0;
        c, i := s.cells[c.value].next, i + 1;
        if c.None? {
          CursorIn(s.cells, ids, c, i, 0, b.spos + (offset - left));
          return;
        }
      } else {
        CursorStep(s.cells, ids, c, i, spos, b.spos + (offset - left), left);
        index, left := spos + left, 0;
      }
    }
    if offset > 0 { CursorIn(s.cells, ids, c, i, index, b.spos + offset); }
  }

  /** The window of a buffer after the path under it was overwritten inside the window. */
  lemma {:induction false} WindowOverwritten(d: seq<Byte>, from: nat, size: nat, offset: nat, v: seq<Byte>)
    requires from + size <= |d| && offset + |v| <= size
    ensures Overwrite(d, from + offset, v)[from..from + size] == Overwrite(d[from..from + size], offset, v)
  {
  }

  /** A rewrite changes the content of every buffer over the path, with or without the copy-on-write flag. */
  lemma {:induction false} RewrittenContent(s: Store, s': Store, ids: seq<nat>, c: Buffer, offset: nat, v: seq<Byte>)
    requires Ends(s, c, ids) && c.head.Some? && offset + |v| <= c.datasize && Rewritten(s, s', ids, c.spos + offset, v)
    ensures Ends(s', c, ids) && Content(s', c, ids) == Overwrite(Content(s, c, ids), offset, v)
  {
    WindowOverwritten(Along(s.cells, ids), c.spos, c.datasize, offset, v);
  }

  lemma {:induction false} RewrittenTail(s: Store, s': Store, ids: seq<nat>, b: Buffer, at: nat, v: seq<Byte>)
    requires Path(s.cells, ids) && Rewritten(s, s', ids, at, v) && TailOk(s, b, ids)
    ensures TailOk(s', b, ids)
  {
    if b.head.Some? {
      var t := ids[..|ids| - 1];
      assert forall i :: 0 <= i < |t| ==> t[i] == ids[i];
      SameLength(s.cells, s'.cells, t);
    }
  }

  /** A clone keeps its content through a rewrite of the buffer it was taken from exactly when nothing new is written. */
  lemma {:induction false} CloneSurvivesRewriteIff(s: Store, s': Store, ids: seq<nat>, o: Buffer, offset: nat,
      v: seq<Byte>)
    requires Ends(s, o, ids) && o.head.Some? && offset + |v| <= o.datasize && Rewritten(s, s', ids, o.spos + offset, v)
    ensures Ok(s, Cloned(o), ids) && Ok(s', Cloned(o), ids)
    ensures Content(s', Cloned(o), ids) == Content(s, Cloned(o), ids) <==> Content(s, o, ids)[offset..offset + |v|] == v
  {
    CloneHasContent(s, o, ids);
    RewrittenContent(s, s', ids, Cloned(o), offset, v);
    OverwriteSame(Content(s, o, ids), offset, v);
  }

  lemma {:induction false} OverwriteSame(d: seq<Byte>, at: nat, v: seq<Byte>)
    requires at + |v| <= |d|
    ensures Overwrite(d, at, v) == d <==> d[at..at + |v|] == v
  {
    assert Overwrite(d, at, v)[at..at + |v|] == v;
    assert d[at..at + |v|] == v ==> d == d[..at] + v + d[at + |v|..];
  }

  // ---- Where a rewrite writes ----

  /** The position along the path at which `v` is written. */
  function WritePos(b: Buffer, offset: nat, index0: nat): (at: nat) {
    if offset > 0 then b.spos + offset else index0
  }

  /** The uninitialised index points outside the head chunk, and something is written there. */
  predicate Wild(s: Store, b: Buffer, offset: nat, v: seq<Byte>, index0: nat)
    requires b.head.Some? && b.head.value in s.cells
  {
    offset == 0 && v != [] && index0 > |s.cells[b.head.value].data|
  }

  /** What the part behind the checks and the copy does, for every index. */
  ghost predicate InPlace(s: Store, b: Buffer, ids: seq<nat>, offset: nat, v: seq<Byte>, index0: nat, s': Store,
      code: Code)
    requires Ends(s, b, ids)
  {
    var at, len := WritePos(b, offset, index0), |Along(s.cells, ids)|;
    && !code.ReadOnly?
    && if v == [] then s' == s
       else if at >= len then s' == s && code.InvalidPos?
       else Rewritten(s, s', ids, at, v[..Min(|v|, len - at)]) && (code.Done? <==> at + |v| <= len)
  }

  /** All of `v` is written, at `offset` of the data, and nothing else changes. */
  ghost predicate RewritesRight(s: Store, b: Buffer, ids: seq<nat>, offset: nat, v: seq<Byte>, index0: nat)
    requires Ends(s, b, ids) && b.head.Some? && offset + |v| <= b.datasize
  {
    v == [] || (
      var at, d := WritePos(b, offset, index0), Along(s.cells, ids);
      && !Wild(s, b, offset, v, index0) && at + |v| <= |d|
      && Overwrite(d, at, v)[b.spos..b.spos + b.datasize] == Overwrite(Content(s, b, ids), offset, v))
  }

  /** A rewrite inside the data is right for every value of the uninitialised index exactly when it does not start at the
      first byte, or writes nothing. */
  lemma {:induction false} RewriteRightIff(s: Store, b: Buffer, ids: seq<nat>, offset: nat, v: seq<Byte>)
    requires Ends(s, b, ids) && b.head.Some? && offset + |v| <= b.datasize
    ensures (forall index0: nat :: RewritesRight(s, b, ids, offset, v, index0)) <==> offset >= 1 || v == []
  {
    hide Overwrite, Path, Along;
    EndsIn(s, b, ids);
    if offset >= 1 || v == [] {
      forall index0: nat ensures RewritesRight(s, b, ids, offset, v, index0) {
        WindowOverwritten(Along(s.cells, ids), b.spos, b.datasize, offset, v);
      }
    } else {
      assert !RewritesRight(s, b, ids, offset, v, |s.cells[b.head.value].data| + 1);
    }
  }

  /** Bytes whose misplacement shows. */
  lemma {:induction false} Misplaced(d: seq<Byte>, spos: nat, size: nat, index: nat, n: nat) returns (v: seq<Byte>)
    requires 0 < n <= size && spos + size <= |d| && index != spos
    ensures |v| == n
    ensures index + n <= |d| ==> Overwrite(d, index, v)[spos..spos + size] != Overwrite(d[spos..spos + size], 0, v)
  {
    var k := if index > spos then 0 else n - 1;
    var x: Byte := if d[spos + k] == 0 then 1 else 0;
    v := seq(n, _ => x);
    if index + n <= |d| {
      assert Overwrite(d, index, v)[spos..spos + size][k] == d[spos + k];
      assert Overwrite(d[spos..spos + size], 0, v)[k] == x;
    }
  }

  /** At the first byte, an index is right for all data of a length exactly when it is the start of the data. */
  lemma {:induction false} RewriteAtZeroIff(s: Store, b: Buffer, ids: seq<nat>, n: nat, index0: nat)
    requires Ends(s, b, ids) && b.head.Some? && 0 < n <= b.datasize
    ensures (forall v: seq<Byte> :: |v| == n ==> RewritesRight(s, b, ids, 0, v, index0)) <==> index0 == b.spos
  {
    hide Overwrite, Path;
    EndsIn(s, b, ids);
    var d := Along(s.cells, ids);
    if index0 == b.spos {
      forall v: seq<Byte> | |v| == n ensures RewritesRight(s, b, ids, 0, v, index0) {
        WindowOverwritten(d, b.spos, b.datasize, 0, v);
      }
    } else {
      var v := Misplaced(d, b.spos, b.datasize, index0, n);
      assert !RewritesRight(s, b, ids, 0, v, index0);
    }
  }

  /** The head chunk's index as a cursor; at the end of the chunk the first turn of the write loop copies nothing. */
  method FirstCursor(s: Store, b: Buffer, index: nat, ghost ids: seq<nat>)
    returns (c: Option<nat>, pos: nat, ghost i: nat)
    requires Ends(s, b, ids) && b.head.Some? && index <= |s.cells[b.head.value].data|
    ensures CursorAt(s.cells, ids, c, i, pos, index)
  {
    hide Along;
    c, pos, i := b.head, index, 0;
    AtStart(s.cells, ids, 0);
    AtStart(s.cells, ids, index);
    if index == |s.cells[b.head.value].data| {
      CursorStep(s.cells, ids, c, 0, 0, 0, index);
      c, pos, i := s.cells[c.value].next, 0, 1;
    }
  }

  /** The part of `chk_bytebuffer_rewrite` behind the checks and the copy; nothing is said of a wild write. */
  method RewriteInPlace(s: Store, b: Buffer, offset: nat, v: seq<Byte>, index0: nat, ghost ids: seq<nat>)
    returns (s': Store, code: Code, wild: bool)
    requires Ends(s, b, ids) && b.head.Some?
    ensures wild == Wild(s, b, offset, v, index0) && !code.ReadOnly?
    ensures !wild ==> Ends(s', b, ids) && InPlace(s, b, ids, offset, v, index0, s', code)
    ensures !wild && TailOk(s, b, ids) ==> TailOk(s', b, ids)
    ensures !wild ==> forall k :: k in s.cells && k !in ids ==> k in s'.cells && s'.cells[k] == s.cells[k]
  {
    hide Along, CursorAt, TailOk;
    s', code, wild := s, InvalidPos, false;
    var c: Option<nat>, index: nat;
    ghost var i: nat;
    ghost var at := WritePos(b, offset, index0);
    c, index, i := Seek(s, b, offset, index0, ids);
    if c.None? {
      if at <= |Along(s.cells, ids)| { CursorIn(s.cells, ids, c, i, index, at); }
      return;
    }
    if v == [] { return s, Done, false; }
    if offset == 0 {
      if index > |s.cells[b.head.value].data| { return s, InvalidPos, true; }
      c, index, i := FirstCursor(s, b, index, ids);
    }
    var written: nat;
    s', written := WriteAt(s, c, index, v, ids, i, at);
    code := if written != |v| then InvalidPos else Done;
    if written == 0 {
      s' := s;
    } else {
      RewrittenKeeps(s, s', ids, b, at, v[..written]);
    }
  }

  lemma {:induction false} RewrittenKeeps(s: Store, s': Store, ids: seq<nat>, b: Buffer, at: nat, v: seq<Byte>)
    requires Ends(s, b, ids) && b.head.Some? && Rewritten(s, s', ids, at, v)
    ensures Ends(s', b, ids) && (TailOk(s, b, ids) ==> TailOk(s', b, ids))
  {
    if TailOk(s, b, ids) { RewrittenTail(s, s', ids, b, at, v); }
  }

  // ---- chk_bytebuffer_rewrite ----

  /** Who may be rewritten: as for appending, a flagged buffer must be copyable. */
  ghost predicate Rewritable(s: Store, b: Buffer, ids: seq<nat>) {
    Ends(s, b, ids) && (b.copyOnWrite ==> b.head.Some? && Copyable(s.cells, b) && b.datasize <= 0x8000_0000)
  }

  /** The index the first byte of the data needs. */
  function StartIndex(b: Buffer): (i: nat) {
    if b.copyOnWrite then 0 else b.spos
  }

  /** As much of `v` as fits into the data, from `offset` on. */
  function OverwriteClipped(d: seq<Byte>, offset: nat, v: seq<Byte>): (r: seq<Byte>)
    ensures |r| == |d|
    ensures offset + |v| <= |d| ==> r == Overwrite(d, offset, v)
    ensures offset >= |d| ==> r == d
  {
    if offset >= |d| then d else Overwrite(d, offset, v[..Min(|v|, |d| - offset)])
  }

  /** The window of a buffer after the path was overwritten from inside the window or from behind it. */
  lemma {:induction false} WindowClipped(d: seq<Byte>, from: nat, size: nat, offset: nat, v: seq<Byte>, w: nat)
    requires from + size <= |d| && from + offset + w <= |d| && w <= |v| && (w == |v| || from + offset + w == |d|)
    ensures Overwrite(d, from + offset, v[..w])[from..from + size] == OverwriteClipped(d[from..from + size], offset, v)
  {
    var a, b := Overwrite(d, from + offset, v[..w])[from..from + size], OverwriteClipped(d[from..from + size], offset, v);
    assert |a| == |b| && forall i :: 0 <= i < size ==> a[i] == b[i];
  }

  /** The content after the in-place part, when the index is right. */
  lemma {:induction false} InPlaceContent(s: Store, b: Buffer, ids: seq<nat>, offset: nat, v: seq<Byte>, index0: nat,
      s': Store, code: Code)
    requires Ends(s, b, ids) && b.head.Some? && Ends(s', b, ids) && InPlace(s, b, ids, offset, v, index0, s', code)
    requires offset > 0 || v == [] || index0 == b.spos
    ensures Content(s', b, ids) == OverwriteClipped(Content(s, b, ids), offset, v)
    ensures v != [] ==> (code.Done? <==> b.spos + offset + |v| <= |Along(s.cells, ids)|)
  {
    hide Overwrite, Path;
    EndsIn(s, b, ids);
    var d, at := Along(s.cells, ids), WritePos(b, offset, index0);
    if v != [] && at < |d| {
      WindowClipped(d, b.spos, b.datasize, offset, v, Min(|v|, |d| - at));
    } else if v == [] && offset < b.datasize {
      OverwriteSame(Content(s, b, ids), offset, []);
      assert v[..0] == [] && Content(s, b, ids)[offset..offset] == [];
    }
  }

  lemma {:induction false} EndsIn(s: Store, b: Buffer, ids: seq<nat>)
    requires Ends(s, b, ids)
    ensures In(s.cells, ids) && (b.head.Some? ==> b.spos + b.datasize <= |Along(s.cells, ids)|)
  {
  }

  /** The in-place part succeeds and leaves what it should exactly when the rewrite is right. */
  lemma {:induction false} InPlaceIsRight(s: Store, b: Buffer, ids: seq<nat>, offset: nat, v: seq<Byte>, index0: nat,
      s': Store, code: Code)
    requires Ends(s, b, ids) && b.head.Some? && offset + |v| <= b.datasize && v != [] && !Wild(s, b, offset, v, index0)
    requires Ends(s', b, ids) && InPlace(s, b, ids, offset, v, index0, s', code)
    ensures RewritesRight(s, b, ids, offset, v, index0) <==>
              code.Done? && Content(s', b, ids) == Overwrite(Content(s, b, ids), offset, v)
  {
    hide Overwrite, Path;
    EndsIn(s, b, ids);
    if WritePos(b, offset, index0) + |v| <= |Along(s.cells, ids)| { assert v[..|v|] == v; }
  }

  lemma {:induction false} InPlaceFits(s: Store, b: Buffer, ids: seq<nat>, offset: nat, v: seq<Byte>, index0: nat,
      s': Store, code: Code)
    requires Ends(s, b, ids) && b.head.Some? && Ends(s', b, ids) && InPlace(s, b, ids, offset, v, index0, s', code)
    ensures In(s'.cells, ids) && (code.Done? && v != [] ==> offset + |v| <= |Along(s'.cells, ids)|)
  {
    EndsIn(s', b, ids);
  }

  /** `chk_bytebuffer_rewrite`; the sum of offset and size is taken in 32 bits. Nothing is said of a wild write. */
  method Rewrite(s: Store, b: Buffer, offset: nat, v: seq<Byte>, index0: nat, junk: nat -> Byte, ghost ids: seq<nat>)
    returns (s': Store, b': Buffer, code: Code, wild: bool, ghost ids': seq<nat>)
    requires Rewritable(s, b, ids)
    ensures code.ReadOnly? <==> b.readOnly
    ensures b.readOnly || (offset + |v|) % U32 > b.datasize ==> s' == s && b' == b && ids' == ids && !wild && !code.Done?
    ensures wild ==> offset == 0 && v != [] && index0 != StartIndex(b)
    ensures !wild ==> Ends(s', b', ids') && b'.readOnly == b.readOnly
    ensures !wild && TailOk(s, b, ids) && !b.copyOnWrite ==> TailOk(s', b', ids') && !b'.copyOnWrite
    ensures !wild ==> forall k :: k in s.cells && (b.copyOnWrite || k !in ids) ==> k in s'.cells && s'.cells[k] == s.cells[k]
    ensures !b.readOnly && (offset + |v|) % U32 <= b.datasize && (offset > 0 || v == [] || index0 == StartIndex(b)) ==>
              Content(s', b', ids') == OverwriteClipped(Content(s, b, ids), offset, v)
    ensures !b.readOnly && v != [] && offset + |v| <= b.datasize < U32 && (offset > 0 || index0 == StartIndex(b)) ==>
              code.Done?
    ensures !b.readOnly && v != [] && offset + |v| > b.datasize && !wild && code.Done? && b.datasize < U32 ==>
              offset + |v| >= U32 && |Along(s'.cells, ids')| >= U32
  {
    hide Along, Path, Content, TailOk, InPlace, Collected, OverwriteClipped;
    s', b', ids' := s, b, ids;
    if b.readOnly { return s, b, ReadOnly, false, ids; }
    if (offset + |v|) % U32 > b.datasize { return s, b, InvalidPos, false, ids; }
    if b.copyOnWrite {
      s', b' := DoCopy(s, b, junk, ids);
      ids' := [s.fresh_];
    }
    if b'.head.None? { return s', b', InvalidPos, false, ids'; }
    ghost var s1 := s';
    s', code, wild := RewriteInPlace(s', b', offset, v, index0, ids');
    if !wild { InPlaceFits(s1, b', ids', offset, v, index0, s', code); }
    if !wild && (offset > 0 || v == [] || index0 == b'.spos) {
      InPlaceContent(s1, b', ids', offset, v, index0, s', code);
    }
  }

  /** What the content is after a rewrite whose index is right. */
  function AfterRewrite(d: seq<Byte>, offset: nat, v: seq<Byte>): (r: seq<Byte>) {
    if (offset + |v|) % U32 > |d| then d else OverwriteClipped(d, offset, v)
  }

  /** A rewrite that reaches past the data leaves it alone, for all bytes of that length, exactly when the 32-bit sum is
      refused or the rewrite starts behind the data. */
  lemma {:induction false} PastEndIsHarmlessIff(d: seq<Byte>, offset: nat, n: nat)
    requires offset + n > |d| && n > 0
    ensures (forall v: seq<Byte> :: |v| == n ==> AfterRewrite(d, offset, v) == d)
            <==> (offset + n) % U32 > |d| || offset >= |d|
  {
    if (offset + n) % U32 <= |d| && offset < |d| {
      var x: Byte := if d[offset] == 0 then 1 else 0;
      var v := seq(n, _ => x);
      assert AfterRewrite(d, offset, v)[offset] == x;
      assert AfterRewrite(d, offset, v) != d;
    }
  }
}
