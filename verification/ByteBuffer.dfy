/** Buffers over linked chunks (src/util/chk_bytechunk.c): append, read, drain, rewrite and
the copy-on-write clone.

Chunks live in a store and may be shared by several buffers.  A buffer is a window
into the path of chunks that starts at its head; `ids` names that path.
*/
module ByteBuffer {
  import opened Bytes

  /** A chunk; its capacity is the length of `data`. */
  datatype Cell = Cell(data: seq<Byte>, next: Option<nat>)

  /** The chunks by address, and the next unused address. */
  datatype Store = Store(cells: map<nat, Cell>, fresh_: nat)

  datatype Buffer = Buffer(
    head: Option<nat>, tail: Option<nat>, spos: nat, datasize: nat, appendPos: nat, readOnly: bool, copyOnWrite: bool)

  // ---- Chunk capacity ----

  /** `chk_size_of_pow2` */
  function SizeOfPow2(size: bv32): (r: bv32) {
    if size & (size - 1) == 0 then size
    else
      var a := size - 1;
      var b := a | (a >> 1);
      var c := b | (b >> 2);
      var d := c | (c >> 4);
      var e := d | (d >> 8);
      var f := e | (e >> 16);
      f + 1
  }

  /** The smallest power of two not below `size`, if there is one in 32 bits. */
  lemma {:induction false} SizeOfPow2Rounds(size: bv32)
    ensures SizeOfPow2(size) & (SizeOfPow2(size) - 1) == 0
    ensures SizeOfPow2(size) >= size <==> size <= 0x8000_0000
    ensures 0 < size <= 0x8000_0000 ==> SizeOfPow2(size) / 2 < size
  {
  }

  /** The capacity `chk_bytechunk_new` ends up with. The header size is added only to the second branch of the
      unparenthesised `MAX`, and subtracted from both. */
  function Capacity(len: bv32): (cap: bv32) {
    (if 64 > SizeOfPow2(len) then 64 else SizeOfPow2(len) + 16) - 16
  }

  /** A new chunk holds what it was asked to hold exactly up to 2^31 bytes. */
  lemma {:induction false} CapacitySuffices(len: bv32)
    ensures Capacity(len) >= len <==> len <= 0x8000_0000
    ensures Capacity(len) >= 48
  {
    SizeOfPow2Rounds(len);
  }

  // ---- Paths ----

  ghost predicate In(cells: map<nat, Cell>, ids: seq<nat>) {
    forall i :: 0 <= i < |ids| ==> ids[i] in cells
  }

  ghost predicate Path(cells: map<nat, Cell>, ids: seq<nat>) {
    && In(cells, ids) && (forall i :: 0 <= i < |ids| ==> |cells[ids[i]].data| > 0)
    && (forall i, j :: 0 <= i < j < |ids| ==> ids[i] != ids[j])
    && (forall i :: 0 <= i < |ids| - 1 ==> cells[ids[i]].next == Some(ids[i + 1]))
  }

  /** The bytes along a path. */
  ghost function Along(cells: map<nat, Cell>, ids: seq<nat>): (r: seq<Byte>)
    requires In(cells, ids)
  {
    if ids == [] then [] else cells[ids[0]].data + Along(cells, ids[1..])
  }

  lemma {:induction false} DataConcat(cells: map<nat, Cell>, a: seq<nat>, b: seq<nat>)
    requires In(cells, a + b)
    ensures In(cells, a) && In(cells, b)
    ensures Along(cells, a + b) == Along(cells, a) + Along(cells, b)
  {
    forall i | 0 <= i < |a| ensures a[i] in cells { assert (a + b)[i] == a[i]; }
    forall i | 0 <= i < |b| ensures b[i] in cells { assert (a + b)[|a| + i] == b[i]; }
    if a == [] {
      assert a + b == b;
    } else {
      assert (a + b)[1..] == a[1..] + b;
      DataConcat(cells, a[1..], b);
    }
  }

  /** A path before, at and after its `k`-th chunk. */
  lemma {:induction false} DataAt(cells: map<nat, Cell>, ids: seq<nat>, k: nat)
    requires In(cells, ids) && k < |ids|
    ensures Along(cells, ids) == Along(cells, ids[..k]) + cells[ids[k]].data + Along(cells, ids[k + 1..])
    ensures Along(cells, ids[..k + 1]) == Along(cells, ids[..k]) + cells[ids[k]].data
  {
    assert ids == ids[..k + 1] + ids[k + 1..];
    DataConcat(cells, ids[..k + 1], ids[k + 1..]);
    assert ids[..k + 1] == ids[..k] + [ids[k]];
    DataConcat(cells, ids[..k], [ids[k]]);
    assert Along(cells, [ids[k]]) == cells[ids[k]].data + Along(cells, []);
  }

  lemma {:induction false} DataSame(cells: map<nat, Cell>, cells': map<nat, Cell>, ids: seq<nat>)
    requires forall i :: 0 <= i < |ids| ==> ids[i] in cells && ids[i] in cells' && cells'[ids[i]].data == cells[ids[i]].data
    ensures Along(cells', ids) == Along(cells, ids)
  {
    if ids != [] { DataSame(cells, cells', ids[1..]); }
  }

  // ---- Buffers ----

  /** The path of a buffer that has a head. */
  ghost predicate HasPath(cells: map<nat, Cell>, b: Buffer, ids: seq<nat>) {
    && Path(cells, ids) && ids != [] && b.head == Some(ids[0])
    && b.spos < |cells[ids[0]].data| && b.spos + b.datasize <= |Along(cells, ids)|
  }

  ghost predicate Ok(s: Store, b: Buffer, ids: seq<nat>) {
    && (forall k :: k in s.cells ==> k < s.fresh_)
    && (if b.head.None? then ids == [] && b.datasize == 0 && b.tail.None? else HasPath(s.cells, b, ids))
  }

  /** The bytes a buffer stands for. */
  ghost function Content(s: Store, b: Buffer, ids: seq<nat>): (r: seq<Byte>)
    requires Ok(s, b, ids)
    ensures |r| == b.datasize
  {
    if b.head.None? then [] else Along(s.cells, ids)[b.spos..b.spos + b.datasize]
  }

  /** The tail is the end of the path and the next byte goes right behind the data. */
  ghost predicate Appendable(s: Store, b: Buffer, ids: seq<nat>) {
    && Ok(s, b, ids) && !b.copyOnWrite
    && (b.head.Some? ==>
          var n := |ids| - 1;
          && b.tail == Some(ids[n]) && s.cells[ids[n]].next.None?
          && b.appendPos <= |s.cells[ids[n]].data|
          && |Along(s.cells, ids[..n])| + b.appendPos == b.spos + b.datasize)
  }

  // ---- Writing into one chunk ----

  function Put(cells: map<nat, Cell>, k: nat, pos: nat, bytes: seq<Byte>): (r: map<nat, Cell>)
    requires k in cells && pos + |bytes| <= |cells[k].data|
  {
    cells[k := cells[k].(data := Overwrite(cells[k].data, pos, bytes))]
  }

  lemma {:induction false} OverwriteMiddle(a: seq<Byte>, d: seq<Byte>, z: seq<Byte>, pos: nat, bytes: seq<Byte>)
    requires pos + |bytes| <= |d|
    ensures a + Overwrite(d, pos, bytes) + z == Overwrite(a + d + z, |a| + pos, bytes)
  {
    var all := a + d + z;
    assert all[..|a| + pos] == a + d[..pos];
    assert all[|a| + pos + |bytes|..] == d[pos + |bytes|..] + z;
  }

  lemma {:induction false} PutPath(cells: map<nat, Cell>, ids: seq<nat>, k: nat, pos: nat, bytes: seq<Byte>)
    requires Path(cells, ids) && k < |ids| && pos + |bytes| <= |cells[ids[k]].data|
    ensures
      var cells' := Put(cells, ids[k], pos, bytes);
      && Path(cells', ids)
      && (forall i :: 0 <= i < |ids| ==> |cells'[ids[i]].data| == |cells[ids[i]].data|)
      && (forall i :: 0 <= i < |ids| && i != k ==> cells'[ids[i]].data == cells[ids[i]].data)
  {
  }

  /** A write into the `k`-th chunk of a path overwrites the bytes along the path. */
  lemma {:induction false} PutData(cells: map<nat, Cell>, ids: seq<nat>, k: nat, pos: nat, bytes: seq<Byte>)
    requires Path(cells, ids) && k < |ids| && pos + |bytes| <= |cells[ids[k]].data|
    ensures
      var cells' := Put(cells, ids[k], pos, bytes);
      && Path(cells', ids) && |Along(cells, ids[..k])| + pos + |bytes| <= |Along(cells, ids)|
      && Along(cells', ids) == Overwrite(Along(cells, ids), |Along(cells, ids[..k])| + pos, bytes)
      && Along(cells', ids[..k]) == Along(cells, ids[..k])
  {
    PutPath(cells, ids, k, pos, bytes);
    hide Overwrite, Along;
    var cells' := Put(cells, ids[k], pos, bytes);
    DataAt(cells, ids, k);
    DataAt(cells', ids, k);
    DataSame(cells, cells', ids[..k]);
    DataSame(cells, cells', ids[k + 1..]);
    OverwriteMiddle(Along(cells, ids[..k]), cells[ids[k]].data, Along(cells, ids[k + 1..]), pos, bytes);
  }

  // ---- chk_bytebuffer_append ----

  /** Everything outside the path is untouched, and along it the first `end` bytes. */
  ghost predicate KeepsBelow(cells: map<nat, Cell>, cells': map<nat, Cell>, ids: seq<nat>, end: nat) {
    && (forall k :: k in cells && k !in ids ==> k in cells' && cells'[k] == cells[k])
    && Path(cells, ids) && Path(cells', ids)
    && |Along(cells', ids)| == |Along(cells, ids)| && end <= |Along(cells, ids)|
    && Along(cells', ids)[..end] == Along(cells, ids)[..end]
    && (forall i :: 0 <= i < |ids| ==> |cells'[ids[i]].data| == |cells[ids[i]].data|)
  }

  /** Some of the bytes go behind the data in the tail chunk. */
  function Written(s: Store, b: Buffer, bytes: seq<Byte>): (r: (Store, Buffer))
    requires b.tail.Some? && b.tail.value in s.cells && b.appendPos + |bytes| <= |s.cells[b.tail.value].data|
  {
    (s.(cells := Put(s.cells, b.tail.value, b.appendPos, bytes)),
     b.(appendPos := b.appendPos + |bytes|, datasize := b.datasize + |bytes|))
  }

  lemma {:induction false} OverwriteSlices(d: seq<Byte>, from: nat, end: nat, bytes: seq<Byte>)
    requires from <= end && end + |bytes| <= |d|
    ensures Overwrite(d, end, bytes)[from..end + |bytes|] == d[from..end] + bytes
    ensures Overwrite(d, end, bytes)[..end] == d[..end]
  {
  }

  lemma {:induction false} WrittenOk(s: Store, b: Buffer, ids: seq<nat>, bytes: seq<Byte>)
    requires Appendable(s, b, ids) && b.head.Some? && b.appendPos + |bytes| <= |s.cells[b.tail.value].data|
    ensures
      var (s', b') := Written(s, b, bytes);
      && Appendable(s', b', ids) && Content(s', b', ids) == Content(s, b, ids) + bytes
      && KeepsBelow(s.cells, s'.cells, ids, b.spos + b.datasize)
  {
    hide Overwrite;
    var n := |ids| - 1;
    DataAt(s.cells, ids, n);
    PutData(s.cells, ids, n, b.appendPos, bytes);
    OverwriteSlices(Along(s.cells, ids), b.spos, b.spos + b.datasize, bytes);
    assert ids[n + 1..] == [];
  }

  /** A full tail gets a successor. */
  function Grown(s: Store, b: Buffer, data: seq<Byte>): (r: (Store, Buffer))
    requires b.tail.Some? && b.tail.value in s.cells
  {
    var linked := s.cells[b.tail.value := s.cells[b.tail.value].(next := Some(s.fresh_))];
    (Store(linked[s.fresh_ := Cell(data, None)], s.fresh_ + 1),
     b.(tail := Some(s.fresh_), appendPos := 0))
  }

  lemma {:induction false} GrownPath(s: Store, b: Buffer, ids: seq<nat>, data: seq<Byte>)
    requires Appendable(s, b, ids) && b.head.Some? && data != []
    ensures
      var cells' := Grown(s, b, data).0.cells;
      && Path(cells', ids + [s.fresh_]) && Path(cells', ids)
      && (forall i :: 0 <= i < |ids| ==> cells'[ids[i]].data == s.cells[ids[i]].data)
      && (forall k :: k in s.cells && k !in ids ==> k in cells' && cells'[k] == s.cells[k])
      && (forall k :: k in cells' ==> k < s.fresh_ + 1)
  {
    hide Along;
  }

  lemma {:induction false} GrownData(s: Store, b: Buffer, ids: seq<nat>, data: seq<Byte>)
    requires Appendable(s, b, ids) && b.head.Some? && data != []
    ensures
      var cells', ids' := Grown(s, b, data).0.cells, ids + [s.fresh_];
      && In(cells', ids') && In(cells', ids)
      && Along(cells', ids) == Along(s.cells, ids) && Along(cells', ids') == Along(s.cells, ids) + data
  {
    GrownPath(s, b, ids, data);
    var cells' := Grown(s, b, data).0.cells;
    DataSame(s.cells, cells', ids);
    DataConcat(cells', ids, [s.fresh_]);
    assert Along(cells', [s.fresh_]) == data + Along(cells', []);
  }

  lemma {:induction false} GrownAppendable(s: Store, b: Buffer, ids: seq<nat>, data: seq<Byte>)
    requires Appendable(s, b, ids) && b.head.Some? && b.appendPos == |s.cells[b.tail.value].data| && data != []
    ensures
      var (s', b') := Grown(s, b, data);
      Appendable(s', b', ids + [s.fresh_]) && Content(s', b', ids + [s.fresh_]) == Content(s, b, ids)
  {
    hide Along, Path;
    OkIn(s, b, ids);
    GrownPath(s, b, ids, data);
    GrownData(s, b, ids, data);
    var ids', n := ids + [s.fresh_], |ids| - 1;
    DataAt(s.cells, ids, n);
    assert ids[..n + 1] == ids && ids'[..n + 1] == ids;
    var d := Along(s.cells, ids);
    assert (d + data)[b.spos..b.spos + b.datasize] == d[b.spos..b.spos + b.datasize];
  }

  lemma {:induction false} GrownOk(s: Store, b: Buffer, ids: seq<nat>, data: seq<Byte>)
    requires Appendable(s, b, ids) && b.head.Some? && b.appendPos == |s.cells[b.tail.value].data| && data != []
    ensures
      var (s', b') := Grown(s, b, data);
      && Appendable(s', b', ids + [s.fresh_]) && Content(s', b', ids + [s.fresh_]) == Content(s, b, ids)
      && KeepsBelow(s.cells, s'.cells, ids, b.spos + b.datasize)
  {
    GrownAppendable(s, b, ids, data);
    GrownPath(s, b, ids, data);
    GrownData(s, b, ids, data);
    hide Along, Content;
  }

  lemma {:induction false} KeepsPath(b: map<nat, Cell>, c: map<nat, Cell>, ids: seq<nat>, more: seq<nat>)
    requires Path(b, ids + more) && Path(c, ids + more)
    requires forall i :: 0 <= i < |ids + more| ==> |c[(ids + more)[i]].data| == |b[(ids + more)[i]].data|
    ensures Path(c, ids) && (forall i :: 0 <= i < |ids| ==> ids[i] in b && |c[ids[i]].data| == |b[ids[i]].data|)
  {
    forall i | 0 <= i < |ids| ensures (ids + more)[i] == ids[i] {}
  }

  lemma {:induction false} KeepsPrefix(b: map<nat, Cell>, c: map<nat, Cell>, ids: seq<nat>, more: seq<nat>, end: nat,
      end': nat)
    requires In(b, ids + more) && In(c, ids + more) && In(b, ids) && In(c, ids) && end <= end'
    requires end' <= |Along(b, ids + more)| == |Along(c, ids + more)| && end <= |Along(b, ids)| == |Along(c, ids)|
    requires Along(c, ids + more)[..end'] == Along(b, ids + more)[..end']
    ensures Along(c, ids)[..end] == Along(b, ids)[..end]
  {
    hide Along, In;
    DataConcat(b, ids, more);
    DataConcat(c, ids, more);
    var db, dc := Along(b, ids + more), Along(c, ids + more);
    assert Along(b, ids)[..end] == db[..end] && Along(c, ids)[..end] == dc[..end];
    assert db[..end] == db[..end'][..end] && dc[..end] == dc[..end'][..end];
  }

  lemma {:induction false} KeepsTrans(a: map<nat, Cell>, b: map<nat, Cell>, c: map<nat, Cell>, ids: seq<nat>,
      more: seq<nat>, end: nat, end': nat)
    requires KeepsBelow(a, b, ids, end) && KeepsBelow(b, c, ids + more, end') && end <= end'
    requires forall i :: 0 <= i < |more| ==> more[i] !in a
    ensures KeepsBelow(a, c, ids, end)
  {
    hide Along;
    KeepsPath(b, c, ids, more);
    SameLength(b, c, ids);
    KeepsPrefix(b, c, ids, more, end, end');
    forall k | k in a && k !in ids ensures k in c && c[k] == a[k] {
      assert k !in ids + more;
    }
  }

  lemma {:induction false} SameLength(b: map<nat, Cell>, c: map<nat, Cell>, ids: seq<nat>)
    requires forall i :: 0 <= i < |ids| ==> ids[i] in b && ids[i] in c && |c[ids[i]].data| == |b[ids[i]].data|
    ensures |Along(c, ids)| == |Along(b, ids)|
  {
    if ids != [] { SameLength(b, c, ids[1..]); }
  }

  /** A chunk for at least `len` bytes, contents uninitialised; `CapacitySuffices` says that there is room. */
  method NewData(len: nat) returns (data: seq<Byte>)
    requires len <= 0x8000_0000
    ensures |data| >= len && |data| >= 48
  {
    var cap: nat :| cap >= len && cap >= 48;
    data := seq(cap, _ => 0);
  }

  /** How far an append has come: `done` follows the old content, new chunks are `more`, and nothing before is disturbed. */
  ghost predicate Appended(s: Store, b: Buffer, ids: seq<nat>, s': Store, b': Buffer, more: seq<nat>, done: seq<Byte>)
    requires Ok(s, b, ids)
  {
    && Appendable(s', b', ids + more) && b'.head.Some? && Content(s', b', ids + more) == Content(s, b, ids) + done
    && b'.head == b.head && b'.spos == b.spos && b'.readOnly == b.readOnly && b.datasize <= b'.datasize
    && (forall i :: 0 <= i < |more| ==> more[i] !in s.cells) && s.fresh_ <= s'.fresh_
    && KeepsBelow(s.cells, s'.cells, ids, b.spos + b.datasize)
  }

  lemma {:induction false} TailIn(s: Store, b: Buffer, ids: seq<nat>, s': Store, b': Buffer, more: seq<nat>,
      done: seq<Byte>)
    requires Ok(s, b, ids) && Appended(s, b, ids, s', b', more, done)
    ensures b'.tail.Some? && b'.tail.value in s'.cells && b'.appendPos <= |s'.cells[b'.tail.value].data|
  {
  }

  lemma {:induction false} AppendedGrown(s: Store, b: Buffer, ids: seq<nat>, s': Store, b': Buffer, more: seq<nat>,
      done: seq<Byte>, data: seq<Byte>)
    requires Ok(s, b, ids) && Appended(s, b, ids, s', b', more, done) && data != []
    requires b'.appendPos >= |s'.cells[b'.tail.value].data|
    ensures Appended(s, b, ids, Grown(s', b', data).0, Grown(s', b', data).1, more + [s'.fresh_], done)
  {
    hide Along, Content, KeepsBelow, Path, In;
    TailIn(s, b, ids, s', b', more, done);
    GrownOk(s', b', ids + more, data);
    assert ids + (more + [s'.fresh_]) == ids + more + [s'.fresh_];
    KeepsTrans(s.cells, s'.cells, Grown(s', b', data).0.cells, ids, more, b.spos + b.datasize, b'.spos + b'.datasize);
  }

  lemma {:induction false} AppendedWritten(s: Store, b: Buffer, ids: seq<nat>, s': Store, b': Buffer, more: seq<nat>,
      done: seq<Byte>, bytes: seq<Byte>)
    requires Ok(s, b, ids) && Appended(s, b, ids, s', b', more, done)
    requires b'.appendPos + |bytes| <= |s'.cells[b'.tail.value].data|
    ensures Appended(s, b, ids, Written(s', b', bytes).0, Written(s', b', bytes).1, more, done + bytes)
  {
    hide Along, Content, KeepsBelow, Path, In;
    TailIn(s, b, ids, s', b', more, done);
    WrittenOk(s', b', ids + more, bytes);
    KeepsTrans(s.cells, s'.cells, Written(s', b', bytes).0.cells, ids, more, b.spos + b.datasize, b'.spos + b'.datasize);
    assert Content(s, b, ids) + done + bytes == Content(s, b, ids) + (done + bytes);
  }

  lemma {:induction false} AppendedStart(s: Store, b: Buffer, ids: seq<nat>)
    requires Appendable(s, b, ids) && b.head.Some?
    ensures Ok(s, b, ids) && Appended(s, b, ids, s, b, [], [])
  {
    KeepsSelf(s, b, ids);
    assert ids + [] == ids && Content(s, b, ids) + [] == Content(s, b, ids);
  }

  /** A full tail gets a successor for at least `len` bytes. */
  method EnsureRoom(s1: Store, b1: Buffer, len: nat, ghost s: Store, ghost b: Buffer, ghost ids: seq<nat>,
      ghost more: seq<nat>, ghost done: seq<Byte>)
    returns (s': Store, b': Buffer, ghost more': seq<nat>)
    requires 0 < len <= 0x8000_0000 && Ok(s, b, ids) && Appended(s, b, ids, s1, b1, more, done)
    ensures Appended(s, b, ids, s', b', more', done)
    ensures b'.tail.Some? && b'.tail.value in s'.cells && b'.appendPos < |s'.cells[b'.tail.value].data|
  {
    hide Appended, Ok;
    s', b', more' := s1, b1, more;
    TailIn(s, b, ids, s1, b1, more, done);
    if b1.appendPos >= |s1.cells[b1.tail.value].data| {
      var data := NewData(len);
      AppendedGrown(s, b, ids, s1, b1, more, done, data);
      more' := more + [s1.fresh_];
      s', b' := Grown(s1, b1, data).0, Grown(s1, b1, data).1;
    }
  }

  /** The copy loop of `chk_bytebuffer_append`. */
  method AppendLoop(s: Store, b: Buffer, v: seq<Byte>, ghost ids: seq<nat>)
    returns (s': Store, b': Buffer, ghost more: seq<nat>)
    requires Appendable(s, b, ids) && b.head.Some? && |v| <= 0x8000_0000
    ensures Appended(s, b, ids, s', b', more, v)
  {
    hide Appended, Appendable, Content, Ok, Along, Path, Put, Overwrite;
    s', b', more := s, b, [];
    var done := 0;
    AppendedStart(s, b, ids);
    assert v[..0] == [];
    while done < |v|
      invariant 0 <= done <= |v| && Appended(s, b, ids, s', b', more, v[..done])
    {
      s', b', more := EnsureRoom(s', b', |v| - done, s, b, ids, more, v[..done]);
      var size := Min(|s'.cells[b'.tail.value].data| - b'.appendPos, |v| - done);
      var bytes := v[done..done + size];
      AppendedWritten(s, b, ids, s', b', more, v[..done], bytes);
      s', b' := Written(s', b', bytes).0, Written(s', b', bytes).1;
      assert v[..done] + bytes == v[..done + size];
      done := done + size;
    }
    assert v[..done] == v;
  }

  lemma {:induction false} KeepsSelf(s: Store, b: Buffer, ids: seq<nat>)
    requires Ok(s, b, ids)
    ensures KeepsBelow(s.cells, s.cells, ids, if b.head.Some? then b.spos + b.datasize else 0)
  {
  }

  // ---- chk_bytebuffer_do_copy ----

  /** `memcpy` of `n` bytes from position `from`; what lies behind the chunk is not its data. */
  function ReadPast(data: seq<Byte>, from: nat, n: nat, junk: nat -> Byte): (r: seq<Byte>)
    ensures |r| == n
  {
    seq(n, i requires 0 <= i < n => if from + i < |data| then data[from + i] else junk(from + i))
  }

  /** What the copy loop collects: up to a whole capacity from every chunk, the first one from `spos` on. */
  ghost function Collected(cells: map<nat, Cell>, ids: seq<nat>, spos: nat, size: nat,
      junk: nat -> Byte): (r: seq<Byte>)
    requires In(cells, ids)
    decreases |ids|
  {
    if ids == [] then []
    else
      var n := Min(|cells[ids[0]].data|, size);
      ReadPast(cells[ids[0]].data, spos, n, junk) + Collected(cells, ids[1..], 0, size - n, junk)
  }

  /** The copy is exact for every memory layout when the data starts at the head of its chunk or stays inside it. */
  predicate Copyable(cells: map<nat, Cell>, b: Buffer) {
    b.head.Some? ==> b.head.value in cells && (b.spos == 0 || b.spos + b.datasize <= |cells[b.head.value].data|)
  }

  lemma {:induction false} CollectedFromStart(cells: map<nat, Cell>, ids: seq<nat>, size: nat, junk: nat -> Byte)
    requires In(cells, ids) && size <= |Along(cells, ids)|
    ensures Collected(cells, ids, 0, size, junk) == Along(cells, ids)[..size]
    decreases |ids|
  {
    if ids != [] {
      var d := cells[ids[0]].data;
      var n := Min(|d|, size);
      CollectedFromStart(cells, ids[1..], size - n, junk);
      assert ReadPast(d, 0, n, junk) == d[..n];
    }
  }

  lemma {:induction false} CollectedNothing(cells: map<nat, Cell>, ids: seq<nat>, spos: nat, junk: nat -> Byte)
    requires In(cells, ids)
    ensures Collected(cells, ids, spos, 0, junk) == []
    decreases |ids|
  {
    if ids != [] { CollectedNothing(cells, ids[1..], 0, junk); }
  }

  lemma {:induction false} CopyIsExact(s: Store, b: Buffer, ids: seq<nat>, junk: nat -> Byte)
    requires Ok(s, b, ids) && b.head.Some? && Copyable(s.cells, b)
    ensures Collected(s.cells, ids, b.spos, b.datasize, junk) == Content(s, b, ids)
  {
    if b.spos == 0 {
      CollectedFromStart(s.cells, ids, b.datasize, junk);
    } else {
      var d := s.cells[ids[0]].data;
      CollectedNothing(s.cells, ids[1..], 0, junk);
      assert ReadPast(d, b.spos, b.datasize, junk) == d[b.spos..b.spos + b.datasize];
    }
  }

  ghost predicate Exact(s: Store, b: Buffer, ids: seq<nat>, junk: nat -> Byte)
    requires Ok(s, b, ids)
  {
    Collected(s.cells, ids, b.spos, b.datasize, junk) == Content(s, b, ids)
  }

  /** The copy equals the content, whatever lies behind the head chunk, exactly when the data starts at its first byte
      or stays inside it. */
  lemma {:induction false} CopyIsExactIff(s: Store, b: Buffer, ids: seq<nat>)
    requires Ok(s, b, ids) && b.head.Some?
    ensures (forall junk: nat -> Byte :: Exact(s, b, ids, junk)) <==> Copyable(s.cells, b)
  {
    if Copyable(s.cells, b) {
      forall junk: nat -> Byte ensures Exact(s, b, ids, junk) {
        CopyIsExact(s, b, ids, junk);
      }
    } else {
      var d := s.cells[ids[0]].data;
      var k := |d| - b.spos;
      var right := Content(s, b, ids)[k];
      var junk: nat -> Byte := _ => if right == 0 then 1 else 0;
      var n := Min(|d|, b.datasize);
      assert ReadPast(d, b.spos, n, junk)[k] == junk(b.spos + k);
      assert Collected(s.cells, ids, b.spos, b.datasize, junk)[k] != right;
      assert !Exact(s, b, ids, junk);
    }
  }

  /** The copy loop, chunk by chunk to the end of the chain. */
  method CollectLoop(s: Store, b: Buffer, junk: nat -> Byte, ghost ids: seq<nat>) returns (out: seq<Byte>)
    requires Ok(s, b, ids) && b.head.Some? && s.cells[ids[|ids| - 1]].next.None?
    ensures out == Collected(s.cells, ids, b.spos, b.datasize, junk)
  {
    hide Along, ReadPast;
    out := [];
    var c, spos: nat, left: nat := b.head, b.spos, b.datasize;
    ghost var i := 0;
    ghost var whole := Collected(s.cells, ids, b.spos, b.datasize, junk);
    assert ids[0..] == ids && [] + whole == whole;
    while c.Some?
      invariant 0 <= i <= |ids| && c == (if i < |ids| then Some(ids[i]) else None)
      invariant In(s.cells, ids[i..]) && whole == out + Collected(s.cells, ids[i..], spos, left, junk)
      decreases |ids| - i
    {
      var d := s.cells[c.value].data;
      var n := Min(|d|, left);
      assert ids[i..][0] == ids[i] && ids[i..][1..] == ids[i + 1..];
      ghost var more := Collected(s.cells, ids[i + 1..], 0, left - n, junk);
      assert out + (ReadPast(d, spos, n, junk) + more) == out + ReadPast(d, spos, n, junk) + more;
      out := out + ReadPast(d, spos, n, junk);
      left, spos, c, i := left - n, 0, s.cells[c.value].next, i + 1;
    }
    assert ids[i..] == [] && out + [] == out;
  }

  /** `chk_bytebuffer_do_copy`: the data moves into a chunk of its own. */
  method DoCopy(s: Store, b: Buffer, junk: nat -> Byte, ghost ids: seq<nat>) returns (s': Store, b': Buffer)
    requires Ok(s, b, ids) && b.head.Some? && Copyable(s.cells, b) && b.datasize <= 0x8000_0000
    requires s.cells[ids[|ids| - 1]].next.None?
    ensures b' == Buffer(Some(s.fresh_), Some(s.fresh_), 0, b.datasize, b.datasize, b.readOnly, false)
    ensures Appendable(s', b', [s.fresh_]) && Content(s', b', [s.fresh_]) == Content(s, b, ids)
    ensures s'.fresh_ == s.fresh_ + 1 && s.fresh_ !in s.cells
    ensures s'.cells == s.cells[s.fresh_ := Cell(s'.cells[s.fresh_].data, None)]
  {
    CopyIsExact(s, b, ids, junk);
    var data := NewData(b.datasize);
    var out := CollectLoop(s, b, junk, ids);
    data := out + data[|out|..];
    s' := Store(s.cells[s.fresh_ := Cell(data, None)], s.fresh_ + 1);
    b' := Buffer(Some(s.fresh_), Some(s.fresh_), 0, b.datasize, b.datasize, b.readOnly, false);
    assert Along(s'.cells, [s.fresh_]) == data + Along(s'.cells, []);
  }

  datatype Code = Done | ReadOnly | InvalidPos

  /** What `chk_bytebuffer_append` may be given: a buffer to be copied first, or one whose tail is established. */
  ghost predicate Writable(s: Store, b: Buffer, ids: seq<nat>) {
    && Ok(s, b, ids)
    && (if b.copyOnWrite then
          && b.head.Some? && Copyable(s.cells, b)
          && s.cells[ids[|ids| - 1]].next.None? && b.datasize <= 0x8000_0000
        else Appendable(s, b, ids))
  }

  /** The end of a buffer's data along its path. */
  ghost function End(b: Buffer): (n: nat) {
    if b.head.Some? then b.spos + b.datasize else 0
  }

  /** The new path goes on along the old one or leaves it for good, through new chunks only; a copied buffer leaves the
      old chunks as they are. */
  ghost predicate FreshPath(s: Store, b: Buffer, ids: seq<nat>, s': Store, ids': seq<nat>) {
    && (forall i :: 0 <= i < |ids'| ==> ids'[i] in ids || ids'[i] !in s.cells)
    && (!b.copyOnWrite ==> ids <= ids')
    && (b.copyOnWrite ==> forall i :: 0 <= i < |ids'| ==> ids'[i] !in s.cells)
    && (b.copyOnWrite ==> forall k :: k in s.cells ==> k in s'.cells && s'.cells[k] == s.cells[k])
  }

  lemma {:induction false} NewCellKeeps(s: Store, b: Buffer, ids: seq<nat>, data: seq<Byte>)
    requires Ok(s, b, ids)
    ensures KeepsBelow(s.cells, s.cells[s.fresh_ := Cell(data, None)], ids, End(b))
  {
    var cells' := s.cells[s.fresh_ := Cell(data, None)];
    assert In(s.cells, ids);
    DataSame(s.cells, cells', ids);
  }

  lemma {:induction false} KeepsThenKeeps(a: map<nat, Cell>, b: map<nat, Cell>, c: map<nat, Cell>, ids: seq<nat>,
      other: seq<nat>, end: nat, end': nat)
    requires KeepsBelow(a, b, ids, end) && KeepsBelow(b, c, other, end') && In(b, ids)
    requires forall i :: 0 <= i < |other| ==> other[i] !in a
    requires forall i :: 0 <= i < |ids| ==> ids[i] in a
    ensures KeepsBelow(a, c, ids, end)
  {
    forall i | 0 <= i < |ids| ensures ids[i] in c && c[ids[i]] == b[ids[i]] {
      assert ids[i] !in other;
    }
    DataSame(b, c, ids);
    forall k | k in a && k !in ids ensures k in c && c[k] == a[k] {
      assert k !in other;
    }
  }

  /** Where the copy loop starts: at the buffer as it is, or in a chunk that is new. */
  ghost predicate Starts(s: Store, b: Buffer, ids: seq<nat>, s1: Store, b1: Buffer, ids1: seq<nat>) {
    && (forall k :: k in s.cells ==> k in s1.cells && s1.cells[k] == s.cells[k]) && b1.readOnly == b.readOnly
    && (|| (s1 == s && b1 == b && ids1 == ids && !b.copyOnWrite)
        || (ids1 == [s.fresh_] && s.fresh_ !in s.cells && (b.copyOnWrite || ids == [])))
  }

  /** A new first chunk for an empty buffer. */
  lemma {:induction false} FirstChunk(s: Store, b: Buffer, data: seq<Byte>)
    requires Ok(s, b, []) && b.head.None? && !b.copyOnWrite && data != []
    ensures
      var s1 := Store(s.cells[s.fresh_ := Cell(data, None)], s.fresh_ + 1);
      var b1 := b.(head := Some(s.fresh_), tail := Some(s.fresh_), spos := 0, datasize := 0, appendPos := 0);
      && Appendable(s1, b1, [s.fresh_]) && Content(s1, b1, [s.fresh_]) == []
      && KeepsBelow(s.cells, s1.cells, [], 0) && Starts(s, b, [], s1, b1, [s.fresh_])
  {
    var s1 := Store(s.cells[s.fresh_ := Cell(data, None)], s.fresh_ + 1);
    NewCellKeeps(s, b, [], data);
    assert Along(s1.cells, [s.fresh_]) == data + Along(s1.cells, []);
    assert [s.fresh_][..0] == [];
  }

  /** Copy-on-write and the first chunk of an empty buffer. */
  method Prepare(s: Store, b: Buffer, len: nat, junk: nat -> Byte, ghost ids: seq<nat>)
    returns (s1: Store, b1: Buffer, ghost ids1: seq<nat>)
    requires Writable(s, b, ids) && len <= 0x8000_0000
    ensures Appendable(s1, b1, ids1) && b1.head.Some? && Content(s1, b1, ids1) == Content(s, b, ids)
    ensures KeepsBelow(s.cells, s1.cells, ids, End(b)) && Starts(s, b, ids, s1, b1, ids1)
  {
    hide Appendable, Content, Along, Path, KeepsBelow;
    s1, b1, ids1 := s, b, ids;
    if b.copyOnWrite {
      s1, b1 := DoCopy(s, b, junk, ids);
      ids1 := [s.fresh_];
      NewCellKeeps(s, b, ids, s1.cells[s.fresh_].data);
    } else {
      TailOrNothing(s, b, ids);
      if b.tail.None? {
        var data := NewData(len);
        FirstChunk(s, b, data);
        s1 := Store(s.cells[s.fresh_ := Cell(data, None)], s.fresh_ + 1);
        b1 := b.(head := Some(s.fresh_), tail := Some(s.fresh_), spos := 0, datasize := 0, appendPos := 0);
        ids1 := [s.fresh_];
      } else {
        KeepsSelf(s, b, ids);
      }
    }
  }

  lemma {:induction false} TailOrNothing(s: Store, b: Buffer, ids: seq<nat>)
    requires Appendable(s, b, ids)
    ensures b.head.Some? <==> b.tail.Some?
    ensures b.head.None? ==> ids == [] && Content(s, b, ids) == []
  {
  }

  /** `chk_bytebuffer_append`: the content grows by `v`, and no byte that was there before is disturbed. */
  method Append(s: Store, b: Buffer, v: seq<Byte>, junk: nat -> Byte, ghost ids: seq<nat>)
    returns (s': Store, b': Buffer, code: Code, ghost ids': seq<nat>)
    requires Ok(s, b, ids) && (!b.readOnly ==> Writable(s, b, ids)) && |v| <= 0x8000_0000
    ensures code == if b.readOnly then ReadOnly else Done
    ensures b.readOnly ==> s' == s && b' == b
    ensures code.Done? ==>
              && Appendable(s', b', ids') && Content(s', b', ids') == Content(s, b, ids) + v
              && KeepsBelow(s.cells, s'.cells, ids, End(b)) && b'.readOnly == b.readOnly
              && FreshPath(s, b, ids, s', ids')
              && b'.head.Some? && (!b.copyOnWrite && b.head.Some? ==> b'.head == b.head && b'.spos == b.spos)
  {
    hide Appendable, Content, Along, Path, KeepsBelow, Appended, FreshPath, Starts, Writable;
    if b.readOnly { return s, b, ReadOnly, ids; }
    ghost var ids1, more;
    var s1, b1;
    s1, b1, ids1 := Prepare(s, b, |v|, junk, ids);
    s', b', more := AppendLoop(s1, b1, v, ids1);
    AppendableOk(s1, b1, ids1);
    AfterLoop(s, b, ids, s1, b1, ids1, s', b', more, v);
    PathAfterLoop(s, b, ids, s1, b1, ids1, s', b', more, v);
    NonEmptyPath(s, b, ids);
    ids' := ids1 + more;
    code := Done;
  }

  lemma {:induction false} AppendableOk(s: Store, b: Buffer, ids: seq<nat>)
    requires Appendable(s, b, ids)
    ensures Ok(s, b, ids) && !b.copyOnWrite
  {
  }

  lemma {:induction false} NonEmptyPath(s: Store, b: Buffer, ids: seq<nat>)
    requires Ok(s, b, ids)
    ensures ids != [] <==> b.head.Some?
  {
  }

  lemma {:induction false} OkIn(s: Store, b: Buffer, ids: seq<nat>)
    requires Ok(s, b, ids)
    ensures In(s.cells, ids)
  {
  }

  lemma {:induction false} AfterLoop(s: Store, b: Buffer, ids: seq<nat>, s1: Store, b1: Buffer, ids1: seq<nat>,
      s2: Store, b2: Buffer, more: seq<nat>, v: seq<Byte>)
    requires Ok(s, b, ids) && Appendable(s1, b1, ids1) && Content(s1, b1, ids1) == Content(s, b, ids)
    requires KeepsBelow(s.cells, s1.cells, ids, End(b)) && Appended(s1, b1, ids1, s2, b2, more, v)
    requires Starts(s, b, ids, s1, b1, ids1)
    ensures Appendable(s2, b2, ids1 + more) && Content(s2, b2, ids1 + more) == Content(s, b, ids) + v
    ensures KeepsBelow(s.cells, s2.cells, ids, End(b))
  {
    hide Along, Content, Appendable, Path, KeepsBelow;
    OkIn(s, b, ids);
    if ids1 == [s.fresh_] && s.fresh_ !in s.cells {
      KeepsThenKeeps(s.cells, s1.cells, s2.cells, ids, ids1, End(b), b1.spos + b1.datasize);
    }
  }

  lemma {:induction false} PathAfterLoop(s: Store, b: Buffer, ids: seq<nat>, s1: Store, b1: Buffer, ids1: seq<nat>,
      s2: Store, b2: Buffer, more: seq<nat>, v: seq<Byte>)
    requires Ok(s1, b1, ids1) && Appended(s1, b1, ids1, s2, b2, more, v) && Starts(s, b, ids, s1, b1, ids1)
    ensures FreshPath(s, b, ids, s2, ids1 + more) && b2.readOnly == b.readOnly
    ensures b2.head.Some? && (!b.copyOnWrite && ids != [] ==> b2.head == b.head && b2.spos == b.spos)
  {
    hide Along, Content, Appendable, Path, Ok;
    forall i | 0 <= i < |ids1 + more| ensures (ids1 + more)[i] in ids1 || (ids1 + more)[i] !in s.cells {
      if i >= |ids1| { assert (ids1 + more)[i] == more[i - |ids1|]; }
    }
  }

  // ---- Clones ----

  /** `chk_bytebuffer_clone` of a buffer with chunks. */
  function Cloned(o: Buffer): (c: Buffer) {
    o.(tail := o.head, appendPos := 0, readOnly := false, copyOnWrite := true)
  }

  lemma {:induction false} CloneHasContent(s: Store, o: Buffer, ids: seq<nat>)
    requires Ok(s, o, ids) && o.head.Some?
    ensures Ok(s, Cloned(o), ids) && Content(s, Cloned(o), ids) == Content(s, o, ids) && End(Cloned(o)) == End(o)
  {
  }

  /** A buffer over the same chunks, or over none of them, keeps its content when a buffer with path `ids` is appended to:
      a clone is a snapshot for appends on either side. */
  lemma {:induction false} SnapshotSurvives(s: Store, s': Store, ids: seq<nat>, end: nat, c: Buffer, cs: seq<nat>)
    requires KeepsBelow(s.cells, s'.cells, ids, end) && Ok(s, c, cs) && (forall k :: k in s'.cells ==> k < s'.fresh_)
    requires (cs == ids && End(c) <= end) || (forall i :: 0 <= i < |cs| ==> cs[i] !in ids)
    ensures Ok(s', c, cs) && Content(s', c, cs) == Content(s, c, cs)
  {
    if c.head.Some? {
      if cs == ids {
        hide Path;
        var d, d' := Along(s.cells, ids), Along(s'.cells, ids);
        assert d[c.spos..c.spos + c.datasize] == d[..end][c.spos..c.spos + c.datasize];
        assert d'[c.spos..c.spos + c.datasize] == d'[..end][c.spos..c.spos + c.datasize];
      } else {
        assert forall i :: 0 <= i < |cs| ==> cs[i] in s'.cells && s'.cells[cs[i]] == s.cells[cs[i]];
        DataSame(s.cells, s'.cells, cs);
      }
    }
  }
}
