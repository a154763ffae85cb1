/** Buffers as their owners use them: any mix of calls on one buffer refines a byte string, and appends to a buffer and to
    its clone do not disturb each other (src/util/chk_bytechunk.c). */
module BufferObject {
  import opened Bytes
  import opened ByteBuffer
  import opened BufferAccess

  /** A buffer that owns its chunks alone. */
  class OwnedBuffer {
    var s: Store
    var b: Buffer
    ghost var ids: seq<nat>
    /** The byte string the buffer stands for. */
    ghost var content: seq<Byte>

    ghost predicate Valid()
      reads this
    {
      Appendable(s, b, ids) && !b.readOnly && Content(s, b, ids) == content
    }

    /** `chk_bytebuffer_new` */
    constructor (initcap: nat)
      requires initcap <= 0x8000_0000
      ensures Valid() && content == []
    {
      var data := NewData(initcap);
      var s0, b0 := Store(map[], 0), Buffer(None, None, 0, 0, 0, false, false);
      FirstChunk(s0, b0, data);
      s := Store(map[0 := Cell(data, None)], 1);
      b := Buffer(Some(0), Some(0), 0, 0, 0, false, false);
      ids, content := [0], [];
      assert map[][0 := Cell(data, None)] == map[0 := Cell(data, None)];
    }

    /** `chk_bytebuffer_append` */
    method Append(v: seq<Byte>, junk: nat -> Byte)
      requires Valid() && |v| <= 0x8000_0000
      modifies this
      ensures Valid() && content == old(content) + v
    {
      hide Appendable, Content, KeepsBelow, FreshPath;
      AppendableOk(s, b, ids);
      ghost var ids';
      var s', b', code;
      s', b', code, ids' := ByteBuffer.Append(s, b, v, junk, ids);
      s, b, ids, content := s', b', ids', content + v;
    }

    /** `chk_bytebuffer_read` */
    method Read(offset: nat, size: nat) returns (out: seq<Byte>)
      requires Valid()
      ensures out == if offset > |content| then [] else content[offset..offset + Min(size, |content| - offset)]
    {
      out := BufferAccess.Read(s, b, offset, size, ids);
    }

    /** `chk_bytebuffer_read_drain`: all or nothing. */
    method ReadDrain(size: nat) returns (out: seq<Byte>)
      requires Valid()
      modifies this
      ensures Valid()
      ensures if size > |old(content)| then out == [] && content == old(content)
              else out == old(content)[..size] && content == old(content)[size..]
    {
      hide Along, Path;
      AppendableIff(s, b, ids);
      ghost var ids';
      var s', b';
      s', b', out, ids' := BufferAccess.ReadDrain(s, b, size, false, ids);
      AppendableIff(s', b', ids');
      content := if size > |content| then content else content[size..];
      s, b, ids := s', b', ids';
    }

    /** `chk_bytebuffer_rewrite`; `wild` says that the uninitialised index led outside the head chunk. */
    method Rewrite(offset: nat, v: seq<Byte>, index0: nat, junk: nat -> Byte) returns (code: Code, wild: bool)
      requires Valid()
      modifies this
      ensures !wild ==> Valid() && !code.ReadOnly?
      ensures wild ==> offset == 0 && v != [] && index0 != old(b.spos)
      ensures offset > 0 || v == [] || index0 == old(b.spos) ==> content == AfterRewrite(old(content), offset, v)
      ensures v != [] && offset + |v| <= |old(content)| < U32 && (offset > 0 || index0 == old(b.spos)) ==> code.Done?
    {
      hide Along, Path;
      AppendableIff(s, b, ids);
      ghost var ids';
      var s', b';
      s', b', code, wild, ids' := BufferAccess.Rewrite(s, b, offset, v, index0, junk, ids);
      if !wild {
        AppendableIff(s', b', ids');
        content := Content(s', b', ids');
      }
      s, b, ids := s', b', ids';
    }
  }

  // ---- A buffer and its clone ----

  ghost predicate Apart(a: seq<nat>, b: seq<nat>) {
    forall i, j :: 0 <= i < |a| && 0 <= j < |b| ==> a[i] != b[j]
  }

  /** The clone shares the chunks until it is first written to; then the two have nothing in common. */
  ghost predicate PairOk(s: Store, o: Buffer, ids: seq<nat>, c: Buffer, cs: seq<nat>) {
    && Appendable(s, o, ids) && !o.readOnly && o.head.Some? && !c.readOnly && Writable(s, c, cs)
    && if c.copyOnWrite then cs == ids && End(c) <= End(o) else Apart(cs, ids)
  }

  /** A longer path serves a buffer as well. */
  lemma {:induction false} LongerPath(s: Store, c: Buffer, ids: seq<nat>, ids': seq<nat>)
    requires Ok(s, c, ids) && c.head.Some? && ids <= ids' && Path(s.cells, ids')
    ensures Ok(s, c, ids') && Content(s, c, ids') == Content(s, c, ids)
  {
    var more := ids'[|ids|..];
    assert ids' == ids + more;
    DataConcat(s.cells, ids, more);
    var d, z := Along(s.cells, ids), Along(s.cells, more);
    assert (d + z)[c.spos..c.spos + c.datasize] == d[c.spos..c.spos + c.datasize];
  }

  /** A buffer whose chunks did not change. */
  lemma {:induction false} Untouched(s: Store, s': Store, b: Buffer, ids: seq<nat>)
    requires Appendable(s, b, ids) && (forall k :: k in s'.cells ==> k < s'.fresh_)
    requires forall i :: 0 <= i < |ids| ==> ids[i] in s'.cells && s'.cells[ids[i]] == s.cells[ids[i]]
    ensures Appendable(s', b, ids) && Content(s', b, ids) == Content(s, b, ids)
  {
    if b.head.Some? {
      DataSame(s.cells, s'.cells, ids);
      var t := ids[..|ids| - 1];
      assert forall i :: 0 <= i < |t| ==> t[i] == ids[i];
      DataSame(s.cells, s'.cells, t);
    }
  }

  lemma {:induction false} Bounded(s: Store, b: Buffer, ids: seq<nat>)
    requires Ok(s, b, ids)
    ensures In(s.cells, ids) && (forall k :: k in s.cells ==> k < s.fresh_)
  {
  }

  /** The clone that still shares, after an append to the original. */
  lemma {:induction false} SharedAfterAppend(s: Store, o: Buffer, ids: seq<nat>, c: Buffer, s': Store, o': Buffer,
      ids': seq<nat>)
    requires PairOk(s, o, ids, c, ids) && c.copyOnWrite && Appendable(s', o', ids') && o'.head.Some?
    requires End(o) <= End(o')
    requires KeepsBelow(s.cells, s'.cells, ids, End(o)) && ids <= ids'
    ensures Writable(s', c, ids') && Content(s', c, ids') == Content(s, c, ids)
  {
    SnapshotSurvives(s, s', ids, End(o), c, ids);
    LongerPath(s', c, ids, ids');
    HeadSize(s.cells, s'.cells, ids, End(o));
  }

  lemma {:induction false} HeadSize(cells: map<nat, Cell>, cells': map<nat, Cell>, ids: seq<nat>, end: nat)
    requires KeepsBelow(cells, cells', ids, end) && ids != []
    ensures ids[0] in cells && ids[0] in cells' && |cells'[ids[0]].data| == |cells[ids[0]].data|
  {
  }

  class ClonePair {
    var s: Store
    var o: Buffer
    var c: Buffer
    ghost var ids: seq<nat>
    ghost var cs: seq<nat>
    ghost var content: seq<Byte>
    ghost var cloned: seq<Byte>

    ghost predicate Valid()
      reads this
    {
      PairOk(s, o, ids, c, cs) && Content(s, o, ids) == content && Content(s, c, cs) == cloned
    }

    /** `chk_bytebuffer_clone` of a buffer that a copy gets right. */
    constructor (s: Store, o: Buffer, ghost ids: seq<nat>)
      requires Appendable(s, o, ids) && o.head.Some? && !o.readOnly && Copyable(s.cells, o) && o.datasize <= 0x8000_0000
      ensures Valid() && content == cloned == Content(s, o, ids)
    {
      CloneHasContent(s, o, ids);
      this.s, this.o, this.c := s, o, Cloned(o);
      this.ids, this.cs := ids, ids;
      content, cloned := Content(s, o, ids), Content(s, o, ids);
    }

    /** An append to the original. */
    method AppendOriginal(v: seq<Byte>, junk: nat -> Byte)
      requires Valid() && |v| <= 0x8000_0000
      modifies this
      ensures Valid() && content == old(content) + v && cloned == old(cloned)
    {
      hide Appendable, Content, KeepsBelow, Along, Path;
      AppendableOk(s, o, ids);
      ghost var ids';
      var s', o', code;
      s', o', code, ids' := ByteBuffer.Append(s, o, v, junk, ids);
      Bounded(s, c, cs);
      AppendableOk(s', o', ids');
      Bounded(s', o', ids');
      GrowsOnly(s, o, ids, s', o', ids', v);
      if c.copyOnWrite {
        SharedAfterAppend(s, o, ids, c, s', o', ids');
        cs := ids';
      } else {
        Elsewhere(s.cells, s'.cells, ids, End(o), cs);
        Untouched(s, s', c, cs);
      }
      s, o, ids, content := s', o', ids', content + v;
    }

    /** An append to the clone: the first one makes it a buffer of its own. */
    method AppendClone(v: seq<Byte>, junk: nat -> Byte)
      requires Valid() && |v| <= 0x8000_0000
      modifies this
      ensures Valid() && content == old(content) && cloned == old(cloned) + v && !c.copyOnWrite
    {
      hide Appendable, Content, KeepsBelow, Along, Path;
      AppendableOk(s, o, ids);
      Bounded(s, o, ids);
      ghost var cs';
      var s', c', code;
      s', c', code, cs' := ByteBuffer.Append(s, c, v, junk, cs);
      AppendableOk(s', c', cs');
      Bounded(s', c', cs');
      if !c.copyOnWrite { Elsewhere(s.cells, s'.cells, cs, End(c), ids); }
      Untouched(s, s', o, ids);
      s, c, cs, cloned := s', c', cs', cloned + v;
    }
  }

  /** Chunks off the path of a change stay as they are. */
  lemma {:induction false} Elsewhere(cells: map<nat, Cell>, cells': map<nat, Cell>, ids: seq<nat>, end: nat,
      others: seq<nat>)
    requires KeepsBelow(cells, cells', ids, end) && In(cells, others) && (Apart(others, ids) || Apart(ids, others))
    ensures forall i :: 0 <= i < |others| ==> others[i] in cells' && cells'[others[i]] == cells[others[i]]
  {
  }

  /** After an append the data ends later. */
  lemma {:induction false} GrowsOnly(s: Store, b: Buffer, ids: seq<nat>, s': Store, b': Buffer, ids': seq<nat>,
      v: seq<Byte>)
    requires Ok(s, b, ids) && Ok(s', b', ids') && Content(s', b', ids') == Content(s, b, ids) + v && b.head.Some?
    requires b'.head.Some? && b'.spos == b.spos
    ensures End(b) <= End(b')
  {
    assert |Content(s', b', ids')| == b'.datasize && |Content(s, b, ids)| == b.datasize;
  }
}
