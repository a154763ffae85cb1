/** The object pool of src/util/chk_obj_pool.h: chunks of 64 objects whose free slots are linked by index, and a list of
    the chunks that have a free slot. */
module ObjPool {
  import opened Bytes

  const CHUNK_OBJSIZE := 64
  const MAX_CHUNK := 0x3FFFFF

  /** An object is known by its chunk and its slot. */
  datatype Ref = Ref(chunk: nat, slot: nat)

  datatype Holder<T> = Holder(next: int, idx: nat, chunkIdx: nat, data: T)

  datatype Chunk<T> = Chunk(head: int, data: seq<Holder<T>>)

  // ---- One chunk ----

  /** The link that the `i`-th slot of a chain carries. */
  function Link(chain: seq<nat>, i: nat): (r: int) {
    if i + 1 < |chain| then chain[i + 1] else -1
  }

  /** The `next` links lead from `head` through exactly the slots of `chain`, each once, to -1. */
  ghost predicate Chain<T>(ch: Chunk<T>, chain: seq<nat>) {
    && |ch.data| == CHUNK_OBJSIZE && Distinct(chain) && (forall i :: 0 <= i < |chain| ==> chain[i] < CHUNK_OBJSIZE)
    && ch.head == (if chain == [] then -1 else chain[0])
    && (forall i :: 0 <= i < |chain| ==> ch.data[chain[i]].next == Link(chain, i))
  }

  ghost predicate ChunkOk<T>(ch: Chunk<T>, c: nat, chain: seq<nat>) {
    Chain(ch, chain) && (forall i :: 0 <= i < |ch.data| ==> ch.data[i].idx == i && ch.data[i].chunkIdx == c)
  }

  /** `_new_chunk`: every slot is free, in order. */
  method NewChunk<T>(idx: nat, zero: T) returns (ch: Chunk<T>)
    ensures ChunkOk(ch, idx, AllFree()) && ch.head == 0
    ensures |ch.data| == CHUNK_OBJSIZE && forall i :: 0 <= i < CHUNK_OBJSIZE ==> ch.data[i].data == zero
  {
    hide ChunkOk;
    var data := [];
    var i := 0;
    while i < CHUNK_OBJSIZE
      invariant 0 <= i <= CHUNK_OBJSIZE && |data| == i
      invariant forall j :: 0 <= j < i ==> data[j] == Holder(j + 1, j, idx, zero)
    {
      data := data + [Holder(i + 1, i, idx, zero)];
      i := i + 1;
    }
    data := data[CHUNK_OBJSIZE - 1 := data[CHUNK_OBJSIZE - 1].(next := -1)];
    ch := Chunk.Chunk(0, data);
    FreshChunkOk(ch, idx, zero);
  }

  lemma {:induction false} FreshChunkOk<T>(ch: Chunk<T>, idx: nat, zero: T)
    requires ch.head == 0 && |ch.data| == CHUNK_OBJSIZE
    requires forall i :: 0 <= i < CHUNK_OBJSIZE ==>
               ch.data[i] == Holder(if i + 1 < CHUNK_OBJSIZE then i + 1 else -1, i, idx, zero)
    ensures ChunkOk(ch, idx, AllFree())
  {
    var all := AllFree();
    assert forall i :: 0 <= i < |all| ==> all[i] == i;
    forall i | 0 <= i < |all| ensures ch.data[all[i]].next == Link(all, i) {
      assert ch.data[i].next == if i + 1 < CHUNK_OBJSIZE then i + 1 else -1;
    }
  }

  /** A slot is taken off the front of the chain and zeroed. */
  function Taken<T>(ch: Chunk<T>, zero: T): (r: Chunk<T>)
    requires 0 <= ch.head < |ch.data|
  {
    Chunk.Chunk(ch.data[ch.head].next, ch.data[ch.head := ch.data[ch.head].(data := zero)])
  }

  lemma {:induction false} TakenOk<T>(ch: Chunk<T>, c: nat, chain: seq<nat>, zero: T)
    requires ChunkOk(ch, c, chain) && ch.head != -1
    ensures chain != [] && ch.head == chain[0] < CHUNK_OBJSIZE && ChunkOk(Taken(ch, zero), c, chain[1..])
    ensures Taken(ch, zero).head == -1 <==> |chain| == 1
    ensures ch.head as nat !in chain[1..]
  {
    var rest, t := chain[1..], Taken(ch, zero);
    assert ch.data[chain[0]].next == Link(chain, 0);
    forall i | 0 <= i < |rest| ensures t.data[rest[i]].next == Link(rest, i) {
      assert rest[i] == chain[i + 1] != chain[0] && ch.data[chain[i + 1]].next == Link(chain, i + 1);
    }
  }

  /** A slot is put back at the front of the chain. */
  function Put<T>(ch: Chunk<T>, slot: nat): (r: Chunk<T>)
    requires slot < |ch.data|
  {
    Chunk.Chunk(slot, ch.data[slot := ch.data[slot].(next := ch.head)])
  }

  lemma {:induction false} PutOk<T>(ch: Chunk<T>, c: nat, chain: seq<nat>, slot: nat)
    requires ChunkOk(ch, c, chain) && slot < CHUNK_OBJSIZE && slot !in chain
    ensures ChunkOk(Put(ch, slot), c, [slot] + chain)
  {
    var more := [slot] + chain;
    assert forall i :: 0 < i < |more| ==> more[i] == chain[i - 1];
  }

  /** A released chain leads on along the old one, up to where the released slot was. */
  lemma {:induction false} Follow<T>(ch: Chunk<T>, chain: seq<nat>, slot: nat, p: nat, after: seq<nat>, k: nat)
    requires Chain(ch, chain) && p < |chain| && chain[p] == slot && k <= p && Chain(Put(ch, slot), after)
    ensures k + 1 < |after| && after[k + 1] == chain[k]
  {
    if k > 0 {
      Follow(ch, chain, slot, p, after, k - 1);
      assert ch.data[chain[k - 1]].next == Link(chain, k - 1);
    }
    assert Put(ch, slot).data[after[k]].next == Link(after, k);
  }

  /** Releasing a slot leaves an acyclic chain exactly when the slot was not free: a second release closes a cycle. */
  lemma {:induction false} ReleaseKeepsChainIff<T>(ch: Chunk<T>, c: nat, chain: seq<nat>, slot: nat)
    requires ChunkOk(ch, c, chain) && slot < CHUNK_OBJSIZE
    ensures (exists after :: Chain(Put(ch, slot), after)) <==> slot !in chain
  {
    if slot !in chain {
      PutOk(ch, c, chain, slot);
      assert Chain(Put(ch, slot), [slot] + chain);
    } else {
      var p :| 0 <= p < |chain| && chain[p] == slot;
      forall after | Chain(Put(ch, slot), after) ensures false {
        Follow(ch, chain, slot, p, after, p);
      }
    }
  }

  // ---- The pool ----

  ghost predicate ChunksOk<T>(chunks: seq<Chunk<T>>, chains: seq<seq<nat>>) {
    |chunks| == |chains| <= MAX_CHUNK && (forall c :: 0 <= c < |chunks| ==> ChunkOk(chunks[c], c, chains[c]))
  }

  /** The list holds exactly the chunks with a free slot, each once. */
  ghost predicate FreeListOk<T>(chunks: seq<Chunk<T>>, free: seq<nat>) {
    && Distinct(free) && (forall j :: 0 <= j < |free| ==> free[j] < |chunks|)
    && (forall c :: 0 <= c < |chunks| ==> (c in free <==> chunks[c].head != -1))
  }

  /** The live objects are exactly the slots that are not free. */
  ghost predicate LiveOk(chains: seq<seq<nat>>, live: set<Ref>) {
    && (forall r :: r in live ==> r.chunk < |chains| && r.slot < CHUNK_OBJSIZE && r.slot !in chains[r.chunk])
    && (forall c, i: nat :: 0 <= c < |chains| && i < CHUNK_OBJSIZE && i !in chains[c] ==> Ref(c, i) in live)
  }

  ghost function FreeSlots(chains: seq<seq<nat>>): (n: nat) {
    if chains == [] then 0 else |chains[0]| + FreeSlots(chains[1..])
  }

  lemma {:induction false} FreeSlotsUpdate(chains: seq<seq<nat>>, c: nat, chain: seq<nat>)
    requires c < |chains|
    ensures FreeSlots(chains[c := chain]) == FreeSlots(chains) - |chains[c]| + |chain|
  {
    if c == 0 {
      assert chains[c := chain][1..] == chains[1..];
    } else {
      assert chains[c := chain][1..] == chains[1..][c - 1 := chain];
      FreeSlotsUpdate(chains[1..], c - 1, chain);
    }
  }

  lemma {:induction false} FreeSlotsSnoc(chains: seq<seq<nat>>, chain: seq<nat>)
    ensures FreeSlots(chains + [chain]) == FreeSlots(chains) + |chain|
  {
    if chains == [] {
      assert chains + [chain] == [chain] && [chain][1..] == [];
    } else {
      assert (chains + [chain])[1..] == chains[1..] + [chain];
      FreeSlotsSnoc(chains[1..], chain);
    }
  }

  ghost predicate CountsOk(chains: seq<seq<nat>>, live: set<Ref>, freecount: nat, usedcount: nat) {
    && freecount == FreeSlots(chains) && usedcount == |live|
    && freecount + usedcount == CHUNK_OBJSIZE * |chains|
  }

  lemma {:induction false} UpdatedFreeList<T>(chunks: seq<Chunk<T>>, free: seq<nat>, c: nat, ch: Chunk<T>,
      free': seq<nat>)
    requires FreeListOk(chunks, free) && c < |chunks|
    requires (ch.head == -1) == (chunks[c].head == -1) ==> free' == free
    requires ch.head == -1 && chunks[c].head != -1 ==> free != [] && free[0] == c && free' == free[1..]
    requires ch.head != -1 && chunks[c].head == -1 ==> free' == free + [c]
    ensures FreeListOk(chunks[c := ch], free')
  {
    if ch.head == -1 && chunks[c].head != -1 {
      assert forall j :: 0 <= j < |free'| ==> free'[j] == free[j + 1];
      assert free == [c] + free';
    }
  }

  lemma {:induction false} LiveAfterNew(chains: seq<seq<nat>>, live: set<Ref>, c: nat)
    requires LiveOk(chains, live) && c < |chains| && chains[c] != [] && Distinct(chains[c])
    requires chains[c][0] < CHUNK_OBJSIZE
    ensures Ref(c, chains[c][0]) !in live && LiveOk(chains[c := chains[c][1..]], live + {Ref(c, chains[c][0])})
  {
    var chain := chains[c];
    assert chain == [chain[0]] + chain[1..];
    assert chain[0] !in chain[1..];
  }

  lemma {:induction false} LiveAfterRelease(chains: seq<seq<nat>>, live: set<Ref>, r: Ref)
    requires LiveOk(chains, live) && r in live
    ensures LiveOk(chains[r.chunk := [r.slot] + chains[r.chunk]], live - {r})
  {
    var chains' := chains[r.chunk := [r.slot] + chains[r.chunk]];
    forall c, i: nat | 0 <= c < |chains'| && i < CHUNK_OBJSIZE && i !in chains'[c] ensures Ref(c, i) in live - {r} {
      assert i !in chains[c] && (c == r.chunk ==> i != r.slot);
    }
  }


  /** The fields of a pool. */
  datatype State<T> = State(chunks: seq<Chunk<T>>, freechunk: seq<nat>, freecount: nat, usedcount: nat)

  /** What holds in every state a pool can reach: `chains` are the free slots of its chunks in the order they will be
      handed out, `live` the objects handed out and not released. */
  ghost predicate Ok<T>(st: State<T>, chains: seq<seq<nat>>, live: set<Ref>) {
    && ChunksOk(st.chunks, chains) && FreeListOk(st.chunks, st.freechunk) && LiveOk(chains, live)
    && CountsOk(chains, live, st.freecount, st.usedcount)
  }

  /** The objects of `refs` hold what they held. */
  ghost predicate Keeps<T>(a: State<T>, b: State<T>, refs: set<Ref>) {
    forall r :: r in refs ==>
      && r.chunk < |a.chunks| && r.slot < |a.chunks[r.chunk].data|
      && r.chunk < |b.chunks| && r.slot < |b.chunks[r.chunk].data|
      && b.chunks[r.chunk].data[r.slot].data == a.chunks[r.chunk].data[r.slot].data
  }

  ghost predicate Zeroed<T>(st: State<T>, r: Ref, zero: T) {
    r.chunk < |st.chunks| && r.slot < |st.chunks[r.chunk].data| && st.chunks[r.chunk].data[r.slot].data == zero
  }

  lemma {:induction false} KeepsTrans<T>(a: State<T>, b: State<T>, c: State<T>, refs: set<Ref>)
    requires Keeps(a, b, refs) && Keeps(b, c, refs)
    ensures Keeps(a, c, refs)
  {
  }

  lemma {:induction false} KeepsSelf<T>(st: State<T>, chains: seq<seq<nat>>, live: set<Ref>)
    requires Ok(st, chains, live)
    ensures Keeps(st, st, live)
  {
    forall r | r in live ensures r.chunk < |st.chunks| && r.slot < |st.chunks[r.chunk].data| {
      InRange(st, chains, live, r);
    }
  }

  ghost function AllFree(): (chain: seq<nat>) {
    seq(CHUNK_OBJSIZE, i => i)
  }

  /** One more chunk, at the end of the array and of the free list. */
  function Grown<T>(st: State<T>, ch: Chunk<T>): (r: State<T>) {
    State(st.chunks + [ch], st.freechunk + [|st.chunks|], st.freecount + CHUNK_OBJSIZE, st.usedcount)
  }

  lemma {:induction false} GrownChunks<T>(chunks: seq<Chunk<T>>, chains: seq<seq<nat>>, free: seq<nat>, ch: Chunk<T>)
    requires ChunksOk(chunks, chains) && |chunks| < MAX_CHUNK && ChunkOk(ch, |chunks|, AllFree())
    requires FreeListOk(chunks, free) && ch.head == 0
    ensures ChunksOk(chunks + [ch], chains + [AllFree()]) && FreeListOk(chunks + [ch], free + [|chunks|])
  {
    hide ChunkOk;
  }

  lemma {:induction false} GrownLive(chains: seq<seq<nat>>, live: set<Ref>)
    requires LiveOk(chains, live)
    ensures LiveOk(chains + [AllFree()], live)
  {
    var all := AllFree();
    forall i: nat | i < CHUNK_OBJSIZE ensures i in all { assert all[i] == i; }
  }

  lemma {:induction false} GrownOk<T>(st: State<T>, chains: seq<seq<nat>>, live: set<Ref>, ch: Chunk<T>)
    requires Ok(st, chains, live) && |st.chunks| < MAX_CHUNK && ChunkOk(ch, |st.chunks|, AllFree()) && ch.head == 0
    ensures Ok(Grown(st, ch), chains + [AllFree()], live) && Keeps(st, Grown(st, ch), live)
  {
    hide FreeListOk, LiveOk, ChunkOk;
    GrownChunks(st.chunks, chains, st.freechunk, ch);
    GrownLive(chains, live);
    FreeSlotsSnoc(chains, AllFree());
    forall r | r in live ensures r.chunk < |st.chunks| && r.slot < |st.chunks[r.chunk].data| {
      InRange(st, chains, live, r);
    }
  }

  /** A live object is a slot of a chunk. */
  lemma {:induction false} InRange<T>(st: State<T>, chains: seq<seq<nat>>, live: set<Ref>, r: Ref)
    requires Ok(st, chains, live) && r in live
    ensures r.chunk < |st.chunks| == |chains| && r.slot < CHUNK_OBJSIZE && r.slot !in chains[r.chunk]
    ensures ChunkOk(st.chunks[r.chunk], r.chunk, chains[r.chunk]) && |st.chunks[r.chunk].data| == CHUNK_OBJSIZE
    ensures st.chunks[r.chunk].data[r.slot].idx == r.slot && st.chunks[r.chunk].data[r.slot].chunkIdx == r.chunk
  {
  }

  /** `_new_obj` with a free chunk in the list. */
  function Allocated<T>(st: State<T>, zero: T): (r: State<T>)
    requires st.freechunk != [] && st.freechunk[0] < |st.chunks| && st.freecount > 0
    requires var ch := st.chunks[st.freechunk[0]]; 0 <= ch.head < |ch.data|
  {
    var c := st.freechunk[0];
    var ch := Taken(st.chunks[c], zero);
    State(st.chunks[c := ch], if ch.head == -1 then st.freechunk[1..] else st.freechunk, st.freecount - 1, st.usedcount + 1)
  }

  lemma {:induction false} FreeSlotsAt(chains: seq<seq<nat>>, c: nat)
    requires c < |chains|
    ensures FreeSlots(chains) >= |chains[c]|
  {
    if c > 0 { FreeSlotsAt(chains[1..], c - 1); }
  }

  /** The chunk at the front of the free list has a free slot. */
  lemma {:induction false} FrontHasRoom<T>(st: State<T>, chains: seq<seq<nat>>, live: set<Ref>)
    requires Ok(st, chains, live) && st.freechunk != []
    ensures
      var c := st.freechunk[0];
      && c < |st.chunks| == |chains| && ChunkOk(st.chunks[c], c, chains[c]) && st.chunks[c].head != -1
      && chains[c] != [] && st.chunks[c].head == chains[c][0] < CHUNK_OBJSIZE == |st.chunks[c].data|
      && Distinct(chains[c]) && st.freecount > 0
  {
    var c := st.freechunk[0];
    assert c in st.freechunk;
    FreeSlotsAt(chains, c);
  }

  lemma {:induction false} ReplacedChunk<T>(chunks: seq<Chunk<T>>, chains: seq<seq<nat>>, c: nat, ch: Chunk<T>,
      chain: seq<nat>)
    requires ChunksOk(chunks, chains) && c < |chunks| && ChunkOk(ch, c, chain)
    ensures ChunksOk(chunks[c := ch], chains[c := chain])
  {
    hide ChunkOk;
  }

  lemma {:induction false} AllocatedOk<T>(st: State<T>, chains: seq<seq<nat>>, live: set<Ref>, zero: T)
    requires Ok(st, chains, live) && st.freechunk != []
    ensures
      var c := st.freechunk[0];
      && c < |st.chunks| == |chains| && chains[c] != [] && 0 <= st.chunks[c].head < |st.chunks[c].data| && st.freecount > 0
      && st.chunks[c].head == chains[c][0]
      && var r := Ref(c, chains[c][0]);
         && r !in live && Ok(Allocated(st, zero), chains[c := chains[c][1..]], live + {r})
         && Allocated(st, zero).chunks[c].data[r.slot].data == zero
  {
    hide FreeListOk, LiveOk, ChunkOk, FreeSlots, ChunksOk;
    FrontHasRoom(st, chains, live);
    var c := st.freechunk[0];
    TakenOk(st.chunks[c], c, chains[c], zero);
    LiveAfterNew(chains, live, c);
    FreeSlotsUpdate(chains, c, chains[c][1..]);
    var ch := Taken(st.chunks[c], zero);
    ReplacedChunk(st.chunks, chains, c, ch, chains[c][1..]);
    UpdatedFreeList(st.chunks, st.freechunk, c, ch, if ch.head == -1 then st.freechunk[1..] else st.freechunk);
  }

  lemma {:induction false} AllocatedKeeps<T>(st: State<T>, chains: seq<seq<nat>>, live: set<Ref>, zero: T)
    requires Ok(st, chains, live) && st.freechunk != []
    requires st.freechunk[0] < |st.chunks| && 0 <= st.chunks[st.freechunk[0]].head < |st.chunks[st.freechunk[0]].data|
    requires st.freecount > 0
    ensures Keeps(st, Allocated(st, zero), live)
  {
    hide FreeSlots;
    FrontHasRoom(st, chains, live);
    forall r | r in live
      ensures r != Ref(st.freechunk[0], st.chunks[st.freechunk[0]].head)
      ensures r.chunk < |st.chunks| && r.slot < |st.chunks[r.chunk].data|
    {
      InRange(st, chains, live, r);
    }
  }

  /** `_release_obj` of slot `slot` of chunk `c`. */
  function Released<T>(st: State<T>, c: nat, slot: nat): (r: State<T>)
    requires c < |st.chunks| && slot < |st.chunks[c].data| && st.usedcount > 0
  {
    State(st.chunks[c := Put(st.chunks[c], slot)], if st.chunks[c].head == -1 then st.freechunk + [c] else st.freechunk,
          st.freecount + 1, st.usedcount - 1)
  }

  lemma {:induction false} ReleasedOk<T>(st: State<T>, chains: seq<seq<nat>>, live: set<Ref>, r: Ref)
    requires Ok(st, chains, live) && r in live
    ensures r.chunk < |st.chunks| == |chains| && r.slot < |st.chunks[r.chunk].data| && st.usedcount > 0
    ensures Ok(Released(st, r.chunk, r.slot), chains[r.chunk := [r.slot] + chains[r.chunk]], live - {r})
  {
    hide FreeListOk, LiveOk, ChunkOk, FreeSlots, ChunksOk;
    InRange(st, chains, live, r);
    var c := r.chunk;
    PutOk(st.chunks[c], c, chains[c], r.slot);
    LiveAfterRelease(chains, live, r);
    FreeSlotsUpdate(chains, c, [r.slot] + chains[c]);
    ReplacedChunk(st.chunks, chains, c, Put(st.chunks[c], r.slot), [r.slot] + chains[c]);
    UpdatedFreeList(st.chunks, st.freechunk, c, Put(st.chunks[c], r.slot),
                    if st.chunks[c].head == -1 then st.freechunk + [c] else st.freechunk);
  }

  lemma {:induction false} ReleasedKeeps<T>(st: State<T>, chains: seq<seq<nat>>, live: set<Ref>, r: Ref)
    requires Ok(st, chains, live) && r in live && r.chunk < |st.chunks| && r.slot < |st.chunks[r.chunk].data|
    requires st.usedcount > 0
    ensures Keeps(st, Released(st, r.chunk, r.slot), live)
  {
    hide FreeSlots;
    forall o | o in live ensures o.chunk < |st.chunks| && o.slot < |st.chunks[o.chunk].data| {
      InRange(st, chains, live, o);
    }
  }

  lemma {:induction false} EmptyListIsFull<T>(st: State<T>, chains: seq<seq<nat>>, live: set<Ref>)
    requires Ok(st, chains, live)
    ensures st.freechunk == [] <==> st.freecount == 0
    ensures |st.chunks| <= MAX_CHUNK
  {
    if st.freechunk == [] {
      forall c | 0 <= c < |chains| ensures chains[c] == [] {
        assert ChunkOk(st.chunks[c], c, chains[c]) && c !in st.freechunk;
      }
      NoFreeSlots(chains);
    } else {
      FrontHasRoom(st, chains, live);
    }
  }

  lemma {:induction false} NoFreeSlots(chains: seq<seq<nat>>)
    requires forall c :: 0 <= c < |chains| ==> chains[c] == []
    ensures FreeSlots(chains) == 0
  {
    if chains != [] { NoFreeSlots(chains[1..]); }
  }

  class Pool<T> {
    const zero: T
    var st: State<T>
    ghost var chains: seq<seq<nat>>
    ghost var live: set<Ref>

    ghost predicate Valid()
      reads this
    {
      Ok(st, chains, live)
    }

    /** `_pool_new` for an `initnum` it accepts: room for `initnum` objects rounded down to whole chunks. */
    constructor (zero: T, initnum: nat)
      requires initnum / CHUNK_OBJSIZE <= MAX_CHUNK
      ensures Valid() && live == {} && this.zero == zero && st.freecount == initnum - initnum % CHUNK_OBJSIZE
    {
      this.zero := zero;
      st, chains, live := State([], [], 0, 0), [], {};
      new;
      var i := 0;
      while i < initnum / CHUNK_OBJSIZE
        invariant 0 <= i <= initnum / CHUNK_OBJSIZE && |st.chunks| == i && Valid() && live == {}
        invariant st.freecount == CHUNK_OBJSIZE * i
      {
        AddChunk();
        i := i + 1;
      }
    }

    /** One more chunk, all of it free. */
    method AddChunk()
      requires Valid() && |st.chunks| < MAX_CHUNK
      modifies this
      ensures Valid() && live == old(live) && Keeps(old(st), st, live)
      ensures |st.chunks| == |old(st).chunks| + 1 && st.freecount == old(st).freecount + CHUNK_OBJSIZE
      ensures st.freechunk == old(st).freechunk + [|old(st).chunks|] && st.usedcount == old(st).usedcount
    {
      hide Ok, Keeps, ChunkOk;
      var ch := NewChunk(|st.chunks|, zero);
      GrownOk(st, chains, live, ch);
      st, chains := Grown(st, ch), chains + [AllFree()];
    }

    /** `_new_obj`: fails only when the pool is full at its largest; otherwise an object that is not live, zeroed, and
        the objects that are live keep what they hold. */
    method NewObj() returns (r: Option<Ref>)
      requires Valid()
      modifies this
      ensures Valid() && Keeps(old(st), st, old(live))
      ensures r.None? <==> old(st).freecount == 0 && |old(st).chunks| == 0x3FFFFF
      ensures r.None? ==> st == old(st) && live == old(live)
      ensures r.Some? ==> r.value !in old(live) && live == old(live) + {r.value} && st.usedcount == old(st).usedcount + 1
      ensures r.Some? ==> Zeroed(st, r.value, zero)
    {
      hide Ok, Keeps;
      KeepsSelf(st, chains, live);
      EmptyListIsFull(st, chains, live);
      if st.freechunk == [] {
        if |st.chunks| + 1 > MAX_CHUNK { return None; }
        AddChunk();
      }
      ghost var mid := st;
      var c := st.freechunk[0];
      AllocatedOk(st, chains, live, zero);
      AllocatedKeeps(st, chains, live, zero);
      r := Some(Ref(c, st.chunks[c].head));
      st := Allocated(st, zero);
      chains, live := chains[c := chains[c][1..]], live + {r.value};
      KeepsTrans(old(st), mid, st, old(live));
    }

    /** `_release_obj` of a live object. */
    method ReleaseObj(r: Ref)
      requires Valid() && r in live
      modifies this
      ensures Valid() && live == old(live) - {r} && Keeps(old(st), st, old(live))
      ensures st.freecount == old(st).freecount + 1
    {
      hide Ok, Keeps, ChunkOk;
      InRange(st, chains, live, r);
      ReleasedOk(st, chains, live, r);
      ReleasedKeeps(st, chains, live, r);
      var holder := st.chunks[r.chunk].data[r.slot];
      st := Released(st, holder.chunkIdx, holder.idx);
      chains, live := chains[r.chunk := [r.slot] + chains[r.chunk]], live - {r};
    }
  }

  /** `_pool_new`: no pool when more chunks are asked for than there may be. */
  method PoolNew<T>(zero: T, initnum: nat) returns (p: Pool?<T>)
    ensures p == null <==> initnum / 64 > 0x3FFFFF
    ensures p != null ==> fresh(p) && p.Valid() && p.live == {} && p.st.freecount == initnum - initnum % 64
  {
    if initnum / CHUNK_OBJSIZE > MAX_CHUNK { return null; }
    p := new Pool(zero, initnum);
  }
}
