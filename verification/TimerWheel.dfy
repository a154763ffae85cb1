/** The three-level timing wheel of src/util/chk_timer.c.

`TimerManager` is the mutable manager: three cursors, one list per slot of the
1000/3600/24-slot wheels and the list `fire` moves a due slot into.  Every method
keeps `Valid()`, whose last conjunct says that the events so far are a legal run
of the reference manager in `NaiveTimers` and lead to exactly this state.
*/
module TimerWheel {
  import opened Bytes
  import opened NaiveTimers

  /** The largest remaining delay whose slot is inside the day wheel for every cursor position. */
  const LIMIT: nat := 90_001_000

  function WheelSize(w: nat): (n: nat)
    requires w < 3
  {
    if w == 0 then 1000 else if w == 1 then 3600 else 24
  }

  /** The list an entry is linked into: a slot, the local list of a running `fire`, or none. */
  datatype List = Slot(wheel: nat, slot: nat) | Local | Unlinked

  predicate IsList(l: List) {
    (l.Slot? && l.wheel < 3 && l.slot < WheelSize(l.wheel)) || l.Local?
  }

  function AllLists(): (r: set<List>)
    ensures forall l :: l in r <==> IsList(l)
  {
    (set w, s | 0 <= w < 3 && 0 <= s < WheelSize(w) :: Slot(w, s)) + {Local}
  }

  // ---- Slot arithmetic of _reg ----

  /** The slot index `_reg` computes on one wheel, in 32-bit unsigned arithmetic. */
  function SlotIndex(cur: int, remain: nat, size: nat): (s: nat) {
    var slot := (cur + remain) % U32;
    if slot >= size then slot - size else slot
  }

  /** The remainder handed to the day wheel after the two divisions. */
  function DayRemain(remain: nat): (r: nat)
    requires remain > 1000
  {
    ((remain - 1) / 1000 - 1) / 3600
  }

  /** The day slot is inside the wheel for every cursor exactly when the delay is at most LIMIT. */
  lemma DaySlotInRange(remain: nat)
    requires 3_601_000 < remain < U32
    ensures (forall cur :: 0 <= cur < 24 ==> SlotIndex(cur, DayRemain(remain), 24) < 24) <==> remain <= LIMIT
  {
    if remain > LIMIT {
      assert DayRemain(remain) >= 25;
      assert SlotIndex(23, DayRemain(remain), 24) >= 24;
    }
  }

  /** A callback's positive return value is not clamped: the largest one misses the day wheel. */
  lemma LargestReturnMissesTheWheel()
    ensures SlotIndex(0, DayRemain(0x7FFF_FFFF), 24) >= 24
  {
  }

  // ---- Time ----

  /** The cursors with the ghost counters that give them meaning: first tick, completed advances
      of the hour and day wheels, and which wheels are still to be advanced in the current tick. */
  datatype Clock = Clock(now: nat, cur: seq<int>, base: nat, hours: nat, days: nat, behind: seq<bool>, due: bool)

  ghost predicate ClockOk(c: Clock) {
    && |c.cur| == 3 && |c.behind| == 3
    && -1 <= c.cur[0] < 1000 && 0 <= c.cur[1] < 3600 && 0 <= c.cur[2] < 24
    && (c.behind[0] ==> !c.behind[1] && !c.behind[2])
    && (c.behind[1] ==> c.cur[0] == 999 && !c.behind[2])
    && (c.behind[2] ==> c.cur[0] == 999 && c.cur[1] == 3599)
    && c.now == c.base + 1000 * c.hours + (if c.behind[0] then 1 else 0)
              + (if c.cur[0] == 999 then (if c.behind[1] then 1000 else 0) else c.cur[0] + 1)
    && c.hours + 1 == 3600 * c.days + (if c.cur[1] == 3599 then (if c.behind[2] then 3600 else 0) else c.cur[1] + 1)
  }

  /** How many advances of a wheel with cursor `cur` until it reaches `slot`: 1 to `size`. */
  function Dist(cur: int, slot: int, size: int): (d: int) {
    if slot > cur then slot - cur else slot - cur + size
  }

  /** A slot comes up no later than the timers in it are due, and on the first wheel exactly
      then; the local list holds due timers while callbacks run and later ones while cascading. */
  ghost predicate OnTime(c: Clock, l: List, expire: nat)
    requires ClockOk(c)
  {
    && expire <= c.now + LIMIT
    && match l
       case Slot(w, s) =>
         if w == 0 then expire == c.now - (if c.behind[0] then 1 else 0) + Dist(c.cur[0], s, 1000)
         else if w == 1 then expire > c.base + 1000 * (c.hours + Dist(c.cur[1], s, 3600))
         else expire > c.base + 1000 * (3600 * (c.days + Dist(c.cur[2], s, 24)) - 1)
       case Local => if c.due then expire == c.now else expire > c.now
       case Unlinked => true
  }

  /** The slot `_reg` chooses for a remaining delay. */
  function Placement(cur: seq<int>, remain: nat): (l: List)
    requires |cur| == 3
  {
    if remain <= 1000 then Slot(0, SlotIndex(cur[0], remain, 1000))
    else if (remain - 1) / 1000 <= 3600 then Slot(1, SlotIndex(cur[1], (remain - 1) / 1000, 3600))
    else Slot(2, SlotIndex(cur[2], DayRemain(remain), 24))
  }

  lemma HourPlacement(c: Clock, remain: nat)
    requires ClockOk(c) && 1000 < remain && (remain - 1) / 1000 <= 3600
    ensures IsList(Placement(c.cur, remain))
    ensures OnTime(c, Placement(c.cur, remain), c.now + remain)
  {
    var rh := (remain - 1) / 1000;
    assert 1 <= rh && remain >= 1000 * rh + 1;
    var s := SlotIndex(c.cur[1], rh, 3600);
    assert Dist(c.cur[1], s, 3600) == rh;
  }

  lemma DayPlacement(c: Clock, remain: nat)
    requires ClockOk(c) && 1000 < remain <= LIMIT && (remain - 1) / 1000 > 3600
    ensures IsList(Placement(c.cur, remain))
    ensures OnTime(c, Placement(c.cur, remain), c.now + remain)
  {
    var rd := DayRemain(remain);
    assert 1 <= rd <= 24 && remain >= 1000 * (3600 * rd + 1) + 1;
    var s := SlotIndex(c.cur[2], rd, 24);
    assert Dist(c.cur[2], s, 24) == rd;
  }

  /** Placement is in range and on time, also when the higher wheels are still behind. */
  lemma PlacementOnTime(c: Clock, remain: nat)
    requires ClockOk(c) && !c.behind[0] && 1 <= remain <= LIMIT
    ensures IsList(Placement(c.cur, remain))
    ensures OnTime(c, Placement(c.cur, remain), c.now + remain)
  {
    if remain <= 1000 {
      assert Dist(c.cur[0], SlotIndex(c.cur[0], remain, 1000), 1000) == remain;
    } else if (remain - 1) / 1000 <= 3600 {
      HourPlacement(c, remain);
    } else {
      DayPlacement(c, remain);
    }
  }

  /** Outside a tick nothing linked into a slot is due. */
  lemma NothingDue(c: Clock, l: List, expire: nat)
    requires ClockOk(c) && !c.behind[0] && l.Slot? && IsList(l) && OnTime(c, l, expire)
    ensures expire > c.now
  {
  }

  /** The clock after `fire` has moved the cursor of wheel `w`. */
  ghost function Advance(c: Clock, w: nat): (d: Clock)
    requires ClockOk(c) && w < 3
  {
    var k := if c.cur[w] + 1 == WheelSize(w) then 0 else c.cur[w] + 1;
    var b := c.behind[w := false];
    Clock(c.now, c.cur[w := k], c.base,
          if w == 1 then c.hours + 1 else c.hours,
          if w == 2 then c.days + 1 else c.days,
          if w < 2 && k + 1 == WheelSize(w) then b[w + 1 := true] else b,
          w == 0)
  }

  /** Advancing wheel `w` keeps every other list on time and makes its new current slot's
      timers due now (first wheel) or strictly later (cascade). */
  lemma AdvanceOnTime(c: Clock, w: nat, l: List, expire: nat)
    requires ClockOk(c) && w < 3 && c.behind == [false, false, false][w := true]
    requires l.Slot? && IsList(l) && OnTime(c, l, expire)
    ensures ClockOk(Advance(c, w))
    ensures OnTime(Advance(c, w), if l == Slot(w, Advance(c, w).cur[w]) then Local else l, expire)
  {
  }

  // ---- Lists ----

  /** Every live timer outside `held` is in exactly the one list its link names. */
  ghost predicate Linked(live: set<TimerId>, lists: map<List, seq<TimerId>>, link: map<TimerId, List>,
      held: set<TimerId>) {
    && (forall l :: IsList(l) <==> l in lists)
    && link.Keys == live && held <= live
    && (forall l, i :: l in lists && 0 <= i < |lists[l]| ==> lists[l][i] in link && link[lists[l][i]] == l)
    && (forall l :: l in lists ==> Distinct(lists[l]))
    && (forall id :: id in link ==> if id in held then link[id] == Unlinked else link[id] in lists && id in lists[link[id]])
  }

  lemma LinkBack(live: set<TimerId>, lists: map<List, seq<TimerId>>, link: map<TimerId, List>, held: set<TimerId>,
      l: List, id: TimerId)
    requires Linked(live, lists, link, held) && id in held && l in lists
    ensures Linked(live, lists[l := lists[l] + [id]], link[id := l], held - {id})
  {
    assert id !in lists[l];
    assert id in lists[l] + [id];
  }

  lemma UnlinkAt(live: set<TimerId>, lists: map<List, seq<TimerId>>, link: map<TimerId, List>, held: set<TimerId>,
      l: List, k: nat)
    requires Linked(live, lists, link, held) && l in lists && k < |lists[l]|
    ensures
      var id := lists[l][k];
      Linked(live, lists[l := lists[l][..k] + lists[l][k + 1..]], link[id := Unlinked], held + {id})
  {
    var id := lists[l][k];
    var old_ := lists[l];
    var new_ := old_[..k] + old_[k + 1..];
    forall x | x in old_ && x != id ensures x in new_ {
      var i :| 0 <= i < |old_| && old_[i] == x;
      assert x == new_[if i < k then i else i - 1];
    }
  }

  /** Moving a whole slot into the empty local list. */
  function Relink(link: map<TimerId, List>, from: List, to: List): (r: map<TimerId, List>) {
    map id | id in link :: if link[id] == from then to else link[id]
  }

  lemma MoveList(live: set<TimerId>, lists: map<List, seq<TimerId>>, link: map<TimerId, List>, held: set<TimerId>,
      l: List)
    requires Linked(live, lists, link, held) && l in lists && l != Local && lists[Local] == []
    ensures Linked(live, lists[Local := lists[l]][l := []], Relink(link, l, Local), held)
  {
    var link' := Relink(link, l, Local);
    assert forall id :: id in link && link[id] != Unlinked ==> link[id] != Local;
  }

  method IndexOf(s: seq<TimerId>, id: TimerId) returns (k: nat)
    requires id in s
    ensures k < |s| && s[k] == id
  {
    k := 0;
    while s[k] != id
      invariant k < |s| && id in s[k..]
      decreases |s| - k
    {
      k := k + 1;
    }
  }

  ghost predicate AllOnTime(c: Clock, timers: map<TimerId, Timer>, link: map<TimerId, List>)
    requires ClockOk(c) && link.Keys == timers.Keys
  {
    forall id :: id in timers ==> 1 <= timers[id].timeout <= LIMIT && OnTime(c, link[id], timers[id].expire)
  }

  lemma RelinkOnTime(c: Clock, timers: map<TimerId, Timer>, link: map<TimerId, List>, id: TimerId, l: List)
    requires ClockOk(c) && link.Keys == timers.Keys && id in timers
    requires AllOnTime(c, timers, link) && OnTime(c, l, timers[id].expire)
    ensures AllOnTime(c, timers, link[id := l])
  {
  }

  lemma DropOnTime(c: Clock, timers: map<TimerId, Timer>, link: map<TimerId, List>, id: TimerId)
    requires ClockOk(c) && link.Keys == timers.Keys && AllOnTime(c, timers, link)
    ensures (link - {id}).Keys == (timers - {id}).Keys && AllOnTime(c, timers - {id}, link - {id})
  {
  }

  /** A timer in a list is live and held by nobody. */
  lemma LinkedAt(live: set<TimerId>, lists: map<List, seq<TimerId>>, link: map<TimerId, List>, held: set<TimerId>,
      l: List, k: nat)
    requires Linked(live, lists, link, held) && l in lists && k < |lists[l]|
    ensures link.Keys == live && lists[l][k] in live && lists[l][k] !in held && link[lists[l][k]] == l
  {
    assert IsList(l);
  }

  lemma LinkedKeys(live: set<TimerId>, lists: map<List, seq<TimerId>>, link: map<TimerId, List>, held: set<TimerId>)
    requires Linked(live, lists, link, held)
    ensures link.Keys == live && held <= live && (forall l :: IsList(l) <==> l in lists)
  {
  }

  /** The manager record: the original's fields, with the slot lists keyed by wheel and slot, the
      timer structs keyed by identity, and the callback status bits of the one timer that can have them. */
  datatype Manager = Manager(
    started: bool, lasttick: nat, cur: seq<int>,
    timers: map<TimerId, Timer>, lists: map<List, seq<TimerId>>, link: map<TimerId, List>,
    calling: Option<TimerId>, cancelled: bool, closing: bool, nextId: TimerId)

  /** The run so far, the clock, and the timers held outside every list. */
  datatype History = History(
    trace: seq<Event>, states: seq<State>, fired: seq<(TimerId, nat)>, cleaned: seq<TimerId>,
    clock: Clock, held: set<TimerId>)

  ghost function Abs(m: Manager, g: History): (s: State) {
    State(m.started, m.lasttick, m.timers, m.calling, m.cancelled, m.closing, g.fired, g.cleaned)
  }

  ghost predicate Inv(m: Manager, g: History) {
    && Linked(m.timers.Keys, m.lists, m.link, g.held)
    && ClockOk(g.clock) && g.clock.now == m.lasttick && g.clock.cur == m.cur
    && AllOnTime(g.clock, m.timers, m.link)
    && (m.calling.Some? ==> m.calling.value in g.held)
    && (forall id :: id in m.timers || id in g.cleaned ==> id < m.nextId)
    && (!m.started ==>
          && m.timers == map[] && m.cur == [-1, 0, 0]
          && g.clock.behind == [false, false, false] && g.clock.hours == 0)
    && IsRun(g.states, g.trace) && g.states[0] == Initial && g.states[|g.trace|] == Abs(m, g)
  }

  /** Between calls: no tick under way. */
  ghost predicate Idle(m: Manager, g: History) {
    && Inv(m, g) && g.clock.behind == [false, false, false] && g.held == {}
    && m.calling.None? && m.lists[Local] == [] && !m.closing
  }

  /** While a callback runs: its timer is in no list and the client may call back in. */
  ghost predicate InCallback(m: Manager, g: History) {
    Inv(m, g) && m.calling.Some? && g.held == {m.calling.value} && !g.clock.behind[0] && g.clock.due && !m.closing
  }

  ghost function Log(g: History, e: Event, s: State): (g': History) {
    g.(trace := g.trace + [e], states := g.states + [s])
  }

  function LinkInto(m: Manager, l: List, id: TimerId): (m': Manager)
    requires l in m.lists
  {
    m.(lists := m.lists[l := m.lists[l] + [id]], link := m.link[id := l])
  }

  function UnlinkFrom(m: Manager, l: List, k: nat): (m': Manager)
    requires l in m.lists && k < |m.lists[l]|
  {
    m.(lists := m.lists[l := m.lists[l][..k] + m.lists[l][k + 1..]], link := m.link[m.lists[l][k] := Unlinked])
  }

  function Forget(m: Manager, id: TimerId): (m': Manager) {
    m.(timers := m.timers - {id}, link := m.link - {id})
  }

  lemma RegInv(m: Manager, g: History, id: TimerId, l: List)
    requires Inv(m, g) && id in g.held && m.calling != Some(id)
    requires l.Slot? && IsList(l) && OnTime(g.clock, l, m.timers[id].expire)
    ensures Inv(LinkInto(m, l, id), g.(held := g.held - {id}))
  {
    hide OnTime, ClockOk, Step, IsRun, Linked, AllOnTime;
    LinkedKeys(m.timers.Keys, m.lists, m.link, g.held);
    RelinkOnTime(g.clock, m.timers, m.link, id, l);
    LinkBack(m.timers.Keys, m.lists, m.link, g.held, l, id);
  }

  lemma UnlinkInv(m: Manager, g: History, l: List, k: nat)
    requires Inv(m, g) && l in m.lists && k < |m.lists[l]|
    ensures Inv(UnlinkFrom(m, l, k), g.(held := g.held + {m.lists[l][k]}))
  {
    hide ClockOk, Step, IsRun, Linked;
    LinkedAt(m.timers.Keys, m.lists, m.link, g.held, l, k);
    UnlinkAt(m.timers.Keys, m.lists, m.link, g.held, l, k);
  }

  /** Destroying a held timer as the effect of event `e`. */
  lemma DestroyInv(m: Manager, g: History, id: TimerId, e: Event, m': Manager)
    requires Inv(m, g) && id in g.held
    requires (m' == Forget(m, id) && m.calling != Some(id)) || m' == Forget(m, id).(calling := None, cancelled := false)
    requires Step(Abs(m, g), e) == Some(Abs(m', g.(cleaned := g.cleaned + [id])))
    ensures Inv(m', Log(g.(held := g.held - {id}, cleaned := g.cleaned + [id]), e, Abs(m', g.(cleaned := g.cleaned + [id]))))
  {
    hide OnTime, ClockOk, Step, IsRun, Linked, AllOnTime;
    LinkedKeys(m.timers.Keys, m.lists, m.link, g.held);
    DropOnTime(g.clock, m.timers, m.link, id);
    DropLinked(m.timers.Keys, m.lists, m.link, g.held, id);
    assert m'.timers.Keys == m.timers.Keys - {id};
    ExtendRun(g.states, g.trace, e, Abs(m', g.(cleaned := g.cleaned + [id])));
  }

  lemma DropLinked(live: set<TimerId>, lists: map<List, seq<TimerId>>, link: map<TimerId, List>, held: set<TimerId>,
      id: TimerId)
    requires Linked(live, lists, link, held) && id in held
    ensures Linked(live - {id}, lists, link - {id}, held - {id})
  {
  }

  lemma AddLinked(live: set<TimerId>, lists: map<List, seq<TimerId>>, link: map<TimerId, List>, held: set<TimerId>,
      id: TimerId)
    requires Linked(live, lists, link, held) && id !in live
    ensures Linked(live + {id}, lists, link[id := Unlinked], held + {id})
  {
  }

  /** A new timer, still outside every list; the first one starts the clock. */
  function Added(m: Manager, ms: nat, now: nat): (m': Manager) {
    m.(started := true,
       lasttick := if m.started then m.lasttick else now,
       timers := m.timers[m.nextId := Timer(Clamp(ms), now + Clamp(ms))],
       link := m.link[m.nextId := Unlinked],
       nextId := m.nextId + 1)
  }

  ghost function AddedHistory(m: Manager, g: History, ms: nat, now: nat): (g': History) {
    Log(g.(held := g.held + {m.nextId}, clock := if m.started then g.clock else g.clock.(now := now, base := now)),
        Register(m.nextId, ms, now), Abs(Added(m, ms, now), g))
  }

  lemma RegisterStep(m: Manager, g: History, ms: nat, now: nat)
    requires Inv(m, g) && !m.closing && (m.started ==> m.lasttick < now + Clamp(ms))
    ensures Step(Abs(m, g), Register(m.nextId, ms, now)) == Some(Abs(Added(m, ms, now), g))
  {
  }

  lemma RegisterInv(m: Manager, g: History, ms: nat, now: nat)
    requires Inv(m, g) && !m.closing
    requires m.started ==> m.lasttick < now + Clamp(ms) <= m.lasttick + LIMIT
    ensures Inv(Added(m, ms, now), AddedHistory(m, g, ms, now))
  {
    hide Step, IsRun, Linked;
    LinkedKeys(m.timers.Keys, m.lists, m.link, g.held);
    var m', g' := Added(m, ms, now), AddedHistory(m, g, ms, now);
    RegisterStep(m, g, ms, now);
    ExtendRun(g.states, g.trace, Register(m.nextId, ms, now), Abs(m', g));
    AddLinked(m.timers.Keys, m.lists, m.link, g.held, m.nextId);
    assert m'.timers.Keys == m.timers.Keys + {m.nextId};
    assert ClockOk(g'.clock);
    assert AllOnTime(g'.clock, m'.timers, m'.link);
  }

  lemma NextIdIsNew(m: Manager, g: History)
    requires Inv(m, g)
    ensures m.nextId !in m.timers && m.nextId !in g.cleaned
  {
  }

  lemma RemoveLinked(live: set<TimerId>, lists: map<List, seq<TimerId>>, link: map<TimerId, List>, held: set<TimerId>,
      l: List, k: nat)
    requires Linked(live, lists, link, held) && l in lists && k < |lists[l]|
    ensures
      var id := lists[l][k];
      Linked(live - {id}, lists[l := lists[l][..k] + lists[l][k + 1..]], link - {id}, held)
  {
    UnlinkAt(live, lists, link, held, l, k);
  }

  /** A timer unlinked from its list and destroyed. */
  function Removed(m: Manager, l: List, k: nat): (m': Manager)
    requires l in m.lists && k < |m.lists[l]|
  {
    var id := m.lists[l][k];
    m.(timers := m.timers - {id}, lists := m.lists[l := m.lists[l][..k] + m.lists[l][k + 1..]], link := m.link - {id})
  }

  ghost function RemovalEvent(m: Manager, id: TimerId): (e: Event) {
    if m.closing then Discard(id) else Unregister(id)
  }

  ghost function RemovedHistory(m: Manager, g: History, l: List, k: nat): (g': History)
    requires l in m.lists && k < |m.lists[l]|
  {
    var id := m.lists[l][k];
    var cleaned := g.cleaned + [id];
    Log(g.(cleaned := cleaned), RemovalEvent(m, id), Abs(Removed(m, l, k), g.(cleaned := cleaned)))
  }

  lemma RemovalStep(m: Manager, g: History, l: List, k: nat)
    requires l in m.lists && k < |m.lists[l]| && m.lists[l][k] in m.timers && m.calling != Some(m.lists[l][k])
    ensures
      var id := m.lists[l][k];
      Step(Abs(m, g), RemovalEvent(m, id)) == Some(Abs(Removed(m, l, k), g.(cleaned := g.cleaned + [id])))
  {
  }

  /** A linked timer, whose callback is not running, is destroyed at once when it is
      unregistered or when the manager is finalized. */
  lemma RemovalInv(m: Manager, g: History, l: List, k: nat)
    requires Inv(m, g) && l in m.lists && k < |m.lists[l]|
    ensures Inv(Removed(m, l, k), RemovedHistory(m, g, l, k))
  {
    hide OnTime, ClockOk, Step, IsRun, Linked, AllOnTime;
    var id := m.lists[l][k];
    LinkedAt(m.timers.Keys, m.lists, m.link, g.held, l, k);
    DropOnTime(g.clock, m.timers, m.link, id);
    RemovalStep(m, g, l, k);
    RemoveLinked(m.timers.Keys, m.lists, m.link, g.held, l, k);
    assert Removed(m, l, k).timers.Keys == m.timers.Keys - {id};
    ExtendRun(g.states, g.trace, RemovalEvent(m, id), Abs(Removed(m, l, k), g.(cleaned := g.cleaned + [id])));
  }

  /** One more tick: allowed because nothing in a slot is due. */
  lemma TickInv(m: Manager, g: History)
    requires Idle(m, g) && m.started
    ensures
      var m' := m.(lasttick := m.lasttick + 1);
      var c := g.clock.(now := g.clock.now + 1, behind := [true, false, false]);
      Inv(m', Log(g.(clock := c), Tick, Abs(m', g)))
  {
    var m' := m.(lasttick := m.lasttick + 1);
    forall id | id in m.timers ensures m.timers[id].expire > m.lasttick {
      assert m.link[id] in m.lists && m.link[id] != Local;
      NothingDue(g.clock, m.link[id], m.timers[id].expire);
    }
    ExtendRun(g.states, g.trace, Tick, Abs(m', g));
  }

  /** The head of `fire`: move the cursor and take over the slot it reaches. */
  function Advanced(m: Manager, w: nat): (m': Manager)
    requires w < 3 && |m.cur| == 3 && AllLists() == m.lists.Keys && -1 <= m.cur[w] < WheelSize(w)
  {
    var k := if m.cur[w] + 1 == WheelSize(w) then 0 else m.cur[w] + 1;
    var l := Slot(w, k);
    m.(cur := m.cur[w := k], lists := m.lists[Local := m.lists[l]][l := []], link := Relink(m.link, l, Local))
  }

  lemma AdvanceAllOnTime(c: Clock, w: nat, timers: map<TimerId, Timer>, link: map<TimerId, List>)
    requires ClockOk(c) && w < 3 && c.behind == [false, false, false][w := true]
    requires link.Keys == timers.Keys && AllOnTime(c, timers, link)
    requires forall id :: id in link ==> link[id].Slot? && IsList(link[id])
    ensures ClockOk(Advance(c, w))
    ensures AllOnTime(Advance(c, w), timers, Relink(link, Slot(w, Advance(c, w).cur[w]), Local))
  {
    var c' := Advance(c, w);
    assert ClockOk(c');
    forall id | id in timers
      ensures OnTime(c', Relink(link, Slot(w, c'.cur[w]), Local)[id], timers[id].expire)
    {
      AdvanceOnTime(c, w, link[id], timers[id].expire);
    }
  }

  lemma AllInSlots(m: Manager, g: History)
    requires Linked(m.timers.Keys, m.lists, m.link, g.held) && g.held == {} && m.lists[Local] == []
    ensures AllLists() == m.lists.Keys
    ensures forall id :: id in m.link ==> m.link[id].Slot? && IsList(m.link[id])
  {
  }

  lemma AdvanceCursor(c: Clock, w: nat)
    requires ClockOk(c) && w < 3
    ensures |c.cur| == 3 && -1 <= c.cur[w] < WheelSize(w) && Advance(c, w).now == c.now
    ensures Advance(c, w).cur == c.cur[w := if c.cur[w] + 1 == WheelSize(w) then 0 else c.cur[w] + 1]
  {
  }

  lemma {:induction false} HasLists(m: Manager, g: History)
    requires Inv(m, g)
    ensures m.link.Keys == m.timers.Keys && g.held <= m.timers.Keys && |m.cur| == 3 && |g.clock.behind| == 3
    ensures (forall l :: IsList(l) <==> l in m.lists)
  {
  }

  lemma AdvanceInv(m: Manager, g: History, w: nat)
    requires Inv(m, g) && w < 3 && g.clock.behind == [false, false, false][w := true]
    requires g.held == {} && m.lists[Local] == []
    ensures AllLists() == m.lists.Keys && Inv(Advanced(m, w), g.(clock := Advance(g.clock, w)))
  {
    hide OnTime, Step, IsRun, AllOnTime, Linked, Relink, ClockOk, Advance;
    AllInSlots(m, g);
    LinkedKeys(m.timers.Keys, m.lists, m.link, g.held);
    AdvanceCursor(g.clock, w);
    assert g.clock.behind[w];
    var m', c := Advanced(m, w), Advance(g.clock, w);
    var l := Slot(w, c.cur[w]);
    AdvanceAllOnTime(g.clock, w, m.timers, m.link);
    MoveList(m.timers.Keys, m.lists, m.link, g.held, l);
    assert m'.cur == c.cur && m'.link == Relink(m.link, l, Local);
    assert Abs(m', g) == Abs(m, g);
  }

  /** Popping the local list yields a timer due now while callbacks run, a later one while cascading. */
  lemma PopInv(m: Manager, g: History)
    requires Inv(m, g) && m.lists[Local] != []
    ensures
      var id, m' := m.lists[Local][0], UnlinkFrom(m, Local, 0);
      && Inv(m', g.(held := g.held + {id})) && m'.lists[Local] == m.lists[Local][1..]
      && id in m.timers
      && (if g.clock.due then m.timers[id].expire == m.lasttick
          else m.lasttick < m.timers[id].expire <= m.lasttick + LIMIT)
  {
    hide ClockOk, Step, IsRun;
    var id := m.lists[Local][0];
    assert OnTime(g.clock, m.link[id], m.timers[id].expire) && m.link[id] == Local;
    UnlinkInv(m, g, Local, 0);
  }

  /** Starting a callback: the popped timer is due at exactly this tick. */
  lemma FireInv(m: Manager, g: History, id: TimerId)
    requires Inv(m, g) && g.held == {id} && m.calling.None? && !g.clock.behind[0] && !m.closing
    requires m.timers[id].expire == m.lasttick
    ensures
      var m' := m.(calling := Some(id), cancelled := false);
      var g' := g.(fired := g.fired + [(id, m.lasttick)]);
      Inv(m', Log(g', Fire(id), Abs(m', g')))
  {
    var m' := m.(calling := Some(id), cancelled := false);
    var g' := g.(fired := g.fired + [(id, m.lasttick)]);
    ExtendRun(g.states, g.trace, Fire(id), Abs(m', g'));
  }

  /** A callback returned and its timer is re-armed; it is still outside every list. */
  function Rearmed(m: Manager, ret: int): (m': Manager)
    requires m.calling.Some? && m.calling.value in m.timers
  {
    var id := m.calling.value;
    var timeout := if ret > 0 then ret else m.timers[id].timeout;
    m.(timers := m.timers[id := Timer(timeout, m.lasttick + timeout)], calling := None, cancelled := false)
  }

  lemma RearmInv(m: Manager, g: History, ret: int)
    requires InCallback(m, g) && !m.cancelled && 0 <= ret <= LIMIT
    ensures Inv(Rearmed(m, ret), Log(g, Return(ret), Abs(Rearmed(m, ret), g)))
  {
    hide ClockOk, IsRun;
    HasLists(m, g);
    var m' := Rearmed(m, ret);
    ExtendRun(g.states, g.trace, Return(ret), Abs(m', g));
    assert m'.timers.Keys == m.timers.Keys;
  }

  /** While the manager is being finalized. */
  ghost predicate Closing(m: Manager, g: History) {
    Inv(m, g) && m.closing && g.held == {}
  }

  lemma NothingLinked(m: Manager, g: History)
    requires Closing(m, g) && (forall l :: l in m.lists ==> m.lists[l] == [])
    ensures m.timers == map[]
  {
    assert forall id :: id in m.timers ==> m.link[id] in m.lists && id in m.lists[m.link[id]];
  }

  /** Outside a callback of its own, a live timer is in the list its link names. */
  lemma LinkOf(m: Manager, g: History, id: TimerId)
    requires (Idle(m, g) || InCallback(m, g)) && id in m.timers && m.calling != Some(id)
    ensures id in m.link && m.link[id] in m.lists && id in m.lists[m.link[id]]
  {
  }

  lemma CancelStep(m: Manager, g: History, id: TimerId)
    requires InCallback(m, g) && m.calling == Some(id) && !m.cancelled && id in m.timers
    ensures Step(Abs(m, g), Unregister(id)) == Some(Abs(m.(cancelled := true), g))
  {
  }

  /** Since `g`, the callback of timer `id` was started at tick `at`, or the timer was destroyed. */
  ghost predicate Served(g: History, g': History, id: TimerId, at: nat) {
    id in g'.cleaned || exists k :: |g.fired| <= k < |g'.fired| && g'.fired[k] == (id, at)
  }

  lemma NoneDueWhenIdle(m: Manager, g: History, id: TimerId)
    requires Idle(m, g) && id in m.timers
    ensures m.timers[id].expire > m.lasttick
  {
    LinkOf(m, g, id);
    assert m.link[id] != Local && OnTime(g.clock, m.link[id], m.timers[id].expire);
    NothingDue(g.clock, m.link[id], m.timers[id].expire);
  }

  /** The wheel misses no timer: whatever happened in between, once its clock has reached the expiry of a timer and no
      tick is under way, the callback was started at exactly that tick, or the timer was destroyed. */
  lemma WheelServes(m: Manager, g: History, m': Manager, g': History, id: TimerId)
    requires Inv(m, g) && Idle(m', g') && g.trace <= g'.trace && id in m.timers && m.calling != Some(id)
    requires m.timers[id].expire <= m'.lasttick
    ensures Served(g, g', id, m.timers[id].expire)
  {
    hide Step, Linked, AllOnTime, ClockOk;
    RunDetermined(g.states, g.trace, g'.states, g'.trace, |g.trace|);
    NoTimerIsMissed(g'.states, g'.trace, |g.trace|, |g'.trace|, id, m.timers[id].expire);
    if id in m'.timers { NoneDueWhenIdle(m', g', id); }
  }

  /** Unregistering is final for the wheel too: between any two moments, a timer that was destroyed, or unregistered in
      its own callback, is not called again, and is destroyed unless that callback is still running. */
  lemma WheelForgets(m: Manager, g: History, m': Manager, g': History, id: TimerId, k: nat)
    requires Inv(m, g) && Inv(m', g') && g.trace <= g'.trace
    requires id in g.cleaned || (m.calling == Some(id) && m.cancelled)
    ensures |g.trace| <= k < |g'.trace| ==> g'.trace[k] != Event.Fire(id)
    ensures m'.calling != Some(id) ==> id in g'.cleaned && id !in m'.timers
  {
    hide Step, Linked, AllOnTime, ClockOk;
    RunDetermined(g.states, g.trace, g'.states, g'.trace, |g.trace|);
    StaysDoomed(g'.states, g'.trace, |g.trace|, |g'.trace|, id);
    EveryRunIsSound(g'.states, g'.trace, |g'.trace|);
    if |g.trace| <= k < |g'.trace| { StaysDoomed(g'.states, g'.trace, |g.trace|, k, id); }
  }

  lemma WheelKeeps(m: Manager, g: History, m': Manager, g': History, id: TimerId)
    requires Inv(m, g) && Inv(m', g') && g.trace <= g'.trace && id in m.timers
    ensures id in m'.timers || id in g'.cleaned
  {
    hide Step, Linked, AllOnTime, ClockOk;
    RunDetermined(g.states, g.trace, g'.states, g'.trace, |g.trace|);
    NeverDropped(g'.states, g'.trace, |g.trace|, |g'.trace|, id);
  }

  class TimerManager {
    var m: Manager
    ghost var g: History

    ghost predicate Valid()
      reads this
    {
      Idle(m, g)
    }

    constructor ()
      ensures Valid() && g.trace == [] && !m.started
    {
      m := Manager(false, 0, [-1, 0, 0], map[], map l | l in AllLists() :: [], map[], None, false, false, 0);
      g := History([], [Initial], [], [], Clock(0, [-1, 0, 0], 0, 0, 0, [false, false, false], false), {});
    }

    /** `_reg`: link a timer into the slot for its remaining delay. */
    method Reg(id: TimerId)
      requires Inv(m, g) && id in g.held && m.calling != Some(id) && !g.clock.behind[0]
      requires m.lasttick < m.timers[id].expire <= m.lasttick + LIMIT
      modifies this
      ensures Inv(m, g) && g == old(g).(held := old(g).held - {id})
      ensures m == old(m).(lists := m.lists, link := m.link) && m.lists[Local] == old(m.lists[Local])
      ensures id in m.link && m.link[id] in old(m.lists)
      ensures m.lists == old(m.lists)[m.link[id] := old(m.lists)[m.link[id]] + [id]]
    {
      hide OnTime, Step, IsRun, AllOnTime, Linked, ClockOk;
      HasLists(m, g);
      var l := SlotFor(m.cur, m.lasttick, m.timers[id].expire, g.clock);
      RegInv(m, g, id, l);
      m := LinkInto(m, l, id);
      g := g.(held := g.held - {id});
    }

    /** `chk_timer_register`, from outside or from inside a callback. */
    method Register(ms: nat, now: nat) returns (id: TimerId)
      requires Idle(m, g) || InCallback(m, g)
      requires m.started ==> m.lasttick < now + Clamp(ms) <= m.lasttick + LIMIT
      modifies this
      ensures old(Idle(m, g)) ==> Idle(m, g)
      ensures old(InCallback(m, g)) ==> InCallback(m, g) && m.calling == old(m.calling)
      ensures g.trace == old(g.trace) + [Event.Register(id, ms, now)]
      ensures m.lasttick == if old(m.started) then old(m.lasttick) else now
      ensures m.lists[Local] == old(m.lists[Local])
      ensures m.cur == old(m.cur) && (old(m.started) ==> g.clock == old(g.clock))
      ensures id !in old(m.timers) && id !in old(g.cleaned) && g.fired == old(g.fired) && g.cleaned == old(g.cleaned)
      ensures id in m.timers && m.timers == old(m.timers)[id := m.timers[id]]
      ensures ms == 0 ==> m.timers[id] == Timer(1, now + 1)
      ensures 1 <= ms <= 86_399_999 ==> m.timers[id] == Timer(ms, now + ms)
      ensures ms > 86_399_999 ==> m.timers[id] == Timer(86_399_999, now + 86_399_999)
    {
      hide OnTime, Step, IsRun, AllOnTime, Linked, ClockOk, Clamp;
      HasLists(m, g);
      id := m.nextId;
      NextIdIsNew(m, g);
      RegisterInv(m, g, ms, now);
      g := AddedHistory(m, g, ms, now);
      m := Added(m, ms, now);
      Reg(id);
    }

    /** `chk_timer_unregister` of a timer the client still owns. */
    method Unregister(id: TimerId)
      requires (Idle(m, g) || InCallback(m, g)) && id in m.timers
      modifies this
      ensures old(Idle(m, g)) ==> Idle(m, g)
      ensures old(InCallback(m, g)) ==> InCallback(m, g) && m.calling == old(m.calling)
      ensures m.started && m.lasttick == old(m.lasttick) && m.cur == old(m.cur) && g.clock == old(g.clock)
      ensures |m.lists[Local]| <= |old(m.lists[Local])|
      ensures g.trace == if old(m.calling == Some(id) && m.cancelled) then old(g.trace)
                         else old(g.trace) + [Event.Unregister(id)]
      ensures g.fired == old(g.fired)
      ensures if old(m.calling) == Some(id) then m.cancelled && m.timers == old(m.timers) && g.cleaned == old(g.cleaned)
              else m.timers == old(m.timers) - {id} && g.cleaned == old(g.cleaned) + [id]
    {
      hide OnTime, Step, IsRun, AllOnTime, Linked;
      if m.calling == Some(id) {
        if !m.cancelled {
          CancelStep(m, g, id);
          var m' := m.(cancelled := true);
          ExtendRun(g.states, g.trace, Event.Unregister(id), Abs(m', g));
          g := Log(g, Event.Unregister(id), Abs(m', g));
          m := m';
        }
      } else {
        LinkOf(m, g, id);
        var l := m.link[id];
        var k := IndexOf(m.lists[l], id);
        RemovalInv(m, g, l, k);
        g := RemovedHistory(m, g, l, k);
        m := Removed(m, l, k);
      }
    }

    /** Any callback: it may register and unregister any number of timers, itself included. */
    method Callback() returns (ret: int)
      requires InCallback(m, g)
      modifies this
      ensures InCallback(m, g) && m.calling == old(m.calling)
      ensures m.started && m.lasttick == old(m.lasttick) && m.cur == old(m.cur) && g.clock == old(g.clock)
      ensures |m.lists[Local]| <= |old(m.lists[Local])|
      ensures old(g.trace) <= g.trace
      ensures ret <= LIMIT
    {
      var n: nat := *;
      while n > 0
        invariant InCallback(m, g) && m.calling == old(m.calling)
        invariant m.started && m.lasttick == old(m.lasttick) && m.cur == old(m.cur) && g.clock == old(g.clock)
        invariant |m.lists[Local]| <= |old(m.lists[Local])|
        invariant old(g.trace) <= g.trace
      {
        if * {
          var ms: nat, now: nat := *, *;
          if m.lasttick < now + Clamp(ms) <= m.lasttick + LIMIT {
            var _ := Register(ms, now);
          }
        } else {
          var id: TimerId := *;
          if id in m.timers {
            Unregister(id);
          }
        }
        n := n - 1;
      }
      ret := *;
      if ret > LIMIT { ret := 0; }
    }

    /** `chk_dlist_pop` of the local list: due now while callbacks run, later while cascading. */
    method PopLocal() returns (id: TimerId)
      requires Inv(m, g) && g.held == {} && m.lists[Local] != [] && m.calling.None?
      modifies this
      ensures Inv(m, g) && g == old(g).(held := {id})
      ensures m == old(m).(lists := m.lists, link := m.link) && m.lists[Local] == old(m.lists[Local])[1..]
      ensures id == old(m.lists[Local])[0] && id in m.timers && Local in m.lists
      ensures if g.clock.due then m.timers[id].expire == m.lasttick
              else m.lasttick < m.timers[id].expire <= m.lasttick + LIMIT
    {
      hide OnTime, Step, IsRun, AllOnTime, Linked, ClockOk;
      HasLists(m, g);
      id := m.lists[Local][0];
      PopInv(m, g);
      HasLists(UnlinkFrom(m, Local, 0), g.(held := g.held + {id}));
      m, g := UnlinkFrom(m, Local, 0), g.(held := g.held + {id});
    }

    /** A popped timer's callback starts; the original asserts that its expiry is this tick. */
    method Start(id: TimerId)
      requires Inv(m, g) && g.held == {id} && m.calling.None? && !g.clock.behind[0] && g.clock.due && !m.closing
      requires m.timers[id].expire == m.lasttick
      modifies this
      ensures InCallback(m, g) && m == old(m).(calling := Some(id), cancelled := false) && g.clock == old(g.clock)
      ensures g.trace == old(g.trace) + [Event.Fire(id)] && g.fired == old(g.fired) + [(id, m.lasttick)]
    {
      FireInv(m, g, id);
      m := m.(calling := Some(id), cancelled := false);
      g := g.(fired := g.fired + [(id, m.lasttick)]);
      g := Log(g, Event.Fire(id), Abs(m, g));
    }

    /** What `fire` does with a timer whose callback returned `ret`. */
    method Finish(ret: int)
      requires InCallback(m, g) && ret <= LIMIT
      modifies this
      ensures Inv(m, g) && g.held == {} && m.calling.None? && !m.closing
      ensures g.trace == old(g.trace) + [Return(ret)]
      ensures m.lists[Local] == old(m.lists[Local])
      ensures m.started && m.lasttick == old(m.lasttick) && m.cur == old(m.cur) && g.clock == old(g.clock)
      ensures g.fired == old(g.fired) && old(m.calling.value) in old(m.timers)
      ensures
        var id := old(m.calling.value);
        && (old(m.cancelled) || ret < 0 ==> m.timers == old(m.timers) - {id} && g.cleaned == old(g.cleaned) + [id])
        && (!old(m.cancelled) && ret > 0 ==> m.timers == old(m.timers)[id := Timer(ret, m.lasttick + ret)])
        && (!old(m.cancelled) && ret == 0 ==>
              var timeout := old(m.timers[id].timeout);
              m.timers == old(m.timers)[id := Timer(timeout, m.lasttick + timeout)])
        && (!old(m.cancelled) && ret >= 0 ==> g.cleaned == old(g.cleaned))
    {
      hide OnTime, IsRun, Linked;
      HasLists(m, g);
      var id := m.calling.value;
      if !m.cancelled && ret >= 0 {
        RearmInv(m, g, ret);
        g := Log(g, Return(ret), Abs(Rearmed(m, ret), g));
        m := Rearmed(m, ret);
        Reg(id);
      } else {
        var m' := Forget(m, id).(calling := None, cancelled := false);
        DestroyInv(m, g, id, Return(ret), m');
        g := g.(held := g.held - {id}, cleaned := g.cleaned + [id]);
        g := Log(g, Return(ret), Abs(m', g));
        m := m';
      }
    }

    /** One round of the callback loop: the timer at the head of the local list is called. */
    method FireOne()
      requires Inv(m, g) && m.started && g.held == {} && m.calling.None? && !g.clock.behind[0] && g.clock.due
      requires !m.closing
      requires m.lists[Local] != []
      modifies this
      ensures Inv(m, g) && g.held == {} && m.calling.None? && !m.closing
      ensures |m.lists[Local]| < |old(m.lists[Local])|
      ensures m.started && m.lasttick == old(m.lasttick) && m.cur == old(m.cur) && g.clock == old(g.clock)
      ensures old(g.trace) <= g.trace
    {
      hide OnTime, Step, IsRun, AllOnTime, Linked;
      HasLists(m, g);
      var id := PopLocal();
      assert m.lasttick == m.timers[id].expire;
      Start(id);
      var ret := Callback();
      Finish(ret);
    }

    /** The callback loop of `fire` on the first wheel: every timer taken over is due exactly now. */
    method RunDue()
      requires Inv(m, g) && m.started && g.held == {} && m.calling.None? && !g.clock.behind[0] && g.clock.due
      requires !m.closing
      modifies this
      ensures Inv(m, g) && g.held == {} && m.calling.None? && m.lists[Local] == [] && !m.closing
      ensures m.started && m.lasttick == old(m.lasttick) && m.cur == old(m.cur) && g.clock == old(g.clock)
      ensures old(g.trace) <= g.trace
    {
      hide OnTime, Step, IsRun, AllOnTime, Linked;
      HasLists(m, g);
      while m.lists[Local] != []
        invariant Inv(m, g) && g.held == {} && m.calling.None? && !m.closing && old(g.trace) <= g.trace
        invariant Local in m.lists
        invariant m.started && m.lasttick == old(m.lasttick) && m.cur == old(m.cur) && g.clock == old(g.clock)
        decreases |m.lists[Local]|
      {
        FireOne();
        HasLists(m, g);
      }
    }

    /** The cascade loop of `fire` on a higher wheel. */
    method Cascade()
      requires Inv(m, g) && g.held == {} && m.calling.None? && !g.clock.behind[0] && !g.clock.due
      modifies this
      ensures Inv(m, g) && g.held == {} && m.lists[Local] == []
      ensures m == old(m).(lists := m.lists, link := m.link) && g == old(g)
    {
      hide OnTime, Step, IsRun, AllOnTime, Linked;
      HasLists(m, g);
      while m.lists[Local] != []
        invariant Inv(m, g) && m == old(m).(lists := m.lists, link := m.link) && g == old(g) && Local in m.lists
        decreases |m.lists[Local]|
      {
        var id := PopLocal();
        Reg(id);
        HasLists(m, g);
      }
    }

    /** Moves the cursor of wheel `w` and its new slot into the local list. */
    method AdvanceWheel(w: nat)
      requires Inv(m, g) && w < 3 && g.clock.behind == [false, false, false][w := true]
      requires g.held == {} && m.lists[Local] == []
      modifies this
      ensures Inv(m, g) && g == old(g).(clock := Advance(old(g).clock, w))
      ensures m == old(m).(cur := m.cur, lists := m.lists, link := m.link)
      ensures Slot(w, m.cur[w]) in old(m.lists) && m.lists[Local] == old(m.lists)[Slot(w, m.cur[w])]
    {
      AdvanceInv(m, g, w);
      g := g.(clock := Advance(g.clock, w));
      m := Advanced(m, w);
    }

    /** `fire`: advance wheel `w`, empty the slot it reaches, carry into the next wheel. */
    method Fire(w: nat)
      requires Inv(m, g) && w < 3 && g.clock.behind == [false, false, false][w := true]
      requires m.started && g.held == {} && m.calling.None? && m.lists[Local] == [] && !m.closing
      modifies this
      ensures Idle(m, g) && m.started && m.lasttick == old(m.lasttick)
      ensures old(g.trace) <= g.trace
      decreases 3 - w
    {
      hide OnTime, Step, IsRun, AllOnTime, Linked;
      HasLists(m, g);
      AdvanceWheel(w);
      if w == 0 { RunDue(); } else { Cascade(); }
      if m.cur[w] + 1 == WheelSize(w) && w < 2 {
        Fire(w + 1);
      }
    }

    /** The clock moves on by one; the first wheel is still to be advanced. */
    method IncLasttick()
      requires Idle(m, g) && m.started
      modifies this
      ensures Inv(m, g) && g.clock.behind == [true, false, false] && g.held == {}
      ensures m == old(m).(lasttick := old(m.lasttick) + 1)
      ensures g.trace == old(g.trace) + [Tick]
    {
      hide OnTime, Step, IsRun, AllOnTime, Linked, ClockOk;
      TickInv(m, g);
      m := m.(lasttick := m.lasttick + 1);
      g := g.(clock := g.clock.(now := g.clock.now + 1, behind := [true, false, false]));
      g := Log(g, Tick, Abs(m, g));
    }

    /** `chk_timer_tick`: run every tick up to `now`. */
    method RunTo(now: nat)
      requires Valid() && (m.started ==> m.lasttick <= now)
      modifies this
      ensures Valid() && old(g.trace) <= g.trace
      ensures m.lasttick == if old(m.started) then now else old(m.lasttick)
      ensures !old(m.started) ==> unchanged(this)
      ensures forall id :: id in old(m.timers) && old(m.timers)[id].expire <= m.lasttick ==>
                             Served(old(g), g, id, old(m.timers)[id].expire)
    {
      hide OnTime, Step, IsRun, AllOnTime, Linked, ClockOk, Served;
      ghost var m0, g0 := m, g;
      TimersMeanStarted(m, g);
      if !m.started { return; }
      while m.lasttick != now
        invariant Valid() && m.started && m.lasttick <= now && old(g.trace) <= g.trace
        decreases now - m.lasttick
      {
        IncLasttick();
        Fire(0);
      }
      forall id | id in m0.timers && m0.timers[id].expire <= m.lasttick ensures Served(g0, g, id, m0.timers[id].expire) {
        WheelServes(m0, g0, m, g, id);
      }
    }

    /** Destroys the first timer of one list of a closing manager. */
    method DropHead(l: List)
      requires Closing(m, g) && l in m.lists && m.lists[l] != []
      modifies this
      ensures Closing(m, g) && old(g.trace) <= g.trace
      ensures m.lists == old(m.lists)[l := old(m.lists[l])[1..]]
    {
      assert m.lists[l][..0] + m.lists[l][1..] == m.lists[l][1..];
      RemovalInv(m, g, l, 0);
      g := RemovedHistory(m, g, l, 0);
      m := Removed(m, l, 0);
    }

    /** Destroys the timers of one slot, first to last. */
    method ClearSlot(l: List)
      requires Closing(m, g) && l in m.lists
      modifies this
      ensures Closing(m, g) && old(g.trace) <= g.trace
      ensures m.lists == old(m.lists)[l := []]
    {
      hide OnTime, Step, IsRun, AllOnTime, Linked, ClockOk;
      while m.lists[l] != []
        invariant Closing(m, g) && old(g.trace) <= g.trace && l in m.lists
        invariant m.lists == old(m.lists)[l := m.lists[l]]
        decreases |m.lists[l]|
      {
        DropHead(l);
      }
    }

    /** Destroys the timers of one wheel. */
    method ClearWheel(w: nat)
      requires Closing(m, g) && w < 3
      modifies this
      ensures Closing(m, g) && old(g.trace) <= g.trace
      ensures forall l :: l in m.lists && (old(m.lists)[l] == [] || (l.Slot? && l.wheel == w)) ==> m.lists[l] == []
    {
      hide OnTime, Step, IsRun, AllOnTime, ClockOk;
      for j := 0 to WheelSize(w)
        invariant Closing(m, g) && old(g.trace) <= g.trace
        invariant forall l ::
                    l in m.lists && (old(m.lists)[l] == [] || (l.Slot? && l.wheel == w && l.slot < j)) ==> m.lists[l] == []
      {
        ClearSlot(Slot(w, j));
      }
    }

    /** `chk_timermgr_finalize`: destroy whatever is still linked, wheel by wheel. */
    method Finalize()
      requires Valid()
      modifies this
      ensures Closing(m, g) && m.timers == map[]
      ensures old(g.trace) <= g.trace
      ensures forall id :: id in old(m.timers) ==> id in g.cleaned
    {
      ghost var m0, g0 := m, g;
      ExtendRun(g.states, g.trace, Event.Finalize, Abs(m.(closing := true), g));
      g := Log(g, Event.Finalize, Abs(m.(closing := true), g));
      m := m.(closing := true);
      for w := 0 to 3
        invariant Closing(m, g) && old(g.trace) <= g.trace && m.lists[Local] == []
        invariant forall l :: l in m.lists && l.Slot? && l.wheel < w ==> m.lists[l] == []
      {
        ClearWheel(w);
      }
      NothingLinked(m, g);
      forall id | id in m0.timers ensures id in g.cleaned { WheelKeeps(m0, g0, m, g, id); }
    }
  }

  /** A timer that is registered, and left alone or not, is served once the clock has reached its expiry. */
  method RegisterAndRun(t: TimerManager, ms: nat, now: nat, later: nat) returns (id: TimerId)
    requires t.Valid() && now + Clamp(ms) <= later
    requires t.m.started ==> t.m.lasttick < now + Clamp(ms) <= t.m.lasttick + LIMIT
    modifies t
    ensures t.Valid() && t.m.lasttick == later
    ensures
      var delay := if ms == 0 then 1 else if ms <= 86_399_999 then ms else 86_399_999;
      (id, now + delay) in t.g.fired || id in t.g.cleaned
  {
    hide Inv, InCallback;
    id := t.Register(ms, now);
    TimersMeanStarted(t.m, t.g);
    t.RunTo(later);
  }

  lemma TimersMeanStarted(m: Manager, g: History)
    requires Inv(m, g)
    ensures m.timers != map[] ==> m.started
  {
  }

  /** Where `_reg` links a timer: the slot is inside its wheel and comes up in time. */
  method SlotFor(cur: seq<int>, tick: nat, expire: nat, ghost c: Clock) returns (l: List)
    requires ClockOk(c) && !c.behind[0] && c.now == tick && c.cur == cur
    requires tick < expire <= tick + LIMIT
    ensures l.Slot? && IsList(l) && OnTime(c, l, expire)
  {
    hide OnTime, IsList;
    l := ChooseSlot(cur, (expire - tick) % U32);
    PlacementOnTime(c, expire - tick);
  }

  /** The loop of `_reg`: divide the delay down the wheels until one is large enough. */
  method ChooseSlot(cur: seq<int>, delay: nat) returns (l: List)
    requires |cur| == 3 && delay >= 1
    ensures l == Placement(cur, delay)
  {
    var w, remain := 0, delay;
    while true
      invariant 0 <= w < 3
      invariant w == 0 ==> remain == delay
      invariant w == 1 ==> delay > 1000 && remain == (delay - 1) / 1000
      invariant w == 2 ==> delay > 1000 && (delay - 1) / 1000 > 3600 && remain == DayRemain(delay)
      decreases 3 - w
    {
      if w == 2 || WheelSize(w) >= remain {
        return Slot(w, SlotIndex(cur[w], remain, WheelSize(w)));
      } else {
        remain := (remain - 1) / WheelSize(w);
        w := w + 1;
      }
    }
  }
}
