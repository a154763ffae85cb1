/** The reference timer manager: no wheels, no slots.

It keeps the set of live timers with their absolute expiry ticks and replays an
event trace.  An event names what the client did (`Register`, `Unregister`,
`Return`, `Tick`, `Finalize`), which timer's callback was started (`Fire`) or which
timer a closing manager disposed of (`Discard`).
The machine refuses a trace in which a callback starts at any tick other than
the timer's expiry, in which time moves on while a timer is due, or in which a
timer that is gone is used again.
*/
module NaiveTimers {
  import opened Bytes

  const MAX_TIMEOUT: nat := 1000 * 3600 * 24 - 1

  type TimerId = nat

  datatype Timer = Timer(timeout: nat, expire: nat)

  datatype Event =
    | Register(id: TimerId, ms: nat, now: nat)
    | Tick
    | Fire(id: TimerId)
    | Return(ret: int)
    | Unregister(id: TimerId)
    | Finalize
    | Discard(id: TimerId)

  /** `calling` is the timer whose callback is running, `cancelled` whether it was
      unregistered during that callback.  `fired` and `cleaned` log the callbacks
      started (with their tick) and the timers destroyed, in order. */
  datatype State = State(
    started: bool,
    now: nat,
    live: map<TimerId, Timer>,
    calling: Option<TimerId>,
    cancelled: bool,
    closing: bool,
    fired: seq<(TimerId, nat)>,
    cleaned: seq<TimerId>)

  const Initial: State := State(false, 0, map[], None, false, false, [], [])

  function Clamp(ms: nat): (t: nat)
    ensures 1 <= t <= MAX_TIMEOUT
    ensures ms == 0 ==> t == 1
    ensures 1 <= ms <= 86_399_999 ==> t == ms
    ensures ms > 86_399_999 ==> t == 86_399_999
  {
    if ms > MAX_TIMEOUT then MAX_TIMEOUT else if ms > 0 then ms else 1
  }

  ghost function Step(s: State, e: Event): (r: Option<State>) {
    match e
    case Register(id, ms, now) =>
      var t := Timer(Clamp(ms), now + Clamp(ms));
      if id in s.live || id in s.cleaned || s.closing || (s.started && t.expire <= s.now) then None
      else Some(s.(started := true, now := if s.started then s.now else now, live := s.live[id := t]))
    case Tick =>
      if s.started && s.calling.None? && !s.closing && (forall id :: id in s.live ==> s.live[id].expire > s.now)
      then Some(s.(now := s.now + 1))
      else None
    case Fire(id) =>
      if s.calling.None? && !s.closing && id in s.live && s.live[id].expire == s.now
      then Some(s.(calling := Some(id), cancelled := false, fired := s.fired + [(id, s.now)]))
      else None
    case Return(ret) =>
      if s.calling.None? || s.calling.value !in s.live then None
      else
        var id := s.calling.value;
        var done := s.(calling := None, cancelled := false);
        if s.cancelled || ret < 0 then
          Some(done.(live := s.live - {id}, cleaned := s.cleaned + [id]))
        else
          var timeout := if ret > 0 then ret else s.live[id].timeout;
          Some(done.(live := s.live[id := Timer(timeout, s.now + timeout)]))
    case Unregister(id) =>
      if id !in s.live || s.closing || (s.calling == Some(id) && s.cancelled) then None
      else if s.calling == Some(id) then Some(s.(cancelled := true))
      else Some(s.(live := s.live - {id}, cleaned := s.cleaned + [id]))
    case Finalize =>
      if s.calling.Some? || s.closing then None else Some(s.(closing := true))
    case Discard(id) =>
      if id !in s.live || !s.closing then None
      else Some(s.(live := s.live - {id}, cleaned := s.cleaned + [id]))
  }

  /** A run: the states before and after each event of a trace. */
  ghost predicate IsRun(states: seq<State>, trace: seq<Event>) {
    && |states| == |trace| + 1
    && (forall i :: 0 <= i < |trace| ==> Step(states[i], trace[i]) == Some(states[i + 1]))
  }

  lemma ExtendRun(states: seq<State>, trace: seq<Event>, e: Event, s: State)
    requires IsRun(states, trace) && Step(states[|trace|], e) == Some(s)
    ensures IsRun(states + [s], trace + [e])
  {
    var states', trace' := states + [s], trace + [e];
    forall i | 0 <= i < |trace'| ensures Step(states'[i], trace'[i]) == Some(states'[i + 1]) {
      if i < |trace| { assert trace'[i] == trace[i]; }
    }
  }

  /** The events decide the states: a run that goes on from another has its states. */
  lemma {:induction false} RunDetermined(states: seq<State>, trace: seq<Event>, states': seq<State>, trace': seq<Event>,
      i: nat)
    requires IsRun(states, trace) && IsRun(states', trace') && states[0] == states'[0] && trace <= trace' && i <= |trace|
    ensures states[i] == states'[i]
  {
    hide Step;
    if i > 0 {
      RunDetermined(states, trace, states', trace', i - 1);
      assert trace[i - 1] == trace'[i - 1] && Step(states[i - 1], trace[i - 1]) == Some(states[i]);
      assert Step(states'[i - 1], trace'[i - 1]) == Some(states'[i]);
    }
  }

  // ---- Facts about every accepted trace ----

  /** What every reachable state satisfies. */
  ghost predicate Sound(s: State) {
    && Distinct(s.cleaned)
    && (forall id :: id in s.cleaned ==> id !in s.live)
    && (s.calling.Some? ==> s.calling.value in s.live && s.live[s.calling.value].expire == s.now)
    && (forall id :: id in s.live && s.calling != Some(id) ==> s.live[id].expire >= s.now)
    && (s.live != map[] ==> s.started)
    && (s.closing ==> s.calling.None?)
  }

  lemma AppendDistinct(s: seq<TimerId>, t: seq<TimerId>)
    requires Distinct(s) && Distinct(t)
    requires forall id :: id in t ==> id !in s
    ensures Distinct(s + t)
  {
    forall i, j | 0 <= i < j < |s + t| ensures (s + t)[i] != (s + t)[j] {
      if i < |s| && j >= |s| { assert t[j - |s|] in t; assert s[i] in s; }
    }
  }

  lemma StepSound(s: State, e: Event)
    requires Sound(s) && Step(s, e).Some?
    ensures Sound(Step(s, e).value)
  {
    var s' := Step(s, e).value;
    match e
    case Return(ret) =>
      if s.cancelled || ret < 0 { AppendDistinct(s.cleaned, [s.calling.value]); }
    case Unregister(id) =>
      if s.calling != Some(id) { AppendDistinct(s.cleaned, [id]); }
    case Discard(id) => AppendDistinct(s.cleaned, [id]);
    case Finalize =>
    case Register(_, _, _) =>
    case Tick =>
    case Fire(_) =>
  }

  /** Over every run: each timer is destroyed at most once and none that is
      destroyed stays live; no live timer is ever overdue. */
  lemma {:induction false} EveryRunIsSound(states: seq<State>, trace: seq<Event>, i: nat)
    requires IsRun(states, trace) && states[0] == Initial && i < |states|
    ensures Sound(states[i])
  {
    if i > 0 {
      EveryRunIsSound(states, trace, i - 1);
      StepSound(states[i - 1], trace[i - 1]);
    }
  }

  /** Timer `id` is due at `at` and its callback is not running. */
  ghost predicate Waiting(s: State, id: TimerId, at: nat) {
    id in s.live && s.live[id].expire == at && s.calling != Some(id)
  }

  /** Timer `id`, due at `at`, is still waiting, was called at `at` after the first `n` callbacks, or is destroyed. */
  ghost predicate Accounted(s: State, id: TimerId, at: nat, n: nat) {
    || (Waiting(s, id, at) && s.now <= at)
    || (exists k :: n <= k < |s.fired| && s.fired[k] == (id, at))
    || id in s.cleaned
  }

  lemma StepLogsGrow(s: State, e: Event)
    requires Step(s, e).Some?
    ensures s.fired <= Step(s, e).value.fired && s.cleaned <= Step(s, e).value.cleaned
  {
  }

  lemma StepAccounts(s: State, e: Event, id: TimerId, at: nat, n: nat)
    requires Sound(s) && Step(s, e).Some? && n <= |s.fired|
    requires Accounted(s, id, at, n)
    ensures Accounted(Step(s, e).value, id, at, n)
  {
    var s' := Step(s, e).value;
    StepLogsGrow(s, e);
    if id in s.cleaned {
      var k :| 0 <= k < |s.cleaned| && s.cleaned[k] == id;
      assert s'.cleaned[k] == id;
    } else if k :| n <= k < |s.fired| && s.fired[k] == (id, at) {
      assert s'.fired[k] == (id, at);
    } else if e == Fire(id) {
      assert s'.fired[|s.fired|] == (id, at);
    } else if e == Unregister(id) {
      assert s'.cleaned[|s.cleaned|] == id;
    } else if e == Discard(id) {
      assert s'.cleaned[|s.cleaned|] == id;
    }
  }

  /** No timer is lost, early or late: once the clock has passed the expiry `at` of a live timer,
      its callback was started exactly at tick `at`, or the timer was destroyed. */
  lemma {:induction false} NoTimerIsMissed(states: seq<State>, trace: seq<Event>, i: nat, j: nat, id: TimerId, at: nat)
    requires IsRun(states, trace) && states[0] == Initial && i <= j < |states|
    requires Waiting(states[i], id, at)
    ensures
      var n := |states[i].fired|;
      && n <= |states[j].fired|
      && Accounted(states[j], id, at, n)
      && (states[j].now > at ==>
            id in states[j].cleaned || exists k :: n <= k < |states[j].fired| && states[j].fired[k] == (id, at))
    decreases j
  {
    hide Sound, Step;
    EveryRunIsSound(states, trace, j);
    if i < j {
      hide Accounted;
      NoTimerIsMissed(states, trace, i, j - 1, id, at);
      EveryRunIsSound(states, trace, j - 1);
      StepLogsGrow(states[j - 1], trace[j - 1]);
      StepAccounts(states[j - 1], trace[j - 1], id, at, |states[i].fired|);
    }
  }

  /** A destroyed timer's callback is never started again. */
  lemma {:induction false} NeverFiredAfterCleaning(states: seq<State>, trace: seq<Event>, i: nat, j: nat, id: TimerId)
    requires IsRun(states, trace) && states[0] == Initial && i <= j < |states|
    requires id in states[i].cleaned
    ensures
      && id in states[j].cleaned && |states[i].fired| <= |states[j].fired|
      && (forall k :: |states[i].fired| <= k < |states[j].fired| ==> states[j].fired[k].0 != id)
    decreases j
  {
    hide Step, Sound;
    if i < j {
      NeverFiredAfterCleaning(states, trace, i, j - 1, id);
      EveryRunIsSound(states, trace, j - 1);
      assert Step(states[j - 1], trace[j - 1]) == Some(states[j]);
      StepStaysQuiet(states[j - 1], trace[j - 1], id);
    }
  }

  lemma StepStaysQuiet(s: State, e: Event, id: TimerId)
    requires Sound(s) && Step(s, e).Some? && id in s.cleaned
    ensures
      var s' := Step(s, e).value;
      id in s'.cleaned && (s'.fired == s.fired || exists x :: s'.fired == s.fired + [x] && x.0 != id)
  {
    StepLogsGrow(s, e);
    var k :| 0 <= k < |s.cleaned| && s.cleaned[k] == id;
    assert Step(s, e).value.cleaned[k] == id;
    if e.Fire? { assert Step(s, e).value.fired == s.fired + [(e.id, s.now)]; }
  }

  /** What a callback's return means for its timer: gone if it was unregistered meanwhile or the value is negative,
      due again after the value if that is positive, and after its old timeout if it is zero. */
  lemma ReturnDecides(states: seq<State>, trace: seq<Event>, i: nat)
    requires IsRun(states, trace) && i < |trace| && trace[i].Return?
    ensures states[i].calling.Some? && states[i].calling.value in states[i].live
    ensures
      var s, s', ret := states[i], states[i + 1], trace[i].ret;
      var id := s.calling.value;
      && s'.calling.None? && s'.now == s.now && s'.fired == s.fired
      && (forall x :: x != id ==> (x in s'.live <==> x in s.live) && (x in s.live ==> s'.live[x] == s.live[x]))
      && (s.cancelled || ret < 0 ==> id !in s'.live && s'.cleaned == s.cleaned + [id])
      && (!s.cancelled && ret > 0 ==> id in s'.live && s'.live[id] == Timer(ret, s.now + ret))
      && (!s.cancelled && ret == 0 ==>
            id in s'.live && s'.live[id] == Timer(s.live[id].timeout, s.now + s.live[id].timeout))
  {
    assert Step(states[i], trace[i]) == Some(states[i + 1]);
  }

  /** Timer `id` is destroyed, or will be when its running callback returns. */
  ghost predicate Doomed(s: State, id: TimerId) {
    id in s.cleaned || (s.calling == Some(id) && s.cancelled)
  }

  lemma StepDoomed(s: State, e: Event, id: TimerId)
    requires Sound(s) && Step(s, e).Some? && (Doomed(s, id) || e == Unregister(id))
    ensures Doomed(Step(s, e).value, id) && (Doomed(s, id) ==> e != Fire(id))
  {
    StepLogsGrow(s, e);
    var s' := Step(s, e).value;
    if id in s.cleaned {
      var k :| 0 <= k < |s.cleaned| && s.cleaned[k] == id;
      assert s'.cleaned[k] == id;
    } else if e.Return? || e == Unregister(id) {
      assert id in s'.cleaned || s'.calling == Some(id);
    }
  }

  lemma {:induction false} StaysDoomed(states: seq<State>, trace: seq<Event>, i: nat, j: nat, id: TimerId)
    requires IsRun(states, trace) && states[0] == Initial && i <= j < |states| && Doomed(states[i], id)
    ensures Doomed(states[j], id) && (j < |trace| ==> trace[j] != Fire(id))
    decreases j
  {
    hide Step, Sound, Doomed;
    if i < j {
      StaysDoomed(states, trace, i, j - 1, id);
      EveryRunIsSound(states, trace, j - 1);
      assert Step(states[j - 1], trace[j - 1]) == Some(states[j]);
      StepDoomed(states[j - 1], trace[j - 1], id);
    }
    EveryRunIsSound(states, trace, j);
    if j < |trace| {
      assert Step(states[j], trace[j]) == Some(states[j + 1]);
      StepDoomed(states[j], trace[j], id);
    }
  }

  /** Unregistering is final: the timer's callback is never started again, and the timer is destroyed at once or, if its
      callback is running, as soon as that has returned. */
  lemma UnregisterIsFinal(states: seq<State>, trace: seq<Event>, i: nat, j: nat, id: TimerId)
    requires IsRun(states, trace) && states[0] == Initial && i < j < |states| && trace[i] == Unregister(id)
    ensures j < |trace| ==> trace[j] != Fire(id)
    ensures states[j].calling != Some(id) ==> id in states[j].cleaned
    ensures id in states[j].cleaned ==> id !in states[j].live
  {
    hide Step;
    EveryRunIsSound(states, trace, i);
    assert Step(states[i], trace[i]) == Some(states[i + 1]);
    StepDoomed(states[i], trace[i], id);
    StaysDoomed(states, trace, i + 1, j, id);
    EveryRunIsSound(states, trace, j);
  }

  /** No timer disappears: one that was live is live or has been destroyed. */
  lemma {:induction false} NeverDropped(states: seq<State>, trace: seq<Event>, i: nat, j: nat, id: TimerId)
    requires IsRun(states, trace) && i <= j < |states| && (id in states[i].live || id in states[i].cleaned)
    ensures id in states[j].live || id in states[j].cleaned
    decreases j
  {
    if i < j {
      NeverDropped(states, trace, i, j - 1, id);
      var s, s' := states[j - 1], states[j];
      assert Step(s, trace[j - 1]) == Some(s');
      StepLogsGrow(s, trace[j - 1]);
      if id in s.cleaned {
        var k :| 0 <= k < |s.cleaned| && s.cleaned[k] == id;
        assert s'.cleaned[k] == id;
      } else if id !in s'.live {
        assert s'.cleaned[|s.cleaned|] == id;
      }
    }
  }

  /** Every callback is started at its timer's expiry tick. */
  lemma FiredExactlyAtExpiry(states: seq<State>, trace: seq<Event>, i: nat)
    requires IsRun(states, trace) && i < |trace| && trace[i].Fire?
    ensures trace[i].id in states[i].live && states[i].live[trace[i].id].expire == states[i].now
    ensures states[i + 1].fired == states[i].fired + [(trace[i].id, states[i].now)]
  {
    assert Step(states[i], trace[i]) == Some(states[i + 1]);
  }
}
