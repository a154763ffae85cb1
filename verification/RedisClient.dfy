/** Request and reply pairing of src/redis/chk_client.c.

Requests are numbered in the order their commands were queued on the socket, and
the server answers in that order.  `Ok` says which requests have been settled and
which are still waiting, so that the next reply can only belong to the request with
the same number.
*/
module RedisClient {
  import opened Bytes
  import opened Resp
  import opened RespCodec
  import opened RedisStream
  import SendPath

  const TIMEOUT: nat := 10 * 1000

  /** `pending_reply`; the number of the request stands for the user data. */
  datatype Pending = Pending(id: nat, hasCb: bool, deadline: nat)

  /** `tree` is the parser's node, `Fresh` when there is none; `now` is the time of the last call. */
  datatype Client = Client(
    closing: bool, inCb: bool, tree: Node, waiting: seq<Pending>, timeoutCount: nat, nextId: nat,
    now: nat, destroyed: bool)

  datatype Outcome = Answer(value: Value) | TimedOut | Lost

  /** For each request whether it has a callback; the replies received; the callbacks run; the number of
      requests no longer waiting. */
  datatype History = History(
    wants: seq<bool>, received: seq<Value>, called: seq<(nat, Outcome)>, settled: nat)

  ghost predicate WasCalled(called: seq<(nat, Outcome)>, id: nat) {
    exists k :: 0 <= k < |called| && called[k].0 == id
  }

  /** Exactly the first `settled` requests have been called back, each once, and an answer is the reply with
      the request's own number. */
  ghost predicate CalledOk(g: History) {
    && g.settled <= |g.wants|
    && (forall k :: 0 <= k < |g.called| ==> g.called[k].0 < g.settled && g.wants[g.called[k].0])
    && (forall j, k :: 0 <= j < k < |g.called| ==> g.called[j].0 != g.called[k].0)
    && (forall id :: 0 <= id < g.settled && g.wants[id] ==> WasCalled(g.called, id))
    && (forall k :: 0 <= k < |g.called| && g.called[k].1.Answer? ==>
          g.called[k].0 < |g.received| && g.received[g.called[k].0] == g.called[k].1.value)
  }

  ghost predicate WaitingOk(waiting: seq<Pending>, now: nat, g: History) {
    && g.settled + |waiting| == |g.wants|
    && (forall i :: 0 <= i < |waiting| ==>
          && waiting[i].id == g.settled + i && waiting[i].hasCb == g.wants[g.settled + i]
          && waiting[i].deadline <= now + TIMEOUT)
    && (forall i, j :: 0 <= i < j < |waiting| ==> waiting[i].deadline <= waiting[j].deadline)
  }

  ghost predicate Ok(c: Client, g: History) {
    && CalledOk(g) && WaitingOk(c.waiting, c.now, g) && c.nextId == |g.wants| && Live(c.tree)
    && (!c.destroyed ==> |g.received| + c.timeoutCount == g.settled)
  }

  /** The accounting the client lives by: replies, timeouts still to be answered and waiting requests
      add up to the requests sent. A reply finds somebody it is meant for exactly when not all requests are answered. */
  lemma Accounting(c: Client, g: History)
    requires Ok(c, g) && !c.destroyed
    ensures |g.received| + c.timeoutCount + |c.waiting| == |g.wants|
    ensures c.timeoutCount > 0 || c.waiting != [] <==> |g.received| < |g.wants|
    ensures |g.received| < |g.wants| && c.timeoutCount == 0 ==> c.waiting != [] && c.waiting[0].id == |g.received|
  {
  }

  // ---- Settling the next request ----

  ghost function Settled(g: History, o: Outcome): (g': History)
    requires g.settled < |g.wants|
  {
    g.(settled := g.settled + 1, called := if g.wants[g.settled] then g.called + [(g.settled, o)] else g.called)
  }

  lemma StillCalled(called: seq<(nat, Outcome)>, x: (nat, Outcome), id: nat)
    ensures WasCalled(called + [x], id) <==> WasCalled(called, id) || id == x.0
  {
    if WasCalled(called, id) {
      var k :| 0 <= k < |called| && called[k].0 == id;
      assert (called + [x])[k].0 == id;
    }
    assert (called + [x])[|called|] == x;
  }

  lemma SettleCalledOk(g: History, o: Outcome)
    requires CalledOk(g) && g.settled < |g.wants|
    requires o.Answer? ==> g.settled < |g.received| && g.received[g.settled] == o.value
    ensures CalledOk(Settled(g, o))
  {
    hide WasCalled;
    var g' := Settled(g, o);
    forall id | 0 <= id < g'.settled && g'.wants[id] ensures WasCalled(g'.called, id) {
      StillCalled(g.called, (g.settled, o), id);
    }
  }

  lemma SettleWaitingOk(waiting: seq<Pending>, now: nat, g: History, o: Outcome)
    requires WaitingOk(waiting, now, g) && waiting != []
    ensures WaitingOk(waiting[1..], now, Settled(g, o))
  {
  }

  lemma ReceiveCalledOk(g: History, v: Value)
    requires CalledOk(g)
    ensures CalledOk(g.(received := g.received + [v]))
  {
  }

  // ---- Sending ----

  /** `_chk_redis_execute` when the send call returned 0. */
  function Executed(c: Client, hasCb: bool, now: nat): (c': Client) {
    c.(waiting := c.waiting + [Pending(c.nextId, hasCb, now + TIMEOUT)], nextId := c.nextId + 1, now := now)
  }

  /** The command was queued for the server. */
  ghost function Sent(g: History, hasCb: bool): (g': History) {
    g.(wants := g.wants + [hasCb])
  }

  lemma SentCalledOk(g: History, hasCb: bool)
    requires CalledOk(g)
    ensures CalledOk(Sent(g, hasCb))
  {
    var g' := Sent(g, hasCb);
    forall id | 0 <= id < g'.settled && g'.wants[id] ensures WasCalled(g'.called, id) {
      assert g.wants[id];
    }
  }

  lemma ExecuteOk(c: Client, g: History, hasCb: bool, now: nat)
    requires Ok(c, g) && c.now <= now
    ensures Ok(Executed(c, hasCb, now), Sent(g, hasCb))
  {
    SentCalledOk(g, hasCb);
  }

  /** The client after `_chk_redis_execute`: a command that the server will answer has a number, but waits for its reply
      only if the send call returned 0. */
  function AfterExecute(c: Client, hasCb: bool, now: nat, answered: bool, zero: bool): (c': Client) {
    if zero then Executed(c, hasCb, now) else if answered then c.(nextId := c.nextId + 1, now := now) else c
  }

  /** A command is answered if it was queued on a socket that is still open after the send call; on one that is not,
      nothing is sent or received any more. */
  ghost predicate Answered(s: SendPath.Socket, b: SendPath.Buffer, urgent: bool, k: SendPath.Answer)
    requires SendPath.Sendable(s, b)
  {
    SendPath.Accepts(s, b, false) && SendPath.StaysOpen(s, b, urgent, k)
  }

  ghost function AfterSend(c: Client, hasCb: bool, now: nat, s: SendPath.Socket, b: SendPath.Buffer, urgent: bool,
      k: SendPath.Answer): (c': Client)
    requires SendPath.Sendable(s, b)
  {
    AfterExecute(c, hasCb, now, Answered(s, b, urgent, k), SendPath.SendCode(s, b, false, urgent, k).Ok?)
  }

  /** The pairing survives a command sent over socket `s`. */
  ghost predicate SurvivesSend(c: Client, g: History, hasCb: bool, now: nat, s: SendPath.Socket, b: SendPath.Buffer,
      urgent: bool, k: SendPath.Answer)
    requires SendPath.Sendable(s, b)
  {
    Ok(AfterSend(c, hasCb, now, s, b, urgent, k), if Answered(s, b, urgent, k) then Sent(g, hasCb) else g)
  }

  lemma SurvivesUnless(c: Client, g: History, hasCb: bool, now: nat, s: SendPath.Socket, b: SendPath.Buffer,
      urgent: bool, k: SendPath.Answer)
    requires Ok(c, g) && c.now <= now && SendPath.Sendable(s, b)
    ensures SurvivesSend(c, g, hasCb, now, s, b, urgent, k) <==>
            !(Answered(s, b, urgent, k) && !SendPath.SendCode(s, b, false, urgent, k).Ok?)
  {
    hide Ok, SendPath.Sendable;
    ExecuteOk(c, g, hasCb, now);
    LateErrorBreaks(c, g, hasCb, now);
    if SendPath.SendCode(s, b, false, urgent, k).Ok? { SendPath.OkStaysOpen(s, b, urgent, k); }
  }

  /** The pairing survives a send, whatever the kernel does, exactly when the socket refuses the command, does not try to
      write at once, or can neither empty the command's queue in that write nor have too many bytes pending after it. */
  lemma PairingSurvivesIff(c: Client, g: History, hasCb: bool, now: nat, s: SendPath.Socket, b: SendPath.Buffer,
      urgent: bool)
    requires Ok(c, g) && c.now <= now
    requires SendPath.Sendable(s, b) && SendPath.CountOk(s) && s.highWaterMark < U32
    ensures (forall k :: SurvivesSend(c, g, hasCb, now, s, b, urgent, k)) <==>
            !(SendPath.Accepts(s, b, false) && SendPath.Tries(s, b) &&
              (SendPath.CanEmpty(s, b, urgent) || SendPath.CanExceed(s, b, urgent)))
  {
    hide Ok, SurvivesSend, SendPath.Sendable, SendPath.CountOk, SendPath.SendCode, SendPath.StaysOpen;
    hide SendPath.CanEmpty, SendPath.CanExceed;
    forall k ensures SurvivesSend(c, g, hasCb, now, s, b, urgent, k) <==>
                     !(Answered(s, b, urgent, k) && !SendPath.SendCode(s, b, false, urgent, k).Ok?)
    {
      SurvivesUnless(c, g, hasCb, now, s, b, urgent, k);
    }
    if SendPath.Accepts(s, b, false) { SendPath.LateErrorIff(s, b, urgent); }
  }

  lemma LateErrorBreaks(c: Client, g: History, hasCb: bool, now: nat)
    requires Ok(c, g)
    ensures !Ok(AfterExecute(c, hasCb, now, true, false), Sent(g, hasCb))
  {
  }

  // ---- Replies, timeouts, disconnection ----

  /** A reply at the client: dropped if a request has timed out before, otherwise it goes to the oldest waiting request,
      whose callback is the second result. */
  function Receive(c: Client, v: Value): (r: (Client, Called))
    requires c.timeoutCount > 0 || c.waiting != []
  {
    if c.timeoutCount > 0 then (c.(timeoutCount := c.timeoutCount - 1), NotCalled)
    else (c.(waiting := c.waiting[1..]), if c.waiting[0].hasCb then CallBack(c.waiting[0].id, Answer(v)) else NotCalled)
  }

  datatype Called = NotCalled | CallBack(id: nat, outcome: Outcome)

  /** Some replies have been taken, whatever they were. */
  ghost function AfterReplies(c: Client, vs: seq<Value>): (c': Client)
    requires c.timeoutCount + |c.waiting| >= |vs|
    decreases |vs|
  {
    if vs == [] then c else AfterReplies(Receive(c, vs[0]).0, vs[1..])
  }

  lemma {:induction false} AfterAllReplies(c: Client, vs: seq<Value>, last: Pending)
    requires c.timeoutCount + |c.waiting| == |vs| + 1 && c.waiting != [] && c.waiting[|c.waiting| - 1] == last
    ensures AfterReplies(c, vs) == c.(timeoutCount := 0, waiting := [last])
    decreases |vs|
  {
    if vs != [] { AfterAllReplies(Receive(c, vs[0]).0, vs[1..], last); }
  }

  /** A late error shifts the replies: from any state, after a command the socket accepted with an error code and stayed
      open, and one it accepted without, the replies `vs` to all earlier requests are followed by reply number N, the
      answer to the first command, reaching the callback of request N + 1. */
  lemma LateErrorShiftsReplies(c: Client, g: History, now: nat, hasCb: bool, vs: seq<Value>, v: Value,
      s: SendPath.Socket, b: SendPath.Buffer, k: SendPath.Answer, s1: SendPath.Socket, b1: SendPath.Buffer,
      k1: SendPath.Answer)
    requires Ok(c, g) && !c.destroyed && |g.received| + |vs| == |g.wants|
    requires SendPath.Sendable(s, b) && Answered(s, b, false, k) && !SendPath.SendCode(s, b, false, false, k).Ok?
    requires SendPath.AfterSend(s, b, false, k, s1)
    requires SendPath.Sendable(s1, b1) && SendPath.SendCode(s1, b1, false, false, k1).Ok?
    ensures
      var n := |g.wants|;
      var c1 := AfterSend(AfterSend(c, hasCb, now, s, b, false, k), true, now, s1, b1, false, k1);
      && c1.timeoutCount + |c1.waiting| == |vs| + 1
      && AfterReplies(c1, vs).timeoutCount == 0 && AfterReplies(c1, vs).waiting != []
      && Receive(AfterReplies(c1, vs), v).1 == CallBack(n + 1, Answer(v))
  {
    hide CalledOk, SendPath.Sendable, SendPath.SendCode, SendPath.StaysOpen, SendPath.AfterSend, Answered;
    var c1 := AfterSend(AfterSend(c, hasCb, now, s, b, false, k), true, now, s1, b1, false, k1);
    AfterAllReplies(c1, vs, c1.waiting[|c1.waiting| - 1]);
  }

  /** So it happens to every client whose socket is idle: a command of 64 KiB that the kernel takes at once is enough. */
  lemma CompleteWriteShiftsReplies(c: Client, g: History, now: nat, hasCb: bool, vs: seq<Value>, v: Value,
      s: SendPath.Socket, command: seq<Byte>, most: nat, next: seq<Byte>, k: SendPath.Answer)
    requires Ok(c, g) && !c.destroyed && |g.received| + |vs| == |g.wants|
    requires SendPath.Idle(s) && !s.rclose && !s.wclose && !s.closed && s.inLoop && !s.noDelay
    requires |command| == 65_536 <= most && 0 < |next| < 65_536
    ensures
      var n, s1 := |g.wants|, s.(sendingUrgent := false);
      var b, b1 := SendPath.OneChunk(command), SendPath.OneChunk(next);
      && SendPath.Sendable(s, b) && SendPath.Sendable(s1, b1)
      && var c1 := AfterSend(AfterSend(c, hasCb, now, s, b, false, SendPath.Takes(most)), true, now, s1, b1, false, k);
      && c1.timeoutCount + |c1.waiting| == |vs| + 1
      && AfterReplies(c1, vs).timeoutCount == 0 && AfterReplies(c1, vs).waiting != []
      && Receive(AfterReplies(c1, vs), v).1 == CallBack(n + 1, Answer(v))
  {
    hide Ok, SendPath.BufferOk, SendPath.StaysOpen, SendPath.AfterSend, AfterSend, SendPath.LateCode, AfterReplies, Receive;
    var s1, b, b1 := s.(sendingUrgent := false), SendPath.OneChunk(command), SendPath.OneChunk(next);
    SendPath.OneChunkOk(command);
    SendPath.OneChunkOk(next);
    SendPath.IdleLateError(s, command, most, s1);
    LateErrorShiftsReplies(c, g, now, hasCb, vs, v, s, b, SendPath.Takes(most), s1, b1, k);
  }

  /** The shift as it comes about on a new connection: the first command, 64 KiB long, is written completely and reported
      as failed; the reply to it goes to the callback of the second. */
  method ShiftedReply(command: seq<Byte>, next: seq<Byte>, most: nat, k: SendPath.Answer, v: Value)
    returns (first: SendPath.Code, second: SendPath.Code, call: Called)
    requires |command| == 65_536 <= most && 0 < |next| < 65_536
    ensures first == SendPath.StreamWriteError && second == SendPath.Ok && call == CallBack(1, Answer(v))
  {
    var sender: SendPath.Sender;
    sender, first, second := SendPath.LateError(command, next, most, k);
    var c := Client(false, false, Fresh, [], 0, 0, 0, false);
    c := AfterExecute(c, true, 0, true, first.Ok?);
    c := AfterExecute(c, true, 0, true, second.Ok?);
    call := Receive(c, v).1;
  }

  /** The reply to a request that has timed out is dropped. */
  lemma SkipOk(c: Client, g: History, v: Value)
    requires Ok(c, g) && c.timeoutCount > 0 && !c.destroyed
    ensures Ok(c.(timeoutCount := c.timeoutCount - 1), g.(received := g.received + [v]))
  {
    hide WasCalled;
    ReceiveCalledOk(g, v);
  }

  /** With no timeouts outstanding, a reply goes to the oldest waiting request, which has its number. */
  lemma AnswerOk(c: Client, g: History, v: Value)
    requires Ok(c, g) && c.timeoutCount == 0 && !c.destroyed && c.waiting != []
    ensures c.waiting[0].id == |g.received| == g.settled < |g.wants| && c.waiting[0].hasCb == g.wants[g.settled]
    ensures Ok(c.(waiting := c.waiting[1..]), Settled(g.(received := g.received + [v]), Answer(v)))
  {
    var g1 := g.(received := g.received + [v]);
    ReceiveCalledOk(g, v);
    assert g1.received[g1.settled] == v;
    SettleCalledOk(g1, Answer(v));
    SettleWaitingOk(c.waiting, c.now, g1, Answer(v));
  }

  lemma ExpireOk(c: Client, g: History)
    requires Ok(c, g) && !c.destroyed && c.waiting != []
    ensures g.settled < |g.wants| && c.waiting[0].hasCb == g.wants[g.settled] && c.waiting[0].id == g.settled
    ensures Ok(c.(waiting := c.waiting[1..], timeoutCount := c.timeoutCount + 1), Settled(g, TimedOut))
  {
    SettleCalledOk(g, TimedOut);
    SettleWaitingOk(c.waiting, c.now, g, TimedOut);
  }

  lemma LoseOk(c: Client, g: History)
    requires Ok(c, g) && c.destroyed && c.waiting != []
    ensures g.settled < |g.wants| && c.waiting[0].hasCb == g.wants[g.settled] && c.waiting[0].id == g.settled
    ensures Ok(c.(waiting := c.waiting[1..]), Settled(g, Lost))
  {
    SettleCalledOk(g, Lost);
    SettleWaitingOk(c.waiting, c.now, g, Lost);
  }

  lemma FlagsOk(c: Client, g: History, c': Client)
    requires Ok(c, g) && Live(c'.tree) && (c.destroyed ==> c'.destroyed) && c.now <= c'.now
    requires c' == c.(closing := c'.closing, inCb := c'.inCb, tree := c'.tree, now := c'.now, destroyed := c'.destroyed)
    ensures Ok(c', g)
  {
  }

  /** Nobody is forgotten and nobody is called twice: of a client that is gone, every request that had a
      callback was called back exactly once, with its own reply if with any. */
  lemma EveryCallbackOnce(c: Client, g: History, id: nat)
    requires Ok(c, g) && c.destroyed && c.waiting == [] && id < |g.wants|
    ensures g.wants[id] <==> WasCalled(g.called, id)
    ensures forall j, k :: 0 <= j < |g.called| && 0 <= k < |g.called| && g.called[j].0 == id == g.called[k].0 ==> j == k
    ensures forall k :: 0 <= k < |g.called| && g.called[k].0 == id && g.called[k].1.Answer? ==>
                          id < |g.received| && g.called[k].1.value == g.received[id]
  {
  }

  /** Time, tree and flags aside, how a client may go on: requests are added, settled and answered in order. */
  ghost predicate GoesOn(g: History, g': History) {
    && g.wants <= g'.wants && g.received <= g'.received && g.called <= g'.called && g.settled <= g'.settled
  }

  /** What a callback may change: only new requests and the request to close. */
  ghost predicate CallbackEffect(c: Client, g: History, c': Client, g': History) {
    && c' == c.(closing := c'.closing, waiting := c'.waiting, nextId := c'.nextId, now := c'.now)
    && c.waiting <= c'.waiting && (c.closing ==> c'.closing) && c.now <= c'.now
    && g' == g.(wants := g'.wants) && g.wants <= g'.wants
    && (forall i :: |c.waiting| <= i < |c'.waiting| ==> c'.waiting[i].deadline >= c.now + TIMEOUT)
  }

  /** What those of `ps` that have a callback are told, in order. */
  ghost function Told(ps: seq<Pending>, o: Outcome): (calls: seq<(nat, Outcome)>) {
    if ps == [] then []
    else
      var last := ps[|ps| - 1];
      Told(ps[..|ps| - 1], o) + (if last.hasCb then [(last.id, o)] else [])
  }

  lemma ToldNext(ps: seq<Pending>, n: nat, o: Outcome)
    requires n < |ps|
    ensures Told(ps[..n + 1], o) == Told(ps[..n], o) + (if ps[n].hasCb then [(ps[n].id, o)] else [])
  {
    assert ps[..n + 1][..n] == ps[..n];
  }

  /** The calls in `called` behind the first `from` all say that the connection is lost. */
  ghost predicate OnlyLostSince(called: seq<(nat, Outcome)>, from: nat) {
    forall k :: from <= k < |called| ==> called[k].1.Lost?
  }

  /** The first `n` of those who waited when the client was destroyed have been told, and then later ones. */
  ghost predicate Losing(w: seq<Pending>, n: nat, before: seq<(nat, Outcome)>, called: seq<(nat, Outcome)>) {
    && n <= |w| && OnlyLostSince(called, |before|)
    && if n < |w| then called == before + Told(w[..n], Lost) else before + Told(w, Lost) <= called
  }

  lemma LosingNext(w: seq<Pending>, n: nat, before: seq<(nat, Outcome)>, called: seq<(nat, Outcome)>, p: Pending)
    requires Losing(w, n, before, called) && (n < |w| ==> p == w[n])
    ensures Losing(w, Min(n + 1, |w|), before, if p.hasCb then called + [(p.id, Lost)] else called)
  {
    hide Told;
    if n < |w| { ToldNext(w, n, Lost); }
    assert w[..|w|] == w;
  }

  /** Nobody was told anything but a reply. */
  ghost predicate AllAnswers(g: History) {
    forall k :: 0 <= k < |g.called| ==> g.called[k].1.Answer?
  }

  class RedisClient {
    var c: Client
    ghost var g: History

    ghost predicate Valid()
      reads this
    {
      Ok(c, g) && !c.inCb && !c.closing && !c.destroyed
    }

    /** The client is gone; every request with a callback was called back exactly once. */
    ghost predicate Gone()
      reads this
    {
      Ok(c, g) && c.destroyed && c.waiting == []
    }

    constructor ()
      ensures Valid() && c == Client(false, false, Fresh, [], 0, 0, 0, false) && g == History([], [], [], 0)
    {
      c := Client(false, false, Fresh, [], 0, 0, 0, false);
      g := History([], [], [], 0);
    }

    /** `_chk_redis_execute`; `answered` says whether the server gets the command and its reply can come back, `zero`
        whether the send call returned 0. */
    method Execute(hasCb: bool, now: nat, answered: bool, zero: bool) returns (ok: bool)
      requires Ok(c, g) && c.now <= now && (zero ==> answered)
      modifies this
      ensures ok == zero && c == AfterExecute(old(c), hasCb, now, answered, zero)
      ensures c.waiting == if zero then old(c.waiting) + [Pending(old(c.nextId), hasCb, now + 10_000)] else old(c.waiting)
      ensures g == if answered then Sent(old(g), hasCb) else old(g)
      ensures Ok(c, g) <==> answered == zero
    {
      hide Ok;
      ExecuteOk(c, g, hasCb, now);
      LateErrorBreaks(c, g, hasCb, now);
      if answered { g := Sent(g, hasCb); }
      if !zero {
        if answered { c := c.(nextId := c.nextId + 1, now := now); }
        return false;
      }
      c := Executed(c, hasCb, now);
      ok := true;
    }

    /** Any callback given to the client: it may send requests and may ask to close. */
    method Callback()
      requires Ok(c, g)
      modifies this
      ensures Ok(c, g) && CallbackEffect(old(c), old(g), c, g)
    {
      hide CalledOk, WaitingOk;
      var n: nat := *;
      while n > 0
        invariant Ok(c, g) && CallbackEffect(old(c), old(g), c, g)
      {
        if * {
          var hasCb: bool, later: nat := *, *;
          var _ := Execute(hasCb, c.now + later, true, true);
        } else {
          c := c.(closing := true);
        }
        n := n - 1;
      }
    }

    /** The callback of a request, if it has one, with the flag that defers closing. */
    method RunCallback(hasCb: bool)
      requires Ok(c, g) && !c.inCb
      modifies this
      ensures Ok(c, g) && CallbackEffect(old(c), old(g), c, g) && (!hasCb ==> c == old(c) && g == old(g))
    {
      hide CalledOk, WaitingOk;
      if hasCb {
        c := c.(inCb := true);
        Callback();
        c := c.(inCb := false);
      }
    }

    /** Sends at most `budget` requests, as a callback run by `destroy_redisclient` may. */
    method LastWords(budget: nat) returns (left: nat)
      requires Ok(c, g) && c.destroyed
      modifies this
      ensures Ok(c, g) && c == old(c).(waiting := c.waiting, nextId := c.nextId, now := c.now)
      ensures left <= budget && |c.waiting| == |old(c.waiting)| + (budget - left)
      ensures g == old(g).(wants := g.wants) && GoesOn(old(g), g) && old(c.waiting) <= c.waiting
    {
      hide CalledOk, WaitingOk;
      left := budget;
      while left > 0
        invariant Ok(c, g) && c == old(c).(waiting := c.waiting, nextId := c.nextId, now := c.now)
        invariant left <= budget && |c.waiting| == |old(c.waiting)| + (budget - left)
        invariant g == old(g).(wants := g.wants) && GoesOn(old(g), g) && old(c.waiting) <= c.waiting
      {
        if * { break; }
        var hasCb: bool, later: nat := *, *;
        var _ := Execute(hasCb, c.now + later, true, true);
        left := left - 1;
      }
    }

    /** The oldest waiting request of a client that is gone is told so; its callback may send more. */
    method LoseOne(budget: nat, ghost w: seq<Pending>, ghost n: nat, ghost before: seq<(nat, Outcome)>) returns (left: nat)
      requires Ok(c, g) && c.destroyed && c.waiting != [] && Losing(w, n, before, g.called)
      requires n <= |w| && w[n..] <= c.waiting
      modifies this
      ensures Ok(c, g) && c.destroyed && GoesOn(old(g), g) && g.received == old(g.received)
      ensures Losing(w, Min(n + 1, |w|), before, g.called) && w[Min(n + 1, |w|)..] <= c.waiting
      ensures left < budget || (left == budget && |c.waiting| < |old(c.waiting)|)
    {
      hide CalledOk, WaitingOk, Told, Losing;
      left := budget;
      var p := c.waiting[0];
      LoseOk(c, g);
      assert n < |w| ==> p == w[n];
      LosingNext(w, n, before, g.called, p);
      c, g := c.(waiting := c.waiting[1..]), Settled(g, Lost);
      if p.hasCb { left := LastWords(left); }
    }

    /** `destroy_redisclient`: whoever still waits is told that the connection is lost. Its callbacks may send
        further requests, which are told so too; `budget` bounds how many. */
    method Destroy(budget: nat)
      requires Ok(c, g) && !c.inCb && c.closing && !c.destroyed
      modifies this
      ensures Gone() && GoesOn(old(g), g) && g.received == old(g.received)
      ensures old(g.called) + Told(old(c.waiting), Lost) <= g.called && OnlyLostSince(g.called, |old(g.called)|)
    {
      hide CalledOk, WaitingOk, Told, Losing, OnlyLostSince, GoesOn;
      ghost var g0 := g;
      GoesSelf(g);
      FlagsOk(c, g, c.(destroyed := true));
      c := c.(destroyed := true);
      var left := budget;
      ghost var n: nat := 0;
      ghost var w := c.waiting;
      LosingStarts(w, g.called);
      while c.waiting != []
        invariant Ok(c, g) && c.destroyed && GoesOn(old(g), g) && g.received == old(g.received) && left >= 0
        invariant n <= |w| && w[n..] <= c.waiting && Losing(w, n, old(g.called), g.called)
        decreases left, |c.waiting|
      {
        ghost var g1 := g;
        left := LoseOne(left, w, n, g0.called);
        GoesTrans(g0, g1, g);
        n := Min(n + 1, |w|);
      }
      LosingEnds(w, n, old(g.called), g.called);
    }

    /** `chk_redis_close` from outside a callback. */
    method Close(budget: nat)
      requires Valid()
      modifies this
      ensures Gone() && GoesOn(old(g), g) && g.received == old(g.received)
      ensures old(g.called) + Told(old(c.waiting), Lost) <= g.called && OnlyLostSince(g.called, |old(g.called)|)
    {
      hide CalledOk, WaitingOk;
      FlagsOk(c, g, c.(closing := true));
      c := c.(closing := true);
      Destroy(budget);
    }

    /** One turn of `timeout_cb`: the oldest request has expired. */
    method Expire()
      requires Valid() && c.waiting != []
      modifies this
      ensures Ok(c, g) && !c.inCb && !c.destroyed && GoesOn(old(g), g) && g.received == old(g.received)
      ensures c == old(c).(closing := c.closing, waiting := c.waiting, nextId := c.nextId, now := c.now,
                           timeoutCount := old(c.timeoutCount) + 1)
      ensures old(c.waiting)[1..] <= c.waiting && old(c.now) <= c.now
      ensures forall i :: |old(c.waiting)| - 1 <= i < |c.waiting| ==> c.waiting[i].deadline >= old(c.now) + TIMEOUT
      ensures g.called == old(g.called) + (if old(c.waiting)[0].hasCb then [(old(c.waiting)[0].id, TimedOut)] else [])
      ensures g.settled == old(g.settled) + 1
    {
      hide CalledOk, WaitingOk;
      var hasCb := c.waiting[0].hasCb;
      ExpireOk(c, g);
      c, g := c.(waiting := c.waiting[1..], timeoutCount := c.timeoutCount + 1), Settled(g, TimedOut);
      RunCallback(hasCb);
    }

    /** `timeout_cb`: the first `n` waiting requests, all overdue, are told so, and nobody else. Unless the client was
        closed, they are all that are overdue, the others go on waiting in their order, and the replies to the first `n`
        will be skipped. */
    method OnTimer(now: nat, budget: nat) returns (ghost n: nat)
      requires Valid() && c.now <= now
      modifies this
      ensures GoesOn(old(g), g) && g.received == old(g.received)
      ensures if c.destroyed then Gone() else Valid() && forall i :: 0 <= i < |c.waiting| ==> c.waiting[i].deadline > now
      ensures n <= |old(c.waiting)| && forall i :: 0 <= i < n ==> old(c.waiting)[i].deadline <= now
      ensures
        var told := old(g.called) + Told(old(c.waiting)[..n], TimedOut);
        if c.destroyed then told <= g.called && OnlyLostSince(g.called, |told|) else g.called == told
      ensures !c.destroyed ==>
                && (forall i :: n <= i < |old(c.waiting)| ==> old(c.waiting)[i].deadline > now)
                && old(c.waiting)[n..] <= c.waiting
                && g.settled == old(g.settled) + n && c.timeoutCount == old(c.timeoutCount) + n
    {
      hide CalledOk, WaitingOk, Told;
      ghost var w := c.waiting;
      NobodyTold(w, TimedOut);
      n := 0;
      FlagsOk(c, g, c.(now := now));
      c := c.(now := now);
      ghost var overdue := |c.waiting|;
      while c.waiting != [] && now >= c.waiting[0].deadline
        invariant Valid() && now <= c.now && GoesOn(old(g), g) && g.received == old(g.received)
        invariant n <= |w| && 0 <= overdue <= |c.waiting| && n + overdue == |w|
        invariant w[n..] == c.waiting[..overdue] && forall i :: 0 <= i < n ==> w[i].deadline <= now
        invariant g.called == old(g.called) + Told(w[..n], TimedOut)
        invariant g.settled == old(g.settled) + n && c.timeoutCount == old(c.timeoutCount) + n
        invariant 0 <= overdue <= |c.waiting| && forall i :: overdue <= i < |c.waiting| ==> c.waiting[i].deadline > now
        decreases overdue
      {
        assert c.waiting[0] == w[n];
        ToldNext(w, n, TimedOut);
        Expire();
        overdue, n := overdue - 1, n + 1;
        if c.closing {
          Destroy(budget);
          return;
        }
      }
      Sorted(c, g);
      forall i | n <= i < |w| ensures w[i].deadline > now { assert w[i] == c.waiting[i - n]; }
    }

    /** A reply was parsed: it is dropped if its request has timed out, otherwise it is the answer to the oldest
        waiting request. */
    method OnReply(v: Value, budget: nat)
      requires Valid() && |g.received| < |g.wants|
      modifies this
      ensures g.received == old(g.received) + [v] && GoesOn(old(g), g)
      ensures old(c.timeoutCount) > 0 || old(c.waiting) != []
      ensures
        var told := old(g.called) + (if old(c.timeoutCount) == 0 && old(c.waiting)[0].hasCb
                                     then [(old(c.waiting)[0].id, Answer(v))] else []);
        if c.destroyed then told <= g.called && OnlyLostSince(g.called, |told|) else g.called == told
      ensures !c.destroyed ==>
                if old(c.timeoutCount) > 0 then c.timeoutCount == old(c.timeoutCount) - 1 && c.waiting == old(c.waiting)
                else c.timeoutCount == 0 && old(c.waiting)[1..] <= c.waiting
      ensures if c.destroyed then Gone() else Valid() && c.tree == Fresh
      ensures !c.destroyed && AllAnswers(old(g)) ==> AllAnswers(g)
    {
      hide CalledOk, WaitingOk;
      Accounting(c, g);
      var (c1, call) := Receive(c, v);
      if c.timeoutCount > 0 {
        SkipOk(c, g, v);
        c, g := c1, g.(received := g.received + [v]);
      } else {
        AnswerOk(c, g, v);
        g := Settled(g.(received := g.received + [v]), Answer(v));
        c := c1;
      }
      RunCallback(call.CallBack?);
      FlagsOk(c, g, c.(tree := Fresh));
      c := c.(tree := Fresh);
      if c.closing { Destroy(budget); }
    }

    /** The part of `data_cb` for one chunk. */
    method OnPiece(p: seq<Byte>, budget: nat)
      requires Valid() && p != []
      requires |g.received| + |PumpAt(Reset(c.tree), p, 0).values| <= |g.wants|
      modifies this
      ensures GoesOn(old(g), g)
      ensures
        var r := PumpAt(Reset(old(c.tree)), p, 0);
        if c.destroyed then Gone() && g.received <= old(g.received) + r.values
        else Valid() && !r.failed && c.tree == r.node && g.received == old(g.received) + r.values
      ensures !c.destroyed && AllAnswers(old(g)) ==> AllAnswers(g)
    {
      hide CalledOk, WaitingOk, PumpAt, Then, GoesOn, RunAt, ValueOf, Reset, Live, AllAnswers, Receive;
      var pos: nat := 0;
      ghost var g0 := g;
      GoesSelf(g);
      PumpedStart(PumpAt(Reset(c.tree), p, 0));
      ghost var r := PumpAt(Reset(c.tree), p, 0);
      ghost var done: seq<Value> := [];
      while pos < |p|
        invariant Valid() && pos <= |p| && GoesOn(old(g), g) && |old(g).wants| <= |g.wants|
        invariant (pos > 0 ==> c.tree == Fresh)
        invariant g.received == old(g.received) + done && (AllAnswers(old(g)) ==> AllAnswers(g))
        invariant r == Then(Pumped(done, Fresh, false), PumpAt(Reset(c.tree), p, pos))
        decreases |p| - pos
      {
        ghost var g1 := g;
        var n, end, code := Parse(c.tree, p, pos);
        PumpStep(c.tree, p, pos, n, end, code);
        PumpedMore(done, PumpAt(Reset(c.tree), p, pos));
        FreshResets();
        if code.Done? {
          ReplyStep(done, ValueOf(n), PumpAt(Fresh, p, end));
          OnReply(ValueOf(n), budget);
          done := done + [ValueOf(n)];
          GoesTrans(g0, g1, g);
          if c.destroyed { return; }
          pos := end;
        } else if code.Failed? {
          FlagsOk(c, g, c.(closing := true));
          c := c.(closing := true);
          Destroy(budget);
          GoesTrans(g0, g1, g);
          return;
        } else {
          FlagsOk(c, g, c.(tree := n));
          c := c.(tree := n);
          return;
        }
      }
      PumpEnd(p);
      FreshResets();
      PumpedMore(done, Pumped([], Fresh, false));
    }

    /** `data_cb`: the bytes of a received buffer, chunk by chunk. Unless the client was closed on the way, it has
        received exactly the replies the pieces complete. */
    method OnData(pieces: seq<seq<Byte>>, budget: nat)
      requires Valid() && forall i :: 0 <= i < |pieces| ==> pieces[i] != []
      requires |g.received| + |PumpAll(c.tree, pieces).values| <= |g.wants|
      modifies this
      ensures GoesOn(old(g), g)
      ensures
        var r := PumpAll(old(c.tree), pieces);
        if c.destroyed then Gone() && g.received <= old(g.received) + r.values
        else Valid() && !r.failed && c.tree == r.node && g.received == old(g.received) + r.values
      ensures !c.destroyed && AllAnswers(old(g)) ==> AllAnswers(g)
    {
      hide AllAnswers, Ok, PumpAt, PumpAll, Then, GoesOn, Reset;
      ghost var g0 := g;
      GoesSelf(g);
      AllStart(c.tree, pieces);
      ghost var r, done: seq<Value> := PumpAll(c.tree, pieces), [];
      var i := 0;
      while i < |pieces|
        invariant 0 <= i <= |pieces| && Valid() && GoesOn(old(g), g) && |old(g).wants| <= |g.wants|
        invariant g.received == old(g.received) + done && (AllAnswers(old(g)) ==> AllAnswers(g))
        invariant r == Then(Pumped(done, Fresh, false), PumpAll(c.tree, pieces[i..]))
      {
        ghost var q, g1 := PumpAt(Reset(c.tree), pieces[i], 0), g;
        PieceStep(c.tree, pieces, i, done, r);
        OnPiece(pieces[i], budget);
        GoesTrans(g0, g1, g);
        if c.destroyed { return; }
        done := done + q.values;
        i := i + 1;
      }
      AllEnd(c.tree, pieces, done);
    }

    /** `data_cb` when the connection failed or was closed by the server. */
    method OnDisconnect(budget: nat)
      requires Valid()
      modifies this
      ensures Gone() && GoesOn(old(g), g) && g.received == old(g.received)
    {
      Close(budget);
    }
  }

  /** A whole conversation: a new client sends requests, the server answers some of them with legal replies, which arrive
      in any pieces that part no sign from its digits. Unless a callback closed the client, it has received exactly the
      replies, and the callback of each answered request was given the reply to that request. */
  method Converse(wants: seq<bool>, vs: seq<Value>, v: Value, k: nat, pieces: seq<seq<Byte>>, budget: nat)
    returns (client: RedisClient)
    requires |vs| <= |wants| && (forall j :: 0 <= j < |vs| ==> Legal(vs[j])) && Legal(v) && k < |Encode(v)|
    requires Join(pieces) == EncodeAll(vs) + Encode(v)[..k] && NoSignSplits(Fresh, pieces)
    requires forall i :: 0 <= i < |pieces| ==> pieces[i] != []
    ensures fresh(client) && wants <= client.g.wants
    ensures if client.c.destroyed then client.Gone() && client.g.received <= vs
            else client.Valid() && client.g.received == vs
    ensures !client.c.destroyed ==> forall id :: 0 <= id < |vs| && wants[id] ==> (id, Answer(vs[id])) in client.g.called
  {
    hide Ok, PumpAt, PumpAll, NoSignSplits, Legal, Encode, EncodeAll;
    client := new RedisClient();
    for i := 0 to |wants|
      invariant client.Valid() && fresh(client) && client.c.now == 0 && client.c.tree == Fresh
      invariant client.g == History(wants[..i], [], [], 0)
    {
      var _ := client.Execute(wants[i], 0, true, true);
    }
    RepliesArrive(vs, v, k, pieces);
    client.OnData(pieces, budget);
    if !client.c.destroyed { AnswersMatch(client.c, client.g); }
  }

  lemma AnswersMatch(c: Client, g: History)
    requires Ok(c, g) && !c.destroyed && AllAnswers(g)
    ensures |g.received| <= |g.wants|
    ensures forall id :: 0 <= id < |g.received| && g.wants[id] ==> (id, Answer(g.received[id])) in g.called
  {
    forall id | 0 <= id < |g.received| && g.wants[id] ensures (id, Answer(g.received[id])) in g.called {
      assert WasCalled(g.called, id);
      var k :| 0 <= k < |g.called| && g.called[k].0 == id;
      assert g.called[k] == (id, Answer(g.received[id]));
    }
  }

  lemma LosingStarts(w: seq<Pending>, called: seq<(nat, Outcome)>)
    ensures Losing(w, 0, called, called)
  {
    NobodyTold(w, Lost);
  }

  lemma LosingEnds(w: seq<Pending>, n: nat, before: seq<(nat, Outcome)>, called: seq<(nat, Outcome)>)
    requires Losing(w, n, before, called) && n == |w|
    ensures before + Told(w, Lost) <= called && OnlyLostSince(called, |before|)
  {
  }

  lemma NobodyTold(ps: seq<Pending>, o: Outcome)
    ensures Told(ps[..0], o) == [] && Told([], o) == []
  {
  }

  lemma PumpEnd(p: seq<Byte>)
    ensures PumpAt(Fresh, p, |p|) == Pumped([], Fresh, false)
  {
  }

  lemma FreshResets()
    ensures Reset(Fresh) == Fresh
  {
  }

  lemma PumpedStart(r: Pumped)
    ensures r == Then(Pumped([], Fresh, false), r)
  {
    assert [] + r.values == r.values;
  }

  lemma PumpedMore(done: seq<Value>, r: Pumped)
    ensures
      var t := Then(Pumped(done, Fresh, false), r);
      t.failed == r.failed && t.node == r.node && t.values == done + r.values
  {
  }

  lemma GoesSelf(g: History)
    ensures GoesOn(g, g)
  {
  }

  lemma GoesTrans(a: History, b: History, c: History)
    requires GoesOn(a, b) && GoesOn(b, c)
    ensures GoesOn(a, c) && |a.wants| <= |c.wants|
  {
  }

  lemma AllStart(n: Node, pieces: seq<seq<Byte>>)
    ensures PumpAll(n, pieces) == Then(Pumped([], Fresh, false), PumpAll(n, pieces[0..]))
  {
    assert pieces[0..] == pieces && [] + PumpAll(n, pieces).values == PumpAll(n, pieces).values;
  }

  lemma AllEnd(n: Node, pieces: seq<seq<Byte>>, done: seq<Value>)
    ensures Then(Pumped(done, Fresh, false), PumpAll(n, pieces[|pieces|..])) == Pumped(done, n, false)
  {
    assert pieces[|pieces|..] == [] && done + [] == done;
  }

  /** One piece of a buffer, with `done` completed by the pieces before. */
  lemma PieceStep(n: Node, pieces: seq<seq<Byte>>, i: nat, done: seq<Value>, r: Pumped)
    requires i < |pieces| && r == Then(Pumped(done, Fresh, false), PumpAll(n, pieces[i..]))
    ensures
      var q := PumpAt(Reset(n), pieces[i], 0);
      && done + q.values <= r.values && (q.failed ==> r.failed)
      && (!q.failed ==> r == Then(Pumped(done + q.values, Fresh, false), PumpAll(q.node, pieces[i + 1..])))
  {
    hide PumpAt;
    var q := PumpAt(Reset(n), pieces[i], 0);
    assert pieces[i..][0] == pieces[i] && pieces[i..][1..] == pieces[i + 1..];
    ThenAssoc(Pumped(done, Fresh, false), q, PumpAll(q.node, pieces[i + 1..]));
  }

  /** One parsed reply of a piece, with `done` completed before. */
  lemma ReplyStep(done: seq<Value>, v: Value, rest: Pumped)
    ensures Then(Pumped(done, Fresh, false), Then(Pumped([v], Fresh, false), rest)) ==
            Then(Pumped(done + [v], Fresh, false), rest)
    ensures done + [v] <= Then(Pumped(done + [v], Fresh, false), rest).values
  {
    ThenAssoc(Pumped(done, Fresh, false), Pumped([v], Fresh, false), rest);
  }

  lemma ThenAssoc(a: Pumped, b: Pumped, c: Pumped)
    requires !a.failed
    ensures Then(a, Then(b, c)) == Then(Then(a, b), c)
    ensures a.values + b.values <= Then(a, Then(b, c)).values
  {
    assert a.values + (b.values + c.values) == (a.values + b.values) + c.values;
  }

  lemma Sorted(c: Client, g: History)
    requires Ok(c, g)
    ensures forall i :: 0 <= i < |c.waiting| ==> c.waiting[0].deadline <= c.waiting[i].deadline
  {
  }

  /** One `parse` call against the stream's own definition. */
  lemma PumpStep(tree: Node, p: seq<Byte>, pos: nat, n: Node, end: nat, code: Code)
    requires pos < |p| && Live(tree) && Agrees(RunAt(Reset(tree), p, pos), p, n, end, code)
    ensures
      var r := PumpAt(Reset(tree), p, pos);
      match code
      case Done => pos < end <= |p| && r == Then(Pumped([ValueOf(n)], Fresh, false), PumpAt(Fresh, p, end))
      case Failed => r.failed && r.values == []
      case Retry => r == Pumped([], n, false) && Live(n)
  {
    RunEnd(Reset(tree), p, pos);
    ResetLive(tree);
    RunLive(Reset(tree), p, pos);
  }
}
