/** Body framing of deps/http-parser/http_parser.c, from the end of the headers to
the end of the message, in strict mode and with callbacks that return 0.

`Step` is the parser one byte at a time.  `Execute` is the original's loop, which
jumps over whole stretches of body and reports them through a mark.
*/
module HttpBody {
  import opened Bytes

  const ULLONG_MAX: nat := 0xFFFF_FFFF_FFFF_FFFF
  const HTTP_MAX_HEADER_SIZE: nat := 80 * 1024
  const CR: Byte := 13
  const LF: Byte := 10
  const SPACE: Byte := 32
  const SEMICOLON: Byte := 59

  /** `TrailerStart` is `s_header_field_start` after the last chunk, `HeadersAlmostDone` the state after its CR.
      `Complete` stands for the start of the next message, `Trailer` for a trailer field; this model ends in both. */
  datatype State =
    | HeadersDone | BodyIdentity | BodyIdentityEof
    | ChunkSizeStart | ChunkSize | ChunkParameters | ChunkSizeAlmostDone
    | ChunkData | ChunkDataAlmostDone | ChunkDataDone
    | TrailerStart | HeadersAlmostDone | Trailer | Complete

  datatype Parser = Parser(
    state: State, contentLength: nat, nread: nat,
    chunked: bool, skipBody: bool, trailing: bool, upgrade: bool, isRequest: bool, statusCode: nat)

  predicate ParsingHeader(s: State) {
    !(s.ChunkData? || s.ChunkDataAlmostDone? || s.ChunkDataDone? || s.BodyIdentity? || s.BodyIdentityEof?)
  }

  /** `unhex`: the table spells out 128 entries, so the upper half is zero. */
  function Unhex(c: Byte): (v: int)
    ensures -1 <= v < 16
  {
    if 48 <= c <= 57 then c - 48
    else if 65 <= c <= 70 then c - 55
    else if 97 <= c <= 102 then c - 87
    else if c >= 128 then 0
    else -1
  }

  /** What passes as a digit of a chunk size, and its value. */
  predicate IsSizeDigit(c: Byte) {
    IsHexDigit(c) || c >= 128
  }

  function SizeDigit(c: Byte): (v: nat)
    ensures v < 16
  {
    if IsHexDigit(c) then HexDigit(c) else 0
  }

  /** Only hexadecimal digits are meant to make up a chunk size, but every byte from 128 up passes as a zero. */
  lemma SizeDigitsAccepted(c: Byte)
    ensures Unhex(c) == if IsSizeDigit(c) then SizeDigit(c) else -1
  {
  }

  /** `http_message_needs_eof` */
  predicate NeedsEof(p: Parser) {
    && !p.isRequest
    && !(p.statusCode / 100 == 1 || p.statusCode == 204 || p.statusCode == 304 || p.skipBody)
    && !p.chunked && p.contentLength == ULLONG_MAX
  }

  /** What one byte does: the next state, whether the byte belongs to the body, and whether it is an error. */
  datatype Effect = Effect(p: Parser, body: bool, failed: bool)

  function Go(p: Parser, s: State): (e: Effect) {
    Effect(p.(state := s), false, false)
  }

  function Fail(p: Parser): (e: Effect) {
    Effect(p, false, true)
  }

  /** The message length rules after the headers. */
  function AfterHeaders(p: Parser): (s: State) {
    if p.upgrade || p.skipBody then Complete
    else if p.chunked then ChunkSizeStart
    else if p.contentLength == 0 then Complete
    else if p.contentLength != ULLONG_MAX then BodyIdentity
    else if p.isRequest || !NeedsEof(p) then Complete
    else BodyIdentityEof
  }

  function StepSize(p: Parser, c: Byte): (e: Effect) {
    if c == CR then Go(p, ChunkSizeAlmostDone)
    else if Unhex(c) == -1 then
      if c == SEMICOLON || c == SPACE then Go(p, ChunkParameters) else Fail(p)
    else if (ULLONG_MAX - 16) / 16 < p.contentLength then Fail(p)
    else Effect(p.(contentLength := p.contentLength * 16 + Unhex(c)), false, false)
  }

  /** The state switch, for every state that handles a single byte. */
  function Switch(p: Parser, c: Byte): (e: Effect)
    requires !InBody(p.state)
  {
    match p.state
    case HeadersDone => if c != LF then Fail(p) else Go(p.(nread := 0), AfterHeaders(p))
    case ChunkSizeStart =>
      if Unhex(c) == -1 then Fail(p) else Go(p.(contentLength := Unhex(c)), ChunkSize)
    case ChunkSize => StepSize(p, c)
    case ChunkParameters => if c == CR then Go(p, ChunkSizeAlmostDone) else Go(p, ChunkParameters)
    case ChunkSizeAlmostDone =>
      if c != LF then Fail(p)
      else if p.contentLength == 0 then Go(p.(nread := 0, trailing := true), TrailerStart)
      else Go(p.(nread := 0), ChunkData)
    case ChunkDataAlmostDone => if c != CR then Fail(p) else Go(p, ChunkDataDone)
    case ChunkDataDone => if c != LF then Fail(p) else Go(p.(nread := 0), ChunkSizeStart)
    case TrailerStart => if c == CR then Go(p, HeadersAlmostDone) else if c == LF then Go(p, Complete) else Go(p, Trailer)
    case HeadersAlmostDone => if c != LF then Fail(p) else Go(p, Complete)
    case _ => Fail(p)
  }

  /** One body byte. */
  function StepBody(p: Parser): (e: Effect) {
    if p.state.BodyIdentityEof? then Effect(p, true, false)
    else if p.contentLength == 0 then Fail(p)
    else
      var p' := p.(contentLength := p.contentLength - 1);
      if p'.contentLength > 0 then Effect(p', true, false)
      else Effect(p'.(state := if p.state.ChunkData? then ChunkDataAlmostDone else Complete), true, false)
  }

  function Counted(p: Parser): (p': Parser) {
    if ParsingHeader(p.state) then p.(nread := p.nread + 1) else p
  }

  function Step(p: Parser, c: Byte): (e: Effect) {
    var q := Counted(p);
    if ParsingHeader(p.state) && q.nread > HTTP_MAX_HEADER_SIZE then Fail(q)
    else if InBody(p.state) then StepBody(q)
    else Switch(q, c)
  }

  predicate InBody(s: State) {
    s.BodyIdentity? || s.ChunkData? || s.BodyIdentityEof?
  }

  predicate Ended(p: Parser) {
    p.state.Complete? || p.state.Trailer?
  }

  /** The end of a run: the parser, the position it stopped at, the body bytes seen and whether it failed. */
  datatype Result = Result(p: Parser, end: nat, body: seq<Byte>, failed: bool)

  function RunAt(p: Parser, s: seq<Byte>, at: nat): (r: Result)
    requires at <= |s|
    decreases |s| - at
  {
    if at == |s| || Ended(p) then Result(p, at, [], false)
    else
      var e := Step(p, s[at]);
      if e.failed then Result(e.p, at, [], true)
      else
        var r := RunAt(e.p, s, at + 1);
        if e.body then r.(body := [s[at]] + r.body) else r
  }

  /** What holds between any two bytes: the conditions the original asserts. */
  predicate Inv(p: Parser) {
    && p.contentLength <= ULLONG_MAX
    && (p.state.BodyIdentity? || p.state.ChunkData? ==> 0 < p.contentLength < ULLONG_MAX)
    && (p.state.ChunkSizeStart? ==> p.nread == 0 && p.chunked)
    && (p.state.ChunkSize? || p.state.ChunkParameters? || p.state.ChunkSizeAlmostDone? ==>
          p.contentLength < ULLONG_MAX && p.chunked)
    && (p.state.ChunkData? || p.state.ChunkDataDone? ==> p.chunked)
    && (p.state.ChunkDataAlmostDone? ==> p.chunked && p.contentLength == 0)
  }

  lemma SizeInv(p: Parser, c: Byte)
    requires p.contentLength < ULLONG_MAX && !StepSize(p, c).failed
    ensures StepSize(p, c).p.contentLength < ULLONG_MAX && StepSize(p, c).p.chunked == p.chunked
    ensures var s := StepSize(p, c).p.state; s == p.state || s.ChunkSizeAlmostDone? || s.ChunkParameters?
  {
  }

  lemma SwitchInv(p: Parser, c: Byte)
    requires Inv(p) && !InBody(p.state) && !Switch(Counted(p), c).failed
    ensures Inv(Switch(Counted(p), c).p) && !Switch(Counted(p), c).p.state.ChunkDataAlmostDone?
  {
    hide Unhex, NeedsEof, StepSize, AfterHeaders;
    if p.state.ChunkSize? { SizeInv(Counted(p), c); }
    if p.state.ChunkSizeStart? { assert -1 <= Unhex(c) < 16; }
    if p.state.HeadersDone? { AfterHeadersInv(Counted(p)); }
  }

  lemma AfterHeadersInv(p: Parser)
    requires p.contentLength <= ULLONG_MAX
    ensures
      var s := AfterHeaders(p);
      && Inv(p.(nread := 0, state := s))
      && (s.Complete? || s.ChunkSizeStart? || s.BodyIdentity? || s.BodyIdentityEof?)
  {
    hide NeedsEof;
  }

  /** A step that is not part of the body. */
  lemma SwitchRun(p: Parser, s: seq<Byte>, at: nat)
    requires Inv(p) && at < |s| && !InBody(p.state) && !Ended(p)
    ensures
      var q := Counted(p);
      var e := Switch(q, s[at]);
      RunAt(p, s, at) ==
        if ParsingHeader(p.state) && q.nread > HTTP_MAX_HEADER_SIZE then Result(q, at, [], true)
        else if e.failed then Result(e.p, at, [], true)
        else RunAt(e.p, s, at + 1)
    ensures Switch(Counted(p), s[at]).failed ==> Switch(Counted(p), s[at]).p == Counted(p)
  {
    hide Unhex, NeedsEof;
  }

  lemma StepInv(p: Parser, c: Byte)
    requires Inv(p) && !Step(p, c).failed
    ensures Inv(Step(p, c).p)
  {
    hide Switch;
    if !InBody(p.state) { SwitchInv(p, c); }
  }

  /** The asserted conditions hold in every state a run can reach, and no length wraps. */
  lemma {:induction false} RunInv(p: Parser, s: seq<Byte>, at: nat)
    requires Inv(p) && at <= |s|
    ensures var r := RunAt(p, s, at); at <= r.end <= |s| && (!r.failed ==> Inv(r.p))
    decreases |s| - at
  {
    if at < |s| && !Ended(p) && !Step(p, s[at]).failed {
      StepInv(p, s[at]);
      RunInv(Step(p, s[at]).p, s, at + 1);
    }
  }

  // ---- Block jumps ----

  function Prepend(b: seq<Byte>, r: Result): (r': Result) {
    r.(body := b + r.body)
  }

  /** The parser after `n` bytes of body. */
  function Jumped(p: Parser, n: nat): (p': Parser)
    requires InBody(p.state) && (p.state.BodyIdentityEof? || n <= p.contentLength)
  {
    if p.state.BodyIdentityEof? || n == 0 then p
    else
      var p' := p.(contentLength := p.contentLength - n);
      if p'.contentLength > 0 then p' else p'.(state := if p.state.ChunkData? then ChunkDataAlmostDone else Complete)
  }

  /** Jumping over `n` body bytes is the same as taking them one at a time. */
  lemma {:induction false} JumpRun(p: Parser, s: seq<Byte>, at: nat, n: nat)
    requires InBody(p.state) && (p.state.BodyIdentityEof? || n <= p.contentLength) && at + n <= |s|
    ensures RunAt(p, s, at) == Prepend(s[at..at + n], RunAt(Jumped(p, n), s, at + n))
    decreases n
  {
    hide Switch, RunAt, Step;
    if n == 0 {
      assert s[at..at] + RunAt(p, s, at).body == RunAt(p, s, at).body;
    } else {
      JumpOne(p, s, at);
      if n == 1 {
        assert s[at..at + 1] == [s[at]];
      } else {
        JumpRun(Jumped(p, 1), s, at + 1, n - 1);
        assert Jumped(Jumped(p, 1), n - 1) == Jumped(p, n);
        assert s[at..at + n] == [s[at]] + s[at + 1..at + n];
        PrependTwice([s[at]], s[at + 1..at + n], RunAt(Jumped(p, n), s, at + n));
      }
    }
  }

  lemma {:induction false} JumpOne(p: Parser, s: seq<Byte>, at: nat)
    requires InBody(p.state) && (p.state.BodyIdentityEof? || p.contentLength > 0) && at < |s|
    ensures RunAt(p, s, at) == Prepend([s[at]], RunAt(Jumped(p, 1), s, at + 1))
  {
    hide Switch;
  }

  lemma PrependTwice(a: seq<Byte>, b: seq<Byte>, r: Result)
    ensures Prepend(a, Prepend(b, r)) == Prepend(a + b, r)
  {
    assert a + (b + r.body) == (a + b) + r.body;
  }

  // ---- Cutting the input ----

  lemma {:induction false} RunShift(p: Parser, a: seq<Byte>, b: seq<Byte>, at: nat)
    requires at <= |b|
    ensures var r := RunAt(p, b, at); RunAt(p, a + b, |a| + at) == r.(end := r.end + |a|)
    decreases |b| - at
  {
    hide Step;
    if at < |b| && !Ended(p) {
      assert (a + b)[|a| + at] == b[at];
      var e := Step(p, b[at]);
      if !e.failed { RunShift(e.p, a, b, at + 1); }
    }
  }

  /** A run over two pieces is the run over the first continued on the second. */
  lemma {:induction false} RunConcat(p: Parser, a: seq<Byte>, b: seq<Byte>, at: nat)
    requires at <= |a|
    ensures
      var r := RunAt(p, a, at);
      RunAt(p, a + b, at) ==
        if r.failed || Ended(r.p) then r
        else var q := RunAt(r.p, b, 0); Prepend(r.body, q.(end := q.end + |a|))
    decreases |a| - at
  {
    hide Step;
    var r := RunAt(p, a, at);
    if at == |a| || Ended(p) {
      if !Ended(p) { RunShift(p, a, b, 0); }
      var q := RunAt(p, b, 0);
      assert [] + q.body == q.body;
    } else {
      assert (a + b)[at] == a[at];
      var e := Step(p, a[at]);
      if !e.failed {
        RunConcat(e.p, a, b, at + 1);
        var r1 := RunAt(e.p, a, at + 1);
        if e.body && !r1.failed && !Ended(r1.p) {
          var q := RunAt(r1.p, b, 0);
          PrependTwice([a[at]], r1.body, q.(end := q.end + |a|));
        }
      }
    }
  }

  // ---- The loop of http_parser_execute ----

  /** What is marked but not yet reported. */
  function Pending(mark: Option<nat>, data: seq<Byte>, pos: nat): (b: seq<Byte>)
    requires mark.Some? ==> mark.value <= pos <= |data|
  {
    if mark.Some? then data[mark.value..pos] else []
  }

  /** An error right behind chunk data of the same piece: the marked bytes are never reported. */
  predicate LosesBody(r: Result) {
    r.failed && r.p.state.ChunkDataAlmostDone? && r.end > 0
  }

  /** The part of the switch that handles a stretch of body: returns the position after it. */
  method BodyJump(p: Parser, data: seq<Byte>, pos: nat) returns (p': Parser, pos': nat)
    requires Inv(p) && InBody(p.state) && pos < |data|
    ensures Inv(p') && pos < pos' <= |data| && RunAt(p, data, pos) == Prepend(data[pos..pos'], RunAt(p', data, pos'))
    ensures p.state.BodyIdentityEof? || p.state.ChunkData? || p.state.BodyIdentity?
    ensures
      || p'.state == p.state
      || (p.state.ChunkData? && p'.state.ChunkDataAlmostDone?)
      || (p.state.BodyIdentity? && p'.state.Complete?)
  {
    hide RunAt;
    if p.state.BodyIdentityEof? {
      p', pos' := p, |data|;
      JumpRun(p, data, pos, |data| - pos);
      return;
    }
    var toRead := if p.contentLength < |data| - pos then p.contentLength else |data| - pos;
    assert p.contentLength != 0 && p.contentLength != ULLONG_MAX;
    JumpRun(p, data, pos, toRead);
    p' := p.(contentLength := p.contentLength - toRead);
    pos' := pos + toRead;
    if p'.contentLength == 0 {
      p' := p'.(state := if p.state.ChunkData? then ChunkDataAlmostDone else Complete);
    }
  }

  /** The loop's variables: `bodies` is the data handed to `on_body` so far, call by call. */
  datatype Loop = Loop(p: Parser, pos: nat, mark: Option<nat>, bodies: seq<seq<Byte>>)

  ghost predicate MarkOk(l: Loop, data: seq<Byte>) {
    && l.pos <= |data|
    && (l.mark.Some? ==> l.mark.value < l.pos && (InBody(l.p.state) || l.p.state.ChunkDataAlmostDone?))
    && (l.p.state.ChunkDataAlmostDone? && l.pos > 0 ==> l.mark.Some?)
    && (forall i :: 0 <= i < |l.bodies| ==> l.bodies[i] != [])
  }

  /** The body bytes reported or marked. */
  ghost function Seen(l: Loop, data: seq<Byte>): (b: seq<Byte>)
    requires MarkOk(l, data)
  {
    Join(l.bodies) + Pending(l.mark, data, l.pos)
  }

  ghost predicate LoopOk(l: Loop, data: seq<Byte>, r: Result) {
    MarkOk(l, data) && Inv(l.p) && r == Prepend(Seen(l, data), RunAt(l.p, data, l.pos))
  }

  /** `CALLBACK_DATA(body)` */
  function Flushed(l: Loop, data: seq<Byte>): (l': Loop)
    requires l.mark.Some? ==> l.mark.value < l.pos <= |data|
  {
    if l.mark.Some? then l.(bodies := l.bodies + [data[l.mark.value..l.pos]], mark := None) else l
  }

  lemma FlushSeen(l: Loop, data: seq<Byte>)
    requires MarkOk(l, data)
    ensures Join(Flushed(l, data).bodies) == Seen(l, data)
    ensures forall i :: 0 <= i < |Flushed(l, data).bodies| ==> Flushed(l, data).bodies[i] != []
  {
    if l.mark.Some? { JoinSnoc(l.bodies, data[l.mark.value..l.pos]); }
  }

  /** A turn of the loop in a body state. */
  method BodyTurn(l: Loop, data: seq<Byte>, ghost r: Result) returns (l': Loop)
    requires LoopOk(l, data, r) && l.pos < |data| && InBody(l.p.state)
    ensures LoopOk(l', data, r) && l.pos < l'.pos
  {
    hide RunAt, Inv;
    var mark := if l.mark.None? then l.pos else l.mark.value;
    var p, pos := BodyJump(l.p, data, l.pos);
    PrependTwice(Seen(l, data), data[l.pos..pos], RunAt(p, data, pos));
    l' := Loop(p, pos, Some(mark), l.bodies);
    assert Pending(l.mark, data, l.pos) == data[mark..l.pos];
    MarkGrows(Join(l.bodies), data, mark, l.pos, pos);
    if p.state.Complete? {
      var flushed := Flushed(l', data);
      JoinSnoc(l.bodies, data[mark..pos]);
      assert Join(flushed.bodies) + [] == Join(flushed.bodies);
      l' := flushed;
    }
  }

  /** A turn of the loop in any other state. */
  method ByteTurn(l: Loop, data: seq<Byte>, ghost r: Result) returns (l': Loop, failed: bool)
    requires LoopOk(l, data, r) && l.pos < |data| && !InBody(l.p.state) && !Ended(l.p)
    ensures if failed then
              && l' == l.(p := l'.p) && r == Prepend(Seen(l, data), Result(l'.p, l.pos, [], true)) && l'.p.state == l.p.state
            else LoopOk(l', data, r) && l.pos < l'.pos
  {
    hide RunAt, Switch, Inv;
    SwitchRun(l.p, data, l.pos);
    var q := Counted(l.p);
    if ParsingHeader(l.p.state) && q.nread > HTTP_MAX_HEADER_SIZE {
      return l.(p := q), true;
    }
    ChunkStartCount(l.p);
    assert q.state.ChunkSizeStart? ==> q.nread == 1;
    var e := Switch(q, data[l.pos]);
    if e.failed {
      return l.(p := e.p), true;
    }
    SwitchInv(l.p, data[l.pos]);
    var flushed := Flushed(l, data);
    FlushSeen(l, data);
    assert Join(flushed.bodies) + [] == Join(flushed.bodies);
    l' := Loop(e.p, l.pos + 1, None, flushed.bodies);
    failed := false;
  }

  lemma ChunkStartCount(p: Parser)
    requires Inv(p)
    ensures p.state.ChunkSizeStart? ==> Counted(p).nread == 1
  {
  }

  /** What a call without data does: it ends a body without a length and is an error inside any other message. The state
      stays as it is. */
  datatype Eof = Completes | Quiet | Refused

  function AtEof(p: Parser): (e: Eof) {
    if p.state.BodyIdentityEof? then Completes else if p.state.Complete? then Quiet else Refused
  }

  /** `http_parser_execute`: on a piece of data, what is handed to `on_body`, call by call, is the body as the bytes come,
      unless an error right behind chunk data of the same piece throws the marked bytes away. `completed` says whether
      `on_message_complete` was called. */
  method Execute(p0: Parser, data: seq<Byte>)
    returns (p: Parser, end: nat, bodies: seq<seq<Byte>>, completed: bool, failed: bool)
    requires Inv(p0)
    ensures data == [] ==>
              && p == p0 && bodies == [] && completed == p0.state.BodyIdentityEof?
              && failed == !(p0.state.BodyIdentityEof? || p0.state.Complete?) && end == if failed then 1 else 0
    ensures data != [] ==>
              var r := RunAt(p0, data, 0);
              && p == r.p && end == r.end && failed == r.failed
              && completed == (!failed && p.state.Complete? && !Ended(p0))
              && (Join(bodies) == r.body <==> !LosesBody(r)) && Join(bodies) <= r.body
              && (!failed ==> Inv(p))
    ensures forall i :: 0 <= i < |bodies| ==> bodies[i] != []
  {
    hide RunAt, Inv;
    if data == [] {
      match AtEof(p0) {
        case Completes => return p0, 0, [], true, false;
        case Quiet => return p0, 0, [], false, false;
        case Refused => return p0, 1, [], false, true;
      }
    }
    ghost var r := RunAt(p0, data, 0);
    assert Prepend([] + [], r) == r;
    var l := Loop(p0, 0, None, []);
    completed, failed := false, false;
    while l.pos < |data| && !Ended(l.p)
      invariant LoopOk(l, data, r) && !failed && (Ended(p0) ==> l.p == p0)
      invariant completed == (l.p.state.Complete? && !Ended(p0))
      decreases |data| - l.pos
    {
      if InBody(l.p.state) {
        l := BodyTurn(l, data, r);
      } else {
        ghost var before := l;
        l, failed := ByteTurn(l, data, r);
        if failed {
          assert r.body == Seen(before, data) + [] == Seen(before, data);
          return l.p, l.pos, l.bodies, false, true;
        }
      }
      completed := l.p.state.Complete?;
    }
    RunOver(l.p, data, l.pos);
    FlushSeen(l, data);
    assert Seen(l, data) + [] == Seen(l, data);
    p, end, bodies := l.p, l.pos, Flushed(l, data).bodies;
  }

  /** Nothing is left to run. */
  lemma RunOver(p: Parser, s: seq<Byte>, at: nat)
    requires at <= |s| && (at == |s| || Ended(p))
    ensures RunAt(p, s, at) == Result(p, at, [], false)
  {
  }

  lemma MarkGrows(a: seq<Byte>, data: seq<Byte>, mark: nat, from: nat, to: nat)
    requires mark <= from <= to <= |data|
    ensures (a + data[mark..from]) + data[from..to] == a + data[mark..to]
  {
    assert data[mark..from] + data[from..to] == data[mark..to];
  }

  // ---- Any number of pieces ----

  /** The run over a list of non-empty pieces, one call each, as far as the message goes. */
  ghost function RunPieces(p: Parser, pieces: seq<seq<Byte>>): (r: Result)
    decreases |pieces|
  {
    if pieces == [] then Result(p, 0, [], false)
    else
      var r := RunAt(p, pieces[0], 0);
      if r.failed || Ended(r.p) then r
      else var q := RunPieces(r.p, pieces[1..]); Prepend(r.body, q.(end := q.end + |pieces[0]|))
  }

  /** Pieces of data, not calls that signal the end, do not matter. */
  lemma {:induction false} PiecesDoNotMatter(p: Parser, pieces: seq<seq<Byte>>)
    requires !Ended(p) && forall i :: 0 <= i < |pieces| ==> pieces[i] != []
    ensures RunPieces(p, pieces) == RunAt(p, Join(pieces), 0)
    decreases |pieces|
  {
    hide Step;
    if pieces != [] {
      RunConcat(p, pieces[0], Join(pieces[1..]), 0);
      var r := RunAt(p, pieces[0], 0);
      if !r.failed && !Ended(r.p) { PiecesDoNotMatter(r.p, pieces[1..]); }
    }
  }

  /** `http_parser_execute` called on piece after piece and, once the connection is `closed`, without data: however the
      input is cut up, the body reported is the body of the whole input; only a failing call may report less. The message
      is completed at most once, where it ends or, if it has no length, when the connection closes. */
  method ExecuteAll(p0: Parser, pieces: seq<seq<Byte>>, closed: bool)
    returns (p: Parser, body: seq<Byte>, completions: nat, failed: bool)
    requires Inv(p0) && !Ended(p0) && forall i :: 0 <= i < |pieces| ==> pieces[i] != []
    ensures
      var r := RunAt(p0, Join(pieces), 0);
      && p == r.p && body <= r.body && (!r.failed ==> body == r.body && Inv(p))
      && failed == (r.failed || (closed && !Ended(p) && AtEof(p).Refused?))
      && completions == if !r.failed && (p.state.Complete? || (closed && AtEof(p).Completes?)) then 1 else 0
  {
    hide RunAt, Inv;
    p, body, completions, failed := p0, [], 0, false;
    ghost var r := RunPieces(p0, pieces);
    PiecesDoNotMatter(p0, pieces);
    assert Prepend([], r) == r;
    ghost var before: nat := 0;
    var i := 0;
    var end, bodies, completed;
    while i < |pieces|
      invariant 0 <= i <= |pieces| && Inv(p) && !failed && !Ended(p) && completions == 0
      invariant var q := RunPieces(p, pieces[i..]); r == Prepend(body, q.(end := q.end + before))
    {
      assert pieces[i..][0] == pieces[i] && pieces[i..][1..] == pieces[i + 1..];
      ghost var b, r1 := body, RunAt(p, pieces[i], 0);
      p, end, bodies, completed, failed := Execute(p, pieces[i]);
      body := body + Join(bodies);
      if completed { completions := completions + 1; }
      if failed || Ended(p) { return; }
      PrependTwice(b, r1.body, RunPieces(p, pieces[i + 1..]));
      before := before + |pieces[i]|;
      i := i + 1;
    }
    assert body + [] == body;
    if closed {
      p, end, bodies, completed, failed := Execute(p, []);
      if completed { completions := completions + 1; }
    }
  }

  /** The same malformed input, cut behind the chunk data or not: only the cut lets the data through. */
  lemma ErrorLosesUncutData(p: Parser, c: Byte, x: Byte)
    requires p.state.ChunkData? && p.contentLength == 1 && x != CR
    ensures
      var whole, first := RunAt(p, [c, x], 0), RunAt(p, [c], 0);
      var second := RunAt(first.p, [x], 0);
      && LosesBody(whole) && whole.body == [c]
      && !first.failed && first.body == [c] && second.failed && !LosesBody(second)
  {
    assert Step(p, c).p.state.ChunkDataAlmostDone?;
    assert [c, x][1] == x;
  }

  /** The input up to `k` ends exactly behind the data of a chunk. */
  ghost predicate EndsBehindData(p: Parser, data: seq<Byte>, k: nat)
    requires k <= |data|
  {
    var r := RunAt(p, data[..k], 0);
    !r.failed && r.p.state.ChunkDataAlmostDone? && r.end == k
  }

  /** A run that fails behind chunk data had come there with the input so far, and the next byte is not a CR. */
  lemma {:induction false} FailsBehindData(p: Parser, s: seq<Byte>, at: nat)
    requires at <= |s| && RunAt(p, s, at).failed && RunAt(p, s, at).p.state.ChunkDataAlmostDone?
    ensures
      var r := RunAt(p, s, at);
      && at <= r.end < |s| && s[r.end] != CR
      && var q := RunAt(p, s[..r.end], at); !q.failed && q.p.state.ChunkDataAlmostDone? && q.end == r.end
    decreases |s| - at
  {
    var e := Step(p, s[at]);
    if e.failed {
      FailKeepsState(p, s[at]);
    } else {
      FailsBehindData(e.p, s, at + 1);
      var t := s[..RunAt(p, s, at).end];
      assert t[at] == s[at];
    }
  }

  lemma FailKeepsState(p: Parser, c: Byte)
    requires Step(p, c).failed
    ensures Step(p, c).p.state == p.state && (p.state.ChunkDataAlmostDone? ==> c != CR)
  {
    hide Unhex, NeedsEof;
  }

  /** Marked data is lost exactly when, somewhere inside the piece, the input ends behind chunk data and goes on without
      the CR that must follow. */
  lemma {:induction false} LosesBodyIff(p: Parser, data: seq<Byte>)
    requires Inv(p)
    ensures LosesBody(RunAt(p, data, 0)) <==> exists k :: 0 < k < |data| && EndsBehindData(p, data, k) && data[k] != CR
  {
    hide Step, Inv;
    if LosesBody(RunAt(p, data, 0)) {
      FailsBehindData(p, data, 0);
      assert EndsBehindData(p, data, RunAt(p, data, 0).end);
    }
    forall k | 0 < k < |data| && EndsBehindData(p, data, k) && data[k] != CR ensures LosesBody(RunAt(p, data, 0)) {
      assert data == data[..k] + data[k..];
      RunConcat(p, data[..k], data[k..], 0);
      BadCr(RunAt(p, data[..k], 0).p, data[k..]);
    }
  }

  lemma BadCr(p: Parser, s: seq<Byte>)
    requires p.state.ChunkDataAlmostDone? && s != [] && s[0] != CR
    ensures RunAt(p, s, 0) == Result(p, 0, [], true)
  {
  }

  // ---- Chunked coding ----

  datatype Chunk = Chunk(digits: seq<Byte>, ext: seq<Byte>, data: seq<Byte>)

  function HexVal(digits: seq<Byte>): (v: nat) {
    if digits == [] then 0 else HexVal(digits[..|digits| - 1]) * 16 + SizeDigit(digits[|digits| - 1])
  }

  /** A size line: hexadecimal digits and possibly an extension. */
  predicate LegalLine(digits: seq<Byte>, ext: seq<Byte>) {
    && digits != [] && (forall i :: 0 <= i < |digits| ==> IsSizeDigit(digits[i]))
    && CR !in ext && (ext != [] ==> ext[0] == ';' as int || ext[0] == ' ' as int)
    && |digits| + |ext| + 2 <= 81_920
  }

  predicate LegalChunk(c: Chunk) {
    LegalLine(c.digits, c.ext) && c.data != [] && HexVal(c.digits) == |c.data| < 0xFFFF_FFFF_FFFF_FFF0
  }

  function SizeLine(digits: seq<Byte>, ext: seq<Byte>): (s: seq<Byte>) {
    digits + ext + [CR, LF]
  }

  function EncodeChunk(c: Chunk): (s: seq<Byte>) {
    SizeLine(c.digits, c.ext) + (c.data + [CR, LF])
  }

  function EncodeChunks(cs: seq<Chunk>): (s: seq<Byte>) {
    if cs == [] then [] else EncodeChunk(cs[0]) + EncodeChunks(cs[1..])
  }

  function Payload(cs: seq<Chunk>): (s: seq<Byte>) {
    if cs == [] then [] else cs[0].data + Payload(cs[1..])
  }

  /** One byte that is not body. */
  lemma RunByte(p: Parser, s: seq<Byte>, at: nat, c: Byte, p': Parser)
    requires Has(s, at, [c]) && !Ended(p) && Step(p, c) == Effect(p', false, false)
    ensures RunAt(p, s, at) == RunAt(p', s, at + 1)
  {
  }

  lemma StepSizeStart(p: Parser, c: Byte)
    requires p.state.ChunkSizeStart? && p.nread < HTTP_MAX_HEADER_SIZE && IsSizeDigit(c)
    ensures Step(p, c) == Effect(p.(state := ChunkSize, contentLength := SizeDigit(c), nread := p.nread + 1), false, false)
  {
  }

  lemma StepSizeDigit(p: Parser, c: Byte)
    requires p.state.ChunkSize? && p.nread < HTTP_MAX_HEADER_SIZE && IsSizeDigit(c)
    requires p.contentLength * 16 + SizeDigit(c) < ULLONG_MAX - 15
    ensures
      var n := p.contentLength * 16 + SizeDigit(c);
      Step(p, c) == Effect(p.(contentLength := n, nread := p.nread + 1), false, false)
  {
  }

  /** A size is refused exactly when it would reach 2^64 - 16. */
  lemma SizeRefusedIff(p: Parser, c: Byte)
    requires p.state.ChunkSize? && p.nread < HTTP_MAX_HEADER_SIZE && IsSizeDigit(c)
    ensures Step(p, c).failed <==> p.contentLength * 16 + SizeDigit(c) >= ULLONG_MAX - 15
  {
  }

  lemma StepExtension(p: Parser, c: Byte)
    requires p.nread < HTTP_MAX_HEADER_SIZE
    requires (p.state.ChunkSize? && (c == SEMICOLON || c == SPACE)) || (p.state.ChunkParameters? && c != CR)
    ensures Step(p, c) == Effect(p.(state := ChunkParameters, nread := p.nread + 1), false, false)
  {
  }

  lemma StepLineEnd(p: Parser)
    requires p.nread + 1 < HTTP_MAX_HEADER_SIZE && (p.state.ChunkSize? || p.state.ChunkParameters?)
    ensures
      var q := p.(state := ChunkSizeAlmostDone, nread := p.nread + 1);
      && Step(p, CR) == Effect(q, false, false)
      && Step(q, LF) == Effect(AfterLine(p), false, false)
  {
  }

  /** The parser behind a size line. */
  function AfterLine(p: Parser): (q: Parser) {
    if p.contentLength == 0 then p.(nread := 0, trailing := true, state := TrailerStart)
    else p.(nread := 0, state := ChunkData)
  }

  lemma {:induction false} HexValBound(digits: seq<Byte>, k: nat)
    requires k <= |digits|
    ensures HexVal(digits[..k]) <= HexVal(digits)
    decreases |digits| - k
  {
    if k < |digits| {
      HexValBound(digits, k + 1);
      assert digits[..k + 1][..k] == digits[..k];
    } else {
      assert digits[..k] == digits;
    }
  }

  lemma HexValSnoc(digits: seq<Byte>, k: nat)
    requires k < |digits|
    ensures HexVal(digits[..k + 1]) == HexVal(digits[..k]) * 16 + SizeDigit(digits[k])
  {
    assert digits[..k + 1][..k] == digits[..k];
  }

  /** The digits of a size line. */
  lemma {:induction false} RunDigits(p: Parser, digits: seq<Byte>, k: nat, s: seq<Byte>, at: nat)
    requires p.state.ChunkSizeStart? && p.nread == 0 && 1 <= k <= |digits| && |digits| <= HTTP_MAX_HEADER_SIZE
    requires (forall i :: 0 <= i < |digits| ==> IsSizeDigit(digits[i])) && HexVal(digits) < ULLONG_MAX - 15
    requires Has(s, at, digits[..k])
    ensures RunAt(p, s, at) == RunAt(p.(state := ChunkSize, contentLength := HexVal(digits[..k]), nread := k), s, at + k)
    decreases k
  {
    hide RunAt, Step, HexVal, SizeDigit, Has;
    HexValBound(digits, k);
    HexValSnoc(digits, k - 1);
    var c := digits[k - 1];
    assert digits[..k] == digits[..k - 1] + [c];
    HasSplit(s, at, digits[..k - 1], [c]);
    var q := p.(state := ChunkSize, contentLength := HexVal(digits[..k]), nread := k);
    if k == 1 {
      HexValEmpty(digits);
      StepSizeStart(p, c);
      RunByte(p, s, at, c, q);
    } else {
      RunDigits(p, digits, k - 1, s, at);
      var q0 := p.(state := ChunkSize, contentLength := HexVal(digits[..k - 1]), nread := k - 1);
      StepSizeDigit(q0, c);
      RunByte(q0, s, at + k - 1, c, q);
    }
  }

  lemma HexValEmpty(digits: seq<Byte>)
    ensures HexVal(digits[..0]) == 0
  {
  }

  /** The extension of a size line is skipped. */
  lemma {:induction false} RunExtension(p: Parser, ext: seq<Byte>, s: seq<Byte>, at: nat)
    requires p.state.ChunkParameters? && CR !in ext && p.nread + |ext| <= HTTP_MAX_HEADER_SIZE && Has(s, at, ext)
    ensures RunAt(p, s, at) == RunAt(p.(nread := p.nread + |ext|), s, at + |ext|)
    decreases |ext|
  {
    hide RunAt, Step, Has;
    if ext != [] {
      assert ext == [ext[0]] + ext[1..] && ext[0] in ext;
      HasSplit(s, at, [ext[0]], ext[1..]);
      var q := p.(nread := p.nread + 1);
      StepExtension(p, ext[0]);
      RunByte(p, s, at, ext[0], q);
      RunExtension(q, ext[1..], s, at + 1);
    }
  }

  /** A size line up to its CR. */
  lemma RunSize(p: Parser, digits: seq<Byte>, ext: seq<Byte>, s: seq<Byte>, at: nat)
    requires p.state.ChunkSizeStart? && p.nread == 0 && LegalLine(digits, ext) && HexVal(digits) < ULLONG_MAX - 15
    requires Has(s, at, digits) && Has(s, at + |digits|, ext)
    ensures
      var q := p.(state := if ext == [] then ChunkSize else ChunkParameters,
                  contentLength := HexVal(digits), nread := |digits| + |ext|);
      RunAt(p, s, at) == RunAt(q, s, at + |digits| + |ext|)
  {
    hide RunAt, Step, HexVal, Has;
    var n := |digits|;
    assert digits[..n] == digits;
    RunDigits(p, digits, n, s, at);
    if ext != [] {
      var q1 := p.(state := ChunkSize, contentLength := HexVal(digits), nread := n);
      assert ext == [ext[0]] + ext[1..];
      HasSplit(s, at + n, [ext[0]], ext[1..]);
      var q := q1.(state := ChunkParameters, nread := n + 1);
      StepExtension(q1, ext[0]);
      RunByte(q1, s, at + n, ext[0], q);
      assert CR !in ext[1..];
      RunExtension(q, ext[1..], s, at + n + 1);
    }
  }

  /** A whole size line. */
  lemma RunSizeLine(p: Parser, digits: seq<Byte>, ext: seq<Byte>, s: seq<Byte>, at: nat)
    requires p.state.ChunkSizeStart? && p.nread == 0 && LegalLine(digits, ext) && HexVal(digits) < ULLONG_MAX - 15
    requires Has(s, at, SizeLine(digits, ext))
    ensures RunAt(p, s, at) == RunAt(AfterLine(p.(contentLength := HexVal(digits))), s, at + |SizeLine(digits, ext)|)
  {
    hide RunAt, Step, HexVal, Has;
    var at' := at + |digits| + |ext|;
    assert SizeLine(digits, ext) == digits + (ext + ([CR] + [LF]));
    HasSplit(s, at, digits, ext + ([CR] + [LF]));
    HasSplit(s, at + |digits|, ext, [CR] + [LF]);
    HasSplit(s, at', [CR], [LF]);
    RunSize(p, digits, ext, s, at);
    var q := p.(state := if ext == [] then ChunkSize else ChunkParameters,
                contentLength := HexVal(digits), nread := |digits| + |ext|);
    StepLineEnd(q);
    RunByte(q, s, at', CR, q.(state := ChunkSizeAlmostDone, nread := q.nread + 1));
    RunByte(q.(state := ChunkSizeAlmostDone, nread := q.nread + 1), s, at' + 1, LF, AfterLine(q));
  }

  /** A whole chunk: its data is body, and the parser is ready for the next one. */
  lemma RunChunk(p: Parser, c: Chunk, s: seq<Byte>, at: nat)
    requires p.state.ChunkSizeStart? && p.nread == 0 && LegalChunk(c) && Has(s, at, EncodeChunk(c))
    ensures RunAt(p, s, at) == Prepend(c.data, RunAt(p.(contentLength := 0), s, at + |EncodeChunk(c)|))
  {
    hide RunAt, HexVal, Has, Step, LegalLine, SizeLine;
    HasWithin(s, at, EncodeChunk(c));
    HasSplit(s, at, SizeLine(c.digits, c.ext), c.data + [CR, LF]);
    RunSizeLine(p, c.digits, c.ext, s, at);
    var at1 := at + |SizeLine(c.digits, c.ext)|;
    HasSplit(s, at1, c.data, [CR, LF]);
    var q1 := p.(contentLength := |c.data|, nread := 0, state := ChunkData);
    JumpRun(q1, s, at1, |c.data|);
    HasIs(s, at1, c.data);
    var at2 := at1 + |c.data|;
    assert [CR, LF] == [CR] + [LF];
    HasSplit(s, at2, [CR], [LF]);
    var q2 := p.(contentLength := 0, nread := 0, state := ChunkDataAlmostDone);
    StepChunkEnd(q2);
    RunByte(q2, s, at2, CR, q2.(state := ChunkDataDone));
    RunByte(q2.(state := ChunkDataDone), s, at2 + 1, LF, p.(contentLength := 0));
  }

  lemma StepChunkEnd(p: Parser)
    requires p.state.ChunkDataAlmostDone? && p.nread == 0
    ensures Step(p, CR) == Effect(p.(state := ChunkDataDone), false, false)
    ensures Step(p.(state := ChunkDataDone), LF) == Effect(p.(state := ChunkSizeStart), false, false)
  {
  }

  lemma StepTrailerEnd(p: Parser)
    requires p.state.TrailerStart? && p.nread == 0
    ensures
      var q := p.(state := HeadersAlmostDone, nread := 1);
      && Step(p, CR) == Effect(q, false, false) && Step(q, LF) == Effect(q.(state := Complete, nread := 2), false, false)
      && Step(p, LF) == Effect(p.(state := Complete, nread := 1), false, false)
  {
  }

  /** The end of an empty trailer; the CR may be missing. */
  predicate EmptyTrailer(t: seq<Byte>) {
    t == [CR, LF] || t == [LF]
  }

  /** The last size line and an empty trailer. */
  lemma RunLast(p: Parser, digits: seq<Byte>, ext: seq<Byte>, t: seq<Byte>, s: seq<Byte>, at: nat)
    requires p.state.ChunkSizeStart? && p.nread == 0 && LegalLine(digits, ext) && HexVal(digits) == 0 && EmptyTrailer(t)
    requires Has(s, at, SizeLine(digits, ext) + t)
    ensures
      var r := RunAt(p, s, at);
      r.p.state.Complete? && r.end == at + |SizeLine(digits, ext)| + |t| && r.body == [] && !r.failed
  {
    hide RunAt, HexVal, Has, Step, LegalLine, SizeLine;
    HasWithin(s, at, SizeLine(digits, ext) + t);
    HasSplit(s, at, SizeLine(digits, ext), t);
    RunSizeLine(p, digits, ext, s, at);
    var at1 := at + |SizeLine(digits, ext)|;
    var q1 := p.(contentLength := 0, nread := 0, trailing := true, state := TrailerStart);
    var q3 := q1.(state := Complete, nread := |t|);
    StepTrailerEnd(q1);
    if t == [LF] {
      RunByte(q1, s, at1, LF, q3);
    } else {
      assert [CR, LF] == [CR] + [LF];
      HasSplit(s, at1, [CR], [LF]);
      var q2 := q1.(state := HeadersAlmostDone, nread := 1);
      RunByte(q1, s, at1, CR, q2);
      RunByte(q2, s, at1 + 1, LF, q3);
    }
    RunOver(q3, s, at1 + |t|);
  }

  /** A chunked body as it stands on the wire. */
  datatype Coding = Coding(chunks: seq<Chunk>, digits: seq<Byte>, ext: seq<Byte>, trailer: seq<Byte>)

  predicate LegalCoding(c: Coding) {
    && (forall i :: 0 <= i < |c.chunks| ==> LegalChunk(c.chunks[i]))
    && LegalLine(c.digits, c.ext) && HexVal(c.digits) == 0 && EmptyTrailer(c.trailer)
  }

  function EncodeCoding(c: Coding): (s: seq<Byte>) {
    EncodeChunks(c.chunks) + (SizeLine(c.digits, c.ext) + c.trailer)
  }

  /** A chunked body is decoded exactly, up to the end of the message. */
  lemma {:induction false} DecodesChunked(p: Parser, c: Coding, s: seq<Byte>, at: nat)
    requires p.state.ChunkSizeStart? && p.nread == 0 && LegalCoding(c) && Has(s, at, EncodeCoding(c))
    ensures
      var r := RunAt(p, s, at);
      r.p.state.Complete? && !r.failed && r.body == Payload(c.chunks) && r.end == at + |EncodeCoding(c)|
    decreases |c.chunks|
  {
    hide RunAt, HexVal, LegalChunk, EncodeChunk;
    var last := SizeLine(c.digits, c.ext) + c.trailer;
    if c.chunks == [] {
      assert EncodeCoding(c) == last;
      RunLast(p, c.digits, c.ext, c.trailer, s, at);
    } else {
      var c0, c' := c.chunks[0], c.(chunks := c.chunks[1..]);
      assert EncodeCoding(c) == EncodeChunk(c0) + EncodeCoding(c');
      HasSplit(s, at, EncodeChunk(c0), EncodeCoding(c'));
      RunChunk(p, c0, s, at);
      DecodesChunked(p.(contentLength := 0), c', s, at + |EncodeChunk(c0)|);
    }
  }

  // ---- Nothing else is decoded ----

  predicate Completed(r: Result) {
    r.p.state.Complete? && !r.failed
  }

  /** A run that completes takes its next byte without an error. */
  lemma MustStep(p: Parser, s: seq<Byte>, at: nat)
    requires at <= |s| && !p.state.Complete? && Completed(RunAt(p, s, at))
    ensures at < |s| && !Ended(p) && !Step(p, s[at]).failed
    ensures !Step(p, s[at]).body ==> RunAt(p, s, at) == RunAt(Step(p, s[at]).p, s, at + 1)
  {
    hide Step;
  }

  lemma MustEndLine(p: Parser, s: seq<Byte>, at: nat)
    requires at <= |s| && p.state.ChunkSizeAlmostDone? && Completed(RunAt(p, s, at))
    ensures at < |s| && s[at] == LF && p.nread + 1 <= 81_920
    ensures RunAt(p, s, at) == RunAt(AfterLine(p), s, at + 1)
  {
    hide RunAt;
    MustStep(p, s, at);
  }

  /** The rest of an extension: no CR up to the one that ends the line. */
  lemma {:induction false} MustExtend(p: Parser, s: seq<Byte>, at: nat) returns (end: nat)
    requires at <= |s| && p.state.ChunkParameters? && Completed(RunAt(p, s, at))
    ensures at <= end && end + 2 <= |s| && CR !in s[at..end] && s[end] == CR && s[end + 1] == LF
    ensures p.nread + (end - at) + 2 <= 81_920
    ensures RunAt(p, s, at) == RunAt(AfterLine(p.(nread := p.nread + (end - at) + 2)), s, end + 2)
    decreases |s| - at
  {
    hide RunAt;
    MustStep(p, s, at);
    var q := Step(p, s[at]).p;
    if s[at] == CR {
      MustEndLine(q, s, at + 1);
      end := at;
    } else {
      end := MustExtend(q, s, at + 1);
      assert s[at..end] == [s[at]] + s[at + 1..end];
    }
  }

  /** Where the digits and the extension of a size line end. */
  lemma {:induction false} MustCount(p: Parser, s: seq<Byte>, from: nat, at: nat) returns (mid: nat, end: nat)
    requires from < at <= |s| && p.state.ChunkSize? && Completed(RunAt(p, s, at))
    requires p.contentLength == HexVal(s[from..at]) < 0xFFFF_FFFF_FFFF_FFF0 && p.nread == at - from
    requires forall i :: from <= i < at ==> IsSizeDigit(s[i])
    ensures at <= mid <= end && end + 2 <= |s| && LegalLine(s[from..mid], s[mid..end]) && s[end] == CR && s[end + 1] == LF
    ensures HexVal(s[from..mid]) < 0xFFFF_FFFF_FFFF_FFF0
    ensures
      var q := p.(contentLength := HexVal(s[from..mid]), nread := end - from + 2);
      RunAt(p, s, at) == RunAt(AfterLine(q), s, end + 2)
    decreases |s| - at
  {
    hide RunAt, HexVal, Step, LegalLine, SizeDigit, IsSizeDigit, AfterLine;
    MustStep(p, s, at);
    SizeStep(p, s[at]);
    if IsSizeDigit(s[at]) {
      assert s[from..at + 1] == s[from..at] + [s[at]];
      HexValLast(s[from..at], s[at]);
      mid, end := MustCount(Step(p, s[at]).p, s, from, at + 1);
    } else {
      mid := at;
      end := MustStop(p, s, at);
      LineMade(s, from, mid, end);
    }
  }

  /** The rest of a size line behind its digits. */
  lemma MustStop(p: Parser, s: seq<Byte>, at: nat) returns (end: nat)
    requires at < |s| && p.state.ChunkSize? && Completed(RunAt(p, s, at)) && !IsSizeDigit(s[at])
    ensures at <= end && end + 2 <= |s| && CR !in s[at..end] && s[end] == CR && s[end + 1] == LF
    ensures (at < end ==> s[at] == ';' as int || s[at] == ' ' as int) && p.nread + (end - at) + 2 <= 81_920
    ensures RunAt(p, s, at) == RunAt(AfterLine(p.(nread := p.nread + (end - at) + 2)), s, end + 2)
  {
    hide RunAt, Step, IsSizeDigit, SizeDigit, AfterLine;
    MustStep(p, s, at);
    SizeStep(p, s[at]);
    var q := Step(p, s[at]).p;
    if s[at] == CR {
      MustEndLine(q, s, at + 1);
      end := at;
      SameAfterLine(q, p.(nread := p.nread + 2));
    } else {
      end := MustExtend(q, s, at + 1);
      assert s[at..end] == [s[at]] + s[at + 1..end];
      SameAfterLine(q.(nread := q.nread + (end - at - 1) + 2), p.(nread := p.nread + (end - at) + 2));
    }
  }

  /** One byte of a size line behind its first digit. */
  lemma SizeStep(p: Parser, c: Byte)
    requires p.state.ChunkSize? && !Step(p, c).failed
    ensures p.nread + 1 <= 81_920 && !Step(p, c).body
    ensures
      var p', v := Step(p, c).p, p.contentLength * 16 + SizeDigit(c);
      if c == CR then p' == p.(state := ChunkSizeAlmostDone, nread := p.nread + 1) && !IsSizeDigit(c)
      else if IsSizeDigit(c) then p' == p.(contentLength := v, nread := p.nread + 1) && v < 0xFFFF_FFFF_FFFF_FFF0
      else p' == p.(state := ChunkParameters, nread := p.nread + 1) && (c == ';' as int || c == ' ' as int)
  {
    hide SizeDigit, Unhex;
    SizeDigitsAccepted(c);
  }

  lemma SameAfterLine(p: Parser, q: Parser)
    requires p == q.(state := p.state, nread := p.nread)
    ensures AfterLine(p) == AfterLine(q)
  {
  }

  lemma LineMade(s: seq<Byte>, from: nat, mid: nat, end: nat)
    requires from < mid <= end <= |s| && (forall i :: from <= i < mid ==> IsSizeDigit(s[i])) && CR !in s[mid..end]
    requires (mid < end ==> s[mid] == ';' as int || s[mid] == ' ' as int) && end - from + 2 <= 81_920
    ensures LegalLine(s[from..mid], s[mid..end])
  {
    hide IsSizeDigit;
    var digits := s[from..mid];
    assert forall i :: 0 <= i < |digits| ==> digits[i] == s[from + i];
  }

  lemma HexValLast(digits: seq<Byte>, c: Byte)
    ensures HexVal(digits + [c]) == HexVal(digits) * 16 + SizeDigit(c)
  {
    assert (digits + [c])[..|digits|] == digits;
  }

  /** A whole size line stands there. */
  lemma MustStartLine(p: Parser, s: seq<Byte>, at: nat) returns (mid: nat, end: nat)
    requires at <= |s| && p.state.ChunkSizeStart? && p.nread == 0 && Completed(RunAt(p, s, at))
    ensures at < mid <= end && end + 2 <= |s| && LegalLine(s[at..mid], s[mid..end])
    ensures Has(s, at, SizeLine(s[at..mid], s[mid..end])) && HexVal(s[at..mid]) < 0xFFFF_FFFF_FFFF_FFF0
    ensures RunAt(p, s, at) == RunAt(AfterLine(p.(contentLength := HexVal(s[at..mid]))), s, end + 2)
  {
    hide RunAt, HexVal, Unhex;
    MustStep(p, s, at);
    SizeDigitsAccepted(s[at]);
    assert s[at..at + 1] == [] + [s[at]];
    HexValLast([], s[at]);
    HexValEmpty([]);
    mid, end := MustCount(Step(p, s[at]).p, s, at, at + 1);
    assert s[at..end + 2] == s[at..mid] + s[mid..end] + [CR, LF];
  }

  /** The data of a chunk and the line end behind it. */
  lemma MustFill(p: Parser, s: seq<Byte>, at: nat)
    requires at <= |s| && p.state.ChunkData? && p.contentLength > 0 && p.nread == 0 && Completed(RunAt(p, s, at))
    ensures at + p.contentLength + 2 <= |s| && Has(s, at + p.contentLength, [CR, LF])
    ensures
      var end := at + p.contentLength;
      RunAt(p, s, at) == Prepend(s[at..end], RunAt(p.(state := ChunkSizeStart, contentLength := 0), s, end + 2))
  {
    hide RunAt;
    var n := p.contentLength;
    if at + n > |s| {
      JumpRun(p, s, at, |s| - at);
      RunOver(Jumped(p, |s| - at), s, |s|);
    } else {
      JumpRun(p, s, at, n);
      var q := Jumped(p, n);
      MustStep(q, s, at + n);
      MustStep(Step(q, s[at + n]).p, s, at + n + 1);
    }
  }

  /** The end of the trailer. */
  lemma MustTrail(p: Parser, s: seq<Byte>, at: nat) returns (t: seq<Byte>)
    requires at <= |s| && p.state.TrailerStart? && p.nread == 0 && Completed(RunAt(p, s, at))
    ensures EmptyTrailer(t) && Has(s, at, t) && RunAt(p, s, at).end == at + |t| && RunAt(p, s, at).body == []
  {
    hide RunAt;
    MustStep(p, s, at);
    var q := Step(p, s[at]).p;
    if s[at] == LF {
      t := [LF];
      RunOver(q, s, at + 1);
    } else if s[at] == CR {
      t := [CR, LF];
      MustStep(q, s, at + 1);
      RunOver(Step(q, s[at + 1]).p, s, at + 2);
    } else {
      RunOver(q, s, at + 1);
    }
  }

  /** What is decoded is a chunked body. */
  lemma {:induction false} OnlyCodings(p: Parser, s: seq<Byte>, at: nat) returns (c: Coding)
    requires at <= |s| && p.state.ChunkSizeStart? && p.nread == 0 && Completed(RunAt(p, s, at))
    ensures LegalCoding(c) && Has(s, at, EncodeCoding(c))
    ensures RunAt(p, s, at).end == at + |EncodeCoding(c)| && RunAt(p, s, at).body == Payload(c.chunks)
    decreases |s| - at
  {
    hide RunAt, HexVal, LegalLine, Has, Step;
    var mid, end := MustStartLine(p, s, at);
    var digits, ext := s[at..mid], s[mid..end];
    var n := HexVal(digits);
    var q := AfterLine(p.(contentLength := n));
    if n == 0 {
      var t := MustTrail(q, s, end + 2);
      c := Coding([], digits, ext, t);
      assert EncodeCoding(c) == SizeLine(digits, ext) + t;
      HasSplit(s, at, SizeLine(digits, ext), t);
      assert LegalCoding(c) && Payload(c.chunks) == [];
    } else {
      MustFill(q, s, end + 2);
      var from := end + 2 + n;
      var data := s[end + 2..from];
      var rest := OnlyCodings(q.(state := ChunkSizeStart, contentLength := 0), s, from + 2);
      var chunk := Chunk.Chunk(digits, ext, data);
      c := rest.(chunks := [chunk] + rest.chunks);
      HasSlice(s, end + 2, from);
      HasSplit(s, end + 2, data, [CR, LF]);
      HasSplit(s, at, SizeLine(digits, ext), data + [CR, LF]);
      OneMoreChunk(chunk, rest, s, at);
    }
  }

  lemma HasSlice(s: seq<Byte>, from: nat, to: nat)
    requires from <= to <= |s|
    ensures Has(s, from, s[from..to])
  {
  }

  lemma OneMoreChunk(chunk: Chunk, rest: Coding, s: seq<Byte>, at: nat)
    requires LegalChunk(chunk) && LegalCoding(rest) && Has(s, at, EncodeChunk(chunk))
    requires Has(s, at + |EncodeChunk(chunk)|, EncodeCoding(rest))
    ensures
      var c := rest.(chunks := [chunk] + rest.chunks);
      && LegalCoding(c) && Has(s, at, EncodeCoding(c)) && Payload(c.chunks) == chunk.data + Payload(rest.chunks)
      && |EncodeCoding(c)| == |EncodeChunk(chunk)| + |EncodeCoding(rest)|
  {
    hide EncodeChunk, LegalChunk, LegalLine, HexVal, Has;
    var c := rest.(chunks := [chunk] + rest.chunks);
    assert c.chunks[1..] == rest.chunks;
    assert EncodeCoding(c) == EncodeChunk(chunk) + EncodeCoding(rest);
    HasSplit(s, at, EncodeChunk(chunk), EncodeCoding(rest));
  }

  ghost predicate StandsAt(s: seq<Byte>, at: nat, c: Coding) {
    LegalCoding(c) && Has(s, at, EncodeCoding(c))
  }

  /** Exactly the legal codings are decoded, each to its payload. */
  lemma DecodesChunkedIff(p: Parser, s: seq<Byte>, at: nat)
    requires at <= |s| && p.state.ChunkSizeStart? && p.nread == 0
    ensures Completed(RunAt(p, s, at)) <==> exists c :: StandsAt(s, at, c)
    ensures forall c :: StandsAt(s, at, c) ==>
              RunAt(p, s, at).end == at + |EncodeCoding(c)| && RunAt(p, s, at).body == Payload(c.chunks)
  {
    hide RunAt, LegalCoding, EncodeCoding, Payload;
    if Completed(RunAt(p, s, at)) {
      var c := OnlyCodings(p, s, at);
      assert StandsAt(s, at, c);
    }
    forall c | StandsAt(s, at, c)
      ensures
        var r := RunAt(p, s, at);
        Completed(r) && r.end == at + |EncodeCoding(c)| && r.body == Payload(c.chunks)
    {
      DecodesChunked(p, c, s, at);
    }
  }

  // ---- The message length rules ----

  /** What the headers say about the body, as section 3.3.3 of RFC 7230 orders the rules. */
  datatype Framing = NoBody | Chunked | Length(n: nat) | UntilClose

  predicate Framed(p: Parser, f: Framing) {
    match f
    case NoBody =>
      || p.upgrade || p.skipBody || (!p.chunked && p.contentLength == 0)
      || (!p.chunked && p.contentLength == 0xFFFF_FFFF_FFFF_FFFF
          && (p.isRequest || 100 <= p.statusCode <= 199 || p.statusCode == 204 || p.statusCode == 304))
    case Chunked => !p.upgrade && !p.skipBody && p.chunked
    case Length(n) => !p.upgrade && !p.skipBody && !p.chunked && 0 < n == p.contentLength < 0xFFFF_FFFF_FFFF_FFFF
    case UntilClose =>
      && !p.upgrade && !p.skipBody && !p.chunked && p.contentLength == 0xFFFF_FFFF_FFFF_FFFF && !p.isRequest
      && !(100 <= p.statusCode <= 199) && p.statusCode != 204 && p.statusCode != 304
  }

  /** The line end behind the headers; anything else is an error. */
  lemma HeadersEnd(p: Parser, s: seq<Byte>, q: Parser)
    requires p.state.HeadersDone? && p.nread < 81_920 && s != []
    ensures s[0] != LF ==> RunAt(p, s, 0).failed && RunAt(p, s, 0).body == []
    ensures s[0] == LF && q == p.(nread := 0, state := q.state) ==>
              && (Framed(p, NoBody) && q.state == Complete ==> RunAt(p, s, 0) == Result(q, 1, [], false))
              && (Framed(p, Chunked) && q.state == ChunkSizeStart ==> RunAt(p, s, 0) == RunAt(q, s, 1))
              && (Framed(p, Length(p.contentLength)) && q.state == BodyIdentity ==> RunAt(p, s, 0) == RunAt(q, s, 1))
              && (Framed(p, UntilClose) && q.state == BodyIdentityEof ==> RunAt(p, s, 0) == RunAt(q, s, 1))
  {
    hide Unhex;
    if s[0] == LF {
      RunHead(p, s, 0);
      RunOver(p.(nread := 0, state := Complete), s, 1);
    }
  }

  /** From the end of the headers on, a message has no body, is a chunked coding, is the next so many bytes, or everything
      until the connection closes, exactly as its headers say; and a message is complete exactly where that ends. */
  lemma MessageBody(p: Parser, f: Framing, s: seq<Byte>)
    requires p.state.HeadersDone? && p.nread < 81_920 && Framed(p, f) && p.contentLength <= 0xFFFF_FFFF_FFFF_FFFF
    requires s != [] && s[0] == LF
    ensures
      var r := RunAt(p, s, 0);
      match f
      case NoBody => Completed(r) && r.end == 1 && r.body == []
      case Length(n) =>
        if n < |s| then Completed(r) && r.end == 1 + n && r.body == s[1..1 + n]
        else !Completed(r) && !r.failed && r.end == |s| && r.body == s[1..] && AtEof(r.p).Refused?
      case UntilClose => !Completed(r) && !r.failed && r.end == |s| && r.body == s[1..] && AtEof(r.p).Completes?
      case Chunked =>
        && (Completed(r) <==> exists c :: StandsAt(s, 1, c))
        && (forall c :: StandsAt(s, 1, c) ==> r.end == 1 + |EncodeCoding(c)| && r.body == Payload(c.chunks))
  {
    hide RunAt, StandsAt, EncodeCoding, Payload, Framed;
    var state := match f
      case NoBody => Complete
      case Chunked => ChunkSizeStart
      case Length(_) => BodyIdentity
      case UntilClose => BodyIdentityEof;
    var q := p.(nread := 0, state := state);
    FramedLength(p, f);
    HeadersEnd(p, s, q);
    match f
    case NoBody =>
    case Chunked => DecodesChunkedIff(q, s, 1);
    case Length(n) => Stretch(q, s, Min(n, |s| - 1));
    case UntilClose => Stretch(q, s, |s| - 1);
  }

  lemma FramedLength(p: Parser, f: Framing)
    requires Framed(p, f)
    ensures f.Length? ==> 0 < f.n == p.contentLength
  {
  }

  /** `n` bytes of body behind the headers. */
  lemma Stretch(q: Parser, s: seq<Byte>, n: nat)
    requires s != [] && 1 + n <= |s|
    requires (q.state.BodyIdentityEof? && n == |s| - 1) || (q.state.BodyIdentity? && q.contentLength > 0)
    requires q.state.BodyIdentity? ==> n <= q.contentLength && (n < q.contentLength ==> 1 + n == |s|)
    ensures RunAt(q, s, 1) == Result(Jumped(q, n), 1 + n, s[1..1 + n], false)
  {
    hide RunAt;
    JumpRun(q, s, 1, n);
    RunOver(Jumped(q, n), s, 1 + n);
    assert s[1..1 + n] + [] == s[1..1 + n];
  }

  /** A body with a length is the next that many bytes; a body without one is everything until the call without data,
      which ends it and is an error in a body that is cut short. */
  lemma DecodesIdentity(p: Parser, s: seq<Byte>)
    requires Inv(p) && (p.state.BodyIdentityEof? || (p.state.BodyIdentity? && p.contentLength <= |s|))
    ensures
      var r := RunAt(p, s, 0);
      if p.state.BodyIdentityEof? then r == Result(p, |s|, s, false) && AtEof(r.p).Completes?
      else r.p.state.Complete? && !r.failed && r.end == p.contentLength && r.body == s[..p.contentLength]
    ensures p.state.BodyIdentity? ==> forall n: nat :: n < p.contentLength ==> AtEof(RunAt(p, s[..n], 0).p).Refused?
  {
    hide RunAt;
    var n := if p.state.BodyIdentityEof? then |s| else p.contentLength;
    JumpRun(p, s, 0, n);
    RunOver(Jumped(p, n), s, n);
    assert s[0..n] + [] == s[..n];
    assert s[..|s|] == s;
    if p.state.BodyIdentity? {
      forall n: nat | n < p.contentLength ensures AtEof(RunAt(p, s[..n], 0).p).Refused? {
        JumpRun(p, s[..n], 0, n);
        RunOver(Jumped(p, n), s[..n], n);
      }
    }
  }

  /** Only the end of the headers leads to a body without a length. */
  lemma {:induction false} NeverEof(p: Parser, s: seq<Byte>, at: nat)
    requires at <= |s| && !p.state.HeadersDone? && !p.state.BodyIdentityEof?
    ensures !RunAt(p, s, at).p.state.BodyIdentityEof?
    decreases |s| - at
  {
    if at < |s| && !Ended(p) {
      var e := Step(p, s[at]);
      StaysLengthened(p, s[at]);
      if !e.failed { NeverEof(e.p, s, at + 1); }
    }
  }

  lemma StaysLengthened(p: Parser, c: Byte)
    requires !p.state.HeadersDone? && !p.state.BodyIdentityEof?
    ensures !Step(p, c).p.state.HeadersDone? && !Step(p, c).p.state.BodyIdentityEof?
  {
    hide Switch;
    if !InBody(p.state) { SwitchLengthened(Counted(p), c); }
  }

  lemma SwitchLengthened(p: Parser, c: Byte)
    requires !p.state.HeadersDone? && !InBody(p.state)
    ensures !Switch(p, c).p.state.HeadersDone? && !Switch(p, c).p.state.BodyIdentityEof?
  {
    hide Unhex, AfterHeaders, StepSize;
    match p.state
    case ChunkSize => SizeState(p, c);
    case ChunkSizeStart =>
    case ChunkParameters =>
    case ChunkSizeAlmostDone =>
    case ChunkDataAlmostDone =>
    case ChunkDataDone =>
    case TrailerStart =>
    case HeadersAlmostDone =>
    case Trailer =>
    case Complete =>
  }

  lemma SizeState(p: Parser, c: Byte)
    ensures var s := StepSize(p, c).p.state; s == p.state || s.ChunkSizeAlmostDone? || s.ChunkParameters?
  {
  }

  /** The closing of the connection ends a message, whatever follows its headers, exactly when it is a response that may
      have a body and says nothing about its length. */
  lemma {:induction false} CloseEndsMessageIff(p: Parser, s: seq<Byte>)
    requires p.state.HeadersDone? && p.nread < HTTP_MAX_HEADER_SIZE && s != [] && s[0] == LF
    ensures AtEof(RunAt(p, s, 0).p).Completes? <==> !p.upgrade && NeedsEof(p)
  {
    hide Unhex, NeedsEof, RunAt;
    var q := Step(p, s[0]).p;
    RunHead(p, s, 0);
    if q.state.BodyIdentityEof? {
      JumpRun(q, s, 1, |s| - 1);
      RunOver(q, s, |s|);
    } else {
      NeverEof(q, s, 1);
    }
    CountsForEof(p);
  }

  lemma RunHead(p: Parser, s: seq<Byte>, at: nat)
    requires at < |s| && !Ended(p) && !Step(p, s[at]).failed && !Step(p, s[at]).body
    ensures RunAt(p, s, at) == RunAt(Step(p, s[at]).p, s, at + 1)
  {
  }

  lemma CountsForEof(p: Parser)
    ensures AfterHeaders(Counted(p)).BodyIdentityEof? <==> !p.upgrade && NeedsEof(p)
    ensures !AfterHeaders(Counted(p)).HeadersDone?
  {
  }
}
