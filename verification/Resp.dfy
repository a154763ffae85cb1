/** The resumable reply parser of src/redis/chk_client.c.

`Step` is the parser one byte at a time; `RunAt` runs it to the end of a reply or
of the input.  The methods are the original's block loops and recursion; each is
proved to do what `RunAt` does, which makes the parser independent of how the
input was cut up.
*/
module Resp {
  import opened Bytes

  const CR: Byte := 13
  const LF: Byte := 10
  const PLUS: Byte := 43
  const MINUS: Byte := 45
  const COLON: Byte := 58
  const DOLLAR: Byte := 36
  const STAR: Byte := 42

  datatype Type = NoType | StatusReply | ErrorReply | IntegerReply | StringReply | ArrayReply | NilReply

  /** `parse_tree` with the `redisReply` it fills: `str` is the text written so far, `pos` the number of
      finished children. */
  datatype Node = Node(
    op: nat, rtype: Type, integer: int, len: nat, elements: nat, str: seq<Byte>,
    want: int, pos: nat, brk: Byte, childs: seq<Node>)

  /** `parse_tree_new` */
  const Fresh: Node := Node(0, NoType, 0, 0, 0, [], 0, 0, CR, [])

  function TypeOf(op: Byte): (t: Type) {
    if op == PLUS then StatusReply else if op == MINUS then ErrorReply else if op == COLON then IntegerReply
    else if op == DOLLAR then StringReply else if op == STAR then ArrayReply else NoType
  }

  predicate IsDigit(c: Byte) {
    48 <= c <= 57
  }

  datatype Code = Retry | Done | Failed

  // ---- One byte at a time ----

  function StepLine(n: Node, c: Byte): (r: (Node, Code)) {
    if c != n.brk then (n.(str := n.str + [c]), Retry)
    else if c == LF then (n.(len := |n.str|), Done)
    else (n.(brk := LF), Retry)
  }

  function StepInteger(n: Node, c: Byte): (r: (Node, Code)) {
    if c == n.brk then
      if c == LF then (n.(integer := n.integer * n.want), Done) else (n.(brk := LF), Retry)
    else if c == MINUS then (n.(want := -1), Retry)
    else if IsDigit(c) then (n.(integer := n.integer * 10 + (c - 48)), Retry)
    else (n, Failed)
  }

  /** After the length line of a bulk string: a nil reply is complete, otherwise text and CR LF follow. */
  function BulkHeader(n: Node): (r: (Node, Code)) {
    if n.rtype.NilReply? then (n.(brk := CR), Done) else (n.(brk := CR, want := n.len + 2), Retry)
  }

  function StepBulk(n: Node, c: Byte): (r: (Node, Code)) {
    if n.want == 0 then
      if c == n.brk then if c == LF then BulkHeader(n) else (n.(brk := LF), Retry)
      else if c == MINUS then (n.(rtype := NilReply), Retry)
      else if IsDigit(c) then (n.(len := n.len * 10 + (c - 48)), Retry)
      else (n, Failed)
    else
      var n' := n.(str := if n.want > 2 then n.str + [c] else n.str, want := n.want - 1);
      (n', if n'.want == 0 then Done else Retry)
  }

  /** After the count line of an array: an empty array is complete, otherwise its children are created. */
  function ArrayHeader(n: Node): (r: (Node, Code)) {
    if n.elements == 0 then (n.(brk := CR, want := 0), Done)
    else (n.(brk := CR, want := n.elements, childs := seq(n.elements, _ => Fresh)), Retry)
  }

  /** A child was advanced to `c'`. */
  function ChildDone(n: Node, c': Node): (n': Node)
    requires n.pos < |n.childs|
  {
    n.(childs := n.childs[n.pos := c'], pos := n.pos + 1)
  }

  function StepArray(n: Node, c: Byte): (r: (Node, Code))
    decreases n, 0
  {
    if n.want == 0 then
      if c == n.brk then if c == LF then ArrayHeader(n) else (n.(brk := LF), Retry)
      else if c == MINUS then (n.(rtype := NilReply), Retry)
      else if IsDigit(c) then (n.(elements := n.elements * 10 + (c - 48)), Retry)
      else (n, Failed)
    else if n.pos < |n.childs| then
      var (c', code) := Step(n.childs[n.pos], c);
      match code
      case Retry => (n.(childs := n.childs[n.pos := c']), Retry)
      case Failed => (n, Failed)
      case Done => (ChildDone(n, c'), if n.pos + 1 == n.want then Done else Retry)
    else (n, Failed)
  }

  function Step(n: Node, c: Byte): (r: (Node, Code))
    decreases n, 1
  {
    if n.op == 0 then
      if TypeOf(c).NoType? then (n, Failed)
      else (n.(op := c, rtype := TypeOf(c), want := if c == COLON then 1 else 0), Retry)
    else if n.op == PLUS || n.op == MINUS then StepLine(n, c)
    else if n.op == COLON then StepInteger(n, c)
    else if n.op == DOLLAR then StepBulk(n, c)
    else if n.op == STAR then StepArray(n, c)
    else (n, Failed)
  }

  datatype Result = More(n: Node) | Reply(n: Node, end: nat) | Error

  /** Parses `s` from position `at` to the end of the reply or of the input. */
  function RunAt(n: Node, s: seq<Byte>, at: nat): (r: Result)
    requires at <= |s|
    decreases |s| - at
  {
    if at == |s| then More(n)
    else
      var (n', code) := Step(n, s[at]);
      match code
      case Retry => RunAt(n', s, at + 1)
      case Done => Reply(n', at + 1)
      case Failed => Error
  }

  // ---- Cutting the input ----

  function Shift(r: Result, k: nat): (r': Result) {
    if r.Reply? then Reply(r.n, r.end + k) else r
  }

  lemma {:induction false} RunShift(n: Node, a: seq<Byte>, b: seq<Byte>, at: nat)
    requires at <= |b|
    ensures RunAt(n, a + b, |a| + at) == Shift(RunAt(n, b, at), |a|)
    decreases |b| - at
  {
    if at < |b| {
      assert (a + b)[|a| + at] == b[at];
      var (n', code) := Step(n, b[at]);
      if code.Retry? { RunShift(n', a, b, at + 1); }
    }
  }

  /** Input after a finished or failed reply does not matter; after an unfinished one parsing goes on. */
  lemma {:induction false} RunConcat(n: Node, a: seq<Byte>, b: seq<Byte>, at: nat)
    requires at <= |a|
    ensures RunAt(n, a + b, at) ==
              match RunAt(n, a, at)
              case More(m) => Shift(RunAt(m, b, 0), |a|)
              case Reply(m, end) => Reply(m, end)
              case Error => Error
    decreases |a| - at
  {
    if at == |a| {
      RunShift(n, a, b, 0);
    } else {
      assert (a + b)[at] == a[at];
      var (n', code) := Step(n, a[at]);
      if code.Retry? { RunConcat(n', a, b, at + 1); }
    }
  }

  /** A reply ends inside the input. */
  lemma {:induction false} RunEnd(n: Node, s: seq<Byte>, at: nat)
    requires at <= |s|
    ensures RunAt(n, s, at).Reply? ==> at < RunAt(n, s, at).end <= |s|
    decreases |s| - at
  {
    if at < |s| {
      var (n', code) := Step(n, s[at]);
      if code.Retry? { RunEnd(n', s, at + 1); }
    }
  }

  /** An array parses its current child first. */
  lemma {:induction false} ChildRun(n: Node, s: seq<Byte>, at: nat)
    requires at <= |s| && n.op == STAR && n.want > 0 && n.pos < |n.childs|
    ensures RunAt(n.childs[n.pos], s, at).Reply? ==> at < RunAt(n.childs[n.pos], s, at).end <= |s|
    ensures RunAt(n, s, at) ==
              match RunAt(n.childs[n.pos], s, at)
              case More(c) => More(n.(childs := n.childs[n.pos := c]))
              case Error => Error
              case Reply(c, end) =>
                if n.pos + 1 == n.want then Reply(ChildDone(n, c), end) else RunAt(ChildDone(n, c), s, end)
    decreases |s| - at
  {
    RunEnd(n.childs[n.pos], s, at);
    if at == |s| {
      assert n.childs[n.pos := n.childs[n.pos]] == n.childs;
    } else {
      var (c', code) := Step(n.childs[n.pos], s[at]);
      if code.Retry? {
        var n' := n.(childs := n.childs[n.pos := c']);
        assert Step(n, s[at]) == (n', Retry) && n'.childs[n.pos] == c';
        ChildRun(n', s, at + 1);
        var r := RunAt(c', s, at + 1);
        if !r.Error? { assert n'.childs[n.pos := r.n] == n.childs[n.pos := r.n]; }
      } else {
        assert Step(n, s[at]) == StepArray(n, s[at]);
      }
    }
  }

  // ---- States between two pieces of input ----

  /** A node in the middle of its reply. */
  ghost predicate Live(n: Node) {
    if n.op == 0 then n == Fresh
    else if n.op == PLUS || n.op == MINUS then n.want == 0
    else if n.op == COLON then true
    else if n.op == DOLLAR then
      n.want >= 0 && (if n.want == 0 then n.str == [] else |n.str| + (if n.want > 2 then n.want - 2 else 0) == n.len)
    else
      && n.op == STAR && n.want >= 0
      && (if n.want == 0 then n.childs == [] && n.pos == 0
          else |n.childs| == n.want && n.pos < n.want && Live(n.childs[n.pos])
               && forall i :: n.pos < i < n.want ==> n.childs[i] == Fresh)
  }

  lemma {:induction false} StepLive(n: Node, c: Byte)
    requires Live(n) && Step(n, c).1.Retry?
    ensures Live(Step(n, c).0)
    decreases n
  {
    if n.op == STAR && n.want > 0 {
      var (c', code) := Step(n.childs[n.pos], c);
      if code.Retry? { StepLive(n.childs[n.pos], c); }
    }
  }

  lemma {:induction false} RunLive(n: Node, s: seq<Byte>, at: nat)
    requires at <= |s| && Live(n)
    ensures RunAt(n, s, at).More? ==> Live(RunAt(n, s, at).n)
    decreases |s| - at
  {
    if at < |s| && Step(n, s[at]).1.Retry? {
      StepLive(n, s[at]);
      RunLive(Step(n, s[at]).0, s, at + 1);
    }
  }

  /** Resuming an integer forgets a sign already read. */
  function Reset(n: Node): (r: Node) {
    if n.op == COLON then n.(want := 1)
    else if n.op == STAR && n.want > 0 && n.pos < |n.childs| then
      n.(childs := n.childs[n.pos := Reset(n.childs[n.pos])])
    else n
  }

  /** The input ended inside an integer, after its sign. */
  predicate SignPending(n: Node) {
    if n.op == COLON then n.want != 1
    else n.op == STAR && n.want > 0 && n.pos < |n.childs| && SignPending(n.childs[n.pos])
  }

  lemma {:induction false} ResetUnlessSign(n: Node)
    ensures Reset(n) == n <==> !SignPending(n)
  {
    if n.op == STAR && n.want > 0 && n.pos < |n.childs| {
      var c := n.childs[n.pos];
      ResetUnlessSign(c);
      var cs := n.childs[n.pos := Reset(c)];
      assert cs[n.pos] == Reset(c);
      if Reset(c) == c { assert cs == n.childs; }
    }
  }

  lemma {:induction false} ResetLive(n: Node)
    requires Live(n)
    ensures Live(Reset(n))
  {
    if n.op == STAR && n.want > 0 { ResetLive(n.childs[n.pos]); }
  }

  // ---- The block parser ----

  /** A call that returned `n'`, `at'` and `code` did what the byte-wise parser does. */
  ghost predicate Agrees(r: Result, s: seq<Byte>, n': Node, at': nat, code: Code) {
    match r
    case More(m) => code.Retry? && n' == m && at' == |s|
    case Reply(m, end) => code.Done? && n' == m && at' == end
    case Error => code.Failed?
  }

  /** `parse_string` with a known length: the text and the CR LF after it. */
  method ParseSized(n: Node, s: seq<Byte>, at: nat) returns (n': Node, at': nat, code: Code)
    requires at <= |s| && Live(n) && n.op == DOLLAR && n.want > 0
    ensures Agrees(RunAt(n, s, at), s, n', at', code)
  {
    hide RunAt;
    n', at' := n, at;
    while at' < |s| && n'.want > 0
      invariant at <= at' <= |s| && n'.op == DOLLAR && 0 <= n'.want
      invariant |n'.str| + (if n'.want > 2 then n'.want - 2 else 0) == n'.len
      invariant RunAt(n, s, at) == if n'.want == 0 then Reply(n', at') else RunAt(n', s, at')
    {
      SizedStep(n', s, at');
      n' := n'.(str := if n'.want > 2 then n'.str + [s[at']] else n'.str, want := n'.want - 1);
      at' := at' + 1;
    }
    if n'.want > 0 {
      RunNothing(n', s);
      return n', at', Retry;
    }
    assert n'.len == |n'.str|;
    code := Done;
  }

  lemma {:induction false} RunNothing(n: Node, s: seq<Byte>)
    ensures RunAt(n, s, |s|) == More(n)
  {
  }

  /** One byte of a text of known length. */
  lemma {:induction false} SizedStep(n: Node, s: seq<Byte>, at: nat)
    requires at < |s| && n.op == DOLLAR && n.want > 0 && |n.str| + (if n.want > 2 then n.want - 2 else 0) == n.len
    ensures
      var n' := n.(str := if n.want > 2 then n.str + [s[at]] else n.str, want := n.want - 1);
      RunAt(n, s, at) == if n'.want == 0 then Reply(n', at + 1) else RunAt(n', s, at + 1)
  {
  }

  /** `parse_string` without a length: everything up to CR LF. */
  method ParseLine(n: Node, s: seq<Byte>, at: nat) returns (n': Node, at': nat, code: Code)
    requires at <= |s| && (n.op == PLUS || n.op == MINUS)
    ensures Agrees(RunAt(n, s, at), s, n', at', code)
  {
    n', at' := n, at;
    while true
      invariant at <= at' <= |s| && n'.op == n.op && RunAt(n, s, at) == RunAt(n', s, at')
      decreases |s| - at'
    {
      var termi := n'.brk;
      while at' < |s| && s[at'] != termi
        invariant at <= at' <= |s| && n'.op == n.op && n'.brk == termi && RunAt(n, s, at) == RunAt(n', s, at')
      {
        n', at' := n'.(str := n'.str + [s[at']]), at' + 1;
      }
      if at' == |s| { return n', at', Retry; }
      at' := at' + 1;
      if termi == LF { break; }
      n' := n'.(brk := LF);
    }
    n' := n'.(len := |n'.str|);
    code := Done;
  }

  /** `parse_integer`, with the sign as `parse` set it. */
  method ParseInteger(n: Node, s: seq<Byte>, at: nat) returns (n': Node, at': nat, code: Code)
    requires at <= |s| && n.op == COLON
    ensures Agrees(RunAt(n, s, at), s, n', at', code)
  {
    n', at' := n, at;
    while true
      invariant at <= at' <= |s| && n'.op == COLON && RunAt(n, s, at) == RunAt(n', s, at')
      decreases |s| - at'
    {
      var termi := n'.brk;
      while at' < |s| && s[at'] != termi
        invariant at <= at' <= |s| && n'.op == COLON && n'.brk == termi && RunAt(n, s, at) == RunAt(n', s, at')
      {
        if s[at'] == MINUS {
          n' := n'.(want := -1);
        } else if IsDigit(s[at']) {
          n' := n'.(integer := n'.integer * 10 + (s[at'] - 48));
        } else {
          return n', at', Failed;
        }
        at' := at' + 1;
      }
      if at' == |s| { return n', at', Retry; }
      at' := at' + 1;
      if termi == LF { break; }
      n' := n'.(brk := LF);
    }
    n' := n'.(integer := n'.integer * n'.want);
    code := Done;
  }

  /** The length line of `parse_breply`; `Done` means the line is complete. */
  method ParseLength(n: Node, s: seq<Byte>, at: nat) returns (n': Node, at': nat, code: Code)
    requires at <= |s| && n.op == DOLLAR && n.want == 0 && Live(n)
    ensures at <= at' <= |s|
    ensures match code
            case Retry => at' == |s| && RunAt(n, s, at) == More(n')
            case Failed => RunAt(n, s, at) == Error
            case Done => n'.op == DOLLAR && n'.want == 0 && n'.str == [] && n'.brk == CR &&
                         RunAt(n, s, at) == if n'.rtype.NilReply? then Reply(n', at') else RunAt(BulkHeader(n').0, s, at')
  {
    hide RunAt;
    n', at' := n, at;
    while true
      invariant at <= at' <= |s| && n'.op == DOLLAR && n'.want == 0 && n'.str == []
      invariant RunAt(n, s, at) == RunAt(n', s, at')
      decreases |s| - at'
    {
      var termi := n'.brk;
      while at' < |s| && s[at'] != termi
        invariant at <= at' <= |s| && n'.op == DOLLAR && n'.want == 0 && n'.str == [] && n'.brk == termi
        invariant RunAt(n, s, at) == RunAt(n', s, at')
      {
        RunUnfold(n', s, at');
        if s[at'] == MINUS {
          n' := n'.(rtype := NilReply);
        } else if IsDigit(s[at']) {
          n' := n'.(len := n'.len * 10 + (s[at'] - 48));
        } else {
          return n', at', Failed;
        }
        at' := at' + 1;
      }
      RunUnfold(n', s, at');
      if at' == |s| { return n', at', Retry; }
      at' := at' + 1;
      if termi == LF {
        n' := n'.(brk := CR);
        return n', at', Done;
      }
      n' := n'.(brk := LF);
    }
  }

  /** The next byte of a run. */
  lemma {:induction false} RunUnfold(n: Node, s: seq<Byte>, at: nat)
    requires at <= |s|
    ensures RunAt(n, s, at) ==
              if at == |s| then More(n)
              else
                var (n', code) := Step(n, s[at]);
                match code
                case Retry => RunAt(n', s, at + 1)
                case Done => Reply(n', at + 1)
                case Failed => Error
  {
  }

  /** `parse_breply` */
  method ParseBulk(n: Node, s: seq<Byte>, at: nat) returns (n': Node, at': nat, code: Code)
    requires at <= |s| && n.op == DOLLAR && Live(n)
    ensures Agrees(RunAt(n, s, at), s, n', at', code)
  {
    n', at' := n, at;
    if n.want == 0 {
      n', at', code := ParseLength(n, s, at);
      if !code.Done? { return; }
      if n'.rtype.NilReply? { return; }
      n' := n'.(want := n'.len + 2);
    }
    n', at', code := ParseSized(n', s, at');
  }

  lemma StepCount(n: Node, c: Byte)
    requires n.op == STAR && n.want == 0
    ensures Step(n, c) ==
              if c == n.brk then if c == LF then ArrayHeader(n) else (n.(brk := LF), Retry)
              else if c == MINUS then (n.(rtype := NilReply), Retry)
              else if IsDigit(c) then (n.(elements := n.elements * 10 + (c - 48)), Retry)
              else (n, Failed)
  {
  }

  /** The count line of `parse_mbreply`; `Done` means the line is complete and the children exist. */
  method ParseCount(n: Node, s: seq<Byte>, at: nat) returns (n': Node, at': nat, code: Code)
    requires at <= |s| && n.op == STAR && n.want == 0 && Live(n)
    ensures at <= at' <= |s|
    ensures match code
            case Retry => at' == |s| && RunAt(n, s, at) == More(n')
            case Failed => RunAt(n, s, at) == Error
            case Done => at < at' && n'.op == STAR && n'.pos == 0 && n'.want == n'.elements &&
                         n'.childs == seq(n'.elements, _ => Fresh) &&
                         RunAt(n, s, at) == if n'.want == 0 then Reply(n', at') else RunAt(n', s, at')
  {
    n', at' := n, at;
    while true
      invariant at <= at' <= |s| && n'.op == STAR && n'.want == 0 && n'.pos == 0 && n'.childs == []
      invariant RunAt(n, s, at) == RunAt(n', s, at')
      decreases |s| - at'
    {
      var termi := n'.brk;
      while at' < |s| && s[at'] != termi
        invariant at <= at' <= |s| && n'.op == STAR && n'.want == 0 && n'.pos == 0 && n'.childs == [] && n'.brk == termi
        invariant RunAt(n, s, at) == RunAt(n', s, at')
      {
        StepCount(n', s[at']);
        if s[at'] == MINUS {
          n' := n'.(rtype := NilReply);
        } else if IsDigit(s[at']) {
          n' := n'.(elements := n'.elements * 10 + (s[at'] - 48));
        } else {
          return n', at', Failed;
        }
        at' := at' + 1;
      }
      if at' == |s| { return n', at', Retry; }
      StepCount(n', s[at']);
      at' := at' + 1;
      if termi == LF {
        n' := n'.(brk := CR, want := n'.elements, childs := seq(n'.elements, _ => Fresh));
        return n', at', Done;
      }
      n' := n'.(brk := LF);
    }
  }

  /** An array all of whose remaining children are new. */
  ghost predicate Waiting(n: Node) {
    && n.op == STAR && n.want > 0 && |n.childs| == n.want && n.pos < n.want && Live(n.childs[n.pos])
    && (forall i :: n.pos < i < n.want ==> n.childs[i] == Fresh)
  }

  lemma ResetChildRun(n: Node, s: seq<Byte>, at: nat)
    requires at <= |s| && Waiting(n)
    ensures
      var r := RunAt(Reset(n.childs[n.pos]), s, at);
      && (r.Reply? ==> at < r.end <= |s|)
      && RunAt(Reset(n), s, at) ==
           match r
           case More(c) => More(n.(childs := n.childs[n.pos := c]))
           case Error => Error
           case Reply(c, end) =>
             if n.pos + 1 == n.want then Reply(ChildDone(n, c), end) else RunAt(ChildDone(n, c), s, end)
  {
    var m := Reset(n);
    ChildRun(m, s, at);
    assert m.childs[n.pos] == Reset(n.childs[n.pos]);
    var r := RunAt(Reset(n.childs[n.pos]), s, at);
    if !r.Error? { assert m.childs[n.pos := r.n] == n.childs[n.pos := r.n]; }
  }

  /** After a child is done the next one is new, so nothing is forgotten. */
  lemma NextChild(n: Node, c: Node)
    requires Waiting(n) && n.pos + 1 < n.want
    ensures Waiting(ChildDone(n, c)) && Reset(ChildDone(n, c)) == ChildDone(n, c)
  {
    var m := ChildDone(n, c);
    assert m.childs[m.pos] == Fresh;
    assert m.childs[m.pos := Fresh] == m.childs;
  }

  /** The element loop of `parse_mbreply`. */
  method ParseChildren(n: Node, s: seq<Byte>, at: nat) returns (n': Node, at': nat, code: Code)
    requires at <= |s| && Waiting(n) && (at < |s| || Reset(n) == n)
    ensures Agrees(RunAt(Reset(n), s, at), s, n', at', code)
    decreases |s| - at, n, 0
  {
    n', at' := n, at;
    while n'.pos < n'.want
      invariant at <= at' <= |s| && n'.want == n.want && (n'.pos < n'.want ==> Waiting(n'))
      invariant (n' == n && at' == at) || (at < at' && Reset(n') == n')
      invariant RunAt(Reset(n), s, at) == if n'.pos < n'.want then RunAt(Reset(n'), s, at') else Reply(n', at')
      decreases |s| - at'
    {
      if at' == |s| { return n', at', Retry; }
      ResetChildRun(n', s, at');
      var c, end, ret := Parse(n'.childs[n'.pos], s, at');
      if !ret.Done? {
        return n'.(childs := n'.childs[n'.pos := c]), end, ret;
      }
      if n'.pos + 1 < n'.want { NextChild(n', c); }
      n', at' := ChildDone(n', c), end;
    }
    code := Done;
  }

  /** `parse_mbreply` */
  method ParseMulti(n: Node, s: seq<Byte>, at: nat) returns (n': Node, at': nat, code: Code)
    requires at <= |s| && n.op == STAR && Live(n) && (at < |s| || n.want == 0)
    ensures Agrees(RunAt(Reset(n), s, at), s, n', at', code)
    decreases |s| - at, n, 1
  {
    n', at' := n, at;
    if n.want == 0 {
      n', at', code := ParseCount(n, s, at);
      if !code.Done? || n'.want == 0 { return; }
      assert n'.childs[0 := Fresh] == n'.childs;
      assert Reset(n') == n';
    }
    n', at', code := ParseChildren(n', s, at');
  }

  /** `parse`: one call on one piece of input. */
  method Parse(n: Node, s: seq<Byte>, at: nat) returns (n': Node, at': nat, code: Code)
    requires at < |s| && Live(n)
    ensures Agrees(RunAt(Reset(n), s, at), s, n', at', code)
    decreases |s| - at, n, 2
  {
    n', at' := n, at;
    if n.op == 0 {
      at' := at + 1;
      if TypeOf(s[at]).NoType? { return n, at', Failed; }
      n' := n.(op := s[at], rtype := TypeOf(s[at]));
    }
    if n'.op == PLUS || n'.op == MINUS {
      n', at', code := ParseLine(n', s, at');
    } else if n'.op == COLON {
      n', at', code := ParseInteger(n'.(want := 1), s, at');
    } else if n'.op == DOLLAR {
      n', at', code := ParseBulk(n', s, at');
    } else {
      n', at', code := ParseMulti(n', s, at');
    }
  }
}
