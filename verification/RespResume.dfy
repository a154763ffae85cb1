/** Where a piece of a reply may end (src/redis/chk_client.c): what a lost sign changes, seen from outside.

When `parse` is called again it resets the sign of an integer it had begun.  The parser then goes on from `Reset(n)`
instead of `n`.
*/
module RespResume {
  import opened Bytes
  import opened Resp
  import opened RespCodec

  /** Two outcomes a caller cannot tell apart. */
  ghost predicate SameOutcome(a: Result, b: Result) {
    match a
    case More(_) => b.More?
    case Error => b.Error?
    case Reply(n, end) => b.Reply? && b.end == end && ValueOf(b.n) == ValueOf(n)
  }

  /** What every node the parser can be in satisfies. */
  ghost predicate Shaped(n: Node) {
    && (n.op == COLON ==> n.rtype.IntegerReply? && (n.brk == CR || n.brk == LF))
    && (n.op == STAR ==> n.rtype.ArrayReply? || n.rtype.NilReply?)
    && (n.op == STAR && n.want > 0 && n.pos < |n.childs| ==> Shaped(n.childs[n.pos]))
  }

  lemma {:induction false} StepShaped(n: Node, c: Byte)
    requires Live(n) && Shaped(n) && Step(n, c).1.Retry?
    ensures Shaped(Step(n, c).0)
    decreases n
  {
    if n.op == STAR && n.want > 0 {
      var (c', code) := Step(n.childs[n.pos], c);
      if code.Retry? { StepShaped(n.childs[n.pos], c); }
    }
  }

  /** Every node in which the parser waits for more input is live and shaped. */
  lemma {:induction false} RunShaped(n: Node, s: seq<Byte>, at: nat)
    requires at <= |s| && Live(n) && Shaped(n)
    ensures RunAt(n, s, at).More? ==> Live(RunAt(n, s, at).n) && Shaped(RunAt(n, s, at).n)
    decreases |s| - at
  {
    if at < |s| && Step(n, s[at]).1.Retry? {
      StepLive(n, s[at]);
      StepShaped(n, s[at]);
      RunShaped(Step(n, s[at]).0, s, at + 1);
    }
  }

  /** A sign is pending, and no null array around it swallows the value. */
  predicate SignShows(n: Node) {
    if n.op == COLON then n.want != 1
    else n.op == STAR && n.want > 0 && n.pos < |n.childs| && n.rtype.ArrayReply? && SignShows(n.childs[n.pos])
  }

  // ---- No sign that shows: no difference ----

  /** Two nodes that take the same way through every input; integers may differ. */
  ghost predicate Twin(n: Node, m: Node)
    decreases n
  {
    if n.op == COLON then n.(want := m.want, integer := m.integer) == m
    else if n.op == STAR then
      && n.(childs := m.childs) == m && |n.childs| == |m.childs|
      && (n.pos < |n.childs| ==> Twin(n.childs[n.pos], m.childs[n.pos]))
      && (forall i :: n.pos < i < |n.childs| ==> n.childs[i] == m.childs[i])
    else n == m
  }

  lemma {:induction false} TwinSelf(n: Node)
    ensures Twin(n, n)
  {
    if n.op == STAR && n.pos < |n.childs| { TwinSelf(n.childs[n.pos]); }
  }

  lemma {:induction false} StepTwin(n: Node, m: Node, c: Byte)
    requires Twin(n, m)
    ensures Step(n, c).1 == Step(m, c).1 && Twin(Step(n, c).0, Step(m, c).0)
    decreases n
  {
    if n.op == STAR {
      if n.want == 0 {
        StepCount(n, c);
        StepCount(m, c);
        CountTwin(n, m, c);
      } else if n.pos < |n.childs| {
        StepTwin(n.childs[n.pos], m.childs[n.pos], c);
        ChildTwin(n, m, c);
      }
    } else if n.op != COLON {
      TwinSelf(Step(n, c).0);
    }
  }

  lemma {:induction false} CountTwin(n: Node, m: Node, c: Byte)
    requires Twin(n, m) && n.op == STAR && n.want == 0
    ensures Step(n, c).1 == Step(m, c).1 && Twin(Step(n, c).0, Step(m, c).0)
  {
    StepCount(n, c);
    StepCount(m, c);
    TwinSelf(Fresh);
    if c == n.brk == LF && n.elements > 0 { assert Step(n, c).0 == Step(m, c).0; TwinSelf(Step(n, c).0); }
  }

  lemma {:induction false} ChildTwin(n: Node, m: Node, c: Byte)
    requires Twin(n, m) && n.op == STAR && n.want != 0 && n.pos < |n.childs|
    requires Step(n.childs[n.pos], c).1 == Step(m.childs[n.pos], c).1
    requires Twin(Step(n.childs[n.pos], c).0, Step(m.childs[n.pos], c).0)
    ensures Step(n, c).1 == Step(m, c).1 && Twin(Step(n, c).0, Step(m, c).0)
  {
    assert Step(n, c) == StepArray(n, c) && Step(m, c) == StepArray(m, c);
    if Step(n.childs[n.pos], c).1.Done? && n.pos + 1 < |n.childs| { TwinSelf(n.childs[n.pos + 1]); }
  }

  lemma {:induction false} ResetTwin(n: Node)
    ensures Twin(n, Reset(n))
  {
    if n.op == STAR && n.pos < |n.childs| {
      if n.want > 0 { ResetTwin(n.childs[n.pos]); } else { TwinSelf(n.childs[n.pos]); }
    }
  }

  /** Twins that also end in the same value. */
  ghost predicate Alike(n: Node, m: Node)
    decreases n
  {
    n == m || (
      && n.op == STAR && n.want > 0 && n.(childs := m.childs) == m && |n.childs| == |m.childs| == n.want && n.pos < n.want
      && (forall i :: n.pos < i < n.want ==> n.childs[i] == m.childs[i])
      && if n.rtype.NilReply? then Twin(n.childs[n.pos], m.childs[n.pos])
         else
           && n.rtype.ArrayReply? && Alike(n.childs[n.pos], m.childs[n.pos])
           && forall i :: 0 <= i < n.pos ==> ValueOf(n.childs[i]) == ValueOf(m.childs[i]))
  }

  lemma {:induction false} StepAlike(n: Node, m: Node, c: Byte)
    requires Alike(n, m)
    ensures Step(n, c).1 == Step(m, c).1
    ensures Step(n, c).1.Retry? ==> Alike(Step(n, c).0, Step(m, c).0)
    ensures Step(n, c).1.Done? ==> ValueOf(Step(n, c).0) == ValueOf(Step(m, c).0)
    decreases n
  {
    if n != m {
      assert Step(n, c) == StepArray(n, c) && Step(m, c) == StepArray(m, c);
      if n.rtype.NilReply? {
        StepTwin(n.childs[n.pos], m.childs[n.pos], c);
        NilStep(n, m, c);
      } else {
        StepAlike(n.childs[n.pos], m.childs[n.pos], c);
        ArrayStep(n, m, c);
      }
    }
  }

  lemma {:induction false} NilStep(n: Node, m: Node, c: Byte)
    requires Alike(n, m) && n != m && n.rtype.NilReply?
    requires Step(n.childs[n.pos], c).1 == Step(m.childs[n.pos], c).1
    requires Twin(Step(n.childs[n.pos], c).0, Step(m.childs[n.pos], c).0)
    ensures StepArray(n, c).1 == StepArray(m, c).1
    ensures StepArray(n, c).1.Retry? ==> Alike(StepArray(n, c).0, StepArray(m, c).0)
    ensures StepArray(n, c).1.Done? ==> ValueOf(StepArray(n, c).0) == ValueOf(StepArray(m, c).0)
  {
    hide Step;
    if Step(n.childs[n.pos], c).1.Done? && n.pos + 1 < n.want { TwinSelf(n.childs[n.pos + 1]); }
  }

  lemma {:induction false} ArrayStep(n: Node, m: Node, c: Byte)
    requires Alike(n, m) && n != m && !n.rtype.NilReply?
    requires
      var (a, code) := Step(n.childs[n.pos], c);
      var (b, code') := Step(m.childs[n.pos], c);
      code == code' && (code.Retry? ==> Alike(a, b)) && (code.Done? ==> ValueOf(a) == ValueOf(b))
    ensures StepArray(n, c).1 == StepArray(m, c).1
    ensures StepArray(n, c).1.Retry? ==> Alike(StepArray(n, c).0, StepArray(m, c).0)
    ensures StepArray(n, c).1.Done? ==> ValueOf(StepArray(n, c).0) == ValueOf(StepArray(m, c).0)
  {
    hide Step;
    var n', m' := StepArray(n, c).0, StepArray(m, c).0;
    if StepArray(n, c).1.Done? {
      assert forall i :: 0 <= i < |n'.childs| ==> ValueOf(n'.childs[i]) == ValueOf(m'.childs[i]);
    }
  }

  lemma {:induction false} RunAlike(n: Node, m: Node, s: seq<Byte>, at: nat)
    requires at <= |s| && Alike(n, m)
    ensures SameOutcome(RunAt(n, s, at), RunAt(m, s, at))
    decreases |s| - at
  {
    hide Alike, ValueOf, Step;
    if at < |s| {
      StepAlike(n, m, s[at]);
      if Step(n, s[at]).1.Retry? { RunAlike(Step(n, s[at]).0, Step(m, s[at]).0, s, at + 1); }
    }
  }

  lemma {:induction false} ResetAlike(n: Node)
    requires Live(n) && Shaped(n) && !SignShows(n)
    ensures Alike(n, Reset(n))
  {
    ResetUnlessSign(n);
    if n != Reset(n) {
      if n.rtype.NilReply? { ResetTwin(n.childs[n.pos]); } else { ResetAlike(n.childs[n.pos]); }
    }
  }

  // ---- A sign that shows: input that tells ----

  /** The reply `:0`. */
  function Zero(): (s: seq<Byte>) {
    Encode(Integer(0))
  }

  function Zeros(k: nat): (s: seq<Byte>) {
    if k == 0 then [] else Zero() + Zeros(k - 1)
  }

  /** A digit for the integer, and whatever is missing. */
  function Finish(n: Node): (s: seq<Byte>)
    decreases n
  {
    if n.op == STAR && 0 <= n.pos < |n.childs| then Finish(n.childs[n.pos]) + Zeros(|n.childs| - n.pos - 1)
    else if n.brk == CR then [49, CR, LF]
    else [49, LF]
  }

  lemma {:induction false} FinishInteger(n: Node, s: seq<Byte>, at: nat)
    requires n.op == COLON && n.rtype.IntegerReply? && (n.brk == CR || n.brk == LF) && Has(s, at, Finish(n))
    ensures
      var r := RunAt(n, s, at);
      r.Reply? && r.end == at + |Finish(n)| && ValueOf(r.n) == Integer((n.integer * 10 + 1) * n.want)
  {
    var n1 := n.(integer := n.integer * 10 + 1);
    if n.brk == CR {
      assert Finish(n) == [49] + ([CR] + ([LF] + []));
      HasFirst(s, at, 49, [CR] + ([LF] + []));
      HasFirst(s, at + 1, CR, [LF] + []);
      HasFirst(s, at + 2, LF, []);
      RunStep(n, s, at, n1);
      RunStep(n1, s, at + 1, n1.(brk := LF));
      RunDone(n1.(brk := LF), s, at + 2, n1.(brk := LF, integer := n1.integer * n1.want));
    } else {
      assert Finish(n) == [49] + ([LF] + []);
      HasFirst(s, at, 49, [LF] + []);
      HasFirst(s, at + 1, LF, []);
      RunStep(n, s, at, n1);
      RunDone(n1, s, at + 1, n1.(integer := n1.integer * n1.want));
    }
  }

  /** The remaining elements of an array are zeros. */
  lemma {:induction false} FinishZeros(n: Node, s: seq<Byte>, at: nat)
    requires Waiting(n) && n.childs[n.pos] == Fresh && Has(s, at, Zeros(n.want - n.pos))
    ensures
      var r := RunAt(n, s, at);
      && r.Reply? && r.end == at + |Zeros(n.want - n.pos)| && r.n.rtype == n.rtype && |r.n.childs| == n.want
      && forall i :: 0 <= i < n.pos ==> r.n.childs[i] == n.childs[i]
    decreases n.want - n.pos
  {
    hide RunAt, Encode, ValueOf;
    HasSplit(s, at, Zero(), Zeros(n.want - n.pos - 1));
    ReadsValue(Integer(0), s, at);
    ChildRun(n, s, at);
    var r := RunAt(Fresh, s, at);
    if n.pos + 1 < n.want {
      var n' := ChildDone(n, r.n);
      NextChild(n, r.n);
      assert n'.childs[n'.pos] == Fresh;
      FinishZeros(n', s, r.end);
      var q := RunAt(n, s, at);
      forall i | 0 <= i < n.pos ensures q.n.childs[i] == n.childs[i] { assert n'.childs[i] == n.childs[i]; }
    }
  }

  /** An array whose current child ends in `c` and whose other children are zeros. */
  lemma {:induction false} FinishAfter(n: Node, c: Node, s: seq<Byte>, at: nat)
    requires Waiting(n) && n.rtype.ArrayReply? && Has(s, at, Zeros(n.want - n.pos - 1)) && n.pos + 1 < n.want
    ensures
      var r := RunAt(ChildDone(n, c), s, at);
      && r.Reply? && r.end == at + |Zeros(n.want - n.pos - 1)| && ShowsAt(ValueOf(r.n), n.pos, ValueOf(c))
  {
    var n' := ChildDone(n, c);
    NextChild(n, c);
    assert n'.childs[n'.pos] == Fresh;
    FinishZeros(n', s, at);
    assert RunAt(n', s, at).n.childs[n.pos] == n'.childs[n.pos] == c;
  }

  ghost predicate ShowsAt(v: Value, i: nat, x: Value) {
    v.Array? && i < |v.items| && v.items[i] == x
  }

  /** Where the sign shows, the same input gives different values with and without it. */
  lemma {:induction false} LostSignShows(n: Node, s: seq<Byte>, at: nat)
    requires Live(n) && Shaped(n) && SignShows(n) && Has(s, at, Finish(n))
    ensures
      var a, b := RunAt(n, s, at), RunAt(Reset(n), s, at);
      a.Reply? && b.Reply? && a.end == b.end == at + |Finish(n)| && ValueOf(a.n) != ValueOf(b.n)
    decreases n
  {
    if n.op == COLON {
      FinishInteger(n, s, at);
      FinishInteger(Reset(n), s, at);
      Scaled(n.integer * 10 + 1, n.want);
    } else {
      LostInArray(n, s, at);
    }
  }

  lemma Scaled(m: int, w: int)
    requires m != 0 && w != 1
    ensures m * w != m * 1
  {
    assert m * w == m + m * (w - 1);
    NonZero(m, w - 1);
  }

  lemma NonZero(a: int, b: int)
    requires a != 0 && b != 0
    ensures a * b != 0
  {
  }

  lemma {:induction false} LostInArray(n: Node, s: seq<Byte>, at: nat)
    requires Live(n) && Shaped(n) && SignShows(n) && n.op == STAR && Has(s, at, Finish(n))
    ensures
      var a, b := RunAt(n, s, at), RunAt(Reset(n), s, at);
      a.Reply? && b.Reply? && a.end == b.end == at + |Finish(n)| && ValueOf(a.n) != ValueOf(b.n)
    decreases n, 0
  {
    hide RunAt, Zeros;
    var c, k := n.childs[n.pos], n.want - n.pos - 1;
    HasSplit(s, at, Finish(c), Zeros(k));
    LostSignShows(c, s, at);
    HasWithin(s, at, Finish(c));
    ChildRun(n, s, at);
    ResetChildRun(n, s, at);
    var a, b := RunAt(c, s, at), RunAt(Reset(c), s, at);
    if k > 0 {
      FinishAfter(n, a.n, s, a.end);
      FinishAfter(n, b.n, s, b.end);
    } else {
      NoZeros();
      LastShows(n, a.n);
      LastShows(n, b.n);
    }
  }

  lemma NoZeros()
    ensures Zeros(0) == []
  {
  }

  lemma LastShows(n: Node, c: Node)
    requires n.rtype.ArrayReply? && n.pos < |n.childs|
    ensures ShowsAt(ValueOf(ChildDone(n, c)), n.pos, ValueOf(c))
  {
    assert ChildDone(n, c).childs[n.pos] == c;
  }

  // ---- The exact condition ----

  /** Where a piece may end: a caller cannot tell a resumed parser from an uninterrupted one, whatever follows, exactly when
      no sign is pending that shows. Otherwise some input ends in two replies with different values. */
  lemma {:induction false} ResumesIffNoSign(n: Node)
    requires Live(n) && Shaped(n)
    ensures (forall b: seq<Byte> :: SameOutcome(RunAt(n, b, 0), RunAt(Reset(n), b, 0))) <==> !SignShows(n)
    ensures SignShows(n) ==>
              var a, b := RunAt(n, Finish(n), 0), RunAt(Reset(n), Finish(n), 0);
              a.Reply? && b.Reply? && ValueOf(a.n) != ValueOf(b.n)
  {
    hide RunAt, SameOutcome, Shaped, SignShows, Live;
    if SignShows(n) {
      var b := Finish(n);
      assert b[0..0 + |b|] == b;
      LostSignShows(n, b, 0);
      Differ(RunAt(n, b, 0), RunAt(Reset(n), b, 0));
    } else {
      ResetAlike(n);
      forall b: seq<Byte> ensures SameOutcome(RunAt(n, b, 0), RunAt(Reset(n), b, 0)) { RunAlike(n, Reset(n), b, 0); }
    }
  }

  lemma Differ(a: Result, b: Result)
    requires a.Reply? && b.Reply? && ValueOf(a.n) != ValueOf(b.n)
    ensures !SameOutcome(a, b)
  {
  }

  /** Inside a null array a pending sign does not show: the elements are read, but the value is nil. */
  lemma SignInNullArray()
    ensures
      var r := RunAt(Fresh, [STAR, MINUS, 49, CR, LF, COLON, MINUS], 0);
      r.More? && SignPending(r.n) && !SignShows(r.n)
  {
    var s := [STAR, MINUS, 49, CR, LF, COLON, MINUS];
    var n := Fresh.(op := STAR, rtype := NilReply, elements := 1, want := 1, childs := [Fresh]);
    assert s[0..5] == Encode(NullArray);
    assert seq(1, _ => Fresh) == [Fresh];
    NullHeader(s);
    var c := Fresh.(op := COLON, rtype := IntegerReply, want := 1);
    assert [Fresh][0 := c] == [c] && [c][0 := c.(want := -1)] == [c.(want := -1)];
    assert Step(Fresh, COLON) == (c, Retry) && Step(c, MINUS) == (c.(want := -1), Retry);
    assert Step(n, COLON) == StepArray(n, COLON) && Step(n.(childs := [c]), MINUS) == StepArray(n.(childs := [c]), MINUS);
    RunStep(n, s, 5, n.(childs := [c]));
    RunStep(n.(childs := [c]), s, 6, n.(childs := [c.(want := -1)]));
  }

  lemma NullHeader(s: seq<Byte>)
    requires |s| > 5 && s[0..5] == [STAR, MINUS, 49, CR, LF]
    ensures
      var n := Fresh.(op := STAR, rtype := NilReply, elements := 1, want := 1, childs := [Fresh]);
      RunAt(Fresh, s, 0) == RunAt(n, s, 5)
  {
    var t := s[0..5];
    assert s[0] == t[0] && s[1] == t[1] && s[2] == t[2] && s[3] == t[3] && s[4] == t[4];
    var n := Fresh.(op := STAR, rtype := ArrayReply);
    RunStep(Fresh, s, 0, n);
    RunStep(n, s, 1, n.(rtype := NilReply));
    var n2 := n.(rtype := NilReply, elements := 1);
    RunStep(n.(rtype := NilReply), s, 2, n2);
    RunStep(n2, s, 3, n2.(brk := LF));
    assert seq(1, _ => Fresh) == [Fresh];
    RunStep(n2.(brk := LF), s, 4, n2.(want := 1, childs := [Fresh]));
  }
}
