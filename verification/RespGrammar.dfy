/** The language of the reply parser of src/redis/chk_client.c: which byte strings are replies, what they mean, and which
can no longer become one.

The parser is more generous than RESP2.  A line may have bytes between its CR and the next LF, a number line may have any
minus signs and need not have digits, and the two bytes behind a bulk string are not looked at.
*/
module RespGrammar {
  import opened Bytes
  import opened Resp
  import opened RespCodec
  import RespResume

  /** A reply as it stands on the wire; `a` and `b` are the parts of its first line before and behind the CR. */
  datatype Form =
    | LineForm(op: Byte, a: seq<Byte>, b: seq<Byte>)
    | IntegerForm(a: seq<Byte>, b: seq<Byte>)
    | BulkForm(a: seq<Byte>, b: seq<Byte>, text: seq<Byte>, x: Byte, y: Byte)
    | NilForm(a: seq<Byte>, b: seq<Byte>)
    | ArrayForm(a: seq<Byte>, b: seq<Byte>, items: seq<Form>)

  predicate NumberByte(c: Byte) {
    '0' as int <= c <= '9' as int || c == '-' as int
  }

  predicate NumberLine(t: seq<Byte>) {
    forall i :: 0 <= i < |t| ==> NumberByte(t[i])
  }

  /** The digits of a number line, whatever signs stand between them. */
  function Number(t: seq<Byte>): (n: nat) {
    if t == [] then 0
    else
      var m, c := Number(t[..|t| - 1]), t[|t| - 1];
      if '0' as int <= c <= '9' as int then m * 10 + (c - '0' as int) else m
  }

  predicate Negative(t: seq<Byte>) {
    '-' as int in t
  }

  predicate FormOk(f: Form)
    decreases f
  {
    match f
    case LineForm(op, a, b) => (op == '+' as int || op == '-' as int) && '\r' as int !in a && '\n' as int !in b
    case IntegerForm(a, b) => NumberLine(a + b)
    case BulkForm(a, b, text, _, _) => NumberLine(a + b) && !Negative(a + b) && |text| == Number(a + b)
    case NilForm(a, b) => NumberLine(a + b) && Negative(a + b)
    case ArrayForm(a, b, items) =>
      NumberLine(a + b) && |items| == Number(a + b) && forall i :: 0 <= i < |items| ==> FormOk(items[i])
  }

  function FirstLine(op: Byte, a: seq<Byte>, b: seq<Byte>): (s: seq<Byte>) {
    [op] + (a + (['\r' as int] + (b + ['\n' as int])))
  }

  function Spell(f: Form): (s: seq<Byte>)
    decreases f
  {
    match f
    case LineForm(op, a, b) => FirstLine(op, a, b)
    case IntegerForm(a, b) => FirstLine(':' as int, a, b)
    case BulkForm(a, b, text, x, y) => FirstLine('$' as int, a, b) + (text + [x, y])
    case NilForm(a, b) => FirstLine('$' as int, a, b)
    case ArrayForm(a, b, items) => FirstLine('*' as int, a, b) + SpellAll(items)
  }

  function SpellAll(fs: seq<Form>): (s: seq<Byte>)
    decreases fs
  {
    if fs == [] then [] else Spell(fs[0]) + SpellAll(fs[1..])
  }

  function Means(f: Form): (v: Value)
    decreases f
  {
    match f
    case LineForm(op, a, b) => if op == '+' as int then Status(a + b) else Err(a + b)
    case IntegerForm(a, b) => Integer(if Negative(a + b) then -(Number(a + b) as int) else Number(a + b))
    case BulkForm(_, _, text, _, _) => Bulk(text)
    case NilForm(_, _) => Nil
    case ArrayForm(a, b, items) =>
      if Negative(a + b) then Nil else Array(seq(|items|, i requires 0 <= i < |items| => Means(items[i])))
  }

  /** Form `f` stands at position `at`. */
  ghost predicate StandsAt(s: seq<Byte>, at: nat, f: Form) {
    FormOk(f) && Has(s, at, Spell(f))
  }

  // ---- Number lines ----

  /** The parser inside a number line of which it has read `t`. */
  function Counting(op: Byte, t: seq<Byte>, brk: Byte): (n: Node)
    requires op == COLON || op == DOLLAR || op == STAR
  {
    if op == COLON then
      Fresh.(op := op, rtype := IntegerReply, integer := Number(t), want := if Negative(t) then -1 else 1, brk := brk)
    else if op == DOLLAR then
      Fresh.(op := op, rtype := if Negative(t) then NilReply else StringReply, len := Number(t), brk := brk)
    else Fresh.(op := op, rtype := if Negative(t) then NilReply else ArrayReply, elements := Number(t), brk := brk)
  }

  lemma NumberSnoc(t: seq<Byte>, c: Byte)
    ensures Number(t + [c]) == if '0' as int <= c <= '9' as int then Number(t) * 10 + (c - '0' as int) else Number(t)
    ensures Negative(t + [c]) <==> Negative(t) || c == '-' as int
  {
    assert (t + [c])[..|t|] == t;
  }

  lemma CountStep(op: Byte, t: seq<Byte>, brk: Byte, c: Byte)
    requires (op == COLON || op == DOLLAR || op == STAR) && (brk == CR || brk == LF)
    ensures c == CR == brk ==> Step(Counting(op, t, brk), c) == (Counting(op, t, LF), Retry)
    ensures NumberByte(c) ==> Step(Counting(op, t, brk), c) == (Counting(op, t + [c], brk), Retry)
    ensures c != brk && !NumberByte(c) ==> Step(Counting(op, t, brk), c).1.Failed?
  {
    hide Number, Negative;
    NumberSnoc(t, c);
    if op == STAR { StepCount(Counting(op, t, brk), c); }
  }

  lemma {:induction false} CountRun(op: Byte, t: seq<Byte>, brk: Byte, u: seq<Byte>, s: seq<Byte>, at: nat)
    requires (op == COLON || op == DOLLAR || op == STAR) && (brk == CR || brk == LF) && NumberLine(u) && Has(s, at, u)
    ensures at + |u| <= |s| && RunAt(Counting(op, t, brk), s, at) == RunAt(Counting(op, t + u, brk), s, at + |u|)
    decreases |u|
  {
    hide RunAt, Counting, Step, Has;
    HasWithin(s, at, u);
    if u == [] {
      assert t + u == t;
    } else {
      assert u == [u[0]] + u[1..];
      HasFirst(s, at, u[0], u[1..]);
      CountStep(op, t, brk, u[0]);
      RunStep(Counting(op, t, brk), s, at, Counting(op, t + [u[0]], brk));
      CountRun(op, t + [u[0]], brk, u[1..], s, at + 1);
      assert t + [u[0]] + u[1..] == t + u;
    }
  }

  /** A number line up to its LF. */
  lemma NumberLineRun(op: Byte, a: seq<Byte>, b: seq<Byte>, s: seq<Byte>, at: nat)
    requires (op == COLON || op == DOLLAR || op == STAR) && NumberLine(a + b) && Has(s, at, FirstLine(op, a, b))
    ensures
      var k := at + |a| + |b| + 2;
      k < |s| && s[k] == LF && RunAt(Fresh, s, at) == RunAt(Counting(op, a + b, LF), s, k)
  {
    hide RunAt, Counting, Step, Has;
    SplitLine(a, b);
    HasFirst(s, at, op, a + ([CR] + (b + [LF])));
    OpRun(op, s, at);
    HasSplit(s, at + 1, a, [CR] + (b + [LF]));
    CountRun(op, [], CR, a, s, at + 1);
    assert [] + a == a;
    HasFirst(s, at + 1 + |a|, CR, b + [LF]);
    CountStep(op, a, CR, CR);
    RunStep(Counting(op, a, CR), s, at + 1 + |a|, Counting(op, a, LF));
    HasSplit(s, at + 2 + |a|, b, [LF]);
    CountRun(op, a, LF, b, s, at + 2 + |a|);
    assert [LF] == [LF] + [];
    HasFirst(s, at + 2 + |a| + |b|, LF, []);
  }

  lemma SplitLine(a: seq<Byte>, b: seq<Byte>)
    requires NumberLine(a + b)
    ensures NumberLine(a) && NumberLine(b)
  {
    assert forall i :: 0 <= i < |a| ==> a[i] == (a + b)[i];
    assert forall i :: 0 <= i < |b| ==> b[i] == (a + b)[|a| + i];
  }

  lemma OpRun(op: Byte, s: seq<Byte>, at: nat)
    requires (op == COLON || op == DOLLAR || op == STAR) && at < |s| && s[at] == op
    ensures RunAt(Fresh, s, at) == RunAt(Counting(op, [], CR), s, at + 1)
  {
  }

  /** Until the line ends there are only number bytes. */
  lemma {:induction false} CountMust(op: Byte, t: seq<Byte>, brk: Byte, s: seq<Byte>, at: nat) returns (u: seq<Byte>)
    requires (op == COLON || op == DOLLAR || op == STAR) && (brk == CR || brk == LF)
    requires at <= |s| && RunAt(Counting(op, t, brk), s, at).Reply?
    ensures NumberLine(u) && at + |u| < |s| && Has(s, at, u) && s[at + |u|] == brk
    ensures RunAt(Counting(op, t, brk), s, at) == RunAt(Counting(op, t + u, brk), s, at + |u|)
    decreases |s| - at
  {
    hide Counting, Step;
    var c := s[at];
    CountStep(op, t, brk, c);
    if c == brk {
      u := [];
      assert t + u == t;
    } else {
      var rest := CountMust(op, t + [c], brk, s, at + 1);
      u := [c] + rest;
      assert t + [c] + rest == t + u;
      HasSplit(s, at, [c], rest);
    }
  }

  lemma NumberLineMust(op: Byte, s: seq<Byte>, at: nat) returns (a: seq<Byte>, b: seq<Byte>)
    requires (op == COLON || op == DOLLAR || op == STAR) && at < |s| && s[at] == op && RunAt(Fresh, s, at).Reply?
    ensures NumberLine(a + b) && Has(s, at, FirstLine(op, a, b))
    ensures
      var k := at + |a| + |b| + 2;
      k < |s| && s[k] == LF && RunAt(Fresh, s, at) == RunAt(Counting(op, a + b, LF), s, k)
  {
    hide RunAt, Counting, Step;
    OpRun(op, s, at);
    a := CountMust(op, [], CR, s, at + 1);
    assert [] + a == a;
    CountStep(op, a, CR, CR);
    RunStep(Counting(op, a, CR), s, at + 1 + |a|, Counting(op, a, LF));
    b := CountMust(op, a, LF, s, at + 2 + |a|);
    HasLine(op, a, b, s, at);
  }

  lemma HasLine(op: Byte, a: seq<Byte>, b: seq<Byte>, s: seq<Byte>, at: nat)
    requires at < |s| && s[at] == op && Has(s, at + 1, a) && at + 1 + |a| < |s| && s[at + 1 + |a|] == CR
    requires Has(s, at + 2 + |a|, b) && at + 2 + |a| + |b| < |s| && s[at + 2 + |a| + |b|] == LF
    ensures Has(s, at, FirstLine(op, a, b))
  {
    hide Has;
    HasByte(s, at);
    HasByte(s, at + 1 + |a|);
    HasByte(s, at + 2 + |a| + |b|);
    HasSplit(s, at + 2 + |a|, b, [LF]);
    HasSplit(s, at + 1 + |a|, [CR], b + [LF]);
    HasSplit(s, at + 1, a, [CR] + (b + [LF]));
    HasSplit(s, at, [op], a + ([CR] + (b + [LF])));
  }

  lemma HasByte(s: seq<Byte>, at: nat)
    requires at < |s|
    ensures Has(s, at, [s[at]])
  {
  }

  // ---- Lines of text ----

  function Reading(op: Byte, t: seq<Byte>, brk: Byte): (n: Node) {
    Fresh.(op := op, rtype := TypeOf(op), str := t, brk := brk)
  }

  lemma {:induction false} TextRun(op: Byte, t: seq<Byte>, brk: Byte, u: seq<Byte>, s: seq<Byte>, at: nat)
    requires (op == PLUS || op == MINUS) && brk !in u && Has(s, at, u)
    ensures at + |u| <= |s| && RunAt(Reading(op, t, brk), s, at) == RunAt(Reading(op, t + u, brk), s, at + |u|)
    decreases |u|
  {
    hide RunAt, Has;
    HasWithin(s, at, u);
    if u == [] {
      assert t + u == t;
    } else {
      assert u == [u[0]] + u[1..] && u[0] in u;
      HasFirst(s, at, u[0], u[1..]);
      RunStep(Reading(op, t, brk), s, at, Reading(op, t + [u[0]], brk));
      TextRun(op, t + [u[0]], brk, u[1..], s, at + 1);
      assert t + [u[0]] + u[1..] == t + u;
    }
  }

  lemma {:induction false} TextMust(op: Byte, t: seq<Byte>, brk: Byte, s: seq<Byte>, at: nat) returns (u: seq<Byte>)
    requires (op == PLUS || op == MINUS) && at <= |s| && RunAt(Reading(op, t, brk), s, at).Reply?
    ensures brk !in u && at + |u| < |s| && Has(s, at, u) && s[at + |u|] == brk
    ensures RunAt(Reading(op, t, brk), s, at) == RunAt(Reading(op, t + u, brk), s, at + |u|)
    decreases |s| - at
  {
    var c := s[at];
    if c == brk {
      u := [];
      assert t + u == t;
    } else {
      var rest := TextMust(op, t + [c], brk, s, at + 1);
      u := [c] + rest;
      assert t + [c] + rest == t + u;
      HasSplit(s, at, [c], rest);
    }
  }

  lemma LineEnd(op: Byte, t: seq<Byte>, s: seq<Byte>, at: nat)
    requires (op == PLUS || op == MINUS) && at < |s|
    ensures s[at] == CR ==> RunAt(Reading(op, t, CR), s, at) == RunAt(Reading(op, t, LF), s, at + 1)
    ensures s[at] == LF ==> RunAt(Reading(op, t, LF), s, at) == Reply(Reading(op, t, LF).(len := |t|), at + 1)
    ensures s[at] == op ==> RunAt(Fresh, s, at) == RunAt(Reading(op, [], CR), s, at + 1)
  {
  }

  lemma LineFormRun(f: Form, s: seq<Byte>, at: nat)
    requires f.LineForm? && StandsAt(s, at, f)
    ensures Read(f, s, at)
  {
    hide RunAt, Has;
    var op, a, b := f.op, f.a, f.b;
    HasFirst(s, at, op, a + ([CR] + (b + [LF])));
    LineEnd(op, [], s, at);
    HasSplit(s, at + 1, a, [CR] + (b + [LF]));
    TextRun(op, [], CR, a, s, at + 1);
    assert [] + a == a;
    HasFirst(s, at + 1 + |a|, CR, b + [LF]);
    LineEnd(op, a, s, at + 1 + |a|);
    HasSplit(s, at + 2 + |a|, b, [LF]);
    TextRun(op, a, LF, b, s, at + 2 + |a|);
    assert [LF] == [LF] + [];
    HasFirst(s, at + 2 + |a| + |b|, LF, []);
    LineEnd(op, a + b, s, at + 2 + |a| + |b|);
  }

  lemma LineFormMust(s: seq<Byte>, at: nat) returns (f: Form)
    requires at < |s| && (s[at] == PLUS || s[at] == MINUS) && RunAt(Fresh, s, at).Reply?
    ensures StandsAt(s, at, f)
  {
    hide RunAt;
    var op := s[at];
    LineEnd(op, [], s, at);
    var a := TextMust(op, [], CR, s, at + 1);
    assert [] + a == a;
    LineEnd(op, a, s, at + 1 + |a|);
    var b := TextMust(op, a, LF, s, at + 2 + |a|);
    f := LineForm(op, a, b);
    HasLine(op, a, b, s, at);
  }

  /** The parser reads `f` at `at`, stops right behind it and has its meaning. */
  ghost predicate Read(f: Form, s: seq<Byte>, at: nat) {
    at + |Spell(f)| <= |s| &&
    var r := RunAt(Fresh, s, at);
    r.Reply? && r.end == at + |Spell(f)| && ValueOf(r.n) == Means(f)
  }

  // ---- Behind a number line ----

  lemma IntegerHeader(t: seq<Byte>, s: seq<Byte>, k: nat)
    requires k < |s| && s[k] == LF
    ensures
      var r := RunAt(Counting(COLON, t, LF), s, k);
      r.Reply? && r.end == k + 1 && ValueOf(r.n) == Integer(if Negative(t) then -(Number(t) as int) else Number(t))
  {
  }

  /** Text of known length: as many bytes, and two more that are skipped. */
  lemma {:induction false} SizedRun(n: Node, s: seq<Byte>, at: nat)
    requires at <= |s| && n.op == DOLLAR && n.want >= 2
    ensures
      var k := at + n.want;
      if k <= |s| then RunAt(n, s, at) == Reply(n.(str := n.str + s[at..k - 2], want := 0), k) else RunAt(n, s, at).More?
    decreases n.want
  {
    hide RunAt;
    if at == |s| {
      RunNothing(n, s);
    } else if n.want == 2 {
      assert n.str + s[at..at] == n.str;
      RunStep(n, s, at, n.(want := 1));
      if at + 1 == |s| { RunNothing(n.(want := 1), s); } else { RunDone(n.(want := 1), s, at + 1, n.(want := 0)); }
    } else {
      var n' := n.(str := n.str + [s[at]], want := n.want - 1);
      RunStep(n, s, at, n');
      SizedRun(n', s, at + 1);
      var k := at + n.want;
      if k <= |s| {
        assert s[at..k - 2] == [s[at]] + s[at + 1..k - 2];
        assert n'.str + s[at + 1..k - 2] == n.str + s[at..k - 2];
      }
    }
  }

  lemma BulkHeaderRun(t: seq<Byte>, s: seq<Byte>, k: nat)
    requires k < |s| && s[k] == LF
    ensures
      var r := RunAt(Counting(DOLLAR, t, LF), s, k);
      var end := k + 1 + Number(t) + 2;
      if Negative(t) then r.Reply? && r.end == k + 1 && ValueOf(r.n) == Nil
      else if end <= |s| then r.Reply? && r.end == end && ValueOf(r.n) == Bulk(s[k + 1..end - 2])
      else r.More?
  {
    hide RunAt, Number;
    var n := Counting(DOLLAR, t, LF);
    if Negative(t) {
      RunDone(n, s, k, n.(brk := CR));
    } else {
      var n' := n.(brk := CR, want := n.len + 2);
      RunStep(n, s, k, n');
      SizedRun(n', s, k + 1);
      var end := k + 1 + Number(t) + 2;
      if end <= |s| { assert [] + s[k + 1..end - 2] == s[k + 1..end - 2]; }
    }
  }

  /** An array some of whose children, with the values `done`, are read. */
  ghost predicate Filling(n: Node, done: seq<Value>) {
    && n.op == STAR && n.pos < n.want == |n.childs| && |done| == n.pos
    && (forall i :: 0 <= i < n.pos ==> ValueOf(n.childs[i]) == done[i])
    && (forall i :: n.pos <= i < n.want ==> n.childs[i] == Fresh)
  }

  lemma ArrayHeaderRun(t: seq<Byte>, s: seq<Byte>, k: nat) returns (n: Node)
    requires k < |s| && s[k] == LF
    ensures Number(t) == 0 ==>
              var r := RunAt(Counting(STAR, t, LF), s, k);
              r.Reply? && r.end == k + 1 && ValueOf(r.n) == if Negative(t) then Nil else Array([])
    ensures Number(t) > 0 ==>
              && Filling(n, []) && n.want == Number(t) && n.rtype == (if Negative(t) then NilReply else ArrayReply)
              && RunAt(Counting(STAR, t, LF), s, k) == RunAt(n, s, k + 1)
  {
    hide RunAt, Number;
    var m := Counting(STAR, t, LF);
    n := ArrayHeader(m).0;
    StepCount(m, LF);
    if Number(t) == 0 { RunDone(m, s, k, n); } else { RunStep(m, s, k, n); }
  }

  function MeansAll(fs: seq<Form>): (vs: seq<Value>) {
    seq(|fs|, i requires 0 <= i < |fs| => Means(fs[i]))
  }

  lemma FilledNext(n: Node, done: seq<Value>, c: Node)
    requires Filling(n, done)
    ensures n.pos + 1 < n.want ==> Filling(ChildDone(n, c), done + [ValueOf(c)])
    ensures n.pos + 1 == n.want ==>
              ValueOf(ChildDone(n, c)) == (match n.rtype
                case NilReply => Nil
                case ArrayReply => Array(done + [ValueOf(c)])
                case _ => ValueOf(ChildDone(n, c)))
  {
    var n' := ChildDone(n, c);
    assert n'.childs[n.pos] == c && forall i :: 0 <= i < |n'.childs| && i != n.pos ==> n'.childs[i] == n.childs[i];
    if n.pos + 1 == n.want && n.rtype.ArrayReply? {
      assert seq(|n'.childs|, i requires 0 <= i < |n'.childs| => ValueOf(n'.childs[i])) == done + [ValueOf(c)];
    }
  }

  /** What an array with the values `vs` is, a null array being nil. */
  function ArrayOf(rtype: Type, vs: seq<Value>): (v: Value) {
    if rtype.NilReply? then Nil else Array(vs)
  }

  // ---- Every form is read ----

  lemma {:induction false} ItemsRun(fs: seq<Form>, n: Node, done: seq<Value>, s: seq<Byte>, at: nat)
    requires (forall i :: 0 <= i < |fs| ==> FormOk(fs[i])) && Has(s, at, SpellAll(fs))
    requires Filling(n, done) && |fs| == n.want - n.pos && (n.rtype.NilReply? || n.rtype.ArrayReply?)
    ensures
      var r := RunAt(n, s, at);
      r.Reply? && r.end == at + |SpellAll(fs)| && ValueOf(r.n) == ArrayOf(n.rtype, done + MeansAll(fs))
    decreases fs, 0
  {
    hide RunAt, Has, Spell, Means, ValueOf, FormOk;
    var f, rest := fs[0], fs[1..];
    HasSplit(s, at, Spell(f), SpellAll(rest));
    FormRun(f, s, at);
    ChildRun(n, s, at);
    var r := RunAt(Fresh, s, at);
    FilledNext(n, done, r.n);
    assert MeansAll(fs) == [Means(f)] + MeansAll(rest);
    assert done + [Means(f)] + MeansAll(rest) == done + MeansAll(fs);
    if n.pos + 1 < n.want {
      ItemsRun(rest, ChildDone(n, r.n), done + [Means(f)], s, r.end);
    } else {
      assert rest == [] && done + [Means(f)] + [] == done + [Means(f)];
    }
  }

  lemma {:induction false} ArrayFormRun(f: Form, s: seq<Byte>, at: nat)
    requires f.ArrayForm? && StandsAt(s, at, f)
    ensures Read(f, s, at)
    decreases f, 0
  {
    hide RunAt, Has, ValueOf, Number, Counting, Filling;
    var t, line := f.a + f.b, FirstLine(STAR, f.a, f.b);
    HasSplit(s, at, line, SpellAll(f.items));
    NumberLineRun(STAR, f.a, f.b, s, at);
    HasWithin(s, at, Spell(f));
    var n := ArrayHeaderRun(t, s, at + |line| - 1);
    if f.items == [] {
      assert line + [] == line;
    } else {
      FillingStart(n);
      ItemsRun(f.items, n, [], s, at + |line|);
      assert [] + MeansAll(f.items) == MeansAll(f.items);
    }
  }

  lemma FillingStart(n: Node)
    requires Filling(n, [])
    ensures n.pos == 0
  {
  }

  lemma BulkFormRun(f: Form, s: seq<Byte>, at: nat)
    requires f.BulkForm? && StandsAt(s, at, f)
    ensures Read(f, s, at)
  {
    hide RunAt, Has, Number, Counting;
    var line := FirstLine(DOLLAR, f.a, f.b);
    var k := at + |line| - 1;
    HasWithin(s, at, Spell(f));
    HasSplit(s, at, line, f.text + [f.x, f.y]);
    HasSplit(s, at + |line|, f.text, [f.x, f.y]);
    NumberLineRun(DOLLAR, f.a, f.b, s, at);
    BulkHeaderRun(f.a + f.b, s, k);
    HasIs(s, at + |line|, f.text);
  }

  lemma {:induction false} FormRun(f: Form, s: seq<Byte>, at: nat)
    requires StandsAt(s, at, f)
    ensures Read(f, s, at)
    decreases f, 1
  {
    hide RunAt, Counting, Number;
    match f
    case LineForm(_, _, _) => LineFormRun(f, s, at);
    case IntegerForm(a, b) =>
      NumberLineRun(COLON, a, b, s, at);
      IntegerHeader(a + b, s, at + |a| + |b| + 2);
    case BulkForm(_, _, _, _, _) => BulkFormRun(f, s, at);
    case NilForm(a, b) =>
      NumberLineRun(DOLLAR, a, b, s, at);
      BulkHeaderRun(a + b, s, at + |a| + |b| + 2);
    case ArrayForm(_, _, _) => ArrayFormRun(f, s, at);
  }

  // ---- Nothing else is ----

  lemma {:induction false} ItemsMust(n: Node, done: seq<Value>, s: seq<Byte>, at: nat) returns (fs: seq<Form>)
    requires at <= |s| && Filling(n, done) && RunAt(n, s, at).Reply?
    ensures (forall i :: 0 <= i < |fs| ==> FormOk(fs[i])) && |fs| == n.want - n.pos && Has(s, at, SpellAll(fs))
    decreases |s| - at, 2
  {
    hide RunAt, ValueOf, FormOk, Spell;
    ChildRun(n, s, at);
    var f := FormMust(s, at);
    FormRun(f, s, at);
    var r := RunAt(Fresh, s, at);
    FilledNext(n, done, r.n);
    var rest: seq<Form> := [];
    if n.pos + 1 < n.want {
      rest := ItemsMust(ChildDone(n, r.n), done + [ValueOf(r.n)], s, r.end);
    } else {
      assert Has(s, r.end, SpellAll([])) by { HasNothing(s, r.end); }
    }
    fs := [f] + rest;
    assert fs[1..] == rest;
    HasSplit(s, at, Spell(f), SpellAll(rest));
  }

  lemma HasNothing(s: seq<Byte>, at: nat)
    requires at <= |s|
    ensures Has(s, at, []) && SpellAll([]) == []
  {
  }

  lemma {:induction false} ArrayFormMust(s: seq<Byte>, at: nat) returns (f: Form)
    requires at < |s| && s[at] == STAR && RunAt(Fresh, s, at).Reply?
    ensures StandsAt(s, at, f)
    decreases |s| - at, 0
  {
    hide RunAt, ValueOf, Number, Counting, Filling, Has;
    var a, b := NumberLineMust(STAR, s, at);
    var k := at + |a| + |b| + 2;
    var n := ArrayHeaderRun(a + b, s, k);
    var items: seq<Form> := [];
    if Number(a + b) > 0 {
      FillingStart(n);
      items := ItemsMust(n, [], s, k + 1);
    } else {
      HasNothing(s, k + 1);
    }
    f := ArrayForm(a, b, items);
    HasSplit(s, at, FirstLine(STAR, a, b), SpellAll(items));
  }

  lemma {:induction false} FormMust(s: seq<Byte>, at: nat) returns (f: Form)
    requires at <= |s| && RunAt(Fresh, s, at).Reply?
    ensures StandsAt(s, at, f)
    decreases |s| - at, 1
  {
    hide Counting, Number;
    KnownOp(s, at);
    hide RunAt;
    var c := s[at];
    if c == PLUS || c == MINUS {
      f := LineFormMust(s, at);
    } else if c == COLON {
      var a, b := NumberLineMust(COLON, s, at);
      f := IntegerForm(a, b);
    } else if c == DOLLAR {
      var a, b := NumberLineMust(DOLLAR, s, at);
      var k := at + |a| + |b| + 2;
      BulkHeaderRun(a + b, s, k);
      if Negative(a + b) {
        f := NilForm(a, b);
      } else {
        f := BulkMade(a, b, s, at);
      }
    } else {
      f := ArrayFormMust(s, at);
    }
  }

  lemma KnownOp(s: seq<Byte>, at: nat)
    requires at <= |s| && RunAt(Fresh, s, at).Reply?
    ensures at < |s| && (s[at] == PLUS || s[at] == MINUS || s[at] == COLON || s[at] == DOLLAR || s[at] == STAR)
  {
  }

  lemma BulkMade(a: seq<Byte>, b: seq<Byte>, s: seq<Byte>, at: nat) returns (f: Form)
    requires NumberLine(a + b) && !Negative(a + b) && Has(s, at, FirstLine(DOLLAR, a, b))
    requires at + |FirstLine(DOLLAR, a, b)| + Number(a + b) + 2 <= |s|
    ensures StandsAt(s, at, f)
  {
    hide Number;
    var from := at + |FirstLine(DOLLAR, a, b)|;
    var to := from + Number(a + b);
    f := BulkForm(a, b, s[from..to], s[to], s[to + 1]);
    assert s[from..to + 2] == s[from..to] + [s[to], s[to + 1]];
    HasSplit(s, at, FirstLine(DOLLAR, a, b), s[from..to] + [s[to], s[to + 1]]);
  }

  /** The replies the parser reads are exactly the forms, each with its end and its meaning. */
  lemma RepliesAreForms(s: seq<Byte>, at: nat)
    requires at <= |s|
    ensures RunAt(Fresh, s, at).Reply? <==> exists f :: StandsAt(s, at, f)
    ensures forall f :: StandsAt(s, at, f) ==> Read(f, s, at)
  {
    hide RunAt, StandsAt, Read;
    if RunAt(Fresh, s, at).Reply? { var f := FormMust(s, at); }
    forall f | StandsAt(s, at, f) ensures Read(f, s, at) && RunAt(Fresh, s, at).Reply? {
      FormRun(f, s, at);
      assert RunAt(Fresh, s, at).Reply? by { ReadReplies(f, s, at); }
    }
  }

  lemma ReadReplies(f: Form, s: seq<Byte>, at: nat)
    requires Read(f, s, at)
    ensures RunAt(Fresh, s, at).Reply?
  {
  }

  // ---- Errors ----

  /** The byte a node waits for to end its line. */
  ghost predicate Ending(n: Node) {
    && (n.brk == CR || n.brk == LF)
    && (n.op == STAR && n.want > 0 && n.pos < |n.childs| ==> Ending(n.childs[n.pos]))
  }

  lemma {:induction false} StepEnding(n: Node, c: Byte)
    requires Live(n) && Ending(n) && Step(n, c).1.Retry?
    ensures Ending(Step(n, c).0)
    decreases n
  {
    if n.op == STAR && n.want > 0 {
      var (c', code) := Step(n.childs[n.pos], c);
      if code.Retry? { StepEnding(n.childs[n.pos], c); }
    }
  }

  lemma {:induction false} RunEnding(n: Node, s: seq<Byte>, at: nat)
    requires at <= |s| && Live(n) && Ending(n)
    ensures RunAt(n, s, at).More? ==> Live(RunAt(n, s, at).n) && Ending(RunAt(n, s, at).n)
    decreases |s| - at
  {
    if at < |s| && Step(n, s[at]).1.Retry? {
      StepLive(n, s[at]);
      StepEnding(n, s[at]);
      RunEnding(Step(n, s[at]).0, s, at + 1);
    }
  }

  function LineRest(n: Node): (s: seq<Byte>)
    ensures |s| > 0
  {
    if n.brk == CR then [CR, LF] else [LF]
  }

  /** Input that completes the reply a node is in. */
  function Rest(n: Node): (s: seq<Byte>)
    requires n.want >= 0 || n.op == COLON
    decreases n
  {
    if n.op == 0 then Encode(Integer(0))
    else if n.op == DOLLAR then
      if n.want > 0 then seq(n.want, _ => 0)
      else LineRest(n) + if n.rtype.NilReply? then [] else seq(n.len + 2, _ => 0)
    else if n.op == STAR then
      if n.want == 0 then LineRest(n) + RespResume.Zeros(n.elements)
      else if n.pos < |n.childs| && (n.childs[n.pos].want >= 0 || n.childs[n.pos].op == COLON) then
        Rest(n.childs[n.pos]) + RespResume.Zeros(|n.childs| - n.pos - 1)
      else []
    else LineRest(n)
  }

  lemma {:induction false} SizedRest(n: Node, s: seq<Byte>, at: nat)
    requires n.op == DOLLAR && n.want > 0 && at + n.want <= |s|
    ensures RunAt(n, s, at).Reply? && RunAt(n, s, at).end == at + n.want
    decreases n.want
  {
    if n.want > 1 { SizedRest(Step(n, s[at]).0, s, at + 1); }
  }

  /** The end of the line of a node that is in its first line. */
  lemma LineRestRun(n: Node, s: seq<Byte>, at: nat)
    requires (n.brk == CR || n.brk == LF) && Has(s, at, LineRest(n))
    requires n.op == PLUS || n.op == MINUS || n.op == COLON || ((n.op == DOLLAR || n.op == STAR) && n.want == 0)
    ensures
      var k := at + |LineRest(n)| - 1;
      k < |s| && s[k] == LF && RunAt(n, s, at) == RunAt(n.(brk := LF), s, k)
  {
    if n.brk == CR {
      assert [CR, LF] == [CR] + ([LF] + []);
      HasFirst(s, at, CR, [LF] + []);
      HasFirst(s, at + 1, LF, []);
      if n.op == STAR { StepCount(n, CR); }
      RunStep(n, s, at, n.(brk := LF));
    } else {
      assert [LF] == [LF] + [];
      HasFirst(s, at, LF, []);
    }
  }

  lemma {:induction false} RestRuns(n: Node, s: seq<Byte>, at: nat)
    requires Live(n) && Ending(n) && Has(s, at, Rest(n))
    ensures RunAt(n, s, at).Reply? && RunAt(n, s, at).end == at + |Rest(n)|
    decreases n
  {
    hide RunAt, RespResume.Zeros;
    HasWithin(s, at, Rest(n));
    if n.op == 0 {
      ReadsValue(Integer(0), s, at);
    } else if n.op == DOLLAR {
      BulkRest(n, s, at);
    } else if n.op == STAR && n.want == 0 {
      CountRest(n, s, at);
    } else if n.op == STAR {
      ChildRest(n, s, at);
    } else {
      LineRestRun(n, s, at);
      LastByte(n, s, at + |LineRest(n)| - 1);
    }
  }

  lemma LastByte(n: Node, s: seq<Byte>, at: nat)
    requires (n.op == PLUS || n.op == MINUS || n.op == COLON) && at < |s| && s[at] == LF
    ensures RunAt(n.(brk := LF), s, at).Reply? && RunAt(n.(brk := LF), s, at).end == at + 1
  {
  }

  lemma BulkRest(n: Node, s: seq<Byte>, at: nat)
    requires Live(n) && Ending(n) && n.op == DOLLAR && Has(s, at, Rest(n))
    ensures RunAt(n, s, at).Reply? && RunAt(n, s, at).end == at + |Rest(n)|
  {
    hide RunAt, Has, Step, LineRest;
    HasWithin(s, at, Rest(n));
    if n.want > 0 {
      SizedRest(n, s, at);
    } else {
      var tail: seq<Byte> := if n.rtype.NilReply? then [] else seq(n.len + 2, _ => 0);
      HasSplit(s, at, LineRest(n), tail);
      LineRestRun(n, s, at);
      var k := at + |LineRest(n)| - 1;
      BulkLineEnd(n.(brk := LF), s, k);
      if !n.rtype.NilReply? { SizedRest(n.(brk := CR, want := n.len + 2), s, k + 1); }
    }
  }

  lemma BulkLineEnd(n: Node, s: seq<Byte>, k: nat)
    requires n.op == DOLLAR && n.want == 0 && n.brk == LF && k < |s| && s[k] == LF
    ensures RunAt(n, s, k) ==
              if n.rtype.NilReply? then Reply(n.(brk := CR), k + 1) else RunAt(n.(brk := CR, want := n.len + 2), s, k + 1)
  {
    hide RunAt;
    if n.rtype.NilReply? { RunDone(n, s, k, n.(brk := CR)); } else { RunStep(n, s, k, n.(brk := CR, want := n.len + 2)); }
  }

  lemma CountRest(n: Node, s: seq<Byte>, at: nat)
    requires Live(n) && Ending(n) && n.op == STAR && n.want == 0 && Has(s, at, Rest(n))
    ensures RunAt(n, s, at).Reply? && RunAt(n, s, at).end == at + |Rest(n)|
  {
    hide RunAt, RespResume.Zeros;
    HasSplit(s, at, LineRest(n), RespResume.Zeros(n.elements));
    LineRestRun(n, s, at);
    var k, m := at + |LineRest(n)| - 1, n.(brk := LF);
    StepCount(m, LF);
    var n' := ArrayHeader(m).0;
    if n.elements == 0 {
      RespResume.NoZeros();
      RunDone(m, s, k, n');
    } else {
      RunStep(m, s, k, n');
      RespResume.FinishZeros(n', s, k + 1);
    }
  }

  lemma {:induction false} ChildRest(n: Node, s: seq<Byte>, at: nat)
    requires Live(n) && Ending(n) && n.op == STAR && n.want > 0 && Has(s, at, Rest(n))
    ensures RunAt(n, s, at).Reply? && RunAt(n, s, at).end == at + |Rest(n)|
    decreases n, 0
  {
    hide RunAt, RespResume.Zeros;
    var c, k := n.childs[n.pos], n.want - n.pos - 1;
    ChildWants(c);
    HasSplit(s, at, Rest(c), RespResume.Zeros(k));
    HasWithin(s, at, Rest(n));
    RestRuns(c, s, at);
    ChildRun(n, s, at);
    if k > 0 {
      var r := RunAt(c, s, at);
      NextChild(n, r.n);
      RespResume.FinishZeros(ChildDone(n, r.n), s, r.end);
    } else {
      RespResume.NoZeros();
    }
  }

  lemma ChildWants(c: Node)
    requires Live(c)
    ensures c.want >= 0 || c.op == COLON
  {
  }

  /** The parser gives up exactly when nothing that could follow makes the input begin with a reply. */
  lemma ErrorIffHopeless(s: seq<Byte>)
    ensures RunAt(Fresh, s, 0).Error? <==> forall t: seq<Byte> :: !RunAt(Fresh, s + t, 0).Reply?
  {
    hide RunAt;
    RunEnding(Fresh, s, 0);
    var r := RunAt(Fresh, s, 0);
    forall t: seq<Byte> ensures r.Error? ==> !RunAt(Fresh, s + t, 0).Reply? { RunConcat(Fresh, s, t, 0); }
    if r.More? {
      ChildWants(r.n);
      var t := Rest(r.n);
      assert t[0..0 + |t|] == t;
      RestRuns(r.n, t, 0);
      RunConcat(Fresh, s, t, 0);
      assert RunAt(Fresh, s + t, 0).Reply?;
    } else if r.Reply? {
      RunConcat(Fresh, s, [], 0);
      assert RunAt(Fresh, s + [], 0).Reply?;
    }
  }

  // ---- Commands ----

  /** A decimal number is a line of digits that counts as the number, without needless zeros. */
  lemma {:induction false} DecimalIsNumber(n: nat)
    ensures NumberLine(Decimal(n)) && !Negative(Decimal(n)) && Number(Decimal(n)) == n
    ensures n > 0 ==> Decimal(n)[0] != '0' as int
    decreases n
  {
    if n < 10 {
      assert Decimal(n) == [] + [48 + n];
      NumberSnoc([], 48 + n);
    } else {
      DecimalIsNumber(n / 10);
      NumberSnoc(Decimal(n / 10), 48 + n % 10);
    }
  }

  function BulkOf(t: seq<Byte>): (f: Form) {
    BulkForm(Decimal(|t|), [], t, '\r' as int, '\n' as int)
  }

  lemma BulkOfOk(t: seq<Byte>)
    ensures FormOk(BulkOf(t)) && Spell(BulkOf(t)) == Encode(Bulk(t))
  {
    hide Decimal, Number, Negative;
    DecimalIsNumber(|t|);
    var d := Decimal(|t|);
    assert d + [] == d && [] + [LF] == [LF];
    assert Encode(Bulk(t)) == FirstLine(DOLLAR, d, []) + (t + [CR, LF]);
  }

  function BulksOf(argv: seq<seq<Byte>>): (fs: seq<Form>) {
    seq(|argv|, i requires 0 <= i < |argv| => BulkOf(argv[i]))
  }

  lemma {:induction false} BulksOk(argv: seq<seq<Byte>>, k: nat)
    requires k <= |argv|
    ensures SpellAll(BulksOf(argv)[k..]) == EncodeAll(Command(argv).items[k..])
    decreases |argv| - k
  {
    hide Encode, Spell, BulkOf;
    var fs, items := BulksOf(argv), Command(argv).items;
    if k < |argv| {
      BulksOk(argv, k + 1);
      BulkOfOk(argv[k]);
      assert fs[k..][0] == BulkOf(argv[k]) && fs[k..][1..] == fs[k + 1..];
      assert items[k..][0] == Bulk(argv[k]) && items[k..][1..] == items[k + 1..];
    }
  }

  /** A command on the wire: the number of arguments, then for each its length and its bytes, every line and every argument
      with CR LF behind it. */
  lemma CommandIsForm(argv: seq<seq<Byte>>)
    ensures FormOk(ArrayForm(Decimal(|argv|), [], BulksOf(argv)))
    ensures Spell(ArrayForm(Decimal(|argv|), [], BulksOf(argv))) == Encode(Command(argv))
  {
    hide Decimal, Number, Negative, BulkOf, NumberLine, SpellAll, EncodeAll;
    var d, fs := Decimal(|argv|), BulksOf(argv);
    DecimalIsNumber(|argv|);
    assert d + [] == d;
    assert FormOk(ArrayForm(d, [], fs)) by {
      forall i | 0 <= i < |argv| ensures FormOk(fs[i]) { BulkOfOk(argv[i]); }
    }
    BulksOk(argv, 0);
    assert fs[0..] == fs && Command(argv).items[0..] == Command(argv).items;
    ArrayHead(d, EncodeAll(Command(argv).items));
  }

  lemma ArrayHead(d: seq<Byte>, rest: seq<Byte>)
    ensures [STAR] + d + CRLF + rest == FirstLine(STAR, d, []) + rest
  {
    assert [] + [LF] == [LF] && [CR] + [LF] == CRLF;
    assert [STAR] + d + CRLF == FirstLine(STAR, d, []);
  }
}
