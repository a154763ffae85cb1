/** What the reply parser is for: every reply a server can send is read back
exactly, however it arrives, and every command the client formats is the array of
its arguments. */
module RespCodec {
  import opened Bytes
  import opened Resp

  /** A RESP2 reply.  `NullArray` is the one kind the parser does not understand. */
  datatype Value =
    | Nil
    | Status(text: seq<Byte>)
    | Err(text: seq<Byte>)
    | Integer(value: int)
    | Bulk(text: seq<Byte>)
    | Array(items: seq<Value>)
    | NullArray

  const CRLF: seq<Byte> := [CR, LF]

  function Decimal(n: nat): (s: seq<Byte>)
    ensures |s| >= 1
  {
    if n < 10 then [48 + n] else Decimal(n / 10) + [48 + n % 10]
  }

  function Encode(v: Value): (s: seq<Byte>)
    decreases v
  {
    match v
    case Nil => [DOLLAR, MINUS, 49] + CRLF
    case Status(t) => [PLUS] + t + CRLF
    case Err(t) => [MINUS] + t + CRLF
    case Integer(n) => [COLON] + (if n < 0 then [MINUS] + Decimal(-n) else Decimal(n)) + CRLF
    case Bulk(t) => [DOLLAR] + Decimal(|t|) + CRLF + t + CRLF
    case Array(items) => [STAR] + Decimal(|items|) + CRLF + EncodeAll(items)
    case NullArray => [STAR, MINUS, 49] + CRLF
  }

  function EncodeAll(vs: seq<Value>): (s: seq<Byte>)
    decreases vs
  {
    if vs == [] then [] else Encode(vs[0]) + EncodeAll(vs[1..])
  }

  /** What a server may send: lines fit the parser's fixed buffer and contain no line break, numbers
      fit the reply's fields, and no array is null. */
  predicate Legal(v: Value)
    decreases v
  {
    match v
    case Nil => true
    case Status(t) => |t| < 512 && CR !in t && LF !in t
    case Err(t) => |t| < 512 && CR !in t && LF !in t
    case Integer(n) => -0x8000_0000_0000_0000 < n < 0x8000_0000_0000_0000
    case Bulk(t) => |t| + 2 < 0x8000_0000
    case Array(items) => |items| < 0x1_0000_0000_0000_0000 && forall i :: 0 <= i < |items| ==> Legal(items[i])
    case NullArray => false
  }

  /** The reply a finished node stands for. */
  function ValueOf(n: Node): (v: Value) {
    match n.rtype
    case StatusReply => Status(n.str)
    case ErrorReply => Err(n.str)
    case IntegerReply => Integer(n.integer)
    case StringReply => Bulk(n.str)
    case ArrayReply => Array(seq(|n.childs|, i requires 0 <= i < |n.childs| => ValueOf(n.childs[i])))
    case NilReply => Nil
    case NoType => Nil
  }

  // ---- Running over known text ----

  lemma HasFirst(s: seq<Byte>, at: nat, c: Byte, t: seq<Byte>)
    requires Has(s, at, [c] + t)
    ensures at < |s| && s[at] == c && Has(s, at + 1, t)
  {
    HasSplit(s, at, [c], t);
  }

  lemma RunStep(n: Node, s: seq<Byte>, at: nat, n': Node)
    requires at < |s| && Step(n, s[at]) == (n', Retry)
    ensures RunAt(n, s, at) == RunAt(n', s, at + 1)
  {
  }

  lemma RunDone(n: Node, s: seq<Byte>, at: nat, n': Node)
    requires at < |s| && Step(n, s[at]) == (n', Done)
    ensures RunAt(n, s, at) == Reply(n', at + 1)
  {
  }

  lemma {:induction false} RunDigitsInteger(n: Node, s: seq<Byte>, at: nat, m: nat)
    requires n.op == COLON && n.brk == CR && n.integer == 0 && Has(s, at, Decimal(m))
    ensures RunAt(n, s, at) == RunAt(n.(integer := m), s, at + |Decimal(m)|)
    decreases m
  {
    hide RunAt, Has;
    if m < 10 {
      assert Decimal(m) == [48 + m] + [];
      HasFirst(s, at, 48 + m, []);
      RunStep(n, s, at, n.(integer := m));
    } else {
      var at' := at + |Decimal(m / 10)|;
      HasSplit(s, at, Decimal(m / 10), [48 + m % 10]);
      RunDigitsInteger(n, s, at, m / 10);
      var last: seq<Byte> := [48 + m % 10];
      assert last + [] == last;
      HasFirst(s, at', 48 + m % 10, []);
      RunStep(n.(integer := m / 10), s, at', n.(integer := m));
    }
  }

  lemma {:induction false} RunDigitsLength(n: Node, s: seq<Byte>, at: nat, m: nat)
    requires n.op == DOLLAR && n.want == 0 && n.brk == CR && n.len == 0 && Has(s, at, Decimal(m))
    ensures RunAt(n, s, at) == RunAt(n.(len := m), s, at + |Decimal(m)|)
    decreases m
  {
    hide RunAt, Has;
    if m < 10 {
      assert Decimal(m) == [48 + m] + [];
      HasFirst(s, at, 48 + m, []);
      RunStep(n, s, at, n.(len := m));
    } else {
      var at' := at + |Decimal(m / 10)|;
      HasSplit(s, at, Decimal(m / 10), [48 + m % 10]);
      RunDigitsLength(n, s, at, m / 10);
      var last: seq<Byte> := [48 + m % 10];
      assert last + [] == last;
      HasFirst(s, at', 48 + m % 10, []);
      RunStep(n.(len := m / 10), s, at', n.(len := m));
    }
  }

  lemma {:induction false} RunDigitsCount(n: Node, s: seq<Byte>, at: nat, m: nat)
    requires n.op == STAR && n.want == 0 && n.brk == CR && n.elements == 0 && Has(s, at, Decimal(m))
    ensures RunAt(n, s, at) == RunAt(n.(elements := m), s, at + |Decimal(m)|)
    decreases m
  {
    hide RunAt, Has;
    if m < 10 {
      assert Decimal(m) == [48 + m] + [];
      HasFirst(s, at, 48 + m, []);
      StepCount(n, s[at]);
      RunStep(n, s, at, n.(elements := m));
    } else {
      var at' := at + |Decimal(m / 10)|;
      HasSplit(s, at, Decimal(m / 10), [48 + m % 10]);
      RunDigitsCount(n, s, at, m / 10);
      var last: seq<Byte> := [48 + m % 10];
      assert last + [] == last;
      HasFirst(s, at', 48 + m % 10, []);
      StepCount(n.(elements := m / 10), s[at']);
      RunStep(n.(elements := m / 10), s, at', n.(elements := m));
    }
  }

  lemma {:induction false} RunLine(n: Node, s: seq<Byte>, at: nat, t: seq<Byte>)
    requires (n.op == PLUS || n.op == MINUS) && n.brk == CR && CR !in t && Has(s, at, t + CRLF)
    ensures RunAt(n, s, at) == Reply(n.(str := n.str + t, brk := LF, len := |n.str + t|), at + |t| + 2)
    decreases |t|
  {
    hide RunAt, Has;
    if t == [] {
      assert t + CRLF == [CR] + [LF] && n.str + t == n.str;
      HasFirst(s, at, CR, [LF]);
      HasFirst(s, at + 1, LF, []);
      RunStep(n, s, at, n.(brk := LF));
      RunDone(n.(brk := LF), s, at + 1, n.(brk := LF, len := |n.str|));
    } else {
      assert t + CRLF == [t[0]] + (t[1..] + CRLF);
      HasFirst(s, at, t[0], t[1..] + CRLF);
      var n' := n.(str := n.str + [t[0]]);
      assert t[0] in t;
      RunStep(n, s, at, n');
      RunLine(n', s, at + 1, t[1..]);
      assert n'.str + t[1..] == n.str + t;
    }
  }

  lemma {:induction false} RunText(n: Node, s: seq<Byte>, at: nat, t: seq<Byte>)
    requires n.op == DOLLAR && n.want == |t| + 2 && Has(s, at, t + CRLF)
    ensures RunAt(n, s, at) == Reply(n.(str := n.str + t, want := 0), at + |t| + 2)
    decreases |t|
  {
    hide RunAt, Has;
    if t == [] {
      assert t + CRLF == [CR] + [LF] && n.str + t == n.str;
      HasFirst(s, at, CR, [LF]);
      HasFirst(s, at + 1, LF, []);
      RunStep(n, s, at, n.(want := 1));
      RunDone(n.(want := 1), s, at + 1, n.(want := 0));
    } else {
      assert t + CRLF == [t[0]] + (t[1..] + CRLF);
      HasFirst(s, at, t[0], t[1..] + CRLF);
      var n' := n.(str := n.str + [t[0]], want := n.want - 1);
      RunStep(n, s, at, n');
      RunText(n', s, at + 1, t[1..]);
      assert n'.str + t[1..] == n.str + t;
    }
  }

  // ---- Every legal reply is read back ----

  /** The parser reads `v` at position `at` and stops right behind it. */
  ghost predicate Reads(v: Value, s: seq<Byte>, at: nat) {
    && at + |Encode(v)| <= |s|
    && var r := RunAt(Fresh, s, at); r.Reply? && r.end == at + |Encode(v)| && ValueOf(r.n) == v
  }

  lemma ReadsNil(s: seq<Byte>, at: nat)
    requires Has(s, at, Encode(Nil))
    ensures Reads(Nil, s, at)
  {
    HasFirst(s, at, DOLLAR, [MINUS, 49] + CRLF);
    HasFirst(s, at + 1, MINUS, [49] + CRLF);
    HasFirst(s, at + 2, 49, CRLF);
    HasFirst(s, at + 3, CR, [LF]);
    HasFirst(s, at + 4, LF, []);
    hide RunAt;
    var n := Fresh.(op := DOLLAR, rtype := StringReply);
    var n' := n.(rtype := NilReply);
    RunStep(Fresh, s, at, n);
    RunStep(n, s, at + 1, n');
    RunStep(n', s, at + 2, n'.(len := 1));
    RunStep(n'.(len := 1), s, at + 3, n'.(len := 1, brk := LF));
    RunDone(n'.(len := 1, brk := LF), s, at + 4, n'.(len := 1));
  }

  lemma ReadsLine(v: Value, s: seq<Byte>, at: nat)
    requires (v.Status? || v.Err?) && Legal(v) && Has(s, at, Encode(v))
    ensures Reads(v, s, at)
  {
    var op := if v.Status? then PLUS else MINUS;
    assert Encode(v) == [op] + (v.text + CRLF);
    HasFirst(s, at, op, v.text + CRLF);
    RunLine(Fresh.(op := op, rtype := TypeOf(op)), s, at + 1, v.text);
    assert [] + v.text == v.text;
  }

  lemma RunIntegerEnd(n: Node, s: seq<Byte>, at: nat)
    requires n.op == COLON && n.brk == CR && Has(s, at, CRLF)
    ensures at + 2 <= |s| && RunAt(n, s, at) == Reply(n.(brk := LF, integer := n.integer * n.want), at + 2)
  {
    HasFirst(s, at, CR, [LF]);
    HasFirst(s, at + 1, LF, []);
    assert RunAt(n, s, at) == RunAt(n.(brk := LF), s, at + 1);
  }

  lemma ReadsInteger(v: Value, s: seq<Byte>, at: nat)
    requires v.Integer? && Has(s, at, Encode(v))
    ensures Reads(v, s, at)
  {
    hide RunAt, Decimal, Has;
    var m := if v.value < 0 then -v.value else v.value;
    var n := Fresh.(op := COLON, rtype := IntegerReply, want := 1);
    var at' := at + 1;
    if v.value < 0 {
      assert Encode(v) == [COLON] + ([MINUS] + (Decimal(m) + CRLF));
      HasFirst(s, at, COLON, [MINUS] + (Decimal(m) + CRLF));
      HasFirst(s, at + 1, MINUS, Decimal(m) + CRLF);
      RunStep(Fresh, s, at, n);
      RunStep(n, s, at + 1, n.(want := -1));
      n, at' := n.(want := -1), at + 2;
    } else {
      assert Encode(v) == [COLON] + (Decimal(m) + CRLF);
      HasFirst(s, at, COLON, Decimal(m) + CRLF);
      RunStep(Fresh, s, at, n);
    }
    assert RunAt(Fresh, s, at) == RunAt(n, s, at');
    HasSplit(s, at', Decimal(m), CRLF);
    RunDigitsInteger(n, s, at', m);
    RunIntegerEnd(n.(integer := m), s, at' + |Decimal(m)|);
  }

  lemma Regroup3(a: seq<Byte>, b: seq<Byte>, c: seq<Byte>)
    ensures a + b + c == a + (b + c)
  {
  }

  lemma Regroup(a: seq<Byte>, b: seq<Byte>, c: seq<Byte>, d: seq<Byte>, e: seq<Byte>)
    ensures a + b + c + d + e == a + (b + (c + (d + e)))
  {
    Regroup3(c, d, e);
    Regroup3(b, c + d, e);
    Regroup3(b, c, d);
    Regroup3(a, b + c + d, e);
    Regroup3(a, b + c, d);
    Regroup3(a, b, c);
  }

  lemma RunOpcode(s: seq<Byte>, at: nat, op: Byte)
    requires at < |s| && s[at] == op && !TypeOf(op).NoType? && op != COLON
    ensures RunAt(Fresh, s, at) == RunAt(Fresh.(op := op, rtype := TypeOf(op)), s, at + 1)
  {
  }

  lemma RunBulkHeader(n: Node, s: seq<Byte>, at: nat)
    requires n.op == DOLLAR && n.want == 0 && n.brk == CR && n.rtype.StringReply? && Has(s, at, CRLF)
    ensures RunAt(n, s, at) == RunAt(n.(want := n.len + 2), s, at + 2)
  {
    HasFirst(s, at, CR, [LF]);
    HasFirst(s, at + 1, LF, []);
    assert Step(n, CR) == (n.(brk := LF), Retry);
    assert Step(n.(brk := LF), LF) == (n.(want := n.len + 2), Retry);
  }

  lemma RunBulk(t: seq<Byte>, s: seq<Byte>, at: nat)
    requires Has(s, at, [DOLLAR] + (Decimal(|t|) + (CRLF + (t + CRLF))))
    ensures RunAt(Fresh, s, at) ==
              Reply(Fresh.(op := DOLLAR, rtype := StringReply, len := |t|, str := t), at + 1 + |Decimal(|t|)| + 2 + |t| + 2)
  {
    hide RunAt, Has, Decimal;
    var digits := Decimal(|t|);
    HasFirst(s, at, DOLLAR, digits + (CRLF + (t + CRLF)));
    RunOpcode(s, at, DOLLAR);
    HasSplit(s, at + 1, digits, CRLF + (t + CRLF));
    var n := Fresh.(op := DOLLAR, rtype := StringReply);
    RunDigitsLength(n, s, at + 1, |t|);
    var at' := at + 1 + |digits|;
    HasSplit(s, at', CRLF, t + CRLF);
    RunBulkHeader(n.(len := |t|), s, at');
    RunText(n.(len := |t|, want := |t| + 2), s, at' + 2, t);
    assert [] + t == t;
  }

  lemma ReadsBulk(v: Value, s: seq<Byte>, at: nat)
    requires v.Bulk? && Has(s, at, Encode(v))
    ensures Reads(v, s, at)
  {
    hide RunAt, Decimal;
    Regroup([DOLLAR], Decimal(|v.text|), CRLF, v.text, CRLF);
    RunBulk(v.text, s, at);
  }

  /** The first `n.pos` children of an array are read. */
  ghost predicate ReadSoFar(n: Node, items: seq<Value>) {
    && n.op == STAR && n.rtype.ArrayReply? && |n.childs| == |items| && n.pos <= |items|
    && n.want == |items| && (forall i :: 0 <= i < n.pos ==> ValueOf(n.childs[i]) == items[i])
    && (forall i :: n.pos <= i < |items| ==> n.childs[i] == Fresh)
  }

  /** The rest of an array. */
  lemma {:induction false} ReadsItems(v: Value, n: Node, s: seq<Byte>, at: nat)
    requires v.Array? && Legal(v) && ReadSoFar(n, v.items) && n.pos < |v.items|
    requires Has(s, at, EncodeAll(v.items[n.pos..]))
    ensures
      var r := RunAt(n, s, at);
      r.Reply? && r.end == at + |EncodeAll(v.items[n.pos..])| && ValueOf(r.n) == v
    decreases v, |v.items| - n.pos
  {
    var item, rest := v.items[n.pos], v.items[n.pos + 1..];
    assert v.items[n.pos..][1..] == rest;
    HasSplit(s, at, Encode(item), EncodeAll(rest));
    ReadsValue(item, s, at);
    ChildRun(n, s, at);
    var r := RunAt(Fresh, s, at);
    var n' := ChildDone(n, r.n);
    assert ReadSoFar(n', v.items);
    if n'.pos == |v.items| {
      assert rest == [];
      ReadAll(n', v);
    } else {
      ReadsItems(v, n', s, r.end);
    }
  }

  lemma ReadAll(n: Node, v: Value)
    requires v.Array? && ReadSoFar(n, v.items) && n.pos == |v.items|
    ensures ValueOf(n) == v
  {
    assert seq(|n.childs|, i requires 0 <= i < |n.childs| => ValueOf(n.childs[i])) == v.items;
  }

  lemma ReadsArray(v: Value, s: seq<Byte>, at: nat)
    requires v.Array? && Legal(v) && Has(s, at, Encode(v))
    ensures Reads(v, s, at)
    decreases v, |v.items| + 1
  {
    hide RunAt, Decimal, Has;
    var m := |v.items|;
    RunArrayHeader(m, EncodeAll(v.items), s, at);
    HasWithin(s, at, Encode(v));
    if m == 0 {
      assert v.items == [];
    } else {
      assert v.items[0..] == v.items;
      var n := ArrayHeader(Fresh.(op := STAR, rtype := ArrayReply, elements := m, brk := LF)).0;
      ReadsItems(v, n, s, at + 1 + |Decimal(m)| + 2);
    }
  }

  /** Every legal reply is read back exactly, and no byte behind it is touched. */
  lemma {:induction false} ReadsValue(v: Value, s: seq<Byte>, at: nat)
    requires Legal(v) && Has(s, at, Encode(v))
    ensures Reads(v, s, at)
    decreases v, |if v.Array? then v.items else []| + 2
  {
    match v
    case Nil => ReadsNil(s, at);
    case Status(_) => ReadsLine(v, s, at);
    case Err(_) => ReadsLine(v, s, at);
    case Integer(_) => ReadsInteger(v, s, at);
    case Bulk(_) => ReadsBulk(v, s, at);
    case Array(_) => ReadsArray(v, s, at);
  }

  // ---- Null arrays are the only exception ----

  /** Legal but for null arrays. */
  predicate Sendable(v: Value)
    decreases v
  {
    if v.Array? then |v.items| < 0x1_0000_0000_0000_0000 && forall i :: 0 <= i < |v.items| ==> Sendable(v.items[i])
    else v.NullArray? || Legal(v)
  }

  function Nulls(v: Value): (k: nat)
    decreases v
  {
    match v
    case NullArray => 1
    case Array(items) => NullsAll(items)
    case _ => 0
  }

  function NullsAll(vs: seq<Value>): (k: nat)
    decreases vs
  {
    if vs == [] then 0 else Nulls(vs[0]) + NullsAll(vs[1..])
  }

  lemma {:induction false} NullsAt(vs: seq<Value>, i: nat)
    requires i < |vs|
    ensures Nulls(vs[i]) <= NullsAll(vs)
  {
    if i > 0 { NullsAt(vs[1..], i - 1); }
  }

  lemma {:induction false} NoNulls(vs: seq<Value>)
    requires forall i :: 0 <= i < |vs| ==> Nulls(vs[i]) == 0
    ensures NullsAll(vs) == 0
  {
    if vs != [] { NoNulls(vs[1..]); }
  }

  lemma {:induction false} LegalIffNoNulls(v: Value)
    requires Sendable(v)
    ensures Legal(v) <==> Nulls(v) == 0
    decreases v
  {
    if v.Array? {
      forall i | 0 <= i < |v.items| ensures Legal(v.items[i]) <==> Nulls(v.items[i]) == 0 {
        LegalIffNoNulls(v.items[i]);
      }
      if Legal(v) { NoNulls(v.items); }
      if Nulls(v) == 0 {
        forall i | 0 <= i < |v.items| ensures Legal(v.items[i]) { NullsAt(v.items, i); }
      }
    }
  }

  /** The parser is between two replies of a nested one. */
  ghost predicate AtBoundary(n: Node) {
    || n == Fresh
    || (Waiting(n) && AtBoundary(n.childs[n.pos]))
  }

  /** How many more replies such a parser needs. */
  ghost function Need(n: Node): (k: nat)
    requires AtBoundary(n)
    ensures k >= 1
  {
    if n == Fresh then 1 else n.want - n.pos - 1 + Need(n.childs[n.pos])
  }

  /** From `n` at `at`, the parser gets to `end` needing `k` more replies. */
  ghost predicate Gets(n: Node, s: seq<Byte>, at: nat, end: nat, k: nat)
    requires at <= |s|
  {
    if k == 0 then RunAt(n, s, at).Reply? && RunAt(n, s, at).end == end
    else exists n' :: AtBoundary(n') && end <= |s| && RunAt(n, s, at) == RunAt(n', s, end) && Need(n') == k
  }

  /** What a child gets to, its array gets to. */
  lemma {:induction false} ArrayGets(n: Node, s: seq<Byte>, at: nat, end: nat, k: nat)
    requires Waiting(n) && AtBoundary(n.childs[n.pos]) && at <= end <= |s| && Gets(n.childs[n.pos], s, at, end, k)
    ensures Gets(n, s, at, end, n.want - n.pos - 1 + k)
  {
    var c := n.childs[n.pos];
    ChildRun(n, s, at);
    if k == 0 {
      if n.pos + 1 < n.want {
        var m := ChildDone(n, RunAt(c, s, at).n);
        NextChild(n, RunAt(c, s, at).n);
        NeedAt(m, Fresh);
      }
    } else {
      var c' :| AtBoundary(c') && RunAt(c, s, at) == RunAt(c', s, end) && Need(c') == k;
      var m := n.(childs := n.childs[n.pos := c']);
      BoundaryLive(c');
      ChildRun(m, s, end);
      if !RunAt(c', s, end).Error? { SameChildren(n, m, c', RunAt(c', s, end).n); }
      assert RunAt(n, s, at) == RunAt(m, s, end);
      NeedAt(m, c');
    }
  }

  lemma {:induction false} NeedAt(n: Node, c: Node)
    requires Waiting(n) && n.childs[n.pos] == c && AtBoundary(c)
    ensures AtBoundary(n) && Need(n) == n.want - n.pos - 1 + Need(c)
    ensures c == Fresh ==> Need(n) == n.want - n.pos
  {
  }

  lemma {:induction false} SameChildren(n: Node, m: Node, c: Node, x: Node)
    requires n.pos < |n.childs| && m == n.(childs := n.childs[n.pos := c])
    ensures m.(childs := m.childs[m.pos := x]) == n.(childs := n.childs[n.pos := x])
    ensures ChildDone(m, x) == ChildDone(n, x)
  {
    assert m.childs[m.pos := x] == n.childs[n.pos := x];
  }

  lemma {:induction false} BoundaryLive(n: Node)
    requires AtBoundary(n)
    ensures Live(n)
  {
  }

  lemma RunNullArray(s: seq<Byte>, at: nat)
    requires Has(s, at, Encode(NullArray))
    ensures Gets(Fresh, s, at, at + 5, 1)
  {
    HasFirst(s, at, STAR, [MINUS, 49] + CRLF);
    HasFirst(s, at + 1, MINUS, [49] + CRLF);
    HasFirst(s, at + 2, 49, CRLF);
    RunOpcode(s, at, STAR);
    var n := Fresh.(op := STAR, rtype := ArrayReply);
    var n1 := n.(rtype := NilReply);
    StepCount(n, MINUS);
    StepCount(n1, 49);
    var n2 := n1.(elements := 1);
    assert RunAt(n, s, at + 1) == RunAt(n1, s, at + 2) == RunAt(n2, s, at + 3);
    RunCountEnd(n2, s, at + 3);
    var n3 := ArrayHeader(n2.(brk := LF)).0;
    NeedAt(n3, Fresh);
  }

  /** The end of an array's count line. */
  lemma RunCountEnd(n: Node, s: seq<Byte>, at: nat)
    requires n.op == STAR && n.want == 0 && n.brk == CR && Has(s, at, CRLF)
    ensures
      var n' := ArrayHeader(n.(brk := LF)).0;
      RunAt(n, s, at) == if n.elements == 0 then Reply(n', at + 2) else RunAt(n', s, at + 2)
  {
    HasFirst(s, at, CR, [LF]);
    HasFirst(s, at + 1, LF, []);
    StepCount(n, CR);
    StepCount(n.(brk := LF), LF);
    assert RunAt(n, s, at) == RunAt(n.(brk := LF), s, at + 1);
  }

  /** The count line of an array of `m` elements. */
  lemma RunArrayHeader(m: nat, rest: seq<Byte>, s: seq<Byte>, at: nat)
    requires Has(s, at, [STAR] + Decimal(m) + CRLF + rest)
    ensures
      var n' := ArrayHeader(Fresh.(op := STAR, rtype := ArrayReply, elements := m, brk := LF)).0;
      var at' := at + 1 + |Decimal(m)| + 2;
      && Has(s, at', rest)
      && RunAt(Fresh, s, at) == if m == 0 then Reply(n', at') else RunAt(n', s, at')
  {
    hide RunAt, Has, Decimal;
    assert [STAR] + Decimal(m) + CRLF + rest == [STAR] + (Decimal(m) + (CRLF + rest));
    HasFirst(s, at, STAR, Decimal(m) + (CRLF + rest));
    RunOpcode(s, at, STAR);
    HasSplit(s, at + 1, Decimal(m), CRLF + rest);
    RunDigitsCount(Fresh.(op := STAR, rtype := ArrayReply), s, at + 1, m);
    var at' := at + 1 + |Decimal(m)|;
    HasSplit(s, at', CRLF, rest);
    RunCountEnd(Fresh.(op := STAR, rtype := ArrayReply, elements := m), s, at');
  }

  /** A value without arrays is read at once. */
  lemma LeafGets(v: Value, s: seq<Byte>, at: nat)
    requires Legal(v) && !v.Array? && Has(s, at, Encode(v))
    ensures at + |Encode(v)| <= |s| && Nulls(v) == 0 && Gets(Fresh, s, at, at + |Encode(v)|, 0)
  {
    hide Encode, RunAt;
    ReadsValue(v, s, at);
  }

  /** The header of an array is read, and as many replies as it has elements are missing. */
  lemma ArrayOpens(items: seq<Value>, s: seq<Byte>, at: nat) returns (n: Node, at': nat)
    requires Has(s, at, Encode(Array(items)))
    ensures at + |Encode(Array(items))| <= |s| && at <= at' && at' + |EncodeAll(items)| == at + |Encode(Array(items))|
    ensures Has(s, at', EncodeAll(items))
    ensures items == [] ==> Gets(Fresh, s, at, at + |Encode(Array(items))|, 0)
    ensures items != [] ==> AtBoundary(n) && Need(n) == |items| && RunAt(Fresh, s, at) == RunAt(n, s, at')
  {
    hide Decimal, RunAt;
    var m := |items|;
    RunArrayHeader(m, EncodeAll(items), s, at);
    n, at' := ArrayHeader(Fresh.(op := STAR, rtype := ArrayReply, elements := m, brk := LF)).0, at + 1 + |Decimal(m)| + 2;
    if m > 0 { NeedAt(n, Fresh); }
  }

  /** Reading one value brings the parser one reply forward and one back for every null array in it. */
  lemma {:induction false} Consumes(v: Value, n: Node, s: seq<Byte>, at: nat)
    requires Sendable(v) && AtBoundary(n) && Has(s, at, Encode(v))
    ensures Gets(n, s, at, at + |Encode(v)|, Need(n) - 1 + Nulls(v))
    decreases v, 1, n
  {
    hide Gets, Has, RunAt, Encode, Nulls, Sendable;
    HasWithin(s, at, Encode(v));
    if n == Fresh {
      ConsumesFresh(v, s, at);
    } else {
      var c := n.childs[n.pos];
      Consumes(v, c, s, at);
      NeedAt(n, c);
      ArrayGets(n, s, at, at + |Encode(v)|, Need(c) - 1 + Nulls(v));
    }
  }

  lemma {:induction false} ConsumesFresh(v: Value, s: seq<Byte>, at: nat)
    requires Sendable(v) && Has(s, at, Encode(v))
    ensures Gets(Fresh, s, at, at + |Encode(v)|, Nulls(v))
    decreases v, 0
  {
    hide Gets, Has, RunAt, Encode;
    if v.NullArray? {
      NullArrayLength();
      RunNullArray(s, at);
    } else if v.Array? {
      var n, at' := ArrayOpens(v.items, s, at);
      if v.items != [] {
        ConsumesAll(v.items, n, s, at');
        GetsFrom(Fresh, s, at, n, at', at' + |EncodeAll(v.items)|, NullsAll(v.items));
      }
    } else {
      LeafGets(v, s, at);
    }
  }

  lemma NullArrayLength()
    ensures |Encode(NullArray)| == 5
  {
  }

  lemma NextBoundary(n: Node, s: seq<Byte>, at: nat, end: nat, k: nat) returns (n': Node)
    requires at <= |s| && k > 0 && Gets(n, s, at, end, k)
    ensures AtBoundary(n') && end <= |s| && RunAt(n, s, at) == RunAt(n', s, end) && Need(n') == k
  {
    n' :| AtBoundary(n') && end <= |s| && RunAt(n, s, at) == RunAt(n', s, end) && Need(n') == k;
  }

  lemma GetsFrom(n: Node, s: seq<Byte>, at: nat, n': Node, at': nat, end: nat, k: nat)
    requires at <= |s| && at' <= |s| && RunAt(n, s, at) == RunAt(n', s, at') && Gets(n', s, at', end, k)
    ensures Gets(n, s, at, end, k)
  {
  }

  lemma FirstOfAll(vs: seq<Value>)
    requires (forall i :: 0 <= i < |vs| ==> Sendable(vs[i])) && vs != []
    ensures EncodeAll(vs) == Encode(vs[0]) + EncodeAll(vs[1..]) && NullsAll(vs) == Nulls(vs[0]) + NullsAll(vs[1..])
    ensures EncodeAll([]) == [] && NullsAll([]) == 0
  {
  }

  lemma {:induction false} ConsumesAll(vs: seq<Value>, n: Node, s: seq<Byte>, at: nat)
    requires (forall i :: 0 <= i < |vs| ==> Sendable(vs[i])) && vs != []
    requires AtBoundary(n) && Need(n) >= |vs| && Has(s, at, EncodeAll(vs))
    ensures Gets(n, s, at, at + |EncodeAll(vs)|, Need(n) - |vs| + NullsAll(vs))
    decreases vs, 0
  {
    hide RunAt, Gets, Has, Encode, EncodeAll, Nulls, NullsAll, Sendable;
    var v, rest := vs[0], vs[1..];
    FirstOfAll(vs);
    HasSplit(s, at, Encode(v), EncodeAll(rest));
    HasWithin(s, at, Encode(v));
    Consumes(v, n, s, at);
    var at' := at + |Encode(v)|;
    if rest == [] {
      assert Encode(v) + [] == Encode(v);
    } else {
      var k := Need(n) - 1 + Nulls(v);
      var n' := NextBoundary(n, s, at, at', k);
      ConsumesAll(rest, n', s, at');
      GetsFrom(n, s, at, n', at', at' + |EncodeAll(rest)|, k - |rest| + NullsAll(rest));
    }
  }

  /** A reply is read back exactly when it contains no null array; otherwise the parser goes on waiting. */
  lemma ReadBackIffNoNullArray(v: Value)
    requires Sendable(v)
    ensures Reads(v, Encode(v), 0) <==> Nulls(v) == 0
    ensures Nulls(v) > 0 ==> RunAt(Fresh, Encode(v), 0).More?
  {
    var s := Encode(v);
    assert s[0..0 + |s|] == s;
    if Nulls(v) == 0 {
      LegalIffNoNulls(v);
      ReadsValue(v, s, 0);
    } else {
      Consumes(v, Fresh, s, 0);
    }
  }

  // ---- Arrival in pieces ----

  /** One `parse` call per piece, as far as needed; positions count from the start of the first piece. */
  ghost function Feed(n: Node, pieces: seq<seq<Byte>>): (r: Result)
    decreases |pieces|
  {
    if pieces == [] then More(n)
    else
      match RunAt(Reset(n), pieces[0], 0)
      case More(m) => Shift(Feed(m, pieces[1..]), |pieces[0]|)
      case Reply(m, end) => Reply(m, end)
      case Error => Error
  }

  /** No piece ends inside an integer after its sign. */
  ghost predicate NoSignSplit(n: Node, pieces: seq<seq<Byte>>)
    decreases |pieces|
  {
    && !SignPending(n)
    && (pieces != [] && RunAt(n, pieces[0], 0).More? ==> NoSignSplit(RunAt(n, pieces[0], 0).n, pieces[1..]))
  }

  /** The parser cannot tell how its input was cut up. */
  lemma {:induction false} SegmentationIndependent(n: Node, pieces: seq<seq<Byte>>)
    requires NoSignSplit(n, pieces)
    ensures Feed(n, pieces) == RunAt(n, Join(pieces), 0)
    decreases |pieces|
  {
    ResetUnlessSign(n);
    if pieces != [] {
      RunConcat(n, pieces[0], Join(pieces[1..]), 0);
      var r := RunAt(n, pieces[0], 0);
      if r.More? { SegmentationIndependent(r.n, pieces[1..]); }
    }
  }

  /** A legal reply arrives in any pieces: it is read back from exactly its bytes. */
  lemma ReplyArrives(v: Value, pieces: seq<seq<Byte>>)
    requires Legal(v) && Join(pieces) == Encode(v) && NoSignSplit(Fresh, pieces)
    ensures var r := Feed(Fresh, pieces); r.Reply? && r.end == |Encode(v)| && ValueOf(r.n) == v
  {
    SegmentationIndependent(Fresh, pieces);
    assert Encode(v)[0..0 + |Encode(v)|] == Encode(v);
    ReadsValue(v, Encode(v), 0);
  }

  /** A negative number cut behind its sign comes out positive. */
  lemma SplitSignIsLost(m: nat)
    requires m > 0
    ensures
      var pieces := [[COLON, MINUS], Decimal(m) + CRLF];
      && Join(pieces) == Encode(Integer(-(m as int)))
      && var r := Feed(Fresh, pieces); r.Reply? && ValueOf(r.n) == Integer(m)
  {
    var a, b := [COLON, MINUS], Decimal(m) + CRLF;
    assert Join([a, b]) == a + Join([b]) && Join([b]) == b + Join([]);
    var n := Fresh.(op := COLON, rtype := IntegerReply, want := 1);
    assert RunAt(Fresh, a, 0) == RunAt(n, a, 1) == RunAt(n.(want := -1), a, 2);
    assert b[0..|Decimal(m)|] == Decimal(m);
    RunDigitsInteger(n, b, 0, m);
    var n' := n.(integer := m);
    var at := |Decimal(m)|;
    assert b[at] == CR && b[at + 1] == LF;
    assert RunAt(n', b, at) == RunAt(n'.(brk := LF), b, at + 1);
    assert Feed(Fresh, [a, b]) == Shift(Feed(n.(want := -1), [b]), 2);
  }

  // ---- Formatting commands ----

  /** `intlen` */
  function IntLen(num: int): (n: nat)
    decreases num < 0
  {
    if num < 0 then 1 + IntLen(-num)
    else if num < 10 then 1
    else if num < 100 then 2
    else if num < 1000 then 3
    else if num < 10000 then 4
    else if num < 100000 then 5
    else if num < 1000000 then 6
    else if num < 10000000 then 7
    else if num < 100000000 then 8
    else if num < 1000000000 then 9
    else if num < 10000000000 then 10
    else if num < 100000000000 then 11
    else if num < 1000000000000 then 12
    else if num < 10000000000000 then 13
    else if num < 100000000000000 then 14
    else if num < 1000000000000000 then 15
    else if num < 10000000000000000 then 16
    else if num < 100000000000000000 then 17
    else if num < 1000000000000000000 then 18
    else 19
  }

  /** `intlen` counts the digits of every 64-bit number it is given. */
  lemma {:induction false} IntLenIsLength(n: nat)
    requires n < 10_000_000_000_000_000_000
    ensures IntLen(n) == |Decimal(n)|
    decreases n
  {
    if n >= 10 { IntLenIsLength(n / 10); }
  }

  /** `bulklen` */
  function BulkLen(len: nat): (n: nat) {
    1 + IntLen(len) + 2 + len + 2
  }

  /** A command is the array of its arguments. */
  function Command(argv: seq<seq<Byte>>): (v: Value) {
    Array(seq(|argv|, i requires 0 <= i < |argv| => Bulk(argv[i])))
  }

  /** Copies `bytes` into the command buffer at `pos`. */
  method Put(cmd: array<Byte>, pos: nat, bytes: seq<Byte>) returns (pos': nat)
    requires pos + |bytes| <= cmd.Length
    modifies cmd
    ensures pos' == pos + |bytes| && cmd[..pos'] == old(cmd[..pos]) + bytes
  {
    for i := 0 to |bytes|
      invariant cmd[..pos + i] == old(cmd[..pos]) + bytes[..i]
    {
      cmd[pos + i] := bytes[i];
    }
    pos' := pos + |bytes|;
  }

  /** One argument on the wire. */
  function ArgBytes(arg: seq<Byte>): (s: seq<Byte>) {
    [DOLLAR] + Decimal(|arg|) + CRLF + arg + CRLF
  }

  method PutArg(cmd: array<Byte>, pos: nat, arg: seq<Byte>) returns (pos': nat)
    requires pos + |ArgBytes(arg)| <= cmd.Length
    modifies cmd
    ensures pos' == pos + |ArgBytes(arg)| && cmd[..pos'] == old(cmd[..pos]) + ArgBytes(arg)
  {
    ghost var before, digits := cmd[..pos], [DOLLAR] + Decimal(|arg|) + CRLF;
    pos' := Put(cmd, pos, [DOLLAR] + Decimal(|arg|) + CRLF);
    pos' := Put(cmd, pos', arg);
    pos' := Put(cmd, pos', CRLF);
    assert before + digits + arg + CRLF == before + (digits + arg + CRLF);
  }

  lemma CommandParts(argv: seq<seq<Byte>>, k: nat)
    requires k < |argv|
    ensures
      var items := Command(argv).items;
      EncodeAll(items[k..]) == ArgBytes(argv[k]) + EncodeAll(items[k + 1..])
  {
    var items := Command(argv).items;
    assert items[k..][0] == Bulk(argv[k]) && items[k..][1..] == items[k + 1..];
  }

  /** The size `redisvFormatCommand` adds up while it collects the arguments. */
  function TotalLen(argv: seq<seq<Byte>>): (n: nat) {
    if argv == [] then 0 else BulkLen(|argv[0]|) + TotalLen(argv[1..])
  }

  lemma {:induction false} TotalLenIsLength(argv: seq<seq<Byte>>, k: nat)
    requires k <= |argv| && (forall i :: 0 <= i < |argv| ==> |argv[i]| < 0x8000_0000_0000_0000)
    ensures |EncodeAll(Command(argv).items[k..])| == TotalLen(argv[k..])
    decreases |argv| - k
  {
    if k < |argv| {
      TotalLenIsLength(argv, k + 1);
      CommandParts(argv, k);
      IntLenIsLength(|argv[k]|);
      assert argv[k..][0] == argv[k] && argv[k..][1..] == argv[k + 1..];
    }
  }

  /** A sum kept in a 32-bit `int`. */
  function Int32(n: int): (r: int)
    ensures -0x8000_0000 <= r < 0x8000_0000 && (r == n <==> -0x8000_0000 <= n < 0x8000_0000)
  {
    var low := n % U32;
    if low < 0x8000_0000 then low else low - U32
  }

  lemma Int32Add(m: int, n: int)
    ensures Int32(Int32(m) + n) == Int32(m + n)
  {
    var k := (m - Int32(m)) / U32;
    assert Int32(m) + n == m + n - k * U32;
    assert (m + n - k * U32) % U32 == (m + n) % U32;
  }

  /** The size of the command as `redisvFormatCommand` adds it up in an `int`: right exactly for commands shorter
      than 2 GiB. */
  method CommandLength(argv: seq<seq<Byte>>) returns (totlen: int)
    requires |argv| < 0x8000_0000 && forall i :: 0 <= i < |argv| ==> |argv[i]| < 0x8000_0000_0000_0000
    ensures totlen == Int32(|Encode(Command(argv))|)
    ensures totlen == |Encode(Command(argv))| <==> |Encode(Command(argv))| < 0x8000_0000
  {
    hide IntLen, Decimal, Int32;
    totlen := 0;
    ghost var sum := 0;
    assert Int32(0) == 0;
    for j := 0 to |argv|
      invariant sum + TotalLen(argv[j..]) == TotalLen(argv[0..]) && totlen == Int32(sum)
    {
      assert argv[j..][0] == argv[j] && argv[j..][1..] == argv[j + 1..];
      Int32Add(sum, BulkLen(|argv[j]|));
      totlen := Int32(totlen + BulkLen(|argv[j]|));
      sum := sum + BulkLen(|argv[j]|);
    }
    Int32Add(sum, 1 + IntLen(|argv|) + 2);
    totlen := Int32(totlen + (1 + IntLen(|argv|) + 2));
    TotalLenIsLength(argv, 0);
    IntLenIsLength(|argv|);
    assert Command(argv).items[0..] == Command(argv).items;
  }

  /** Every argument is shorter than the command. */
  lemma {:induction false} ArgsShorter(items: seq<Value>, i: nat)
    requires i < |items| && items[i].Bulk?
    ensures |items[i].text| < |EncodeAll(items)|
  {
    if i > 0 { ArgsShorter(items[1..], i - 1); }
  }

  lemma CommandHead(argv: seq<seq<Byte>>)
    ensures
      var head, items := [STAR] + Decimal(|argv|) + CRLF, Command(argv).items;
      items[0..] == items && Encode(Command(argv)) == head + EncodeAll(items[0..])
  {
    assert Command(argv).items[0..] == Command(argv).items;
  }

  /** The assembly part of `redisvFormatCommand`: the buffer is exactly large enough. */
  method FormatCommand(argv: seq<seq<Byte>>) returns (cmd: array<Byte>, totlen: nat)
    requires |argv| < 0x8000_0000 && |Encode(Command(argv))| < 0x7FFF_FFFF
    ensures cmd.Length == totlen + 1 && cmd[..totlen] == Encode(Command(argv)) && cmd[totlen] == 0
  {
    hide Encode, EncodeAll, Decimal, ArgBytes;
    ghost var items := Command(argv).items;
    CommandHead(argv);
    forall i | 0 <= i < |argv| ensures |argv[i]| < 0x8000_0000_0000_0000 { ArgsShorter(items, i); }
    totlen := CommandLength(argv);
    cmd := new Byte[totlen + 1];
    var pos: nat := Put(cmd, 0, [STAR] + Decimal(|argv|) + CRLF);
    assert cmd[..pos] == [STAR] + Decimal(|argv|) + CRLF;
    for j := 0 to |argv|
      invariant cmd.Length == totlen + 1 && pos <= totlen
      invariant cmd[..pos] + EncodeAll(items[j..]) == Encode(Command(argv))
    {
      CommandParts(argv, j);
      AppendAssoc(cmd[..pos], ArgBytes(argv[j]), EncodeAll(items[j + 1..]));
      pos := PutArg(cmd, pos, argv[j]);
    }
    NoItems(items);
    assert cmd[..pos] + [] == cmd[..pos];
    assert pos == totlen;
    cmd[pos] := 0;
  }

  lemma NoItems(items: seq<Value>)
    ensures EncodeAll(items[|items|..]) == []
  {
  }

  /** A formatted command, parsed as a reply, is the array of its arguments, byte for byte. */
  lemma CommandRoundTrip(argv: seq<seq<Byte>>)
    requires |argv| < 0x8000_0000 && forall i :: 0 <= i < |argv| ==> |argv[i]| + 2 < 0x8000_0000
    ensures Reads(Command(argv), Encode(Command(argv)), 0)
  {
    var s := Encode(Command(argv));
    assert s[0..0 + |s|] == s;
    ReadsValue(Command(argv), s, 0);
  }
}
