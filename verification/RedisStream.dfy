/** A stream of replies, as `data_cb` of src/redis/chk_client.c feeds it to the parser
piece by piece. */
module RedisStream {
  import opened Bytes
  import opened Resp
  import opened RespCodec

  /** The replies completed, the node of the unfinished one (`Fresh` if there is none), and whether the input is broken. */
  datatype Pumped = Pumped(values: seq<Value>, node: Node, failed: bool)

  /** All replies in `s` from position `at`, the first of them already begun in `n`. */
  ghost function PumpAt(n: Node, s: seq<Byte>, at: nat): (p: Pumped)
    requires at <= |s|
    decreases |s| - at
  {
    if at == |s| then Pumped([], n, false)
    else
      RunEnd(n, s, at);
      match RunAt(n, s, at)
      case More(m) => Pumped([], m, false)
      case Error => Pumped([], Fresh, true)
      case Reply(m, end) =>
        var p := PumpAt(Fresh, s, end);
        p.(values := [ValueOf(m)] + p.values)
  }

  ghost function Then(p: Pumped, q: Pumped): (r: Pumped) {
    if p.failed then p else q.(values := p.values + q.values)
  }

  /** The code's way: every piece resumes the node the previous one left. */
  ghost function PumpAll(n: Node, pieces: seq<seq<Byte>>): (p: Pumped)
    decreases |pieces|
  {
    if pieces == [] then Pumped([], n, false)
    else
      var p := PumpAt(Reset(n), pieces[0], 0);
      Then(p, PumpAll(p.node, pieces[1..]))
  }

  // ---- Pieces do not matter ----

  lemma {:induction false} PumpShift(n: Node, a: seq<Byte>, b: seq<Byte>, at: nat)
    requires at <= |b|
    ensures PumpAt(n, a + b, |a| + at) == PumpAt(n, b, at)
    decreases |b| - at
  {
    if at < |b| {
      RunShift(n, a, b, at);
      RunEnd(n, b, at);
      var r := RunAt(n, b, at);
      if r.Reply? { PumpShift(Fresh, a, b, r.end); }
    }
  }

  lemma {:induction false} PumpConcat(n: Node, a: seq<Byte>, b: seq<Byte>, at: nat)
    requires at <= |a|
    ensures
      var p := PumpAt(n, a, at);
      var q := PumpAt(n, a + b, at);
      q == Then(p, PumpAt(p.node, b, 0))
    decreases |a| - at
  {
    var p := PumpAt(n, a, at);
    if at == |a| {
      PumpShift(n, a, b, 0);
      assert [] + PumpAt(n, b, 0).values == PumpAt(n, b, 0).values;
    } else {
      RunEnd(n, a, at);
      RunConcat(n, a, b, at);
      var r := RunAt(n, a, at);
      if r.More? {
        ResumeConcat(n, r.n, a, b, at);
        assert [] + PumpAt(r.n, b, 0).values == PumpAt(r.n, b, 0).values;
      } else if r.Reply? {
        PumpConcat(Fresh, a, b, r.end);
        var p' := PumpAt(Fresh, a, r.end);
        var more := PumpAt(p'.node, b, 0).values;
        assert [ValueOf(r.n)] + (p'.values + more) == ([ValueOf(r.n)] + p'.values) + more;
      }
    }
  }

  /** A reply begun in `a` and finished, if at all, in `b`. */
  lemma ResumeConcat(n: Node, m: Node, a: seq<Byte>, b: seq<Byte>, at: nat)
    requires at < |a| && RunAt(n, a, at) == More(m)
    ensures PumpAt(n, a + b, at) == PumpAt(m, b, 0)
  {
    RunConcat(n, a, b, at);
    RunEnd(m, b, 0);
    var r := RunAt(m, b, 0);
    if b == [] {
      assert a + b == a;
    } else if r.Reply? {
      PumpShift(Fresh, a, b, r.end);
    }
  }

  /** No piece ends inside an integer after its sign. */
  ghost predicate NoSignSplits(n: Node, pieces: seq<seq<Byte>>)
    decreases |pieces|
  {
    && !SignPending(n)
    && (pieces != [] ==>
          var p := PumpAt(n, pieces[0], 0);
          !p.failed ==> NoSignSplits(p.node, pieces[1..]))
  }

  /** However the stream is cut up, the same replies come out. */
  lemma {:induction false} PiecesDoNotMatter(n: Node, pieces: seq<seq<Byte>>)
    requires NoSignSplits(n, pieces)
    ensures PumpAll(n, pieces) == PumpAt(n, Join(pieces), 0)
    decreases |pieces|
  {
    ResetUnlessSign(n);
    if pieces != [] {
      var p := PumpAt(n, pieces[0], 0);
      PumpConcat(n, pieces[0], Join(pieces[1..]), 0);
      if !p.failed { PiecesDoNotMatter(p.node, pieces[1..]); }
    }
  }

  /** A part of a legal reply leaves the parser waiting for the rest. */
  lemma PartOfReply(v: Value, k: nat)
    requires Legal(v) && k < |Encode(v)|
    ensures RunAt(Fresh, Encode(v)[..k], 0).More?
  {
    var s := Encode(v);
    assert s[0..0 + |s|] == s;
    ReadsValue(v, s, 0);
    RunConcat(Fresh, s[..k], s[k..], 0);
    assert s == s[..k] + s[k..];
    RunEnd(Fresh, s[..k], 0);
  }

  lemma PumpPart(s: seq<Byte>, at: nat, v: Value, k: nat)
    requires Legal(v) && k < |Encode(v)| && at <= |s| && s[at..] == Encode(v)[..k]
    ensures PumpAt(Fresh, s, at).values == [] && !PumpAt(Fresh, s, at).failed
  {
    if at < |s| {
      PartOfReply(v, k);
      RunShift(Fresh, s[..at], s[at..], 0);
      assert s == s[..at] + s[at..];
    }
  }

  lemma PumpOne(v: Value, s: seq<Byte>, at: nat, rest: seq<Byte>)
    requires Legal(v) && at <= |s| && s[at..] == Encode(v) + rest
    ensures
      var at' := at + |Encode(v)|;
      && at' <= |s| && s[at'..] == rest
      && PumpAt(Fresh, s, at) == Then(Pumped([v], Fresh, false), PumpAt(Fresh, s, at'))
  {
    var e := Encode(v);
    assert s[at..at + |e|] == (e + rest)[..|e|] == e;
    assert s[at + |e|..] == (e + rest)[|e|..] == rest;
    ReadsValue(v, s, at);
  }

  lemma {:induction false} PumpReplies(vs: seq<Value>, s: seq<Byte>, at: nat, v: Value, k: nat)
    requires (forall j :: 0 <= j < |vs| ==> Legal(vs[j])) && Legal(v) && k < |Encode(v)|
    requires at <= |s| && s[at..] == EncodeAll(vs) + Encode(v)[..k]
    ensures PumpAt(Fresh, s, at).values == vs && !PumpAt(Fresh, s, at).failed
    decreases |vs|
  {
    hide PumpAt, Encode, Legal;
    if vs == [] {
      assert EncodeAll(vs) + Encode(v)[..k] == Encode(v)[..k];
      PumpPart(s, at, v, k);
    } else {
      var rest := EncodeAll(vs[1..]) + Encode(v)[..k];
      assert s[at..] == Encode(vs[0]) + rest;
      PumpOne(vs[0], s, at, rest);
      PumpReplies(vs[1..], s, at + |Encode(vs[0])|, v, k);
      assert vs == [vs[0]] + vs[1..];
    }
  }

  /** Legal replies and a part of one more, in any pieces: exactly the complete replies come out, in order. */
  lemma RepliesArrive(vs: seq<Value>, v: Value, k: nat, pieces: seq<seq<Byte>>)
    requires (forall j :: 0 <= j < |vs| ==> Legal(vs[j])) && Legal(v) && k < |Encode(v)|
    requires Join(pieces) == EncodeAll(vs) + Encode(v)[..k] && NoSignSplits(Fresh, pieces)
    ensures PumpAll(Fresh, pieces).values == vs && !PumpAll(Fresh, pieces).failed
  {
    PiecesDoNotMatter(Fresh, pieces);
    assert Join(pieces)[0..] == Join(pieces);
    PumpReplies(vs, Join(pieces), 0, v, k);
  }
}
