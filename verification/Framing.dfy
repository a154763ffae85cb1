/** Length-prefixed packets: a four-byte big-endian payload length, then the payload. */
module Framing {
  import opened Bytes

  function Be32(s: seq<Byte>): (n: nat)
    requires |s| >= 4
    ensures n < U32
  {
    s[0] as nat * 0x100_0000 + s[1] as nat * 0x1_0000 + s[2] as nat * 0x100 + s[3]
  }

  function Encode32(n: nat): (s: seq<Byte>)
    requires n < U32
    ensures |s| == 4 && Be32(s) == n
  {
    var m := n / 256;
    var l := m / 256;
    [l / 256, l % 256, m % 256, n % 256]
  }

  /** The most significant byte comes first. */
  lemma BigEndian(n: nat)
    requires n < U32
    ensures Encode32(n) == [n / 0x100_0000, n / 0x1_0000 % 0x100, n / 0x100 % 0x100, n % 0x100]
  {
    hide Be32;
    var m := n / 256;
    var l := m / 256;
    assert l == n / 0x1_0000;
    assert l / 256 == n / 0x100_0000;
  }

  /** A packet as a sender builds it. */
  function Frame(payload: seq<Byte>): (s: seq<Byte>)
    requires |payload| < U32
  {
    Encode32(|payload|) + payload
  }

  predicate Legal(payload: seq<Byte>, max: nat) {
    payload != [] && 4 + |payload| <= max < U32
  }

  function FrameAll(ps: seq<seq<Byte>>, max: nat): (r: seq<seq<Byte>>)
    requires forall i :: 0 <= i < |ps| ==> Legal(ps[i], max)
  {
    seq(|ps|, i requires 0 <= i < |ps| && Legal(ps[i], max) => Frame(ps[i]))
  }

  /** What the decoder does next with the unread bytes `s`; the packet size is computed in 32 bits. */
  datatype Outcome = More | ZeroLength | TooLarge | Packet(total: nat)

  function Next(s: seq<Byte>, max: nat): (o: Outcome) {
    if |s| <= 4 then More
    else
      var len := Be32(s);
      var total := (4 + len) % U32;
      if len == 0 then ZeroLength
      else if total > max then TooLarge
      else if total > |s| then More
      else Packet(total)
  }

  /** What the decoder makes of a header that announces `n` payload bytes, with `rest` behind it: nothing is decided before
      the first payload byte; a length of zero and a packet above the limit are refused at once. */
  lemma NextOfHeader(n: nat, rest: seq<Byte>, max: nat)
    requires n + 4 < 0x1_0000_0000
    ensures
      var o := Next(Encode32(n) + rest, max);
      if rest == [] then o == More
      else if n == 0 then o == ZeroLength
      else if n + 4 > max then o == TooLarge
      else if |rest| < n then o == More
      else o == Packet(n + 4)
  {
    var s := Encode32(n) + rest;
    assert s[..4] == Encode32(n) && Be32(s) == Be32(s[..4]);
  }

  /** A byte string that is one complete legal packet. */
  predicate Whole(d: seq<Byte>, max: nat) {
    |d| > 4 && Be32(d) + 4 == |d| <= max < U32
  }

  lemma WholeIsFrame(d: seq<Byte>, max: nat)
    requires |d| >= 4
    ensures Whole(d, max) <==> Legal(d[4..], max) && d == Frame(d[4..])
  {
    if Whole(d, max) {
      EncodeInjective(d[..4]);
      assert d == d[..4] + d[4..];
    }
  }

  lemma EncodeInjective(s: seq<Byte>)
    requires |s| == 4
    ensures Encode32(Be32(s)) == s
  {
    var l: nat := s[0] as nat * 256 + s[1];
    var m: nat := l * 256 + s[2];
    DivMod256(m, s[3]);
    DivMod256(l, s[2]);
    DivMod256(s[0], s[1]);
  }

  lemma DivMod256(q: nat, r: Byte)
    ensures (q * 256 + r) / 256 == q && (q * 256 + r) % 256 == r
  {
  }

  /** The packet cut off is the one the header announces exactly when the 32-bit sum does not wrap. */
  lemma CutIsWholeIffNoWrap(s: seq<Byte>, max: nat)
    requires max < U32 && Next(s, max).Packet?
    ensures
      var n := Next(s, max).total;
      && (Whole(s[..n], max) <==> Be32(s) < U32 - 4)
      && (n > 4 <==> Be32(s) < U32 - 4)
  {
  }

  /** A header that wraps makes the decoder hand out an empty packet without moving on. */
  lemma WrappedHeaderMakesNoProgress(s: seq<Byte>, max: nat)
    requires |s| > 4 && Be32(s) == U32 - 4
    ensures Next(s, max) == Packet(0)
  {
  }

  /** No packet boundary of `s` is followed by a header that wraps. */
  ghost predicate Unwrapped(s: seq<Byte>, max: nat)
    decreases |s|
  {
    match Next(s, max)
    case Packet(n) => n > 4 && Unwrapped(s[n..], max)
    case _ => true
  }

  /** Whatever was cut off before does not change what comes next. */
  lemma NextOfWhole(d: seq<Byte>, rest: seq<Byte>, max: nat)
    requires Whole(d, max)
    ensures Next(d + rest, max) == Packet(|d|) && (d + rest)[|d|..] == rest && (d + rest)[..|d|] == d
  {
    assert (d + rest)[..4] == d[..4];
  }

  /** The decoding of a byte string: packets until the rest holds no complete legal one. */
  ghost predicate Decodes(s: seq<Byte>, max: nat, packets: seq<seq<Byte>>, rest: seq<Byte>) {
    && s == Join(packets) + rest
    && (forall i :: 0 <= i < |packets| ==> Whole(packets[i], max))
    && !Next(rest, max).Packet?
  }

  lemma FirstPacket(s: seq<Byte>, max: nat, ps: seq<seq<Byte>>, rest: seq<Byte>)
    requires Decodes(s, max, ps, rest) && ps != []
    ensures Next(s, max) == Packet(|ps[0]|) && |ps[0]| <= |s| && s[..|ps[0]|] == ps[0]
    ensures Decodes(s[|ps[0]|..], max, ps[1..], rest)
  {
    var s' := Join(ps[1..]) + rest;
    assert s == ps[0] + s';
    NextOfWhole(ps[0], s', max);
  }

  lemma NoPacket(s: seq<Byte>, max: nat, rest: seq<Byte>)
    requires Decodes(s, max, [], rest)
    ensures s == rest && !Next(s, max).Packet?
  {
  }

  /** There is only one decoding. */
  lemma {:induction false} DecodingUnique(s: seq<Byte>, max: nat, ps: seq<seq<Byte>>, rest: seq<Byte>,
      qs: seq<seq<Byte>>, tail: seq<Byte>)
    requires Decodes(s, max, ps, rest) && Decodes(s, max, qs, tail)
    ensures ps == qs && rest == tail
    decreases |ps|
  {
    hide Decodes, Next;
    if ps == [] { NoPacket(s, max, rest); } else { FirstPacket(s, max, ps, rest); }
    if qs == [] { NoPacket(s, max, tail); } else { FirstPacket(s, max, qs, tail); }
    if ps != [] {
      DecodingUnique(s[|ps[0]|..], max, ps[1..], rest, qs[1..], tail);
      assert ps == [ps[0]] + ps[1..] && qs == [qs[0]] + qs[1..];
    }
  }

  /** A sender's frames followed by a part of one more: exactly the frames are decoded. */
  lemma LegalStreamDecodes(ps: seq<seq<Byte>>, p: seq<Byte>, n: nat, max: nat)
    requires forall i :: 0 <= i < |ps| ==> Legal(ps[i], max)
    requires Legal(p, max) && n < |Frame(p)|
    ensures Decodes(Join(FrameAll(ps, max)) + Frame(p)[..n], max, FrameAll(ps, max), Frame(p)[..n])
  {
    hide Next, Whole, Be32, Encode32, Frame;
    var frames := FrameAll(ps, max);
    forall i | 0 <= i < |frames| ensures Whole(frames[i], max) {
      FrameIsWhole(ps[i], max);
    }
    PartIsNone(p, n, max);
  }

  lemma FrameIsWhole(p: seq<Byte>, max: nat)
    requires Legal(p, max)
    ensures Whole(Frame(p), max)
  {
    assert Frame(p)[4..] == p;
    WholeIsFrame(Frame(p), max);
  }

  lemma PartIsNone(p: seq<Byte>, n: nat, max: nat)
    requires Legal(p, max) && n < |Frame(p)|
    ensures !Next(Frame(p)[..n], max).Packet?
  {
    FrameIsWhole(p, max);
    var f := Frame(p);
    if n > 4 { assert f[..n][..4] == f[..4] && Be32(f[..n]) == Be32(f); }
  }

  // ---- Streams without wrapping headers ----

  /** A stream that is decoded into packets and a rest has no wrapping header. */
  lemma {:induction false} DecodedIsUnwrapped(s: seq<Byte>, max: nat, ps: seq<seq<Byte>>, rest: seq<Byte>)
    requires Decodes(s, max, ps, rest)
    ensures Unwrapped(s, max)
    decreases |ps|
  {
    if ps == [] {
      NoPacket(s, max, rest);
    } else {
      FirstPacket(s, max, ps, rest);
      assert Whole(ps[0], max);
      DecodedIsUnwrapped(s[|ps[0]|..], max, ps[1..], rest);
    }
  }

  /** What the decoder sees of a stream that is still arriving. */
  lemma NextOfPrefix(t: seq<Byte>, s: seq<Byte>, max: nat)
    requires t <= s
    ensures Next(t, max).More? || Next(t, max) == Next(s, max)
  {
    if |t| > 4 { assert Be32(t) == Be32(s); }
  }

  lemma {:induction false} PrefixIsUnwrapped(t: seq<Byte>, s: seq<Byte>, max: nat)
    requires t <= s && Unwrapped(s, max)
    ensures Unwrapped(t, max)
    decreases |t|
  {
    NextOfPrefix(t, s, max);
    if Next(t, max).Packet? {
      var n := Next(t, max).total;
      PrefixIsUnwrapped(t[n..], s[n..], max);
    }
  }

  lemma {:induction false} UnwrappedAfter(ps: seq<seq<Byte>>, rest: seq<Byte>, max: nat)
    requires (forall i :: 0 <= i < |ps| ==> Whole(ps[i], max)) && Unwrapped(Join(ps) + rest, max)
    ensures Unwrapped(rest, max)
    decreases |ps|
  {
    if ps == [] {
      assert Join(ps) + rest == rest;
    } else {
      var more := Join(ps[1..]) + rest;
      assert Join(ps) + rest == ps[0] + more;
      NextOfWhole(ps[0], more, max);
      UnwrappedAfter(ps[1..], rest, max);
    }
  }

  /** Packets that make up the beginning of a stream are the first of its decoding. */
  lemma {:induction false} PacketsArePrefix(s: seq<Byte>, max: nat, ps: seq<seq<Byte>>, rest: seq<Byte>,
      qs: seq<seq<Byte>>)
    requires Decodes(s, max, ps, rest) && (forall i :: 0 <= i < |qs| ==> Whole(qs[i], max)) && Join(qs) <= s
    ensures qs <= ps
    decreases |qs|
  {
    hide Next;
    if qs != [] {
      var q, tail := qs[0], s[|qs[0]|..];
      assert q <= Join(qs) <= s && s == q + tail && Whole(q, max);
      NextOfWhole(q, tail, max);
      if ps == [] {
        NoPacket(s, max, rest);
      } else {
        FirstPacket(s, max, ps, rest);
        assert Join(qs[1..]) <= tail by { assert Join(qs) == q + Join(qs[1..]); }
        PacketsArePrefix(tail, max, ps[1..], rest, qs[1..]);
        assert ps == [q] + ps[1..] && qs == [q] + qs[1..];
      }
    }
  }
}
