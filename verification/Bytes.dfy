/** What the components share: optional values, byte strings, text and chains of fixed-capacity chunks. */
module Bytes {
  datatype Option<+T> = None | Some(value: T)

  type Byte = b: nat | b < 256

  const U32: nat := 0x1_0000_0000

  function Min(a: nat, b: nat): (m: nat) {
    if a > b then b else a
  }

  predicate Distinct<T(==)>(s: seq<T>) {
    forall i, j :: 0 <= i < j < |s| ==> s[i] != s[j]
  }

  lemma AppendAssoc<T>(a: seq<T>, b: seq<T>, c: seq<T>)
    ensures a + (b + c) == (a + b) + c
  {
  }

  /** The concatenation of a list of byte strings. */
  function Join(ss: seq<seq<Byte>>): (r: seq<Byte>) {
    if ss == [] then [] else ss[0] + Join(ss[1..])
  }

  lemma {:induction false} JoinAppend(a: seq<seq<Byte>>, b: seq<seq<Byte>>)
    ensures Join(a + b) == Join(a) + Join(b)
  {
    if a == [] {
      assert a + b == b;
    } else {
      assert (a + b)[1..] == a[1..] + b;
      JoinAppend(a[1..], b);
    }
  }

  lemma {:induction false} JoinSnoc(a: seq<seq<Byte>>, x: seq<Byte>)
    ensures Join(a + [x]) == Join(a) + x
  {
    JoinAppend(a, [x]);
    assert Join([x]) == x + Join([]);
  }

  lemma {:induction false} JoinTakeDrop(cs: seq<seq<Byte>>, k: nat)
    requires k <= |cs|
    ensures Join(cs) == Join(cs[..k]) + Join(cs[k..])
  {
    assert cs == cs[..k] + cs[k..];
    JoinAppend(cs[..k], cs[k..]);
  }

  lemma {:induction false} JoinSplit(cs: seq<seq<Byte>>, k: nat)
    requires k < |cs|
    ensures Join(cs) == Join(cs[..k]) + cs[k] + Join(cs[k + 1..])
    ensures Join(cs[..k + 1]) == Join(cs[..k]) + cs[k]
  {
    assert Join(cs[..k + 1]) == Join(cs[..k]) + cs[k] by {
      assert cs[..k + 1] == cs[..k] + [cs[k]];
      JoinSnoc(cs[..k], cs[k]);
    }
    assert Join(cs) == Join(cs[..k + 1]) + Join(cs[k + 1..]) by { JoinTakeDrop(cs, k + 1); }
  }

  /** Cutting a concatenation inside its `k`-th piece. */
  lemma {:induction false} JoinCut(cs: seq<seq<Byte>>, k: nat, m: nat)
    requires k < |cs| && m <= |cs[k]|
    ensures
      var n := |Join(cs[..k])| + m;
      && n <= |Join(cs)|
      && Join(cs[..k + 1]) == Join(cs)[..n] + cs[k][m..]
      && Join([cs[k][m..]] + cs[k + 1..]) == Join(cs)[n..]
  {
    JoinSplit(cs, k);
    var cut := [cs[k][m..]] + cs[k + 1..];
    assert cut[1..] == cs[k + 1..];
  }

  // ---- Parts of a byte string ----

  /** `bytes` replace what stands from `pos` on. */
  function Overwrite(data: seq<Byte>, pos: nat, bytes: seq<Byte>): (r: seq<Byte>)
    requires pos + |bytes| <= |data|
    ensures |r| == |data|
  {
    data[..pos] + bytes + data[pos + |bytes|..]
  }

  /** `s` has `t` at position `at`. */
  ghost predicate Has(s: seq<Byte>, at: nat, t: seq<Byte>) {
    at + |t| <= |s| && s[at..at + |t|] == t
  }

  lemma HasSplit(s: seq<Byte>, at: nat, a: seq<Byte>, b: seq<Byte>)
    ensures Has(s, at, a + b) <==> Has(s, at, a) && Has(s, at + |a|, b)
  {
    if at + |a| + |b| <= |s| {
      var t := s[at..at + |a| + |b|];
      assert t[..|a|] == s[at..at + |a|] && t[|a|..] == s[at + |a|..at + |a| + |b|];
      assert (a + b)[..|a|] == a && (a + b)[|a|..] == b && t == t[..|a|] + t[|a|..];
    }
  }

  lemma HasWithin(s: seq<Byte>, at: nat, t: seq<Byte>)
    requires Has(s, at, t)
    ensures at + |t| <= |s|
  {
  }

  lemma HasIs(s: seq<Byte>, at: nat, t: seq<Byte>)
    requires Has(s, at, t)
    ensures at + |t| <= |s| && s[at..at + |t|] == t
  {
  }

  // ---- Text ----

  const QUOTE: Byte := 34
  const BACKSLASH: Byte := 92

  /** The byte at a position of a string that ends with a zero byte. */
  function CharAt(text: seq<Byte>, i: nat): (b: Byte)
    requires i <= |text|
  {
    if i < |text| then text[i] else 0
  }

  predicate IsHexDigit(b: Byte) {
    '0' as int <= b <= '9' as int || 'a' as int <= b <= 'f' as int || 'A' as int <= b <= 'F' as int
  }

  /** The value of a hexadecimal digit, or -1; setting bit 5 of a letter adds 32 where it is clear. */
  function HexDigit(b: Byte): (r: int)
    ensures -1 <= r < 16
    ensures '0' as int <= b <= '9' as int ==> r == b - '0' as int
    ensures 'a' as int <= b <= 'f' as int ==> r == b - 'a' as int + 10
    ensures 'A' as int <= b <= 'F' as int ==> r == b - 'A' as int + 10
    ensures r >= 0 <==> IsHexDigit(b)
  {
    if 48 <= b <= 57 then b - 48
    else
      var low := if b / 32 % 2 == 0 then b + 32 else b;
      if 97 <= low <= 102 then low - 87 else -1
  }

  /** A lower-case hexadecimal digit. */
  function HexChar(d: nat): (b: Byte)
    requires d < 16
    ensures HexDigit(b) == d
  {
    if d < 10 then 48 + d else 87 + d
  }

  // ---- Chains ----

  /** A fixed-capacity chunk; the linked chain of chunks is the sequence of them. */
  datatype Chunk = Chunk(cap: nat, data: seq<Byte>)

  type Chain = seq<Chunk>

  ghost predicate ChainOk(c: Chain) {
    forall i :: 0 <= i < |c| ==> |c[i].data| == c[i].cap && c[i].cap > 0
  }

  /** All bytes stored in a chain, in order. */
  function Data(c: Chain): (r: seq<Byte>) {
    if c == [] then [] else c[0].data + Data(c[1..])
  }
}
