/** The big-integer kernel of deps/lua-cjson-2.1.0/dtoa.c, in the variant with 32-bit
words and 64-bit intermediate results. */
module Bigints {
  import opened Bytes
  import opened Words

  /** `Bigint`: `x.Length` is the original's `maxwds`; `Balloc` leaves the words uninitialised. */
  class Bigint {
    var x: array<Word>
    var wds: nat
    var sign: bool

    ghost predicate Valid()
      reads this
    {
      wds <= x.Length && x.Length > 0
    }

    /** The number, without its sign. */
    ghost function Value(): (v: nat)
      requires Valid()
      reads this, x
    {
      Val(x[..wds])
    }

    /** No superfluous word on top. */
    ghost predicate Normal()
      requires Valid()
      reads this, x
    {
      wds >= 1 && (wds > 1 ==> x[wds - 1] != 0)
    }

    /** `Balloc` */
    constructor (maxwds: nat)
      requires maxwds > 0
      ensures Valid() && wds == 0 && !sign && x.Length == maxwds && fresh(x)
    {
      x := new Word[maxwds];
      wds, sign := 0, false;
    }
  }

  lemma TopNonzero(ws: seq<Word>)
    requires ws != [] && Val(ws) >= Base(|ws| - 1)
    ensures ws[|ws| - 1] != 0
  {
    ValTop(ws);
  }

  // ---- multadd ----

  lemma TakeUpdate(s: seq<Word>, s': seq<Word>, i: nat)
    requires |s| == |s'| && i < |s| && (forall j :: 0 <= j < i ==> s'[j] == s[j])
    ensures Val(s'[..i + 1]) == Val(s[..i]) + s'[i] * Base(i)
  {
    assert s'[..i] == s[..i];
    ValTake(s', i);
  }

  /** The loop of `multadd`: multiplies in place and returns the carry. */
  method MultAddWords(x: array<Word>, wds: nat, m: Word, a: Word) returns (carry: Word)
    requires 1 <= wds <= x.Length
    modifies x
    ensures Val(x[..wds]) + carry * Base(wds) == Val(old(x[..wds])) * m + a
    ensures forall j :: wds <= j < x.Length ==> x[j] == old(x[j])
  {
    hide Val, Base;
    ghost var ws := x[..];
    ValEmpty(ws);
    carry := a;
    var i := 0;
    while i < wds
      invariant 0 <= i <= wds
      invariant Val(x[..i]) + carry * Base(i) == Val(ws[..i]) * m + a
      invariant forall j :: i <= j < x.Length ==> x[j] == ws[j]
    {
      ghost var before := x[..];
      var y := x[i] as int * m as int + carry as int;
      CarryFits(x[i], m, carry);
      assert y < U64;
      var w: Word, carry': Word := y % U32, y / U32;
      MulAddStep(0, Val(x[..i]), Val(ws[..i]), m, a, x[i], carry, w, carry', Base(i));
      ValTake(ws, i);
      x[i] := w;
      TakeUpdate(before, x[..], i);
      BaseNext(i);
      carry, i := carry', i + 1;
    }
    assert ws[..wds] == old(x[..wds]);
  }

  lemma CarryFits(x: Word, m: Word, carry: Word)
    ensures var y := x as int * m as int + carry as int; 0 <= y < U64 && y / U32 < U32
  {
    var k := U32 - 1;
    MulLeq(x, k, m, k);
    var y := x as int * m as int + carry as int;
    assert y <= k * U32;
  }

  lemma MulLeq(a: nat, b: nat, c: nat, d: nat)
    requires a <= b && c <= d
    ensures a * c <= b * d
  {
    assert a * c <= b * c <= b * d;
  }

  /** The carry becomes a new top word, in a larger copy if there is no room. */
  method PushWord(b: Bigint, carry: Word) returns (r: Bigint)
    requires b.Valid() && b.wds >= 1 && carry != 0
    modifies b, b.x
    ensures r.Valid() && r.Value() == old(b.Value()) + carry * Base(old(b.wds)) && r.Normal()
    ensures (r == b && r.x == old(b.x)) || (fresh(r) && fresh(r.x))
  {
    hide Val, Base;
    r := b;
    if b.wds >= b.x.Length {
      r := new Bigint(2 * b.x.Length);
      CopyWords(b.x, r.x, b.wds);
      r.sign, r.wds := b.sign, b.wds;
    }
    ghost var low := r.x[..r.wds];
    assert low == old(b.x[..b.wds]);
    r.x[r.wds] := carry;
    r.wds := r.wds + 1;
    assert r.x[..r.wds] == low + [carry];
    ValSnoc(low, carry);
  }

  /** A product by a positive number that needs no more words keeps the top word nonzero. */
  lemma StaysNormal(ws: seq<Word>, ws': seq<Word>, m: nat, a: nat)
    requires |ws| == |ws'| > 1 && ws[|ws| - 1] != 0 && m > 0 && Val(ws') == Val(ws) * m + a
    ensures ws'[|ws'| - 1] != 0
  {
    ValAtLeast(ws);
    MulLeq(Val(ws), Val(ws), 1, m);
    TopNonzero(ws');
  }

  /** `multadd`: `b * m + a`, in place unless the number outgrows its words. */
  method MultAdd(b: Bigint, m: Word, a: Word) returns (r: Bigint)
    requires b.Valid() && b.wds >= 1
    modifies b, b.x
    ensures r.Valid() && r.Value() == old(b.Value()) * m + a
    ensures (r == b && r.x == old(b.x)) || (fresh(r) && fresh(r.x))
    ensures old(b.Normal()) && m > 0 ==> r.Normal()
  {
    hide Val, Base;
    ghost var ws, normal := b.x[..b.wds], b.Normal();
    var carry := MultAddWords(b.x, b.wds, m, a);
    r := b;
    if carry != 0 {
      r := PushWord(b, carry);
    } else if normal && m > 0 && b.wds > 1 {
      StaysNormal(ws, b.x[..b.wds], m, a);
    }
  }

  /** `Bcopy`: the used words. */
  method CopyWords(from: array<Word>, to: array<Word>, n: nat)
    requires n <= from.Length && n <= to.Length && from != to
    modifies to
    ensures to[..n] == from[..n]
  {
    for i := 0 to n
      invariant to[..i] == from[..i]
    {
      to[i] := from[i];
    }
  }

  // ---- mult ----

  lemma RowStep(v': nat, old_: nat, av: nat, y: nat, x: nat, c: nat, carry: nat, w: nat, carry': nat, p: nat)
    requires v' + carry * p == old_ + y * av
    requires x * y + c + carry == w + carry' * U32
    ensures (v' + w * p) + carry' * (U32 * p) == (old_ + c * p) + y * (av + x * p)
  {
    assert (x * y + c + carry) * p == (w + carry' * U32) * p;
    assert (x * y + c + carry) * p == x * y * p + c * p + carry * p;
    assert (w + carry' * U32) * p == w * p + carry' * (U32 * p);
    assert y * (av + x * p) == y * av + x * y * p by { assert y * (x * p) == x * y * p; }
  }

  lemma ProductFits(x: nat, y: nat, k: nat)
    requires x <= k && y <= k
    ensures x * y <= k * k
  {
    MulLeq(x, k, y, k);
  }

  lemma HighWord(xy: nat, c: nat, carry: nat, k: nat)
    requires k + 1 == U32 && xy <= k * k && c <= k && carry <= k
    ensures xy + c + carry < U64 && (xy + c + carry) / U32 < U32
  {
    assert k * k + k + k == U64 - 1;
  }

  lemma RowFits(x: Word, y: Word, c: Word, carry: Word)
    ensures var z := x as int * y as int + c as int + carry as int; 0 <= z < U64 && z / U32 < U32
  {
    var xy: nat := x as int * y as int;
    ProductFits(x, y, U32 - 1);
    HighWord(xy, c, carry, U32 - 1);
  }

  /** The inner loop of `mult`: adds `y` times the first number, shifted by `j` words. */
  method AddRow(c: array<Word>, j: nat, a: array<Word>, wa: nat, y: Word)
    requires 1 <= wa <= a.Length && j + wa < c.Length && a != c
    modifies c
    ensures forall k :: 0 <= k < c.Length && (k < j || k > j + wa) ==> c[k] == old(c[k])
    ensures Val(c[j..j + wa + 1]) == Val(old(c[j..j + wa])) + y * Val(a[..wa])
  {
    hide Val, Base;
    ghost var old_, as_ := c[j..j + wa + 1], a[..wa];
    ValEmpty(old_);
    ValEmpty(as_);
    var carry: Word := 0;
    var i := 0;
    while i < wa
      invariant 0 <= i <= wa && a[..wa] == as_
      invariant Val(c[j..j + wa + 1][..i]) + carry * Base(i) == Val(old_[..i]) + y * Val(as_[..i])
      invariant forall k :: 0 <= k < c.Length && (k < j || k >= j + i) ==> c[k] == old(c[k])
    {
      ghost var before := c[j..j + wa + 1];
      var z := a[i] as int * y as int + c[j + i] as int + carry as int;
      RowFits(a[i], y, c[j + i], carry);
      assert z < U64;
      var w: Word, carry': Word := z % U32, z / U32;
      RowStep(Val(before[..i]), Val(old_[..i]), Val(as_[..i]), y, a[i], c[j + i], carry, w, carry', Base(i));
      assert old_[i] == c[j + i];
      ValTake(old_, i);
      ValTake(as_, i);
      c[j + i] := w;
      TakeUpdate(before, c[j..j + wa + 1], i);
      BaseNext(i);
      carry, i := carry', i + 1;
    }
    ghost var before := c[j..j + wa + 1];
    c[j + wa] := carry;
    TakeUpdate(before, c[j..j + wa + 1], wa);
    assert c[j..j + wa + 1][..wa + 1] == c[j..j + wa + 1];
    assert old_[..wa] == old(c[j..j + wa]) && as_[..wa] == as_;
  }

  /** A number in three parts. */
  lemma ValParts(ws: seq<Word>, j: nat, k: nat)
    requires j <= k <= |ws|
    ensures Val(ws) == Val(ws[..j]) + Scale(j, Val(ws[j..k])) + Scale(k, Val(ws[k..]))
  {
    ValSplit(ws, k);
    ValSplit(ws[..k], j);
    assert ws[..k][..j] == ws[..j] && ws[..k][j..] == ws[j..k];
  }

  lemma ZeroTop(ws: seq<Word>, j: nat, k: nat)
    requires j < k <= |ws| && ws[k - 1] == 0
    ensures Val(ws[j..k]) == Val(ws[j..k - 1])
  {
    assert ws[j..k] == ws[j..k - 1] + [0];
    ValSnoc(ws[j..k - 1], 0);
  }

  /** What a row adds to the whole number. */
  lemma RowAdds(ws: seq<Word>, ws': seq<Word>, j: nat, wa: nat, t: nat)
    requires |ws| == |ws'| && j + wa < |ws| && ws[j + wa] == 0
    requires forall k :: 0 <= k < |ws| && (k < j || k > j + wa) ==> ws'[k] == ws[k]
    requires Val(ws'[j..j + wa + 1]) == Val(ws[j..j + wa]) + t
    ensures Val(ws') == Val(ws) + Scale(j, t)
  {
    hide Val, Base, Scale;
    var k := j + wa + 1;
    assert ws'[..j] == ws[..j] && ws'[k..] == ws[k..];
    ZeroTop(ws, j, k);
    ValParts(ws, j, k);
    ValParts(ws', j, k);
    ScaleAdd(j, Val(ws[j..j + wa]), t);
  }

  /** The trimming loop of `mult`. */
  method Trim(x: array<Word>, n: nat) returns (wc: nat)
    requires n <= x.Length
    ensures wc <= n && Val(x[..wc]) == Val(x[..n]) && (wc > 0 ==> x[wc - 1] != 0)
  {
    wc := n;
    while wc > 0 && x[wc - 1] == 0
      invariant wc <= n && forall i :: wc <= i < n ==> x[i] == 0
    {
      wc := wc - 1;
    }
    ValTrim(x[..n], wc);
    assert x[..n][..wc] == x[..wc];
  }

  /** The rows of `mult`: one for every word of the second number. */
  method AddRows(c: array<Word>, a: array<Word>, wa: nat, b: array<Word>, wb: nat)
    requires wb <= wa <= a.Length && wb <= b.Length && wa + wb <= c.Length && c != a && c != b
    requires forall k :: 0 <= k < wa + wb ==> c[k] == 0
    modifies c
    ensures Val(c[..wa + wb]) == Val(a[..wa]) * Val(b[..wb])
  {
    hide Val, Base, Scale;
    ghost var av, bs := Val(a[..wa]), b[..wb];
    ValZeros(c[..wa + wb]);
    ValEmpty(bs);
    for j := 0 to wb
      invariant forall k :: wa + j <= k < wa + wb ==> c[k] == 0
      invariant b[..wb] == bs && Val(a[..wa]) == av && Val(c[..wa + wb]) == av * Val(bs[..j])
    {
      ValTake(bs, j);
      ghost var before := c[..wa + wb];
      var y := b[j];
      if y != 0 {
        assert before[j..j + wa] == c[j..j + wa];
        AddRow(c, j, a, wa, y);
        assert c[..wa + wb][j..j + wa + 1] == c[j..j + wa + 1];
        RowAdds(before, c[..wa + wb], j, wa, y * av);
      }
      Distribute(av, Val(bs[..j]), y, j);
    }
    assert bs[..wb] == bs;
  }

  lemma Distribute(a: nat, b: nat, y: nat, j: nat)
    ensures a * (b + y * Base(j)) == a * b + Scale(j, y * a)
  {
    var p := Base(j);
    assert a * (y * p) == p * (y * a);
  }

  method ClearWords(x: array<Word>, n: nat)
    requires n <= x.Length
    modifies x
    ensures forall i :: 0 <= i < n ==> x[i] == 0
  {
    for i := 0 to n
      invariant forall j :: 0 <= j < i ==> x[j] == 0
    {
      x[i] := 0;
    }
  }

  /** `mult` */
  method Mult(a: Bigint, b: Bigint) returns (c: Bigint)
    requires a.Valid() && b.Valid()
    ensures c.Valid() && fresh(c) && fresh(c.x) && c.Value() == a.Value() * b.Value()
    ensures a.Value() > 0 && b.Value() > 0 ==> c.Normal()
  {
    hide Val, Base;
    var a', b' := a, b;
    if a.wds < b.wds { a', b' := b, a; }
    var wc := a'.wds + b'.wds;
    c := new Bigint(if wc > a'.x.Length then 2 * a'.x.Length else a'.x.Length);
    ClearWords(c.x, wc);
    AddRows(c.x, a'.x, a'.wds, b'.x, b'.wds);
    var n := Trim(c.x, wc);
    c.wds := n;
    Product(a.Value(), b.Value());
    ValEmpty(c.x[..]);
    assert c.x[..][..0] == c.x[..0];
  }

  lemma Product(a: nat, b: nat)
    ensures a * b == b * a && (a > 0 && b > 0 ==> a * b > 0)
  {
  }

  // ---- pow5mult ----

  /** The cached powers: 5^4, 5^8, 5^16, ... */
  function CachedPower(i: nat): (p: nat) {
    Pow(5, 4 * Pow(2, i))
  }

  lemma PowerIs(i: nat)
    ensures CachedPower(i) == Pow(5, 4 * Pow(2, i))
  {
  }

  lemma NextPower(i: nat)
    ensures CachedPower(i + 1) == CachedPower(i) * CachedPower(i) && CachedPower(0) == 625
  {
    var e := 4 * Pow(2, i);
    assert 4 * Pow(2, i + 1) == e + e;
    PowAdd(5, e, e);
    assert Pow(2, 0) == 1 && Pow(5, 4) == 5 * Pow(5, 3) && Pow(5, 3) == 5 * Pow(5, 2);
    assert Pow(5, 2) == 5 * Pow(5, 1) && Pow(5, 1) == 5 * Pow(5, 0);
  }

  /** The list behind `p5s`. */
  class PowerCache {
    var chain: seq<Bigint>

    ghost predicate Valid()
      reads this, chain, set i | 0 <= i < |chain| :: chain[i].x
    {
      forall i :: 0 <= i < |chain| ==> chain[i].Valid() && chain[i].Value() == CachedPower(i)
    }

    constructor ()
      ensures Valid() && chain == []
    {
      chain := [];
    }

    /** The `i`-th power, computed from the one before it the first time it is needed. */
    method Power(i: nat) returns (p: Bigint)
      requires Valid() && i <= |chain|
      modifies this
      ensures Valid() && i < |chain| && p == chain[i] && old(chain) <= chain
      ensures p.Valid() && p.Value() == Pow(5, 4 * Pow(2, i))
      ensures forall j :: |old(chain)| <= j < |chain| ==> fresh(chain[j]) && fresh(chain[j].x)
    {
      hide Val, Base, CachedPower;
      PowerIs(i);
      NextPower(i);
      if i == |chain| {
        if i == 0 {
          p := FromWord(625);
        } else {
          NextPower(i - 1);
          p := Mult(chain[i - 1], chain[i - 1]);
        }
        chain := chain + [p];
      }
      p := chain[i];
    }

    /** `pow5mult`: `b * 5^k` */
    method Pow5Mult(b: Bigint, k: nat) returns (r: Bigint)
      requires Valid() && b.Valid() && b.wds >= 1
      requires forall i :: 0 <= i < |chain| ==> chain[i] != b && chain[i].x != b.x
      modifies this, b, b.x
      ensures Valid() && old(chain) <= chain && r.Valid() && r.Value() == old(b.Value()) * Pow(5, k)
    {
      hide Val, Base, CachedPower, Pow;
      ghost var v := b.Value();
      r := b;
      if k % 4 != 0 {
        r := MultAdd(b, SmallPower(k % 4), 0);
      }
      SmallPowers(k);
      ghost var goal := v * Pow(5, k % 4);
      assert r.Value() == goal;
      var e := k / 4;
      assert k == k % 4 + 4 * e;
      PowAdd(5, k % 4, 4 * e);
      MulAssoc(v, Pow(5, k % 4), Pow(5, 4 * e));
      if e == 0 { PowZero(5); return; }
      r := this.MultPowers(r, e);
    }

    /** The loop of `pow5mult`: multiplies by 625^e, one cached power for every binary digit of `e`. */
    method MultPowers(b: Bigint, e: nat) returns (r: Bigint)
      requires Valid() && b.Valid() && e > 0
      modifies this
      ensures Valid() && old(chain) <= chain && r.Valid() && r.Value() == old(b.Value()) * Pow(5, 4 * e)
    {
      hide Val, Base, CachedPower, Pow;
      r := b;
      ghost var goal := b.Value() * Pow(5, 4 * e);
      var rest, i := e, 0;
      NextPower(0);
      PowMul(5, 4, e);
      FiveToFour();
      while true
        invariant Valid() && old(chain) <= chain && r.Valid() && rest > 0 && i <= |chain| && i >= 0
        invariant r.Value() * Pow(CachedPower(i), rest) == goal
        decreases rest
      {
        var p := Power(i);
        PowHalf(CachedPower(i), rest);
        MulAssoc(r.Value(), if rest % 2 == 1 then CachedPower(i) else 1, Pow(CachedPower(i) * CachedPower(i), rest / 2));
        if rest % 2 == 1 {
          r := Mult(r, p);
        }
        rest := rest / 2;
        NextPower(i);
        if rest == 0 { PowZero(CachedPower(i) * CachedPower(i)); break; }
        i := i + 1;
      }
    }
  }

  lemma FiveToFour()
    ensures Pow(5, 4) == 625
  {
    NextPower(0);
    assert Pow(2, 0) == 1;
  }

  /** `p05` */
  function SmallPower(i: nat): (p: Word) {
    if i == 1 then 5 else if i == 2 then 25 else 125
  }

  lemma SmallPowers(k: nat)
    ensures k % 4 != 0 ==> Pow(5, k % 4) == SmallPower(k % 4)
    ensures k % 4 == 0 ==> Pow(5, k % 4) == 1
  {
    assert Pow(5, 3) == 5 * Pow(5, 2) && Pow(5, 2) == 5 * Pow(5, 1) && Pow(5, 1) == 5 * Pow(5, 0);
  }

  /** `i2b` */
  method FromWord(w: Word) returns (b: Bigint)
    ensures b.Valid() && fresh(b) && fresh(b.x) && b.Value() == w && b.Normal() && !b.sign
  {
    b := new Bigint(2);
    b.x[0] := w;
    b.wds := 1;
    assert b.x[..1] == [w] && [w][1..] == [];
    assert Val([w]) == w + U32 * Val([]);
  }

  // ---- lshift ----

  /** The split of a word by a shift of `r` bits, with `p == 2^r` and `q == 2^(32-r)`. */
  lemma ShiftWord(x: Word, p: nat, q: nat, z: nat)
    requires p * q == U32 && z < p && q > 0
    ensures (x * p) % U32 + z < U32 && x / q < p
    ensures x * p + z == ((x * p) % U32 + z) + (x / q) * U32
  {
    var h, l := x / q, x % q;
    assert x == h * q + l;
    assert x * p == h * U32 + l * p by { assert (h * q + l) * p == h * (p * q) + l * p; }
    MulLeq(l + 1, q, p, p);
    assert (l + 1) * p == l * p + p;
    assert l * p + p <= U32;
    DivUnique(x * p, h, l * p);
    if h >= p {
      MulLeq(p, h, q, q);
    }
  }

  lemma DivUnique(n: nat, h: nat, l: nat)
    requires n == h * U32 + l && l < U32
    ensures n % U32 == l && n / U32 == h
  {
  }

  /** The bit-shifting loop of `lshift`, into `x1` from word `n` on; returns the bits shifted out. */
  method ShiftWords(x: array<Word>, wds: nat, x1: array<Word>, n: nat, p: nat, q: nat) returns (z: nat)
    requires wds <= x.Length && n + wds <= x1.Length && x != x1 && p * q == U32 && p > 0 && q > 0
    modifies x1
    ensures z < p && x1[..n] == old(x1[..n])
    ensures Val(x1[n..n + wds]) + z * Base(wds) == Val(x[..wds]) * p
  {
    hide Val, Base;
    ghost var ws := x[..wds];
    z := 0;
    ValEmpty(ws);
    assert x1[n..n + wds][..0] == ws[..0];
    for i := 0 to wds
      invariant z < p && x[..wds] == ws && x1[..n] == old(x1[..n])
      invariant Val(x1[n..n + wds][..i]) + z * Base(i) == Val(ws[..i]) * p + 0
    {
      ghost var before := x1[n..n + wds];
      ShiftWord(x[i], p, q, z);
      var w: Word := (x[i] as int * p) % U32 + z;
      MulAddStep(0, Val(before[..i]), Val(ws[..i]), p, 0, x[i], z, w, x[i] / q, Base(i));
      ValTake(ws, i);
      x1[n + i] := w;
      TakeUpdate(before, x1[n..n + wds], i);
      BaseNext(i);
      z := x[i] / q;
    }
    assert x1[n..n + wds][..wds] == x1[n..n + wds] && ws[..wds] == ws;
  }

  /** `n` zero words below. */
  lemma ShiftedUp(ws: seq<Word>, n: nat, v: nat)
    requires n <= |ws| && (forall i :: 0 <= i < n ==> ws[i] == 0) && Val(ws[n..]) == v
    ensures Val(ws) == Scale(n, v)
  {
    ValSplit(ws, n);
    ValZeros(ws[..n]);
  }

  lemma {:induction false} BaseIsPow(n: nat)
    ensures Base(n) == Pow(2, 32 * n)
  {
    if n > 0 {
      BaseIsPow(n - 1);
      PowAdd(2, 32, 32 * (n - 1));
      TwoTo32();
    }
  }

  lemma TwoTo32()
    ensures Pow(2, 32) == U32
  {
    assert Pow(2, 1) == 2 * Pow(2, 0);
    PowAdd(2, 1, 1);
    PowAdd(2, 2, 2);
    PowAdd(2, 4, 4);
    PowAdd(2, 8, 8);
    PowAdd(2, 16, 16);
  }

  lemma ShiftTotal(v: nat, k: nat)
    ensures Scale(k / 32, v * Pow(2, k % 32)) == v * Pow(2, k)
  {
    hide Pow, Base;
    var n, r := k / 32, k % 32;
    BaseIsPow(n);
    assert k == 32 * n + r;
    PowAdd(2, 32 * n, r);
    Reorder(Pow(2, 32 * n), v, Pow(2, r));
  }

  lemma Reorder(a: nat, v: nat, b: nat)
    ensures a * (v * b) == v * (a * b)
  {
  }

  lemma TwoParts(r: nat)
    requires r <= 32
    ensures Pow(2, r) * Pow(2, 32 - r) == U32 && Pow(2, r) > 0 && Pow(2, 32 - r) > 0
  {
    PowAdd(2, r, 32 - r);
    TwoTo32();
    PowPositive(2, r);
    PowPositive(2, 32 - r);
  }

  /** The size of the result of `lshift`: doubled until `n1` words fit. */
  method GrowTo(cap: nat, n1: nat) returns (c: nat)
    requires cap > 0
    ensures c >= n1 && c > 0
  {
    c := cap;
    while n1 > c
      invariant c > 0
      decreases n1 - c
    {
      c := 2 * c;
    }
  }

  /** `lshift`: `b * 2^k` */
  method LShift(b: Bigint, k: nat) returns (b1: Bigint)
    requires b.Valid() && b.Normal()
    ensures b1.Valid() && fresh(b1) && fresh(b1.x) && b1.Value() == b.Value() * Pow(2, k)
    ensures b.Value() > 0 ==> b1.Normal()
  {
    hide Val, Base, Scale, Pow;
    var n, r := k / 32, k % 32;
    var n1 := n + b.wds + 1;
    var cap := GrowTo(b.x.Length, n1);
    b1 := new Bigint(cap);
    ClearWords(b1.x, n);
    ghost var v, p := b.Value(), Pow(2, r);
    ghost var t := v * p;
    TwoParts(r);
    var z := ShiftWords(b.x, b.wds, b1.x, n, Pow(2, r), Pow(2, 32 - r));
    assert forall j :: 0 <= j < n ==> b1.x[j] == b1.x[..n][j];
    ShiftOut(z, p, Pow(2, 32 - r));
    ShiftTotal(v, k);
    if z == 0 && v > 0 { ShiftNormal(b.x[..b.wds], b1.x[n..n + b.wds], p); }
    SetTop(b1, n, b.wds, z, t);
  }

  /** The last word of a shifted number, if there is one, and its length. */
  method SetTop(b1: Bigint, n: nat, wds: nat, z: Word, ghost t: nat)
    requires b1.Valid() && n + wds + 1 <= b1.x.Length && (forall j :: 0 <= j < n ==> b1.x[j] == 0)
    requires wds >= 1 && Val(b1.x[n..n + wds]) + z * Base(wds) == t
    modifies b1, b1.x
    ensures b1.Valid() && b1.x == old(b1.x) && b1.Value() == Scale(n, t)
    ensures z != 0 || old(b1.x[n + wds - 1]) != 0 ==> b1.Normal()
  {
    hide Val, Base, Scale;
    ghost var mid := b1.x[n..n + wds];
    if z != 0 {
      b1.x[n + wds] := z;
      b1.wds := n + wds + 1;
      assert b1.x[..b1.wds][n..] == mid + [z];
      ValSnoc(mid, z);
    } else {
      b1.wds := n + wds;
      assert b1.x[..b1.wds][n..] == mid;
    }
    ShiftedUp(b1.x[..b1.wds], n, t);
  }

  lemma ShiftOut(z: nat, p: nat, q: nat)
    requires z < p && p * q == U32 && q > 0
    ensures z < U32
  {
    MulLeq(p, p, 1, q);
  }

  /** A normalised number whose shift needs no further word stays normalised. */
  lemma ShiftNormal(ws: seq<Word>, ws': seq<Word>, p: nat)
    requires |ws| == |ws'| >= 1 && (|ws| > 1 ==> ws[|ws| - 1] != 0) && p > 0 && Val(ws') == Val(ws) * p && Val(ws) > 0
    ensures ws'[|ws'| - 1] != 0
  {
    if |ws| > 1 {
      StaysNormal(ws, ws', p, 0);
    } else {
      ValTop(ws);
      ValTop(ws');
      MulLeq(Val(ws), Val(ws), 1, p);
      assert Base(0) == 1;
    }
  }

  // ---- cmp ----

  /** The words agree from `i` on and differ below. */
  lemma FirstDifference(a: seq<Word>, b: seq<Word>, i: nat)
    requires |a| == |b| && i < |a| && a[i + 1..] == b[i + 1..] && a[i] < b[i]
    ensures Val(a) < Val(b)
  {
    hide Val, Base;
    ValSplit(a, i + 1);
    ValSplit(b, i + 1);
    ValTop(a[..i + 1]);
    ValTop(b[..i + 1]);
    MulLeq(a[i] + 1, b[i], Base(i), Base(i));
  }

  /** A longer number is larger. */
  lemma LongerIsLarger(a: seq<Word>, b: seq<Word>)
    requires |a| > |b| && a[|a| - 1] != 0
    ensures Val(a) > Val(b)
  {
    ValAtLeast(a);
    ValBound(b);
    BaseMonotone(|b|, |a| - 1);
  }

  /** What `cmp` may be given: a longer number must not start with a zero word. */
  ghost predicate Comparable(a: Bigint, b: Bigint)
    reads a, b, a.x, b.x
  {
    && a.Valid() && b.Valid()
    && (a.wds > b.wds ==> a.x[a.wds - 1] != 0)
    && (b.wds > a.wds ==> b.x[b.wds - 1] != 0)
    && (a.wds == b.wds ==> a.wds >= 1)
  }

  /** `cmp` */
  method Cmp(a: Bigint, b: Bigint) returns (r: int)
    requires Comparable(a, b)
    ensures r < 0 <==> a.Value() < b.Value()
    ensures r == 0 <==> a.Value() == b.Value()
  {
    hide Val, Base;
    if a.wds != b.wds {
      if a.wds > b.wds { LongerIsLarger(a.x[..a.wds], b.x[..b.wds]); }
      else { LongerIsLarger(b.x[..b.wds], a.x[..a.wds]); }
      return a.wds as int - b.wds as int;
    }
    var i := a.wds;
    while true
      invariant 0 < i <= a.wds && a.x[i..a.wds] == b.x[i..a.wds]
      decreases i
    {
      i := i - 1;
      if a.x[i] != b.x[i] {
        assert a.x[..a.wds][i + 1..] == a.x[i + 1..a.wds] && b.x[..a.wds][i + 1..] == b.x[i + 1..a.wds];
        if a.x[i] < b.x[i] {
          FirstDifference(a.x[..a.wds], b.x[..a.wds], i);
          return -1;
        }
        FirstDifference(b.x[..a.wds], a.x[..a.wds], i);
        return 1;
      }
      if i == 0 { break; }
    }
    assert a.x[..a.wds] == b.x[..a.wds];
    r := 0;
  }

  // ---- Subtraction with borrow ----

  lemma SubArith(new_: int, old_: int, s: int, q: int, carry: int, borrow: int, x: int, y: int, low: int, carry': int,
      borrow': int, w: int, p: int)
    requires old_ == new_ + q * s - carry * p - borrow * p
    requires y * q + carry == low + carry' * U32
    requires w == x - low - borrow + borrow' * U32
    ensures old_ + x * p == (new_ + w * p) + q * (s + y * p) - carry' * (U32 * p) - borrow' * (U32 * p)
  {
    assert w * p == x * p - low * p - borrow * p + borrow' * (U32 * p) by {
      assert (x - low - borrow + borrow' * U32) * p == x * p - low * p - borrow * p + borrow' * U32 * p;
      assert borrow' * U32 * p == borrow' * (U32 * p);
    }
    assert low * p == y * q * p + carry * p - carry' * (U32 * p) by {
      assert (y * q + carry) * p == (low + carry' * U32) * p;
      assert (y * q + carry) * p == y * q * p + carry * p;
      assert (low + carry' * U32) * p == low * p + carry' * (U32 * p);
    }
    assert q * (s + y * p) == q * s + y * q * p by { assert q * (y * p) == y * q * p; }
  }

  /** One word of the subtraction, in wrapping 64-bit arithmetic. */
  method SubWord(x: Word, y: Word, q: Word, carry: Word, borrow: nat)
    returns (w: Word, carry': Word, borrow': nat, ghost low: nat)
    requires borrow <= 1
    ensures borrow' <= 1 && y as int * q as int + carry as int == low + carry' as int * U32
    ensures w as int == x as int - low - borrow + borrow' * U32
  {
    CarryFits(y, q, carry);
    var ys := y as int * q as int + carry as int;
    carry', low := ys / U32, ys % U32;
    SubStep(x, ys % U32, borrow);
    var d := (x as int - ys % U32 - borrow) % U64;
    borrow', w := d / U32 % 2, d % U32;
  }

  /** The subtraction loop of `quorem`: takes `q` times `s` off `b`, both of `n` words, in place. What is
      missing at the end is the sum of the last carry and borrow. */
  method SubMul(bx: array<Word>, sx: array<Word>, n: nat, q: Word) returns (carry: Word, borrow: nat)
    requires 1 <= n <= bx.Length && n <= sx.Length && bx != sx
    modifies bx
    ensures borrow <= 1 && Val(old(bx[..n])) == Val(bx[..n]) + q * Val(sx[..n]) - carry * Base(n) - borrow * Base(n)
    ensures forall j :: n <= j < bx.Length ==> bx[j] == old(bx[j])
  {
    hide Val, Base;
    ghost var bs, ss := bx[..n], sx[..n];
    ValEmpty(bs);
    ValEmpty(ss);
    ValEmpty(bx[..n]);
    carry, borrow := 0, 0;
    var i := 0;
    while i < n
      invariant 0 <= i <= n && borrow <= 1 && sx[..n] == ss
      invariant Val(bs[..i]) == Val(bx[..n][..i]) + q * Val(ss[..i]) - carry * Base(i) - borrow * Base(i)
      invariant forall j :: i <= j < bx.Length ==> bx[j] == old(bx[j])
    {
      ghost var before := bx[..n];
      ghost var low;
      var w, carry', borrow';
      w, carry', borrow', low := SubWord(bx[i], sx[i], q, carry, borrow);
      SubArith(Val(before[..i]), Val(bs[..i]), Val(ss[..i]), q, carry, borrow, bx[i], sx[i], low,
               carry', borrow', w, Base(i));
      assert bs[i] == bx[i];
      ValTake(bs, i);
      ValTake(ss, i);
      bx[i] := w;
      TakeUpdate(before, bx[..n], i);
      BaseNext(i);
      carry, borrow, i := carry', borrow', i + 1;
    }
    assert bx[..n][..n] == bx[..n] && bs[..n] == bs && ss[..n] == ss;
  }

  /** When the subtrahend is not larger nothing is missing. */
  lemma NothingMissing(old_: nat, new_: nat, t: nat, carry: nat, borrow: nat, p: nat)
    requires old_ == new_ + t - carry * p - borrow * p && t <= old_ && new_ < p
    ensures carry == 0 && borrow == 0 && new_ == old_ - t
  {
    assert carry * p + borrow * p == (carry + borrow) * p;
    if carry + borrow >= 1 {
      MulLeq(1, carry + borrow, p, p);
    }
  }

  // ---- diff ----

  /** The two loops of `diff`: `a - b` into `c`. */
  method SubWords(xa: array<Word>, wa: nat, xb: array<Word>, wb: nat, xc: array<Word>)
    requires wb <= wa <= xa.Length && wb <= xb.Length && wa <= xc.Length && xc != xa && xc != xb
    requires Val(xb[..wb]) <= Val(xa[..wa])
    modifies xc
    ensures Val(xc[..wa]) == Val(xa[..wa]) - Val(xb[..wb])
  {
    hide Val, Base;
    ghost var as_, bs := xa[..wa], xb[..wb];
    ValEmpty(as_);
    ValEmpty(bs);
    ValEmpty(xc[..wa]);
    var borrow := 0;
    var i := 0;
    while i < wb
      invariant 0 <= i <= wb && 0 <= borrow <= 1 && xa[..wa] == as_ && xb[..wb] == bs
      invariant Val(as_[..i]) == Val(xc[..wa][..i]) + 1 * Val(bs[..i]) - 0 * Base(i) - borrow * Base(i)
    {
      ghost var before := xc[..wa];
      SubStep(xa[i], xb[i], borrow);
      var y := (xa[i] as int - xb[i] as int - borrow) % U64;
      var borrow' := y / U32 % 2;
      var w: Word := y % U32;
      SubArith(Val(before[..i]), Val(as_[..i]), Val(bs[..i]), 1, 0, borrow, xa[i], xb[i], xb[i], 0, borrow', w, Base(i));
      ValTake(as_, i);
      ValTake(bs, i);
      xc[i] := w;
      TakeUpdate(before, xc[..wa], i);
      BaseNext(i);
      borrow, i := borrow', i + 1;
    }
    assert bs[..wb] == bs;
    while i < wa
      invariant wb <= i <= wa && 0 <= borrow <= 1 && xa[..wa] == as_
      invariant Val(as_[..i]) == Val(xc[..wa][..i]) + 1 * Val(bs) - 0 * Base(i) - borrow * Base(i)
    {
      ghost var before := xc[..wa];
      SubStep(xa[i], 0, borrow);
      var y := (xa[i] as int - borrow) % U64;
      var borrow' := y / U32 % 2;
      var w: Word := y % U32;
      SubArith(Val(before[..i]), Val(as_[..i]), Val(bs), 1, 0, borrow, xa[i], 0, 0, 0, borrow', w, Base(i));
      ValTake(as_, i);
      xc[i] := w;
      TakeUpdate(before, xc[..wa], i);
      BaseNext(i);
      borrow, i := borrow', i + 1;
    }
    assert xc[..wa][..wa] == xc[..wa] && as_[..wa] == as_;
    ValBound(xc[..wa]);
    NothingMissing(Val(as_), Val(xc[..wa]), Val(bs), 0, borrow, Base(wa));
  }

  /** `diff`: the absolute difference, and in `sign` whether `a < b`. */
  method Diff(a: Bigint, b: Bigint) returns (c: Bigint)
    requires a.Valid() && b.Valid() && a.Normal() && b.Normal()
    ensures c.Valid() && fresh(c) && fresh(c.x) && c.Normal()
    ensures c.sign <==> a.Value() < b.Value()
    ensures c.Value() == if c.sign then b.Value() - a.Value() else a.Value() - b.Value()
  {
    hide Val, Base;
    var i := Cmp(a, b);
    if i == 0 {
      c := FromWord(0);
      return;
    }
    var a', b' := if i < 0 then b else a, if i < 0 then a else b;
    if a'.wds < b'.wds { LongerIsLarger(b'.x[..b'.wds], a'.x[..a'.wds]); }
    c := new Bigint(a'.x.Length);
    c.sign := i < 0;
    SubWords(a'.x, a'.wds, b'.x, b'.wds, c.x);
    var n := Trim(c.x, a'.wds);
    ValEmpty(c.x[..a'.wds]);
    assert c.x[..a'.wds][..0] == c.x[..0];
    c.wds := n;
  }

  // ---- quorem ----

  /** `q` times `v`; a name for the product keeps the reasoning about digits linear. */
  ghost function Times(q: nat, v: nat): (r: nat) {
    q * v
  }

  lemma EstimateNotAbove(b: nat, s: nat, bt: nat, d: nat, p: nat)
    requires bt * p <= b && s <= d * p && d > 0
    ensures Times(bt / d, s) <= b
  {
    var q := bt / d;
    MulLeq(q, q, s, d * p);
    MulLeq(q * d, bt, p, p);
    assert q * (d * p) == (q * d) * p;
  }

  lemma EstimateNotBelow(b: nat, s: nat, bt: nat, st: nat, p: nat)
    requires b < (bt + 1) * p && st * p <= s && bt / (st + 1) + 1 <= st
    ensures b < Times(bt / (st + 1) + 2, s)
  {
    var q, d := bt / (st + 1), st + 1;
    var k := q + 1;
    assert bt + 1 <= k * d;
    MulLeq(bt + 1, k * d, p, p);
    Expand(k, st, p);
    MulLeq(k, k, st * p, s);
    MulLeq(k, st, p, p);
    assert (k + 1) * s == k * s + s;
  }

  lemma Expand(k: nat, st: nat, p: nat)
    ensures (k * (st + 1)) * p == k * (st * p) + k * p
  {
    assert k * (st + 1) == k * st + k;
    assert (k * st + k) * p == k * st * p + k * p;
    assert k * st * p == k * (st * p);
  }

  /** The estimate from the top words is the quotient or one less. */
  lemma QuotientEstimate(b: nat, s: nat, bt: nat, st: nat, p: nat)
    requires bt * p <= b < (bt + 1) * p && st * p <= s < (st + 1) * p
    requires bt / (st + 1) + 1 <= st
    ensures var q := bt / (st + 1); Times(q, s) <= b < Times(q + 2, s)
  {
    hide Times;
    EstimateNotAbove(b, s, bt, st + 1, p);
    EstimateNotBelow(b, s, bt, st, p);
  }

  lemma TimesNext(q: nat, s: nat)
    ensures Times(q + 1, s) == Times(q, s) + s && Times(q + 2, s) == Times(q, s) + 2 * s && Times(1, s) == s
    ensures Times(0, s) == 0
  {
  }

  lemma QuotientUnique(b: nat, s: nat, q: nat, r: nat)
    requires b == Times(q, s) + r && r < s
    ensures b / s == q && b % s == r
  {
    var d := b / s;
    assert b == d * s + b % s;
    assert (d + 1) * s == d * s + s && (q + 1) * s == q * s + s;
    if d < q { MulLeq(d + 1, q, s, s); }
    if q < d { MulLeq(q + 1, d, s, s); }
  }

  /** `b` shrinks when its top word, number `n`, has become zero. */
  method TrimTop(b: Bigint, n: nat)
    requires b.Valid() && b.wds == n + 1
    modifies b`wds
    ensures b.Valid() && b.wds <= n + 1 && b.Value() == Val(b.x[..n + 1])
    ensures if b.x[n] == 0 then b.wds <= n else b.wds == n + 1
    ensures b.wds > 1 ==> b.x[b.wds - 1] != 0
  {
    hide Val, Base;
    if b.x[n] == 0 {
      var m, e: int := n, n - 1;
      while e > 0 && b.x[e] == 0
        invariant m == e + 1 && 0 <= m <= n && forall i :: m <= i <= n ==> b.x[i] == 0
        decreases e
      {
        m, e := m - 1, e - 1;
      }
      b.wds := m;
      ValTrim(b.x[..n + 1], m);
      assert b.x[..n + 1][..m] == b.x[..m];
    }
  }

  /** Subtracts `q` times `S` from a `b` of the same length that is at least as large. */
  method TakeOff(b: Bigint, S: Bigint, q: Word)
    requires b.Valid() && S.Valid() && b.wds == S.wds >= 1 && b != S && b.x != S.x && Times(q, S.Value()) <= b.Value()
    modifies b`wds, b.x
    ensures b.Valid() && b.wds <= S.wds && b.Value() == old(b.Value()) - Times(q, S.Value())
    ensures b.wds > 1 ==> b.x[b.wds - 1] != 0
  {
    hide Val, Base;
    var n := S.wds;
    ghost var v, t := b.Value(), Times(q, S.Value());
    var carry, borrow := SubMul(b.x, S.x, n, q);
    ValBound(b.x[..n]);
    NothingMissing(v, Val(b.x[..n]), t, carry, borrow, Base(n));
    TrimTop(b, n - 1);
  }

  /** `quorem`: the quotient digit of `b / S`, leaving the remainder in `b`; one correction is enough. */
  method Quorem(b: Bigint, S: Bigint) returns (q: nat)
    requires b.Valid() && S.Valid() && b != S && b.x != S.x && S.wds >= 1 && b.wds <= S.wds
    requires 16 <= S.x[S.wds - 1] < U32 - 1 && b.Value() < 16 * S.Value()
    modifies b`wds, b.x
    ensures b.Valid() && b.wds <= S.wds
    ensures S.Value() == old(S.Value()) > 0 && q == old(b.Value()) / S.Value()
    ensures b.Value() == old(b.Value()) % S.Value()
  {
    hide Val, Base, Times;
    ghost var v, sv := b.Value(), S.Value();
    q := Divide(b, S);
    QuotientUnique(v, sv, q, b.Value());
  }

  /** The body of `quorem`: what is taken off and what is left. */
  method Divide(b: Bigint, S: Bigint) returns (q: nat)
    requires b.Valid() && S.Valid() && b != S && b.x != S.x && S.wds >= 1 && b.wds <= S.wds
    requires 16 <= S.x[S.wds - 1] < U32 - 1 && b.Value() < 16 * S.Value()
    modifies b`wds, b.x
    ensures b.Valid() && b.wds <= S.wds
    ensures S.Value() == old(S.Value()) && Times(q, S.Value()) + b.Value() == old(b.Value()) && b.Value() < S.Value()
  {
    hide Val, Base, Times;
    ghost var sv := S.Value();
    TimesNext(0, sv);
    if b.wds < S.wds {
      LongerIsLarger(S.x[..S.wds], b.x[..b.wds]);
      return 0;
    }
    q := TakeEstimate(b, S);
    TimesNext(q, sv);
    var one := Correct(b, S);
    q := q + one;
  }

  /** The estimated digit is taken off; less than twice the divisor is left. */
  method TakeEstimate(b: Bigint, S: Bigint) returns (q: nat)
    requires b.Valid() && S.Valid() && b != S && b.x != S.x && b.wds == S.wds >= 1
    requires 16 <= S.x[S.wds - 1] < U32 - 1 && b.Value() < 16 * S.Value()
    modifies b`wds, b.x
    ensures b.Valid() && b.wds <= S.wds
    ensures S.Value() == old(S.Value()) && Times(q, S.Value()) + b.Value() == old(b.Value())
    ensures b.Value() < 2 * S.Value()
  {
    hide Val, Base, Times;
    ghost var sv := S.Value();
    var n := S.wds - 1;
    q := b.x[n] / (S.x[n] + 1);
    Estimate(b.x[..n + 1], S.x[..n + 1], n, q);
    TimesNext(0, sv);
    TimesNext(q, sv);
    if q != 0 { TakeOff(b, S, q); }
  }

  /** The correction: the divisor is taken off once more if it still fits. */
  method Correct(b: Bigint, S: Bigint) returns (one: nat)
    requires b.Valid() && S.Valid() && b != S && b.x != S.x && S.wds >= 1 && b.wds <= S.wds
    requires S.x[S.wds - 1] != 0 && b.Value() < 2 * S.Value()
    modifies b`wds, b.x
    ensures b.Valid() && b.wds <= S.wds && one <= 1
    ensures S.Value() == old(S.Value()) && b.Value() < S.Value()
    ensures b.Value() + (if one == 1 then S.Value() else 0) == old(b.Value())
  {
    hide Val, Base, Times;
    TimesNext(0, S.Value());
    one := 0;
    var c := Cmp(b, S);
    if c >= 0 {
      if b.wds < S.wds { LongerIsLarger(S.x[..S.wds], b.x[..b.wds]); }
      TakeOff(b, S, 1);
      one := 1;
    }
  }

  lemma Estimate(bs: seq<Word>, ss: seq<Word>, n: nat, q: nat)
    requires |bs| == |ss| == n + 1 && 16 <= ss[n] && Val(bs) < 16 * Val(ss) && q == bs[n] as nat / (ss[n] as nat + 1)
    ensures q < 16 && Times(q, Val(ss)) <= Val(bs) < Times(q + 2, Val(ss)) && Val(ss) > 0
  {
    hide Val, Base, Times;
    ValTop(bs);
    ValTop(ss);
    DigitBound(Val(bs), Val(ss), bs[n], ss[n], Base(n));
    QuotientEstimate(Val(bs), Val(ss), bs[n], ss[n], Base(n));
  }

  /** The estimated digit is below 16, so it is below the top word of `S`. */
  lemma DigitBound(b: nat, s: nat, bt: nat, st: nat, p: nat)
    requires bt * p <= b < 16 * s && s < (st + 1) * p && st >= 16 && p > 0
    ensures bt / (st + 1) < 16 && bt / (st + 1) + 1 <= st
  {
    assert (16 * (st + 1)) * p == 16 * ((st + 1) * p);
    MulKeepsOrder(16 * (st + 1), bt, p);
    DivLess(bt, 16, st + 1);
  }

  lemma MulKeepsOrder(a: nat, b: nat, p: nat)
    ensures a <= b ==> a * p <= b * p
  {
    if a <= b { MulLeq(a, b, p, p); }
  }

  lemma DivLess(n: nat, k: nat, d: nat)
    requires 0 < d && n < k * d
    ensures n / d < k
  {
    assert n / d * d <= n;
    MulKeepsOrder(k, n / d, d);
  }

  // ---- dshift ----

  lemma PowStep(k: nat, d: nat, x: nat)
    ensures x * Pow(2, k) * Pow(2, d) == x * Pow(2, k + d)
  {
    PowAdd(2, k, d);
    MulAssoc(x, Pow(2, k), Pow(2, d));
  }

  lemma SmallTwos()
    ensures Pow(2, 0) == 1 && Pow(2, 1) == 2 && Pow(2, 2) == 4 && Pow(2, 4) == 16 && Pow(2, 8) == 256
    ensures Pow(2, 16) == 0x1_0000
  {
    assert Pow(2, 1) == 2 * Pow(2, 0);
    PowAdd(2, 1, 1);
    PowAdd(2, 2, 2);
    PowAdd(2, 4, 4);
    PowAdd(2, 8, 8);
  }

  /** `hi0bits`: the number of zero bits above the top one bit. A test of the upper bits with a mask is a comparison
      here, since the bits above them are known to be zero. */
  method Hi0Bits(x: Word) returns (k: nat)
    ensures if x == 0 then k == 32 else k < 32 && 0x8000_0000 <= x * Pow(2, k) < U32
  {
    hide Pow;
    SmallTwos();
    k := 0;
    var y: Word := x;
    if y < 0x1_0000 { k, y := 16, y * 0x1_0000; PowStep(0, 16, x); }
    if y < 0x100_0000 { PowStep(k, 8, x); k, y := k + 8, y * 0x100; }
    if y < 0x1000_0000 { PowStep(k, 4, x); k, y := k + 4, y * 0x10; }
    if y < 0x4000_0000 { PowStep(k, 2, x); k, y := k + 2, y * 4; }
    if y < 0x8000_0000 {
      PowStep(k, 1, x);
      k := k + 1;
      if y < 0x4000_0000 { return 32; }
    }
  }

  /** `dshift` */
  method DShift(b: Bigint, p2: int) returns (rv: nat)
    requires b.Valid() && b.wds >= 1 && b.x[b.wds - 1] != 0
    ensures rv < 32
    ensures exists h: nat ::
              && h < 32 && 0x8000_0000 <= b.x[b.wds - 1] * Pow(2, h) < U32
              && rv == (h as int - 4 - (if p2 > 0 then p2 else 0)) % 32
  {
    var h := Hi0Bits(b.x[b.wds - 1]);
    var r: int := h as int - 4;
    if p2 > 0 { r := r - p2; }
    rv := r % 32;
  }

  /** A number whose top word needs `h` zero bits, shifted by `h` bits. */
  lemma TopAligned(ws: seq<Word>, h: nat)
    requires ws != [] && h < 32 && 0x8000_0000 <= ws[|ws| - 1] * Pow(2, h) < U32
    ensures 0x8000_0000 * Base(|ws| - 1) <= Val(ws) * Pow(2, h) < U32 * Base(|ws| - 1)
  {
    hide Val, Base, Pow;
    var t, p, b := ws[|ws| - 1] as nat, Pow(2, h), Base(|ws| - 1);
    ValTop(ws);
    TwoParts(h);
    var q := Pow(2, 32 - h);
    assert t < q by { if q <= t { MulLeq(q, t, p, p); } }
    MulLeq(t + 1, q, p, p);
    AlignArith(Val(ws), t, p, b);
  }

  lemma AlignArith(v: nat, t: nat, p: nat, b: nat)
    requires t * b <= v < (t + 1) * b && 0x8000_0000 <= t * p && (t + 1) * p <= U32 && p > 0
    ensures 0x8000_0000 * b <= v * p < U32 * b
  {
    MulLeq(t * b, v, p, p);
    assert (t * b) * p == (t * p) * b;
    MulLeq(0x8000_0000, t * p, b, b);
    MulLeq(v + 1, (t + 1) * b, p, p);
    assert (v + 1) * p == v * p + p;
    assert ((t + 1) * b) * p == ((t + 1) * p) * b;
    MulLeq((t + 1) * p, U32, b, b);
  }

  /** Shifting by the amount `dshift` prepares leaves exactly four zero bits above the divisor, as `quorem` needs. */
  lemma ShiftLeavesFourZeroBits(ws: seq<Word>, h: nat, k: nat, ws': seq<Word>)
    requires ws != [] && h < 32 && 0x8000_0000 <= ws[|ws| - 1] * Pow(2, h) < U32
    requires (k - (h - 4)) % 32 == 0
    requires ws' != [] && ws'[|ws'| - 1] != 0 && Val(ws') == Val(ws) * Pow(2, k)
    ensures 0x800_0000 <= ws'[|ws'| - 1] < 0x1000_0000
  {
    hide Val, Base, Pow;
    var m := WholeWords(k, h);
    TopAligned(ws, h);
    var n := |ws| - 1;
    ShiftedValue(Val(ws), k, h, m);
    BaseAdd(n, m);
    ScaledRange(Val(ws) * Pow(2, h), Base(n), Base(m), Val(ws'), Base(n + m));
    TopInRange(ws', n + m);
  }

  lemma ShiftedValue(v: nat, k: nat, h: nat, m: nat)
    requires k + 4 == h + 32 * m
    ensures v * Pow(2, k) * 16 == v * Pow(2, h) * Base(m) && Base(m) > 0
  {
    hide Base, Pow;
    PowStep(k, 4, v);
    PowStep(h, 32 * m, v);
    BaseIsPow(m);
    SmallTwos();
  }

  lemma WholeWords(k: nat, h: nat) returns (m: nat)
    requires h < 32 && (k - (h - 4)) % 32 == 0
    ensures k + 4 == h + 32 * m
  {
    m := (k - (h - 4)) / 32;
  }

  lemma ScaledRange(v: nat, b: nat, p: nat, w: nat, c: nat)
    requires 0x8000_0000 * b <= v < U32 * b && w * 16 == v * p && c == b * p && p > 0
    ensures 0x800_0000 * c <= w < 0x1000_0000 * c
  {
    MulLeq(0x8000_0000 * b, v, p, p);
    assert (0x8000_0000 * b) * p == 0x8000_0000 * c;
    MulLeq(v + 1, U32 * b, p, p);
    assert (v + 1) * p == v * p + p;
    assert (U32 * b) * p == U32 * c;
  }

  lemma TopInRange(ws: seq<Word>, n: nat)
    requires ws != [] && ws[|ws| - 1] != 0 && 0x800_0000 * Base(n) <= Val(ws) < 0x1000_0000 * Base(n)
    ensures |ws| == n + 1 && 0x800_0000 <= ws[n] < 0x1000_0000
  {
    hide Val, Base;
    ValBound(ws);
    ValAtLeast(ws);
    BaseNext(n);
    if |ws| <= n { BaseMonotone(|ws|, n); }
    if |ws| > n + 1 { BaseMonotone(n + 1, |ws| - 1); }
    ValTop(ws);
    var t, p := ws[n] as nat, Base(n);
    if t >= 0x1000_0000 { MulLeq(0x1000_0000, t, p, p); }
    if t < 0x800_0000 { MulLeq(t + 1, 0x800_0000, p, p); }
  }
}
