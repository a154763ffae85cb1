/** Numbers as little-endian sequences of 32-bit words. */
module Words {
  import opened Bytes

  const U64: nat := 0x1_0000_0000_0000_0000

  type Word = w: nat | w < U32

  /** 2^(32 n) */
  function Base(n: nat): (p: nat)
    ensures p > 0
  {
    if n == 0 then 1 else U32 * Base(n - 1)
  }

  function Val(ws: seq<Word>): (v: nat) {
    if ws == [] then 0 else ws[0] + U32 * Val(ws[1..])
  }

  /** `v` shifted up by `n` words. */
  function Scale(n: nat, v: nat): (r: nat) {
    Base(n) * v
  }

  lemma ScaleAdd(n: nat, u: nat, v: nat)
    ensures Scale(n, u + v) == Scale(n, u) + Scale(n, v)
  {
  }

  lemma ValEmpty(ws: seq<Word>)
    ensures Val(ws[..0]) == 0 && Base(0) == 1
  {
  }

  lemma ValFirst(ws: seq<Word>)
    requires ws != []
    ensures Val(ws) == ws[0] + U32 * Val(ws[1..])
  {
  }

  lemma Distribute(x: nat, y: nat, z: nat)
    ensures x * (y + z) == x * y + x * z
  {
  }

  lemma BaseNext(n: nat)
    ensures Base(n + 1) == U32 * Base(n)
  {
  }

  function Pow(b: nat, e: nat): (p: nat) {
    if e == 0 then 1 else b * Pow(b, e - 1)
  }

  lemma {:induction false} BaseAdd(m: nat, n: nat)
    ensures Base(m + n) == Base(m) * Base(n)
  {
    hide Base;
    if m == 0 {
      ValEmpty([]);
    } else {
      BaseAdd(m - 1, n);
      BaseNext(m - 1);
      BaseNext(m - 1 + n);
      MulAssoc(U32, Base(m - 1), Base(n));
    }
  }

  lemma {:induction false} ValConcat(a: seq<Word>, b: seq<Word>)
    ensures Val(a + b) == Val(a) + Base(|a|) * Val(b)
  {
    hide Base, Val;
    if a == [] {
      assert a + b == b && a == a[..0];
      ValEmpty(a);
    } else {
      assert (a + b)[1..] == a[1..] + b;
      ValConcat(a[1..], b);
      ValFirst(a);
      ValFirst(a + b);
      BaseNext(|a| - 1);
      MulAssoc(U32, Base(|a| - 1), Val(b));
      Distribute(U32, Val(a[1..]), Base(|a| - 1) * Val(b));
    }
  }

  lemma {:induction false} ValSnoc(a: seq<Word>, w: Word)
    ensures Val(a + [w]) == Val(a) + w * Base(|a|)
  {
    ValConcat(a, [w]);
    assert Val([w]) == w + U32 * Val([]);
  }

  lemma {:induction false} ValTake(ws: seq<Word>, i: nat)
    requires i < |ws|
    ensures Val(ws[..i + 1]) == Val(ws[..i]) + ws[i] * Base(i)
  {
    assert ws[..i + 1] == ws[..i] + [ws[i]];
    ValSnoc(ws[..i], ws[i]);
  }

  lemma {:induction false} ValSplit(ws: seq<Word>, i: nat)
    requires i <= |ws|
    ensures Val(ws) == Val(ws[..i]) + Base(i) * Val(ws[i..])
  {
    assert ws == ws[..i] + ws[i..];
    ValConcat(ws[..i], ws[i..]);
  }

  lemma {:induction false} ValBound(ws: seq<Word>)
    ensures Val(ws) < Base(|ws|)
  {
    if ws != [] {
      ValBound(ws[1..]);
      assert U32 * (Val(ws[1..]) + 1) <= U32 * Base(|ws| - 1);
    }
  }

  lemma {:induction false} ValZeros(ws: seq<Word>)
    requires forall i :: 0 <= i < |ws| ==> ws[i] == 0
    ensures Val(ws) == 0
  {
    if ws != [] { ValZeros(ws[1..]); }
  }

  /** Zero words on top do not count. */
  lemma {:induction false} ValTrim(ws: seq<Word>, n: nat)
    requires n <= |ws| && forall i :: n <= i < |ws| ==> ws[i] == 0
    ensures Val(ws[..n]) == Val(ws)
  {
    ValSplit(ws, n);
    ValZeros(ws[n..]);
  }

  /** The top word decides how large a number is. */
  lemma ValTop(ws: seq<Word>)
    requires ws != []
    ensures
      var n := |ws| - 1;
      ws[n] * Base(n) <= Val(ws) < (ws[n] + 1) * Base(n)
  {
    var n := |ws| - 1;
    assert ws[..n + 1] == ws;
    ValTake(ws, n);
    ValBound(ws[..n]);
    assert (ws[n] + 1) * Base(n) == ws[n] * Base(n) + Base(n);
  }

  /** Top word nonzero: at least as large as any shorter number. */
  lemma ValAtLeast(ws: seq<Word>)
    requires ws != [] && ws[|ws| - 1] != 0
    ensures Val(ws) >= Base(|ws| - 1)
  {
    ValTop(ws);
    var t, p := ws[|ws| - 1], Base(|ws| - 1);
    assert t * p >= p;
  }

  lemma {:induction false} BaseMonotone(m: nat, n: nat)
    requires m <= n
    ensures Base(m) <= Base(n)
  {
    if m < n { BaseMonotone(m, n - 1); }
  }

  // ---- 64-bit steps ----

  /** One word of a multiply-and-add: the double word splits into the new word and the carry. */
  lemma MulAddStep(v: nat, v': nat, old_: nat, m: nat, a: nat, x: nat, carry: nat, w: nat, carry': nat, p: nat)
    requires v' + carry * p == old_ * m + a
    requires x * m + carry == w + carry' * U32
    ensures (v' + w * p) + carry' * (U32 * p) == (old_ + x * p) * m + a
  {
    assert (x * m + carry) * p == (w + carry' * U32) * p;
    assert (x * m + carry) * p == x * m * p + carry * p;
    assert (w + carry' * U32) * p == w * p + carry' * (U32 * p);
    assert (old_ + x * p) * m == old_ * m + x * m * p by { assert x * p * m == x * m * p; }
  }

  /** One word of a subtraction in wrapping 64-bit arithmetic. */
  lemma SubStep(x: nat, y: nat, borrow: nat)
    requires x < U32 && y < U32 && borrow <= 1
    ensures
      var d := (x - y - borrow) % U64;
      var borrow' := d / U32 % 2;
      && borrow' == (if x < y + borrow then 1 else 0)
      && d % U32 == x - y - borrow + borrow' * U32
  {
    if x < y + borrow {
      assert (x - y - borrow) % U64 == x - y - borrow + U64;
    }
  }

  // ---- Powers ----

  lemma {:induction false} PowPositive(b: nat, e: nat)
    requires b > 0
    ensures Pow(b, e) > 0
  {
    if e > 0 { PowPositive(b, e - 1); }
  }

  lemma {:induction false} PowAdd(b: nat, m: nat, n: nat)
    ensures Pow(b, m + n) == Pow(b, m) * Pow(b, n)
  {
    hide Pow;
    if m == 0 {
      PowZero(b);
    } else {
      PowAdd(b, m - 1, n);
      PowNext(b, m - 1);
      PowNext(b, m - 1 + n);
      MulAssoc(b, Pow(b, m - 1), Pow(b, n));
    }
  }

  lemma PowZero(b: nat)
    ensures Pow(b, 0) == 1
  {
  }

  lemma PowNext(b: nat, e: nat)
    ensures Pow(b, e + 1) == b * Pow(b, e)
  {
  }

  lemma MulAssoc(x: nat, y: nat, z: nat)
    ensures x * (y * z) == (x * y) * z && x * 1 == x
  {
  }

  lemma {:induction false} PowMul(b: nat, m: nat, n: nat)
    ensures Pow(Pow(b, m), n) == Pow(b, m * n)
  {
    if n > 0 {
      PowMul(b, m, n - 1);
      PowAdd(b, m, m * (n - 1));
      assert m + m * (n - 1) == m * n;
    }
  }

  /** One binary digit of an exponent. */
  lemma PowHalf(b: nat, e: nat)
    ensures Pow(b, e) == (if e % 2 == 1 then b else 1) * Pow(b * b, e / 2)
  {
    var h := e / 2;
    PowAdd(b, 1, 1);
    assert Pow(b, 1) == b * Pow(b, 0);
    PowMul(b, 2, h);
    if e % 2 == 1 {
      assert e == 1 + 2 * h;
      PowAdd(b, 1, 2 * h);
    } else {
      assert e == 2 * h;
    }
  }
}
