/** Powers of two and single bits of naturals: the meaning of `1<<n` and
    `(x>>k)&1` on unbounded integers. */
module Arith {

  function Pow2(n: nat): (r: nat)
    ensures r >= 1
  {
    if n == 0 then 1 else 2 * Pow2(n - 1)
  }

  /** Bit `k` of `o`, that is `(o >> k) & 1`. */
  function Bit(o: nat, k: nat): (b: nat)
    ensures b <= 1
  {
    if k == 0 then o % 2 else Bit(o / 2, k - 1)
  }

  lemma {:induction false} Pow2Add(a: nat, b: nat)
    ensures Pow2(a + b) == Pow2(a) * Pow2(b)
  {
    if a > 0 {
      Pow2Add(a - 1, b);
      assert Pow2(a + b) == 2 * Pow2(a - 1 + b);
    }
  }

  lemma {:induction false} Pow2Monotone(a: nat, b: nat)
    requires a <= b
    ensures Pow2(a) <= Pow2(b)
  {
    if a < b {
      Pow2Monotone(a, b - 1);
    }
  }

  /** A number below 2^n has no bit at position n or above. */
  lemma {:induction false} BitsAbove(o: nat, n: nat, k: nat)
    requires o < Pow2(n) && n <= k
    ensures Bit(o, k) == 0
  {
    if k > 0 {
      BitsAbove(o / 2, if n == 0 then 0 else n - 1, k - 1);
    }
  }

  /** Two different numbers below 2^n differ in one of their n low bits. */
  lemma {:induction false} BitsDiffer(o1: nat, o2: nat, n: nat)
    requires o1 < Pow2(n) && o2 < Pow2(n) && o1 != o2
    ensures exists k: nat :: k < n && Bit(o1, k) != Bit(o2, k)
  {
    if o1 % 2 != o2 % 2 {
      assert Bit(o1, 0) != Bit(o2, 0);
    } else {
      assert n > 0;
      BitsDiffer(o1 / 2, o2 / 2, n - 1);
      var k: nat :| k < n - 1 && Bit(o1 / 2, k) != Bit(o2 / 2, k);
      assert Bit(o1, k + 1) != Bit(o2, k + 1);
    }
  }

  /** The number whose bit `i` is set exactly when `b[i]` holds: the value
      an accumulator `acc |= bit << i` builds over `i` ascending. */
  function BitsValue(b: seq<bool>): nat
  {
    if b == [] then 0 else (if b[0] then 1 else 0) + 2 * BitsValue(b[1..])
  }

  lemma {:induction false} BitsValueBound(b: seq<bool>)
    ensures BitsValue(b) < Pow2(|b|)
  {
    if b != [] {
      BitsValueBound(b[1..]);
    }
  }

  /** The low bit of `x + 2*y` is `x`, the others are the bits of `y`. */
  lemma BitOfDouble(x: nat, y: nat, k: nat)
    requires x <= 1
    ensures Bit(x + 2 * y, k) == if k == 0 then x else Bit(y, k - 1)
  {
    assert (x + 2 * y) % 2 == x && (x + 2 * y) / 2 == y;
  }

  lemma {:induction false} BitsValueBit(b: seq<bool>, k: nat)
    ensures Bit(BitsValue(b), k) == if k < |b| && b[k] then 1 else 0
  {
    if b == [] {
      BitsAbove(0, 0, k);
    } else {
      BitOfDouble(if b[0] then 1 else 0, BitsValue(b[1..]), k);
      if k > 0 {
        BitsValueBit(b[1..], k - 1);
        assert k - 1 < |b[1..]| ==> b[1..][k - 1] == b[k];
      }
    }
  }

  /** One more iteration of the accumulator loop. */
  lemma {:induction false} BitsValueSnoc(b: seq<bool>, x: bool)
    ensures BitsValue(b + [x]) == BitsValue(b) + if x then Pow2(|b|) else 0
  {
    if b != [] {
      assert (b + [x])[1..] == b[1..] + [x];
      BitsValueSnoc(b[1..], x);
    }
  }

  /** Two accumulators of the same width are equal only for equal bits. */
  lemma BitsValueInjective(a: seq<bool>, b: seq<bool>)
    requires |a| == |b| && BitsValue(a) == BitsValue(b)
    ensures a == b
  {
    forall k | 0 <= k < |a|
      ensures a[k] == b[k]
    {
      BitsValueBit(a, k);
      BitsValueBit(b, k);
    }
  }

  /** `h ^ (1 << t)`: bit `t` of `h` toggled. */
  function XorBit(h: nat, t: nat): (r: nat)
    ensures Bit(r, t) == 1 - Bit(h, t)
    ensures forall k: nat :: k != t ==> Bit(r, k) == Bit(h, k)
  {
    XorBitBits(h, t);
    if Bit(h, t) == 1 then h - Pow2(t) else h + Pow2(t)
  }

  lemma {:induction false} XorBitBits(h: nat, t: nat)
    ensures Bit(h, t) == 1 ==> h >= Pow2(t)
    ensures var r := if Bit(h, t) == 1 then h - Pow2(t) else h + Pow2(t);
      Bit(r, t) == 1 - Bit(h, t) && forall k: nat :: k != t ==> Bit(r, k) == Bit(h, k)
  {
    if t > 0 {
      XorBitBits(h / 2, t - 1);
      var r := if Bit(h, t) == 1 then h - Pow2(t) else h + Pow2(t);
      var r' := if Bit(h / 2, t - 1) == 1 then h / 2 - Pow2(t - 1) else h / 2 + Pow2(t - 1);
      assert r / 2 == r' && r % 2 == h % 2;
      forall k: nat | k != t
        ensures Bit(r, k) == Bit(h, k)
      {
        if k > 0 {
          assert Bit(r, k) == Bit(r', k - 1);
        }
      }
    }
  }

  /** Toggling one accumulated bit toggles that bit of the value. */
  lemma {:induction false} BitsValueToggle(b: seq<bool>, t: nat)
    requires t < |b|
    ensures BitsValue(b[t := !b[t]]) == XorBit(BitsValue(b), t)
  {
    var c := b[t := !b[t]];
    BitsValueBit(b, t);
    if t == 0 {
      assert c[1..] == b[1..];
    } else {
      assert c[1..] == b[1..][t - 1 := !b[t]];
      BitsValueToggle(b[1..], t - 1);
      BitsValueBit(b[1..], t - 1);
    }
  }
}
