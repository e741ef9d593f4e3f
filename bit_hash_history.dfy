/** Tabu-search history: signatures that follow a hash through single-bit
    flips by XOR, and a counting filter of signatures seen. Unsigned words
    are naturals below 2^32 or 2^64, with the C++ wrap-around written out. */
module History {
  import opened Arith

  const Two32: nat := 0x1_0000_0000
  const Two64: nat := 0x1_0000_0000_0000_0000

  // ---------------------------------------------------------------------
  // XOR on naturals, bit by bit

  function Xor(a: nat, b: nat): nat
    decreases a + b
  {
    if a == 0 && b == 0 then 0 else (if a % 2 != b % 2 then 1 else 0) + 2 * Xor(a / 2, b / 2)
  }

  /** The low bit and the remaining bits of an XOR. */
  lemma XorDigits(a: nat, b: nat)
    ensures Xor(a, b) % 2 == (if a % 2 != b % 2 then 1 else 0) && Xor(a, b) / 2 == Xor(a / 2, b / 2)
  {
  }

  lemma {:induction false} XorZero(a: nat)
    ensures Xor(a, 0) == a
    decreases a
  {
    if a > 0 {
      XorZero(a / 2);
    }
  }

  lemma {:induction false} XorSelf(a: nat)
    ensures Xor(a, a) == 0
    decreases a
  {
    if a > 0 {
      XorSelf(a / 2);
    }
  }

  lemma {:induction false} XorCommutes(a: nat, b: nat)
    ensures Xor(a, b) == Xor(b, a)
    decreases a + b
  {
    if a != 0 || b != 0 {
      XorCommutes(a / 2, b / 2);
    }
  }

  lemma {:induction false} XorAssociates(a: nat, b: nat, c: nat)
    ensures Xor(Xor(a, b), c) == Xor(a, Xor(b, c))
    decreases a + b + c
  {
    if a != 0 || b != 0 || c != 0 {
      XorAssociates(a / 2, b / 2, c / 2);
      var l, r := Xor(Xor(a, b), c), Xor(a, Xor(b, c));
      XorDigits(a, b);
      XorDigits(b, c);
      XorDigits(Xor(a, b), c);
      XorDigits(a, Xor(b, c));
      assert l % 2 == r % 2 && l / 2 == r / 2;
    }
  }

  /** XOR with the same word twice is no XOR at all. */
  lemma XorCancels(a: nat, k: nat)
    ensures Xor(Xor(a, k), k) == a
  {
    XorAssociates(a, k, k);
    XorSelf(k);
    XorZero(a);
  }

  /** XOR of two n-bit words is an n-bit word. */
  lemma {:induction false} XorBound(a: nat, b: nat, n: nat)
    requires a < Pow2(n) && b < Pow2(n)
    ensures Xor(a, b) < Pow2(n)
    decreases n
  {
    if n > 0 && (a != 0 || b != 0) {
      XorBound(a / 2, b / 2, n - 1);
    }
  }

  lemma Pow8()
    ensures Pow2(8) == 256
  {
  }

  lemma Pow16()
    ensures Pow2(16) == 0x1_0000
  {
    Pow8();
    Pow2Add(8, 8);
  }

  lemma Pow32()
    ensures Pow2(32) == Two32 && Pow2(64) == Two64
  {
    Pow16();
    Pow2Add(16, 16);
    Pow2Add(32, 32);
  }

  // ---------------------------------------------------------------------
  // bit_signature: a 64-bit word, XORed with an odd multiple of A per bit

  /** The default multiplier `A`, a prime near sqrt(0.6) * 2^64. */
  const DefaultMultiplier: nat := 14288786517845491783

  /** `off=1+bit*Skip; off=(off^(off>>1))|1;` in 32-bit arithmetic: the
      Gray code of `1+bit*Skip` with its low bit forced on. */
  function Offset(bit: nat, skip: nat): (r: nat)
    ensures r % 2 == 1 && r < Two32
  {
    var off := (1 + bit * skip) % Two32;
    Pow32();
    XorBound(off, off / 2, 32);
    var g := Xor(off, off / 2);
    if g % 2 == 1 then g else g + 1
  }

  /** What flipping `bit` XORs into a `bit_signature`: `off*A` modulo 2^64. */
  function SignatureKey(bit: nat, skip: nat, mult: nat): nat
  {
    (Offset(bit, skip) * mult) % Two64
  }

  class BitSignature {
    var a: nat
    const mult: nat
    const skip: nat

    ghost predicate Valid()
      reads this
    {
      a < Two64
    }

    /** By default no bit is set: the signature is 0. */
    constructor (mult0: nat, skip0: nat)
      ensures Valid() && a == 0 && mult == mult0 && skip == skip0
    {
      a := 0;
      mult := mult0;
      skip := skip0;
    }

    function Hash(): nat
      reads this
    {
      a
    }

    /** The signature the hash would have with `bit` flipped. */
    function HashWithFlip(bit: nat): (r: nat)
      reads this
      requires Valid()
      ensures r < Two64
    {
      Pow32();
      XorBound(a, SignatureKey(bit, skip, mult), 64);
      Xor(a, SignatureKey(bit, skip, mult))
    }

    method Flip(bit: nat)
      requires Valid()
      modifies this
      ensures Valid() && a == old(HashWithFlip(bit))
    {
      a := HashWithFlip(bit);
    }

    predicate Equal(o: BitSignature)
      reads this, o
    {
      a == o.a
    }

    predicate Less(o: BitSignature)
      reads this, o
    {
      a < o.a
    }
  }

  /** The signature after flipping `bits` in order, from `a`. */
  function Walk(a: nat, bits: seq<nat>, key: nat -> nat): nat
    decreases |bits|
  {
    if |bits| == 0 then a else Walk(Xor(a, key(bits[0])), bits[1..], key)
  }

  /** A bit flipped twice leaves the signature as it was. */
  lemma FlipInvolution(a: nat, bit: nat, key: nat -> nat)
    ensures Walk(a, [bit, bit], key) == a
  {
    var once := Xor(a, key(bit));
    assert [bit, bit][1..] == [bit] && [bit][1..] == [];
    assert Walk(a, [bit, bit], key) == Walk(once, [bit], key);
    assert Walk(once, [bit], key) == Walk(Xor(once, key(bit)), [], key);
    XorCancels(a, key(bit));
  }

  /** Two flips give the same signature in either order. */
  lemma FlipsCommute(a: nat, b1: nat, b2: nat, key: nat -> nat)
    ensures Walk(a, [b1, b2], key) == Walk(a, [b2, b1], key)
  {
    assert [b1, b2][1..] == [b2] && [b2, b1][1..] == [b1];
    XorAssociates(a, key(b1), key(b2));
    XorAssociates(a, key(b2), key(b1));
    XorCommutes(key(b1), key(b2));
  }

  /** Flipping a bit anywhere along a walk is flipping it first. */
  lemma {:induction false} WalkPull(a: nat, xs: seq<nat>, key: nat -> nat, j: nat)
    requires j < |xs|
    ensures Walk(a, xs, key) == Walk(Xor(a, key(xs[j])), xs[..j] + xs[j + 1..], key)
    decreases |xs|
  {
    if j > 0 {
      var k0, kj := key(xs[0]), key(xs[j]);
      var rest := xs[..j] + xs[j + 1..];
      WalkPull(Xor(a, k0), xs[1..], key, j - 1);
      assert xs[1..][j - 1] == xs[j];
      assert rest[0] == xs[0] && rest[1..] == xs[1..][..j - 1] + xs[1..][j..];
      XorAssociates(a, k0, kj);
      XorAssociates(a, kj, k0);
      XorCommutes(k0, kj);
      assert Walk(Xor(a, kj), rest, key) == Walk(Xor(Xor(a, kj), k0), rest[1..], key);
    } else {
      assert xs[..0] + xs[1..] == xs[1..];
    }
  }

  /** The signature of a walk depends only on which bits were flipped how
      often, not on the order: the tabu history can recognise a hash
      however it was reached. */
  lemma {:induction false} WalkOrderFree(a: nat, xs: seq<nat>, ys: seq<nat>, key: nat -> nat)
    requires multiset(xs) == multiset(ys)
    ensures Walk(a, xs, key) == Walk(a, ys, key)
    decreases |xs|
  {
    if |xs| > 0 {
      assert xs[0] in multiset(ys);
      var j :| 0 <= j < |ys| && ys[j] == xs[0];
      var rest := ys[..j] + ys[j + 1..];
      assert ys == ys[..j] + [ys[j]] + ys[j + 1..];
      assert multiset(ys) == multiset(ys[..j]) + multiset{ys[j]} + multiset(ys[j + 1..]);
      assert xs == [xs[0]] + xs[1..];
      assert multiset(xs) == multiset{xs[0]} + multiset(xs[1..]);
      assert multiset(rest) == multiset(ys[..j]) + multiset(ys[j + 1..]);
      assert multiset(rest) == multiset(ys) - multiset{ys[j]};
      assert multiset(xs[1..]) == multiset(xs) - multiset{xs[0]};
      WalkOrderFree(Xor(a, key(xs[0])), xs[1..], rest, key);
      WalkPull(a, ys, key, j);
    } else {
      assert |ys| == |multiset(ys)| == 0;
    }
  }

  // ---------------------------------------------------------------------
  // bit_signature_table: a 32-bit word, XORed with a random word per bit

  class BitSignatureTable {
    var a: nat
    /** The per-bit random words the generator seeded with `TId` yields. */
    const lut: nat -> nat

    ghost predicate Valid()
      reads this
    {
      a < Two32 && forall i :: lut(i) < Two32
    }

    /** By default no bit is set: the signature is 0. */
    constructor (lut0: nat -> nat)
      requires forall i :: lut0(i) < Two32
      ensures Valid() && a == 0 && lut == lut0
    {
      a := 0;
      lut := lut0;
    }

    function Hash(): nat
      reads this
    {
      a
    }

    function HashWithFlip(bit: nat): (r: nat)
      reads this
      requires Valid()
      ensures r < Two32
    {
      Pow32();
      XorBound(a, lut(bit), 32);
      Xor(a, lut(bit))
    }

    method Flip(bit: nat)
      requires Valid()
      modifies this
      ensures Valid() && a == old(HashWithFlip(bit))
    {
      a := HashWithFlip(bit);
    }

    predicate Equal(o: BitSignatureTable)
      reads this, o
    {
      a == o.a
    }

    predicate Less(o: BitSignatureTable)
      reads this, o
    {
      a < o.a
    }
  }

  // ---------------------------------------------------------------------
  // bit_sig_multi: several table signatures side by side

  /** Sum of the component hashes, in 32-bit arithmetic. */
  function SumHash(parts: seq<nat>): (r: nat)
    ensures r < Two32
  {
    if |parts| == 0 then 0 else (SumHash(parts[..|parts| - 1]) + parts[|parts| - 1]) % Two32
  }

  /** `std::pair`-style order over the components: the first component
      decides unless equal, then the rest. */
  predicate LexLess(xs: seq<nat>, ys: seq<nat>)
    requires |xs| == |ys|
  {
    |xs| > 0 && (xs[0] < ys[0] || (xs[0] == ys[0] && LexLess(xs[1..], ys[1..])))
  }

  /** Word `i` XORed with `luts[i](bit)`, for every `i`. */
  function FlipWords(parts: seq<nat>, luts: seq<nat -> nat>, bit: nat): (r: seq<nat>)
    requires |parts| == |luts| && forall i | 0 <= i < |parts| :: parts[i] < Two32 && luts[i](bit) < Two32
    ensures |r| == |parts| && forall i | 0 <= i < |r| :: r[i] < Two32
  {
    if |parts| == 0 then []
    else
      var k := |parts| - 1;
      Pow32();
      XorBound(parts[k], luts[k](bit), 32);
      FlipWords(parts[..k], luts[..k], bit) + [Xor(parts[k], luts[k](bit))]
  }

  /** `bit_sig_multi<first, bit_sig_multi<...>>` flattened: component `i`
      is the word of a table signature with random words `luts[i]`. */
  class BitSigMulti {
    var parts: seq<nat>
    const luts: seq<nat -> nat>

    ghost predicate Valid()
      reads this
    {
      && |parts| == |luts| >= 2
      && (forall i | 0 <= i < |parts| :: parts[i] < Two32)
      && (forall i, b | 0 <= i < |luts| :: luts[i](b) < Two32)
    }

    constructor (luts0: seq<nat -> nat>)
      requires |luts0| >= 2 && forall i, b | 0 <= i < |luts0| :: luts0[i](b) < Two32
      ensures Valid() && luts == luts0 && parts == seq(|luts0|, _ => 0)
    {
      luts := luts0;
      parts := seq(|luts0|, _ => 0);
    }

    function Hash(): (r: nat)
      reads this
    {
      SumHash(parts)
    }

    /** Every component's word with `bit` flipped. */
    function PartsWithFlip(bit: nat): (r: seq<nat>)
      reads this
      requires Valid()
      ensures |r| == |parts| && forall i | 0 <= i < |r| :: r[i] < Two32
    {
      FlipWords(parts, luts, bit)
    }

    function HashWithFlip(bit: nat): (r: nat)
      reads this
      requires Valid()
    {
      SumHash(PartsWithFlip(bit))
    }

    /** Flips every component. */
    method Flip(bit: nat)
      requires Valid()
      modifies this
      ensures Valid() && parts == old(PartsWithFlip(bit))
      ensures Hash() == old(HashWithFlip(bit))
    {
      parts := PartsWithFlip(bit);
    }

    predicate Equal(o: BitSigMulti)
      reads this, o
    {
      parts == o.parts
    }

    predicate Less(o: BitSigMulti)
      reads this, o
      requires |parts| == |o.parts|
    {
      LexLess(parts, o.parts)
    }
  }

  /** Components equal in order is the same as equal signatures, and then
      neither is below the other. */
  lemma {:induction false} LexLessIrreflexive(xs: seq<nat>)
    ensures !LexLess(xs, xs)
    decreases |xs|
  {
    if |xs| > 0 {
      LexLessIrreflexive(xs[1..]);
    }
  }

  /** The order is a strict one: never both ways round. */
  lemma {:induction false} LexLessAsymmetric(xs: seq<nat>, ys: seq<nat>)
    requires |xs| == |ys|
    ensures !(LexLess(xs, ys) && LexLess(ys, xs))
    decreases |xs|
  {
    if |xs| > 0 {
      LexLessAsymmetric(xs[1..], ys[1..]);
    }
  }

  // ---------------------------------------------------------------------
  // bit_sig_multi_set: a counting filter of 8-bit counters

  /** `h << k` on a 32-bit word: the bits shifted past bit 31 are lost. */
  function ShiftLeft32(h: nat, k: nat): (r: nat)
    ensures r < Two32
  {
    (h * Pow2(k)) % Two32
  }

  /** `y >> k` on an unsigned word: `k` halvings. */
  function ShiftRight(y: nat, k: nat): nat
  {
    if k == 0 then y else ShiftRight(y / 2, k - 1)
  }

  /** `((h<<shift)^h)>>shift` on 32-bit `h`. */
  function Slot(h: nat, shift: nat): (r: nat)
    requires h < Two32 && 1 <= shift <= 31
    ensures r < Pow2(32 - shift)
  {
    var shifted := ShiftLeft32(h, shift);
    Pow32();
    XorBound(shifted, h, 32);
    WordShiftBound(Xor(shifted, h), shift);
    ShiftRight(Xor(shifted, h), shift)
  }

  /** A 32-bit word shifted right by `shift` has `32 - shift` bits left. */
  lemma WordShiftBound(y: nat, shift: nat)
    requires y < Two32 && shift <= 32
    ensures ShiftRight(y, shift) < Pow2(32 - shift)
  {
    Pow32();
    ShiftRightBound(y, shift, 32 - shift);
  }

  /** Shifting right by `k` takes `n + k` bits down to `n`. */
  lemma {:induction false} ShiftRightBound(y: nat, k: nat, n: nat)
    requires y < Pow2(n + k)
    ensures ShiftRight(y, k) < Pow2(n)
    decreases k
  {
    if k > 0 {
      assert Pow2(n + k) == 2 * Pow2(n + k - 1);
      ShiftRightBound(y / 2, k - 1, n);
    }
  }

  /** The slot of every component, in component order. */
  function Slots(parts: seq<nat>, shift: nat): (r: seq<nat>)
    requires (forall i | 0 <= i < |parts| :: parts[i] < Two32) && 1 <= shift <= 31
    ensures |r| == |parts| && forall i | 0 <= i < |r| :: r[i] < Pow2(32 - shift)
  {
    seq(|parts|, i requires 0 <= i < |parts| => Slot(parts[i], shift))
  }

  /** Number of occupied counters. */
  function Occupied(t: seq<nat>): (r: nat)
    ensures r <= |t|
  {
    if |t| == 0 then 0 else Occupied(t[..|t| - 1]) + (if t[|t| - 1] > 0 then 1 else 0)
  }

  /** One more slot counted: the count of every index grows by its
      occurrences in the newest slot. */
  lemma CountSnoc(slots: seq<nat>, i: nat, j: nat)
    requires i < |slots|
    ensures multiset(slots[..i + 1])[j] == multiset(slots[..i])[j] + (if slots[i] == j then 1 else 0)
  {
    assert slots[..i + 1] == slots[..i] + [slots[i]];
  }

  /** Increments the counter of every slot, once per occurrence. */
  method AddSlots(table: array<nat>, slots: seq<nat>)
    requires forall i | 0 <= i < |slots| :: slots[i] < table.Length
    modifies table
    ensures forall j | 0 <= j < table.Length :: table[j] == old(table[j]) + multiset(slots)[j]
  {
    ghost var t0 := table[..];
    var i := 0;
    while i < |slots|
      invariant 0 <= i <= |slots| && table.Length == |t0|
      invariant forall j | 0 <= j < table.Length :: table[j] == t0[j] + multiset(slots[..i])[j]
    {
      forall j | 0 <= j < table.Length
        ensures multiset(slots[..i + 1])[j] == multiset(slots[..i])[j] + (if slots[i] == j then 1 else 0)
      {
        CountSnoc(slots, i, j);
      }
      table[slots[i]] := table[slots[i]] + 1;
      i := i + 1;
    }
    assert slots[..i] == slots;
  }

  /** Decrements the counter of every slot, once per occurrence; each
      counter holds at least its slot's occurrences. */
  method RemoveSlots(table: array<nat>, slots: seq<nat>)
    requires forall i | 0 <= i < |slots| :: slots[i] < table.Length
    requires forall j | 0 <= j < table.Length :: multiset(slots)[j] <= table[j]
    modifies table
    ensures forall j | 0 <= j < table.Length :: table[j] == old(table[j]) - multiset(slots)[j]
  {
    ghost var t0 := table[..];
    var i := 0;
    while i < |slots|
      invariant 0 <= i <= |slots| && table.Length == |t0|
      invariant forall j | 0 <= j < table.Length :: table[j] + multiset(slots[..i])[j] == t0[j]
    {
      assert slots == slots[..i + 1] + slots[i + 1..];
      assert multiset(slots[..i + 1]) <= multiset(slots);
      forall j | 0 <= j < table.Length
        ensures multiset(slots[..i + 1])[j] == multiset(slots[..i])[j] + (if slots[i] == j then 1 else 0)
      {
        CountSnoc(slots, i, j);
      }
      table[slots[i]] := table[slots[i]] - 1;
      i := i + 1;
    }
    assert slots[..i] == slots;
  }

  class BitSigMultiSet {
    const m: nat
    const log2m: nat
    const shift: nat
    var n: nat
    const table: array<nat>

    ghost predicate Valid()
      reads this, table
    {
      && 1 <= log2m <= 31 && m == Pow2(log2m) && shift == 32 - log2m
      && table.Length == m && n < Two32
      && forall j | 0 <= j < table.Length :: table[j] <= 255
    }

    /** `m` empty 8-bit counters, `m == 2^log2m`; the shift `32 - log2m`
        keeps the slot below `m`. */
    constructor (log2m0: nat)
      requires 1 <= log2m0 <= 31
      ensures Valid() && log2m == log2m0 && n == 0 && fresh(table)
      ensures table[..] == seq(Pow2(log2m0), _ => 0)
    {
      m := Pow2(log2m0);
      log2m := log2m0;
      shift := 32 - log2m0;
      n := 0;
      table := new nat[Pow2(log2m0)](_ => 0);
    }

    /** `contains`: every component's slot is occupied. */
    method Contains(sig: BitSigMulti) returns (r: bool)
      requires Valid() && sig.Valid()
      ensures r <==> forall i | 0 <= i < |sig.parts| :: table[Slots(sig.parts, shift)[i]] > 0
    {
      var slots := Slots(sig.parts, shift);
      r := true;
      var i := 0;
      while i < |slots|
        invariant 0 <= i <= |slots|
        invariant r <==> forall k | 0 <= k < i :: table[slots[k]] > 0
      {
        r := r && table[slots[i]] > 0;
        i := i + 1;
      }
    }

    /** `add`: counts one more signature and increments each component's
        counter; no counter may pass 255. */
    method Add(sig: BitSigMulti)
      requires Valid() && sig.Valid()
      requires forall j | 0 <= j < table.Length :: table[j] + multiset(Slots(sig.parts, shift))[j] <= 255
      modifies this, table
      ensures Valid() && n == (old(n) + 1) % Two32
      ensures forall j | 0 <= j < table.Length :: table[j] == old(table[j]) + multiset(Slots(sig.parts, shift))[j]
    {
      var slots := Slots(sig.parts, shift);
      n := (n + 1) % Two32;
      AddSlots(table, slots);
    }

    /** `remove`: counts one signature fewer (wrapping at zero, as the
        unsigned count does) and decrements each component's counter;
        every counter decremented must be occupied. */
    method Remove(sig: BitSigMulti)
      requires Valid() && sig.Valid()
      requires forall j | 0 <= j < table.Length :: multiset(Slots(sig.parts, shift))[j] <= table[j]
      modifies this, table
      ensures Valid() && n == (old(n) + Two32 - 1) % Two32
      ensures forall j | 0 <= j < table.Length :: table[j] == old(table[j]) - multiset(Slots(sig.parts, shift))[j]
    {
      var slots := Slots(sig.parts, shift);
      n := (n + Two32 - 1) % Two32;
      RemoveSlots(table, slots);
    }

    /** `remove(s)` straight after `add(s)` restores every counter and the
        count. */
    method AddThenRemove(sig: BitSigMulti)
      requires Valid() && sig.Valid()
      requires forall j | 0 <= j < table.Length :: table[j] + multiset(Slots(sig.parts, shift))[j] <= 255
      modifies this, table
      ensures Valid() && table[..] == old(table[..]) && n == old(n)
    {
      Add(sig);
      Remove(sig);
    }

    /** After `add(s)`, `contains(s)` holds: the filter has no false
        negatives. */
    method AddThenContains(sig: BitSigMulti) returns (r: bool)
      requires Valid() && sig.Valid()
      requires forall j | 0 <= j < table.Length :: table[j] + multiset(Slots(sig.parts, shift))[j] <= 255
      modifies this, table
      ensures Valid() && r
    {
      Add(sig);
      ghost var slots := Slots(sig.parts, shift);
      forall i | 0 <= i < |slots|
        ensures table[slots[i]] > 0
      {
        assert slots[i] in multiset(slots);
      }
      r := Contains(sig);
    }

    /** `load`: the fraction of counters in use. */
    method Load() returns (r: real)
      requires Valid()
      ensures r == (Occupied(table[..]) as real) / (m as real)
    {
      var used := 0;
      var i := 0;
      while i < table.Length
        invariant 0 <= i <= table.Length
        invariant used == Occupied(table[..i])
      {
        assert table[..i + 1][..i] == table[..i];
        if table[i] > 0 {
          used := used + 1;
        }
        i := i + 1;
      }
      assert table[..i] == table[..];
      r := (used as real) / (m as real);
    }
  }
}
