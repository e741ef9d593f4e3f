/** The key collection: key patterns mapped to values, ordered as in a
    `std::map`, with no two key groups overlapping. */
module KeyValueSets {
  import opened Wrappers
  import opened BitVectors
  import opened Decimal

  type Entry = (BitVec, BitVec)

  const OverlapMsg := "Two keys in different groups overlap."
  const DuplicateMsg := "Duplicate key value."

  /** The vector a default-constructed `bit_vector` holds. */
  const Empty: BitVec := BitVector([], 0, 0)

  function Keys(es: seq<Entry>): seq<BitVec>
  {
    seq(|es|, i requires 0 <= i < |es| => es[i].0)
  }

  function Values(es: seq<Entry>): seq<BitVec>
  {
    seq(|es|, i requires 0 <= i < |es| => es[i].1)
  }

  /** Keys strictly ascending under `operator<`: the order of a `std::map`. */
  predicate Ascending(ks: seq<BitVec>)
  {
    forall i, j | 0 <= i < j < |ks| :: Less(ks[i], ks[j])
  }

  predicate PairwiseDisjoint(ks: seq<BitVec>)
  {
    forall i, j | 0 <= i < j < |ks| :: !Overlaps(ks[i], ks[j])
  }

  predicate AllConcrete(ks: seq<BitVec>)
  {
    forall i | 0 <= i < |ks| :: IsConcrete(ks[i])
  }

  function Elements(ks: seq<BitVec>): set<BitVec>
  {
    set i | 0 <= i < |ks| :: ks[i]
  }

  /** The largest `size()` among `vs`, 0 for none. */
  function MaxSize(vs: seq<BitVec>): nat
  {
    if vs == [] then 0
    else
      var m := MaxSize(vs[..|vs| - 1]);
      var last := Size(vs[|vs| - 1]);
      if m < last then last else m
  }

  /** `MaxSize` bounds every size and is one of them (or 0 for none). */
  lemma {:induction false} MaxSizeIsMax(vs: seq<BitVec>)
    ensures forall i | 0 <= i < |vs| :: Size(vs[i]) <= MaxSize(vs)
    ensures MaxSize(vs) == 0 || exists i | 0 <= i < |vs| :: Size(vs[i]) == MaxSize(vs)
  {
    if vs != [] {
      var init := vs[..|vs| - 1];
      MaxSizeIsMax(init);
      assert forall i | 0 <= i < |vs| - 1 :: vs[i] == init[i];
    }
  }

  /** The sum of `variants_count()` over `ks`. */
  function SumVariants(ks: seq<BitVec>): nat
  {
    if ks == [] then 0 else SumVariants(ks[..|ks| - 1]) + VariantsCount(ks[|ks| - 1])
  }

  /** Every group has at least one variant, so there are at least as many
      distinct keys as groups. */
  lemma {:induction false} SumVariantsAtLeast(ks: seq<BitVec>)
    ensures SumVariants(ks) >= |ks|
  {
    if ks != [] {
      SumVariantsAtLeast(ks[..|ks| - 1]);
    }
  }

  /** Ascending keys are distinct, so the key set has one element per entry. */
  lemma {:induction false} AscendingCardinality(ks: seq<BitVec>)
    requires Ascending(ks)
    ensures |Elements(ks)| == |ks|
  {
    if ks != [] {
      var n := |ks| - 1;
      var init := ks[..n];
      assert Ascending(init);
      AscendingCardinality(init);
      assert Elements(ks) == Elements(init) + {ks[n]};
      if ks[n] in Elements(init) {
        var i :| 0 <= i < n && init[i] == ks[n];
        assert Less(ks[i], ks[n]);
        LessIrreflexive(ks[n]);
      }
    }
  }

  /** The properties `setupProperties` caches: the key set, the widest key,
      the widest value, whether every key is concrete and the number of
      concrete keys the groups cover. */
  datatype Caches = Caches(keys: set<BitVec>, wKey: nat, wValue: nat, isKeyConcrete: bool, nDistinctKeys: nat)

  /** What the caches must hold for the entries `es`. */
  function Summary(es: seq<Entry>): Caches
  {
    var ks := Keys(es);
    Caches(Elements(ks), MaxSize(ks), MaxSize(Values(es)), AllConcrete(ks), SumVariants(ks))
  }

  /** The caches as the loop of `setupProperties` resets them. */
  const Reset := Caches({}, 0, 0, true, 0)

  function Max(a: nat, b: nat): nat { if a < b then b else a }

  /** One iteration of `setupProperties` after its overlap check. */
  function Record(c: Caches, e: Entry): Caches
  {
    Caches(c.keys + {e.0}, Max(c.wKey, Size(e.0)), Max(c.wValue, Size(e.1)),
           c.isKeyConcrete && IsConcrete(e.0), c.nDistinctKeys + VariantsCount(e.0))
  }

  /** The caches after recording the entries `es` in order. */
  function Recorded(es: seq<Entry>): Caches
  {
    if es == [] then Reset else Record(Recorded(es[..|es| - 1]), es[|es| - 1])
  }

  lemma RecordedStep(es: seq<Entry>, i: nat)
    requires i < |es|
    ensures Recorded(es[..i + 1]) == Record(Recorded(es[..i]), es[i])
  {
    assert es[..i + 1][..i] == es[..i];
  }

  /** Recording the entries one by one leaves exactly their summary. */
  lemma {:induction false} RecordedSummary(es: seq<Entry>)
    ensures Recorded(es) == Summary(es)
  {
    if es != [] {
      var n := |es| - 1;
      var init := es[..n];
      RecordedSummary(init);
      var ks := Keys(es);
      var vs := Values(es);
      assert es == init + [es[n]];
      KeysSnoc(init, es[n]);
      MaxSizeStep(ks, Keys(init), es[n].0);
      MaxSizeStep(vs, Values(init), es[n].1);
      AllConcreteStep(ks, Keys(init), es[n].0);
      ElementsStep(ks, Keys(init), es[n].0);
      assert ks[..n] == Keys(init);
    }
  }

  lemma KeysSnoc(init: seq<Entry>, e: Entry)
    ensures Keys(init + [e]) == Keys(init) + [e.0]
    ensures Values(init + [e]) == Values(init) + [e.1]
  {
    var w := init + [e];
    assert forall i | 0 <= i < |init| :: w[i] == init[i];
    assert w[|init|] == e;
  }

  /** `key_value_set`: the entries in key order, the key set and the
      properties cached by `setupProperties`. */
  class KeyValueSet {
    var entries: seq<Entry>
    var keys: set<BitVec>
    var wKey: nat
    var wValue: nat
    var isKeyConcrete: bool
    var nDistinctKeys: nat

    function Cached(): Caches
      reads this
    {
      Caches(keys, wKey, wValue, isKeyConcrete, nDistinctKeys)
    }

    /** The state `setupProperties` leaves behind. */
    ghost predicate Valid()
      reads this
    {
      && Ascending(Keys(entries))
      && PairwiseDisjoint(Keys(entries))
      && Cached() == Summary(entries)
    }

    /** The default constructor; `m_nDistinctKeys` is left unset. */
    constructor ()
      ensures entries == [] && keys == {}
      ensures wKey == 0 && wValue == 0 && !isKeyConcrete
    {
      entries := [];
      keys := {};
      wKey := 0;
      wValue := 0;
      isKeyConcrete := false;
    }

    /** `setupProperties`: checks each entry, in key order, against every
        key seen before it, then records the key and updates the caches. */
    method SetupProperties() returns (err: Option<string>)
      requires Ascending(Keys(entries))
      modifies this
      ensures entries == old(entries)
      ensures err.None? <==> PairwiseDisjoint(Keys(entries))
      ensures err.Some? ==> err.value == OverlapMsg
      ensures err.None? ==> Valid()
    {
      keys := {};
      wKey := 0;
      wValue := 0;
      isKeyConcrete := true;
      nDistinctKeys := 0;
      var es := entries;
      var i := 0;
      assert es[..0] == [];
      while i < |es|
        invariant 0 <= i <= |es| && entries == es
        invariant PairwiseDisjoint(Keys(es[..i]))
        invariant Cached() == Recorded(es[..i])
      {
        var e := es[i];
        RecordedSummary(es[..i]);
        var clash := OverlapsAny(keys, e.0);
        if clash {
          DisjointPrefix(es, i);
          return Some(OverlapMsg);
        }
        DisjointStep(es, i);
        keys := keys + {e.0};
        wKey := Max(wKey, Size(e.0));
        isKeyConcrete := isKeyConcrete && IsConcrete(e.0);
        wValue := Max(wValue, Size(e.1));
        nDistinctKeys := nDistinctKeys + VariantsCount(e.0);
        RecordedStep(es, i);
        i := i + 1;
      }
      assert es[..i] == es;
      RecordedSummary(es);
      return None;
    }

    /** `keys_size()`: one key per entry, i.e. equal to `size()`. */
    function KeysSize(): (n: nat)
      reads this
      requires Valid()
      ensures n == |entries|
    {
      AscendingCardinality(Keys(entries));
      |keys|
    }

    /** `keys_size_distinct()`: the number of concrete keys the groups
        cover, at least one per group. */
    function KeysSizeDistinct(): (n: nat)
      reads this
      requires Valid()
      ensures n == SumVariants(Keys(entries)) && n >= |entries|
    {
      SumVariantsAtLeast(Keys(entries));
      nDistinctKeys
    }

    /** `has_concrete_keys()`. */
    predicate HasConcreteKeys()
      reads this
      requires Valid()
      ensures HasConcreteKeys() <==> forall i | 0 <= i < |entries| :: IsConcrete(entries[i].0)
    {
      assert forall i | 0 <= i < |entries| :: Keys(entries)[i] == entries[i].0;
      isKeyConcrete
    }

    /** `getKeyWidth()`: the widest key. */
    function KeyWidth(): (w: nat)
      reads this
      requires Valid()
      ensures forall i | 0 <= i < |entries| :: Size(entries[i].0) <= w
      ensures w == 0 || exists i | 0 <= i < |entries| :: Size(entries[i].0) == w
    {
      MaxSizeIsMax(Keys(entries));
      assert forall i | 0 <= i < |entries| :: Keys(entries)[i] == entries[i].0;
      wKey
    }

    /** `getValueWidth()`: the widest value. */
    function ValueWidth(): (w: nat)
      reads this
      requires Valid()
      ensures forall i | 0 <= i < |entries| :: Size(entries[i].1) <= w
      ensures w == 0 || exists i | 0 <= i < |entries| :: Size(entries[i].1) == w
    {
      MaxSizeIsMax(Values(entries));
      assert forall i | 0 <= i < |entries| :: Values(entries)[i] == entries[i].1;
      wValue
    }
  }

  predicate AnyOverlaps(seen: set<BitVec>, k: BitVec)
  {
    exists x | x in seen :: Overlaps(x, k)
  }

  /** The inner loop of `setupProperties`: does any recorded key overlap `k`? */
  method OverlapsAny(seen: set<BitVec>, k: BitVec) returns (b: bool)
    ensures b <==> AnyOverlaps(seen, k)
  {
    var rest := seen;
    while rest != {}
      invariant rest <= seen
      invariant forall x | x in seen - rest :: !Overlaps(x, k)
      decreases rest
    {
      var x :| x in rest;
      if Overlaps(x, k) {
        return true;
      }
      rest := rest - {x};
    }
    return false;
  }

  /** How the summary of a sequence grows by one element. */
  lemma MaxSizeStep(w: seq<BitVec>, init: seq<BitVec>, last: BitVec)
    requires w == init + [last]
    ensures MaxSize(w) == Max(MaxSize(init), Size(last))
  {
    assert w[..|w| - 1] == init;
  }

  lemma AllConcreteStep(w: seq<BitVec>, init: seq<BitVec>, last: BitVec)
    requires w == init + [last]
    ensures AllConcrete(w) == (AllConcrete(init) && IsConcrete(last))
  {
    assert forall j | 0 <= j < |init| :: w[j] == init[j];
    assert w[|init|] == last;
  }

  lemma ElementsStep(w: seq<BitVec>, init: seq<BitVec>, last: BitVec)
    requires w == init + [last]
    ensures Elements(w) == Elements(init) + {last}
  {
    assert forall j | 0 <= j < |init| :: w[j] == init[j];
    assert w[|init|] == last;
  }

  /** No key of the first `i` entries overlaps entry `i`: the first `i + 1`
      are still pairwise disjoint. */
  lemma DisjointStep(es: seq<Entry>, i: nat)
    requires i < |es| && PairwiseDisjoint(Keys(es[..i]))
    requires !AnyOverlaps(Elements(Keys(es[..i])), es[i].0)
    ensures PairwiseDisjoint(Keys(es[..i + 1]))
  {
    var w := Keys(es[..i + 1]);
    var init := Keys(es[..i]);
    forall a, b | 0 <= a < b < |w|
      ensures !Overlaps(w[a], w[b])
    {
      assert w[a] == init[a];
      if b < i {
        assert w[b] == init[b];
      } else {
        assert w[b] == es[i].0 && init[a] in Elements(init);
      }
    }
  }

  /** A key of the first `i` entries overlaps entry `i`: the keys are not
      pairwise disjoint. */
  lemma DisjointPrefix(es: seq<Entry>, i: nat)
    requires i < |es| && AnyOverlaps(Elements(Keys(es[..i])), es[i].0)
    ensures !PairwiseDisjoint(Keys(es))
  {
    var init := Keys(es[..i]);
    var x :| x in Elements(init) && Overlaps(x, es[i].0);
    var j :| 0 <= j < i && init[j] == x;
    assert Keys(es)[j] == x && Keys(es)[i] == es[i].0;
  }

  /** `key_value_set(const std::map &)`: copies the entries and runs
      `setupProperties`, whose exception becomes `Err`. */
  method Build(es: seq<Entry>) returns (r: Result<KeyValueSet>)
    requires Ascending(Keys(es))
    ensures r.Err? <==> !PairwiseDisjoint(Keys(es))
    ensures r.Err? ==> r.msg == OverlapMsg
    ensures r.Ok? ==> fresh(r.value) && r.value.Valid() && r.value.entries == es
  {
    var kvs := new KeyValueSet();
    kvs.entries := es;
    var err := kvs.SetupProperties();
    if err.Some? {
      return Err(err.value);
    }
    return Ok(kvs);
  }

  // ---------------------------------------------------------------------
  // Inserting into the ordered entries

  predicate HasKey(es: seq<Entry>, k: BitVec)
  {
    exists i | 0 <= i < |es| :: es[i].0 == k
  }

  /** Number of entries whose key ranks below `k`. */
  function Position(es: seq<Entry>, k: BitVec): (p: nat)
    requires Ascending(Keys(es))
    ensures p <= |es|
    ensures forall i | 0 <= i < p :: Less(es[i].0, k)
    ensures forall i | p <= i < |es| :: !Less(es[i].0, k)
  {
    if es == [] || !Less(es[|es| - 1].0, k) then
      if es == [] then 0
      else
        var init := es[..|es| - 1];
        assert Keys(init) == Keys(es)[..|es| - 1];
        var p := Position(init, k);
        assert forall i | p <= i < |es| - 1 :: !Less(es[i].0, k) by {
          forall i | p <= i < |es| - 1
            ensures !Less(es[i].0, k)
          {
            assert init[i] == es[i];
          }
        }
        PositionBelow(es, init, k, p);
        p
    else
      assert forall i | 0 <= i < |es| - 1 :: Less(es[i].0, k) by {
        forall i | 0 <= i < |es| - 1
          ensures Less(es[i].0, k)
        {
          assert Keys(es)[i] == es[i].0 && Keys(es)[|es| - 1] == es[|es| - 1].0;
          LessTransitive(es[i].0, es[|es| - 1].0, k);
        }
      }
      |es|
  }

  lemma PositionBelow(es: seq<Entry>, init: seq<Entry>, k: BitVec, p: nat)
    requires |es| > 0 && init == es[..|es| - 1] && p <= |init|
    requires forall i | 0 <= i < p :: Less(init[i].0, k)
    ensures forall i | 0 <= i < p :: Less(es[i].0, k)
  {
    forall i | 0 <= i < p
      ensures Less(es[i].0, k)
    {
      assert init[i] == es[i];
    }
  }

  /** The key, when present, sits at the insertion position. */
  lemma PositionFinds(es: seq<Entry>, k: BitVec)
    requires Ascending(Keys(es))
    ensures HasKey(es, k) <==> (Position(es, k) < |es| && es[Position(es, k)].0 == k)
  {
    var p := Position(es, k);
    if HasKey(es, k) {
      var i :| 0 <= i < |es| && es[i].0 == k;
      LessIrreflexive(k);
      assert Keys(es)[p] == es[p].0 && Keys(es)[i] == es[i].0;
      assert i == p;
    }
  }

  /** `std::map::insert`: refused when the key is present, otherwise the
      entry goes where it keeps the keys ascending. */
  function Insert(es: seq<Entry>, k: BitVec, v: BitVec): (r: Option<seq<Entry>>)
    requires Ascending(Keys(es))
    ensures r.None? <==> HasKey(es, k)
    ensures r.Some? ==> Ascending(Keys(r.value))
    ensures r.Some? ==> exists p | 0 <= p <= |es| :: r.value == es[..p] + [(k, v)] + es[p..]
  {
    var p := Position(es, k);
    PositionFinds(es, k);
    if p < |es| && es[p].0 == k then None
    else
      InsertAscending(es, k, v, p);
      Some(es[..p] + [(k, v)] + es[p..])
  }

  lemma InsertAscending(es: seq<Entry>, k: BitVec, v: BitVec, p: nat)
    requires Ascending(Keys(es)) && p == Position(es, k) && !HasKey(es, k)
    ensures Ascending(Keys(es[..p] + [(k, v)] + es[p..]))
  {
    var r := es[..p] + [(k, v)] + es[p..];
    InsertKeys(es, k, v, p);
    PositionAbove(es, k);
    AscendingInsert(Keys(es), Keys(r), k, p);
  }

  /** Where the keys of the entries land after inserting at `p`. */
  lemma InsertKeys(es: seq<Entry>, k: BitVec, v: BitVec, p: nat)
    requires p <= |es|
    ensures var ks := Keys(es[..p] + [(k, v)] + es[p..]);
      && |ks| == |es| + 1 && ks[p] == k
      && (forall i | 0 <= i < p :: ks[i] == Keys(es)[i])
      && (forall i | p < i < |ks| :: ks[i] == Keys(es)[i - 1])
  {
    var r := es[..p] + [(k, v)] + es[p..];
    forall i | 0 <= i < p
      ensures Keys(r)[i] == Keys(es)[i]
    {
      assert r[i] == es[i];
    }
    forall i | p < i < |r|
      ensures Keys(r)[i] == Keys(es)[i - 1]
    {
      assert r[i] == es[p..][i - 1 - p] == es[i - 1];
    }
  }

  /** With `k` absent, every key from the insertion position on ranks above it. */
  lemma PositionAbove(es: seq<Entry>, k: BitVec)
    requires Ascending(Keys(es)) && !HasKey(es, k)
    ensures forall i | 0 <= i < Position(es, k) :: Less(Keys(es)[i], k)
    ensures forall i | Position(es, k) <= i < |es| :: Less(k, Keys(es)[i])
  {
    var p := Position(es, k);
    forall i | p <= i < |es|
      ensures Less(k, Keys(es)[i])
    {
      assert Keys(es)[i] == es[i].0 && es[i].0 != k;
      LessConnected(k, es[i].0);
    }
  }

  /** Putting `k` between the keys below it and the keys above it keeps an
      ascending sequence ascending. */
  lemma AscendingInsert(olds: seq<BitVec>, ks: seq<BitVec>, k: BitVec, p: nat)
    requires Ascending(olds) && p <= |olds| && |ks| == |olds| + 1
    requires ks[p] == k
    requires forall i | 0 <= i < p :: ks[i] == olds[i]
    requires forall i | p < i < |ks| :: ks[i] == olds[i - 1]
    requires forall i | 0 <= i < p :: Less(olds[i], k)
    requires forall i | p <= i < |olds| :: Less(k, olds[i])
    ensures Ascending(ks)
  {
    forall i, j | 0 <= i < j < |ks|
      ensures Less(ks[i], ks[j])
    {
      if i < p && p < j {
        LessTransitive(olds[i], k, olds[j - 1]);
      }
    }
  }

  /** `std::map::insert` of the entries' keys keeps every earlier entry. */
  lemma InsertKeeps(es: seq<Entry>, k: BitVec, v: BitVec)
    requires Ascending(Keys(es)) && !HasKey(es, k)
    ensures Insert(es, k, v).Some?
    ensures |Insert(es, k, v).value| == |es| + 1
    ensures (k, v) in Insert(es, k, v).value
    ensures forall e | e in es :: e in Insert(es, k, v).value
  {
    var r := Insert(es, k, v).value;
    var p :| 0 <= p <= |es| && r == es[..p] + [(k, v)] + es[p..];
    assert r[p] == (k, v);
    forall e | e in es
      ensures e in r
    {
      var i :| 0 <= i < |es| && es[i] == e;
      if i < p {
        assert r[i] == e;
      } else {
        assert r[i + 1] == e;
      }
    }
  }

  /** A key above every present key goes to the end. */
  lemma InsertAtEnd(es: seq<Entry>, k: BitVec, v: BitVec)
    requires Ascending(Keys(es))
    requires forall i | 0 <= i < |es| :: Less(es[i].0, k)
    ensures Insert(es, k, v) == Some(es + [(k, v)])
  {
    LessIrreflexive(k);
    assert !HasKey(es, k);
    var p := Position(es, k);
    assert p == |es|;
    assert es[..p] == es && es[p..] == [];
    assert es[..p] + [(k, v)] + es[p..] == es + [(k, v)];
  }

  // ---------------------------------------------------------------------
  // Reading a key collection from text

  /** `std::string::find(':')`: the first colon, or `|t|` when none. */
  function FindColon(t: string): (i: nat)
    ensures i <= |t|
    ensures forall k | 0 <= k < i :: t[k] != ':'
    ensures i < |t| ==> t[i] == ':'
  {
    if t == [] || t[0] == ':' then 0
    else
      var i := 1 + FindColon(t[1..]);
      assert forall k | 1 <= k < i :: t[k] == t[1..][k - 1];
      i
  }

  /** The entry a trimmed line describes: `key:value`, or `key` alone with
      the empty default value. The key is parsed first. */
  function ParseLine(t: string, strtoull: string -> ULLParse): Result<Entry>
  {
    var mid := FindColon(t);
    if mid < |t| then ParseKeyValue(t[..mid], t[mid + 1..], strtoull) else ParseKey(t, strtoull)
  }

  /** The text before and after the colon, parsed in that order. */
  function ParseKeyValue(key: string, value: string, strtoull: string -> ULLParse): Result<Entry>
  {
    var k := Parse(key, strtoull);
    if k.Err? then Err(k.msg)
    else
      var v := Parse(value, strtoull);
      if v.Err? then Err(v.msg) else Ok((k.value, v.value))
  }

  /** A line without a colon: the key with the empty default value. */
  function ParseKey(key: string, strtoull: string -> ULLParse): Result<Entry>
  {
    var k := Parse(key, strtoull);
    if k.Err? then Err(k.msg) else Ok((k.value, Empty))
  }

  /** What the read loop has gathered: the entries so far, or the failure
      at a numbered line (counted from 1) with the cause nested in it. */
  datatype LinesOutcome = Entries(es: seq<Entry>) | LineError(lineNum: nat, cause: string)

  /** The message of the rethrown exception, with its nested cause after it. */
  function LineMessage(n: nat, cause: string): string
  {
    "Exception while parsing line " + NatToString(n) + ": " + cause
  }

  /** The failure a single line causes: its own parse error, or else a
      key that is already present. */
  predicate FailsWith(line: string, cause: string, strtoull: string -> ULLParse)
  {
    && Trim(line) != []
    && (ParseLine(Trim(line), strtoull).Err? ==> cause == ParseLine(Trim(line), strtoull).msg)
    && (ParseLine(Trim(line), strtoull).Ok? ==> cause == DuplicateMsg)
  }

  /** Line number `n` read into the entries gathered so far. */
  function Step(es: seq<Entry>, line: string, n: nat, strtoull: string -> ULLParse): (r: LinesOutcome)
    requires Ascending(Keys(es))
    ensures r.Entries? ==> Ascending(Keys(r.es))
    ensures r.Entries? ==> |r.es| == |es| + if Trim(line) == [] then 0 else 1
    ensures r.LineError? ==> r.lineNum == n && FailsWith(line, r.cause, strtoull)
  {
    var t := Trim(line);
    if t == [] then Entries(es)
    else
      match ParseLine(t, strtoull)
      case Err(m) => LineError(n, m)
      case Ok(e) =>
        match Insert(es, e.0, e.1)
        case None => LineError(n, DuplicateMsg)
        case Some(es2) =>
          InsertKeeps(es, e.0, e.1);
          Entries(es2)
  }

  /** Number of lines from index `i` on that are not blank once trimmed. */
  function NonBlank(lines: seq<string>, i: nat): nat
    requires i <= |lines|
    decreases |lines| - i
  {
    if i == |lines| then 0
    else (if Trim(lines[i]) == [] then 0 else 1) + NonBlank(lines, i + 1)
  }

  /** The read loop of `parse_key_value_set` from index `i` on, with the
      entries `es` gathered before it; line `i` is numbered `i + 1`. Every
      line that is not blank adds exactly one entry. */
  function ParseFrom(lines: seq<string>, i: nat, es: seq<Entry>, strtoull: string -> ULLParse): (r: LinesOutcome)
    requires i <= |lines| && Ascending(Keys(es))
    ensures r.Entries? ==> Ascending(Keys(r.es)) && |r.es| == |es| + NonBlank(lines, i)
    ensures r.LineError? ==> i < r.lineNum <= |lines|
    decreases |lines| - i
  {
    if i == |lines| then Entries(es)
    else
      var r := Step(es, lines[i], i + 1, strtoull);
      if r.LineError? then r
      else ParseFrom(lines, i + 1, r.es, strtoull)
  }

  /** A line read successfully hands its entries to the rest of the read. */
  lemma ParseFromStep(lines: seq<string>, i: nat, es: seq<Entry>, strtoull: string -> ULLParse)
    requires i < |lines| && Ascending(Keys(es)) && Step(es, lines[i], i + 1, strtoull).Entries?
    ensures ParseFrom(lines, i, es, strtoull) == ParseFrom(lines, i + 1, Step(es, lines[i], i + 1, strtoull).es, strtoull)
  {
  }

  /** The whole read, from the first line and no entries. */
  function ParseLines(lines: seq<string>, strtoull: string -> ULLParse): (r: LinesOutcome)
  {
    ParseFrom(lines, 0, [], strtoull)
  }

  /** The `try` block's parsing: split at the first colon, key first. */
  method ReadEntry(t: string, strtoull: string -> ULLParse) returns (r: Result<Entry>)
    ensures r == ParseLine(t, strtoull)
  {
    var mid := FindColon(t);
    if mid < |t| {
      var key, value := t[..mid], t[mid + 1..];
      ParseLineColon(t, mid, key, value, strtoull);
      r := ReadKeyValue(key, value, strtoull);
    } else {
      ParseLineNoColon(t, strtoull);
      r := ReadKey(t, strtoull);
    }
  }

  lemma ParseLineColon(t: string, mid: nat, key: string, value: string, strtoull: string -> ULLParse)
    requires mid == FindColon(t) < |t| && key == t[..mid] && value == t[mid + 1..]
    ensures ParseLine(t, strtoull) == ParseKeyValue(key, value, strtoull)
  {
  }

  lemma ParseLineNoColon(t: string, strtoull: string -> ULLParse)
    requires FindColon(t) == |t|
    ensures ParseLine(t, strtoull) == ParseKey(t, strtoull)
  {
  }

  method ReadKeyValue(key: string, value: string, strtoull: string -> ULLParse) returns (r: Result<Entry>)
    ensures r == ParseKeyValue(key, value, strtoull)
  {
    var k := ParseBitVector(key, strtoull);
    if k.Err? {
      return Err(k.msg);
    }
    var v := ParseBitVector(value, strtoull);
    if v.Err? {
      return Err(v.msg);
    }
    return Ok((k.value, v.value));
  }

  method ReadKey(key: string, strtoull: string -> ULLParse) returns (r: Result<Entry>)
    ensures r == ParseKey(key, strtoull)
  {
    var k := ParseBitVector(key, strtoull);
    if k.Err? {
      return Err(k.msg);
    }
    return Ok((k.value, Empty));
  }

  /** The body of the read loop for line number `n`: blank lines are
      skipped, others are parsed and inserted. */
  method ReadLine(entries: seq<Entry>, line: string, n: nat, strtoull: string -> ULLParse) returns (out: LinesOutcome)
    requires Ascending(Keys(entries))
    ensures out == Step(entries, line, n, strtoull)
  {
    var t := Trim(line);
    if t == [] {
      return Entries(entries);
    }
    var e := ReadEntry(t, strtoull);
    if e.Err? {
      return LineError(n, e.msg);
    }
    var inserted := Insert(entries, e.value.0, e.value.1);
    if inserted.None? {
      return LineError(n, DuplicateMsg);
    }
    return Entries(inserted.value);
  }

  /** `parse_key_value_set`: reads the lines, numbering them from 1; a
      failure inside a line is rethrown with its line number, and the
      gathered map goes to the `key_value_set` constructor, which rejects
      overlapping groups. */
  method ParseKeyValueSet(lines: seq<string>, strtoull: string -> ULLParse) returns (r: Result<KeyValueSet>)
    ensures ParseLines(lines, strtoull).LineError? ==>
      var f := ParseLines(lines, strtoull);
      r == Err(LineMessage(f.lineNum, f.cause))
    ensures ParseLines(lines, strtoull).Entries? ==>
      var es := ParseLines(lines, strtoull).es;
      && (r.Err? <==> !PairwiseDisjoint(Keys(es)))
      && (r.Err? ==> r.msg == OverlapMsg)
      && (r.Ok? ==> fresh(r.value) && r.value.Valid() && r.value.entries == es)
  {
    var entries: seq<Entry> := [];
    var lineNum := 0;
    while lineNum < |lines|
      invariant 0 <= lineNum <= |lines| && Ascending(Keys(entries))
      invariant ParseFrom(lines, lineNum, entries, strtoull) == ParseLines(lines, strtoull)
    {
      var line := lines[lineNum];
      var out := ReadLine(entries, line, lineNum + 1, strtoull);
      if out.LineError? {
        return Err(LineMessage(out.lineNum, out.cause));
      }
      lineNum := lineNum + 1;
      entries := out.es;
    }
    r := Build(entries);
  }

  // ---------------------------------------------------------------------
  // Properties of the reader

  /** A line that is read adds its own entry and keeps the earlier ones. */
  lemma StepKeeps(es: seq<Entry>, line: string, n: nat, strtoull: string -> ULLParse)
    requires Ascending(Keys(es)) && Step(es, line, n, strtoull).Entries?
    ensures forall e | e in es :: e in Step(es, line, n, strtoull).es
    ensures Trim(line) != [] ==>
      && ParseLine(Trim(line), strtoull).Ok?
      && ParseLine(Trim(line), strtoull).value in Step(es, line, n, strtoull).es
  {
    var t := Trim(line);
    if t != [] {
      var e := ParseLine(t, strtoull).value;
      InsertKeeps(es, e.0, e.1);
    }
  }

  /** Line `j`, unless blank, parsed and its entry is among `es`. */
  predicate Entered(lines: seq<string>, j: nat, es: seq<Entry>, strtoull: string -> ULLParse)
    requires j < |lines|
  {
    Trim(lines[j]) != [] ==>
      && ParseLine(Trim(lines[j]), strtoull).Ok?
      && ParseLine(Trim(lines[j]), strtoull).value in es
  }

  /** No gathered entry is lost by the rest of a successful read. */
  lemma {:induction false} ParseFromKeepsOld(lines: seq<string>, i: nat, es: seq<Entry>, strtoull: string -> ULLParse)
    requires i <= |lines| && Ascending(Keys(es)) && ParseFrom(lines, i, es, strtoull).Entries?
    ensures forall e | e in es :: e in ParseFrom(lines, i, es, strtoull).es
    decreases |lines| - i
  {
    if i < |lines| {
      var es2 := Step(es, lines[i], i + 1, strtoull).es;
      assert ParseFrom(lines, i, es, strtoull) == ParseFrom(lines, i + 1, es2, strtoull);
      StepKeeps(es, lines[i], i + 1, strtoull);
      ParseFromKeepsOld(lines, i + 1, es2, strtoull);
    }
  }

  /** Every line from `i` on that is not blank contributes its entry to a
      successful read. */
  lemma {:induction false} ParseFromKeeps(lines: seq<string>, i: nat, es: seq<Entry>, strtoull: string -> ULLParse)
    requires i <= |lines| && Ascending(Keys(es)) && ParseFrom(lines, i, es, strtoull).Entries?
    ensures forall j | i <= j < |lines| :: Entered(lines, j, ParseFrom(lines, i, es, strtoull).es, strtoull)
    decreases |lines| - i
  {
    if i < |lines| {
      var es2 := Step(es, lines[i], i + 1, strtoull).es;
      var res := ParseFrom(lines, i, es, strtoull).es;
      assert ParseFrom(lines, i, es, strtoull) == ParseFrom(lines, i + 1, es2, strtoull);
      ParseFromKeeps(lines, i + 1, es2, strtoull);
      forall j | i <= j < |lines|
        ensures Entered(lines, j, res, strtoull)
      {
        if j == i {
          StepKeeps(es, lines[i], i + 1, strtoull);
          ParseFromKeepsOld(lines, i + 1, es2, strtoull);
        }
      }
    }
  }

  /** The entries of a successful read are exactly one per line that is not
      blank: each such line's entry is present, and there are no others. */
  lemma ParseLinesEntries(lines: seq<string>, strtoull: string -> ULLParse)
    requires ParseLines(lines, strtoull).Entries?
    ensures |ParseLines(lines, strtoull).es| == NonBlank(lines, 0)
    ensures forall j | 0 <= j < |lines| :: Entered(lines, j, ParseLines(lines, strtoull).es, strtoull)
  {
    ParseFromKeeps(lines, 0, [], strtoull);
  }

  /** Once key `k` is present, a later line with key `k` fails the read. */
  lemma {:induction false} KeyPresentRejects(lines: seq<string>, i: nat, es: seq<Entry>, l: nat, strtoull: string -> ULLParse)
    requires i <= l < |lines| && Ascending(Keys(es))
    requires Trim(lines[l]) != [] && ParseLine(Trim(lines[l]), strtoull).Ok?
    requires HasKey(es, ParseLine(Trim(lines[l]), strtoull).value.0)
    ensures ParseFrom(lines, i, es, strtoull).LineError?
    decreases l - i
  {
    var k := ParseLine(Trim(lines[l]), strtoull).value.0;
    var r := Step(es, lines[i], i + 1, strtoull);
    if i < l && r.Entries? {
      StepKeeps(es, lines[i], i + 1, strtoull);
      var x :| 0 <= x < |es| && es[x].0 == k;
      assert es[x] in r.es;
      var y :| 0 <= y < |r.es| && r.es[y] == es[x];
      assert HasKey(r.es, k);
      KeyPresentRejects(lines, i + 1, r.es, l, strtoull);
    }
  }

  /** Two lines that are not blank and name the same key make the read fail
      ("Duplicate key value.", or an earlier failure). */
  lemma {:induction false} DuplicateFrom(lines: seq<string>, i: nat, es: seq<Entry>, j: nat, l: nat, strtoull: string -> ULLParse)
    requires i <= j < l < |lines| && Ascending(Keys(es))
    requires Trim(lines[j]) != [] && ParseLine(Trim(lines[j]), strtoull).Ok?
    requires Trim(lines[l]) != [] && ParseLine(Trim(lines[l]), strtoull).Ok?
    requires ParseLine(Trim(lines[j]), strtoull).value.0 == ParseLine(Trim(lines[l]), strtoull).value.0
    ensures ParseFrom(lines, i, es, strtoull).LineError?
    decreases j - i
  {
    var r := Step(es, lines[i], i + 1, strtoull);
    if r.Entries? {
      StepKeeps(es, lines[i], i + 1, strtoull);
      if i < j {
        DuplicateFrom(lines, i + 1, r.es, j, l, strtoull);
      } else {
        var e := ParseLine(Trim(lines[j]), strtoull).value;
        var y :| 0 <= y < |r.es| && r.es[y] == e;
        assert HasKey(r.es, e.0);
        KeyPresentRejects(lines, i + 1, r.es, l, strtoull);
      }
    }
  }

  lemma DuplicateRejected(lines: seq<string>, j: nat, l: nat, strtoull: string -> ULLParse)
    requires j < l < |lines|
    requires Trim(lines[j]) != [] && ParseLine(Trim(lines[j]), strtoull).Ok?
    requires Trim(lines[l]) != [] && ParseLine(Trim(lines[l]), strtoull).Ok?
    requires ParseLine(Trim(lines[j]), strtoull).value.0 == ParseLine(Trim(lines[l]), strtoull).value.0
    ensures ParseLines(lines, strtoull).LineError?
  {
    DuplicateFrom(lines, 0, [], j, l, strtoull);
  }

  // ---------------------------------------------------------------------
  // Printing and reading back

  /** One line of `print` with an empty indent: `key : value`. */
  function PrintLine(e: Entry): string
  {
    ToString(e.0) + " : " + ToString(e.1)
  }

  /** The lines `print` writes, one per entry in key order. */
  function Print(es: seq<Entry>): seq<string>
  {
    seq(|es|, i requires 0 <= i < |es| => PrintLine(es[i]))
  }

  predicate TokenChar(c: char)
  {
    c == '0' || c == '1' || c == 'u' || c == 'b'
  }

  lemma ToStringToken(v: BitVec)
    ensures IsToken(ToString(v))
  {
    var t := ToString(v);
    if |v.bits| > 0 {
      var d := Digits(v.bits);
      forall i | 0 <= i < |t|
        ensures TokenChar(t[i])
      {
        if i >= 2 {
          assert t[i] == d[i - 2] == TritChar(v.bits[|d| - 1 - (i - 2)]);
        }
      }
    }
  }

  predicate IsToken(s: string)
  {
    |s| > 0 && forall i | 0 <= i < |s| :: TokenChar(s[i])
  }

  lemma LowerToken(s: string)
    requires IsToken(s)
    ensures Lower(s) == s
  {
  }

  /** A token is its own trim, also with one blank on either side. */
  lemma TrimToken(s: string)
    requires IsToken(s)
    ensures Trim(s) == s
  {
    LowerToken(s);
    assert LeadingBlanks(s) == 0;
    assert s[0..] == s;
    assert TrailingStart(s) == |s|;
    assert s[0..|s|] == s;
  }

  lemma TrimTokenRight(s: string)
    requires IsToken(s)
    ensures Trim(s + " ") == s
  {
    var r := s + " ";
    LowerToken(s);
    assert LeadingBlanks(r) == 0;
    assert r[0..] == r;
    assert r[..|r| - 1] == s;
    assert TrailingStart(r) == |s|;
    assert r[0..|s|] == s;
  }

  lemma TrimTokenLeft(s: string)
    requires IsToken(s)
    ensures Trim(" " + s) == s
  {
    var l := " " + s;
    LowerToken(s);
    assert l[1..] == s;
    assert LeadingBlanks(l) == 1;
    assert TrailingStart(s) == |s|;
    assert l[1..1 + |s|] == s;
  }

  /** `parse_bit_vector` reads only the trimmed text. */
  lemma ParseSameTrim(x: string, y: string, strtoull: string -> ULLParse)
    requires Trim(x) == Trim(y)
    ensures Parse(x, strtoull) == Parse(y, strtoull)
  {
  }

  /** A printed value reads back, also with a blank on either side. */
  lemma ParsePadded(v: BitVec, strtoull: string -> ULLParse)
    ensures Parse(ToString(v) + " ", strtoull) == Ok(v)
    ensures Parse(" " + ToString(v), strtoull) == Ok(v)
  {
    ToStringToken(v);
    TrimToken(ToString(v));
    TrimTokenRight(ToString(v));
    TrimTokenLeft(ToString(v));
    ParseToString(v, strtoull);
    ParseSameTrim(ToString(v) + " ", ToString(v), strtoull);
    ParseSameTrim(" " + ToString(v), ToString(v), strtoull);
  }

  /** A line holding only a printed key reads as that key with the empty
      default value. */
  lemma ParseKeyOnly(k: BitVec, strtoull: string -> ULLParse)
    ensures ParseLine(Trim(ToString(k)), strtoull) == Ok((k, Empty))
  {
    var t := ToString(k);
    ToStringToken(k);
    TrimToken(t);
    ParseToString(k, strtoull);
    assert FindColon(t) == |t|;
  }

  /** The colon of a printed line is the one after the key and its blank. */
  lemma ColonOfPrintLine(e: Entry)
    ensures |ToString(e.0)| + 1 == FindColon(PrintLine(e)) < |PrintLine(e)|
    ensures PrintLine(e)[..|ToString(e.0)| + 1] == ToString(e.0) + " "
    ensures PrintLine(e)[|ToString(e.0)| + 2..] == " " + ToString(e.1)
  {
    var key := ToString(e.0);
    var t := PrintLine(e);
    ToStringToken(e.0);
    var m := |key| + 1;
    assert t[m] == ':';
    forall i | 0 <= i < m
      ensures t[i] != ':'
    {
      if i < |key| {
        assert t[i] == key[i];
      }
    }
    assert t[..m] == key + " ";
    assert t[m + 1..] == " " + ToString(e.1);
  }

  /** A printed line reads back as the entry it came from. */
  lemma ParsePrintLine(e: Entry, strtoull: string -> ULLParse)
    ensures Trim(PrintLine(e)) == PrintLine(e)
    ensures ParseLine(PrintLine(e), strtoull) == Ok(e)
  {
    var t := PrintLine(e);
    var m := |ToString(e.0)| + 1;
    ColonOfPrintLine(e);
    ParseLineColon(t, m, ToString(e.0) + " ", " " + ToString(e.1), strtoull);
    ParsePadded(e.0, strtoull);
    ParsePadded(e.1, strtoull);
    TrimPrintLine(e);
  }

  lemma TrimPrintLine(e: Entry)
    ensures Trim(PrintLine(e)) == PrintLine(e)
  {
    var key := ToString(e.0);
    var value := ToString(e.1);
    var t := PrintLine(e);
    ToStringToken(e.0);
    ToStringToken(e.1);
    assert t[0] == key[0] && t[|t| - 1] == value[|value| - 1];
    assert LeadingBlanks(t) == 0;
    assert t[0..] == t;
    assert TrailingStart(t) == |t|;
    assert t[0..|t|] == t;
    forall i | 0 <= i < |t|
      ensures ToLower(t[i]) == t[i]
    {
      if i < |key| {
        assert t[i] == key[i];
      } else if i >= |key| + 3 {
        assert t[i] == value[i - |key| - 3];
      }
    }
    assert Lower(t) == t;
  }

  /** A printed line whose key ranks above every gathered key appends its
      entry. */
  lemma StepPrinted(init: seq<Entry>, e: Entry, n: nat, strtoull: string -> ULLParse)
    requires Ascending(Keys(init))
    requires forall a | 0 <= a < |init| :: Less(init[a].0, e.0)
    ensures Step(init, PrintLine(e), n, strtoull) == Entries(init + [e])
  {
    ParsePrintLine(e, strtoull);
    InsertAtEnd(init, e.0, e.1);
  }

  lemma AscendingPrefix(es: seq<Entry>, i: nat)
    requires Ascending(Keys(es)) && i <= |es|
    ensures Ascending(Keys(es[..i]))
    ensures i < |es| ==> forall a | 0 <= a < i :: Less(es[..i][a].0, es[i].0)
  {
    assert forall a | 0 <= a < i :: Keys(es[..i])[a] == Keys(es)[a] == es[..i][a].0;
    if i < |es| {
      assert Keys(es)[i] == es[i].0;
    }
  }

  lemma PrefixSnoc(es: seq<Entry>, i: nat)
    requires i < |es|
    ensures es[..i] + [es[i]] == es[..i + 1]
  {
  }

  /** Reading the printed lines of ascending entries, from line `i` on with
      the first `i` entries gathered, gives back all the entries. */
  lemma {:induction false} ParsePrintFrom(es: seq<Entry>, i: nat, strtoull: string -> ULLParse)
    requires Ascending(Keys(es)) && i <= |es|
    ensures Ascending(Keys(es[..i]))
    ensures ParseFrom(Print(es), i, es[..i], strtoull) == Entries(es)
    decreases |es| - i
  {
    AscendingPrefix(es, i);
    if i == |es| {
      assert es[..i] == es;
    } else {
      var lines := Print(es);
      var next := es[..i + 1];
      assert Step(es[..i], lines[i], i + 1, strtoull) == Entries(next) by {
        assert lines[i] == PrintLine(es[i]);
        StepPrinted(es[..i], es[i], i + 1, strtoull);
        PrefixSnoc(es, i);
      }
      assert Ascending(Keys(next)) && ParseFrom(lines, i + 1, next, strtoull) == Entries(es) by {
        ParsePrintFrom(es, i + 1, strtoull);
      }
      ParseFromStep(lines, i, es[..i], strtoull);
    }
  }

  /** `parse_key_value_set` of what `print` writes gives back the entries. */
  lemma ParsePrint(es: seq<Entry>, strtoull: string -> ULLParse)
    requires Ascending(Keys(es))
    ensures ParseLines(Print(es), strtoull) == Entries(es)
  {
    ParsePrintFrom(es, 0, strtoull);
    assert es[..0] == [];
  }
}
