/** The text form of a `BitHash`: `print` writes it and `parse_bit_hash`
    reads it back. Both work on the whitespace-separated words of the text;
    the line breaks and the indentation `print` adds are not part of it. */
module BitHashText {
  import opened Wrappers
  import opened Arith
  import opened BitVectors
  import opened Decimal
  import opened BitHashes

  // ---------------------------------------------------------------------
  // Printing

  function NatWords(s: seq<nat>): (w: seq<string>)
    ensures |w| == |s|
  {
    seq(|s|, i requires 0 <= i < |s| => NatToString(s[i]))
  }

  /** `table::print`: the header, the selectors and the lut as a bit vector. */
  function TableWords(t: Table, idx: nat): seq<string>
    requires TableWellFormed(t)
  {
    ["table", NatToString(idx), NatToString(|t.selectors|), "sel"] + NatWords(t.selectors)
      + ["lut", ToString(Trimmed(t.lut))]
  }

  /** The tables from index `from` on, each printed with its own index. */
  function TablesWords(ts: seq<Table>, from: nat): seq<string>
    requires forall i | 0 <= i < |ts| :: TableWellFormed(ts[i])
  {
    if ts == [] then [] else TableWords(ts[0], from) + TablesWords(ts[1..], from + 1)
  }

  /** `BitHash::print`. */
  function PrintWords(bh: BitHash): seq<string>
    requires BitHashes.WellFormed(bh)
  {
    ["BitHashBegin", NatToString(bh.wO), NatToString(bh.wI)] + TablesWords(bh.tables, 0) + ["BitHashEnd"]
  }

  // ---------------------------------------------------------------------
  // Reading. A failed read leaves the stream without input, so every later
  // read sees the end of the input.

  /** `src >> tmp` into a string: the next word, or "" at the end. */
  function ReadWord(ws: seq<string>): (string, seq<string>)
  {
    if ws == [] then ("", []) else (ws[0], ws[1..])
  }

  /** `src >> n` into an unsigned: a word of digits gives its value; any
      other word, or the end of the input, gives 0 and fails the stream. */
  function ReadNat(ws: seq<string>): (r: (nat, seq<string>))
    ensures |r.1| < |ws| || r.1 == []
  {
    if ws != [] && ParseNat(ws[0]).Some? then (ParseNat(ws[0]).value, ws[1..]) else (0, [])
  }

  /** `count` unsigned reads in a row. */
  function ReadNats(ws: seq<string>, count: nat): (r: (seq<nat>, seq<string>))
    ensures |r.0| == count
    decreases count
  {
    if count == 0 then ([], ws)
    else
      var first := ReadNat(ws);
      var more := ReadNats(first.1, count - 1);
      ([first.0] + more.0, more.1)
  }

  function ExpectMsg(str: string, got: string): string
  {
    "Expected string '" + str + "' but got '" + got + "'"
  }

  const CorruptMsg := "Persisted bit hash is corrupt."

  /** The `expect` lambda: the next word must be `str`. */
  function Expect(ws: seq<string>, str: string): (r: Result<seq<string>>)
  {
    var w := ReadWord(ws);
    if w.0 == "" || w.0 != str then Err(ExpectMsg(str, w.0)) else Ok(w.1)
  }

  /** The lut of a table with `wa` selectors, read entry by entry from the
      persisted bit vector. */
  function LutOf(bv: BitVec, wa: nat): (lut: seq<int>)
    ensures |lut| == Pow2(wa)
  {
    seq(Pow2(wa), j requires 0 <= j => At(bv, j))
  }

  /** One pass of the table loop of `parse_bit_hash`, for table `i`. */
  function ReadTable(ws: seq<string>, i: nat, strtoull: string -> ULLParse): Result<(Table, seq<string>)>
  {
    var e := Expect(ws, "table");
    if e.Err? then Err(e.msg)
    else
      var idx := ReadNat(e.value);
      var wa := ReadNat(idx.1);
      if idx.0 != i then Err(CorruptMsg)
      else
        var e2 := Expect(wa.1, "sel");
        if e2.Err? then Err(e2.msg)
        else
          var sel := ReadNats(e2.value, wa.0);
          var e3 := Expect(sel.1, "lut");
          if e3.Err? then Err(e3.msg)
          else
            var w := ReadWord(e3.value);
            var bv := Parse(w.0, strtoull);
            if bv.Err? then Err(bv.msg)
            else Ok((Table(sel.0, LutOf(bv.value, wa.0)), w.1))
  }

  /** Tables `i` up to `wO`, appended to those already read. */
  function ReadTables(ws: seq<string>, i: nat, wO: nat, acc: seq<Table>, strtoull: string -> ULLParse)
    : Result<(seq<Table>, seq<string>)>
    decreases wO - i
  {
    if i >= wO then Ok((acc, ws))
    else
      var t := ReadTable(ws, i, strtoull);
      if t.Err? then Err(t.msg) else ReadTables(t.value.1, i + 1, wO, acc + [t.value.0], strtoull)
  }

  /** `parse_bit_hash`, as a function of the words of the input. */
  function ParseBitHash(ws: seq<string>, strtoull: string -> ULLParse): Result<BitHash>
  {
    var e := Expect(ws, "BitHashBegin");
    if e.Err? then Err(e.msg)
    else
      var wO := ReadNat(e.value);
      var wI := ReadNat(wO.1);
      var ts := ReadTables(wI.1, 0, wO.0, [], strtoull);
      if ts.Err? then Err(ts.msg)
      else
        var e2 := Expect(ts.value.1, "BitHashEnd");
        if e2.Err? then Err(e2.msg) else Ok(BitHash(wI.0, wO.0, ts.value.0))
  }

  // ---------------------------------------------------------------------
  // The reader as the source writes it: loops filling vectors in place.

  /** `t.selectors.resize(wa)`, then one read per selector. */
  method ReadSelectors(ws: seq<string>, wa: nat) returns (sel: seq<nat>, rest: seq<string>)
    ensures (sel, rest) == ReadNats(ws, wa)
  {
    sel := seq(wa, _ => 0);
    rest := ws;
    var j := 0;
    assert sel[..0] == [];
    while j < wa
      invariant 0 <= j <= wa && |sel| == wa
      invariant ReadNats(ws, wa).0 == sel[..j] + ReadNats(rest, wa - j).0
      invariant ReadNats(ws, wa).1 == ReadNats(rest, wa - j).1
    {
      var r := ReadNat(rest);
      ghost var more := ReadNats(r.1, wa - j - 1);
      assert ReadNats(rest, wa - j) == ([r.0] + more.0, more.1);
      ghost var prev := sel;
      sel := sel[j := r.0];
      assert sel[..j + 1] == prev[..j] + [r.0];
      rest := r.1;
      j := j + 1;
    }
    assert sel[..wa] == sel;
    assert ReadNats(rest, 0) == ([], rest);
    assert sel[..wa] + [] == sel;
  }

  /** `t.lut.resize(1<<wa)`, then `t.lut[j] = bv[j]` for every entry. */
  method FillLut(bv: BitVec, wa: nat) returns (lut: seq<int>)
    ensures lut == LutOf(bv, wa)
  {
    lut := seq(Pow2(wa), _ => 0);
    var j := 0;
    while j < |lut|
      invariant 0 <= j <= |lut| == Pow2(wa)
      invariant forall k | 0 <= k < j :: lut[k] == At(bv, k)
    {
      lut := lut[j := At(bv, j)];
      j := j + 1;
    }
  }

  method ReadTableSteps(ws: seq<string>, i: nat, strtoull: string -> ULLParse)
    returns (r: Result<(Table, seq<string>)>)
    ensures r == ReadTable(ws, i, strtoull)
  {
    var e := Expect(ws, "table");
    if e.Err? {
      return Err(e.msg);
    }
    var idx := ReadNat(e.value);
    var wa := ReadNat(idx.1);
    if idx.0 != i {
      return Err(CorruptMsg);
    }
    var e2 := Expect(wa.1, "sel");
    if e2.Err? {
      return Err(e2.msg);
    }
    var sel, rest := ReadSelectors(e2.value, wa.0);
    var e3 := Expect(rest, "lut");
    if e3.Err? {
      return Err(e3.msg);
    }
    var w := ReadWord(e3.value);
    var bv := ParseBitVector(w.0, strtoull);
    if bv.Err? {
      return Err(bv.msg);
    }
    var lut := FillLut(bv.value, wa.0);
    return Ok((Table(sel, lut), w.1));
  }

  /** The table loop of `parse_bit_hash`: `wO` tables, each checked
      against its index. */
  method ReadTablesSteps(ws: seq<string>, wO: nat, strtoull: string -> ULLParse)
    returns (r: Result<(seq<Table>, seq<string>)>)
    ensures r == ReadTables(ws, 0, wO, [], strtoull)
  {
    var tables: seq<Table> := [];
    var rest := ws;
    var i := 0;
    while i < wO
      invariant 0 <= i <= wO
      invariant ReadTables(ws, 0, wO, [], strtoull) == ReadTables(rest, i, wO, tables, strtoull)
    {
      var t := ReadTableSteps(rest, i, strtoull);
      if t.Err? {
        return Err(t.msg);
      }
      tables := tables + [t.value.0];
      rest := t.value.1;
      i := i + 1;
    }
    return Ok((tables, rest));
  }

  /** `parse_bit_hash`: the header, one table per output bit, the trailer. */
  method ParseBitHashSteps(ws: seq<string>, strtoull: string -> ULLParse) returns (r: Result<BitHash>)
    ensures r == ParseBitHash(ws, strtoull)
  {
    var e := Expect(ws, "BitHashBegin");
    if e.Err? {
      return Err(e.msg);
    }
    var wO := ReadNat(e.value);
    var wI := ReadNat(wO.1);
    var ts := ReadTablesSteps(wI.1, wO.0, strtoull);
    if ts.Err? {
      return Err(ts.msg);
    }
    var e2 := Expect(ts.value.1, "BitHashEnd");
    if e2.Err? {
      return Err(e2.msg);
    }
    return Ok(BitHash(wI.0, wO.0, ts.value.0));
  }

  // ---------------------------------------------------------------------
  // Round trip and rejection

  lemma Prepend4<T>(a: T, b: T, c: T, d: T, rest: seq<T>)
    ensures [a, b, c, d] + rest == [a] + ([b] + ([c] + ([d] + rest)))
  {
  }

  lemma Prepend5<T>(a: T, b: T, c: T, d: T, e: T, rest: seq<T>)
    ensures [a, b, c, d, e] + rest == [a] + ([b] + ([c] + ([d] + ([e] + rest))))
  {
  }

  lemma ReadNatWord(n: nat, rest: seq<string>)
    ensures ReadNat([NatToString(n)] + rest) == (n, rest)
  {
    ParseNatToString(n);
    assert ([NatToString(n)] + rest)[1..] == rest;
  }

  lemma {:induction false} ReadNatsWords(s: seq<nat>, rest: seq<string>)
    ensures ReadNats(NatWords(s) + rest, |s|) == (s, rest)
  {
    if s == [] {
      assert NatWords(s) + rest == rest;
    } else {
      var ws := NatWords(s) + rest;
      assert ws == [NatToString(s[0])] + (NatWords(s[1..]) + rest) by {
        assert NatWords(s) == [NatToString(s[0])] + NatWords(s[1..]);
      }
      ReadNatWord(s[0], NatWords(s[1..]) + rest);
      ReadNatsWords(s[1..], rest);
      assert ReadNat(ws) == (s[0], NatWords(s[1..]) + rest);
      assert ReadNats(ws, |s|) == ([s[0]] + s[1..], rest);
      assert [s[0]] + s[1..] == s;
    }
  }

  /** Reading back the printed bit vector gives every lut entry. */
  lemma LutOfTrimmed(lut: seq<int>, wa: nat)
    requires |lut| == Pow2(wa) && AllTrits(lut)
    ensures LutOf(Trimmed(lut), wa) == lut
  {
    var l := LutOf(Trimmed(lut), wa);
    forall j | 0 <= j < |lut|
      ensures l[j] == lut[j]
    {
      assert At(Trimmed(lut), j) == Get(lut, j);
    }
  }

  lemma ReadTableWords(t: Table, i: nat, rest: seq<string>, strtoull: string -> ULLParse)
    requires TableWellFormed(t)
    ensures ReadTable(TableWords(t, i) + rest, i, strtoull) == Ok((t, rest))
  {
    var n := |t.selectors|;
    var lutWord := ToString(Trimmed(t.lut));
    var r4 := [lutWord] + rest;
    var r3 := ["lut"] + r4;
    var r2 := NatWords(t.selectors) + r3;
    var r1 := [NatToString(n)] + (["sel"] + r2);
    var ws := ["table"] + ([NatToString(i)] + r1);
    assert TableWords(t, i) + rest == ws;
    assert Expect(ws, "table") == Ok([NatToString(i)] + r1);
    ReadNatWord(i, r1);
    ReadNatWord(n, ["sel"] + r2);
    assert Expect(["sel"] + r2, "sel") == Ok(r2);
    ReadNatsWords(t.selectors, r3);
    assert Expect(r3, "lut") == Ok(r4);
    assert ReadWord(r4) == (lutWord, rest);
    ParseToString(Trimmed(t.lut), strtoull);
    LutOfTrimmed(t.lut, n);
  }

  lemma {:induction false} ReadTablesWords(ts: seq<Table>, i: nat, wO: nat, acc: seq<Table>,
                                           rest: seq<string>, strtoull: string -> ULLParse)
    requires forall k | 0 <= k < |ts| :: TableWellFormed(ts[k])
    requires wO == i + |ts|
    ensures ReadTables(TablesWords(ts, i) + rest, i, wO, acc, strtoull) == Ok((acc + ts, rest))
    decreases |ts|
  {
    if ts == [] {
      assert acc + ts == acc;
      assert TablesWords(ts, i) + rest == rest;
    } else {
      var tail := TablesWords(ts[1..], i + 1) + rest;
      assert TablesWords(ts, i) + rest == TableWords(ts[0], i) + tail;
      ReadTableWords(ts[0], i, tail, strtoull);
      ReadTablesWords(ts[1..], i + 1, wO, acc + [ts[0]], rest, strtoull);
      assert acc + [ts[0]] + ts[1..] == acc + ts;
    }
  }

  /** What `print` writes, `parse_bit_hash` reads back, whatever follows. */
  lemma ParsePrint(bh: BitHash, rest: seq<string>, strtoull: string -> ULLParse)
    requires BitHashes.WellFormed(bh)
    ensures ParseBitHash(PrintWords(bh) + rest, strtoull) == Ok(bh)
  {
    var tail := ["BitHashEnd"] + rest;
    var r2 := TablesWords(bh.tables, 0) + tail;
    var r1 := [NatToString(bh.wI)] + r2;
    var ws := ["BitHashBegin"] + ([NatToString(bh.wO)] + r1);
    assert PrintWords(bh) + rest == ws;
    assert Expect(ws, "BitHashBegin") == Ok([NatToString(bh.wO)] + r1);
    ReadNatWord(bh.wO, r1);
    ReadNatWord(bh.wI, r2);
    ReadTablesWords(bh.tables, 0, bh.wO, [], tail, strtoull);
    assert [] + bh.tables == bh.tables;
    assert Expect(tail, "BitHashEnd") == Ok(rest);
  }

  /** Input that does not open with `BitHashBegin` is refused, naming the
      word found instead. */
  lemma ParseRejectsHeader(ws: seq<string>, strtoull: string -> ULLParse)
    requires ws == [] || ws[0] != "BitHashBegin"
    ensures ParseBitHash(ws, strtoull) == Err(ExpectMsg("BitHashBegin", if ws == [] then "" else ws[0]))
  {
  }

  /** A first table that carries another index than 0 is refused as corrupt. */
  lemma ParseRejectsIndex(wO: nat, wI: nat, idx: nat, rest: seq<string>, strtoull: string -> ULLParse)
    requires wO > 0 && idx != 0
    ensures ParseBitHash(["BitHashBegin", NatToString(wO), NatToString(wI), "table", NatToString(idx)] + rest,
                         strtoull) == Err(CorruptMsg)
  {
    var r3 := [NatToString(idx)] + rest;
    var r2 := ["table"] + r3;
    var r1 := [NatToString(wI)] + r2;
    var ws := ["BitHashBegin"] + ([NatToString(wO)] + r1);
    Prepend5("BitHashBegin", NatToString(wO), NatToString(wI), "table", NatToString(idx), rest);
    ReadNatWord(wO, r1);
    ReadNatWord(wI, r2);
    ReadNatWord(idx, rest);
    assert Expect(r2, "table") == Ok(r3);
    assert ReadTable(r2, 0, strtoull) == Err(CorruptMsg);
    assert ReadTables(r2, 0, wO, [], strtoull) == Err(CorruptMsg);
  }

  /** A table whose header word is not `table` is refused. */
  lemma ParseRejectsTableWord(wO: nat, wI: nat, w: string, rest: seq<string>, strtoull: string -> ULLParse)
    requires wO > 0 && w != "table"
    ensures ParseBitHash(["BitHashBegin", NatToString(wO), NatToString(wI), w] + rest, strtoull)
            == Err(ExpectMsg("table", w))
  {
    var r2 := [w] + rest;
    var r1 := [NatToString(wI)] + r2;
    var ws := ["BitHashBegin"] + ([NatToString(wO)] + r1);
    Prepend4("BitHashBegin", NatToString(wO), NatToString(wI), w, rest);
    ReadNatWord(wO, r1);
    ReadNatWord(wI, r2);
    assert Expect(r2, "table") == Err(ExpectMsg("table", w));
  }
}
