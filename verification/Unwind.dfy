/** The table that takes a host pc inside a translation block back to the guest instruction
    (libcpu/src/precise-pc.c).

    The translator leaves one row per guest instruction: `words` words of guest state, the first
    of them the guest pc, and the offset where the instruction's host code ends. Rows are stored
    as SLEB128 differences to the previous row.
 */
module Unwind {
  import opened Wrappers
  import opened Arith
  import opened Masks
  import opened Sleb128

  const GETPC_ADJ: nat := 2
  const HOST: nat := 0x1_0000_0000_0000_0000

  datatype Row = Row(data: seq<nat>, end: nat)

  /** Target words fit `bits` bits, offsets fit 16. */
  ghost predicate RowOk(row: Row, words: nat, bits: nat) {
    |row.data| == words && row.end < 0x1_0000 && forall j | 0 <= j < words :: row.data[j] < Pow2(bits)
  }

  ghost predicate RowsOk(rows: seq<Row>, words: nat, bits: nat) {
    forall i | 0 <= i < |rows| :: RowOk(rows[i], words, bits)
  }

  /** The row that the first row is a difference to. */
  function Seed(pc: nat, words: nat): (r: Row)
    ensures |r.data| == words
  {
    Row(seq(words, j => if j == 0 then pc else 0), 0)
  }

  // ---- Encoding ----

  /** The difference of two target words, as the signed number that is stored. */
  function Delta(now: nat, prev: nat, bits: nat): int {
    var d: int := now;
    Signed(d - prev, bits)
  }

  function DataBytes(prev: seq<nat>, data: seq<nat>, bits: nat): seq<Byte>
    requires |prev| == |data|
  {
    if data == [] then [] else Encode(Delta(data[0], prev[0], bits)) + DataBytes(prev[1..], data[1..], bits)
  }

  function RowBytes(prev: Row, row: Row, bits: nat): seq<Byte>
    requires |prev.data| == |row.data|
  {
    DataBytes(prev.data, row.data, bits) + Encode(row.end - prev.end)
  }

  /** The first row is stored as differences to the block's pc, to zeros and to offset 0. */
  lemma FirstRow(row: Row, pc: nat, words: nat, bits: nat)
    requires |row.data| == words > 0
    ensures RowBytes(Seed(pc, words), row, bits) ==
            Encode(Delta(row.data[0], pc, bits)) + DataBytes(seq(words - 1, _ => 0), row.data[1..], bits) + Encode(row.end)
  {
    hide Encode, Delta;
    assert Seed(pc, words).data[1..] == seq(words - 1, _ => 0);
  }

  function TableBytes(prev: Row, rows: seq<Row>, bits: nat): seq<Byte>
    requires forall i | 0 <= i < |rows| :: |rows[i].data| == |prev.data|
    decreases |rows|
  {
    if rows == [] then [] else RowBytes(prev, rows[0], bits) + TableBytes(rows[0], rows[1..], bits)
  }

  lemma {:induction false} DataBytesAppend(prev: seq<nat>, data: seq<nat>, bits: nat, j: nat)
    requires |prev| == |data| && j < |data|
    ensures DataBytes(prev[..j + 1], data[..j + 1], bits) == DataBytes(prev[..j], data[..j], bits) + Encode(Delta(data[j], prev[j], bits))
  {
    hide Encode, Delta;
    if j == 0 {
      assert data[..1][1..] == [] && prev[..1][1..] == [];
      assert DataBytes([], [], bits) == [];
      assert DataBytes(prev[..1], data[..1], bits) == Encode(Delta(data[0], prev[0], bits)) + DataBytes([], [], bits);
    } else {
      DataBytesAppend(prev[1..], data[1..], bits, j - 1);
      assert data[..j + 1][1..] == data[1..][..j] && prev[..j + 1][1..] == prev[1..][..j];
      assert data[..j][1..] == data[1..][..j - 1] && prev[..j][1..] == prev[1..][..j - 1];
    }
  }

  /** The inner loop of encode_search and the end offset. */
  method EncodeRow(prev: Row, row: Row, bits: nat) returns (s: seq<Byte>)
    requires |prev.data| == |row.data|
    ensures s == RowBytes(prev, row, bits)
  {
    hide Encode, Delta;
    s := [];
    for j := 0 to |row.data|
      invariant s == DataBytes(prev.data[..j], row.data[..j], bits)
    {
      DataBytesAppend(prev.data, row.data, bits, j);
      var e := EncodeSleb128(Delta(row.data[j], prev.data[j], bits));
      s := s + e;
    }
    assert prev.data[..|row.data|] == prev.data && row.data[..|row.data|] == row.data;
    var e := EncodeSleb128(row.end - prev.end);
    s := s + e;
  }

  lemma {:induction false} TableBytesAppend(prev: Row, rows: seq<Row>, bits: nat, i: nat)
    requires (forall i | 0 <= i < |rows| :: |rows[i].data| == |prev.data|) && i < |rows|
    decreases i
    ensures TableBytes(prev, rows[..i + 1], bits)
         == TableBytes(prev, rows[..i], bits) + RowBytes(if i == 0 then prev else rows[i - 1], rows[i], bits)
  {
    hide RowBytes;
    if i == 0 {
      assert rows[..1][1..] == [] && rows[..0] == [];
      assert TableBytes(rows[0], [], bits) == [];
    } else {
      TableBytesAppend(rows[0], rows[1..], bits, i - 1);
      assert rows[..i + 1][1..] == rows[1..][..i] && rows[..i][1..] == rows[1..][..i - 1];
    }
  }

  lemma {:induction false} TablePrefix(prev: Row, rows: seq<Row>, bits: nat, i: nat)
    requires (forall i | 0 <= i < |rows| :: |rows[i].data| == |prev.data|) && i <= |rows|
    ensures |TableBytes(prev, rows[..i], bits)| <= |TableBytes(prev, rows, bits)|
    decreases |rows| - i
  {
    if i == |rows| {
      assert rows[..i] == rows;
    } else {
      TableBytesAppend(prev, rows, bits, i);
      TablePrefix(prev, rows, bits, i + 1);
    }
  }

  /** encode_search: the table, or a failure if and only if it would end beyond the high water mark. */
  method EncodeSearch(rows: seq<Row>, pc: nat, words: nat, bits: nat, block: nat, highwater: nat) returns (r: Option<seq<Byte>>)
    requires forall i | 0 <= i < |rows| :: |rows[i].data| == words
    ensures r == if rows == [] || block + |TableBytes(Seed(pc, words), rows, bits)| <= highwater
                 then Some(TableBytes(Seed(pc, words), rows, bits)) else None
  {
    hide RowBytes;
    var seed, s := Seed(pc, words), [];
    for i := 0 to |rows|
      invariant s == TableBytes(seed, rows[..i], bits) && (i > 0 ==> block + |s| <= highwater)
    {
      TableBytesAppend(seed, rows, bits, i);
      var e := EncodeRow(if i == 0 then seed else rows[i - 1], rows[i], bits);
      s := s + e;
      if block + |s| > highwater {
        TablePrefix(seed, rows, bits, i + 1);
        return None;
      }
    }
    assert rows[..|rows|] == rows;
    r := Some(s);
  }

  // ---- Decoding ----

  /** `s` holds bytes `e` at position `p`. */
  predicate At(s: seq<Byte>, p: nat, e: seq<Byte>) {
    p + |e| <= |s| && s[p..p + |e|] == e
  }

  lemma AtSplit(s: seq<Byte>, p: nat, e: seq<Byte>, f: seq<Byte>)
    requires At(s, p, e + f)
    ensures At(s, p, e) && At(s, p + |e|, f)
  {
    var t := s[p..p + |e + f|];
    assert t[..|e|] == e && t[|e|..] == f;
    assert s[p..p + |e|] == t[..|e|] && s[p + |e|..p + |e| + |f|] == t[|e|..];
  }

  /** data[j] += delta in the target's unsigned arithmetic undoes the difference. */
  lemma Telescopes(prev: nat, now: nat, bits: nat)
    requires now < Pow2(bits) && bits > 0
    ensures (prev + Delta(now, prev, bits)) % Pow2(bits) == now && Fits(Delta(now, prev, bits), bits)
  {
    hide Pow2;
    var m: nat, d: int := Pow2(bits), now;
    d := d - prev;
    var k := SignedIs(d, bits);
    ModShift(prev + Signed(d, bits), k, m);
    ModUnique(now, 0, now, m);
  }

  lemma SignedIs(x: int, bits: nat) returns (k: int)
    requires bits > 0
    ensures Signed(x, bits) + k * Pow2(bits) == x && Fits(Signed(x, bits), bits)
  {
    var m := Pow2(bits);
    k := x / m;
    assert x == m * k + x % m;
    assert m == 2 * Pow2(bits - 1);
    if 2 * (x % m) >= m {
      k := k + 1;
      assert k * m == (x / m) * m + m;
    }
  }

  /** data[j] += decode_sleb128(&p) */
  method DecodeWord(s: seq<Byte>, p: nat, word: nat, bits: nat, ghost now: nat) returns (word': nat, p': nat)
    requires bits > 0 && now < Pow2(bits) && At(s, p, Encode(Delta(now, word, bits)))
    ensures word' == now && p' == p + |Encode(Delta(now, word, bits))|
  {
    hide Encode, Delta, End, Value, Pow2, Fits;
    Telescopes(word, now, bits);
    RoundTrip(Delta(now, word, bits), bits, s, p);
    var v;
    v, p' := DecodeSleb128(s, p, bits);
    word' := (word + v) % Pow2(bits);
  }

  lemma EndFits(a: nat, b: nat, bits: nat)
    requires a < 0x1_0000 && b < 0x1_0000 && bits >= 32
    ensures var d: int := a; Fits(d - b, bits)
  {
    Pow2Values();
    Pow2Up(32, bits);
  }

  /** One round of the loops that walk the table: from the state of one row to the state of the next. */
  method DecodeRow(s: seq<Byte>, p: nat, data: seq<nat>, bits: nat, ghost prev: Row, ghost row: Row)
    returns (data': seq<nat>, delta: int, p': nat)
    requires bits >= 32 && data == prev.data && RowOk(row, |data|, bits) && prev.end < 0x1_0000
    requires At(s, p, RowBytes(prev, row, bits))
    ensures data' == row.data && delta == row.end - prev.end && p' == p + |RowBytes(prev, row, bits)|
  {
    hide Encode, Delta, End, Value, Pow2, Fits, DataBytes, DataRest;
    data', p' := data, p;
    AtSplit(s, p, DataBytes(prev.data, row.data, bits), Encode(row.end - prev.end));
    DataNone(bits);
    assert data[..0] == [] && row.data[..0] == [];
    for j := 0 to |data|
      invariant |data'| == |data| && data'[j..] == data[j..] && data'[..j] == row.data[..j]
      invariant p' == p + |DataBytes(data[..j], row.data[..j], bits)|
    {
      DataPart(data, row.data, bits, j);
      AtSplit(s, p, DataBytes(data[..j + 1], row.data[..j + 1], bits), DataRest(data, row.data, bits, j + 1));
      AtSplit(s, p, DataBytes(data[..j], row.data[..j], bits), Encode(Delta(row.data[j], data[j], bits)));
      assert data'[j] == data'[j..][0] == data[j..][0];
      var word, q := DecodeWord(s, p', data'[j], bits, row.data[j]);
      data', p' := data'[j := word], q;
      assert data'[..j + 1] == data'[..j] + [row.data[j]];
    }
    assert data[..|data|] == data && row.data[..|data|] == row.data && data'[..|data|] == data';
    EndFits(row.end, prev.end, bits);
    RoundTrip(row.end - prev.end, bits, s, p');
    delta, p' := DecodeSleb128(s, p', bits);
  }

  lemma DataNone(bits: nat)
    ensures DataBytes([], [], bits) == []
  {
  }

  ghost function DataRest(prev: seq<nat>, data: seq<nat>, bits: nat, j: nat): seq<Byte>
    requires |prev| == |data| && j <= |data|
  {
    DataBytes(prev[j..], data[j..], bits)
  }

  lemma {:induction false} DataSplit(prev: seq<nat>, data: seq<nat>, bits: nat, j: nat)
    requires |prev| == |data| && j <= |data|
    ensures DataBytes(prev, data, bits) == DataBytes(prev[..j], data[..j], bits) + DataRest(prev, data, bits, j)
  {
    hide Encode, Delta;
    if j == 0 {
      assert prev[0..] == prev && data[0..] == data;
    } else {
      DataSplit(prev[1..], data[1..], bits, j - 1);
      assert data[..j][1..] == data[1..][..j - 1] && prev[..j][1..] == prev[1..][..j - 1];
      assert data[1..][j - 1..] == data[j..] && prev[1..][j - 1..] == prev[j..];
    }
  }

  lemma DataPart(prev: seq<nat>, data: seq<nat>, bits: nat, j: nat)
    requires |prev| == |data| && j < |data|
    ensures DataBytes(prev, data, bits) == DataBytes(prev[..j + 1], data[..j + 1], bits) + DataRest(prev, data, bits, j + 1)
    ensures DataBytes(prev[..j + 1], data[..j + 1], bits) == DataBytes(prev[..j], data[..j], bits) + Encode(Delta(data[j], prev[j], bits))
  {
    DataSplit(prev, data, bits, j + 1);
    DataBytesAppend(prev, data, bits, j);
  }

  /** The row before row `i`. */
  function Before(rows: seq<Row>, pc: nat, words: nat, i: nat): Row
    requires i <= |rows|
  {
    if i == 0 then Seed(pc, words) else rows[i - 1]
  }

  /** A table, and what follows it, as the walks below find it. */
  ghost predicate Holds(s: seq<Byte>, p: nat, rows: seq<Row>, pc: nat, words: nat, bits: nat, i: nat) {
    && i <= |rows| && RowsOk(rows, words, bits)
    && At(s, p, TableBytes(Before(rows, pc, words, i), rows[i..], bits))
  }

  /** What encode_search stored is what the walks find. */
  lemma Stored(s: seq<Byte>, p: nat, rows: seq<Row>, pc: nat, words: nat, bits: nat)
    requires RowsOk(rows, words, bits)
    ensures At(s, p, TableBytes(Seed(pc, words), rows, bits)) <==> Holds(s, p, rows, pc, words, bits, 0)
  {
    assert rows[0..] == rows;
  }

  lemma NextRow(s: seq<Byte>, p: nat, rows: seq<Row>, pc: nat, words: nat, bits: nat, i: nat)
    requires Holds(s, p, rows, pc, words, bits, i) && i < |rows| && words > 0
    ensures |Before(rows, pc, words, i).data| == |rows[i].data| == words && RowOk(rows[i], words, bits)
    ensures Before(rows, pc, words, i).end < 0x1_0000
    ensures At(s, p, RowBytes(Before(rows, pc, words, i), rows[i], bits))
    ensures Holds(s, p + |RowBytes(Before(rows, pc, words, i), rows[i], bits)|, rows, pc, words, bits, i + 1)
  {
    hide RowBytes;
    assert RowOk(rows[i], words, bits) && (i > 0 ==> RowOk(rows[i - 1], words, bits));
    assert rows[i..][0] == rows[i] && rows[i..][1..] == rows[i + 1..];
    AtSplit(s, p, RowBytes(Before(rows, pc, words, i), rows[i], bits), TableBytes(rows[i], rows[i + 1..], bits));
  }

  /** The host address that `searched` is adjusted to, inside the call that it returns to. */
  function Called(searched: nat): (r: nat)
    requires searched < HOST
    ensures r < HOST && (r + GETPC_ADJ) % HOST == searched
  {
    (searched + HOST - GETPC_ADJ) % HOST
  }

  /** tb_find_guest_pc: the guest state at the first instruction whose host code ends after the searched pc;
      fails if and only if the pc lies before or after the code of all instructions. */
  method FindGuestPc(s: seq<Byte>, p: nat, pc: nat, host: nat, searched: nat, n: nat, words: nat, bits: nat, ghost rows: seq<Row>)
    returns (r: Option<seq<nat>>)
    requires bits >= 32 && words > 0 && Holds(s, p, rows, pc, words, bits, 0) && |rows| == n
    requires searched < HOST && host + 0x1_0000 <= HOST
    ensures r.Some? <==> host <= Called(searched) && exists i | 0 <= i < n :: host + rows[i].end > Called(searched)
    ensures r.Some? ==> exists i | 0 <= i < n :: r == Some(rows[i].data) && host + rows[i].end > Called(searched)
                          && forall j | 0 <= j < i :: host + rows[j].end <= Called(searched)
  {
    hide Holds, At, RowBytes, RowOk;
    var q := Called(searched);
    if q < host {
      return None;
    }
    var data, at, hostPc := Seed(pc, words).data, p, host;
    for i := 0 to n
      invariant data == Before(rows, pc, words, i).data && hostPc == host + Before(rows, pc, words, i).end
      invariant Holds(s, at, rows, pc, words, bits, i)
      invariant forall j | 0 <= j < i :: host + rows[j].end <= q
    {
      NextRow(s, at, rows, pc, words, bits, i);
      var delta;
      data, delta, at := DecodeRow(s, at, data, bits, Before(rows, pc, words, i), rows[i]);
      hostPc := hostPc + delta;
      if hostPc > q {
        return Some(data);
      }
    }
    r := None;
  }

  // ---- Instruction sizes ----

  /** The instruction at `at` is that of row `i`. */
  predicate Starts(rows: seq<Row>, at: nat, i: nat) {
    && i < |rows| && (forall k | 0 <= k < |rows| :: |rows[k].data| > 0)
    && rows[i].data[0] == at && forall k | 0 <= k < i :: rows[k].data[0] != at
  }

  /** tb_get_instruction_size: the distance to the next row, or to the end of the block, as a C int. */
  method InstructionSize(s: seq<Byte>, p: nat, pc: nat, size: nat, at: nat, n: nat, words: nat, bits: nat, ghost rows: seq<Row>)
    returns (r: int)
    requires bits >= 32 && words > 0 && Holds(s, p, rows, pc, words, bits, 0) && |rows| == n
    ensures forall i | Starts(rows, at, i) && pc <= at < (pc + size) % Pow2(bits) ::
              r == Delta(if i == n - 1 then pc + size else rows[i + 1].data[0], at, 32)
    ensures !(pc <= at < (pc + size) % Pow2(bits)) || (forall i | 0 <= i < n :: !Starts(rows, at, i)) ==> r == 0
  {
    hide Holds, At, RowBytes, RowOk, Pow2, Delta;
    if at < pc || at >= (pc + size) % Pow2(bits) {
      return 0;
    }
    var data, p' := Seed(pc, words).data, p;
    RowsData(s, p, rows, pc, words, bits);
    for i := 0 to n
      invariant data == Before(rows, pc, words, i).data
      invariant Holds(s, p', rows, pc, words, bits, i)
      invariant forall j | 0 <= j < i :: rows[j].data[0] != at
    {
      NextRow(s, p', rows, pc, words, bits, i);
      var delta;
      data, delta, p' := DecodeRow(s, p', data, bits, Before(rows, pc, words, i), rows[i]);
      if data[0] == at {
        assert Starts(rows, at, i);
        if i == n - 1 {
          return Delta(pc + size, at, 32);
        }
        NextRow(s, p', rows, pc, words, bits, i + 1);
        var next, _, _ := DecodeRow(s, p', data, bits, rows[i], rows[i + 1]);
        return Delta(next[0], at, 32);
      }
    }
    r := 0;
  }

  lemma RowsData(s: seq<Byte>, p: nat, rows: seq<Row>, pc: nat, words: nat, bits: nat)
    requires Holds(s, p, rows, pc, words, bits, 0) && words > 0
    ensures forall i | 0 <= i < |rows| :: |rows[i].data| == words
  {
    forall i | 0 <= i < |rows| ensures |rows[i].data| == words { assert RowOk(rows[i], words, bits); }
  }

  /** The rows of a block of less than 2 GB start at its pc and ascend within it. */
  ghost predicate Ascending(rows: seq<Row>, pc: nat, size: nat) {
    && |rows| > 0 && size < 0x8000_0000 && (forall k | 0 <= k < |rows| :: |rows[k].data| > 0)
    && rows[0].data[0] == pc && rows[|rows| - 1].data[0] < pc + size
    && forall k | 0 <= k < |rows| - 1 :: rows[k].data[0] < rows[k + 1].data[0]
  }

  /** For rows in ascending order, the sizes are positive and lay the instructions end to end through the block. */
  lemma SizesTile(rows: seq<Row>, pc: nat, size: nat, i: nat)
    requires Ascending(rows, pc, size) && i < |rows|
    ensures Starts(rows, rows[i].data[0], i) && pc <= rows[i].data[0] < pc + size
    ensures var end := if i == |rows| - 1 then pc + size else rows[i + 1].data[0];
      Delta(end, rows[i].data[0], 32) > 0 && rows[i].data[0] + Delta(end, rows[i].data[0], 32) == end
  {
    hide Pow2, Signed;
    Ascends(rows, 0, i);
    Ascends(rows, i, |rows| - 1);
    forall k | 0 <= k < i ensures rows[k].data[0] != rows[i].data[0] {
      Ascends(rows, k, i);
    }
    var d: int := if i == |rows| - 1 then pc + size else rows[i + 1].data[0];
    d := d - rows[i].data[0];
    if i < |rows| - 1 { Ascends(rows, i + 1, |rows| - 1); }
    assert 0 < d <= size;
    Pow2Values();
    SignedFits(d, 32);
  }

  lemma {:induction false} Ascends(rows: seq<Row>, i: nat, j: nat)
    requires i <= j < |rows| && forall k | 0 <= k < |rows| :: |rows[k].data| > 0
    requires forall k | 0 <= k < |rows| - 1 :: rows[k].data[0] < rows[k + 1].data[0]
    ensures rows[i].data[0] + (j - i) <= rows[j].data[0]
    decreases j
  {
    if i == j {
    } else {
      Ascends(rows, i, j - 1);
    }
  }
}
