/** Signed LEB128 numbers (libcpu/src/precise-pc.c: encode_sleb128, decode_sleb128).

    `bits` is the width of the target's registers, TARGET_LONG_BITS. Shifts of negative
    numbers are arithmetic, and a bitwise or is written as an addition where its operands
    have no bit in common.
 */
module Sleb128 {
  import opened Arith
  import opened Masks

  type Byte = b: nat | b < 256

  // ---- Encoding ----

  predicate LastGroup(v: int) {
    (v / 128 == 0 && v % 128 < 64) || (v / 128 == -1 && v % 128 >= 64)
  }

  function Encode(v: int): (s: seq<Byte>)
    decreases if v < 0 then -v else v
  {
    if LastGroup(v) then [v % 128] else [v % 128 + 128] + Encode(v / 128)
  }

  method EncodeSleb128(val: int) returns (s: seq<Byte>)
    ensures s == Encode(val)
  {
    var v, more := val, true;
    s := [];
    while more
      invariant Encode(val) == if more then s + Encode(v) else s
      decreases more, if v < 0 then -v else v
    {
      var byte := v % 128;
      var rest := v / 128;
      more := !((rest == 0 && byte < 64) || (rest == -1 && byte >= 64));
      s := s + [if more then byte + 128 else byte];
      v := rest;
    }
  }

  // ---- What the bytes mean ----

  /** The 7-bit groups of `s`, the least significant first. */
  function Low(s: seq<Byte>): nat {
    if s == [] then 0 else s[0] % 128 + 128 * Low(s[1..])
  }

  /** The number that `s` encodes: bit 6 of the last byte is the sign. */
  function Value(s: seq<Byte>): int {
    if s != [] && s[|s| - 1] % 128 >= 64 then Low(s) - Pow2(7 * |s|) else Low(s)
  }

  /** Only the last byte has bit 7 clear. */
  ghost predicate Framed(s: seq<Byte>) {
    s != [] && s[|s| - 1] < 128 && forall i | 0 <= i < |s| - 1 :: s[i] >= 128
  }

  lemma Pow2Step(n: nat)
    ensures Pow2(7 * (n + 1)) == 128 * Pow2(7 * n)
  {
    Pow2Add(7, 7 * n);
    assert Pow2(7) == 128;
  }

  lemma {:induction false} Pow2Up(j: nat, k: nat)
    requires j <= k
    ensures Pow2(j) <= Pow2(k)
    decreases k
  {
    if j == k {
    } else {
      Pow2Up(j, k - 1);
    }
  }

  lemma ValueCons(b: Byte, s: seq<Byte>)
    requires s != []
    ensures Value([b] + s) == b % 128 + 128 * Value(s)
  {
    var t := [b] + s;
    assert t[1..] == s && t[|t| - 1] == s[|s| - 1];
    Pow2Step(|s|);
  }

  /** The bytes of a number encode that number. */
  lemma {:induction false} EncodeValue(v: int)
    ensures Framed(Encode(v)) && Value(Encode(v)) == v
    decreases if v < 0 then -v else v
  {
    if LastGroup(v) {
      assert Low([v % 128]) == v % 128 by { assert [v % 128][1..] == []; }
      assert Pow2(7) == 128;
    } else {
      EncodeValue(v / 128);
      var b: Byte := v % 128 + 128;
      ValueCons(b, Encode(v / 128));
      var s := [b] + Encode(v / 128);
      forall i | 0 <= i < |s| - 1 ensures s[i] >= 128 {
        if i > 0 { assert s[i] == Encode(v / 128)[i - 1]; }
      }
    }
  }

  /** The encoding is as short as the number of bits allows. */
  lemma {:induction false} EncodeLength(v: int, k: nat)
    requires k >= 1
    ensures |Encode(v)| <= k <==> 0 - Pow2(7 * k - 1) <= v < Pow2(7 * k - 1)
    decreases k
  {
    if k == 1 {
      assert Pow2(6) == 64;
      if !LastGroup(v) { EncodeValue(v / 128); }
    } else {
      Pow2Add(7, 7 * (k - 1) - 1);
      assert Pow2(7) == 128;
      assert Pow2(7 * k - 1) == 128 * Pow2(7 * (k - 1) - 1);
      if !LastGroup(v) { EncodeLength(v / 128, k - 1); }
    }
  }

  // ---- Decoding ----

  /** `x` as a two's complement number of `bits` bits. */
  function Signed(x: int, bits: nat): int {
    var u := x % Pow2(bits);
    if 2 * u >= Pow2(bits) then u - Pow2(bits) else u
  }

  predicate Fits(v: int, bits: nat) {
    0 - Pow2(bits) <= 2 * v < Pow2(bits)
  }

  lemma SignedFits(v: int, bits: nat)
    requires Fits(v, bits)
    ensures Signed(v, bits) == v
  {
    var m := Pow2(bits);
    if v < 0 { ModUnique(v, -1, v + m, m); } else { ModUnique(v, 0, v, m); }
  }

  lemma {:induction false} LowAppend(s: seq<Byte>, b: Byte)
    ensures Low(s + [b]) == Low(s) + b % 128 * Pow2(7 * |s|)
    ensures Low(s) < Pow2(7 * |s|)
  {
    if s == [] {
      assert [b][1..] == [];
    } else {
      LowAppend(s[1..], b);
      assert (s + [b])[1..] == s[1..] + [b];
      Pow2Step(|s[1..]|);
      var c, p := b % 128, Pow2(7 * |s[1..]|);
      assert 128 * (c * p) == c * (128 * p);
    }
  }

  lemma LowEmpty(m: nat)
    requires m > 0
    ensures Low([]) % m == 0
  {
  }

  /** One past the first byte from `p` on that has bit 7 clear. */
  function End(s: seq<Byte>, p: nat): nat
    decreases |s| - p
  {
    if p >= |s| || s[p] < 128 then p + 1 else End(s, p + 1)
  }

  lemma {:induction false} EndOf(s: seq<Byte>, p: nat, e: seq<Byte>)
    requires Framed(e) && p + |e| <= |s| && s[p..p + |e|] == e
    ensures End(s, p) == p + |e|
    decreases |e|
  {
    assert s[p] == e[0];
    if |e| == 1 {
    } else {
      assert s[p + 1..p + |e|] == e[1..];
      assert forall i | 0 <= i < |e[1..]| :: e[1..][i] == e[i + 1];
      EndOf(s, p + 1, e[1..]);
    }
  }

  /** Decodes the number at `p`, modulo 2^bits, and says where it ends. */
  method DecodeSleb128(s: seq<Byte>, p: nat, bits: nat) returns (val: int, p': nat)
    requires bits > 0 && End(s, p) <= |s|
    ensures p' == End(s, p) && p < p'
    ensures val == Signed(Value(s[p..p']), bits)
  {
    hide Pow2, Low, Value;
    var m, shift, byte, acc, more := Pow2(bits), 0, 0, 0, true;
    assert s[p..p] == [];
    LowEmpty(m);
    p' := p;
    while more
      invariant p <= p' <= |s| && shift == 7 * (p' - p)
      invariant more ==> End(s, p') == End(s, p)
      invariant !more ==> p < p' == End(s, p) && byte == s[p' - 1]
      invariant acc == Low(s[p..p']) % m
      decreases more, |s| - p'
    {
      byte := s[p'];
      NextGroup(s[p..p'], byte, bits);
      assert s[p..p' + 1] == s[p..p'] + [byte];
      acc := (acc + byte % 128 * Pow2(shift)) % m;
      p', shift, more := p' + 1, shift + 7, byte >= 128;
    }
    ghost var e := s[p..p'];
    assert e[|e| - 1] == byte;
    SignGroup(e, bits);
    if shift < bits && byte % 128 >= 64 {
      acc := acc + (m - Pow2(shift));
    }
    val := if 2 * acc >= m then acc - m else acc;
  }

  lemma NextGroup(e: seq<Byte>, b: Byte, bits: nat)
    ensures (Low(e) % Pow2(bits) + b % 128 * Pow2(7 * |e|)) % Pow2(bits) == Low(e + [b]) % Pow2(bits)
  {
    LowAppend(e, b);
    ModAdd(Low(e), b % 128 * Pow2(7 * |e|), Pow2(bits));
  }

  lemma DropHigh(x: int, j: nat, bits: nat)
    requires j >= bits
    ensures (x - Pow2(j)) % Pow2(bits) == x % Pow2(bits)
  {
    hide Pow2;
    Pow2Add(bits, j - bits);
    Negated(Pow2(bits), Pow2(j - bits));
    ModShift(x, -1 * Pow2(j - bits), Pow2(bits));
  }

  lemma Negated(m: nat, k: nat)
    ensures (-1 * k) * m == -1 * (m * k)
  {
  }

  /** Sign extension, where there is room for it, turns the groups into the number. */
  lemma SignGroup(e: seq<Byte>, bits: nat)
    requires e != []
    ensures Value(e) % Pow2(bits) ==
      if 7 * |e| < bits && e[|e| - 1] % 128 >= 64 then Low(e) % Pow2(bits) + (Pow2(bits) - Pow2(7 * |e|)) else Low(e) % Pow2(bits)
  {
    hide Pow2, Low;
    var shift := 7 * |e|;
    if e[|e| - 1] % 128 >= 64 {
      if shift < bits {
        SignExtend(e, bits);
      } else {
        DropHigh(Low(e), shift, bits);
      }
    }
  }

  /** Below the width, the groups fit and setting all bits above them subtracts 2^shift. */
  lemma SignExtend(e: seq<Byte>, bits: nat)
    requires 7 * |e| < bits
    ensures Low(e) % Pow2(bits) == Low(e)
    ensures (Low(e) - Pow2(7 * |e|)) % Pow2(bits) == Low(e) + (Pow2(bits) - Pow2(7 * |e|))
  {
    LowAppend(e, 0);
    var s, m := Pow2(7 * |e|), Pow2(bits);
    Pow2Up(7 * |e|, bits);
    ModUnique(Low(e), 0, Low(e), m);
    ModUnique(Low(e) - s, -1, Low(e) - s + m, m);
  }

  /** Round trip: a number that fits is decoded to itself, anywhere in a buffer, and takes at most a byte per 7 bits. */
  lemma RoundTrip(v: int, bits: nat, s: seq<Byte>, p: nat)
    requires bits > 0 && Fits(v, bits)
    requires p + |Encode(v)| <= |s| && s[p..p + |Encode(v)|] == Encode(v)
    ensures End(s, p) == p + |Encode(v)| && Signed(Value(s[p..End(s, p)]), bits) == v
    ensures |Encode(v)| <= (bits + 6) / 7
  {
    hide Encode, Value, Low, End, Signed;
    EncodeValue(v);
    EndOf(s, p, Encode(v));
    SignedFits(v, bits);
    Short(v, bits);
  }

  lemma Short(v: int, bits: nat)
    requires bits > 0 && Fits(v, bits)
    ensures |Encode(v)| <= (bits + 6) / 7
  {
    hide Encode;
    var k := (bits + 6) / 7;
    assert Pow2(bits) == 2 * Pow2(bits - 1);
    Pow2Up(bits - 1, 7 * k - 1);
    EncodeLength(v, k);
  }
}
