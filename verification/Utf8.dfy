/** Modified UTF-8 (libq/src/unicode.c): UTF-8 as in section 3 of RFC 3629, except that U+0000 is
    two bytes, so that no encoding contains a zero byte. Bit masks are written with / and %. */
module Utf8 {
  import opened Wrappers
  import opened Masks

  type Byte = b: nat | b < 256

  /** is_valid: surrogates and noncharacters are refused. Takes a C int; -1 is refused too. */
  predicate IsValid(cp: int) {
    && cp <= 0x10ffff && !(0xd800 <= cp <= 0xdfff) && !(0xfdd0 <= cp <= 0xfdef)
    && cp % 0x10000 != 0xfffe && cp % 0x10000 != 0xffff
  }

  /** A code point that has an encoding. */
  predicate IsCode(cp: int) { 0 <= cp && IsValid(cp) }

  /** The code points are those of the seventeen planes, without surrogates, the 32 noncharacters in the first plane, and
      the last two of each plane. */
  lemma CodesExact(cp: int)
    ensures IsCode(cp) <==>
            || 0 <= cp <= 0xd7ff || 0xe000 <= cp <= 0xfdcf || 0xfdf0 <= cp <= 0xfffd
            || exists plane | 1 <= plane <= 16 :: InPlane(cp, plane)
  {
    if IsCode(cp) && cp > 0xffff {
      assert InPlane(cp, cp / 0x10000);
    }
  }

  predicate InPlane(cp: int, plane: nat) {
    0x10000 * plane <= cp <= 0x10000 * plane + 0xfffd
  }

  // ---- Decoding ----

  datatype Lead = Lead(len: int, bits: nat)

  /** get_utf8_length: the length that a first byte announces, and its share of the code point. */
  function LeadOf(b: Byte): Lead {
    if b < 0x80 then Lead(1, b)
    else if 0xc0 <= b < 0xe0 then Lead(2, b % 32)
    else if 0xe0 <= b < 0xf0 then Lead(3, b % 16)
    else if 0xf0 <= b < 0xf8 then Lead(4, b % 8)
    else if 0xf8 <= b < 0xfc then Lead(5, b % 4)
    else if 0xfc <= b < 0xfe then Lead(6, b % 2)
    else Lead(-1, 0)
  }

  /** The announced length is the number of ones that the byte starts with, up to 6, and the bits after the next zero
      count. */
  lemma LeadExact(b: Byte, k: nat)
    requires 2 <= k <= 6
    ensures LeadOf(b).len == k <==> 256 - Pow2(8 - k) <= b < 256 - Pow2(7 - k)
    ensures LeadOf(b).len == k ==> LeadOf(b).bits == b - (256 - Pow2(8 - k))
    ensures LeadOf(b).len == 1 <==> b < 128
    ensures LeadOf(b).len == 1 ==> LeadOf(b).bits == b
    ensures LeadOf(b).len in {1, 2, 3, 4, 5, 6} || LeadOf(b).len < 0
  {
    assert Pow2(6) == 64 && Pow2(5) == 32 && Pow2(4) == 16 && Pow2(3) == 8 && Pow2(2) == 4 && Pow2(1) == 2;
  }

  predicate Continues(b: Byte) { 0x80 <= b < 0xc0 }

  /** The code point, or -1, and where the input was left; None if it was not looked at. */
  datatype Decoded = Decoded(cp: int, end: Option<nat>)

  /** The continuation bytes from `i` up to `len`. */
  function Tail(s: seq<Byte>, i: nat, len: nat, cp: int): Decoded
    decreases len - i
  {
    if i >= len then Decoded(cp, Some(i))
    else if i >= |s| || !Continues(s[i]) then Decoded(-1, Some(i))
    else Tail(s, i + 1, len, cp * 64 + s[i] % 64)
  }

  function MinCp(len: int): int {
    if len == 2 then 0x80 else if len == 3 then 0x800 else if len == 4 then 0x10000 else if len == 5 then 0x200000 else 0x4000000
  }

  function Decode(s: seq<Byte>): Decoded {
    if |s| == 0 || s[0] == 0 then Decoded(-1, None)
    else
      var lead := LeadOf(s[0]);
      if lead.len < 0 then Decoded(-1, Some(1))
      else if lead.len == 1 then Decoded(if IsValid(lead.bits) then lead.bits else -1, Some(1))
      else
        var r := Tail(s, 1, lead.len, lead.bits);
        if !IsValid(r.cp) || (r.cp < MinCp(lead.len) && !(r.cp == 0 && lead.len == 2)) then r.(cp := -1) else r
  }

  lemma {:induction false} TailStops(s: seq<Byte>, i: nat, len: nat, cp: int)
    requires i <= len && i <= |s|
    ensures var r := Tail(s, i, len, cp);
      && r.end.Some? && i <= r.end.value <= len && r.end.value <= |s|
      && (forall j | i <= j < r.end.value :: Continues(s[j]))
      && (r.end.value < len ==> r.cp == -1 && (r.end.value == |s| || !Continues(s[r.end.value])))
    decreases len - i
  {
    if i >= len || i >= |s| || !Continues(s[i]) {
    } else {
      TailStops(s, i + 1, len, cp * 64 + s[i] % 64);
    }
  }

  /** Decoding leaves the input after the announced bytes, or at the first of them that is missing or no continuation,
      and then fails. An empty input, or one that starts with a zero, is not looked at. */
  lemma DecodeStops(s: seq<Byte>)
    ensures var r := Decode(s);
      if s == [] || s[0] == 0 then r == Decoded(-1, None)
      else
        var len := LeadOf(s[0]).len;
        && r.end.Some? && 1 <= r.end.value <= |s| && (forall j | 1 <= j < r.end.value :: Continues(s[j]))
        && (len < 0 ==> r == Decoded(-1, Some(1)))
        && (0 <= len ==> r.end.value <= len)
        && (r.end.value < len ==> r.cp == -1 && (r.end.value == |s| || !Continues(s[r.end.value])))
  {
    if s != [] && s[0] != 0 && LeadOf(s[0]).len > 1 {
      TailStops(s, 1, LeadOf(s[0]).len, LeadOf(s[0]).bits);
    }
  }

  /** mod_utf8_codepoint */
  method ModUtf8Codepoint(s: seq<Byte>) returns (r: Decoded)
    ensures r == Decode(s)
  {
    hide IsValid, MinCp, Continues;
    if |s| == 0 || s[0] == 0 {
      return Decoded(-1, None);
    }
    var lead := LeadOf(s[0]);
    if lead.len < 0 {
      return Decoded(-1, Some(1));
    }
    var cp: int := lead.bits;
    if lead.len == 1 {
      return Decoded(if IsValid(cp) then cp else -1, Some(1));
    }
    var i := 1;
    ghost var full := Tail(s, 1, lead.len, lead.bits);
    while i < lead.len
      invariant 1 <= i <= lead.len && Tail(s, i, lead.len, cp) == full
    {
      if i == |s| || !Continues(s[i]) {
        cp := -1;
        break;
      }
      cp := cp * 64 + s[i] % 64;
      i := i + 1;
    }
    if !IsValid(cp) {
      return Decoded(-1, Some(i));
    }
    var overlong := cp < MinCp(lead.len) && !(cp == 0 && lead.len == 2);
    r := Decoded(if overlong then -1 else cp, Some(i));
  }

  // ---- Encoding ----

  /** The bytes of a code point, if it has any. */
  function Encode(cp: int): (r: Option<seq<Byte>>)
    ensures r.Some? <==> IsCode(cp)
  {
    if !IsValid(cp) || cp < 0 then None
    else if 0 < cp <= 0x7f then Some([cp])
    else if cp <= 0x7ff then Some([0xc0 + cp / 64, 0x80 + cp % 64])
    else if cp < 0xffff then Some([0xe0 + cp / 4096, 0x80 + cp / 64 % 64, 0x80 + cp % 64])
    else Some([0xf0 + cp / 262144, 0x80 + cp / 4096 % 64, 0x80 + cp / 64 % 64, 0x80 + cp % 64])
  }

  /** mod_utf8_encode: the bytes and a zero, if there is room for the longest encoding. A negative code point passes the
      validity test on its low bits, but is too large as an unsigned number. */
  method ModUtf8Encode(buffer: array<Byte>, codepoint: int) returns (r: int)
    requires -0x8000_0000 <= codepoint < 0x8000_0000
    modifies buffer
    ensures r >= 0 <==> buffer.Length >= 5 && IsCode(codepoint)
    ensures r >= 0 ==> Encode(codepoint).Some? && r == |Encode(codepoint).value| < buffer.Length
    ensures r >= 0 ==> buffer[..r] == Encode(codepoint).value && buffer[r] == 0
    ensures r < 0 ==> r == -1 && buffer[..] == old(buffer[..])
  {
    hide IsValid;
    if buffer.Length < 5 || !IsValid(codepoint) {
      return -1;
    }
    Bounds(codepoint);
    var wchar := if codepoint < 0 then codepoint + 0x1_0000_0000 else codepoint;
    if 0 < wchar <= 0x7f {
      buffer[0], buffer[1] := wchar, 0;
      r := 1;
    } else if wchar <= 0x7ff {
      buffer[0], buffer[1], buffer[2] := 0xc0 + wchar / 64 % 32, 0x80 + wchar % 64, 0;
      r := 2;
    } else if wchar < 0xffff {
      buffer[0], buffer[1], buffer[2], buffer[3] := 0xe0 + wchar / 4096 % 16, 0x80 + wchar / 64 % 64, 0x80 + wchar % 64, 0;
      r := 3;
    } else if wchar < 0x10ffff {
      buffer[0], buffer[1], buffer[2] := 0xf0 + wchar / 262144 % 8, 0x80 + wchar / 4096 % 64, 0x80 + wchar / 64 % 64;
      buffer[3], buffer[4] := 0x80 + wchar % 64, 0;
      r := 4;
    } else {
      r := -1;
    }
  }

  /** What is left of a valid code point after each shift fits the leading byte, so the masks there change nothing. */
  lemma Bounds(cp: int)
    requires IsValid(cp)
    ensures cp != 0xffff && cp < 0x10ffff
    ensures 0 <= cp <= 0x7ff ==> cp / 64 % 32 == cp / 64
    ensures 0 <= cp < 0xffff ==> cp / 4096 % 16 == cp / 4096
    ensures 0 <= cp ==> cp / 262144 % 8 == cp / 262144
  {
  }

  // ---- Round trips ----

  lemma TailOne(s: seq<Byte>, i: nat, cp: int)
    ensures Tail(s, i, i + 1, cp) == if i < |s| && Continues(s[i]) then Decoded(cp * 64 + s[i] % 64, Some(i + 1)) else Decoded(-1, Some(i))
  {
  }

  lemma TailMore(s: seq<Byte>, i: nat, len: nat, cp: int)
    requires i < len
    ensures Tail(s, i, len, cp) == if i < |s| && Continues(s[i]) then Tail(s, i + 1, len, cp * 64 + s[i] % 64) else Decoded(-1, Some(i))
  {
  }

  lemma Digits(q: int, x: int)
    requires 0 <= x < 64
    ensures (q * 64 + x) / 64 == q && (q * 64 + x) % 64 == x
  {
  }

  /** A continuation byte carries its six bits. */
  lemma Six(x: nat)
    requires x < 64
    ensures Continues(0x80 + x) && (0x80 + x) % 64 == x
  {
  }

  lemma Two(cp: int, rest: seq<Byte>)
    requires IsCode(cp) && (cp == 0 || 0x80 <= cp <= 0x7ff)
    ensures Decode([0xc0 + cp / 64, 0x80 + cp % 64] + rest) == Decoded(cp, Some(2))
  {
    hide Tail, IsValid;
    var s := [0xc0 + cp / 64, 0x80 + cp % 64] + rest;
    Six(cp % 64);
    assert LeadOf(s[0]) == Lead(2, cp / 64);
    TailOne(s, 1, cp / 64);
  }

  lemma Three(cp: int, rest: seq<Byte>)
    requires IsCode(cp) && 0x800 <= cp < 0xffff
    ensures Decode([0xe0 + cp / 4096, 0x80 + cp / 64 % 64, 0x80 + cp % 64] + rest) == Decoded(cp, Some(3))
  {
    hide Tail, IsValid;
    var a, b, c := cp / 4096, cp / 64 % 64, cp % 64;
    var s := [0xe0 + a, 0x80 + b, 0x80 + c] + rest;
    assert cp == (a * 64 + b) * 64 + c;
    Six(b);
    Six(c);
    assert LeadOf(s[0]) == Lead(3, a);
    TailMore(s, 1, 3, a);
    TailOne(s, 2, a * 64 + b);
  }

  lemma Four(cp: int, rest: seq<Byte>)
    requires IsCode(cp) && 0x10000 <= cp
    ensures Decode([0xf0 + cp / 262144, 0x80 + cp / 4096 % 64, 0x80 + cp / 64 % 64, 0x80 + cp % 64] + rest) == Decoded(cp, Some(4))
  {
    var a, b, c, d := cp / 262144, cp / 4096 % 64, cp / 64 % 64, cp % 64;
    FourDigits(cp);
    FourBytes(a, b, c, d, cp, rest);
  }

  lemma FourDigits(cp: int)
    requires 0 <= cp <= 0x10ffff
    ensures cp == ((cp / 262144 * 64 + cp / 4096 % 64) * 64 + cp / 64 % 64) * 64 + cp % 64 && cp / 262144 <= 4
  {
    assert cp / 4096 == cp / 262144 * 64 + cp / 4096 % 64;
    assert cp / 64 == cp / 4096 * 64 + cp / 64 % 64;
  }

  lemma FourBytes(a: nat, b: nat, c: nat, d: nat, cp: int, rest: seq<Byte>)
    requires a < 8 && b < 64 && c < 64 && d < 64 && cp == ((a * 64 + b) * 64 + c) * 64 + d && IsCode(cp) && 0x10000 <= cp
    ensures Decode([0xf0 + a, 0x80 + b, 0x80 + c, 0x80 + d] + rest) == Decoded(cp, Some(4))
  {
    hide Tail, IsValid;
    var s := [0xf0 + a, 0x80 + b, 0x80 + c, 0x80 + d] + rest;
    Six(b);
    Six(c);
    Six(d);
    assert LeadOf(s[0]) == Lead(4, a);
    TailMore(s, 1, 4, a);
    TailMore(s, 2, 4, a * 64 + b);
    TailOne(s, 3, (a * 64 + b) * 64 + c);
  }

  /** Encoding, then decoding, gives back the code point and stops at its end, whatever follows. */
  lemma DecodeEncode(cp: int, rest: seq<Byte>)
    requires IsCode(cp)
    ensures Decode(Encode(cp).value + rest) == Decoded(cp, Some(|Encode(cp).value|))
  {
    if 0 < cp <= 0x7f {
      assert (Encode(cp).value + rest)[0] == cp;
    } else if cp <= 0x7ff {
      Two(cp, rest);
    } else if cp < 0xffff {
      Three(cp, rest);
    } else {
      Four(cp, rest);
    }
  }

  /** The 5 and 6 byte forms encode nothing that is not overlong or too large. */
  lemma LongForms(s: seq<Byte>)
    requires |s| > 0 && LeadOf(s[0]).len >= 5
    ensures Decode(s).cp == -1
  {
    var r := Decode(s);
    assert IsValid(r.cp) ==> r.cp <= 0x10ffff;
  }

  /** `s` starts with the encoding of what it decodes to. */
  ghost predicate Canonical(s: seq<Byte>) {
    var r := Decode(s);
    IsCode(r.cp) && r.end.Some? && r.end.value <= |s| && Encode(r.cp) == Some(s[..r.end.value])
  }

  lemma BackTwo(s: seq<Byte>)
    requires Decode(s).cp >= 0 && LeadOf(s[0]).len == 2
    ensures Canonical(s)
  {
    hide Tail, IsValid;
    var lead, r := LeadOf(s[0]), Decode(s);
    TailOne(s, 1, lead.bits);
    Digits(lead.bits, s[1] % 64);
    assert s[..2] == [0xc0 + r.cp / 64, 0x80 + r.cp % 64];
  }

  lemma BackThree(s: seq<Byte>)
    requires Decode(s).cp >= 0 && LeadOf(s[0]).len == 3
    ensures Canonical(s)
  {
    hide Tail, IsValid;
    var lead, r := LeadOf(s[0]), Decode(s);
    TailMore(s, 1, 3, lead.bits);
    TailOne(s, 2, lead.bits * 64 + s[1] % 64);
    Digits(lead.bits, s[1] % 64);
    Digits(lead.bits * 64 + s[1] % 64, s[2] % 64);
    NotLast(r.cp);
    assert r.cp / 4096 == r.cp / 64 / 64;
    assert s[..3] == [0xe0 + r.cp / 4096, 0x80 + r.cp / 64 % 64, 0x80 + r.cp % 64];
  }

  lemma BackFour(s: seq<Byte>)
    requires Decode(s).cp >= 0 && LeadOf(s[0]).len == 4
    ensures Canonical(s)
  {
    hide Tail, IsValid;
    var lead, r := LeadOf(s[0]), Decode(s);
    TailMore(s, 1, 4, lead.bits);
    TailMore(s, 2, 4, lead.bits * 64 + s[1] % 64);
    TailOne(s, 3, (lead.bits * 64 + s[1] % 64) * 64 + s[2] % 64);
    FourParts(lead.bits, s[1] % 64, s[2] % 64, s[3] % 64);
    LeadFour(s[0]);
    SixBack(s[1]);
    SixBack(s[2]);
    SixBack(s[3]);
    assert s[..4] == [s[0], s[1], s[2], s[3]];
  }

  lemma FourParts(a: nat, b: nat, c: nat, d: nat)
    requires b < 64 && c < 64 && d < 64
    ensures var cp := ((a * 64 + b) * 64 + c) * 64 + d;
      cp / 262144 == a && cp / 4096 % 64 == b && cp / 64 % 64 == c && cp % 64 == d
  {
    var x, y := a * 64 + b, (a * 64 + b) * 64 + c;
    Digits(a, b);
    Digits(x, c);
    Digits(y, d);
    var cp := y * 64 + d;
    assert cp / 4096 == cp / 64 / 64 && cp / 262144 == cp / 4096 / 64;
  }

  lemma LeadFour(b: Byte)
    requires LeadOf(b).len == 4
    ensures b == 0xf0 + LeadOf(b).bits
  {
  }

  lemma SixBack(b: Byte)
    requires Continues(b)
    ensures b == 0x80 + b % 64
  {
  }

  /** Whatever decodes is the encoding of what it decodes to: no other form of a code point is accepted. */
  lemma EncodeDecode(s: seq<Byte>)
    requires Decode(s).cp >= 0
    ensures Canonical(s)
  {
    var len := LeadOf(s[0]).len;
    if len == 1 {
      assert s[..1] == [s[0]];
    } else if len == 2 {
      BackTwo(s);
    } else if len == 3 {
      BackThree(s);
    } else if len == 4 {
      BackFour(s);
    } else {
      LongForms(s);
    }
  }

  lemma NotLast(cp: int)
    requires IsValid(cp)
    ensures cp != 0xffff
  {
  }

  // ---- Texts ----

  function EncodeAll(cps: seq<int>): seq<Byte>
    requires forall i | 0 <= i < |cps| :: IsCode(cps[i])
  {
    if cps == [] then [] else assert IsCode(cps[0]); Encode(cps[0]).value + EncodeAll(cps[1..])
  }

  /** Decodes code points until the input ends or is not accepted. */
  function DecodeAll(s: seq<Byte>): seq<int> {
    var r := Decode(s);
    if r.cp < 0 || r.end.None? || !(0 < r.end.value <= |s|) then [] else [r.cp] + DecodeAll(s[r.end.value..])
  }

  /** Any text comes back from its encoding. */
  lemma {:induction false} TextRoundTrip(cps: seq<int>)
    requires forall i | 0 <= i < |cps| :: IsCode(cps[i])
    ensures DecodeAll(EncodeAll(cps)) == cps
    decreases |cps|
  {
    if cps == [] {
    } else {
      var e, rest := Encode(cps[0]).value, EncodeAll(cps[1..]);
      DecodeEncode(cps[0], rest);
      assert (e + rest)[|e|..] == rest;
      TextRoundTrip(cps[1..]);
    }
  }
}
