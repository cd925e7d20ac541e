/** Base 128 varints: the encoder's bytes, the two readers, and how the readers relate.
    Models pb_encode_varint, pb_decode_varint and pb_decode_varint32_eof as functions on byte sequences;
    the methods in PbEncode and PbDecode are proved to compute them. */
module Varint {
  import opened Bits

  /** What a reader returns: the value and the bytes that follow it. */
  type Read<T> = Option<(T, seq<byte>)>

  // ---------------------------------------------------------------- encoding

  /** Seven bits a byte, least significant group first, top bit set on all bytes but the last. */
  function Encode(v: nat): (bs: seq<byte>)
    ensures |bs| >= 1
  {
    if v < 128 then [v] else [v % 128 + 128] + Encode(v / 128)
  }

  /** A complete varint: the top bit is clear on the last byte and only there. */
  predicate IsToken(p: seq<byte>)
  {
    && |p| >= 1
    && p[|p| - 1] < 128
    && forall i :: 0 <= i < |p| - 1 ==> p[i] >= 128
  }

  lemma TokenCons(b: byte, q: seq<byte>)
    requires b >= 128 && IsToken(q)
    ensures IsToken([b] + q)
  {
  }

  /** The number a varint stands for: its 7-bit groups, little endian. */
  function Base128(p: seq<byte>): nat
  {
    if p == [] then 0 else p[0] % 128 + 128 * Base128(p[1..])
  }

  lemma {:induction false} EncodeMeaning(v: nat)
    ensures IsToken(Encode(v)) && Base128(Encode(v)) == v
    ensures |Encode(v)| > 1 ==> Encode(v)[|Encode(v)| - 1] != 0
  {
    if v < 128 {
      assert Base128([v]) == v % 128 + 128 * Base128([]);
    } else {
      EncodeMeaning(v / 128);
      assert Encode(v)[1..] == Encode(v / 128);
    }
  }

  /** Encode is the only encoding without padding: it inverts Base128 on tokens that end in a non-zero group. */
  lemma {:induction false} EncodeIsCanonical(p: seq<byte>)
    requires IsToken(p) && (|p| > 1 ==> p[|p| - 1] != 0)
    ensures Encode(Base128(p)) == p
  {
    if |p| == 1 {
      assert Base128(p[1..]) == 0;
    } else {
      EncodeIsCanonical(p[1..]);
      EncodeMeaning(Base128(p[1..]));
      assert Base128(p[1..]) > 0 by {
        assert Encode(0) == [0];
      }
      assert p == [p[0]] + p[1..];
    }
  }

  /** n bytes hold every value of 7 * n bits. */
  lemma {:induction false} EncodeLength(v: nat, n: nat)
    requires n >= 1 && v < Pow2(7 * n)
    ensures |Encode(v)| <= n
  {
    if v >= 128 {
      ShlBy7(1, 7 * (n - 1));
      EncodeLength(v / 128, n - 1);
    }
  }

  /** The ten-byte buffer of pb_encode_varint holds every 64-bit value. */
  lemma EncodeFitsBuffer(v: nat)
    requires v < TWO64
    ensures |Encode(v)| <= 10
  {
    ShlBy64(1);
    Pow2Monotone(64, 70);
    EncodeLength(v, 10);
  }

  // ---------------------------------------------------------------- pb_decode_varint

  function Decode64(s: seq<byte>): (r: Read<nat>)
    ensures r.Some? ==> |r.value.1| < |s|
  {
    Loop64(s, 0, 0)
  }

  function Loop64(s: seq<byte>, bitpos: nat, result: nat): (r: Read<nat>)
    ensures r.Some? ==> |r.value.1| < |s|
  {
    if bitpos >= 64 || s == [] then None
    else
      var word := Or(result, Shl(s[0] % 128, bitpos) % TWO64);
      if s[0] < 128 then Some((word, s[1..])) else Loop64(s[1..], bitpos + 7, word)
  }

  // ---------------------------------------------------------------- pb_decode_varint32_eof

  function Decode32(s: seq<byte>): (r: Read<nat>)
    ensures r.Some? ==> |r.value.1| < |s|
  {
    if s == [] then None
    else if s[0] < 128 then Some((s[0], s[1..]))
    else Loop32(s[1..], 7, s[0] % 128)
  }

  /** The byte that continues or ends the sign extension of a negative int32. */
  function SignExtension(bitpos: nat): byte
  {
    if bitpos < 63 then 0xFF else 0x01
  }

  /** bitpos is a uint_fast8_t. */
  function Loop32(s: seq<byte>, bitpos: nat, result: nat): (r: Read<nat>)
    ensures r.Some? ==> |r.value.1| < |s|
  {
    if s == [] || Overflows32(s[0], bitpos, result) then None
    else
      var word := Absorb32(s[0], bitpos, result);
      var next := (bitpos + 7) % 256;
      if s[0] >= 128 then Loop32(s[1..], next, word)
      else if next == 35 && s[0] / 16 % 8 != 0 then None
      else Some((word, s[1..]))
  }

  /** Past the word only padding and the sign extension of a negative value may follow. */
  predicate Overflows32(b: byte, bitpos: nat, result: nat)
  {
    bitpos >= 32 && b % 128 != 0 && (result / TWO31 == 0 || b != SignExtension(bitpos))
  }

  function Absorb32(b: byte, bitpos: nat, result: nat): nat
  {
    if bitpos >= 32 then result else Or(result, Shl(b % 128, bitpos) % TWO32)
  }

  // ---------------------------------------------------------------- what is consumed

  /** The bytes of s before its suffix rest. */
  function Front(s: seq<byte>, rest: seq<byte>): seq<byte>
    requires |rest| <= |s|
  {
    s[..|s| - |rest|]
  }

  lemma {:induction false} Loop64Consumes(s: seq<byte>, bitpos: nat, result: nat)
    requires Loop64(s, bitpos, result).Some?
    ensures var rest := Loop64(s, bitpos, result).value.1;
      |rest| < |s| && s == Front(s, rest) + rest && IsToken(Front(s, rest))
  {
    var r := Or(result, Shl(s[0] % 128, bitpos) % TWO64);
    var rest := Loop64(s, bitpos, result).value.1;
    if s[0] >= 128 {
      Loop64Consumes(s[1..], bitpos + 7, r);
      TokenCons(s[0], Front(s[1..], rest));
      assert Front(s, rest) == [s[0]] + Front(s[1..], rest);
    }
  }

  lemma {:induction false} Loop32Consumes(s: seq<byte>, bitpos: nat, result: nat)
    requires Loop32(s, bitpos, result).Some?
    ensures var rest := Loop32(s, bitpos, result).value.1;
      |rest| < |s| && s == Front(s, rest) + rest && IsToken(Front(s, rest))
  {
    var b := s[0];
    var r := Absorb32(b, bitpos, result);
    var rest := Loop32(s, bitpos, result).value.1;
    if b >= 128 {
      Loop32Consumes(s[1..], (bitpos + 7) % 256, r);
      TokenCons(b, Front(s[1..], rest));
      assert Front(s, rest) == [b] + Front(s[1..], rest);
    }
  }

  /** Both readers consume exactly one complete varint. */
  lemma Decode64Consumes(s: seq<byte>)
    requires Decode64(s).Some?
    ensures var rest := Decode64(s).value.1;
      |rest| < |s| && s == Front(s, rest) + rest && IsToken(Front(s, rest))
  {
    Loop64Consumes(s, 0, 0);
  }

  lemma Decode32Consumes(s: seq<byte>)
    requires Decode32(s).Some?
    ensures var rest := Decode32(s).value.1;
      |rest| < |s| && s == Front(s, rest) + rest && IsToken(Front(s, rest))
  {
    if s[0] >= 128 {
      var rest := Decode32(s).value.1;
      Loop32Consumes(s[1..], 7, s[0] % 128);
      TokenCons(s[0], Front(s[1..], rest));
      assert Front(s, rest) == [s[0]] + Front(s[1..], rest);
    }
  }

  // ---------------------------------------------------------------- locality: the outcome depends on the token alone

  lemma {:induction false} Loop32Local(p: seq<byte>, x: seq<byte>, y: seq<byte>, bitpos: nat, result: nat)
    requires IsToken(p)
    ensures Loop32(p + x, bitpos, result).None? == Loop32(p + y, bitpos, result).None?
    ensures Loop32(p + x, bitpos, result).Some? ==>
      Loop32(p + x, bitpos, result) == Some((Loop32(p + x, bitpos, result).value.0, x))
    ensures Loop32(p + x, bitpos, result).Some? ==>
      Loop32(p + y, bitpos, result) == Some((Loop32(p + x, bitpos, result).value.0, y))
  {
    var b := p[0];
    var r := Absorb32(b, bitpos, result);
    assert (p + x)[1..] == p[1..] + x && (p + y)[1..] == p[1..] + y;
    if b >= 128 {
      Loop32Local(p[1..], x, y, (bitpos + 7) % 256, r);
    } else {
      assert p[1..] + x == x && p[1..] + y == y;
    }
  }

  lemma Decode32Local(p: seq<byte>, x: seq<byte>, y: seq<byte>)
    requires IsToken(p)
    ensures Decode32(p + x).None? == Decode32(p + y).None?
    ensures Decode32(p + x).Some? ==> Decode32(p + x) == Some((Decode32(p + x).value.0, x))
    ensures Decode32(p + x).Some? ==> Decode32(p + y) == Some((Decode32(p + x).value.0, y))
  {
    assert (p + x)[1..] == p[1..] + x && (p + y)[1..] == p[1..] + y;
    if p[0] >= 128 {
      Loop32Local(p[1..], x, y, 7, p[0] % 128);
    } else {
      assert p[1..] + x == x && p[1..] + y == y;
    }
  }

  // ---------------------------------------------------------------- the value of a prefix of groups

  function PrefixValue(p: seq<byte>, j: nat): nat
    requires j <= |p|
  {
    if j == 0 then 0 else PrefixValue(p, j - 1) + Shl(p[j - 1] % 128, 7 * (j - 1))
  }

  lemma {:induction false} PrefixBound(p: seq<byte>, j: nat)
    requires j <= |p|
    ensures PrefixValue(p, j) < Pow2(7 * j)
  {
    if j == 0 {
    } else {
      PrefixBound(p, j - 1);
      ShlBy7(1, 7 * (j - 1));
      ShlShl(1, 7, 7 * (j - 1));
      assert Shl(1, 7) == 128;
      ShlMonotone(p[j - 1] % 128, 128, 7 * (j - 1));
    }
  }

  lemma {:induction false} PrefixShift(p: seq<byte>, j: nat)
    requires 1 <= j <= |p|
    ensures PrefixValue(p, j) == p[0] % 128 + 128 * PrefixValue(p[1..], j - 1)
  {
    if j > 1 {
      PrefixShift(p, j - 1);
      ShlBy7(p[j - 1] % 128, 7 * (j - 2));
      assert p[1..][j - 2] == p[j - 1];
    }
  }

  lemma {:induction false} PrefixIsBase128(p: seq<byte>)
    ensures PrefixValue(p, |p|) == Base128(p)
  {
    if p == [] {
    } else {
      PrefixShift(p, |p|);
      PrefixIsBase128(p[1..]);
    }
  }

  /** One `result |= group << bitpos` on a 64-bit word adds the group, modulo 2^64. */
  lemma OrGroup64(result: nat, g: nat, bitpos: nat)
    requires bitpos < 64 && result < Pow2(bitpos)
    ensures Or(result, Shl(g, bitpos) % TWO64) == (result + Shl(g, bitpos)) % TWO64
  {
    var low, high := LowGroups(result, g, bitpos, 64);
    ShlBy64(high);
    ShlBy64(1);
    Wrap64(low, high);
    Wrap64(result + low, high);
  }

  lemma Wrap64(low: nat, high: nat)
    requires low < TWO64
    ensures (low + TWO64 * high) % TWO64 == low
  {
  }

  lemma Wrap32(low: nat, high: nat)
    requires low < TWO32
    ensures (low + TWO32 * high) % TWO32 == low
  {
  }

  /** The same on a 32-bit word. */
  lemma OrGroup32(result: nat, g: nat, bitpos: nat)
    requires bitpos < 32 && result < Pow2(bitpos)
    ensures Or(result, Shl(g, bitpos) % TWO32) == (result + Shl(g, bitpos)) % TWO32
  {
    var low, high := LowGroups(result, g, bitpos, 32);
    ShlBy32(high);
    ShlBy32(1);
    Wrap32(low, high);
    Wrap32(result + low, high);
  }

  /** g << bitpos splits into the part an n-bit word keeps and what it drops. */
  lemma LowGroups(result: nat, g: nat, bitpos: nat, n: nat) returns (low: nat, high: nat)
    requires bitpos < n && result < Pow2(bitpos)
    ensures Shl(g, bitpos) == low + Shl(high, n) && result + low < Pow2(n)
    ensures Or(result, low) == result + low
  {
    var l, h := SplitAt(g, n - bitpos);
    ShlAdds(l, Shl(h, n - bitpos), bitpos);
    ShlShl(h, n - bitpos, bitpos);
    ShlMonotone(l, Pow2(n - bitpos), bitpos);
    ShlShl(1, n - bitpos, bitpos);
    OrDisjoint(result, l, bitpos);
    low, high := Shl(l, bitpos), h;
  }

  // ---------------------------------------------------------------- pb_decode_varint reads the value

  lemma {:induction false} Loop64At(p: seq<byte>, rest: seq<byte>, j: nat)
    requires IsToken(p) && j < |p| && j <= 9
    ensures Loop64(p[j..] + rest, 7 * j, PrefixValue(p, j)) ==
            if |p| <= 10 then Some((Base128(p) % TWO64, rest)) else None
    decreases 10 - j
  {
    NextGroup64(p, j);
    var t := p[j..] + rest;
    assert t[0] == p[j] && t[1..] == p[j + 1..] + rest;
    if j + 1 == |p| {
      PrefixIsBase128(p);
      assert t[1..] == rest;
    } else if j < 9 {
      Loop64At(p, rest, j + 1);
    }
  }

  lemma NextGroup64(p: seq<byte>, j: nat)
    requires j < |p| && j <= 9
    ensures Or(PrefixValue(p, j), Shl(p[j] % 128, 7 * j) % TWO64) == PrefixValue(p, j + 1) % TWO64
    ensures j < 9 ==> PrefixValue(p, j + 1) % TWO64 == PrefixValue(p, j + 1)
  {
    PrefixBound(p, j);
    OrGroup64(PrefixValue(p, j), p[j] % 128, 7 * j);
    if j < 9 {
      PrefixBound(p, j + 1);
      Pow2Monotone(7 * (j + 1), 64);
      ShlBy64(1);
    }
  }

  /** pb_decode_varint on one complete varint, whatever follows it: at most ten bytes give the value
      modulo 2^64, eleven or more are refused. */
  lemma Decode64Token(p: seq<byte>, rest: seq<byte>)
    requires IsToken(p)
    ensures Decode64(p + rest) == if |p| <= 10 then Some((Base128(p) % TWO64, rest)) else None
  {
    assert p[0..] == p;
    Loop64At(p, rest, 0);
  }

  lemma Decode64Local(p: seq<byte>, x: seq<byte>, y: seq<byte>)
    requires IsToken(p)
    ensures Decode64(p + x).None? == Decode64(p + y).None?
    ensures Decode64(p + x).Some? ==> Decode64(p + x) == Some((Decode64(p + x).value.0, x))
    ensures Decode64(p + x).Some? ==> Decode64(p + y) == Some((Decode64(p + x).value.0, y))
  {
    Decode64Token(p, x);
    Decode64Token(p, y);
  }

  lemma Decode64Value(p: seq<byte>, v: nat, rest: seq<byte>)
    requires IsToken(p) && |p| <= 10 && Base128(p) == v < TWO64
    ensures Decode64(p + rest) == Some((v, rest))
  {
    Decode64Token(p, rest);
    Wrap64(v, 0);
  }

  /** Round trip: reading what pb_encode_varint wrote gives the value back and stops right after it. */
  lemma VarintRoundTrip(v: nat, rest: seq<byte>)
    requires v < TWO64
    ensures Decode64(Encode(v) + rest) == Some((v, rest))
  {
    EncodeMeaning(v);
    EncodeFitsBuffer(v);
    Decode64Value(Encode(v), v, rest);
  }

  // ---------------------------------------------------------------- pb_decode_varint32_eof

  /** Which bytes the 32-bit reader lets pass at index i: the last of five bytes has only its low four bits,
      and a later byte is padding or, when bit 31 is set, sign extension. */
  predicate ByteAccepted32(p: seq<byte>, i: nat)
    requires 5 <= |p| && i < |p|
  {
    if i < 4 then true
    else if i == 4 then (|p| == 5 ==> p[4] / 16 % 8 == 0)
    else p[i] % 128 == 0 || (PrefixValue(p, 5) % TWO32 / TWO31 == 1 && p[i] == SignExtension(7 * i))
  }

  predicate Accepts32(p: seq<byte>)
  {
    |p| >= 5 ==> forall i :: 4 <= i < |p| ==> ByteAccepted32(p, i)
  }

  lemma {:induction false} Loop32High(p: seq<byte>, rest: seq<byte>, j: nat)
    requires IsToken(p) && 5 <= j < |p| <= 10
    ensures Loop32(p[j..] + rest, 7 * j, PrefixValue(p, 5) % TWO32) ==
            if forall i :: j <= i < |p| ==> ByteAccepted32(p, i)
            then Some((PrefixValue(p, 5) % TWO32, rest)) else None
    decreases |p| - j
  {
    var t := p[j..] + rest;
    assert t[0] == p[j] && t[1..] == p[j + 1..] + rest;
    if !ByteAccepted32(p, j) {
    } else if j + 1 == |p| {
      assert t[1..] == rest;
    } else {
      Loop32High(p, rest, j + 1);
    }
  }

  /** One turn of the loop while the group still falls inside the 32-bit word. */
  lemma Loop32Step(p: seq<byte>, rest: seq<byte>, j: nat)
    requires IsToken(p) && 1 <= j < |p| && j <= 4
    ensures Loop32(p[j..] + rest, 7 * j, PrefixValue(p, j)) ==
            if j + 1 < |p| then Loop32(p[j + 1..] + rest, 7 * (j + 1), PrefixValue(p, j + 1) % TWO32)
            else if j == 4 && p[4] / 16 % 8 != 0 then None
            else Some((PrefixValue(p, j + 1) % TWO32, rest))
  {
    LowGroup(p, j);
    var t := p[j..] + rest;
    assert t[0] == p[j] && t[1..] == p[j + 1..] + rest;
    if j + 1 == |p| {
      assert t[1..] == rest;
    }
  }

  lemma LowGroup(p: seq<byte>, j: nat)
    requires j < |p| && j <= 4
    ensures Or(PrefixValue(p, j), Shl(p[j] % 128, 7 * j) % TWO32) == PrefixValue(p, j + 1) % TWO32
  {
    ShlBy32(1);
    PrefixBound(p, j);
    OrGroup32(PrefixValue(p, j), p[j] % 128, 7 * j);
  }

  lemma {:induction false} Loop32Low(p: seq<byte>, rest: seq<byte>, j: nat)
    requires IsToken(p) && 1 <= j < |p| <= 10 && j <= 4
    ensures Loop32(p[j..] + rest, 7 * j, PrefixValue(p, j)) ==
            if Accepts32(p) then Some((Base128(p) % TWO32, rest)) else None
    decreases 5 - j
  {
    Loop32Step(p, rest, j);
    PrefixIsBase128(p);
    if j + 1 == |p| {
      if j == 4 {
        assert ByteAccepted32(p, 4) <==> p[4] / 16 % 8 == 0;
      }
    } else if j < 4 {
      PrefixFits(p, j + 1);
      Loop32Low(p, rest, j + 1);
    } else {
      assert ByteAccepted32(p, 4);
      Loop32High(p, rest, 5);
      HighGroupsVanish(p, |p|);
      assert Accepts32(p) <==> forall i :: 5 <= i < |p| ==> ByteAccepted32(p, i);
    }
  }

  lemma PrefixFits(p: seq<byte>, j: nat)
    requires j <= |p| && j <= 4
    ensures PrefixValue(p, j) % TWO32 == PrefixValue(p, j)
  {
    PrefixBound(p, j);
    Pow2Monotone(7 * j, 32);
    ShlBy32(1);
  }

  /** From the sixth byte on the groups are multiples of 2^35. */
  lemma {:induction false} HighGroupsVanish(p: seq<byte>, j: nat)
    requires 5 <= j <= |p|
    ensures PrefixValue(p, j) % TWO32 == PrefixValue(p, 5) % TWO32
  {
    if j > 5 {
      HighGroupsVanish(p, j - 1);
      var g := p[j - 1] % 128;
      ShlShl(g, 7 * (j - 1) - 32, 32);
      ShlBy32(Shl(g, 7 * (j - 1) - 32));
      DropMultiple32(PrefixValue(p, j - 1), Shl(g, 7 * (j - 1) - 32));
    }
  }

  lemma DropMultiple32(a: nat, k: nat)
    ensures (a + TWO32 * k) % TWO32 == a % TWO32
  {
    Wrap32(a % TWO32, a / TWO32 + k);
  }

  /** pb_decode_varint32_eof on one complete varint of at most ten bytes: exactly when every byte is
      acceptable it gives the value modulo 2^32. */
  lemma Decode32Token(p: seq<byte>, rest: seq<byte>)
    requires IsToken(p) && |p| <= 10
    ensures Decode32(p + rest) == if Accepts32(p) then Some((Base128(p) % TWO32, rest)) else None
  {
    var t := p + rest;
    assert t[0] == p[0] && t[1..] == p[1..] + rest;
    FirstGroup(p);
    if |p| == 1 {
      assert t[1..] == rest;
    } else {
      Loop32Low(p, rest, 1);
    }
  }

  lemma FirstGroup(p: seq<byte>)
    requires |p| >= 1
    ensures PrefixValue(p, 1) == p[0] % 128
    ensures |p| == 1 ==> Base128(p) % TWO32 == p[0] % 128
  {
    assert PrefixValue(p, 1) == PrefixValue(p, 0) + Shl(p[0] % 128, 0);
    if |p| == 1 {
      PrefixIsBase128(p);
    }
  }

  lemma LowWord64(v: nat)
    ensures v % TWO64 % TWO32 == v % TWO32
  {
    assert TWO64 == TWO32 * TWO32;
    assert v == v % TWO64 + TWO32 * (TWO32 * (v / TWO64));
    Wrap32(v % TWO64 % TWO32, v % TWO64 / TWO32 + TWO32 * (v / TWO64));
  }

  /** The 32-bit reader refines the 64-bit one: where it accepts at most ten bytes, the 64-bit reader accepts
      the same bytes and the two values agree modulo 2^32. */
  lemma Reader32RefinesReader64(s: seq<byte>)
    requires Decode32(s).Some? && |s| - |Decode32(s).value.1| <= 10
    ensures Decode64(s).Some?
    ensures Decode64(s).value.1 == Decode32(s).value.1
    ensures Decode32(s).value.0 == Decode64(s).value.0 % TWO32
  {
    var rest := Decode32(s).value.1;
    Decode32Consumes(s);
    var p := Front(s, rest);
    Decode32Token(p, rest);
    Decode64Token(p, rest);
    LowWord64(Base128(p));
  }

  // ---------------------------------------------------------------- which canonical encodings the 32-bit reader takes

  /** The 7-bit group of v at index i. */
  function Group(v: nat, i: nat): nat
  {
    Shr(v, 7 * i) % 128
  }

  /** The 64-bit values whose canonical encoding the 32-bit reader accepts: those below 2^32, and those with
      bits 63 and 31 set whose groups 5 to 8 are each all zeros or all ones. */
  predicate Value32(v: nat)
  {
    || v < TWO32
    || (&& v >= TWO63
        && v % TWO32 >= TWO31
        && forall i :: 5 <= i < 9 ==> Group(v, i) == 0 || Group(v, i) == 127)
  }

  lemma {:induction false} EncodeBytes(v: nat, i: nat)
    requires i < |Encode(v)|
    ensures Encode(v)[i] % 128 == Group(v, i)
    ensures i < |Encode(v)| - 1 <==> Encode(v)[i] >= 128
    ensures i < |Encode(v)| - 1 <==> v >= Pow2(7 * (i + 1))
  {
    ShlBy7(1, 7 * i);
    if i == 0 {
    } else {
      EncodeBytes(v / 128, i - 1);
      ShrBy7(v);
      ShrShr(v, 7, 7 * (i - 1));
      ShlBy7(1, 7 * (i - 1));
    }
  }

  /** What the top bit of the low 32 says of the fifth group. */
  lemma LowWordOf(v: nat)
    requires |Encode(v)| >= 5
    ensures PrefixValue(Encode(v), 5) % TWO32 == v % TWO32
  {
    EncodeMeaning(v);
    PrefixIsBase128(Encode(v));
    HighGroupsVanish(Encode(v), |Encode(v)|);
  }

  lemma FiveBytes(v: nat)
    requires |Encode(v)| == 5
    ensures Encode(v)[4] / 16 % 8 == 0 <==> v < TWO32
  {
    EncodeBytes(v, 4);
    FifthGroup(v);
  }

  lemma FifthGroup(v: nat)
    requires v < Pow2(35)
    ensures Group(v, 4) < 128 && (Group(v, 4) < 16 <==> v < TWO32)
  {
    var g := Shr(v, 28);
    assert g < 128 by {
      ShrShr(v, 28, 7);
      ShrBy7(g);
      ShrPositive(v, 35);
    }
    assert g / 16 >= 1 <==> v >= TWO32 by {
      ShrShr(v, 28, 4);
      ShrBy4(g);
      ShrPositive(v, 32);
      ShlBy32(1);
    }
  }

  /** Exactly which 64-bit values, canonically encoded, the 32-bit reader accepts, and what it then reads. */
  lemma Canonical32(v: nat, rest: seq<byte>)
    requires v < TWO64
    ensures Decode32(Encode(v) + rest) == if Value32(v) then Some((v % TWO32, rest)) else None
  {
    EncodeMeaning(v);
    EncodeFitsBuffer(v);
    Decode32Token(Encode(v), rest);
    AcceptsCanonical(v);
  }

  lemma AcceptsCanonical(v: nat)
    requires v < TWO64 && |Encode(v)| <= 10
    ensures Accepts32(Encode(v)) <==> Value32(v)
  {
    if |Encode(v)| <= 4 {
      ShortCanonical(v);
    } else if |Encode(v)| == 5 {
      FiveBytes(v);
      BelowTwo63(v);
      assert Accepts32(Encode(v)) <==> ByteAccepted32(Encode(v), 4);
    } else if |Encode(v)| < 10 {
      SixToNineBytes(v);
    } else {
      TenBytes(v);
    }
  }

  lemma ShortCanonical(v: nat)
    requires |Encode(v)| <= 4
    ensures v < TWO32
  {
    EncodeBytes(v, |Encode(v)| - 1);
    Pow2Monotone(7 * |Encode(v)|, 32);
    ShlBy32(1);
  }

  lemma BelowTwo63(v: nat)
    requires |Encode(v)| < 10
    ensures v < TWO63
  {
    EncodeBytes(v, |Encode(v)| - 1);
    Pow2Monotone(7 * |Encode(v)|, 63);
    ShlBy64(1);
  }

  lemma SixToNineBytes(v: nat)
    requires 6 <= |Encode(v)| < 10
    ensures !Accepts32(Encode(v)) && !Value32(v)
  {
    var last := |Encode(v)| - 1;
    EncodeMeaning(v);
    assert !ByteAccepted32(Encode(v), last);
    BelowTwo63(v);
    EncodeBytes(v, 4);
    Pow2Monotone(32, 35);
    ShlBy32(1);
  }

  lemma TopBit(x: nat)
    requires x < TWO32
    ensures x / TWO31 == 1 <==> x >= TWO31
  {
  }

  lemma LastOfTen(v: nat)
    requires v < TWO64 && |Encode(v)| == 10
    ensures v >= TWO63 && Encode(v)[9] == 1
  {
    EncodeBytes(v, 8);
    EncodeBytes(v, 9);
    ShlBy64(1);
    ShrPositive(v, 63);
    ShrPositive(v, 64);
  }

  lemma MiddleByte(p: seq<byte>, i: nat, g: nat)
    requires |p| == 10 && 5 <= i < 9 && p[i] >= 128 && p[i] % 128 == g
    ensures ByteAccepted32(p, i) <==> (g == 0 || (PrefixValue(p, 5) % TWO32 / TWO31 == 1 && g == 127))
  {
  }

  lemma TenBytes(v: nat)
    requires v < TWO64 && |Encode(v)| == 10
    ensures Accepts32(Encode(v)) <==> Value32(v)
  {
    var p := Encode(v);
    LastOfTen(v);
    LowWordOf(v);
    TopBit(v % TWO32);
    assert ByteAccepted32(p, 4);
    assert ByteAccepted32(p, 9) <==> v % TWO32 >= TWO31;
    forall i | 5 <= i < 9
      ensures ByteAccepted32(p, i) <==> (Group(v, i) == 0 || (v % TWO32 >= TWO31 && Group(v, i) == 127))
    {
      EncodeBytes(v, i);
      MiddleByte(p, i, Group(v, i));
    }
    assert Accepts32(p) <==> ByteAccepted32(p, 9) && forall i :: 5 <= i < 9 ==> ByteAccepted32(p, i);
  }

  /** The readers' contract on int32 and uint32 fields: every value below 2^32 and every sign-extended negative
      int32 is read, every value in [2^32, 2^63) is refused. */
  lemma Reader32Range(v: nat, rest: seq<byte>)
    requires v < TWO64
    ensures v < TWO32 ==> Decode32(Encode(v) + rest) == Some((v, rest))
    ensures v >= TWO64 - TWO31 ==> Decode32(Encode(v) + rest) == Some((v - (TWO64 - TWO32), rest))
    ensures TWO32 <= v < TWO63 ==> Decode32(Encode(v) + rest) == None
  {
    Canonical32(v, rest);
    if v < TWO32 {
      Wrap32(v, 0);
    } else if v >= TWO64 - TWO31 {
      NegativeInt32(v);
    } else if v < TWO63 {
      assert !Value32(v);
    }
  }

  lemma NegativeInt32(v: nat)
    requires TWO64 - TWO31 <= v < TWO64
    ensures Value32(v) && v % TWO32 == v - (TWO64 - TWO32)
  {
    Wrap32(v - (TWO64 - TWO32), TWO32 - 1);
    forall i | 5 <= i < 9 ensures Group(v, i) == 127 { SignGroup(v, i); }
  }

  lemma SignGroup(v: nat, i: nat)
    requires TWO64 - TWO31 <= v < TWO64 && 5 <= i < 9
    ensures Group(v, i) == 127
  {
    ShlBy64(1);
    ShlBy32(1);
    ShrOnes(v, 31, 64, 7 * i);
    ShlBy7(1, 57 - 7 * i);
  }

  // ---------------------------------------------------------------- zigzag

  /** The cast of a 64-bit word to int64_t. */
  function Signed64(v: nat): int
  {
    if v < TWO63 then v else v - TWO64
  }

  /** pb_encode_svarint: `~((uint64_t)value << 1)` for a negative value, `(uint64_t)value << 1` otherwise. */
  function ZigZag(n: int): nat
    requires -TWO63 <= n < TWO63
  {
    if n < 0 then TWO64 - 1 - (n + TWO64) * 2 % TWO64 else n * 2 % TWO64
  }

  /** pb_decode_svarint: `(int64_t)(~(value >> 1))` for an odd word, `(int64_t)(value >> 1)` otherwise. */
  function UnZigZag(v: nat): int
    requires v < TWO64
  {
    if v % 2 == 1 then Signed64(TWO64 - 1 - v / 2) else Signed64(v / 2)
  }

  /** Zigzag numbers 0, -1, 1, -2, 2, ... as 0, 1, 2, 3, 4, ...: it is a bijection between int64 and uint64,
      so small magnitudes get short varints, and the reader's formula is its inverse. */
  lemma ZigZagMeaning(n: int)
    requires -TWO63 <= n < TWO63
    ensures ZigZag(n) == if n < 0 then -2 * n - 1 else 2 * n
    ensures ZigZag(n) < TWO64 && UnZigZag(ZigZag(n)) == n
  {
    if n < 0 {
      Wrap64(2 * n + TWO64, 1);
    } else {
      Wrap64(2 * n, 0);
    }
  }

  lemma UnZigZagMeaning(v: nat)
    requires v < TWO64
    ensures -TWO63 <= UnZigZag(v) < TWO63 && ZigZag(UnZigZag(v)) == v
  {
    ZigZagMeaning(UnZigZag(v));
  }
}
