/** Base 128 varints (Protocol Buffers Encoding, "Base 128 Varints") as nanopb writes and reads them: the encoder, the
    64-bit decoder and skipping, which invert it, and the 32-bit decoder, which reads a quick first byte, takes
    sign-extended negative numbers too, and agrees with the 64-bit one modulo 2^32 wherever both accept. The shifts
    and ors of the C loops are shown to add base-128 digits. */
module Varints {
  import opened Words

  /** The bytes pb_encode_varint writes for an unsigned value. */
  function Encode(v: nat): (s: seq<byte>)
    ensures |s| > 0
    decreases v
  {
    if v < 128 then [v] else [v % 128 + 128] + Encode(v / 128)
  }

  /** Number of bytes in the varint at the front of s: one past its first byte below 128. */
  function Span(s: seq<byte>): (n: Option<nat>)
    ensures n.Some? ==> 0 < n.value <= |s|
  {
    if s == [] then None
    else if s[0] < 128 then Some(1)
    else match Span(s[1..]) case None => None case Some(n) => Some(n + 1)
  }

  /** The number a run of 7-bit groups denotes, least significant group first. */
  function Groups(s: seq<byte>): (n: nat) {
    if s == [] then 0 else s[0] % 128 + 128 * Groups(s[1..])
  }

  /** pb_decode_varint: at most ten groups, reduced to 64 bits. */
  function Decode(s: seq<byte>): (r: Parse<nat>)
    ensures r.Ok? ==> |r.rest| < |s| && r.value < TWO_64
  {
    match Span(s)
    case None => Err
    case Some(n) => if n > 10 then Err else Ok(Groups(s[..n]) % TWO_64, s[n..])
  }

  /** pb_skip_varint puts no bound on the number of groups. */
  function Skip(s: seq<byte>): (r: Parse<()>)
    ensures r.Ok? ==> |r.rest| < |s|
  {
    match Span(s)
    case None => Err
    case Some(n) => Ok((), s[n..])
  }

  /** pb_decode_varint32_eof: a quick first byte, then one turn of its do loop for each further byte. */
  function Decode32(s: seq<byte>): (r: Parse<nat>)
    ensures r.Ok? ==> |r.rest| < |s| && r.value < TWO_32
  {
    if s == [] then Err
    else if s[0] < 128 then Ok(s[0], s[1..])
    else Decode32Loop(s[1..], 7, s[0] % 128)
  }

  /** bitpos is a uint_fast8_t, eight bits wide, so it wraps. */
  function Decode32Loop(s: seq<byte>, bitpos: nat, result: nat): (r: Parse<nat>)
    requires result < TWO_32
    ensures r.Ok? ==> |r.rest| < |s| && r.value < TWO_32
    decreases s
  {
    if s == [] || (bitpos >= 32 && Overflows(s[0], bitpos, result)) then Err
    else
      var next := if bitpos >= 32 then result else OrGroup(result, s[0] % 128, bitpos);
      var bitpos' := (bitpos + 7) % 256;
      if s[0] >= 128 then Decode32Loop(s[1..], bitpos', next)
      else if bitpos' == 35 && s[0] / 16 % 8 != 0 then Err
      else Ok(next, s[1..])
  }

  /** Past bit 32 only padding is accepted: zero groups, or the sign extension of a negative value. */
  predicate Overflows(b: byte, bitpos: nat, result: nat) {
    b % 128 != 0 && (result < 0x8000_0000 || b != if bitpos < 63 then 0xFF else 0x01)
  }

  /** A group shifted left, in 32 bits. */
  function Shl32(group: nat, bitpos: nat): (r: nat)
    ensures r < TWO_32
  {
    if bitpos == 0 then group % TWO_32 else 2 * Shl32(group, bitpos - 1) % TWO_32
  }

  /** The shifted group or-ed onto the result. */
  function OrGroup(result: nat, group: nat, bitpos: nat): (r: nat)
    requires result < TWO_32
    ensures r < TWO_32
  {
    Pow2Word();
    OrBound(result, Shl32(group, bitpos), 32);
    Or(result, Shl32(group, bitpos))
  }

  lemma DoubleModulo(p: nat)
    ensures 2 * (p % TWO_32) % TWO_32 == 2 * p % TWO_32
  {
    var k := p / TWO_32;
    assert 2 * p == 2 * (p % TWO_32) + 2 * k * TWO_32;
  }

  lemma {:induction false} Shl32IsProduct(group: nat, bitpos: nat)
    ensures Shl32(group, bitpos) == group * Pow2(bitpos) % TWO_32
  {
    if bitpos > 0 {
      Shl32IsProduct(group, bitpos - 1);
      var p := group * Pow2(bitpos - 1);
      assert group * Pow2(bitpos) == 2 * p;
      DoubleModulo(p);
    }
  }

  /** The weight of group k of a varint, for the groups that start below bit 32. */
  function Weight(k: nat): (w: nat) {
    if k == 0 then 1 else if k == 1 then 128 else if k == 2 then 0x4000 else if k == 3 then 0x20_0000 else 0x1000_0000
  }

  /** n groups up by k. */
  function At(n: nat, k: nat): (m: nat) {
    if k == 0 then n else if k == 1 then n * 128 else if k == 2 then n * 0x4000
    else if k == 3 then n * 0x20_0000 else n * 0x1000_0000
  }

  lemma WeightIsPower(k: nat)
    requires k <= 4
    ensures Weight(k) == Pow2(7 * k)
  {
    if k == 1 {
      assert Pow2(7) == 128;
    } else if k == 2 {
      assert Pow2(14) == 0x4000;
    } else if k == 3 {
      assert Pow2(21) == 0x20_0000;
    } else if k == 4 {
      assert Pow2(28) == 0x1000_0000;
    }
  }

  lemma OrGroupDisjoint(result: nat, group: nat, bitpos: nat, kept: nat, w: nat)
    requires w == Pow2(bitpos) && result < w && result < TWO_32
    requires group * w % TWO_32 == kept * w
    ensures OrGroup(result, group, bitpos) == result + kept * w
  {
    Shl32IsProduct(group, bitpos);
    OrDisjoint(result, kept, bitpos);
  }

  lemma LowGroup(result: nat, group: nat, k: nat)
    requires 1 <= k <= 3 && result < Weight(k) && group < 128
    ensures OrGroup(result, group, 7 * k) == result + At(group, k) < Weight(k + 1)
  {
    WeightIsPower(k);
    if k == 1 {
      OrGroupDisjoint(result, group, 7, group, 0x80);
    } else if k == 2 {
      OrGroupDisjoint(result, group, 14, group, 0x4000);
    } else {
      OrGroupDisjoint(result, group, 21, group, 0x20_0000);
    }
  }

  /** Only four bits of the fifth group fit. */
  lemma FifthGroup(result: nat, group: nat)
    requires result < Weight(4) && group < 128
    ensures OrGroup(result, group, 28) == (result + At(group, 4)) % TWO_32
  {
    WeightIsPower(4);
    var kept, lost := group % 16, group / 16;
    assert group * 0x1000_0000 == kept * 0x1000_0000 + lost * TWO_32;
    OrGroupDisjoint(result, group, 28, kept, 0x1000_0000);
    ModuloTwo32(result + kept * 0x1000_0000, lost);
  }

  lemma ModuloTwo32(low: nat, lost: nat)
    requires low < TWO_32
    ensures (low + lost * TWO_32) % TWO_32 == low
  {
  }

  /** Or-ing group k onto the lower groups adds it at its weight, modulo 2^32. */
  lemma OrGroupIsSum(result: nat, group: nat, k: nat)
    requires 1 <= k <= 4 && result < Weight(k) && group < 128
    ensures OrGroup(result, group, 7 * k) == (result + At(group, k)) % TWO_32
    ensures k < 4 ==> OrGroup(result, group, 7 * k) == result + At(group, k) < Weight(k + 1)
  {
    if k == 4 {
      FifthGroup(result, group);
    } else {
      LowGroup(result, group, k);
    }
  }

  // ----- One byte at a time -----

  lemma EncodeCons(v: nat, t: seq<byte>)
    requires v >= 128
    ensures Encode(v) + t == [v % 128 + 128] + (Encode(v / 128) + t)
  {
  }

  lemma Decode32Cons(b: byte, s: seq<byte>)
    ensures Decode32([b] + s) == if b < 128 then Ok(b, s) else Decode32Loop(s, 7, b % 128)
  {
    assert ([b] + s)[1..] == s;
  }

  lemma Loop32Cons(b: byte, s: seq<byte>, bitpos: nat, result: nat)
    requires b >= 128 && bitpos < 32 && result < TWO_32
    ensures Decode32Loop([b] + s, bitpos, result) == Decode32Loop(s, bitpos + 7, OrGroup(result, b % 128, bitpos))
  {
    assert ([b] + s)[1..] == s;
  }

  // ----- The encoder is inverted -----

  lemma {:induction false} SpanOfEncode(v: nat, t: seq<byte>)
    ensures Span(Encode(v) + t) == Some(|Encode(v)|)
    ensures Groups(Encode(v)) == v
  {
    if v >= 128 {
      assert (Encode(v) + t)[1..] == Encode(v / 128) + t;
      assert Encode(v)[1..] == Encode(v / 128);
      SpanOfEncode(v / 128, t);
    }
  }

  function Pow128(n: nat): (p: nat) {
    if n == 0 then 1 else 128 * Pow128(n - 1)
  }

  lemma Pow128OfTen()
    ensures Pow128(10) >= TWO_64
  {
    assert Pow128(2) == 0x4000;
    assert Pow128(4) == 0x1000_0000;
    assert Pow128(6) == 0x400_0000_0000;
    assert Pow128(8) == 0x100_0000_0000_0000;
  }

  lemma {:induction false} EncodeLength(v: nat, n: nat)
    requires v < Pow128(n) && n > 0
    ensures |Encode(v)| <= n
  {
    if v >= 128 {
      EncodeLength(v / 128, n - 1);
    }
  }

  /** Every uint64 takes at most ten bytes and is read back, whatever follows it. */
  lemma DecodeInvertsEncode(v: nat, t: seq<byte>)
    requires v < TWO_64
    ensures |Encode(v)| <= 10
    ensures Decode(Encode(v) + t) == Ok(v, t)
  {
    var e := Encode(v);
    assert |e| <= 10 by {
      Pow128OfTen();
      EncodeLength(v, 10);
    }
    SpanOfEncode(v, t);
    assert (e + t)[..|e|] == e && (e + t)[|e|..] == t;
  }

  lemma SkipInvertsEncode(v: nat, t: seq<byte>)
    ensures Skip(Encode(v) + t) == Ok((), t)
  {
    SpanOfEncode(v, t);
    assert (Encode(v) + t)[|Encode(v)|..] == t;
  }

  // ----- Zigzag -----

  /** pb_encode_svarint's mapping of an int64 to an unsigned word. */
  function ZigZag(n: int): (u: nat)
    requires -TWO_63 <= n < TWO_63
    ensures u < TWO_64
  {
    if n < 0 then -2 * n - 1 else 2 * n
  }

  /** pb_decode_svarint's mapping back. */
  function UnZigZag(u: nat): (n: int)
    requires u < TWO_64
    ensures -TWO_63 <= n < TWO_63
  {
    if u % 2 == 1 then -(u / 2) - 1 else u / 2
  }

  /** Through zigzag, every int64 is read back. */
  lemma SignedInvertsEncode(n: int, t: seq<byte>)
    requires -TWO_63 <= n < TWO_63
    ensures Decode(Encode(ZigZag(n)) + t).Ok?
    ensures var r := Decode(Encode(ZigZag(n)) + t); UnZigZag(r.value) == n && r.rest == t
  {
    DecodeInvertsEncode(ZigZag(n), t);
  }

  // ----- The 32-bit decoder -----

  /** From bit 35 on, the loop accepts padding or fails; it never changes the result. */
  lemma {:induction false} TailKeepsResult(s: seq<byte>, bitpos: nat, result: nat)
    requires result < TWO_32 && 35 <= bitpos
    requires Span(s).Some? && bitpos + 7 * Span(s).value <= 70
    requires Decode32Loop(s, bitpos, result).Ok?
    ensures Decode32Loop(s, bitpos, result) == Ok(result, s[Span(s).value..])
    decreases s
  {
    if s[0] >= 128 {
      TailKeepsResult(s[1..], bitpos + 7, result);
    }
  }

  lemma AddGroup(k: nat, result: nat, group: nat, higher: nat)
    requires 1 <= k <= 4
    ensures var next := result + At(group, k);
            (result + At(group + 128 * higher, k)) % TWO_32
            == (if k < 4 then next + At(higher, k + 1) else next) % TWO_32
  {
    if k == 4 {
      var m := 8 * higher;
      assert (group + 128 * higher) * 0x1000_0000 == group * 0x1000_0000 + m * TWO_32;
    }
  }

  lemma {:induction false} Loop32Value(s: seq<byte>, k: nat, result: nat)
    requires 1 <= k <= 4 && result < Weight(k)
    requires Span(s).Some? && k + Span(s).value <= 10
    requires Decode32Loop(s, 7 * k, result).Ok?
    ensures var n := Span(s).value;
            Decode32Loop(s, 7 * k, result) == Ok((result + At(Groups(s[..n]), k)) % TWO_32, s[n..])
    decreases s
  {
    var n, g, tail := Span(s).value, s[0] % 128, s[1..];
    SplitGroups(s);
    OrGroupIsSum(result, g, k);
    AddGroup(k, result, g, Groups(tail[..n - 1]));
    assert s == [s[0]] + tail;
    if s[0] < 128 {
      Loop32Last(s[0], tail, k, result);
    } else if k < 4 {
      Loop32Cons(s[0], tail, 7 * k, result);
      Loop32Value(tail, k + 1, OrGroup(result, g, 7 * k));
    } else {
      Loop32Fifth(s, result);
    }
  }

  /** After the fifth byte the value is complete; further bytes may only pad. */
  lemma Loop32Fifth(s: seq<byte>, result: nat)
    requires result < Weight(4) && Span(s).Some? && Span(s).value <= 6 && s[0] >= 128
    requires Decode32Loop(s, 28, result).Ok?
    ensures Decode32Loop(s, 28, result) == Ok(OrGroup(result, s[0] % 128, 28), s[Span(s).value..])
  {
    assert s == [s[0]] + s[1..];
    Loop32Cons(s[0], s[1..], 28, result);
    TailKeepsResult(s[1..], 35, OrGroup(result, s[0] % 128, 28));
    SplitGroups(s);
  }

  lemma SplitGroups(s: seq<byte>)
    requires Span(s).Some?
    ensures var n := Span(s).value; Groups(s[..n]) == s[0] % 128 + 128 * Groups(s[1..][..n - 1])
    ensures s[0] < 128 ==> Span(s).value == 1 && Groups(s[1..][..0]) == 0
    ensures s[0] >= 128 ==> Span(s[1..]) == Some(Span(s).value - 1) && s[1..][Span(s).value - 1..] == s[Span(s).value..]
  {
    GroupsOfFront(s, Span(s).value);
    assert s[1..][..0] == [];
  }

  lemma GroupsOfFront(s: seq<byte>, n: nat)
    requires 0 < n <= |s|
    ensures Groups(s[..n]) == s[0] % 128 + 128 * Groups(s[1..][..n - 1])
    ensures s[1..][n - 1..] == s[n..]
  {
    assert s[..n][1..] == s[1..][..n - 1];
  }

  lemma NestedModulo(v: nat)
    ensures v % TWO_64 % TWO_32 == v % TWO_32
  {
    var k := v / TWO_64 * TWO_32;
    assert v == v % TWO_64 + k * TWO_32;
  }

  /** Whenever both decoders accept, the 32-bit one reads the 64-bit value modulo 2^32 and stops at the same byte. */
  lemma Decode32IsDecodeModulo(s: seq<byte>)
    requires Decode(s).Ok? && Decode32(s).Ok?
    ensures Decode32(s) == Ok(Decode(s).value % TWO_32, Decode(s).rest)
  {
    var n, tail := Span(s).value, s[1..];
    assert s[..n][1..] == tail[..n - 1];
    var v := Groups(s[..n]);
    NestedModulo(v);
    if s[0] >= 128 {
      Loop32Value(tail, 1, s[0] % 128);
      assert tail[n - 1..] == s[n..];
    } else {
      assert s[..1][1..] == [];
      assert Groups(s[..1][1..]) == 0;
    }
  }

  /** What is left of a uint32 once k groups are read. */
  function Remaining(k: nat): (limit: nat) {
    if k <= 1 then 0x200_0000 else if k == 2 then 0x4_0000 else if k == 3 then 0x800 else 16
  }

  lemma Loop32Step(q: nat, bitpos: nat, result: nat, t: seq<byte>)
    requires bitpos < 32 && q >= 128 && result < TWO_32
    ensures Decode32Loop(Encode(q) + t, bitpos, result)
         == Decode32Loop(Encode(q / 128) + t, bitpos + 7, OrGroup(result, q % 128, bitpos))
  {
    var b, rest := q % 128 + 128, q / 128;
    GroupByte(q);
    EncodeCons(q, t);
    Loop32Cons(b, Encode(rest) + t, bitpos, result);
  }

  lemma OneGroup(q: nat, k: nat, result: nat, t: seq<byte>) returns (next: nat)
    requires 1 <= k <= 4 && q >= 128 && result < Weight(k)
    ensures next < TWO_32 && (k < 4 ==> next < Weight(k + 1))
    ensures Decode32Loop(Encode(q) + t, 7 * k, result) == Decode32Loop(Encode(q / 128) + t, 7 * k + 7, next)
    ensures (result + At(q, k)) % TWO_32 == if k < 4 then (next + At(q / 128, k + 1)) % TWO_32 else next
    ensures k < 4 ==> result + At(q, k) == next + At(q / 128, k + 1)
  {
    next := OrGroup(result, q % 128, 7 * k);
    Loop32Step(q, 7 * k, result, t);
    assert q == q % 128 + 128 * (q / 128);
    OrGroupIsSum(result, q % 128, k);
    AddGroup(k, result, q % 128, q / 128);
  }

  lemma Loop32Last(b: byte, s: seq<byte>, k: nat, result: nat)
    requires 1 <= k <= 4 && b < 128 && result < TWO_32
    ensures Decode32Loop([b] + s, 7 * k, result)
         == if k == 4 && b >= 16 then Err else Ok(OrGroup(result, b, 7 * k), s)
  {
    assert ([b] + s)[1..] == s;
  }

  lemma {:induction false} Loop32Reads(q: nat, k: nat, result: nat, t: seq<byte>)
    requires 1 <= k <= 4 && result < Weight(k) && q < Remaining(k)
    ensures Decode32Loop(Encode(q) + t, 7 * k, result) == Ok(result + At(q, k), t)
    decreases 4 - k
  {
    SumFits(q, k, result);
    if q >= 128 {
      var next := OneGroup(q, k, result, t);
      Loop32Reads(q / 128, k + 1, next, t);
    } else {
      ReadsLast(q, k, result, t);
    }
  }

  lemma ReadsLast(q: nat, k: nat, result: nat, t: seq<byte>)
    requires 1 <= k <= 4 && result < Weight(k) && q < 128 && q < Remaining(k)
    ensures Decode32Loop(Encode(q) + t, 7 * k, result) == Ok(result + At(q, k), t)
  {
    SumFits(q, k, result);
    LastGroup(q, k, result);
    Loop32Last(q, t, k, result);
  }

  lemma LastGroup(q: nat, k: nat, result: nat)
    requires 1 <= k <= 4 && result < Weight(k) && q < 128 && result + At(q, k) < TWO_32
    ensures OrGroup(result, q, 7 * k) == result + At(q, k)
  {
    OrGroupIsSum(result, q, k);
  }

  lemma SumFits(q: nat, k: nat, result: nat)
    requires 1 <= k <= 4 && result < Weight(k) && q < Remaining(k)
    ensures result + At(q, k) < TWO_32
    ensures q >= 128 ==> k < 4 && q / 128 < Remaining(k + 1)
  {
  }

  lemma FirstGroup(v: nat, t: seq<byte>)
    requires v >= 128
    ensures Decode32(Encode(v) + t) == Decode32Loop(Encode(v / 128) + t, 7, v % 128)
  {
    var b, rest := v % 128 + 128, v / 128;
    GroupByte(v);
    EncodeCons(v, t);
    Decode32Cons(b, Encode(rest) + t);
  }

  lemma GroupByte(v: nat)
    ensures 128 <= v % 128 + 128 < 256 && (v % 128 + 128) % 128 == v % 128
  {
  }

  /** The 32-bit decoder inverts the encoder on every uint32. */
  lemma Decode32InvertsEncode(v: nat, t: seq<byte>)
    requires v < TWO_32
    ensures Decode32(Encode(v) + t) == Ok(v, t)
  {
    if v >= 128 {
      FirstGroup(v, t);
      Loop32Reads(v / 128, 1, v % 128, t);
    } else {
      Decode32Cons(v, t);
    }
  }

  function DropGroups(q: nat, n: nat): (r: nat) {
    if n == 0 then q else DropGroups(q / 128, n - 1)
  }

  /** The first five groups leave the low 32 bits in the result. */
  lemma {:induction false} FiveGroups(q: nat, k: nat, result: nat, t: seq<byte>)
    requires 1 <= k <= 4 && result < Weight(k) && DropGroups(q, 5 - k) > 0
    ensures Decode32Loop(Encode(q) + t, 7 * k, result)
         == Decode32Loop(Encode(DropGroups(q, 5 - k)) + t, 35, (result + At(q, k)) % TWO_32)
    decreases 4 - k
  {
    if q < 128 {
      DropSmall(q, 5 - k);
    }
    var next := OneGroup(q, k, result, t);
    if k < 4 {
      FiveGroups(q / 128, k + 1, next, t);
    } else {
      assert DropGroups(q, 1) == q / 128;
    }
  }

  lemma DropOnes(q: nat)
    requires 0x1FF_FFFF_FF00_0000 <= q < 0x200_0000_0000_0000
    ensures DropGroups(q, 4) == 0x1FFF_FFFF
  {
    var q2 := q / 128;
    assert 0x3_FFFF_FFFE_0000 <= q2 < 0x4_0000_0000_0000;
    var q3 := q2 / 128;
    assert 0x7FF_FFFF_FC00 <= q3 < 0x800_0000_0000;
    var q4 := q3 / 128;
    assert 0xF_FFFF_FFF8 <= q4 < 0x10_0000_0000;
    assert DropGroups(q4, 1) == q4 / 128;
    assert DropGroups(q2, 3) == DropGroups(q3, 2);
  }

  lemma DropSmall(q: nat, n: nat)
    requires n > 0 && q < 128
    ensures DropGroups(q, n) == 0
  {
  }

  lemma {:induction false} PaddingAccepted(q: nat, bitpos: nat, result: nat, t: seq<byte>)
    requires 0x8000_0000 <= result < TWO_32
    requires bitpos in {35, 42, 49, 56, 63}
    requires q == (if bitpos == 35 then 0x1FFF_FFFF else if bitpos == 42 then 0x3F_FFFF else if bitpos == 49 then 0x7FFF
                   else if bitpos == 56 then 0xFF else 1)
    ensures Decode32Loop(Encode(q) + t, bitpos, result) == Ok(result, t)
    decreases q
  {
    if bitpos < 63 {
      assert (Encode(q) + t)[1..] == Encode(q / 128) + t;
      PaddingAccepted(q / 128, bitpos + 7, result, t);
    } else {
      assert (Encode(q) + t)[1..] == t;
    }
  }

  lemma SixGroups(q: nat, r: nat, low: nat, t: seq<byte>)
    requires r < 128 && DropGroups(q, 4) == 0x1FFF_FFFF
    requires (r + At(q, 1)) % TWO_32 == low >= 0x8000_0000
    ensures Decode32Loop(Encode(q) + t, 7, r) == Ok(low, t)
  {
    FiveGroups(q, 1, r, t);
    PaddingAccepted(0x1FFF_FFFF, 35, low, t);
  }

  lemma HighWord(v: nat)
    requires TWO_64 - 0x8000_0000 <= v < TWO_64
    ensures (v % 128 + At(v / 128, 1)) % TWO_32 == v - 0xFFFF_FFFF * TWO_32 >= 0x8000_0000
  {
    assert v % 128 + At(v / 128, 1) == v;
  }

  lemma Decode32InvertsHigh(v: nat, low: nat, t: seq<byte>)
    requires TWO_64 - 0x8000_0000 <= v < TWO_64 && low == v - 0xFFFF_FFFF * TWO_32
    ensures Decode32(Encode(v) + t) == Ok(low, t)
  {
    FirstGroup(v, t);
    DropOnes(v / 128);
    HighWord(v);
    SixGroups(v / 128, v % 128, low, t);
  }

  lemma NegativeWord(n: int)
    requires -0x8000_0000 <= n < 0
    ensures TWO_64 - 0x8000_0000 <= Unsigned64(n) < TWO_64 && n + TWO_32 == Unsigned64(n) - 0xFFFF_FFFF * TWO_32
    ensures Signed(n + TWO_32, 4) == n
  {
  }

  /** The 32-bit decoder also inverts the encoder on every negative int32, which is sent sign-extended to 64 bits. */
  lemma Decode32InvertsNegative(n: int, t: seq<byte>)
    requires -0x8000_0000 <= n < 0
    ensures Decode32(Encode(Unsigned64(n)) + t) == Ok(n + TWO_32, t)
    ensures Signed(n + TWO_32, 4) == n
  {
    NegativeWord(n);
    Decode32InvertsHigh(Unsigned64(n), n + TWO_32, t);
  }

  // ----- The 64-bit decoder's loop -----

  /** The shifted group or-ed onto the result, in 64 bits. */
  function OrGroup64(result: nat, group: nat, bitpos: nat): (r: nat) {
    Or(result, group * Pow2(bitpos) % TWO_64)
  }

  lemma Pow2Seven(n: nat)
    ensures Pow2(n + 7) == 128 * Pow2(n)
  {
    Pow2Add(7, n);
    assert Pow2(7) == 128;
  }

  lemma {:induction false} GroupsSnoc(p: seq<byte>, b: byte)
    ensures Groups(p + [b]) == Groups(p) + b % 128 * Pow2(7 * |p|)
    ensures Groups(p) < Pow2(7 * |p|)
  {
    if p == [] {
      assert [b][1..] == [];
    } else {
      assert (p + [b])[1..] == p[1..] + [b];
      GroupsSnoc(p[1..], b);
      Pow2Seven(7 * |p| - 7);
      MulShuffle(128, b % 128, Pow2(7 * |p| - 7));
    }
  }

  lemma PowerBelow64(n: nat)
    requires n <= 64
    ensures Pow2(n) <= TWO_64
  {
    Pow2Of64();
    Pow2Add(n, 64 - n);
    MulMono(1, Pow2(64 - n), Pow2(n));
  }

  lemma GroupsBelow(p: seq<byte>)
    requires |p| < 10
    ensures Groups(p) < Pow2(7 * |p|) && Groups(p) < TWO_64
  {
    GroupsSnoc(p, 0);
    PowerBelow64(7 * |p|);
  }

  lemma OrGroup64Adds(n: nat, group: nat, bitpos: nat, sum: nat)
    requires n < TWO_64 && n < Pow2(bitpos) && bitpos < 64 && sum == n + group * Pow2(bitpos)
    ensures OrGroup64(n % TWO_64, group, bitpos) == sum % TWO_64
  {
    SmallModulo(n);
    TruncatedShift(n, group, bitpos);
  }

  /** One turn of pb_decode_varint's loop keeps the value of the groups read, modulo 2^64. */
  lemma OrGroup64Value(p: seq<byte>, b: byte)
    requires |p| < 10
    ensures OrGroup64(Groups(p) % TWO_64, b % 128, 7 * |p|) == Groups(p + [b]) % TWO_64
  {
    GroupsBelow(p);
    GroupsSnoc(p, b);
    OrGroup64Adds(Groups(p), b % 128, 7 * |p|, Groups(p + [b]));
  }

  lemma {:induction false} SpanAfter(p: seq<byte>, t: seq<byte>)
    requires forall i | 0 <= i < |p| :: p[i] >= 128
    ensures Span(p + t) == match Span(t) case None => None case Some(n) => Some(|p| + n)
  {
    if p == [] {
      assert p + t == t;
    } else {
      assert (p + t)[1..] == p[1..] + t;
      SpanAfter(p[1..], t);
    }
  }

  lemma SkipTurn(p: seq<byte>, t: seq<byte>)
    requires forall i | 0 <= i < |p| :: p[i] >= 128
    ensures t == [] ==> Skip(p + t) == Err
    ensures t != [] && t[0] < 128 ==> Skip(p + t) == Ok((), t[1..])
  {
    SpanAfter(p, t);
    if t != [] {
      assert (p + t)[|p| + 1..] == t[1..];
    }
  }

  /** What the loop does after reading the continuation bytes p, with t still to come. */
  lemma LoopTurn64(p: seq<byte>, t: seq<byte>)
    requires |p| <= 10 && forall i | 0 <= i < |p| :: p[i] >= 128
    ensures |p| == 10 || t == [] ==> Decode(p + t) == Err
    ensures |p| < 10 && t != [] ==>
      var next := OrGroup64(Groups(p) % TWO_64, t[0] % 128, 7 * |p|);
      next == Groups(p + [t[0]]) % TWO_64 && (t[0] < 128 ==> Decode(p + t) == Ok(next, t[1..]))
  {
    SpanAfter(p, t);
    if |p| < 10 && t != [] {
      OrGroup64Value(p, t[0]);
      assert (p + t)[..|p| + 1] == p + [t[0]] && (p + t)[|p| + 1..] == t[1..];
    }
  }

  // ----- Bytes after a varint do not change how it is read -----

  lemma {:induction false} SpanPrefix(s: seq<byte>, t: seq<byte>)
    requires Span(s).Some?
    ensures Span(s + t) == Span(s)
  {
    if s[0] >= 128 {
      assert (s + t)[1..] == s[1..] + t;
      SpanPrefix(s[1..], t);
    }
  }

  lemma DecodePrefix(s: seq<byte>, t: seq<byte>)
    requires Decode(s).Ok?
    ensures Decode(s + t) == Ok(Decode(s).value, Decode(s).rest + t)
  {
    SpanPrefix(s, t);
    var n := Span(s).value;
    assert (s + t)[..n] == s[..n] && (s + t)[n..] == s[n..] + t;
  }

  lemma SkipPrefix(s: seq<byte>, t: seq<byte>)
    requires Skip(s).Ok?
    ensures Skip(s + t) == Ok((), Skip(s).rest + t)
  {
    SpanPrefix(s, t);
    var n := Span(s).value;
    assert (s + t)[n..] == s[n..] + t;
  }

  lemma {:induction false} Loop32Prefix(s: seq<byte>, bitpos: nat, result: nat, t: seq<byte>)
    requires result < TWO_32 && Decode32Loop(s, bitpos, result).Ok?
    ensures var r := Decode32Loop(s, bitpos, result); Decode32Loop(s + t, bitpos, result) == Ok(r.value, r.rest + t)
    decreases s
  {
    assert (s + t)[1..] == s[1..] + t;
    if s[0] >= 128 {
      var next := if bitpos >= 32 then result else OrGroup(result, s[0] % 128, bitpos);
      Loop32Prefix(s[1..], (bitpos + 7) % 256, next, t);
    }
  }

  lemma Decode32Prefix(s: seq<byte>, t: seq<byte>)
    requires Decode32(s).Ok?
    ensures Decode32(s + t) == Ok(Decode32(s).value, Decode32(s).rest + t)
  {
    assert (s + t)[1..] == s[1..] + t;
    if s[0] >= 128 {
      Loop32Prefix(s[1..], 7, s[0] % 128, t);
    }
  }
}
