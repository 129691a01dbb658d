/** Which bytes are a varint, and which of them the 32-bit decoder takes. */
module VarintLimits {
  import opened Words
  import opened Varints

  // ----- The bytes of a varint -----

  /** The encoder writes the base-128 digits, the low one first, each but the last with its high bit set, and no
      leading zero digit. */
  lemma {:induction false} EncodeShape(v: nat, k: nat)
    requires k < |Encode(v)|
    ensures Encode(v)[k] % 128 == DropGroups(v, k) % 128
    ensures Encode(v)[k] >= 128 <==> k + 1 < |Encode(v)|
    ensures k + 1 == |Encode(v)| && k > 0 ==> Encode(v)[k] != 0
    decreases k
  {
    if k > 0 {
      EncodeShape(v / 128, k - 1);
    }
  }

  /** The digits with their weights, from the low one up. */
  function Weighted(s: seq<byte>, n: nat): (v: nat)
    requires n <= |s|
  {
    if n == 0 then 0 else Weighted(s, n - 1) + s[n - 1] as int % 128 * Pow128(n - 1)
  }

  lemma {:induction false} GroupsAreWeighted(s: seq<byte>, n: nat)
    requires n <= |s|
    ensures Groups(s[..n]) == Weighted(s, n)
  {
    if n > 0 {
      GroupsAreWeighted(s, n - 1);
      assert s[..n] == s[..n - 1] + [s[n - 1]];
      AppendGroup(s[..n - 1], s[n - 1]);
    } else {
      assert s[..0] == [];
    }
  }

  lemma {:induction false} AppendGroup(p: seq<byte>, b: byte)
    ensures Groups(p + [b]) == Groups(p) + b % 128 * Pow128(|p|)
  {
    if p == [] {
      assert p + [b] == [b] && [b][1..] == [];
      assert Groups([b]) == b % 128 + 128 * Groups([]);
    } else {
      AppendGroup(p[1..], b);
      assert (p + [b])[1..] == p[1..] + [b];
      var g, w := b as int % 128, Pow128(|p| - 1);
      assert 128 * (g * w) == g * (128 * w);
    }
  }

  /** A varint of n bytes is at the front: the n-th byte is the first without a high bit. */
  predicate Ends(s: seq<byte>, n: nat) {
    0 < n <= |s| && s[n - 1] < 128 && forall k | 0 <= k < n - 1 :: s[k] >= 128
  }

  lemma {:induction false} SpanExactly(s: seq<byte>)
    ensures Span(s).None? <==> forall k | 0 <= k < |s| :: s[k] >= 128
    ensures Span(s).Some? ==> Ends(s, Span(s).value)
  {
    if s != [] && s[0] >= 128 {
      SpanExactly(s[1..]);
      assert forall k | 0 < k < |s| :: s[k] == s[1..][k - 1];
    }
  }

  /** The 64-bit decoder takes a varint of at most ten bytes, and reads its digits modulo 2^64. */
  lemma DecodesExactly(s: seq<byte>, n: nat)
    requires Ends(s, n)
    ensures Decode(s) == if n <= 10 then Ok(Weighted(s, n) % TWO_64, s[n..]) else Err
  {
    SpanExactly(s);
    assert Span(s) == Some(n);
    GroupsAreWeighted(s, n);
  }

  /** Skipping passes over a varint of any length. */
  lemma SkipsExactly(s: seq<byte>)
    ensures Skip(s).Err? <==> forall k | 0 <= k < |s| :: s[k] >= 128
    ensures forall n: nat | Ends(s, n) :: Skip(s) == Ok((), s[n..])
  {
    SpanExactly(s);
  }

  // ----- What the 32-bit decoder takes -----

  /** A byte that the decoder takes behind bit 34: no digit, or the sign extension of a negative value, which is all
      ones up to bit 62 and a one at bit 63. */
  predicate Padding(b: byte, k: nat, low: nat) {
    b % 128 == 0 || (low >= 0x8000_0000 && b == if k < 9 then 0xFF else 0x01)
  }

  /** The bytes from the k-th on, of which there are n, are taken if the low 32 bits are low. A fifth byte that is the
      last may have only its four low bits, every later one only padding. */
  predicate Taken(s: seq<byte>, n: nat, k: nat, low: nat)
    requires n <= |s|
  {
    && (k <= 4 && k + n == 5 ==> s[n - 1] < 16)
    && forall j | 0 <= j < n && k + j >= 5 :: Padding(s[j], k + j, low)
  }

  lemma {:induction false} TailExactly(s: seq<byte>, n: nat, k: nat, result: nat)
    requires Ends(s, n) && 5 <= k && k + n <= 10 && result < TWO_32
    ensures Decode32Loop(s, 7 * k, result) == if Taken(s, n, k, result) then Ok(result, s[n..]) else Err
    decreases n
  {
    if n > 1 {
      TailExactly(s[1..], n - 1, k + 1, result);
      assert forall j | 0 < j < n :: s[j] == s[1..][j - 1];
      assert s[1..][n - 1..] == s[n..];
      TakenTail(s, n, k, result);
    }
  }

  lemma TakenTail(s: seq<byte>, n: nat, k: nat, low: nat)
    requires 1 < n <= |s|
    ensures Taken(s, n, k, low) <==> Taken(s[1..], n - 1, k + 1, low) && (k >= 5 ==> Padding(s[0], k, low))
  {
    var t := s[1..];
    if Taken(t, n - 1, k + 1, low) && (k >= 5 ==> Padding(s[0], k, low)) {
      forall j | 0 <= j < n && k + j >= 5
        ensures Padding(s[j], k + j, low)
      {
        if j > 0 {
          assert Padding(t[j - 1], k + 1 + (j - 1), low);
        }
      }
    }
    if Taken(s, n, k, low) {
      forall j | 0 <= j < n - 1 && k + 1 + j >= 5
        ensures Padding(t[j], k + 1 + j, low)
      {
        assert Padding(s[j + 1], k + (j + 1), low);
      }
    }
  }

  lemma OneByte(s: seq<byte>)
    requires Ends(s, 1)
    ensures Groups(s[..1]) == s[0] && s == [s[0]] + s[1..]
  {
    GroupsOfFront(s, 1);
    assert s[1..][..0] == [];
  }

  lemma HeadLast(s: seq<byte>, k: nat, result: nat, low: nat)
    requires Ends(s, 1) && 1 <= k <= 4 && result < Weight(k) && low == (result + At(Groups(s[..1]), k)) % TWO_32
    ensures Decode32Loop(s, 7 * k, result) == if Taken(s, 1, k, low) then Ok(low, s[1..]) else Err
  {
    OneByte(s);
    var b := s[0];
    OrGroupIsSum(result, b, k);
    Loop32Last(b, s[1..], k, result);
    assert Taken(s, 1, k, low) <==> (k == 4 ==> b < 16);
  }

  /** One byte on, the low 32 bits to come are the same. */
  lemma HeadStep(s: seq<byte>, n: nat, k: nat, result: nat) returns (next: nat)
    requires Ends(s, n) && n > 1 && 1 <= k <= 4 && result < Weight(k)
    ensures next < TWO_32 && (k < 4 ==> next < Weight(k + 1))
    ensures Decode32Loop(s, 7 * k, result) == Decode32Loop(s[1..], 7 * k + 7, next)
    ensures (result + At(Groups(s[..n]), k)) % TWO_32
         == if k < 4 then (next + At(Groups(s[1..][..n - 1]), k + 1)) % TWO_32 else next
  {
    var g := s[0] % 128;
    EndsTail(s, n);
    GroupsOfFront(s, n);
    OrGroupIsSum(result, g, k);
    AddGroup(k, result, g, Groups(s[1..][..n - 1]));
    assert s == [s[0]] + s[1..];
    Loop32Cons(s[0], s[1..], 7 * k, result);
    next := OrGroup(result, g, 7 * k);
  }

  lemma {:induction false} HeadExactly(s: seq<byte>, n: nat, k: nat, result: nat, low: nat)
    requires Ends(s, n) && 1 <= k <= 4 && k + n <= 10 && result < Weight(k)
    requires low == (result + At(Groups(s[..n]), k)) % TWO_32
    ensures Decode32Loop(s, 7 * k, result) == if Taken(s, n, k, low) then Ok(low, s[n..]) else Err
    decreases n
  {
    if n == 1 {
      HeadLast(s, k, result, low);
    } else {
      var next := HeadStep(s, n, k, result);
      EndsTail(s, n);
      TakenTail(s, n, k, low);
      if k < 4 {
        HeadExactly(s[1..], n - 1, k + 1, next, low);
      } else {
        TailExactly(s[1..], n - 1, 5, next);
      }
    }
  }

  lemma EndsTail(s: seq<byte>, n: nat)
    requires Ends(s, n) && n > 1
    ensures Ends(s[1..], n - 1) && s[1..][n - 1..] == s[n..] && s[0] >= 128
  {
    assert forall j | 0 < j < n :: s[j] == s[1..][j - 1];
  }

  lemma FirstByte(s: seq<byte>, n: nat, v: nat)
    requires Ends(s, n) && n > 1 && v == Groups(s[..n])
    ensures Decode32(s) == Decode32Loop(s[1..], 7, s[0] % 128)
    ensures v == s[0] % 128 + At(Groups(s[1..][..n - 1]), 1)
  {
    EndsTail(s, n);
    GroupsOfFront(s, n);
    assert s == [s[0]] + s[1..];
    Decode32Cons(s[0], s[1..]);
  }

  lemma ManyBytes(s: seq<byte>, n: nat, low: nat)
    requires Ends(s, n) && 1 < n <= 10 && low == Groups(s[..n]) % TWO_32
    ensures Decode32(s) == if Taken(s, n, 0, low) then Ok(low, s[n..]) else Err
  {
    FirstByte(s, n, Groups(s[..n]));
    EndsTail(s, n);
    HeadExactly(s[1..], n - 1, 1, s[0] % 128, low);
    TakenTail(s, n, 0, low);
  }

  /** Of the varints of at most ten bytes the 32-bit decoder takes exactly those with such a fifth byte and padding,
      and reads the low 32 bits. */
  lemma Decode32Exactly(s: seq<byte>, n: nat)
    requires Ends(s, n) && n <= 10
    ensures var low := Weighted(s, n) % TWO_32;
            Decode32(s) == if Taken(s, n, 0, low) then Ok(low, s[n..]) else Err
  {
    GroupsAreWeighted(s, n);
    if n == 1 {
      GroupsOfFront(s, n);
      assert s[1..][..0] == [];
    } else {
      ManyBytes(s, n, Groups(s[..n]) % TWO_32);
    }
  }

  /** So a value beyond 32 bits need not be refused: with padding behind it the fifth byte may have any bits, and those
      from bit 32 to bit 34 are lost. Here 2^32 is read as 0. */
  lemma HighBitsLost(s: seq<byte>)
    requires s == [0x80, 0x80, 0x80, 0x80, 0x90, 0x00]
    ensures Decode(s) == Ok(0x1_0000_0000, []) && Decode32(s) == Ok(0, [])
  {
    HighBits(s);
    HighBitsTaken(s, 0x1_0000_0000);
  }

  lemma HighBitsTaken(s: seq<byte>, v: nat)
    requires |s| == 6 && Ends(s, 6) && s[5] == 0 && Weighted(s, 6) == v && v % TWO_32 == 0 && v < TWO_64
    ensures Decode(s) == Ok(v, []) && Decode32(s) == Ok(0, [])
  {
    assert s[6..] == [];
    DecodesExactly(s, 6);
    LastIsPadding(s, 0);
    Decode32Exactly(s, 6);
  }

  lemma LastIsPadding(s: seq<byte>, low: nat)
    requires |s| == 6 && s[5] == 0
    ensures Taken(s, 6, 0, low)
  {
  }

  lemma HighBits(s: seq<byte>)
    requires s == [0x80, 0x80, 0x80, 0x80, 0x90, 0x00]
    ensures Weighted(s, 6) == 0x1_0000_0000 && Ends(s, 6)
  {
    assert Weighted(s, 1) == 0;
    assert Weighted(s, 2) == 0;
    assert Weighted(s, 3) == 0;
    assert Weighted(s, 4) == 0;
    assert Pow128(2) == 0x4000;
    assert Pow128(4) == 0x1000_0000;
    assert Weighted(s, 5) == 0x1_0000_0000;
  }

  // ----- Long varints -----

  function Pad(m: nat): (s: seq<byte>)
    ensures |s| == m
  {
    if m == 0 then [] else [0x80] + Pad(m - 1)
  }

  lemma OnePad(u: seq<byte>, bitpos: nat)
    ensures Decode32Loop([0x80] + u, bitpos, 0) == Decode32Loop(u, (bitpos + 7) % 256, 0)
  {
    assert ([0x80] + u)[1..] == u;
    Shl32IsProduct(0, bitpos);
  }

  /** The bit position m bytes on. */
  function Position(m: nat, bitpos: nat): (p: nat) {
    if m == 0 then bitpos else Position(m - 1, (bitpos + 7) % 256)
  }

  lemma {:induction false} PadPasses(m: nat, bitpos: nat, t: seq<byte>)
    ensures Decode32Loop(Pad(m) + t, bitpos, 0) == Decode32Loop(t, Position(m, bitpos), 0)
    decreases m
  {
    if m == 0 {
      assert Pad(m) + t == t;
    } else {
      assert Pad(m) + t == [0x80] + (Pad(m - 1) + t);
      OnePad(Pad(m - 1) + t, bitpos);
      PadPasses(m - 1, (bitpos + 7) % 256, t);
    }
  }

  lemma {:induction false} PositionWrapsOnce(m: nat, bitpos: nat)
    requires bitpos < 256 <= bitpos + 7 * m < 263
    ensures Position(m, bitpos) == bitpos + 7 * m - 256
    decreases m
  {
    if bitpos + 7 >= 256 {
      assert m == 1 && Position(0, bitpos + 7 - 256) == bitpos + 7 - 256;
    } else {
      PositionWrapsOnce(m - 1, bitpos + 7);
    }
  }

  lemma OneAtThree(s: seq<byte>)
    requires s == [0x01]
    ensures Decode32Loop(s, 3, 0) == Ok(8, [])
  {
    Shl32IsProduct(1, 3);
    assert Pow2(3) == 8 && s[1..] == [];
  }

  /** The bit position has eight bits, so behind 36 bytes of padding digits count again, with a wrong weight: a one in
      byte 38 is read as 8. */
  lemma PositionWraps(m: nat, s: seq<byte>)
    requires m == 36 && s == [0x01]
    ensures Decode32([0x80] + (Pad(m) + s)) == Ok(8, [])
  {
    PositionWrapsOnce(m, 7);
    PaddedOne(m, s);
  }

  lemma PaddedOne(m: nat, s: seq<byte>)
    requires Position(m, 7) == 3 && s == [0x01]
    ensures Decode32([0x80] + (Pad(m) + s)) == Ok(8, [])
  {
    Decode32Cons(0x80, Pad(m) + s);
    PadPasses(m, 7, s);
    OneAtThree(s);
  }
}
