/** Reassembly of one handshake message: the body received so far and a bitmap of the bytes that are in. The bitmap
    is kept byte by byte, and stands for the set of positions that some fragment covered. */
module Reassembly {
  import opened Words
  import opened Handshake

  // ----- Bits of a byte -----

  /** Mask of bit k. */
  function One(k: nat): (b: bv32)
    requires k <= 8
  {
    1 << k
  }

  /** bit_range: the bits below end, without those below start. */
  function BitRange(start: nat, end: nat): (b: bv8)
    requires start <= 8 && end <= 8
  {
    ((!(One(start) - 1) & (One(end) - 1)) & 0xFF) as bv8
  }

  predicate Bit(b: bv8, k: nat)
    requires k < 8
  {
    b & (One(k) as bv8) != 0
  }

  /** bit_range sets exactly the bits from start up to end. */
  lemma RangeBits(start: nat, end: nat, k: nat)
    requires start <= end <= 8 && start < 8 && k < 8
    ensures Bit(BitRange(start, end), k) <==> start <= k < end
  {
  }

  lemma OrBits(a: bv8, b: bv8, k: nat)
    requires k < 8
    ensures Bit(a | b, k) <==> Bit(a, k) || Bit(b, k)
  {
  }

  lemma SameBits(a: bv8, b: bv8)
    requires forall k | 0 <= k < 8 :: Bit(a, k) == Bit(b, k)
    ensures a == b
  {
    Masks();
    assert Bit(a, 0) == Bit(b, 0) && Bit(a, 1) == Bit(b, 1) && Bit(a, 2) == Bit(b, 2) && Bit(a, 3) == Bit(b, 3);
    assert Bit(a, 4) == Bit(b, 4) && Bit(a, 5) == Bit(b, 5) && Bit(a, 6) == Bit(b, 6) && Bit(a, 7) == Bit(b, 7);
  }

  lemma Masks()
    ensures One(0) == 0x1 && One(1) == 0x2 && One(2) == 0x4 && One(3) == 0x8
    ensures One(4) == 0x10 && One(5) == 0x20 && One(6) == 0x40 && One(7) == 0x80
  {
  }

  /** With no bit at or above n, a byte equals bit_range(0, n) exactly when its n low bits are set. */
  lemma EqualsRange(b: bv8, n: nat)
    requires 0 < n <= 8 && forall k | n <= k < 8 :: !Bit(b, k)
    ensures b == BitRange(0, n) <==> forall k | 0 <= k < n :: Bit(b, k)
  {
    forall k | 0 <= k < 8
      ensures Bit(BitRange(0, n), k) <==> k < n
    {
      RangeBits(0, n, k);
    }
    if forall k | 0 <= k < n :: Bit(b, k) {
      SameBits(b, BitRange(0, n));
    }
  }

  lemma FullByte(b: bv8)
    ensures b == 0xFF <==> forall k | 0 <= k < 8 :: Bit(b, k)
  {
    assert BitRange(0, 8) == 0xFF;
    EqualsRange(b, 8);
  }

  lemma ZeroByte(k: nat)
    requires k < 8
    ensures !Bit(0, k)
  {
  }

  // ----- The bitmap -----

  /** Bit i of the bitmap: byte i of the message is in. */
  predicate Marked(bits: seq<bv8>, i: nat)
    requires i < 8 * |bits|
  {
    Bit(bits[i / 8], i % 8)
  }

  /** The bitmap stands for a set of byte positions of a message of the given length, and no bit beyond it is set. */
  ghost predicate Represents(bits: seq<bv8>, msgLen: nat, got: set<nat>) {
    && |bits| == (msgLen + 7) / 8
    && (forall i | 0 <= i < 8 * |bits| :: Marked(bits, i) <==> i in got)
    && (forall i | i in got :: i < msgLen)
  }

  function Range(start: nat, end: nat): (s: set<nat>)
    ensures forall i :: i in s <==> start <= i < end
    decreases end
  {
    if start >= end then {} else Range(start, end - 1) + {end - 1}
  }

  /** The bytes of a fragment, by position in the message. */
  function Piece(off: nat, body: seq<byte>): (p: map<nat, byte>)
    ensures p.Keys == Range(off, off + |body|)
    ensures forall i | i in p :: p[i] == body[i - off]
  {
    if body == [] then map[]
    else Piece(off, body[..|body| - 1])[off + |body| - 1 := body[|body| - 1]]
  }

  /** hm_fragment as a value: the bytes of the body that are in, by position. */
  datatype Message = Message(typ: byte, seqNum: nat, msgLen: nat, bytes: map<nat, byte>)
  {
    ghost predicate Valid() {
      bytes.Keys <= Range(0, msgLen)
    }

    predicate Complete() {
      bytes.Keys == Range(0, msgLen)
    }

    /** The body of a complete message. */
    function Body(): (s: seq<byte>)
      requires Complete()
      ensures |s| == msgLen
    {
      seq(msgLen, i requires 0 <= i < msgLen => bytes[i])
    }

    /** The message with its header, as dtls1_get_message hands it out. */
    function Raw(): (s: seq<byte>)
      requires Complete()
    {
      Whole(typ, seqNum, Body())
    }

    /** Copying part of the body in and marking it. */
    function Add(off: nat, body: seq<byte>): (m: Message)
      requires Valid() && off + |body| <= msgLen
      ensures m.Valid() && m.bytes.Keys == bytes.Keys + Range(off, off + |body|)
    {
      this.(bytes := bytes + Piece(off, body))
    }
  }

  /** A new message, with nothing of its body. */
  function Start(typ: byte, seqNum: nat, msgLen: nat): (m: Message)
    ensures m.Valid()
  {
    Message(typ, seqNum, msgLen, map[])
  }

  /** The body bytes at the given positions. */
  function Picked(data: seq<byte>, got: set<nat>): (p: map<nat, byte>)
    requires forall i | i in got :: HEADER_LENGTH + i < |data|
    ensures p.Keys == got
  {
    map i | i in got :: data[HEADER_LENGTH + i]
  }

  lemma PickedAfterCopy(before: seq<byte>, after: seq<byte>, off: nat, body: seq<byte>, had: set<nat>, got: set<nat>)
    requires HEADER_LENGTH + off + |body| <= |before| && got == had + Range(off, off + |body|)
    requires after == before[..HEADER_LENGTH + off] + body + before[HEADER_LENGTH + off + |body|..]
    requires forall i | i in had :: HEADER_LENGTH + i < |before|
    ensures Picked(after, got) == Picked(before, had) + Piece(off, body)
  {
    var p, q := Picked(after, got), Picked(before, had) + Piece(off, body);
    forall i | i in got
      ensures p[i] == q[i]
    {
      if i in Range(off, off + |body|) {
        assert after[HEADER_LENGTH + i] == body[i - off];
      } else {
        assert after[HEADER_LENGTH + i] == before[HEADER_LENGTH + i];
      }
    }
  }

  // ----- Any sequence of fragments -----

  datatype Part = Part(off: nat, body: seq<byte>) {
    predicate Covers(i: nat) {
      off <= i < off + |body|
    }
  }

  /** Parts arriving one after the other; a complete message takes no more. */
  function AddAll(m: Message, parts: seq<Part>): (m': Message)
    requires m.Valid() && forall p | p in parts :: p.off + |p.body| <= m.msgLen
    ensures m'.Valid()
    decreases |parts|
  {
    if parts == [] then m
    else if m.Complete() then AddAll(m, parts[1..])
    else AddAll(m.Add(parts[0].off, parts[0].body), parts[1..])
  }

  /** The bitmap refines a set: a byte is in exactly when it was, or some part covered it; so the bitmap is
      dropped exactly when every byte is covered. */
  lemma {:induction false} CoveredExactly(m: Message, parts: seq<Part>)
    requires m.Valid() && forall p | p in parts :: p.off + |p.body| <= m.msgLen
    ensures forall i | 0 <= i < m.msgLen ::
      i in AddAll(m, parts).bytes <==> i in m.bytes || exists j :: 0 <= j < |parts| && parts[j].Covers(i)
    decreases |parts|
  {
    if parts != [] {
      var rest := parts[1..];
      var next := if m.Complete() then m else m.Add(parts[0].off, parts[0].body);
      CoveredExactly(next, rest);
      forall i | 0 <= i < m.msgLen
        ensures i in AddAll(m, parts).bytes <==> i in m.bytes || exists j :: 0 <= j < |parts| && parts[j].Covers(i)
      {
        assert i in next.bytes <==> i in m.bytes || parts[0].Covers(i);
        if j :| 0 <= j < |rest| && rest[j].Covers(i) {
          assert parts[j + 1].Covers(i);
        }
        if j :| 0 < j < |parts| && parts[j].Covers(i) {
          assert rest[j - 1].Covers(i);
        }
      }
    }
  }

  /** OPENSSL_memcpy into an array. */
  method CopyBytes(data: array<byte>, at: nat, body: seq<byte>)
    requires at + |body| <= data.Length
    modifies data
    ensures data[..] == old(data[..at]) + body + old(data[at + |body|..])
  {
    ghost var before := data[..];
    for i := 0 to |body|
      invariant data[..] == before[..at] + body[..i] + before[at + i..]
    {
      data[at + i] := body[i];
    }
  }

  // ----- hm_fragment -----

  class HmFragment {
    const typ: byte
    const seqNum: nat
    const msgLen: nat
    const data: array<byte>
    /** Null once the message is complete. */
    var reassembly: array?<bv8>
    ghost var got: set<nat>
    ghost const Repr: set<object>

    ghost predicate Valid()
      reads this, Repr
    {
      && this in Repr && data in Repr && (reassembly != null ==> reassembly in Repr)
      && data.Length == HEADER_LENGTH + msgLen
      && data[..HEADER_LENGTH] == Header(Fragment(typ, msgLen, seqNum, 0, data[HEADER_LENGTH..]))
      && got <= Range(0, msgLen)
      && (reassembly == null <==> got == Range(0, msgLen))
      && (reassembly != null ==> Represents(reassembly[..], msgLen, got))
    }

    ghost function View(): (m: Message)
      requires Valid()
      reads this, Repr
      ensures m.Valid() && (m.Complete() <==> reassembly == null)
    {
      Message(typ, seqNum, msgLen, Picked(data[..], got))
    }

    /** dtls1_hm_fragment_new. The rest of the allocation keeps whatever was there. */
    constructor (typ: byte, seqNum: nat, msgLen: nat)
      ensures Valid() && fresh(Repr) && View() == Start(typ, seqNum, msgLen)
      ensures this.typ == typ && this.seqNum == seqNum && this.msgLen == msgLen
    {
      this.typ := typ;
      this.seqNum := seqNum;
      this.msgLen := msgLen;
      this.data := new byte[HEADER_LENGTH + msgLen];
      var bits: array?<bv8> := null;
      ghost var owned: set<object> := {};
      if msgLen > 0 {
        var zeros := new bv8[(msgLen + 7) / 8](_ => 0);
        bits, owned := zeros, {zeros};
      }
      this.reassembly := bits;
      this.got := {};
      this.Repr := {this, data} + owned;
      new;
      ghost var junk := data[HEADER_LENGTH..];
      var header := [typ] + U24(msgLen) + U16(seqNum) + U24(0) + U24(msgLen);
      assert header == Header(Fragment(typ, msgLen, seqNum, 0, junk));
      forall i | 0 <= i < HEADER_LENGTH {
        data[i] := header[i];
      }
      assert data[..] == header + junk;
      if msgLen > 0 {
        forall i | 0 <= i < 8 * reassembly.Length
          ensures !Marked(reassembly[..], i)
        {
          ZeroByte(i % 8);
        }
        assert 0 in Range(0, msgLen);
      }
    }

    /** The data of a complete message is the whole message. */
    lemma CompleteData()
      requires Valid() && reassembly == null
      ensures data[..] == View().Raw()
    {
      assert data[HEADER_LENGTH..] == View().Body();
      assert data[..] == data[..HEADER_LENGTH] + data[HEADER_LENGTH..];
    }

    /** The memcpy of dtls1_open_handshake, and the mark. */
    method CopyIn(off: nat, body: seq<byte>)
      requires Valid() && reassembly != null && off + |body| <= msgLen
      modifies this`reassembly, this`got, reassembly, data
      ensures Valid() && View() == old(View()).Add(off, body)
    {
      ghost var before := data[..];
      CopyBytes(data, HEADER_LENGTH + off, body);
      HeaderKept(before, data[..]);
      Mark(off, off + |body|);
      PickedAfterCopy(before, data[..], off, body, old(got), got);
    }

    lemma HeaderKept(before: seq<byte>, after: seq<byte>)
      requires |before| == |after| == HEADER_LENGTH + msgLen
      ensures Header(Fragment(typ, msgLen, seqNum, 0, after[HEADER_LENGTH..]))
           == Header(Fragment(typ, msgLen, seqNum, 0, before[HEADER_LENGTH..]))
    {
    }

    /** dtls1_hm_fragment_mark: the bitmap gains exactly the range, and is dropped exactly when every byte is in. */
    method Mark(start: nat, end: nat)
      requires Valid() && reassembly != null && start <= end <= msgLen
      modifies this`reassembly, this`got, reassembly
      ensures Valid() && got == old(got) + Range(start, end)
      ensures reassembly == null || reassembly == old(reassembly)
    {
      got := got + Range(start, end);
      if start == end {
        assert got == old(got);
        return;
      }
      FillRange(reassembly, start, end);
      assert Represents(reassembly[..], msgLen, got);
      var full := AllSet(reassembly, msgLen, got);
      if full {
        reassembly := null;
      }
    }
  }

  /** bits gained exactly the positions from start up to end. */
  ghost predicate Filled(before: seq<bv8>, bits: seq<bv8>, start: nat, end: nat) {
    |bits| == |before| && forall i | 0 <= i < 8 * |bits| :: Marked(bits, i) <==> Marked(before, i) || start <= i < end
  }

  lemma FillByte(before: seq<bv8>, idx: nat, b: bv8, start: nat, end: nat)
    requires idx < |before| && start <= end <= 8
    requires forall k | 0 <= k < 8 :: Bit(b, k) <==> Bit(before[idx], k) || start <= k < end
    ensures Filled(before, before[idx := b], 8 * idx + start, 8 * idx + end)
  {
    var bits := before[idx := b];
    forall i | 0 <= i < 8 * |bits|
      ensures Marked(bits, i) <==> Marked(before, i) || 8 * idx + start <= i < 8 * idx + end
    {
      assert Bit(b, i % 8) <==> Bit(before[idx], i % 8) || start <= i % 8 < end;
    }
  }

  lemma FilledStep(s0: seq<bv8>, s1: seq<bv8>, s2: seq<bv8>, start: nat, mid: nat, end: nat)
    requires Filled(s0, s1, start, mid) && Filled(s1, s2, mid, end) && start <= mid <= end
    ensures Filled(s0, s2, start, end)
  {
    forall i | 0 <= i < 8 * |s2|
      ensures Marked(s2, i) <==> Marked(s0, i) || start <= i < end
    {
      assert Marked(s1, i) <==> Marked(s0, i) || start <= i < mid;
    }
  }

  /** bits[idx] |= bit_range(start, end) */
  method OrByte(bits: array<bv8>, idx: nat, start: nat, end: nat)
    requires idx < bits.Length && start <= end <= 8 && start < 8
    modifies bits
    ensures Filled(old(bits[..]), bits[..], 8 * idx + start, 8 * idx + end)
  {
    var b := bits[idx] | BitRange(start, end);
    forall k | 0 <= k < 8
      ensures Bit(b, k) <==> Bit(bits[idx], k) || start <= k < end
    {
      OrBits(bits[idx], BitRange(start, end), k);
      RangeBits(start, end, k);
    }
    FillByte(bits[..], idx, b, start, end);
    bits[idx] := b;
    assert bits[..] == old(bits[..])[idx := b];
  }

  method SetByte(bits: array<bv8>, idx: nat)
    requires idx < bits.Length
    modifies bits
    ensures Filled(old(bits[..]), bits[..], 8 * idx, 8 * idx + 8)
  {
    FullByte(0xFF);
    FillByte(bits[..], idx, 0xFF, 0, 8);
    bits[idx] := 0xFF;
    assert bits[..] == old(bits[..])[idx := 0xFF];
  }

  /** The updates of dtls1_hm_fragment_mark. */
  method FillRange(bits: array<bv8>, start: nat, end: nat)
    requires start < end <= 8 * bits.Length
    modifies bits
    ensures Filled(old(bits[..]), bits[..], start, end)
  {
    ghost var before := bits[..];
    if start / 8 == end / 8 {
      OrByte(bits, start / 8, start % 8, end % 8);
      return;
    }
    OrByte(bits, start / 8, start % 8, 8);
    var i := start / 8 + 1;
    while i < end / 8
      invariant start / 8 < i <= end / 8 && Filled(before, bits[..], start, 8 * i)
    {
      ghost var now := bits[..];
      SetByte(bits, i);
      FilledStep(before, now, bits[..], start, 8 * i, 8 * i + 8);
      i := i + 1;
    }
    if end % 8 != 0 {
      ghost var now := bits[..];
      OrByte(bits, end / 8, 0, end % 8);
      FilledStep(before, now, bits[..], start, 8 * i, end);
    }
  }

  /** The completeness test of dtls1_hm_fragment_mark. */
  method AllSet(bits: array<bv8>, msgLen: nat, ghost got: set<nat>) returns (full: bool)
    requires Represents(bits[..], msgLen, got)
    ensures full <==> got == Range(0, msgLen)
  {
    var i := 0;
    while i < msgLen / 8
      invariant 0 <= i <= msgLen / 8 && forall j | 0 <= j < 8 * i :: j in got
    {
      ByteFull(bits[..], msgLen, got, i, 8);
      FullByte(bits[i]);
      if bits[i] != 0xFF {
        return false;
      }
      i := i + 1;
    }
    if msgLen % 8 != 0 {
      ByteFull(bits[..], msgLen, got, msgLen / 8, msgLen % 8);
      if bits[msgLen / 8] != BitRange(0, msgLen % 8) {
        return false;
      }
    }
    return true;
  }

  lemma ByteFull(bits: seq<bv8>, msgLen: nat, got: set<nat>, idx: nat, n: nat)
    requires Represents(bits, msgLen, got) && idx < |bits| && 0 < n <= 8 && (n < 8 ==> 8 * idx + n == msgLen)
    ensures bits[idx] == BitRange(0, n) <==> forall j | 8 * idx <= j < 8 * idx + n :: j in got
    ensures BitRange(0, 8) == 0xFF
  {
    forall k | 0 <= k < 8
      ensures Bit(bits[idx], k) <==> 8 * idx + k in got
    {
      assert Marked(bits, 8 * idx + k) <==> 8 * idx + k in got;
    }
    EqualsRange(bits[idx], n);
    if bits[idx] == BitRange(0, n) {
      forall j | 8 * idx <= j < 8 * idx + n
        ensures j in got
      {
        assert Bit(bits[idx], j - 8 * idx);
      }
    }
  }
}
