/** DTLS handshake fragments (section 4.2.2 of RFC 6347) and their 12-byte header. */
module Handshake {
  import opened Words

  /** A fragment: the message's type, total length and sequence number, and the part of its body from off on. */
  datatype Fragment = Fragment(typ: byte, msgLen: nat, seqNum: nat, off: nat, body: seq<byte>)

  const HEADER_LENGTH := 12

  function U16(n: nat): (s: seq<byte>)
    ensures |s| == 2
  {
    [n / 0x100 % 0x100, n % 0x100]
  }

  function U24(n: nat): (s: seq<byte>)
    ensures |s| == 3
  {
    [n / 0x1_0000 % 0x100, n / 0x100 % 0x100, n % 0x100]
  }

  /** The header fields fit their widths. */
  predicate Fits(f: Fragment) {
    f.msgLen < 0x100_0000 && f.seqNum < 0x1_0000 && f.off < 0x100_0000 && |f.body| < 0x100_0000
  }

  function Header(f: Fragment): (s: seq<byte>)
    ensures |s| == HEADER_LENGTH
  {
    [f.typ] + U24(f.msgLen) + U16(f.seqNum) + U24(f.off) + U24(|f.body|)
  }

  function Serialize(f: Fragment): (s: seq<byte>)
    ensures |s| == HEADER_LENGTH + |f.body|
  {
    Header(f) + f.body
  }

  function ReadU24(s: seq<byte>, i: nat): (n: nat)
    requires i + 3 <= |s|
    ensures n < 0x100_0000
  {
    (s[i] as int) * 0x1_0000 + (s[i + 1] as int) * 0x100 + s[i + 2] as int
  }

  function ReadU16(s: seq<byte>, i: nat): (n: nat)
    requires i + 2 <= |s|
    ensures n < 0x1_0000
  {
    (s[i] as int) * 0x100 + s[i + 1] as int
  }

  /** dtls1_parse_fragment */
  function ParseFragment(s: seq<byte>): (r: Parse<Fragment>)
    ensures r.Ok? ==> Fits(r.value) && |s| == HEADER_LENGTH + |r.value.body| + |r.rest|
  {
    if |s| < HEADER_LENGTH then Err
    else
      var n := ReadU24(s, 9);
      if |s| - HEADER_LENGTH < n then Err
      else Ok(Fragment(s[0], ReadU24(s, 1), ReadU16(s, 4), ReadU24(s, 6), s[12..12 + n]), s[12 + n..])
  }

  /** Parsing inverts serializing, whatever follows the fragment. */
  lemma ParseInvertsSerialize(f: Fragment, t: seq<byte>)
    requires Fits(f)
    ensures ParseFragment(Serialize(f) + t) == Ok(f, t)
  {
    var s := Serialize(f) + t;
    var h := Header(f);
    assert s[..12] == h;
    assert forall i | 0 <= i < 12 :: s[i] == h[i];
    U24Reads(f.msgLen);
    U24Reads(f.off);
    U24Reads(|f.body|);
    assert ReadU24(s, 1) == f.msgLen;
    assert ReadU16(s, 4) == f.seqNum;
    assert ReadU24(s, 6) == f.off;
    assert ReadU24(s, 9) == |f.body|;
    assert s[12..12 + |f.body|] == f.body && s[12 + |f.body|..] == t;
  }

  lemma U24Reads(n: nat)
    requires n < 0x100_0000
    ensures n / 0x1_0000 % 0x100 * 0x1_0000 + n / 0x100 % 0x100 * 0x100 + n % 0x100 == n
  {
  }

  /** The header of section 4.2.2 of RFC 6347, byte by byte: type, length, message sequence number, fragment offset and
      fragment length, each number with its high byte first. */
  lemma HeaderLayout(f: Fragment)
    requires Fits(f)
    ensures var s := Serialize(f);
            && s[0] == f.typ
            && s[1] as int * 65536 + s[2] as int * 256 + s[3] as int == f.msgLen
            && s[4] as int * 256 + s[5] as int == f.seqNum
            && s[6] as int * 65536 + s[7] as int * 256 + s[8] as int == f.off
            && s[9] as int * 65536 + s[10] as int * 256 + s[11] as int == |f.body|
            && s[12..] == f.body
  {
    var s, h := Serialize(f), Header(f);
    assert forall i | 0 <= i < 12 :: s[i] == h[i];
    U24Reads(f.msgLen);
    U24Reads(f.off);
    U24Reads(|f.body|);
  }

  /** A fragment is refused exactly when the header or the body that it announces is cut short. */
  lemma ParsesExactly(s: seq<byte>)
    ensures ParseFragment(s).Ok? <==>
      |s| >= 12 && |s| - 12 >= s[9] as int * 65536 + s[10] as int * 256 + s[11] as int
  {
  }

  lemma ParsePrefix(s: seq<byte>, t: seq<byte>)
    requires ParseFragment(s).Ok?
    ensures ParseFragment(s + t) == Ok(ParseFragment(s).value, ParseFragment(s).rest + t)
  {
    var n := |ParseFragment(s).value.body|;
    assert (s + t)[..12] == s[..12];
    assert forall i | 0 <= i < 12 :: (s + t)[i] == s[i];
    assert (s + t)[12..12 + n] == s[12..12 + n] && (s + t)[12 + n..] == s[12 + n..] + t;
  }

  /** A whole message, as the sender stores it and the receiver hands it on. */
  function Whole(typ: byte, seqNum: nat, body: seq<byte>): (s: seq<byte>) {
    Serialize(Fragment(typ, |body|, seqNum, 0, body))
  }
}
