/** Machine bytes and words, and the two result types shared by the models. Words are numbers below a power of two;
    or, shifts and little-endian byte order are written as arithmetic, and related to sums and products. */
module Words {
  type byte = b: int | 0 <= b < 256

  const TWO_32: int := 0x1_0000_0000
  const TWO_63: int := 0x8000_0000_0000_0000
  const TWO_64: int := 0x1_0000_0000_0000_0000

  datatype Option<+T> = None | Some(value: T)

  /** A parse either fails or yields a value and the bytes it left unread. */
  datatype Parse<+T> = Err | Ok(value: T, rest: seq<byte>)

  /** The two's complement pattern of n in 64 bits, read as an unsigned word. */
  function Unsigned64(n: int): (u: nat)
    requires -TWO_63 <= n < TWO_64
    ensures u < TWO_64
  {
    if n < 0 then n + TWO_64 else n
  }

  /** Reads the low bits of an unsigned word as a signed integer of the given size in bytes. */
  function Signed(u: nat, size: nat): (n: int)
    requires size in {1, 2, 4, 8}
    ensures -Half(size) <= n < Half(size)
    ensures (n - u) % (2 * Half(size)) == 0
  {
    var low := u % (2 * Half(size));
    if low < Half(size) then low else low - 2 * Half(size)
  }

  /** Half the number of values of an integer of the given size in bytes. */
  function Half(size: nat): (h: int)
    requires size in {1, 2, 4, 8}
    ensures h > 0
  {
    if size == 1 then 0x80 else if size == 2 then 0x8000 else if size == 4 then 0x8000_0000 else TWO_63
  }

  /** Little-endian bytes of n. */
  function LittleEndian(n: nat, width: nat): (s: seq<byte>)
    ensures |s| == width
  {
    if width == 0 then [] else [n % 256] + LittleEndian(n / 256, width - 1)
  }

  function FromLittleEndian(s: seq<byte>): (n: nat) {
    if s == [] then 0 else s[0] + 256 * FromLittleEndian(s[1..])
  }

  lemma FourBytes(n: nat, width: nat)
    ensures LittleEndian(n, width + 4)
         == [n % 256, n / 256 % 256, n / 256 / 256 % 256, n / 256 / 256 / 256 % 256]
            + LittleEndian(n / 256 / 256 / 256 / 256, width)
  {
    assert LittleEndian(n, width + 4) == [n % 256] + LittleEndian(n / 256, width + 3);
    assert LittleEndian(n / 256, width + 3) == [n / 256 % 256] + LittleEndian(n / 256 / 256, width + 2);
  }

  function Pow256(width: nat): (p: nat)
    ensures p > 0
  {
    if width == 0 then 1 else 256 * Pow256(width - 1)
  }

  lemma {:induction false} LittleEndianInverse(n: nat, width: nat)
    requires n < Pow256(width)
    ensures FromLittleEndian(LittleEndian(n, width)) == n
  {
    if width > 0 {
      assert LittleEndian(n, width)[1..] == LittleEndian(n / 256, width - 1);
      LittleEndianInverse(n / 256, width - 1);
    }
  }

  lemma {:induction false} LittleEndianBound(s: seq<byte>)
    ensures FromLittleEndian(s) < Pow256(|s|)
  {
    if s != [] {
      LittleEndianBound(s[1..]);
    }
  }

  function Pow2(n: nat): (p: int)
    ensures p > 0
  {
    if n == 0 then 1 else 2 * Pow2(n - 1)
  }

  lemma {:induction false} Pow2Add(m: nat, n: nat)
    ensures Pow2(m + n) == Pow2(m) * Pow2(n)
  {
    if m > 0 {
      var a, b := Pow2(m - 1), Pow2(n);
      calc {
        Pow2(m + n);
        2 * Pow2(m - 1 + n);
        { Pow2Add(m - 1, n); }
        2 * (a * b);
        (2 * a) * b;
      }
    }
  }

  lemma Pow2Word()
    ensures Pow2(32) == TWO_32
  {
    Pow2Add(8, 8);
    assert Pow2(8) == 0x100;
    Pow2Add(16, 16);
  }

  /** C's bitwise or of two unsigned words: bit for bit, as RequiredFields.OrUnites says. */
  function Or(a: nat, b: nat): (r: nat) {
    if a == 0 then b
    else if b == 0 then a
    else 2 * Or(a / 2, b / 2) + if a % 2 == 1 || b % 2 == 1 then 1 else 0
  }

  lemma {:induction false} OrBound(a: nat, b: nat, bits: nat)
    requires a < Pow2(bits) && b < Pow2(bits)
    ensures Or(a, b) < Pow2(bits)
  {
    if a > 0 && b > 0 {
      OrBound(a / 2, b / 2, bits - 1);
    }
  }

  /** Or-ing in a group above the bits already set adds it. */
  lemma {:induction false} OrDisjoint(a: nat, group: nat, bitpos: nat)
    requires a < Pow2(bitpos)
    ensures Or(a, group * Pow2(bitpos)) == a + group * Pow2(bitpos)
  {
    if bitpos > 0 && a > 0 && group > 0 {
      var high := group * Pow2(bitpos - 1);
      assert group * Pow2(bitpos) == 2 * high;
      OrDisjoint(a / 2, group, bitpos - 1);
    }
  }

  lemma Pow2Of64()
    ensures Pow2(64) == TWO_64
  {
    Pow2Word();
    Pow2Add(32, 32);
  }

  lemma MulSplit(lost: nat, q: nat, kept: nat, p: nat)
    ensures (lost * q + kept) * p == lost * (p * q) + kept * p
  {
    calc {
      (lost * q + kept) * p;
      (lost * q) * p + kept * p;
      lost * (q * p) + kept * p;
    }
  }

  lemma MulShuffle(c: nat, a: nat, b: nat)
    ensures c * (a * b) == a * (c * b)
  {
  }

  lemma SmallModulo(n: nat)
    requires n < TWO_64
    ensures n % TWO_64 == n
  {
  }

  lemma MulMono(a: nat, b: nat, p: nat)
    requires a <= b
    ensures a * p <= b * p
  {
  }

  lemma DivMod(n: nat, q: int)
    requires q > 0
    ensures n == n / q * q + n % q && n % q < q
  {
  }

  /** group << bitpos in 64 bits drops whole bits of the group. */
  lemma SplitShift(group: nat, p: nat, q: int) returns (kept: nat, lost: nat)
    requires q > 0 && p * q == TWO_64
    ensures group * p == lost * TWO_64 + kept * p
    ensures kept * p + p <= TWO_64
  {
    kept, lost := group % q, group / q;
    DivMod(group, q);
    MulSplit(lost, q, kept, p);
    MulMono(kept + 1, q, p);
  }

  /** Or-ing in a shifted group, truncated to 64 bits, adds it modulo 2^64. */
  lemma TruncatedShift(a: nat, group: nat, bitpos: nat)
    requires a < Pow2(bitpos) && bitpos < 64
    ensures Or(a, group * Pow2(bitpos) % TWO_64) == (a + group * Pow2(bitpos)) % TWO_64
  {
    var p, q := Pow2(bitpos), Pow2(64 - bitpos);
    Pow2Add(bitpos, 64 - bitpos);
    Pow2Of64();
    var kept, lost := SplitShift(group, p, q);
    ModuloTwo64(group * p, lost, kept * p);
    ModuloTwo64(a + group * p, lost, a + kept * p);
    OrDisjoint(a, kept, bitpos);
  }

  lemma ModuloTwo64(x: nat, k: nat, r: nat)
    requires x == k * TWO_64 + r && r < TWO_64
    ensures x % TWO_64 == r
  {
  }
}
