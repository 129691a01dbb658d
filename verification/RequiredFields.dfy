/** The fields_seen words of pb_decode_noinit: two 32-bit masks standing for a set of required fields. Marking a
    field adds it to the set, and the comparison with the masks of all bits decides that all are there. */
module RequiredFields {
  import opened Words

  const ALL_BITS: nat := 0xFFFF_FFFF
  const WORDS := 2

  /** Bit k of a word. */
  predicate IsSet(w: nat, k: nat) {
    if k == 0 then w % 2 == 1 else IsSet(w / 2, k - 1)
  }

  /** w shifted right by k bits. */
  function Shr(w: nat, k: nat): (r: nat) {
    if k == 0 then w else Shr(w / 2, k - 1)
  }

  lemma {:induction false} NoBits(k: nat)
    ensures !IsSet(0, k)
  {
    if k > 0 {
      NoBits(k - 1);
    }
  }

  lemma {:induction false} BitOfPower(j: nat, k: nat)
    ensures IsSet(Pow2(j), k) <==> j == k
  {
    if j > 0 && k > 0 {
      BitOfPower(j - 1, k - 1);
    } else if k > 0 {
      NoBits(k - 1);
    }
  }

  /** Or unites the bits of two words. */
  lemma {:induction false} OrUnites(a: nat, b: nat, k: nat)
    ensures IsSet(Or(a, b), k) <==> IsSet(a, k) || IsSet(b, k)
    decreases k
  {
    if a == 0 || b == 0 {
      NoBits(k);
    } else if k > 0 {
      OrUnites(a / 2, b / 2, k - 1);
    }
  }

  lemma {:induction false} MaskBits(n: nat, k: nat)
    ensures IsSet(Pow2(n) - 1, k) <==> k < n
  {
    if n == 0 {
      NoBits(k);
    } else if k > 0 {
      assert (Pow2(n) - 1) / 2 == Pow2(n - 1) - 1;
      MaskBits(n - 1, k - 1);
    }
  }

  lemma {:induction false} SameBits(w: nat, v: nat, n: nat)
    requires w < Pow2(n) && v < Pow2(n)
    requires forall k {:trigger IsSet(w, k)} | 0 <= k < n :: IsSet(w, k) <==> IsSet(v, k)
    ensures w == v
  {
    if n > 0 {
      forall k {:trigger IsSet(w / 2, k)} | 0 <= k < n - 1
        ensures IsSet(w / 2, k) <==> IsSet(v / 2, k)
      {
        assert IsSet(w, k + 1) <==> IsSet(v, k + 1);
      }
      SameBits(w / 2, v / 2, n - 1);
      assert IsSet(w, 0) <==> IsSet(v, 0);
    }
  }

  ghost predicate AllSet(w: nat, n: nat) {
    forall k | 0 <= k < n :: IsSet(w, k)
  }

  /** With no bit at or above n set, a word equals the mask of n bits exactly when those are all set. */
  lemma EqualsMask(w: nat, n: nat, width: nat)
    requires n <= width && w < Pow2(width) && forall k | n <= k < width :: !IsSet(w, k)
    ensures w == Pow2(n) - 1 <==> AllSet(w, n)
  {
    var mask := Pow2(n) - 1;
    forall k {:trigger IsSet(mask, k)} | 0 <= k < width
      ensures IsSet(mask, k) <==> k < n
    {
      MaskBits(n, k);
    }
    if n < width {
      Pow2Grows(n, width);
    }
    if w == mask {
      forall k | 0 <= k < n
        ensures IsSet(w, k)
      {
        MaskBits(n, k);
      }
    } else if AllSet(w, n) {
      SameBits(w, mask, width);
    }
  }

  /** Shifting the word of all ones right leaves the mask of the bits that remain. */
  lemma {:induction false} ShiftedMask(m: nat, k: nat)
    requires k <= m
    ensures Shr(Pow2(m) - 1, k) == Pow2(m - k) - 1
  {
    if k > 0 {
      assert (Pow2(m) - 1) / 2 == Pow2(m - 1) - 1;
      ShiftedMask(m - 1, k - 1);
    }
  }

  // ----- The two words -----

  /** Is required field k marked? */
  predicate Marked(words: seq<nat>, k: nat)
    requires |words| == WORDS && k < 64
  {
    IsSet(words[k / 32], k % 32)
  }

  /** The words stand for the set of indices. */
  ghost predicate Represents(words: seq<nat>, seen: set<nat>) {
    && |words| == WORDS && words[0] < TWO_32 && words[1] < TWO_32
    && (forall k | 0 <= k < 64 :: Marked(words, k) <==> k in seen)
  }

  lemma NothingMarked()
    ensures Represents([0, 0], {})
  {
    forall k | 0 <= k < 64
      ensures !Marked([0, 0], k)
    {
      NoBits(k % 32);
    }
  }

  /** Setting the bit of an index adds it to the set. */
  lemma MarkAdds(words: seq<nat>, index: nat, seen: set<nat>)
    requires Represents(words, seen) && index < 64
    ensures Represents(words[index / 32 := Or(words[index / 32], Pow2(index % 32))], seen + {index})
  {
    var w := words[index / 32];
    var words' := words[index / 32 := Or(w, Pow2(index % 32))];
    Pow2Word();
    Pow2Grows(index % 32, 32);
    OrBound(w, Pow2(index % 32), 32);
    forall k | 0 <= k < 64
      ensures Marked(words', k) <==> k in seen + {index}
    {
      assert Marked(words, k) <==> k in seen;
      OrUnites(w, Pow2(index % 32), k % 32);
      BitOfPower(index % 32, k % 32);
    }
  }

  lemma {:induction false} Pow2Grows(m: nat, n: nat)
    requires m < n
    ensures Pow2(m) < Pow2(n)
  {
    if m + 1 < n {
      Pow2Grows(m, n - 1);
    }
  }

  /** The part of the bit check that looks at word i: its n low bits against the mask. */
  lemma WordEquals(words: seq<nat>, i: nat, n: nat, seen: set<nat>)
    requires i < WORDS && Represents(words, seen) && 0 < n <= 32
    requires forall k | k in seen && 32 * i + n <= k :: k >= 32 * i + 32
    ensures words[i] == Pow2(n) - 1 <==> forall k | 32 * i <= k < 32 * i + n :: k in seen
  {
    Pow2Word();
    forall j | 0 <= j < 32
      ensures IsSet(words[i], j) <==> 32 * i + j in seen
    {
      assert Marked(words, 32 * i + j) <==> 32 * i + j in seen;
    }
    EqualsMask(words[i], n, 32);
    if words[i] == Pow2(n) - 1 {
      forall k | 32 * i <= k < 32 * i + n
        ensures k in seen
      {
        var j := k - 32 * i;
        MaskBits(n, j);
        assert 32 * i + j == k;
      }
    }
  }

  method Mark(words: array<nat>, index: nat, ghost seen: set<nat>)
    requires index < 64 && Represents(words[..], seen)
    modifies words
    ensures Represents(words[..], seen + {index})
  {
    MarkAdds(words[..], index, seen);
    var tmp := Pow2(index % 32);
    words[index / 32] := Or(words[index / 32], tmp);
    assert words[..] == old(words[..])[index / 32 := Or(old(words[index / 32]), tmp)];
  }

  /** The two-part comparison at the end of pb_decode_noinit. */
  method AllMarked(words: array<nat>, count: nat, ghost seen: set<nat>) returns (ok: bool)
    requires count <= 64 && Represents(words[..], seen)
    requires forall k | k in seen :: k < count
    ensures ok <==> forall k | 0 <= k < count :: k in seen
  {
    Pow2Word();
    var i := 0;
    while i < count / 32
      invariant i <= count / 32
      invariant forall k | 0 <= k < 32 * i :: k in seen
    {
      WordEquals(words[..], i, 32, seen);
      if words[i] != ALL_BITS {
        return false;
      }
      i := i + 1;
    }
    var rest := count % 32;
    if rest != 0 {
      ShiftedMask(32, 32 - rest);
      WordEquals(words[..], count / 32, rest, seen);
      if words[count / 32] != Shr(ALL_BITS, 32 - rest) {
        return false;
      }
    }
    return true;
  }
}
