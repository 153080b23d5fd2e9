/** The cluster bitmap: an array of machine words, one bit per data cluster.
    A word is its unsigned value; the single-bit masks of the BMAP_* macros act on one binary digit of it. */
module Bitmap {

  const WORD_BITS: nat := 64

  /** The value of a word whose n lowest bits are all set: ~0 for n == WORD_BITS. */
  function Ones(n: nat): nat {
    if n == 0 then 0 else 2 * Ones(n - 1) + 1
  }

  type Word = w: nat | w <= Ones(WORD_BITS)

  /** w & (1 << i) != 0 */
  predicate Bit(w: nat, i: nat) {
    if i == 0 then w % 2 == 1 else Bit(w / 2, i - 1)
  }

  /** w | (1 << i) */
  function WithBit(w: nat, i: nat): nat {
    if i == 0 then w - w % 2 + 1 else 2 * WithBit(w / 2, i - 1) + w % 2
  }

  /** w & ~(1 << i) */
  function WithoutBit(w: nat, i: nat): nat {
    if i == 0 then w - w % 2 else 2 * WithoutBit(w / 2, i - 1) + w % 2
  }

  lemma {:induction false} WithBitBits(w: nat, i: nat, j: nat)
    ensures Bit(WithBit(w, i), j) <==> i == j || Bit(w, j)
  {
    if i > 0 && j > 0 {
      WithBitBits(w / 2, i - 1, j - 1);
      assert WithBit(w, i) / 2 == WithBit(w / 2, i - 1);
    }
  }

  lemma {:induction false} WithoutBitBits(w: nat, i: nat, j: nat)
    ensures Bit(WithoutBit(w, i), j) <==> i != j && Bit(w, j)
  {
    if i > 0 && j > 0 {
      WithoutBitBits(w / 2, i - 1, j - 1);
      assert WithoutBit(w, i) / 2 == WithoutBit(w / 2, i - 1);
    }
  }

  lemma {:induction false} WithBitFits(w: nat, i: nat, n: nat)
    requires i < n && w <= Ones(n)
    ensures WithBit(w, i) <= Ones(n) && WithoutBit(w, i) <= Ones(n)
  {
    if i > 0 {
      WithBitFits(w / 2, i - 1, n - 1);
      hide Ones, WithBit, WithoutBit;
      Doubled(w, i, n);
    }
  }

  lemma Doubled(w: nat, i: nat, n: nat)
    requires 0 < i < n
    ensures WithBit(w, i) == 2 * WithBit(w / 2, i - 1) + w % 2
    ensures WithoutBit(w, i) == 2 * WithoutBit(w / 2, i - 1) + w % 2
    ensures Ones(n) == 2 * Ones(n - 1) + 1
  {}

  /** The whole-word test that lets the search skip a word: every bit of ~0 is set. */
  lemma {:induction false} OnesHasEveryBit(n: nat, i: nat)
    requires i < n
    ensures Bit(Ones(n), i)
  {
    if i > 0 {
      OnesHasEveryBit(n - 1, i - 1);
      assert Ones(n) / 2 == Ones(n - 1);
    }
  }

  /** BMAP_GET */
  predicate Get(words: seq<Word>, i: nat)
    requires i / WORD_BITS < |words|
  {
    Bit(words[i / WORD_BITS], i % WORD_BITS)
  }

  /** The first n bits of the word array, as the booleans they stand for. */
  function Bits(words: seq<Word>, n: nat): (bits: seq<bool>)
    requires n <= |words| * WORD_BITS
    ensures |bits| == n
    ensures forall i :: 0 <= i < n ==> bits[i] == Get(words, i)
  {
    seq(n, i requires 0 <= i < n => Get(words, i))
  }

  lemma SetOneBit(words: seq<Word>, n: nat, i: nat)
    requires n <= |words| * WORD_BITS && i < n
    ensures WithBit(words[i / WORD_BITS], i % WORD_BITS) <= Ones(WORD_BITS)
    ensures Bits(words[i / WORD_BITS := WithBit(words[i / WORD_BITS], i % WORD_BITS)], n) == Bits(words, n)[i := true]
  {
    hide Ones, Bit, WithBit, WithoutBit;
    var b := i / WORD_BITS;
    WithBitFits(words[b], i % WORD_BITS, WORD_BITS);
    var words' := words[b := WithBit(words[b], i % WORD_BITS)];
    forall j | 0 <= j < n ensures Bits(words', n)[j] == Bits(words, n)[i := true][j] {
      WithBitBits(words[b], i % WORD_BITS, j % WORD_BITS);
    }
  }

  lemma ClearOneBit(words: seq<Word>, n: nat, i: nat)
    requires n <= |words| * WORD_BITS && i < n
    ensures WithoutBit(words[i / WORD_BITS], i % WORD_BITS) <= Ones(WORD_BITS)
    ensures Bits(words[i / WORD_BITS := WithoutBit(words[i / WORD_BITS], i % WORD_BITS)], n) ==
            Bits(words, n)[i := false]
  {
    hide Ones, Bit, WithBit, WithoutBit;
    var b := i / WORD_BITS;
    WithBitFits(words[b], i % WORD_BITS, WORD_BITS);
    var words' := words[b := WithoutBit(words[b], i % WORD_BITS)];
    forall j | 0 <= j < n ensures Bits(words', n)[j] == Bits(words, n)[i := false][j] {
      WithoutBitBits(words[b], i % WORD_BITS, j % WORD_BITS);
    }
  }

  /** The lowest clear bit in [lo, hi), looked for one bit at a time; hi when there is none. */
  function FirstClear(bits: seq<bool>, lo: nat, hi: nat): (r: nat)
    requires lo <= hi <= |bits|
    ensures lo <= r <= hi
    ensures forall j :: lo <= j < r ==> bits[j]
    ensures r < hi ==> !bits[r]
    decreases hi - lo
  {
    if lo == hi || !bits[lo] then lo else FirstClear(bits, lo + 1, hi)
  }

  lemma FirstClearUnique(bits: seq<bool>, lo: nat, hi: nat, r: nat)
    requires lo <= r <= hi <= |bits|
    requires forall j :: lo <= j < r ==> bits[j]
    requires r < hi ==> !bits[r]
    ensures FirstClear(bits, lo, hi) == r
  {
    var f := FirstClear(bits, lo, hi);
    assert !(f < r);
    assert !(r < f);
  }

  /** find_bit_and_set: claims the lowest clear bit of [start, end), skipping full words.
      The index end stands for "no clear bit" (EXFAT_CLUSTER_END in the source). */
  method FindBitAndSet(bitmap: array<Word>, start: nat, end: nat, ghost n: nat) returns (c: nat)
    requires start <= end <= n <= bitmap.Length * WORD_BITS
    modifies bitmap
    ensures c == FirstClear(old(Bits(bitmap[..], n)), start, end)
    ensures Bits(bitmap[..], n) ==
            if c < end then old(Bits(bitmap[..], n))[c := true] else old(Bits(bitmap[..], n))
  {
    hide Ones, WithBit, FirstClear;
    ghost var bits := Bits(bitmap[..], n);
    var startIndex := start / WORD_BITS;
    var endIndex := (end + WORD_BITS - 1) / WORD_BITS;
    var i := startIndex;
    while i < endIndex
      invariant startIndex <= i
      invariant bitmap[..] == old(bitmap[..])
      invariant forall j :: start <= j < end && j < i * WORD_BITS ==> bits[j]
    {
      if bitmap[i] == Ones(WORD_BITS) {
        FullWord(bitmap[..], n, i);
      } else {
        c := if i * WORD_BITS < start then start else i * WORD_BITS;
        var endBit := if (i + 1) * WORD_BITS < end then (i + 1) * WORD_BITS else end;
        while c < endBit
          invariant start <= c && i * WORD_BITS <= c
          invariant bitmap[..] == old(bitmap[..])
          invariant forall j :: start <= j < c && j < end ==> bits[j]
        {
          if !Bit(bitmap[c / WORD_BITS], c % WORD_BITS) {
            SetOneBit(bitmap[..], n, c);
            assert !bits[c];
            bitmap[c / WORD_BITS] := WithBit(bitmap[c / WORD_BITS], c % WORD_BITS);
            FirstClearUnique(bits, start, end, c);
            return;
          }
          assert bits[c];
          c := c + 1;
        }
      }
      i := i + 1;
    }
    c := end;
    FirstClearUnique(bits, start, end, end);
  }

  lemma FullWord(words: seq<Word>, n: nat, i: nat)
    requires n <= |words| * WORD_BITS && i < |words| && words[i] == Ones(WORD_BITS)
    ensures forall j :: i * WORD_BITS <= j < (i + 1) * WORD_BITS && j < n ==> Bits(words, n)[j]
  {
    forall j | i * WORD_BITS <= j < (i + 1) * WORD_BITS && j < n ensures Bits(words, n)[j] {
      assert j / WORD_BITS == i;
      OnesHasEveryBit(WORD_BITS, j % WORD_BITS);
    }
  }

  function CountClear(bits: seq<bool>): (n: nat)
    ensures n <= |bits|
  {
    if bits == [] then 0 else CountClear(bits[..|bits| - 1]) + (if bits[|bits| - 1] then 0 else 1)
  }

  lemma {:induction false} CountClearUpdate(bits: seq<bool>, i: nat, b: bool)
    requires i < |bits|
    ensures CountClear(bits[i := b]) == CountClear(bits) + (if bits[i] then 1 else 0) - (if b then 1 else 0)
  {
    var last := |bits| - 1;
    if i < last {
      assert bits[i := b][..last] == bits[..last][i := b];
      CountClearUpdate(bits[..last], i, b);
    } else {
      assert bits[i := b][..last] == bits[..last];
    }
  }

  lemma {:induction false} CountClearZero(bits: seq<bool>)
    ensures CountClear(bits) == 0 <==> forall i :: 0 <= i < |bits| ==> bits[i]
  {
    if bits != [] {
      var last := |bits| - 1;
      CountClearZero(bits[..last]);
      if forall i :: 0 <= i < |bits| ==> bits[i] {
        assert forall i :: 0 <= i < last ==> bits[..last][i];
        assert bits[last];
      } else if CountClear(bits) == 0 {
        assert forall i :: 0 <= i < last ==> bits[i] == bits[..last][i];
      }
    }
  }
}
