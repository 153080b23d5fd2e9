/** Bytes, 16-bit units, and little-endian fields inside byte sequences. */
module Octets {

  type byte = x: int | 0 <= x < 256
  type unit = x: int | 0 <= x < 0x10000

  function Le16(s: seq<byte>, p: nat): (v: unit)
    requires p + 2 <= |s|
  {
    Two(s[p], s[p + 1])
  }

  /** n little-endian 16-bit words from p on, the lowest first. */
  function Words(s: seq<byte>, p: nat, n: nat): (v: nat)
    requires p + 2 * n <= |s|
    decreases n
  {
    if n == 0 then 0 else Le16(s, p) + 0x10000 * Words(s, p + 2, n - 1)
  }

  function Le32(s: seq<byte>, p: nat): (v: nat)
    requires p + 4 <= |s|
  {
    Words(s, p, 2)
  }

  function Le64(s: seq<byte>, p: nat): (v: nat)
    requires p + 8 <= |s|
  {
    Words(s, p, 4)
  }

  function Two(lo: nat, hi: nat): (v: nat)
    ensures lo < 256 && hi < 256 ==> v < 0x10000
  {
    lo + 0x100 * hi
  }

  lemma {:induction false} SameWords(s: seq<byte>, t: seq<byte>, p: nat, n: nat)
    requires p + 2 * n <= |s| && p + 2 * n <= |t| && forall i :: p <= i < p + 2 * n ==> s[i] == t[i]
    ensures Words(s, p, n) == Words(t, p, n)
    decreases n
  {
    if n > 0 {
      SameWords(s, t, p + 2, n - 1);
    }
  }

  /** The fields of s and t agree where their bytes do. */
  lemma SameField(s: seq<byte>, t: seq<byte>, p: nat, n: nat)
    requires p + n <= |s| && p + n <= |t| && forall i :: p <= i < p + n ==> s[i] == t[i]
    ensures n == 2 ==> Le16(s, p) == Le16(t, p)
    ensures n == 4 ==> Le32(s, p) == Le32(t, p)
    ensures n == 8 ==> Le64(s, p) == Le64(t, p)
  {
    if n in {4, 8} {
      SameWords(s, t, p, n / 2);
    }
  }

  /** A long field is its two halves. */
  lemma Halves(s: seq<byte>, p: nat)
    requires p + 4 <= |s|
    ensures Le32(s, p) == Le16(s, p) + 0x10000 * Le16(s, p + 2)
    ensures p + 8 <= |s| ==> Le64(s, p) == Le32(s, p) + 0x1_0000_0000 * Le32(s, p + 4)
  {
    assert Words(s, p + 2, 1) == Le16(s, p + 2) + 0x10000 * Words(s, p + 4, 0);
    if p + 8 <= |s| {
      assert Words(s, p, 4) == Le16(s, p) + 0x10000 * Words(s, p + 2, 3);
      assert Words(s, p + 2, 3) == Le16(s, p + 2) + 0x10000 * Words(s, p + 4, 2);
    }
  }

  /** Everything outside [p, p + n) is as before. */
  predicate Elsewhere(s: seq<byte>, t: seq<byte>, p: nat, n: nat) {
    |s| == |t| && forall i :: 0 <= i < |s| && !(p <= i < p + n) ==> t[i] == s[i]
  }

  method Put16(a: array<byte>, p: nat, v: unit)
    requires p + 2 <= a.Length
    modifies a
    ensures Le16(a[..], p) == v && Elsewhere(old(a[..]), a[..], p, 2)
  {
    a[p], a[p + 1] := v % 0x100, v / 0x100;
  }

  method Put32(a: array<byte>, p: nat, v: nat)
    requires p + 4 <= a.Length && v < 0x1_0000_0000
    modifies a
    ensures Le32(a[..], p) == v && Elsewhere(old(a[..]), a[..], p, 4)
  {
    Put16(a, p, v % 0x10000);
    ghost var low := a[..];
    Put16(a, p + 2, v / 0x10000);
    SameField(low, a[..], p, 2);
    Halves(a[..], p);
  }

  method Put64(a: array<byte>, p: nat, v: nat)
    requires p + 8 <= a.Length && v < 0x1_0000_0000_0000_0000
    modifies a
    ensures Le64(a[..], p) == v && Elsewhere(old(a[..]), a[..], p, 8)
  {
    Put32(a, p, v % 0x1_0000_0000);
    ghost var low := a[..];
    Put32(a, p + 4, v / 0x1_0000_0000);
    SameField(low, a[..], p, 4);
    Halves(a[..], p);
  }
}
