/** utf.c: UTF-16 names to UTF-8 strings and back. */
module Utf {
  import opened Octets

  const EILSEQ: int := 84
  const ENAMETOOLONG: int := 36

  // ---- The four per-character helpers ----

  /** wchar_to_utf8: nothing for characters past 31 bits. */
  function Encode(wc: nat): (e: seq<byte>)
    ensures wc <= 0x7fffffff <==> e != []
  {
    if wc <= 0x7f then [wc]
    else if wc <= 0x7ff then [0xc0 + wc / 0x40, Tail(wc, 1)]
    else if wc <= 0xffff then [0xe0 + wc / 0x1000, Tail(wc, 0x40), Tail(wc, 1)]
    else if wc <= 0x1fffff then [0xf0 + wc / 0x40000, Tail(wc, 0x1000), Tail(wc, 0x40), Tail(wc, 1)]
    else if wc <= 0x3ffffff then [0xf8 + wc / 0x1000000, Tail(wc, 0x40000), Tail(wc, 0x1000), Tail(wc, 0x40),
        Tail(wc, 1)]
    else if wc <= 0x7fffffff then
      [0xfc + wc / 0x40000000, Tail(wc, 0x1000000), Tail(wc, 0x40000), Tail(wc, 0x1000), Tail(wc, 0x40), Tail(wc, 1)]
    else []
  }

  /** A continuation byte: the six bits of wc from weight w on. */
  function Tail(wc: nat, w: nat): byte
    requires w > 0
  {
    0x80 + wc / w % 0x40
  }

  /** x modulo m, as a plain number. */
  function Low(x: nat, m: nat): nat
    requires m > 0
  {
    x % m
  }

  predicate IsHigh(x: nat) { 0xd800 <= x < 0xdc00 }
  predicate IsLow(x: nat) { 0xdc00 <= x < 0xe000 }

  datatype Char = None | Char(wc: nat, used: nat)

  /** utf16_to_wchar: a surrogate pair or a single unit; a high surrogate alone is an error, a low one alone is not. */
  function FromUnits(u: seq<unit>): (c: Char)
    requires u != []
    ensures c.Char? ==> 1 <= c.used <= |u| && c.used <= 2 && c.wc <= 0x10ffff
  {
    if IsHigh(u[0]) then
      if |u| < 2 || !IsLow(u[1]) then None
      else Char(Low(u[0], 0x400) * 0x400 + Low(u[1], 0x400) + 0x10000, 2)
    else Char(u[0], 1)
  }

  /** utf8_to_wchar: the length comes from the first byte; continuation bytes are not checked. */
  function FromBytes(b: seq<byte>): (c: Char)
    requires b != []
    ensures c.Char? ==> 1 <= c.used <= |b|
  {
    if b[0] < 0x80 then Char(b[0], 1)
    else if 0xc0 <= b[0] < 0xe0 && |b| >= 2 then Char(Low(b[0], 0x20) * 0x40 + Low(b[1], 0x40), 2)
    else if 0xe0 <= b[0] < 0xf0 && |b| >= 3 then
      Char(Low(b[0], 0x10) * 0x1000 + Low(b[1], 0x40) * 0x40 + Low(b[2], 0x40), 3)
    else if 0xf0 <= b[0] < 0xf8 && |b| >= 4 then
      Char(Low(b[0], 8) * 0x40000 + Low(b[1], 0x40) * 0x1000 + Low(b[2], 0x40) * 0x40 + Low(b[3], 0x40), 4)
    else if 0xf8 <= b[0] < 0xfc && |b| >= 5 then
      Char(Low(b[0], 4) * 0x1000000 + Low(b[1], 0x40) * 0x40000 + Low(b[2], 0x40) * 0x1000 + Low(b[3], 0x40) * 0x40
          + Low(b[4], 0x40), 5)
    else if 0xfc <= b[0] < 0xfe && |b| >= 6 then
      Char(Low(b[0], 2) * 0x40000000 + Low(b[1], 0x40) * 0x1000000 + Low(b[2], 0x40) * 0x40000
          + Low(b[3], 0x40) * 0x1000
           + Low(b[4], 0x40) * 0x40 + Low(b[5], 0x40), 6)
    else None
  }

  /** wchar_to_utf16, characters of more than 20 bits above the basic plane losing the rest. */
  function ToUnits(wc: nat): (u: seq<unit>)
    ensures 1 <= |u| <= 2
  {
    if wc <= 0xffff then [wc]
    else [0xd800 + (wc - 0x10000) / 0x400 % 0x400, 0xdc00 + (wc - 0x10000) % 0x400]
  }

  lemma LowTail(x: nat)
    requires 0x80 <= x < 0xc0
    ensures Low(x, 0x40) == x - 0x80
  {}

  lemma LowFirst(x: nat)
    ensures 0xc0 <= x < 0xe0 ==> Low(x, 0x20) == x - 0xc0
    ensures 0xe0 <= x < 0xf0 ==> Low(x, 0x10) == x - 0xe0
    ensures 0xf0 <= x < 0xf8 ==> Low(x, 8) == x - 0xf0
  {}

  /** Six bits more at a time. */
  lemma Sixes(x: nat)
    ensures x / 0x1000 == x / 0x40 / 0x40 && x / 0x40000 == x / 0x40 / 0x40 / 0x40
  {}

  lemma TwoBytes(wc: nat, rest: seq<byte>)
    requires 0x7f < wc <= 0x7ff
    ensures FromBytes(Encode(wc) + rest) == Char(wc, 2)
  {}

  lemma ThreeBytes(wc: nat, rest: seq<byte>)
    requires 0x7ff < wc <= 0xffff
    ensures FromBytes(Encode(wc) + rest) == Char(wc, 3)
  {
    var a, c, d := wc / 0x1000, wc / 0x40 % 0x40, wc % 0x40;
    assert a < 16 && wc == a * 0x1000 + c * 0x40 + d;
    assert Encode(wc) == [0xe0 + a, 0x80 + c, 0x80 + d];
    hide Encode;
    ReadThree(a, c, d, rest);
  }

  lemma ReadThree(a: nat, c: nat, d: nat, rest: seq<byte>)
    requires a < 16 && c < 0x40 && d < 0x40
    ensures FromBytes([0xe0 + a, 0x80 + c, 0x80 + d] + rest) == Char(a * 0x1000 + c * 0x40 + d, 3)
  {
    hide Low;
    LowFirst(0xe0 + a);
    LowTail(0x80 + c);
    LowTail(0x80 + d);
  }

  lemma FourBytes(wc: nat, rest: seq<byte>)
    requires 0xffff < wc <= 0x1fffff
    ensures FromBytes(Encode(wc) + rest) == Char(wc, 4)
  {
    var a, b, c, d := wc / 0x40000, wc / 0x1000 % 0x40, wc / 0x40 % 0x40, wc % 0x40;
    assert Encode(wc) == [0xf0 + a, 0x80 + b, 0x80 + c, 0x80 + d];
    hide Encode;
    FourDigits(wc);
    ReadFour(a, b, c, d, rest);
  }

  lemma FourDigits(wc: nat)
    requires wc <= 0x1fffff
    ensures wc / 0x40000 < 8
    ensures wc == wc / 0x40000 * 0x40000 + wc / 0x1000 % 0x40 * 0x1000 + wc / 0x40 % 0x40 * 0x40 + wc % 0x40
  {
    var x := wc / 0x40;
    assert wc == x * 0x40 + wc % 0x40;
    var y := x / 0x40;
    assert x == y * 0x40 + x % 0x40;
    assert y == y / 0x40 * 0x40 + y % 0x40;
    Sixes(wc);
  }

  lemma ReadFour(a: nat, b: nat, c: nat, d: nat, rest: seq<byte>)
    requires a < 8 && b < 0x40 && c < 0x40 && d < 0x40
    ensures FromBytes([0xf0 + a, 0x80 + b, 0x80 + c, 0x80 + d] + rest) ==
            Char(a * 0x40000 + b * 0x1000 + c * 0x40 + d, 4)
  {
    hide Low;
    LowFirst(0xf0 + a);
    LowTail(0x80 + b);
    LowTail(0x80 + c);
    LowTail(0x80 + d);
  }

  /** Every character of a UTF-16 name comes back from its bytes, whatever follows. */
  lemma EncodeDecode(wc: nat, rest: seq<byte>)
    requires wc <= 0x1fffff
    ensures FromBytes(Encode(wc) + rest) == Char(wc, |Encode(wc)|)
    ensures wc != 0 ==> 0 !in Encode(wc)
  {
    if wc <= 0x7f {
    } else if wc <= 0x7ff {
      TwoBytes(wc, rest);
    } else if wc <= 0xffff {
      ThreeBytes(wc, rest);
    } else {
      FourBytes(wc, rest);
    }
  }

  /** And its units come back from the character; each unit costs at most three bytes. */
  lemma UnitsBack(u: seq<unit>)
    requires u != [] && FromUnits(u).Char?
    ensures var c := FromUnits(u); ToUnits(c.wc) == u[..c.used] && |Encode(c.wc)| <= 3 * c.used
  {
    if IsHigh(u[0]) {
      assert u[0] == 0xd800 + u[0] % 0x400 && u[1] == 0xdc00 + u[1] % 0x400;
      var v := Low(u[0], 0x400) * 0x400 + Low(u[1], 0x400);
      assert v / 0x400 == u[0] % 0x400 && v % 0x400 == u[1] % 0x400;
    }
  }

  // ---- Whole strings ----

  datatype Result<T> = Done(out: seq<T>) | Fail(rc: int)

  function Prepend<T>(head: seq<T>, r: Result<T>): Result<T> {
    if r.Done? then Done(head + r.out) else r
  }

  /** utf16_to_utf8 into `room` bytes: the string before its terminator, which must fit too. */
  function ToUtf8(u: seq<unit>, room: nat): (r: Result<byte>)
    decreases |u|
  {
    if u == [] then (if room >= 1 then Done([]) else Fail(-ENAMETOOLONG))
    else
      match FromUnits(u)
      case None => Fail(-EILSEQ)
      case Char(wc, used) =>
        var e := Encode(wc);
        if |e| > room then Fail(-ENAMETOOLONG)
        else if wc == 0 then Done([])
        else Prepend(e, ToUtf8(u[used..], room - |e|))
  }

  /** utf8_to_utf16 into `room` units. A NUL in the input is written and then terminated once more. */
  function ToUtf16(b: seq<byte>, room: nat): (r: Result<unit>)
    decreases |b|
  {
    if b == [] then (if room >= 1 then Done([]) else Fail(-ENAMETOOLONG))
    else
      match FromBytes(b)
      case None => Fail(-EILSEQ)
      case Char(wc, used) =>
        var w := ToUnits(wc);
        if |w| > room then Fail(-ENAMETOOLONG)
        else if wc == 0 then (if room >= 2 then Done([]) else Fail(-ENAMETOOLONG))
        else Prepend(w, ToUtf16(b[used..], room - |w|))
  }

  /** The units before the first zero. */
  function Name(u: seq<unit>): (n: seq<unit>)
    ensures |n| <= |u| && n == u[..|n|] && (forall i :: 0 <= i < |n| ==> n[i] != 0) && (|n| < |u| ==> u[|n|] == 0)
  {
    if u == [] || u[0] == 0 then [] else [u[0]] + Name(u[1..])
  }

  /** No high surrogate without a low one behind it. */
  predicate Paired(n: seq<unit>) {
    forall i :: 0 <= i < |n| && IsHigh(n[i]) ==> i + 1 < |n| && IsLow(n[i + 1])
  }

  lemma NameIs(u: seq<unit>, n: seq<unit>)
    requires |n| <= |u| && (forall i :: 0 <= i < |n| ==> n[i] == u[i] != 0) && (|n| < |u| ==> u[|n|] == 0)
    ensures Name(u) == n
  {
    assert !(|n| < |Name(u)|);
    assert !(|Name(u)| < |n|);
  }

  lemma NameAfter(u: seq<unit>, k: nat)
    requires k <= |u| && forall i :: 0 <= i < k ==> u[i] != 0
    ensures Name(u) == u[..k] + Name(u[k..])
  {
    hide Name;
    var rest, n := Name(u[k..]), u[..k] + Name(u[k..]);
    forall i | 0 <= i < |n| ensures n[i] == u[i] != 0 {
      if i >= k {
        assert rest[i - k] == u[k..][i - k];
      }
    }
    NameIs(u, n);
  }

  /** What the first character takes is part of the name, and the rest of the name is paired exactly when all of it
      is. */
  lemma FirstCharacter(u: seq<unit>)
    requires u != [] && u[0] != 0 && FromUnits(u).Char?
    ensures var k := FromUnits(u).used;
            Name(u) == u[..k] + Name(u[k..]) && (Paired(Name(u)) <==> Paired(Name(u[k..]))) && FromUnits(u).wc != 0
  {
    hide Name, Paired;
    var k := FromUnits(u).used;
    NameAfter(u, k);
    PairedBehind(u[..k], Name(u[k..]));
  }

  lemma PairedBehind(first: seq<unit>, rest: seq<unit>)
    requires if |first| == 1 then !IsHigh(first[0]) else |first| == 2 && IsHigh(first[0]) && IsLow(first[1])
    ensures Paired(first + rest) <==> Paired(rest)
  {
    var n, k := first + rest, |first|;
    assert forall i :: 0 <= i < |rest| ==> n[k + i] == rest[i];
    if Paired(n) {
      forall i | 0 <= i < |rest| && IsHigh(rest[i]) ensures i + 1 < |rest| && IsLow(rest[i + 1]) {
        assert IsHigh(n[k + i]) && n[k + i + 1] == rest[i + 1];
      }
    }
    if Paired(rest) {
      forall i | 0 <= i < |n| && IsHigh(n[i]) ensures i + 1 < |n| && IsLow(n[i + 1]) {
        if i >= k {
          assert IsHigh(rest[i - k]);
        }
      }
    }
  }

  /** A buffer of three bytes a unit and one more is always enough, so only an unpaired high surrogate can make the
      conversion fail. */
  lemma {:induction false} FailsOnlyUnpaired(u: seq<unit>, room: nat)
    requires room >= 3 * |u| + 1
    ensures ToUtf8(u, room).Done? <==> Paired(Name(u))
    ensures ToUtf8(u, room).Done? ==> |ToUtf8(u, room).out| <= 3 * |Name(u)|
    ensures ToUtf8(u, room).Fail? ==> ToUtf8(u, room).rc == -EILSEQ
    decreases |u|
  {
    hide Encode;
    if u == [] {
    } else if FromUnits(u).None? {
      Unpaired(u);
    } else if u[0] == 0 {
      EncodeDecode(0, []);
      UnitsBack(u);
    } else {
      var k := FromUnits(u).used;
      UnitsBack(u);
      FirstCharacter(u);
      FailsOnlyUnpaired(u[k..], room - |Encode(FromUnits(u).wc)|);
    }
  }

  lemma Unpaired(u: seq<unit>)
    requires u != [] && FromUnits(u).None?
    ensures !Paired(Name(u))
  {
    assert Name(u)[0] == u[0];
    if |Name(u)| > 1 {
      assert Name(u)[1] == u[1];
    }
  }

  /** Converting an accepted name and converting it back gives the name, up to its terminator. */
  lemma {:induction false} Utf8RoundTrip(u: seq<unit>, room: nat, room': nat)
    requires ToUtf8(u, room).Done? && room' >= |Name(u)| + 1
    ensures 0 !in ToUtf8(u, room).out && ToUtf16(ToUtf8(u, room).out, room') == Done(Name(u))
    decreases |u|
  {
    hide Encode, FromBytes, ToUnits, ToUtf16, Name, Paired;
    if u == [] || u[0] == 0 {
      NothingBack(u, room');
    } else {
      var c := FromUnits(u);
      var e := Encode(c.wc);
      UnitsBack(u);
      FirstCharacter(u);
      var rest := ToUtf8(u[c.used..], room - |e|).out;
      Utf8RoundTrip(u[c.used..], room - |e|, room' - c.used);
      EncodeDecode(c.wc, rest);
      StepBack(c.wc, rest, room');
    }
  }

  lemma NothingBack(u: seq<unit>, room: nat)
    requires (u == [] || u[0] == 0) && room > 0
    ensures Name(u) == [] && ToUtf16([], room) == Done([])
  {}

  lemma StepBack(wc: nat, rest: seq<byte>, room: nat)
    requires 0 < wc <= 0x10ffff && |ToUnits(wc)| <= room && FromBytes(Encode(wc) + rest) == Char(wc, |Encode(wc)|)
    ensures ToUtf16(Encode(wc) + rest, room) == Prepend(ToUnits(wc), ToUtf16(rest, room - |ToUnits(wc)|))
  {
    hide Encode, FromBytes, ToUnits;
    assert (Encode(wc) + rest)[|Encode(wc)|..] == rest;
  }

  // ---- Strings that come back ----

  /** The first character is a Unicode one in its shortest form, its continuation bytes start with the bits 10, and it
      is no high surrogate. */
  predicate Plain(b: seq<byte>)
    requires b != []
  {
    var c := FromBytes(b);
    && c.Char? && c.wc <= 0x10ffff && !IsHigh(c.wc) && c.used == Width(c.wc)
    && forall i :: 1 <= i < c.used ==> 0x80 <= b[i] < 0xc0
  }

  /** How many bytes the shortest form takes. */
  function Width(wc: nat): nat {
    if wc <= 0x7f then 1 else if wc <= 0x7ff then 2 else if wc <= 0xffff then 3 else 4
  }

  /** All characters up to the terminator are such ones. */
  predicate Regular(b: seq<byte>)
    decreases |b|
  {
    b == [] || b[0] == 0 || (Plain(b) && Regular(b[FromBytes(b).used..]))
  }

  lemma EncodedIsPlain(wc: nat, rest: seq<byte>)
    requires wc <= 0x10ffff && !IsHigh(wc)
    ensures Plain(Encode(wc) + rest)
  {
    hide FromBytes;
    EncodeDecode(wc, rest);
  }

  lemma PlainIsEncoded(b: seq<byte>)
    requires b != [] && Plain(b)
    ensures var c := FromBytes(b); c.used <= |b| && b[..c.used] == Encode(c.wc)
  {
    hide Encode;
    PlainParts(b);
    hide FromBytes, Plain;
    var n := FromBytes(b).used;
    if n == 1 {
      EncodeOne(b[0]);
      assert b[..1] == [b[0]];
    } else if n == 2 {
      EncodeTwo(b[0] - 0xc0, b[1] - 0x80);
      assert b[..2] == [b[0], b[1]];
    } else if n == 3 {
      EncodeThree(b[0] - 0xe0, b[1] - 0x80, b[2] - 0x80);
      assert b[..3] == [b[0], b[1], b[2]];
    } else {
      EncodeFour(b[0] - 0xf0, b[1] - 0x80, b[2] - 0x80, b[3] - 0x80);
      assert b[..4] == [b[0], b[1], b[2], b[3]];
    }
  }

  /** x times 64 to the k. */
  function Bits(x: int, k: nat): int {
    if k == 0 then x else if k == 1 then x * 0x40 else if k == 2 then x * 0x1000 else x * 0x40000
  }

  lemma PlainParts(b: seq<byte>)
    requires b != [] && Plain(b)
    ensures var c := FromBytes(b); 1 <= c.used <= 4 && c.used <= |b| && c.used == Width(c.wc)
    ensures forall i :: 1 <= i < FromBytes(b).used ==> 0x80 <= b[i] < 0xc0
    ensures FromBytes(b).used == 1 ==> FromBytes(b).wc == b[0] < 0x80
    ensures FromBytes(b).used == 2 ==>
              0xc0 <= b[0] < 0xe0 && FromBytes(b).wc == Bits(b[0] - 0xc0, 1) + Bits(b[1] - 0x80, 0)
    ensures FromBytes(b).used == 3 ==>
              && 0xe0 <= b[0] < 0xf0
              && FromBytes(b).wc == Bits(b[0] - 0xe0, 2) + Bits(b[1] - 0x80, 1) + Bits(b[2] - 0x80, 0)
    ensures FromBytes(b).used == 4 ==>
              && 0xf0 <= b[0] < 0xf8
              && FromBytes(b).wc
                 == Bits(b[0] - 0xf0, 3) + Bits(b[1] - 0x80, 2) + Bits(b[2] - 0x80, 1) + Bits(b[3] - 0x80, 0)
  {
    hide Low;
    forall i | 1 <= i < |b| && 0x80 <= b[i] < 0xc0 ensures Low(b[i], 0x40) == b[i] - 0x80 {
      LowTail(b[i]);
    }
    LowFirst(b[0]);
  }

  lemma EncodeOne(d: nat)
    requires d < 0x80
    ensures Encode(d) == [d]
  {}

  lemma EncodeTwo(a: nat, d: nat)
    requires 1 < a < 0x20 && d < 0x40
    ensures Encode(a * 0x40 + d) == [0xc0 + a, 0x80 + d]
  {
    Digits(a, d);
  }

  lemma EncodeThree(a: nat, c: nat, d: nat)
    requires a < 0x10 && c < 0x40 && d < 0x40 && 0x7ff < a * 0x1000 + c * 0x40 + d
    ensures Encode(a * 0x1000 + c * 0x40 + d) == [0xe0 + a, 0x80 + c, 0x80 + d]
  {
    Digits(a * 0x40 + c, d);
    Digits(a, c);
    Sixes(a * 0x1000 + c * 0x40 + d);
  }

  lemma EncodeFour(a: nat, b: nat, c: nat, d: nat)
    requires a < 8 && b < 0x40 && c < 0x40 && d < 0x40 && 0xffff < a * 0x40000 + b * 0x1000 + c * 0x40 + d
    ensures Encode(a * 0x40000 + b * 0x1000 + c * 0x40 + d) == [0xf0 + a, 0x80 + b, 0x80 + c, 0x80 + d]
  {
    Digits(a * 0x1000 + b * 0x40 + c, d);
    Digits(a * 0x40 + b, c);
    Digits(a, b);
    Sixes(a * 0x40000 + b * 0x1000 + c * 0x40 + d);
  }

  lemma Digits(q: nat, r: nat)
    requires r < 0x40
    ensures (q * 0x40 + r) / 0x40 == q && (q * 0x40 + r) % 0x40 == r
  {}

  /** A character comes back from its units exactly when it is a Unicode one and no high surrogate. */
  lemma CharacterBack(wc: nat, rest: seq<unit>)
    ensures var c := FromUnits(ToUnits(wc) + rest);
            && (c.Char? && c.wc == wc <==> wc <= 0x10ffff && !IsHigh(wc))
            && (c.Char? && c.wc == wc ==> c.used == |ToUnits(wc)|)
    ensures wc != 0 ==> (ToUnits(wc) + rest)[0] != 0
  {
    var u := ToUnits(wc) + rest;
    if 0xffff < wc <= 0x10ffff {
      var v := wc - 0x10000;
      assert v / 0x400 < 0x400 && Low(u[0], 0x400) == v / 0x400 && Low(u[1], 0x400) == v % 0x400;
    }
  }

  /** Converting an accepted string and converting it back gives the string, up to its terminator, exactly when it is
      regular. */
  lemma {:induction false} Utf16RoundTrip(b: seq<byte>, room: nat, room': nat)
    requires ToUtf16(b, room).Done? && room' >= 3 * |ToUtf16(b, room).out| + 1
    ensures ToUtf8(ToUtf16(b, room).out, room') == Done(Name(b)) <==> Regular(b)
    decreases |b|
  {
    hide Encode, FromBytes, ToUnits, FromUnits, ToUtf8, Name, Plain;
    NamesOf(b);
    EndsWith(room');
    if b != [] && FromBytes(b).wc == 0 {
      OnlyNulIsNul(b);
    } else if b != [] {
      var c := FromBytes(b);
      var w := ToUnits(c.wc);
      var rest := ToUtf16(b[c.used..], room - |w|).out;
      if Plain(b) {
        PlainFirst(b, rest, room');
        Utf16RoundTrip(b[c.used..], room - |w|, room' - |Encode(c.wc)|);
        PrependSame(Encode(c.wc), ToUtf8(rest, room' - |Encode(c.wc)|), Name(b[c.used..]));
      } else {
        NotPlainFirst(b, rest, room');
      }
    }
  }

  /** A letter in two bytes is accepted and comes back in one. */
  lemma LongFormIsLost(room: nat)
    requires room > 1
    ensures ToUtf16([0xc1, 0x81], room) == Done([0x41]) && ToUtf8([0x41], room) == Done([0x41])
    ensures !Regular([0xc1, 0x81])
  {
    assert FromBytes([0xc1, 0x81]) == Char(0x41, 2) && [0xc1, 0x81][2..] == [];
    assert FromUnits([0x41]) == Char(0x41, 1) && [0x41][1..] == [];
    assert ToUtf16([], room - 1) == Done([]) && ToUtf8([], room - 1) == Done([]);
    assert [0x41] + [] == [0x41];
  }

  lemma NamesOf(b: seq<byte>)
    ensures b == [] || b[0] == 0 <==> Name(b) == []
  {}

  lemma EndsWith(room: nat)
    requires room > 0
    ensures ToUtf8([], room) == Done([])
  {}

  /** A longer form of NUL is not plain. */
  lemma OnlyNulIsNul(b: seq<byte>)
    requires b != [] && FromBytes(b).Char? && FromBytes(b).wc == 0
    ensures Plain(b) ==> b[0] == 0
  {}

  lemma PlainFirst(b: seq<byte>, rest: seq<unit>, room: nat)
    requires b != [] && Plain(b) && FromBytes(b).wc != 0 && room > 3 * |ToUnits(FromBytes(b).wc)| + 3 * |rest|
    ensures var c := FromBytes(b);
            && b[0] != 0 && 1 <= c.used <= |b| && Name(b) == Encode(c.wc) + Name(b[c.used..])
            && room - |Encode(c.wc)| >= 3 * |rest| + 1
            && ToUtf8(ToUnits(c.wc) + rest, room) == Prepend(Encode(c.wc), ToUtf8(rest, room - |Encode(c.wc)|))
  {
    var c := FromBytes(b);
    var u := ToUnits(c.wc) + rest;
    PlainIsEncoded(b);
    CharacterBack(c.wc, rest);
    Wide(c.wc);
    EncodeDecode(c.wc, []);
    hide Encode, FromBytes, ToUnits, FromUnits, Name;
    assert forall i :: 0 <= i < c.used ==> b[i] == b[..c.used][i] && b[i] != 0;
    NameAfter(b, c.used);
    assert u[c.used - c.used..] == u && u[|ToUnits(c.wc)|..] == rest;
  }

  /** At most three bytes a unit. */
  lemma Wide(wc: nat)
    requires wc <= 0x10ffff
    ensures |Encode(wc)| <= 3 * |ToUnits(wc)|
  {}

  /** What comes back starts with a character in its shortest form. */
  lemma NotPlainFirst(b: seq<byte>, rest: seq<unit>, room: nat)
    requires b != [] && FromBytes(b).Char? && FromBytes(b).wc != 0 && !Plain(b)
    ensures b[0] != 0 && ToUtf8(ToUnits(FromBytes(b).wc) + rest, room) != Done(Name(b))
  {
    var wc, n := FromBytes(b).wc, Name(b);
    var u := ToUnits(wc) + rest;
    CharacterBack(wc, rest);
    if ToUtf8(u, room) == Done(n) {
      var c := FromUnits(u);
      hide FromBytes, ToUnits, FromUnits, Name, Encode, Plain;
      StartsWithCharacter(u, room, n);
      var e := Encode(c.wc);
      assert b[..|e|] == b[..|n|][..|e|] == e;
      assert b == e + b[|e|..];
      EncodeDecode(c.wc, b[|e|..]);
      EncodedIsPlain(c.wc, b[|e|..]);
    }
  }

  lemma StartsWithCharacter(u: seq<unit>, room: nat, n: seq<byte>)
    requires u != [] && u[0] != 0 && ToUtf8(u, room) == Done(n)
    ensures var c := FromUnits(u);
            c.Char? && c.wc <= 0x10ffff && |Encode(c.wc)| <= |n| && n[..|Encode(c.wc)|] == Encode(c.wc)
  {
    hide Encode;
  }

  lemma PrependSame<T>(head: seq<T>, r: Result<T>, tail: seq<T>)
    ensures Prepend(head, r) == Done(head + tail) <==> r == Done(tail)
  {
    if r.Done? && head + r.out == head + tail {
      assert r.out == (head + r.out)[|head|..];
      assert tail == (head + tail)[|head|..];
    }
  }

  // ---- The loops ----

  /** utf16_to_utf8 into a buffer. */
  method Utf16ToUtf8(output: array<byte>, input: seq<unit>, outsize: nat) returns (rc: int)
    requires outsize <= output.Length
    modifies output
    ensures var r := ToUtf8(input, outsize);
            if r.Fail? then rc == r.rc
            else rc == 0 && |r.out| < outsize && output[..|r.out|] == r.out && output[|r.out|] == 0
  {
    hide Encode, FromUnits;
    var inp: nat, outp: nat := 0, 0;
    ghost var done: seq<byte> := [];
    while inp < |input|
      invariant inp <= |input| && outp <= outsize && output[..outp] == done && |done| == outp
      invariant ToUtf8(input, outsize) == Prepend(done, ToUtf8(input[inp..], outsize - outp))
    {
      var c := FromUnits(input[inp..]);
      if c.None? {
        return -EILSEQ;
      }
      var e := Encode(c.wc);
      if |e| > outsize - outp {
        return -ENAMETOOLONG;
      }
      forall i | 0 <= i < |e| {
        output[outp + i] := e[i];
      }
      assert output[..outp + |e|] == done + e;
      if c.wc == 0 {
        ZeroByte();
        assert done + [] == done && output[..outp] == done;
        return 0;
      }
      assert input[inp..][c.used..] == input[inp + c.used..];
      Prepended(done, e, ToUtf8(input[inp + c.used..], outsize - outp - |e|));
      done := done + e;
      inp, outp := inp + c.used, outp + |e|;
    }
    assert done + [] == done;
    if outp >= outsize {
      return -ENAMETOOLONG;
    }
    output[outp] := 0;
    rc := 0;
  }

  lemma ZeroByte()
    ensures Encode(0) == [0]
  {}

  lemma Prepended<T>(a: seq<T>, b: seq<T>, r: Result<T>)
    ensures Prepend(a, Prepend(b, r)) == Prepend(a + b, r)
  {
    if r.Done? {
      assert a + (b + r.out) == a + b + r.out;
    }
  }

  /** utf8_to_utf16 into a buffer. */
  method Utf8ToUtf16(output: array<unit>, input: seq<byte>, outsize: nat) returns (rc: int)
    requires outsize <= output.Length
    modifies output
    ensures var r := ToUtf16(input, outsize);
            if r.Fail? then rc == r.rc
            else rc == 0 && |r.out| < outsize && output[..|r.out|] == r.out && output[|r.out|] == 0
  {
    hide FromBytes, ToUnits;
    var inp: nat, outp: nat := 0, 0;
    ghost var done: seq<unit> := [];
    while inp < |input|
      invariant inp <= |input| && outp <= outsize && output[..outp] == done && |done| == outp
      invariant ToUtf16(input, outsize) == Prepend(done, ToUtf16(input[inp..], outsize - outp))
    {
      var c := FromBytes(input[inp..]);
      if c.None? {
        return -EILSEQ;
      }
      var w := ToUnits(c.wc);
      if |w| > outsize - outp {
        return -ENAMETOOLONG;
      }
      forall i | 0 <= i < |w| {
        output[outp + i] := w[i];
      }
      assert output[..outp + |w|] == done + w;
      if c.wc == 0 {
        ZeroUnit();
        assert done + [] == done && output[..outp] == done;
        if outp + 1 >= outsize {
          return -ENAMETOOLONG;
        }
        output[outp + 1] := 0;
        return 0;
      }
      assert input[inp..][c.used..] == input[inp + c.used..];
      Prepended(done, w, ToUtf16(input[inp + c.used..], outsize - outp - |w|));
      done := done + w;
      inp, outp := inp + c.used, outp + |w|;
    }
    assert done + [] == done;
    if outp >= outsize {
      return -ENAMETOOLONG;
    }
    output[outp] := 0;
    rc := 0;
  }

  lemma ZeroUnit()
    ensures ToUnits(0) == [0]
  {}
}
