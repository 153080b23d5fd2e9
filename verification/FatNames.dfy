/** fat_misc.c: 32-byte directory records, and long names split over them and put together again. */
module FatNames {
  import opened SectorCache

  const RECORD_SIZE: nat := 32
  const MAX_ENTRIES: nat := 20
  const PER_ENTRY: nat := 13
  const DELETED: byte := 0xE5
  const BLANK: byte := 0x00

  type Record = r: seq<byte> | |r| == RECORD_SIZE witness seq(RECORD_SIZE, i => 0)

  /** Where a long-name record keeps its 13 characters. */
  const NAME_INDEXES: seq<nat> := [1, 3, 5, 7, 9, 0x0E, 0x10, 0x12, 0x14, 0x16, 0x18, 0x1C, 0x1E]

  // ---- fatfs_entry_lfn_text and friends ----

  predicate LfnText(r: Record) {
    r[11] % 16 == 15
  }

  predicate LfnInvalid(r: Record) {
    r[0] == BLANK || r[0] == DELETED || r[11] == 8 || r[11] / 2 % 4 != 0
  }

  /** A short-name record whose file is deleted, or that was never used. */
  predicate DeadSfn(r: Record) {
    !LfnText(r) && (r[0] == DELETED || r[0] == BLANK)
  }

  predicate LiveSfn(r: Record) {
    !LfnText(r) && r[0] != DELETED && r[0] != BLANK
  }

  // ---- fatfs_lfn_entries_required ----

  function EntriesRequired(name: seq<byte>): nat {
    (|name| + PER_ENTRY - 1) / PER_ENTRY
  }

  /** The records cover the name, and none of them is spare. */
  lemma EntriesCover(name: seq<byte>)
    ensures EntriesRequired(name) * 13 >= |name|
    ensures name != [] ==> (EntriesRequired(name) - 1) * 13 < |name|
    ensures EntriesRequired(name) <= MAX_ENTRIES <==> |name| <= 260
  {}

  // ---- fatfs_filename_to_lfn ----

  /** x | 0x40 as an eight-bit value. */
  function Or40(x: nat): byte {
    (if x / 64 % 2 == 1 then x else x + 64) % 256
  }

  function Number(entry: nat, last: bool): byte {
    if last then Or40(entry + 1) else (entry + 1) % 256
  }

  /** What lands in the i-th character of record `entry`: the character, the terminator, or padding. */
  function CharAt(name: seq<byte>, p: nat): byte {
    if p < |name| then name[p] else if p == |name| then 0 else 0xFF
  }

  /** Which character position byte k of a record belongs to; 13 for the other bytes. */
  function CharOf(k: nat): (i: nat) {
    if 1 <= k <= 10 then (k - 1) / 2
    else if 14 <= k <= 25 then 5 + (k - 14) / 2
    else if 28 <= k <= 31 then 11 + (k - 28) / 2
    else 13
  }

  /** One byte of long-name record `entry` of a name. */
  function LfnByte(name: seq<byte>, entry: nat, chk: byte, k: nat): byte {
    if k == 0 then Number(entry, entry + 1 == EntriesRequired(name))
    else if k == 11 then 0x0F
    else if k == 13 then chk
    else if CharOf(k) == 13 then 0
    else if NAME_INDEXES[CharOf(k)] == k then CharAt(name, entry * 13 + CharOf(k))
    else if entry * 13 + CharOf(k) <= |name| then 0 else 0xFF
  }

  function LfnRecord(name: seq<byte>, entry: nat, chk: byte): (r: Record)
    ensures forall k :: 0 <= k < RECORD_SIZE ==> r[k] == LfnByte(name, entry, chk, k)
  {
    seq(RECORD_SIZE, k requires 0 <= k < RECORD_SIZE => LfnByte(name, entry, chk, k))
  }

  lemma CharPlaces(i: nat)
    requires i < 13
    ensures CharOf(NAME_INDEXES[i]) == i && CharOf(NAME_INDEXES[i] + 1) == i
    ensures NAME_INDEXES[i] + 1 < RECORD_SIZE && NAME_INDEXES[i] !in {0, 11, 13} && NAME_INDEXES[i] + 1 !in {0, 11, 13}
    ensures forall k :: 0 <= k < RECORD_SIZE && CharOf(k) == i ==> k == NAME_INDEXES[i] || k == NAME_INDEXES[i] + 1
  {}

  /** The two bytes of character position i, and the bytes that belong to no character. */
  lemma LfnBytes(name: seq<byte>, entry: nat, chk: byte, i: nat)
    requires i < 13
    ensures LfnByte(name, entry, chk, NAME_INDEXES[i]) == CharAt(name, entry * 13 + i)
    ensures LfnByte(name, entry, chk, NAME_INDEXES[i] + 1) == if entry * 13 + i <= |name| then 0 else 0xFF
  {
    CharPlaces(i);
  }

  lemma FixedBytes(name: seq<byte>, entry: nat, chk: byte, k: nat)
    requires k < RECORD_SIZE && CharOf(k) >= 13
    ensures LfnByte(name, entry, chk, k) ==
              if k == 0 then Number(entry, entry + 1 == EntriesRequired(name))
              else if k == 11 then 0x0F else if k == 13 then chk else 0
  {}

  /** Fills one long-name record in place. */
  method FilenameToLfn(name: seq<byte>, buffer: array<byte>, at: nat, entry: nat, chk: byte)
    requires at + RECORD_SIZE <= buffer.Length
    modifies buffer
    ensures buffer[at..at + RECORD_SIZE] == LfnRecord(name, entry, chk)
    ensures buffer[..at] == old(buffer[..at]) && buffer[at + RECORD_SIZE..] == old(buffer[at + RECORD_SIZE..])
  {
    hide LfnByte, Number;
    var required := EntriesRequired(name);
    forall k | 0 <= k < RECORD_SIZE {
      buffer[at + k] := 0;
    }
    buffer[at] := Number(entry, entry + 1 == required);
    buffer[at + 11] := 0x0F;
    buffer[at + 13] := chk;
    forall k | 0 <= k < RECORD_SIZE && CharOf(k) >= 13 ensures buffer[at + k] == LfnByte(name, entry, chk, k) {
      FixedBytes(name, entry, chk, k);
    }
    hide EntriesRequired;
    for i := 0 to PER_ENTRY
      invariant forall k :: 0 <= k < RECORD_SIZE ==>
                  buffer[at + k] == if i <= CharOf(k) < 13 then 0 else LfnByte(name, entry, chk, k)
      invariant buffer[..at] == old(buffer[..at]) && buffer[at + RECORD_SIZE..] == old(buffer[at + RECORD_SIZE..])
    {
      PutChar(name, buffer, at, entry, chk, i);
    }
  }

  /** The i-th character of a record: two bytes, the second zero but for padding. */
  method PutChar(name: seq<byte>, buffer: array<byte>, at: nat, entry: nat, chk: byte, i: nat)
    requires at + RECORD_SIZE <= buffer.Length && i < PER_ENTRY
    requires forall k :: 0 <= k < RECORD_SIZE ==>
               buffer[at + k] == if i <= CharOf(k) < 13 then 0 else LfnByte(name, entry, chk, k)
    modifies buffer
    ensures forall k :: 0 <= k < RECORD_SIZE ==>
              buffer[at + k] == if i + 1 <= CharOf(k) < 13 then 0 else LfnByte(name, entry, chk, k)
    ensures buffer[..at] == old(buffer[..at]) && buffer[at + RECORD_SIZE..] == old(buffer[at + RECORD_SIZE..])
  {
    hide LfnByte;
    var length, start := |name|, entry * PER_ENTRY;
    CharPlaces(i);
    LfnBytes(name, entry, chk, i);
    if start + i < length {
      buffer[at + NAME_INDEXES[i]] := name[start + i];
    } else if start + i == length {
      buffer[at + NAME_INDEXES[i]] := 0;
    } else {
      buffer[at + NAME_INDEXES[i]] := 0xFF;
      buffer[at + NAME_INDEXES[i] + 1] := 0xFF;
    }
  }

  // ---- The long-name cache ----

  /** struct lfn_cache: how many records the current name has, and the 20 strings of 13 bytes back to back. */
  datatype Lfn = Lfn(count: nat, text: seq<byte>)

  const TEXT_SIZE: nat := 260

  predicate LfnOk(c: Lfn) {
    c.count <= MAX_ENTRIES && |c.text| == TEXT_SIZE
  }

  function LfnIndex(r: Record): nat {
    r[0] % 32
  }

  /** Records whose number fits the cache. */
  predicate Usable(r: Record) {
    1 <= LfnIndex(r) <= MAX_ENTRIES
  }

  /** The i-th character a record contributes. */
  function Char(r: Record, i: nat): byte
    requires i < 13
  {
    var b := r[NAME_INDEXES[i]];
    if b == 0xFF then 0x20 else b
  }

  /** fatfs_lfn_cache_entry. */
  function CacheEntry(c: Lfn, r: Record): (d: Lfn)
    requires LfnOk(c)
    ensures LfnOk(d)
    ensures Usable(r) ==> d.count == if c.count == 0 then LfnIndex(r) else c.count
    ensures Usable(r) ==> forall p :: 0 <= p < TEXT_SIZE ==>
              d.text[p] == if p / 13 == LfnIndex(r) - 1 then Char(r, p % 13) else c.text[p]
    ensures !Usable(r) ==> d == c
  {
    if !Usable(r) then c
    else
      Lfn(if c.count == 0 then LfnIndex(r) else c.count,
          seq(TEXT_SIZE, p requires 0 <= p < TEXT_SIZE =>
            if p / 13 == LfnIndex(r) - 1 then Char(r, p % 13) else c.text[p]))
  }

  /** What fatfs_lfn_cache_get leaves in the cache. */
  function Terminated(c: Lfn): (d: Lfn)
    requires LfnOk(c)
    ensures LfnOk(d) && d.count == c.count
  {
    if c.count == MAX_ENTRIES then c else c.(text := c.text[c.count * 13 := 0])
  }

  /** A C string: everything before the first NUL. */
  function UpToNul(s: seq<byte>): (t: seq<byte>)
    ensures |t| <= |s| && t == s[..|t|]
    ensures forall i :: 0 <= i < |t| ==> t[i] != 0
    ensures |t| < |s| ==> s[|t|] == 0
  {
    if s == [] || s[0] == 0 then [] else [s[0]] + UpToNul(s[1..])
  }

  lemma UpToNulIs(s: seq<byte>, t: seq<byte>)
    requires t <= s && (forall i :: 0 <= i < |t| ==> t[i] != 0) && (|t| < |s| ==> s[|t|] == 0)
    ensures UpToNul(s) == t
  {
    var u := UpToNul(s);
    assert !(|u| < |t|);
    assert !(|t| < |u|);
  }

  /** The string fatfs_lfn_cache_get returns. */
  function CacheName(c: Lfn): seq<byte>
    requires LfnOk(c)
  {
    UpToNul(c.text[..c.count * 13])
  }

  // ---- The round trip ----

  /** The first k records of a name as they are written, highest number first. */
  function LfnSet(name: seq<byte>, k: nat, chk: byte): (s: seq<Record>)
    ensures |s| == k
    ensures forall i :: 0 <= i < k ==> s[i] == LfnRecord(name, k - 1 - i, chk)
    decreases k
  {
    if k == 0 then [] else [LfnRecord(name, k - 1, chk)] + LfnSet(name, k - 1, chk)
  }

  function Fold(c: Lfn, s: seq<Record>): (d: Lfn)
    requires LfnOk(c)
    ensures LfnOk(d)
    decreases |s|
  {
    if s == [] then c else Fold(CacheEntry(c, s[0]), s[1..])
  }

  lemma NumberBack(entry: nat, last: bool)
    requires entry < MAX_ENTRIES
    ensures Number(entry, last) % 32 == entry + 1
  {
    assert (entry + 1) / 64 == 0 && Or40(entry + 1) == entry + 65 && (entry + 65) % 32 == entry + 1;
  }

  /** Reading the records of a name, in the order they are written, fills the cache from any state with its
      characters. */
  lemma {:induction false} FoldFills(name: seq<byte>, k: nat, chk: byte, c: Lfn)
    requires LfnOk(c) && k <= MAX_ENTRIES && k <= EntriesRequired(name)
    ensures var d := Fold(c, LfnSet(name, k, chk));
            && d.count == (if c.count == 0 then k else c.count)
            && forall p :: 0 <= p < TEXT_SIZE ==>
                 d.text[p] == if p < k * 13 then (var b := CharAt(name, p); if b == 0xFF then 0x20 else b)
                     else c.text[p]
    decreases k
  {
    if k > 0 {
      var r := LfnRecord(name, k - 1, chk);
      var s := LfnSet(name, k, chk);
      assert s[0] == r && s[1..] == LfnSet(name, k - 1, chk);
      hide LfnSet, LfnRecord, CacheEntry;
      EntryFills(name, k, chk, c);
      FoldFills(name, k - 1, chk, CacheEntry(c, r));
    }
  }

  /** One record of the name gives the cache its 13 characters. */
  lemma EntryFills(name: seq<byte>, k: nat, chk: byte, c: Lfn)
    requires LfnOk(c) && 0 < k <= MAX_ENTRIES && k <= EntriesRequired(name)
    ensures var d := CacheEntry(c, LfnRecord(name, k - 1, chk));
            && d.count == (if c.count == 0 then k else c.count)
            && forall p :: 0 <= p < TEXT_SIZE ==>
                 d.text[p] == if (k - 1) * 13 <= p < k * 13 then (var b := CharAt(name, p);
                     if b == 0xFF then 0x20 else b)
                              else c.text[p]
  {
    var r := LfnRecord(name, k - 1, chk);
    NumberBack(k - 1, k == EntriesRequired(name));
    assert LfnIndex(r) == k;
    forall p | (k - 1) * 13 <= p < k * 13
      ensures CacheEntry(c, r).text[p] == var b := CharAt(name, p); if b == 0xFF then 0x20 else b
    {
      CharPlaces(p % 13);
      assert p / 13 == k - 1 && p == (k - 1) * 13 + p % 13;
    }
  }

  /** A name split into records comes back from any empty cache exactly when it is at most 260 bytes long and free of
      0xFF. */
  lemma NameRoundTrip(name: seq<byte>, chk: byte, c: Lfn)
    requires LfnOk(c) && c.count == 0 && name != [] && forall i :: 0 <= i < |name| ==> name[i] != 0
    ensures CacheName(Fold(c, LfnSet(name, EntriesRequired(name), chk))) == name
            <==> |name| <= 260 && forall i :: 0 <= i < |name| ==> name[i] != 0xFF
  {
    var n := EntriesRequired(name);
    EntriesCover(name);
    var d := Fold(c, LfnSet(name, n, chk));
    if |name| <= 260 {
      FoldFills(name, n, chk, c);
      var text := d.text[..n * 13];
      var spaced := seq(|name|, i requires 0 <= i < |name| => if name[i] == 0xFF then 0x20 else name[i]);
      assert forall i :: 0 <= i < |name| ==> text[i] == spaced[i];
      assert |name| < |text| ==> text[|name|] == 0;
      UpToNulIs(text, spaced);
      if j :| 0 <= j < |name| && name[j] == 0xFF {
        assert spaced[j] == 0x20;
      }
      assert (forall i :: 0 <= i < |name| ==> name[i] != 0xFF) ==> spaced == name;
    }
  }
}
