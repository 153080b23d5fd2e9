/** fat_access.c and fat_write.c: looking a name up in a directory, and adding a new entry to it, sector by sector. */
module FatDirectory {
  import opened SectorCache
  import opened FatNames
  import opened FatListing

  const PER_SECTOR: nat := 16

  /** struct lfn_cache: 20 strings of 13 bytes in a row, and one more byte for the terminator of the longest name. */
  class LfnCache {
    const text: array<byte>
    var count: nat

    ghost predicate Ok()
      reads this
    {
      text.Length == TEXT_SIZE + 1 && count <= MAX_ENTRIES
    }

    ghost function Value(): (c: Lfn)
      requires Ok()
      reads this, text
      ensures LfnOk(c)
    {
      Lfn(count, text[..TEXT_SIZE])
    }

    constructor ()
      ensures Ok() && Value() == Wiped() && fresh(text)
    {
      text := new byte[TEXT_SIZE + 1](i => 0);
      count := 0;
    }

    /** fatfs_lfn_cache_init without wiping. */
    method Init()
      requires Ok()
      modifies this`count
      ensures Ok() && Value() == Cleared(old(Value()))
    {
      count := 0;
    }

    /** fatfs_lfn_cache_entry. */
    method Entry(r: Record)
      requires Ok()
      modifies this`count, text
      ensures Ok() && Value() == CacheEntry(old(Value()), r)
    {
      var index := r[0] % 32;
      if index > MAX_ENTRIES || index == 0 {
        return;
      }
      if count == 0 {
        count := index;
      }
      Copy(index - 1, r);
      Spaces(index - 1, r);
    }

    method Copy(slot: nat, r: Record)
      requires Ok() && slot < MAX_ENTRIES
      modifies text
      ensures forall p :: 0 <= p < TEXT_SIZE ==>
                text[p] == if p / 13 == slot then r[NAME_INDEXES[p % 13]] else old(text[p])
    {
      for i := 0 to PER_ENTRY
        invariant forall p :: 0 <= p < TEXT_SIZE ==>
                    text[p] == if p / 13 == slot && p % 13 < i then r[NAME_INDEXES[p % 13]] else old(text[p])
      {
        text[slot * 13 + i] := r[NAME_INDEXES[i]];
      }
    }

    method Spaces(slot: nat, r: Record)
      requires Ok() && slot < MAX_ENTRIES
      requires forall p :: 0 <= p < TEXT_SIZE && p / 13 == slot ==> text[p] == r[NAME_INDEXES[p % 13]]
      modifies text
      ensures forall p :: 0 <= p < TEXT_SIZE ==> text[p] == if p / 13 == slot then Char(r, p % 13) else old(text[p])
    {
      for i := 0 to PER_ENTRY
        invariant forall p :: 0 <= p < TEXT_SIZE ==>
                    text[p] == if p / 13 != slot then old(text[p])
                               else if p % 13 < i then Char(r, p % 13) else r[NAME_INDEXES[p % 13]]
      {
        if text[slot * 13 + i] == 0xFF {
          text[slot * 13 + i] := 0x20;
        }
      }
    }

    /** fatfs_lfn_cache_get: terminates the name in place and returns it. */
    method Get() returns (name: seq<byte>)
      requires Ok()
      modifies text
      ensures Ok() && Value() == Terminated(old(Value()))
      ensures name == CacheName(old(Value()))
    {
      ghost var c := Value();
      if count == MAX_ENTRIES {
        text[TEXT_SIZE] := 0;
      } else if count > 0 {
        text[count * 13] := 0;
      } else {
        text[0] := 0;
      }
      name := UpToNul(text[..]);
      assert text[..][..count * 13] == c.text[..count * 13] && text[..][count * 13] == 0;
      UpToNulIs(c.text[..count * 13], name);
    }
  }

  /** The records a run of sectors holds. */
  function RecordsOf(m: seq<byte>): (r: seq<Record>)
    requires |m| % 512 == 0
    ensures |r| == |m| / 512 * 16
  {
    seq(|m| / 512 * 16, i requires 0 <= i < |m| / 512 * 16 => m[i * 32..i * 32 + 32])
  }

  /** Sector and offset name record i. */
  predicate At(sector: nat, offset: nat, i: nat) {
    offset < PER_SECTOR && sector * 16 + offset == i
  }

  /** room counts the dead records just before i, and (sector, offset) is the first of them. */
  ghost predicate Counted(recs: seq<Record>, i: nat, room: nat, sector: nat, offset: nat) {
    i <= |recs| && room == i - RunStart(recs, i) && (room > 0 ==> At(sector, offset, RunStart(recs, i)))
  }

  class Directory {
    const sectorsPerCluster: nat
    /** The directory's sectors, in chain order. */
    var medium: seq<byte>
    /** fs->currentsector: a copy of one sector, and which one; negative for none. */
    const current: array<byte>
    var address: int

    ghost predicate Valid()
      reads this, current
    {
      && current.Length == SECTOR_SIZE && sectorsPerCluster >= 1 && |medium| % 512 == 0
      && (address >= 0 ==> address * 512 + SECTOR_SIZE <= |medium|
                           && current[..] == medium[address * 512..address * 512 + SECTOR_SIZE])
    }

    /** A directory of whole sectors, none of them in the buffer. */
    constructor (sectorsPerCluster: nat, medium: seq<byte>)
      requires sectorsPerCluster >= 1 && |medium| % 512 == 0
      ensures Valid() && Records() == RecordsOf(medium) && fresh(current)
    {
      this.sectorsPerCluster, this.medium, address := sectorsPerCluster, medium, -1;
      current := new byte[SECTOR_SIZE](i => 0);
    }

    ghost function Records(): seq<Record>
      requires Valid()
      reads this, current
    {
      RecordsOf(medium)
    }

    /** fatfs_sector_reader without a target: false past the end of the directory. */
    method SectorReader(x: nat) returns (ok: bool)
      requires Valid()
      modifies this`address, current
      ensures Valid() && ok == (x < |medium| / 512)
      ensures ok ==> address == x
    {
      if x >= |medium| / 512 {
        return false;
      }
      if x != address {
        address := x;
        forall k | 0 <= k < SECTOR_SIZE {
          current[k] := medium[x * 512 + k];
        }
      }
      ok := true;
    }

    /** The record at position item of the current sector. */
    method RecordAt(item: nat) returns (r: Record)
      requires Valid() && address >= 0 && item < PER_SECTOR
      ensures address * 16 + item < |Records()| && r == Records()[address * 16 + item]
    {
      r := current[item * 32..item * 32 + 32];
    }

    // ---- fatfs_get_file_entry ----

    /** One record of the scan: true when it completes an entry whose name matches. */
    method Examine(cache: LfnCache, r: Record, matches: seq<byte> -> bool) returns (hit: bool)
      requires cache.Ok()
      modifies cache`count, cache.text
      ensures cache.Ok()
      ensures hit == (Completed(old(cache.Value()), r) != [] && matches(Completed(old(cache.Value()), r)[0].name))
      ensures !hit ==> cache.Value() == CacheStep(old(cache.Value()), r)
    {
      hit := false;
      if LfnText(r) {
        cache.Entry(r);
      } else if LfnInvalid(r) {
        cache.Init();
      } else if cache.count > 0 {
        var name := cache.Get();
        if matches(name) {
          return true;
        }
        cache.Init();
      } else {
        if matches(ShortName(r)) {
          return true;
        }
        cache.Init();
      }
    }

    /** The 16 records of the current sector; seen are the entries completed so far, none of which matched. */
    method ScanSector(cache: LfnCache, x: nat, matches: seq<byte> -> bool, ghost seen: seq<Found>)
        returns (hit: bool, entry: Record, ghost seen': seq<Found>)
      requires Valid() && address == x && cache.Ok()
      requires Listing(Records()) == seen + Scan(Records()[x * 16..], cache.Value())
      requires forall j :: 0 <= j < |seen| ==> !matches(seen[j].name)
      modifies cache`count, cache.text
      ensures cache.Ok()
      ensures hit ==> var l := Listing(Records()); var i := FirstMatch(l, matches); i < |l| && entry == l[i].record
      ensures !hit ==> && Listing(Records()) == seen' + Scan(Records()[x * 16 + PER_SECTOR..], cache.Value())
                       && forall j :: 0 <= j < |seen'| ==> !matches(seen'[j].name)
    {
      hide Scan, Completed, CacheStep, RecordsOf, FirstMatch, Listing;
      hit, seen' := false, seen;
      for item := 0 to PER_SECTOR
        invariant cache.Ok()
        invariant Listing(Records()) == seen' + Scan(Records()[x * 16 + item..], cache.Value())
        invariant forall j :: 0 <= j < |seen'| ==> !matches(seen'[j].name)
      {
        entry := RecordAt(item);
        ghost var c, i := cache.Value(), x * 16 + item;
        ScanStep(Records(), i, c);
        hit := Examine(cache, entry, matches);
        if hit {
          HitIsFirst(Listing(Records()), seen', Completed(c, entry), Scan(Records()[i + 1..], CacheStep(c, entry)),
              matches);
          return;
        }
        Regroup(seen', Completed(c, entry), Scan(Records()[i + 1..], cache.Value()));
        seen' := seen' + Completed(c, entry);
      }
      entry := seq(RECORD_SIZE, i => 0);
    }

    /** The record of the first entry, in directory order, whose name matches. */
    method GetFileEntry(matches: seq<byte> -> bool) returns (found: bool, entry: Record)
      requires Valid()
      modifies this`address, current
      ensures Valid()
      ensures var l := Listing(Records()); var i := FirstMatch(l, matches);
              found == (i < |l|) && (found ==> entry == l[i].record)
    {
      hide Scan, RecordsOf, FirstMatch;
      var cache: LfnCache := new LfnCache();
      ghost var recs := Records();
      ghost var seen: seq<Found> := [];
      entry := seq(RECORD_SIZE, i => 0);
      var x := 0;
      var more := true;
      assert recs[0..] == recs;
      while more
        invariant Valid() && Records() == recs && cache.Ok() && fresh(cache) && fresh(cache.text)
        invariant 0 <= x <= |medium| / 512 && (!more ==> x == |medium| / 512)
        invariant Listing(recs) == seen + Scan(recs[x * 16..], cache.Value())
        invariant forall j :: 0 <= j < |seen| ==> !matches(seen[j].name)
        decreases |medium| / 512 - x, more
      {
        more := SectorReader(x);
        if more {
          found, entry, seen := ScanSector(cache, x, matches, seen);
          if found {
            return;
          }
          x := x + 1;
        }
      }
      found := false;
      ScanNothing(cache.Value());
      assert recs[x * 16..] == [] && Listing(recs) == seen;
      FirstMatchIs(Listing(recs), matches, |seen|);
    }

    // ---- fatfs_find_free_dir_offset ----

    /** One record of the search. */
    static method CountRoom(r: Record, x: nat, item: nat, need: nat, room: nat, sector: nat, offset: nat,
                            ghost recs: seq<Record>, ghost i: nat)
        returns (ok: bool, room': nat, sector': nat, offset': nat)
      requires i < |recs| && r == recs[i] && i == x * 16 + item && item < PER_SECTOR && need > 0
      requires Counted(recs, i, room, sector, offset)
      ensures ok <==> Fits(recs, i, need)
      ensures Counted(recs, i + 1, room', sector', offset')
      ensures ok ==> At(sector', offset', RunStart(recs, i))
    {
      hide LfnText, RunStart, Fits;
      NextRoom(recs, i, need);
      ok, room', sector', offset' := false, room, sector, offset;
      if LfnText(r) {
        if room' == 0 {
          sector', offset' := x, item;
        }
        room' := room' + 1;
      } else if r[0] == DELETED || r[0] == BLANK {
        if room' == 0 {
          sector', offset' := x, item;
        }
        room' := room' + 1;
        ok := room' >= need;
      } else {
        room' := 0;
      }
    }

    lemma InDirectory()
      requires Valid() && address >= 0
      ensures address * 16 + 16 <= |Records()|
    {}

    /** The records of one sector; e is the last one looked at, or one past the sector. */
    method ScanForRoom(x: nat, need: nat, room: nat, sector: nat, offset: nat, ghost recs: seq<Record>)
        returns (ok: bool, room': nat, sector': nat, offset': nat, ghost e: nat)
      requires Valid() && address == x && need > 0 && recs == Records() && Counted(recs, x * 16, room, sector, offset)
      ensures forall d :: x * 16 <= d < e ==> !Fits(recs, d, need)
      ensures ok ==> e < |recs| && Fits(recs, e, need) && At(sector', offset', RunStart(recs, e))
      ensures !ok ==> e == (x + 1) * 16 && Counted(recs, e, room', sector', offset')
    {
      hide Valid, Records, RecordsOf, Counted, At, Fits, RunStart;
      InDirectory();
      ok, room', sector', offset', e := false, room, sector, offset, x * 16;
      for item := 0 to PER_SECTOR
        invariant e == x * 16 + item <= |recs| && Counted(recs, e, room', sector', offset')
        invariant forall d :: x * 16 <= d < e ==> !Fits(recs, d, need)
      {
        var r := RecordAt(item);
        ok, room', sector', offset' := CountRoom(r, x, item, need, room', sector', offset', recs, e);
        if ok {
          break;
        }
        e := e + 1;
      }
    }

    /** Appends one zeroed cluster to the directory, leaving its last sector in the buffer. */
    method AppendCluster()
      requires Valid()
      modifies this`medium, this`address, current
      ensures Valid() && Records() == Extended(old(Records()), sectorsPerCluster * 16)
    {
      hide RecordsOf, Zeroed;
      ghost var was := medium;
      forall k | 0 <= k < SECTOR_SIZE {
        current[k] := 0;
      }
      address := -1;
      NoneZeroed(was);
      for i := 0 to sectorsPerCluster
        invariant Valid() && |medium| == |was| + i * 512 && Zeroed(was, medium)
        invariant forall k :: 0 <= k < SECTOR_SIZE ==> current[k] == 0
      {
        OneMoreZeroed(was, medium, current[..]);
        address := |medium| / 512;
        medium := medium + current[..];
        assert medium[address * 512..address * 512 + 512] == current[..];
      }
      ZeroedBehind(was, medium, sectorsPerCluster * 16);
    }

    /** First fit in the directory, else at its end after one more cluster (when `grow` allows it). */
    method FindFreeDirOffset(entryCount: nat, grow: bool) returns (ok: bool, sector: nat, offset: nat, ghost e: nat)
      requires Valid()
      modifies this`medium, this`address, current
      ensures Valid()
      ensures !ok <==> entryCount == 0 || (!grow && !HasRoom(old(Records()), entryCount))
      ensures if ok then && offset < 16
                         && Place(old(Records()), Records(), sector * 16 + offset, e, entryCount,
                             sectorsPerCluster * 16)
              else medium == old(medium)
    {
      hide RecordsOf, Fits, Extended, RunStart;
      ok, sector, offset, e := false, 0, 0, 0;
      if entryCount == 0 {
        return;
      }
      var x, room := 0, 0;
      ghost var recs := Records();
      var more := true;
      while more && !ok
        invariant Valid() && medium == old(medium) && 0 <= x <= |medium| / 512
        invariant !more ==> x == |medium| / 512 && !ok
        invariant !ok ==> Counted(recs, x * 16, room, sector, offset)
        invariant !ok ==> forall d :: 0 <= d < x * 16 ==> !Fits(recs, d, entryCount)
        invariant ok ==> e < |recs| && Fits(recs, e, entryCount) && At(sector, offset, RunStart(recs, e))
        invariant ok ==> forall d :: 0 <= d < e ==> !Fits(recs, d, entryCount)
        decreases |medium| / 512 - x, more && !ok
      {
        more := SectorReader(x);
        if more {
          ok, room, sector, offset, e := ScanForRoom(x, entryCount, room, sector, offset, recs);
          if !ok {
            x := x + 1;
          }
        }
      }
      if ok || !grow {
        return;
      }
      AppendCluster();
      if room == 0 {
        sector, offset := x, 0;
      }
      ok, e := true, |Records()| - 1;
    }

    // ---- fatfs_add_file_entry ----

    /** Writes one record into the current sector. */
    method PutRecord(item: nat, r: Record)
      requires current.Length == SECTOR_SIZE && item < 16
      modifies current
      ensures current[item * 32..item * 32 + 32] == r
      ensures current[..item * 32] == old(current[..item * 32])
              && current[item * 32 + 32..] == old(current[item * 32 + 32..])
    {
      forall k | 0 <= k < RECORD_SIZE {
        current[item * 32 + k] := r[k];
      }
    }

    /** Writes the next record of a name's set: with `left` long-name records to come the highest of them, else the
        short one. */
    method PutMember(item: nat, name: seq<byte>, chk: byte, sfn: Record, left: nat)
      requires current.Length == SECTOR_SIZE && item < 16 && left <= EntriesRequired(name)
      modifies current
      ensures |EntrySet(name, chk, sfn)| == EntriesRequired(name) + 1
      ensures current[item * 32..item * 32 + 32] == EntrySet(name, chk, sfn)[EntriesRequired(name) - left]
      ensures current[..item * 32] == old(current[..item * 32])
              && current[item * 32 + 32..] == old(current[item * 32 + 32..])
    {
      hide EntrySet, LfnRecord, EntriesRequired;
      SetMember(name, chk, sfn, EntriesRequired(name) - left);
      if left == 0 {
        PutRecord(item, sfn);
      } else {
        FilenameToLfn(name, current, item * 32, left - 1, chk);
      }
    }

    /** Writes the records still to come into the current sector from record lo on; left long-name records, then the
        short one. */
    method FillSector(lo: nat, name: seq<byte>, chk: byte, sfn: Record, left: nat) returns (left': nat, done: bool)
      requires current.Length == SECTOR_SIZE && lo < 16 && left <= EntriesRequired(name)
      modifies current
      ensures done == (left + 1 <= 16 - lo) && (!done ==> left' == left - (16 - lo))
      ensures Filled(Sixteen(current[..]), Sixteen(old(current[..])), lo, EntrySet(name, chk, sfn),
              EntriesRequired(name) - left)
    {
      hide EntrySet, LfnRecord, Sixteen, Filled, FilledTo, EntriesRequired;
      left', done := left, false;
      ghost var w, entry, before := EntriesRequired(name) - left, EntrySet(name, chk, sfn), Sixteen(current[..]);
      FilledNone(before, lo, entry, w);
      for item := lo to 16
        invariant !done && left' == left - (item - lo) && left' >= 0 && lo <= item
        invariant FilledTo(Sixteen(current[..]), before, lo, entry, w, item)
      {
        ghost var was := current[..];
        PutMember(item, name, chk, sfn, left');
        FilledStep(current[..], was, before, lo, entry, w, item);
        if left' == 0 {
          done := true;
          break;
        }
        left' := left' - 1;
      }
      FilledAll(Sixteen(current[..]), before, lo, entry, w, if done then lo + left + 1 else 16);
    }

    lemma Whole()
      requires Valid()
      ensures current.Length == SECTOR_SIZE && sectorsPerCluster >= 1 && |medium| % 512 == 0
      ensures |Records()| == |medium| / 512 * 16
    {}

    /** Writes the current sector back. */
    method WriteCurrent()
      requires current.Length == SECTOR_SIZE && sectorsPerCluster >= 1 && |medium| % 512 == 0
      requires address >= 0 && address * 512 + 512 <= |medium|
      modifies this`medium
      ensures Valid() && |medium| == old(|medium|)
      ensures Patched(Records(), RecordsOf(old(medium)), address * 16, Sixteen(current[..]))
    {
      ghost var was := medium;
      medium := medium[..address * 512] + current[..] + medium[address * 512 + 512..];
      SectorReplaced(was, medium, current[..], address);
    }

    lemma SectorRecords()
      requires Valid() && address >= 0
      ensures address * 512 + 512 <= |medium| && address * 16 + 16 <= |Records()|
      ensures forall i :: 0 <= i < 16 ==> Sixteen(current[..])[i] == Records()[address * 16 + i]
    {
      forall i, k | 0 <= i < 16 && 0 <= k < 32 ensures Sixteen(current[..])[i][k] == Records()[address * 16 + i][k] {
        assert current[..][i * 32 + k] == medium[address * 512 + (i * 32 + k)];
      }
    }

    /** What goes into one sector, written back at once. */
    method OneSector(name: seq<byte>, chk: byte, sfn: Record, lo: nat, left: nat, ghost recs: seq<Record>,
        ghost start: nat)
        returns (ok: bool, left': nat)
      requires Valid() && address >= 0 && lo < 16 && left <= EntriesRequired(name)
      requires start + (EntriesRequired(name) - left) == address * 16 + lo
      requires Written(Records(), recs, start, EntrySet(name, chk, sfn), EntriesRequired(name) - left)
      modifies this`medium, current
      ensures Valid() && |medium| == old(|medium|)
      ensures ok <==> left + 1 <= 16 - lo
      ensures left' == if ok then 0 else left - (16 - lo)
      ensures Written(Records(), recs, start, EntrySet(name, chk, sfn),
                      if ok then EntriesRequired(name) + 1 else EntriesRequired(name) - left')
    {
      hide Valid, RecordsOf, EntrySet, Sixteen, EntriesRequired, Written, Filled, Patched;
      ghost var n, entry, was := EntriesRequired(name), EntrySet(name, chk, sfn), Records();
      SectorRecords();
      Whole();
      ghost var before := Sixteen(current[..]);
      left', ok := FillSector(lo, name, chk, sfn, left);
      WriteCurrent();
      Whole();
      WrittenFurther(recs, start, entry, was, Records(), address * 16, lo, before, Sixteen(current[..]), n - left);
      if ok {
        left' := 0;
      }
    }

    /** The writing loop: sector after sector from (sector, offset) on, until the short record is out or the
        directory ends. */
    method WriteEntry(name: seq<byte>, chk: byte, sfn: Record, sector: nat, offset: nat, ghost recs: seq<Record>)
        returns (ok: bool)
      requires Valid() && recs == Records() && offset < 16 && sector * 16 + offset <= |recs|
      modifies this`medium, this`address, current
      ensures Valid() && |medium| == old(|medium|)
      ensures ok <==> sector * 16 + offset + EntriesRequired(name) + 1 <= |recs|
      ensures Written(Records(), recs, sector * 16 + offset, EntrySet(name, chk, sfn),
                      if ok then EntriesRequired(name) + 1 else |recs| - (sector * 16 + offset))
    {
      hide RecordsOf, EntrySet, Sixteen, EntriesRequired, Written;
      ghost var n, start, entry := EntriesRequired(name), sector * 16 + offset, EntrySet(name, chk, sfn);
      Whole();
      WrittenNone(recs, start, entry);
      ok := false;
      var x, foundEnd := sector, false;
      var left: nat := EntriesRequired(name);
      var more := true;
      while more && !ok
        invariant Valid() && |medium| == old(|medium|) && left <= n && sector <= x
        invariant !ok ==> if foundEnd then start + (n - left) == x * 16 else x == sector && left == n
        invariant ok ==> start + n + 1 <= |recs| && Written(Records(), recs, start, entry, n + 1)
        invariant !ok ==> start + (n - left) <= |recs| && Written(Records(), recs, start, entry, n - left)
        invariant !more ==> x >= |medium| / 512 && !ok
        decreases |medium| / 512 - x, more && !ok
      {
        more := SectorReader(x);
        if more {
          var lo := if foundEnd then 0 else offset;
          foundEnd := true;
          ok, left := OneSector(name, chk, sfn, lo, left, recs, start);
          x := x + 1;
        }
      }
    }

    /** fatfs_add_file_entry: needs a write function, a name, and room: in the directory, or at its end once it may
        grow. */
    method AddFileEntry(name: seq<byte>, short: seq<byte>, startCluster: nat, size: nat, dir: bool, writable: bool,
        grow: bool)
        returns (ok: bool, ghost at: nat, ghost e: nat)
      requires Valid() && |short| == 11
      modifies this`medium, this`address, current
      ensures Valid()
      ensures !writable || name == [] ==> !ok && medium == old(medium)
      ensures ok ==> var base := if |Records()| == |old(Records())| then old(Records())
                                 else Extended(old(Records()), sectorsPerCluster * 16);
                     && Reusable(base, at, e) && at + EntriesRequired(name) + 1 <= e + 1
                     && Records() == Placed(base, at,
                         EntrySet(name, Checksum(short), SfnRecord(short, size, startCluster, dir)))
      ensures !ok ==> Listing(Records()) == Listing(old(Records()))
      ensures ok <==> && writable && name != []
                      && (|| HasRoom(old(Records()), EntriesRequired(name) + 1)
                          || (grow && RunStart(old(Records()), |old(Records())|) + EntriesRequired(name) + 1
                                      <= |old(Records())| + sectorsPerCluster * 16))
    {
      hide Valid, RecordsOf, Fits, Extended, RunStart, Listing, Placed, Reusable, EntrySet, Written, SfnRecord,
           Place, HasRoom;
      ok, at, e := false, 0, 0;
      if !writable {
        return;
      }
      var entryCount := EntriesRequired(name);
      if entryCount == 0 {
        return;
      }
      hide EntriesRequired;
      ghost var recs := Records();
      Whole();
      var found, sector, offset;
      found, sector, offset, e := FindFreeDirOffset(entryCount + 1, grow);
      if !found {
        return;
      }
      ghost var base := Records();
      at := sector * 16 + offset;
      PlaceIsReusable(recs, base, at, e, entryCount + 1, sectorsPerCluster * 16);
      var checksum := RotatingSum(short);
      var sfn := SfnRecord(short, size, startCluster, dir);
      ok := WriteEntry(name, checksum, sfn, sector, offset, base);
      if ok {
        WrittenWhole(Records(), base, at, EntrySet(name, checksum, sfn));
      } else {
        CutOff(name, checksum, sfn, recs, base, Records(), at);
      }
    }

    /**
     * Adding an entry and looking names up afterwards. The entry joins the listing between `before` and `after`: a
     * name it answers to finds it unless an entry of `before` matches first, every other name finds what it found, and
     * the directory is ready for the next addition.
     */
    method AddThenLookUp(name: seq<byte>, short: seq<byte>, startCluster: nat, size: nat, dir: bool, grow: bool,
                         matches: seq<byte> -> bool)
        returns (ok: bool, found: bool, entry: Record, ghost before: seq<Found>, ghost after: seq<Found>)
      requires Valid() && Sound(Records(), 0, map[]) && Storable(name) && |short| == 11 && short[0] !in {DELETED, BLANK}
      modifies this`medium, this`address, current
      ensures Valid() && (ok ==> Sound(Records(), 0, map[]))
      ensures Listing(old(Records())) == before + after
      ensures Listing(Records()) ==
              if ok then before + ([Found(name, SfnRecord(short, size, startCluster, dir))] + after) else before + after
      ensures var l := before + after;
              var i := FirstMatch(l, matches);
              if ok && matches(name) then
                found && entry == if i < |before| then l[i].record else SfnRecord(short, size, startCluster, dir)
              else
                found == (i < |l|) && (found ==> entry == l[i].record)
    {
      hide Valid, RecordsOf, Extended, RunStart, Listing, Placed, Reusable, EntrySet, SfnRecord, HasRoom, FirstMatch,
           Sound,
           Storable, EntriesRequired;
      ghost var recs, more, sfn := Records(), sectorsPerCluster * 16, SfnRecord(short, size, startCluster, dir);
      ghost var at, e;
      ok, at, e := AddFileEntry(name, short, startCluster, size, dir, true, grow);
      before, after := [], Listing(recs);
      if ok {
        ghost var base := if |Records()| == |recs| then recs else Extended(recs, more);
        before, after := AddedEntry(recs, base, at, e, more, name, Checksum(short), short, size, startCluster, dir);
        LookupAfterAdding(before, after, Found(name, sfn), matches);
      }
      found, entry := GetFileEntry(matches);
    }

    /** The checksum loop. */
    static method RotatingSum(short: seq<byte>) returns (checksum: byte)
      ensures checksum == Checksum(short)
    {
      checksum := 0;
      for i := 0 to |short|
        invariant checksum == Checksum(short[..i])
      {
        assert short[..i + 1][..i] == short[..i];
        checksum := ((if checksum % 2 == 1 then 0x80 else 0) + checksum / 2 + short[i]) % 256;
      }
      assert short[..|short|] == short;
    }
  }

  /** Records `now` are recs with the first w of entry written from record start on. */
  ghost predicate Written(now: seq<Record>, recs: seq<Record>, start: nat, entry: seq<Record>, w: nat) {
    && |now| == |recs| && w <= |entry|
    && forall i :: 0 <= i < |recs| ==> now[i] == if start <= i < start + w then entry[i - start] else recs[i]
  }

  lemma WrittenNone(recs: seq<Record>, start: nat, entry: seq<Record>)
    ensures Written(recs, recs, start, entry, 0)
  {}

  lemma LfnIsText(name: seq<byte>, entry: nat, chk: byte)
    ensures LfnText(LfnRecord(name, entry, chk))
  {
    assert LfnRecord(name, entry, chk)[11] == LfnByte(name, entry, chk, 11);
  }

  /** An entry that did not fit lists nothing. */
  lemma CutOff(name: seq<byte>, chk: byte, sfn: Record, recs: seq<Record>, base: seq<Record>, now: seq<Record>, at: nat)
    requires at == RunStart(recs, |recs|) && |recs| <= |base| && base[..|recs|] == recs
    requires at <= |base| < at + EntriesRequired(name) + 1
    requires Written(now, base, at, EntrySet(name, chk, sfn), |base| - at)
    ensures Listing(now) == Listing(recs)
  {
    hide LfnText, EntrySet, LfnRecord, Listing, Written, EntriesRequired, RunStart;
    WrittenEnds(base, now, at, EntrySet(name, chk, sfn), recs);
    TextTail(name, chk, sfn, now, at);
    CutOffListsNothing(recs, now, at);
  }

  lemma TextTail(name: seq<byte>, chk: byte, sfn: Record, now: seq<Record>, at: nat)
    requires at <= |now| < at + EntriesRequired(name) + 1
    requires forall i :: at <= i < |now| ==> now[i] == EntrySet(name, chk, sfn)[i - at]
    ensures forall i :: at <= i < |now| ==> LfnText(now[i])
  {
    hide LfnText, EntrySet, LfnRecord, EntriesRequired;
    forall i | at <= i < |now| ensures LfnText(now[i]) {
      SetMember(name, chk, sfn, i - at);
      LfnIsText(name, EntriesRequired(name) - 1 - (i - at), chk);
    }
  }

  lemma WrittenEnds(base: seq<Record>, now: seq<Record>, at: nat, entry: seq<Record>, recs: seq<Record>)
    requires at <= |recs| <= |base| && base[..|recs|] == recs && Written(now, base, at, entry, |base| - at)
    ensures |now| == |base| && now[..at] == recs[..at] && |base| - at <= |entry|
    ensures forall i :: at <= i < |now| ==> now[i] == entry[i - at]
  {
    assert now[..at] == base[..at] == base[..|recs|][..at];
  }

  lemma WrittenWhole(now: seq<Record>, recs: seq<Record>, start: nat, entry: seq<Record>)
    requires Written(now, recs, start, entry, |entry|) && start + |entry| <= |recs|
    ensures now == Placed(recs, start, entry)
  {}

  /** Of sixteen records, those from lo on now hold entry's from index w on, as far as they reach. */
  ghost predicate Filled(now: seq<Record>, was: seq<Record>, lo: nat, entry: seq<Record>, w: nat) {
    && |now| == |was| == 16
    && forall i :: 0 <= i < 16 ==> now[i] == if lo <= i < lo + |entry| - w then entry[w + (i - lo)] else was[i]
  }

  /** The same, with the records from item on still to come. */
  ghost predicate FilledTo(now: seq<Record>, was: seq<Record>, lo: nat, entry: seq<Record>, w: nat, item: nat) {
    && |now| == |was| == 16 && lo <= item <= 16 && w + (item - lo) <= |entry|
    && forall i :: 0 <= i < 16 ==> now[i] == if lo <= i < item then entry[w + (i - lo)] else was[i]
  }

  lemma FilledNone(was: seq<Record>, lo: nat, entry: seq<Record>, w: nat)
    requires |was| == 16 && lo <= 16 && w <= |entry|
    ensures FilledTo(was, was, lo, entry, w, lo)
  {}

  /** Writing the next record's bytes. */
  lemma FilledStep(s: seq<byte>, t: seq<byte>, was: seq<Record>, lo: nat, entry: seq<Record>, w: nat, item: nat)
    requires |s| == |t| == SECTOR_SIZE && item < 16
    requires lo <= item && w + (item - lo) < |entry| && FilledTo(Sixteen(t), was, lo, entry, w, item)
    requires s[..item * 32] == t[..item * 32] && s[item * 32 + 32..] == t[item * 32 + 32..]
    requires s[item * 32..item * 32 + 32] == entry[w + (item - lo)]
    ensures FilledTo(Sixteen(s), was, lo, entry, w, item + 1)
  {
    hide Sixteen;
    SixteenUpdate(t, s, item);
  }

  lemma FilledAll(now: seq<Record>, was: seq<Record>, lo: nat, entry: seq<Record>, w: nat, item: nat)
    requires lo <= item && FilledTo(now, was, lo, entry, w, item) && (item == 16 || w + (item - lo) == |entry|)
    ensures Filled(now, was, lo, entry, w)
  {}

  /** Zero bytes were added at the end. */
  ghost predicate Zeroed(was: seq<byte>, now: seq<byte>) {
    |was| <= |now| && now[..|was|] == was && forall k :: |was| <= k < |now| ==> now[k] == 0
  }

  lemma NoneZeroed(was: seq<byte>)
    ensures Zeroed(was, was)
  {}

  lemma OneMoreZeroed(was: seq<byte>, now: seq<byte>, zeros: seq<byte>)
    requires Zeroed(was, now) && forall k :: 0 <= k < |zeros| ==> zeros[k] == 0
    ensures Zeroed(was, now + zeros)
  {
    assert (now + zeros)[..|was|] == now[..|was|];
  }

  /** They are blank records. */
  lemma ZeroedBehind(was: seq<byte>, now: seq<byte>, n: nat)
    requires |was| % 512 == 0 && |now| % 512 == 0 && |now| == |was| + n * 32 && Zeroed(was, now)
    ensures RecordsOf(now) == Extended(RecordsOf(was), n)
  {
    var recs, r := RecordsOf(was), RecordsOf(now);
    forall i | 0 <= i < |r| ensures r[i] == if i < |recs| then recs[i] else BlankRecord() {
      if i < |recs| {
        assert now[i * 32..i * 32 + 32] == now[..|was|][i * 32..i * 32 + 32];
      }
    }
  }

  /** Records `now` are `was` with sixteen of them, from a on, replaced. */
  ghost predicate Patched(now: seq<Record>, was: seq<Record>, a: nat, sector: seq<Record>) {
    && |now| == |was| && |sector| == 16
    && forall i :: 0 <= i < |now| ==> now[i] == if a <= i < a + 16 then sector[i - a] else was[i]
  }

  lemma WrittenFurther(recs: seq<Record>, start: nat, entry: seq<Record>, was: seq<Record>, now: seq<Record>,
                       a: nat, lo: nat, before: seq<Record>, sector: seq<Record>, w: nat)
    requires Written(was, recs, start, entry, w) && a + lo == start + w && w < |entry| && lo < 16
    requires Filled(sector, before, lo, entry, w) && Patched(now, was, a, sector)
    requires a + 16 <= |was| && forall i :: 0 <= i < 16 ==> before[i] == was[a + i]
    ensures Written(now, recs, start, entry, if |entry| - w <= 16 - lo then |entry| else w + (16 - lo))
  {
    forall i | 0 <= i < |recs|
      ensures now[i] == if start <= i < start + (if |entry| - w <= 16 - lo then |entry| else w + (16 - lo))
                        then entry[i - start] else recs[i]
    {
      if a <= i < a + 16 {
        assert before[i - a] == was[a + (i - a)];
      }
    }
  }

  lemma SectorReplaced(m: seq<byte>, w: seq<byte>, s: seq<byte>, a: nat)
    requires |m| % 512 == 0 && |s| == 512 && a * 512 + 512 <= |m|
    requires w == m[..a * 512] + s + m[a * 512 + 512..]
    ensures forall i :: 0 <= i < |RecordsOf(w)| ==>
              RecordsOf(w)[i] == if a * 16 <= i < a * 16 + 16 then Sixteen(s)[i - a * 16] else RecordsOf(m)[i]
  {
    forall i, k | 0 <= i < |RecordsOf(w)| && 0 <= k < 32
      ensures RecordsOf(w)[i][k] == if a * 16 <= i < a * 16 + 16 then Sixteen(s)[i - a * 16][k] else RecordsOf(m)[i][k]
    {
      assert RecordsOf(w)[i][k] == w[i * 32 + k];
    }
  }

  /** What an addition does to the listing, whether or not the directory had to be extended for it. */
  lemma AddedEntry(recs: seq<Record>, base: seq<Record>, at: nat, e: nat, more: nat, name: seq<byte>, chk: byte,
                   short: seq<byte>, size: nat, start: nat, dir: bool) returns (before: seq<Found>, after: seq<Found>)
    requires Sound(recs, 0, map[]) && Storable(name) && |short| == 11 && short[0] !in {DELETED, BLANK}
    requires (base == recs || base == Extended(recs, more)) && Reusable(base, at, e)
    requires at + EntriesRequired(name) + 1 <= e + 1
    ensures var sfn := SfnRecord(short, size, start, dir);
            var now := Placed(base, at, EntrySet(name, chk, sfn));
            && Sound(now, 0, map[]) && Listing(recs) == before + after
            && Listing(now) == before + ([Found(name, sfn)] + after)
  {
    var sfn := SfnRecord(short, size, start, dir);
    assert sfn[0] == sfn[..11][0];
    ReusableBounds(base, at, e);
    hide Listing, Sound, Independent, Storable, EntrySet, Reusable, Extended, Placed, SfnRecord, Dead;
    ExtendedListsTheSame(recs, more);
    AddingStaysSound(base, at, e, name, chk, sfn);
    TailIsIndependent(base, at, e);
    AddingKeepsTheRest(base, at, e, name, chk, sfn);
    before := Listing(base[..at]);
    after :| Listing(base) == before + after
             && Listing(Placed(base, at, EntrySet(name, chk, sfn))) == before + ([Found(name, sfn)] + after);
  }

  /** The records of one sector. */
  function Sixteen(s: seq<byte>): (r: seq<Record>)
    requires |s| == SECTOR_SIZE
    ensures |r| == 16
  {
    seq(16, i requires 0 <= i < 16 => s[i * 32..i * 32 + 32])
  }

  /** Rewriting the bytes of one record leaves the other fifteen. */
  lemma SixteenUpdate(s: seq<byte>, t: seq<byte>, item: nat)
    requires |s| == |t| == SECTOR_SIZE && item < 16
    requires t[..item * 32] == s[..item * 32] && t[item * 32 + 32..] == s[item * 32 + 32..]
    ensures forall i :: 0 <= i < 16 && i != item ==> Sixteen(t)[i] == Sixteen(s)[i]
    ensures Sixteen(t)[item] == t[item * 32..item * 32 + 32]
  {
    forall i, k | 0 <= i < 16 && i != item && 0 <= k < 32 ensures Sixteen(t)[i][k] == Sixteen(s)[i][k] {
      var p := i * 32 + k;
      if i < item {
        assert t[p] == t[..item * 32][p] == s[p];
      } else {
        assert t[p] == t[item * 32 + 32..][p - item * 32 - 32] == s[p];
      }
    }
  }

  lemma SetMember(name: seq<byte>, chk: byte, sfn: Record, i: nat)
    requires i <= EntriesRequired(name)
    ensures EntrySet(name, chk, sfn)[i] ==
              if i < EntriesRequired(name) then LfnRecord(name, EntriesRequired(name) - 1 - i, chk) else sfn
  {}

  lemma HitIsFirst(l: seq<Found>, seen: seq<Found>, hit: seq<Found>, rest: seq<Found>, m: seq<byte> -> bool)
    requires l == seen + (hit + rest) && |hit| == 1 && m(hit[0].name) && forall j :: 0 <= j < |seen| ==>
             !m(seen[j].name)
    ensures FirstMatch(l, m) == |seen| < |l| && l[|seen|] == hit[0]
  {
    FirstMatchIs(l, m, |seen|);
  }

  lemma Regroup(a: seq<Found>, b: seq<Found>, c: seq<Found>)
    ensures a + (b + c) == (a + b) + c
  {}

  lemma ScanStep(recs: seq<Record>, i: nat, c: Lfn)
    requires LfnOk(c) && i < |recs|
    ensures Scan(recs[i..], c) == Completed(c, recs[i]) + Scan(recs[i + 1..], CacheStep(c, recs[i]))
    ensures |Completed(c, recs[i])| <= 1 && forall f :: f in Completed(c, recs[i]) ==> f.record == recs[i]
  {
    assert recs[i..][0] == recs[i] && recs[i..][1..] == recs[i + 1..];
  }

  lemma ScanNothing(c: Lfn)
    requires LfnOk(c)
    ensures Scan([], c) == []
  {}
}
