/** fat_table.c: the list of FAT sector buffers, with one sector per buffer. */
module FatTable {
  import opened SectorCache
  import opened FatChains
  import opened FatEntries

  class FatBuffer {
    const sector: array<byte>
    var address: nat
    var dirty: bool
    var next: FatBuffer?

    constructor ()
      ensures address == INVALID && !dirty && next == null && sector.Length == SECTOR_SIZE && fresh(sector)
      ensures forall i :: 0 <= i < SECTOR_SIZE ==> sector[i] == 0
    {
      sector := new byte[SECTOR_SIZE](i => 0);
      address, dirty, next := INVALID, false, null;
    }
  }

  class FatFs {
    const kind: Kind
    const fatBegin: nat
    const fatSectors: nat
    /** The FSINFO sector, lba_begin + fs_info_sector. */
    const fsInfo: nat
    const rootdirFirstCluster: nat
    /** Whether a write function is attached. */
    const canWrite: bool
    /** Whether the medium may refuse a read or a write. */
    const faulty: bool
    /** The medium behind read_media and write_media. */
    var disk: seq<Sector>
    var head: FatBuffer?
    /** The hint kept in FSINFO. */
    var nextFreeCluster: nat
    /** The buffers in list order, and the same buffers as a set that never changes. */
    ghost var list: seq<FatBuffer>
    ghost const buffers: set<FatBuffer>

    ghost predicate Shape() {
      && |buffers| > 0 && TableSize(kind, fatSectors) <= INVALID
      && (forall b :: b in buffers ==> b.sector.Length == SECTOR_SIZE)
      && (forall b, c :: b in buffers && c in buffers && b != c ==> b.sector != c.sector)
    }

    ghost function Arrays(): set<array<byte>> {
      set b | b in buffers :: b.sector
    }

    /** Every buffer is in the list exactly once. */
    ghost predicate Listed()
      reads this`list
    {
      && |list| == |buffers|
      && (forall i :: 0 <= i < |list| ==> list[i] in buffers)
      && (forall i, j :: 0 <= i < j < |list| ==> list[i] != list[j])
    }

    /** head and the next pointers run through the list. */
    ghost predicate Threaded()
      reads this`head, this`list, buffers`next
      requires Listed()
    {
      && |list| > 0 && head == list[0] && list[|list| - 1].next == null
      && forall i, j :: 0 <= i && j == i + 1 && j < |list| ==> list[i].next == list[j]
    }

    ghost function SlotOf(b: FatBuffer): Slot
      requires Shape() && b in buffers
      reads b`address, b`dirty, b.sector
    {
      Slot(b.address, b.dirty, b.sector[..])
    }

    ghost function SlotsOf(l: seq<FatBuffer>): (s: seq<Slot>)
      requires Shape() && forall i :: 0 <= i < |l| ==> l[i] in buffers
      reads buffers`address, buffers`dirty, Arrays()
      ensures |s| == |l|
      ensures forall i :: 0 <= i < |l| ==> s[i] == SlotOf(l[i])
    {
      if l == [] then [] else SlotsOf(l[..|l| - 1]) + [SlotOf(l[|l| - 1])]
    }

    ghost function Slots(): (s: seq<Slot>)
      requires Shape() && Listed()
      reads this`list, buffers`address, buffers`dirty, Arrays()
      ensures |s| == |list|
      ensures forall i :: 0 <= i < |list| ==> s[i] == SlotOf(list[i])
    {
      SlotsOf(list)
    }

    ghost predicate Valid()
      reads this, buffers, Arrays()
    {
      && Shape() && Listed() && Threaded()
      && Coherent(Slots(), disk, fatBegin, fatSectors)
      && (!canWrite ==> forall i :: 0 <= i < |list| ==> !list[i].dirty)
      && (kind.Fat32? ==> fsInfo < |disk| && !(fatBegin <= fsInfo < fatBegin + fatSectors))
    }

    /** The disk as the FAT code sees it. */
    ghost function View(): (v: seq<Sector>)
      requires Valid()
      reads this, buffers, Arrays()
      ensures |v| == |disk|
    {
      Visible(Slots(), disk)
    }

    // ---- fatfs_fat_init ----

    /** n invalid buffers, each pushed in front of the ones before it. */
    constructor (n: nat, kind: Kind, fatBegin: nat, fatSectors: nat, fsInfo: nat, rootdirFirstCluster: nat,
                 nextFreeCluster: nat, canWrite: bool, faulty: bool, disk: seq<Sector>)
      requires n >= 1 && TableSize(kind, fatSectors) <= INVALID && fatBegin + fatSectors <= |disk| <= INVALID
      requires kind.Fat32? ==> fsInfo < |disk| && !(fatBegin <= fsInfo < fatBegin + fatSectors)
      ensures Valid() && fresh(buffers) && fresh(Arrays()) && |buffers| == n
      ensures View() == disk == this.disk && this.kind == kind && this.fatBegin == fatBegin
              && this.fatSectors == fatSectors
      ensures this.canWrite == canWrite && this.faulty == faulty
    {
      this.kind, this.fatBegin, this.fatSectors, this.fsInfo := kind, fatBegin, fatSectors, fsInfo;
      this.rootdirFirstCluster, this.nextFreeCluster := rootdirFirstCluster, nextFreeCluster;
      this.canWrite, this.faulty, this.disk := canWrite, faulty, disk;
      var h, l, all := MakeBuffers(n);
      head, list, buffers := h, l, all;
      new;
      hide SlotsOf, Visible, Coherent;
      NothingBuffered();
    }

    lemma NothingBuffered()
      requires Shape() && Listed() && fatBegin + fatSectors <= |disk| <= INVALID
      requires forall b :: b in buffers ==> b.address == INVALID && !b.dirty
      ensures Coherent(Slots(), disk, fatBegin, fatSectors) && Visible(Slots(), disk) == disk
    {
      hide SlotsOf, Visible;
      assert forall i :: 0 <= i < |list| ==> Slots()[i] == SlotOf(list[i]);
      AllClean(Slots(), disk, fatBegin, fatSectors);
    }

    static method MakeBuffers(n: nat) returns (h: FatBuffer?, ghost l: seq<FatBuffer>, ghost all: set<FatBuffer>)
      requires n >= 1
      ensures |l| == |all| == n && fresh(all) && forall j :: 0 <= j < n ==> l[j] in all
      ensures forall j, k :: 0 <= j < k < n ==> l[j] != l[k]
      ensures h == l[0] && l[n - 1].next == null && forall j, k :: 0 <= j && k == j + 1 && k < n ==> l[j].next == l[k]
      ensures forall b :: b in all ==>
              b.address == INVALID && !b.dirty && b.sector.Length == SECTOR_SIZE && fresh(b.sector)
      ensures forall b, c :: b in all && c in all && b != c ==> b.sector != c.sector
    {
      h, l, all := null, [], {};
      for i := 0 to n
        invariant |l| == |all| == i && fresh(all) && forall j :: 0 <= j < i ==> l[j] in all
        invariant forall j, k :: 0 <= j < k < i ==> l[j] != l[k]
        invariant if i == 0 then h == null else h == l[0] && l[i - 1].next == null
        invariant forall j, k :: 0 <= j && k == j + 1 && k < i ==> l[j].next == l[k]
        invariant forall b :: b in all ==>
                  b.address == INVALID && !b.dirty && b.sector.Length == SECTOR_SIZE && fresh(b.sector)
        invariant forall b, c :: b in all && c in all && b != c ==> b.sector != c.sector
      {
        var b := new FatBuffer();
        b.next := h;
        h := b;
        l := [b] + l;
        all := all + {b};
      }
    }

    // ---- The medium ----

    /** read_media of one sector; a faulty medium may refuse and leave anything in the buffer. */
    method MediaRead(a: nat, b: FatBuffer) returns (ok: bool)
      requires Shape() && b in buffers && a < |disk|
      modifies b.sector
      ensures ok ==> b.sector[..] == disk[a]
      ensures !faulty ==> ok
    {
      if faulty {
        ok := *;
      } else {
        ok := true;
      }
      if ok {
        forall i | 0 <= i < SECTOR_SIZE {
          b.sector[i] := disk[a][i];
        }
        assert b.sector[..] == disk[a];
      }
    }

    /** write_media of one sector. */
    method MediaWrite(a: nat, b: FatBuffer) returns (ok: bool)
      requires Shape() && b in buffers && a < |disk|
      modifies this`disk
      ensures disk == if ok then old(disk)[a := b.sector[..]] else old(disk)
      ensures !faulty ==> ok
    {
      if faulty {
        ok := *;
      } else {
        ok := true;
      }
      if ok {
        disk := disk[a := b.sector[..]];
      }
    }

    // ---- fatfs_fat_writeback ----

    /** Writes a dirty buffer out; readers of the FAT cannot tell. */
    method Writeback(b: FatBuffer, ghost k: nat) returns (ok: bool)
      requires Valid() && k < |list| && list[k] == b
      modifies this`disk, b`dirty
      ensures Valid() && View() == old(View()) && |disk| == old(|disk|)
      ensures Slots() == if ok then old(Slots())[k := old(Slots())[k].(dirty := false)] else old(Slots())
      ensures !ok ==> disk == old(disk)
      ensures !faulty ==> ok
    {
      hide Coherent, Visible, Find;
      ghost var slots := Slots();
      ok := true;
      if b.dirty {
        WriteBack(slots, disk, fatBegin, fatSectors, k);
        if canWrite {
          ok := MediaWrite(b.address, b);
          if !ok {
            assert Slots() == slots;
            return;
          }
        }
        b.dirty := false;
        assert Slots() == slots[k := slots[k].(dirty := false)];
      }
    }

    // ---- fatfs_fat_read_sector ----

    /** The list as the search loop leaves it when no buffer matched: its last buffer is cut off. */
    ghost predicate CutOff()
      reads this`head, this`list, buffers`next
      requires Listed()
    {
      && |list| > 0 && head == (if |list| == 1 then null else list[0])
      && (|list| > 1 ==> list[|list| - 2].next == null)
      && forall i, j :: 0 <= i && j == i + 1 && j < |list| - 1 ==> list[i].next == list[j]
    }

    /** The search loop: it stops at the sector's buffer, or walks the whole list and cuts off the last buffer. */
    method Search(sector: nat) returns (cur: FatBuffer?, last: FatBuffer?, ghost i: nat)
      requires Shape() && Listed() && Threaded()
      modifies this`head, buffers`next
      ensures i <= |list| && forall j :: 0 <= j < i ==> list[j].address != sector
      ensures cur != null ==> Threaded() && i < |list| && cur == list[i] && cur.address == sector
      ensures cur == null ==> CutOff() && i == |list| && last == list[|list| - 1]
      ensures Slots() == old(Slots())
    {
      hide SlotsOf;
      last, cur, i := null, head, 0;
      while cur != null && !(sector >= cur.address && sector < cur.address + 1)
        invariant 0 <= i <= |list| && |list| > 0
        invariant cur == (if i < |list| then list[i] else null) && last == (if i > 0 then list[i - 1] else null)
        invariant forall j :: 0 <= j < i ==> list[j].address != sector
        invariant if i < |list| then Threaded() else CutOff()
        decreases |list| - i
      {
        assert i > 0 ==> list[i - 1] != list[i];
        if cur.next == null {
          if last != null {
            last.next := null;
          } else {
            head := null;
          }
        }
        last := cur;
        cur := cur.next;
        i := i + 1;
      }
    }

    /** Either finds the sector's buffer, or has taken the last buffer off the list and put it first. */
    method FindOrEvict(sector: nat) returns (b: FatBuffer, hit: bool, ghost k: nat)
      requires Valid() && sector < INVALID
      modifies this`head, this`list, buffers`next
      ensures Shape() && Listed() && Threaded() && k < |list| && b == list[k]
      ensures hit ==> list == old(list) && Slots() == old(Slots()) && b.address == sector
      ensures !hit ==> k == 0 && Slots() == Rotated(old(Slots())) && Find(old(Slots()), sector) == |list|
    {
      hide Coherent, Visible, Find, Lookup, SlotsOf, Threaded, CutOff, Rotated;
      ghost var slots := Slots();
      var cur, last;
      cur, last, k := Search(sector);
      if cur != null {
        return cur, true, k;
      }
      b, hit, k := last, false, 0;
      FindNone(slots, sector);
      PushFront(b);
    }

    /** Puts the buffer that was cut off in front. */
    method PushFront(b: FatBuffer)
      requires Shape() && Listed() && CutOff() && b == list[|list| - 1]
      modifies this`head, this`list, b`next
      ensures Listed() && Threaded() && list == [b] + old(list)[..|list| - 1]
      ensures Slots() == Rotated(old(Slots()))
    {
      hide SlotsOf, Rotated, SlotOf;
      ghost var slots, l := Slots(), list;
      b.next := head;
      head := b;
      list := [b] + list[..|list| - 1];
      RotatedSlots(l, slots, Slots());
    }

    lemma RotatedSlots(l: seq<FatBuffer>, slots: seq<Slot>, after: seq<Slot>)
      requires Shape() && l != [] && |slots| == |l| == |after| == |list| && list == [l[|l| - 1]] + l[..|l| - 1]
      requires forall i :: 0 <= i < |l| ==> l[i] in buffers && slots[i] == SlotOf(l[i])
      requires forall i :: 0 <= i < |l| ==> list[i] in buffers && after[i] == SlotOf(list[i])
      ensures after == Rotated(slots)
    {
      hide SlotOf;
    }

    /** The buffer of a sector, read in if need be; readers of the FAT cannot tell, not even after a failure. */
    method ReadSector(sector: nat) returns (b: FatBuffer?, ghost k: nat)
      requires Valid() && sector < |disk|
      modifies this`disk, this`head, this`list, buffers, Arrays()
      ensures Valid() && |disk| == old(|disk|) && View() == old(View())
      ensures b != null ==> k < |list| && b == list[k] && b in buffers
                            && b.address == sector && b.sector[..] == View()[sector]
      ensures !faulty ==> b != null
      ensures old(Find(Slots(), sector) < |list|) ==> b != null
    {
      hide Coherent, Visible, Find, Lookup, Rotated, Threaded, SlotsOf;
      ghost var slots := Slots();
      DiskFits(slots, disk, fatBegin, fatSectors);
      var hit;
      b, hit, k := FindOrEvict(sector);
      if hit {
        BufferedIsSeen(slots, disk, fatBegin, fatSectors, k);
        return;
      }
      Rotate(slots, disk, fatBegin, fatSectors);
      NoneDirty(slots);
      if b.dirty {
        var ok := Writeback(b, k);
        if !ok {
          return null, 0;
        }
      }
      StillAbsent(slots, Slots(), sector);
      var ok := Load(b, sector);
      if !ok {
        return null, 0;
      }
    }

    /** Whether the volume is writable or not, the rotated list has the same dirty buffers. */
    lemma NoneDirty(slots: seq<Slot>)
      requires Shape() && Listed() && slots != [] && Slots() == Rotated(slots)
      requires !canWrite ==> forall i :: 0 <= i < |slots| ==> !slots[i].dirty
      ensures !canWrite ==> forall i :: 0 <= i < |list| ==> !list[i].dirty
    {
      if !canWrite {
        RotatedClean(slots);
        forall i | 0 <= i < |list| ensures !list[i].dirty { assert Slots()[i] == SlotOf(list[i]); }
      }
    }

    /** The end of fatfs_fat_read_sector: read the new sector into the evicted buffer. */
    method Load(b: FatBuffer, sector: nat) returns (ok: bool)
      requires Valid() && b == list[0] && !b.dirty && sector < |disk| && Find(Slots(), sector) == |list|
      modifies b`address, b.sector
      ensures Valid() && View() == old(View())
      ensures ok ==> b.address == sector && b.sector[..] == View()[sector]
      ensures !faulty ==> ok
    {
      hide Coherent, Visible, Find, Lookup, Threaded, SlotsOf;
      ghost var clean := Slots();
      DiskFits(clean, disk, fatBegin, fatSectors);
      b.address := sector;
      ok := MediaRead(b.address, b);
      if !ok {
        b.address := INVALID;
      }
      Reuse(clean, disk, fatBegin, fatSectors, SlotOf(b));
      assert Slots() == clean[0 := SlotOf(b)];
      if ok {
        BufferedIsSeen(Slots(), disk, fatBegin, fatSectors, 0);
      }
    }

    // ---- fatfs_fat_purge ----

    /** Writes every dirty buffer out. */
    method Purge() returns (ok: bool)
      requires Valid()
      modifies this`disk, buffers`dirty
      ensures Valid() && View() == old(View())
      ensures ok ==> disk == View()
      ensures !faulty ==> ok
    {
      hide Coherent, Visible, Find, Lookup, SlotsOf;
      var cur := head;
      ghost var i := 0;
      while cur != null
        invariant Valid() && 0 <= i <= |list| && cur == (if i < |list| then list[i] else null)
        invariant View() == old(View()) && forall j :: 0 <= j < i ==> !list[j].dirty
        decreases |list| - i
      {
        if cur.dirty {
          ok := Writeback(cur, i);
          if !ok {
            return;
          }
        }
        cur := cur.next;
        i := i + 1;
      }
      ok := true;
      AllClean(Slots(), disk, fatBegin, fatSectors);
    }

    // ---- The table ----

    /** The FAT as its readers see it, entry by entry. */
    ghost function Table(): (t: seq<nat>)
      requires Valid()
      reads this, buffers, Arrays()
      ensures |t| == TableSize(kind, fatSectors)
    {
      TableFits();
      TableOf(kind, View(), fatBegin, fatSectors)
    }

    lemma TableFits()
      requires Valid()
      ensures fatBegin + fatSectors <= |View()| <= INVALID && TableSize(kind, fatSectors) <= INVALID
    {}

    lemma DataOnDisk(a: nat)
      requires Valid() && a < |disk| && !(fatBegin <= a < fatBegin + fatSectors)
      ensures View()[a] == disk[a]
    {
      DataIsOnDisk(Slots(), disk, fatBegin, fatSectors, a);
    }

    /** Sectors outside the FAT read the same. */
    ghost predicate SameOutsideFat(v: seq<Sector>, w: seq<Sector>) {
      |v| == |w| && forall a :: 0 <= a < |v| && !(fatBegin <= a < fatBegin + fatSectors) ==> v[a] == w[a]
    }

    ghost predicate Buffered(c: nat)
      requires Valid()
      reads this, buffers, Arrays()
    {
      Find(Slots(), fatBegin + c / PerSector(kind)) < |list|
    }

    /** The buffer that holds a cluster's entry. */
    method FatSector(c: nat) returns (b: FatBuffer?, ghost k: nat)
      requires Valid() && c < TableSize(kind, fatSectors)
      modifies this`disk, this`head, this`list, buffers, Arrays()
      ensures Valid() && View() == old(View()) && Table() == old(Table())
      ensures b != null ==> k < |list| && b == list[k] && b in buffers && Buffered(c)
                            && b.address == fatBegin + c / PerSector(kind) && b.address < |disk|
                            && b.sector[..] == View()[b.address]
      ensures !faulty || old(Buffered(c)) ==> b != null
    {
      hide Coherent, Visible, Find, Lookup, SlotsOf;
      TableFits();
      InTable(kind, fatSectors, c);
      b, k := ReadSector(fatBegin + c / PerSector(kind));
      if b != null {
        FindIs(Slots(), disk, fatBegin, fatSectors, k);
      }
    }

    // ---- fatfs_find_next_cluster ----

    /** The entry of a cluster in its buffered sector. */
    method GetEntry(b: FatBuffer, c: nat) returns (v: nat)
      requires Valid() && c < TableSize(kind, fatSectors)
      requires b.address == fatBegin + c / PerSector(kind) && b.address < |disk| && b.sector[..] == View()[b.address]
      ensures v == Table()[c]
    {
      hide Valid, View, SlotsOf, Slots, Listed, Threaded, GetWord;
      TableFits();
      Inside(kind, c);
      var position := (c - c / PerSector(kind) * PerSector(kind)) * Width(kind);
      v := GetWord(kind, b.sector[..], position);
    }

    /** Follows a link; a sector that cannot be read ends the chain. */
    method FindNextCluster(cluster: nat) returns (next: nat)
      requires Valid() && (if cluster == 0 then 2 else cluster) < TableSize(kind, fatSectors)
      modifies this`disk, this`head, this`list, buffers, Arrays()
      ensures Valid() && View() == old(View()) && Table() == old(Table())
      ensures || (next == Next(kind, Table(), cluster) && Buffered(if cluster == 0 then 2 else cluster))
              || (faulty && next == LAST)
    {
      hide Valid, View, Find, SlotsOf, Slots, Buffered, Table;
      var c := if cluster == 0 then 2 else cluster;
      var b, k := FatSector(c);
      if b == null {
        return LAST;
      }
      next := GetEntry(b, c);
      next := Masked(kind, next);
      if next >= EndMark(kind) {
        return LAST;
      }
    }

    // ---- fatfs_fat_set_cluster ----

    method PutBytes(a: array<byte>, pos: nat, v: nat)
      requires a.Length == SECTOR_SIZE && pos + Width(kind) <= SECTOR_SIZE
      modifies a
      ensures a[..] == SetWord(kind, old(a[..]), pos, v)
    {
      a[pos] := v % 0x100;
      a[pos + 1] := v / 0x100 % 0x100;
      if kind.Fat32? {
        a[pos + 2] := v / 0x10000 % 0x100;
        a[pos + 3] := v / 0x1000000 % 0x100;
      }
    }

    method PutWord(b: FatBuffer, pos: nat, v: nat, ghost k: nat)
      requires Valid() && canWrite && k < |list| && b == list[k] && fatBegin <= b.address < fatBegin + fatSectors
      requires pos + Width(kind) <= SECTOR_SIZE
      modifies b.sector, b`dirty
      ensures Valid()
      ensures View() == old(View())[b.address := SetWord(kind, old(b.sector[..]), pos, v)]
    {
      hide Coherent, Visible, Find, Lookup, SlotsOf, SetWord, Threaded;
      TableFits();
      ghost var slots, data := Slots(), SetWord(kind, b.sector[..], pos, v);
      Modify(slots, disk, fatBegin, fatSectors, k, data);
      PutBytes(b.sector, pos, v);
      b.dirty := true;
      assert Slots() == slots[k := Slot(b.address, true, data)];
    }

    /** Store a value into a cluster's entry of its buffered sector. */
    method PutEntry(b: FatBuffer, cluster: nat, next: nat, ghost k: nat)
      requires Valid() && canWrite && cluster < TableSize(kind, fatSectors) && Fits(Fat32, next)
      requires k < |list| && b == list[k] && b.address == fatBegin + cluster / PerSector(kind)
      requires b.address < |disk| && b.sector[..] == View()[b.address]
      modifies b.sector, b`dirty
      ensures Valid() && SameOutsideFat(old(View()), View())
      ensures Table() == old(Table())[cluster := Stored(kind, next)]
    {
      hide Valid, View, SetWord, SlotsOf, Slots, TableOf, Threaded;
      TableFits();
      Inside(kind, cluster);
      InTable(kind, fatSectors, cluster);
      var position := (cluster - cluster / PerSector(kind) * PerSector(kind)) * Width(kind);
      SetInTable(kind, View(), fatBegin, fatSectors, cluster, next);
      PutWord(b, position, next, k);
    }

    /** Stores a link, in its buffer only. */
    method SetCluster(cluster: nat, next: nat) returns (ok: bool)
      requires Valid() && canWrite && cluster < TableSize(kind, fatSectors) && Fits(Fat32, next)
      modifies this`disk, this`head, this`list, buffers, Arrays()
      ensures Valid() && SameOutsideFat(old(View()), View())
      ensures Table() == if ok then old(Table())[cluster := Stored(kind, next)] else old(Table())
      ensures !faulty || old(Buffered(cluster)) ==> ok
    {
      hide Valid, View, Find, SlotsOf, Slots, Buffered, TableOf, Threaded, Listed;
      var b, k := FatSector(cluster);
      if b == null {
        return false;
      }
      TableFits();
      PutEntry(b, cluster, next, k);
      ok := true;
    }

    // ---- fatfs_set_fs_info_next_free_cluster ----

    /** Change the buffered FSINFO sector, write it out if the volume is writable, and drop the buffer. */
    method RewriteFsInfo(b: FatBuffer, value: nat, ghost k: nat) returns (wrote: bool)
      requires Valid() && kind.Fat32? && Fits(Fat32, value)
      requires k < |list| && b == list[k] && b.address == fsInfo && b.sector[..] == View()[fsInfo]
      modifies this`disk, this`nextFreeCluster, b
      modifies b.sector
      ensures Valid() && nextFreeCluster == value
      ensures View() == if wrote then old(View())[fsInfo := SetWord(Fat32, old(View())[fsInfo], 492, value)]
              else old(View())
      ensures canWrite && !faulty ==> wrote
      ensures list == old(list) && Unbuffered(fsInfo)
    {
      hide Visible, Coherent, Find, Lookup, SlotsOf, SetWord, Threaded;
      ghost var slots, was, data := Slots(), disk, SetWord(Fat32, b.sector[..], 492, value);
      NotDirty(b, k);
      BufferedIsSeen(slots, disk, fatBegin, fatSectors, k);
      OnlyOne(b, k);
      wrote := false;
      PutBytes(b.sector, 492, value);
      b.dirty := true;
      nextFreeCluster := value;
      if canWrite {
        wrote := MediaWrite(b.address, b);
      }
      b.address := INVALID;
      b.dirty := false;
      assert Slots() == slots[k := SlotOf(b)];
      Drop(slots, was, fatBegin, fatSectors, k, fsInfo, if wrote then data else was[fsInfo], SlotOf(b));
      assert disk == was[fsInfo := if wrote then data else was[fsInfo]];
    }

    lemma NotDirty(b: FatBuffer, k: nat)
      requires Valid() && k < |list| && b == list[k] && kind.Fat32? && b.address == fsInfo
      ensures !b.dirty && b.sector[..] == disk[fsInfo]
    {
      assert Slots()[k] == SlotOf(b);
    }

    /** No buffer of the list holds the sector. */
    ghost predicate Unbuffered(sector: nat)
      requires Listed()
      reads this`list, buffers`address
    {
      forall i :: 0 <= i < |list| ==> list[i].address != sector
    }

    /** No sector is buffered twice. */
    lemma OnlyOne(b: FatBuffer, k: nat)
      requires Valid() && k < |list| && b == list[k] && kind.Fat32? && b.address == fsInfo
      ensures fsInfo != INVALID && forall i :: 0 <= i < |list| && list[i] != b ==> list[i].address != fsInfo
    {
      forall i | 0 <= i < |list| && list[i] != b ensures list[i].address != b.address {
        assert Slots()[i] == SlotOf(list[i]) && Slots()[k] == SlotOf(b);
        OnceBuffered(Slots(), disk, fatBegin, fatSectors, k, i);
      }
    }

    lemma FsInfoInside()
      requires Valid() && kind.Fat32?
      ensures fsInfo < |View()| && !(fatBegin <= fsInfo < fatBegin + fatSectors)
    {}

    /** Changing the FSINFO sector leaves the table alone. */
    lemma TableElsewhere(v: seq<Sector>, w: seq<Sector>)
      requires fatBegin + fatSectors <= |v| && |v| == |w|
      requires forall a :: fatBegin <= a < fatBegin + fatSectors ==> v[a] == w[a]
      ensures TableOf(kind, v, fatBegin, fatSectors) == TableOf(kind, w, fatBegin, fatSectors)
    {
      forall c | 0 <= c < TableSize(kind, fatSectors)
        ensures TableOf(kind, v, fatBegin, fatSectors)[c] == TableOf(kind, w, fatBegin, fatSectors)[c]
      {
        InTable(kind, fatSectors, c);
      }
    }

    /** Writes the hint into FSINFO, which no FAT buffer holds afterwards; the FAT itself reads the same. */
    method SetFsInfo(value: nat)
      requires Valid() && Fits(Fat32, value)
      modifies this`disk, this`head, this`list, this`nextFreeCluster, buffers, Arrays()
      ensures Valid() && Table() == old(Table())
      ensures || View() == old(View())
              || (kind.Fat32? && View() == old(View())[fsInfo := SetWord(Fat32, old(View())[fsInfo], 492, value)])
      ensures kind.Fat32? && !faulty ==> nextFreeCluster == value
      ensures kind.Fat32? && !faulty && canWrite ==>
                View() == old(View())[fsInfo := SetWord(Fat32, old(View())[fsInfo], 492, value)]
      ensures kind.Fat32? && !faulty ==> Unbuffered(fsInfo)
    {
      hide Valid, View, Visible, Find, Lookup, SlotsOf, Slots, SetWord, GetWord, Threaded, Listed, TableOf;
      if kind.Fat16? {
        return;
      }
      FsInfoInside();
      TableFits();
      ghost var v := View();
      var b, k := ReadSector(fsInfo);
      if b == null {
        return;
      }
      var wrote := RewriteFsInfo(b, value, k);
      TableElsewhere(v, View());
    }
  }
}
