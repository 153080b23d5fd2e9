/** The FAT sector buffer list as a value: a sequence of slots in list order over a disk of sectors. */
module SectorCache {
  import Octets

  type byte = Octets.byte

  const SECTOR_SIZE: nat := 512
  const INVALID: nat := 0xffffffff

  type Sector = s: seq<byte> | |s| == SECTOR_SIZE witness seq(SECTOR_SIZE, i => 0)

  datatype Slot = Slot(address: nat, dirty: bool, data: Sector)

  /** Position of the slot that buffers sector a; the number of slots when none does. */
  function Find(slots: seq<Slot>, a: nat): (i: nat)
    ensures i <= |slots|
    ensures i < |slots| ==> slots[i].address == a
    ensures forall j :: 0 <= j < i ==> slots[j].address != a
  {
    if slots == [] || slots[0].address == a then 0 else 1 + Find(slots[1..], a)
  }

  /** What sector a holds as far as a reader can tell: the buffered copy if there is one, else the disk's. */
  function Lookup(slots: seq<Slot>, disk: seq<Sector>, a: nat): Sector
    requires a < |disk|
  {
    var i := Find(slots, a);
    if i < |slots| then slots[i].data else disk[a]
  }

  /** The whole disk as readers see it. */
  function Visible(slots: seq<Slot>, disk: seq<Sector>): (v: seq<Sector>)
    ensures |v| == |disk|
    ensures forall a :: 0 <= a < |disk| ==> v[a] == Lookup(slots, disk, a)
  {
    seq(|disk|, a requires 0 <= a < |disk| => Lookup(slots, disk, a))
  }

  /** No sector is buffered twice, clean buffers agree with the disk, and only FAT sectors are dirty. */
  ghost predicate Coherent(slots: seq<Slot>, disk: seq<Sector>, fatBegin: nat, fatSectors: nat) {
    && |disk| <= INVALID && fatBegin + fatSectors <= |disk|
    && (forall i, j :: 0 <= i < j < |slots| && slots[i].address != INVALID ==> slots[i].address != slots[j].address)
    && (forall i :: 0 <= i < |slots| && slots[i].address != INVALID ==>
          slots[i].address < |disk| && (!slots[i].dirty ==> slots[i].data == disk[slots[i].address]))
    && (forall i :: 0 <= i < |slots| && slots[i].dirty ==>
          slots[i].address != INVALID && fatBegin <= slots[i].address < fatBegin + fatSectors)
  }

  lemma FindIs(slots: seq<Slot>, disk: seq<Sector>, fatBegin: nat, fatSectors: nat, i: nat)
    requires Coherent(slots, disk, fatBegin, fatSectors) && i < |slots| && slots[i].address != INVALID
    ensures Find(slots, slots[i].address) == i
  {
    var f := Find(slots, slots[i].address);
    assert !(f < i);
  }

  /** Writing a dirty buffer to its own sector and marking it clean shows readers nothing new. */
  lemma WriteBack(slots: seq<Slot>, disk: seq<Sector>, fatBegin: nat, fatSectors: nat, i: nat)
    requires Coherent(slots, disk, fatBegin, fatSectors) && i < |slots| && slots[i].dirty
    ensures slots[i].address < |disk|
    ensures var slots', disk' := slots[i := slots[i].(dirty := false)], disk[slots[i].address := slots[i].data];
            Coherent(slots', disk', fatBegin, fatSectors) && Visible(slots', disk') == Visible(slots, disk)
  {
    var slots', disk' := slots[i := slots[i].(dirty := false)], disk[slots[i].address := slots[i].data];
    forall a | 0 <= a < |disk| ensures Lookup(slots', disk', a) == Lookup(slots, disk, a) {
      SameFind(slots, slots', a);
      FindIs(slots, disk, fatBegin, fatSectors, i);
    }
  }

  lemma {:induction false} SameFind(slots: seq<Slot>, slots': seq<Slot>, a: nat)
    requires |slots| == |slots'| && forall i :: 0 <= i < |slots| ==> slots'[i].address == slots[i].address
    ensures Find(slots', a) == Find(slots, a)
  {
    if slots != [] { SameFind(slots[1..], slots'[1..], a); }
  }

  /** The list with its last buffer brought to the front. */
  function Rotated(slots: seq<Slot>): (r: seq<Slot>)
    requires slots != []
    ensures |r| == |slots| && r[0] == slots[|slots| - 1]
    ensures forall i :: 0 < i < |slots| ==> r[i] == slots[i - 1]
  {
    [slots[|slots| - 1]] + slots[..|slots| - 1]
  }

  lemma RotatedCoherent(slots: seq<Slot>, disk: seq<Sector>, fatBegin: nat, fatSectors: nat)
    requires Coherent(slots, disk, fatBegin, fatSectors) && slots != []
    ensures Coherent(Rotated(slots), disk, fatBegin, fatSectors)
  {
    hide Rotated;
    var r, n := Rotated(slots), |slots| - 1;
    forall i, j | 0 <= i < j < |r| && r[i].address != INVALID ensures r[i].address != r[j].address {
      if i == 0 { assert slots[j - 1].address != slots[n].address; }
      else { assert slots[i - 1].address != slots[j - 1].address; }
    }
    forall i | 0 <= i < |r|
      ensures r[i].address != INVALID ==>
                r[i].address < |disk| && (!r[i].dirty ==> r[i].data == disk[r[i].address])
      ensures r[i].dirty ==> r[i].address != INVALID && fatBegin <= r[i].address < fatBegin + fatSectors
    {
      var o := if i == 0 then n else i - 1;
      assert r[i] == slots[o];
    }
  }

  /** Bringing the last buffer to the front of the list changes nothing a reader sees. */
  lemma Rotate(slots: seq<Slot>, disk: seq<Sector>, fatBegin: nat, fatSectors: nat)
    requires Coherent(slots, disk, fatBegin, fatSectors) && slots != []
    ensures Coherent(Rotated(slots), disk, fatBegin, fatSectors)
            && Visible(Rotated(slots), disk) == Visible(slots, disk)
  {
    hide Coherent, Rotated;
    RotatedCoherent(slots, disk, fatBegin, fatSectors);
    DiskFits(slots, disk, fatBegin, fatSectors);
    var r, n := Rotated(slots), |slots| - 1;
    forall a | 0 <= a < |disk| ensures Lookup(r, disk, a) == Lookup(slots, disk, a) {
      var f := Find(slots, a);
      if f < |slots| {
        FindIs(r, disk, fatBegin, fatSectors, if f == n then 0 else f + 1);
      } else {
        forall j | 0 <= j < |r| ensures r[j].address != a {
          assert r[j] == slots[if j == 0 then n else j - 1];
        }
        FindNone(r, a);
      }
    }
  }

  lemma DiskFits(slots: seq<Slot>, disk: seq<Sector>, fatBegin: nat, fatSectors: nat)
    requires Coherent(slots, disk, fatBegin, fatSectors)
    ensures |disk| <= INVALID
  {}

  lemma FindNone(slots: seq<Slot>, a: nat)
    requires forall i :: 0 <= i < |slots| ==> slots[i].address != a
    ensures Find(slots, a) == |slots|
  {}

  /** Reusing a clean first buffer for another sector (or for none, after a failed read) changes nothing either. */
  lemma Reuse(slots: seq<Slot>, disk: seq<Sector>, fatBegin: nat, fatSectors: nat, slot: Slot)
    requires Coherent(slots, disk, fatBegin, fatSectors) && slots != [] && !slots[0].dirty && !slot.dirty
    requires slot.address != INVALID ==>
               slot.address < |disk| && slot.data == disk[slot.address] && Find(slots, slot.address) == |slots|
    ensures Coherent(slots[0 := slot], disk, fatBegin, fatSectors)
    ensures Visible(slots[0 := slot], disk) == Visible(slots, disk)
  {
    var slots' := slots[0 := slot];
    assert forall i :: 0 < i < |slots| ==> slots'[i] == slots[i];
    forall a | 0 <= a < |disk| ensures Lookup(slots', disk, a) == Lookup(slots, disk, a) {
      var f := Find(slots, a);
      if f == 0 {
        if slot.address != a {
          forall j | 0 <= j < |slots'| ensures slots'[j].address != a {}
          FindNone(slots', a);
        }
      } else if f < |slots| {
        assert a != slot.address;
        FindIs(slots', disk, fatBegin, fatSectors, f);
      } else {
        var g := Find(slots', a);
      }
    }
  }

  /** Changing a buffered FAT sector and marking it dirty changes exactly that sector for readers. */
  lemma Modify(slots: seq<Slot>, disk: seq<Sector>, fatBegin: nat, fatSectors: nat, i: nat, data: Sector)
    requires Coherent(slots, disk, fatBegin, fatSectors) && i < |slots|
    requires slots[i].address != INVALID && fatBegin <= slots[i].address < fatBegin + fatSectors
    ensures var slots' := slots[i := Slot(slots[i].address, true, data)];
            && Coherent(slots', disk, fatBegin, fatSectors)
            && Visible(slots', disk) == Visible(slots, disk)[slots[i].address := data]
  {
    var slots' := slots[i := Slot(slots[i].address, true, data)];
    forall a | 0 <= a < |disk|
      ensures Lookup(slots', disk, a) == if a == slots[i].address then data else Lookup(slots, disk, a) {
      SameFind(slots, slots', a);
      FindIs(slots, disk, fatBegin, fatSectors, i);
    }
  }

  /** Dropping a clean buffer after its sector was (or was not) rewritten on the disk changes at most that sector for
      readers. */
  lemma Drop(slots: seq<Slot>, disk: seq<Sector>, fatBegin: nat, fatSectors: nat, i: nat, a: nat, data: Sector,
      slot: Slot)
    requires Coherent(slots, disk, fatBegin, fatSectors) && i < |slots| && slots[i].address == a < |disk|
             && !slots[i].dirty
    requires slot.address == INVALID && !slot.dirty
    ensures Coherent(slots[i := slot], disk[a := data], fatBegin, fatSectors)
    ensures Visible(slots[i := slot], disk[a := data]) == Visible(slots, disk)[a := data]
  {
    hide Coherent, Lookup;
    var slots', disk' := slots[i := slot], disk[a := data];
    DroppedIsCoherent(slots, disk, fatBegin, fatSectors, i, a, data, slot);
    forall b | 0 <= b < |disk| ensures Lookup(slots', disk', b) == if b == a then data else Lookup(slots, disk, b) {
      DroppedLookup(slots, disk, fatBegin, fatSectors, i, b, data, slot);
    }
  }

  lemma DroppedIsCoherent(slots: seq<Slot>, disk: seq<Sector>, fatBegin: nat, fatSectors: nat, i: nat, a: nat,
      data: Sector,
                          slot: Slot)
    requires Coherent(slots, disk, fatBegin, fatSectors) && i < |slots| && slots[i].address == a < |disk|
             && !slots[i].dirty
    requires slot.address == INVALID && !slot.dirty
    ensures Coherent(slots[i := slot], disk[a := data], fatBegin, fatSectors)
  {}

  lemma DroppedLookup(slots: seq<Slot>, disk: seq<Sector>, fatBegin: nat, fatSectors: nat, i: nat, b: nat,
      data: Sector, slot: Slot)
    requires Coherent(slots, disk, fatBegin, fatSectors) && i < |slots| && slots[i].address < |disk| && b < |disk|
    requires slot.address == INVALID && Coherent(slots[i := slot], disk[slots[i].address := data], fatBegin, fatSectors)
    ensures Lookup(slots[i := slot], disk[slots[i].address := data], b) ==
              if b == slots[i].address then data else Lookup(slots, disk, b)
  {
    var slots', f := slots[i := slot], Find(slots, b);
    FindIs(slots, disk, fatBegin, fatSectors, i);
    DiskFits(slots, disk, fatBegin, fatSectors);
    hide Coherent;
    if f < |slots| && f != i {
      FindIs(slots', disk[slots[i].address := data], fatBegin, fatSectors, f);
    } else {
      forall j | 0 <= j < |slots'| ensures slots'[j].address != b {
        if f == i && j != i { OnceBuffered(slots, disk, fatBegin, fatSectors, i, j); }
      }
      FindNone(slots', b);
    }
  }

  lemma OnceBuffered(slots: seq<Slot>, disk: seq<Sector>, fatBegin: nat, fatSectors: nat, i: nat, j: nat)
    requires Coherent(slots, disk, fatBegin, fatSectors) && i < |slots| && j < |slots| && i != j
             && slots[i].address != INVALID
    ensures slots[i].address != slots[j].address
  {}

  /** With every buffer clean, the disk itself is what readers see. */
  lemma AllClean(slots: seq<Slot>, disk: seq<Sector>, fatBegin: nat, fatSectors: nat)
    requires Coherent(slots, disk, fatBegin, fatSectors) && forall i :: 0 <= i < |slots| ==> !slots[i].dirty
    ensures Visible(slots, disk) == disk
  {}

  /** Outside the FAT readers see the disk itself. */
  lemma DataIsOnDisk(slots: seq<Slot>, disk: seq<Sector>, fatBegin: nat, fatSectors: nat, a: nat)
    requires Coherent(slots, disk, fatBegin, fatSectors) && a < |disk| && !(fatBegin <= a < fatBegin + fatSectors)
    ensures Visible(slots, disk)[a] == disk[a]
  {}

  /** A sector no buffer holds is still unbuffered after the list was rotated and its first buffer cleaned. */
  lemma StillAbsent(slots: seq<Slot>, after: seq<Slot>, sector: nat)
    requires slots != [] && |after| == |slots| && Find(slots, sector) == |slots|
    requires forall i :: 0 <= i < |slots| ==> after[i].address == Rotated(slots)[i].address
    ensures Find(after, sector) == |after|
  {
    forall i | 0 <= i < |after| ensures after[i].address != sector {
      var o := if i == 0 then |slots| - 1 else i - 1;
      assert Rotated(slots)[i] == slots[o];
    }
    FindNone(after, sector);
  }

  lemma RotatedClean(slots: seq<Slot>)
    requires slots != [] && forall i :: 0 <= i < |slots| ==> !slots[i].dirty
    ensures forall i :: 0 <= i < |slots| ==> !Rotated(slots)[i].dirty
  {}

  lemma BufferedIsSeen(slots: seq<Slot>, disk: seq<Sector>, fatBegin: nat, fatSectors: nat, i: nat)
    requires Coherent(slots, disk, fatBegin, fatSectors) && i < |slots| && slots[i].address < |disk|
    ensures slots[i].address != INVALID && Visible(slots, disk)[slots[i].address] == slots[i].data
  {
    FindIs(slots, disk, fatBegin, fatSectors, i);
  }
}
