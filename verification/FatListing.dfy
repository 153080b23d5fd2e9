/** What a directory scan finds in a sequence of records, and why adding an entry in dead records disturbs nothing. */
module FatListing {
  import opened SectorCache
  import opened FatNames

  datatype Found = Found(name: seq<byte>, record: Record)

  /** fatfs_get_file_entry's 8.3 name: eight characters, a dot if there is an extension, three characters. */
  function ShortName(r: Record): seq<byte> {
    var dotRequired := r[8] != 0x20 || r[9] != 0x20 || r[10] != 0x20;
    var dot: byte := if dotRequired && r[0] != 0x2E then 0x2E else 0x20;
    UpToNul(r[..8] + [dot] + r[8..11] + [0])
  }

  function Cleared(c: Lfn): (d: Lfn)
    requires LfnOk(c)
    ensures LfnOk(d) && d.count == 0 && d.text == c.text
  {
    c.(count := 0)
  }

  /** What one record does to the long-name cache. */
  function CacheStep(c: Lfn, r: Record): (d: Lfn)
    requires LfnOk(c)
    ensures LfnOk(d) && (!LfnText(r) ==> d.count == 0)
  {
    if LfnText(r) then CacheEntry(c, r)
    else if LfnInvalid(r) then Cleared(c)
    else if c.count > 0 then Cleared(Terminated(c))
    else c
  }

  /** The entry a record completes, if it does. */
  function Completed(c: Lfn, r: Record): seq<Found>
    requires LfnOk(c)
  {
    if LfnText(r) || LfnInvalid(r) then []
    else if c.count > 0 then [Found(CacheName(c), r)]
    else [Found(ShortName(r), r)]
  }

  /** All the entries a scan comes across, in order, starting with cache c. */
  function Scan(recs: seq<Record>, c: Lfn): seq<Found>
    requires LfnOk(c)
    decreases |recs|
  {
    if recs == [] then [] else Completed(c, recs[0]) + Scan(recs[1..], CacheStep(c, recs[0]))
  }

  function After(recs: seq<Record>, c: Lfn): (d: Lfn)
    requires LfnOk(c)
    ensures LfnOk(d)
    decreases |recs|
  {
    if recs == [] then c else After(recs[1..], CacheStep(c, recs[0]))
  }

  /** The cache a scan starts with. */
  function Wiped(): (c: Lfn)
    ensures LfnOk(c)
  {
    Lfn(0, seq(TEXT_SIZE, i => 0))
  }

  function Listing(recs: seq<Record>): seq<Found> {
    Scan(recs, Wiped())
  }

  lemma {:induction false} ScanConcat(a: seq<Record>, b: seq<Record>, c: Lfn)
    requires LfnOk(c)
    ensures Scan(a + b, c) == Scan(a, c) + Scan(b, After(a, c))
    ensures After(a + b, c) == After(b, After(a, c))
    decreases |a|
  {
    if a == [] {
      assert a + b == b;
    } else {
      assert (a + b)[0] == a[0] && (a + b)[1..] == a[1..] + b;
      ScanConcat(a[1..], b, CacheStep(c, a[0]));
    }
  }

  // ---- Records that complete nothing ----

  /** A long-name record, or the short record of a deleted or never used entry. */
  predicate Dead(r: Record) {
    LfnText(r) || DeadSfn(r)
  }

  lemma {:induction false} DeadCompleteNothing(recs: seq<Record>, c: Lfn)
    requires LfnOk(c) && forall i :: 0 <= i < |recs| ==> Dead(recs[i])
    ensures Scan(recs, c) == []
    decreases |recs|
  {
    if recs != [] {
      DeadCompleteNothing(recs[1..], CacheStep(c, recs[0]));
    }
  }

  /** After a short record of any kind the cache holds no name. */
  lemma {:induction false} ShortRecordClears(recs: seq<Record>, c: Lfn)
    requires LfnOk(c) && recs != [] && !LfnText(recs[|recs| - 1])
    ensures After(recs, c).count == 0
    decreases |recs|
  {
    if |recs| > 1 {
      ShortRecordClears(recs[1..], CacheStep(c, recs[0]));
    }
  }

  // ---- Names that do not depend on what was cached before ----

  /** The bytes of the cache that are certain after a long-name record, given those certain before it. */
  function Learnt(known: map<nat, byte>, r: Record): map<nat, byte> {
    if Usable(r) then known + map p: nat | 0 <= p < TEXT_SIZE && p / 13 == LfnIndex(r) - 1 :: Char(r, p % 13) else known
  }

  /** The number of records of the name being collected. */
  function CountOf(count: nat, r: Record): nat {
    if Usable(r) && count == 0 then LfnIndex(r) else count
  }

  /** First position from i on that is not known, or known to end the string; n when there is none. */
  function KnownUpTo(known: map<nat, byte>, n: nat, i: nat): (e: nat)
    requires i <= n
    ensures i <= e <= n && (forall p :: i <= p < e ==> p in known && known[p] != 0)
    ensures e < n && e in known ==> known[e] == 0
    decreases n - i
  {
    if i == n || i !in known || known[i] == 0 then i else KnownUpTo(known, n, i + 1)
  }

  /** Reading a name of count records from its front, no unknown byte is met before its end or a NUL. */
  predicate Determined(count: nat, known: map<nat, byte>) {
    var e := KnownUpTo(known, count * 13, 0);
    e == count * 13 || e in known
  }

  /** What a completed name leaves certain: fatfs_lfn_cache_get puts a NUL behind it. */
  function Closed(count: nat, known: map<nat, byte>): map<nat, byte> {
    if 0 < count < MAX_ENTRIES then known[count * 13 := 0] else known
  }

  /** Every name that completes is determined by the records, and by what is known from the start. */
  predicate Independent(recs: seq<Record>, count: nat, known: map<nat, byte>)
    decreases |recs|
  {
    if recs == [] then true
    else
      var r := recs[0];
      if LfnText(r) then Independent(recs[1..], CountOf(count, r), Learnt(known, r))
      else if LfnInvalid(r) then Independent(recs[1..], 0, known)
      else Determined(count, known) && Independent(recs[1..], 0, Closed(count, known))
  }

  /** A cache that holds what is known. */
  predicate Agrees(c: Lfn, count: nat, known: map<nat, byte>) {
    LfnOk(c) && c.count == count && forall p :: p in known ==> p < TEXT_SIZE && c.text[p] == known[p]
  }

  lemma SameName(c: Lfn, d: Lfn, count: nat, known: map<nat, byte>)
    requires Agrees(c, count, known) && Agrees(d, count, known) && Determined(count, known)
    ensures CacheName(c) == CacheName(d)
  {
    var n := count * 13;
    var e := KnownUpTo(known, n, 0);
    assert c.text[..e] == d.text[..e];
    UpToNulIs(c.text[..n], c.text[..e]);
    UpToNulIs(d.text[..n], d.text[..e]);
  }

  lemma StillAgrees(c: Lfn, r: Record, count: nat, known: map<nat, byte>)
    requires Agrees(c, count, known)
    ensures LfnText(r) ==> Agrees(CacheStep(c, r), CountOf(count, r), Learnt(known, r))
    ensures !LfnText(r) && LfnInvalid(r) ==> Agrees(CacheStep(c, r), 0, known)
    ensures !LfnText(r) && !LfnInvalid(r) ==> Agrees(CacheStep(c, r), 0, Closed(count, known))
  {}

  lemma {:induction false} SameScans(recs: seq<Record>, c: Lfn, d: Lfn, count: nat, known: map<nat, byte>)
    requires Agrees(c, count, known) && Agrees(d, count, known) && Independent(recs, count, known)
    ensures Scan(recs, c) == Scan(recs, d)
    decreases |recs|
  {
    hide Agrees, Determined, Learnt, Closed, CacheStep, CacheName;
    AgreesIsOk(c, count, known);
    AgreesIsOk(d, count, known);
    if recs != [] {
      var r := recs[0];
      StillAgrees(c, r, count, known);
      StillAgrees(d, r, count, known);
      if LfnText(r) {
        SameScans(recs[1..], CacheStep(c, r), CacheStep(d, r), CountOf(count, r), Learnt(known, r));
      } else if LfnInvalid(r) {
        SameScans(recs[1..], CacheStep(c, r), CacheStep(d, r), 0, known);
      } else {
        SameName(c, d, count, known);
        SameScans(recs[1..], CacheStep(c, r), CacheStep(d, r), 0, Closed(count, known));
      }
    }
  }

  lemma AgreesIsOk(c: Lfn, count: nat, known: map<nat, byte>)
    requires Agrees(c, count, known)
    ensures LfnOk(c) && c.count == count
  {}

  /** Two caches that differ at an unknown position only, where one string ends and the other goes on. */
  predicate Split(c: Lfn, d: Lfn, count: nat, known: map<nat, byte>, p: nat) {
    && Agrees(c, count, known) && Agrees(d, count, known) && p < TEXT_SIZE && p !in known
    && c.text[p] == 0 && d.text[p] == 1 && forall q :: 0 <= q < TEXT_SIZE && q != p ==> c.text[q] == d.text[q]
  }

  lemma StillSplit(c: Lfn, d: Lfn, r: Record, count: nat, known: map<nat, byte>, p: nat)
    requires Split(c, d, count, known, p)
    ensures LfnText(r) && p !in Learnt(known, r) ==>
              Split(CacheStep(c, r), CacheStep(d, r), CountOf(count, r), Learnt(known, r), p)
    ensures !LfnText(r) && LfnInvalid(r) ==> Split(CacheStep(c, r), CacheStep(d, r), 0, known, p)
    ensures !LfnText(r) && !LfnInvalid(r) && p !in Closed(count, known) ==>
              Split(CacheStep(c, r), CacheStep(d, r), 0, Closed(count, known), p)
  {
    StillAgrees(c, r, count, known);
    StillAgrees(d, r, count, known);
  }

  lemma NamesSplit(c: Lfn, d: Lfn, count: nat, known: map<nat, byte>)
    requires var p := KnownUpTo(known, count * 13, 0); p < count * 13 && Split(c, d, count, known, p)
    ensures CacheName(c) != CacheName(d)
  {
    var n, p := count * 13, KnownUpTo(known, count * 13, 0);
    UpToNulIs(c.text[..n], c.text[..p]);
    assert d.text[..n][p] == 1;
  }

  predicate Differ(recs: seq<Record>, c: Lfn, d: Lfn) {
    LfnOk(c) && LfnOk(d) && Scan(recs, c) != Scan(recs, d)
  }

  /** If some name is not determined, there is an unknown position whose byte shows in the listing. */
  lemma {:induction false} Shows(recs: seq<Record>, count: nat, known: map<nat, byte>) returns (p: nat)
    requires count <= MAX_ENTRIES && !Independent(recs, count, known)
    ensures p < TEXT_SIZE && p !in known
    ensures forall c, d :: Split(c, d, count, known, p) ==> Differ(recs, c, d)
    decreases |recs|
  {
    hide Split, CacheStep, CacheName, Learnt, Completed, LfnText, LfnInvalid, Scan;
    var r := recs[0];
    if LfnText(r) {
      p := Shows(recs[1..], CountOf(count, r), Learnt(known, r));
      LearntKeeps(known, r, p);
      forall c, d | Split(c, d, count, known, p) ensures Differ(recs, c, d) {
        SplitIsOk(c, d, count, known, p);
        StillSplit(c, d, r, count, known, p);
        SameBehind(recs, c, d);
      }
    } else if LfnInvalid(r) {
      p := Shows(recs[1..], 0, known);
      forall c, d | Split(c, d, count, known, p) ensures Differ(recs, c, d) {
        SplitIsOk(c, d, count, known, p);
        StillSplit(c, d, r, count, known, p);
        SameBehind(recs, c, d);
      }
    } else if Determined(count, known) {
      p := Shows(recs[1..], 0, Closed(count, known));
      forall c, d | Split(c, d, count, known, p) ensures Differ(recs, c, d) {
        SplitIsOk(c, d, count, known, p);
        StillSplit(c, d, r, count, known, p);
        SplitSameName(c, d, count, known, p);
        DifferentRest(recs, c, d);
      }
    } else {
      p := KnownUpTo(known, count * 13, 0);
      forall c, d | Split(c, d, count, known, p) ensures Differ(recs, c, d) {
        SplitIsOk(c, d, count, known, p);
        NamesSplit(c, d, count, known);
        DifferentFirst(recs, c, d);
      }
    }
  }

  lemma LearntKeeps(known: map<nat, byte>, r: Record, p: nat)
    requires p !in Learnt(known, r)
    ensures p !in known
  {}

  lemma SplitIsOk(c: Lfn, d: Lfn, count: nat, known: map<nat, byte>, p: nat)
    requires Split(c, d, count, known, p)
    ensures LfnOk(c) && LfnOk(d) && c.count == d.count == count
  {}

  lemma SplitSameName(c: Lfn, d: Lfn, count: nat, known: map<nat, byte>, p: nat)
    requires Split(c, d, count, known, p) && Determined(count, known)
    ensures CacheName(c) == CacheName(d)
  {
    SameName(c, d, count, known);
  }

  /** Equal completions in front do not hide a difference behind. */
  lemma DifferentRest(recs: seq<Record>, c: Lfn, d: Lfn)
    requires recs != [] && LfnOk(c) && LfnOk(d) && c.count == d.count && CacheName(c) == CacheName(d)
    requires Scan(recs[1..], CacheStep(c, recs[0])) != Scan(recs[1..], CacheStep(d, recs[0]))
    ensures Scan(recs, c) != Scan(recs, d)
  {
    hide CacheStep, CacheName;
    var k := |Completed(c, recs[0])|;
    assert Completed(c, recs[0]) == Completed(d, recs[0]);
    assert Scan(recs, c)[k..] == Scan(recs[1..], CacheStep(c, recs[0]));
    assert Scan(recs, d)[k..] == Scan(recs[1..], CacheStep(d, recs[0]));
  }

  /** A record that completes nothing lists nothing. */
  lemma SameBehind(recs: seq<Record>, c: Lfn, d: Lfn)
    requires recs != [] && LfnOk(c) && LfnOk(d) && (LfnText(recs[0]) || LfnInvalid(recs[0]))
    ensures Scan(recs, c) == Scan(recs[1..], CacheStep(c, recs[0]))
    ensures Scan(recs, d) == Scan(recs[1..], CacheStep(d, recs[0]))
  {
    hide CacheStep;
  }

  lemma DifferentFirst(recs: seq<Record>, c: Lfn, d: Lfn)
    requires recs != [] && LfnOk(c) && LfnOk(d) && c.count == d.count > 0 && CacheName(c) != CacheName(d)
    requires !LfnText(recs[0]) && !LfnInvalid(recs[0])
    ensures Scan(recs, c) != Scan(recs, d)
  {
    assert Scan(recs, c)[0].name == CacheName(c) && Scan(recs, d)[0].name == CacheName(d);
  }

  function Holding(p: nat, v: byte): (c: Lfn)
    ensures LfnOk(c)
  {
    Lfn(0, seq(TEXT_SIZE, i => if i == p then v else 0))
  }

  /** Independence is exactly that: the records list the same whatever the cache held before them. */
  lemma IndependentExactly(recs: seq<Record>)
    ensures Independent(recs, 0, map[])
            <==> forall c, d :: LfnOk(c) && LfnOk(d) && c.count == d.count == 0 ==> Scan(recs, c) == Scan(recs, d)
  {
    if Independent(recs, 0, map[]) {
      forall c, d | LfnOk(c) && LfnOk(d) && c.count == d.count == 0 ensures Scan(recs, c) == Scan(recs, d) {
        SameScans(recs, c, d, 0, map[]);
      }
    } else {
      var p := Shows(recs, 0, map[]);
      assert Split(Holding(p, 0), Holding(p, 1), 0, map[], p);
    }
  }

  /** Knowing more keeps what was determined. */
  lemma {:induction false} KnowingMore(recs: seq<Record>, count: nat, known: map<nat, byte>, more: map<nat, byte>)
    requires Independent(recs, count, known) && forall p :: p in known ==> p in more && more[p] == known[p]
    ensures Independent(recs, count, more)
    decreases |recs|
  {
    if recs != [] {
      var r := recs[0];
      if LfnText(r) {
        KnowingMore(recs[1..], CountOf(count, r), Learnt(known, r), Learnt(more, r));
      } else if LfnInvalid(r) {
        KnowingMore(recs[1..], 0, known, more);
      } else {
        DeterminedMore(count, known, more);
        KnowingMore(recs[1..], 0, Closed(count, known), Closed(count, more));
      }
    }
  }

  lemma DeterminedMore(count: nat, known: map<nat, byte>, more: map<nat, byte>)
    requires Determined(count, known) && forall p :: p in known ==> p in more && more[p] == known[p]
    ensures Determined(count, more)
  {
    var n := count * 13;
    var e, f := KnownUpTo(known, n, 0), KnownUpTo(more, n, 0);
    assert e == n || (e in more && more[e] == 0);
  }

  /** Every name that completes is determined by the records since the last short one. */
  predicate Sound(recs: seq<Record>, count: nat, known: map<nat, byte>)
    decreases |recs|
  {
    if recs == [] then true
    else
      var r := recs[0];
      if LfnText(r) then Sound(recs[1..], CountOf(count, r), Learnt(known, r))
      else (LfnInvalid(r) || Determined(count, known)) && Sound(recs[1..], 0, map[])
  }

  lemma {:induction false} SoundIsIndependent(recs: seq<Record>, count: nat, known: map<nat, byte>)
    requires Sound(recs, count, known)
    ensures Independent(recs, count, known)
    decreases |recs|
  {
    if recs != [] {
      var r := recs[0];
      if LfnText(r) {
        SoundIsIndependent(recs[1..], CountOf(count, r), Learnt(known, r));
      } else {
        SoundIsIndependent(recs[1..], 0, map[]);
        KnowingMore(recs[1..], 0, map[], if LfnInvalid(r) then known else Closed(count, known));
      }
    }
  }

  /** Sound is exactly that every part of a directory behind a short record lists the same whatever stands before. */
  lemma {:induction false} SoundExactly(recs: seq<Record>, count: nat, known: map<nat, byte>)
    ensures Sound(recs, count, known)
            <==> && Independent(recs, count, known)
                 && forall i :: 0 < i <= |recs| && !LfnText(recs[i - 1]) ==> Independent(recs[i..], 0, map[])
    decreases |recs|
  {
    if recs != [] {
      var r := recs[0];
      var rest := recs[1..];
      if LfnText(r) {
        SoundExactly(rest, CountOf(count, r), Learnt(known, r));
      } else {
        SoundExactly(rest, 0, map[]);
        if Independent(rest, 0, map[]) {
          KnowingMore(rest, 0, map[], if LfnInvalid(r) then known else Closed(count, known));
        }
        assert rest == recs[1..] && !LfnText(recs[1 - 1]);
      }
      assert forall i :: 0 < i <= |rest| ==> rest[i..] == recs[i + 1..] && rest[i - 1] == recs[i];
      TailsShift(recs);
    }
  }

  /** The parts behind the short records of a list are that of its rest, and the rest itself if it starts with one. */
  lemma TailsShift(recs: seq<Record>)
    requires recs != []
    ensures (forall i :: 0 < i <= |recs| && !LfnText(recs[i - 1]) ==> Independent(recs[i..], 0, map[]))
            <==> && (!LfnText(recs[0]) ==> Independent(recs[1..], 0, map[]))
                 && forall i :: 0 < i <= |recs[1..]| && !LfnText(recs[1..][i - 1]) ==>
                     Independent(recs[1..][i..], 0, map[])
  {
    hide Independent, LfnText;
    var rest := recs[1..];
    assert forall i :: 0 < i <= |rest| ==> rest[i..] == recs[i + 1..] && rest[i - 1] == recs[i];
    if forall i :: 0 < i <= |rest| && !LfnText(rest[i - 1]) ==> Independent(rest[i..], 0, map[]) {
      forall i | 1 < i <= |recs| && !LfnText(recs[i - 1]) ensures Independent(recs[i..], 0, map[]) {
        assert rest[i - 1 - 1] == recs[i - 1] && rest[i - 1..] == recs[i..];
      }
    }
  }

  /** Short records separate: a directory is sound exactly when its parts before and after one are. */
  lemma {:induction false} SoundConcat(a: seq<Record>, b: seq<Record>, count: nat, known: map<nat, byte>)
    requires a != [] && !LfnText(a[|a| - 1])
    ensures Sound(a + b, count, known) <==> Sound(a, count, known) && Sound(b, 0, map[])
    decreases |a|
  {
    var r := a[0];
    assert (a + b)[0] == r && (a + b)[1..] == a[1..] + b;
    if |a| == 1 {
      assert a[1..] + b == b;
    } else if LfnText(r) {
      SoundConcat(a[1..], b, CountOf(count, r), Learnt(known, r));
    } else {
      SoundConcat(a[1..], b, 0, map[]);
    }
  }

  /** Dead records never complete a name, so they cannot complete one wrongly. */
  lemma {:induction false} DeadAreSound(recs: seq<Record>, count: nat, known: map<nat, byte>)
    requires forall i :: 0 <= i < |recs| ==> Dead(recs[i])
    ensures Sound(recs, count, known)
    decreases |recs|
  {
    if recs != [] {
      DeadAreSound(recs[1..], CountOf(count, recs[0]), Learnt(known, recs[0]));
      DeadAreSound(recs[1..], 0, map[]);
    }
  }

  // ---- The new entry ----

  /** The checksum of a short name: each byte is added to the sum so far rotated right by one bit. */
  function Checksum(short: seq<byte>): byte {
    if short == [] then 0
    else
      var c := Checksum(short[..|short| - 1]);
      ((if c % 2 == 1 then 0x80 else 0) + c / 2 + short[|short| - 1]) % 256
  }

  /** fatfs_sfn_create_entry. */
  function SfnRecord(short: seq<byte>, size: nat, start: nat, dir: bool): (r: Record)
    requires |short| == 11
    ensures r[..11] == short && r[11] == if dir then 0x10 else 0x20
  {
    short + [if dir then 0x10 else 0x20, 0, 0, 0, 0, 0x20, 0, 0x20, 0]
    + [start / 0x10000 % 0x100, start / 0x1000000 % 0x100, 0, 0, 0x20, 0]
    + [start % 0x100, start / 0x100 % 0x100]
    + [size % 0x100, size / 0x100 % 0x100, size / 0x10000 % 0x100, size / 0x1000000 % 0x100]
  }

  /** The records of a new entry in directory order. */
  function EntrySet(name: seq<byte>, chk: byte, sfn: Record): (s: seq<Record>)
    ensures |s| == EntriesRequired(name) + 1
  {
    LfnSet(name, EntriesRequired(name), chk) + [sfn]
  }

  /** Names a scan can give back. */
  predicate Storable(name: seq<byte>) {
    && 1 <= |name| <= 260
    && forall i :: 0 <= i < |name| ==> name[i] != 0 && name[i] != 0xFF
  }

  /** Long-name records only feed the cache. */
  lemma {:induction false} LfnSetFolds(name: seq<byte>, k: nat, chk: byte, c: Lfn)
    requires LfnOk(c)
    ensures Scan(LfnSet(name, k, chk), c) == [] && After(LfnSet(name, k, chk), c) == Fold(c, LfnSet(name, k, chk))
    decreases k
  {
    if k > 0 {
      var s := LfnSet(name, k, chk);
      assert s[0] == LfnRecord(name, k - 1, chk) && s[1..] == LfnSet(name, k - 1, chk);
      assert s[0][11] == LfnByte(name, k - 1, chk, 11);
      LfnSetFolds(name, k - 1, chk, CacheEntry(c, s[0]));
    }
  }

  /** A new entry is found under its own long name, unless its short name looks deleted or blank. */
  lemma EntryIsFound(name: seq<byte>, chk: byte, sfn: Record, c: Lfn)
    requires LfnOk(c) && c.count == 0 && Storable(name) && sfn[11] in {0x10, 0x20}
    ensures Scan(EntrySet(name, chk, sfn), c) == if LiveSfn(sfn) then [Found(name, sfn)] else []
    ensures After(EntrySet(name, chk, sfn), c).count == 0
  {
    var n := EntriesRequired(name);
    var lfns := LfnSet(name, n, chk);
    var d := Fold(c, lfns);
    EntriesCover(name);
    assert d.count == n by { FoldFills(name, n, chk, c); }
    LfnSetFolds(name, n, chk, c);
    NameRoundTrip(name, chk, c);
    ScanConcat(lfns, [sfn], c);
    LastRecord(d, sfn);
    hide Scan, After, Fold, LfnSet, CacheName, Completed, CacheStep, UpToNul, LfnInvalid, LfnText;
    assert EntrySet(name, chk, sfn)[n] == sfn;
    ShortRecordClears(EntrySet(name, chk, sfn), c);
    assert After(EntrySet(name, chk, sfn), c).count == 0;
    assert Scan(EntrySet(name, chk, sfn), c) == [] + Scan([sfn], d);
  }

  lemma LastRecord(d: Lfn, sfn: Record)
    requires LfnOk(d) && d.count > 0 && sfn[11] in {0x10, 0x20}
    ensures !LfnText(sfn) && Scan([sfn], d) == if LiveSfn(sfn) then [Found(CacheName(d), sfn)] else []
  {
    hide CacheName, CacheStep;
    assert [sfn][1..] == [] && Scan([], CacheStep(d, sfn)) == [];
    assert Scan([sfn], d) == Completed(d, sfn) + Scan([], CacheStep(d, sfn));
  }

  /** The records of a directory with a new set written over the ones from start on. */
  function Placed(recs: seq<Record>, start: nat, entry: seq<Record>): (r: seq<Record>)
    requires start + |entry| <= |recs|
    ensures |r| == |recs|
  {
    recs[..start] + entry + recs[start + |entry|..]
  }

  /** start .. e is a stretch of dead records that follows a short record or opens the directory, and ends in a short
      record. */
  predicate Reusable(recs: seq<Record>, start: nat, e: nat) {
    && start <= e < |recs| && (forall i :: start <= i <= e ==> Dead(recs[i])) && DeadSfn(recs[e])
    && (start > 0 ==> !LfnText(recs[start - 1]))
  }

  /** Dead records that end in a short one list nothing and leave an empty cache for what follows. */
  lemma DeadThen(run: seq<Record>, post: seq<Record>, c: Lfn)
    requires LfnOk(c) && (forall i :: 0 <= i < |run| ==> Dead(run[i]))
    requires if run == [] then c.count == 0 else DeadSfn(run[|run| - 1])
    ensures After(run, c).count == 0 && Scan(run + post, c) == Scan(post, After(run, c))
  {
    DeadCompleteNothing(run, c);
    ScanConcat(run, post, c);
    if run != [] {
      ShortRecordClears(run, c);
    }
  }

  /** The scan of a directory before and after dead records `run` were replaced by a new set and the rest of the run. */
  lemma ReplacedScan(pre: seq<Record>, run: seq<Record>, rest: seq<Record>, post: seq<Record>,
                     name: seq<byte>, chk: byte, sfn: Record)
    requires Storable(name) && LiveSfn(sfn) && sfn[11] in {0x10, 0x20}
    requires pre == [] || !LfnText(pre[|pre| - 1])
    requires forall i :: 0 <= i < |run| ==> Dead(run[i])
    requires forall i :: 0 <= i < |rest| ==> Dead(rest[i])
    requires run != [] && DeadSfn(run[|run| - 1]) && (rest == [] || DeadSfn(rest[|rest| - 1]))
    requires Independent(post, 0, map[])
    ensures exists after ::
              && Listing(pre + (run + post)) == Listing(pre) + after
              && Listing(pre + (EntrySet(name, chk, sfn) + (rest + post))) == Listing(pre)
                  + ([Found(name, sfn)] + after)
  {
    hide Scan, After, EntrySet, Storable, Independent, LfnText, LiveSfn, Dead, Completed, CacheStep;
    var entry, c := EntrySet(name, chk, sfn), After(pre, Wiped());
    if pre != [] {
      ShortRecordClears(pre, Wiped());
    } else {
      AfterNothing(Wiped());
    }
    EntryIsFound(name, chk, sfn, c);
    ScanConcat(pre, run + post, Wiped());
    ScanConcat(pre, entry + (rest + post), Wiped());
    ScanConcat(entry, rest + post, c);
    DeadThen(run, post, c);
    DeadThen(rest, post, After(entry, c));
    AnyCacheAgrees(After(run, c));
    AnyCacheAgrees(After(rest, After(entry, c)));
    SameScans(post, After(run, c), After(rest, After(entry, c)), 0, map[]);
  }

  lemma AnyCacheAgrees(c: Lfn)
    requires LfnOk(c) && c.count == 0
    ensures Agrees(c, 0, map[])
  {}

  lemma AfterNothing(c: Lfn)
    requires LfnOk(c)
    ensures After([], c) == c
  {}

  /** Writing a new entry over dead records adds it to the listing and leaves everything else in it as it was, in the
      same order. */
  lemma AddingKeepsTheRest(recs: seq<Record>, start: nat, e: nat, name: seq<byte>, chk: byte, sfn: Record)
    requires Reusable(recs, start, e) && Independent(recs[e + 1..], 0, map[])
    requires Storable(name) && LiveSfn(sfn) && sfn[11] in {0x10, 0x20}
    requires start + EntriesRequired(name) + 1 <= e + 1
    ensures exists after ::
              && Listing(recs) == Listing(recs[..start]) + after
              && Listing(Placed(recs, start, EntrySet(name, chk, sfn)))
                 == Listing(recs[..start]) + ([Found(name, sfn)] + after)
  {
    hide *;
    ReusableBounds(recs, start, e);
    var entry := EntrySet(name, chk, sfn);
    var n := |entry|;
    var pre, run, rest, post := recs[..start], recs[start..e + 1], recs[start + n..e + 1], recs[e + 1..];
    ReusableParts(recs, start, e, run, rest);
    ReplacedScan(pre, run, rest, post, name, chk, sfn);
    Pieces(recs, start, e, entry);
  }

  lemma ReusableBounds(recs: seq<Record>, start: nat, e: nat)
    requires Reusable(recs, start, e)
    ensures start <= e < |recs|
  {}

  lemma SoundAfter(recs: seq<Record>, start: nat, e: nat)
    requires Sound(recs, 0, map[]) && Reusable(recs, start, e)
    ensures Sound(recs[e + 1..], 0, map[])
  {
    assert recs == recs[..e + 1] + recs[e + 1..];
    SoundConcat(recs[..e + 1], recs[e + 1..], 0, map[]);
  }

  /** In a sound directory what follows a reusable stretch does not depend on what is written there. */
  lemma TailIsIndependent(recs: seq<Record>, start: nat, e: nat)
    requires Sound(recs, 0, map[]) && Reusable(recs, start, e)
    ensures e < |recs| && Independent(recs[e + 1..], 0, map[])
  {
    SoundAfter(recs, start, e);
    SoundIsIndependent(recs[e + 1..], 0, map[]);
  }

  lemma RecordNumber(name: seq<byte>, k: nat, chk: byte)
    requires 1 <= k <= MAX_ENTRIES
    ensures LfnText(LfnRecord(name, k - 1, chk)) && LfnIndex(LfnRecord(name, k - 1, chk)) == k
  {
    var r := LfnRecord(name, k - 1, chk);
    NumberBack(k - 1, k == EntriesRequired(name));
    assert r[0] == LfnByte(name, k - 1, chk, 0) && r[11] == LfnByte(name, k - 1, chk, 11);
  }

  /** A new entry carries all the parts of its own name. */
  lemma {:induction false} EntryIsSound(name: seq<byte>, k: nat, chk: byte, sfn: Record, n: nat, known: map<nat, byte>)
    requires k <= n <= MAX_ENTRIES && (forall p :: k * 13 <= p < n * 13 ==> p in known)
    ensures Sound(LfnSet(name, k, chk) + [sfn], n, known)
    decreases k
  {
    var s := LfnSet(name, k, chk) + [sfn];
    if k > 0 {
      var r := LfnRecord(name, k - 1, chk);
      RecordNumber(name, k, chk);
      assert s[0] == r && s[1..] == LfnSet(name, k - 1, chk) + [sfn];
      EntryIsSound(name, k - 1, chk, sfn, n, Learnt(known, r));
    } else {
      assert s == [sfn];
    }
  }

  lemma SetIsSound(name: seq<byte>, chk: byte, sfn: Record)
    requires Storable(name)
    ensures Sound(EntrySet(name, chk, sfn), 0, map[]) && EntrySet(name, chk, sfn)[EntriesRequired(name)] == sfn
  {
    var n := EntriesRequired(name);
    EntriesCover(name);
    var r, s := LfnRecord(name, n - 1, chk), EntrySet(name, chk, sfn);
    RecordNumber(name, n, chk);
    assert s[0] == r && s[1..] == LfnSet(name, n - 1, chk) + [sfn];
    EntryIsSound(name, n - 1, chk, sfn, n, Learnt(map[], r));
  }

  lemma SoundReplaced(pre: seq<Record>, run: seq<Record>, rest: seq<Record>, post: seq<Record>, entry: seq<Record>)
    requires Sound(pre + (run + post), 0, map[]) && Sound(post, 0, map[]) && Sound(entry, 0, map[])
             && Sound(rest, 0, map[])
    requires ShortEnd(pre) && ShortEnd(entry) && ShortEnd(rest)
    ensures Sound(pre + (entry + (rest + post)), 0, map[])
  {
    hide Sound, ShortEnd;
    SoundParts(pre, run + post);
    SoundParts(rest, post);
    SoundParts(entry, rest + post);
    SoundParts(pre, entry + (rest + post));
  }

  /** Empty, or ends in a short record. */
  predicate ShortEnd(a: seq<Record>) {
    a == [] || !LfnText(a[|a| - 1])
  }

  lemma SoundParts(a: seq<Record>, b: seq<Record>)
    requires ShortEnd(a)
    ensures Sound(a + b, 0, map[]) <==> Sound(a, 0, map[]) && Sound(b, 0, map[])
  {
    if a == [] {
      assert a + b == b;
    } else {
      SoundConcat(a, b, 0, map[]);
    }
  }

  /** The directory stays sound, so entries can be added again and again. */
  lemma AddingStaysSound(recs: seq<Record>, start: nat, e: nat, name: seq<byte>, chk: byte, sfn: Record)
    requires Sound(recs, 0, map[]) && Reusable(recs, start, e)
    requires Storable(name) && !LfnText(sfn)
    requires start + EntriesRequired(name) + 1 <= e + 1
    ensures Sound(Placed(recs, start, EntrySet(name, chk, sfn)), 0, map[])
  {
    hide Sound, LfnText, Dead, Placed, LfnSet, Reusable, DeadSfn, Storable, EntrySet;
    ReusableBounds(recs, start, e);
    var entry := EntrySet(name, chk, sfn);
    var pre, run, rest, post := recs[..start], recs[start..e + 1], recs[start + |entry|..e + 1], recs[e + 1..];
    ReusableParts(recs, start, e, run, rest);
    SoundAfter(recs, start, e);
    SetIsSound(name, chk, sfn);
    DeadAreSound(rest, 0, map[]);
    Pieces(recs, start, e, entry);
    SoundReplaced(pre, run, rest, post, entry);
  }

  lemma Pieces(recs: seq<Record>, start: nat, e: nat, entry: seq<Record>)
    requires start + |entry| <= e + 1 <= |recs|
    ensures recs == recs[..start] + (recs[start..e + 1] + recs[e + 1..])
    ensures Placed(recs, start, entry) == recs[..start] + (entry + (recs[start + |entry|..e + 1] + recs[e + 1..]))
  {
    assert recs[start + |entry|..] == recs[start + |entry|..e + 1] + recs[e + 1..];
  }

  lemma ReusableParts(recs: seq<Record>, start: nat, e: nat, run: seq<Record>, rest: seq<Record>)
    requires Reusable(recs, start, e) && run == recs[start..e + 1]
    requires |rest| <= |run| && rest == recs[e + 1 - |rest|..e + 1]
    ensures recs[..start] == [] || !LfnText(recs[..start][start - 1])
    ensures forall i :: 0 <= i < |run| ==> Dead(run[i])
    ensures forall i :: 0 <= i < |rest| ==> Dead(rest[i])
    ensures DeadSfn(run[e - start])
    ensures rest != [] ==> DeadSfn(rest[|rest| - 1]) && !LfnText(rest[|rest| - 1])
  {
    hide LfnText, Dead;
    assert !LfnText(recs[e]) by { ShortIfDead(recs[e]); }
  }

  lemma ShortIfDead(r: Record)
    requires DeadSfn(r)
    ensures !LfnText(r)
  {}

  // ---- Why soundness is needed ----

  /** A second record without a first one shows the first part of whatever name came before it. */
  lemma IncompleteName(l2: Record, s2: Record, c: Lfn)
    requires LfnOk(c) && c.count == 0 && LfnText(l2) && LfnIndex(l2) == 2 && !LfnText(s2) && !LfnInvalid(s2)
    ensures !Independent([l2, s2], 0, map[])
    ensures var found := Scan([l2, s2], c);
            |found| == 1 && found[0].record == s2 && (found[0].name == [] <==> c.text[0] == 0)
  {
    var d := CacheEntry(c, l2);
    assert [l2, s2][1..] == [s2] && [s2][1..] == [];
    assert Scan([s2], d) == Completed(d, s2) + Scan([], CacheStep(d, s2));
    assert Scan([l2, s2], c) == Completed(c, l2) + Scan([s2], d);
    assert d.text[..26][0] == c.text[0];
    assert 0 !in Learnt(map[], l2);
    assert Independent([l2, s2], 0, map[]) == Independent([s2], 2, Learnt(map[], l2));
  }

  /** So in a directory that is not sound, adding an entry can change the name of another. */
  lemma IncompleteNameChanges(name: seq<byte>, chk: byte, sfn: Record, l2: Record, s2: Record)
    requires Storable(name) && LiveSfn(sfn) && sfn[11] in {0x10, 0x20}
    requires LfnText(l2) && LfnIndex(l2) == 2 && !LfnText(s2) && !LfnInvalid(s2)
    ensures Scan([l2, s2], After(EntrySet(name, chk, sfn), Wiped())) != Scan([l2, s2], Wiped())
  {
    var c := After(EntrySet(name, chk, sfn), Wiped());
    EntryIsFound(name, chk, sfn, Wiped());
    FirstCharacterStays(name, chk, sfn);
    IncompleteName(l2, s2, c);
    IncompleteName(l2, s2, Wiped());
  }

  lemma FirstCharacterStays(name: seq<byte>, chk: byte, sfn: Record)
    requires Storable(name) && LiveSfn(sfn) && sfn[11] in {0x10, 0x20}
    ensures After(EntrySet(name, chk, sfn), Wiped()).text[0] == name[0]
  {
    var n := EntriesRequired(name);
    var lfns := LfnSet(name, n, chk);
    var d := Fold(Wiped(), lfns);
    EntriesCover(name);
    FoldFills(name, n, chk, Wiped());
    LfnSetFolds(name, n, chk, Wiped());
    ScanConcat(lfns, [sfn], Wiped());
    hide Fold, LfnSet;
    assert After([sfn], d) == CacheStep(d, sfn);
  }

  // ---- Where there is room ----

  /** Start of the stretch of dead records that ends just before i. */
  function RunStart(recs: seq<Record>, i: nat): (s: nat)
    ensures s <= i && (i <= |recs| ==> (forall j :: s <= j < i ==> Dead(recs[j])) && (s > 0 ==> !Dead(recs[s - 1])))
  {
    if i == 0 || i > |recs| || !Dead(recs[i - 1]) then i else RunStart(recs, i - 1)
  }

  /** Record e ends a stretch of dead records with room for need of them. */
  predicate Fits(recs: seq<Record>, e: nat, need: nat) {
    e < |recs| && DeadSfn(recs[e]) && e + 1 - RunStart(recs, e) >= need
  }

  /** One record further. */
  lemma NextRoom(recs: seq<Record>, i: nat, need: nat)
    requires i < |recs|
    ensures RunStart(recs, i + 1) ==
              if LfnText(recs[i]) || recs[i][0] == DELETED || recs[i][0] == BLANK then RunStart(recs, i) else i + 1
    ensures Fits(recs, i, need) <==> !LfnText(recs[i]) && (recs[i][0] == DELETED || recs[i][0] == BLANK)
                                     && i + 1 - RunStart(recs, i) >= need
  {}

  lemma FittingIsReusable(recs: seq<Record>, e: nat, need: nat)
    requires Fits(recs, e, need)
    ensures Reusable(recs, RunStart(recs, e), e)
  {}

  function BlankRecord(): Record {
    seq(RECORD_SIZE, i => 0)
  }

  /** A directory with n blank records added to its end. */
  function Extended(recs: seq<Record>, n: nat): (r: seq<Record>)
    ensures |r| == |recs| + n
    ensures forall i :: 0 <= i < |recs| ==> r[i] == recs[i]
    ensures forall i :: |recs| <= i < |r| ==> r[i] == BlankRecord()
  {
    recs + seq(n, i => BlankRecord())
  }

  /** New blank records make the dead tail of a directory reusable and change nothing that is listed. */
  lemma ExtendedIsReusable(recs: seq<Record>, n: nat)
    requires n > 0
    ensures Reusable(Extended(recs, n), RunStart(recs, |recs|), |recs| + n - 1)
  {
    BlankIsDead();
  }

  lemma BlankIsDead()
    ensures DeadSfn(BlankRecord())
  {}

  predicate HasRoom(recs: seq<Record>, need: nat) {
    exists e :: 0 <= e < |recs| && Fits(recs, e, need)
  }

  /** First fit: the earliest stretch of dead records with enough room, else the dead tail of the directory and
      `more` new records. */
  predicate Place(recs: seq<Record>, base: seq<Record>, at: nat, e: nat, need: nat, more: nat) {
    || (base == recs && Fits(recs, e, need) && at == RunStart(recs, e) && forall d :: 0 <= d < e ==>
        !Fits(recs, d, need))
    || (base == Extended(recs, more) && !HasRoom(recs, need) && at == RunStart(recs, |recs|) && e + 1 == |base|)
  }

  /** Whichever way room was found, what is taken is reusable; it is enough unless the directory had to grow by too
      little. */
  lemma PlaceIsReusable(recs: seq<Record>, base: seq<Record>, at: nat, e: nat, need: nat, more: nat)
    requires Place(recs, base, at, e, need, more) && more > 0
    ensures Reusable(base, at, e) && at <= e < |base|
    ensures |base| == |recs| ==> base == recs && HasRoom(recs, need) && at + need <= e + 1
    ensures |base| != |recs| ==> && base == Extended(recs, more) && !HasRoom(recs, need)
                                 && at == RunStart(recs, |recs|) && e + 1 == |base|
  {
    if base == recs && Fits(recs, e, need) {
      FittingIsReusable(recs, e, need);
    } else {
      ExtendedIsReusable(recs, more);
    }
  }

  /** Long-name records that ran into the end of an extended directory list nothing. */
  lemma CutOffListsNothing(recs: seq<Record>, now: seq<Record>, at: nat)
    requires at == RunStart(recs, |recs|) && at <= |now| && now[..at] == recs[..at]
    requires forall i :: at <= i < |now| ==> LfnText(now[i])
    ensures Listing(now) == Listing(recs)
  {
    TailIsDead(recs, now, at);
  }

  /** Nor do the blank records a directory was extended by. */
  lemma ExtendedListsTheSame(recs: seq<Record>, more: nat)
    ensures Listing(Extended(recs, more)) == Listing(recs)
    ensures Sound(recs, 0, map[]) ==> Sound(Extended(recs, more), 0, map[])
  {
    var at := RunStart(recs, |recs|);
    assert DeadSfn(BlankRecord());
    TailIsDead(recs, Extended(recs, more), at);
  }

  lemma TailIsDead(recs: seq<Record>, recs': seq<Record>, start: nat)
    requires start <= |recs| && start <= |recs'| && recs[..start] == recs'[..start]
    requires forall i :: start <= i < |recs| ==> Dead(recs[i])
    requires forall i :: start <= i < |recs'| ==> Dead(recs'[i])
    ensures Listing(recs) == Listing(recs')
    ensures Sound(recs, 0, map[]) && (start == 0 || !LfnText(recs[start - 1])) ==> Sound(recs', 0, map[])
  {
    hide Dead, LfnText, Scan, Sound;
    var pre, a, b := recs[..start], recs[start..], recs'[start..];
    assert recs == pre + a && recs' == pre + b;
    ScanConcat(pre, a, Wiped());
    ScanConcat(pre, b, Wiped());
    DeadCompleteNothing(a, After(pre, Wiped()));
    DeadCompleteNothing(b, After(pre, Wiped()));
    DeadAreSound(b, 0, map[]);
    if start == 0 {
      assert recs' == b;
    } else if !LfnText(recs[start - 1]) {
      SoundConcat(pre, a, 0, map[]);
      SoundConcat(pre, b, 0, map[]);
    }
  }

  // ---- Looking a name up ----

  /** The first entry of a listing whose name matches. */
  function FirstMatch(l: seq<Found>, m: seq<byte> -> bool): (i: nat)
    ensures i <= |l| && (i < |l| ==> m(l[i].name)) && forall j :: 0 <= j < i ==> !m(l[j].name)
  {
    if l == [] || m(l[0].name) then 0 else 1 + FirstMatch(l[1..], m)
  }

  lemma FirstMatchIs(l: seq<Found>, m: seq<byte> -> bool, i: nat)
    requires i <= |l| && (i < |l| ==> m(l[i].name)) && forall j :: 0 <= j < i ==> !m(l[j].name)
    ensures FirstMatch(l, m) == i
  {
    assert !(FirstMatch(l, m) < i);
  }

  lemma FirstMatchConcat(a: seq<Found>, b: seq<Found>, m: seq<byte> -> bool)
    ensures FirstMatch(a + b, m) == if FirstMatch(a, m) < |a| then FirstMatch(a, m) else |a| + FirstMatch(b, m)
  {
    var i := if FirstMatch(a, m) < |a| then FirstMatch(a, m) else |a| + FirstMatch(b, m);
    FirstMatchIs(a + b, m, i);
  }

  /** Lookups after the addition: the new entry when nothing before it matches, and for any name it does not match,
      what was found before. */
  lemma LookupAfterAdding(before: seq<Found>, after: seq<Found>, added: Found, m: seq<byte> -> bool)
    ensures var was, now := before + after, before + ([added] + after);
            var i, j := FirstMatch(was, m), FirstMatch(now, m);
            && (m(added.name) && i >= |before| ==> j == |before| && now[j] == added)
            && (!m(added.name) || i < |before| ==>
                  if i == |was| then j == |now| else j < |now| && now[j] == was[i])
  {
    FirstMatchConcat(before, after, m);
    FirstMatchConcat(before, [added] + after, m);
    FirstMatchConcat([added], after, m);
    assert FirstMatch([added], m) == if m(added.name) then 0 else 1;
    hide FirstMatch;
  }
}
