/** node.c: the directory entry set of a file, as it is checked when read and as it is written. */
module EntrySets {
  import opened Octets
  import opened TimeCodec
  import Utf

  const NONE: int := -1
  const FILE: int := 0x85
  const FILE_INFO: int := 0xC0
  const FILE_NAME: int := 0xC1
  const FILE_TAIL: int := 0xE0
  const ATTRIB_DIR: nat := 0x10
  const EIO: int := 5

  // ---- check_entries ----

  predicate Follows(previous: int, current: int) {
    if previous == NONE then current == FILE
    else if previous == FILE then current == FILE_INFO
    else if previous == FILE_INFO then current == FILE_NAME
    else if previous == FILE_NAME then current == FILE_NAME || current == NONE || current >= FILE_TAIL
    else previous >= FILE_TAIL && (current >= FILE_TAIL || current == NONE)
  }

  /** The type of entry i; NONE before the first and after the last. */
  function TypeAt(s: seq<byte>, i: int): int {
    if 0 <= i && i * 32 < |s| then s[i * 32] else NONE
  }

  predicate InOrder(s: seq<byte>) {
    forall i :: 0 <= i <= |s| / 32 ==> Follows(TypeAt(s, i - 1), TypeAt(s, i))
  }

  /** The entry types follow one another as they may. */
  method CheckEntries(entries: array<byte>, n: nat) returns (ok: bool)
    requires entries.Length == n * 32
    ensures ok == InOrder(entries[..])
  {
    hide Follows;
    var previous := NONE;
    for i := 0 to n + 1
      invariant previous == TypeAt(entries[..], i - 1)
      invariant forall j :: 0 <= j < i ==> Follows(TypeAt(entries[..], j - 1), TypeAt(entries[..], j))
    {
      var current := if i < n then entries[i * 32] else NONE;
      if !Follows(previous, current) {
        assert !Follows(TypeAt(entries[..], i - 1), TypeAt(entries[..], i));
        return false;
      }
      previous := current;
    }
    ok := true;
  }

  // ---- utils.c: the checksum ----

  /** add_checksum_byte: the sum rotated right by one bit, plus the byte. */
  function AddByte(sum: nat, b: byte): (r: nat)
    ensures r < 0x10000
  {
    (sum % 2 * 0x8000 + sum / 2 + b) % 0x10000
  }

  /** The sum of the first i bytes, which passes over bytes 2 and 3: the checksum field itself. */
  function Sum(s: seq<byte>, i: nat): (c: nat)
    requires i <= |s|
    ensures c < 0x10000
  {
    if i == 0 then 0
    else if i - 1 == 2 || i - 1 == 3 then Sum(s, i - 1)
    else AddByte(Sum(s, i - 1), s[i - 1])
  }

  function Checksum(s: seq<byte>): (c: unit) {
    Sum(s, |s|)
  }

  /** Storing the checksum in its field does not change it. */
  lemma {:induction false} SumSkipsItself(s: seq<byte>, t: seq<byte>, i: nat)
    requires |s| == |t| && i <= |s| && Elsewhere(s, t, 2, 2)
    ensures Sum(s, i) == Sum(t, i)
  {
    if i > 0 {
      SumSkipsItself(s, t, i - 1);
    }
  }

  /** exfat_start_checksum, then exfat_add_checksum over the rest. */
  method CalcChecksum(entries: array<byte>, n: nat) returns (sum: unit)
    requires entries.Length == n * 32 && n > 0
    ensures sum == Checksum(entries[..])
  {
    sum := 0;
    for i := 0 to 32
      invariant sum == Sum(entries[..], i)
    {
      if i != 2 && i != 3 {
        sum := AddByte(sum, entries[i]);
      }
    }
    for k := 1 to n
      invariant sum == Sum(entries[..], k * 32)
    {
      for i := 0 to 32
        invariant sum == Sum(entries[..], k * 32 + i)
      {
        sum := AddByte(sum, entries[k * 32 + i]);
      }
    }
  }

  // ---- Fields ----

  function Continuations(s: seq<byte>): nat requires |s| >= 64 { s[1] }
  function StoredChecksum(s: seq<byte>): nat requires |s| >= 64 { Le16(s, 2) }
  function Attrib(s: seq<byte>): nat requires |s| >= 64 { Le16(s, 4) }
  function ModifyStamp(s: seq<byte>): Stamp requires |s| >= 64 { Stamp(Le16(s, 14), Le16(s, 12), s[21]) }
  function AccessStamp(s: seq<byte>): Stamp requires |s| >= 64 { Stamp(Le16(s, 18), Le16(s, 16), 0) }
  function CreateStamp(s: seq<byte>): Stamp requires |s| >= 64 { Stamp(Le16(s, 10), Le16(s, 8), s[20]) }
  function NameHash(s: seq<byte>): nat requires |s| >= 64 { Le16(s, 36) }
  function Flags(s: seq<byte>): nat requires |s| >= 64 { s[33] }
  function NameLength(s: seq<byte>): nat requires |s| >= 64 { s[35] }
  function ValidSize(s: seq<byte>): nat requires |s| >= 64 { Le64(s, 40) }
  function StartCluster(s: seq<byte>): nat requires |s| >= 64 { Le32(s, 52) }
  function Size(s: seq<byte>): nat requires |s| >= 64 { Le64(s, 56) }

  /** Where character j of the name is. */
  function NamePos(j: nat): nat {
    64 + j / 15 * 32 + 2 + j % 15 * 2
  }

  function NameEntries(length: nat): nat {
    (length + 14) / 15
  }

  /** The characters of k name entries. */
  function NameUnits(s: seq<byte>, k: nat): (u: seq<unit>)
    requires 64 + k * 32 <= |s|
    ensures |u| == k * 15
  {
    seq(k * 15, j requires 0 <= j < k * 15 => NameUnit(s, k, j))
  }

  function NameUnit(s: seq<byte>, k: nat, j: nat): unit
    requires 64 + k * 32 <= |s| && j < k * 15
  {
    Le16(s, NamePos(j))
  }

  // ---- parse_file_entries ----

  /** The volume's cluster count and cluster size, and the time zone. */
  datatype Env = Env(clusterCount: nat, clusterSize: nat, tz: int)

  datatype Info = Info(attrib: nat, continuations: nat, mtime: int, atime: int, size: nat, startCluster: nat,
                       isContiguous: bool, name: seq<unit>)

  predicate IsDir(attrib: nat) {
    attrib / ATTRIB_DIR % 2 == 1
  }

  /** What check_node demands of size, start cluster and flag. */
  predicate Placed(env: Env, attrib: nat, size: nat, start: nat, contiguous: bool)
    requires env.clusterSize > 0
  {
    && (size == 0 ==> start == 0 && !contiguous)
    && (size > 0 ==> 2 <= start < 2 + env.clusterCount)
    && size <= env.clusterCount * env.clusterSize
    && (IsDir(attrib) ==> size % env.clusterSize == 0)
  }

  /** What a set says of its file, as it is stored. */
  datatype Fields = Fields(attrib: nat, continuations: nat, modified: Stamp, accessed: Stamp, flags: nat,
                           validSize: nat, size: nat, startCluster: nat, name: seq<unit>)

  function FieldsOf(s: seq<byte>): Fields
    requires |s| >= 64 && |s| >= 64 + NameEntries(NameLength(s)) * 32
  {
    Fields(Attrib(s), Continuations(s), ModifyStamp(s), AccessStamp(s), Flags(s), ValidSize(s), Size(s),
        StartCluster(s),
           Utf.Name(NameUnits(s, NameEntries(NameLength(s)))))
  }

  /** The node it becomes. */
  function Decoded(f: Fields, env: Env): Info {
    Info(f.attrib, f.continuations, ToUnix(f.modified, env.tz), ToUnix(f.accessed, env.tz), f.size, f.startCluster,
         f.flags / 2 % 2 == 1, f.name)
  }

  function InfoOf(s: seq<byte>, env: Env): Info
    requires |s| >= 64 && |s| >= 64 + NameEntries(NameLength(s)) * 32
  {
    Decoded(FieldsOf(s), env)
  }

  /** A set with the right entry types and enough of them. */
  predicate Shaped(s: seq<byte>) {
    && |s| >= 64 && |s| == 32 * (1 + Continuations(s)) && InOrder(s)
    && Continuations(s) >= 2 && Continuations(s) >= 1 + NameEntries(NameLength(s))
  }

  /** One whose checksum is right as well. */
  predicate Sealed(s: seq<byte>) {
    Shaped(s) && Checksum(s) == StoredChecksum(s)
  }

  predicate Sane(f: Fields, env: Env)
    requires env.clusterSize > 0
  {
    f.flags < 4 && f.validSize <= f.size && Placed(env, f.attrib, f.size, f.startCluster, f.flags / 2 % 2 == 1)
  }

  /** parse_file_entries accepts the set. */
  predicate Accepted(s: seq<byte>, env: Env)
    requires env.clusterSize > 0
  {
    Sealed(s) && Sane(FieldsOf(s), env)
  }

  /** n == 1 + the continuations field, as the directory reader has it. */
  method ParseFileEntries(entries: array<byte>, n: nat, env: Env) returns (rc: int, node: Info)
    requires env.clusterSize > 0 && entries.Length == n * 32 && n > 0 && n == 1 + entries[1] as int
    ensures if Accepted(entries[..], env) then rc == 0 && node == InfoOf(entries[..], env) else rc == -EIO
  {
    hide InOrder, Sum, Utf.Name, ToUnix;
    node := Info(0, 0, 0, 0, 0, 0, false, []);
    var ok := CheckEntries(entries, n);
    if !ok {
      return -EIO, node;
    }
    ThreeEntries(entries[..], n);
    if entries[1] < 2 || entries[33] >= 4 {
      return -EIO, node;
    }
    var mandatory := 2 + NameEntries(entries[35]);
    if entries[1] < mandatory - 1 {
      return -EIO, node;
    }
    node := InfoOf(entries[..], env);
    var sum := CalcChecksum(entries, n);
    rc := CheckNode(env, node, sum, StoredChecksum(entries[..]), ValidSize(entries[..]));
  }

  /** Sets in order have at least three entries. */
  lemma ThreeEntries(s: seq<byte>, n: nat)
    requires |s| == n * 32 && n > 0 && InOrder(s)
    ensures n >= 3
  {
    OrderAt(s, 0);
    OrderAt(s, 1);
    OrderAt(s, 2);
  }

  lemma OrderAt(s: seq<byte>, i: nat)
    requires InOrder(s) && i <= |s| / 32
    ensures Follows(TypeAt(s, i - 1), TypeAt(s, i))
  {}

  /** check_node: `actual` is the checksum of the entries, `stored` the one among them. */
  method CheckNode(env: Env, node: Info, actual: nat, stored: nat, validSize: nat) returns (rc: int)
    requires env.clusterSize > 0
    ensures rc == if && actual == stored && validSize <= node.size
                     && Placed(env, node.attrib, node.size, node.startCluster, node.isContiguous) then 0 else -EIO
  {
    var ret := true;
    if actual != stored {
      ret := false;
    }
    if validSize > node.size {
      ret := false;
    }
    if node.size == 0 && node.startCluster != 0 {
      ret := false;
    }
    if node.size > 0 && (node.startCluster < 2 || node.startCluster - 2 >= env.clusterCount) {
      ret := false;
    }
    if node.size > env.clusterCount * env.clusterSize {
      ret := false;
    }
    if node.size == 0 && node.isContiguous {
      ret := false;
    }
    if IsDir(node.attrib) && node.size % env.clusterSize != 0 {
      ret := false;
    }
    rc := if ret then 0 else -EIO;
  }

  // ---- Writing a set ----

  /** One FILE, one FILE_INFO and at least one FILE_NAME entry, in that order, are acceptable types. */
  lemma NamesInOrder(s: seq<byte>, names: nat)
    requires |s| == 64 + names * 32
    requires s[0] == FILE && s[32] == FILE_INFO && forall i :: 2 <= i < 2 + names ==> TypeAt(s, i) == FILE_NAME
    ensures InOrder(s) <==> names > 0
  {
    if names == 0 {
      assert !Follows(TypeAt(s, 2 - 1), TypeAt(s, 2));
    } else {
      forall i | 0 <= i <= |s| / 32 ensures Follows(TypeAt(s, i - 1), TypeAt(s, i)) {
        assert i > 2 ==> TypeAt(s, i - 1) == FILE_NAME;
      }
    }
  }

  /** The name written into enough name entries reads back. */
  lemma NameReadsBack(s: seq<byte>, k: nat, name: seq<unit>)
    requires 64 + k * 32 <= |s| && k == NameEntries(|Utf.Name(name)|) && k * 15 <= |name|
    requires forall j :: 0 <= j < k * 15 ==> NameUnit(s, k, j) == name[j]
    ensures Utf.Name(NameUnits(s, k)) == Utf.Name(name)
  {
    Utf.NameIs(NameUnits(s, k), Utf.Name(name));
  }

  /** The name entries of a set: type, a zero byte, and 15 units each. */
  method WriteNames(entries: array<byte>, name: seq<unit>, k: nat)
    requires entries.Length == 64 + k * 32 && k * 15 <= |name|
    modifies entries
    ensures forall i :: 0 <= i < 64 ==> entries[i] == old(entries[i])
    ensures forall i :: 2 <= i < 2 + k ==> TypeAt(entries[..], i) == FILE_NAME
    ensures forall j :: 0 <= j < k * 15 ==> NameUnit(entries[..], k, j) == name[j]
  {
    for i := 0 to k
      invariant forall p :: 0 <= p < 64 ==> entries[p] == old(entries[p])
      invariant forall e :: 2 <= e < 2 + i ==> TypeAt(entries[..], e) == FILE_NAME
      invariant forall j :: 0 <= j < i * 15 ==> NameUnit(entries[..], k, j) == name[j]
    {
      ghost var was := entries[..];
      WriteName(entries, name, k, i);
      forall e | 2 <= e < 2 + i ensures TypeAt(entries[..], e) == FILE_NAME {
        assert TypeAt(was, e) == FILE_NAME;
        assert entries[..][e * 32] == was[e * 32];
      }
    }
  }

  /** One name entry. */
  method WriteName(entries: array<byte>, name: seq<unit>, k: nat, i: nat)
    requires entries.Length == 64 + k * 32 && k * 15 <= |name| && i < k
    modifies entries
    ensures Elsewhere(old(entries[..]), entries[..], 64 + i * 32, 32)
    ensures TypeAt(entries[..], 2 + i) == FILE_NAME
    ensures forall j :: i * 15 <= j < i * 15 + 15 ==> NameUnit(entries[..], k, j) == name[j]
  {
    entries[64 + i * 32] := FILE_NAME;
    entries[64 + i * 32 + 1] := 0;
    for j := 0 to 15
      invariant Elsewhere(old(entries[..]), entries[..], 64 + i * 32, 32)
      invariant TypeAt(entries[..], 2 + i) == FILE_NAME
      invariant forall m :: i * 15 <= m < i * 15 + j ==> NameUnit(entries[..], k, m) == name[m]
    {
      ghost var was := entries[..];
      Put16(entries, 64 + i * 32 + 2 + j * 2, name[i * 15 + j]);
      assert NamePos(i * 15 + j) == 64 + i * 32 + 2 + j * 2;
      forall m | i * 15 <= m < i * 15 + j ensures NameUnit(entries[..], k, m) == name[m] {
        SameField(was, entries[..], NamePos(m), 2);
      }
    }
  }

  /** The checksum is stored last; it covers everything else. */
  method Seal(entries: array<byte>, n: nat)
    requires entries.Length == n * 32 && n >= 2
    modifies entries
    ensures Elsewhere(old(entries[..]), entries[..], 2, 2) && StoredChecksum(entries[..]) == Checksum(entries[..])
  {
    ghost var was := entries[..];
    var sum := CalcChecksum(entries, n);
    Put16(entries, 2, sum);
    SumSkipsItself(was, entries[..], n * 32);
  }

  /** The first entry of a new file, but for its checksum. */
  ghost predicate NewMeta1(s: seq<byte>, k: nat, attrib: nat, t: Stamp) {
    && |s| >= 64 && s[0] == FILE && Continuations(s) == 1 + k && Attrib(s) == attrib
    && CreateStamp(s) == ModifyStamp(s) == t && AccessStamp(s) == t.(centisec := 0)
  }

  /** The second entry of a new, empty file. */
  ghost predicate NewMeta2(s: seq<byte>, length: nat, hash: nat) {
    && |s| >= 64 && s[32] == FILE_INFO && Flags(s) == 1 && NameLength(s) == length && NameHash(s) == hash
    && ValidSize(s) == Size(s) == StartCluster(s) == 0
  }

  /** A new file was changed and read when it was made. */
  method CopyTimes(entries: array<byte>)
    requires entries.Length >= 64
    modifies entries
    ensures forall i :: 0 <= i < entries.Length && !(12 <= i < 20 || i == 21) ==> entries[i] == old(entries[i])
    ensures entries[18] == entries[14] == entries[10] && entries[19] == entries[15] == entries[11]
    ensures entries[16] == entries[12] == entries[8] && entries[17] == entries[13] == entries[9]
    ensures entries[21] == entries[20]
  {
    entries[18], entries[19] := entries[10], entries[11];
    entries[14], entries[15] := entries[10], entries[11];
    entries[16], entries[17] := entries[8], entries[9];
    entries[12], entries[13] := entries[8], entries[9];
    entries[21] := entries[20];
  }

  /** The first entry of commit_entry. */
  method WriteMeta1(entries: array<byte>, k: byte, attrib: unit, t: Stamp)
    requires entries.Length >= 64 && k < 255
    requires t.date < 0x10000 && t.time < 0x10000 && t.centisec < 256
    modifies entries
    ensures NewMeta1(entries[..], k, attrib, t)
    ensures forall i :: 32 <= i < entries.Length ==> entries[i] == old(entries[i])
  {
    entries[0], entries[1] := FILE, 1 + k;
    entries[4], entries[5] := attrib % 0x100, attrib / 0x100;
    entries[8], entries[9] := t.time % 0x100, t.time / 0x100;
    entries[10], entries[11] := t.date % 0x100, t.date / 0x100;
    entries[20] := t.centisec;
    CopyTimes(entries);
    Meta1Reads(entries[..], k, attrib, t);
  }

  /** Bytes p and p + 1 of s hold v. */
  predicate Holds(s: seq<byte>, p: nat, v: nat)
    requires p + 2 <= |s|
  {
    s[p] == v % 0x100 && s[p + 1] == v / 0x100
  }

  lemma HeldIsRead(s: seq<byte>, p: nat, v: nat)
    requires p + 2 <= |s| && Holds(s, p, v)
    ensures Le16(s, p) == v
  {
    Split(v);
  }

  lemma Meta1Reads(s: seq<byte>, k: nat, attrib: nat, t: Stamp)
    requires |s| >= 64 && s[0] == FILE && s[1] as int == 1 + k && s[20] as int == s[21] as int == t.centisec
    requires Holds(s, 4, attrib) && Holds(s, 8, t.time) && Holds(s, 12, t.time) && Holds(s, 16, t.time)
    requires Holds(s, 10, t.date) && Holds(s, 14, t.date) && Holds(s, 18, t.date)
    ensures NewMeta1(s, k, attrib, t)
  {
    hide Holds, Le16;
    HeldIsRead(s, 4, attrib);
    HeldIsRead(s, 8, t.time);
    HeldIsRead(s, 12, t.time);
    HeldIsRead(s, 16, t.time);
    HeldIsRead(s, 10, t.date);
    HeldIsRead(s, 14, t.date);
    HeldIsRead(s, 18, t.date);
  }

  lemma Split(v: nat)
    ensures Two(v % 0x100, v / 0x100) == v
  {}

  /** The second entry of commit_entry. */
  method WriteMeta2(entries: array<byte>, hash: unit, length: byte)
    requires entries.Length >= 64 && forall i :: 32 <= i < 64 ==> entries[i] == 0
    modifies entries
    ensures NewMeta2(entries[..], length, hash)
    ensures forall i :: 0 <= i < 32 ==> entries[i] == old(entries[i])
  {
    entries[32], entries[33], entries[35] := FILE_INFO, 1, length;
    entries[36], entries[37] := hash % 0x100, hash / 0x100;
    HeldIsRead(entries[..], 36, hash);
    hide Words, Le16;
    ZeroFields(entries[..]);
  }

  lemma {:induction false} ZeroWords(s: seq<byte>, p: nat, n: nat)
    requires p + 2 * n <= |s| && forall i :: p <= i < p + 2 * n ==> s[i] == 0
    ensures Words(s, p, n) == 0
    decreases n
  {
    if n > 0 {
      ZeroWords(s, p + 2, n - 1);
    }
  }

  lemma ZeroFields(s: seq<byte>)
    requires |s| >= 64 && forall i :: 38 <= i < 64 ==> s[i] == 0
    ensures ValidSize(s) == Size(s) == StartCluster(s) == 0
  {
    ZeroWords(s, 40, 4);
    ZeroWords(s, 56, 4);
    ZeroWords(s, 52, 2);
  }

  lemma Meta1Kept(s: seq<byte>, u: seq<byte>, k: nat, attrib: nat, t: Stamp)
    requires NewMeta1(s, k, attrib, t) && |u| >= 64 && forall i :: 0 <= i < 32 && i != 2 && i != 3 ==> u[i] == s[i]
    ensures NewMeta1(u, k, attrib, t)
  {}

  lemma Meta2Kept(s: seq<byte>, u: seq<byte>, length: nat, hash: nat)
    requires NewMeta2(s, length, hash) && |u| >= 64 && forall i :: 32 <= i < 64 ==> u[i] == s[i]
    ensures NewMeta2(u, length, hash)
  {
    hide Le32, Le64;
    SameField(s, u, 36, 2);
    SameField(s, u, 40, 8);
    SameField(s, u, 52, 4);
    SameField(s, u, 56, 8);
  }

  /** A set of k name entries, types in order only if there are any, is whole exactly then. */
  lemma SealedIfNamed(s: seq<byte>, k: nat)
    requires |s| == 64 + k * 32 && Continuations(s) == 1 + k && k == NameEntries(NameLength(s))
    requires StoredChecksum(s) == Checksum(s) && (InOrder(s) <==> k > 0)
    ensures Sealed(s) <==> NameLength(s) > 0
  {}

  /** A new file's set describes it. */
  lemma FieldsOfNew(s: seq<byte>, k: nat, attrib: nat, t: Stamp, name: seq<unit>, hash: nat)
    requires |s| == 64 + k * 32 && k == NameEntries(|name|)
    requires NewMeta1(s, k, attrib, t) && NewMeta2(s, |name|, hash) && Utf.Name(NameUnits(s, k)) == name
    ensures FieldsOf(s) == Fields(attrib, 1 + k, t, t.(centisec := 0), 1, 0, 0, 0, name)
    ensures NameHash(s) == hash && CreateStamp(s) == t && s[0] == FILE && s[32] == FILE_INFO
    ensures Continuations(s) == 1 + k && NameLength(s) == |name|
  {}

  lemma EmptyIsSane(f: Fields, env: Env)
    requires env.clusterSize > 0 && f.flags == 1 && f.validSize == f.size == f.startCluster == 0
    ensures Sane(f, env)
  {}

  /** commit_entry: the set of a new, empty file or directory. */
  method CommitEntry(name: seq<unit>, attrib: unit, hash: unit, now: int, env: Env) returns (entries: array<byte>)
    requires env.clusterSize > 0 && |name| == 256 && name[255] == 0
    requires now < EPOCH_DIFF_SEC + env.tz + 0x10000 * 365 * 86400
    ensures fresh(entries) && entries.Length == 64 + NameEntries(|Utf.Name(name)|) * 32
    ensures Accepted(entries[..], env) <==> Utf.Name(name) != []
    ensures NameHash(entries[..]) == hash && CreateStamp(entries[..]) == FromUnix(now, env.tz)
    ensures Accepted(entries[..], env) ==>
              var t := FromUnix(now, env.tz);
              InfoOf(entries[..], env) == Info(attrib, 1 + NameEntries(|Utf.Name(name)|), ToUnix(t, env.tz),
                                               ToUnix(t.(centisec := 0), env.tz), 0, 0, false, Utf.Name(name))
  {
    hide FromUnix, ToUnix, Sum, InOrder, FieldsOf, Sealed, Sane, NewMeta1, NewMeta2, NameHash, CreateStamp, Utf.Name,
         NameUnits;
    var length := |Utf.Name(name)|;
    ShortName(name);
    var k := NameEntries(length);
    entries := new byte[64 + k * 32](i => 0);
    var t := UnixToExfat(now, env.tz);
    StampFits(now, env.tz);
    WriteMeta1(entries, k, attrib, t);
    ghost var s0 := entries[..];
    WriteMeta2(entries, hash, length);
    ghost var s1 := entries[..];
    Meta1Kept(s0, s1, k, attrib, t);
    WriteNames(entries, name, k);
    ghost var s2 := entries[..];
    Meta1Kept(s1, s2, k, attrib, t);
    Meta2Kept(s1, s2, length, hash);
    Seal(entries, 2 + k);
    Meta1Kept(s2, entries[..], k, attrib, t);
    Meta2Kept(s2, entries[..], length, hash);
    NamesKept(s2, entries[..], k, name);
    ghost var s := entries[..];
    NameReadsBack(s, k, name);
    FieldsOfNew(s, k, attrib, t, Utf.Name(name), hash);
    NamesInOrder(s, k);
    SealedIfNamed(s, k);
    EmptyIsSane(Fields(attrib, 1 + k, t, t.(centisec := 0), 1, 0, 0, 0, Utf.Name(name)), env);
  }

  lemma ShortName(name: seq<unit>)
    requires |name| == 256 && name[255] == 0
    ensures |Utf.Name(name)| <= 255 && NameEntries(|Utf.Name(name)|) <= 17
  {}

  /** Name entries do not depend on the first two entries. */
  lemma NamesKept(s: seq<byte>, u: seq<byte>, k: nat, name: seq<unit>)
    requires |s| == |u| == 64 + k * 32 && k * 15 <= |name| && forall i :: 64 <= i < |s| ==> u[i] == s[i]
    requires forall i :: 2 <= i < 2 + k ==> TypeAt(s, i) == FILE_NAME
    requires forall j :: 0 <= j < k * 15 ==> NameUnit(s, k, j) == name[j]
    ensures forall i :: 2 <= i < 2 + k ==> TypeAt(u, i) == FILE_NAME
    ensures forall j :: 0 <= j < k * 15 ==> NameUnit(u, k, j) == name[j]
  {
    forall i | 2 <= i < 2 + k ensures TypeAt(u, i) == FILE_NAME {
      assert TypeAt(s, i) == FILE_NAME;
    }
    forall j | 0 <= j < k * 15 ensures NameUnit(u, k, j) == name[j] {
      assert NameUnit(s, k, j) == name[j];
      SameField(s, u, NamePos(j), 2);
    }
  }

  // ---- exfat_flush_node ----

  /** The entry types do not change. */
  lemma OrderKept(s: seq<byte>, u: seq<byte>)
    requires |s| == |u| && forall i :: 0 <= i < |s| && i % 32 == 0 ==> u[i] == s[i]
    ensures InOrder(s) <==> InOrder(u)
  {
    hide Follows;
    forall i: int ensures TypeAt(s, i) == TypeAt(u, i) {
      if 0 <= i && i * 32 < |s| {
        assert i * 32 % 32 == 0;
      }
    }
  }

  lemma UnitsKept(s: seq<byte>, u: seq<byte>, k: nat)
    requires 64 + k * 32 <= |s| == |u| && forall i :: 64 <= i < |s| ==> u[i] == s[i]
    ensures NameUnits(s, k) == NameUnits(u, k)
  {
    forall j | 0 <= j < k * 15 ensures NameUnit(s, k, j) == NameUnit(u, k, j) {
      SameField(s, u, NamePos(j), 2);
    }
  }

  /** What a flush makes of the fields that describe the node. */
  ghost predicate Flushed(s: seq<byte>, attrib: nat, mtime: Stamp, atime: Stamp, size: nat, start: nat, flags: nat) {
    && |s| >= 64 && Attrib(s) == attrib && ModifyStamp(s) == mtime && AccessStamp(s) == atime.(centisec := 0)
    && Flags(s) == flags && ValidSize(s) == size == Size(s) && StartCluster(s) == start
  }

  /** The bytes a flush may rewrite: checksum and attributes, times but for the creation's, flags, sizes and start. */
  predicate Rewritten(i: int) {
    2 <= i < 6 || 12 <= i < 20 || i in {21, 33} || 40 <= i < 48 || 52 <= i < 64
  }

  /** All the others are left alone. */
  ghost predicate SameRest(s: seq<byte>, u: seq<byte>) {
    |s| == |u| && |s| >= 64 && forall i :: 0 <= i < |s| && !Rewritten(i) ==> u[i] == s[i]
  }

  /** Types, continuations, name length and name are among them. */
  lemma RestParts(s: seq<byte>, u: seq<byte>)
    requires SameRest(s, u)
    ensures |s| == |u| && |s| >= 64 && u[1] == s[1] && u[35] == s[35]
    ensures forall i :: 0 <= i < |s| && i % 32 == 0 ==> u[i] == s[i]
    ensures forall i :: 64 <= i < |s| ==> u[i] == s[i]
  {}

  lemma FieldsFlushed(s: seq<byte>, u: seq<byte>, attrib: nat, mtime: Stamp, atime: Stamp, size: nat, start: nat,
                      flags: nat)
    requires Flushed(u, attrib, mtime, atime, size, start, flags) && |s| == |u| && u[1] == s[1] && u[35] == s[35]
    requires |s| >= 64 + NameEntries(NameLength(s)) * 32
    requires NameUnits(s, NameEntries(NameLength(s))) == NameUnits(u, NameEntries(NameLength(s)))
    ensures FieldsOf(u) == Fields(attrib, Continuations(s), mtime, atime.(centisec := 0), flags, size, size, start,
                                  Utf.Name(NameUnits(s, NameEntries(NameLength(s)))))
  {}

  /** Attributes and times of exfat_flush_node. */
  method WriteTimes(entries: array<byte>, attrib: unit, mtime: Stamp, atime: Stamp)
    requires entries.Length >= 64
    requires mtime.date < 0x10000 && mtime.time < 0x10000 && mtime.centisec < 256 && atime.date < 0x10000
             && atime.time < 0x10000
    modifies entries
    ensures Attrib(entries[..]) == attrib && ModifyStamp(entries[..]) == mtime
    ensures AccessStamp(entries[..]) == atime.(centisec := 0)
    ensures forall i :: 0 <= i < entries.Length && !(4 <= i < 6 || 12 <= i < 20 || i == 21) ==>
            entries[i] == old(entries[i])
  {
    entries[4], entries[5] := attrib % 0x100, attrib / 0x100;
    entries[14], entries[15] := mtime.date % 0x100, mtime.date / 0x100;
    entries[12], entries[13] := mtime.time % 0x100, mtime.time / 0x100;
    entries[21] := mtime.centisec;
    entries[18], entries[19] := atime.date % 0x100, atime.date / 0x100;
    entries[16], entries[17] := atime.time % 0x100, atime.time / 0x100;
    TimesRead(entries[..], attrib, mtime, atime);
  }

  lemma TimesRead(s: seq<byte>, attrib: nat, mtime: Stamp, atime: Stamp)
    requires |s| >= 64 && Holds(s, 4, attrib) && s[21] as int == mtime.centisec
    requires Holds(s, 12, mtime.time) && Holds(s, 14, mtime.date) && Holds(s, 16, atime.time)
             && Holds(s, 18, atime.date)
    ensures Attrib(s) == attrib && ModifyStamp(s) == mtime && AccessStamp(s) == atime.(centisec := 0)
  {
    hide Holds, Le16;
    HeldIsRead(s, 4, attrib);
    HeldIsRead(s, 12, mtime.time);
    HeldIsRead(s, 14, mtime.date);
    HeldIsRead(s, 16, atime.time);
    HeldIsRead(s, 18, atime.date);
  }

  /** Sizes, start cluster and flags of exfat_flush_node. */
  method WriteSizes(entries: array<byte>, size: nat, start: nat, flags: byte)
    requires entries.Length >= 64 && size < 0x1_0000_0000_0000_0000 && start < 0x1_0000_0000
    modifies entries
    ensures ValidSize(entries[..]) == size == Size(entries[..]) && StartCluster(entries[..]) == start
    ensures Flags(entries[..]) == flags
    ensures forall i :: 0 <= i < entries.Length && !(i == 33 || 40 <= i < 48 || 52 <= i < 64) ==>
            entries[i] == old(entries[i])
  {
    hide Le32, Le64;
    Put64(entries, 40, size);
    ghost var s1 := entries[..];
    Put64(entries, 56, size);
    ghost var s2 := entries[..];
    SameField(s1, s2, 40, 8);
    Put32(entries, 52, start);
    ghost var s3 := entries[..];
    SameField(s2, s3, 40, 8);
    SameField(s2, s3, 56, 8);
    entries[33] := flags;
    SameField(s3, entries[..], 40, 8);
    SameField(s3, entries[..], 52, 4);
    SameField(s3, entries[..], 56, 8);
  }

  lemma FlushKept(s: seq<byte>, u: seq<byte>, attrib: nat, mtime: Stamp, atime: Stamp, size: nat, start: nat,
      flags: nat)
    requires Flushed(s, attrib, mtime, atime, size, start, flags) && |s| == |u| && Elsewhere(s, u, 2, 2)
    ensures Flushed(u, attrib, mtime, atime, size, start, flags)
  {
    hide Le16, Le32, Le64;
    SameField(s, u, 4, 2);
    SameField(s, u, 12, 2);
    SameField(s, u, 14, 2);
    SameField(s, u, 16, 2);
    SameField(s, u, 18, 2);
    SameField(s, u, 40, 8);
    SameField(s, u, 52, 4);
    SameField(s, u, 56, 8);
  }

  /** exfat_flush_node on the set just read: it is refused when its types are out of order, else it describes the
      node again, unless it never was a whole set. */
  method FlushNode(entries: array<byte>, n: nat, attrib: unit, mtime: int, atime: int, size: nat, start: nat,
                   contiguous: bool, env: Env)
      returns (rc: int)
    requires env.clusterSize > 0 && entries.Length == n * 32 && n > 0
    requires size < 0x1_0000_0000_0000_0000 && start < 0x1_0000_0000
    requires mtime < EPOCH_DIFF_SEC + env.tz + 0x10000 * 365 * 86400
    requires atime < EPOCH_DIFF_SEC + env.tz + 0x10000 * 365 * 86400
    modifies entries
    ensures rc == if InOrder(old(entries[..])) then 0 else -EIO
    ensures rc != 0 ==> entries[..] == old(entries[..])
    ensures rc == 0 ==> SameRest(old(entries[..]), entries[..])
    ensures rc == 0 ==>
              (Accepted(entries[..], env)
               <==> Shaped(old(entries[..])) && Placed(env, attrib, size, start, size != 0 && contiguous))
    ensures rc == 0 && Accepted(entries[..], env) ==>
              InfoOf(entries[..], env)
              == Info(attrib, n - 1, ToUnix(FromUnix(mtime, env.tz), env.tz),
                      ToUnix(FromUnix(atime, env.tz).(centisec := 0), env.tz), size, start, size != 0 && contiguous,
                      Utf.Name(NameUnits(old(entries[..]), NameEntries(NameLength(old(entries[..]))))))
  {
    hide FromUnix, ToUnix, Sum, InOrder, FieldsOf, Sealed, Shaped, SameRest, Placed, NameUnits, Utf.Name, Flushed;
    ghost var s := entries[..];
    var ok := CheckEntries(entries, n);
    if !ok {
      return -EIO;
    }
    ThreeEntries(s, n);
    var m := UnixToExfat(mtime, env.tz);
    var a := UnixToExfat(atime, env.tz);
    StampFits(mtime, env.tz);
    StampFits(atime, env.tz);
    var flags: byte := if size != 0 && contiguous then 3 else 1;
    Refill(entries, n, attrib, m, a, size, start, flags);
    ghost var u := entries[..];
    ShapeKept(s, u);
    if Sealed(u) {
      SealedIsShaped(u);
    }
    if Shaped(s) {
      ShapedSizes(s);
      RestParts(s, u);
      UnitsKept(s, u, NameEntries(NameLength(s)));
      FieldsFlushed(s, u, attrib, m, a, size, start, flags);
      ShapedIsSealed(u);
    }
    rc := 0;
  }

  /** The part of exfat_flush_node that rewrites the fields. */
  method Refill(entries: array<byte>, n: nat, attrib: unit, m: Stamp, a: Stamp, size: nat, start: nat, flags: byte)
    requires entries.Length == n * 32 && n >= 3
    requires size < 0x1_0000_0000_0000_0000 && start < 0x1_0000_0000
    requires m.date < 0x10000 && m.time < 0x10000 && m.centisec < 256 && a.date < 0x10000 && a.time < 0x10000
    modifies entries
    ensures SameRest(old(entries[..]), entries[..]) && StoredChecksum(entries[..]) == Checksum(entries[..])
    ensures Flushed(entries[..], attrib, m, a, size, start, flags)
  {
    hide *;
    ghost var s0 := entries[..];
    WriteTimes(entries, attrib, m, a);
    ghost var s1 := entries[..];
    WriteSizes(entries, size, start, flags);
    ghost var s2 := entries[..];
    FlushedHere(s1, s2, attrib, m, a, size, start, flags);
    Seal(entries, n);
    FlushKept(s2, entries[..], attrib, m, a, size, start, flags);
    RestKept(s0, s1, s2, entries[..]);
  }

  /** A flush makes no whole set of one that was not, and no set that was into another. */
  lemma ShapeKept(s: seq<byte>, u: seq<byte>)
    requires SameRest(s, u)
    ensures Shaped(s) <==> Shaped(u)
  {
    hide InOrder, SameRest;
    RestParts(s, u);
    OrderKept(s, u);
  }

  lemma ShapedIsSealed(s: seq<byte>)
    requires Shaped(s) && |s| >= 64 && StoredChecksum(s) == Checksum(s)
    ensures Sealed(s)
  {}

  lemma SealedIsShaped(s: seq<byte>)
    requires Sealed(s)
    ensures Shaped(s)
  {}

  lemma ShapedSizes(s: seq<byte>)
    requires Shaped(s)
    ensures |s| >= 96 && |s| == 32 * (1 + Continuations(s)) && |s| >= 64 + NameEntries(NameLength(s)) * 32
  {}

  lemma RestKept(s0: seq<byte>, s1: seq<byte>, s2: seq<byte>, s3: seq<byte>)
    requires |s0| == |s1| == |s2| == |s3| && |s0| >= 64
    requires forall i :: 0 <= i < |s0| && !(4 <= i < 6 || 12 <= i < 20 || i == 21) ==> s1[i] == s0[i]
    requires forall i :: 0 <= i < |s0| && !(i == 33 || 40 <= i < 48 || 52 <= i < 64) ==> s2[i] == s1[i]
    requires Elsewhere(s2, s3, 2, 2)
    ensures SameRest(s0, s3)
  {}

  lemma FlushedHere(s1: seq<byte>, s2: seq<byte>, attrib: nat, mtime: Stamp, atime: Stamp, size: nat, start: nat,
      flags: nat)
    requires |s1| == |s2| && |s1| >= 64 && forall i :: 4 <= i < 22 ==> s2[i] == s1[i]
    requires Attrib(s1) == attrib && ModifyStamp(s1) == mtime && AccessStamp(s1) == atime.(centisec := 0)
    requires Flags(s2) == flags && ValidSize(s2) == size == Size(s2) && StartCluster(s2) == start
    ensures Flushed(s2, attrib, mtime, atime, size, start, flags)
  {
    hide Le16, Le32, Le64;
    SameField(s1, s2, 4, 2);
    SameField(s1, s2, 12, 2);
    SameField(s1, s2, 14, 2);
    SameField(s1, s2, 16, 2);
    SameField(s1, s2, 18, 2);
  }

  // ---- rename_entry ----

  /** The first two entries of u are those of s with a new name's length, hash and number of entries. */
  ghost predicate Renamed(s: seq<byte>, u: seq<byte>, k: nat, length: nat, hash: nat) {
    && |s| >= 64 && |u| == 64 + k * 32 && Continuations(u) == 1 + k && NameLength(u) == length && NameHash(u) == hash
    && forall i :: 0 <= i < 64 && i !in {1, 2, 3, 35, 36, 37} ==> u[i] == s[i]
  }

  /** What a renamed set says of the file but for its name. */
  lemma RenamedMeta(s: seq<byte>, u: seq<byte>, k: nat, length: nat, hash: nat)
    requires Renamed(s, u, k, length, hash)
    ensures Attrib(u) == Attrib(s) && ModifyStamp(u) == ModifyStamp(s) && AccessStamp(u) == AccessStamp(s)
    ensures Flags(u) == Flags(s) && ValidSize(u) == ValidSize(s) && Size(u) == Size(s)
    ensures StartCluster(u) == StartCluster(s)
  {
    hide Le16, Le32, Le64;
    SameField(s, u, 4, 2);
    SameField(s, u, 12, 2);
    SameField(s, u, 14, 2);
    SameField(s, u, 16, 2);
    SameField(s, u, 18, 2);
    SameField(s, u, 40, 8);
    SameField(s, u, 52, 4);
    SameField(s, u, 56, 8);
  }

  lemma FieldsRenamed(s: seq<byte>, u: seq<byte>, k: nat, name: seq<unit>, hash: nat)
    requires Shaped(s) && k == NameEntries(|name|) && Renamed(s, u, k, |name|, hash)
    requires Utf.Name(NameUnits(u, k)) == name
    requires Attrib(u) == Attrib(s) && ModifyStamp(u) == ModifyStamp(s) && AccessStamp(u) == AccessStamp(s)
    requires Flags(u) == Flags(s) && ValidSize(u) == ValidSize(s) && Size(u) == Size(s)
    requires StartCluster(u) == StartCluster(s)
    ensures FieldsOf(u) == FieldsOf(s).(continuations := 1 + k, name := name)
    ensures Continuations(u) == 1 + k && NameLength(u) == |name| && u[0] == s[0] && u[32] == s[32]
  {}

  lemma WholeStarts(s: seq<byte>)
    requires Shaped(s)
    ensures s[0] == FILE && s[32] == FILE_INFO
  {
    hide Follows;
    OrderAt(s, 0);
    OrderAt(s, 1);
    FirstTypes(s);
  }

  lemma FirstTypes(s: seq<byte>)
    requires |s| >= 64 && Follows(TypeAt(s, 0 - 1), TypeAt(s, 0)) && Follows(TypeAt(s, 1 - 1), TypeAt(s, 1))
    ensures s[0] == FILE && s[32] == FILE_INFO
  {}

  lemma RenamedKept(s: seq<byte>, u: seq<byte>, w: seq<byte>, k: nat, length: nat, hash: nat)
    requires Renamed(s, u, k, length, hash) && |w| == |u|
    requires forall i :: 0 <= i < 64 && i != 2 && i != 3 ==> w[i] == u[i]
    ensures Renamed(s, w, k, length, hash)
  {}

  /** rename_entry: header is the first two entries of the old set. */
  method RenameEntry(header: array<byte>, name: seq<unit>, hash: unit, env: Env, ghost was: seq<byte>)
      returns (entries: array<byte>)
    requires env.clusterSize > 0 && |name| == 256 && name[255] == 0
    requires Accepted(was, env) && header.Length == 64 && header[..] == was[..64]
    ensures fresh(entries) && entries.Length == 64 + NameEntries(|Utf.Name(name)|) * 32
    ensures Accepted(entries[..], env) <==> Utf.Name(name) != []
    ensures Renamed(was, entries[..], NameEntries(|Utf.Name(name)|), |Utf.Name(name)|, hash)
    ensures Accepted(entries[..], env) ==>
              InfoOf(entries[..], env)
              == InfoOf(was, env).(continuations := 1 + NameEntries(|Utf.Name(name)|), name := Utf.Name(name))
  {
    hide FieldsOf, Sealed, Sane, Renamed, Sum, ToUnix, Utf.Name, Shaped, InOrder, NameUnits;
    LongEnough(was);
    var length := |Utf.Name(name)|;
    ShortName(name);
    var k := NameEntries(length);
    entries := new byte[64 + k * 32](i => 0);
    StartRenamed(entries, header, k, length, hash, was);
    ghost var s1 := entries[..];
    WriteNames(entries, name, k);
    ghost var s2 := entries[..];
    RenamedKept(was, s1, s2, k, length, hash);
    Seal(entries, 2 + k);
    RenamedKept(was, s2, entries[..], k, length, hash);
    NamesKept(s2, entries[..], k, name);
    ghost var u := entries[..];
    NameReadsBack(u, k, name);
    RenamedMeta(was, u, k, length, hash);
    FieldsRenamed(was, u, k, Utf.Name(name), hash);
    WholeStarts(was);
    NamesInOrder(u, k);
    SealedIfNamed(u, k);
    SaneAfterRename(FieldsOf(was), env, 1 + k, Utf.Name(name));
  }

  lemma LongEnough(s: seq<byte>)
    requires Sealed(s)
    ensures Shaped(s) && |s| >= 64
  {}

  lemma SaneAfterRename(f: Fields, env: Env, continuations: nat, name: seq<unit>)
    requires env.clusterSize > 0
    ensures Sane(f.(continuations := continuations, name := name), env) <==> Sane(f, env)
  {}

  /** The first two entries under the new name. */
  method StartRenamed(entries: array<byte>, header: array<byte>, k: nat, length: nat, hash: unit, ghost was: seq<byte>)
    requires header.Length == 64 && entries.Length == 64 + k * 32 && entries != header && k < 255 && length < 256
    requires |was| >= 64 && header[..] == was[..64]
    modifies entries
    ensures Renamed(was, entries[..], k, length, hash)
  {
    forall i | 0 <= i < 64 {
      entries[i] := header[i];
    }
    entries[1] := 1 + k;
    entries[35] := length;
    entries[36], entries[37] := hash % 0x100, hash / 0x100;
    Split(hash);
    assert forall i :: 0 <= i < 64 ==> header[..][i] == was[..64][i];
  }

  lemma StampFits(now: int, tz: int)
    ensures var t := FromUnix(now, tz); t.date < 0x10000 && t.time < 0x10000 && t.centisec <= 100
  {
    var shift := EPOCH_DIFF_SEC + tz;
    ClockFields(if now < shift then 0 else now - shift);
  }
}
