/** The fields of a node that the allocator keeps are fields its directory entry set may have. */
module Placement {
  import opened Arithmetic
  import opened Bitmap
  import opened Chains
  import opened Cluster
  import opened Volume
  import RootDir
  import EntrySets
  import Octets
  import TimeCodec
  import Utf

  /** On a consistent volume a file meets check_node's conditions on size, start cluster and contiguous flag, unless it
      is a directory that does not fill its last cluster. */
  lemma AllocatorPlaces(ef: ExFat, f: Node, attrib: nat, tz: int)
    requires ef.Valid() && ef.clusterSize > 0 && f in ef.files
    ensures EntrySets.Placed(EntrySets.Env(ef.count, ef.clusterSize, tz), attrib, f.size, f.startCluster,
                             f.size != 0 && f.isContiguous)
            <==> (EntrySets.IsDir(attrib) ==> f.size % ef.clusterSize == 0)
  {
    hide Exclusive, Bits, Linked, NoDup, AllSet, Node.Cursor, CeilDiv;
    var ch, cs := ef.FileChain(f), ef.clusterSize;
    OwnChain(ef, f);
    RootDir.Pigeonhole(ch, ef.count);
    MulGap(|ch|, ef.count, cs);
    EmptyIsNothing(f.size, cs);
  }

  /** So a flushed set reads back as the node, whatever was done to the file before. */
  method FlushFile(ef: ExFat, f: Node, entries: array<Octets.byte>, n: nat, attrib: Octets.unit, mtime: int,
      atime: int, tz: int)
      returns (rc: int)
    requires ef.Valid() && ef.clusterSize > 0 && f in ef.files && entries.Length == n * 32 && n > 0
    requires mtime < TimeCodec.EPOCH_DIFF_SEC + tz + 0x10000 * 365 * 86400
    requires atime < TimeCodec.EPOCH_DIFF_SEC + tz + 0x10000 * 365 * 86400
    modifies entries
    ensures var env, s := EntrySets.Env(ef.count, ef.clusterSize, tz), old(entries[..]);
            && (EntrySets.InOrder(s) ==>
                  rc == 0
                  && (EntrySets.Accepted(entries[..], env)
                      <==> EntrySets.Shaped(s) && (EntrySets.IsDir(attrib) ==> f.size % ef.clusterSize == 0)))
            && (rc == 0 && EntrySets.Accepted(entries[..], env) ==>
                  var node := EntrySets.InfoOf(entries[..], env);
                  && node.size == f.size && node.startCluster == f.startCluster
                  && node.isContiguous == (f.size != 0 && f.isContiguous) && node.attrib == attrib)
  {
    hide ExFat.Valid, ExFat.FileChain, EntrySets.FieldsOf, EntrySets.Sealed, EntrySets.Shaped, EntrySets.InOrder,
         EntrySets.Placed, Utf.Name, TimeCodec.ToUnix, TimeCodec.FromUnix;
    AllocatorPlaces(ef, f, attrib, tz);
    FieldsFit(ef, f);
    rc := EntrySets.FlushNode(entries, n, attrib, mtime, atime, f.size, f.startCluster, f.isContiguous,
                              EntrySets.Env(ef.count, ef.clusterSize, tz));
  }

  lemma FieldsFit(ef: ExFat, f: Node)
    requires ef.Valid() && ef.clusterSize > 0 && f in ef.files
    ensures f.size < 0x1_0000_0000_0000_0000 && f.startCluster < 0x1_0000_0000
  {
    OwnChain(ef, f);
  }

  lemma EmptyIsNothing(size: nat, cs: nat)
    requires cs > 0
    ensures CeilDiv(size, cs) == 0 <==> size == 0
  {
    CeilDivCovers(size, cs);
  }
}
