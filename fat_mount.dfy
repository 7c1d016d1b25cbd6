// The per-volume state the cluster-chain engine works on (`struct
// msdosfsmount`): the FAT region of the FAT copy in use, the in-use bitmap
// `pm_inusemap`, the free-cluster counter and the modified flag, and the
// operations of msdosfs_fat.c that change them step by step. Block reads go
// through ReadBlock, which may fail; a block read is a window onto the FAT
// region, so the code's reads and writes at `bp->b_data + bo` are reads and
// writes of the region at the block's first byte plus bo.
module FatMount {
  import opened Words
  import opened FatCodec
  import opened FatGeometry
  import opened UseMap
  import opened FatTable

  /** The errno values the engine returns. */
  const E2BIG: nat := 7
  const EIO: nat := 5
  const EINVAL: nat := 22
  const ENOSPC: nat := 28

  /** The function codes of msdosfs_fatentry: FAT_GET, FAT_SET and
      FAT_GET_AND_SET. */
  datatype FatOp = Get | Set | GetAndSet

  /** The number of words of `pm_inusemap` for a volume whose last cluster
      is maxCluster: one bit per cluster 0 .. maxCluster. */
  function MapWords(maxCluster: nat): (r: nat)
    ensures r == maxCluster / N_INUSEBITS + 1 && maxCluster < N_INUSEBITS * r
  {
    (maxCluster + N_INUSEBITS) / N_INUSEBITS
  }

  /** chainlength as written reads word start / N_INUSEBITS unchecked, and
      msdosfs_extendfile asks for the cluster after the file's last one.
      When the last cluster of the file is the last cluster of the volume
      and the cluster count maxCluster + 1 is a multiple of N_INUSEBITS,
      that word is one past the bitmap; the FAT16 volume with maxCluster
      4095 is such a case. */
  lemma ChainLengthOverrun(maxCluster: nat, last: nat)
    requires last == maxCluster && (maxCluster + 1) % N_INUSEBITS == 0
    ensures (last + 1) / N_INUSEBITS == MapWords(maxCluster)
    ensures MapWords(4095) == 128 && (4095 + 1) / N_INUSEBITS == 128
  {
    assert last + 1 == N_INUSEBITS * ((last + 1) / N_INUSEBITS);
  }

  /** Where msdosfs_clusteralloc starts its scans:
      `(start * 1103515245 + 12345) % (pm_maxcluster + 1)`, the product
      and sum taken in u_long arithmetic. */
  function NewStart(start: nat, maxCluster: nat): (r: nat)
    ensures r <= maxCluster
  {
    ((start * 1103515245 + 12345) % U_LONG_MOD) % (maxCluster + 1)
  }

  /** Scanning upwards from newst and wrapping round at the last cluster,
      cluster c is met before cluster s. */
  predicate ScannedBefore(newst: nat, s: nat, c: nat)
  {
    if newst <= s then newst <= c < s else newst <= c || c < s
  }

  /** The run msdosfs_clusteralloc takes for count clusters, s and n, in
      bitmap m, with preferred start `start` (0 for none) and scans
      starting at newst:
      n clusters from s on, all free and all data clusters, as many as
      count or as the run from s holds; the preferred start when its run
      holds count; otherwise, the first run holding count met scanning
      upwards from newst and wrapping round at the last cluster; when no
      run holds count, the run at the preferred start if it has a free
      cluster, else the first longest run met in that order. */
  ghost predicate Picked(m: seq<Word>, maxCluster: nat, start: nat, count: nat, newst: nat, s: nat, n: nat)
  {
    && n == Min(count, RunFrom(m, s))
    && (n > 0 ==> CLUST_FIRST <= s && s + n <= maxCluster + 1)
    && (start != 0 && RunFrom(m, start) >= count ==> s == start)
    && (n == count && !(start != 0 && RunFrom(m, start) >= count) ==>
          forall c: nat :: c <= maxCluster && !Bit(m, c) && ScannedBefore(newst, s, c) ==> RunFrom(m, c) < count)
    && (n < count ==> forall c: nat :: c <= maxCluster ==> RunFrom(m, c) < count)
    && (n < count && start != 0 && RunFrom(m, start) > 0 ==> s == start)
    && (n < count && !(start != 0 && RunFrom(m, start) > 0) ==>
          forall c: nat :: c <= maxCluster ==> RunFrom(m, c) <= n)
    && (n < count && !(start != 0 && RunFrom(m, start) > 0) ==>
          forall c: nat :: c <= maxCluster && !Bit(m, c) && ScannedBefore(newst, s, c) ==> RunFrom(m, c) < n)
  }

  /** Every cluster that is not a data cluster is marked in use. */
  ghost predicate MapSane(m: seq<Word>, maxCluster: nat)
  {
    forall c: nat :: !(CLUST_FIRST <= c <= maxCluster) ==> Bit(m, c)
  }

  /** Taking a run of free data clusters counts n free clusters less and
      keeps every non-data cluster in use. */
  lemma AllocCount(m: seq<Word>, maxCluster: nat, s: nat, n: nat)
    requires n <= RunFrom(m, s) && maxCluster < 32 * |m|
    requires n > 0 ==> CLUST_FIRST <= s && s + n <= maxCluster + 1
    ensures FreeIn(SetRun(m, s, n), CLUST_FIRST, maxCluster + 1) + n == FreeIn(m, CLUST_FIRST, maxCluster + 1)
    ensures MapSane(m, maxCluster) ==> MapSane(SetRun(m, s, n), maxCluster)
  {
    if n > 0 {
      RunFromIs(m, s);
      SetRunCount(m, s, n, CLUST_FIRST, maxCluster + 1);
    }
  }

  /** Where msdosfs_freeclusterchain stops on the chain from start in table
      b, having freed the clusters of trail: the next cluster of the chain
      is not a data cluster, or the last cluster freed had been freed
      already (its entry then reads as free, and 0 ends the loop). */
  ghost predicate ChainEnds(g: Geometry, b: seq<Byte>, start: nat, trail: seq<nat>)
    requires ValidGeometry(g) && |b| == FatBytes(g)
  {
    || (|trail| > 0 && trail[|trail| - 1] in Front(trail))
    || (ChainAt(g, b, start, |trail|).Some? && !InRange(g, ChainAt(g, b, start, |trail|).value))
  }

  /** Freeing what msdosfs_clusteralloc allocated: when a free run s .. s +
      n - 1 has been linked by fatchain and marked in use, the clusters
      msdosfs_freeclusterchain frees from s, following that chain to its
      end without a repeat, are exactly the run, in order: as many as the
      allocation took from the free count (AllocCount). Freeing them gives
      back the bitmap before the allocation. */
  lemma AllocThenFree(g: Geometry, b: seq<Byte>, m: seq<Word>, s: nat, n: nat, trail: seq<nat>)
    requires ValidGeometry(g) && |b| == FatBytes(g) && g.maxCluster < 32 * |m|
    requires 0 < n <= RunFrom(m, s) && CLUST_FIRST <= s && s + n <= g.maxCluster + 1
    requires forall i :: 0 <= i < |trail| ==>
      InRange(g, trail[i]) && ChainAt(g, RunTable(g, b, s, n), s, i) == Some(trail[i])
    requires Distinct(Front(trail)) && ChainEnds(g, RunTable(g, b, s, n), s, trail)
    ensures |trail| == n && forall i :: 0 <= i < n ==> trail[i] == s + i
    ensures ClearAll(SetRun(m, s, n), trail) == m
  {
    LinkTrail(g, b, s, n, trail);
    RunRestored(m, g.maxCluster, s, n, trail);
  }

  /** Marking the free run s .. s + n - 1 in use and then freeing it again,
      cluster by cluster, gives back the bitmap and its free count. */
  lemma RunRestored(m: seq<Word>, maxCluster: nat, s: nat, n: nat, trail: seq<nat>)
    requires maxCluster < 32 * |m|
    requires 0 < n <= RunFrom(m, s) && CLUST_FIRST <= s && s + n <= maxCluster + 1
    requires |trail| == n && forall i :: 0 <= i < n ==> trail[i] == s + i
    ensures forall i :: 0 <= i < |trail| ==> trail[i] / 32 < |SetRun(m, s, n)|
    ensures ClearAll(SetRun(m, s, n), trail) == m
    ensures FreeIn(SetRun(m, s, n), CLUST_FIRST, maxCluster + 1) + n == FreeIn(m, CLUST_FIRST, maxCluster + 1)
  {
    ClearRun(m, s, n, trail);
    AllocCount(m, maxCluster, s, n);
  }

  /** The chain fatchain(s, n, CLUST_EOFE) links, followed from s to its end
      without a repeat, is the run s .. s + n - 1. */
  lemma LinkTrail(g: Geometry, b: seq<Byte>, s: nat, n: nat, trail: seq<nat>)
    requires ValidGeometry(g) && |b| == FatBytes(g)
    requires 0 < n && CLUST_FIRST <= s && s + n <= g.maxCluster + 1
    requires forall i :: 0 <= i < |trail| ==>
      InRange(g, trail[i]) && ChainAt(g, RunTable(g, b, s, n), s, i) == Some(trail[i])
    requires ChainEnds(g, RunTable(g, b, s, n), s, trail)
    ensures |trail| == n && forall i :: 0 <= i < n ==> trail[i] == s + i
  {
    if |trail| > n {
      ChainOfLink(g, b, s, n, n);
    }
    forall i | 0 <= i < |trail|
      ensures trail[i] == s + i
    {
      ChainOfLink(g, b, s, n, i);
    }
    if 0 < |trail| {
      var f := Front(trail);
      forall j | 0 <= j < |f|
        ensures f[j] != trail[|trail| - 1]
      {
        assert f[j] == trail[j];
      }
    }
    if |trail| < n {
      ChainOfLink(g, b, s, n, |trail|);
    }
  }

  /** Freeing in the bitmap a trail of data clusters that were all in use,
      none twice, adds one free cluster per trail entry, as the counter
      does. A lemma of its own keeps this count out of the proof of
      FreeClusterChain, whose frame facts it would otherwise have to sort
      through. */
  lemma FreedAgree(m0: seq<Word>, trail: seq<nat>, maxCluster: nat)
    requires forall i :: 0 <= i < |trail| ==> CLUST_FIRST <= trail[i] <= maxCluster && trail[i] / 32 < |m0|
    requires Distinct(trail) && AllInUse(m0, trail)
    ensures FreeIn(ClearAll(m0, trail), CLUST_FIRST, maxCluster + 1) == FreeIn(m0, CLUST_FIRST, maxCluster + 1) + |trail|
  {
    ClearAllCount(m0, trail, CLUST_FIRST, maxCluster + 1);
  }

  /** The clusters msdosfs_freeclusterchain freed so far from cluster0 in
      table b0, trail, and the cluster it is at: the chain's first clusters,
      all data clusters, none twice, with cluster the next on the chain; or
      the last of trail repeats an earlier one and cluster is the 0 its
      freed entry reads as. */
  ghost predicate TrailOf(g: Geometry, b0: seq<Byte>, cluster0: nat, trail: seq<nat>, cluster: nat)
    requires ValidGeometry(g) && |b0| == FatBytes(g)
  {
    && (forall i :: 0 <= i < |trail| ==>
          && InRange(g, trail[i]) && Holds(b0, g.fatType, trail[i]) && trail[i] / 32 < MapWords(g.maxCluster)
          && ChainAt(g, b0, cluster0, i) == Some(trail[i]))
    && (|| (Distinct(trail) && ChainAt(g, b0, cluster0, |trail|) == Some(cluster))
        || (cluster == 0 && |trail| > 0 && Distinct(Front(trail)) && trail[|trail| - 1] in Front(trail)))
    && |trail| <= g.maxCluster
  }

  /** The chain facts of TrailOf carry over to the trail with the next
      cluster of the chain appended. */
  lemma TrailAppend(g: Geometry, b0: seq<Byte>, cluster0: nat, trail: seq<nat>, cluster: nat)
    requires ValidGeometry(g) && |b0| == FatBytes(g)
    requires forall i :: 0 <= i < |trail| ==>
      && InRange(g, trail[i]) && Holds(b0, g.fatType, trail[i]) && trail[i] / 32 < MapWords(g.maxCluster)
      && ChainAt(g, b0, cluster0, i) == Some(trail[i])
    requires ChainAt(g, b0, cluster0, |trail|) == Some(cluster) && InRange(g, cluster)
    ensures forall i :: 0 <= i < |trail| + 1 ==>
      && InRange(g, (trail + [cluster])[i]) && Holds(b0, g.fatType, (trail + [cluster])[i])
      && (trail + [cluster])[i] / 32 < MapWords(g.maxCluster)
      && ChainAt(g, b0, cluster0, i) == Some((trail + [cluster])[i])
  {
    HoldsInRange(g, b0, cluster);
    forall i | 0 <= i < |trail| + 1
      ensures (trail + [cluster])[i] == if i < |trail| then trail[i] else cluster
    {
    }
  }

  /** A cluster not yet in a trail of distinct clusters keeps it distinct. */
  lemma DistinctAppend(trail: seq<nat>, c: nat)
    requires Distinct(trail) && c !in trail
    ensures Distinct(trail + [c])
  {
    var t := trail + [c];
    forall i, j | 0 <= i < j < |t|
      ensures t[i] != t[j]
    {
      assert t[i] == trail[i];
      if j < |trail| {
        assert t[j] == trail[j];
      }
    }
  }

  /** Every cluster of trail is marked in use in m. */
  ghost predicate AllInUse(m: seq<Word>, trail: seq<nat>)
  {
    forall i :: 0 <= i < |trail| ==> Bit(m, trail[i])
  }

  /** The trail without its last cluster has no cluster twice. */
  lemma TrailFront(g: Geometry, b0: seq<Byte>, cluster0: nat, trail: seq<nat>, cluster: nat)
    requires ValidGeometry(g) && |b0| == FatBytes(g)
    requires TrailOf(g, b0, cluster0, trail, cluster)
    ensures Distinct(Front(trail))
  {
    if |trail| > 0 && Distinct(trail) {
      var f := trail[..|trail| - 1];
      assert forall i :: 0 <= i < |f| ==> f[i] == trail[i];
    }
  }

  /** Freeing the data cluster the walk is at and moving on to the cluster
      its entry named, in the table with trail freed, extends the trail. */
  lemma TrailNext(g: Geometry, b0: seq<Byte>, cluster0: nat, trail: seq<nat>, cluster: nat, next: nat)
    requires ValidGeometry(g) && |b0| == FatBytes(g)
    requires TrailOf(g, b0, cluster0, trail, cluster) && InRange(g, cluster)
    requires next == ReadEntry(FreeAll(g.fatType, b0, trail), g.fatType, cluster)
    ensures TrailOf(g, b0, cluster0, trail + [cluster], next)
  {
    HoldsInRange(g, b0, cluster);
    DistinctBound(trail, CLUST_FIRST, g.maxCluster + 1);
    FreeAllEntry(g.fatType, b0, trail, cluster);
    TrailAppend(g, b0, cluster0, trail, cluster);
    assert (trail + [cluster])[..|trail|] == trail;
    if cluster !in trail {
      DistinctAppend(trail, cluster);
      assert ChainAt(g, b0, cluster0, |trail| + 1) == Some(next);
    }
  }

  /** Cluster c is a data cluster whose entry in table b reads as free. */
  predicate FreeEntry(g: Geometry, b: seq<Byte>, c: nat)
    requires ValidGeometry(g) && |b| == FatBytes(g)
  {
    InRange(g, c) && (HoldsInRange(g, b, c); ReadEntry(b, g.fatType, c) == MSDOSFSFREE)
  }

  /** The preferred start is taken when its run holds count. */
  lemma PickedStart(m: seq<Word>, maxCluster: nat, start: nat, count: nat, newst: nat)
    requires MapSane(m, maxCluster) && start != 0 && RunFrom(m, start) >= count
    ensures Picked(m, maxCluster, start, count, newst, start, count)
    ensures count > 0 ==> !Bit(m, start) && start <= maxCluster
  {
    if count > 0 {
      RunInside(m, CLUST_FIRST, maxCluster, start);
      RunFromIs(m, start);
    }
  }

  /** A free cluster whose run holds count, with no such cluster before it
      scanning from newst round to it, is taken. */
  lemma PickedHit(m: seq<Word>, maxCluster: nat, start: nat, count: nat, newst: nat, cn: nat)
    requires MapSane(m, maxCluster)
    requires !(start != 0 && RunFrom(m, start) >= count)
    requires !Bit(m, cn) && RunFrom(m, cn) >= count
    requires forall c: nat :: c <= maxCluster && !Bit(m, c) && ScannedBefore(newst, cn, c) ==> RunFrom(m, c) < count
    ensures Picked(m, maxCluster, start, count, newst, cn, count)
    ensures cn <= maxCluster
  {
    assert CLUST_FIRST <= cn <= maxCluster;
    if count > 0 {
      RunInside(m, CLUST_FIRST, maxCluster, cn);
    }
  }

  /** A hit of the first scan, from newst upwards. */
  lemma PickedFirstScan(m: seq<Word>, maxCluster: nat, start: nat, count: nat, newst: nat, cn: nat)
    requires MapSane(m, maxCluster)
    requires !(start != 0 && RunFrom(m, start) >= count)
    requires !Bit(m, cn) && RunFrom(m, cn) >= count
    requires newst <= cn && Scanned(m, newst, cn, count, count)
    ensures Picked(m, maxCluster, start, count, newst, cn, count)
    ensures cn <= maxCluster
  {
    PickedHit(m, maxCluster, start, count, newst, cn);
  }

  /** A hit of the second scan, from 0 upwards, after the first scan found
      none from newst to the last cluster. */
  lemma PickedSecondScan(m: seq<Word>, maxCluster: nat, start: nat, count: nat, newst: nat, cn: nat, fl: nat)
    requires MapSane(m, maxCluster)
    requires !(start != 0 && RunFrom(m, start) >= count)
    requires !Bit(m, cn) && RunFrom(m, cn) >= count
    requires Scanned(m, newst, maxCluster + 1, count, fl) && Scanned(m, 0, cn, count, count)
    ensures Picked(m, maxCluster, start, count, newst, cn, count)
    ensures cn <= maxCluster
  {
    PickedHit(m, maxCluster, start, count, newst, cn);
  }

  /** With no run holding count anywhere, the run at the preferred start is
      taken when it has a free cluster, and otherwise a longest run with
      none as long met before it. */
  lemma PickedShort(m: seq<Word>, maxCluster: nat, start: nat, count: nat, newst: nat, fl: nat, s: nat, n: nat)
    requires MapSane(m, maxCluster) && newst <= maxCluster
    requires Scanned(m, newst, maxCluster + 1, count, fl) && Scanned(m, 0, newst, count, fl)
    requires !(start != 0 && RunFrom(m, start) >= count)
    requires RunFrom(m, s) == n && n > 0
    requires start != 0 && RunFrom(m, start) > 0 ==> s == start
    requires !(start != 0 && RunFrom(m, start) > 0) ==> n == fl
    requires !(start != 0 && RunFrom(m, start) > 0) ==>
      forall c: nat :: c <= maxCluster && !Bit(m, c) && ScannedBefore(newst, s, c) ==> RunFrom(m, c) < n
    ensures Picked(m, maxCluster, start, count, newst, s, n)
    ensures !Bit(m, s) && s <= maxCluster
  {
    RunInside(m, CLUST_FIRST, maxCluster, s);
    RunFromIs(m, s);
    ScannedAll(m, newst, maxCluster, count, fl);
  }

  /** The run the two scans remember is the first longest one met: the
      first scan's (from newst up) unless the second scan (from 0 up) met a
      longer one, which then lies below newst, every cluster from newst on
      having a run no longer than the first scan's. */
  lemma FirstLongest(m: seq<Word>, maxCluster: nat, newst: nat, count: nat,
                     fcn1: nat, fl1: nat, foundcn: nat, foundl: nat)
    requires MapSane(m, maxCluster) && newst <= maxCluster
    requires Scanned(m, newst, maxCluster + 1, count, fl1)
    requires fl1 > 0 ==> newst <= fcn1 && Shorter(m, newst, fcn1, fl1)
    requires foundl > 0 && !Bit(m, foundcn) && RunFrom(m, foundcn) == foundl
    requires (foundcn == fcn1 && foundl == fl1) || (fl1 < foundl && Shorter(m, 0, foundcn, foundl))
    ensures forall c: nat :: c <= maxCluster && !Bit(m, c) && ScannedBefore(newst, foundcn, c) ==> RunFrom(m, c) < foundl
  {
    if !(foundcn == fcn1 && foundl == fl1) {
      assert foundcn < newst;
    }
  }

  /** With count > 0 and a free cluster somewhere, the picked run is not
      empty: msdosfs_clusteralloc grants at least one cluster whenever it
      does not report ENOSPC. */
  lemma PickedSome(m: seq<Word>, maxCluster: nat, start: nat, count: nat, newst: nat, s: nat, n: nat, free: nat)
    requires Picked(m, maxCluster, start, count, newst, s, n)
    requires count > 0 && free <= maxCluster && !Bit(m, free)
    ensures n > 0
  {
    assert RunFrom(m, free) > 0;
  }

  class Mount {
    /** The geometry computed at mount time. */
    const geo: Geometry
    /** The FAT region of the FAT copy in use (`pm_curfat`), byte by byte. */
    const fat: array<Byte>
    /** `pm_inusemap`. */
    const inuse: array<Word>
    /** `pm_freeclustercount`. */
    var freeCount: int
    /** `pm_fmod`: the FAT was modified. */
    var fmod: bool

    /** The shape a mounted volume has. */
    ghost predicate Valid()
    {
      && ValidGeometry(geo)
      && fat.Length == FatBytes(geo)
      && inuse.Length == MapWords(geo.maxCluster)
    }

    /** The bitmap marks every cluster that is not a data cluster in use,
        as msdosfs_fillinusemap leaves it. */
    ghost predicate Sane()
      reads this, inuse
    {
      MapSane(inuse[..], geo.maxCluster)
    }

    /** The free-cluster counter agrees with the bitmap. */
    ghost predicate Agree()
      reads this, inuse
    {
      freeCount == FreeIn(inuse[..], CLUST_FIRST, geo.maxCluster + 1)
    }

    /** A mounted volume with FAT region table; the bitmap starts out all in
        use, as msdosfs_fillinusemap's first loop leaves it. */
    constructor (g: Geometry, table: seq<Byte>)
      requires ValidGeometry(g) && |table| == FatBytes(g)
      ensures Valid() && fat[..] == table && !fmod && freeCount == 0
      ensures forall i :: 0 <= i < inuse.Length ==> inuse[i] == ALL_ONES
    {
      geo := g;
      fat := new Byte[|table|](i requires 0 <= i < |table| => table[i]);
      inuse := new Word[MapWords(g.maxCluster)](_ => ALL_ONES);
      freeCount := 0;
      fmod := false;
    }

    /** `bread` of FAT block bn: the block is a window onto the FAT region;
        the read itself may fail with an I/O error. */
    method ReadBlock(bn: nat, size: nat) returns (err: nat)
      ensures err == 0 || err == EIO
    {
      err :| err == 0 || err == EIO;
    }

    /** fatblock: the FAT block holding byte ofs of the table, its size and
        the offset bo of ofs in it. The block starts at the byte of its first
        sector and lies inside the table, holds ofs, and every data-cluster
        entry that starts in it ends in it. */
    method FatBlockOf(ofs: nat) returns (bn: nat, size: nat, bo: nat)
      requires Valid() && ofs < FatBytes(geo)
      ensures bo <= ofs && bo < size
      ensures ofs - bo == (bn - geo.fatBlk - geo.curFat * geo.fatSecs) * geo.bytesPerSec
      ensures Window(geo, ofs - bo, size)
    {
      var p := FatBlock(geo, ofs);
      BlockWindow(geo, ofs);
      bn, size, bo := p.bn, p.size, p.bo;
    }

    /** `putushort` at byte o of the FAT region. */
    method PutUShortAt(o: nat, v: nat)
      requires o + 2 <= fat.Length
      modifies fat
      ensures fat[..] == PutUShort(old(fat[..]), o, v)
    {
      fat[o] := v % 256;
      fat[o + 1] := (v / 0x100) % 256;
    }

    /** `putulong` at byte o of the FAT region. */
    method PutULongAt(o: nat, v: nat)
      requires o + 4 <= fat.Length
      modifies fat
      ensures fat[..] == PutULong(old(fat[..]), o, v)
    {
      fat[o] := v % 256;
      fat[o + 1] := (v / 0x100) % 256;
      fat[o + 2] := (v / 0x1_0000) % 256;
      fat[o + 3] := (v / 0x100_0000) % 256;
    }

    /** The per-width `switch` of msdosfs_fatentry's set path (and of
        fatchain and msdosfs_freeclusterchain): keep the neighbouring FAT12
        nibble or the reserved FAT32 nibble, store v in the rest. */
    method PutEntryAt(o: nat, cn: nat, v: nat)
      requires Valid() && cn <= geo.maxCluster && o == EntryOffset(geo.fatType, cn)
      modifies fat
      ensures fat[..] == WriteEntry(old(fat[..]), geo.fatType, cn, v)
    {
      HoldsInRange(geo, fat[..], cn);
      ghost var b := fat[..];
      if geo.fatType == FAT16 {
        PutUShortAt(o, v);
      } else if geo.fatType == FAT12 {
        var w := GetUShort(fat[..], o);
        var nv := if cn % 2 == 1 then w % 16 + v * 16 else w / 0x1000 * 0x1000 + v % 0x1000;
        PutUShortAt(o, nv);
        assert fat[..] == WriteEntry(b, FAT12, cn, v);
      } else {
        var w := GetULong(fat[..], o);
        var nv := w / 0x1000_0000 * 0x1000_0000 + v % 0x1000_0000;
        PutULongAt(o, nv);
        assert fat[..] == WriteEntry(b, FAT32, cn, v);
      }
    }

    /** msdosfs_fatentry: get, set, or get and set the entry of cluster cn.
        A cluster outside the data clusters is refused with EINVAL before
        any block is read; a failed read returns its error; a get yields
        the entry masked to the table width (shifted down a nibble for an
        odd FAT12 cluster first); a set stores newContents as WriteEntry
        does and marks the FAT modified. */
    method FatEntry(op: FatOp, cn: nat, newContents: nat) returns (err: nat, oldContents: Option<nat>)
      requires Valid()
      modifies fat, this`fmod
      ensures err == 0 || err == EINVAL || err == EIO
      ensures !InRange(geo, cn) ==> err == EINVAL
      ensures err != 0 ==> oldContents == None && fat[..] == old(fat[..]) && fmod == old(fmod)
      ensures err == 0 ==> InRange(geo, cn)
      ensures err == 0 && op != Set ==> oldContents == Some(ReadEntry(old(fat[..]), geo.fatType, cn))
      ensures err == 0 && op == Set ==> oldContents == None
      ensures err == 0 && op != Get ==> fat[..] == WriteEntry(old(fat[..]), geo.fatType, cn, newContents) && fmod
      ensures err == 0 && op == Get ==> fat[..] == old(fat[..]) && fmod == old(fmod)
    {
      if cn < CLUST_FIRST || cn > geo.maxCluster {
        return EINVAL, None;
      }
      HoldsInRange(geo, fat[..], cn);
      var ofs := EntryOffset(geo.fatType, cn);
      var bn, bsize, bo := FatBlockOf(ofs);
      err := ReadBlock(bn, bsize);
      if err != 0 {
        return err, None;
      }
      oldContents := None;
      if op != Set {
        oldContents := Some(ReadEntry(fat[..], geo.fatType, cn));
      }
      if op != Get {
        PutEntryAt(ofs, cn, newContents);
        fmod := true;
      }
    }

    /** usemap_alloc: mark cluster cn in use and count one free cluster
        less. */
    method UsemapAlloc(cn: nat)
      requires cn / 32 < inuse.Length
      modifies inuse, this`freeCount
      ensures inuse[..] == SetBit(old(inuse[..]), cn)
      ensures freeCount == old(freeCount) - 1
    {
      inuse[cn / N_INUSEBITS] := Or(inuse[cn / N_INUSEBITS], BitOf(cn % N_INUSEBITS));
      freeCount := freeCount - 1;
    }

    /** usemap_free: count one free cluster more and mark cluster cn free. */
    method UsemapFree(cn: nat)
      requires cn / 32 < inuse.Length
      modifies inuse, this`freeCount
      ensures inuse[..] == ClearBit(old(inuse[..]), cn)
      ensures freeCount == old(freeCount) + 1
    {
      freeCount := freeCount + 1;
      inuse[cn / N_INUSEBITS] := And(inuse[cn / N_INUSEBITS], Not(BitOf(cn % N_INUSEBITS)));
    }

    /** msdosfs_clusterfree: mark the cluster free in the bitmap, then set
        its entry to MSDOSFSFREE and hand back the entry it had. When the
        set fails the bit is set again (whatever it was before) and the
        counter restored. */
    method ClusterFree(cluster: nat) returns (err: nat, oldcn: Option<nat>)
      requires Valid() && cluster / 32 < inuse.Length
      modifies fat, inuse, this`freeCount, this`fmod
      ensures err == 0 || err == EINVAL || err == EIO
      ensures err == 0 ==>
        && InRange(geo, cluster)
        && oldcn == Some(ReadEntry(old(fat[..]), geo.fatType, cluster))
        && fat[..] == WriteEntry(old(fat[..]), geo.fatType, cluster, MSDOSFSFREE) && fmod
        && inuse[..] == ClearBit(old(inuse[..]), cluster)
        && freeCount == old(freeCount) + 1
      ensures err != 0 ==>
        && oldcn == None
        && fat[..] == old(fat[..]) && fmod == old(fmod)
        && inuse[..] == SetBit(ClearBit(old(inuse[..]), cluster), cluster)
        && freeCount == old(freeCount)
    {
      UsemapFree(cluster);
      var o;
      err, o := FatEntry(GetAndSet, cluster, MSDOSFSFREE);
      if err != 0 {
        UsemapAlloc(cluster);
        return err, None;
      }
      oldcn := o;
    }

    /** One turn of fatchain's inner loop after `start++`: the per-width
        `switch` stores v, the successor of cluster c in the run, into c's
        entry at bo bytes into the block read (from byte base of the table
        on), and advances bo past it, by the entry width and, for FAT12, by
        one byte more when next (the incremented `start`, c + 1) is even. The
        table after k writes becomes the table after k + 1. */
    method ChainWrite(ghost b0: seq<Byte>, start: nat, count: nat, fill: nat, ghost k: nat,
                      base: nat, bo: nat, c: nat, next: nat, v: nat) returns (bo': nat)
      requires Valid() && c <= geo.maxCluster && base + bo == EntryOffset(geo.fatType, c)
      requires k < count && c == start + k && next == c + 1 && v == Successor(start, count, fill, c)
      requires Linked(fat[..], geo.fatType, b0, start, count, fill, k)
      modifies fat
      ensures Linked(fat[..], geo.fatType, b0, start, count, fill, k + 1)
      ensures base + bo' == EntryOffset(geo.fatType, next)
    {
      ghost var prev := fat[..];
      HoldsInRange(geo, prev, c);
      PutEntryAt(base + bo, c, v);
      LinkNext(geo.fatType, b0, start, count, fill, k, prev, c, v, fat[..]);
      NextOffset(geo.fatType, c, next);
      match geo.fatType {
        case FAT12 =>
          bo' := bo + 1;
          if next % 2 == 0 {
            bo' := bo' + 1;
          }
        case FAT16 =>
          bo' := bo + 2;
        case FAT32 =>
          bo' := bo + 4;
      }
    }

    /** The inner loop of fatchain: with the FAT block from byte base on
        read, link the clusters of the run whose entries lie in it, from
        cluster cur0 on, until the run ends or bo leaves the block. Every
        write lands inside the block. */
    method LinkBlock(ghost b0: seq<Byte>, start: nat, count: nat, fill: nat, ghost k0: nat,
                     base: nat, bsize: nat, bo0: nat, cur0: nat, left0: nat)
      returns (cur: nat, left: nat, ghost done: nat)
      requires Valid() && start + count - 1 <= geo.maxCluster
      requires start <= cur0 && cur0 + left0 == start + count && 0 < left0 && k0 == cur0 - start
      requires Linked(fat[..], geo.fatType, b0, start, count, fill, k0)
      requires base + bo0 == EntryOffset(geo.fatType, cur0) && bo0 < bsize && Window(geo, base, bsize)
      modifies fat
      ensures cur0 < cur && cur + left == start + count && done == cur - start
      ensures Linked(fat[..], geo.fatType, b0, start, count, fill, done)
    {
      cur, left := cur0, left0;
      var bo := bo0;
      done := k0;
      while left > 0
        invariant start <= cur && cur + left == start + count && done == cur - start
        invariant Linked(fat[..], geo.fatType, b0, start, count, fill, done)
        invariant base + bo == EntryOffset(geo.fatType, cur)
        invariant left > 0 ==> bo < bsize
        invariant cur0 < cur || (cur == cur0 && bo == bo0)
        decreases left
      {
        assert base + bo + Width(geo.fatType) <= base + bsize;
        var c := cur;
        cur := cur + 1;
        left := left - 1;
        var newc := if left > 0 then cur else fill;
        bo := ChainWrite(b0, start, count, fill, done, base, bo, c, cur, newc);
        done := done + 1;
        if bo >= bsize {
          break;
        }
      }
    }

    /** fatchain: link clusters start .. start + count - 1 into a chain whose
        last entry holds fill, block by block. A run that does not lie in
        the data clusters is refused with EINVAL before anything is read. A
        failed block read returns its error and leaves the entries already
        linked as they are. */
    method FatChain(start: nat, count: nat, fill: nat) returns (err: nat)
      requires Valid() && start + count <= U_LONG_MOD
      modifies fat, this`fmod
      ensures err == 0 || err == EINVAL || err == EIO
      ensures start < CLUST_FIRST || start + count - 1 > geo.maxCluster <==> err == EINVAL
      ensures err == EINVAL ==> fat[..] == old(fat[..]) && fmod == old(fmod)
      ensures err == 0 ==>
        fat[..] == Link(geo.fatType, old(fat[..]), start, count, fill, count) && fmod
      ensures err == EIO ==> fmod == old(fmod)
      ensures err == EIO ==>
        (exists k :: 0 <= k < count && fat[..] == Link(geo.fatType, old(fat[..]), start, count, fill, k))
    {
      if start < CLUST_FIRST || start + count - 1 > geo.maxCluster {
        return EINVAL;
      }
      err := 0;
      ghost var b0 := fat[..];
      var cur: nat, left: nat := start, count;
      ghost var done: nat := 0;
      while left > 0
        invariant start <= cur && cur + left == start + count && done == cur - start
        invariant Linked(fat[..], geo.fatType, b0, start, count, fill, done)
        invariant fmod == old(fmod)
        decreases left
      {
        HoldsInRange(geo, b0, cur);
        var ofs := EntryOffset(geo.fatType, cur);
        var bn, bsize, bo := FatBlockOf(ofs);
        err := ReadBlock(bn, bsize);
        if err != 0 {
          return;
        }
        cur, left, done := LinkBlock(b0, start, count, fill, done, ofs - bo, bsize, bo, cur, left);
      }
      fmod := true;
    }

    /** chainlength: how many clusters from start on are free, up to count:
        the run of clear bits of the bitmap from bit start, cut at count.
        The word holding bit start is read without a check, so it must be
        part of the bitmap; the words after it are read up to the last one,
        `pm_maxcluster / N_INUSEBITS`. */
    method ChainLength(start: nat, count: nat) returns (len: nat)
      requires inuse.Length == MapWords(geo.maxCluster) && start / N_INUSEBITS < inuse.Length
      ensures len == Min(count, RunFrom(inuse[..], start))
    {
      var idx := start / N_INUSEBITS;
      var s := start % N_INUSEBITS;
      var k := FirstInUse(idx, s);
      StartRun(inuse[..], start, idx, s, 32 * idx + 32);
      if k > 0 {
        len := k - 1 - s;
        return if len > count then count else len;
      }
      len := N_INUSEBITS - s;
      if len >= count {
        return count;
      }
      len := WholeWords(idx, len, count);
      len := if len > count then count else len;
    }

    /** The first word chainlength looks at: with the bits below s masked
        off, ffs of word idx, so the first cluster in use at or after bit s
        counted from 1, or 0 when there is none. */
    method FirstInUse(idx: nat, s: nat) returns (k: nat)
      requires idx < inuse.Length && s < N_INUSEBITS
      ensures k == LowestSetFrom(inuse[idx], s)
    {
      var w := And(inuse[idx], Not(LowBits(s)));
      MaskedFfs(inuse[idx], s);
      k := Ffs(w);
    }

    /** The loop of chainlength, `while (++idx <= max_idx)`: with len free
        clusters counted up to the end of word idx, add the free clusters
        at the start of the words after it until count is reached, a word
        with a cluster in use is met, or the bitmap ends. Cut at count, the
        result is the count from len on over the clusters after word idx. */
    method WholeWords(idx0: nat, len0: nat, count: nat) returns (len: nat)
      requires inuse.Length == MapWords(geo.maxCluster) && idx0 < inuse.Length
      ensures Min(count, len) == Min(count, len0 + RunFrom(inuse[..], 32 * idx0 + 32))
    {
      var maxIdx := geo.maxCluster / N_INUSEBITS;
      ghost var m := inuse[..];
      var idx := idx0 + 1;
      ghost var pos := 32 * idx0 + 32;
      len := len0;
      while idx <= maxIdx
        invariant 0 < idx <= maxIdx + 1 && pos == 32 * idx
        invariant len0 + RunFrom(m, 32 * idx0 + 32) == len + RunFrom(m, pos)
        decreases maxIdx + 1 - idx
      {
        if len >= count {
          break;
        }
        var w := inuse[idx];
        WholeWordRun(m, idx, pos, pos + 32);
        if !IsZero(w) {
          len := len + Ffs(w) - 1;
          break;
        }
        len := len + N_INUSEBITS;
        idx := idx + 1;
        pos := pos + 32;
      }
    }

    /** chainlength with the bitmap bound checked first: a start past the
        last cluster has no free run. Given a bitmap that marks every
        cluster outside the data clusters in use, it computes the same
        count for every start, with no demand on the caller. */
    method ChainLengthChecked(start: nat, count: nat) returns (len: nat)
      requires Valid() && Sane()
      ensures len == Min(count, RunFrom(inuse[..], start))
    {
      if start > geo.maxCluster {
        assert start >= 32 * inuse.Length || Bit(inuse[..], start);
        return 0;
      }
      len := ChainLength(start, count);
    }

    /** The loop of chainalloc: usemap_alloc of clusters start ..
        start + count - 1, in that order. */
    method AllocRun(start: nat, count: nat)
      requires count == 0 || start + count <= 32 * inuse.Length
      modifies inuse, this`freeCount
      ensures inuse[..] == SetRun(old(inuse[..]), start, count)
      ensures freeCount == old(freeCount) - count
    {
      ghost var m0 := inuse[..];
      var cl: nat, n: nat := start, count;
      ghost var done: nat := 0;
      while n > 0
        invariant n <= count && done == count - n && cl == start + done
        invariant m0 == old(inuse[..]) && (count == 0 || start + count <= 32 * |m0|)
        invariant inuse[..] == SetRun(m0, start, done)
        invariant freeCount == old(freeCount) - done
        decreases n
      {
        n := n - 1;
        UsemapAlloc(cl);
        cl := cl + 1;
        done := done + 1;
      }
    }

    /** chainalloc: mark clusters start .. start + count - 1 in use, then
        link them into a chain ending in fill. When linking fails the
        clusters stay marked in use and the counter stays lowered. */
    method ChainAlloc(start: nat, count: nat, fill: nat) returns (err: nat, retcluster: nat, got: nat)
      requires Valid() && start < U_LONG_MOD && (count == 0 || start + count <= 32 * inuse.Length)
      modifies inuse, this`freeCount, fat, this`fmod
      ensures inuse[..] == SetRun(old(inuse[..]), start, count)
      ensures freeCount == old(freeCount) - count
      ensures err == 0 || err == EINVAL || err == EIO
      ensures start < CLUST_FIRST || start + count - 1 > geo.maxCluster <==> err == EINVAL
      ensures err == EINVAL ==> fat[..] == old(fat[..]) && fmod == old(fmod)
      ensures err == 0 ==>
        && fat[..] == Link(geo.fatType, old(fat[..]), start, count, fill, count) && fmod
        && retcluster == start && got == count
      ensures err == EIO ==>
        fmod == old(fmod) && exists k :: 0 <= k < count && fat[..] == Link(geo.fatType, old(fat[..]), start, count, fill, k)
      ensures err != 0 ==> retcluster == 0 && got == 0
    {
      AllocRun(start, count);
      retcluster, got := 0, 0;
      err := FatChain(start, count, fill);
      if err != 0 {
        return;
      }
      retcluster, got := start, count;
    }

    /** The word test of the scan in msdosfs_clusteralloc: word idx with
        the bits below s forced to 1; when that is not all ones, ffs of its
        complement, so the first free cluster at or after bit s counted from
        1, and 0 when there is none. */
    method FirstFree(idx: nat, s: nat) returns (k: nat)
      requires idx < inuse.Length && s < N_INUSEBITS
      ensures k == LowestSetFrom(Not(inuse[idx]), s)
    {
      var w := Or(inuse[idx], LowBits(s));
      ClearFromS(inuse[idx], s);
      if IsAllOnes(w) {
        return 0;
      }
      MaskedFfs(Not(inuse[idx]), s);
      k := Ffs(Xor(w, ALL_ONES));
    }

    /** One of the two scans of msdosfs_clusteralloc: from cluster from on,
        while below to, find the first free cluster at or after cn a word at
        a time; when its run reaches count, stop there; otherwise remember
        the run if it is longer than any so far and go on past its end. The
        hit is the first free cluster scanned whose run reaches count;
        without a hit, every free cluster from `from` up to `to` starts a
        run shorter than count and no longer than the longest remembered,
        which is either the one passed in or one found by this scan with
        every free cluster scanned before it starting a shorter run. */
    method ScanRange(from: nat, to: nat, count: nat, fcn0: nat, fl0: nat)
      returns (hit: bool, cn: nat, foundcn: nat, foundl: nat)
      requires Valid() && Sane() && to <= geo.maxCluster + 1
      requires fl0 > 0 ==> fl0 < count && !Bit(inuse[..], fcn0) && RunFrom(inuse[..], fcn0) == fl0
      ensures hit ==> from <= cn && !Bit(inuse[..], cn) && RunFrom(inuse[..], cn) >= count
      ensures hit ==> Scanned(inuse[..], from, cn, count, count)
      ensures !hit ==> foundl >= fl0
      ensures !hit && foundl > 0 ==>
        foundl < count && !Bit(inuse[..], foundcn) && RunFrom(inuse[..], foundcn) == foundl
      ensures !hit ==> Scanned(inuse[..], from, to, count, foundl)
      ensures !hit ==>
        || (foundcn == fcn0 && foundl == fl0)
        || (fl0 < foundl && from <= foundcn && Shorter(inuse[..], from, foundcn, foundl))
    {
      ghost var m := inuse[..];
      hit, foundcn, foundl := false, fcn0, fl0;
      cn := from;
      while cn < to
        invariant from <= cn
        invariant foundl >= fl0
        invariant foundl > 0 ==> foundl < count && !Bit(m, foundcn) && RunFrom(m, foundcn) == foundl
        invariant Scanned(m, from, cn, count, foundl)
        invariant (foundcn == fcn0 && foundl == fl0) || (fl0 < foundl && from <= foundcn && Shorter(m, from, foundcn, foundl))
        decreases if cn <= to then to - cn else 0
      {
        hit, cn, foundcn, foundl := ScanStep(from, to, cn, count, foundcn, foundl);
        if hit {
          return;
        }
      }
    }

    /** One turn of the scan loop of msdosfs_clusteralloc at cluster cn0:
        skip to the first free cluster at or after it in its word and test
        the run there, or skip the rest of a word with no free cluster. The
        scan moves forward, keeps the longest run remembered, and widens
        what it has scanned up to the new position; a run it remembers in
        place of fl0 is longer than every run scanned before it. */
    method ScanStep(from: nat, to: nat, cn0: nat, count: nat, fcn0: nat, fl0: nat)
      returns (hit: bool, cn: nat, foundcn: nat, foundl: nat)
      requires Valid() && Sane() && from <= cn0 < to <= geo.maxCluster + 1
      requires fl0 > 0 ==> fl0 < count && !Bit(inuse[..], fcn0) && RunFrom(inuse[..], fcn0) == fl0
      requires Scanned(inuse[..], from, cn0, count, fl0)
      ensures cn0 <= cn && (!hit ==> cn0 < cn) && foundl >= fl0
      ensures foundl > 0 ==> foundl < count && !Bit(inuse[..], foundcn) && RunFrom(inuse[..], foundcn) == foundl
      ensures hit ==> !Bit(inuse[..], cn) && RunFrom(inuse[..], cn) >= count
      ensures hit ==> Scanned(inuse[..], from, cn, count, count)
      ensures !hit ==> Scanned(inuse[..], from, cn, count, foundl)
      ensures !hit ==>
        || (foundcn == fcn0 && foundl == fl0)
        || (fl0 < foundl && from <= foundcn && Shorter(inuse[..], from, foundcn, foundl))
    {
      ghost var m := inuse[..];
      hit, foundcn, foundl := false, fcn0, fl0;
      cn := cn0;
      var idx := cn / N_INUSEBITS;
      var s := cn % N_INUSEBITS;
      var k := FirstFree(idx, s);
      if k > 0 {
        var next := idx * N_INUSEBITS + k - 1;
        SkipToFree(m, from, cn, idx, s, k, next, count, foundl);
        cn := next;
        var l := ChainLength(cn, count);
        if l >= count {
          ScannedWeaker(m, from, cn, count, foundl, count);
          return true, cn, foundcn, foundl;
        }
        var fl := if l > foundl then l else foundl;
        PastRun(m, from, cn, l, count, foundl, fl);
        if l > foundl {
          foundcn, foundl := cn, l;
        }
        cn := cn + l + 1;
        return;
      }
      SkipWord(m, from, cn, idx, s, 32 * idx + 32, count, foundl);
      cn := cn + N_INUSEBITS - cn % N_INUSEBITS;
    }

    /** The search of msdosfs_clusteralloc, up to the chainalloc it ends
        in: the run it takes, or none (ENOSPC). seed stands for the clock
        value `(tv_usec >> 10) | tv_usec` that replaces a zero start. There
        is no run exactly when no cluster is free (and a preferred start
        with count 0 is not taken as is). */
    method FindRun(start: nat, count: nat, seed: nat) returns (ok: bool, s: nat, n: nat)
      requires Valid() && Sane()
      ensures !ok <==> (start == 0 || count > 0) && forall c: nat :: c <= geo.maxCluster ==> Bit(inuse[..], c)
      ensures ok ==> Picked(inuse[..], geo.maxCluster, start, count,
                            NewStart(if start != 0 then start else seed, geo.maxCluster), s, n)
      ensures ok ==> s == start || s <= geo.maxCluster
    {
      ghost var m := inuse[..];
      var st := start;
      var len := 0;
      if st != 0 {
        len := ChainLengthChecked(st, count);
        if len >= count {
          PickedStart(m, geo.maxCluster, start, count, NewStart(start, geo.maxCluster));
          return true, st, count;
        }
      } else {
        st := seed;
      }
      var newst := NewStart(st, geo.maxCluster);
      ok, s, n := Search(start, count, newst, len);
    }

    /** The two scans of msdosfs_clusteralloc once the preferred start is
        not taken: from newst to the end, then from 0 to newst; the first
        run reaching count, else the start's own shorter run, else the
        longest run met, else none. */
    method Search(start: nat, count: nat, newst: nat, len: nat) returns (ok: bool, s: nat, n: nat)
      requires Valid() && Sane() && newst <= geo.maxCluster
      requires !(start != 0 && RunFrom(inuse[..], start) >= count)
      requires len == if start != 0 then Min(count, RunFrom(inuse[..], start)) else 0
      ensures !ok <==> (start == 0 || count > 0) && forall c: nat :: c <= geo.maxCluster ==> Bit(inuse[..], c)
      ensures ok ==> Picked(inuse[..], geo.maxCluster, start, count, newst, s, n) && s <= geo.maxCluster
    {
      ghost var m := inuse[..];
      var hit, cn, foundcn, foundl := ScanRange(newst, geo.maxCluster + 1, count, 0, 0);
      if hit {
        PickedFirstScan(m, geo.maxCluster, start, count, newst, cn);
        return true, cn, count;
      }
      ok, s, n := SecondScan(start, count, newst, len, foundcn, foundl);
    }

    /** The second scan, from 0 up to newst, after a first one that found
        no run reaching count and remembered the longest run fl1 (at fcn1);
        then the choice among the start's own run, the first longest run met
        and none at all. */
    method SecondScan(start: nat, count: nat, newst: nat, len: nat, fcn1: nat, fl1: nat)
      returns (ok: bool, s: nat, n: nat)
      requires Valid() && Sane() && newst <= geo.maxCluster
      requires !(start != 0 && RunFrom(inuse[..], start) >= count)
      requires len == if start != 0 then Min(count, RunFrom(inuse[..], start)) else 0
      requires fl1 > 0 ==> fl1 < count && !Bit(inuse[..], fcn1) && RunFrom(inuse[..], fcn1) == fl1
      requires Scanned(inuse[..], newst, geo.maxCluster + 1, count, fl1)
      requires fl1 > 0 ==> newst <= fcn1 && Shorter(inuse[..], newst, fcn1, fl1)
      ensures !ok <==> (start == 0 || count > 0) && forall c: nat :: c <= geo.maxCluster ==> Bit(inuse[..], c)
      ensures ok ==> Picked(inuse[..], geo.maxCluster, start, count, newst, s, n) && s <= geo.maxCluster
    {
      ghost var m := inuse[..];
      var hit, cn, foundcn, foundl := ScanRange(0, newst, count, fcn1, fl1);
      if hit {
        PickedSecondScan(m, geo.maxCluster, start, count, newst, cn, fl1);
        return true, cn, count;
      }
      ScannedWeaker(m, newst, geo.maxCluster + 1, count, fl1, foundl);
      if foundl == 0 {
        ScannedAll(m, newst, geo.maxCluster, count, foundl);
        return false, 0, 0;
      }
      if len > 0 {
        PickedShort(m, geo.maxCluster, start, count, newst, foundl, start, len);
        return true, start, len;
      }
      FirstLongest(m, geo.maxCluster, newst, count, fcn1, fl1, foundcn, foundl);
      PickedShort(m, geo.maxCluster, start, count, newst, foundl, foundcn, foundl);
      return true, foundcn, foundl;
    }

    /** msdosfs_clusteralloc: allocate count clusters, from start when its
        run holds them, else the run the scans pick, marked in use and
        linked into a chain ending in CLUST_EOFE. ENOSPC exactly when no
        cluster is free (unless a preferred start is asked for no
        clusters), and then nothing changes. Otherwise the picked run is
        handed to chainalloc, with its outcomes; the counter keeps agreeing
        with the bitmap and the bitmap keeps every non-data cluster in
        use. */
    method ClusterAlloc(start: nat, count: nat, seed: nat)
      returns (err: nat, retcluster: nat, got: nat, ghost s: nat, ghost n: nat)
      requires Valid() && Sane() && start < U_LONG_MOD
      modifies inuse, this`freeCount, fat, this`fmod
      ensures Sane() && (old(Agree()) ==> Agree())
      ensures err == 0 || err == EINVAL || err == EIO || err == ENOSPC
      ensures err == ENOSPC <==>
        (start == 0 || count > 0) && forall c: nat :: c <= geo.maxCluster ==> Bit(old(inuse[..]), c)
      ensures err == ENOSPC ==>
        && inuse[..] == old(inuse[..]) && freeCount == old(freeCount)
        && fat[..] == old(fat[..]) && fmod == old(fmod)
      ensures err != ENOSPC ==>
        && Picked(old(inuse[..]), geo.maxCluster, start, count,
                  NewStart(if start != 0 then start else seed, geo.maxCluster), s, n)
        && inuse[..] == SetRun(old(inuse[..]), s, n)
        && freeCount == old(freeCount) - n
      ensures err == EINVAL ==>
        (s < CLUST_FIRST || s + n - 1 > geo.maxCluster) && fat[..] == old(fat[..]) && fmod == old(fmod)
      ensures err == 0 ==>
        && fat[..] == Link(geo.fatType, old(fat[..]), s, n, CLUST_EOFE, n) && fmod
        && retcluster == s && got == n
      ensures err == EIO ==>
        fmod == old(fmod) && exists k :: 0 <= k < n && fat[..] == Link(geo.fatType, old(fat[..]), s, n, CLUST_EOFE, k)
      ensures err != 0 ==> retcluster == 0 && got == 0
    {
      ghost var m := inuse[..];
      var ok, s0, n0 := FindRun(start, count, seed);
      s, n := s0, n0;
      if !ok {
        return ENOSPC, 0, 0, s, n;
      }
      err, retcluster, got := TakeRun(s0, n0);
    }

    /** The chainalloc call of msdosfs_clusteralloc, on a run of n free
        data clusters from s: as ChainAlloc, and the counter keeps agreeing
        with the bitmap, which keeps every non-data cluster in use. */
    method TakeRun(s: nat, n: nat) returns (err: nat, retcluster: nat, got: nat)
      requires Valid() && Sane() && s < U_LONG_MOD && n <= RunFrom(inuse[..], s)
      requires n > 0 ==> CLUST_FIRST <= s && s + n <= geo.maxCluster + 1
      modifies inuse, this`freeCount, fat, this`fmod
      ensures Sane() && (old(Agree()) ==> Agree())
      ensures inuse[..] == SetRun(old(inuse[..]), s, n) && freeCount == old(freeCount) - n
      ensures err == 0 || err == EINVAL || err == EIO
      ensures err == EINVAL ==> (s < CLUST_FIRST || s + n - 1 > geo.maxCluster) && fat[..] == old(fat[..]) && fmod == old(fmod)
      ensures err == 0 ==>
        && fat[..] == Link(geo.fatType, old(fat[..]), s, n, CLUST_EOFE, n) && fmod
        && retcluster == s && got == n
      ensures err == EIO ==>
        fmod == old(fmod) && exists k :: 0 <= k < n && fat[..] == Link(geo.fatType, old(fat[..]), s, n, CLUST_EOFE, k)
      ensures err != 0 ==> retcluster == 0 && got == 0
    {
      AllocCount(inuse[..], geo.maxCluster, s, n);
      err, retcluster, got := ChainAlloc(s, n, CLUST_EOFE);
    }

    /** The per-width `switch` of msdosfs_freeclusterchain: fetch the entry
        of cluster cn at byte o (shifted down a nibble for an odd FAT12
        cluster, masked with pm_fatmask), the next cluster to free, and
        store MSDOSFSFREE in its place, keeping the neighbouring FAT12
        nibble or the reserved FAT32 nibble. The read and the store are
        those of ReadEntryAt and PutEntryAt. */
    method FreeEntryAt(o: nat, cn: nat) returns (next: nat)
      requires Valid() && InRange(geo, cn) && o == EntryOffset(geo.fatType, cn)
      modifies fat
      ensures next == ReadEntry(old(fat[..]), geo.fatType, cn)
      ensures fat[..] == WriteEntry(old(fat[..]), geo.fatType, cn, MSDOSFSFREE)
    {
      next := ReadEntryAt(o, cn);
      PutEntryAt(o, cn, MSDOSFSFREE);
    }

    /** Part way through msdosfs_freeclusterchain from cluster0, with the
        table b0, the bitmap m0 and the counter fc0 it started from: the
        clusters of trail are freed, in order, and were the chain's first
        clusters in b0; cluster is the next one to free, or trail ended on a
        cluster freed twice and cluster is the 0 read from its entry. */
    ghost predicate Freed(b0: seq<Byte>, m0: seq<Word>, fc0: int, cluster0: nat, trail: seq<nat>, cluster: nat)
      reads this, fat, inuse
    {
      && Valid() && |b0| == FatBytes(geo) && |m0| == inuse.Length
      && TrailOf(geo, b0, cluster0, trail, cluster)
      && fat[..] == FreeAll(geo.fatType, b0, trail)
      && inuse[..] == ClearAll(m0, trail)
      && freeCount == fc0 + |trail|
    }

    /** One turn of the loop of msdosfs_freeclusterchain on data cluster
        cluster: read the FAT block holding its entry unless it is block
        lbn, the one read last; then usemap_free it and free its entry,
        moving on to the cluster its entry named. A failed read changes
        nothing. */
    method FreeStep(ghost b0: seq<Byte>, ghost m0: seq<Word>, ghost fc0: int, ghost cluster0: nat,
                    ghost trail: seq<nat>, cluster: nat, lbn: int)
      returns (err: nat, next: nat, lbn': int, ghost trail': seq<nat>)
      requires Freed(b0, m0, fc0, cluster0, trail, cluster) && InRange(geo, cluster)
      modifies fat, inuse, this`freeCount
      ensures err == 0 || err == EIO
      ensures err != 0 ==> next == cluster && trail' == trail && Freed(b0, m0, fc0, cluster0, trail, cluster)
      ensures err == 0 ==> |trail'| == |trail| + 1 && Freed(b0, m0, fc0, cluster0, trail', next)
    {
      HoldsInRange(geo, fat[..], cluster);
      trail', lbn' := trail, lbn;
      var ofs := EntryOffset(geo.fatType, cluster);
      var bn, bsize, bo := FatBlockOf(ofs);
      if lbn != bn {
        err := ReadBlock(bn, bsize);
        if err != 0 {
          return err, cluster, lbn, trail;
        }
        lbn' := bn;
      }
      err := 0;
      UsemapFree(cluster);
      next := FreeEntryAt(ofs, cluster);
      TrailNext(geo, b0, cluster0, trail, cluster, next);
      trail' := trail + [cluster];
      assert trail'[..|trail|] == trail;
    }

    /** The loop of msdosfs_freeclusterchain, run until the walk leaves the
        data clusters or a block read fails: it ends at cluster with trail
        freed. */
    method FreeLoop(cluster0: nat) returns (err: nat, ghost trail: seq<nat>, ghost cluster: nat)
      requires Valid()
      modifies fat, inuse, this`freeCount
      ensures err == 0 || err == EIO
      ensures Freed(old(fat[..]), old(inuse[..]), old(freeCount), cluster0, trail, cluster)
      ensures err == 0 ==> !InRange(geo, cluster)
      ensures !InRange(geo, cluster0) ==> err == 0 && trail == []
    {
      ghost var b0 := fat[..];
      ghost var m0 := inuse[..];
      trail := [];
      err := 0;
      var cn: nat := cluster0;
      var lbn: int := -1;
      while CLUST_FIRST <= cn <= geo.maxCluster
        invariant Freed(b0, m0, old(freeCount), cluster0, trail, cn) && err == 0
        invariant trail == [] ==> cn == cluster0
        decreases geo.maxCluster - |trail|
      {
        err, cn, lbn, trail := FreeStep(b0, m0, old(freeCount), cluster0, trail, cn, lbn);
        if err != 0 {
          break;
        }
      }
      cluster := cn;
    }

    /** msdosfs_freeclusterchain: follow the chain from cluster0, and for
        each data cluster on it mark it free in the bitmap, count it free
        and set its entry to MSDOSFSFREE, reading each FAT block when the
        walk enters it. trail is the clusters freed, in order: the chain's
        clusters in the table as it was, none twice except that the last may
        repeat an earlier one on a chain that loops (its entry, freed
        already, then reads 0 and ends the walk). Without a read error the
        walk ends as ChainEnds says. When the chain was a proper one over
        clusters in use, the counter keeps agreeing with the bitmap. */
    method FreeClusterChain(cluster0: nat) returns (err: nat, ghost trail: seq<nat>)
      requires Valid()
      modifies fat, inuse, this`freeCount
      ensures err == 0 || err == EIO
      ensures forall i :: 0 <= i < |trail| ==>
        && InRange(geo, trail[i]) && Holds(old(fat[..]), geo.fatType, trail[i]) && trail[i] / 32 < inuse.Length
        && ChainAt(geo, old(fat[..]), cluster0, i) == Some(trail[i])
      ensures Distinct(Front(trail))
      ensures fat[..] == FreeAll(geo.fatType, old(fat[..]), trail)
      ensures inuse[..] == ClearAll(old(inuse[..]), trail)
      ensures freeCount == old(freeCount) + |trail|
      ensures err == 0 ==> ChainEnds(geo, old(fat[..]), cluster0, trail)
      ensures old(Agree()) && Distinct(trail) && AllInUse(old(inuse[..]), trail) ==> Agree()
      ensures !InRange(geo, cluster0) ==> err == 0 && trail == []
    {
      ghost var b0 := fat[..];
      ghost var m0 := inuse[..];
      ghost var cluster;
      err, trail, cluster := FreeLoop(cluster0);
      TrailFront(geo, b0, cluster0, trail, cluster);
      if old(Agree()) && Distinct(trail) && AllInUse(m0, trail) {
        FreedAgree(m0, trail, geo.maxCluster);
      }
    }

    /** The first loop of msdosfs_fillinusemap: every word of the bitmap
        set to all ones. */
    method MarkAllInUse()
      requires Valid()
      modifies inuse
      ensures forall c: nat :: Bit(inuse[..], c)
      ensures FreeIn(inuse[..], CLUST_FIRST, geo.maxCluster + 1) == 0
    {
      var i := 0;
      AllOnesFull();
      while i < (geo.maxCluster + N_INUSEBITS) / N_INUSEBITS
        invariant i <= inuse.Length && forall j :: 0 <= j < i ==> IsAllOnes(inuse[j])
      {
        inuse[i] := ALL_ONES;
        i := i + 1;
      }
      FullMap(inuse[..], CLUST_FIRST, geo.maxCluster + 1);
    }

    /** The read of msdosfs_fillinusemap's second loop: 16 or 32 bits at
        byte o, shifted down a nibble for an odd FAT12 cluster, masked with
        pm_fatmask: the entry of cluster cn. */
    method ReadEntryAt(o: nat, cn: nat) returns (readcn: nat)
      requires Valid() && InRange(geo, cn) && o == EntryOffset(geo.fatType, cn)
      ensures readcn == ReadEntry(fat[..], geo.fatType, cn)
    {
      HoldsInRange(geo, fat[..], cn);
      readcn := if geo.fatType == FAT32 then GetULong(fat[..], o) else GetUShort(fat[..], o);
      if geo.fatType == FAT12 && cn % 2 == 1 {
        readcn := readcn / 16;
      }
      readcn := readcn % Modulus(geo.fatType);
    }

    /** One turn of msdosfs_fillinusemap's second loop, on cluster cn: read
        the FAT block when the entry starts one (or none was read yet), then
        usemap_free the cluster when its entry is free. */
    method FillStep(cn: nat, haveBlock: bool) returns (err: nat)
      requires Valid() && InRange(geo, cn)
      requires forall c: nat :: Bit(inuse[..], c) == !(c < cn && FreeEntry(geo, fat[..], c))
      requires freeCount == FreeIn(inuse[..], CLUST_FIRST, geo.maxCluster + 1)
      modifies inuse, this`freeCount
      ensures err == 0 || err == EIO
      ensures err != 0 ==> inuse[..] == old(inuse[..]) && freeCount == old(freeCount)
      ensures err == 0 ==> forall c: nat :: Bit(inuse[..], c) == !(c < cn + 1 && FreeEntry(geo, fat[..], c))
      ensures freeCount == FreeIn(inuse[..], CLUST_FIRST, geo.maxCluster + 1)
    {
      HoldsInRange(geo, fat[..], cn);
      var ofs := EntryOffset(geo.fatType, cn);
      var bo := ofs % geo.fatBlockSize;
      if bo == 0 || !haveBlock {
        var bn, bsize, _ := FatBlockOf(ofs);
        err := ReadBlock(bn, bsize);
        if err != 0 {
          return;
        }
      }
      err := 0;
      var readcn := ReadEntryAt(ofs, cn);
      if readcn == 0 {
        ClearBitCount(inuse[..], cn, CLUST_FIRST, geo.maxCluster + 1);
        UsemapFree(cn);
      }
    }

    /** msdosfs_fillinusemap: mark every cluster in use, zero the counter,
        then read the FAT from cluster CLUST_FIRST up and usemap_free each
        cluster whose entry is free, reading the next FAT block when an
        entry starts a block. The bitmap then marks in use exactly the
        clusters that are not free data clusters, and the counter agrees
        with it; a failed read stops the scan with the clusters before it
        done, the bitmap still sane and the counter still agreeing. */
    method FillInUseMap() returns (err: nat)
      requires Valid()
      modifies inuse, this`freeCount
      ensures err == 0 || err == EIO
      ensures Sane() && Agree()
      ensures err == 0 ==> forall c: nat :: Bit(inuse[..], c) == !FreeEntry(geo, fat[..], c)
    {
      MarkAllInUse();
      freeCount := 0;
      var cn := CLUST_FIRST;
      var haveBlock := false;
      err := 0;
      while cn <= geo.maxCluster
        invariant CLUST_FIRST <= cn <= geo.maxCluster + 1 && err == 0
        invariant forall c: nat :: Bit(inuse[..], c) == !(c < cn && FreeEntry(geo, fat[..], c))
        invariant freeCount == FreeIn(inuse[..], CLUST_FIRST, geo.maxCluster + 1)
      {
        err := FillStep(cn, haveBlock);
        if err != 0 {
          return;
        }
        haveBlock := true;
        cn := cn + 1;
      }
    }
  }
}
