// The per-file side of the cluster-chain engine (`struct denode`): the
// file's start cluster and its FAT cache of (file-relative cluster,
// volume cluster) hints, msdosfs_fc_lookup and msdosfs_fc_purge over that
// cache, the logical-to-physical mapper msdosfs_pcbmap, which walks the
// chain from the closest hint, and msdosfs_extendfile, which allocates
// runs and links them onto the end of the chain.
module FatDenode {
  import opened Words
  import opened FatCodec
  import opened FatGeometry
  import opened UseMap
  import opened FatTable
  import opened FatMount
  import opened FatExtend

  /** The cache slots: the last cluster mapped, the last cluster of the
      file and, saved by msdosfs_extendfile, the one before it. */
  const FC_SIZE: nat := 3
  const FC_LASTMAP: nat := 0
  const FC_LASTFC: nat := 1
  const FC_NEXTTOLASTFC: nat := 2
  /** `FCE_EMPTY`: the file-relative index of an empty slot. */
  const FCE_EMPTY: nat := 0xffff_ffff
  /** `MSDOSFSROOT`: the start cluster of the FAT12/16 root directory. */
  const MSDOSFSROOT: nat := 0
  /** `CLUST_END`: a file-relative index past the end of any file. */
  const CLUST_END: nat := 0xffff_ffff

  /** One slot of `de_fc`: file-relative cluster frcn is volume cluster
      fsrcn. */
  datatype FatCache = FatCache(frcn: nat, fsrcn: nat)

  /** `u_long` decrement. */
  function Dec(i: nat): (r: nat)
    requires i < U_LONG_MOD
    ensures r < U_LONG_MOD && (r + 1) % U_LONG_MOD == i
  {
    if i == 0 then U_LONG_MOD - 1 else i - 1
  }

  /** `u_long` increment followed by adding got - 1 is adding got. */
  lemma IncThenAdd(a: nat, got: nat)
    requires got > 0
    ensures ((a + 1) % U_LONG_MOD + got - 1) % U_LONG_MOD == (a + got) % U_LONG_MOD
  {
    var q := (a + 1) / U_LONG_MOD;
    assert (a + 1) % U_LONG_MOD + got - 1 == (a + got) - q * U_LONG_MOD;
  }

  // ---------------------------------------------------------------------
  // msdosfs_fc_lookup and msdosfs_fc_purge

  /** A slot msdosfs_fc_lookup may pick for findcn: not empty and not past
      findcn. */
  predicate Usable(e: FatCache, findcn: nat)
  {
    e.frcn != FCE_EMPTY && e.frcn <= findcn
  }

  /** The slot msdosfs_fc_lookup's loop has picked after the first k slots:
      a later slot replaces the pick only with a strictly larger index. */
  function Closest(s: seq<FatCache>, findcn: nat, k: nat): (r: Option<nat>)
    requires k <= |s|
    ensures r.Some? ==> r.value < k && Usable(s[r.value], findcn)
  {
    if k == 0 then None
    else
      var r := Closest(s, findcn, k - 1);
      if Usable(s[k - 1], findcn) && (r.None? || s[k - 1].frcn > s[r.value].frcn) then Some(k - 1) else r
  }

  /** The pick is a usable slot with the largest index, the first of
      those, and there is none only when no slot is usable. */
  lemma {:induction false} ClosestIsBest(s: seq<FatCache>, findcn: nat, k: nat)
    requires k <= |s|
    ensures Closest(s, findcn, k).None? <==> forall j :: 0 <= j < k ==> !Usable(s[j], findcn)
    ensures Closest(s, findcn, k).Some? ==>
      var c := Closest(s, findcn, k).value;
      && (forall j :: 0 <= j < k && Usable(s[j], findcn) ==> s[j].frcn <= s[c].frcn)
      && (forall j :: 0 <= j < c && Usable(s[j], findcn) ==> s[j].frcn < s[c].frcn)
  {
    if k > 0 {
      ClosestIsBest(s, findcn, k - 1);
    }
  }

  /** The hint msdosfs_fc_lookup leaves in its outputs when they held
      dflt: the picked slot, or dflt untouched. */
  function Hint(s: seq<FatCache>, findcn: nat, dflt: FatCache): FatCache
  {
    match Closest(s, findcn, |s|)
    case None => dflt
    case Some(j) => s[j]
  }

  /** msdosfs_fc_lookup yields the usable slot with the largest index not
      past findcn, and leaves its outputs untouched when no slot is
      usable. */
  lemma HintIsBest(s: seq<FatCache>, findcn: nat, dflt: FatCache)
    ensures (forall j :: 0 <= j < |s| ==> !Usable(s[j], findcn)) ==> Hint(s, findcn, dflt) == dflt
    ensures (exists j :: 0 <= j < |s| && Usable(s[j], findcn)) ==>
      exists j :: 0 <= j < |s| && Hint(s, findcn, dflt) == s[j] && Usable(s[j], findcn) &&
        forall k :: 0 <= k < |s| && Usable(s[k], findcn) ==> s[k].frcn <= s[j].frcn
  {
    ClosestIsBest(s, findcn, |s|);
  }

  /** The cache after msdosfs_fc_purge(frcn): every slot whose index is
      frcn or more is emptied. */
  function Purge(s: seq<FatCache>, frcn: nat): (r: seq<FatCache>)
    ensures |r| == |s|
  {
    seq(|s|, i requires 0 <= i < |s| => if s[i].frcn >= frcn then s[i].(frcn := FCE_EMPTY) else s[i])
  }

  /** After a purge from frcn, exactly the slots below frcn are kept, and
      msdosfs_fc_lookup can only pick a hint below frcn. */
  lemma PurgeKeepsBelow(s: seq<FatCache>, frcn: nat, findcn: nat, dflt: FatCache)
    ensures forall i :: 0 <= i < |s| ==> (Purge(s, frcn)[i] == s[i] <==> s[i].frcn < frcn || s[i].frcn == FCE_EMPTY)
    ensures forall i :: 0 <= i < |s| && Usable(Purge(s, frcn)[i], findcn) ==> Purge(s, frcn)[i].frcn < frcn
    ensures Hint(Purge(s, frcn), findcn, dflt) == dflt || Hint(Purge(s, frcn), findcn, dflt).frcn < frcn
  {
    var t := Purge(s, frcn);
    HintIsBest(t, findcn, dflt);
  }

  // ---------------------------------------------------------------------
  // msdosfs_pcbmap

  /** The error msdosfs_pcbmap returns for an outcome of the walk. */
  function OutcomeError(r: Outcome): nat
  {
    match r
    case Mapped(_, _) => 0
    case HitEof(_, _) => E2BIG
    case Corrupt => EINVAL
  }

  /** A hint the chain from start bears out: an empty slot, or a slot
      whose index names one of the chain's data clusters. */
  ghost predicate HintOk(g: Geometry, b: seq<Byte>, start: nat, e: FatCache)
    requires ValidGeometry(g) && |b| == FatBytes(g)
  {
    e.frcn == FCE_EMPTY || (ChainAt(g, b, start, e.frcn) == Some(e.fsrcn) && InRange(g, e.fsrcn))
  }

  ghost predicate HintsOk(g: Geometry, b: seq<Byte>, start: nat, s: seq<FatCache>)
    requires ValidGeometry(g) && |b| == FatBytes(g)
  {
    forall k :: 0 <= k < |s| ==> HintOk(g, b, start, s[k])
  }

  /** With hints the chain bears out, msdosfs_pcbmap's walk from the hint
      msdosfs_fc_lookup picks ends exactly as the walk from the start
      cluster: the cache changes how far the walk goes, never where it
      ends. */
  lemma HintedWalk(g: Geometry, b: seq<Byte>, start: nat, s: seq<FatCache>, findcn: nat)
    requires ValidGeometry(g) && |b| == FatBytes(g) && HintsOk(g, b, start, s)
    ensures var h := Hint(s, findcn, FatCache(0, start));
      Walk(g, b, h.frcn, findcn, h.fsrcn, 0) == Walk(g, b, 0, findcn, start, 0)
  {
    ClosestIsBest(s, findcn, |s|);
    var h := Hint(s, findcn, FatCache(0, start));
    if h != FatCache(0, start) {
      HintWalk(g, b, start, h.frcn, h.fsrcn, findcn);
    }
  }

  /** A walk that ends on an end-of-chain mark past where it started
      reports a data cluster as the last one. */
  lemma {:induction false} WalkLast(g: Geometry, b: seq<Byte>, i: nat, findcn: nat, cn: nat, prev: nat)
    requires ValidGeometry(g) && |b| == FatBytes(g)
    ensures var r := Walk(g, b, i, findcn, cn, prev);
      r.HitEof? && r.index > i ==> InRange(g, r.last)
    decreases if i <= findcn then findcn - i else 0
  {
    if i < findcn && cn < Reserved(g.fatType) && InRange(g, cn) {
      HoldsInRange(g, b, cn);
      WalkLast(g, b, i + 1, findcn, ReadEntry(b, g.fatType, cn), cn);
    }
  }

  /** The hints msdosfs_pcbmap records keep the cache borne out by the
      chain: the cluster mapped at findcn when it is a data cluster, and
      the last cluster of the file when the walk ends past index 0. */
  lemma RecordedHints(g: Geometry, b: seq<Byte>, start: nat, s: seq<FatCache>, findcn: nat)
    requires ValidGeometry(g) && |b| == FatBytes(g) && HintsOk(g, b, start, s) && |s| == FC_SIZE
    ensures var r := Walk(g, b, 0, findcn, start, 0);
      && (r.Mapped? && InRange(g, r.cluster) ==>
            HintsOk(g, b, start, s[FC_LASTMAP := FatCache(r.index, r.cluster)]))
      && (r.HitEof? && r.index > 0 ==>
            HintsOk(g, b, start, s[FC_LASTFC := FatCache(r.index - 1, r.last)]))
  {
    WalkChain(g, b, start, 0, findcn, 0);
    WalkEof(g, b, start, 0, findcn, 0);
    WalkLast(g, b, 0, findcn, start, 0);
  }

  /** Releasing one allocated data cluster counts one free cluster more;
      setting its bit again restores the count; neither touches a
      non-data cluster. */
  lemma ReleaseCount(m: seq<Word>, maxCluster: nat, c: nat)
    requires c / 32 < |m| && CLUST_FIRST <= c <= maxCluster && Bit(m, c)
    ensures FreeIn(ClearBit(m, c), CLUST_FIRST, maxCluster + 1) == FreeIn(m, CLUST_FIRST, maxCluster + 1) + 1
    ensures FreeIn(SetBit(ClearBit(m, c), c), CLUST_FIRST, maxCluster + 1) == FreeIn(m, CLUST_FIRST, maxCluster + 1)
    ensures MapSane(m, maxCluster) ==> MapSane(ClearBit(m, c), maxCluster) && MapSane(SetBit(ClearBit(m, c), c), maxCluster)
  {
    ClearBitCount(m, c, CLUST_FIRST, maxCluster + 1);
    FreeInSame(SetBit(ClearBit(m, c), c), m, CLUST_FIRST, maxCluster + 1);
  }

  class Denode {
    /** `de_pmp`: the volume the file is on. */
    const pmp: Mount
    /** `de_Attributes & ATTR_DIRECTORY`. */
    const isDir: bool
    /** `de_FileSize`. */
    const fileSize: nat
    /** `de_StartCluster`. */
    var startCluster: nat
    /** `de_fc`. */
    const fc: array<FatCache>

    ghost predicate Valid()
    {
      pmp.Valid() && fc.Length == FC_SIZE
    }

    /** A file on volume mount with an empty cache, as a new denode has
        it. */
    constructor (mount: Mount, start: nat, dir: bool, size: nat)
      requires mount.Valid()
      ensures Valid() && pmp == mount && startCluster == start && isDir == dir && fileSize == size
      ensures forall i :: 0 <= i < FC_SIZE ==> fc[i].frcn == FCE_EMPTY
    {
      pmp := mount;
      isDir := dir;
      fileSize := size;
      startCluster := start;
      fc := new FatCache[FC_SIZE](_ => FatCache(FCE_EMPTY, 0));
    }

    /** msdosfs_fc_lookup: scan the slots for the usable one with the
        largest index, the first such on a tie, and copy it into the
        outputs, which otherwise keep frcn0 and fsrcn0. */
    method FcLookup(findcn: nat, frcn0: nat, fsrcn0: nat) returns (frcn: nat, fsrcn: nat)
      requires fc.Length == FC_SIZE
      ensures FatCache(frcn, fsrcn) == Hint(fc[..], findcn, FatCache(frcn0, fsrcn0))
    {
      var closest: Option<nat> := None;
      for i := 0 to FC_SIZE
        invariant closest == Closest(fc[..], findcn, i)
      {
        var cn := fc[i].frcn;
        if cn != FCE_EMPTY && cn <= findcn {
          if closest == None || cn > fc[closest.value].frcn {
            closest := Some(i);
          }
        }
      }
      frcn, fsrcn := frcn0, fsrcn0;
      if closest.Some? {
        frcn, fsrcn := fc[closest.value].frcn, fc[closest.value].fsrcn;
      }
    }

    /** msdosfs_fc_purge: empty every slot whose index is frcn or more;
        frcn is a `u_int`. */
    method FcPurge(frcn: nat)
      requires fc.Length == FC_SIZE && frcn < 0x1_0000_0000
      modifies fc
      ensures fc[..] == Purge(old(fc[..]), frcn)
    {
      for i := 0 to FC_SIZE
        invariant forall j :: 0 <= j < i ==> fc[j] == Purge(old(fc[..]), frcn)[j]
        invariant forall j :: i <= j < FC_SIZE ==> fc[j] == old(fc[j])
      {
        if fc[i].frcn >= frcn {
          fc[i] := fc[i].(frcn := FCE_EMPTY);
        }
      }
    }
  
    /** msdosfs_pcbmap: map file-relative cluster findcn to its block, its
        cluster and the size of the transfer.
        The FAT12/16 root directory (start cluster MSDOSFSROOT) is one
        contiguous region: an index at or past the directory's size gives
        E2BIG with the number of clusters of the region, any other index
        its block, MSDOSFSROOT and the bytes left in that cluster; a
        non-directory file with start cluster MSDOSFSROOT is empty and
        gives E2BIG with 0.
        Any other file is walked from the hint msdosfs_fc_lookup picks (or
        from index 0 at the start cluster) as Walk describes: a cluster
        reached at findcn that does not end the chain gives 0, its block,
        and records (findcn, cluster) as the last mapped hint; a reserved
        cluster or an end-of-chain mark gives E2BIG with the index reached,
        and records the index before it and the cluster read last as the
        last-cluster hint; a link outside the data clusters gives EINVAL.
        A failed FAT block read gives EIO. */
    method PcbMap(findcn: nat) returns (err: nat, bn: nat, cn: nat, size: nat, ghost hint: FatCache)
      requires Valid() && findcn < U_LONG_MOD
      modifies fc
      ensures err == 0 || err == E2BIG || err == EINVAL || err == EIO
      ensures startCluster == MSDOSFSROOT ==> fc[..] == old(fc[..])
      ensures startCluster == MSDOSFSROOT && isDir && Cn2Off(pmp.geo, findcn) >= fileSize ==>
        err == E2BIG && cn == Bn2Cn(pmp.geo, pmp.geo.rootDirSize)
      ensures startCluster == MSDOSFSROOT && isDir && Cn2Off(pmp.geo, findcn) < fileSize ==>
        && err == 0 && bn == pmp.geo.rootDirBlk + Cn2Bn(pmp.geo, findcn) && cn == MSDOSFSROOT
        && size == Min(pmp.geo.bpCluster, fileSize - Cn2Off(pmp.geo, findcn))
      ensures startCluster == MSDOSFSROOT && !isDir ==> err == E2BIG && cn == 0
      ensures startCluster != MSDOSFSROOT ==>
        var r := Walk(pmp.geo, pmp.fat[..], hint.frcn, findcn, hint.fsrcn, 0);
        && hint == Hint(old(fc[..]), findcn, FatCache(0, startCluster))
        && size == pmp.geo.bpCluster
        && (err == EIO || err == OutcomeError(r))
        && (err == 0 ==>
              && cn == r.cluster && bn == CnToBn(pmp.geo, r.cluster)
              && fc[..] == old(fc[..])[FC_LASTMAP := FatCache(findcn, r.cluster)])
        && (err == E2BIG ==> cn == r.index && fc[..] == old(fc[..])[FC_LASTFC := FatCache(Dec(r.index), r.last)])
        && (err == EINVAL || err == EIO ==> cn == 0 && fc[..] == old(fc[..]))
    {
      bn, cn, size := 0, 0, 0;
      hint := FatCache(0, 0);
      var g := pmp.geo;
      if startCluster == MSDOSFSROOT {
        if isDir {
          if Cn2Off(g, findcn) >= fileSize {
            return E2BIG, bn, Bn2Cn(g, g.rootDirSize), size, hint;
          }
          bn := g.rootDirBlk + Cn2Bn(g, findcn);
          return 0, bn, MSDOSFSROOT, Min(g.bpCluster, fileSize - Cn2Off(g, findcn)), hint;
        } else {
          return E2BIG, bn, 0, size, hint;
        }
      }
      size := g.bpCluster;
      var i;
      i, cn := FcLookup(findcn, 0, startCluster);
      hint := FatCache(i, cn);
      ghost var r := Walk(g, pmp.fat[..], i, findcn, cn, 0);
      var prevcn := 0;
      var bpBn: Option<nat> := None;
      while i < findcn
        invariant i <= findcn && Walk(g, pmp.fat[..], i, findcn, cn, prevcn) == r
        invariant fc[..] == old(fc[..])
        decreases findcn - i
      {
        if cn >= Reserved(g.fatType) {
          fc[FC_LASTFC] := FatCache(Dec(i), prevcn);
          return E2BIG, bn, i, size, hint;
        }
        if cn < CLUST_FIRST || cn > g.maxCluster {
          return EINVAL, bn, 0, size, hint;
        }
        HoldsInRange(g, pmp.fat[..], cn);
        var ofs := EntryOffset(g.fatType, cn);
        var fbn, bsize, bo := pmp.FatBlockOf(ofs);
        if bpBn != Some(fbn) {
          err := pmp.ReadBlock(fbn, bsize);
          if err != 0 {
            return err, bn, 0, size, hint;
          }
          bpBn := Some(fbn);
        }
        prevcn := cn;
        cn := pmp.ReadEntryAt(ofs, cn);
        i := i + 1;
      }
      if !IsEof(g.fatType, cn) {
        fc[FC_LASTMAP] := FatCache(i, cn);
        return 0, CnToBn(g, cn), cn, size, hint;
      }
      fc[FC_LASTFC] := FatCache(Dec(i), prevcn);
      return E2BIG, bn, i, size, hint;
    }

    /** The tail of msdosfs_extendfile's loop for a run of got clusters
        from cn that msdosfs_clusteralloc has just granted: an empty file
        starts at cn; otherwise the entry of the cached last cluster is set
        to cn, and when that fails only cn is given back with
        msdosfs_clusterfree (the rest of the run stays allocated) and the
        error returned. On success the last-cluster hint moves to the
        run's last cluster, got clusters further on. */
    method Append(cn: nat, got: nat) returns (err: nat)
      requires Valid() && pmp.Sane() && got > 0
      requires CLUST_FIRST <= cn && cn + got - 1 <= pmp.geo.maxCluster && Bit(pmp.inuse[..], cn)
      modifies this, fc, pmp, pmp.fat, pmp.inuse
      ensures pmp.Sane() && (old(pmp.Agree()) ==> pmp.Agree())
      ensures fc[FC_LASTMAP] == old(fc[FC_LASTMAP]) && fc[FC_NEXTTOLASTFC] == old(fc[FC_NEXTTOLASTFC])
      ensures old(startCluster) == 0 ==>
        && err == 0 && startCluster == cn && fc[FC_LASTFC] == FatCache(got - 1, cn + got - 1)
        && pmp.fat[..] == old(pmp.fat[..]) && pmp.fmod == old(pmp.fmod)
        && pmp.inuse[..] == old(pmp.inuse[..]) && pmp.freeCount == old(pmp.freeCount)
      ensures old(startCluster) != 0 ==>
        var last := old(fc[FC_LASTFC]);
        && startCluster == old(startCluster)
        && (err == 0 || err == EINVAL || err == EIO)
        && (!InRange(pmp.geo, last.fsrcn) ==> err == EINVAL)
        && (err == 0 ==>
              && pmp.fat[..] == WriteEntry(old(pmp.fat[..]), pmp.geo.fatType, last.fsrcn, cn) && pmp.fmod
              && pmp.inuse[..] == old(pmp.inuse[..]) && pmp.freeCount == old(pmp.freeCount)
              && fc[FC_LASTFC] == FatCache((last.frcn + got) % U_LONG_MOD, cn + got - 1))
        && (err != 0 ==>
              && fc[FC_LASTFC] == last
              && (|| (&& pmp.fat[..] == WriteEntry(old(pmp.fat[..]), pmp.geo.fatType, cn, MSDOSFSFREE) && pmp.fmod
                     && pmp.inuse[..] == ClearBit(old(pmp.inuse[..]), cn) && pmp.freeCount == old(pmp.freeCount) + 1)
                  || (&& pmp.fat[..] == old(pmp.fat[..]) && pmp.fmod == old(pmp.fmod)
                     && pmp.inuse[..] == SetBit(ClearBit(old(pmp.inuse[..]), cn), cn) && pmp.freeCount == old(pmp.freeCount))))
    {
      err := 0;
      ReleaseCount(pmp.inuse[..], pmp.geo.maxCluster, cn);
      assert got - 1 < U_LONG_MOD by {
        assert pmp.geo.maxCluster < Reserved(pmp.geo.fatType) < 0x1000_0000;
      }
      var last := fc[FC_LASTFC];
      var frcn: nat;
      if startCluster == 0 {
        startCluster := cn;
        frcn := 0;
      } else {
        var o;
        err, o := pmp.FatEntry(Set, last.fsrcn, cn);
        if err != 0 {
          var e, oldcn := pmp.ClusterFree(cn);
          return;
        }
        frcn := (last.frcn + 1) % U_LONG_MOD;
        IncThenAdd(last.frcn, got);
      }
      fc[FC_LASTFC] := FatCache((frcn + got - 1) % U_LONG_MOD, cn + got - 1);
    }

    /** msdosfs_extendfile: add count clusters to the end of the file.
        The root directory cannot grow (ENOSPC, nothing changes). When the
        last-cluster hint is empty and the file is not, msdosfs_pcbmap to
        CLUST_END fills it; any result but E2BIG is returned as it is (so a
        chain that never ends returns 0 without extending: early). The
        hint is then saved as the next-to-last one, and runs are allocated
        from the cluster after the file's last one and appended until
        count clusters are added; ncp is the first cluster of the first
        run. The bitmap keeps every non-data cluster in use and the counter
        keeps agreeing with it. On success count clusters are taken and the
        last-cluster hint has moved count clusters on, to the last of them:
        the clusters added, in file order, are distinct data clusters that
        were free and are now the only ones newly in use, and they form an
        end-marked chain of their own when the file was empty (which now
        starts at the first of them) and one hanging off the old last
        cluster otherwise (when that cluster was in use, as it is in a
        consistent file system). */
    method ExtendFile(count: nat, seed: nat)
      returns (err: nat, ncp: nat, ghost early: bool, ghost tail: FatCache, ghost added: seq<nat>)
      requires Valid() && pmp.Sane() && count < U_LONG_MOD && fc[FC_LASTFC].frcn < U_LONG_MOD
      modifies this, fc, pmp, pmp.fat, pmp.inuse
      ensures err == 0 || err == ENOSPC || err == EINVAL || err == EIO
      ensures pmp.Sane() && (old(pmp.Agree()) ==> pmp.Agree())
      ensures old(startCluster) == MSDOSFSROOT && isDir ==>
        && err == ENOSPC && !early && startCluster == old(startCluster) && fc[..] == old(fc[..])
        && pmp.fat[..] == old(pmp.fat[..]) && pmp.inuse[..] == old(pmp.inuse[..])
        && pmp.freeCount == old(pmp.freeCount) && pmp.fmod == old(pmp.fmod)
      ensures old(startCluster) != 0 ==> startCluster == old(startCluster)
      ensures early ==>
        && err == 0 && old(startCluster) != 0 && old(fc[FC_LASTFC]).frcn == FCE_EMPTY
        && pmp.fat[..] == old(pmp.fat[..]) && pmp.inuse[..] == old(pmp.inuse[..])
        && pmp.freeCount == old(pmp.freeCount) && pmp.fmod == old(pmp.fmod)
      ensures err == 0 && !early ==>
        && pmp.freeCount == old(pmp.freeCount) - count
        && fc[FC_NEXTTOLASTFC] == tail
        && (old(startCluster) != 0 ==> fc[FC_LASTFC].frcn == (tail.frcn + count) % U_LONG_MOD)
        && (old(startCluster) == 0 && count > 0 ==>
              && InRange(pmp.geo, startCluster) && ncp == startCluster && fc[FC_LASTFC].frcn == count - 1)
      ensures err == 0 && !early ==>
        && |added| == count && Distinct(added)
        && (forall j :: 0 <= j < count ==> InRange(pmp.geo, added[j]) && !Bit(old(pmp.inuse[..]), added[j]))
        && (forall d: nat {:trigger Bit(pmp.inuse[..], d)} :: Bit(pmp.inuse[..], d) == (Bit(old(pmp.inuse[..]), d) || d in added))
        && (count > 0 ==> ncp == added[0] && fc[FC_LASTFC].fsrcn == added[count - 1])
        && (count > 0 && old(startCluster) == 0 ==> startCluster == added[0] && Chained(pmp.geo, pmp.fat[..], added))
        && (count > 0 && old(startCluster) != 0 && Bit(old(pmp.inuse[..]), tail.fsrcn) ==>
              Chained(pmp.geo, pmp.fat[..], [tail.fsrcn] + added))
    {
      early, tail, ncp, added := false, fc[FC_LASTFC], 0, [];
      if startCluster == MSDOSFSROOT && isDir {
        return ENOSPC, ncp, early, tail, added;
      }
      if fc[FC_LASTFC].frcn == FCE_EMPTY && startCluster != 0 {
        var bn, cn, size;
        ghost var hint;
        err, bn, cn, size, hint := PcbMap(CLUST_END);
        if err != E2BIG {
          early := err == 0;
          return err, ncp, early, tail, added;
        }
      }
      fc[FC_NEXTTOLASTFC] := fc[FC_LASTFC];
      tail := fc[FC_LASTFC];
      err, ncp, added := ExtendRuns(count, seed);
      if err == 0 {
        GrownFile(pmp.geo, old(pmp.inuse[..]), pmp.fat[..], pmp.inuse[..], old(startCluster), tail.fsrcn,
                  added, startCluster, fc[FC_LASTFC].fsrcn);
      }
    }

    /** Stands, on this file's start, hint, table and bitmap. */
    ghost predicate Progress(start0: nat, base: nat, m0: seq<Word>, tail0: nat, added: seq<nat>, done: nat)
      reads this, fc, pmp, pmp.fat, pmp.inuse
      requires Valid() && pmp.Sane()
    {
      Stands(pmp.geo, m0, pmp.fat[..], pmp.inuse[..], start0, base, tail0, added, done,
             startCluster, fc[FC_LASTFC].frcn, fc[FC_LASTFC].fsrcn)
    }

    /** The loop of msdosfs_extendfile: allocate and append runs until
        count clusters are added, returning the first error; ncp is the
        first cluster of the first run granted. On success count clusters
        are taken and the last-cluster hint has moved count clusters on;
        the clusters added, in file order, keep the Grown relation to the
        table, bitmap and hint (so a file that was empty starts at ncp). */
    method ExtendRuns(count: nat, seed: nat) returns (err: nat, ncp: nat, ghost added: seq<nat>)
      requires Valid() && pmp.Sane() && fc[FC_LASTFC].frcn < U_LONG_MOD && count < U_LONG_MOD
      modifies this, fc, pmp, pmp.fat, pmp.inuse
      ensures err == 0 || err == ENOSPC || err == EINVAL || err == EIO
      ensures pmp.Sane() && (old(pmp.Agree()) ==> pmp.Agree())
      ensures fc[FC_NEXTTOLASTFC] == old(fc[FC_NEXTTOLASTFC])
      ensures old(startCluster) != 0 ==> startCluster == old(startCluster)
      ensures err == 0 ==>
        && pmp.freeCount == old(pmp.freeCount) - count
        && (old(startCluster) != 0 ==> fc[FC_LASTFC].frcn == (old(fc[FC_LASTFC].frcn) + count) % U_LONG_MOD)
        && (old(startCluster) == 0 && count > 0 ==>
              && InRange(pmp.geo, startCluster) && ncp == startCluster && fc[FC_LASTFC].frcn == count - 1)
      ensures err == 0 ==>
        && |added| == count && (count > 0 ==> ncp == added[0])
        && Grown(pmp.geo, old(pmp.inuse[..]), pmp.fat[..], pmp.inuse[..], old(startCluster),
                 old(fc[FC_LASTFC]).fsrcn, added, startCluster, fc[FC_LASTFC].fsrcn)
    {
      ghost var start0, base, m0, tail0 := startCluster, fc[FC_LASTFC].frcn, pmp.inuse[..], fc[FC_LASTFC].fsrcn;
      ncp, added := 0, [];
      var left: nat := count;
      ghost var done: nat := 0;
      err := 0;
      while left > 0
        invariant Valid() && pmp.Sane() && (old(pmp.Agree()) ==> pmp.Agree())
        invariant done + left == count && pmp.freeCount == old(pmp.freeCount) - done
        invariant fc[FC_NEXTTOLASTFC] == old(fc[FC_NEXTTOLASTFC])
        invariant Progress(start0, base, m0, tail0, added, done)
        invariant done > 0 ==> ncp == added[0]
        decreases left
      {
        var cn, got;
        err, cn, got := ExtendTurn(left, seed, start0, base, m0, tail0, added, done);
        if left == count && got > 0 {
          ncp := cn;
        }
        if err != 0 {
          return;
        }
        added := added + Run(cn, got);
        left, done := left - got, done + got;
      }
    }

    /** ExtendStep seen against the loop's Progress: it moves on by the
        run it grants. */
    method ExtendTurn(left: nat, seed: nat, ghost start0: nat, ghost base: nat, ghost m0: seq<Word>,
                      ghost tail0: nat, ghost added: seq<nat>, ghost done: nat)
      returns (err: nat, cn: nat, got: nat)
      requires Valid() && pmp.Sane() && left > 0 && done + left < U_LONG_MOD
      requires Progress(start0, base, m0, tail0, added, done)
      modifies this, fc, pmp, pmp.fat, pmp.inuse
      ensures pmp.Sane() && (old(pmp.Agree()) ==> pmp.Agree())
      ensures err == 0 || err == EINVAL || err == EIO || err == ENOSPC
      ensures fc[FC_NEXTTOLASTFC] == old(fc[FC_NEXTTOLASTFC])
      ensures old(startCluster) != 0 ==> startCluster == old(startCluster)
      ensures err == 0 ==> 0 < got <= left && pmp.freeCount == old(pmp.freeCount) - got
      ensures got > 0 ==> CLUST_FIRST <= cn
      ensures err == 0 ==> Progress(start0, base, m0, tail0, added + Run(cn, got), done + got)
    {
      err, cn, got := ExtendStep(left, seed);
      if err == 0 {
        StandsStep(pmp.geo, m0, start0, base, tail0, added, done, old(pmp.fat[..]), old(pmp.inuse[..]),
                   old(startCluster), old(fc[FC_LASTFC].frcn), old(fc[FC_LASTFC].fsrcn),
                   pmp.fat[..], startCluster, fc[FC_LASTFC].frcn, cn, got);
      }
    }

    /** One turn of msdosfs_extendfile's loop: allocate a run for the left
        clusters still wanted, from the cluster after the file's last one
        (or from seed's scan for an empty file), and append it; the
        allocation's error is returned with the file unchanged, the
        append's after its msdosfs_clusterfree. On success got clusters,
        at least one and at most left, free until now, are taken and
        linked, after the file's last cluster unless the file was empty,
        in which case it now starts at the run, cn; the last-cluster hint
        moves got clusters on, to the run's last cluster. A failed
        allocation grants nothing (got is 0). */
    method ExtendStep(left: nat, seed: nat) returns (err: nat, cn: nat, got: nat)
      requires Valid() && pmp.Sane() && left > 0
      modifies this, fc, pmp, pmp.fat, pmp.inuse
      ensures pmp.Sane() && (old(pmp.Agree()) ==> pmp.Agree())
      ensures err == 0 || err == EINVAL || err == EIO || err == ENOSPC
      ensures fc[FC_NEXTTOLASTFC] == old(fc[FC_NEXTTOLASTFC])
      ensures old(startCluster) != 0 ==> startCluster == old(startCluster)
      ensures err == 0 ==> 0 < got <= left && pmp.freeCount == old(pmp.freeCount) - got
      ensures err == 0 ==>
        && CLUST_FIRST <= cn && cn + got - 1 <= pmp.geo.maxCluster && got <= RunFrom(old(pmp.inuse[..]), cn)
        && pmp.inuse[..] == SetRun(old(pmp.inuse[..]), cn, got) && fc[FC_LASTFC].fsrcn == cn + got - 1
      ensures err == 0 ==>
        Appended(pmp.geo, old(pmp.fat[..]), pmp.fat[..], old(startCluster), old(fc[FC_LASTFC]).fsrcn, cn, got)
      ensures got > 0 ==> CLUST_FIRST <= cn
      ensures err == 0 && old(startCluster) != 0 ==>
        fc[FC_LASTFC].frcn == (old(fc[FC_LASTFC].frcn) + got) % U_LONG_MOD
      ensures err == 0 && old(startCluster) == 0 ==>
        startCluster == cn && InRange(pmp.geo, cn) && fc[FC_LASTFC].frcn == got - 1
    {
      cn := if startCluster == 0 then 0 else (fc[FC_LASTFC].fsrcn + 1) % U_LONG_MOD;
      err, cn, got := Grant(cn, left, seed);
      if err != 0 {
        return;
      }
      err := Append(cn, got);
    }

    /** The msdosfs_clusteralloc call of msdosfs_extendfile's loop, for
        left clusters from start: on success a run of got clusters, at
        least one and at most left, all data clusters that were free and
        are now in use, taken from the counter and linked into a chain of
        their own; on failure nothing is granted. */
    method Grant(start: nat, left: nat, seed: nat) returns (err: nat, cn: nat, got: nat)
      requires Valid() && pmp.Sane() && left > 0 && start < U_LONG_MOD
      modifies pmp, pmp.fat, pmp.inuse
      ensures pmp.Sane() && (old(pmp.Agree()) ==> pmp.Agree())
      ensures err == 0 || err == EINVAL || err == EIO || err == ENOSPC
      ensures err == 0 ==>
        && 0 < got <= left && CLUST_FIRST <= cn && cn + got - 1 <= pmp.geo.maxCluster
        && got <= RunFrom(old(pmp.inuse[..]), cn) && pmp.inuse[..] == SetRun(old(pmp.inuse[..]), cn, got)
        && Bit(pmp.inuse[..], cn) && pmp.freeCount == old(pmp.freeCount) - got
        && pmp.fat[..] == RunTable(pmp.geo, old(pmp.fat[..]), cn, got)
      ensures err != 0 ==> got == 0
    {
      ghost var m := pmp.inuse[..];
      ghost var s, n;
      err, cn, got, s, n := pmp.ClusterAlloc(start, left, seed);
      if err != 0 {
        return;
      }
      ghost var free: nat :| free <= pmp.geo.maxCluster && !Bit(m, free);
      PickedSome(m, pmp.geo.maxCluster, start, left, NewStart(if start != 0 then start else seed, pmp.geo.maxCluster), s, n, free);
    }
}
}
