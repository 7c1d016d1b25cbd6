// The mount-time geometry of a FAT volume and the address arithmetic over it:
// fatblock (which FAT block holds a byte offset of the table, how large that
// block is, and where in it the offset falls) and the cluster/block/offset
// conversions msdosfs_pcbmap uses. The geometry is computed when the volume is
// mounted, outside this model; ValidGeometry states what the arithmetic
// below relies on.
module FatGeometry {
  import opened Words
  import opened FatCodec

  /** `u_long` arithmetic wraps modulo 2^64. */
  const U_LONG_MOD: nat := 0x1_0000_0000_0000_0000

  /** The fields of `struct msdosfsmount` that the cluster-chain code reads. */
  datatype Geometry = Geometry(
    fatType: FatType,   // FAT12(pmp) / FAT16(pmp) / FAT32(pmp), and so pm_fatmask
    bytesPerSec: nat,   // pm_BytesPerSec
    fatBlockSec: nat,   // pm_fatblocksec: sectors per FAT block
    fatBlockSize: nat,  // pm_fatblocksize: bytes per FAT block
    fatSecs: nat,       // pm_FATsecs: sectors of one FAT copy
    fatBlk: nat,        // pm_fatblk: first sector of the first FAT copy
    curFat: nat,        // pm_curfat: the FAT copy in use
    maxCluster: nat,    // pm_maxcluster
    bnShift: nat,       // pm_bnshift: log2 of the block size
    cnShift: nat,       // pm_cnshift: log2 of the cluster size
    bpCluster: nat,     // pm_bpcluster: bytes per cluster
    firstCluster: nat,  // pm_firstcluster: first block of cluster CLUST_FIRST
    rootDirBlk: nat,    // pm_rootdirblk: first block of the FAT12/16 root directory
    rootDirSize: nat)   // pm_rootdirsize: its size in blocks

  /** The size in bytes of one copy of the FAT. */
  function FatBytes(g: Geometry): nat
  {
    g.fatSecs * g.bytesPerSec
  }

  /** What a mounted volume guarantees about its geometry: FAT blocks are
      whole sectors, a multiple of four bytes (and, for FAT12, of three, so
      that no entry straddles two blocks), every data cluster's entry lies
      inside the FAT, and no data cluster number looks reserved. */
  predicate ValidGeometry(g: Geometry)
  {
    && g.bytesPerSec > 0 && g.fatBlockSec > 0 && g.fatBlockSize > 0
    && g.fatBlockSize == g.fatBlockSec * g.bytesPerSec
    && g.fatBlockSize % 4 == 0
    && (g.fatType == FAT12 ==> g.fatBlockSize % 3 == 0)
    && CLUST_FIRST <= g.maxCluster < Reserved(g.fatType)
    && EntryOffset(g.fatType, g.maxCluster) + Width(g.fatType) <= FatBytes(g)
    && g.fatSecs < U_LONG_MOD
    && g.bnShift <= g.cnShift && g.bpCluster == Pow2(g.cnShift)
  }

  /** A data cluster: `CLUST_FIRST <= cn <= pm_maxcluster`. */
  predicate InRange(g: Geometry, cn: nat)
  {
    CLUST_FIRST <= cn <= g.maxCluster
  }

  /** `uimin`. */
  function Min(a: nat, b: nat): nat
  {
    if a <= b then a else b
  }

  /** A product of naturals. */
  function Mul(a: nat, b: nat): nat
  {
    a * b
  }

  /** The three results of fatblock. */
  datatype FatBlockPos = FatBlockPos(bn: nat, size: nat, bo: nat)

  /** fatblock: the FAT block holding byte ofs of the table is the one
      starting at sector ofs / pm_fatblocksize * pm_fatblocksec of the FAT
      copy in use; it is pm_fatblocksec sectors long, or fewer when the FAT
      ends sooner (`pm_FATsecs - bn` is u_long arithmetic); ofs lies bo bytes
      into it. */
  function FatBlock(g: Geometry, ofs: nat): (p: FatBlockPos)
    requires g.fatBlockSize > 0
    ensures p.bo < g.fatBlockSize
  {
    var rel := Mul(ofs / g.fatBlockSize, g.fatBlockSec);
    var size := Mul(Min(g.fatBlockSec, (g.fatSecs - rel) % U_LONG_MOD), g.bytesPerSec);
    FatBlockPos(rel + g.fatBlk + Mul(g.curFat, g.fatSecs), size, ofs % g.fatBlockSize)
  }

  lemma MulLeft(d: nat, a: int, b: int)
    requires a <= b
    ensures d * a <= d * b
  {
  }

  lemma MulAssoc3(a: int, b: int, c: int)
    ensures (a * b) * c == a * (b * c)
  {
  }

  lemma MulSub(k: int, a: int, b: int)
    ensures k * (a - b) == k * a - k * b
  {
  }

  /** Euclidean division, handed back as numbers so that callers reason
      about `v == d * q + r` alone. */
  lemma Split(v: nat, d: nat) returns (q: nat, r: nat)
    requires d > 0
    ensures v == d * q + r && r < d && q == v / d && r == v % d
  {
    q, r := v / d, v % d;
  }

  /** An entry that does not cross a multiple of k does not cross a block
      boundary either, when blocks are m * k bytes long. */
  lemma RemainderFits(ofs: nat, fbs: nat, q: nat, r: nat, k: nat, m: nat, a: nat, s: nat, w: nat)
    requires k > 0 && fbs == k * m && ofs == fbs * q + r && r < fbs
    requires ofs == k * a + s && s + w <= k
    ensures r + w <= fbs
  {
    MulAssoc3(k, m, q);
    var c := a - m * q;
    MulSub(k, a, m * q);
    assert r == k * c + s;
    if c >= m {
      MulLeft(k, m, c);
      assert false;
    }
    MulLeft(k, c, m - 1);
    MulSub(k, m, 1);
  }

  /** No entry of a data cluster straddles two FAT blocks when the block size
      is a multiple of four bytes (and, for FAT12, of three): an entry at
      byte r of its block ends inside the block. */
  lemma NoStraddle(t: FatType, fbs: nat, cn: nat, q: nat, r: nat)
    requires fbs > 0 && fbs % 4 == 0 && (t == FAT12 ==> fbs % 3 == 0)
    requires EntryOffset(t, cn) == fbs * q + r && r < fbs
    ensures r + Width(t) <= fbs
  {
    var ofs := EntryOffset(t, cn);
    match t
    case FAT12 =>
      Fat12Offset(cn);
      var m, _ := Split(fbs, 3);
      var a, s := Split(ofs, 3);
      RemainderFits(ofs, fbs, q, r, 3, m, a, s, 2);
    case FAT16 =>
      var m, _ := Split(fbs, 2);
      RemainderFits(ofs, fbs, q, r, 2, m, cn, 0, 2);
    case FAT32 =>
      var m, _ := Split(fbs, 4);
      RemainderFits(ofs, fbs, q, r, 4, m, cn, 0, 4);
  }

  /** fatblock for byte ofs0 of the table, with the division spelled out:
      ofs0 lies bo bytes into FAT block q. */
  lemma FatBlockSplit(g: Geometry, ofs0: nat) returns (q: nat, bo: nat)
    requires g.fatBlockSize > 0
    ensures ofs0 == g.fatBlockSize * q + bo && bo < g.fatBlockSize
    ensures var p := FatBlock(g, ofs0);
      && p.bn == q * g.fatBlockSec + g.fatBlk + g.curFat * g.fatSecs
      && p.size == Min(g.fatBlockSec, (g.fatSecs - q * g.fatBlockSec) % U_LONG_MOD) * g.bytesPerSec
      && p.bo == bo
  {
    q, bo := Split(ofs0, g.fatBlockSize);
  }

  /** The block fatblock names for byte ofs0 of the table starts at byte
      ofs0 - bo of the FAT, the sector of its block number, and ends inside
      the FAT; every data-cluster entry that starts inside it lies wholly
      inside it. So the source's `bo >= bsize` check never fires, and an
      advancing `bo` stays on entries of the block it read. */
  lemma EntryInBlock(g: Geometry, ofs0: nat, cn: nat)
    requires ValidGeometry(g) && ofs0 < FatBytes(g) && cn <= g.maxCluster
    requires var p := FatBlock(g, ofs0);
      ofs0 - p.bo <= EntryOffset(g.fatType, cn) < ofs0 - p.bo + p.size
    ensures var p := FatBlock(g, ofs0);
      && ofs0 - p.bo == (p.bn - g.fatBlk - g.curFat * g.fatSecs) * g.bytesPerSec
      && ofs0 - p.bo + p.size <= FatBytes(g)
      && EntryOffset(g.fatType, cn) + Width(g.fatType) <= ofs0 - p.bo + p.size
  {
    var q, bo := FatBlockSplit(g, ofs0);
    var ofs := EntryOffset(g.fatType, cn);
    var q1, bo1 := Split(ofs, g.fatBlockSize);
    if q1 == q {
      NoStraddle(g.fatType, g.fatBlockSize, cn, q1, bo1);
    }
    EntryOffsetMono(g.fatType, cn, g.maxCluster);
    BlockLayout(g.fatBlockSec, g.bytesPerSec, g.fatBlockSize, g.fatSecs, q, bo,
      ofs0, ofs, bo1, q1, Width(g.fatType), EntryOffset(g.fatType, g.maxCluster));
  }

  /** The FAT block fatblock names for a byte of the table holds that
      byte: the block starts at the byte of its first sector, bo falls inside
      it, and it ends inside the table. */
  lemma FatBlockCovers(g: Geometry, ofs0: nat)
    requires ValidGeometry(g) && ofs0 < FatBytes(g)
    ensures var p := FatBlock(g, ofs0);
      && p.bo <= ofs0 && p.bo < p.size
      && ofs0 - p.bo == (p.bn - g.fatBlk - g.curFat * g.fatSecs) * g.bytesPerSec
      && ofs0 - p.bo + p.size <= FatBytes(g)
  {
    var q, bo := FatBlockSplit(g, ofs0);
    CoverLayout(g.fatBlockSec, g.bytesPerSec, g.fatBlockSize, g.fatSecs, q, bo, ofs0);
  }

  /** The division-free arithmetic of FatBlockCovers. */
  lemma CoverLayout(fbsec: nat, bps: nat, fbs: nat, fsec: nat, q: nat, bo: nat, ofs0: nat)
    requires bps > 0 && fbsec > 0 && fbs == fbsec * bps
    requires ofs0 == fbs * q + bo && bo < fbs && ofs0 < fsec * bps && fsec < U_LONG_MOD
    ensures var rel := q * fbsec; var size := Min(fbsec, (fsec - rel) % U_LONG_MOD) * bps;
      && bo <= ofs0 && bo < size
      && ofs0 - bo == rel * bps
      && ofs0 - bo + size <= fsec * bps
  {
    var rel := q * fbsec;
    MulAssoc3(q, fbsec, bps);
    if rel >= fsec {
      MulLeft(bps, fsec, rel);
      assert false;
    }
    if fbsec > fsec - rel {
      MulSub(bps, fsec, rel);
    } else {
      MulLeft(bps, rel + fbsec, fsec);
    }
  }

  /** A window of the FAT, size bytes from byte base, that lies inside the
      table and that every data-cluster entry starting in it fits in. */
  ghost predicate Window(g: Geometry, base: nat, size: nat)
  {
    && base + size <= FatBytes(g)
    && forall cn: nat :: cn <= g.maxCluster && base <= EntryOffset(g.fatType, cn) < base + size ==>
         EntryOffset(g.fatType, cn) + Width(g.fatType) <= base + size
  }

  /** The FAT block fatblock names for byte ofs0 of the table is a window
      that holds byte ofs0, starting at the sector the block number names. */
  lemma BlockWindow(g: Geometry, ofs0: nat)
    requires ValidGeometry(g) && ofs0 < FatBytes(g)
    ensures var p := FatBlock(g, ofs0);
      && p.bo <= ofs0 && p.bo < p.size
      && ofs0 - p.bo == (p.bn - g.fatBlk - g.curFat * g.fatSecs) * g.bytesPerSec
      && Window(g, ofs0 - p.bo, p.size)
  {
    var p := FatBlock(g, ofs0);
    FatBlockCovers(g, ofs0);
    forall cn: nat | cn <= g.maxCluster && ofs0 - p.bo <= EntryOffset(g.fatType, cn) < ofs0 - p.bo + p.size
      ensures EntryOffset(g.fatType, cn) + Width(g.fatType) <= ofs0 - p.bo + p.size
    {
      EntryInBlock(g, ofs0, cn);
    }
  }

  /** The arithmetic of fatblock, free of divisions: a block of fbsec
      sectors starting at sector q * fbsec, cut short at the end of the FAT. */
  lemma BlockLayout(fbsec: nat, bps: nat, fbs: nat, fsec: nat, q: nat, bo: nat, ofs0: nat,
                    ofs: nat, bo1: nat, q1: nat, w: nat, last: nat)
    requires bps > 0 && fbsec > 0 && fbs == fbsec * bps
    requires ofs0 == fbs * q + bo && bo < fbs && ofs0 < fsec * bps && fsec < U_LONG_MOD
    requires ofs == fbs * q1 + bo1 && bo1 < fbs && (q1 == q ==> bo1 + w <= fbs)
    requires ofs <= last && last + w <= fsec * bps
    requires var size := Min(fbsec, (fsec - q * fbsec) % U_LONG_MOD) * bps;
      ofs0 - bo <= ofs < ofs0 - bo + size
    ensures var rel := q * fbsec; var size := Min(fbsec, (fsec - rel) % U_LONG_MOD) * bps;
      && ofs0 - bo == rel * bps
      && ofs0 - bo + size <= fsec * bps
      && ofs + w <= ofs0 - bo + size
  {
    var rel := q * fbsec;
    MulAssoc3(q, fbsec, bps);
    assert ofs0 - bo == rel * bps;
    if rel >= fsec {
      MulLeft(bps, fsec, rel);
      assert false;
    }
    var size := Min(fbsec, fsec - rel);
    if fbsec <= fsec - rel {
      MulLeft(bps, rel + fbsec, fsec);
      assert size * bps == fbs;
      if q1 > q {
        MulLeft(fbs, q + 1, q1);
        assert false;
      }
      if q1 < q {
        MulLeft(fbs, q1 + 1, q);
        assert false;
      }
    } else {
      MulSub(bps, fsec, rel);
    }
  }

  /** `de_cn2off`: the byte offset of file-relative cluster cn (u_long). */
  function Cn2Off(g: Geometry, cn: nat): nat
  {
    cn * Pow2(g.cnShift) % U_LONG_MOD
  }

  /** `de_cn2bn`: the first block of file-relative cluster cn (u_long). */
  function Cn2Bn(g: Geometry, cn: nat): nat
    requires g.bnShift <= g.cnShift
  {
    cn * Pow2(g.cnShift - g.bnShift) % U_LONG_MOD
  }

  /** `n >> k`: n halved k times. */
  function Shr(n: nat, k: nat): nat
  {
    if k == 0 then n else Shr(n / 2, k - 1)
  }

  /** `de_bn2cn`: the cluster holding block bn. */
  function Bn2Cn(g: Geometry, bn: nat): nat
    requires g.bnShift <= g.cnShift
  {
    Shr(bn, g.cnShift - g.bnShift)
  }

  /** `cntobn`: the first block of data cluster cn (u_long arithmetic, so a
      cluster number below CLUST_FIRST wraps). */
  function CnToBn(g: Geometry, cn: nat): nat
    requires g.bnShift <= g.cnShift
  {
    (Cn2Bn(g, (cn - CLUST_FIRST) % U_LONG_MOD) + g.firstCluster) % U_LONG_MOD
  }
}
