// The on-disk layout of one FAT entry for 12-, 16- and 32-bit tables: where
// cluster cn's entry sits in the FAT region, how msdosfs_fatentry decodes it
// (fetch, shift odd FAT12 entries down a nibble, mask to the table width) and
// how its set path encodes a new value while keeping the bits that belong to
// a neighbouring FAT12 entry or to the reserved top nibble of a FAT32 entry.
// The per-width `switch` blocks of fatchain and msdosfs_freeclusterchain are
// the same code and use WriteEntry too.
module FatCodec {

  /** One byte of the FAT region. */
  type Byte = x: int | 0 <= x < 256

  /** The table width a volume uses (`FAT12(pmp)`, `FAT16(pmp)`, `FAT32(pmp)`). */
  datatype FatType = FAT12 | FAT16 | FAT32

  /** `CLUST_FIRST`: the first cluster of the data region. */
  const CLUST_FIRST: nat := 2
  /** `CLUST_RSRVD`: the first reserved cluster value (before masking). */
  const CLUST_RSRVD: nat := 0xffff_fff6
  /** `CLUST_EOFS`: the first end-of-chain value (before masking). */
  const CLUST_EOFS: nat := 0xffff_fff8
  /** `CLUST_EOFE`: the end-of-chain value written by the allocator. */
  const CLUST_EOFE: nat := 0xffff_ffff
  /** `MSDOSFSFREE`: the entry of a free cluster. */
  const MSDOSFSFREE: nat := 0

  /** `pm_fatmask`: FAT12_MASK, FAT16_MASK or FAT32_MASK. */
  function Mask(t: FatType): nat
  {
    match t
    case FAT12 => 0xfff
    case FAT16 => 0xffff
    case FAT32 => 0x0fff_ffff
  }

  /** The number of values an entry can hold, pm_fatmask + 1; every mask is
      a run of low bits, so `x & pm_fatmask` is `x % Modulus(t)`. */
  function Modulus(t: FatType): (m: nat)
    ensures m == Mask(t) + 1
  {
    match t
    case FAT12 => 0x1000
    case FAT16 => 0x1_0000
    case FAT32 => 0x1000_0000
  }

  /** `CLUST_RSRVD & pm_fatmask`: entries at or above it end a walk. */
  function Reserved(t: FatType): (r: nat)
    ensures r == CLUST_RSRVD % Modulus(t)
  {
    match t
    case FAT12 => 0xff6
    case FAT16 => 0xfff6
    case FAT32 => 0x0fff_fff6
  }

  /** `MSDOSFSEOF(cn, pm_fatmask)`: `(cn & CLUST_EOFS) == (CLUST_EOFS & mask)`.
      The constant is a 32-bit one, so the test sees only the low 32 bits of
      cn, with its low three bits cleared. */
  predicate IsEof(t: FatType, cn: nat)
  {
    (cn % 0x1_0000_0000) / 8 * 8 == CLUST_EOFS % Modulus(t)
  }

  /** CLUST_EOFE masked to the table width is the mask itself: an
      end-of-chain mark at or above the reserved values. */
  lemma EndMark(t: FatType)
    ensures CLUST_EOFE % Modulus(t) == Mask(t)
    ensures IsEof(t, Mask(t)) && Reserved(t) <= Mask(t)
  {
    match t
    case FAT12 =>
    case FAT16 =>
    case FAT32 =>
  }

  /** `FATOFS(pmp, cn)`: the byte offset of cluster cn's entry in the FAT,
      cn * 3 / 2 for FAT12, cn * 2 for FAT16 and cn * 4 for FAT32. */
  function EntryOffset(t: FatType, cn: nat): nat
  {
    match t
    case FAT12 => cn * 3 / 2
    case FAT16 => cn * 2
    case FAT32 => cn * 4
  }

  /** The number of bytes the code fetches for one entry: getushort for FAT12
      and FAT16, getulong for FAT32. */
  function Width(t: FatType): nat
  {
    if t == FAT32 then 4 else 2
  }

  /** The FAT region b holds all the bytes of cluster cn's entry. */
  predicate Holds(b: seq<Byte>, t: FatType, cn: nat)
  {
    EntryOffset(t, cn) + Width(t) <= |b|
  }

  /** `getushort`: the little-endian 16-bit value at offset o. */
  function GetUShort(b: seq<Byte>, o: nat): (v: nat)
    requires o + 2 <= |b|
    ensures v < 0x1_0000
  {
    b[o] as int + 256 * b[o + 1] as int
  }

  /** `getulong`: the little-endian 32-bit value at offset o. */
  function GetULong(b: seq<Byte>, o: nat): (v: nat)
    requires o + 4 <= |b|
    ensures v < 0x1_0000_0000
  {
    b[o] as int + 256 * b[o + 1] as int + 0x1_0000 * b[o + 2] as int + 0x100_0000 * b[o + 3] as int
  }

  /** `putushort`: stores the low 16 bits of v at offset o, little-endian. */
  function PutUShort(b: seq<Byte>, o: nat, v: nat): (r: seq<Byte>)
    requires o + 2 <= |b|
    ensures |r| == |b|
    ensures forall i :: 0 <= i < |b| && i != o && i != o + 1 ==> r[i] == b[i]
  {
    b[o := v % 256][o + 1 := (v / 256) % 256]
  }

  /** `putulong`: stores the low 32 bits of v at offset o, little-endian. */
  function PutULong(b: seq<Byte>, o: nat, v: nat): (r: seq<Byte>)
    requires o + 4 <= |b|
    ensures |r| == |b|
    ensures forall i :: 0 <= i < |b| && !(o <= i < o + 4) ==> r[i] == b[i]
  {
    b[o := v % 256][o + 1 := (v / 0x100) % 256][o + 2 := (v / 0x1_0000) % 256]
     [o + 3 := (v / 0x100_0000) % 256]
  }

  /** Quotient and remainder are unique: the step every byte-level fact
      below reduces to. */
  lemma DivModOf(v: int, d: int, q: int, r: int)
    requires d > 0 && v == d * q + r && 0 <= r < d
    ensures v / d == q && v % d == r
  {
    var q0, r0 := v / d, v % d;
    assert d * q0 + r0 == d * q + r;
    if q0 > q {
      assert d * q0 >= d * (q + 1) by { MulMono(d, q + 1, q0); }
    } else if q0 < q {
      assert d * q >= d * (q0 + 1) by { MulMono(d, q0 + 1, q); }
    }
  }

  lemma MulMono(d: int, a: int, b: int)
    requires d > 0 && a <= b
    ensures d * a <= d * b
  {
  }

  /** putushort then getushort gives back the low 16 bits. */
  lemma GetPutUShort(b: seq<Byte>, o: nat, v: nat)
    requires o + 2 <= |b|
    ensures GetUShort(PutUShort(b, o, v), o) == v % 0x1_0000
  {
    var q := v / 256;
    DivModOf(v, 0x1_0000, q / 256, 256 * (q % 256) + v % 256);
  }

  /** putulong then getulong gives back the low 32 bits. */
  lemma GetPutULong(b: seq<Byte>, o: nat, v: nat)
    requires o + 4 <= |b|
    ensures GetULong(PutULong(b, o, v), o) == v % 0x1_0000_0000
  {
    var q1 := v / 0x100;
    var q2 := q1 / 0x100;
    var q3 := q2 / 0x100;
    DivModOf(v, 0x1_0000, q2, 256 * (q1 % 256) + v % 256);
    DivModOf(v, 0x100_0000, q3, 0x1_0000 * (q2 % 256) + 256 * (q1 % 256) + v % 256);
    DivModOf(v, 0x1_0000_0000, q3 / 256,
      0x100_0000 * (q3 % 256) + 0x1_0000 * (q2 % 256) + 256 * (q1 % 256) + v % 256);
  }

  /** The get path of msdosfs_fatentry (and the reads of msdosfs_pcbmap and
      msdosfs_fillinusemap): fetch 16 or 32 bits, shift an odd FAT12 entry
      right by 4, mask with pm_fatmask. */
  function ReadEntry(b: seq<Byte>, t: FatType, cn: nat): nat
    requires Holds(b, t, cn)
  {
    var o := EntryOffset(t, cn);
    var raw := if t == FAT32 then GetULong(b, o) else GetUShort(b, o);
    var shifted := if t == FAT12 && cn % 2 == 1 then raw / 16 else raw;
    shifted % Modulus(t)
  }

  /** The set path of msdosfs_fatentry: an odd FAT12 entry keeps bits 0-3 of
      its 16-bit word and takes v << 4 above them; an even one keeps bits
      12-15 and takes v & 0xfff below them; FAT16 overwrites the word; FAT32
      keeps bits 28-31 and takes v & FAT32_MASK below them. The kept and the
      new bits never overlap, so the `|` of the source is a sum here. */
  function WriteEntry(b: seq<Byte>, t: FatType, cn: nat, v: nat): (r: seq<Byte>)
    requires Holds(b, t, cn)
    ensures |r| == |b|
  {
    var o := EntryOffset(t, cn);
    match t
    case FAT12 =>
      var w := GetUShort(b, o);
      if cn % 2 == 1 then PutUShort(b, o, w % 16 + v * 16)
      else PutUShort(b, o, w / 0x1000 * 0x1000 + v % 0x1000)
    case FAT16 =>
      PutUShort(b, o, v)
    case FAT32 =>
      var w := GetULong(b, o);
      PutULong(b, o, w / 0x1000_0000 * 0x1000_0000 + v % 0x1000_0000)
  }

  /** Everything stored in cluster cn's slot: the 12 bits of a FAT12 entry
      (the high nibble of its first byte and all of its second for an odd
      cluster, all of its first byte and the low nibble of its second for an
      even one), the 16 of a FAT16 entry, and all 32 bits of a FAT32 entry,
      reserved top nibble included. */
  function Slot(b: seq<Byte>, t: FatType, cn: nat): nat
    requires Holds(b, t, cn)
  {
    var o := EntryOffset(t, cn);
    match t
    case FAT12 =>
      if cn % 2 == 1 then b[o] as int / 16 + 16 * b[o + 1] as int
      else b[o] as int + 256 * (b[o + 1] as int % 16)
    case FAT16 => GetUShort(b, o)
    case FAT32 => GetULong(b, o)
  }

  /** An entry as read is its slot masked to the table width. */
  lemma ReadSlot(b: seq<Byte>, t: FatType, cn: nat)
    requires Holds(b, t, cn)
    ensures ReadEntry(b, t, cn) == Slot(b, t, cn) % Modulus(t)
    ensures t != FAT32 ==> ReadEntry(b, t, cn) == Slot(b, t, cn)
    ensures ReadEntry(b, t, cn) <= Mask(t)
  {
    var o := EntryOffset(t, cn);
    var w := GetUShort(b, o);
    var lo, hi := b[o] as int, b[o + 1] as int;
    if t == FAT12 {
      if cn % 2 == 1 {
        var s := lo / 16 + 16 * hi;
        DivModOf(w, 16, s, lo % 16);
        DivModOf(s, 0x1000, 0, s);
      } else {
        var s := lo + 256 * (hi % 16);
        DivModOf(w, 0x1000, hi / 16, s);
        DivModOf(s, 0x1000, 0, s);
      }
    } else if t == FAT16 {
      DivModOf(w, 0x1_0000, 0, w);
    }
  }

  /** Cluster cn's slot after a set: the new value masked to the width, and,
      for FAT32, the reserved top nibble the slot had before. */
  function SlotAfterSet(b: seq<Byte>, t: FatType, cn: nat, v: nat): nat
    requires Holds(b, t, cn)
  {
    if t == FAT32 then Slot(b, t, cn) / 0x1000_0000 * 0x1000_0000 + v % 0x1000_0000
    else v % Modulus(t)
  }

  /** The FAT12 entries of even clusters start on a multiple of three, those
      of odd clusters one byte later. */
  lemma Fat12Offset(cn: nat)
    ensures cn % 2 == 0 ==> EntryOffset(FAT12, cn) == 3 * (cn / 2)
    ensures cn % 2 == 1 ==> EntryOffset(FAT12, cn) == 3 * (cn / 2) + 1
  {
    var k := cn / 2;
    if cn % 2 == 0 {
      DivModOf(cn * 3, 2, 3 * k, 0);
    } else {
      DivModOf(cn * 3, 2, 3 * k + 1, 1);
    }
  }

  /** The bytes of an odd FAT12 slot after a set: the first keeps its low
      nibble and takes v's lowest nibble above it, the second takes v's
      next eight bits. */
  lemma WriteOdd12(b: seq<Byte>, cn: nat, v: nat)
    requires Holds(b, FAT12, cn) && cn % 2 == 1
    ensures var r, o := WriteEntry(b, FAT12, cn, v), EntryOffset(FAT12, cn);
      && r[o] as int % 16 == b[o] as int % 16 && r[o] as int / 16 == v % 16
      && r[o + 1] as int == (v / 16) % 256
  {
    var o := EntryOffset(FAT12, cn);
    var lo, hi := b[o] as int, b[o + 1] as int;
    var w := GetUShort(b, o);
    DivModOf(w, 16, lo / 16 + 16 * hi, lo % 16);
    var x := w % 16 + v * 16;
    DivModOf(x, 256, v / 16, lo % 16 + 16 * (v % 16));
    var r := WriteEntry(b, FAT12, cn, v);
    assert r == b[o := x % 256][o + 1 := (x / 256) % 256];
    DivModOf(r[o] as int, 16, v % 16, lo % 16);
  }

  /** The bytes of an even FAT12 slot after a set: the first takes v's low
      eight bits, the second keeps its high nibble and takes v's bits 8-11
      below it. */
  lemma WriteEven12(b: seq<Byte>, cn: nat, v: nat)
    requires Holds(b, FAT12, cn) && cn % 2 == 0
    ensures var r, o := WriteEntry(b, FAT12, cn, v), EntryOffset(FAT12, cn);
      && r[o] as int == v % 256
      && r[o + 1] as int / 16 == b[o + 1] as int / 16
      && r[o + 1] as int % 16 == (v % 0x1000) / 256
  {
    var o := EntryOffset(FAT12, cn);
    var lo, hi := b[o] as int, b[o + 1] as int;
    var w := GetUShort(b, o);
    DivModOf(w, 0x1000, hi / 16, lo + 256 * (hi % 16));
    var a := v % 0x1000;
    DivModOf(v, 256, 16 * (v / 0x1000) + a / 256, a % 256);
    var x := w / 0x1000 * 0x1000 + a;
    var y := 16 * (hi / 16) + a / 256;
    DivModOf(x, 256, y, a % 256);
    DivModOf(y, 256, 0, y);
    var r := WriteEntry(b, FAT12, cn, v);
    assert r == b[o := x % 256][o + 1 := (x / 256) % 256];
    DivModOf(r[o + 1] as int, 16, hi / 16, a / 256);
  }

  /** The bytes a set rewrites are those of cn's slot; every other byte of
      the FAT region is left as it was. */
  lemma WriteFrame(b: seq<Byte>, t: FatType, cn: nat, v: nat)
    requires Holds(b, t, cn)
    ensures var r, o := WriteEntry(b, t, cn, v), EntryOffset(t, cn);
      forall i :: 0 <= i < |b| && !(o <= i < o + Width(t)) ==> r[i] == b[i]
  {
  }

  /** get after set returns the new value masked with pm_fatmask; the slot
      holds that value and, in a FAT32 table, the reserved nibble it had. */
  lemma ReadAfterWrite(b: seq<Byte>, t: FatType, cn: nat, v: nat)
    requires Holds(b, t, cn)
    ensures Holds(WriteEntry(b, t, cn, v), t, cn)
    ensures Slot(WriteEntry(b, t, cn, v), t, cn) == SlotAfterSet(b, t, cn, v)
    ensures ReadEntry(WriteEntry(b, t, cn, v), t, cn) == v % Modulus(t)
  {
    var r, o := WriteEntry(b, t, cn, v), EntryOffset(t, cn);
    match t
    case FAT12 =>
      if cn % 2 == 1 {
        WriteOdd12(b, cn, v);
        DivModOf(v, 0x1000, (v / 16) / 256, v % 16 + 16 * ((v / 16) % 256));
      } else {
        WriteEven12(b, cn, v);
        var a := v % 0x1000;
        DivModOf(v, 256, 16 * (v / 0x1000) + a / 256, a % 256);
      }
      ReadSlot(r, t, cn);
    case FAT16 =>
      GetPutUShort(b, o, v);
      ReadSlot(r, t, cn);
    case FAT32 =>
      var h := GetULong(b, o) / 0x1000_0000;
      var x := h * 0x1000_0000 + v % 0x1000_0000;
      GetPutULong(b, o, x);
      DivModOf(x, 0x1_0000_0000, 0, x);
      DivModOf(x, 0x1000_0000, h, v % 0x1000_0000);
  }

  /** A set leaves the bits the source keeps: bits 0-3 of the 16-bit word of
      an odd FAT12 entry, bits 12-15 of the word of an even one, and bits
      28-31 of a FAT32 entry; a FAT16 set leaves nothing of the old word. */
  lemma WriteKeepsBits(b: seq<Byte>, t: FatType, cn: nat, v: nat)
    requires Holds(b, t, cn)
    ensures var r, o := WriteEntry(b, t, cn, v), EntryOffset(t, cn);
      && (t == FAT12 && cn % 2 == 1 ==> GetUShort(r, o) % 16 == GetUShort(b, o) % 16)
      && (t == FAT12 && cn % 2 == 0 ==> GetUShort(r, o) / 0x1000 == GetUShort(b, o) / 0x1000)
      && (t == FAT16 ==> GetUShort(r, o) == v % 0x1_0000)
      && (t == FAT32 ==> GetULong(r, o) / 0x1000_0000 == GetULong(b, o) / 0x1000_0000)
  {
    var r, o := WriteEntry(b, t, cn, v), EntryOffset(t, cn);
    match t
    case FAT12 =>
      var lo, hi := b[o] as int, b[o + 1] as int;
      var rlo, rhi := r[o] as int, r[o + 1] as int;
      if cn % 2 == 1 {
        WriteOdd12(b, cn, v);
        DivModOf(GetUShort(b, o), 16, lo / 16 + 16 * hi, lo % 16);
        DivModOf(GetUShort(r, o), 16, rlo / 16 + 16 * rhi, rlo % 16);
      } else {
        WriteEven12(b, cn, v);
        DivModOf(GetUShort(b, o), 0x1000, hi / 16, lo + 256 * (hi % 16));
        DivModOf(GetUShort(r, o), 0x1000, rhi / 16, rlo + 256 * (rhi % 16));
      }
    case FAT16 =>
      GetPutUShort(b, o, v);
    case FAT32 =>
      ReadAfterWrite(b, t, cn, v);
      var h := GetULong(b, o) / 0x1000_0000;
      DivModOf(GetULong(r, o), 0x1000_0000, h, v % 0x1000_0000);
  }

  /** The slot of a cluster whose bytes a set did not touch is unchanged. */
  lemma SlotSameBytes(b: seq<Byte>, r: seq<Byte>, t: FatType, c: nat)
    requires Holds(b, t, c) && |r| == |b|
    requires forall i :: EntryOffset(t, c) <= i < EntryOffset(t, c) + Width(t) ==> r[i] == b[i]
    ensures Slot(r, t, c) == Slot(b, t, c)
  {
    var o := EntryOffset(t, c);
    assert r[o] == b[o] && r[o + 1] == b[o + 1];
    if t == FAT32 {
      assert r[o + 2] == b[o + 2] && r[o + 3] == b[o + 3];
    }
  }

  /** A set of cluster cn leaves the slot of every other cluster unchanged;
      for FAT12 this includes the neighbour that shares a byte with cn. */
  lemma WriteOther(b: seq<Byte>, t: FatType, cn: nat, v: nat, c: nat)
    requires Holds(b, t, cn) && Holds(b, t, c) && c != cn
    ensures Holds(WriteEntry(b, t, cn, v), t, c)
    ensures Slot(WriteEntry(b, t, cn, v), t, c) == Slot(b, t, c)
    ensures ReadEntry(WriteEntry(b, t, cn, v), t, c) == ReadEntry(b, t, c)
  {
    var r, o, p := WriteEntry(b, t, cn, v), EntryOffset(t, cn), EntryOffset(t, c);
    WriteFrame(b, t, cn, v);
    ReadSlot(b, t, c);
    ReadSlot(r, t, c);
    if t == FAT12 {
      Fat12Offset(cn);
      Fat12Offset(c);
      if cn % 2 == 0 && c == cn + 1 {
        WriteEven12(b, cn, v);
        assert p == o + 1 && r[p + 1] == b[p + 1];
      } else if cn % 2 == 1 && c == cn - 1 {
        WriteOdd12(b, cn, v);
        assert p + 1 == o && r[p] == b[p];
      } else {
        assert p + 2 <= o || o + 2 <= p;
        SlotSameBytes(b, r, t, c);
      }
    } else {
      assert p + Width(t) <= o || o + Width(t) <= p;
      SlotSameBytes(b, r, t, c);
    }
  }

    /** The step fatchain takes through a block after writing the entry of
      cluster cur - 1: the entry width, and for FAT12 one byte more when cur
      is even. */
  lemma NextOffset(t: FatType, prev: nat, cur: nat)
    requires cur == prev + 1
    ensures EntryOffset(t, cur) == EntryOffset(t, prev) +
      (match t
       case FAT12 => if cur % 2 == 0 then 2 else 1
       case FAT16 => 2
       case FAT32 => 4)
  {
    OffsetStep(t, prev);
  }

/** The next entry's offset, as fatchain advances `bo`: one byte after an
      even FAT12 entry, two after an odd one, two for FAT16, four for FAT32. */
  lemma OffsetStep(t: FatType, cn: nat)
    ensures EntryOffset(t, cn + 1) == EntryOffset(t, cn) +
      (match t
       case FAT12 => if cn % 2 == 0 then 1 else 2
       case FAT16 => 2
       case FAT32 => 4)
  {
    if t == FAT12 {
      Fat12Offset(cn);
      Fat12Offset(cn + 1);
    }
  }

  /** Offsets grow with the cluster number, so a region that holds a cluster's
      entry holds the entries of every cluster below it. */
  lemma HoldsBelow(b: seq<Byte>, t: FatType, c: nat, cn: nat)
    requires c <= cn && Holds(b, t, cn)
    ensures Holds(b, t, c)
  {
  }

  /** Entries lie in cluster order. */
  lemma EntryOffsetMono(t: FatType, c: nat, cn: nat)
    requires c <= cn
    ensures EntryOffset(t, c) <= EntryOffset(t, cn)
  {
  }

  /** A FAT32 set keeps the reserved top nibble of the entry it writes. */
  lemma TopAfterSet(b: seq<Byte>, t: FatType, cn: nat, v: nat)
    requires Holds(b, t, cn)
    ensures t == FAT32 ==> Slot(WriteEntry(b, t, cn, v), t, cn) / 0x1000_0000 == Slot(b, t, cn) / 0x1000_0000
  {
    if t == FAT32 {
      ReadAfterWrite(b, t, cn, v);
      var h := Slot(b, t, cn) / 0x1000_0000;
      DivModOf(SlotAfterSet(b, t, cn, v), 0x1000_0000, h, v % 0x1000_0000);
    }
  }

  /** What a set does to any entry of the table, read back: the entry
      written reads as the new value masked to the width, every other entry
      as before, and a FAT32 entry keeps its reserved top nibble. */
  lemma SetEffect(b: seq<Byte>, t: FatType, cn: nat, v: nat, c: nat)
    requires Holds(b, t, cn) && Holds(b, t, c)
    ensures var r := WriteEntry(b, t, cn, v);
      && Holds(r, t, c)
      && ReadEntry(r, t, c) == (if c == cn then v % Modulus(t) else ReadEntry(b, t, c))
      && (t == FAT32 ==> Slot(r, t, c) / 0x1000_0000 == Slot(b, t, c) / 0x1000_0000)
  {
    if c == cn {
      ReadAfterWrite(b, t, cn, v);
      TopAfterSet(b, t, cn, v);
    } else {
      WriteOther(b, t, cn, v, c);
    }
  }
}
