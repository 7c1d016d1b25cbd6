// The SD/MMC register field extractor `__bitfield` and the decoders built on
// it. Responses are stored as 32-bit words in host order, least significant
// word first; a field is named by its bit offset and width.
module SdMmcReg {

  import opened Words

  /** size_t is 64 bits wide: sums and differences of offsets wrap modulo
      2^64. */
  const SIZE_T_MOD: nat := 0x1_0000_0000_0000_0000

  /** u_int arithmetic wraps modulo 2^32. */
  const UINT_MOD: nat := 0x1_0000_0000

  /** The guard of `__bitfield`: a field ending past bit 512, an empty field,
      or one wider than a word yields 0. The sum is a size_t sum. */
  predicate BitfieldRejects(start: nat, len: nat)
  {
    (start + len) % SIZE_T_MOD > 512 || len == 0 || len > 32
  }

  /** Once reduced to an offset inside its first word, the field runs into
      the next word. */
  predicate Straddles(start: nat, len: nat)
    requires 1 <= len
  {
    (start % 32 + len - 1) / 32 != (start % 32) / 32
  }

  /** The words an accepted field reads lie inside src: the caller's side of
      the contract of `__bitfield`. */
  predicate ReadsWithin(src: seq<Word>, start: nat, len: nat)
  {
    BitfieldRejects(start, len) ||
    (start / 32 < |src| && (Straddles(start, len) ==> start / 32 + 1 < |src|))
  }

  /** `__bitfield(src, start, len)`: the len bits of src from bit start on,
      taken from word start/32 shifted right, with the bits past the end of
      that word taken from the next word shifted left, and masked with
      `__BIT(len) - 1`. */
  function Bitfield(src: seq<Word>, start: nat, len: nat): (r: Word)
    requires start < SIZE_T_MOD && len < SIZE_T_MOD
    requires ReadsWithin(src, start, len)
    ensures BitfieldRejects(start, len) ==> r == ZERO
    ensures forall i :: len <= i < 32 ==> !r[i]
  {
    if BitfieldRejects(start, len) then ZERO
    else
      var q, s := start / 32, start % 32;
      var dst := ShiftRight(src[q], s);
      var dst' := if Straddles(start, len) then Or(dst, ShiftLeft(src[q + 1], 32 - s)) else dst;
      And(dst', LowBits(len))
  }

  /** Bit i of an accepted field is bit start + i of the words laid end to
      end, for i below len. */
  lemma BitfieldBits(src: seq<Word>, start: nat, len: nat)
    requires start < SIZE_T_MOD && len < SIZE_T_MOD
    requires ReadsWithin(src, start, len) && !BitfieldRejects(start, len)
    ensures start + len <= 32 * |src|
    ensures forall i :: 0 <= i < 32 ==>
      Bitfield(src, start, len)[i] == (i < len && Flatten(src)[start + i])
  {
    BitfieldWordBit(src, start, len, 0);
    forall i | 0 <= i < 32
      ensures Bitfield(src, start, len)[i] == (i < len && Flatten(src)[start + i])
    {
      if i < len {
        BitfieldBitIn(src, start, len, i);
      } else {
        BitfieldBitOut(src, start, len, i);
      }
    }
  }

  lemma BitfieldBitIn(src: seq<Word>, start: nat, len: nat, i: nat)
    requires start < SIZE_T_MOD && len < SIZE_T_MOD
    requires ReadsWithin(src, start, len) && !BitfieldRejects(start, len)
    requires i < 32 && i < len
    ensures Bitfield(src, start, len)[i] == Flatten(src)[start + i]
  {
    BitfieldWordBit(src, start, len, i);
    FlattenAt(src, start, i);
  }

  lemma BitfieldBitOut(src: seq<Word>, start: nat, len: nat, i: nat)
    requires start < SIZE_T_MOD && len < SIZE_T_MOD
    requires ReadsWithin(src, start, len) && !BitfieldRejects(start, len)
    requires len <= i < 32
    ensures !Bitfield(src, start, len)[i]
  {
  }

  /** Bit start + i of the flattened words, for i below 32, lies in word
      start / 32 or in the word after it. */
  lemma FlattenAt(src: seq<Word>, start: nat, i: nat)
    requires i < 32 && start / 32 < |src| && (start % 32 + i >= 32 ==> start / 32 + 1 < |src|)
    ensures start + i < 32 * |src|
    ensures Flatten(src)[start + i] ==
      if start % 32 + i < 32 then src[start / 32][start % 32 + i]
      else src[start / 32 + 1][start % 32 + i - 32]
  {
    var q, s := start / 32, start % 32;
    if s + i < 32 {
      assert (start + i) / 32 == q && (start + i) % 32 == s + i;
    } else {
      assert (start + i) / 32 == q + 1 && (start + i) % 32 == s + i - 32;
    }
  }

  /** Bit i of an accepted field, read from the word holding it. */
  lemma BitfieldWordBit(src: seq<Word>, start: nat, len: nat, i: nat)
    requires start < SIZE_T_MOD && len < SIZE_T_MOD
    requires ReadsWithin(src, start, len) && !BitfieldRejects(start, len)
    requires i < 32
    ensures start == 32 * (start / 32) + start % 32
    ensures start % 32 + len <= 32 ==> start / 32 < |src|
    ensures start % 32 + len > 32 ==> start / 32 + 1 < |src|
    ensures Bitfield(src, start, len)[i] ==
      (i < len &&
       if start % 32 + i < 32 then src[start / 32][start % 32 + i]
       else src[start / 32 + 1][start % 32 + i - 32])
  {
    StraddlesPast(start, len);
  }

  /** A field of 1 to 32 bits straddles exactly when it runs past the end of
      its first word. */
  lemma StraddlesPast(start: nat, len: nat)
    requires 1 <= len <= 32
    ensures Straddles(start, len) <==> start % 32 + len > 32
  {
  }

  /** An accepted field is the len-bit field at bit start of the
      little-endian number held by the words. */
  lemma BitfieldValue(src: seq<Word>, start: nat, len: nat)
    requires start < SIZE_T_MOD && len < SIZE_T_MOD
    requires ReadsWithin(src, start, len) && !BitfieldRejects(start, len)
    ensures Value(Bitfield(src, start, len)) == Field(Num(Flatten(src)), start, len)
  {
    BitfieldBits(src, start, len);
    NumField(Flatten(src), start, len, Bitfield(src, start, len));
  }

  /** The result always fits in len bits. */
  lemma BitfieldFits(src: seq<Word>, start: nat, len: nat)
    requires start < SIZE_T_MOD && len < SIZE_T_MOD
    requires ReadsWithin(src, start, len)
    ensures Value(Bitfield(src, start, len)) < Pow2(len)
  {
    if len <= 32 {
      NumFits(Bitfield(src, start, len), len);
    } else {
      NumFits(Bitfield(src, start, len), 32);
      Pow2Mono(32, len);
    }
  }

  /** A field inside one word is that word shifted right by start % 32 and
      reduced to len bits. */
  lemma BitfieldOneWord(src: seq<Word>, start: nat, len: nat)
    requires start < SIZE_T_MOD && len < SIZE_T_MOD
    requires ReadsWithin(src, start, len) && !BitfieldRejects(start, len)
    requires !Straddles(start, len)
    ensures Value(Bitfield(src, start, len)) == Field(Value(src[start / 32]), start % 32, len)
  {
    var r := Bitfield(src, start, len);
    var w, s := src[start / 32], start % 32;
    forall i | 0 <= i < 32
      ensures r[i] == (i < len && s + i < 32 && w[s + i])
    {
    }
    NumField(w, s, len, r);
  }

  /** A field that straddles a word boundary takes its high bits from the
      next word: it is the field of the 64-bit number formed by the two
      words, whose value is Value(lo) + 2^32 * Value(hi) by NumAppend. */
  lemma BitfieldTwoWords(src: seq<Word>, start: nat, len: nat)
    requires start < SIZE_T_MOD && len < SIZE_T_MOD
    requires ReadsWithin(src, start, len) && !BitfieldRejects(start, len)
    requires Straddles(start, len)
    ensures Value(Bitfield(src, start, len))
      == Field(Num(Join(src[start / 32], src[start / 32 + 1])), start % 32, len)
  {
    TwoWordsBits(src, start, len);
    NumField(Join(src[start / 32], src[start / 32 + 1]), start % 32, len, Bitfield(src, start, len));
  }

  lemma TwoWordsBits(src: seq<Word>, start: nat, len: nat)
    requires start < SIZE_T_MOD && len < SIZE_T_MOD
    requires ReadsWithin(src, start, len) && !BitfieldRejects(start, len)
    requires Straddles(start, len)
    ensures var b := Join(src[start / 32], src[start / 32 + 1]);
      forall i :: 0 <= i < 32 ==>
        Bitfield(src, start, len)[i] == (i < len && start % 32 + i < |b| && b[start % 32 + i])
  {
  }

  /** The guard accepts exactly the non-empty fields of at most 32 bits whose
      size_t end offset is at most 512. */
  lemma BitfieldGuard(start: nat, len: nat)
    requires start < SIZE_T_MOD && len < SIZE_T_MOD
    ensures !BitfieldRejects(start, len) <==>
      (1 <= len <= 32 && (start + len <= 512 || SIZE_T_MOD <= start + len <= SIZE_T_MOD + 512))
  {
  }

  /** `MMC_RSP_BITS(resp, start, len)`: the stored response omits the 8-bit
      CRC, so bit `start` of the response is bit start - 8 of the words; the
      subtraction is a size_t subtraction. */
  function MmcRspBits(resp: seq<Word>, start: nat, len: nat): (r: Word)
    requires start < SIZE_T_MOD && len < SIZE_T_MOD
    requires ReadsWithin(resp, (start - 8) % SIZE_T_MOD, len)
    ensures forall i :: len <= i < 32 ==> !r[i]
  {
    Bitfield(resp, (start - 8) % SIZE_T_MOD, len)
  }

  /** For a field at or above bit 8, MMC_RSP_BITS yields the len-bit field at
      bit start of the response as sent, whatever its CRC byte. */
  lemma MmcRspBitsValue(resp: seq<Word>, start: nat, len: nat, crc: nat)
    requires 8 <= start < SIZE_T_MOD && 1 <= len <= 32 && start + len <= 520
    requires ReadsWithin(resp, (start - 8) % SIZE_T_MOD, len)
    requires crc < 256
    ensures Value(MmcRspBits(resp, start, len)) == Field(crc + 256 * Num(Flatten(resp)), start, len)
  {
    var n, b := Num(Flatten(resp)), start - 8;
    SizeTNoWrap(b);
    SizeTNoWrap(b + len);
    assert MmcRspBits(resp, start, len) == Bitfield(resp, b, len);
    BitfieldValue(resp, b, len);
    CrcFieldShift(crc, n, start, len);
  }

  lemma SizeTNoWrap(x: nat)
    requires x < SIZE_T_MOD
    ensures x % SIZE_T_MOD == x
  {
  }

  /** Taking a field at bit start >= 8 of a number with a byte below it is
      taking it at bit start - 8 of the number. */
  lemma CrcFieldShift(crc: nat, n: nat, start: nat, len: nat)
    requires crc < 256 && 8 <= start
    ensures Field(crc + 256 * n, start, len) == Field(n, start - 8, len)
  {
    Pow2Consts();
    FieldAbove(crc, 8, n, start, len);
  }

  /** `x << k` on a u_int: bits shifted past bit 31 are lost. */
  function ShlUInt(x: nat, k: nat): (r: nat)
    ensures r < UINT_MOD
  {
    (x * Pow2(k)) % UINT_MOD
  }

  /** The CSD response: four words, the CRC byte not stored. */
  predicate IsCsd(resp: seq<Word>)
  {
    |resp| == 4
  }

  /** `MMC_CSD_C_SIZE`: the 12-bit device size at CSD bit 62. */
  function MmcCsdCSize(resp: seq<Word>): (r: Word)
    requires IsCsd(resp)
    ensures Value(r) < 4096
  {
    BitfieldFits(resp, 54, 12);
    Pow2Consts();
    MmcRspBits(resp, 62, 12)
  }

  /** `MMC_CSD_C_SIZE_MULT`: the 3-bit size multiplier at CSD bit 47. */
  function MmcCsdCSizeMult(resp: seq<Word>): (r: Word)
    requires IsCsd(resp)
    ensures Value(r) < 8
  {
    BitfieldFits(resp, 39, 3);
    MmcRspBits(resp, 47, 3)
  }

  /** `MMC_CSD_CAPACITY`: (C_SIZE + 1) << (C_SIZE_MULT + 2) blocks. The shift
      never loses a bit: the capacity is the exact product, at most 2^21. */
  function MmcCsdCapacity(resp: seq<Word>): (r: nat)
    requires IsCsd(resp)
    ensures r == (Value(MmcCsdCSize(resp)) + 1) * Pow2(Value(MmcCsdCSizeMult(resp)) + 2)
    ensures r <= 0x20_0000
  {
    var c, m := Value(MmcCsdCSize(resp)) + 1, Value(MmcCsdCSizeMult(resp)) + 2;
    CapacityNoWrap(c, m);
    ShlUInt(c, m)
  }

  lemma CapacityNoWrap(c: nat, m: nat)
    requires c <= 4096 && m <= 9
    ensures c * Pow2(m) <= 0x20_0000 < UINT_MOD
    ensures (c * Pow2(m)) % UINT_MOD == c * Pow2(m)
  {
    Pow2Mono(m, 9);
    assert Pow2(9) == 512 by {
      Pow2Consts();
    }
    MulLe(c, Pow2(m), 4096, 512);
  }

  lemma MulLe(a: nat, b: nat, x: nat, y: nat)
    requires a <= x && b <= y
    ensures a * b <= x * y
  {
    assert a * b <= x * b;
  }

  /** `SD_CSD_V2_C_SIZE`: the 22-bit device size at bit 48 of a version 2
      CSD. */
  function SdCsdV2CSize(resp: seq<Word>): (r: Word)
    requires IsCsd(resp)
    ensures Value(r) <= 0x3F_FFFF
  {
    BitfieldFits(resp, 40, 22);
    Pow2Consts();
    MmcRspBits(resp, 48, 22)
  }

  /** `SD_CSD_V2_CAPACITY`: (V2_C_SIZE + 1) << 10 blocks, a u_int. It is the
      exact product for every device size but the largest, 0x3FFFFF, whose
      product 2^32 wraps to 0. */
  function SdCsdV2Capacity(resp: seq<Word>): (r: nat)
    requires IsCsd(resp)
    ensures Value(SdCsdV2CSize(resp)) < 0x3F_FFFF ==> r == (Value(SdCsdV2CSize(resp)) + 1) * 1024
    ensures Value(SdCsdV2CSize(resp)) == 0x3F_FFFF ==> r == 0
  {
    var c := Value(SdCsdV2CSize(resp));
    ShiftTenCases(c);
    ShlUInt(c + 1, 10)
  }

  lemma ShiftTenCases(c: nat)
    requires c <= 0x3F_FFFF
    ensures c < 0x3F_FFFF ==> ShlUInt(c + 1, 10) == (c + 1) * 1024
    ensures c == 0x3F_FFFF ==> ShlUInt(c + 1, 10) == 0
  {
    Pow2Consts();
    var p := (c + 1) * 1024;
    assert ShlUInt(c + 1, 10) == p % UINT_MOD;
    assert p <= UINT_MOD;
  }

  /** C_SIZE is the 12-bit field at bit 62 of the CSD as sent, CRC byte
      included. */
  lemma MmcCsdCSizeOfResponse(resp: seq<Word>, crc: nat)
    requires IsCsd(resp) && crc < 256
    ensures Value(MmcCsdCSize(resp)) == Field(crc + 256 * Num(Flatten(resp)), 62, 12)
  {
    MmcRspBitsValue(resp, 62, 12, crc);
  }

  /** C_SIZE_MULT is the 3-bit field at bit 47 of the CSD as sent. */
  lemma MmcCsdCSizeMultOfResponse(resp: seq<Word>, crc: nat)
    requires IsCsd(resp) && crc < 256
    ensures Value(MmcCsdCSizeMult(resp)) == Field(crc + 256 * Num(Flatten(resp)), 47, 3)
  {
    MmcRspBitsValue(resp, 47, 3, crc);
  }

  /** V2_C_SIZE is the 22-bit field at bit 48 of a version 2 CSD as sent. */
  lemma SdCsdV2CSizeOfResponse(resp: seq<Word>, crc: nat)
    requires IsCsd(resp) && crc < 256
    ensures Value(SdCsdV2CSize(resp)) == Field(crc + 256 * Num(Flatten(resp)), 48, 22)
  {
    MmcRspBitsValue(resp, 48, 22, crc);
  }

  /** `SD_EXTENSION_INFO_REG_FNO`: `(addr >> 18) & 0xf`, the function number
      in bits 18..21 of an extension register address. */
  function ExtRegFno(addr: Word): (r: Word)
    ensures Value(r) == Field(Value(addr), 18, 4)
    ensures Value(r) < 16
  {
    var r := And(ShiftRight(addr, 18), LowBits(4));
    NumField(addr, 18, 4, r);
    FieldBound(Value(addr), 18, 4);
    Pow2Consts();
    r
  }

  /** `SD_EXTENSION_INFO_REG_START_ADDR`: `addr & 0x1ffff`, the start address
      in bits 0..16. */
  function ExtRegStartAddr(addr: Word): (r: Word)
    ensures Value(r) == Field(Value(addr), 0, 17)
    ensures Value(r) < 0x2_0000
  {
    var r := And(addr, LowBits(17));
    NumField(addr, 0, 17, r);
    FieldBound(Value(addr), 0, 17);
    Pow2Consts();
    r
  }

  /** An address whose bits outside the two fields are clear is rebuilt from
      its fields: the function number shifted back to bit 18, or-ed with the
      start address; as numbers, fno * 2^18 + start address. */
  lemma ExtRegRoundTrip(addr: Word)
    requires !addr[17] && forall i :: 22 <= i < 32 ==> !addr[i]
    ensures addr == Or(ShiftLeft(ExtRegFno(addr), 18), ExtRegStartAddr(addr))
    ensures Value(addr) == Value(ExtRegFno(addr)) * 0x4_0000 + Value(ExtRegStartAddr(addr))
  {
    var fno, sa := ExtRegFno(addr), ExtRegStartAddr(addr);
    var b := Or(ShiftLeft(fno, 18), sa);
    assert forall i :: 0 <= i < 32 ==> b[i] == addr[i];
    var lo, hi: seq<bool> := addr[..18], addr[18..];
    assert Num(sa) == Num(lo) by {
      NumHighClear(sa, 17);
      NumHighClear(lo, 17);
      assert sa[..17] == lo[..17];
    }
    assert Num(fno) == Num(hi) by {
      NumHighClear(fno, 4);
      NumHighClear(hi, 4);
      assert fno[..4] == hi[..4];
    }
    assert addr == lo + hi;
    NumAppend(lo, hi);
    Pow2Consts();
  }

  /** `SCR_RESERVED2`, SCR bits 0..31, as written: the size_t offset 0 - 8
      wraps to 2^64 - 8, the size_t end offset then wraps to 24, so the guard
      lets the field through, and it is read from words 2^59 - 1 and 2^59 on:
      only a response of more than 2^59 words holds them. */
  lemma ScrReserved2AsWritten(scr: seq<Word>)
    ensures (0 - 8) % SIZE_T_MOD == 0xFFFF_FFFF_FFFF_FFF8
    ensures !BitfieldRejects(0xFFFF_FFFF_FFFF_FFF8, 32)
    ensures 0xFFFF_FFFF_FFFF_FFF8 / 32 == 0x7FF_FFFF_FFFF_FFFF
    ensures ReadsWithin(scr, 0xFFFF_FFFF_FFFF_FFF8, 32) <==> |scr| > 0x800_0000_0000_0000
  {
  }

  /** The guard of MMC_RSP_BITS as evidently intended, on unbounded offsets:
      a field that starts in the CRC byte, which is not stored, or ends past
      the 512 stored bits, is rejected like the other malformed fields. */
  predicate RspBitsRejects(start: nat, len: nat)
  {
    start < 8 || start - 8 + len > 512 || len == 0 || len > 32
  }

  /** MMC_RSP_BITS with the guard applied before the offset is lowered. */
  function MmcRspBitsChecked(resp: seq<Word>, start: nat, len: nat): (r: Word)
    requires RspBitsRejects(start, len) || ReadsWithin(resp, start - 8, len)
    ensures RspBitsRejects(start, len) ==> r == ZERO
    ensures forall i :: len <= i < 32 ==> !r[i]
  {
    if RspBitsRejects(start, len) then ZERO else Bitfield(resp, start - 8, len)
  }

  /** The corrected extractor reads only inside a 16-word response, and it
      agrees with MMC_RSP_BITS on every field that starts at bit 8 or above
      and whose size_t end offset does not wrap. */
  lemma MmcRspBitsCheckedSafe(resp: seq<Word>, start: nat, len: nat)
    requires |resp| == 16
    ensures RspBitsRejects(start, len) || ReadsWithin(resp, start - 8, len)
    ensures 8 <= start < SIZE_T_MOD && len < SIZE_T_MOD && start - 8 + len < SIZE_T_MOD ==>
      ReadsWithin(resp, (start - 8) % SIZE_T_MOD, len) &&
      MmcRspBitsChecked(resp, start, len) == MmcRspBits(resp, start, len)
  {
    if !RspBitsRejects(start, len) {
      StraddlesPast(start - 8, len);
    }
    if 8 <= start < SIZE_T_MOD && len < SIZE_T_MOD && start - 8 + len < SIZE_T_MOD {
      SizeTNoWrap(start - 8);
      SizeTNoWrap(start - 8 + len);
      if !RspBitsRejects(start, len) {
        assert MmcRspBits(resp, start, len) == Bitfield(resp, start - 8, len);
      } else {
        assert BitfieldRejects(start - 8, len);
      }
    }
  }

  /** `SCR_RESERVED2` through the corrected extractor yields 0 and reads
      nothing. */
  lemma ScrReserved2Checked(scr: seq<Word>)
    ensures MmcRspBitsChecked(scr, 0, 32) == ZERO
  {
  }
}
