// 32-bit unsigned words (`u_int`, `uint32_t`) and the C operators the FAT
// bitmap and the SD/MMC register decoders apply to them. A word is held as
// its 32 bits, least significant first, so that every operator is stated bit
// by bit; `Num` gives the unsigned number a bit string stands for.
module Words {

  /** A 32-bit word as its bits; w[0] is the least significant bit. */
  type Word = w: seq<bool> | |w| == 32 witness seq(32, i => false)

  /** The word 0. */
  const ZERO: Word :=
    [false, false, false, false, false, false, false, false,
     false, false, false, false, false, false, false, false,
     false, false, false, false, false, false, false, false,
     false, false, false, false, false, false, false, false]

  /** `(u_int)-1`, `~0U`: every bit set. */
  const ALL_ONES: Word :=
    [true, true, true, true, true, true, true, true,
     true, true, true, true, true, true, true, true,
     true, true, true, true, true, true, true, true,
     true, true, true, true, true, true, true, true]

  /** `1U << k`. */
  function BitOf(k: nat): Word
    requires k < 32
  {
    seq(32, i => i == k)
  }

  /** `(1U << k) - 1` for k < 32, and `__BIT(32) - 1` (every bit) for k = 32:
      the bits 0 .. k-1. */
  function LowBits(k: nat): Word
    requires k <= 32
  {
    seq(32, i => i < k)
  }

  /** `a | b`. */
  function Or(a: Word, b: Word): Word
  {
    seq(32, i requires 0 <= i < 32 => a[i] || b[i])
  }

  /** `a & b`. */
  function And(a: Word, b: Word): Word
  {
    seq(32, i requires 0 <= i < 32 => a[i] && b[i])
  }

  /** `~a`. */
  function Not(a: Word): Word
  {
    seq(32, i requires 0 <= i < 32 => !a[i])
  }

  /** `a ^ b`. */
  function Xor(a: Word, b: Word): Word
  {
    seq(32, i requires 0 <= i < 32 => a[i] != b[i])
  }

  /** `w >> s` for a shift amount below the width. */
  function ShiftRight(w: Word, s: nat): Word
    requires s < 32
  {
    seq(32, i requires 0 <= i < 32 => i + s < 32 && w[i + s])
  }

  /** `w << t` for a shift amount below the width; bits pushed past bit 31
      are lost. */
  function ShiftLeft(w: Word, t: nat): Word
    requires t < 32
  {
    seq(32, i requires 0 <= i < 32 => t <= i && w[i - t])
  }

  /** The position, counted from 1, of the lowest set bit of w at or above
      bit k; 0 when there is none. */
  function LowestSetFrom(w: Word, k: nat): (r: nat)
    requires k <= 32
    ensures r == 0 || (k < r <= 32 && w[r - 1])
    ensures forall j :: k <= j < 32 && (r == 0 || j < r - 1) ==> !w[j]
    decreases 32 - k
  {
    if k == 32 then 0
    else if w[k] then k + 1
    else LowestSetFrom(w, k + 1)
  }

  /** `w == 0`: no bit of w is set. */
  predicate IsZero(w: Word)
  {
    forall j :: 0 <= j < 32 ==> !w[j]
  }

  /** ffs(3): the position, counted from 1, of the least significant set bit
      of w, or 0 when w is zero. */
  function Ffs(w: Word): (r: nat)
    ensures r <= 32
    ensures r == 0 <==> IsZero(w)
    ensures r > 0 ==> w[r - 1] && forall j :: 0 <= j < r - 1 ==> !w[j]
  {
    LowestSetFrom(w, 0)
  }

  /** `w == (u_int)-1`: every bit of w is set. */
  predicate IsAllOnes(w: Word)
  {
    forall j :: 0 <= j < 32 ==> w[j]
  }

  /** 2 to the power n. */
  function Pow2(n: nat): (p: nat)
    ensures p >= 1
  {
    if n == 0 then 1 else 2 * Pow2(n - 1)
  }

  lemma {:induction false} Pow2Add(m: nat, n: nat)
    ensures Pow2(m + n) == Pow2(m) * Pow2(n)
  {
    if n > 0 {
      Pow2Add(m, n - 1);
    }
  }

  lemma {:induction false} Pow2Mono(m: nat, n: nat)
    requires m <= n
    ensures Pow2(m) <= Pow2(n)
  {
    if m < n {
      Pow2Mono(m, n - 1);
    }
  }

  /** The powers of two the decoders use. */
  lemma Pow2Consts()
    ensures Pow2(2) == 4 && Pow2(4) == 16 && Pow2(8) == 256 && Pow2(10) == 1024
    ensures Pow2(12) == 4096 && Pow2(16) == 0x1_0000 && Pow2(17) == 0x2_0000
    ensures Pow2(18) == 0x4_0000 && Pow2(22) == 0x40_0000 && Pow2(32) == 0x1_0000_0000
  {
    assert Pow2(2) == 2 * Pow2(1) == 4;
    Pow2Add(2, 2);
    Pow2Add(4, 4);
    Pow2Add(8, 2);
    Pow2Add(8, 4);
    Pow2Add(8, 8);
    Pow2Add(16, 2);
    assert Pow2(17) == 2 * Pow2(16);
    Pow2Add(18, 4);
    Pow2Add(16, 16);
  }

  /** The unsigned number whose binary digits, least significant first, are
      b. */
  function Num(b: seq<bool>): nat
  {
    if |b| == 0 then 0 else (if b[0] then 1 else 0) + 2 * Num(b[1..])
  }

  /** The value of a word as `u_int`. */
  function Value(w: Word): nat
  {
    Num(w)
  }

  lemma {:induction false} NumBound(b: seq<bool>)
    ensures Num(b) < Pow2(|b|)
  {
    if |b| > 0 {
      NumBound(b[1..]);
    }
  }

  lemma {:induction false} NumAppend(a: seq<bool>, b: seq<bool>)
    ensures Num(a + b) == Num(a) + Pow2(|a|) * Num(b)
  {
    if |a| > 0 {
      assert (a + b)[1..] == a[1..] + b;
      NumAppend(a[1..], b);
      var x, p := Num(b), Pow2(|a| - 1);
      calc {
        Num(a + b);
        (if a[0] then 1 else 0) + 2 * Num(a[1..] + b);
        (if a[0] then 1 else 0) + 2 * (Num(a[1..]) + p * x);
        { MulAssoc(2, p, x); }
        (if a[0] then 1 else 0) + 2 * Num(a[1..]) + (2 * p) * x;
        Num(a) + Pow2(|a|) * x;
      }
    } else {
      assert a + b == b;
    }
  }

  lemma MulAssoc(a: int, b: int, c: int)
    ensures a * (b * c) == (a * b) * c
  {
  }

  lemma {:induction false} NumAllClear(b: seq<bool>)
    requires forall i :: 0 <= i < |b| ==> !b[i]
    ensures Num(b) == 0
  {
    if |b| > 0 {
      NumAllClear(b[1..]);
    }
  }

  /** A bit string whose bits from n on are clear stands for the same number
      as its first n bits. */
  lemma NumHighClear(b: seq<bool>, n: nat)
    requires n <= |b|
    requires forall i :: n <= i < |b| ==> !b[i]
    ensures Num(b) == Num(b[..n])
  {
    assert b == b[..n] + b[n..];
    NumAppend(b[..n], b[n..]);
    NumAllClear(b[n..]);
  }

  /** The number of a bit string whose bits from n on are clear is below 2^n. */
  lemma NumFits(b: seq<bool>, n: nat)
    requires n <= |b|
    requires forall i :: n <= i < |b| ==> !b[i]
    ensures Num(b) < Pow2(n)
  {
    NumHighClear(b, n);
    NumBound(b[..n]);
  }

  /** The len low binary digits of n, as a number: n mod 2^len. */
  function Low(n: nat, len: nat): nat
  {
    if len == 0 then 0 else n % 2 + 2 * Low(n / 2, len - 1)
  }

  /** The len-bit field of n that starts at bit s: (n >> s) & (2^len - 1). */
  function Field(n: nat, s: nat, len: nat): nat
  {
    if s == 0 then Low(n, len) else Field(n / 2, s - 1, len)
  }

  lemma {:induction false} LowBound(n: nat, len: nat)
    ensures Low(n, len) < Pow2(len)
  {
    if len > 0 {
      LowBound(n / 2, len - 1);
    }
  }

  lemma {:induction false} LowZero(len: nat)
    ensures Low(0, len) == 0
  {
    if len > 0 {
      LowZero(len - 1);
    }
  }

  /** Halving the number of a bit string drops its lowest bit. */
  lemma NumHalf(b: seq<bool>)
    requires |b| > 0
    ensures Num(b) / 2 == Num(b[1..])
    ensures Num(b) % 2 == if b[0] then 1 else 0
  {
  }

  /** A bit string whose bits below len are those of t, and clear from len
      on, stands for the len low digits of Num(t). */
  lemma {:induction false} NumLow(t: seq<bool>, len: nat, r: seq<bool>)
    requires len <= |r|
    requires forall i :: 0 <= i < |r| ==> r[i] == (i < len && i < |t| && t[i])
    ensures Num(r) == Low(Num(t), len)
  {
    if len == 0 || |t| == 0 {
      NumAllClear(r);
      LowZero(len);
    } else {
      NumHalf(t);
      NumLow(t[1..], len - 1, r[1..]);
    }
  }

  /** The field at bit s of the number of a bit string is the low digits of
      the number of its bits from s on. */
  lemma {:induction false} FieldDrop(b: seq<bool>, s: nat, len: nat)
    requires s <= |b|
    ensures Field(Num(b), s, len) == Low(Num(b[s..]), len)
  {
    if s > 0 {
      NumHalf(b);
      FieldDrop(b[1..], s - 1, len);
      assert b[1..][s - 1..] == b[s..];
    }
  }

  /** A bit string whose bit i is bit s + i of b for i below len, and clear
      from len on, stands for the field of Num(b) at bit s. */
  lemma NumField(b: seq<bool>, s: nat, len: nat, r: seq<bool>)
    requires s <= |b| && len <= |r|
    requires forall i :: 0 <= i < |r| ==> r[i] == (i < len && s + i < |b| && b[s + i])
    ensures Num(r) == Field(Num(b), s, len)
  {
    FieldDrop(b, s, len);
    NumLow(b[s..], len, r);
  }

  /** A field of at most len bits fits in len bits. */
  lemma {:induction false} FieldBound(n: nat, s: nat, len: nat)
    ensures Field(n, s, len) < Pow2(len)
  {
    if s == 0 {
      LowBound(n, len);
    } else {
      FieldBound(n / 2, s - 1, len);
    }
  }

  /** Fields above k low digits are those of the number above them. */
  lemma {:induction false} FieldAbove(low: nat, k: nat, n: nat, s: nat, len: nat)
    requires low < Pow2(k) && k <= s
    ensures Field(low + Pow2(k) * n, s, len) == Field(n, s - k, len)
  {
    if k > 0 {
      var p := Pow2(k - 1);
      assert low + Pow2(k) * n == low + 2 * (p * n);
      assert (low + Pow2(k) * n) / 2 == low / 2 + p * n;
      FieldAbove(low / 2, k - 1, n, s - 1, len);
    }
  }

  /** The 64 bits of two words, lo first. */
  function Join(lo: Word, hi: Word): (b: seq<bool>)
    ensures |b| == 64 && b[..32] == lo && b[32..] == hi
  {
    var l: seq<bool> := lo;
    l + hi
  }

  /** The bits of a sequence of words laid end to end, word 0 first: bit p
      is bit p % 32 of word p / 32. */
  function Flatten(ws: seq<Word>): (b: seq<bool>)
    ensures |b| == 32 * |ws|
  {
    seq(32 * |ws|, p requires 0 <= p < 32 * |ws| => ws[p / 32][p % 32])
  }
}
