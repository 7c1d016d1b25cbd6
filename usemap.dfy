// The in-memory free-cluster bitmap `pm_inusemap`: one bit per cluster, bit
// cn % N_INUSEBITS of word cn / N_INUSEBITS, set when the cluster is in use.
// This module states what a bitmap means (Bit, RunFrom, FreeIn) and what
// usemap_alloc and usemap_free do to it, one bit at a time; the word-level
// lemmas justify the ffs-based scans of chainlength and
// msdosfs_clusteralloc.
module UseMap {
  import opened Words

  /** `N_INUSEBITS`: the bits of one `u_int` word of the bitmap. */
  const N_INUSEBITS: nat := 32

  /** Cluster c is marked in use in m. Clusters past the end of the bitmap
      are reported in use, so that a scan never runs off it. */
  predicate Bit(m: seq<Word>, c: nat)
  {
    c / 32 >= |m| || m[c / 32][c % 32]
  }

  /** Two bitmaps of the same size that agree on every cluster are the same
      bitmap. */
  lemma SameBits(a: seq<Word>, b: seq<Word>)
    requires |a| == |b| && forall d: nat :: Bit(a, d) == Bit(b, d)
    ensures a == b
  {
    forall w | 0 <= w < |a|
      ensures a[w] == b[w]
    {
      forall i | 0 <= i < 32
        ensures a[w][i] == b[w][i]
      {
        var d := 32 * w + i;
        assert d / 32 == w && d % 32 == i;
        assert Bit(a, d) == Bit(b, d);
      }
    }
  }

  /** The bitmap after `usemap_alloc(pmp, c)`: word c / 32 or'ed with
      `1U << (c % 32)`. Exactly bit c is now set. */
  function SetBit(m: seq<Word>, c: nat): (r: seq<Word>)
    requires c / 32 < |m|
    ensures |r| == |m|
    ensures forall d: nat :: Bit(r, d) == (d == c || Bit(m, d))
  {
    m[c / 32 := Or(m[c / 32], BitOf(c % 32))]
  }

  /** The bitmap after `usemap_free(pmp, c)`: word c / 32 and'ed with
      `~(1U << (c % 32))`. Exactly bit c is now clear. */
  function ClearBit(m: seq<Word>, c: nat): (r: seq<Word>)
    requires c / 32 < |m|
    ensures |r| == |m|
    ensures forall d: nat :: Bit(r, d) == (d != c && Bit(m, d))
  {
    m[c / 32 := And(m[c / 32], Not(BitOf(c % 32)))]
  }

  /** The bitmap after usemap_alloc of clusters s .. s + n - 1 in that
      order, as chainalloc does. */
  function SetRun(m: seq<Word>, s: nat, n: nat): (r: seq<Word>)
    requires n == 0 || s + n <= 32 * |m|
    ensures |r| == |m|
    ensures forall d: nat :: Bit(r, d) == ((s <= d < s + n) || Bit(m, d))
    decreases n
  {
    if n == 0 then m else SetBit(SetRun(m, s, n - 1), s + n - 1)
  }

  /** The number of consecutive clusters from c on whose bits are clear,
      up to the end of the bitmap. */
  function RunFrom(m: seq<Word>, c: nat): (r: nat)
    ensures c + r <= 32 * |m| || r == 0
    decreases 32 * |m| - c
  {
    if c >= 32 * |m| || Bit(m, c) then 0 else 1 + RunFrom(m, c + 1)
  }

  /** RunFrom measures a run: every cluster in it is free, and the one after
      it is in use unless the bitmap ends there. */
  lemma {:induction false} RunFromIs(m: seq<Word>, c: nat)
    ensures forall d :: c <= d < c + RunFrom(m, c) ==> !Bit(m, d)
    ensures c + RunFrom(m, c) < 32 * |m| ==> Bit(m, c + RunFrom(m, c))
    decreases 32 * |m| - c
  {
    if !(c >= 32 * |m| || Bit(m, c)) {
      RunFromIs(m, c + 1);
    }
  }

  /** A run of clear bits from c that ends at a set bit (or at the end of
      the bitmap) is the run RunFrom measures. */
  lemma {:induction false} RunFromUnique(m: seq<Word>, c: nat, n: nat)
    requires forall d :: c <= d < c + n ==> !Bit(m, d)
    requires c + n >= 32 * |m| || Bit(m, c + n)
    requires c + n <= 32 * |m| || n == 0
    ensures RunFrom(m, c) == n
    decreases n
  {
    if n > 0 {
      assert !Bit(m, c);
      RunFromUnique(m, c + 1, n - 1);
    }
  }

  /** Inside a run of free clusters, the run from a later cluster is what
      is left of it. */
  lemma RunSuffix(m: seq<Word>, a: nat, c: nat)
    requires a <= c < a + RunFrom(m, a)
    ensures RunFrom(m, c) == RunFrom(m, a) - (c - a)
  {
    RunFromIs(m, a);
    RunFromUnique(m, c, RunFrom(m, a) - (c - a));
  }

  /** No free cluster of the run from a, nor the cluster after it, starts a
      longer run than a does. */
  lemma RunCovered(m: seq<Word>, a: nat)
    ensures forall c :: a <= c <= a + RunFrom(m, a) && !Bit(m, c) ==> RunFrom(m, c) <= RunFrom(m, a)
  {
    RunFromIs(m, a);
    forall c | a <= c <= a + RunFrom(m, a) && !Bit(m, c)
      ensures RunFrom(m, c) <= RunFrom(m, a)
    {
      if c < a + RunFrom(m, a) {
        RunSuffix(m, a, c);
      }
    }
  }

  /** When every cluster outside lo .. hi is marked in use, a run of free
      clusters lies inside lo .. hi. */
  lemma RunInside(m: seq<Word>, lo: nat, hi: nat, c: nat)
    requires forall d: nat :: d < 32 * |m| && !(lo <= d <= hi) ==> Bit(m, d)
    requires RunFrom(m, c) > 0
    ensures lo <= c && c + RunFrom(m, c) <= hi + 1
  {
    RunFromIs(m, c);
    assert !Bit(m, c);
    assert !Bit(m, c + RunFrom(m, c) - 1);
  }

  /** The number of free clusters among lo .. hi - 1. */
  function FreeIn(m: seq<Word>, lo: nat, hi: nat): (r: nat)
    ensures r <= if lo <= hi then hi - lo else 0
    decreases if lo <= hi then hi - lo else 0
  {
    if hi <= lo then 0 else FreeIn(m, lo, hi - 1) + (if Bit(m, hi - 1) then 0 else 1)
  }

  /** A bitmap of all-ones words, as msdosfs_fillinusemap's first loop
      leaves it, marks every cluster in use and counts none free. */
  lemma {:induction false} FullMap(m: seq<Word>, lo: nat, hi: nat)
    requires forall i :: 0 <= i < |m| ==> IsAllOnes(m[i])
    ensures forall c: nat :: Bit(m, c)
    ensures FreeIn(m, lo, hi) == 0
    decreases if lo <= hi then hi - lo else 0
  {
    forall c: nat
      ensures Bit(m, c)
    {
      if c / 32 < |m| {
        assert IsAllOnes(m[c / 32]);
      }
    }
    if lo < hi {
      FullMap(m, lo, hi - 1);
    }
  }

  /** ALL_ONES has every bit set. */
  lemma AllOnesFull()
    ensures IsAllOnes(ALL_ONES)
  {
    forall j | 0 <= j < 32
      ensures ALL_ONES[j]
    {
    }
  }

  /** Counting depends only on the bits counted. */
  lemma {:induction false} FreeInSame(m: seq<Word>, m': seq<Word>, lo: nat, hi: nat)
    requires forall d :: lo <= d < hi ==> Bit(m, d) == Bit(m', d)
    ensures FreeIn(m, lo, hi) == FreeIn(m', lo, hi)
    decreases if lo <= hi then hi - lo else 0
  {
    if lo < hi {
      FreeInSame(m, m', lo, hi - 1);
    }
  }

  /** One bit that changes changes the free count by one. */
  lemma {:induction false} FreeInFlip(m: seq<Word>, m': seq<Word>, c: nat, lo: nat, hi: nat)
    requires forall d :: d != c ==> Bit(m, d) == Bit(m', d)
    requires lo <= c < hi
    ensures Bit(m, c) && !Bit(m', c) ==> FreeIn(m', lo, hi) == FreeIn(m, lo, hi) + 1
    ensures !Bit(m, c) && Bit(m', c) ==> FreeIn(m', lo, hi) + 1 == FreeIn(m, lo, hi)
    decreases hi - lo
  {
    if c < hi - 1 {
      FreeInFlip(m, m', c, lo, hi - 1);
    } else {
      FreeInSame(m, m', lo, hi - 1);
    }
  }

  /** usemap_alloc of a free data cluster takes one off the number of free
      clusters, so `pm_freeclustercount--` keeps the counter in agreement
      with the bitmap; a cluster already in use, or outside lo .. hi - 1,
      leaves the count as it was. */
  lemma SetBitCount(m: seq<Word>, c: nat, lo: nat, hi: nat)
    requires c / 32 < |m|
    ensures lo <= c < hi && !Bit(m, c) ==> FreeIn(SetBit(m, c), lo, hi) + 1 == FreeIn(m, lo, hi)
    ensures !(lo <= c < hi && !Bit(m, c)) ==> FreeIn(SetBit(m, c), lo, hi) == FreeIn(m, lo, hi)
  {
    var r := SetBit(m, c);
    if lo <= c < hi {
      FreeInFlip(m, r, c, lo, hi);
      if Bit(m, c) {
        FreeInSame(m, r, lo, hi);
      }
    } else {
      FreeInSame(m, r, lo, hi);
    }
  }

  /** usemap_free of a data cluster in use adds one to the number of free
      clusters, so `pm_freeclustercount++` keeps the agreement; freeing a
      cluster that was already free does not change the number, and the
      counter then overcounts. */
  lemma ClearBitCount(m: seq<Word>, c: nat, lo: nat, hi: nat)
    requires c / 32 < |m|
    ensures lo <= c < hi && Bit(m, c) ==> FreeIn(ClearBit(m, c), lo, hi) == FreeIn(m, lo, hi) + 1
    ensures !(lo <= c < hi && Bit(m, c)) ==> FreeIn(ClearBit(m, c), lo, hi) == FreeIn(m, lo, hi)
  {
    var r := ClearBit(m, c);
    if lo <= c < hi {
      FreeInFlip(m, r, c, lo, hi);
      if !Bit(m, c) {
        FreeInSame(m, r, lo, hi);
      }
    } else {
      FreeInSame(m, r, lo, hi);
    }
  }

  /** A run of free clusters taken by chainalloc leaves n fewer free
      clusters. */
  lemma {:induction false} SetRunCount(m: seq<Word>, s: nat, n: nat, lo: nat, hi: nat)
    requires s + n <= 32 * |m| && lo <= s && s + n <= hi
    requires forall d :: s <= d < s + n ==> !Bit(m, d)
    ensures FreeIn(SetRun(m, s, n), lo, hi) + n == FreeIn(m, lo, hi)
    decreases n
  {
    if n > 0 {
      SetRunCount(m, s, n - 1, lo, hi);
      SetBitCount(SetRun(m, s, n - 1), s + n - 1, lo, hi);
    }
  }

  /** The clusters of word i from bit s on: the lowest set one among them,
      counted from 1, is ffs of the word with its bits below s cleared
      (`map &= ~((1U << s) - 1)` in chainlength). */
  lemma {:induction false} MaskedFfs(w: Word, s: nat)
    requires s <= 32
    ensures Ffs(And(w, Not(LowBits(s)))) == LowestSetFrom(w, s)
  {
    var v := And(w, Not(LowBits(s)));
    var r := LowestSetFrom(w, s);
    forall j | 0 <= j < 32
      ensures v[j] == (s <= j && w[j])
    {
    }
    if r == 0 {
      assert forall j :: 0 <= j < 32 ==> !v[j];
    } else {
      assert v[r - 1];
      assert forall j :: 0 <= j < r - 1 ==> !v[j];
      FfsIs(v, r);
    }
  }

  /** ffs names the lowest set bit. */
  lemma FfsIs(w: Word, r: nat)
    requires 0 < r <= 32 && w[r - 1]
    requires forall j :: 0 <= j < r - 1 ==> !w[j]
    ensures Ffs(w) == r
  {
  }

  /** `map |= (1U << s) - 1; map ^ (u_int)-1` in msdosfs_clusteralloc: the
      clear bits of w from bit s on, as set bits. */
  lemma ClearFromS(w: Word, s: nat)
    requires s < 32
    ensures Xor(Or(w, LowBits(s)), ALL_ONES) == And(Not(w), Not(LowBits(s)))
    ensures IsAllOnes(Or(w, LowBits(s))) <==> LowestSetFrom(Not(w), s) == 0
  {
    var a, b := Xor(Or(w, LowBits(s)), ALL_ONES), And(Not(w), Not(LowBits(s)));
    assert forall j :: 0 <= j < 32 ==> a[j] == b[j];
    if !IsAllOnes(Or(w, LowBits(s))) {
      var j :| 0 <= j < 32 && !Or(w, LowBits(s))[j];
      assert s <= j && Not(w)[j];
    } else {
      forall j | s <= j < 32
        ensures !Not(w)[j]
      {
        assert Or(w, LowBits(s))[j];
      }
    }
  }

  /** The run of clear bits from bit s of word i, measured within the word:
      it ends at the lowest set bit of the word at or above s, or runs on
      into the next word when there is none. */
  lemma {:induction false} WordRun(m: seq<Word>, i: nat, s: nat)
    requires i < |m| && s <= 32
    ensures var k := LowestSetFrom(m[i], s);
      && (k > 0 ==> RunFrom(m, 32 * i + s) == k - 1 - s)
      && (k == 0 ==> RunFrom(m, 32 * i + s) == 32 - s + RunFrom(m, 32 * i + 32))
    decreases 32 - s
  {
    if s < 32 {
      var c := 32 * i + s;
      assert c / 32 == i && c % 32 == s;
      if !m[i][s] {
        WordRun(m, i, s + 1);
      }
    }
  }

  /** WordRun from cluster start, in the word idx = start / 32 at bit
      s = start % 32; next is the next word's first cluster. */
  lemma StartRun(m: seq<Word>, start: nat, idx: nat, s: nat, next: nat)
    requires idx < |m| && idx == start / 32 && s == start % 32 && next == 32 * idx + 32
    ensures var k := LowestSetFrom(m[idx], s);
      && (k > 0 ==> RunFrom(m, start) == k - 1 - s)
      && (k == 0 ==> RunFrom(m, start) == 32 - s + RunFrom(m, next))
  {
    WordRun(m, idx, s);
  }

  /** WordRun for a whole word, at the word's first cluster a (and the next
      word's, b). */
  lemma WholeWordRun(m: seq<Word>, i: nat, a: nat, b: nat)
    requires i < |m| && a == 32 * i && b == a + 32
    ensures var k := Ffs(m[i]);
      && (k > 0 ==> RunFrom(m, a) == k - 1)
      && (k == 0 ==> RunFrom(m, a) == 32 + RunFrom(m, b))
  {
    WordRun(m, i, 0);
  }

  /** Bits the scan of msdosfs_clusteralloc steps over: from bit s of word
      i up to (not including) the lowest clear one, every bit is set. */
  lemma {:induction false} WordSet(m: seq<Word>, i: nat, s: nat)
    requires i < |m| && s <= 32
    ensures var k := LowestSetFrom(Not(m[i]), s);
      && (k > 0 ==> !Bit(m, 32 * i + k - 1))
      && forall d :: 32 * i + s <= d < (if k == 0 then 32 * i + 32 else 32 * i + k - 1) ==> Bit(m, d)
    decreases 32 - s
  {
    if s < 32 {
      var c := 32 * i + s;
      assert c / 32 == i && c % 32 == s;
      WordSet(m, i, s + 1);
    }
    var k := LowestSetFrom(Not(m[i]), s);
    if k > 0 {
      var c := 32 * i + k - 1;
      assert c / 32 == i && c % 32 == k - 1;
    }
  }

  /** What one scan of msdosfs_clusteralloc has established about the
      clusters from `from` up to `upto`: every free one starts a run shorter
      than count and no longer than fl, the longest run remembered. */
  ghost predicate Scanned(m: seq<Word>, from: nat, upto: nat, count: nat, fl: nat)
  {
    forall c :: from <= c < upto && !Bit(m, c) ==> (RunFrom(m, c) < count && RunFrom(m, c) <= fl)
  }

  /** Every free cluster from `from` up to `upto` starts a run shorter than
      fl: the scan remembers a run of fl found at `upto` only when none
      before it was as long. */
  ghost predicate Shorter(m: seq<Word>, from: nat, upto: nat, fl: nat)
  {
    forall c :: from <= c < upto && !Bit(m, c) ==> RunFrom(m, c) < fl
  }

  /** The scan skips the rest of a word whose bits from s on are all set. */
  lemma SkipWord(m: seq<Word>, from: nat, cn: nat, idx: nat, s: nat, next: nat, count: nat, fl: nat)
    requires idx < |m| && s < 32 && cn == 32 * idx + s && next == 32 * idx + 32
    requires LowestSetFrom(Not(m[idx]), s) == 0
    requires Scanned(m, from, cn, count, fl)
    ensures Scanned(m, from, next, count, fl)
  {
    WordSet(m, idx, s);
  }

  /** The scan moves on to the first free cluster of the word at or after
      bit s, stepping over clusters in use only. */
  lemma SkipToFree(m: seq<Word>, from: nat, cn: nat, idx: nat, s: nat, k: nat, cn': nat, count: nat, fl: nat)
    requires idx < |m| && s < 32 && cn == 32 * idx + s
    requires k == LowestSetFrom(Not(m[idx]), s) && k > 0 && cn' == 32 * idx + k - 1
    requires Scanned(m, from, cn, count, fl)
    ensures cn <= cn' && !Bit(m, cn') && Scanned(m, from, cn', count, fl)
  {
    WordSet(m, idx, s);
  }

  /** The scan steps past a run shorter than count, and past the in-use
      cluster that ends it, remembering a longest run fl' of at least its
      length. */
  lemma PastRun(m: seq<Word>, from: nat, cn: nat, l: nat, count: nat, fl: nat, fl': nat)
    requires l == RunFrom(m, cn) && l < count && fl <= fl' && l <= fl'
    requires Scanned(m, from, cn, count, fl)
    ensures Scanned(m, from, cn + l + 1, count, fl')
  {
    RunCovered(m, cn);
  }

  /** A scan's findings hold for any longer remembered run. */
  lemma ScannedWeaker(m: seq<Word>, from: nat, upto: nat, count: nat, fl: nat, fl': nat)
    requires Scanned(m, from, upto, count, fl) && fl <= fl'
    ensures Scanned(m, from, upto, count, fl')
  {
  }

  /** The two scans of msdosfs_clusteralloc together cover the clusters
      0 .. hi: with both done, every run there is no longer than fl, and
      shorter than count unless it is empty; fl = 0 means no cluster is
      free. */
  lemma ScannedAll(m: seq<Word>, newst: nat, hi: nat, count: nat, fl: nat)
    requires newst <= hi + 1
    requires Scanned(m, newst, hi + 1, count, fl) && Scanned(m, 0, newst, count, fl)
    ensures forall c: nat :: c <= hi ==> RunFrom(m, c) <= fl
    ensures count > 0 ==> forall c: nat :: c <= hi ==> RunFrom(m, c) < count
    ensures fl == 0 ==> forall c: nat :: c <= hi ==> Bit(m, c)
  {
    forall c: nat | c <= hi
      ensures RunFrom(m, c) <= fl && (count > 0 ==> RunFrom(m, c) < count)
      ensures !Bit(m, c) ==> RunFrom(m, c) > 0
    {
      if !Bit(m, c) {
        var q := c / 32;
        assert c == 32 * q + c % 32;
        assert 32 * q + 32 <= 32 * |m|;
      }
    }
  }
}
