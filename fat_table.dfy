// What the cluster-chain operations do to the table, stated on the FAT
// region as a byte sequence: the entries fatchain writes (Link), the entries
// msdosfs_freeclusterchain clears (FreeAll), the chain a file's start
// cluster leads to (ChainAt) and the walk msdosfs_pcbmap performs along it
// (Walk). The methods of the mount and denode classes are proved against
// these functions; the lemmas here say what the functions mean entry by
// entry.
module FatTable {
  import opened Words
  import opened FatCodec
  import opened FatGeometry
  import opened UseMap

  datatype Option<T> = None | Some(value: T)

  /** The table b of a volume with geometry g holds the entry of every data
      cluster, so the walks below can read them. */
  lemma HoldsInRange(g: Geometry, b: seq<Byte>, cn: nat)
    requires ValidGeometry(g) && |b| == FatBytes(g) && cn <= g.maxCluster
    ensures Holds(b, g.fatType, cn)
  {
    EntryOffsetMono(g.fatType, cn, g.maxCluster);
  }

  /** A data cluster number is neither reserved nor an end-of-chain mark. */
  lemma DataNotEof(g: Geometry, cn: nat)
    requires ValidGeometry(g) && cn <= g.maxCluster
    ensures cn < Reserved(g.fatType) && !IsEof(g.fatType, cn)
  {
  }

  // ---------------------------------------------------------------------
  // fatchain

  /** The value fatchain writes into the entry of cluster c of the run
      start .. start + count - 1: the next cluster of the run, or fillwith
      for the last one. */
  function Successor(start: nat, count: nat, fill: nat, c: nat): nat
  {
    if c + 1 < start + count then c + 1 else fill
  }

  /** The table after the first k writes of fatchain(start, count, fill):
      clusters start .. start + k - 1 linked, in that order. */
  function Link(t: FatType, b: seq<Byte>, start: nat, count: nat, fill: nat, k: nat): (r: seq<Byte>)
    requires k <= count && (count == 0 || Holds(b, t, start + count - 1))
    ensures |r| == |b|
    decreases k, 1
  {
    if k == 0 then b else LinkWrite(t, b, start, count, fill, k)
  }

  /** The k-th write of fatchain: the entry of cluster start + k - 1 gets
      its successor in the run, on the table after k - 1 writes. */
  function LinkWrite(t: FatType, b: seq<Byte>, start: nat, count: nat, fill: nat, k: nat): (r: seq<Byte>)
    requires 0 < k <= count && Holds(b, t, start + count - 1)
    ensures |r| == |b|
    decreases k, 0
  {
    var p := Link(t, b, start, count, fill, k - 1);
    EntryOffsetMono(t, start + k - 1, start + count - 1);
    WriteEntry(p, t, start + k - 1, Successor(start, count, fill, start + k - 1))
  }

  /** The table after k' = k + 1 writes is the table after k writes with
      the entry of cluster c = start + k written. */
  lemma LinkUnfold(t: FatType, b: seq<Byte>, start: nat, count: nat, fill: nat, k: nat, k': nat, c: nat)
    requires k < count && k' == k + 1 && c == start + k && Holds(b, t, start + count - 1)
    ensures Holds(Link(t, b, start, count, fill, k), t, c)
    ensures Link(t, b, start, count, fill, k') ==
      WriteEntry(Link(t, b, start, count, fill, k), t, c, Successor(start, count, fill, c))
  {
    EntryOffsetMono(t, c, start + count - 1);
    calc {
      Link(t, b, start, count, fill, k');
      LinkWrite(t, b, start, count, fill, k');
      WriteEntry(Link(t, b, start, count, fill, k' - 1), t, start + k' - 1, Successor(start, count, fill, start + k' - 1));
      { assert k' - 1 == k && start + k' - 1 == c; }
      WriteEntry(Link(t, b, start, count, fill, k), t, c, Successor(start, count, fill, c));
    }
  }

  /** r is the table after the first k writes of fatchain. */
  ghost predicate Linked(r: seq<Byte>, t: FatType, b: seq<Byte>, start: nat, count: nat, fill: nat, k: nat)
  {
    k <= count && (count == 0 || Holds(b, t, start + count - 1)) && r == Link(t, b, start, count, fill, k)
  }

  /** The k + 1-th write of fatchain, of value v into the entry of cluster
      c, turns the table after k writes into the table after k + 1: c is
      start + k and v its successor in the run. */
  lemma LinkNext(t: FatType, b: seq<Byte>, start: nat, count: nat, fill: nat, k: nat,
                 prev: seq<Byte>, c: nat, v: nat, next: seq<Byte>)
    requires k < count && Linked(prev, t, b, start, count, fill, k) && c == start + k
    requires v == Successor(start, count, fill, c)
    requires Holds(prev, t, c) && next == WriteEntry(prev, t, c, v)
    ensures Linked(next, t, b, start, count, fill, k + 1)
  {
    LinkUnfold(t, b, start, count, fill, k, k + 1, c);
  }

  /** One write of fatchain, seen from entry c: what held of c on the
      table before the write (in the run so far with value want, or as in b)
      holds after it, with c now in the run if it is the cluster written. */
  lemma WriteKeeps(p: seq<Byte>, b: seq<Byte>, t: FatType, cn: nat, v: nat, c: nat, inOld: bool, inNew: bool, want: nat)
    requires Holds(p, t, cn) && Holds(p, t, c) && Holds(b, t, c)
    requires inNew == (inOld || c == cn) && (inOld ==> c != cn) && (c == cn ==> v == want)
    requires inOld ==> ReadEntry(p, t, c) == want % Modulus(t)
    requires !inOld ==> ReadEntry(p, t, c) == ReadEntry(b, t, c)
    requires t == FAT32 ==> Slot(p, t, c) / 0x1000_0000 == Slot(b, t, c) / 0x1000_0000
    ensures Holds(WriteEntry(p, t, cn, v), t, c)
    ensures inNew ==> ReadEntry(WriteEntry(p, t, cn, v), t, c) == want % Modulus(t)
    ensures !inNew ==> ReadEntry(WriteEntry(p, t, cn, v), t, c) == ReadEntry(b, t, c)
    ensures t == FAT32 ==>
      Slot(WriteEntry(p, t, cn, v), t, c) / 0x1000_0000 == Slot(b, t, c) / 0x1000_0000
  {
    SetEffect(p, t, cn, v, c);
  }

  /** After the first k writes of fatchain, each of the clusters written
      reads as its successor in the run (the last one as fillwith), masked to
      the table width; every other entry reads as before; and a FAT32 table
      keeps the reserved top nibble of every entry. */
  lemma {:induction false} LinkEntry(t: FatType, b: seq<Byte>, start: nat, count: nat, fill: nat, k: nat, c: nat)
    requires k <= count && (count == 0 || Holds(b, t, start + count - 1)) && Holds(b, t, c)
    ensures Holds(Link(t, b, start, count, fill, k), t, c)
    ensures start <= c < start + k ==>
      ReadEntry(Link(t, b, start, count, fill, k), t, c) == Successor(start, count, fill, c) % Modulus(t)
    ensures !(start <= c < start + k) ==>
      ReadEntry(Link(t, b, start, count, fill, k), t, c) == ReadEntry(b, t, c)
    ensures t == FAT32 ==>
      Slot(Link(t, b, start, count, fill, k), t, c) / 0x1000_0000 == Slot(b, t, c) / 0x1000_0000
    decreases k
  {
    if k > 0 {
      var j := k - 1;
      LinkEntry(t, b, start, count, fill, j, c);
      LinkKeeps(t, b, start, count, fill, j, k, c);
    }
  }

  /** The step of LinkEntry: write k' = k + 1 of fatchain keeps, for entry
      c, what LinkEntry states after k writes. */
  lemma LinkKeeps(t: FatType, b: seq<Byte>, start: nat, count: nat, fill: nat, k: nat, k': nat, c: nat)
    requires k < count && k' == k + 1 && Holds(b, t, start + count - 1) && Holds(b, t, c)
    requires Holds(Link(t, b, start, count, fill, k), t, c)
    requires start <= c < start + k ==>
      ReadEntry(Link(t, b, start, count, fill, k), t, c) == Successor(start, count, fill, c) % Modulus(t)
    requires !(start <= c < start + k) ==>
      ReadEntry(Link(t, b, start, count, fill, k), t, c) == ReadEntry(b, t, c)
    requires t == FAT32 ==>
      Slot(Link(t, b, start, count, fill, k), t, c) / 0x1000_0000 == Slot(b, t, c) / 0x1000_0000
    ensures Holds(Link(t, b, start, count, fill, k'), t, c)
    ensures start <= c < start + k' ==>
      ReadEntry(Link(t, b, start, count, fill, k'), t, c) == Successor(start, count, fill, c) % Modulus(t)
    ensures !(start <= c < start + k') ==>
      ReadEntry(Link(t, b, start, count, fill, k'), t, c) == ReadEntry(b, t, c)
    ensures t == FAT32 ==>
      Slot(Link(t, b, start, count, fill, k'), t, c) / 0x1000_0000 == Slot(b, t, c) / 0x1000_0000
  {
    var cn := start + k;
    LinkUnfold(t, b, start, count, fill, k, k', cn);
    WriteKeeps(Link(t, b, start, count, fill, k), b, t, cn, Successor(start, count, fill, cn), c,
               start <= c < start + k, start <= c < start + k', Successor(start, count, fill, c));
  }

  /** The clusters start, start + 1, ... start + count - 1. */
  function Run(start: nat, count: nat): (r: seq<nat>)
    ensures |r| == count && forall k :: 0 <= k < count ==> r[k] == start + k
    ensures forall d :: d in r <==> start <= d < start + count
  {
    if count == 0 then [] else Run(start, count - 1) + [start + count - 1]
  }

  /** The table after fatchain(start, count, CLUST_EOFE) on a run of data
      clusters, as msdosfs_clusteralloc leaves it on success. */
  function RunTable(g: Geometry, b: seq<Byte>, start: nat, count: nat): (r: seq<Byte>)
    requires ValidGeometry(g) && |b| == FatBytes(g)
    requires 0 < count && CLUST_FIRST <= start && start + count <= g.maxCluster + 1
    ensures |r| == |b|
  {
    HoldsInRange(g, b, start + count - 1);
    Link(g.fatType, b, start, count, CLUST_EOFE, count)
  }

  /** The clusters cs are data clusters, each but the last with an entry
      naming the next one. */
  ghost predicate Threaded(g: Geometry, b: seq<Byte>, cs: seq<nat>)
    requires ValidGeometry(g) && |b| == FatBytes(g)
  {
    && (forall j :: 0 <= j < |cs| ==> InRange(g, cs[j]) && Holds(b, g.fatType, cs[j]))
    && (forall j :: 0 <= j < |cs| - 1 ==> ReadEntry(b, g.fatType, cs[j]) == cs[j + 1])
  }

  /** The clusters cs, in order, are a whole chain of table b: threaded,
      the last entry holding CLUST_EOFE masked to the table width. */
  ghost predicate Chained(g: Geometry, b: seq<Byte>, cs: seq<nat>)
    requires ValidGeometry(g) && |b| == FatBytes(g)
  {
    && Threaded(g, b, cs)
    && (|cs| > 0 ==> ReadEntry(b, g.fatType, cs[|cs| - 1]) == CLUST_EOFE % Modulus(g.fatType))
  }

  /** The chain from the first cluster of a chained sequence visits its
      clusters in order and then reaches an end-of-chain mark, which is no
      data cluster. */
  lemma {:induction false} ChainedChain(g: Geometry, b: seq<Byte>, cs: seq<nat>, i: nat)
    requires ValidGeometry(g) && |b| == FatBytes(g) && Chained(g, b, cs) && 0 < |cs| && i <= |cs|
    ensures ChainAt(g, b, cs[0], i) == Some(if i < |cs| then cs[i] else CLUST_EOFE % Modulus(g.fatType))
    ensures i == |cs| ==>
      IsEof(g.fatType, CLUST_EOFE % Modulus(g.fatType)) && !InRange(g, CLUST_EOFE % Modulus(g.fatType))
    decreases i
  {
    if i > 0 {
      ChainedChain(g, b, cs, i - 1);
      ChainNext(g, b, cs[0], i - 1, cs[i - 1]);
    }
    EndMark(g.fatType);
  }

  /** The entries of the run start .. start + count - 1 in table r each name
      the next cluster of the run, the last one the end-of-chain mark. */
  ghost predicate RunLinked(g: Geometry, r: seq<Byte>, start: nat, count: nat)
  {
    forall c :: start <= c < start + count ==>
      && Holds(r, g.fatType, c)
      && ReadEntry(r, g.fatType, c) == if c + 1 < start + count then c + 1 else CLUST_EOFE % Modulus(g.fatType)
  }

  /** fatchain(start, count, CLUST_EOFE) links the run. */
  lemma LinkRun(g: Geometry, b: seq<Byte>, start: nat, count: nat)
    requires ValidGeometry(g) && |b| == FatBytes(g)
    requires 0 < count && CLUST_FIRST <= start && start + count <= g.maxCluster + 1
    ensures RunLinked(g, RunTable(g, b, start, count), start, count)
  {
    forall c | start <= c < start + count
      ensures Holds(RunTable(g, b, start, count), g.fatType, c)
      ensures ReadEntry(RunTable(g, b, start, count), g.fatType, c) ==
        if c + 1 < start + count then c + 1 else CLUST_EOFE % Modulus(g.fatType)
    {
      RunEntry(g, b, start, count, c);
    }
  }

  /** A linked run of data clusters is a chain of its own. */
  lemma LinkChained(g: Geometry, r: seq<Byte>, start: nat, count: nat)
    requires ValidGeometry(g) && |r| == FatBytes(g)
    requires 0 < count && CLUST_FIRST <= start && start + count <= g.maxCluster + 1
    requires RunLinked(g, r, start, count)
    ensures Chained(g, r, Run(start, count))
  {
    var cs := Run(start, count);
    forall j | 0 <= j < count
      ensures InRange(g, cs[j]) && Holds(r, g.fatType, cs[j])
      ensures ReadEntry(r, g.fatType, cs[j]) == if j < count - 1 then cs[j + 1] else CLUST_EOFE % Modulus(g.fatType)
    {
      assert cs[j] == start + j;
      assert Holds(r, g.fatType, cs[j]);
    }
  }

  /** The entry fatchain(start, count, CLUST_EOFE) writes for cluster c of
      the run: the next cluster, or the end-of-chain mark. */
  lemma RunEntry(g: Geometry, b: seq<Byte>, start: nat, count: nat, c: nat)
    requires ValidGeometry(g) && |b| == FatBytes(g)
    requires 0 < count && CLUST_FIRST <= start && start + count <= g.maxCluster + 1 && start <= c < start + count
    ensures Holds(RunTable(g, b, start, count), g.fatType, c)
    ensures ReadEntry(RunTable(g, b, start, count), g.fatType, c) ==
      if c + 1 < start + count then c + 1 else CLUST_EOFE % Modulus(g.fatType)
  {
    var t := g.fatType;
    HoldsInRange(g, b, start + count - 1);
    HoldsInRange(g, b, c);
    LinkEntry(t, b, start, count, CLUST_EOFE, count, c);
    if c + 1 < start + count {
      DivModOf(c + 1, Modulus(t), 0, c + 1);
    }
  }

  /** fatchain(start, count, CLUST_EOFE) leaves the entry of every cluster
      outside the run as it was. */
  lemma RunOther(g: Geometry, b: seq<Byte>, start: nat, count: nat, c: nat)
    requires ValidGeometry(g) && |b| == FatBytes(g)
    requires 0 < count && CLUST_FIRST <= start && start + count <= g.maxCluster + 1
    requires InRange(g, c) && !(start <= c < start + count)
    ensures Holds(b, g.fatType, c) && Holds(RunTable(g, b, start, count), g.fatType, c)
    ensures ReadEntry(RunTable(g, b, start, count), g.fatType, c) == ReadEntry(b, g.fatType, c)
  {
    var t := g.fatType;
    HoldsInRange(g, b, start + count - 1);
    HoldsInRange(g, b, c);
    LinkEntry(t, b, start, count, CLUST_EOFE, count, c);
  }

  /** The run fatchain(start, count, CLUST_EOFE) links is a chain of its own:
      from start it visits start, start + 1, ... start + count - 1, in that
      order, and then reaches an end-of-chain mark, which is no data
      cluster. */
  lemma ChainOfLink(g: Geometry, b: seq<Byte>, start: nat, count: nat, i: nat)
    requires ValidGeometry(g) && |b| == FatBytes(g)
    requires 0 < count && CLUST_FIRST <= start && start + count <= g.maxCluster + 1 && i <= count
    ensures ChainAt(g, RunTable(g, b, start, count), start, i) ==
      Some(if i < count then start + i else CLUST_EOFE % Modulus(g.fatType))
    ensures i == count ==>
      IsEof(g.fatType, CLUST_EOFE % Modulus(g.fatType)) && !InRange(g, CLUST_EOFE % Modulus(g.fatType))
  {
    LinkRun(g, b, start, count);
    LinkChained(g, RunTable(g, b, start, count), start, count);
    ChainedChain(g, RunTable(g, b, start, count), Run(start, count), i);
  }

  // ---------------------------------------------------------------------
  // msdosfs_freeclusterchain

  /** The table after msdosfs_freeclusterchain wrote MSDOSFSFREE into the
      entries of the clusters of trail, in order. */
  function FreeAll(t: FatType, b: seq<Byte>, trail: seq<nat>): (r: seq<Byte>)
    requires forall i :: 0 <= i < |trail| ==> Holds(b, t, trail[i])
    ensures |r| == |b|
    decreases |trail|
  {
    if |trail| == 0 then b
    else
      var cn := trail[|trail| - 1];
      assert Holds(b, t, cn);
      WriteEntry(FreeAll(t, b, trail[..|trail| - 1]), t, cn, MSDOSFSFREE)
  }

  /** Every cluster of the trail reads as free (a FAT32 entry keeping its
      reserved top nibble); every other entry reads as before. */
  lemma {:induction false} FreeAllEntry(t: FatType, b: seq<Byte>, trail: seq<nat>, c: nat)
    requires forall i :: 0 <= i < |trail| ==> Holds(b, t, trail[i])
    requires Holds(b, t, c)
    ensures var r := FreeAll(t, b, trail);
      && Holds(r, t, c)
      && (c in trail ==> ReadEntry(r, t, c) == MSDOSFSFREE)
      && (c !in trail ==> ReadEntry(r, t, c) == ReadEntry(b, t, c))
      && (t == FAT32 ==> Slot(r, t, c) / 0x1000_0000 == Slot(b, t, c) / 0x1000_0000)
    decreases |trail|
  {
    if |trail| > 0 {
      var front := trail[..|trail| - 1];
      var p := FreeAll(t, b, front);
      var cn := trail[|trail| - 1];
      assert forall i :: 0 <= i < |front| ==> front[i] == trail[i];
      FreeAllEntry(t, b, front, c);
      assert c in trail <==> c in front || c == cn;
      SetEffect(p, t, cn, MSDOSFSFREE, c);
    }
  }

  /** The bitmap after usemap_free of the clusters of trail, in order. */
  function ClearAll(m: seq<Word>, trail: seq<nat>): (r: seq<Word>)
    requires forall i :: 0 <= i < |trail| ==> trail[i] / 32 < |m|
    ensures |r| == |m|
    ensures forall d: nat :: Bit(r, d) == (Bit(m, d) && d !in trail)
    decreases |trail|
  {
    if |trail| == 0 then m
    else
      var front := trail[..|trail| - 1];
      assert forall i :: 0 <= i < |front| ==> front[i] == trail[i];
      assert forall d :: d in trail <==> d in front || d == trail[|trail| - 1];
      ClearBit(ClearAll(m, front), trail[|trail| - 1])
  }

  /** Marking a free run in use and then freeing its clusters, in order,
      gives back the bitmap. */
  lemma ClearRun(m: seq<Word>, s: nat, n: nat, trail: seq<nat>)
    requires 0 < n <= RunFrom(m, s)
    requires |trail| == n && forall i :: 0 <= i < n ==> trail[i] == s + i
    ensures forall i :: 0 <= i < |trail| ==> trail[i] / 32 < |SetRun(m, s, n)|
    ensures ClearAll(SetRun(m, s, n), trail) == m
  {
    RunFromIs(m, s);
    var f := ClearAll(SetRun(m, s, n), trail);
    forall d: nat
      ensures Bit(f, d) == Bit(m, d)
    {
      if s <= d < s + n {
        assert trail[d - s] == d;
      } else {
        assert d !in trail;
      }
    }
    SameBits(f, m);
  }

  /** Freeing in the bitmap the clusters of a trail that were all in use,
      none twice, adds one free cluster per trail entry. */
  lemma {:induction false} ClearAllCount(m: seq<Word>, trail: seq<nat>, lo: nat, hi: nat)
    requires forall i :: 0 <= i < |trail| ==> trail[i] / 32 < |m| && lo <= trail[i] < hi && Bit(m, trail[i])
    requires Distinct(trail)
    ensures FreeIn(ClearAll(m, trail), lo, hi) == FreeIn(m, lo, hi) + |trail|
    decreases |trail|
  {
    if |trail| > 0 {
      var front := trail[..|trail| - 1];
      var c := trail[|trail| - 1];
      assert forall i :: 0 <= i < |front| ==> front[i] == trail[i];
      ClearAllCount(m, front, lo, hi);
      assert c !in front;
      ClearBitCount(ClearAll(m, front), c, lo, hi);
    }
  }

  /** No cluster twice. */
  predicate Distinct(s: seq<nat>)
  {
    forall i, j :: 0 <= i < j < |s| ==> s[i] != s[j]
  }

  /** s without its last element. */
  function Front(s: seq<nat>): seq<nat>
  {
    if |s| == 0 then [] else s[..|s| - 1]
  }

  /** s without x. */
  function Without(s: seq<nat>, x: nat): (t: seq<nat>)
    requires Distinct(s)
    ensures Distinct(t)
    ensures |t| >= |s| - 1
    ensures forall i :: 0 <= i < |t| ==> t[i] != x && t[i] in s
  {
    if |s| == 0 then []
    else if s[0] == x then (assert forall i :: 0 <= i < |s| - 1 ==> s[1..][i] == s[i + 1]; s[1..])
    else [s[0]] + Without(s[1..], x)
  }

  /** Distinct numbers drawn from lo .. hi - 1 are at most hi - lo many: a
      chain of distinct clusters is no longer than the table. */
  lemma {:induction false} DistinctBound(s: seq<nat>, lo: nat, hi: nat)
    requires Distinct(s) && lo <= hi
    requires forall i :: 0 <= i < |s| ==> lo <= s[i] < hi
    ensures |s| <= hi - lo
    decreases hi - lo
  {
    if |s| > 0 {
      assert lo <= s[0] < hi;
      var t := Without(s, hi - 1);
      forall i | 0 <= i < |t|
        ensures lo <= t[i] < hi - 1
      {
        var j :| 0 <= j < |s| && s[j] == t[i];
      }
      DistinctBound(t, lo, hi - 1);
    }
  }

  // ---------------------------------------------------------------------
  // msdosfs_pcbmap

  /** The cluster at file-relative index k of the chain that starts at
      start: follow k entries, each from a data cluster; None when the chain
      leaves the data clusters first. */
  function ChainAt(g: Geometry, b: seq<Byte>, start: nat, k: nat): (r: Option<nat>)
    requires ValidGeometry(g) && |b| == FatBytes(g)
    ensures k == 0 ==> r == Some(start)
    decreases k
  {
    if k == 0 then Some(start)
    else match ChainAt(g, b, start, k - 1)
      case None => None
      case Some(c) =>
        if InRange(g, c) then (HoldsInRange(g, b, c); Some(ReadEntry(b, g.fatType, c)))
        else None
  }

  /** One step along a chain: from the data cluster c at index k, the chain
      goes on to the cluster c's entry names. */
  lemma ChainNext(g: Geometry, b: seq<Byte>, start: nat, k: nat, c: nat)
    requires ValidGeometry(g) && |b| == FatBytes(g)
    requires ChainAt(g, b, start, k) == Some(c) && InRange(g, c)
    ensures Holds(b, g.fatType, c) && ChainAt(g, b, start, k + 1) == Some(ReadEntry(b, g.fatType, c))
  {
    HoldsInRange(g, b, c);
  }

  /** Where msdosfs_pcbmap's walk ends: at index findcn on a cluster that is
      not an end-of-chain mark; at an end-of-chain mark or a reserved
      cluster (index reached, last data cluster passed); or on a cluster
      outside the data clusters (a corrupt chain). */
  datatype Outcome = Mapped(index: nat, cluster: nat) | HitEof(index: nat, last: nat) | Corrupt

  /** The loop of msdosfs_pcbmap from file-relative index i on cluster cn,
      prev being the cluster the loop read last: stop at reserved clusters,
      fail on clusters outside the data region, otherwise follow the entry
      of cn; at findcn the cluster reached is the answer unless it marks the
      end of the chain. */
  function Walk(g: Geometry, b: seq<Byte>, i: nat, findcn: nat, cn: nat, prev: nat): (r: Outcome)
    requires ValidGeometry(g) && |b| == FatBytes(g)
    ensures r.Mapped? ==> r.index == (if i <= findcn then findcn else i) && !IsEof(g.fatType, r.cluster)
    ensures r.HitEof? ==> i <= r.index && (r.index <= findcn || r.index == i)
    decreases if i <= findcn then findcn - i else 0
  {
    if i >= findcn then
      if IsEof(g.fatType, cn) then HitEof(i, prev) else Mapped(i, cn)
    else if cn >= Reserved(g.fatType) then HitEof(i, prev)
    else if !InRange(g, cn) then Corrupt
    else
      HoldsInRange(g, b, cn);
      Walk(g, b, i + 1, findcn, ReadEntry(b, g.fatType, cn), cn)
  }

  /** The walk from a data cluster does not depend on which cluster was
      read before it. */
  lemma WalkPrev(g: Geometry, b: seq<Byte>, i: nat, findcn: nat, cn: nat, p: nat, q: nat)
    requires ValidGeometry(g) && |b| == FatBytes(g) && InRange(g, cn)
    ensures Walk(g, b, i, findcn, cn, p) == Walk(g, b, i, findcn, cn, q)
  {
    DataNotEof(g, cn);
  }

  /** A chain position holding a value that is neither a data cluster nor
      reserved: a corrupt link. */
  predicate BadLink(g: Geometry, e: Option<nat>)
  {
    e.Some? && !InRange(g, e.value) && e.value < Reserved(g.fatType)
  }

  /** The walk from index i of the chain, followed to index findcn, ends
      Mapped exactly on the chain's cluster at findcn, and fails only on a
      corrupt link of the chain. */
  lemma {:induction false} WalkChain(g: Geometry, b: seq<Byte>, start: nat, i: nat, findcn: nat, prev: nat)
    requires ValidGeometry(g) && |b| == FatBytes(g) && i <= findcn
    requires ChainAt(g, b, start, i).Some?
    ensures var r := Walk(g, b, i, findcn, ChainAt(g, b, start, i).value, prev);
      && (r.Mapped? ==> ChainAt(g, b, start, findcn) == Some(r.cluster))
      && (r.Corrupt? ==> exists n :: i <= n < findcn && BadLink(g, ChainAt(g, b, start, n)))
    decreases findcn - i
  {
    var cn := ChainAt(g, b, start, i).value;
    if i < findcn && cn < Reserved(g.fatType) && InRange(g, cn) {
      HoldsInRange(g, b, cn);
      assert ChainAt(g, b, start, i + 1) == Some(ReadEntry(b, g.fatType, cn));
      WalkChain(g, b, start, i + 1, findcn, cn);
    }
  }

  /** The walk from index i of the chain ends HitEof at index n exactly on
      a reserved or end-of-chain value of the chain at n, and reports the
      chain's cluster at n - 1 as the last one: n is the file's length in
      clusters. */
  lemma {:induction false} WalkEof(g: Geometry, b: seq<Byte>, start: nat, i: nat, findcn: nat, prev: nat)
    requires ValidGeometry(g) && |b| == FatBytes(g) && i <= findcn
    requires ChainAt(g, b, start, i).Some?
    requires i > 0 ==> ChainAt(g, b, start, i - 1) == Some(prev)
    ensures var r := Walk(g, b, i, findcn, ChainAt(g, b, start, i).value, prev);
      r.HitEof? ==>
        && ChainAt(g, b, start, r.index).Some?
        && (ChainAt(g, b, start, r.index).value >= Reserved(g.fatType) ||
            (r.index == findcn && IsEof(g.fatType, ChainAt(g, b, start, r.index).value)))
        && (r.index > 0 ==> ChainAt(g, b, start, r.index - 1) == Some(r.last))
    decreases findcn - i
  {
    var cn := ChainAt(g, b, start, i).value;
    if i < findcn && cn < Reserved(g.fatType) && InRange(g, cn) {
      HoldsInRange(g, b, cn);
      assert ChainAt(g, b, start, i + 1) == Some(ReadEntry(b, g.fatType, cn));
      WalkEof(g, b, start, i + 1, findcn, cn);
    }
  }

  /** A hint is consistent when its file-relative index frcn names the data
      cluster fsrcn of the file's chain. Starting msdosfs_pcbmap's walk
      from such a hint, as msdosfs_fc_lookup lets it, ends exactly where the
      walk from the start cluster ends. */
  lemma {:induction false} HintWalk(g: Geometry, b: seq<Byte>, start: nat, frcn: nat, fsrcn: nat, findcn: nat)
    requires ValidGeometry(g) && |b| == FatBytes(g) && frcn <= findcn
    requires ChainAt(g, b, start, frcn) == Some(fsrcn) && InRange(g, fsrcn)
    ensures Walk(g, b, frcn, findcn, fsrcn, 0) == Walk(g, b, 0, findcn, start, 0)
    decreases frcn
  {
    if frcn > 0 {
      var c := ChainAt(g, b, start, frcn - 1).value;
      HoldsInRange(g, b, c);
      DataNotEof(g, c);
      WalkPrev(g, b, frcn, findcn, fsrcn, 0, c);
      assert Walk(g, b, frcn - 1, findcn, c, 0) == Walk(g, b, frcn, findcn, fsrcn, c);
      HintWalk(g, b, start, frcn - 1, c, findcn);
    }
  }
}
