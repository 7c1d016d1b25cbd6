// The chain msdosfs_extendfile grows: the table after one turn of its
// loop, the relation Grown between the clusters added so far and the
// table, bitmap and last-cluster hint, and the proof that each turn keeps
// it.
module FatExtend {
  import opened Words
  import opened FatCodec
  import opened FatGeometry
  import opened UseMap
  import opened FatTable
  import opened FatMount

  /** Adding in `u_long` arithmetic step by step is adding the sum: a
      hint f0 that is done clusters past a moves to f1, got further. */
  lemma AddMod(a: nat, done: nat, got: nat, f0: nat, f1: nat)
    requires f0 == (a + done) % U_LONG_MOD && f1 == (f0 + got) % U_LONG_MOD
    ensures f1 == (a + (done + got)) % U_LONG_MOD
  {
    var q := (a + done) / U_LONG_MOD;
    assert (a + done) % U_LONG_MOD + got == a + (done + got) - q * U_LONG_MOD;
  }

  /** A `u_long` addition that stays below 2^64 does not wrap. */
  lemma AddSmall(f0: nat, got: nat, f1: nat)
    requires f1 == (f0 + got) % U_LONG_MOD && f0 + got < U_LONG_MOD
    ensures f1 == f0 + got
  {
    DivModOf(f0 + got, U_LONG_MOD, 0, f0 + got);
  }

  /** The table after one turn of msdosfs_extendfile's loop on a file that
      has clusters: the run cn .. cn + got - 1 linked by fatchain, then the
      entry of the file's last cluster, last, set to cn. */
  function Spliced(g: Geometry, b: seq<Byte>, last: nat, cn: nat, got: nat): (r: seq<Byte>)
    requires ValidGeometry(g) && |b| == FatBytes(g) && InRange(g, last)
    requires 0 < got && CLUST_FIRST <= cn && cn + got <= g.maxCluster + 1
    ensures |r| == |b|
  {
    var l := RunTable(g, b, cn, got);
    HoldsInRange(g, l, last);
    WriteEntry(l, g.fatType, last, cn)
  }

  /** b' is table b after msdosfs_extendfile's loop appended a run of got
      clusters from cn: linked on its own when the file was empty (first
      is 0), and spliced after the last cluster otherwise. */
  ghost predicate Appended(g: Geometry, b: seq<Byte>, b': seq<Byte>, first: nat, last: nat, cn: nat, got: nat)
    requires ValidGeometry(g) && |b| == FatBytes(g)
    requires 0 < got && CLUST_FIRST <= cn && cn + got <= g.maxCluster + 1
  {
    && (first == 0 ==> b' == RunTable(g, b, cn, got))
    && (first != 0 ==> InRange(g, last) && b' == Spliced(g, b, last, cn, got))
  }

  /** What splicing does entry by entry: the entries of cs but its last one
      are as before, the last one names cn, and the run is linked. */
  lemma SpliceEntries(g: Geometry, b: seq<Byte>, cs: seq<nat>, cn: nat, got: nat)
    requires ValidGeometry(g) && |b| == FatBytes(g) && 0 < |cs| && Threaded(g, b, cs) && Distinct(cs)
    requires 0 < got && CLUST_FIRST <= cn && cn + got <= g.maxCluster + 1
    requires forall j :: 0 <= j < |cs| ==> !(cn <= cs[j] < cn + got)
    ensures var r := Spliced(g, b, cs[|cs| - 1], cn, got);
      && (forall j :: 0 <= j < |cs| - 1 ==> Holds(r, g.fatType, cs[j]) && ReadEntry(r, g.fatType, cs[j]) == cs[j + 1])
      && Holds(r, g.fatType, cs[|cs| - 1]) && ReadEntry(r, g.fatType, cs[|cs| - 1]) == cn
      && RunLinked(g, r, cn, got)
  {
    var t := g.fatType;
    var last := cs[|cs| - 1];
    var l := RunTable(g, b, cn, got);
    var r := Spliced(g, b, last, cn, got);
    HoldsInRange(g, l, last);
    assert r == WriteEntry(l, t, last, cn);
    forall j | 0 <= j < |cs| - 1
      ensures Holds(r, t, cs[j]) && ReadEntry(r, t, cs[j]) == cs[j + 1]
    {
      RunOther(g, b, cn, got, cs[j]);
      WriteOther(l, t, last, cn, cs[j]);
    }
    ReadAfterWrite(l, t, last, cn);
    DivModOf(cn, Modulus(t), 0, cn);
    LinkRun(g, b, cn, got);
    forall c | cn <= c < cn + got
      ensures Holds(r, t, c)
      ensures ReadEntry(r, t, c) == if c + 1 < cn + got then c + 1 else CLUST_EOFE % Modulus(t)
    {
      HoldsInRange(g, l, c);
      WriteOther(l, t, last, cn, c);
    }
  }

  /** A threaded sequence whose last entry names the first cluster of a
      linked run makes, with the run, one whole chain. */
  lemma ChainJoin(g: Geometry, r: seq<Byte>, cs: seq<nat>, cn: nat, got: nat)
    requires ValidGeometry(g) && |r| == FatBytes(g) && 0 < |cs|
    requires 0 < got && CLUST_FIRST <= cn && cn + got <= g.maxCluster + 1
    requires forall j :: 0 <= j < |cs| ==> InRange(g, cs[j]) && Holds(r, g.fatType, cs[j])
    requires forall j :: 0 <= j < |cs| - 1 ==> ReadEntry(r, g.fatType, cs[j]) == cs[j + 1]
    requires ReadEntry(r, g.fatType, cs[|cs| - 1]) == cn
    requires RunLinked(g, r, cn, got)
    ensures Chained(g, r, cs + Run(cn, got))
  {
    var t := g.fatType;
    var xs := cs + Run(cn, got);
    forall j | 0 <= j < |xs|
      ensures InRange(g, xs[j]) && Holds(r, t, xs[j])
    {
      if j >= |cs| {
        assert xs[j] == cn + (j - |cs|);
      }
    }
    forall j | 0 <= j < |xs| - 1
      ensures ReadEntry(r, t, xs[j]) == xs[j + 1]
    {
      if j >= |cs| {
        assert xs[j] == cn + (j - |cs|) && xs[j + 1] == cn + (j - |cs|) + 1;
      } else if j == |cs| - 1 {
        assert xs[j + 1] == cn;
      }
    }
    assert xs[|xs| - 1] == cn + got - 1;
  }

  /** The clusters of the file's chain that msdosfs_extendfile's loop
      links, in order: the new clusters added, after the file's last
      cluster tail when the file had clusters. */
  function Chain(start0: nat, tail: nat, added: seq<nat>): seq<nat>
  {
    if start0 == 0 then added else [tail] + added
  }

  /** Appending to the added clusters appends to the chain. */
  lemma ChainAppend(start0: nat, tail: nat, added: seq<nat>, more: seq<nat>)
    ensures Chain(start0, tail, added + more) == Chain(start0, tail, added) + more
  {
    if start0 != 0 {
      assert [tail] + (added + more) == ([tail] + added) + more;
    }
  }

  /** The state msdosfs_extendfile's loop keeps, started on bitmap m0 for a
      file starting at start0 (0: empty) whose last cluster was tail: the
      clusters added so far are distinct data clusters that were free in
      m0, and the bitmap m is m0 with exactly them marked in use; first is
      the file's start cluster and last the cached last cluster, tail
      until a run is added and then the last added cluster; when the file
      was empty or its last cluster was marked in use, the table b links
      Chain(start0, tail, added) as a whole chain. */
  ghost predicate Grown(g: Geometry, m0: seq<Word>, b: seq<Byte>, m: seq<Word>,
                        start0: nat, tail: nat, added: seq<nat>, first: nat, last: nat)
    requires ValidGeometry(g) && |b| == FatBytes(g)
  {
    && Distinct(added)
    && (forall j :: 0 <= j < |added| ==> InRange(g, added[j]) && !Bit(m0, added[j]))
    && |m| == |m0| && (forall d: nat {:trigger Bit(m, d)} :: Bit(m, d) == (Bit(m0, d) || d in added))
    && (|added| == 0 ==> last == tail && first == start0)
    && (|added| > 0 ==> last == added[|added| - 1] && first == (if start0 == 0 then added[0] else start0))
    && (|added| > 0 && (start0 == 0 || Bit(m0, tail)) ==> Chained(g, b, Chain(start0, tail, added)))
  }

  /** One turn of msdosfs_extendfile's loop keeps Grown: a run of got free
      clusters from cn is marked in use and linked, and spliced after the
      last cluster unless the file was empty (first is 0), in which case
      the file now starts at cn; the run's last cluster is the new last
      one. */
  lemma GrownStep(g: Geometry, m0: seq<Word>, b: seq<Byte>, m: seq<Word>,
                  start0: nat, tail: nat, added: seq<nat>, first: nat, last: nat,
                  b': seq<Byte>, cn: nat, got: nat)
    requires ValidGeometry(g) && |b| == FatBytes(g) && |b'| == FatBytes(g)
    requires Grown(g, m0, b, m, start0, tail, added, first, last)
    requires 0 < got <= RunFrom(m, cn) && CLUST_FIRST <= cn && cn + got <= g.maxCluster + 1
    requires Appended(g, b, b', first, last, cn, got)
    ensures Grown(g, m0, b', SetRun(m, cn, got), start0, tail, added + Run(cn, got),
                  if first == 0 then cn else first, cn + got - 1)
  {
    GrownBits(g, m0, m, added, cn, got);
    var added' := added + Run(cn, got);
    if |added| > 0 {
      assert added'[0] == added[0];
    }
    GrownChain(g, m0, b, m, start0, tail, added, first, last, b', cn, got);
  }

  /** The chain side of GrownStep. */
  lemma GrownChain(g: Geometry, m0: seq<Word>, b: seq<Byte>, m: seq<Word>,
                   start0: nat, tail: nat, added: seq<nat>, first: nat, last: nat,
                   b': seq<Byte>, cn: nat, got: nat)
    requires ValidGeometry(g) && |b| == FatBytes(g) && |b'| == FatBytes(g)
    requires Grown(g, m0, b, m, start0, tail, added, first, last)
    requires 0 < got <= RunFrom(m, cn) && CLUST_FIRST <= cn && cn + got <= g.maxCluster + 1
    requires first == 0 ==> b' == RunTable(g, b, cn, got)
    requires first != 0 ==> InRange(g, last) && b' == Spliced(g, b, last, cn, got)
    ensures start0 == 0 || Bit(m0, tail) ==> Chained(g, b', Chain(start0, tail, added + Run(cn, got)))
  {
    if start0 == 0 || Bit(m0, tail) {
      if first == 0 {
        assert added + Run(cn, got) == Run(cn, got);
        GrownFresh(g, b, cn, got);
      } else {
        SpliceReady(g, m0, b, m, start0, tail, added, first, last, cn, got);
        GrownSplice(g, b, Chain(start0, tail, added), cn, got);
        ChainAppend(start0, tail, added, Run(cn, got));
      }
    }
  }

  /** A run linked into the table of an empty file is a chain of its own. */
  lemma GrownFresh(g: Geometry, b: seq<Byte>, cn: nat, got: nat)
    requires ValidGeometry(g) && |b| == FatBytes(g)
    requires 0 < got && CLUST_FIRST <= cn && cn + got <= g.maxCluster + 1
    ensures Chained(g, RunTable(g, b, cn, got), Run(cn, got))
  {
    LinkRun(g, b, cn, got);
    LinkChained(g, RunTable(g, b, cn, got), cn, got);
  }

  /** Splicing a run after the last cluster of a threaded chain that keeps
      clear of it yields the longer chain, ended by the run's last cluster. */
  lemma GrownSplice(g: Geometry, b: seq<Byte>, cs: seq<nat>, cn: nat, got: nat)
    requires ValidGeometry(g) && |b| == FatBytes(g)
    requires 0 < got && CLUST_FIRST <= cn && cn + got <= g.maxCluster + 1
    requires 0 < |cs| && InRange(g, cs[|cs| - 1]) && Threaded(g, b, cs) && Distinct(cs)
    requires forall j :: 0 <= j < |cs| ==> !(cn <= cs[j] < cn + got)
    ensures Chained(g, Spliced(g, b, cs[|cs| - 1], cn, got), cs + Run(cn, got))
  {
    SpliceEntries(g, b, cs, cn, got);
    ChainJoin(g, Spliced(g, b, cs[|cs| - 1], cn, got), cs, cn, got);
  }

  /** Before a run is spliced on: the chain so far ends at the cached last
      cluster, is threaded, has no cluster twice, and keeps clear of the
      run, whose clusters are free while the chain's are in use. */
  lemma SpliceReady(g: Geometry, m0: seq<Word>, b: seq<Byte>, m: seq<Word>,
                    start0: nat, tail: nat, added: seq<nat>, first: nat, last: nat, cn: nat, got: nat)
    requires ValidGeometry(g) && |b| == FatBytes(g)
    requires Grown(g, m0, b, m, start0, tail, added, first, last)
    requires 0 < got <= RunFrom(m, cn) && first != 0 && InRange(g, last)
    requires start0 == 0 || Bit(m0, tail)
    ensures var cs := Chain(start0, tail, added);
      && 0 < |cs| && cs[|cs| - 1] == last && Threaded(g, b, cs) && Distinct(cs)
      && forall j :: 0 <= j < |cs| ==> !(cn <= cs[j] < cn + got)
  {
    RunFromIs(m, cn);
    var cs := Chain(start0, tail, added);
    if |added| == 0 {
      assert cs == [tail];
      HoldsInRange(g, b, tail);
    }
    forall j | 0 <= j < |cs|
      ensures Bit(m, cs[j])
    {
      if start0 != 0 && j == 0 {
        assert cs[j] == tail;
      } else {
        assert cs[j] in added;
      }
    }
    forall i, j | 0 <= i < j < |cs|
      ensures cs[i] != cs[j]
    {
      if start0 != 0 && i == 0 {
        assert cs[j] == added[j - 1];
      }
    }
  }

  /** The bitmap side of GrownStep: marking a run that is free in m adds
      its clusters, distinct and free in m0, to those marked since m0. */
  lemma GrownBits(g: Geometry, m0: seq<Word>, m: seq<Word>, added: seq<nat>, cn: nat, got: nat)
    requires Distinct(added) && (forall j :: 0 <= j < |added| ==> InRange(g, added[j]) && !Bit(m0, added[j]))
    requires |m| == |m0| && (forall d: nat {:trigger Bit(m, d)} :: Bit(m, d) == (Bit(m0, d) || d in added))
    requires 0 < got <= RunFrom(m, cn) && CLUST_FIRST <= cn && cn + got <= g.maxCluster + 1
    ensures var added' := added + Run(cn, got);
      && Distinct(added') && (forall j :: 0 <= j < |added'| ==> InRange(g, added'[j]) && !Bit(m0, added'[j]))
      && |SetRun(m, cn, got)| == |m0|
      && (forall d: nat {:trigger Bit(SetRun(m, cn, got), d)} :: Bit(SetRun(m, cn, got), d) == (Bit(m0, d) || d in added'))
  {
    RunFromIs(m, cn);
    var added' := added + Run(cn, got);
    forall j | 0 <= j < |added'|
      ensures InRange(g, added'[j]) && !Bit(m0, added'[j])
    {
      if j >= |added| {
        assert added'[j] == cn + (j - |added|);
        assert !Bit(m, added'[j]);
      }
    }
    forall i, j | 0 <= i < j < |added'|
      ensures added'[i] != added'[j]
    {
      if j >= |added| {
        assert added'[j] == cn + (j - |added|);
        if i < |added| {
          assert added'[i] in added && Bit(m, added'[i]);
          assert !Bit(m, added'[j]);
        }
      }
    }
    forall d: nat
      ensures Bit(SetRun(m, cn, got), d) == (Bit(m0, d) || d in added')
    {
      assert d in added' <==> d in added || cn <= d < cn + got;
    }
  }

  /** Grown, spelled out for the whole of msdosfs_extendfile. */
  lemma GrownFile(g: Geometry, m0: seq<Word>, b: seq<Byte>, m: seq<Word>,
                  start0: nat, tail: nat, added: seq<nat>, first: nat, last: nat)
    requires ValidGeometry(g) && |b| == FatBytes(g)
    requires Grown(g, m0, b, m, start0, tail, added, first, last)
    ensures Distinct(added) && forall j :: 0 <= j < |added| ==> InRange(g, added[j]) && !Bit(m0, added[j])
    ensures forall d: nat {:trigger Bit(m, d)} :: Bit(m, d) == (Bit(m0, d) || d in added)
    ensures |added| > 0 ==> last == added[|added| - 1]
    ensures |added| > 0 && start0 == 0 ==> first == added[0] && Chained(g, b, added)
    ensures |added| > 0 && start0 != 0 && Bit(m0, tail) ==> Chained(g, b, [tail] + added)
  {
  }

  /** Where msdosfs_extendfile's loop stands after adding the clusters
      added (done of them) to a file that started at start0, whose last
      cluster was tail0 at relative cluster base, on a volume whose bitmap
      was m0: the file now starts at st, its last-cluster hint is
      FatCache(frcn, fsrcn), the table is b and the bitmap m. The start
      and the hint have moved on by done clusters, and Grown holds. */
  ghost predicate Stands(g: Geometry, m0: seq<Word>, b: seq<Byte>, m: seq<Word>, start0: nat, base: nat,
                         tail0: nat, added: seq<nat>, done: nat, st: nat, frcn: nat, fsrcn: nat)
    requires ValidGeometry(g) && |b| == FatBytes(g)
  {
    && |added| == done
    && (start0 != 0 ==> st == start0 && frcn == (base + done) % U_LONG_MOD)
    && (start0 == 0 && done == 0 ==> st == 0)
    && (start0 == 0 && done > 0 ==> InRange(g, st) && frcn == done - 1)
    && Grown(g, m0, b, m, start0, tail0, added, st, fsrcn)
  }

  /** One turn of msdosfs_extendfile's loop moves Stands on by the run of
      got clusters from cn it appends. */
  lemma StandsStep(g: Geometry, m0: seq<Word>, start0: nat, base: nat, tail0: nat, added: seq<nat>, done: nat,
                   b: seq<Byte>, m: seq<Word>, st: nat, f0: nat, last: nat,
                   b': seq<Byte>, st': nat, f1: nat, cn: nat, got: nat)
    requires ValidGeometry(g) && |b| == FatBytes(g) && |b'| == FatBytes(g)
    requires Stands(g, m0, b, m, start0, base, tail0, added, done, st, f0, last)
    requires 0 < got <= RunFrom(m, cn) && CLUST_FIRST <= cn && cn + got <= g.maxCluster + 1
    requires done + got < U_LONG_MOD && Appended(g, b, b', st, last, cn, got)
    requires st != 0 ==> st' == st && f1 == (f0 + got) % U_LONG_MOD
    requires st == 0 ==> st' == cn && f1 == got - 1
    ensures Stands(g, m0, b', SetRun(m, cn, got), start0, base, tail0, added + Run(cn, got), done + got,
                   st', f1, cn + got - 1)
  {
    GrownStep(g, m0, b, m, start0, tail0, added, st, last, b', cn, got);
    if start0 == 0 && done > 0 {
      AddSmall(f0, got, f1);
    }
    if start0 != 0 {
      AddMod(base, done, got, f0, f1);
    }
  }
}
