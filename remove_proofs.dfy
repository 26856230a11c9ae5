/** The removal keeps the list valid, takes exactly the key out of level 0, and, when
    corrected to unlink only nodes that hold the key, keeps it exact as well. */
module RemoveProofs {
  import opened Levels
  import opened SkipArena
  import opened Threading

  /** The links after the first i rounds of the removal's relinking, link by link. */
  lemma {:induction false} BypassAt(L: seq<seq<int>>, ps: seq<nat>, targets: seq<int>, cuts: seq<bool>,
                                    i: nat, m: nat, k: nat)
    requires i <= |ps| == |targets| == |cuts|
    requires forall l :: 0 <= l < |ps| && cuts[l] ==> ps[l] < |L| && l < |L[ps[l]]|
    requires m < |L| && k < |L[m]|
    ensures Bypass(L, ps, targets, cuts, i)[m][k] ==
      if k < i && cuts[k] && m == ps[k] then targets[k] else L[m][k]
    decreases i
  {
    if i > 0 {
      BypassAt(L, ps, targets, cuts, i - 1, m, k);
    }
  }

  /** What the relinking loop finds on level l before it touches that level: the
      stopping point's link there leads to the node at the rank, which is a real node or
      None; the corrected removal cuts the level exactly when that node holds `key`; and
      where the as-written removal finds no node, the recorded successor is that same
      link, None, so relinking it changes nothing. */
  lemma RemovalPlan(a: Arena, key: int, l: nat)
    requires a.Valid() && l <= a.levels
    ensures var p := a.Stops(key)[l];
      && p < |a.next| && l < |a.next[p]|
      && (a.next[p][l] == NIL || 0 <= a.next[p][l] < |a.keys|)
      && (a.Cuts(l, key, true) <==> a.next[p][l] != NIL && a.keys[a.next[p][l]] == key)
      && (!a.Cuts(l, key, false) ==> a.next[p][l] == a.Skips(key)[l])
  {
    PredAtFacts(a, l, key);
    var c := a.chains[l];
    var r := a.RankAt(l, key);
    if r < |c| {
      assert a.Keys(l)[r] == a.keys[c[r]];
    }
  }

  /** A link after the removal: the stopping point of a cut level links past the node
      after it; every other link is as before. */
  lemma UnlinkedLink(a: Arena, key: int, corrected: bool, m: nat, k: nat)
    requires a.Valid() && m < |a.next| && k < |a.next[m]|
    ensures |a.Unlinked(key, corrected).next| == |a.next|
    ensures |a.Unlinked(key, corrected).next[m]| == |a.next[m]|
    ensures a.Unlinked(key, corrected).next[m][k] ==
      if k <= a.levels && a.Cuts(k, key, corrected) && m == a.PredAt(k, key) then a.Beyond(k, key)
      else a.next[m][k]
  {
    BypassAt(a.next, a.Stops(key), a.Skips(key), a.CutLevels(key, corrected), a.levels + 1, m, k);
  }

  /** The node at position r of a chain is not among the entries left when it is taken out. */
  lemma RemovedGone(a: Arena, l: nat, r: nat)
    requires a.Valid() && l <= a.levels && r < |a.chains[l]|
    ensures a.chains[l][r] !in Remove(a.chains[l], r)
  {
    var c := a.chains[l];
    RemoveMembers(c, r);
    if c[r] in Remove(c, r) {
      var j :| 0 <= j < |c| - 1 && Remove(c, r)[j] == c[r];
      if j < r {
        ChainDistinct(a, l, j + 1, r + 1);
      } else {
        ChainDistinct(a, l, j + 2, r + 1);
      }
    }
  }

  lemma UnlinkedShaped(a: Arena, key: int, corrected: bool)
    requires a.Valid()
    ensures a.Unlinked(key, corrected).Shaped()
  {
    var b := a.Unlinked(key, corrected);
    forall n, k | 0 <= n < |b.next| && 0 <= k < |b.next[n]|
      ensures b.next[n][k] == NIL || 0 < b.next[n][k] < |b.next|
    {
      UnlinkedLink(a, key, corrected, n, k);
      if k <= a.levels && a.Cuts(k, key, corrected) && n == a.PredAt(k, key) {
        var c := a.chains[k];
        var r := a.RankAt(k, key);
        if r + 1 < |c| {
          assert b.next[n][k] == c[r + 1];
        }
      }
    }
    forall n | 0 <= n < |b.next| ensures 1 <= |b.next[n]| {
      UnlinkedLink(a, key, corrected, n, 0);
    }
    forall l, j | 0 <= l <= b.levels && 0 <= j < |b.chains[l]|
      ensures 0 < b.chains[l][j] < |b.next| && l < |b.next[b.chains[l][j]]|
    {
      var c := a.chains[l];
      if a.Cuts(l, key, corrected) {
        RemoveMembers(c, a.RankAt(l, key));
        assert b.chains[l][j] in c;
      } else {
        assert b.chains[l][j] in c;
      }
      var x := b.chains[l][j];
      UnlinkedLink(a, key, corrected, x, 0);
    }
  }

  /** Each level stays threaded: a cut level through the chain with its entry taken out,
      the others through their unchanged chain. */
  lemma UnlinkedThreaded(a: Arena, key: int, corrected: bool, l: nat)
    requires a.Valid() && l <= a.levels
    requires a.Unlinked(key, corrected).Shaped()
    ensures a.Unlinked(key, corrected).Threaded(l)
  {
    var b := a.Unlinked(key, corrected);
    var c := a.chains[l];
    var r := a.RankAt(l, key);
    var cut := a.Cuts(l, key, corrected);
    UnlinkedLevelLinks(a, key, corrected, l);
    assert b.chains[l] == if cut then Remove(c, r) else c;
    CutOrKeptThreaded(a, b, l, cut, r);
  }

  /** The level-l links after the removal: only a cut level's stopping point changes,
      to the node after the one it loses. */
  lemma UnlinkedLevelLinks(a: Arena, key: int, corrected: bool, l: nat)
    requires a.Valid() && l <= a.levels
    ensures var b, c, r := a.Unlinked(key, corrected), a.chains[l], a.RankAt(l, key);
      forall m :: 0 <= m < |a.next| && l < |a.next[m]| ==>
        m < |b.next| && l < |b.next[m]| &&
        b.next[m][l] == if a.Cuts(l, key, corrected) && m == Before(c, r) then After(c, r + 1) else a.next[m][l]
  {
    var b := a.Unlinked(key, corrected);
    var c := a.chains[l];
    var r := a.RankAt(l, key);
    forall m | 0 <= m < |a.next| && l < |a.next[m]|
      ensures m < |b.next| && l < |b.next[m]|
      ensures b.next[m][l] ==
        if a.Cuts(l, key, corrected) && m == Before(c, r) then After(c, r + 1) else a.next[m][l]
    {
      UnlinkedLink(a, key, corrected, m, l);
    }
  }

  /** A node on level l that is the first node of level l - 1 not below `key` is also
      the first such node of level l. */
  lemma FirstAtLeastShared(a: Arena, l: nat, key: int)
    requires a.Valid() && 1 <= l <= a.levels
    requires a.RankAt(l - 1, key) < |a.chains[l - 1]|
    requires a.chains[l - 1][a.RankAt(l - 1, key)] in a.chains[l]
    ensures a.RankAt(l, key) < |a.chains[l]|
    ensures a.chains[l][a.RankAt(l, key)] == a.chains[l - 1][a.RankAt(l - 1, key)]
  {
    var c, d := a.chains[l], a.chains[l - 1];
    var r, s := a.RankAt(l, key), a.RankAt(l - 1, key);
    var x := d[s];
    RankSplits(a.Keys(l), key);
    RankSplits(a.Keys(l - 1), key);
    var j :| 0 <= j < |c| && c[j] == x;
    assert a.Keys(l)[j] == a.keys[x] == a.Keys(l - 1)[s];
    assert r <= j;
    var y := c[r];
    assert a.Nested() && Within(c, d);
    assert y in d;
    var i :| 0 <= i < |d| && d[i] == y;
    assert a.Keys(l)[r] == a.keys[y] == a.Keys(l - 1)[i];
    assert Increasing(a.Keys(l)) && Increasing(a.Keys(l - 1));
    assert s <= i;
    assert a.keys[y] <= a.keys[x];
  }

  /** Each level's survivors are still on the level below: a node that level l - 1
      loses is the one level l loses too. */
  lemma CutChainsNested(a: Arena, key: int, corrected: bool, cs: seq<seq<nat>>)
    requires a.Valid() && |cs| == a.levels + 1
    requires forall l :: 0 <= l <= a.levels ==>
      cs[l] == if a.Cuts(l, key, corrected) then Remove(a.chains[l], a.RankAt(l, key)) else a.chains[l]
    ensures forall l :: 1 <= l <= a.levels ==> Within(cs[l], cs[l - 1])
  {
    forall l | 1 <= l <= a.levels ensures Within(cs[l], cs[l - 1]) {
      var c, d := a.chains[l], a.chains[l - 1];
      var r, s := a.RankAt(l, key), a.RankAt(l - 1, key);
      forall x | x in cs[l] ensures x in cs[l - 1] {
        if a.Cuts(l, key, corrected) {
          RemoveMembers(c, r);
          RemovedGone(a, l, r);
        }
        assert x in c;
        assert a.Nested() && Within(c, d);
        assert x in d;
        if a.Cuts(l - 1, key, corrected) {
          RemoveMembers(d, s);
          if x == d[s] {
            FirstAtLeastShared(a, l, key);
            assert false;
          }
        }
      }
    }
  }

  lemma UnlinkedNested(a: Arena, key: int, corrected: bool)
    requires a.Valid()
    requires a.Unlinked(key, corrected).Shaped()
    ensures a.Unlinked(key, corrected).Nested()
  {
    CutChainsNested(a, key, corrected, a.Unlinked(key, corrected).chains);
  }

  /** The keys along each level after the removal: a cut level loses the key at its rank. */
  lemma UnlinkedKeys(a: Arena, key: int, corrected: bool, l: nat)
    requires a.Valid() && l <= a.levels
    requires a.Unlinked(key, corrected).Linked()
    ensures a.Unlinked(key, corrected).Keys(l) ==
      if a.Cuts(l, key, corrected) then RemoveAt(a.Keys(l), a.RankAt(l, key)) else a.Keys(l)
  {
    if a.Cuts(l, key, corrected) {
      KeysAlongRemove(a.keys, a.chains[l], a.RankAt(l, key));
    }
  }

  /** A level-0 node that the corrected removal takes out of level l holds `key`, so it
      is the node it takes out of level 0. */
  lemma CutNodeOnBase(a: Arena, key: int, l: nat, n: nat)
    requires a.Valid() && l <= a.levels && n in a.chains[0]
    requires a.Cuts(l, key, true) && n == a.chains[l][a.RankAt(l, key)]
    ensures a.Cuts(0, key, true) && n == a.chains[0][a.RankAt(0, key)]
  {
    var c0 := a.chains[0];
    assert a.keys[n] == a.Keys(l)[a.RankAt(l, key)] == key;
    var j :| 0 <= j < |c0| && c0[j] == n;
    assert a.Keys(0)[j] == key;
    RankSplits(a.Keys(0), key);
    assert Increasing(a.Keys(0));
  }

  /** The corrected removal keeps the list exact: a node it takes out of some level
      holds `key`, so it is taken out of level 0 too. */
  lemma CorrectedExact(a: Arena, key: int)
    requires a.Valid() && a.Exact()
    requires a.Unlinked(key, true).Linked()
    ensures a.Unlinked(key, true).Exact()
  {
    var b := a.Unlinked(key, true);
    var c0 := a.chains[0];
    var r0 := a.RankAt(0, key);
    forall n | n in b.chains[0]
      ensures |b.next[n]| <= b.levels + 1
      ensures forall l :: 0 <= l < |b.next[n]| ==> n in b.chains[l]
    {
      if a.Cuts(0, key, true) {
        RemoveMembers(c0, r0);
        RemovedGone(a, 0, r0);
      }
      assert n in c0;
      UnlinkedLink(a, key, true, n, 0);
      forall l | 0 <= l < |b.next[n]| ensures n in b.chains[l] {
        var c := a.chains[l];
        var r := a.RankAt(l, key);
        assert n in c;
        if a.Cuts(l, key, true) {
          RemoveMembers(c, r);
          if n == c[r] {
            CutNodeOnBase(a, key, l, n);
            assert false;
          }
        }
      }
    }
  }

  /** The removal, as written or corrected, keeps the list valid and takes the key at
      each cut level's rank out of that level; the corrected one also keeps it exact. */
  lemma UnlinkedValid(a: Arena, key: int, corrected: bool)
    requires a.Valid()
    ensures a.Unlinked(key, corrected).Valid()
    ensures forall l :: 0 <= l <= a.levels ==>
      a.Unlinked(key, corrected).Keys(l) ==
        if a.Cuts(l, key, corrected) then RemoveAt(a.Keys(l), a.RankAt(l, key)) else a.Keys(l)
    ensures corrected && a.Exact() ==> a.Unlinked(key, corrected).Exact()
  {
    var b := a.Unlinked(key, corrected);
    UnlinkedShaped(a, key, corrected);
    forall l | 0 <= l <= b.levels ensures b.Threaded(l) {
      UnlinkedThreaded(a, key, corrected, l);
    }
    UnlinkedNested(a, key, corrected);
    forall l | 0 <= l <= a.levels
      ensures b.Keys(l) == if a.Cuts(l, key, corrected) then RemoveAt(a.Keys(l), a.RankAt(l, key)) else a.Keys(l)
      ensures Increasing(b.Keys(l))
    {
      UnlinkedKeys(a, key, corrected, l);
      if a.Cuts(l, key, corrected) {
        RemoveAtIncreasing(a.Keys(l), a.RankAt(l, key));
      }
    }
    if corrected && a.Exact() {
      CorrectedExact(a, key);
    }
  }
}
