/** What insert_node's splice and duplicate check do to the list's invariants. */
module InsertProofs {
  import opened Levels
  import opened SkipArena
  import opened Threading

  /** A node on level l is on level 0. */
  lemma {:induction false} OnBaseLevel(a: Arena, l: nat, x: nat)
    requires a.Linked() && l <= a.levels && x in a.chains[l]
    ensures x in a.chains[0]
    decreases l
  {
    if l > 0 {
      assert Within(a.chains[l], a.chains[l - 1]);
      OnBaseLevel(a, l - 1, x);
    }
  }

  /** Every key met on level l is met on level 0. */
  lemma KeysOnBaseLevel(a: Arena, l: nat, key: int)
    requires a.Linked() && l <= a.levels && key in a.Keys(l)
    ensures key in a.Keys(0)
  {
    var j :| 0 <= j < |a.Keys(l)| && a.Keys(l)[j] == key;
    var x := a.chains[l][j];
    OnBaseLevel(a, l, x);
    var i :| 0 <= i < |a.chains[0]| && a.chains[0][i] == x;
    assert a.Keys(0)[i] == key;
  }

  lemma SplicedShaped(a: Arena, key: int, h: nat)
    requires a.Valid() && 1 <= h <= a.levels
    ensures a.Spliced(key, h).Shaped()
  {
    var b := a.Spliced(key, h);
    var id := |a.next|;
    forall n, k | 0 <= n < |b.next| && 0 <= k < |b.next[n]|
      ensures b.next[n][k] == NIL || 0 < b.next[n][k] < |b.next|
    {
      SplicedLink(a, key, h, n, k);
      if n == id {
        PredAtFacts(a, k, key);
      }
    }
    forall l, j | 0 <= l <= b.levels && 0 <= j < |b.chains[l]|
      ensures 0 < b.chains[l][j] < |b.next| && l < |b.next[b.chains[l][j]]|
    {
      SplicedChain(a, key, h, l);
      if l < h {
        InsertMembers(a.chains[l], a.RankAt(l, key), id);
        assert b.chains[l][j] in a.chains[l] || b.chains[l][j] == id;
      }
    }
  }

  /** The links after the splice, one at a time. */
  lemma SplicedLink(a: Arena, key: int, h: nat, m: nat, k: nat)
    requires a.Valid() && 1 <= h <= a.levels
    requires m < |a.Spliced(key, h).next| && k < |a.Spliced(key, h).next[m]|
    ensures m < |a.next| ==> k < |a.next[m]|
    ensures a.Spliced(key, h).next[m][k] ==
      if m == |a.next| then a.Follower(k, key)
      else if k < h && m == a.PredAt(k, key) then |a.next|
      else a.next[m][k]
  {
    LinksAt(a, key, h, h, m, k);
  }

  /** One round of the splice's loop on level i: the stopping point is an old node with a
      link there, and one relink there gives the next links. */
  lemma SpliceRound(a: Arena, key: int, h: nat, i: nat)
    requires a.Valid() && i < h <= a.levels
    ensures var L := a.Links(key, h, i);
      var p := a.PredAt(i, key);
      p < |a.next| && i < |L[p]| && i < |L[|a.next|]| &&
      a.Links(key, h, i + 1) == Relinked(L, p, |a.next|, i)
  {
    PredAtFacts(a, i, key);
  }

  /** The links after the first i rounds of the splice, link by link: the stopping
      points of levels below i point at the new node, the new node holds their old links
      there and None above, and every other link is as before. */
  lemma LinksAt(a: Arena, key: int, h: nat, i: nat, m: nat, k: nat)
    requires a.Valid() && i <= h <= a.levels
    requires m <= |a.next| && k < |a.Links(key, h, i)[m]|
    ensures a.Links(key, h, i)[m][k] ==
      if m == |a.next| then (if k < i then a.Follower(k, key) else NIL)
      else if k < i && m == a.PredAt(k, key) then |a.next|
      else a.next[m][k]
  {
    var stops := a.Stops(key);
    LinksAreSplices(a, key, h, i, stops);
    SplicesAt(a.next, stops, h, i, m, k);
  }

  /** The splice's links are the generic splice through the descent's stopping points. */
  lemma {:induction false} LinksAreSplices(a: Arena, key: int, h: nat, i: nat, stops: seq<nat>)
    requires a.Valid() && i <= h <= a.levels && |stops| == a.levels + 1
    requires forall l :: 0 <= l < |stops| ==> stops[l] < |a.next| && l < |a.next[stops[l]]|
    requires forall l :: 0 <= l < |stops| ==> stops[l] == a.PredAt(l, key)
    ensures a.Links(key, h, i) == Splices(a.next, stops, h, i)
    decreases i
  {
    if i > 0 {
      LinksAreSplices(a, key, h, i - 1, stops);
      assert stops[i - 1] == a.PredAt(i - 1, key);
    }
  }

  /** LinksAt's statement for any stopping points. */
  lemma {:induction false} SplicesAt(next: seq<seq<int>>, stops: seq<nat>, h: nat, i: nat, m: nat, k: nat)
    requires i <= h && i <= |stops|
    requires forall l :: 0 <= l < |stops| ==> stops[l] < |next| && l < |next[stops[l]]|
    requires m <= |next| && k < |Splices(next, stops, h, i)[m]|
    ensures Splices(next, stops, h, i)[m][k] ==
      if m == |next| then (if k < i then next[stops[k]][k] else NIL)
      else if k < i && m == stops[k] then |next|
      else next[m][k]
    decreases i
  {
    if i > 0 {
      var L := Splices(next, stops, h, i - 1);
      var p := stops[i - 1];
      RelinkedAt(L, p, |next|, i - 1, m, k);
      if m == |next| && k == i - 1 {
        SplicesAt(next, stops, h, i - 1, p, k);
      } else if !(m == p && k == i - 1) {
        SplicesAt(next, stops, h, i - 1, m, k);
      }
    }
  }

  /** A link after one relink. */
  lemma RelinkedAt(L: seq<seq<int>>, p: nat, id: nat, i: nat, m: nat, k: nat)
    requires p < |L| && id < |L| && p != id && i < |L[p]| && i < |L[id]|
    requires m < |L| && k < |L[m]|
    ensures |Relinked(L, p, id, i)| == |L| && |Relinked(L, p, id, i)[m]| == |L[m]|
    ensures Relinked(L, p, id, i)[m][k] ==
      if m == id && k == i then L[p][i]
      else if m == p && k == i then id
      else L[m][k]
  {
  }

  /** The chains after the splice: the new node joins levels 0..h-1 at the stopping point. */
  lemma SplicedChain(a: Arena, key: int, h: nat, l: nat)
    requires a.Valid() && 1 <= h <= a.levels && l <= a.levels
    ensures a.Spliced(key, h).chains[l] ==
      if l < h then Insert(a.chains[l], a.RankAt(l, key), |a.next|) else a.chains[l]
  {
  }

  /** On a level the new node joins, its links thread the old chain with the node added
      at the stopping point; on the others nothing changes. */
  lemma SplicedThreaded(a: Arena, key: int, h: nat, l: nat)
    requires a.Valid() && 1 <= h <= a.levels && l <= a.levels
    requires a.Spliced(key, h).Shaped()
    ensures a.Spliced(key, h).Threaded(l)
  {
    var b := a.Spliced(key, h);
    var id := |a.next|;
    SplicedChain(a, key, h, l);
    forall m | 0 <= m < |a.next| && l < |a.next[m]|
      ensures m < |b.next| && l < |b.next[m]|
      ensures b.next[m][l] == if l < h && m == a.PredAt(l, key) then id else a.next[m][l]
    {
      SplicedLink(a, key, h, m, l);
    }
    if l < h {
      SplicedLink(a, key, h, id, l);
      PredAtFacts(a, l, key);
      InsertedThreaded(a, b, l, a.RankAt(l, key), id);
    } else {
      KeptThreaded(a, b, l);
    }
  }

  /** The new node is on levels 0..h-1, and every old node stays on the levels it was on. */
  lemma SplicedNested(a: Arena, key: int, h: nat)
    requires a.Valid() && 1 <= h <= a.levels
    requires a.Spliced(key, h).Shaped()
    ensures a.Spliced(key, h).Nested()
  {
    var b := a.Spliced(key, h);
    var id := |a.next|;
    forall l | 1 <= l <= a.levels ensures Within(b.chains[l], b.chains[l - 1]) {
      var c, c0 := a.chains[l], a.chains[l - 1];
      assert Within(c, c0);
      SplicedChain(a, key, h, l);
      SplicedChain(a, key, h, l - 1);
      InsertMembers(c, a.RankAt(l, key), id);
      InsertMembers(c0, a.RankAt(l - 1, key), id);
    }
  }

  /** Level by level, the keys after the splice. */
  lemma SplicedKeys(a: Arena, key: int, h: nat, l: nat)
    requires a.Valid() && 1 <= h <= a.levels && l <= a.levels
    requires a.Spliced(key, h).Linked()
    ensures a.Spliced(key, h).Keys(l) == if l < h then InsertKey(a.Keys(l), key) else a.Keys(l)
  {
    SplicedChain(a, key, h, l);
    KeysAlongInsert(a.keys, a.chains[l], a.RankAt(l, key), key);
  }

  /** The new node is on exactly levels 0..h-1, and old nodes keep their levels. */
  lemma SplicedExact(a: Arena, key: int, h: nat)
    requires a.Valid() && 1 <= h <= a.levels && a.Exact()
    requires a.Spliced(key, h).Linked()
    ensures a.Spliced(key, h).Exact()
  {
    var b := a.Spliced(key, h);
    var id := |a.next|;
    forall l | 0 <= l <= a.levels ensures forall x :: x in b.chains[l] <==> (x == id && l < h) || x in a.chains[l] {
      SplicedChain(a, key, h, l);
      if l < h {
        InsertMembers(a.chains[l], a.RankAt(l, key), id);
      } else {
        assert forall x :: x in a.chains[l] ==> x < |a.next|;
      }
    }
    forall n | n in b.chains[0]
      ensures |b.next[n]| <= b.levels + 1 && forall l :: 0 <= l < |b.next[n]| ==> n in b.chains[l]
    {
      if n != id {
        SplicedLink(a, key, h, n, 0);
      }
    }
  }

  /** Splicing in a key that is absent keeps the list valid: on each level k < h the keys
      gain exactly `key`, at its sorted place, and the levels above are unchanged. When
      the list was exact it stays exact, the new node being on exactly levels 0..h-1. */
  lemma SplicedValid(a: Arena, key: int, h: nat)
    requires a.Valid() && 1 <= h <= a.levels && key !in a.Keys(0)
    ensures a.Spliced(key, h).Valid()
    ensures forall l :: 0 <= l <= a.levels ==>
      a.Spliced(key, h).Keys(l) == if l < h then InsertKey(a.Keys(l), key) else a.Keys(l)
    ensures a.Exact() ==> a.Spliced(key, h).Exact()
  {
    var b := a.Spliced(key, h);
    SplicedShaped(a, key, h);
    forall l | 0 <= l <= a.levels ensures b.Threaded(l) {
      SplicedThreaded(a, key, h, l);
    }
    SplicedNested(a, key, h);
    assert b.Linked();
    forall l | 0 <= l <= a.levels
      ensures b.Keys(l) == if l < h then InsertKey(a.Keys(l), key) else a.Keys(l)
      ensures Increasing(b.Keys(l))
    {
      SplicedKeys(a, key, h, l);
      assert Increasing(a.Keys(l));
      if l < h {
        if key in a.Keys(l) {
          KeysOnBaseLevel(a, l, key);
        }
        InsertKeyIncreasing(a.Keys(l), key);
      }
    }
    if a.Exact() {
      SplicedExact(a, key, h);
    }
  }

  /** The walk's stopping point at level l is the last node there with a key below `key`. */
  lemma PredAtLast(a: Arena, l: nat, key: int, x: nat)
    requires a.Valid() && l <= a.levels && x in a.chains[l] && a.keys[x] < key
    ensures a.PredAt(l, key) != 0 && a.keys[x] <= a.keys[a.PredAt(l, key)]
  {
    var c := a.chains[l];
    var ks := a.Keys(l);
    var j :| 0 <= j < |c| && c[j] == x;
    RankSplits(ks, key);
    assert ks[j] == a.keys[x];
    var r := a.RankAt(l, key);
    assert j < r;
    assert Increasing(ks) && ks[r - 1] == a.keys[c[r - 1]];
    assert c[r - 1] > 0;
  }

  /** Two nodes of one level with the same key are the same node. */
  lemma SameKeySameNode(a: Arena, l: nat, x: nat, y: nat)
    requires a.Valid() && l <= a.levels && x in a.chains[l] && y in a.chains[l]
    requires a.keys[x] == a.keys[y]
    ensures x == y
  {
    var c := a.chains[l];
    var i :| 0 <= i < |c| && c[i] == x;
    var j :| 0 <= j < |c| && c[j] == y;
    assert Increasing(a.Keys(l));
    assert a.Keys(l)[i] == a.Keys(l)[j];
  }

  /** When the level-0 stopping point is on level l (or is the head), the walk stops at
      the same node on level l. */
  lemma SameStop(a: Arena, l: nat, key: int)
    requires a.Valid() && l <= a.levels
    requires a.PredAt(0, key) == 0 || a.PredAt(0, key) in a.chains[l]
    ensures a.PredAt(l, key) == a.PredAt(0, key)
  {
    var p0, pl := a.PredAt(0, key), a.PredAt(l, key);
    PredAtFacts(a, 0, key);
    PredAtFacts(a, l, key);
    if pl != 0 {
      OnBaseLevel(a, l, pl);
      PredAtLast(a, 0, key, pl);
    }
    if p0 != 0 {
      PredAtLast(a, l, key, p0);
      SameKeySameNode(a, l, p0, pl);
    }
  }

  /** From the head or a node of level l, the link at level l leads to a node of level l. */
  lemma LinkStaysOnLevel(a: Arena, l: nat, p: nat)
    requires a.Valid() && l <= a.levels && (p == 0 || p in a.chains[l])
    ensures p < |a.next| && l < |a.next[p]|
    ensures a.next[p][l] == NIL || a.next[p][l] in a.chains[l]
  {
    var c := a.chains[l];
    assert a.Threaded(l);
    if p == 0 {
      assert a.next[Before(c, 0)][l] == After(c, 0);
    } else {
      var j :| 0 <= j < |c| && c[j] == p;
      assert a.next[Before(c, j + 1)][l] == After(c, j + 1);
    }
  }

  /** Each check of insert_node reads a node that is really in the list. On an exact list
      that also holds of the last check, which reads the stopping point's top link. */
  lemma ProbeInList(a: Arena, key: int, l: int)
    requires a.Valid() && a.Exact() && -1 <= l < a.levels
    ensures a.Hits(l, key) ==> key in a.Keys(0)
  {
    var p := a.PredAt(l + 1, key);
    PredAtFacts(a, l + 1, key);
    var n := a.Probe(l, key);
    var k: nat;
    if l >= 0 {
      k := l;
      if p != 0 {
        assert Within(a.chains[l + 1], a.chains[l]);
      }
    } else {
      k := |a.next[p]| - 1;
    }
    LinkStaysOnLevel(a, k, p);
    if n != NIL {
      var c := a.chains[k];
      var j :| 0 <= j < |c| && c[j] == n;
      assert a.Keys(k)[j] == a.keys[n];
      KeysOnBaseLevel(a, k, a.keys[n]);
    }
  }

  /** The recursive reading of the checks agrees with the existential one. */
  lemma {:induction false} SeenFromAny(a: Arena, lvl: int, key: int, h: nat)
    requires a.Valid() && -1 <= lvl <= h <= a.levels
    ensures a.SeenFrom(lvl, key, h) <==> exists l :: lvl <= l < h && a.Hits(l, key)
    decreases h - lvl
  {
    if lvl < h {
      SeenFromAny(a, lvl + 1, key, h);
    }
  }

  /** On an exact list insert_node's duplicate check is sound and complete: some check
      fires exactly when `key` is already on level 0. */
  lemma DuplicateCheckExact(a: Arena, key: int, h: nat)
    requires a.Valid() && a.Exact() && 1 <= h <= a.levels
    ensures a.DuplicateSeen(key, h) <==> key in a.Keys(0)
  {
    if a.DuplicateSeen(key, h) {
      var l :| -1 <= l < h && a.Hits(l, key);
      ProbeInList(a, key, l);
    }
    if key in a.Keys(0) {
      PresentIsSeen(a, key, h);
    }
  }

  /** On an exact list, a key already on level 0 is met by one of the checks. */
  lemma PresentIsSeen(a: Arena, key: int, h: nat)
    requires a.Valid() && a.Exact() && 1 <= h <= a.levels && key in a.Keys(0)
    ensures a.DuplicateSeen(key, h)
  {
    var c := a.chains[0];
    var r := a.RankAt(0, key);
    RankSplits(a.Keys(0), key);
    var p := a.PredAt(0, key);
    PredAtFacts(a, 0, key);
    assert a.next[p][0] == c[r] && a.keys[c[r]] == a.Keys(0)[r] == key;
    if p == 0 || 2 <= |a.next[p]| {
      SameStop(a, 1, key);
      assert a.Probe(0, key) == c[r];
      assert a.Hits(0, key);
    } else {
      assert a.Probe(-1, key) == c[r];
      assert a.Hits(-1, key);
    }
  }
}
