/** Chain surgery on one level: when the links of a level are rewritten as insert_node's
    splice or remove_node's unlinking does, the level stays threaded. */
module Threading {
  import opened SkipArena

  /** A level whose chain and links are untouched stays threaded. */
  lemma KeptThreaded(a: Arena, b: Arena, l: nat)
    requires a.Linked() && b.Shaped() && l <= a.levels && l <= b.levels
    requires b.chains[l] == a.chains[l]
    requires forall m :: 0 <= m < |a.next| && l < |a.next[m]| ==>
      m < |b.next| && l < |b.next[m]| && b.next[m][l] == a.next[m][l]
    ensures b.Threaded(l)
  {
    assert a.Threaded(l);
  }

  /** A new node id placed at position r of chain l, linked from the node before that
      position and linking to the node after it, leaves the level threaded. */
  lemma InsertedThreaded(a: Arena, b: Arena, l: nat, r: nat, id: nat)
    requires a.Valid() && b.Shaped() && l <= a.levels && l <= b.levels
    requires r <= |a.chains[l]| && id == |a.next|
    requires b.chains[l] == a.chains[l][..r] + [id] + a.chains[l][r..]
    requires forall m :: 0 <= m < |a.next| && l < |a.next[m]| ==>
      m < |b.next| && l < |b.next[m]| &&
      b.next[m][l] == if m == Before(a.chains[l], r) then id else a.next[m][l]
    requires id < |b.next| && l < |b.next[id]| && b.next[id][l] == After(a.chains[l], r)
    ensures b.Threaded(l)
  {
    var c := a.chains[l];
    var c' := b.chains[l];
    assert a.Threaded(l);
    forall pos | 0 <= pos <= |c'| ensures b.next[Before(c', pos)][l] == After(c', pos) {
      if pos <= r {
        assert Before(c', pos) == Before(c, pos);
        if pos < r {
          ChainDistinct(a, l, pos, r);
          assert After(c', pos) == After(c, pos);
        }
      } else if pos == r + 1 {
        assert Before(c', pos) == id;
        assert After(c', pos) == After(c, r);
      } else {
        assert Before(c', pos) == Before(c, pos - 1);
        assert After(c', pos) == After(c, pos - 1);
        ChainDistinct(a, l, pos - 1, r);
      }
    }
  }

  /** The entry at position r of chain l dropped, the node before it now linking to the
      one after it, leaves the level threaded. */
  lemma RemovedThreaded(a: Arena, b: Arena, l: nat, r: nat)
    requires a.Valid() && b.Shaped() && l <= a.levels && l <= b.levels
    requires r < |a.chains[l]|
    requires b.chains[l] == a.chains[l][..r] + a.chains[l][r + 1..]
    requires forall m :: 0 <= m < |a.next| && l < |a.next[m]| ==>
      m < |b.next| && l < |b.next[m]| &&
      b.next[m][l] == if m == Before(a.chains[l], r) then After(a.chains[l], r + 1) else a.next[m][l]
    ensures b.Threaded(l)
  {
    var c := a.chains[l];
    var c' := b.chains[l];
    assert a.Threaded(l);
    forall pos | 0 <= pos <= |c'| ensures b.next[Before(c', pos)][l] == After(c', pos) {
      if pos < r {
        assert Before(c', pos) == Before(c, pos);
        assert After(c', pos) == After(c, pos);
        ChainDistinct(a, l, pos, r);
      } else if pos == r {
        assert Before(c', pos) == Before(c, r);
        assert After(c', pos) == After(c, r + 1);
      } else {
        assert Before(c', pos) == Before(c, pos + 1);
        assert After(c', pos) == After(c, pos + 1);
        ChainDistinct(a, l, pos + 1, r);
      }
    }
  }

  /** A level that either keeps its chain and links or has the entry at position r
      dropped, as one removal does to it, stays threaded. */
  lemma CutOrKeptThreaded(a: Arena, b: Arena, l: nat, cut: bool, r: nat)
    requires a.Valid() && b.Shaped() && l <= a.levels && l <= b.levels
    requires cut ==> r < |a.chains[l]|
    requires b.chains[l] == if cut then a.chains[l][..r] + a.chains[l][r + 1..] else a.chains[l]
    requires forall m :: 0 <= m < |a.next| && l < |a.next[m]| ==>
      m < |b.next| && l < |b.next[m]| &&
      b.next[m][l] == if cut && m == Before(a.chains[l], r) then After(a.chains[l], r + 1) else a.next[m][l]
    ensures b.Threaded(l)
  {
    if cut {
      RemovedThreaded(a, b, l, r);
    } else {
      KeptThreaded(a, b, l);
    }
  }
}
