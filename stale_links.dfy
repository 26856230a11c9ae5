/** A trace on a list with levels = 2 along which remove_node, as written, leaves a
    stale top link behind, and insert_node's duplicate check then lets a key in twice:
    insert 5 (height 1), insert 7 (height 2), remove 5, insert 8 (height 1), insert 8
    (height 1) leaves level 0 reading 7, 8, 8. Removing 5 also cuts 7 out of level 1,
    although 7 keeps both of its links; the check reads the top link of 7, which is None.
    With the corrected removal the second 8 is turned away. */
module StaleLinks {
  import opened Results
  import opened Levels
  import opened SkipArena
  import opened InsertProofs
  import opened Properties

  /** After inserting 5 with height 1 into SkipList(2): node 1 holds 5. */
  const S1: Arena := Arena(2, [-1, 5], [[1, -1, -1], [-1]], [[1], [], []])
  /** After inserting 7 with height 2: node 2 holds 7, on levels 0 and 1. */
  const S2: Arena := Arena(2, [-1, 5, 7], [[1, 2, -1], [2], [-1, -1]], [[1, 2], [2], []])
  /** After remove_node(5) as written: the head bypasses 7 on level 1 as well. */
  const S3: Arena := Arena(2, [-1, 5, 7], [[2, -1, -1], [2], [-1, -1]], [[2], [], []])
  /** After inserting 8 with height 1: node 3 holds 8. */
  const S4: Arena := Arena(2, [-1, 5, 7, 8], [[2, -1, -1], [2], [3, -1], [-1]], [[2, 3], [], []])

  /** The link tables the trace goes through, computed once outside any list. */
  lemma TraceLinks()
    ensures Empty(2).next + [Nils(1)] == [[-1, -1, -1], [-1]]
    ensures Relinked([[-1, -1, -1], [-1]], 0, 1, 0) == S1.next
    ensures S1.next + [Nils(2)] == [[1, -1, -1], [-1], [-1, -1]]
    ensures Relinked([[1, -1, -1], [-1], [-1, -1]], 1, 2, 0) == [[1, -1, -1], [2], [-1, -1]]
    ensures Relinked([[1, -1, -1], [2], [-1, -1]], 0, 2, 1) == S2.next
    ensures Bypass(S2.next, [0, 0, 0], [2, -1, -1], [true, true, false], 3) == S3.next
    ensures S3.next + [Nils(1)] == [[2, -1, -1], [2], [-1, -1], [-1]]
    ensures Relinked([[2, -1, -1], [2], [-1, -1], [-1]], 2, 3, 0) == S4.next
  {
    assert Nils(3) == [-1, -1, -1];
    assert Nils(2) == [-1, -1];
    assert Nils(1) == [-1];
    var L: seq<seq<int>> := [[-1, -1, -1], [-1]];
    assert L[0][0 := 1] == [1, -1, -1];
    assert L[1][0 := L[0][0]] == [-1];
    L := [[1, -1, -1], [-1], [-1, -1]];
    assert L[1][0 := 2] == [2];
    assert L[2][0 := L[1][0]] == [-1, -1];
    L := [[1, -1, -1], [2], [-1, -1]];
    assert L[0][1 := 2] == [1, 2, -1];
    assert L[2][1 := L[0][1]] == [-1, -1];
    L := S2.next;
    assert L[0][0 := 2] == [2, 2, -1];
    var B1 := Bypassed(L, 0, 0, 2);
    assert B1[0][1 := -1] == [2, -1, -1];
    assert B1 == [[2, 2, -1], [2], [-1, -1]];
    assert Bypassed(B1, 0, 1, -1) == S3.next;
    L := [[2, -1, -1], [2], [-1, -1], [-1]];
    assert L[2][0 := 3] == [3, -1];
    assert L[3][0 := L[2][0]] == [-1];
  }

  /** The first insertion finds no 5 and splices it. */
  lemma InsertFiveSplices()
    ensures Empty(2).Valid() && Empty(2).AfterInsert(5, 1) == Empty(2).Spliced(5, 1)
    ensures Empty(2).AfterInsert(5, 1).Valid() && Empty(2).AfterInsert(5, 1).Exact()
  {
    EmptyValid(2);
    InsertEffect(Empty(2), 5, 1);
  }

  lemma InsertFiveLinks()
    ensures Empty(2).Valid() && Empty(2).Spliced(5, 1) == S1
  {
    var e := Empty(2);
    EmptyValid(2);
    TraceLinks();
    assert e.RankAt(0, 5) == 0;
    assert e.Links(5, 1, 1) == Relinked(e.Links(5, 1, 0), 0, 1, 0);
    var cs := e.SplicedChains(5, 1);
    assert cs[0] == [1] && cs[1] == [] && cs[2] == [];
    assert cs == [[1], [], []];
  }

  /** Inserting 5 into the empty list gives S1. */
  lemma InsertFive()
    ensures Empty(2).Valid() && Empty(2).AfterInsert(5, 1) == S1
    ensures S1.Valid() && S1.Exact()
  {
    InsertFiveSplices();
    InsertFiveLinks();
  }

  /** 7 is not in S1, so it is spliced. */
  lemma InsertSevenSplices()
    requires S1.Valid() && S1.Exact()
    ensures S1.AfterInsert(7, 2) == S1.Spliced(7, 2)
    ensures S1.Spliced(7, 2).Valid() && S1.Spliced(7, 2).Exact()
  {
    assert S1.Keys(0) == [5];
    InsertEffect(S1, 7, 2);
  }

  lemma InsertSevenLinks(a: Arena)
    requires a.Valid() && a.levels == 2 && a.keys == [-1, 5] && a.chains == [[1], [], []]
    requires a.next == [[1, -1, -1], [-1]]
    ensures a.Links(7, 2, 2) == S2.next
  {
    TraceLinks();
    assert a.Keys(0) == [5] && a.Keys(1) == [];
    assert a.PredAt(0, 7) == 1 && a.PredAt(1, 7) == 0;
    assert a.Links(7, 2, 1) == Relinked(a.Links(7, 2, 0), 1, 2, 0);
  }

  lemma InsertSevenChains(a: Arena)
    requires a.Valid() && a.levels == 2 && a.keys == [-1, 5] && a.chains == [[1], [], []]
    ensures a.SplicedChains(7, 2) == S2.chains
  {
    assert a.Keys(0) == [5] && a.Keys(1) == [];
    assert a.RankAt(0, 7) == 1 && a.RankAt(1, 7) == 0;
    var cs := a.SplicedChains(7, 2);
    assert cs[0] == [1, 2] && cs[1] == [2] && cs[2] == [];
  }

  /** Inserting 7 with height 2 into S1 gives S2, still exact. */
  lemma InsertSeven()
    requires S1.Valid() && S1.Exact()
    ensures S1.AfterInsert(7, 2) == S2 && S2.Valid() && S2.Exact()
  {
    InsertSevenSplices();
    InsertSevenLinks(S1);
    InsertSevenChains(S1);
  }

  /** 5 is found on level 0, so the removal relinks. */
  lemma RemoveFiveCuts()
    requires S2.Valid()
    ensures S2.AfterRemove(5, false) == S2.Unlinked(5, false) && S2.Unlinked(5, false).Valid()
  {
    assert S2.Keys(0) == [5, 7];
    RemoveEffect(S2, 5, false);
  }

  /** The removal stops at the head on every level; on level 1 the next node is 7. */
  lemma RemoveFiveStops(a: Arena)
    requires a.Valid() && a.levels == 2 && a.keys == [-1, 5, 7] && a.chains == [[1, 2], [2], []]
    ensures a.Stops(5) == [0, 0, 0] && a.Skips(5) == [2, -1, -1]
    ensures a.CutLevels(5, false) == [true, true, false]
  {
    assert a.Keys(0) == [5, 7] && a.Keys(1) == [7] && a.Keys(2) == [];
    assert a.RankAt(0, 5) == 0 && a.RankAt(1, 5) == 0 && a.RankAt(2, 5) == 0;
  }

  lemma RemoveFiveChains(a: Arena)
    requires a.Valid() && a.levels == 2 && a.keys == [-1, 5, 7] && a.chains == [[1, 2], [2], []]
    ensures a.UnlinkedChains(5, false) == S3.chains
  {
    assert a.Keys(0) == [5, 7] && a.Keys(1) == [7] && a.Keys(2) == [];
    assert a.RankAt(0, 5) == 0 && a.RankAt(1, 5) == 0 && a.RankAt(2, 5) == 0;
    var cs := a.UnlinkedChains(5, false);
    assert cs[0] == [2] && cs[1] == [] && cs[2] == [];
  }

  /** Removing 5 from S2, as written, gives S3. */
  lemma RemoveFive()
    requires S2.Valid()
    ensures S2.AfterRemove(5, false) == S3 && S3.Valid()
  {
    RemoveFiveCuts();
    RemoveFiveStops(S2);
    RemoveFiveChains(S2);
    TraceLinks();
  }

  /** Neither check of the first insertion of 8 fires. */
  lemma FirstEightUnseen(a: Arena)
    requires a.Valid() && a.levels == 2 && a.keys == [-1, 5, 7] && a.chains == [[2], [], []]
    requires a.next == [[2, -1, -1], [2], [-1, -1]]
    ensures !a.DuplicateSeen(8, 1)
  {
    assert a.Keys(0) == [7] && a.Keys(1) == [];
    assert a.PredAt(0, 8) == 2 && a.PredAt(1, 8) == 0;
    assert a.Probe(-1, 8) == -1 && a.Probe(0, 8) == 2;
  }

  lemma InsertEightLinks(a: Arena)
    requires a.Valid() && a.levels == 2 && a.keys == [-1, 5, 7] && a.chains == [[2], [], []]
    requires a.next == [[2, -1, -1], [2], [-1, -1]]
    ensures a.Links(8, 1, 1) == S4.next && a.SplicedChains(8, 1) == S4.chains
  {
    TraceLinks();
    assert a.Keys(0) == [7];
    assert a.PredAt(0, 8) == 2;
    assert a.Links(8, 1, 1) == Relinked(a.Links(8, 1, 0), 2, 3, 0);
    var cs := a.SplicedChains(8, 1);
    assert cs[0] == [2, 3] && cs[1] == [] && cs[2] == [];
  }

  /** Inserting 8 with height 1 into S3 gives S4. */
  lemma InsertEight()
    requires S3.Valid()
    ensures S3.AfterInsert(8, 1) == S4 && S4.Valid()
  {
    FirstEightUnseen(S3);
    InsertEightLinks(S3);
    assert S3.Keys(0) == [7];
    SplicedValid(S3, 8, 1);
  }

  /** Neither check of the second insertion of 8 fires: the level-0 check reads the
      stale top link of 7 rather than its level-0 link to 8. */
  lemma SecondEightUnseen(a: Arena)
    requires a.Valid() && a.levels == 2 && a.keys == [-1, 5, 7, 8] && a.chains == [[2, 3], [], []]
    requires a.next == [[2, -1, -1], [2], [3, -1], [-1]]
    ensures a.Keys(0) == [7, 8] && !a.DuplicateSeen(8, 1)
  {
    assert Rank([7, 8], 8) == 1 && Rank([], 8) == 0;
    assert a.PredAt(0, 8) == 2 by {
      assert a.Keys(0) == [7, 8];
    }
    assert a.PredAt(1, 8) == 0 by {
      assert a.Keys(1) == [];
    }
    assert !a.Hits(-1, 8) by {
      assert a.Probe(-1, 8) == -1;
    }
    assert !a.Hits(0, 8) by {
      assert a.Probe(0, 8) == 2;
    }
    assert a.Keys(0) == [7, 8];
  }

  /** So the second 8 is spliced in next to the first. */
  lemma SecondEightSpliced(a: Arena)
    requires a.Valid() && a.levels == 2 && a.keys == [-1, 5, 7, 8] && a.chains == [[2, 3], [], []]
    requires a.next == [[2, -1, -1], [2], [3, -1], [-1]]
    ensures a.AfterInsert(8, 1) == a.Spliced(8, 1) && a.Spliced(8, 1).Linked()
    ensures a.Spliced(8, 1).Keys(0) == [7, 8, 8]
  {
    SecondEightUnseen(a);
    var b := a.Spliced(8, 1);
    SplicedShaped(a, 8, 1);
    forall l | 0 <= l <= 2 ensures b.Threaded(l) {
      SplicedThreaded(a, 8, 1, l);
    }
    SplicedNested(a, 8, 1);
    SplicedKeys(a, 8, 1, 0);
    assert Rank([7, 8], 8) == 1;
  }

  /** The whole trace, as written: after the removal the list is no longer exact, and
      insert_node reports success for an 8 that is already there. */
  lemma StaleLinksLetDuplicateIn()
    ensures Empty(2).Valid() && Empty(2).AfterInsert(5, 1) == S1
    ensures S1.Valid() && S1.AfterInsert(7, 2) == S2
    ensures S2.Valid() && S2.Exact() && S2.Keys(0) == [5, 7]
    ensures S2.AfterRemove(5, false) == S3
    ensures S3.Valid() && !S3.Exact() && S3.AfterInsert(8, 1) == S4
    ensures S4.Valid() && 8 in S4.Keys(0) && S4.Insertion(8, 1) == Returned(true)
    ensures S4.AfterInsert(8, 1).Linked() && S4.AfterInsert(8, 1).Keys(0) == [7, 8, 8]
  {
    InsertFive();
    InsertSeven();
    KeysOfS2(S2);
    RemoveFive();
    assert 2 in S3.chains[0] && 2 !in S3.chains[1];
    InsertEight();
    SecondEightUnseen(S4);
    SecondEightSpliced(S4);
  }

  /** The corrected removal of 5 from a list reading 5, 7 leaves 7, exact. */
  lemma CorrectedRemove(a: Arena)
    requires a.Valid() && a.Exact() && a.Keys(0) == [5, 7]
    ensures a.AfterRemove(5, true).Valid() && a.AfterRemove(5, true).Exact()
    ensures a.AfterRemove(5, true).Keys(0) == [7]
  {
    RemoveEffect(a, 5, true);
    assert RemoveAt([5, 7], 0) == [7];
  }

  /** Inserting 8 into an exact list reading 7. */
  lemma CorrectedInsert(a: Arena)
    requires a.Valid() && a.Exact() && a.Keys(0) == [7] && 1 <= a.levels
    ensures a.AfterInsert(8, 1).Valid() && a.AfterInsert(8, 1).Exact()
    ensures a.AfterInsert(8, 1).Keys(0) == [7, 8]
  {
    InsertEffect(a, 8, 1);
    assert InsertKey([7], 8) == [7, 8];
  }

  /** On an exact list that holds 8, a second insertion of 8 changes nothing. */
  lemma CorrectedRejects(a: Arena)
    requires a.Valid() && a.Exact() && a.Keys(0) == [7, 8] && 1 <= a.levels
    ensures a.Insertion(8, 1) == Returned(false) && a.AfterInsert(8, 1) == a
  {
    InsertEffect(a, 8, 1);
  }

  /** Level 0 of S2 reads 5, 7. */
  lemma KeysOfS2(a: Arena)
    requires a.Valid() && a.keys == [-1, 5, 7] && a.chains[0] == [1, 2]
    ensures a.Keys(0) == [5, 7]
  {
  }

  /** The same steps with the corrected removal, from any exact list reading 5, 7 (S2 is
      one): the second insertion of 8 is turned away. */
  lemma CorrectedRemoveKeepsDuplicateOut(a: Arena)
    requires a.Valid() && a.Exact() && a.Keys(0) == [5, 7] && 1 <= a.levels
    ensures a.AfterRemove(5, true).Valid() && a.AfterRemove(5, true).Exact()
    ensures a.AfterRemove(5, true).Keys(0) == [7]
    ensures a.AfterRemove(5, true).AfterInsert(8, 1).Valid()
    ensures a.AfterRemove(5, true).AfterInsert(8, 1).Exact()
    ensures a.AfterRemove(5, true).AfterInsert(8, 1).Keys(0) == [7, 8]
    ensures a.AfterRemove(5, true).AfterInsert(8, 1).Insertion(8, 1) == Returned(false)
    ensures a.AfterRemove(5, true).AfterInsert(8, 1).AfterInsert(8, 1) ==
      a.AfterRemove(5, true).AfterInsert(8, 1)
  {
    CorrectedRemove(a);
    var t := a.AfterRemove(5, true);
    CorrectedInsert(t);
    CorrectedRejects(t.AfterInsert(8, 1));
  }
}
