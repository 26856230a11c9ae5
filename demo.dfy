/** The script at the end of SkipList.py, on SkipList(4) and with the coin flips of each
    insertion given: insert 1, 23, 4, 3, 5, 6, 12, remove 23 and 5, then ask for the
    successors of 5 and 12. Whatever the heights, level 0 ends as 1, 3, 4, 6, 12, the
    successor of 5 holds 6 and the successor of 12 is None. */
module Demo {
  import opened Results
  import opened Levels
  import opened SkipArena
  import opened Properties
  import opened SkipLists

  /** The keys the script inserts, in order. */
  const Xs: seq<int> := [1, 23, 4, 3, 5, 6, 12]

  /** Level 0 after inserting the first i keys of Xs. */
  const Grown: seq<seq<int>> := [[], [1], [1, 23], [1, 4, 23], [1, 3, 4, 23], [1, 3, 4, 5, 23],
    [1, 3, 4, 5, 6, 23], [1, 3, 4, 5, 6, 12, 23]]

  /** The rank is pinned down by where the keys stop being below `key`. */
  lemma RankIs(ks: seq<int>, key: int, r: nat)
    requires r <= |ks| && (forall j :: 0 <= j < r ==> ks[j] < key) && (r < |ks| ==> key <= ks[r])
    ensures Rank(ks, key) == r
  {
    if r > 0 {
      RankIs(ks[1..], key, r - 1);
    }
  }

  /** Inserting `key` at rank r of ks gives ks'. */
  lemma Grows(ks: seq<int>, key: int, r: nat, ks': seq<int>)
    requires r <= |ks| && (forall j :: 0 <= j < r ==> ks[j] < key) && (r < |ks| ==> key < ks[r])
    requires Increasing(ks) && ks' == ks[..r] + [key] + ks[r..]
    ensures key !in ks && InsertKey(ks, key) == ks'
  {
    RankIs(ks, key, r);
    RankSplits(ks, key);
  }

  /** Each key of Xs is new when it comes, and lands in order. */
  lemma GrownSteps(i: nat)
    requires i < 7
    ensures Xs[i] !in Grown[i] && InsertKey(Grown[i], Xs[i]) == Grown[i + 1]
  {
    var ks, key, ks' := Grown[i], Xs[i], Grown[i + 1];
    var r := [0, 1, 1, 1, 3, 4, 5][i];
    assert ks' == ks[..r] + [key] + ks[r..];
    Grows(ks, key, r, ks');
  }

  /** Level 0 after removing 23, then 5. */
  lemma Shrunk()
    ensures Grown[7][6] == 23 && RemoveAt(Grown[7], 6) == [1, 3, 4, 5, 6, 12]
    ensures RemoveAt([1, 3, 4, 5, 6, 12], 3) == [1, 3, 4, 6, 12]
  {
  }

  /** A removal of a present key, on what level 0 reads. */
  lemma RemovesFrom(a: Arena, key: int, ks: seq<int>, r: nat, ks': seq<int>)
    requires a.Valid() && a.Keys(0) == ks && r < |ks| && ks[r] == key && ks' == RemoveAt(ks, r)
    ensures a.AfterRemove(key, false).Valid() && a.AfterRemove(key, false).Keys(0) == ks'
  {
    RemoveEffect(a, key, false);
    RankSplits(ks, key);
    assert Increasing(ks);
    RankIs(ks, key, r);
  }

  /** On the final list, the successor of 5 holds 6 and the successor of 12 is None. */
  lemma FinalSuccessors(a: Arena)
    requires a.Valid() && a.Keys(0) == [1, 3, 4, 6, 12]
    ensures a.Successor(5).Returned? && a.Successor(5).value.Some?
    ensures a.Successor(5).value.value < |a.keys| && a.keys[a.Successor(5).value.value] == 6
    ensures a.Successor(12) == Returned(None)
  {
    SuccessorMeaning(a, 5);
    SuccessorMeaning(a, 12);
    var ks := a.Keys(0);
    assert ks[3] == 6;
  }

  /** Inserting the i-th key of Xs, at any height the list allows. */
  lemma GrowsBy(a: Arena, i: nat, h: nat)
    requires a.Valid() && a.Exact() && i < 7 && a.Keys(0) == Grown[i] && 1 <= h <= a.levels
    ensures a.AfterInsert(Xs[i], h).Valid() && a.AfterInsert(Xs[i], h).Exact()
    ensures a.AfterInsert(Xs[i], h).Keys(0) == Grown[i + 1]
  {
    InsertEffect(a, Xs[i], h);
    GrownSteps(i);
  }

  /** The loop `for x in xs: skip_list.insert_node(x)`, one list of coin flips per key. */
  method InsertAll(list: SkipList, flips: seq<seq<bool>>)
    requires list.Valid() && list.Abs().Exact() && list.levels == 4 && list.Abs().Keys(0) == []
    requires |flips| == 7
    modifies list
    ensures list.Valid() && list.Abs().Keys(0) == Grown[7]
  {
    for i := 0 to 7
      invariant list.Valid() && list.Abs().Exact()
      invariant list.Abs().Keys(0) == Grown[i]
    {
      ghost var a := list.Abs();
      var _ := list.InsertNode(Xs[i], flips[i]);
      GrowsBy(a, i, Height(flips[i], 4));
    }
  }

  /** The script: it builds the list, updates it, and returns it with the two answers. */
  method RunDemo(flips: seq<seq<bool>>) returns (list: SkipList, after5: Outcome<Option<nat>>, after12: Outcome<Option<nat>>)
    requires |flips| == 7
    ensures list.Valid() && list.Abs().Keys(0) == [1, 3, 4, 6, 12]
    ensures after5.Returned? && after5.value.Some?
    ensures after5.value.value < |list.keys| && list.keys[after5.value.value] == 6
    ensures after12 == Returned(None)
  {
    list := new SkipList(4);
    EmptyValid(4);
    InsertAll(list, flips);
    Shrunk();
    ghost var a := list.Abs();
    var _ := list.RemoveNode(23);
    RemovesFrom(a, 23, Grown[7], 6, [1, 3, 4, 5, 6, 12]);
    a := list.Abs();
    var _ := list.RemoveNode(5);
    RemovesFrom(a, 5, [1, 3, 4, 5, 6, 12], 3, [1, 3, 4, 6, 12]);
    after5 := list.SuccessorOfNode(5);
    after12 := list.SuccessorOfNode(12);
    FinalSuccessors(list.Abs());
  }
}
