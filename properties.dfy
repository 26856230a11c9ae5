/** What each operation of the skip list means for the keys it holds: search, predecessor
    and successor read the sorted keys of level 0, insertion adds a key and removal takes
    one out, and both keep every level sorted and nested. */
module Properties {
  import opened Results
  import opened Levels
  import opened SkipArena
  import opened InsertProofs
  import opened RemoveProofs

  /** search_node raises when every key is below `key`, finds the predecessor of the node
      holding `key` when there is one, and gives None when `key` is absent but a larger
      key is present. */
  lemma SearchMeaning(a: Arena, key: int)
    requires a.Valid()
    ensures a.Search(key).Raised? <==> forall i :: 0 <= i < |a.Keys(0)| ==> a.Keys(0)[i] < key
    ensures a.Search(key).Returned? && a.Search(key).value.Some? <==> key in a.Keys(0)
    ensures a.Search(key) == Returned(None) <==>
      key !in a.Keys(0) && exists i :: 0 <= i < |a.Keys(0)| && key < a.Keys(0)[i]
    ensures a.Search(key).Returned? && a.Search(key).value.Some? ==>
      var n := a.Search(key).value.value;
      n < |a.next| && a.next[n][0] != NIL && a.keys[a.next[n][0]] == key
  {
    var ks := a.Keys(0);
    var r := a.RankAt(0, key);
    RankSplits(ks, key);
    PredAtFacts(a, 0, key);
    if r < |ks| {
      assert a.keys[a.chains[0][r]] == ks[r];
    }
  }

  /** predecessor_of_node gives the head when no key is below `key`, and otherwise the
      node holding the largest key below `key`. */
  lemma PredecessorMeaning(a: Arena, key: int)
    requires a.Valid()
    ensures a.PredAt(0, key) == 0 <==> forall i :: 0 <= i < |a.Keys(0)| ==> key <= a.Keys(0)[i]
    ensures a.PredAt(0, key) != 0 ==>
      var p := a.PredAt(0, key);
      && p in a.chains[0] && a.keys[p] in a.Keys(0) && a.keys[p] < key
      && forall i :: 0 <= i < |a.Keys(0)| && a.Keys(0)[i] < key ==> a.Keys(0)[i] <= a.keys[p]
  {
    var ks := a.Keys(0);
    var c := a.chains[0];
    var r := a.RankAt(0, key);
    RankSplits(ks, key);
    if r > 0 {
      assert ks[r - 1] == a.keys[c[r - 1]];
      assert c[r - 1] > 0;
      assert Increasing(ks);
    }
  }

  /** successor_of_node raises when every key is below `key`; it gives None exactly when
      the last key is the only one not below `key`, even when that key is larger than
      `key`; otherwise it gives the node holding the smallest key above `key`. */
  lemma SuccessorMeaning(a: Arena, key: int)
    requires a.Valid()
    ensures a.Successor(key).Raised? <==> forall i :: 0 <= i < |a.Keys(0)| ==> a.Keys(0)[i] < key
    ensures a.Successor(key) == Returned(None) <==>
      var ks := a.Keys(0);
      |ks| >= 1 && key <= ks[|ks| - 1] && (|ks| == 1 || ks[|ks| - 2] < key)
    ensures a.Successor(key).Returned? && a.Successor(key).value.Some? ==>
      var n := a.Successor(key).value.value;
      && n in a.chains[0] && n < |a.keys| && a.keys[n] in a.Keys(0) && key < a.keys[n]
      && forall i :: 0 <= i < |a.Keys(0)| && key < a.Keys(0)[i] ==> a.keys[n] <= a.Keys(0)[i]
  {
    RankSplits(a.Keys(0), key);
    SuccessorNone(a, key);
    SuccessorSome(a, key);
  }

  /** The None case of successor_of_node. */
  lemma SuccessorNone(a: Arena, key: int)
    requires a.Valid()
    ensures a.Successor(key) == Returned(None) <==>
      var ks := a.Keys(0);
      |ks| >= 1 && key <= ks[|ks| - 1] && (|ks| == 1 || ks[|ks| - 2] < key)
  {
    var ks := a.Keys(0);
    var r := a.RankAt(0, key);
    RankSplits(ks, key);
    assert Increasing(ks);
    if |ks| >= 2 && key <= ks[|ks| - 1] && ks[|ks| - 2] < key {
      assert r == |ks| - 1;
    }
  }

  /** The node successor_of_node returns holds the smallest key above `key`. */
  lemma SuccessorSome(a: Arena, key: int)
    requires a.Valid()
    ensures a.Successor(key).Returned? && a.Successor(key).value.Some? ==>
      var n := a.Successor(key).value.value;
      && n in a.chains[0] && n < |a.keys| && a.keys[n] in a.Keys(0) && key < a.keys[n]
      && forall i :: 0 <= i < |a.Keys(0)| && key < a.Keys(0)[i] ==> a.keys[n] <= a.Keys(0)[i]
  {
    var ks := a.Keys(0);
    var c := a.chains[0];
    var r := a.RankAt(0, key);
    RankSplits(ks, key);
    assert Increasing(ks);
    if r + 1 < |c| {
      assert ks[r] == a.keys[c[r]];
      assert ks[r + 1] == a.keys[c[r + 1]];
    }
  }

  /** insert_node on an exact list: IndexError only when the height exceeds the top
      level; otherwise it reports whether `key` was absent, and if so adds it on levels
      0..h-1 at its sorted place; the list stays valid and exact, and a duplicate leaves
      it unchanged. */
  lemma InsertEffect(a: Arena, key: int, h: nat)
    requires a.Valid() && a.Exact() && 1 <= h
    ensures a.Insertion(key, h) ==
      if a.levels < h then Raised(IndexError) else Returned(key !in a.Keys(0))
    ensures a.AfterInsert(key, h).Valid() && a.AfterInsert(key, h).Exact()
    ensures key in a.Keys(0) || a.levels < h ==> a.AfterInsert(key, h) == a
    ensures forall l :: 0 <= l <= a.levels ==>
      a.AfterInsert(key, h).Keys(l) ==
        if key !in a.Keys(0) && h <= a.levels && l < h then InsertKey(a.Keys(l), key) else a.Keys(l)
    ensures key !in a.Keys(0) && h <= a.levels ==>
      multiset(a.AfterInsert(key, h).Keys(0)) == multiset(a.Keys(0)) + multiset{key}
  {
    if h <= a.levels {
      DuplicateCheckExact(a, key, h);
      if key !in a.Keys(0) {
        SplicedValid(a, key, h);
        InsertKeyIncreasing(a.Keys(0), key);
      }
    }
  }

  /** remove_node raises when every key is below `key`, and removes a node exactly when
      `key` is present. */
  lemma RemoveOutcome(a: Arena, key: int)
    requires a.Valid()
    ensures a.Removal(key).Raised? <==> forall i :: 0 <= i < |a.Keys(0)| ==> a.Keys(0)[i] < key
    ensures a.Removal(key) == Returned(true) <==> key in a.Keys(0)
  {
    RankSplits(a.Keys(0), key);
  }

  /** After remove_node `key` is gone from level 0 and every other key stays, the list is
      still valid, an absent key changes nothing, and the corrected removal keeps the list
      exact. */
  lemma RemoveEffect(a: Arena, key: int, corrected: bool)
    requires a.Valid()
    ensures a.AfterRemove(key, corrected).Valid()
    ensures key !in a.AfterRemove(key, corrected).Keys(0)
    ensures multiset(a.AfterRemove(key, corrected).Keys(0)) == multiset(a.Keys(0)) - multiset{key}
    ensures a.AfterRemove(key, corrected).Keys(0) ==
      if key in a.Keys(0) then RemoveAt(a.Keys(0), Rank(a.Keys(0), key)) else a.Keys(0)
    ensures key !in a.Keys(0) ==> a.AfterRemove(key, corrected) == a
    ensures corrected && a.Exact() ==> a.AfterRemove(key, corrected).Exact()
  {
    var ks := a.Keys(0);
    RemoveOutcome(a, key);
    RankSplits(ks, key);
    if key in ks {
      UnlinkedValid(a, key, corrected);
      RemoveAtIncreasing(ks, a.RankAt(0, key));
    } else {
      assert multiset(ks)[key] == 0;
    }
  }

  /** On levels above 0 the removal as written takes out the first node not below `key`,
      whatever its key: a level whose nodes are all below `key` is left alone, and only a
      corrected removal spares a node holding a different key. */
  lemma RemoveUpperLevels(a: Arena, key: int, corrected: bool, l: nat)
    requires a.Valid() && 1 <= l <= a.levels && key in a.Keys(0)
    ensures a.AfterRemove(key, corrected).Valid()
    ensures a.AfterRemove(key, corrected).Keys(l) ==
      if a.RankAt(l, key) < |a.Keys(l)| && (!corrected || a.Keys(l)[a.RankAt(l, key)] == key)
      then RemoveAt(a.Keys(l), a.RankAt(l, key))
      else a.Keys(l)
  {
    RankSplits(a.Keys(0), key);
    assert a.AfterRemove(key, corrected) == a.Unlinked(key, corrected);
    UnlinkedValid(a, key, corrected);
    assert a.Cuts(l, key, corrected) <==>
      a.RankAt(l, key) < |a.Keys(l)| && (!corrected || a.Keys(l)[a.RankAt(l, key)] == key);
  }

  /** After a removal, search_node finds no node holding the removed key. */
  lemma SearchAfterRemove(a: Arena, key: int, corrected: bool)
    requires a.Valid()
    ensures a.AfterRemove(key, corrected).Valid()
    ensures !(a.AfterRemove(key, corrected).Search(key).Returned? &&
              a.AfterRemove(key, corrected).Search(key).value.Some?)
  {
    RemoveEffect(a, key, corrected);
    SearchMeaning(a.AfterRemove(key, corrected), key);
  }

  /** After an insertion into an exact list, search_node finds the key. */
  lemma SearchAfterInsert(a: Arena, key: int, h: nat)
    requires a.Valid() && a.Exact() && 1 <= h <= a.levels
    ensures a.AfterInsert(key, h).Valid()
    ensures a.AfterInsert(key, h).Search(key).Returned? && a.AfterInsert(key, h).Search(key).value.Some?
  {
    InsertedPresent(a, key, h);
    FoundWhenPresent(a.AfterInsert(key, h), key);
  }

  /** Whether or not it was there before, the key is on level 0 after insert_node. */
  lemma InsertedPresent(a: Arena, key: int, h: nat)
    requires a.Valid() && a.Exact() && 1 <= h <= a.levels
    ensures a.AfterInsert(key, h).Valid() && key in a.AfterInsert(key, h).Keys(0)
  {
    InsertEffect(a, key, h);
    if key !in a.Keys(0) {
      InsertKeyHas(a.Keys(0), key);
    }
  }

  /** search_node finds a key that is on level 0. */
  lemma FoundWhenPresent(a: Arena, key: int)
    requires a.Valid() && key in a.Keys(0)
    ensures a.Search(key).Returned? && a.Search(key).value.Some?
  {
    SearchMeaning(a, key);
  }
}
