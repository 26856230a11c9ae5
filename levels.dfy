/** Facts about the key sequence read along one level of a skip list. */
module Levels {

  /** Every level of a skip list keeps its keys strictly increasing. */
  predicate Increasing(ks: seq<int>) {
    forall i, j :: 0 <= i < j < |ks| ==> ks[i] < ks[j]
  }

  /** The number of leading keys of a level that lie below `key`: how many steps the
      walk `while current.next[lvl] and current.next[lvl].key < key` takes from the head. */
  function Rank(ks: seq<int>, key: int): (r: nat)
    ensures r <= |ks|
    ensures forall i :: 0 <= i < r ==> ks[i] < key
    ensures r < |ks| ==> key <= ks[r]
  {
    if ks == [] || key <= ks[0] then 0 else 1 + Rank(ks[1..], key)
  }

  /** On an increasing level, every key from the rank on is at least `key`, so the rank
      is the position of `key` when it is present. */
  lemma {:induction false} RankSplits(ks: seq<int>, key: int)
    requires Increasing(ks)
    ensures forall i :: Rank(ks, key) <= i < |ks| ==> key <= ks[i]
    ensures key in ks <==> Rank(ks, key) < |ks| && ks[Rank(ks, key)] == key
  {
    var r := Rank(ks, key);
    if key in ks {
      var i :| 0 <= i < |ks| && ks[i] == key;
      assert r <= i;
    }
  }

  /** The level with `key` added at its rank. */
  function InsertKey(ks: seq<int>, key: int): seq<int> {
    ks[..Rank(ks, key)] + [key] + ks[Rank(ks, key)..]
  }

  /** The added key is there. */
  lemma InsertKeyHas(ks: seq<int>, key: int)
    ensures key in InsertKey(ks, key)
  {
    assert InsertKey(ks, key)[Rank(ks, key)] == key;
  }

  /** The level with the entry at position i taken out. */
  function RemoveAt(ks: seq<int>, i: nat): seq<int>
    requires i < |ks|
  {
    ks[..i] + ks[i + 1..]
  }

  /** Adding an absent key keeps a level increasing and adds exactly that key. */
  lemma InsertKeyIncreasing(ks: seq<int>, key: int)
    requires Increasing(ks) && key !in ks
    ensures Increasing(InsertKey(ks, key))
    ensures multiset(InsertKey(ks, key)) == multiset(ks) + multiset{key}
  {
    assert Increasing(InsertKey(ks, key)) by {
      RankSplits(ks, key);
      InsertKeyOrdered(ks, key);
    }
    var r := Rank(ks, key);
    assert ks == ks[..r] + ks[r..];
    assert multiset(ks) == multiset(ks[..r]) + multiset(ks[r..]);
    assert InsertKey(ks, key) == ks[..r] + ([key] + ks[r..]);
    assert multiset(InsertKey(ks, key)) == multiset(ks[..r]) + (multiset{key} + multiset(ks[r..]));
  }

  /** The ordering half of InsertKeyIncreasing: keys before the rank are below `key`,
      keys from the rank on are above it. */
  lemma InsertKeyOrdered(ks: seq<int>, key: int)
    requires Increasing(ks) && key !in ks
    requires forall i :: Rank(ks, key) <= i < |ks| ==> key <= ks[i]
    ensures Increasing(InsertKey(ks, key))
  {
    var r := Rank(ks, key);
    var s := InsertKey(ks, key);
    assert |s| == |ks| + 1;
    forall i, j | 0 <= i < j < |s| ensures s[i] < s[j] {
      if j < r {
        assert s[i] == ks[i] && s[j] == ks[j];
      } else if r + 1 <= i {
        assert s[i] == ks[i - 1] && s[j] == ks[j - 1];
      } else if i == r {
        assert s[i] == key && s[j] == ks[j - 1];
      } else if j == r {
        assert s[i] == ks[i] && s[j] == key;
      } else {
        assert s[i] == ks[i] && s[j] == ks[j - 1];
      }
    }
  }

  /** Taking an entry out keeps a level increasing, and removes exactly that key. */
  lemma RemoveAtIncreasing(ks: seq<int>, i: nat)
    requires Increasing(ks) && i < |ks|
    ensures Increasing(RemoveAt(ks, i))
    ensures multiset(RemoveAt(ks, i)) == multiset(ks) - multiset{ks[i]}
    ensures ks[i] !in RemoveAt(ks, i)
  {
    assert ks == ks[..i] + [ks[i]] + ks[i + 1..];
    var s := RemoveAt(ks, i);
    forall a, b | 0 <= a < b < |s| ensures s[a] < s[b] {
      if b < i {
      } else if a < i {
        assert s[b] == ks[b + 1];
      } else {
        assert s[a] == ks[a + 1] && s[b] == ks[b + 1];
      }
    }
    forall a | 0 <= a < |s| ensures s[a] != ks[i] {
      if a < i {
      } else {
        assert s[a] == ks[a + 1];
      }
    }
  }
}
