/** The skip list's nodes held in an arena, with the per-level chains they form.

    Node 0 is the sentinel head; `keys[n]` is node n's key and `next[n]` its list of
    forward links, one per level it was created with, where NIL stands for None. The
    ghost `chains[l]` lists, in order, the nodes reached from the head at level l (the
    head itself excluded). Nodes that were unlinked stay in the arena, as Python objects
    stay alive while anything still refers to them. */
module SkipArena {
  import opened Results
  import opened Levels

  /** A link that leads nowhere: None in a node's `next` list. */
  const NIL: int := -1

  /** The node a walk along chain c stands on after `pos` steps: the head before the first. */
  function Before(c: seq<nat>, pos: nat): nat
    requires pos <= |c|
  {
    if pos == 0 then 0 else c[pos - 1]
  }

  /** The link that node holds at the chain's level: the next entry, or NIL past the last. */
  function After(c: seq<nat>, pos: nat): int
    requires pos <= |c|
  {
    if pos < |c| then c[pos] else NIL
  }

  /** The keys met along chain c. */
  function KeysAlong(keys: seq<int>, c: seq<nat>): seq<int>
    requires forall j :: 0 <= j < |c| ==> c[j] < |keys|
  {
    seq(|c|, j requires 0 <= j < |c| => keys[c[j]])
  }

  /** Every entry of chain c is also in chain d. */
  ghost predicate Within(c: seq<nat>, d: seq<nat>) {
    forall x :: x in c ==> x in d
  }

  /** Chain c with node id placed at position r. */
  function Insert(c: seq<nat>, r: nat, id: nat): seq<nat>
    requires r <= |c|
  {
    c[..r] + [id] + c[r..]
  }

  /** Chain c with the entry at position r taken out. */
  function Remove(c: seq<nat>, r: nat): seq<nat>
    requires r < |c|
  {
    c[..r] + c[r + 1..]
  }

  lemma InsertMembers(c: seq<nat>, r: nat, id: nat)
    requires r <= |c|
    ensures forall x :: x in Insert(c, r, id) <==> x == id || x in c
    ensures |Insert(c, r, id)| == |c| + 1 && Insert(c, r, id)[r] == id
    ensures forall j :: 0 <= j < r ==> Insert(c, r, id)[j] == c[j]
    ensures forall j :: r < j <= |c| ==> Insert(c, r, id)[j] == c[j - 1]
  {
    assert c == c[..r] + c[r..];
  }

  /** Reading keys along a chain with a node added: the node's key at the same place. */
  lemma KeysAlongInsert(keys: seq<int>, c: seq<nat>, r: nat, key: int)
    requires forall j :: 0 <= j < |c| ==> c[j] < |keys|
    requires r <= |c|
    ensures KeysAlong(keys + [key], c) == KeysAlong(keys, c)
    ensures KeysAlong(keys + [key], Insert(c, r, |keys|)) ==
      KeysAlong(keys, c)[..r] + [key] + KeysAlong(keys, c)[r..]
  {
    InsertMembers(c, r, |keys|);
    var ks := KeysAlong(keys, c);
    var lhs := KeysAlong(keys + [key], Insert(c, r, |keys|));
    var rhs := ks[..r] + [key] + ks[r..];
    forall j | 0 <= j < |rhs| ensures lhs[j] == rhs[j] {
      if j < r {
        assert rhs[j] == ks[j];
      } else if j > r {
        assert rhs[j] == ks[j - 1];
      }
    }
  }

  lemma RemoveMembers(c: seq<nat>, r: nat)
    requires r < |c|
    ensures forall x :: x in Remove(c, r) ==> x in c
    ensures forall x :: x in c && x != c[r] ==> x in Remove(c, r)
    ensures |Remove(c, r)| == |c| - 1
    ensures forall j :: 0 <= j < r ==> Remove(c, r)[j] == c[j]
    ensures forall j :: r <= j < |c| - 1 ==> Remove(c, r)[j] == c[j + 1]
  {
    assert c == c[..r] + [c[r]] + c[r + 1..];
  }

  /** Reading keys along a chain with an entry taken out: that key taken out. */
  lemma KeysAlongRemove(keys: seq<int>, c: seq<nat>, r: nat)
    requires forall j :: 0 <= j < |c| ==> c[j] < |keys|
    requires r < |c|
    ensures KeysAlong(keys, Remove(c, r)) == RemoveAt(KeysAlong(keys, c), r)
  {
    RemoveMembers(c, r);
    var ks := KeysAlong(keys, c);
    var lhs := KeysAlong(keys, Remove(c, r));
    var rhs := RemoveAt(ks, r);
    forall j | 0 <= j < |rhs| ensures lhs[j] == rhs[j] {
      if j < r {
        assert rhs[j] == ks[j];
      } else {
        assert rhs[j] == ks[j + 1];
      }
    }
  }

  /** One relink of the splice on level i: node id takes over p's link, and p links to
      id. */
  function Relinked(L: seq<seq<int>>, p: nat, id: nat, i: nat): seq<seq<int>>
    requires p < |L| && id < |L| && i < |L[p]| && i < |L[id]|
  {
    L[p := L[p][i := id]][id := L[id][i := L[p][i]]]
  }

  /** One relink of the removal on level i: p's link there becomes `target`. */
  function Bypassed(L: seq<seq<int>>, p: nat, i: nat, target: int): seq<seq<int>>
    requires p < |L| && i < |L[p]|
  {
    L[p := L[p][i := target]]
  }

  /** The links after the removal's relinking has done levels 0..i-1: on each level l
      where `cuts[l]` holds, node ps[l] links to targets[l]. */
  function Bypass(L: seq<seq<int>>, ps: seq<nat>, targets: seq<int>, cuts: seq<bool>, i: nat): (R: seq<seq<int>>)
    requires i <= |ps| == |targets| == |cuts|
    requires forall l :: 0 <= l < |ps| && cuts[l] ==> ps[l] < |L| && l < |L[ps[l]]|
    ensures |R| == |L| && forall m :: 0 <= m < |L| ==> |R[m]| == |L[m]|
    decreases i
  {
    if i == 0 then L
    else
      var R := Bypass(L, ps, targets, cuts, i - 1);
      if cuts[i - 1] then Bypassed(R, ps[i - 1], i - 1, targets[i - 1]) else R
  }

  /** The links after the first i rounds of a splice of the new node |next|, whose
      stopping point on level l is stops[l]. */
  function Splices(next: seq<seq<int>>, stops: seq<nat>, h: nat, i: nat): (L: seq<seq<int>>)
    requires i <= h && i <= |stops|
    requires forall l :: 0 <= l < |stops| ==> stops[l] < |next| && l < |next[stops[l]]|
    ensures |L| == |next| + 1 && |L[|next|]| == h
    ensures forall m :: 0 <= m < |next| ==> |L[m]| == |next[m]|
    decreases i
  {
    if i == 0 then next + [Nils(h)]
    else Relinked(Splices(next, stops, h, i - 1), stops[i - 1], |next|, i - 1)
  }

  /** A list of n empty links: the `[None] * levels` of a fresh node. */
  function Nils(n: nat): seq<int> {
    seq(n, _ => NIL)
  }

  datatype Arena = Arena(levels: nat, keys: seq<int>, next: seq<seq<int>>, chains: seq<seq<nat>>)
  {
    /** Sizes agree, the head has a link on each of the levels 0..levels, every node has
        at least one link, links name real nodes (never the head), and a chain at level l
        holds only real nodes that have a link at level l. */
    ghost predicate Shaped() {
      && |keys| == |next| >= 1
      && |next[0]| == levels + 1
      && |chains| == levels + 1
      && (forall n :: 0 <= n < |next| ==> 1 <= |next[n]|)
      && (forall n, k :: 0 <= n < |next| && 0 <= k < |next[n]| ==> next[n][k] == NIL || 0 < next[n][k] < |next|)
      && (forall l, j :: 0 <= l <= levels && 0 <= j < |chains[l]| ==> 0 < chains[l][j] < |next| && l < |next[chains[l][j]]|)
    }

    /** The links at level l thread the head and chain l, in order, ending in NIL. */
    ghost predicate Threaded(l: nat)
      requires Shaped() && l <= levels
    {
      forall pos :: 0 <= pos <= |chains[l]| ==> next[Before(chains[l], pos)][l] == After(chains[l], pos)
    }

    /** A node present at level l is present at level l - 1. */
    ghost predicate Nested()
      requires Shaped()
    {
      forall l :: 1 <= l <= levels ==> Within(chains[l], chains[l - 1])
    }

    ghost predicate Linked() {
      Shaped() && (forall l :: 0 <= l <= levels ==> Threaded(l)) && Nested()
    }

    /** The key sequence read along level l. */
    ghost function Keys(l: nat): seq<int>
      requires Linked() && l <= levels
    {
      KeysAlong(keys, chains[l])
    }

    ghost predicate Sorted()
      requires Linked()
    {
      forall l :: 0 <= l <= levels ==> Increasing(Keys(l))
    }

    /** The invariant every operation relies on. */
    ghost predicate Valid() {
      Linked() && Sorted()
    }

    /** Every node on level 0 is on exactly the levels it has links for, and on no level
        above the list's. Insertion keeps this; the removal as written does not. */
    ghost predicate Exact()
      requires Linked()
    {
      forall n :: n in chains[0] ==>
        |next[n]| <= levels + 1 && forall l :: 0 <= l < |next[n]| ==> n in chains[l]
    }

    /** How many nodes of level l carry a key below `key`. */
    ghost function RankAt(l: nat, key: int): nat
      requires Valid() && l <= levels
    {
      Rank(Keys(l), key)
    }

    /** The last node of level l with a key below `key`, or the head: where the walk at
        level l stops. */
    ghost function PredAt(l: nat, key: int): nat
      requires Valid() && l <= levels
    {
      Before(chains[l], RankAt(l, key))
    }

    /** search_node: the level-0 predecessor when its successor carries `key`, None when
        it carries a larger key, AttributeError when it has none. */
    ghost function Search(key: int): Outcome<Option<nat>>
      requires Valid()
    {
      var r := RankAt(0, key);
      if r == |chains[0]| then Raised(AttributeError)
      else if Keys(0)[r] == key then Returned(Some(Before(chains[0], r)))
      else Returned(None)
    }

    /** successor_of_node: looks at the predecessor's successor n and at n's successor. */
    ghost function Successor(key: int): Outcome<Option<nat>>
      requires Valid()
    {
      var c := chains[0];
      var r := RankAt(0, key);
      if r == |c| then Raised(AttributeError)
      else if r + 1 == |c| then Returned(None)
      else if keys[c[r]] != key then Returned(Some(c[r]))
      else Returned(Some(c[r + 1]))
    }

    /** The link out of the walk's stopping point at level l: `predecessor[l].next[l]`. */
    ghost function Follower(l: nat, key: int): int
      requires Valid() && l <= levels
    {
      PredAtFacts(this, l, key);
      next[PredAt(l, key)][l]
    }

    /** The link insert_node's duplicate check reads right after dropping from level
        l + 1 to level l: `current.next[l]`, and for l == -1 Python's `current.next[-1]`,
        the last link of the level-0 stopping point. */
    ghost function Probe(l: int, key: int): int
      requires Valid() && -1 <= l < levels
    {
      var p := PredAt(l + 1, key);
      PredAtFacts(this, l + 1, key);
      if l >= 0 then next[p][l] else next[p][|next[p]| - 1]
    }

    /** The duplicate check fires after dropping to level l. */
    ghost predicate Hits(l: int, key: int)
      requires Valid() && -1 <= l < levels
    {
      Probe(l, key) != NIL && keys[Probe(l, key)] == key
    }

    /** insert_node for a node of height h aborts: one of its h + 1 checks fires. */
    ghost predicate DuplicateSeen(key: int, h: nat)
      requires Valid() && h <= levels
    {
      exists l :: -1 <= l < h && Hits(l, key)
    }

    /** One of the checks after dropping to levels lvl .. h - 1 fires; the descent makes
        them from the top down. */
    ghost predicate SeenFrom(lvl: int, key: int, h: nat)
      requires Valid() && -1 <= lvl <= h <= levels
      decreases h - lvl
    {
      lvl < h && (Hits(lvl, key) || SeenFrom(lvl + 1, key, h))
    }

    /** insert_node's splice for a node of height h: the new node, numbered |next|, goes
        right after the stopping point PredAt(k) on each level k < h and takes over its
        link there; no other link changes. */
    ghost function Spliced(key: int, h: nat): Arena
      requires Valid() && 1 <= h <= levels
    {
      Arena(levels, keys + [key], Links(key, h, h), SplicedChains(key, h))
    }

    /** The chains after the splice: the new node joins levels 0..h-1 at the stopping
        point. */
    ghost function SplicedChains(key: int, h: nat): seq<seq<nat>>
      requires Valid() && h <= levels
    {
      seq(levels + 1, l requires 0 <= l <= levels =>
        if l < h then Insert(chains[l], RankAt(l, key), |next|) else chains[l])
    }

    /** The links part way through the splice, once its loop has done levels 0..i-1:
        the new node, numbered |next| and given h empty links, has on each of those levels
        taken the stopping point's link, and the stopping point links to it. */
    ghost function Links(key: int, h: nat, i: nat): (L: seq<seq<int>>)
      requires Valid() && i <= h <= levels
      ensures |L| == |next| + 1 && |L[|next|]| == h
      ensures forall m :: 0 <= m < |next| ==> |L[m]| == |next[m]|
      decreases i
    {
      if i == 0 then next + [Nils(h)]
      else
        PredAtFacts(this, i - 1, key);
        Relinked(Links(key, h, i - 1), PredAt(i - 1, key), |next|, i - 1)
    }

    /** What insert_node reports for a node of height h: IndexError when h exceeds the
        head's top level (only possible with levels == 0), otherwise whether it linked
        the node in. */
    ghost function Insertion(key: int, h: nat): Outcome<bool>
      requires Valid()
    {
      if levels < h then Raised(IndexError) else Returned(!DuplicateSeen(key, h))
    }

    /** The list after insert_node. */
    ghost function AfterInsert(key: int, h: nat): Arena
      requires Valid() && 1 <= h
    {
      if levels < h || DuplicateSeen(key, h) then this else Spliced(key, h)
    }

    /** remove_node's `successor[l]`: the link out of the node after the stopping point
        of level l, or None when the stopping point is the last node there. */
    ghost function Beyond(l: nat, key: int): int
      requires Valid() && l <= levels
    {
      var c := chains[l];
      var r := RankAt(l, key);
      if r < |c| then After(c, r + 1) else NIL
    }

    /** The removal takes a node out of level l: the first node there whose key is not
        below `key`, as written, or only a node holding `key`, when corrected. */
    ghost predicate Cuts(l: nat, key: int, corrected: bool)
      requires Valid() && l <= levels
    {
      RankAt(l, key) < |chains[l]| && (corrected ==> Keys(l)[RankAt(l, key)] == key)
    }

    /** remove_node's `predecessor` list: the stopping point of every level. */
    ghost function Stops(key: int): (ps: seq<nat>)
      requires Valid()
      ensures |ps| == levels + 1
      ensures forall l :: 0 <= l <= levels ==> ps[l] < |next| && l < |next[ps[l]]|
    {
      seq(levels + 1, l requires 0 <= l <= levels => PredAtFacts(this, l, key); PredAt(l, key))
    }

    /** remove_node's `successor` list. */
    ghost function Skips(key: int): seq<int>
      requires Valid()
    {
      seq(levels + 1, l requires 0 <= l <= levels => Beyond(l, key))
    }

    /** The levels the removal cuts. */
    ghost function CutLevels(key: int, corrected: bool): seq<bool>
      requires Valid()
    {
      seq(levels + 1, l requires 0 <= l <= levels => Cuts(l, key, corrected))
    }

    /** The chains after the removal: each cut level loses the node at its rank. */
    ghost function UnlinkedChains(key: int, corrected: bool): seq<seq<nat>>
      requires Valid()
    {
      seq(levels + 1, l requires 0 <= l <= levels =>
        if Cuts(l, key, corrected) then Remove(chains[l], RankAt(l, key)) else chains[l])
    }

    /** remove_node's relinking of every level, as written or corrected. */
    ghost function Unlinked(key: int, corrected: bool): Arena
      requires Valid()
    {
      Arena(levels, keys,
        Bypass(next, Stops(key), Skips(key), CutLevels(key, corrected), levels + 1),
        UnlinkedChains(key, corrected))
    }

    /** What remove_node does with `key`: AttributeError when no level-0 node has a key
        at least `key`, otherwise whether that node holds `key` and was removed. */
    ghost function Removal(key: int): Outcome<bool>
      requires Valid()
    {
      var r := RankAt(0, key);
      if r == |chains[0]| then Raised(AttributeError) else Returned(Keys(0)[r] == key)
    }

    /** The list after remove_node, as written or corrected. */
    ghost function AfterRemove(key: int, corrected: bool): Arena
      requires Valid()
    {
      if Removal(key) == Returned(true) then Unlinked(key, corrected) else this
    }
  }

  /** A fresh list: the head alone, with an empty link on each of the levels 0..levels. */
  function Empty(levels: nat): Arena {
    Arena(levels, [-1], [Nils(levels + 1)], seq(levels + 1, _ => []))
  }

  /** The empty list is valid, and exact. */
  lemma EmptyValid(levels: nat)
    ensures Empty(levels).Valid() && Empty(levels).Exact()
    ensures forall l :: 0 <= l <= levels ==> Empty(levels).Keys(l) == []
  {
    var a := Empty(levels);
    forall l | 0 <= l <= levels ensures a.Threaded(l) {
      forall pos | 0 <= pos <= |a.chains[l]| ensures a.next[Before(a.chains[l], pos)][l] == After(a.chains[l], pos) {
        assert pos == 0;
      }
    }
  }

  /** Chain entries are real nodes, distinct from each other, as their keys increase. */
  lemma ChainDistinct(a: Arena, l: nat, i: nat, j: nat)
    requires a.Valid() && l <= a.levels
    requires i <= |a.chains[l]| && j <= |a.chains[l]| && i != j
    ensures Before(a.chains[l], i) != Before(a.chains[l], j)
  {
    var c := a.chains[l];
    if i > 0 && j > 0 {
      assert Increasing(a.Keys(l));
      assert a.Keys(l)[i - 1] != a.Keys(l)[j - 1];
    } else if i > 0 {
      assert c[i - 1] > 0;
    } else {
      assert c[j - 1] > 0;
    }
  }

  /** Where the walk at level l stops: the head or a chain node below `key`, whose link at
      level l leads to NIL or to the first chain node not below `key`. */
  lemma PredAtFacts(a: Arena, l: nat, key: int)
    requires a.Valid() && l <= a.levels
    ensures a.PredAt(l, key) < |a.next| && l < |a.next[a.PredAt(l, key)]|
    ensures a.PredAt(l, key) == 0 || (a.PredAt(l, key) in a.chains[l] && a.keys[a.PredAt(l, key)] < key)
    ensures a.next[a.PredAt(l, key)][l] == After(a.chains[l], a.RankAt(l, key))
  {
    var c, r := a.chains[l], a.RankAt(l, key);
    assert a.Threaded(l);
    if r > 0 {
      assert a.Keys(l)[r - 1] < key;
    }
  }

  /** Dropping from level l to l - 1 keeps the walk at a position no further than the
      rank there: no horizontal progress is undone. */
  lemma EnterLevel(a: Arena, l: nat, key: int) returns (pos: nat)
    requires a.Valid() && 1 <= l <= a.levels
    ensures pos <= a.RankAt(l - 1, key)
    ensures Before(a.chains[l - 1], pos) == a.PredAt(l, key)
  {
    PredAtFacts(a, l, key);
    var p := a.PredAt(l, key);
    if p == 0 {
      pos := 0;
    } else {
      var c := a.chains[l - 1];
      assert p in c;
      var j :| 0 <= j < |c| && c[j] == p;
      RankSplits(a.Keys(l - 1), key);
      assert a.Keys(l - 1)[j] == a.keys[p] < key;
      pos := j + 1;
    }
  }
}
