/** The SkipList class: a sentinel head with one link per level 0..levels, and the
    operations search, predecessor, successor, insert and remove. */
module SkipLists {
  import opened Results
  import opened Levels
  import opened SkipArena
  import opened InsertProofs
  import opened RemoveProofs

  /** The number of leading heads in a run of coin flips. */
  function Heads(flips: seq<bool>): (n: nat)
    ensures n <= |flips|
    ensures forall j :: 0 <= j < n ==> flips[j]
    ensures n < |flips| ==> !flips[n]
  {
    if flips == [] || !flips[0] then 0 else 1 + Heads(flips[1..])
  }

  /** The height insert_node draws: one more than the leading heads, capped at `levels`,
      and never below 1. */
  function Height(flips: seq<bool>, levels: nat): (h: nat)
    ensures 1 <= h && (h <= levels || (levels == 0 && h == 1))
  {
    if 1 + Heads(flips) <= levels then 1 + Heads(flips)
    else if levels == 0 then 1
    else levels
  }

  /** The coin-flip loop of insert_node: start at 1 and add one while the coin shows
      heads and the height is below `levels`. The coin is read from `flips`; a coin
      flipped past its end shows tails. */
  method DrawHeight(flips: seq<bool>, levels: nat) returns (h: nat)
    ensures h == Height(flips, levels)
  {
    h := 1;
    var i := 0;
    while i < |flips| && flips[i] && h < levels
      invariant i <= |flips| && h == i + 1
      invariant forall j :: 0 <= j < i ==> flips[j]
      invariant h <= levels || h == 1
    {
      h := h + 1;
      i := i + 1;
    }
  }

  class SkipList {
    /** The top level index; the head has links on levels 0..levels. */
    const levels: nat
    /** keys[n] is node n's key; node 0 is the head, whose key -1 is never compared. */
    var keys: seq<int>
    /** next[n] is node n's list of forward links, NIL standing for None. */
    var next: seq<seq<int>>
    /** chains[l] lists the nodes reached from the head at level l, in order. */
    ghost var chains: seq<seq<nat>>

    ghost function Abs(): Arena
      reads this
    {
      Arena(levels, keys, next, chains)
    }

    ghost predicate Valid()
      reads this
    {
      Abs().Valid()
    }

    /** SkipList(levels): a head node of levels + 1 empty links. */
    constructor (levels: nat)
      ensures Abs() == Empty(levels)
      ensures Valid() && Abs().Exact()
    {
      this.levels := levels;
      keys := [-1];
      next := [Nils(levels + 1)];
      chains := seq(levels + 1, _ => []);
      new;
      EmptyValid(levels);
    }

    /** The descent shared by search, predecessor and successor: from the head at the top
        level, advance while the next key is below `key`, then drop one level, until
        level 0 is done. It ends on the last level-0 node below `key`, or the head. */
    method Descend(key: int) returns (current: nat)
      requires Valid()
      ensures current == Abs().PredAt(0, key)
    {
      ghost var a := Abs();
      var lvl: int := levels;
      current := 0;
      while lvl > -1
        invariant -1 <= lvl <= levels
        invariant lvl == levels ==> current == 0
        invariant lvl < levels ==> current == a.PredAt(lvl + 1, key)
      {
        current := Drop(lvl, levels, key, current);
        lvl := lvl - 1;
      }
    }

    /** One level of a descent that started at the head on level `top`: walk level lvl
        from where the level above stopped, ending at the level's stopping point. */
    method Drop(lvl: nat, top: nat, key: int, current: nat) returns (stop: nat)
      requires Valid() && lvl <= top <= levels
      requires lvl == top ==> current == 0
      requires lvl < top ==> current == Abs().PredAt(lvl + 1, key)
      ensures stop == Abs().PredAt(lvl, key)
    {
      ghost var pos: nat := 0;
      if lvl < top {
        pos := EnterLevel(Abs(), lvl + 1, key);
      }
      stop := Walk(lvl, key, current, pos);
    }

    /** The inner loop of every descent: `while current.next[lvl] and
        current.next[lvl].key < key: current = current.next[lvl]`, started no further
        along level lvl than the stopping point, ends exactly there. */
    method Walk(lvl: nat, key: int, start: nat, ghost from: nat) returns (current: nat)
      requires Valid() && lvl <= levels
      requires from <= Abs().RankAt(lvl, key) && start == Before(chains[lvl], from)
      ensures current == Abs().PredAt(lvl, key)
    {
      ghost var a := Abs();
      ghost var c := chains[lvl];
      ghost var ks := a.Keys(lvl);
      RankSplits(ks, key);
      assert a.Threaded(lvl);
      current := start;
      ghost var pos := from;
      while next[current][lvl] != NIL && keys[next[current][lvl]] < key
        invariant pos <= a.RankAt(lvl, key)
        invariant current == Before(c, pos)
        decreases |c| - pos
      {
        assert ks[pos] == keys[c[pos]];
        current := next[current][lvl];
        pos := pos + 1;
      }
      if pos < |c| {
        assert ks[pos] == keys[c[pos]];
      }
    }

    /** search_node: the predecessor of the node holding `key`, or None. */
    method SearchNode(key: int) returns (r: Outcome<Option<nat>>)
      requires Valid()
      ensures r == Abs().Search(key)
    {
      var current := Descend(key);
      PredAtFacts(Abs(), 0, key);
      var n := next[current][0];
      if n == NIL {
        // current.next[0].key on None
        return Raised(AttributeError);
      }
      assert Abs().Keys(0)[Abs().RankAt(0, key)] == keys[n];
      if keys[n] == key {
        r := Returned(Some(current));
      } else {
        r := Returned(None);
      }
    }

    /** predecessor_of_node: the last level-0 node below `key`, or the head. */
    method PredecessorOfNode(key: int) returns (p: nat)
      requires Valid()
      ensures p == Abs().PredAt(0, key)
    {
      p := Descend(key);
    }

    /** successor_of_node: looks one or two nodes past the predecessor. */
    method SuccessorOfNode(key: int) returns (r: Outcome<Option<nat>>)
      requires Valid()
      ensures r == Abs().Successor(key)
    {
      ghost var a := Abs();
      var current := Descend(key);
      PredAtFacts(a, 0, key);
      assert a.Threaded(0);
      var n := next[current][0];
      if n == NIL {
        // current.next[0].next[0] on None
        return Raised(AttributeError);
      }
      ghost var rk := a.RankAt(0, key);
      assert n == Before(chains[0], rk + 1);
      if next[n][0] != NIL {
        if keys[n] != key {
          return Returned(Some(n));
        }
        return Returned(Some(next[n][0]));
      }
      return Returned(None);
    }
  
    /** SkipNode(key, height): a new node in the arena with `height` empty links. */
    method AddNode(key: int, height: nat) returns (id: nat)
      modifies this
      ensures id == |old(keys)|
      ensures keys == old(keys) + [key] && next == old(next) + [Nils(height)]
      ensures chains == old(chains)
    {
      id := |keys|;
      keys := keys + [key];
      next := next + [Nils(height)];
    }

    /** The descent of insert_node for a node of height h (h <= levels): from the head
        at level h, record each level's stopping point in `predecessor` and, after each
        drop, stop early if the next node holds `key`. `found` tells whether it stopped. */
    method InsertionPoints(key: int, h: nat) returns (predecessor: seq<nat>, found: bool)
      requires Valid() && 1 <= h <= levels
      ensures found == Abs().DuplicateSeen(key, h)
      ensures |predecessor| == h + 1
      ensures !found ==> forall i :: 0 <= i <= h ==> predecessor[i] == Abs().PredAt(i, key)
    {
      ghost var a := Abs();
      predecessor := seq(h + 1, _ => 0);
      var lvl: int := h;
      var current: nat := 0;
      while lvl > -1
        invariant -1 <= lvl <= h
        invariant |predecessor| == h + 1
        invariant lvl == h ==> current == 0
        invariant lvl < h ==> current == a.PredAt(lvl + 1, key)
        invariant forall i :: lvl < i <= h ==> predecessor[i] == a.PredAt(i, key)
        invariant !a.SeenFrom(lvl, key, h)
      {
        current := Drop(lvl, h, key, current);
        predecessor := predecessor[lvl := current];
        lvl := lvl - 1;
        var hit := ProbeHits(lvl, key, current);
        if hit {
          return predecessor, true;
        }
      }
      found := false;
      SeenFromAny(a, -1, key, h);
    }

    /** The duplicate check of insert_node right after dropping to level l from the
        stopping point `current` of level l + 1: `current.next[l]` is not None and holds
        `key`; at l == -1 it is Python's `current.next[-1]`, the last link. */
    method ProbeHits(l: int, key: int, current: nat) returns (hit: bool)
      requires Valid() && -1 <= l < levels && current == Abs().PredAt(l + 1, key)
      ensures hit == Abs().Hits(l, key)
    {
      PredAtFacts(Abs(), l + 1, key);
      var probe := if l >= 0 then next[current][l] else next[current][|next[current]| - 1];
      hit := probe != NIL && keys[probe] == key;
    }

    /** The splice of insert_node: a new node of height h goes in after predecessor[i]
        on each level i < h, taking over that node's link. */
    method Splice(key: int, h: nat, predecessor: seq<nat>)
      requires Valid() && 1 <= h <= levels && |predecessor| == h + 1
      requires forall i :: 0 <= i <= h ==> predecessor[i] == Abs().PredAt(i, key)
      modifies this
      ensures Abs() == old(Abs()).Spliced(key, h)
    {
      ghost var a := Abs();
      var inserted := AddNode(key, h);
      RelinkLevels(a, key, h, predecessor, inserted);
      chains := a.SplicedChains(key, h);
    }

    /** The loop of the splice, over levels 0..h-1 of a node `inserted` just added to
        the list `a`. */
    method RelinkLevels(ghost a: Arena, key: int, h: nat, predecessor: seq<nat>, inserted: nat)
      requires a.Valid() && 1 <= h <= a.levels && |predecessor| == h + 1
      requires forall i :: 0 <= i <= h ==> predecessor[i] == a.PredAt(i, key)
      requires inserted == |a.next| && next == a.Links(key, h, 0)
      modifies this
      ensures next == a.Links(key, h, h)
      ensures keys == old(keys) && chains == old(chains)
    {
      var i := 0;
      while i < |predecessor| - 1
        invariant 0 <= i <= h
        invariant keys == old(keys) && chains == old(chains)
        invariant next == a.Links(key, h, i)
      {
        assert predecessor[i] < |next| && inserted < |next| && predecessor[i] != inserted
          && i < |next[predecessor[i]]| && i < |next[inserted]|
          && a.Links(key, h, i + 1) == Relinked(next, predecessor[i], inserted, i) by {
          SpliceRound(a, key, h, i);
        }
        Relink(predecessor[i], inserted, i);
        i := i + 1;
      }
      assert i == h;
    }

    /** One round of the splice: node `id` takes over p's link on level i, and p links
        to `id` there. */
    method Relink(p: nat, id: nat, i: nat)
      requires p < |next| && id < |next| && p != id && i < |next[p]| && i < |next[id]|
      modifies this
      ensures next == Relinked(old(next), p, id, i)
      ensures keys == old(keys) && chains == old(chains)
    {
      var temporary := next[p][i];
      next := next[p := next[p][i := id]];
      next := next[id := next[id][i := temporary]];
    }

    /** insert_node: draw a height, find the insertion points, and unless the key was
        seen on the way down, splice a new node in. */
    method InsertNode(key: int, flips: seq<bool>) returns (r: Outcome<bool>)
      requires Valid()
      modifies this
      ensures r == old(Abs()).Insertion(key, Height(flips, levels))
      ensures Abs() == old(Abs()).AfterInsert(key, Height(flips, levels))
      ensures old(Abs().Exact()) ==> Valid() && Abs().Exact()
    {
      ghost var a := Abs();
      var coinFlips := DrawHeight(flips, levels);
      if |next[0]| <= coinFlips {
        // head.next[coin_flips] past the end of the head's links
        return Raised(IndexError);
      }
      var predecessor, found := InsertionPoints(key, coinFlips);
      if found {
        return Returned(false);
      }
      Splice(key, coinFlips, predecessor);
      r := Returned(true);
      if a.Exact() {
        DuplicateCheckExact(a, key, coinFlips);
        SplicedValid(a, key, coinFlips);
      }
    }

    /** `current.next[l].next[l] if current.next[l] else None` at the stopping point
        `current` of level l. */
    method SuccessorLink(l: nat, key: int, current: nat) returns (s: int)
      requires Valid() && l <= levels && current == Abs().PredAt(l, key)
      ensures s == Abs().Beyond(l, key)
    {
      ghost var a := Abs();
      PredAtFacts(a, l, key);
      assert a.Threaded(l);
      var n := next[current][l];
      if n != NIL {
        ghost var r := a.RankAt(l, key);
        assert n == Before(chains[l], r + 1);
        s := next[n][l];
      } else {
        s := NIL;
      }
    }

    /** The descent of remove_node: every level's stopping point and the link out of the
        node after it. It ends on the level-0 stopping point. */
    method RemovalPoints(key: int) returns (current: nat, predecessor: seq<nat>, successor: seq<int>)
      requires Valid()
      ensures current == Abs().PredAt(0, key)
      ensures predecessor == Abs().Stops(key) && successor == Abs().Skips(key)
    {
      ghost var a := Abs();
      predecessor := seq(levels + 1, _ => 0);
      successor := seq(levels + 1, _ => NIL);
      var lvl: int := levels;
      current := 0;
      while lvl > -1
        invariant -1 <= lvl <= levels
        invariant |predecessor| == |successor| == levels + 1
        invariant lvl == levels ==> current == 0
        invariant lvl < levels ==> current == a.PredAt(lvl + 1, key)
        invariant forall i :: lvl < i <= levels ==> predecessor[i] == a.PredAt(i, key)
        invariant forall i :: lvl < i <= levels ==> successor[i] == a.Beyond(i, key)
      {
        current := Drop(lvl, levels, key, current);
        predecessor := predecessor[lvl := current];
        var s := SuccessorLink(lvl, key, current);
        successor := successor[lvl := s];
        lvl := lvl - 1;
      }
      StopsPointwise(a, key, predecessor, successor);
    }

    /** `predecessor[i].next[i] = successor[i]` */
    method SetLink(p: nat, i: nat, target: int)
      requires p < |next| && i < |next[p]|
      modifies this
      ensures next == Bypassed(old(next), p, i, target)
      ensures keys == old(keys) && chains == old(chains)
    {
      next := next[p := next[p][i := target]];
    }

    /** The relinking loop of remove_node: every level's stopping point links to the
        recorded successor. On the levels `cuts` leaves out this rewrites a link with
        the value it already has. */
    method RelinkAll(ghost cuts: seq<bool>, predecessor: seq<nat>, successor: seq<int>)
      requires |predecessor| == |successor| == |cuts|
      requires forall l :: 0 <= l < |predecessor| ==> predecessor[l] < |next| && l < |next[predecessor[l]]|
      requires forall l :: 0 <= l < |predecessor| && !cuts[l] ==> next[predecessor[l]][l] == successor[l]
      modifies this
      ensures next == Bypass(old(next), predecessor, successor, cuts, |predecessor|)
      ensures keys == old(keys) && chains == old(chains)
    {
      var i := 0;
      while i < |predecessor|
        invariant 0 <= i <= |predecessor|
        invariant keys == old(keys) && chains == old(chains)
        invariant next == Bypass(old(next), predecessor, successor, cuts, i)
      {
        var p := predecessor[i];
        BypassAt(old(next), predecessor, successor, cuts, i, p, i);
        if !cuts[i] {
          assert next[p][i := successor[i]] == next[p];
        }
        SetLink(p, i, successor[i]);
        i := i + 1;
      }
    }

    /** The corrected relinking step: `predecessor[i].next[i] = successor[i]` only when
        the node it bypasses holds `key`. */
    method RelinkIfDoomed(p: nat, i: nat, target: int, key: int)
      requires p < |next| && i < |next[p]| && (next[p][i] == NIL || 0 <= next[p][i] < |keys|)
      modifies this
      ensures keys == old(keys) && chains == old(chains)
      ensures next == if old(next[p][i]) != NIL && keys[old(next[p][i])] == key
        then Bypassed(old(next), p, i, target) else old(next)
    {
      var doomed := next[p][i];
      if doomed != NIL && keys[doomed] == key {
        SetLink(p, i, target);
      }
    }

    /** The corrected relinking loop: a stopping point is relinked only where the node
        after it holds `key`, which `cuts` records. */
    method RelinkMatching(ghost cuts: seq<bool>, key: int, predecessor: seq<nat>, successor: seq<int>)
      requires |predecessor| == |successor| == |cuts|
      requires forall l :: 0 <= l < |predecessor| ==> predecessor[l] < |next| && l < |next[predecessor[l]]|
      requires forall l :: 0 <= l < |predecessor| ==>
        var s := next[predecessor[l]][l];
        (s == NIL || 0 <= s < |keys|) && (cuts[l] <==> s != NIL && keys[s] == key)
      modifies this
      ensures next == Bypass(old(next), predecessor, successor, cuts, |predecessor|)
      ensures keys == old(keys) && chains == old(chains)
    {
      var i := 0;
      while i < |predecessor|
        invariant 0 <= i <= |predecessor|
        invariant keys == old(keys) && chains == old(chains)
        invariant next == Bypass(old(next), predecessor, successor, cuts, i)
      {
        var p := predecessor[i];
        BypassAt(old(next), predecessor, successor, cuts, i, p, i);
        RelinkIfDoomed(p, i, successor[i], key);
        i := i + 1;
      }
    }

    /** The relinking of remove_node, from the recorded stopping points and successors. */
    method Unlink(ghost a: Arena, key: int, predecessor: seq<nat>, successor: seq<int>)
      requires a.Valid() && Abs() == a
      requires predecessor == a.Stops(key) && successor == a.Skips(key)
      modifies this
      ensures Abs() == a.Unlinked(key, false)
    {
      ghost var cuts := a.CutLevels(key, false);
      forall l | 0 <= l <= a.levels
        ensures predecessor[l] < |next| && l < |next[predecessor[l]]|
        ensures !cuts[l] ==> next[predecessor[l]][l] == successor[l]
      {
        RemovalPlan(a, key, l);
      }
      RelinkAll(cuts, predecessor, successor);
      chains := a.UnlinkedChains(key, false);
    }

    /** The corrected relinking, from the same records. */
    method UnlinkMatching(ghost a: Arena, key: int, predecessor: seq<nat>, successor: seq<int>)
      requires a.Valid() && Abs() == a
      requires predecessor == a.Stops(key) && successor == a.Skips(key)
      modifies this
      ensures Abs() == a.Unlinked(key, true)
    {
      ghost var cuts := a.CutLevels(key, true);
      forall l | 0 <= l <= a.levels
        ensures predecessor[l] < |next| && l < |next[predecessor[l]]|
        ensures var s := next[predecessor[l]][l];
          (s == NIL || 0 <= s < |keys|) && (cuts[l] <==> s != NIL && keys[s] == key)
      {
        RemovalPlan(a, key, l);
      }
      RelinkMatching(cuts, key, predecessor, successor);
      chains := a.UnlinkedChains(key, true);
    }

    /** remove_node: when the level-0 node after the stopping point holds `key`, every
        level's stopping point is relinked to its recorded successor. */
    method RemoveNode(key: int) returns (r: Outcome<bool>)
      requires Valid()
      modifies this
      ensures r == old(Abs()).Removal(key)
      ensures Abs() == old(Abs()).AfterRemove(key, false)
      ensures Valid()
    {
      ghost var a := Abs();
      var current, predecessor, successor := RemovalPoints(key);
      PredAtFacts(a, 0, key);
      var n := next[current][0];
      if n == NIL {
        // current.next[0].key on None
        return Raised(AttributeError);
      }
      assert a.Keys(0)[a.RankAt(0, key)] == keys[n];
      if keys[n] != key {
        return Returned(false);
      }
      Unlink(a, key, predecessor, successor);
      r := Returned(true);
      assert a.Removal(key) == r;
      UnlinkedValid(a, key, false);
    }

    /** remove_node with the relinking limited to the levels where the node after the
        stopping point holds `key`. */
    method RemoveNodeCorrected(key: int) returns (r: Outcome<bool>)
      requires Valid()
      modifies this
      ensures r == old(Abs()).Removal(key)
      ensures Abs() == old(Abs()).AfterRemove(key, true)
      ensures Valid() && (old(Abs().Exact()) ==> Abs().Exact())
    {
      ghost var a := Abs();
      var current, predecessor, successor := RemovalPoints(key);
      PredAtFacts(a, 0, key);
      var n := next[current][0];
      if n == NIL {
        return Raised(AttributeError);
      }
      assert a.Keys(0)[a.RankAt(0, key)] == keys[n];
      if keys[n] != key {
        return Returned(false);
      }
      UnlinkMatching(a, key, predecessor, successor);
      r := Returned(true);
      assert a.Removal(key) == r;
      UnlinkedValid(a, key, true);
    }
  }

  /** The stopping points and successors recorded level by level are the ones the
      removal plan names. */
  lemma StopsPointwise(a: Arena, key: int, predecessor: seq<nat>, successor: seq<int>)
    requires a.Valid() && |predecessor| == |successor| == a.levels + 1
    requires forall i :: 0 <= i <= a.levels ==> predecessor[i] == a.PredAt(i, key)
    requires forall i :: 0 <= i <= a.levels ==> successor[i] == a.Beyond(i, key)
    ensures predecessor == a.Stops(key) && successor == a.Skips(key)
  {
  }
}
