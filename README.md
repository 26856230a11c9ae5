# Skip list: a verified model

This project models the skip list of `SkipList.py`. The list has a sentinel head with a
forward link on each level `0..levels`. Keys are integers. A `SkipNode(key, height)` has
`height` forward links. The model covers these operations:

- `search_node`, `predecessor_of_node` and `successor_of_node`. They share a top-down
  descent: on each level, advance while the next key is below the target, then drop a
  level.
- `insert_node`. It draws a height from coin flips, descends from that height and
  checks for the key after every drop. Unless a check fires, it splices the new node
  into levels `0..height-1`.
- `remove_node`. It records each level's stopping point and the link two steps ahead,
  then relinks every level when the level-0 node after the stopping point holds the key.

## How the model is built

- Nodes live in an arena. Node 0 is the head, which carries the key -1.
  - `keys[n]` is node `n`'s key.
  - `next[n]` is its list of links, and `NIL` (-1) stands for `None`.
  - A ghost `chains[l]` lists, in order, the nodes reached from the head on level `l`.
- The class `SkipLists.SkipList` keeps these as fields. Its methods change them in
  place, as the Python methods change `next` lists.
- Each method is proved equal to a ghost function on the value `SkipArena.Arena`. The
  `Properties`, `InsertProofs` and `RemoveProofs` modules state what those functions
  mean.
- The list invariant is `Arena.Valid`:
  - the links on each level thread the head and that level's chain, ending in `None`;
  - each level's nodes are also on the level below;
  - the keys along every level strictly increase.
- A second invariant, `Arena.Exact`, says that a node is on exactly the levels it has
  links for. The duplicate check of `insert_node` depends on it (see Findings).
- Python's crashes are modelled as results: `Raised(AttributeError)` when code reads
  `.key` or `.next` of `None`, and `Raised(IndexError)` for a link index past the end.
  They are not preconditions.
- Randomness is a parameter. Each insertion receives its coin flips as a `seq<bool>`,
  and a coin read past the end of the sequence shows tails.

### Where the model follows the code rather than the intended design

- `search_node`, `successor_of_node` and `remove_node` raise `AttributeError` when no
  level-0 key is at least the target. This includes the empty list.
- `successor_of_node` returns `None` whenever the level-0 node after the stopping point is
  the last node. That happens even when that node holds a key larger than the target,
  which would be the successor.
- `insert_node` starts its descent at the drawn height, not at the top level. After each
  drop it checks the next link on the new level. After the drop below level 0 the index
  is -1, so it reads the stopping point's last link.
- `remove_node` relinks every level, including levels the removed node is not on (see
  Findings).
- The demo builds `SkipList(4)`, which has levels `0..4`.

## Model

| member | source | states |
|---|---|---|
| `SkipLists.Heads` | SkipList.py:115-116 | the number of leading heads: every flip before it shows heads, and the flip at it (if any) shows tails |
| `SkipLists.Height` | SkipList.py:112-116 | the drawn height is at least 1 and at most `levels`, except that it is 1 when `levels` is 0 |
| `SkipLists.DrawHeight` | SkipList.py:112-116 | the coin-flip loop yields one more than the leading heads, capped at `levels` |
| `SkipLists.SkipList.constructor` | SkipList.py:11-20 | a new list is the head alone, with key -1 and `levels + 1` links that are all None; it is valid and exact |
| `SkipArena.EmptyValid` | SkipList.py:18-20 | the empty list is valid and exact, and every level reads no keys |
| `SkipArena.Empty` | SkipList.py:18-20 | defines the fresh list: the head alone, with key -1 and `levels + 1` links that are all None, and every level empty |
| `SkipArena.PredAtFacts` | SkipList.py:52-53 | a level's stopping point is the head or a node on that level with a key below the target, and its link there leads to the first node not below the target |
| `SkipArena.Arena.PredAt` | SkipList.py:52-53 | defines a level's stopping point: the node just before the first node on that level whose key is not below the target, or the head when there is none before it |
| `SkipArena.EnterLevel` | SkipList.py:50-55 | dropping a level never undoes horizontal progress: the stopping point above is the head or a node no further along the lower level than that level's stopping point |
| `SkipLists.SkipList.Walk` | SkipList.py:52-53 | the inner walk on a level, started no further along than that level's stopping point, ends exactly at it |
| `SkipLists.SkipList.Drop` | SkipList.py:127-132 | one level of a descent started at the head ends at that level's stopping point |
| `SkipLists.SkipList.Descend` | SkipList.py:47-55 | the full descent ends on the last level-0 node with a key below the target, or on the head |
| `SkipLists.SkipList.SearchNode` | SkipList.py:45-65 | `search_node` returns the predecessor of the node holding the key, None, or AttributeError, as `Arena.Search` says |
| `SkipArena.Arena.Search` | SkipList.py:58-65 | defines search's answer: AttributeError when no level-0 node follows the stopping point, the stopping point when the node after it holds the key, and None otherwise |
| `Properties.SearchMeaning` | SkipList.py:58-65 | search raises exactly when every key is below the target; it returns a node exactly when the key is present, and that node's level-0 link holds the key; it returns None exactly when the key is absent and a larger key exists |
| `Properties.FoundWhenPresent` | SkipList.py:58-61 | search returns a node for a key that is on level 0 |
| `SkipLists.SkipList.PredecessorOfNode` | SkipList.py:67-81 | `predecessor_of_node` returns the level-0 stopping point |
| `Properties.PredecessorMeaning` | SkipList.py:67-81 | the predecessor is the head exactly when no key is below the target; otherwise it is a level-0 node whose key is the largest key below the target |
| `SkipLists.SkipList.SuccessorOfNode` | SkipList.py:83-107 | `successor_of_node` returns what `Arena.Successor` says: it looks one or two nodes past the predecessor |
| `SkipArena.Arena.Successor` | SkipList.py:96-107 | defines successor's answer: AttributeError when no level-0 node follows the stopping point, None when that node is the last, that node when its key differs from the target, and the node after it otherwise |
| `Properties.SuccessorMeaning` | SkipList.py:95-107 | successor raises exactly when every key is below the target; it is None exactly when the last key is the only one not below the target; otherwise it is the node with the smallest key above the target |
| `Properties.SuccessorNone` | SkipList.py:96-107 | the None case holds exactly when the node after the predecessor is the last node |
| `Properties.SuccessorSome` | SkipList.py:96-103 | a node that successor returns is on level 0 and holds the smallest key above the target |
| `SkipLists.SkipList.InsertNode` | SkipList.py:110-143 | `insert_node` reports IndexError, a duplicate or success as `Arena.Insertion` says, and leaves the list that `Arena.AfterInsert` describes; on an exact list the result is valid and exact |
| `SkipArena.Arena.Insertion` | SkipList.py:110-143 | defines insert's outcome: IndexError when the drawn height exceeds the top level, and otherwise whether none of the duplicate checks fired |
| `SkipArena.Arena.AfterInsert` | SkipList.py:110-143 | defines the list after insert: unchanged after IndexError or a fired check, and otherwise the spliced list |
| `SkipLists.SkipList.InsertionPoints` | SkipList.py:122-137 | the descent from the drawn height stops early exactly when one of its duplicate checks fires; otherwise every recorded predecessor is that level's stopping point |
| `SkipLists.SkipList.ProbeHits` | SkipList.py:134-137 | the check after each drop reads the new level's link, or the last link after the drop below level 0, and fires when that link holds the key |
| `SkipArena.Arena.Probe` | SkipList.py:135 | defines the link read after dropping to level `l`: the link on level `l` of the stopping point of level `l + 1`, or that node's last link when `l` is -1 |
| `SkipArena.Arena.Hits` | SkipList.py:135-137 | defines when a check fires: the link it reads is not None and its node holds the key |
| `SkipArena.Arena.DuplicateSeen` | SkipList.py:127-137 | defines when insert stops early: one of the checks after the `h + 1` drops fires |
| `SkipLists.SkipList.AddNode` | SkipList.py:117 | the new node gets the next free number, its key, and `height` links that are all None; nothing else changes |
| `SkipLists.SkipList.Splice` | SkipList.py:139-143 | the splice leaves exactly the list `Arena.Spliced` describes |
| `SkipArena.Arena.Spliced` | SkipList.py:117-143 | defines the list after the splice: the new key is appended, the links are those after `h` rounds, and the new node joins each level below `h` at the key's rank |
| `SkipLists.SkipList.RelinkLevels` | SkipList.py:140-143 | after the loop over levels `0..h-1`, the links are those of the whole splice |
| `SkipArena.Arena.Links` | SkipList.py:140-143 | defines the links after the splice's first `i` rounds, starting from the old links plus the new node's `h` None links; it keeps every old node's link count |
| `SkipLists.SkipList.Relink` | SkipList.py:141-143 | one round: the new node takes over the predecessor's link, the predecessor links to the new node, and no other link changes |
| `SkipArena.Relinked` | SkipList.py:141-143 | defines one round of the splice: the new node takes the predecessor's link on level `i`, and the predecessor links to the new node |
| `InsertProofs.SpliceRound` | SkipList.py:140-143 | each round acts on an old node that has a link on that level, and one relink gives the next round's links |
| `InsertProofs.LinksAt` | SkipList.py:139-143 | after `i` rounds, every stopping point on a level below `i` links to the new node; the new node holds those levels' old links and None above; every other link is unchanged |
| `InsertProofs.LinksAreSplices` | SkipList.py:139-143 | the splice's links are the generic splice through the descent's stopping points |
| `InsertProofs.SplicesAt` | SkipList.py:139-143 | the link-by-link statement of `LinksAt`, for any stopping points |
| `InsertProofs.SplicedLink` | SkipList.py:139-143 | the links after the whole splice, one at a time |
| `InsertProofs.RelinkedAt` | SkipList.py:141-143 | a link after one relink |
| `InsertProofs.SplicedChain` | SkipList.py:139-143 | after the splice, each level below the height has the new node at the key's rank; the other levels are unchanged |
| `InsertProofs.SplicedShaped` | SkipList.py:139-143 | after the splice, every link names a real node, and every chain node has a link on its level |
| `InsertProofs.SplicedThreaded` | SkipList.py:139-143 | every level stays threaded in order |
| `InsertProofs.SplicedNested` | SkipList.py:139-143 | every level stays within the level below |
| `InsertProofs.SplicedKeys` | SkipList.py:139-143 | each level below the height reads its old keys with the key added at its rank |
| `InsertProofs.SplicedExact` | SkipList.py:139-143 | the splice keeps an exact list exact |
| `InsertProofs.SplicedValid` | SkipList.py:139-143 | splicing in an absent key keeps the list valid, adds the key on levels `0..h-1` and nowhere else, and keeps an exact list exact |
| `InsertProofs.DuplicateCheckExact` | SkipList.py:134-137 | on an exact list, one of the duplicate checks fires exactly when the key is already on level 0 |
| `InsertProofs.PresentIsSeen` | SkipList.py:134-137 | on an exact list, a key already on level 0 is met by the check at level 0 or by the check after the last drop |
| `InsertProofs.ProbeInList` | SkipList.py:134-137 | on an exact list a check that fires means the key is on level 0: a check never reports a key that is absent |
| `InsertProofs.SeenFromAny` | SkipList.py:127-137 | the checks made from a level downward fire exactly when some check in that range fires |
| `InsertProofs.SameStop` | SkipList.py:127-132 | a level's stopping point is the level-0 one whenever the level-0 one is the head or is on that level |
| `InsertProofs.OnBaseLevel` | SkipList.py:139-143 | a node on a level is on level 0 |
| `InsertProofs.KeysOnBaseLevel` | SkipList.py:139-143 | a key met on any level is met on level 0 |
| `Levels.Rank` | SkipList.py:52-53 | the walk's step count: every key before it is below the target, and the key at it is not |
| `Levels.RankSplits` | SkipList.py:52-58 | on an increasing level, every key from the rank on is at least the target, and the key is present exactly when it sits at the rank |
| `Levels.InsertKeyHas` | SkipList.py:139-143 | the inserted key is among the level's keys |
| `Levels.InsertKeyIncreasing` | SkipList.py:139-143 | adding an absent key at its rank keeps a level increasing and adds exactly that key to its multiset |
| `Levels.InsertKeyOrdered` | SkipList.py:139-143 | the ordering half of the above |
| `Levels.RemoveAtIncreasing` | SkipList.py:165-166 | taking an entry out keeps a level increasing, removes exactly that key from its multiset, and leaves the key absent |
| `Properties.InsertEffect` | SkipList.py:110-143 | on an exact list, insert raises IndexError only when the height exceeds the top level; otherwise it reports whether the key was absent, adds it at its place on levels `0..h-1`, keeps the list valid and exact, and leaves it unchanged for a duplicate |
| `Properties.InsertedPresent` | SkipList.py:110-143 | after an insert into an exact list the key is on level 0, whether or not it was there before |
| `Properties.SearchAfterInsert` | SkipList.py:45-65 | after an insert into an exact list, search finds the key |
| `SkipLists.SkipList.SuccessorLink` | SkipList.py:158 | `current.next[lvl].next[lvl]` at the stopping point is the link out of the first node not below the key, or None |
| `SkipArena.Arena.Beyond` | SkipList.py:158 | defines `successor[l]`: the link on level `l` out of the node after the stopping point, or None when no node follows the stopping point |
| `SkipLists.SkipList.RemovalPoints` | SkipList.py:147-160 | the descent records every level's stopping point and successor link, and ends on the level-0 stopping point |
| `SkipArena.Arena.Stops` | SkipList.py:150-157 | defines the `predecessor` list: every level's stopping point, each of them a node with a link on its level |
| `SkipArena.Arena.Skips` | SkipList.py:151-158 | defines the `successor` list: `successor[l]` for every level |
| `SkipLists.StopsPointwise` | SkipList.py:153-160 | the level-by-level records equal the removal plan |
| `SkipLists.SkipList.SetLink` | SkipList.py:166 | one relink: `predecessor[i].next[i] = successor[i]`, and no other link changes |
| `SkipArena.Bypassed` | SkipList.py:166 | defines one relink of the removal: `p`'s link on level `i` becomes the target |
| `SkipLists.SkipList.RelinkAll` | SkipList.py:165-166 | the relinking loop over every level yields the generic bypass of the recorded stopping points |
| `SkipArena.Bypass` | SkipList.py:165-166 | defines the links after the first `i` rounds of the removal's relinking |
| `SkipLists.SkipList.Unlink` | SkipList.py:165-166 | relinking every level, as written, leaves `Arena.Unlinked(key, false)` |
| `SkipArena.Arena.Cuts` | SkipList.py:155-166 | defines which levels lose a node: as written, every level where some node follows the stopping point; corrected, only those where that node holds the key |
| `SkipArena.Arena.Unlinked` | SkipList.py:165-166 | defines the list after the relinking: every level's stopping point is relinked to its recorded successor, and each cut level's chain loses the node at the rank |
| `SkipLists.SkipList.RemoveNode` | SkipList.py:146-170 | `remove_node` as written reports AttributeError, not found or removed as `Arena.Removal` says, leaves `Arena.AfterRemove(key, false)`, and keeps the list valid |
| `SkipArena.Arena.Removal` | SkipList.py:162-170 | defines remove's outcome: AttributeError when no level-0 node follows the stopping point, and otherwise whether that node holds the key |
| `SkipArena.Arena.AfterRemove` | SkipList.py:146-170 | defines the list after remove: the relinked list when the key was found, and otherwise the list unchanged |
| `SkipLists.SkipList.RelinkIfDoomed` | SkipList.py:166 | the corrected relink changes a link only when the node it bypasses holds the key |
| `SkipLists.SkipList.RelinkMatching` | SkipList.py:165-166 | the corrected loop bypasses exactly the levels where the next node holds the key |
| `SkipLists.SkipList.UnlinkMatching` | SkipList.py:165-166 | the corrected relinking leaves `Arena.Unlinked(key, true)` |
| `SkipLists.SkipList.RemoveNodeCorrected` | SkipList.py:146-170 | the corrected remove has the same outcome, leaves `Arena.AfterRemove(key, true)`, keeps the list valid, and keeps an exact list exact |
| `RemoveProofs.BypassAt` | SkipList.py:165-166 | after the first `i` relinking rounds, each cut level's stopping point links to its recorded successor; every other link is unchanged |
| `RemoveProofs.RemovalPlan` | SkipList.py:153-166 | on each level, the stopping point has a link there; the level is cut exactly when the next node holds the key (corrected); on a level that is not cut, the recorded successor already equals the link |
| `RemoveProofs.UnlinkedLink` | SkipList.py:165-166 | a link after the removal, one at a time |
| `RemoveProofs.UnlinkedLevelLinks` | SkipList.py:165-166 | the links of one level after the removal: only a cut level's stopping point changes, and it now links past the cut node |
| `RemoveProofs.RemovedGone` | SkipList.py:165-166 | the cut node is not among the entries left on its level |
| `RemoveProofs.UnlinkedShaped` | SkipList.py:165-166 | after the removal, links still name real nodes and chains hold nodes with a link on their level |
| `RemoveProofs.UnlinkedThreaded` | SkipList.py:165-166 | every level stays threaded: a cut level threads its chain without the cut node |
| `RemoveProofs.FirstAtLeastShared` | SkipList.py:153-160 | if a level's first node not below the key is on the level above, it is that level's first node not below the key too |
| `RemoveProofs.CutChainsNested` | SkipList.py:165-166 | chains cut this way stay nested |
| `RemoveProofs.UnlinkedNested` | SkipList.py:165-166 | after the removal every level is still within the level below |
| `RemoveProofs.UnlinkedKeys` | SkipList.py:165-166 | a cut level loses exactly the key at its rank; other levels are unchanged |
| `RemoveProofs.CutNodeOnBase` | SkipList.py:165-166 | a level-0 node that the corrected removal takes out of some level holds the key and is the node cut from level 0 |
| `RemoveProofs.CorrectedExact` | SkipList.py:165-166 | the corrected removal keeps an exact list exact |
| `RemoveProofs.UnlinkedValid` | SkipList.py:146-170 | the removal, as written or corrected, keeps the list valid and takes the rank's key out of every cut level; the corrected removal keeps exactness |
| `Threading.KeptThreaded` | SkipList.py:139-166 | a level whose chain and links are untouched stays threaded |
| `Threading.InsertedThreaded` | SkipList.py:139-143 | a node placed in a chain after the stopping point, taking over its link, leaves the level threaded |
| `Threading.RemovedThreaded` | SkipList.py:165-166 | a chain entry dropped, with the node before it linking to the one after it, leaves the level threaded |
| `Threading.CutOrKeptThreaded` | SkipList.py:165-166 | either of the two above, chosen by whether the level is cut |
| `Properties.RemoveOutcome` | SkipList.py:162-170 | remove raises exactly when every key is below the target, and removes a node exactly when the key is present |
| `Properties.RemoveEffect` | SkipList.py:146-170 | after a remove the list is valid; the key is gone from level 0, every other key stays, and the level-0 multiset loses exactly the key; an absent key changes nothing; the corrected remove keeps exactness |
| `Properties.RemoveUpperLevels` | SkipList.py:153-166 | on levels above 0, the remove as written takes out the first node not below the key, whatever its key; only the corrected remove spares a node with another key |
| `Properties.SearchAfterRemove` | SkipList.py:45-65 | after a remove, search finds no node holding the removed key |
| `StaleLinks.StaleLinksLetDuplicateIn` | SkipList.py:134-170 | the trace of the finding: after the as-written removal the list is valid but not exact, and a second insert of 8 succeeds, so level 0 reads 7, 8, 8 |
| `StaleLinks.SecondEightUnseen` | SkipList.py:134-137 | in that list, neither check of the second insertion of 8 fires |
| `StaleLinks.CorrectedRemoveKeepsDuplicateOut` | SkipList.py:134-170 | with the corrected removal, the same steps from any exact list reading 5, 7 stay exact, and the second insert of 8 is turned away |
| `StaleLinks.CorrectedRemove` | SkipList.py:146-170 | the corrected removal of 5 from an exact list reading 5, 7 leaves an exact list reading 7 |
| `StaleLinks.CorrectedInsert` | SkipList.py:110-143 | inserting 8 into an exact list reading 7 gives an exact list reading 7, 8 |
| `StaleLinks.CorrectedRejects` | SkipList.py:134-137 | on an exact list reading 7, 8, inserting 8 again reports a duplicate and changes nothing |
| `Demo.GrownSteps` | SkipList.py:173-176 | each key of the script is new when it comes and lands in sorted order |
| `Demo.GrowsBy` | SkipList.py:175-176 | inserting the script's i-th key at any allowed height keeps the list valid and exact, and level 0 reads the next sorted prefix |
| `Demo.InsertAll` | SkipList.py:175-176 | the insertion loop leaves level 0 reading 1, 3, 4, 5, 6, 12, 23, whatever the coin flips |
| `Demo.Shrunk` | SkipList.py:180-181 | removing 23 and then 5 takes level 0 to 1, 3, 4, 6, 12 |
| `Demo.RemovesFrom` | SkipList.py:180-181 | removing a present key from a valid list leaves level 0 without it |
| `Demo.FinalSuccessors` | SkipList.py:185-186 | on a list reading 1, 3, 4, 6, 12, the successor of 5 holds 6 and the successor of 12 is None |
| `Demo.RunDemo` | SkipList.py:173-186 | the script, for any coin flips: level 0 ends as 1, 3, 4, 6, 12, the successor of 5 holds 6, and the successor of 12 is None |

## Left out

- Printing is left out: `print`, `print_sorted_elemets` and the messages that operations print.
- `flip_coin` is left out because it uses `random.randint`. Its results are the `flips` parameter of `InsertNode`.
- `remove_node` and `insert_node` return None on every path that does not raise. The model returns a flag instead. `RemoveNode` returns `Returned(true)` when it removed a node and `Returned(false)` when it found none. `InsertNode` returns `Returned(false)` where the source prints "already in SkipList" and returns, and `Returned(true)` when it splices the node in. The list that results is the same.
- Negative `levels` is left out, because `levels` is a `nat`. With a negative value the head gets no links. The constructor and `predecessor_of_node` still run, and `predecessor_of_node` returns the head. `search_node`, `successor_of_node`, `insert_node` and `remove_node` raise IndexError.
- Every operation requires `Valid()`, so lists whose levels are not strictly increasing are not modelled. Such a list is reachable only after the as-written removal lets a duplicate in (see Findings). The source keeps running on it, but the model says nothing about search, insert or remove there.
- Node identity is an arena index. A node allocated for a duplicate insert is never linked, so the model allocates the new node only when it splices it in.
- Python's `None`-truthiness of nodes is modelled only through `NIL`. Keys are compared as unbounded integers, as Python does.
- The demo's printing and its call to `print_sorted_elemets` are left out. What they would show is stated on level 0 instead.

## Findings

| source | as written | input that shows it | evidently intended | confidence | as-written member | corrected member |
|---|---|---|---|---|---|---|
| SkipList.py:165-166 | `remove_node` relinks the stopping point on every level to the recorded link two steps ahead. On a level the removed node is not on, this cuts the next node out of that level while the node keeps its link there. The duplicate check of `insert_node` (SkipList.py:134-137) then reads such a stale top link through `next[-1]` and misses a key that is present. | `SkipList(2)`: insert 5 with height 1, insert 7 with height 2, remove 5 (7 leaves level 1), insert 8 with height 1, insert 8 with height 1. The second insert succeeds, and level 0 reads 7, 8, 8. | relink only the levels where the node after the stopping point holds the key, so each node stays on exactly the levels it has links for, and the duplicate check sees every present key | not executed | `StaleLinks.StaleLinksLetDuplicateIn` | `StaleLinks.CorrectedRemoveKeepsDuplicateOut` |

The table's members sit beside their operations. `SkipLists.SkipList.RemoveNode` models the
removal as written, and `SkipLists.SkipList.RemoveNodeCorrected` models the corrected
removal. `RemoveProofs.CorrectedExact` proves that the corrected removal keeps an exact list
exact, and `InsertProofs.DuplicateCheckExact` proves that on an exact list the duplicate
check is sound and complete. The script in `Demo` uses the removal as written, as the
source does. Its results hold either way.
