# World Cup data structures, modelled in Dafny

This project models the core of a two-part data-structures course exercise
(a football "world cup" manager):

- **AVL trees.** Both parts use the same self-balancing search tree. Its nodes
  cache their height and, in the second part, the number of nodes in their
  subtree. The model is a functional tree `Tree<K, V>` in `AvlNode`, with a
  generic key order `lt`.
  - The source's loops that walk back up through parent pointers become
    recursion that returns a "keep retracing" flag.
  - Node pointers become paths from the root (`seq<Dir>`).
  - The in-order sequence of (key, value) pairs, `Items`, is the abstract view.
    The stored map is `Map`.
  - Modules: `AvlRotate`, `AvlInsert`, `AvlRemove`, `AvlQuery` (find, next,
    previous, lower bound, max, in-order output, select) and `AvlBuild`
    (building a balanced tree from a sorted array).
- **Union-find with lazy offsets** (part two, `UnionFind`). Each player record
  is a set element. It stores a games-played offset and a spirit (a
  permutation) relative to its parent. `find` compresses the path and rewrites
  the offsets so that every player's resolved games and spirit stay the same.
  `unite` hangs the smaller set under the larger and adjusts the offsets.
  - Permutations are any group, given as operations (`Group`).
  - The resolved values are `Games` and `Spirit`.
- **Chained hash table** of players by id (part two, `Hash`).
  - Buckets are `seq<seq<V>>`.
  - A new entry goes to the front of its chain.
  - The table doubles when the entry count reaches the bucket count.
- **Records and comparators.** Players and teams of both parts, with their
  `operator<` orders and update methods: `Wet1Player`, `Wet1Team`,
  `Wet2Player` and `Wet2Team`.
- **Part-one world cup algorithms.**
  - `add_player`, `play_match` and `get_num_played_games` (`Wet1Cup`).
  - The doubly linked list that threads tree nodes in order (`Wet1List`).
  - `get_closest_player` (`Wet1Closest`).
  - The merge of two teams' player arrays in `unite_teams` (`Wet1Unite`).
  - The knockout tournament in `knockout_winner` (`Wet1Knockout`).

`Wrappers` holds `Option` and `Result`. `Orders` holds the order predicates.
`AvlSample` holds the concrete trees that exhibit the finding below.

## Model

| member | source | states |
|---|---|---|
| AvlNode.NewNode | Wet2/AVLTreeNode.h:49-51 | a new node holds exactly its one pair, has height 0 and is a valid AVL subtree |
| AvlNode.BalanceFactor | Wet2/AVLTreeNode.h:54-69 | the factor is the left cached height minus the right one (an empty child counts -1), and equals the true height difference when heights are cached correctly |
| AvlNode.UpdateHeight | Wet2/AVLTreeNode.h:72-94 | only the height changes; it becomes one more than the taller child, so correct children give a correct node |
| AvlNode.UpdateRank | Wet2/AVLTreeNode.h:97-115 | only the subtree count changes; it becomes one plus both children's counts, so correct children give a correct node |
| AvlNode.Refresh | Wet2/AVLTreeNode.h:72-115 | both caches are recomputed from the children and are correct whenever the children's are |
| AvlNode.SonTypeOf | Wet2/AVLTreeNode.h:118-127 | the root is exactly the node with the empty path; a left (right) son is the left (right) child of the node one step up |
| AvlNode.BstIffSorted | Wet1/AVLTree.h:342-370 | the search-tree ordering holds exactly when the in-order sequence is strictly sorted |
| AvlNode.MapOfBst | Wet1/AVLTree.h:299-317 | in a search tree, every pair of the in-order sequence is an entry of the stored map |
| AvlNode.KeysOfMap | Wet1/AVLTree.h:299-317 | the keys of the stored map are exactly the keys held by the nodes |
| AvlNode.SameItems | Wet1/AVLTree.h:592-606 | two trees with the same in-order sequence have the same map, keys and ordering; this is how a rebuilt subtree replaces the old one |
| AvlRotate.RotateLL | Wet1/AVLTree.h:492-509 | the rotation keeps the in-order sequence |
| AvlRotate.RotateRR | Wet1/AVLTree.h:542-559 | the rotation keeps the in-order sequence |
| AvlRotate.RotateLR | Wet1/AVLTree.h:512-539 | the double rotation keeps the in-order sequence |
| AvlRotate.RotateRL | Wet1/AVLTree.h:562-589 | the double rotation keeps the in-order sequence |
| AvlRotate.RotateLLHeight | Wet1/AVLTree.h:492-509 | on a node two levels heavier on the left with a left-leaning or level left child, LL gives a valid AVL subtree; it is one lower unless the child was level |
| AvlRotate.RotateRRHeight | Wet1/AVLTree.h:542-559 | the mirror image of the LL case |
| AvlRotate.RotateLRHeight | Wet1/AVLTree.h:512-539 | on a node two heavier on the left whose left child leans right, LR gives a valid AVL subtree one level lower |
| AvlRotate.RotateRLHeight | Wet1/AVLTree.h:562-589 | the mirror image of the LR case |
| AvlRotate.Balance | Wet1/AVLTree.h:390-420 | `balance` keeps the in-order sequence, reports a rotation exactly when the balance factor is ±2, and leaves the node alone otherwise |
| AvlRotate.BalanceOk | Wet1/AVLTree.h:390-420 | on a node whose children are AVL trees and whose factor is at most 2 in size, the result is a valid AVL subtree; without a rotation the height is unchanged, with one it drops by at most one, and by exactly one when the heavy child was not level |
| AvlRotate.BalanceSettles | Wet1/AVLTree.h:390-420 | after balancing, the node's caches are up to date and a second `balance` finds nothing to rotate |
| AvlRotate.BalanceKeepsOrder | Wet1/AVLTree.h:390-420 | balancing keeps the search-tree ordering, the map and the key set |
| AvlRotate.BalanceKeepsSizes | Wet2/AVLTree.h:268-298 | balancing keeps every subtree count correct |
| AvlInsert.Insert | Wet1/AVLTree.h:320-338 | inserting a present key fails with KeyExists; otherwise the result is a valid AVL search tree whose map is the old map plus the new entry, at most one level taller |
| AvlInsert.InsertRec | Wet1/AVLTree.h:342-370 | the descent always returns a non-empty subtree |
| AvlInsert.RetraceInsert | Wet1/AVLTree.h:373-387 | a retrace step keeps the in-order sequence and does nothing once the climb has stopped |
| AvlInsert.RetraceInsertOk | Wet2/AVLTree.h:246-265 | when the child grew by one, the step gives a valid AVL subtree; its height is the old height plus one exactly when the climb goes on, and a climbing subtree is never level |
| AvlInsert.RetraceInsertStop | Wet1/AVLTree.h:373-387 | the case where the node's height does not change: the climb stops with a valid subtree of the old height |
| AvlInsert.RetraceInsertGrow | Wet1/AVLTree.h:373-387 | the case where the node grows: either it stays balanced and the climb goes on one level higher, or one rotation restores the old height and the climb stops |
| AvlInsert.RetraceGrowOk | Wet1/AVLTree.h:390-420 | balancing a node that just grew gives a valid AVL subtree; a rotation takes exactly one level off, and without one the node is not level |
| AvlInsert.InsertRecAvl | Wet1/AVLTree.h:342-387 | inserting into an AVL tree gives an AVL tree that is at most one taller; the "grew" flag is exactly the height increase |
| AvlInsert.MapChildInsert | Wet1/AVLTree.h:342-370 | adding an entry in one child adds it to the whole subtree's map |
| AvlInsert.InsertRecOrder | Wet1/AVLTree.h:342-370 | inserting an absent key keeps the search-tree ordering; the map gains exactly the new entry and the key set the new key |
| AvlInsert.InsertStepOrder | Wet1/AVLTree.h:373-387 | one level of the insert climb keeps ordering, map and keys |
| AvlInsert.InsertRecOk | Wet1/AVLTree.h:320-338 | inserting an absent key into a valid tree gives a valid tree with the new entry, at most one taller |
| AvlRemove.Remove | Wet1/AVLTree.h:423-433 | removing an absent key fails with KeyDoesNotExist; otherwise, with the corrected retrace, the result is a valid AVL search tree whose map is the old map without the key |
| AvlRemove.RemoveAsWritten | Wet1/AVLTree.h:423-488 | with the retrace as written, removal still fails exactly on an absent key, keeps the ordering and the subtree counts, and removes exactly the key |
| AvlRemove.RetraceRemove | Wet1/AVLTree.h:477-488 | a retrace step keeps the in-order sequence; once the climb has stopped it only refreshes the count |
| AvlRemove.RemoveMin | Wet1/AVLTree.h:436-474 | taking out the leftmost node splits the in-order sequence into that pair followed by the rest |
| AvlRemove.RemoveMinOrder | Wet1/AVLTree.h:436-474 | the removed key was the smallest one in the subtree and the rest keeps the ordering; the old map is the new one plus the removed entry |
| AvlRemove.RemoveMinSorted | Wet1/AVLTree.h:466-474 | the successor taken out is smaller than every key that stays in its subtree |
| AvlRemove.MapChildRemove | Wet1/AVLTree.h:436-463 | removing a key in one child removes it from the subtree's map |
| AvlRemove.MapSuccessorSwap | Wet1/AVLTree.h:466-474 | putting the successor's pair into the removed node's place gives the old map without the removed key |
| AvlRemove.RemoveStepOrder | Wet1/AVLTree.h:436-463 | one level of the removal climb keeps ordering, map and keys |
| AvlRemove.SwapStepOrder | Wet1/AVLTree.h:436-474 | removing a node with two children through its successor keeps the ordering and removes exactly that key |
| AvlRemove.RemoveRec | Wet1/AVLTree.h:436-488 | removal from an empty subtree changes nothing, and otherwise takes out at most one pair; `RemoveRecOrder`, `RemoveRecSizes` and `RemoveRecAvl` state which pair and what shape results |
| AvlRemove.RemoveRecOrder | Wet1/AVLTree.h:436-488 | in either retrace mode, removal keeps the ordering and takes exactly the key out of the map and key set |
| AvlRemove.RetraceRemoveSizes | Wet2/AVLTree.h:355-372 | a retrace step leaves every subtree count correct |
| AvlRemove.RemoveRecSizes | Wet2/AVLTree.h:314-372 | removal in either mode keeps every subtree count correct |
| AvlRemove.RemoveMinSizes | Wet2/AVLTree.h:344-352 | taking out the successor keeps every subtree count correct |
| AvlRemove.RetraceRemoveOk | Wet1/AVLTree.h:477-488 | with the corrected climb, a node whose child shrank by at most one gives a valid AVL subtree; the climb goes on exactly when its height dropped |
| AvlRemove.RemoveMinAvl | Wet1/AVLTree.h:436-488 | with the corrected climb, taking out the leftmost node gives an AVL subtree at most one lower, and the flag says whether it shrank |
| AvlRemove.RemoveRecAvl | Wet1/AVLTree.h:436-488 | with the corrected climb, removal from an AVL tree gives an AVL tree at most one lower, and the flag says whether it shrank |
| AvlQuery.FindPath | Wet1/AVLTree.h:299-317 | `findNode` returns a node exactly when the key is in the tree, and the node holds that key |
| AvlQuery.Find | Wet1/AVLTree.h:199-204 | `find` returns a value exactly when the key is in the map, and the value is the one stored under it |
| AvlQuery.OffWindow | Wet1/AVLTree.h:207-260 | the subtree at a path is a contiguous window of the in-order sequence, starting at the path's offset |
| AvlQuery.NodeIndex | Wet1/AVLTree.h:207-260 | a node's own pair sits in the in-order sequence just after its left subtree's window |
| AvlQuery.LeftmostValue | Wet1/AVLTree.h:214-221 | walking left from a node reaches the first pair of its window |
| AvlQuery.RightmostValue | Wet1/AVLTree.h:242-249 | walking right from a node reaches the last pair of its window |
| AvlQuery.ClimbToNext | Wet1/AVLTree.h:222-231 | climbing while the node is a right son gives the pair right after the subtree's window, or nothing when the window ends the sequence |
| AvlQuery.ClimbToPrevious | Wet1/AVLTree.h:250-259 | climbing while the node is a left son gives the pair right before the window, or nothing when it starts the sequence |
| AvlQuery.NextOf | Wet1/AVLTree.h:211-231 | the value after a node is the value of the next pair in key order, or nothing for the last pair |
| AvlQuery.PreviousOf | Wet1/AVLTree.h:239-259 | the value before a node is the value of the previous pair in key order, or nothing for the first pair |
| AvlQuery.FindNext | Wet1/AVLTree.h:207-232 | `findNext` throws KeyDoesNotExist exactly on an absent key; otherwise it returns the next pair's value in key order, or nothing for the largest key |
| AvlQuery.FindPrevious | Wet1/AVLTree.h:235-260 | `findPrevious` throws exactly on an absent key; otherwise it returns the previous pair's value in key order, or nothing for the smallest key |
| AvlQuery.FoundIndex | Wet1/AVLTree.h:299-317 | the node found for a key is the one and only position of that key in the in-order sequence |
| AvlQuery.KeyIndexUnique | Wet1/AVLTree.h:299-317 | in a search tree no key appears at two positions |
| AvlQuery.FindParentPath | Wet1/AVLTree.h:279-296 | `findParentNode` finds a node exactly when the key is absent; the key would hang off that node's empty child on the side the order says |
| AvlQuery.FindParentWindow | Wet1/AVLTree.h:279-296 | all keys before the window of the found node are smaller than the key, and all keys after it are larger |
| AvlQuery.LowerBoundAtParent | Wet1/AVLTree.h:263-276 | an absent key's place among the sorted keys is just before or just after the parent the search ends at, on the side the order says |
| AvlQuery.LowerBoundExact | Wet1/AVLTree.h:263-276 | a present key is its own lower bound |
| AvlQuery.FindEqOrGreater | Wet1/AVLTree.h:263-276 | `findEqOrGreater` returns the value of the smallest key not below the given one, or nothing when all keys are smaller |
| AvlQuery.FindMax | Wet1/AVLTree.h:640-648 | `findMax` returns the value of the largest key, or nothing for an empty tree |
| AvlQuery.ArrayInOrderRec | Wet1/AVLTree.h:615-622 | the recursive walk writes exactly the values in key order from the offset on, returns the next free offset and leaves the rest of the array alone |
| AvlQuery.ArrayInOrder | Wet1/AVLTree.h:609-612 | the array starts with the values in key order and is unchanged past them |
| AvlQuery.Select | Wet2/AVLTree.h:530-554 | with correct subtree counts, `select(k)` returns the value at in-order position k, or nothing when k is out of range |
| AvlBuild.Log | Wet1/AVLTree.h:156-177 | the height of the tree built from n values is -1 for none and otherwise below n |
| AvlBuild.GenerateTree | Wet1/AVLTree.h:156-177 | the tree built from the first `size` array entries has them as its in-order sequence (keyed by `chooseKey`), is an AVL tree with correct caches, and has height floor(log2 size) |
| AvlBuild.BuildValid | Wet1/AVLTree.h:150-177 | built from a sorted array, the tree is a valid search tree and maps each entry's key to the entry |
| AvlBuild.BuildRoundTrip | Wet1/AVLTree.h:609-622 | writing the built tree back out in order gives the original array |
| AvlSample.SampleValid | Wet1/AVLTree.h:423-488 | the eight-key tree of the finding is a valid AVL search tree holding the key to remove |
| AvlSample.SampleRemove | Wet1/AVLTree.h:477-488 | removing the fourth key rotates its parent's subtree; as written, the root keeps height 3, and corrected it gets height 2 |
| AvlSample.StaleHeightAfterRemove | Wet1/AVLTree.h:477-488 | on that tree the as-written removal leaves a root whose cached height (3) is not its true height (2), while the corrected removal caches 2 |
| UnionFind.Rep | Wet2/UnionFind.cpp:9-14 | following parents from a player ends at a root, one with a larger size than any non-root on the way |
| UnionFind.Path | Wet2/UnionFind.cpp:9-14 | the parent chain starts at the player, ends at its root and stays in the set |
| UnionFind.PathAt | Wet2/UnionFind.cpp:9-14 | along the chain each player's parent is the next one and has a larger size; only the last one is a root; resolved games add up step by step |
| UnionFind.PathDistinct | Wet2/UnionFind.cpp:9-14 | the parent chain never repeats a player |
| UnionFind.SpiritAlongPath | Wet2/UnionFind.cpp:9-14 | a player's resolved spirit is an ancestor's resolved spirit times the product of the spirits on the way up |
| UnionFind.FindRoot | Wet2/UnionFind.cpp:6-15 | the first loop of `find` ends at the player's root, with the games summed below the root and the spirit product along the chain |
| UnionFind.CompressPath | Wet2/UnionFind.cpp:15-29 | the second loop hangs every chain player directly under the root, with the games and spirit offsets the source computes, and changes nobody else |
| UnionFind.CompressOne | Wet2/UnionFind.cpp:20-28 | one iteration of the compressing loop rewrites the current player and advances the running sums to the next |
| UnionFind.Find | Wet2/UnionFind.cpp:4-31 | `find` returns the root and keeps the state well formed; every player keeps its root and resolved games and, in a group, its resolved spirit |
| UnionFind.FindIdempotent | Wet2/UnionFind.cpp:9-14 | the root `find` returns is its own root, and stays so in any state that keeps every player's root, such as the compressed one: a second `find` from it gives it back at once |
| UnionFind.FindKeepsSpirit | Wet2/UnionFind.cpp:16-29 | when every rehung player's new offset times the root's spirit gives its old resolved spirit, nobody's resolved spirit changes |
| UnionFind.FindSpiritDeltas | Wet2/UnionFind.cpp:26-28 | the offset `sumSpirit * toSubSpirit.inv()` times the root's spirit is the player's resolved spirit |
| UnionFind.CompressionKeepsWF | Wet2/UnionFind.cpp:16-29 | rehanging players directly under the root keeps every parent link in the set and the sizes increasing upward |
| UnionFind.CompressionKeepsResolved | Wet2/UnionFind.cpp:16-29 | rehanging with the source's games offsets keeps each player's root and resolved games |
| UnionFind.CompressionKeepsSpirit | Wet2/UnionFind.cpp:16-29 | rehanging with spirit offsets that compose to the old product keeps each player's resolved spirit |
| UnionFind.GetGamesPlayed | Wet2/Player.cpp:60-68 | after path compression, a player's own offset plus its parent's is its resolved games played, and every player's resolved games are unchanged |
| UnionFind.GetPartialSpirit | Wet2/Player.cpp:40-48 | after path compression, the parent's spirit times the player's is its resolved spirit, and every player's resolved spirit is unchanged |
| UnionFind.Unite | Wet2/UnionFind.cpp:33-62 | the larger set's root (the buying one on a tie) becomes the root of both; it keeps the buying team and sums the sizes; the other root hangs under it without a team; when the bought root survives, the buying team's set moves to it, so a team whose set was the buying root has the surviving root as its set; no other player or team field changes |
| UnionFind.UniteWF | Wet2/UnionFind.cpp:33-62 | the united state is well formed |
| UnionFind.UniteResolved | Wet2/UnionFind.cpp:33-62 | after `unite` every player keeps its resolved games; players of both sets resolve to the new root; players of the bought set have their spirit multiplied on the left by the buying team's spirit; nobody else changes |
| UnionFind.UpdateRootGames | Wet2/Player.cpp:30-33 | adding games at a root adds them to the resolved games of exactly the players of its set |
| UnionFind.UpdateCardsKeepsResolved | Wet2/Player.cpp:35-38 | changing cards changes no root, resolved games or resolved spirit |
| UnionFind.AddPlayerResolved | Wet2/Player.cpp:5-8 | a new player is its own root with its given games and spirit, and all others resolve as before |
| UnionFind.SameLinks | Wet2/UnionFind.cpp:4-31 | a state that keeps every old player's links resolves each of them as before |
| Wet2Player.NewPlayer | Wet2/Player.cpp:5-8 | a new player is a singleton root without a parent and keeps the given fields |
| Wet2Player.UpdateGamesPlayed | Wet2/Player.cpp:30-33 | the games offset grows by the amount and nothing else changes |
| Wet2Player.UpdateCards | Wet2/Player.cpp:35-38 | the cards grow by the amount and nothing else changes |
| Hash.NewTable | Wet2/Hash.cpp:3-9 | the new table has 16 empty buckets, stores nothing and satisfies the table invariant |
| Hash.H | Wet2/Hash.cpp:31-34 | a non-negative id hashes to a bucket index in range |
| Hash.Scan | Wet2/Hash.cpp:38-46 | the chain walk returns an entry with the id when the chain has one, and nothing exactly when none matches |
| Hash.Find | Wet2/Hash.cpp:36-47 | `find` returns a stored player with the id, and nothing exactly when no stored player has it |
| Hash.AbsentFromBucket | Wet2/Hash.cpp:36-47 | an id that is not in its own bucket is nowhere in the table |
| Hash.Insert | Wet2/Hash.cpp:49-63 | inserting fails with KeyExists exactly when the id is taken; otherwise the entries gain exactly the new player, the count grows by one, the invariant holds, and the bucket count doubles exactly when the count reached it |
| Hash.Push | Wet2/Hash.cpp:53-59 | pushing onto the front of the chain keeps every entry in its own bucket and adds exactly the new entry |
| Hash.PushKeepsValid | Wet2/Hash.cpp:49-60 | pushing a fresh id keeps the ids unique and counts one more entry |
| Hash.IncreaseSize | Wet2/Hash.cpp:65-94 | rehashing doubles the bucket count, keeps the count, puts every entry in its new bucket and keeps exactly the same entries |
| Hash.RehashFrom | Wet2/Hash.cpp:76-90 | moving the chains of old buckets into the new array keeps every entry in its own bucket |
| Hash.RehashFromStored | Wet2/Hash.cpp:76-90 | moving the chains adds exactly the old buckets' entries to the new array |
| Hash.Chain | Wet2/Hash.cpp:80-89 | moving one chain adds exactly its entries, each to its own new bucket |
| Hash.InsertThenFind | Wet2/Hash.cpp:36-63 | after a successful insert, `find` returns the new player under its id and answers as before for every other id |
| Hash.FindAfterAdd | Wet2/Hash.cpp:36-47 | a table that holds one more player answers `find` with that player for its id and as before otherwise |
| Wet2Team.NewTeam | Wet2/Team.cpp:4-6 | a new team has zero points and ability, no goalkeeper, the neutral spirit and no set |
| Wet2Team.UpdateHasGoalKeeper | Wet2/Team.cpp:65-68 | afterwards the team is legal exactly when it was legal or the new player is a goalkeeper; nothing else changes |
| Wet2Team.LegalIsMonotone | Wet2/Team.cpp:8-11 | after a run of joining players, the team is legal exactly when it was or one of them is a goalkeeper |
| Wet2Team.UpdatePoints | Wet2/Team.cpp:44-47 | the points grow by the amount and nothing else changes |
| Wet2Team.UpdateAbility | Wet2/Team.cpp:49-52 | the ability grows by the amount and nothing else changes |
| Wet2Team.SetTeamSet | Wet2/Team.cpp:54-57 | only the set root changes |
| Wet2Team.UpdateTeamSpirit | Wet2/Team.cpp:59-62 | the new spirit is the old one multiplied on the right by the player's spirit, and nothing else changes |
| Wet2Team.SpiritIsProduct | Wet2/Team.cpp:59-62 | a new team's spirit after players join is the product of their spirits in joining order |
| Wet2Team.SpiritBatches | Wet2/Team.cpp:59-62 | in a group, adding two batches of players multiplies the first batch's spirit by the product of the second |
| Wet2Team.LessIsLexicographic | Wet2/Team.cpp:81-92 | `operator<` orders teams by ability, then id |
| Wet2Team.RankLessIsTotal | Wet2/Team.cpp:81-92 | that order is a strict total order on ranks |
| Wet2Team.LessOrdersTeams | Wet2/Team.cpp:81-92 | `operator<` is irreflexive and transitive, and total on distinct ids |
| Wet2Team.ComparatorsAgree | Wet2/Team.cpp:71-97 | `operator>` is the converse of `<`, and `==` holds exactly when neither holds, for records whose equal ids imply equal ability |
| Wet1Player.LessIsLexicographic | Wet1/Player.cpp:69-84 | `operator<` orders players by goals, then fewer cards, then id |
| Wet1Player.RankLessIsTotal | Wet1/Player.cpp:69-84 | that order is a strict total order on ranks |
| Wet1Player.LessOrdersPlayers | Wet1/Player.cpp:69-84 | `operator<` is irreflexive and transitive, and total on distinct ids |
| Wet1Player.ComparatorsAgree | Wet1/Player.cpp:61-88 | `>` is the converse of `<`, and `==` holds exactly when neither holds, for records whose equal ids imply equal ranks |
| Wet1Player.UpdateStats | Wet1/Player.cpp:51-56 | games, goals and cards grow by the given amounts; id, goalkeeper flag and team stay |
| Wet1Player.UpdateStatsAdds | Wet1/Player.cpp:51-56 | two updates add up to one with the summed amounts, and a zero update changes nothing |
| Wet1Player.UpdateStatsMoves | Wet1/worldcup23a1.cpp:228-247 | more goals move a player up in `operator<`; more cards alone move it down; with neither its rank is unchanged, so it is reinserted where it was |
| Wet1Player.GamesPlayed | Wet1/Player.cpp:11-14 | a player's actual games exceed its own count by its team's games |
| Wet1Player.FoldTeamGames | Wet1/worldcup23a1.cpp:733-746 | moving the old team's games into the player's own count and joining a team with no games keeps its actual games |
| Wet1Team.NewTeam | Wet1/Team.cpp:3-7 | a new team has the given id and points, a match score equal to them, and no players, goalkeepers or games |
| Wet1Team.LegalNeedsBoth | Wet1/Team.cpp:15-22 | a team is legal exactly when it has a goalkeeper and at least 11 players; a new team is not legal |
| Wet1Team.UpdatePoints | Wet1/Team.cpp:41-45 | points and match score both grow by the amount, so the surplus of match score over points stays |
| Wet1Team.UpdateMatchScore | Wet1/Team.cpp:52-55 | only the match score changes, by the amount |
| Wet1Team.UpdatePlayerCount | Wet1/Team.cpp:62-65 | only the player count changes, by the amount |
| Wet1Team.UpdateGoalKeeperCount | Wet1/Team.cpp:72-75 | only the goalkeeper count changes, by the amount |
| Wet1Team.GrowingKeepsLegal | Wet1/Team.cpp:15-22 | adding players or goalkeepers never makes a legal team illegal |
| Wet1Team.UpdateTeamGamesPlayed | Wet1/Team.cpp:114-117 | only the team's game counter changes, by one |
| Wet1Team.ResetTeamGamesPlayed | Wet1/Team.cpp:119-122 | only the team's game counter changes, to zero |
| Wet1Team.PlayRounds | Wet1/Team.cpp:114-122 | n matches raise the counter by n and nothing else, and a reset afterwards gives what a reset before would |
| Wet1Cup.AddPlayer | Wet1/worldcup23a1.cpp:69-163 | invalid input exactly on the source's checks; failure exactly on a taken player id or a missing team; otherwise the player is added with the given games as its actual games, and its team counts it and adds goals minus cards to its match score |
| Wet1Cup.AddPlayerPlayable | Wet1/worldcup23a1.cpp:134-160 | the team becomes playable exactly when the new player makes it legal; no team stops being playable |
| Wet1Cup.AddPlayerConsistent | Wet1/worldcup23a1.cpp:69-163 | after `add_player` every team's counters still count its players and goalkeepers |
| Wet1Cup.AddPlayerKeepsGames | Wet1/worldcup23a1.cpp:69-163 | `add_player` changes no other player's actual games |
| Wet1Cup.PlayMatch | Wet1/worldcup23a1.cpp:254-285 | invalid input exactly on non-positive or equal ids; failure exactly when a team is missing or not legal; on success only the two teams change |
| Wet1Cup.PlayMatchPoints | Wet1/worldcup23a1.cpp:267-279 | the higher match score gets 3 points, a draw 1 each; surpluses and player counts stay |
| Wet1Cup.PlayMatchSymmetric | Wet1/worldcup23a1.cpp:254-285 | swapping the two team ids gives the same outcome |
| Wet1Cup.PlayMatchGames | Wet1/worldcup23a1.cpp:254-285 | a match adds one game for exactly the players of the two teams and keeps the counters right |
| Wet1Cup.NumPlayedGames | Wet1/worldcup23a1.cpp:287-299 | invalid input on a non-positive id, failure on an unknown one, and otherwise the player's actual games |
| Wet1List.ListRemove | Wet1/worldcup23a1.cpp:632-645 | unlinking a node changes the links of its two neighbours only; `RemoveUnthreads` and `RemoveLinkAt` state what they become |
| Wet1List.ListInsert | Wet1/worldcup23a1.cpp:615-630 | linking a node gives it the tree predecessor and successor as neighbours and changes no other node but those two; `InsertThreads` states the resulting order |
| Wet1List.RemoveUnthreads | Wet1/worldcup23a1.cpp:632-645 | unlinking a node leaves the rest of the list threaded in the same order |
| Wet1List.RemoveLinkAt | Wet1/worldcup23a1.cpp:632-645 | unlinking a node redirects exactly its two neighbours past it |
| Wet1List.InsertThreads | Wet1/worldcup23a1.cpp:615-630 | linking a new node between its tree predecessor and successor threads it in at that place |
| Wet1List.RemoveThenInsert | Wet1/worldcup23a1.cpp:228-247 | unlinking a node and linking it back between the same neighbours gives the original threading |
| Wet1List.SetPrev | Wet1/worldcup23a1.cpp:622-625 | only the named node's back link changes, and only when it exists |
| Wet1List.SetNext | Wet1/worldcup23a1.cpp:626-629 | only the named node's forward link changes, and only when it exists |
| Wet1Closest.Abs | Wet1/worldcup23a1.cpp:609-613 | the result is non-negative and is a or -a |
| Wet1Closest.Nearer | Wet1/worldcup23a1.cpp:520-545 | the chain picks one of the two neighbours |
| Wet1Closest.NearerIsLexicographic | Wet1/worldcup23a1.cpp:520-545 | the chain picks the next player exactly when it is strictly nearer by goals gap, then cards gap, then id gap, then larger id |
| Wet1Closest.NearerIsNearest | Wet1/worldcup23a1.cpp:520-545 | the neighbour not picked is never strictly nearer than the one picked |
| Wet1Closest.NearerIsSymmetric | Wet1/worldcup23a1.cpp:520-545 | with distinct ids, which neighbour is "next" does not change the answer |
| Wet1Closest.Closest | Wet1/worldcup23a1.cpp:502-545 | the first player gets the second, the last the one before it, and anyone else one of its two neighbours |
| Wet1Closest.ClosestIsNearestNeighbour | Wet1/worldcup23a1.cpp:502-545 | the answer is a neighbour in the global order, and no neighbour is strictly nearer |
| Wet1Closest.IndexOf | Wet1/worldcup23a1.cpp:497 | the position found holds the player |
| Wet1Closest.GetClosestPlayer | Wet1/worldcup23a1.cpp:483-546 | invalid input on non-positive ids; failure exactly when there is only one player, the team is missing, or the player is not in that team; otherwise the id of the nearer neighbour in the global order by the goals, cards, id and larger-id chain: no neighbour is strictly nearer |
| Wet1Unite.Merge | Wet1/worldcup23a1.cpp:748-772 | the merge output is a permutation of its two inputs, sorted when both are |
| Wet1Unite.MergeSeqPermutes | Wet1/worldcup23a1.cpp:748-772 | the merge takes every element of both inputs exactly once |
| Wet1Unite.MergeSeqSorted | Wet1/worldcup23a1.cpp:748-772 | merging two sorted inputs under a weak order gives a sorted output |
| Wet1Unite.TakeFirst | Wet1/worldcup23a1.cpp:752-766 | when the first input's head is smaller, or the second is used up, the merge starts with that head |
| Wet1Unite.TakeSecond | Wet1/worldcup23a1.cpp:758-770 | otherwise the merge starts with the second input's head |
| Wet1Unite.IdLessIsWeak | Wet1/worldcup23a1.cpp:754 | comparing players by id is a weak order |
| Wet1Unite.LessIsWeak | Wet1/worldcup23a1.cpp:830 | `operator<` on players is a weak order |
| Wet1Unite.Fold | Wet1/worldcup23a1.cpp:733-746 | folding keeps a player's actual games, rank and goalkeeper flag and moves it to the new team |
| Wet1Unite.FoldTeam | Wet1/worldcup23a1.cpp:733-746 | the loop over one team's players folds each one and adds their goals minus cards to the new team's match score |
| Wet1Unite.UniteCounters | Wet1/worldcup23a1.cpp:728-746 | the new team has the summed points, player and goalkeeper counts and no games; its surplus is both teams' goals minus cards; every player keeps its actual games and rank and joins the new team |
| Wet1Unite.UniteKeepsMatchScore | Wet1/worldcup23a1.cpp:728-746 | when each old team's match score is its points plus its players' goals minus cards, the new team's match score is the sum of the old two |
| Wet1Unite.FoldKeepsOrder | Wet1/worldcup23a1.cpp:728-746 | folding keeps an array sorted by id or by `operator<` sorted |
| Wet1Unite.UnitePlayers | Wet1/worldcup23a1.cpp:689-864 | both merged arrays hold exactly the folded players of the two teams; the id array is sorted by id and the rank array by `operator<` |
| Wet1Knockout.SimulateMatch | Wet1/worldcup23a1.cpp:680-687 | the winner is the higher score (the second on a tie) and carries both scores plus 3 |
| Wet1Knockout.Pairwise | Wet1/worldcup23a1.cpp:590-596 | one round halves the field, rounding up |
| Wet1Knockout.PairwiseAt | Wet1/worldcup23a1.cpp:590-596 | block m of the next round is the match of blocks 2m and 2m+1, or block 2m alone when it has no partner |
| Wet1Knockout.PairwiseFacts | Wet1/worldcup23a1.cpp:590-596 | a round keeps only ids that took part and adds 3 points per match played |
| Wet1Knockout.ChampionFacts | Wet1/worldcup23a1.cpp:588-603 | the champion is one of the entrants, and its score is the total of all scores plus 3 per match |
| Wet1Knockout.LevelChampion | Wet1/worldcup23a1.cpp:588-600 | playing some rounds first does not change the champion |
| Wet1Knockout.PlayRound | Wet1/worldcup23a1.cpp:590-596 | the inner loop for a stride i turns the blocks at stride i into the next round's blocks at stride 2i |
| Wet1Knockout.PlayPair | Wet1/worldcup23a1.cpp:592-595 | one inner iteration plays the next pair of blocks and keeps everything else |
| Wet1Knockout.Tournament | Wet1/worldcup23a1.cpp:588-603 | the doubling loops leave the champion in cell 0; it is an entrant whose score is the total plus 3 per match |
| Wet1Knockout.Entries | Wet1/worldcup23a1.cpp:581-586 | each tournament cell holds a team's id and match score |
| Wet1Knockout.RunIsRange | Wet1/worldcup23a1.cpp:556-565 | in ascending order, the run of teams from the first id at least min up to max is exactly the teams with ids in the range |
| Wet1Knockout.FindField | Wet1/worldcup23a1.cpp:556-565 | the scan from `findEqOrGreater` finds exactly the teams with ids in range, as a contiguous run |
| Wet1Knockout.BuildEntries | Wet1/worldcup23a1.cpp:579-586 | the filled array holds the entries of the field |
| Wet1Knockout.KnockoutWinner | Wet1/worldcup23a1.cpp:549-604 | invalid input exactly on a negative bound or min > max; failure exactly when no playable team is in range; otherwise the champion of the field, which is a playable team in range |

## Left out

- Memory management (`new`, `delete`, destructors, `release`, `releaseValues`) and the `ALLOCATION_ERROR` paths are left out. The model has no allocation failure.
- `operator=` of the trees, and node identity, are left out. A node is a path from the root. Parent pointers are not stored: the climbs of `balanceInsert`, `balanceRemove`, `findNext` and `findPrevious` become recursion, or index arithmetic on the in-order sequence.
- `updateParent` is not a member of its own. A rotation returns the rebuilt subtree, which the caller puts in place. Its intermediate `updateRank` of the parent is superseded by the retrace's own refresh.
- The part-one tree has no subtree count. The model keeps one that part-one code never reads.
- `permutation_t` is any group given by its operations. Its composition, inverse and neutral element are not modelled.
- The part-two world cup orchestration (Wet2/worldcup23a2.cpp) is not part of this model. Only its data structures are modelled.
- `add_team`, `remove_team`, `remove_player`, `get_team_points`, `get_top_scorer`, `get_all_players_count` and `get_all_players` of part one are not part of this model. They only combine the tree operations that are modelled.
- The keeping of the top scorer is not modelled.
- 32-bit integers are unbounded in the model. Overflow of sums, of `abs(INT_MIN)` and of the hash's `%` does not arise in the model.
- Hash.H: requires a non-negative id. A negative id gives a negative bucket index in the source, and every caller rejects such ids before hashing.
- Wet1Closest.GetClosestPlayer: the global order of all players is a parameter, listed in `operator<` order. The linked-list walk that reaches a player's neighbours is modelled separately in `Wet1List`.
- Wet1Cup.AddPlayer: `playableTeams` and the team list threaded through it are not stored in the cup. `Playable` derives them as the set of legal teams, and `AddPlayerPlayable` states how `add_player` changes that set. The tree insertion and `listInsert` themselves are the `AvlInsert` and `Wet1List` members.
- `unite_teams` (Wet1/worldcup23a1.cpp:349-381) replaces the two teams in `teams` and `playableTeams`, unlinks them from the team list, and links the new team in when it is legal. Only its counters and player merges (`Wet1Unite`) are modelled; these steps are the tree and list operations above.
- Wet1Knockout.KnockoutWinner: the playable teams are a parameter, listed in id order. `findEqOrGreater` and the `next` walk become a scan of that sequence.
- AvlRemove.RemoveAsWritten: it does not state AVL balance or correct heights. As written, the retrace can leave stale heights above a rotation, as shown under Findings.
- UnionFind.Find: its spirit guarantees are stated only for a true group. Without group laws the offsets `find` writes mean nothing.
- Wet1Unite.UnitePlayers: the arrays are taken as given. `arrayInOrder` and the rebuild by `generateTree` are the `AvlQuery` and `AvlBuild` members.

## Findings

| source | as written | input that shows it | evidently intended | confidence | as-written member | corrected member |
|---|---|---|---|---|---|---|
| Wet1/AVLTree.h:477-488 (also Wet2/AVLTree.h:355-372) | `balanceRemove` stops climbing as soon as the current node's height did not change. After `balance` rotates, `curNode` is the demoted node. The next step reaches the new subtree root, whose height the rotation already recomputed, so the loop stops there. The subtree may now be one level lower, and every ancestor above it keeps its old cached height. | keys 1,2,3,4,5,7,8,9 in the tree with root 5, left subtree 3 over (2 over 1) and 4, right subtree 8 over 7 and 9; remove 4: the rotation at 3 shrinks the left subtree, and the root's cached height stays 3 while its true height is 2 | keep climbing while the height of the subtree rooted at the current position changed, measured after the rotation | not executed | AvlSample.StaleHeightAfterRemove, AvlRemove.RemoveAsWritten | AvlRemove.Remove |
