# connect4 — a verified model of the engine core

This project models the engine of `connect4.c`, a Connect Four player that uses Monte Carlo tree search.
It covers every part of the file except `main` and the board printer `connect4_display`:

- the 7-by-6 bitboard and the rules for dropping a piece (`connect4_valid`, `connect4_drop`);
- the table of winning windows that `connect4_startup` builds, and the win test `connect4_check` that reads it;
- the two pseudo-random generators, xoroshiro128+ and splitmix64;
- the engine state `struct connect4`. Its node buffer has a free list threaded through `next[0]`, managed by `connect4_alloc` and `connect4_free`;
- `connect4_init` and `connect4_advance`;
- one playout (`connect4_playout`): the UCB1 descent, the random expansion and the random rollout;
- `connect4_playout_many`, which runs playouts and then recommends a move.

Modules follow the program's structure:

| module | file | contents |
|---|---|---|
| `Bits` | bits.dfy | 64-bit cell masks and their arithmetic |
| `Board` | board.dfy | board, legality, landing cell, soundness of positions |
| `Prng` | prng.dfy | xoroshiro128+, splitmix64, seeding |
| `WinTable` | wintable.dfy | the window table and the win test |
| `Forest` | forest.dfy | node references, the node record, the ghost tree and the allocator's invariant |
| `Search` | search.dfy | the column scans of a playout and the final recommendation |
| `Simulation` | simulation.dfy | scores, picking by the generator, single moves, the rollout, and the tree-versus-game invariant |
| `Engine` | engine.dfy | class `Connect4`: the buffer, allocation, freeing, init, advance and playouts |

The engine is a class whose methods update fields in place:

- The node buffer is an `array<NodeData>`, and the generator state is an `array<bv64>` of length two.
- Two ghost fields carry the proofs. `tree` is the shape of the tree below `root`. `freeList` is the free list in order.
- `Valid()` states four things:
  - the free list is chained through `next[0]`;
  - the tree is linked to the buffer and keeps its per-column bookkeeping;
  - no node is both in the tree and free, or appears twice in either;
  - `nodes_allocated` plus the free list's length equals `nodes_available`.
- `Valid()` also requires every child in the tree to describe the game truthfully (`Consistent`):
  - a win marker sits under a move that completed a line;
  - the draw marker sits under a move that filled the board;
  - a child node describes the position after its move, with the other player to move.

The pure parts are functions and lemmas. The loops of the source are methods with loop invariants, each proved against a specification function:

- `Startup` against `Windows`;
- `Check` against `WinsIn`;
- `LegalTotal` against `LegalPlayouts`;
- `BestRatio` against `Recommends`.

## Model

| member | source | states |
|---|---|---|
| Board.ValidPlay | connect4.c:97-102 | A column is legal exactly when it is one of the seven columns and its top cell is empty. |
| Board.Landing | connect4.c:104-115 | The landing cell lies on the board, in the played column. |
| Board.LandingRowStops | connect4.c:104-115 | Every cell from the scan's start down to the landing cell is empty. Below it is the floor or a taken cell. |
| Board.LandingUnique | connect4.c:104-115 | Any row with the stopping property above is the landing row, so the landing cell is determined. |
| Board.Drop | connect4.c:104-115 | The scan returns the landing cell. |
| Board.LandingFree | connect4.c:97-115 | In a legal column the landing cell is empty. |
| Board.PlaySound | connect4.c:191-192 | Dropping into a legal column keeps the position sound: pieces rest on pieces or the floor, and the masks are disjoint and on the board. The move adds exactly the landing cell. |
| Board.PlayFills | connect4.c:191-192 | A move leaves one empty cell fewer. |
| Board.SomeColumnOpen | connect4.c:92-102 | A sound position that is not full has a legal column. |
| Board.FullWhenTaken | connect4.c:92-93 | The union of the two players' masks is the full board exactly when every cell is taken. |
| Prng.RotlIsRotation | connect4.c:15-19 | `rotl` by 55 and by 36 is a true 64-bit rotation. |
| Prng.Xoroshiro128Plus | connect4.c:21-31 | Returns the wrapped sum of the two state words. Replaces the state in place with the generator's next state. |
| Prng.StepBijective | connect4.c:21-31 | The generator's step has an inverse on both sides, so distinct states have distinct successors. |
| Prng.StepZero | connect4.c:21-31 | The all-zero state is the only state that steps to zero. |
| Prng.NonZeroForever | connect4.c:21-31 | From a nonzero state, no number of steps reaches the all-zero state. |
| Prng.MixInvertible | connect4.c:33-40 | splitmix64's output function is invertible on 64-bit words. |
| Prng.Seed | connect4.c:178-180 | The generator state is the two successive splitmix64 draws from the seed. |
| Prng.SeedStateNonZero | connect4.c:178-180 | Whatever the seed, the two seeded words differ, so the state is never all zero. |
| WinTable.DeltaTable | connect4.c:47-49 | Direction `d`'s column and row steps are entries `2d` and `2d+1` of the delta table. |
| WinTable.Mirror | connect4.c:47-49 | Each direction has an opposite in the table. Directions 4..7 mirror into 0..3. |
| WinTable.BuildWindow | connect4.c:55-66 | The innermost loop's mask is the window's four cells. Its flag says whether all four lie on the board. |
| WinTable.WindowsUpToStep | connect4.c:57-68 | A visited window is appended to the cell's row exactly when it lies on the board. |
| WinTable.VisitWindow | connect4.c:54-69 | One visit extends the row to the masks kept up to that visit. |
| WinTable.BuildRow | connect4.c:51-71 | A cell's row is every on-board window through it, in visiting order. |
| WinTable.Startup | connect4.c:44-73 | Every cell's row of the table holds exactly its windows. |
| WinTable.KeptCount | connect4.c:50-68 | A row holds one mask per on-board window visited. |
| WinTable.Check | connect4.c:81-95 | A win is reported exactly when some scanned slot holds a window the mover completes. `how` is the first such window, or 0. A draw is reported exactly when there is no win and the board is full. |
| WinTable.WinIsLine | connect4.c:81-90 | A window found by the win test is a four-in-a-line through the cell. |
| WinTable.LineIsWin | connect4.c:81-90 | Every four-in-a-line through the cell is found among the 16 slots the test scans. |
| WinTable.CheckSeesEveryLine | connect4.c:42-95 | The win test on a cell's row succeeds exactly when the mover has four in a line through that cell. |
| WinTable.OverflowAtCell17 | connect4.c:42-68 | Cell 17 has 26 windows for 16 slots. Its 17th store lands in row 18's first slot. |
| WinTable.WindowHoldsCell | connect4.c:54-68 | Every mask in a cell's row is a window of four on-board cells through that cell, and it holds the cell itself. |
| Forest.RefOf | connect4.c:117-120 | A reference is a node exactly for an inner tree, and NULL exactly for an empty child. |
| Forest.Fresh | connect4.c:145-150 | A freshly allocated node has no children, no playouts and no score in any column. |
| Forest.Credit | connect4.c:256-261 | Crediting a column changes only that column's child, count and score. |
| Forest.CreditCounted | connect4.c:256-290 | A credit keeps the node's bookkeeping: a column has playouts exactly when it has a child, and its score is between zero and its count. |
| Search.Unexpanded | connect4.c:218-223 | The options are, in increasing order, exactly the legal columns without a child. |
| Search.OpenColumns | connect4.c:296-301 | The rollout's options are, in increasing order, exactly the legal columns. |
| Search.OpenColumnsNonEmpty | connect4.c:296-306 | In a position that is not full, the rollout always has an option. |
| Search.LegalTotal | connect4.c:227-230 | The total is the sum of the legal columns' counts, and no legal column's count exceeds it. |
| Search.LegalPlayoutsBound | connect4.c:227-230 | Each legal column's count is part of the total. |
| Search.UcbCandidates | connect4.c:231-249 | The candidates are, in increasing order, exactly the legal columns of maximal UCB1 value. There is at least one when some column is legal. |
| Search.OpenNone | connect4.c:218-225 | An empty option list means every legal column already has a child. |
| Search.Expanded | connect4.c:235-237 | At a node whose legal columns all have children, every legal column has been played out, as the source asserts before it divides. |
| Search.BestRatio | connect4.c:333-344 | Returns -1 exactly when no column has playouts. Otherwise it returns a played column whose win rate no played column exceeds and no lower column equals. |
| Search.CreditLegal | connect4.c:256-257 | Crediting a legal column adds exactly one to the node's total over its legal columns. |
| Simulation.Reward | connect4.c:12-13 | A playout's reward lies between zero and a win's score. |
| Simulation.UcbCredit | connect4.c:258-261 | The credit after a UCB1 descent lies between zero and a win's score. |
| Simulation.UcbDrawCountsAsWin | connect4.c:258-261 | The UCB1 step credits a draw with a win's score, as it credits a win by the mover. That differs from the draw reward of the expansion and the rollout. For every other result it agrees with the reward. |
| Simulation.Gain | connect4.c:256-290 | The credit a playout gives its column depends on the branch taken. After a descent into an existing child, a draw earns a win's score. After an expansion, a draw earns the draw score. Every other result earns the mover's reward on both branches. |
| Simulation.Pick | connect4.c:265-268 | With one option, that option is taken and the generator is untouched. Otherwise one generator step is taken, and its output modulo the number of options selects the option. |
| Simulation.Move | connect4.c:269-274 | The move reaches the position after the drop, which is sound and has one empty cell fewer. A win is reported exactly when the move completes a line through its cell. A draw is reported exactly when there is no win and the board is full. |
| Simulation.MoveWins | connect4.c:274-284 | A winning move gives its player four in a line. |
| Simulation.RandomMove | connect4.c:296-311 | A random move is legal and reaches the position after it. Its outcome is truthful: win means a line, draw means a full board, and unresolved means the board is not full. |
| Simulation.MoverNext | connect4.c:294-322 | Under alternation each move is made by the other player from the previous move. Under repetition the first player makes every move. |
| Simulation.PlayedStep | connect4.c:294-322 | A legal move extends a legal game by one move, reaching the position after it. |
| Simulation.PlayingStart | connect4.c:292-293 | A rollout starts from the expanded position with no moves made. |
| Simulation.Turn | connect4.c:294-321 | One rollout turn: the other player makes a legal random move, the game stays legal, and the board fills. |
| Simulation.RandomPlay | connect4.c:294-323 | The corrected rollout loop plays a legal alternating game to its end. The last mover has a line, or the board is full. |
| Simulation.Rollout | connect4.c:292-323 | The corrected rollout plays a legal game, alternating from the opponent. The winner is the last mover and holds a line, or a draw fills the board. The expanded column earns the mover's reward. |
| Simulation.RandomPlayAsWritten | connect4.c:294-323 | As written, the opponent makes every rollout move. The game ends with the opponent's line or a full board. |
| Simulation.RolloutAsWritten | connect4.c:292-323 | As written, a rollout never ends in a win for the side that expanded. The expanded column never earns a win's score from it. |
| Simulation.WinMarker | connect4.c:283 | A win is recorded as one of the two win markers. |
| Simulation.ConsistentReplace | connect4.c:255-290 | Replacing a child by a subtree that truthfully describes the move keeps the tree consistent with the game. |
| Simulation.ConsistentKid | connect4.c:255-290 | A child of a consistent node sits under a legal column. It records its move truthfully, and a child node describes the position after that move. |
| Engine.RangeAt | connect4.c:181-183 | Position `k` of the initial free list is node `a + k`. |
| Engine.RangeCount | connect4.c:181-183 | Each index of the buffer occurs once on the initial free list. |
| Engine.RangeChain | connect4.c:181-183 | Nodes linked each to the next, the last to NULL, chain all indices in order from node 0. |
| Engine.RangeHead | connect4.c:184 | Node 0 heads the initial free list and does not recur in it. |
| Engine.InitValid | connect4.c:168-185 | One fresh root over the empty board, with all other nodes free, satisfies the engine invariant. |
| Engine.Connect4.constructor | connect4.c:168-185 | Init leaves an empty board with player 0 to move, the generator seeded by splitmix64, node 0 as a fresh root, nodes 1 onward free in index order, and one node allocated. |
| Engine.Connect4.LinkAll | connect4.c:181-183 | The buffer becomes one free list of all nodes in index order. |
| Engine.Connect4.InitNodes | connect4.c:173-184 | After linking, the root is allocated from the list's head, and the invariant holds. |
| Engine.Connect4.Alloc | connect4.c:137-153 | With an empty free list, it returns NULL and changes nothing. Otherwise it pops the head, counts it allocated, and resets it to a fresh node. |
| Engine.Connect4.Free | connect4.c:155-166 | Freeing a subtree pushes its nodes on the free list in recursion order and uncounts them. It leaves every other node unchanged. Markers and NULL free nothing. |
| Engine.Connect4.FreeNode | connect4.c:158-165 | Freeing one node frees its children, then pushes the node itself. |
| Engine.Connect4.FreeKid | connect4.c:161-162 | One step of the child loop frees the next child's subtree. |
| Engine.Connect4.PushNode | connect4.c:163-164 | The node is pushed on top of the free list. |
| Engine.Connect4.Advance | connect4.c:187-201 | A legal move updates the board and passes the turn. The played child's subtree becomes the tree, with its nodes untouched; every other node is freed. With no child, the root is a fresh node. The invariant is kept. |
| Engine.Connect4.Reroot | connect4.c:194-200 | The root moves to the played child, or to a freshly allocated node when there is none. |
| Engine.Connect4.Cut | connect4.c:194-198 | The old root is detached from the played child and freed. The child's subtree is unchanged. |
| Engine.Connect4.Detach | connect4.c:194-197 | The root becomes the played child, and only the old root's pointer to it is cleared. |
| Engine.Connect4.Release | connect4.c:198 | Freeing the old root leaves exactly the played child's subtree allocated. |
| Engine.Connect4.Regrow | connect4.c:199-200 | With no child, the root is reallocated as a fresh node. |
| Engine.Connect4.Playout | connect4.c:203-325 | A marker returns its result, and nothing changes. At a node, the playout picks a column by the UCB1/expansion rule and credits it with one playout and the `Gain` of the branch taken. After a descent a draw counts as a win; after an expansion it counts as a draw. The tree only grows, by nodes from the free list. -1 means the buffer ran out and nothing changed. The rollout after an expansion is the corrected one (see Left out). |
| Engine.Connect4.Visit | connect4.c:217-263 | The playout expands while some legal column has no child, and otherwise descends by UCB1. Either way the column gains one playout and the `Gain` of the branch taken: the UCB1 credit after a descent, the reward after an expansion. |
| Engine.Connect4.Select | connect4.c:225-262 | The UCB1 branch descends into the child of a maximal-value legal column. It credits that column with one playout and the UCB1 credit, a win's score for a draw as well as for a win by the mover. |
| Engine.Connect4.Choose | connect4.c:227-250 | The UCB1 choice is a legal column of maximal value for the node's legal total, and it has a child. |
| Engine.Connect4.Descent | connect4.c:251-262 | The recursive playout runs in the child's position with the other player to move. Unless the result is -1, the column gains one playout and the UCB1 credit: a win's score for a draw or a win by the mover, zero otherwise. |
| Engine.Connect4.Attach | connect4.c:256-261 | The returned subtree replaces the child. The column gains one playout and the given gain, which is the `Gain` of the branch taken. On -1 nothing changes. |
| Engine.Connect4.Expand | connect4.c:263-268 | The expansion branch plays one of the legal columns without a child. |
| Engine.Connect4.Resolve | connect4.c:269-290 | The picked move is made. A win or draw is settled, and an undecided move grows the tree. |
| Engine.Connect4.Terminal | connect4.c:273-284 | A draw records the draw marker and returns 2. A win records the mover's win marker and returns the mover. |
| Engine.Connect4.Settle | connect4.c:275-283 | The marker goes under the column, and the column gains one playout and the mover's reward, the draw score for a draw. |
| Engine.Connect4.Grow | connect4.c:285-323 | A fresh node goes under the column, or -1 when the buffer is exhausted, with nothing changed. The column gains one playout and the reward of the corrected, alternating rollout (`Simulation.Rollout`), not the source's. |
| Engine.Connect4.PlayoutRoot | connect4.c:330-332 | A completed playout adds exactly one to the root's count over its legal columns and allocates at most one node. -1 means the free list was empty and nothing changed. |
| Engine.Connect4.PlayoutMany | connect4.c:327-345 | The playouts stop early only when the buffer is exhausted. The root's count grows by the number completed. The result is the move the root's statistics recommend (`Recommends`). The invariant, board, turn and root are kept. |

## Left out

**Not modelled**

- `main` and `connect4_display` are not modelled. They are terminal I/O and the interactive game loop.
- `connect4_init`'s `time(0)` seed is a parameter of the constructor. The buffer size becomes the length of the node array, which the caller allocates and passes in.
- The UCB1 formula (`mean + sqrtf(2 logf(total) / playouts)`, single-precision floating point) is the parameter `Search.Ucb`, a function of a column's score, count and node total into the reals. Every property holds for any formula. Float rounding, `-INFINITY`, and float ties are therefore not modelled.
- Scores and ratios are reals, not `float`/`double`. `SCORE_DRAW` is exactly 0.1.
- `connect4_playout` is the class's `Playout`, split into small methods that follow its branches. `Engine.Connect4.PlayoutRoot` calls `Visit` for the root directly, because the root is known to be a node there.
- `Engine.Connect4.Grow` updates the node once, after the rollout. The source links the node and counts the playout before the rollout and adds the score after it; the rollout reads and writes no node, so the final state is the same.
- The second UCB1 loop's `total += n->playouts[i]` (connect4.c:238) is not modelled. `numerator` has already been computed, so it changes nothing.
- `playouts_total` is kept in the node record and cleared on allocation. The source never reads it.

**Integer widths and undefined behaviour**

- `nodes_allocated`, `playouts` and the UCB1 `total` are unbounded naturals. The model does not represent the 32-bit wrap-around of these counters, which needs 2^32 playouts of one column.
- `connect4_valid` evaluates `1 << play` before its range check. The model tests the range first. It has no case for the undefined shift by a negative or too-large `play`.
- The 64-bit masks, the generator and splitmix64 are exact `bv64` arithmetic.

**Preconditions**

- Engine.Connect4.constructor: requires at least one node. With none, the source's `nodes_available - 1` wraps and init writes out of bounds.
- Engine.Connect4.Advance: requires the root to be a node and the move to be legal. The source asserts legality. A terminal marker as root would be indexed as a node.
- Engine.Connect4.PlayoutMany: requires the root to be a node and the board not to be full. These are the only positions where the source's playout reads a valid node with a move available.

**Weaker contracts**

- Simulation.RandomMove: does not state which column the generator selects, only that the move is legal and its outcome truthful. `Simulation.Pick` states the selection.
- Engine.Connect4.Playout: does not state the generator's final state, nor which of several tied or unexpanded columns is chosen. It states that the column satisfies the source's choice rule (`Chosen`).
- Engine.Connect4.PlayoutMany: does not state the generator's final state.
- Engine.Connect4.Grow: runs the corrected rollout `Simulation.Rollout`, in which the two players alternate, not the source's, in which the expander's opponent makes every move (connect4.c:295, 322; see Findings). After an expansion, the winner, the credited score and the generator's use therefore differ from the source's. The source's rollout is modelled and characterised by `Simulation.RolloutAsWritten`.
- Engine.Connect4.Playout: the same holds for every playout that ends in an expansion, since it calls `Grow`. Playouts that descend and settle are as the source writes them, including the UCB1 step's draw credit.
- WinTable.OverflowAtCell17: the model keeps each row as a list of all of its windows. It does not model the table's contiguous storage, in which a row's stores past slot 16 spill into the next rows. The win test reads only the first 16 masks of each row (`CheckSeesEveryLine`), which matches the C table only if every spilled store is later overwritten by that row's own stores, since rows are built in cell order. That is not proved here.

## Findings

The source scores a draw differently depending on the branch.

- After a UCB1 descent (connect4.c:258-261), a drawn playout adds a win's score to the column.
- After an expansion or a rollout (connect4.c:277, 315), a drawn playout adds `CONNECT4_SCORE_DRAW`.

The model reproduces this as written: see `Simulation.UcbCredit`, `Simulation.Gain` and `Simulation.UcbDrawCountsAsWin`. Whether it is intended cannot be decided from the source, so it is not listed as a finding.

| source | as written | input that shows it | evidently intended | confidence | as-written member | corrected member |
|---|---|---|---|---|---|---|
| connect4.c:294-322 | The rollout flips `turn` at the top of the loop and again after an undecided move, so the same player, the expander's opponent, makes every rollout move. | Any rollout of two or more moves. The expander never moves, so the `turn == original_turn` credit at line 318 is unreachable. | The two players alternate, and the expander's wins are credited. | not executed | Simulation.RolloutAsWritten | Simulation.Rollout |
| connect4.c:42-68 | Each cell's row has 16 slots, but `connect4_startup` stores every on-board window through the cell, up to 26. | Cell 17 (x = 3, y = 2) has 26 windows. Its 17th store lands in the first slot of row 18. | A row large enough for every window (the test needs only the first 16). | not executed | WinTable.OverflowAtCell17 | WinTable.CheckSeesEveryLine |
