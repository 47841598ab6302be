# Battleship core in Dafny

This project models the core of a console Battleship game. There are three parts.

- **Ship catalogue** (`Game.cpp`). Ship kinds are registered with ids 0..n-1. Each kind has a length, a symbol and a name.
- **Board** (`Board.cpp`). A character grid plus a list of placed-ship records. `'.'` is empty, `'X'` is a hit or a blocked cell, `'o'` is a miss, and any other character is a ship symbol.
- **Computer players** (`Player.cpp`). There are three strategies:
  - AwfulPlayer walks the cells backwards.
  - MediocrePlayer places ships by deterministic backtracking and targets a cross around its last hit.
  - GoodPlayer places ships by random backtracking. It targets by a probability-density scan, then hunts along chains of hits.

## Files

- `game.dfy`: points, directions and the catalogue. The catalogue's linked list is a `Catalog` value, newest node first. The `GameImpl` and `Game` classes add kinds in place.
- `board.dfy`: `BoardImpl`, a class over an `array2<char>` with the ship list as a `seq`. `Valid()` ties the two together: every ship-symbol cell lies on the footprint of a record with that symbol.
- `awful.dfy`, `mediocre.dfy`, `good.dfy`: one class per player. Each class keeps its own attack grid as an `array2`, plus its state fields.

## Modelling choices

- **Randomness** is a parameter:
  - `block` takes a coin function of the cell.
  - MediocrePlayer's attempts take a coin function of (attempt, row, column).
  - GoodPlayer's `placeRec` reads its draws from a stream `draw(cursor)`.
  - The unbounded retry loops become a pick of some untried cell, with that cell's existence required.
- **Original-vs-model differences**:
  - The players and boards read a `Catalog` snapshot rather than a `Game` reference.
  - MediocrePlayer's `placeRec` scans down each column first, as the source does.
- **GoodPlayer's if-else probe cascades** are modelled as a search, in order, for the first candidate that is inside the grid and not yet attacked. Each guard of the source (`cl < cols - 1`, `r1 > 0`, …) is implied by that in-grid test. A read the source would make outside its grid counts as "not open".
- **`pos.size() > length`** compares an unsigned size with an `int`. It is modelled as `length >= 0 && |pos| > length`, so the unknown-length sentinel -1 never splits a chain.

## Model

| member | source | states |
|---|---|---|
| Game.FindNode | Game.cpp:107-113 | The walk finds a node exactly when one with that id exists, and the node found has that id. |
| Game.Catalog.IsValid | Game.cpp:71-74 | Definition: a point is valid when its row and column lie inside the grid. Board.BoardImpl.IsValidInGrid ties it to the board's grid. |
| Game.Catalog.Lookup | Game.cpp:107-132 | In a valid registry a registered id finds the node at position nShips-1-id of the newest-first list; an unregistered id finds nothing. |
| Game.Catalog.ShipLength | Game.cpp:107-114 | The stored length (positive) for a registered id; -1 exactly for an unregistered one. |
| Game.Catalog.ShipSymbol | Game.cpp:116-123 | The stored symbol, which is never '.', 'X' or 'o', for a registered id; '?' otherwise. |
| Game.Catalog.ShipName | Game.cpp:125-132 | The stored name for a registered id; "" otherwise. |
| Game.WithKind | Game.cpp:90-99 | The new node gets id = old nShips, goes in front, and nShips grows by one. |
| Game.DistinctKinds | Game.cpp:86-88 | Two different registered ids have different names and different symbols. |
| Game.AddedKindLookup | Game.cpp:90-99 | After an add, the new id answers with the new length, symbol and name, and every other id answers as before. |
| Game.GameImpl.constructor | Game.cpp:45-51 | An empty, valid catalogue of the given dimensions. |
| Game.GameImpl.FindClash | Game.cpp:86-88 | True exactly when some node has the same symbol or the same name. |
| Game.GameImpl.AddShip | Game.cpp:81-100 | Succeeds exactly when the length is positive and fits one dimension, the symbol is not reserved, and no symbol or name clashes. On success the catalogue becomes WithKind of the old one: the node is prepended with id = old nShips and nShips grows by 1. Otherwise nothing changes. The registry invariant is kept. |
| Game.Game.constructor | Game.cpp:241-254 | A valid, empty catalogue for dimensions of at least 1. |
| Game.Game.ScanKinds | Game.cpp:306-316 | Reports a clash exactly when some kind has the symbol; without a clash the total is the sum of all lengths. |
| Game.Game.AddShip | Game.cpp:281-323 | Succeeds exactly when the length is at least 1 and fits one dimension, the symbol is printable ASCII and not reserved, the symbol and name are new, and the total length stays within rows*cols. On success the node is prepended; otherwise nothing changes. Total length ≤ rows*cols is preserved as an invariant. |
| Board.FindName | Board.cpp:107-110 | The index of the first record with the name, or the list length when there is none. |
| Board.FindSymbol | Board.cpp:249-250 | The index of the first record with the symbol, or the list length when there is none. |
| Board.ShotsOnlyView | Board.cpp:222-224 | The shots-only view never shows a ship symbol, and shows '.', 'X' and 'o' as they are. |
| Board.Unblocked | Board.cpp:82-83 | No 'X' survives, and every other cell is kept, so a second unblock changes nothing. |
| Board.FillCells | Board.cpp:44-46 | Every cell of the array becomes the given value. |
| Board.UnlinkAt | Board.cpp:183-185 | Removing the m-th record shortens the list by one, keeps the records before it, shifts those after it, and removes exactly that record from the multiset. |
| Board.Unlink | Board.cpp:183-185 | Definition: the list without its m-th record, the unlinking intended. Board.UnlinkAt states its effect. |
| Board.UnlinkAsWritten | Board.cpp:158-185 | The unlink as the source writes it agrees with removing the found record, except when the found record is the second one. |
| Board.UnlinkSecondLosesHead | Board.cpp:183 | For the second record, the unlink as written drops the first two records, whereas the intended removal keeps the first. |
| Board.BoardImpl.constructor | Board.cpp:38-48 | An all-'.' grid of the catalogue's size, no ships, and shipsLeft = nShips. |
| Board.BoardImpl.ResetCells | Board.cpp:44-46 | Every cell becomes '.'. |
| Board.BoardImpl.Clear | Board.cpp:58-64 | Every cell becomes '.'; the ship list and shipsLeft are kept. |
| Board.BoardImpl.Block | Board.cpp:66-75 | Each cell becomes 'X' where the coin comes up, whatever it held, and is kept elsewhere; the board invariant holds. |
| Board.Blocked | Board.cpp:71-74 | Definition: the cell block leaves, 'X' where the coin came up and the old cell elsewhere. |
| Board.BoardImpl.Unblock | Board.cpp:77-85 | Each 'X', hits included, becomes '.'; every other cell is kept. |
| Board.BoardImpl.IsValidPlacement | Board.cpp:138-151 | True exactly when every footprint cell is '.'. |
| Board.BoardImpl.FindByName | Board.cpp:107-110 | The walk stops at the first record with the name. |
| Board.BoardImpl.Paint | Board.cpp:125-133 | Exactly the footprint cells take the character; the rest of the grid is unchanged. |
| Board.BoardImpl.PlaceShip | Board.cpp:87-136 | Succeeds exactly when CanPlace holds: the id is known, the footprint lies on the grid and is all '.', and no record has the name. On success a record with health = length, the origin, direction, id and symbol is prepended, and exactly the footprint takes the symbol, so the new record is Painted. Only '.' cells ever change. On failure the grid and list are unchanged. shipsLeft is unchanged either way. |
| Board.BoardImpl.Insert | Board.cpp:112-135 | For a placement that is allowed, the new record goes in front of the list and exactly the footprint cells take the ship's symbol. These cells were '.', so no other cell changes, the new record is Painted, and the board invariant holds again. |
| Board.BoardImpl.CanPlace | Board.cpp:89-110 | Definition of the success condition of placeShip: a known id, a footprint on the grid that is all '.', and no record with the kind's name. PlaceShip succeeds exactly when it holds. |
| Board.BoardImpl.Painted | Board.cpp:125-133 | Definition: every cell covered by one of the first n records holds that record's symbol, as placeShip paints it. |
| Board.BoardImpl.PaintedNext | Board.cpp:125-133 | Painted(n), plus record n's cells holding its symbol, gives Painted(n + 1). |
| Board.BoardImpl.UnplaceShip | Board.cpp:153-190 | Succeeds exactly when the id is known and the record with its name has this origin and direction. On success that record is removed and exactly its footprint becomes '.'. On failure nothing changes. |
| Board.BoardImpl.CanUnplace | Board.cpp:155-169 | Definition of the success condition of unplaceShip: a known id, and the first record with its name has this origin and direction. UnplaceShip succeeds exactly when it holds. |
| Board.BoardImpl.UnplaceHead | Board.cpp:153-190 | unplaceShip of the record at the head of the list always succeeds. It removes exactly that record and returns exactly its footprint to '.'. |
| Board.BoardImpl.SameKind | Board.cpp:161-169 | A placed record with a kind's name is a record of that kind, since names are unique in the catalogue. |
| Board.BoardImpl.AddedRecord | Board.cpp:104-123 | Prepending a record of a registered kind whose name is not on the board keeps the record invariants. |
| Board.BoardImpl.RemoveOwner | Board.cpp:171-187 | A cell owned by some record that the removed record does not cover is still owned after the removal. |
| Board.BoardImpl.RemovedRecords | Board.cpp:183-187 | Removing any record keeps the record invariants. |
| Board.BoardImpl.HitRecord | Board.cpp:251-253 | Decrementing a record's health keeps the board invariant. |
| Board.BoardImpl.FindBySymbol | Board.cpp:249-250 | The walk stops at the first record with the symbol. |
| Board.BoardImpl.Attack | Board.cpp:232-270 | The shot is accepted exactly when the game's isValid holds for it and the cell is neither 'o' nor 'X'. A rejected shot changes no cell, no record and no count. An empty cell becomes 'o' (a miss). A ship cell becomes 'X' and its record loses one health. The ship is destroyed exactly when health reaches 0; then shipsLeft drops by one and shipId is that ship's id. No other cell changes. |
| Board.BoardImpl.IsValidInGrid | Board.cpp:234 | On a valid board the game's isValid (Game.cpp:71-74) and the board's in-grid test agree. |
| Board.BoardImpl.HitShip | Board.cpp:245-260 | For an in-grid ship cell, the cell becomes 'X' and no other cell changes. The first record with the cell's symbol exists and loses one health. The ship is destroyed exactly when that health reaches 0; then shipsLeft drops by one and the id is that record's id. |
| Board.BoardImpl.MarkHit | Board.cpp:246-247 | The hit cell becomes 'X', no other cell changes, and the board invariant still holds. |
| Board.BoardImpl.Damage | Board.cpp:251-257 | Record k loses one health and no other record changes. It is destroyed exactly when that health reaches 0; then shipsLeft drops by one and the record's id is reported. |
| Board.BoardImpl.AllShipsDestroyed | Board.cpp:272-278 | True exactly when the number of attacks that destroyed a ship has reached the number of registered kinds. |
| Board.PlaceThenUnplace | Board.cpp:87-190 | A successful placeShip followed by unplaceShip with the same arguments succeeds and restores the grid, the ship list and shipsLeft. |
| Awful.IndexInjective | Player.cpp:39-52 | In-grid cells have distinct row-major positions in 0..rows*cols-1. |
| Awful.CellOfIndex | Player.cpp:39-52 | Every row-major position is the position of an in-grid cell. |
| Awful.AwfulPlayer.constructor | Player.cpp:27-28 | The walk starts at (0, 0). |
| Awful.AwfulPlayer.RecommendAttack | Player.cpp:39-52 | Always an in-grid cell, one position back in row-major order modulo rows*cols: it wraps from (0, 0) to (rows-1, cols-1). |
| Awful.AwfulPlayer.PlaceShips | Player.cpp:30-37 | On success ship k lies horizontally at (k, 0) for every k, newest first, in front of the old list. |
| Mediocre.MediocrePlayer.constructor | Player.cpp:187-194 | An all-'.' attack grid, state 1. |
| Mediocre.MediocrePlayer.PlaceRec | Player.cpp:196-224 | On success ships k..n-1 have been added, newest first. Every ship placed is Painted: each of ships k..n-1 holds its symbol on its footprint. Only '.' cells change. On failure the ship list and the grid are exactly as on entry. |
| Mediocre.MediocrePlayer.TryPlace | Player.cpp:205-215 | As PlaceRec, for one direction at one origin: on success ships k..n-1 are added and Painted, and only '.' cells change. A placed ship whose rest fails is unplaced again, leaving the board as on entry. |
| Mediocre.MediocrePlayer.RecurseOrUndo | Player.cpp:206-214 | After ship k is placed and painted: either the rest succeeds, ships k..n-1 are Painted and only '.' cells change; or ship k is removed and exactly its footprint returns to '.'. |
| Mediocre.MediocrePlayer.PlaceShips | Player.cpp:226-236 | At most 50 attempts. Success leaves every ship placed and Painted, and no 'X' on the board. Failure leaves the ship list unchanged and the grid all '.'. |
| Mediocre.MediocrePlayer.OpenInColumn | Player.cpp:271-275 | True exactly when some cell of the column range is '.'. |
| Mediocre.MediocrePlayer.OpenInRow | Player.cpp:280-285 | True exactly when some cell of the row range is '.'. |
| Mediocre.MediocrePlayer.CrossStillOpen | Player.cpp:248-285 | The two exhaustion scans find an open cell exactly when the cross around the last hit still has one. |
| Mediocre.MediocrePlayer.ScanIsCross | Player.cpp:250-285 | The exhaustion scans find an open cell exactly when the cross of half-width 4 around the last hit, clipped to the grid, has one. |
| Mediocre.MediocrePlayer.RecommendAttack | Player.cpp:242-325 | The cell returned was '.', is now '*', and is the only change. State 2 persists exactly when the cross around the last hit still has an open cell, and the shot then lies in that cross. State 1 stays 1. |
| Mediocre.MediocrePlayer.RecordAttackResult | Player.cpp:327-350 | An invalid shot or a miss changes nothing. A kill sets state 1 and lastAttacked (-1, -1). A first non-destroying hit sets state 2 and lastAttacked = p; a later one keeps lastAttacked. |
| Good.FirstChainWithId | Player.cpp:498-501 | The first chain with the id, or the list length when there is none. |
| Good.FirstLive | Player.cpp:811-817 | The first chain not destroyed, or the list length. |
| Good.FirstWithLength | Player.cpp:726-730 | The first remaining entry of the length, destroyed or not, or the list length. |
| Good.FirstSentinel | Player.cpp:514-516 | The first -1 coordinate, or the length. |
| Good.InitialRemaining | Player.cpp:648-656 | One undestroyed entry per kind, ids n-1 down to 0, each with its catalogue length. |
| Good.GoodPlayer.constructor | Player.cpp:619-657 | State 1, target -1, no chains, an all-'.' attack grid, zero densities, and the initial remaining list. |
| Good.GoodPlayer.CheckFit | Player.cpp:429-451 | True exactly when the footprint stays within the far edge and every footprint cell is '.'. |
| Good.GoodPlayer.HitsAttacked | Player.cpp:463-476 | An attacked cell lies on no fitting placement. |
| Good.GoodPlayer.RowSumAttacked | Player.cpp:463-476 | An attacked cell gains nothing from the placements of one row. |
| Good.GoodPlayer.GridSumAttacked | Player.cpp:463-476 | An attacked cell gains nothing from the placements of the whole grid. |
| Good.GoodPlayer.DensityZeroAtAttacked | Player.cpp:459-477 | An attacked cell has density 0. |
| Good.GoodPlayer.AddFootprint | Player.cpp:467-474 | Exactly the footprint cells gain one. |
| Good.GoodPlayer.AccumulateShip | Player.cpp:463-476 | Each cell gains the number of fitting placements over all origins and both directions that cover it. |
| Good.GoodPlayer.AccumulateRow | Player.cpp:463-476 | Each cell gains the number of fitting placements with an origin in the given row that cover it. |
| Good.GoodPlayer.AccumulateOrigin | Player.cpp:465-475 | Each cell gains the number of directions in which a ship at this origin fits and covers it. |
| Good.GoodPlayer.FillDensity | Player.cpp:459-477 | Each cell's density is the number of (undestroyed remaining entry, origin, direction) triples passing checkFit whose footprint covers it. |
| Good.GoodPlayer.ArgMaxDensity | Player.cpp:481-491 | The peak is the largest density, at least 0. When it is positive, the cell holds it and every earlier cell in row-major order is smaller. When it is 0, the cell is (0, 0). |
| Good.GoodPlayer.ScanAttack | Player.cpp:461-494 | The densities are filled; the shot is the first cell of maximal positive density, which was not attacked before, or (0, 0) when none is positive. It is marked '*' and no other cell changes. |
| Good.GoodPlayer.FirstOpen | Player.cpp:519-603 | The index of the first open candidate, or the number of candidates. |
| Good.GoodPlayer.FirstOpenOf | Player.cpp:519-603 | The loop finds the first open candidate. |
| Good.GoodPlayer.MarkShot | Player.cpp:525 | The shot cell becomes '*'; no other cell changes. |
| Good.GoodPlayer.Probe | Player.cpp:519-603 | The first open candidate is attacked and marked '*'; with none open nothing changes. |
| Good.GoodPlayer.Hunt | Player.cpp:496-604 | No chain with the target id gives (0, 0), left unmarked. For a chain of two or more hits, the first open line probe is tried. If none is open, the chain is split after its first hit and the first open cell up/left/down/right of the first hit is tried. A single hit tries that cross directly. The chain of the target id persists. |
| Good.GoodPlayer.HuntChain | Player.cpp:509-604 | The probes and split for the target chain, as in Hunt. |
| Good.GoodPlayer.SplitTarget | Player.cpp:567-580 | The hits after the first one move to a new front chain with the next id. The target keeps naming a chain that exists, and nothing else changes. |
| Good.GoodPlayer.RandomAttack | Player.cpp:606-614 | Some cell not attacked yet is chosen and marked '*'. |
| Good.GoodPlayer.FindSpot | Player.cpp:453-617 | State 1 fills the densities and shoots the first cell of maximal positive density, or (0, 0) when no density is positive. State 2 hunts: (0, 0) with no target chain; otherwise the first open line probe, or, after the split, the first open cross probe. When the hunt finds nothing open it falls back to a random open cell. The shot was open unless it is (0, 0). Only the shot's cell changes, and it is marked unless the target chain is missing. The tracked target is kept. |
| Good.GoodPlayer.PlaceRec | Player.cpp:393-427 | On success ships k..n-1 have been added, newest first. Every ship placed is Painted: each of ships k..n-1 holds its symbol on its footprint. Only '.' cells change. On failure, including more than 1000 calls along one path, the ship list and the grid are exactly as on entry. |
| Good.GoodPlayer.TryPlace | Player.cpp:405-424 | The drawn placement of ship k is kept only when the rest succeeds; ships k..n-1 are then Painted and only '.' cells change. Otherwise the board is as on entry. |
| Good.GoodPlayer.RecurseOrUndo | Player.cpp:406-422 | After ship k is placed and painted: either the rest succeeds, ships k..n-1 are Painted and only '.' cells change; or ship k is removed and exactly its footprint returns to '.'. |
| Good.GoodPlayer.PlaceShips | Player.cpp:680-685 | Every ship placed and Painted on success; nothing changed on failure. |
| Good.GoodPlayer.RecordAttackResult | Player.cpp:693-825 | An invalid shot or a miss changes nothing. With no chain of the target id, a hit creates the chain [p] with the id one past the last chain's and targets it. Otherwise p is appended to the target chain. On a kill the chain is closed and the first entry of the sunk length is struck off. If the chain then holds more hits than that length, its marked run splits off and the unmarked hits form a new targeted chain; otherwise the first live chain becomes the target (state 2), or state 1 with target -1. After any hit the state-2 target names an existing chain. |
| Good.GoodPlayer.CloseChain | Player.cpp:722-819 | The kill branch of RecordAttackResult, as stated there. |
| Good.GoodPlayer.ExtendChain | Player.cpp:718-819 | A hit on the target chain is appended to it. Without a kill nothing else changes; with a kill the chain is closed as in CloseChain. The hunt target still names an existing chain. |
| Good.Retarget | Player.cpp:736-819 | When the closed chain holds more hits than the sunk length, its run is marked, and the unmarked hits form a new front chain with the next id, which becomes the target in state 2. Otherwise the target is the first live chain (state 2), or state 1 with target -1 when none is live. In state 2 the target always names an existing chain. |
| Good.SplitKilled | Player.cpp:736-803 | The marked chain is the marking walk's result, and the kept hits are its unmarked points in order. |
| Good.SplitFront | Player.cpp:566-578 | The new head chain, with id one more, takes the hits after the first; the old chain keeps only its first hit; together they hold the old hits in order; other chains are unchanged. |
| Good.FindChain | Player.cpp:498-501 | The walk stops at the first chain with the id. |
| Good.RecentEndOf | Player.cpp:514-517 | The coordinate just before the first -1 sentinel, or 0. |
| Good.RecentEnd | Player.cpp:514-517 | Definition: the coordinate just before the first -1 sentinel, or 0. Good.RecentEndOf computes it with the source's loop. |
| Good.LineProbesOf | Player.cpp:509-563 | The line probes, in the order the cascades try them. |
| Good.LineProbes | Player.cpp:509-563 | Definition: the row probes (past the recent end, then beside the first hit) when the first two hits share a row, then the column probes when they share a column. Good.LineProbesOf computes it with the source's loops, and Hunt tries them in this order. |
| Good.CrossProbes | Player.cpp:581-603 | Definition: up, left, down and right of the first hit, the order Hunt tries them in. |
| Good.MoveTail | Player.cpp:572-577 | The erase loop leaves the first hit and moves the rest over in order. |
| Good.FindTarget | Player.cpp:699-705 | The first chain with the target id; when there is none, the last id visited (-1 for no chains), whose successor is the new id. |
| Good.GoodPlayer.NextId | Player.cpp:699-708 | Definition: one past the id of the last chain, or 0 with no chains. FindTarget returns its predecessor, and RecordAttackResult uses it as the new chain's id. |
| Good.FindLive | Player.cpp:811-817 | The walk stops at the first live chain. |
| Good.FindLength | Player.cpp:726-730 | The walk stops at the first entry of the length. |
| Good.StrikeOff | Player.cpp:725-732 | Only the first entry of the length is touched, and it is marked destroyed even if it already was. |
| Good.FirstWithCoord | Player.cpp:756-762 | The first point whose compared coordinate equals the key, or the length. |
| Good.MarkSteps | Player.cpp:752-798 | The walk keeps the chain's length. |
| Good.MarkKilled | Player.cpp:736-798 | The kill split keeps the chain's length. |
| Good.Survivors | Player.cpp:800-803 | Only unmarked points survive, and no more of them than there were points. |
| Good.SurvivorsMembers | Player.cpp:800-803 | A point survives exactly when it was in the chain and is unmarked. |
| Good.FindCoord | Player.cpp:756-762 | The search finds the first point with the key. |
| Good.MarkRun | Player.cpp:752-798 | The marking loops compute the marking walk. |
| Good.SurvivorsOf | Player.cpp:800-803 | The copy loop keeps exactly the unmarked points, in order. |
| Good.RunWalk | Player.cpp:752-798 | On a straight run of hits already marked from hit cur+1 on, `steps` more marking steps from hit cur leave the hits marked from cur+1-steps on. |
| Good.WalkStep | Player.cpp:752-798 | On a straight run marked from hit cur+1 on, one marking step from hit cur moves to hit cur-1 with hit cur marked as well. |
| Good.RunPrevious | Player.cpp:752-798 | On a straight run the search for the hit one step back from hit cur stops exactly at hit cur-1. |
| Good.RunWalkFromEnd | Player.cpp:752-798 | On a straight run, `steps` marking steps from the kill shot mark exactly the last `steps` hits. |
| Good.RunMarks | Player.cpp:736-798 | On a straight run, the kill split marks exactly the last `length` hits. |
| Good.RunUnmarked | Player.cpp:800-803 | Hits on the grid never carry the -10 mark. |
| Good.SurvivorsOfMarked | Player.cpp:800-803 | When no hit was marked before, marking every hit from index `from` on leaves exactly the first `from` as survivors, in order. |
| Good.StraightRunSplit | Player.cpp:733-810 | When the hits form a straight contiguous run ending with the kill shot and outnumber the sunk ship's length, the new chain is exactly the hits before the last `length` ones, in order. |

## Left out

- Game.Catalog.ShipLength, Game.Catalog.ShipSymbol, Game.Catalog.ShipName: Game.cpp:330-345 wrap these lookups in `assert(shipId >= 0 && shipId < nShips())`, and the board reaches them through the game (Board.cpp:89, 106, 122, 155, 159). In a build with assertions an unregistered id therefore aborts the program. The model follows the build without assertions: the lookups answer -1, '?' and "", and PlaceShip and UnplaceShip fail.
- `GameImpl::play` and `Game::play`: the turn loop is console orchestration.
- `BoardImpl::display`, apart from the per-cell mask `ShotsOnlyView`: printing.
- HumanPlayer, `getLineWithTwoIntegers`, `createPlayer`, `randInt` and `randomPoint`: console input, string dispatch and the random source. Random choices are parameters instead.
- The `exit(1)` paths: the `Game` constructor's dimension checks become a precondition (rows, cols ≥ 1). The MAXROWS/MAXCOLS bounds are not modelled, because the grids are allocated at their exact size.
- Destructors and linked-list memory management: the lists are sequences.
- Console messages printed by `Game::addShip`: only the verdict is modelled.
- `GoodPlayer::recordAttackByOpponent`, the state-3 code and the `nShots` counter: disabled or never read.
- GoodPlayer's `m_grid`, `myShips` and health bookkeeping: written but never read.
- AwfulPlayer's `recordAttackResult` and `recordAttackByOpponent`, and MediocrePlayer's `recordAttackByOpponent`: they have empty bodies.
- MediocrePlayer's random sample inside the window reaches one row or column past the grid. The model keeps the clamp to rows/cols in `Greatest`, but draws the sample only from in-grid cells. The out-of-range read does not fit a fixed-size array model.
- The unbounded random retry loops (Player.cpp:288-308, 314-321, 606-614) terminate only with probability 1. Each becomes a pick of an untried cell and requires that one exists.
- Good.GoodPlayer.FindSpot: requires an open cell whenever the state is 2. The source needs one only when the random fallback is reached.
- Good.GoodPlayer.Hunt: a target chain with no hits would make the source read past an empty vector. The model falls through to the random pick instead. A probe the source would read outside its grid counts as not open.
- Good.StraightRunSplit: proved for straight runs in increasing order only. A chain that wraps or mixes ships is covered only by the general definitions MarkKilled and Survivors.

## Findings

| source | as written | input that shows it | evidently intended | confidence | as-written member | corrected member |
|---|---|---|---|---|---|---|
| Board.cpp:183 | `if (ptr2 == head) head = ptr->next;` treats "the trailing pointer is still the head node" as "the found record is the head". That also holds when the found record is the second node. | Place ship A, then ship B, so the list is B, A; then unplace A. The list becomes empty, and B's record is lost while its cells stay painted. | Remove only the found record: reset the head when the found record is the head, otherwise relink its predecessor. | not executed | Board.UnlinkSecondLosesHead | Board.BoardImpl.UnplaceShip |
