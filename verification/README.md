# Retro arcade: game rules, relay and accounts in Dafny

This project models the rules of the high-school retro games arcade. That
means the games' state machines, the Socket.IO tic-tac-toe relay and the
account and subscription bookkeeping. Each part is a set of pure Dafny
functions over immutable datatypes. The game flows follow the code as
written, defects included. Where a defect is shown (see "## Findings"),
a repaired definition sits beside the as-written one with the intended
property proved about it. There is one module per source file or game:

- `TicTacToe`: the board, the eight winning lines and the win and draw
  tests shared by the relay and both browser copies.
- `Relay`: the `joinRoom`, `makeMove`, `resetGame`, `createRoom`,
  `getRooms` and `disconnect` handlers of api/socket.js over an explicit
  server state. Each handler returns the messages it emits.
- `LocalGame` and `PublicGame`: the browser tic-tac-toe of
  assets/js/game.js and public/assets/js/game.js. The public copy adds
  the online mode, the mirrored relay state and the automatic reset.
- `Game2048`: the 4x4 slide-and-merge game, its undo and its game-over
  test.
- `Tetris`: the well, the seven pieces, rotation, collision, line
  clearing, scoring and levels.
- `Solitaire`: the Klondike deck, the deal, the stock and the rules for
  moving to a foundation or a tableau column.
- `CheckersRules`: the board, move generation and move application
  shared by both checkers copies. `PublicCheckers` and `AssetCheckers`
  hold the two diverging controllers and their AIs.
- `BattleshipGame`: fleet placement, shots, sinking and the computer's
  turn.
- `Snake`: the 10x10 snake and its food, speed and score.
- `Minesweeper`: mine laying around the first click, neighbour counts,
  flood reveal, flags, win test and score.
- `Auth`: registration with referral credit, login, subscriptions, free
  weeks and referral statistics.
- `Util`: the shared option type, decimal printing and list helpers.

Some inputs are parameters of the functions that use them:

- every `Math.random()` draw, as an arbitrary natural number or a sequence
  of draws;
- the clock, as an integer or, in `Auth`, a calendar instant;
- what the multiplayer manager answers about whose turn it is.

Timers become explicit tick functions.

## Model

| member | source | states |
|---|---|---|
| TicTacToe.CheckWinIffThreeInARow | api/socket.js:79-95 | the scan over the eight listed index triples finds a line exactly when some row, column or diagonal holds three equal marks |
| TicTacToe.WinnerIsMover | api/socket.js:86-92 | on a board with no line, placing a mark can only complete a line of that mark, so the point always goes to the mover |
| TicTacToe.NewLineThroughMove | api/socket.js:86-92 | a line present after a placement but not before runs through the placed cell |
| TicTacToe.PlaceCounts | api/socket.js:75-76 | filling an empty cell adds one of the mover's marks, removes one empty cell and leaves the other mark's count alone |
| TicTacToe.FullIffNoEmpty | api/socket.js:98 | the draw test `every(cell => cell !== '')` holds exactly when no cell is empty |
| Util.DecimalString | api/socket.js:125 | the digits printed are the decimal expansion of the number, most significant first, reading back to it |
| Util.FiveDigitLength | api/socket.js:125 | every code in 10000..99999 prints with exactly five digits |
| Util.RemoveValue | api/socket.js:152 | deleting a key from an insertion-ordered map removes exactly that key, shortens the list by one when it was present, and keeps the keys distinct |
| Relay.EmptyServerValid | api/socket.js:18-19 | the empty room and session maps satisfy the server invariant |
| Relay.FindPlayer | api/socket.js:71 | `players.find` returns the first player with the id, and nothing exactly when no player has it |
| Relay.NewRoom | api/socket.js:28-40 | a new room has no players, an empty board, X to move, an active game, 0-0 scores and the creation time |
| Relay.NewPlayer | api/socket.js:47-52 | a joiner is X exactly when the room is empty, O otherwise, named "Player X" or "Player O" |
| Relay.AddPlayer | api/socket.js:45-55 | a connection already in the room changes nothing; otherwise it is appended after the existing players |
| Relay.Join | api/socket.js:25-62 | the room exists afterwards with the connection among its players; other rooms are untouched; the game state and then the player list are sent to the room |
| Relay.JoinUnseenRoom | api/socket.js:28-54 | joining an unknown id creates a fresh room in which the joiner is X |
| Relay.RejoinChangesNothing | api/socket.js:45-55 | a second join by the same connection adds no player and no session |
| Relay.JoinAssignsSymbol | api/socket.js:46-54 | the new player is X exactly when the room was empty, a third joiner also gets O, and the session records room and symbol |
| Relay.ApplyMove | api/socket.js:75-105 | the cell takes the mover's mark; a win stops the game and raises only the mover's score by one; a full board stops it; the turn passes exactly while the game goes on |
| Relay.Move | api/socket.js:65-110 | a move failing any guard changes nothing and sends nothing; an accepted one applies the move and broadcasts the new state to the room |
| Relay.MoveRejections | api/socket.js:69-75 | unknown room, unknown sender, wrong turn, out-of-range or occupied cell and finished game are each rejected without effect |
| Relay.AcceptedMoveEffect | api/socket.js:75-108 | an accepted move writes exactly one empty cell, credits only the mover on a win and keeps the scores on a draw |
| Relay.Reset | api/socket.js:113-121 | an unknown room is ignored; otherwise the board clears, X moves, the game is active and the state is broadcast |
| Relay.ResetKeepsScores | api/socket.js:113-121 | a reset keeps the running scores |
| Relay.Create | api/socket.js:124-127 | the reply is a five-digit code between 10000 and 99999 sent to the requester only; the room store is not touched |
| Relay.Joinable | api/socket.js:131-137 | the listing holds exactly the rooms with fewer than two players, in store order |
| Relay.HeadOrder | api/socket.js:131-137 | a room listed from the head of the store comes before every room listed from the rest |
| Relay.ListRooms | api/socket.js:130-139 | one reply to the requester, with the store unchanged |
| Relay.ListRoomsExact | api/socket.js:130-139 | each listed entry is (id, player count, creation time) of a stored room with a free seat, and every such room is listed |
| Relay.RemovePlayer | api/socket.js:149 | the filter keeps exactly the players with another id and keeps ids distinct |
| Relay.Drop | api/socket.js:142-159 | a disconnect ends the session; the player leaves the room; an emptied room is deleted, otherwise the others get the new list |
| Relay.Handle | api/socket.js:21-160 | every handler preserves the server invariant (sessions point to rooms that list the player, ids distinct, games consistent) |
| Relay.JoinPreservesValid | api/socket.js:25-62 | `joinRoom` preserves the server invariant |
| Relay.ResetPreservesValid | api/socket.js:113-121 | `resetGame` preserves the server invariant |
| Relay.MovePreservesValid | api/socket.js:65-110 | `makeMove` preserves the server invariant |
| Relay.DropPreservesValid | api/socket.js:142-159 | `disconnect` preserves the server invariant |
| Relay.DropRemovesPlayer | api/socket.js:145-157 | after a disconnect the connection is no player of the room its session named |
| Relay.DiagonalScenario | api/socket.js:65-110 | two joiners get X and O; X playing 4, 2, 6 against O's 0 and 1 wins on the anti-diagonal, X's score becomes 1 and the game stops |
| Relay.OutOfTurnScenario | api/socket.js:72 | a move by the player whose symbol is not `currentPlayer` changes nothing and sends nothing |
| LocalGame.NewGameConsistent | assets/js/game.js:4-21 | the initial game satisfies the invariant: empty board, no moves, X to move |
| LocalGame.EmptyBoardFresh | assets/js/game.js:319-339 | the empty board has no line, is not full and has nine empty cells |
| LocalGame.HandleWin | assets/js/game.js:256-276 | the game stops and only the current player's score rises, by one |
| LocalGame.HandleDraw | assets/js/game.js:278-283 | the game stops, and the board, scores, turn and history are exactly as they were |
| LocalGame.SwitchPlayer | assets/js/game.js:313-317 | the turn passes to the other mark and nothing else changes |
| LocalGame.Play | assets/js/game.js:98-134 | an accepted move marks the cell, counts and records the move, then a win credits the mover, else a full board draws, else the other player moves |
| LocalGame.MakeMove | assets/js/game.js:98-134 | a move on a finished game or a non-empty cell is ignored |
| LocalGame.MakeMoveKeepsConsistent | assets/js/game.js:98-134 | a move keeps the invariant, and a winning move completes a line of the mover's mark only |
| LocalGame.MoveTouchesOneCell | assets/js/game.js:98-134 | an accepted move changes exactly one cell, from empty to the mover's mark |
| LocalGame.ResetGame | assets/js/game.js:319-339 | a reset gives an empty board, X to move, no moves and no history, and keeps the scores |
| LocalGame.ResetScore | assets/js/game.js:341-346 | a score reset yields the initial game |
| LocalGame.ResetScoreVersusResetGame | assets/js/game.js:319-346 | a score reset differs from a game reset only in the scores, and resetting after it changes nothing |
| LocalGame.FreeAmong | assets/js/game.js:159-167 | the filter keeps exactly the listed cells that are empty |
| LocalGame.Choose | assets/js/game.js:159-167 | a floor-of-random pick among n choices is one of them |
| LocalGame.RandomMove | assets/js/game.js:159-167 | the random move is -1 exactly on a full board, and otherwise an empty cell |
| LocalGame.RandomMoveReachesEveryCell | assets/js/game.js:159-167 | every empty cell is the random move for some draw |
| LocalGame.FirstCompleting | assets/js/game.js:169-195 | the trial-placement loop returns the first cell whose filling completes a line, and -1 when none does |
| LocalGame.BestMove | assets/js/game.js:169-214 | the heuristic returns -1 exactly on a full board, and otherwise an empty cell |
| LocalGame.BestMovePreference | assets/js/game.js:169-214 | the choice is the lowest O-winning cell, else the lowest X-blocking cell, else the centre, else a free corner, else a free edge |
| LocalGame.BestMoveWinIsForO | assets/js/game.js:169-195 | on a board nobody has won, the AI's winning cell really completes a line of O's |
| LocalGame.AIChoice | assets/js/game.js:136-157 | each difficulty's choice is -1 exactly on a full board, and otherwise an empty cell |
| LocalGame.MakeAIMove | assets/js/game.js:136-157 | the AI does nothing on a finished game and otherwise plays its choice for the current player |
| PublicGame.MakeMove | public/assets/js/game.js:691-748 | offline it plays as the local copy; online it never changes the local board and forwards the index exactly when the cell is playable and it is this client's turn |
| PublicGame.OfflineMoveMatchesLocalCopy | public/assets/js/game.js:691-748 | offline, the effective `makeMove` is the local copy's `makeMove` |
| PublicGame.AutoReset | public/assets/js/game.js:371-403 | the timer after a win or draw clears the board, gives X the move, reactivates and keeps the scores |
| PublicGame.ResetGame | public/assets/js/game.js:750-794 | online the reset goes to the relay and nothing changes locally; offline it is the local reset |
| PublicGame.ResetScore | public/assets/js/game.js:508-514 | the scores become 0-0 in both modes; offline the whole game is the initial one |
| PublicGame.UpdateFromServer | public/assets/js/game.js:669-689 | board, turn, active flag and scores are copied; a copied finished game with a line runs `handleWin`, crediting `currentPlayer` once more |
| PublicGame.MirroredWinCountsTwice | public/assets/js/game.js:669-689 | mirroring the broadcast of a winning relay move shows the mover two points above the room's score before the move |
| PublicGame.MakeAIMove | public/assets/js/game.js:181-235 | the AI acts only on an active game with O to move |
| PublicGame.AIMoveNeverFallsBack | public/assets/js/game.js:181-235 | the chosen cell is always valid unless the board is full, so the random fallback never plays, and offline the AI places exactly one O |
| Game2048.Compact | public/assets/js/2048.js:211 | the filter keeps the non-zero tiles, never lengthening the line |
| Game2048.MergeLine | public/assets/js/2048.js:209-229 | the merged line has four cells, tiles before gaps, the same tile total, and the highest tile never drops |
| Game2048.MergeLineLoop | public/assets/js/2048.js:209-229 | the splice-based loop computes the merged line, adds the fused values to the score and raises the highest tile as the recursive definition says |
| Game2048.MergePass | public/assets/js/2048.js:214-221 | the fusing loop yields the left-to-right pairwise fusion, its gain and its largest fused value |
| Game2048.PadLine | public/assets/js/2048.js:224-226 | padding appends exactly the zeros needed to reach four cells |
| Game2048.PairwiseSum | public/assets/js/2048.js:214-221 | fusing conserves the tile total |
| Game2048.PairwiseShape | public/assets/js/2048.js:214-221 | fusing never lengthens the line, keeps tiles non-zero, and keeps the length exactly when nothing fuses |
| Game2048.PairwiseIdentity | public/assets/js/2048.js:214-221 | on non-zero tiles the pass changes nothing exactly when no two neighbours are equal, and then earns nothing |
| Game2048.MergeLineChange | public/assets/js/2048.js:209-229 | a line the merge changes ends in a free cell; a line it leaves alone earns no score and raises no tile |
| Game2048.MoveLeft | public/assets/js/2048.js:151-161 | a left slide conserves the tile total and leaves every row packed to the left |
| Game2048.RightIsMirroredLeft | public/assets/js/2048.js:163-175 | a right slide is a left slide of the mirrored board, mirrored back |
| Game2048.UpIsTransposedLeft | public/assets/js/2048.js:177-190 | an up slide is a left slide of the transposed board, transposed back |
| Game2048.DownIsTransposedRight | public/assets/js/2048.js:192-207 | a down slide is a right slide of the transposed board, transposed back |
| Game2048.SlideConservesSum | public/assets/js/2048.js:119-149 | a slide in any direction conserves the tile total |
| Game2048.SlideChange | public/assets/js/2048.js:119-149 | in every direction, a slide that changes the board leaves a free cell, and one that changes nothing earns nothing |
| Game2048.AddRandomTile | public/assets/js/2048.js:73-94 | a full board is unchanged; otherwise exactly one empty cell becomes 2 or 4 and the total rises by that tile |
| Game2048.GameOverMeansStuck | public/assets/js/2048.js:231-261 | when no cell is empty and no neighbours are equal, no direction changes the board |
| Game2048.StuckLine | public/assets/js/2048.js:209-229 | a full line with no equal neighbours merges to itself |
| Game2048.ShowScore | public/assets/js/2048.js:269-283 | the best score becomes the larger of the old best and the current score, and nothing else changes |
| Game2048.Move | public/assets/js/2048.js:119-149 | a finished game refuses; otherwise the state is saved for undo even if nothing moves; only a change counts the move and spawns a tile |
| Game2048.MoveSum | public/assets/js/2048.js:119-149 | an effective move raises the tile total by exactly the spawned tile |
| Game2048.Undo | public/assets/js/2048.js:106-117 | with nothing saved nothing changes; otherwise board, score and moves come back, game over clears and undo is spent |
| Game2048.UndoReversesMove | public/assets/js/2048.js:96-117 | undo right after a move attempt restores the board, score and move count from before it |
| Game2048.Reset | public/assets/js/2048.js:28-41 | a reset zeroes score and moves, sets the highest tile to 2, clears undo and game over, keeps the best score, and leaves exactly two tiles, each 2 or 4, on two different cells |
| Game2048.StartBoard | public/assets/js/2048.js:28-41 | two tiles spawned in turn on the empty grid total 4 to 8 and sit on two different cells, each 2 or 4, with every other cell empty |
| Game2048.StartHasTwoTiles | public/assets/js/2048.js:73-94 | two single-tile spawns in a row on an empty grid leave exactly two tiles, on two different cells |
| Game2048.ResetScore | public/assets/js/2048.js:292-297 | a score reset forgets the best score and changes nothing else |
| Game2048.NoDoubleMerge | public/assets/js/2048.js:214-221 | a fused tile does not fuse again in the same pass: 2,2,2,2 gives 4,4 and 2,2,4 gives 4,4 |
| Game2048.SlideExamples | public/assets/js/2048.js:209-229 | tiles close gaps before fusing, and alternating unequal tiles never fuse |
| Tetris.ShapeOf | assets/js/tetris.js:38-94 | each of the seven shapes of the table is a non-empty rectangle with at least one block |
| Tetris.Spawn | assets/js/tetris.js:181-189 | a new piece carries its kind's shape and colour, sits on the top row, and is centred by `floor(width/2) - floor(shapeWidth/2)` |
| Tetris.SpawnFitsEmptyBoard | assets/js/tetris.js:181-189 | every freshly spawned piece fits an empty well |
| Tetris.Rotate | assets/js/tetris.js:398-410 | an r x c shape becomes c x r, with `shape[y][x]` moving to `[x][r-1-y]`, a quarter turn clockwise |
| Tetris.RotateTwice | assets/js/tetris.js:398-410 | two quarter turns give the half-turned shape |
| Tetris.RotateFourTimes | assets/js/tetris.js:398-410 | four quarter turns give back the original shape |
| Tetris.IsValidMoveIff | assets/js/tetris.js:358-396 | the cell scan accepts exactly when every filled cell stays inside the side walls, above the floor and off occupied cells, rows above the top being allowed |
| Tetris.ValidDropAboveFloor | assets/js/tetris.js:358-396 | a piece that can drop one row is not yet at the floor |
| Tetris.StampEffect | assets/js/tetris.js:412-428 | placing paints exactly the in-well cells under the piece's blocks with its colour; parts above the top are dropped |
| Tetris.ClearLines | assets/js/tetris.js:451-482 | afterwards no row is full, the kept rows keep their order at the bottom, one empty row per cleared line sits on top, and the count is the number of full rows |
| Tetris.ClearNothing | assets/js/tetris.js:451-482 | a well without full rows is unchanged and clears nothing |
| Tetris.CheckLinesLoop | assets/js/tetris.js:451-464 | the bottom-up splice-and-push loop, re-examining the same row after a removal, computes the declarative clear |
| Tetris.LevelSpeed | assets/js/tetris.js:470-474 | the drop interval after a level-up is at least 100 ms and never above the base speed |
| Tetris.Award | assets/js/tetris.js:465-476 | lines rise by the count and score by 100 per line times the old level; the level follows `floor(lines/10)+1` upward only, and the speed changes only with the level |
| Tetris.NewGame | assets/js/tetris.js:100-124 | a new game has an empty well, zero score, lines and pieces, and is neither running nor paused |
| Tetris.Reset | assets/js/tetris.js:651-689 | a reset gives a fresh level-1 game that fits its first piece and keeps the best score and highest level |
| Tetris.ResetScore | assets/js/tetris.js:691-703 | a score reset sets best score 0 and highest level 1 and changes nothing else |
| Tetris.GameOver | assets/js/tetris.js:617-649 | the game stops, and the best score and highest level rise to the current ones if these are higher |
| Tetris.Place | assets/js/tetris.js:412-449 | placing stamps the piece and clears the full rows, so the well is the cleared stamp with no full row; lines rise by the rows cleared and score by 100 per line times the old level, the level and speed follow the award; the piece count rises, the next piece is promoted and a new one drawn; the game ends exactly when the promoted piece collides at spawn |
| Tetris.PlaceKeepsConsistent | assets/js/tetris.js:412-449 | placing keeps the level tied to the lines and the speed to the level |
| Tetris.MovePiece | assets/js/tetris.js:484-492 | the piece moves exactly when the shifted piece fits, and nothing changes otherwise |
| Tetris.RotateCurrent | assets/js/tetris.js:494-509 | the piece turns exactly when the turned piece fits where it stands, and nothing changes otherwise |
| Tetris.MovesKeepFit | assets/js/tetris.js:484-509 | a piece that fits keeps fitting after any move or turn attempt |
| Tetris.HardDrop | assets/js/tetris.js:511-523 | the piece falls exactly as far as it can, scores 2 per row fallen, and is then placed |
| Tetris.Tick | assets/js/tetris.js:588-615 | a stopped or paused game does not change; otherwise the piece falls one row if it fits, else it is placed |
| Tetris.TickPlacesOnlyResting | assets/js/tetris.js:588-615 | a piece placed by a tick rests on the floor or on a filled cell under one of its blocks |
| Solitaire.CreateDeck | assets/js/solitaire.js:68-81 | the fresh deck holds 52 cards |
| Solitaire.DeckLayout | assets/js/solitaire.js:68-81 | card k of the fresh deck is the face-down rank k mod 13 + 1 of the k div 13-th suit |
| Solitaire.DeckIsComplete | assets/js/solitaire.js:68-81 | every suit and rank occurs exactly once, and a card's slot and its suit and rank determine each other |
| Solitaire.Shuffle | assets/js/solitaire.js:83-88 | the Fisher-Yates pass returns a permutation of the deck for any draws |
| Solitaire.FacesPermutation | assets/js/solitaire.js:83-88 | a permuted deck shows the same multiset of card faces |
| Solitaire.Deal | assets/js/solitaire.js:90-106 | column c gets c+1 cards with only the last turned up, and the remaining 24 cards form a face-down stock |
| Solitaire.DealKeepsFaces | assets/js/solitaire.js:90-106 | the deal places every card of the deck exactly once |
| Solitaire.NewGame | assets/js/solitaire.js:674-696 | a new game has empty foundations and waste, columns of 1 to 7 cards, a 24-card stock, the level's undo limit and zeroed counters |
| Solitaire.NewGameHoldsDeck | assets/js/solitaire.js:674-696 | a game dealt from a shuffled deck holds the 52 distinct cards |
| Solitaire.SaveMoveForUndo | assets/js/solitaire.js:560-586 | nothing is saved when undo is off; otherwise the entry goes on top and the stack never grows past the level's limit |
| Solitaire.Recycle | assets/js/solitaire.js:207-226 | an empty stock takes the whole waste back, reversed and face down |
| Solitaire.ClickStock | assets/js/solitaire.js:207-226 | a non-empty stock turns its top card face up onto the waste and counts a move; an empty one takes the waste back; no card is created or lost |
| Solitaire.RevealTop | assets/js/solitaire.js:434-450 | a face-down card left on top of a column is turned up for 5 points, and nothing else changes |
| Solitaire.RemoveCardFromPile | assets/js/solitaire.js:434-450 | the waste or a foundation loses exactly its last card; a column loses exactly the card at the index, the others keeping their order, its new top is turned up, and 5 points are added exactly when that top was face down; stock, moves and undo history are kept |
| Solitaire.RemoveCardsFromPile | assets/js/solitaire.js:452-465 | a column keeps exactly the cards below the index, its new top turned up with the reveal bonus; any other pile loses only its last card; stock, moves and undo history are kept |
| Solitaire.MoveToFoundation | assets/js/solitaire.js:328-382 | the move happens exactly when the card is an ace on an empty foundation or the next of the suit and the level allows the source; the card leaves its pile as `removeCardFromPile` takes it, lands on top of the foundation, the other foundations and the stock are kept, and the score rises by the level bonus plus the reveal bonus |
| Solitaire.MoveToTableau | assets/js/solitaire.js:384-414 | the run moves exactly when its bottom card is a king on an empty column or of the opposite colour and one lower than the top; it leaves its pile as `removeCardsFromPile` cuts it and is appended to the target column; the score rises only by the 5-point reveal of a face-down card left on top of a source column; the stock, the foundations and the other columns are those left by the removal |
| Solitaire.TryMove | assets/js/solitaire.js:311-326 | as written: with no card there is no move; a refused move changes nothing; an accepted move is exactly the foundation move or the tableau move for its target |
| Solitaire.TryMoveTopOnly | assets/js/solitaire.js:311-382 | the repaired click move: it only ever accepts moves the source accepts, with the same effect; a move from a column to a foundation takes the column's top card; every other move is the source's |
| Solitaire.Spliced | assets/js/solitaire.js:434-450 | splicing out an index inside the column drops exactly that card and keeps the cards on both sides in order; an index outside leaves the column |
| Solitaire.RevealBonus | assets/js/solitaire.js:434-450 | the reveal earns 5 points exactly when a card is left and the new top was face down, and 0 otherwise |
| Solitaire.MoveToFoundationKeepsCards | assets/js/solitaire.js:328-382 | a move to a foundation from any selectable card neither creates nor loses a card |
| Solitaire.MoveToTableauKeepsCards | assets/js/solitaire.js:384-414 | a move to a column from any selectable card neither creates nor loses a card |
| Solitaire.CheckWin | assets/js/solitaire.js:473-482 | with 52 cards on the foundations the game is won with a 1000-point bonus, and otherwise nothing changes |
| Solitaire.WinMeansEverythingHome | assets/js/solitaire.js:473-482 | in a game holding the 52 cards, the win test fires exactly when stock, waste and tableau are empty |
| Solitaire.MoveToFoundationTopOnly | assets/js/solitaire.js:328-382 | from a column only its top card may go to a foundation; otherwise the move is the source's |
| Solitaire.TopOnlyTakesTheTop | assets/js/solitaire.js:434-450 | under the top-only rule a move from a column removes exactly its top card and keeps every card |
| Solitaire.BuriedCardReachesFoundation | assets/js/solitaire.js:328-382 | as written, a 2 of spades under an ace of hearts goes up onto the ace of spades and leaves the ace of hearts behind |
| CheckersRules.InitialBoard | public/assets/js/checkers.js:20-41 | the opening board has a black man on each dark square of rows 0-2, a red man on each dark square of rows 5-7, and nothing else |
| CheckersRules.InitialCounts | public/assets/js/checkers.js:20-41 | each side starts with twelve pieces |
| CheckersRules.InitialLayout | public/assets/js/checkers.js:20-41 | every opening piece is an uncrowned man on a dark square, black ones on rows 0-2 and red ones on rows 5-7 |
| CheckersRules.SetCount | public/assets/js/checkers.js:305-316 | writing one square changes a colour's count by exactly what left that square and what arrived |
| CheckersRules.Directions | public/assets/js/checkers.js:158-218 | every direction a piece may move in is one row up or down |
| CheckersRules.ValidMovesIff | public/assets/js/checkers.js:158-218 | a move is listed for a square exactly when it is a legal step onto an empty diagonal or a legal jump over an opposing piece onto an empty square, in the piece's directions |
| CheckersRules.LegalIsApart | public/assets/js/checkers.js:158-218 | a legal move changes row, and a captured piece lies on neither the start nor the landing row |
| CheckersRules.ApplyMove | public/assets/js/checkers.js:223-244 | the piece lands (crowned on the far row), its old square and a jumped piece are emptied, and no other square changes |
| CheckersRules.ApplyMoveCounts | public/assets/js/checkers.js:223-244 | a legal step keeps both counts; a legal jump keeps the mover's count and removes exactly one opposing piece |
| CheckersRules.AllPiecesIff | public/assets/js/checkers.js:317-328 | a square is listed for a colour exactly when a piece of that colour stands on it |
| CheckersRules.HasMoveIff | public/assets/js/checkers.js:282-304 | the side has a move, as the win check asks, exactly when some piece of it has a legal move |
| CheckersRules.UniqueDestination | public/assets/js/checkers.js:223-226 | two legal moves of one piece to the same square are the same move, so finding a move by its destination is unambiguous |
| CheckersRules.FindGenerated | public/assets/js/checkers.js:223-226 | looking up a listed move by its destination returns that very move |
| CheckersRules.FindMove | public/assets/js/checkers.js:223-226 | a found move is in the list and ends on the clicked square; when none is found no listed move ends there |
| CheckersRules.AllMovesIff | public/assets/js/checkers.js:339-402 | the AI's move list holds exactly the legal moves of the side, each with its piece |
| CheckersRules.AllMovesEmptyIff | public/assets/js/checkers.js:339-402 | the AI's move list is non-empty exactly when the side has a move |
| CheckersRules.FirstBest | public/assets/js/checkers.js:430-496 | the best-move scan returns the first entry of highest score: none scores more, and every earlier one scores less |
| CheckersRules.CheckWin | public/assets/js/checkers.js:282-304 | no red pieces means black wins; otherwise no black pieces means red wins; otherwise the game goes on exactly when the named side can move, and if it cannot its opponent wins |
| CheckersRules.ResetGame | public/assets/js/checkers.js:560-573 | a reset gives the opening board, red to move, no selection, no moves played, and keeps both scores |
| CheckersRules.ResetScore | public/assets/js/checkers.js:574-580 | both scores go to zero and the game restarts as a reset would |
| CheckersRules.SwitchPlayer | public/assets/js/checkers.js:532-537 | the turn passes to the opponent and nothing else changes |
| CheckersRules.HandleWin | public/assets/js/checkers.js:329-338 | the game stops on the same board, and the side the win check names gains exactly one point |
| CheckersRules.SelectPiece | public/assets/js/checkers.js:124-144 | selecting a square highlights exactly that square's legal moves |
| CheckersRules.Deselect | public/assets/js/checkers.js:145-153 | deselecting clears the selection and its highlights |
| CheckersRules.MakeMoveAsWritten | public/assets/js/checkers.js:223-281 | as written: without a selection or on an unhighlighted square nothing changes; otherwise the move is played and counted and the selection cleared, the win check asks about the side that just moved, the turn passes only when it finds no winner, and a winner found gains exactly one point |
| CheckersRules.MakeMoveAsWrittenOutcome | public/assets/js/checkers.js:223-281 | as written, a move that leaves the game active leaves both sides pieces, the mover a move, and the turn with the opponent; a move that ends it adds exactly one point in total and keeps the turn with the mover |
| CheckersRules.AsWrittenAgreesWhenNoneStuck | public/assets/js/checkers.js:259-264 | when after the move the win check finds no winner for either side, the as-written and the repaired moves give the same game |
| CheckersRules.MoverStuckEndsGame | public/assets/js/checkers.js:261-264 | as written, a red man stepping to (1,0) beside a lone black man on (0,1) ends the game with a point for black, though black can still move; with the turn passed first, the game goes on with black to move |
| CheckersRules.MakeMove | public/assets/js/checkers.js:223-281 | the repaired rule, with the turn passed before the win check: a highlighted move is played, counted, clears the selection and passes the turn; the game stays active exactly when the side now to move has not lost |
| CheckersRules.MakeMoveIsLegal | public/assets/js/checkers.js:223-226 | on a game whose highlights match its selection, any move played is a legal move of the side to move |
| CheckersRules.SelectAndMove | public/assets/js/checkers.js:124-281 | selecting a piece and clicking one of its generated destinations plays that move and counts it; the turn passes exactly when the win check on the mover finds no winner, and the game stays active exactly when it was active and no winner is found |
| CheckersRules.MakeMoveLeavesAMove | public/assets/js/checkers.js:223-281 | under the repaired rule, after a move that leaves the game active both sides have pieces and the side to move can move; a move that ends it adds exactly one point in total |
| CheckersRules.Click | public/assets/js/checkers.js:97-123 | clicking one's own piece selects it; a highlighted square of the selection plays the as-written move; an empty square that is not highlighted clears the selection; an opposing piece that is not highlighted changes nothing |
| CheckersRules.ClickKeepsCoherent | public/assets/js/checkers.js:97-153 | every click keeps the selection and its highlighted moves in agreement |
| PublicCheckers.HandleCellClick | public/assets/js/checkers.js:97-123 | a finished game, or AI mode with black to move, ignores the click; otherwise the click is played |
| PublicCheckers.HumanPlaysOnlyRedAgainstAI | public/assets/js/checkers.js:97-123 | in AI mode a click that changes the board was made with red to move and a red piece selected |
| PublicCheckers.MakeAIMove | public/assets/js/checkers.js:339-402 | the AI does nothing unless the game is active with black to move; with no black move the game ends through the win handler; with one, `AIPlaysItsChoice` states the move |
| PublicCheckers.AIPlaysItsChoice | public/assets/js/checkers.js:339-402 | when black can move, the AI plays exactly its chosen entry, which is legal, counts it and clears the selection; through the as-written move the game goes on exactly when the win check on black finds no winner, with red to move, and otherwise stays with black |
| PublicCheckers.BestMoveCaptures | public/assets/js/checkers.js:430-496 | every capture outscores every plain move, so the best-move search returns a capture whenever the list holds one |
| PublicCheckers.HardAICaptures | public/assets/js/checkers.js:339-496 | on the hard level, whenever black has a capture the AI's chosen move is a capture and it is the one applied to the board |
| AssetCheckers.HandleCellClick | assets/js/checkers.js:97-116 | only a finished game ignores the click; otherwise the click is handled as `CheckersRules.Click` states, whoever is to move |
| AssetCheckers.HumanCanSelectBlack | assets/js/checkers.js:97-137 | with black to move, a click on a black piece selects it, so the human can play the computer's side |
| AssetCheckers.BestIsFirstCapture | assets/js/checkers.js:397-434 | the best-move search returns the first capture in the list, or the first move when there is none |
| AssetCheckers.ForwardStep | assets/js/checkers.js:342-357 | the fallback finds a listed piece with an empty square one row down and one column aside; when it finds none, every such square is occupied |
| AssetCheckers.ForwardStepNeedsAMove | assets/js/checkers.js:342-357 | a square the fallback finds is a legal step of a black piece |
| AssetCheckers.AIMoveAsWritten | assets/js/checkers.js:308-365 | as written: a finished game is untouched; when black can move, the chosen piece is selected but the old highlights are kept, so the move is played only if its destination is already highlighted and otherwise the turn stays with black; when black cannot move, the game ends on the same board and the turn goes to the opponent of the side that was to move |
| AssetCheckers.AsWrittenDropsMove | assets/js/checkers.js:336-338 | as written, with no destinations highlighted the AI's move is lost: black can move, yet the board, move count and turn stay as they were |
| AssetCheckers.Fallback | assets/js/checkers.js:342-363 | when the fallback finds no step, the turn goes to the opponent of the side that was to move before the AI ran; when it finds one, the step is played only if that square is already highlighted, and otherwise only the selection changes |
| AssetCheckers.AIMove | assets/js/checkers.js:308-365 | the repaired AI does nothing on a finished game; `AIMovePlays` and `StuckBlackCredit` state its moves |
| AssetCheckers.AIMovePlays | assets/js/checkers.js:308-365 | the repaired AI plays its chosen move, which is legal, and counts it; the game goes on exactly when the win check on black finds no winner, with red to move, and otherwise stays with black |
| AssetCheckers.StuckBlackCredit | assets/js/checkers.js:366-434 | with black stuck, the as-written AI ends the game and gives red two points when the best move was asked for, one otherwise; the repaired AI gives one |
| BattleshipGame.SetCellCells | public/assets/js/battleship.js:239-255 | changing one cell moves that position in or out of each census of cells and leaves every other position where it was |
| BattleshipGame.FootprintIff | public/assets/js/battleship.js:218-255 | a ship covers exactly the run of its size of cells from its start, along its orientation |
| BattleshipGame.FootprintSize | public/assets/js/battleship.js:218-255 | a ship that fits covers exactly as many cells as its size |
| BattleshipGame.CanPlaceIff | public/assets/js/battleship.js:218-238 | a ship can be placed exactly when it stays inside the grid and every cell it would cover is water |
| BattleshipGame.PlaceShip | public/assets/js/battleship.js:239-255 | placing a ship marks exactly the cells it covers as that ship's and leaves every other cell alone |
| BattleshipGame.AddShip | public/assets/js/battleship.js:239-255 | placing the next ship appends exactly its record to the fleet |
| BattleshipGame.AddShipKeepsSetup | public/assets/js/battleship.js:239-255 | placing the next ship keeps the fleet in placement order, each ship on exactly its size in cells, with water everywhere else |
| BattleshipGame.ComputerFleetPlaced | public/assets/js/battleship.js:183-217 | a completed random placement holds the five ships in order without overlap, 17 ship cells in all |
| BattleshipGame.PlaceComputerShips | public/assets/js/battleship.js:183-217 | the placement loop extends the given fleet to exactly five ships, keeping the ships already placed; it can give up only while the fleet is incomplete, and a complete fleet is returned as it is |
| BattleshipGame.SetupDone | public/assets/js/battleship.js:405-416 | a complete fleet before any shot satisfies the invariant of waters under fire, the as-written record law and the per-ship record law |
| BattleshipGame.AllHitIffNoneAfloat | public/assets/js/battleship.js:292-331 | for waters in order, 17 hits have been made exactly when no intact ship cell is left |
| BattleshipGame.SunkIffNoPartLeft | public/assets/js/battleship.js:387-404 | where a ship's record counts only its own hits, it says sunk exactly when none of its cells is left intact |
| BattleshipGame.CheckShipSunkAsWritten | public/assets/js/battleship.js:387-404 | as written, every ship not yet sunk gains a hit and is marked sunk once its count reaches its size; sunk ships are untouched |
| BattleshipGame.CheckShipSunk | public/assets/js/battleship.js:387-404 | the repaired rule, counting per ship: only the ship struck gains a hit and may become sunk; every other record is unchanged |
| BattleshipGame.SunkOnceAllPartsHit | public/assets/js/battleship.js:387-404 | under the as-written record law a record says sunk exactly when the waters' hit total reaches the ship's size, so a ship with every cell hit is sunk |
| BattleshipGame.DestroyerSunkByCarrierHits | public/assets/js/battleship.js:387-404 | as written, two hits on the carrier of a fresh fleet report the untouched destroyer sunk; counting per ship the carrier has two hits and the destroyer is afloat |
| BattleshipGame.Fire | public/assets/js/battleship.js:292-386 | as written: a shot is recorded; a ship cell becomes a hit of that ship, the counter goes up by one and every ship still afloat counts the hit; any other cell becomes a miss and the records are kept; no other cell changes |
| BattleshipGame.FireRepaired | public/assets/js/battleship.js:292-404 | the repaired shot is the as-written one except for the records: a hit counts only on the ship struck, and a miss keeps them |
| BattleshipGame.FireKeepsRecords | public/assets/js/battleship.js:292-404 | as written, every record keeps the waters' hit total capped at its size, and says sunk once that total reaches its size |
| BattleshipGame.RepairedFireKeepsExact | public/assets/js/battleship.js:292-404 | the repaired shot at a fresh cell keeps every record equal to the hits on its own ship, sunk once they reach its size |
| BattleshipGame.FireKeepsSideOK | public/assets/js/battleship.js:292-386 | firing at a cell not shot before, as written or repaired, keeps the shots, the hit counter and the ship cells in agreement |
| BattleshipGame.InitializeGame | public/assets/js/battleship.js:38-68 | a new game starts in setup with the player to act, horizontal orientation, empty player waters and no shots at the computer |
| BattleshipGame.InitialGameValid | public/assets/js/battleship.js:38-68 | a new game satisfies the game invariant |
| BattleshipGame.ToggleOrientation | public/assets/js/battleship.js:445-455 | toggling flips the orientation and changes nothing else |
| BattleshipGame.ToggleTwice | public/assets/js/battleship.js:445-455 | toggling twice restores the game |
| BattleshipGame.HandlePlayerBoardClick | public/assets/js/battleship.js:260-291 | outside setup, with the fleet complete, or where the next ship cannot go, a click changes nothing; otherwise the next ship is placed at the click with the current orientation and its record appended, play begins with the player to act exactly when it was the fifth, and the computer's waters are never touched |
| BattleshipGame.PlayerPlacementKeepsValid | public/assets/js/battleship.js:260-291 | placement keeps the game invariant, appends the next ship's record, and play begins exactly when the fifth ship is down |
| BattleshipGame.HandleComputerBoardClick | public/assets/js/battleship.js:292-331 | a shot counts only in play, on the player's turn, at a cell not shot before; it is fired as `Fire` states at the computer's waters, leaves the player's alone, ends the game exactly when it is a hit bringing the counter to 17, and otherwise passes the turn to the computer |
| BattleshipGame.PlayerShotKeepsValid | public/assets/js/battleship.js:292-331 | a player's shot keeps the invariant, including the as-written record law; a game it ends has no intact computer ship cell, and a game still in play has one |
| BattleshipGame.LastDraw | public/assets/js/battleship.js:336-345 | the draw loop stops at the first cell not shot before, or at the last allowed draw |
| BattleshipGame.ComputerShot | public/assets/js/battleship.js:355-381 | the computer's shot fires at the player's waters exactly as `Fire` states and leaves the computer's waters alone |
| BattleshipGame.ComputerTurnAsWritten | public/assets/js/battleship.js:332-386 | as written: outside play or off the computer's turn nothing happens; otherwise every draw before the last is a repeat, a fresh last draw before the 100th is fired at, and when the 100th draw is reached nothing is fired, the game ending only if every cell was shot |
| BattleshipGame.TurnsAgreeUnlessLastDrawFresh | public/assets/js/battleship.js:341-353 | the as-written and repaired turns differ only in play, on the computer's turn, when the first 99 draws repeat and the 100th is fresh |
| BattleshipGame.ComputerShotKeepsValid | public/assets/js/battleship.js:355-381 | a computer shot at a fresh cell in play keeps the invariant and ends the game exactly when no intact player ship cell is left |
| BattleshipGame.ComputerTurn | public/assets/js/battleship.js:332-386 | the repaired turn: outside play or off the computer's turn nothing happens; otherwise every draw before the last is a repeat, and a fresh last draw is fired at even when it is the 100th |
| BattleshipGame.HundredthDrawDiscarded | public/assets/js/battleship.js:341-353 | as written, when only the 100th draw is fresh the computer fires nothing, keeps the turn, and every player click is ignored; repaired, it fires at that draw |
| BattleshipGame.ComputerTurnKeepsValid | public/assets/js/battleship.js:332-386 | the as-written computer turn keeps the invariant; a game still in play has an intact player ship cell, and a shot ends the game exactly when it leaves none |
| BattleshipGame.RepairedTurnKeepsValid | public/assets/js/battleship.js:332-386 | the repaired turn keeps the invariant with the same guarantees |
| BattleshipGame.ResetGame | public/assets/js/battleship.js:433-444 | a reset returns to setup with no player ships and no hits on the computer |
| Snake.TickLength | assets/js/snake.js:378-391 | the slow tick is one and a half base ticks, the medium one a base tick and the fast one half a base tick |
| Snake.SetSpeed | assets/js/snake.js:378-391 | choosing a speed records it and sets the tick to that speed's length, changing nothing else |
| Snake.EmptyCellsIff | assets/js/snake.js:128-142 | the free list holds exactly the board cells that are neither snake nor food |
| Snake.GenerateFood | assets/js/snake.js:128-142 | with no free cell the food stays where it was; otherwise the new food is one of the free cells |
| Snake.NewFoodIsFree | assets/js/snake.js:128-142 | new food lands on the board, off the snake and away from the old food |
| Snake.InitializeGame | assets/js/snake.js:35-58 | a new game has the three-cell snake at (5,5), (4,5), (3,5) heading right, score 0, stopped, the tick of the chosen speed, the stored records kept, and food on a free cell |
| Snake.GameOver | assets/js/snake.js:313-352 | the game stops with the snake, score and food as they were, and the best score and longest snake become the larger of old and new |
| Snake.GameStep | assets/js/snake.js:251-312 | a stopped or paused game is untouched; a crash ends it; otherwise the head moves one cell in the queued direction, and eating keeps the tail, scores 10, speeds up by 1 ms above the floor and places new food, while not eating drops the tail and keeps the rest |
| Snake.GameStepKeepsSound | assets/js/snake.js:251-312 | a tick keeps the snake on the board without overlap, provided the food is off the snake, and the snake grows by one exactly when it eats |
| Snake.FoodAfterEatingIsFree | assets/js/snake.js:251-312 | after eating, when there was room, the new food is on the board and off the grown snake |
| Snake.Turn | assets/js/snake.js:430-480 | an arrow key queues its direction unless it reverses the current one, never moves the snake, and leaves the game running |
| Snake.StartGame | assets/js/snake.js:204-224 | starting runs an idle game unpaused and leaves a running one alone |
| Snake.PauseGame | assets/js/snake.js:225-250 | pausing toggles the pause of a running game and does nothing to a stopped one |
| Snake.PauseTwice | assets/js/snake.js:225-250 | pausing twice restores the game |
| Snake.NoReverseKept | assets/js/snake.js:251-312 | keys and ticks keep the queued direction from reversing the current one and keep the neck behind the head |
| Snake.NeverIntoTheNeck | assets/js/snake.js:251-312 | so the next head is never the cell just behind the current head, whatever keys were pressed |
| Snake.KeyAfterGameOverResumes | assets/js/snake.js:430-480 | an arrow key after a crash starts the same snake again with its score, since game over resets nothing |
| Snake.SpeedStaysInRange | assets/js/snake.js:378-407 | ticks, speed changes and new games keep the tick length between the fast and the slow settings |
| Snake.ResetScore | assets/js/snake.js:368-377 | the best score goes to 0 and the longest snake back to 3, and nothing else changes |
| Minesweeper.UniverseSize | public/assets/js/minesweeper.js:47-71 | a board of width w and height h has exactly w times h cells |
| Minesweeper.SafeSize | public/assets/js/minesweeper.js:273-293 | the safe cells number the board's cells less its mines |
| Minesweeper.CountFrom | public/assets/js/minesweeper.js:95-110 | the scan over a cell's neighbourhood counts at most one mine per neighbour it has yet to visit |
| Minesweeper.CountZeroIff | public/assets/js/minesweeper.js:95-110 | a cell counts zero adjacent mines exactly when none of the nine cells around and at it is a mine |
| Minesweeper.SameMinesSameCount | public/assets/js/minesweeper.js:95-110 | two boards with the same mines give every cell the same count, so the order in which cells are numbered does not matter |
| Minesweeper.Annotate | public/assets/js/minesweeper.js:84-93 | numbering the board keeps its shape and exactly its mines |
| Minesweeper.AnnotateNumbers | public/assets/js/minesweeper.js:84-93 | after numbering, every cell that is not a mine holds its count of adjacent mines |
| Minesweeper.SetMine | public/assets/js/minesweeper.js:78-83 | laying a mine adds exactly that cell to the mines |
| Minesweeper.PlaceFrom | public/assets/js/minesweeper.js:72-83 | the laying loop places no more mines than asked, never on the first-clicked cell, keeps every mine and changes no other cell |
| Minesweeper.PlaceFromCount | public/assets/js/minesweeper.js:72-83 | the mine count grows by exactly the number of mines the loop places |
| Minesweeper.PlaceMinesSpec | public/assets/js/minesweeper.js:72-94 | on an empty board, mine laying leaves the first-clicked cell safe, lays as many mines as the loop placed and no more than asked, and numbers every other cell |
| Minesweeper.Reveal | public/assets/js/minesweeper.js:247-264 | revealing only adds cells; a closed in-bounds unflagged cell is opened, anything else changes nothing; every opened cell is in bounds and unflagged, every opened zero has all its unflagged neighbours opened, and on a numbered board a safe start opens no mine |
| Minesweeper.RevealBlock | public/assets/js/minesweeper.js:255-263 | opening the neighbours of a zero opens each unflagged in-bounds one, keeps the same guarantees as a single reveal, and opens no mine on a numbered board |
| Minesweeper.RevealIsSafeAndClosed | public/assets/js/minesweeper.js:247-264 | on a numbered board, revealing a safe cell opens it if closed and opens no mine and no flagged cell |
| Minesweeper.CreateBoard | public/assets/js/minesweeper.js:47-71 | a new board of the current size holds no mines or numbers, nothing revealed or flagged, waiting for the first click, timer at 0, records kept |
| Minesweeper.FreshBoardHasNoMines | public/assets/js/minesweeper.js:47-71 | a new board has no mines |
| Minesweeper.Dimensions | public/assets/js/minesweeper.js:134-155 | the levels are 9x9 with 10 mines, 16x16 with 40 and 30x16 with 99 |
| Minesweeper.SetDifficulty | public/assets/js/minesweeper.js:134-155 | choosing a level takes its size and mine count and starts a fresh board |
| Minesweeper.LevelsFit | public/assets/js/minesweeper.js:134-155 | every level has fewer mines than cells |
| Minesweeper.Tick | public/assets/js/minesweeper.js:161-170 | the clock advances by one second only while a game runs undecided |
| Minesweeper.CalculateScore | public/assets/js/minesweeper.js:294-323 | the score is the time bonus, 1000 less 10 per second but not below 0, plus the level bonus; the best score and best time keep the better of old and new |
| Minesweeper.ScoreBounds | public/assets/js/minesweeper.js:294-323 | the score lies between the level bonus and that bonus plus 1000, never rises with more time, and the records never get worse |
| Minesweeper.CheckWin | public/assets/js/minesweeper.js:273-293 | the game is won and scored exactly when the revealed safe cells number the board's cells less the mines; the board is unchanged |
| Minesweeper.WinIffAllSafeRevealed | public/assets/js/minesweeper.js:273-293 | when the board holds as many mines as the level says, the win count is reached exactly when every safe cell is revealed |
| Minesweeper.LeftClick | public/assets/js/minesweeper.js:209-236 | a click on a stopped, decided or flagged cell changes nothing; a mine loses the game and reveals everything; a safe cell is revealed and the win is checked |
| Minesweeper.FirstClickIsSafe | public/assets/js/minesweeper.js:209-236 | the first click of a running game never loses: mines are laid around it, it is revealed, and the board is numbered |
| Minesweeper.RightClick | public/assets/js/minesweeper.js:237-246 | a right click on a stopped, decided or revealed cell changes nothing; otherwise it toggles that cell's flag |
| Minesweeper.RightClickCounter | public/assets/js/minesweeper.js:354-365 | flagging lowers the mines-left counter by one, unflagging raises it by one, and two right clicks restore the game |
| Auth.AddMonths | auth.js:187-191 | adding n months keeps the time within the month and moves the month count forward by exactly n, carrying into the year |
| Auth.AddMonthsLater | auth.js:187-191 | a later end date is never earlier, a positive number of months is strictly later, and twelve months on is the same month of the next year |
| Auth.FindByEmail | auth.js:50-57 | the lookup returns a registered user with that email, and finds none exactly when no user has it |
| Auth.FindByReferralCode | auth.js:132-139 | the lookup returns the first registered user holding that code, and finds none exactly when no user holds it |
| Auth.Register | auth.js:50-107 | registration fails exactly when the email is taken; otherwise the new user is appended and gets an inactive monthly subscription with no free weeks, and the signed-in user is unchanged |
| Auth.UnknownCodeCreditsNobody | auth.js:79-100 | without a code, or with a code nobody holds, no existing subscription or referral record changes |
| Auth.ReferralCreditsReferrer | auth.js:79-100 | a code held by a user with a subscription gives that user one more free week and one more referral record naming the new user, and changes no one else's |
| Auth.Login | auth.js:109-118 | login succeeds exactly for a registered email with the matching password, and then signs that user in and changes nothing else |
| Auth.Logout | auth.js:120-123 | after logout nobody is signed in, and the accounts, subscriptions and referrals are unchanged |
| Auth.RegisterKeepsDistinct | auth.js:50-107 | registration keeps every email held by one account only |
| Auth.RegisterThenLogin | auth.js:50-123 | after registering, logging in with the same email and password signs in exactly the new user, and logging out signs them out |
| Auth.Target | auth.js:141-146 | an operation acts on the user id it is given when that is non-empty, and otherwise on the signed-in user's |
| Auth.GetUserSubscription | auth.js:141-146 | a subscription is returned exactly when the target user has one, and it is that user's |
| Auth.HasActiveSubscription | auth.js:148-176 | with the system switched off everyone has access; otherwise access needs a subscription with a free week left, or an active one whose end has not passed |
| Auth.StartSubscription | auth.js:178-202 | starting fails exactly for a user without a subscription; otherwise only that user's subscription changes |
| Auth.StartedGrantsAccessUntilEnd | auth.js:148-202 | after a start, access at any time lasts exactly until the plan's end, or while free weeks remain, and holds at the start itself |
| Auth.UseFreeWeek | auth.js:204-218 | a week is spent exactly when the target has a subscription with a free week, and then exactly one week is taken from it; otherwise nothing changes |
| Auth.ReferralWeekCanBeSpent | auth.js:79-100 | a referrer with no free weeks gets one from a new registration, can spend it, and is then back to none |
| Auth.GetReferralStats | auth.js:220-232 | the stats exist exactly when there is a target; the total is the number of the target's referral records, and the code shown is the signed-in user's |
| Auth.ReferralCounted | auth.js:79-100 | each rewarded registration adds exactly one to the referrer's total |

## Left out

- Rendering, animation, sound, fullscreen and DOM event wiring in every file: they do not affect the game state.
- Socket.IO transport in api/socket.js (`socket.join`, `io.to(...).emit`) and server.js: each handler returns the messages it would emit.
- The client multiplayer managers (assets/js/multiplayer.js, public/assets/js/multiplayer.js) are not part of this model; their `isMyTurn` answer is a parameter of `PublicGame.MakeMove`.
- Timers (`setTimeout` auto-resets, `setInterval` and animation loops): each timer callback is a function that the caller applies.
- `localStorage`, in every game and in auth.js: stored values are parameters of the constructors, and writes are dropped.
- `Math.random()` and `Date`: they are arguments, so the model states what holds for every draw and every instant.
- The float physics games (spaceinvaders.js, pong.js, breakout.js, pacman.js) are not part of this model.
- The test harnesses (test-connection.js, test-solitaire.js) are not part of this model; simple-test.js only informed the tableau rule.
- Payment: stripe-integration.js and `processPayment` in auth.js are not part of this model.
- Tetris `setSpeed`: it scales the tick by a floating-point multiplier. The level speed in `Tetris.LevelSpeed` assumes the default multiplier of 1.
- Solitaire `undoMove`, `autoComplete` and `hint`: the undo replay is left out, and only the bounded undo stack is modelled.
- Solitaire `selectCard`: after a click move it reads `selectedCard` after `deselectCard` has cleared it, so the rest of that handler throws. The model applies the move (`Solitaire.TryMove`) and does not model the exception.
- The float centre-distance bonus of the public checkers `getBestAIMove` is kept exactly, by doubling every score so that the half-unit bonus is an integer (`PublicCheckers.Score2`).
- Minesweeper.PlaceMinesSpec: states at most `mines` mines, not exactly `mines`. The draws are a finite sequence, and the source keeps drawing until it has placed them all.
- BattleshipGame.ComputerFleetPlaced: holds only when the supplied placement attempts suffice. Otherwise `PlaceComputerShips` returns `None`, where the source keeps drawing.
- Auth.AddMonths: does not model JavaScript's day-of-month overflow (31 January plus one month gives early March). An instant is a calendar month plus the time elapsed within it.
- Auth.Register: draws the user id and referral code as arguments, so their format and uniqueness are not modelled.
- AssetCheckers.AIMove: its own contract states only that a finished game is untouched. The repaired AI's moves are stated by `AIMovePlays` and `StuckBlackCredit`, each under the condition it needs.
- BattleshipGame.SunkIffNoPartLeft: holds only for waters whose records count each ship's own hits. The as-written game keeps the capped hit total of the waters instead, and for it `SunkOnceAllPartsHit` gives only one direction: a ship with every cell hit is reported sunk.
- Snake.TickLength: states the three tick lengths as multiples of the base tick. The float multiplier itself is not modelled.

## Behaviour kept as written

These are places where the code behaves differently from what its descriptions suggest. In each of them the flows model what the code does:

- Solitaire: `TryMove` dispatches to `MoveToFoundation`, which lets a buried face-up card leave a column. `MoveToFoundationTopOnly` and `TryMoveTopOnly` are the repaired rules, and no flow calls them.
- Checkers, both copies: `Click`, `PublicCheckers.MakeAIMove` and the asset AI play through `CheckersRules.MakeMoveAsWritten`, which runs the win check for the side that just moved. `CheckersRules.MakeMove` is the repaired rule and is used only by the lemmas that compare the two.
- Asset checkers AI: `AssetCheckers.AIMoveAsWritten` keeps the stale highlights and credits a stuck black twice on a best-move level. `AssetCheckers.AIMove` is the repaired AI.
- Battleship: `Fire`, the player's shot and the computer's shot use `CheckShipSunkAsWritten`, and the game invariant holds the as-written record law (`RecordsOK`). The computer's turn is `ComputerTurnAsWritten`. `FireRepaired`, `CheckShipSunk` and `ComputerTurn` are the repaired rules, and no flow calls them.

- public/assets/js/game.js declares `makeMove` and `resetGame` twice. The later declarations (lines 691 and 750) are the ones in effect, so those are modelled.
- The public tic-tac-toe client counts a mirrored win twice. The server has already raised the score, and `handleWin` raises it again (`PublicGame.MirroredWinCountsTwice`).
- Minesweeper ignores every left click until the start button runs the game. The `gameRunning` guard comes before the first-click branch.
- Snake `gameOver` resets nothing, so an arrow key afterwards sets the crashed snake moving again (`Snake.KeyAfterGameOverResumes`).
- auth.js `getReferralStats` reports the signed-in user's referral code, whichever user is asked about (`Auth.GetReferralStats`).
- auth.js `hasActiveSubscription` grants access to everyone while the subscription switch is off. That is its initial setting (`Auth.Initial`).
- The asset checkers human can also move black's pieces in AI mode, because its click handler has no AI-turn guard (`AssetCheckers.HumanCanSelectBlack`).

## Findings

| source | as written | input that shows it | evidently intended | confidence | as-written member | corrected member |
|---|---|---|---|---|---|---|
| assets/js/solitaire.js:328-382 | a tableau card reaches a foundation from any face-up position, and `removeCardFromPile` splices it out of the middle of the column | a column holding a 2 of spades under a face-up ace of hearts, and the ace of spades on a foundation: the 2 goes up and the ace of hearts stays | only the top card of a column may go to a foundation | not executed | Solitaire.BuriedCardReachesFoundation | Solitaire.TryMoveTopOnly |
| public/assets/js/checkers.js:259-264 | `checkWin` runs before `switchPlayer`, so "no valid moves" is tested for the side that just moved | red man at (2,1) and black man at (0,1); red steps to (1,0), has no further move, and black is declared the winner although black can move | the side about to move loses when it cannot move | not executed | CheckersRules.MoverStuckEndsGame | CheckersRules.MakeMove |
| assets/js/checkers.js:336-338 | the AI sets `selectedPiece` but not `validMoves`, so `makeMove` checks the stale, empty list and the AI's move is dropped | any AI turn after a human move, since `makeMove` leaves `validMoves` empty | the AI selects through `selectPiece` and its move is played | not executed | AssetCheckers.AsWrittenDropsMove | AssetCheckers.AIMovePlays |
| assets/js/checkers.js:366-434 | when black has no move on a best-move level, `getRandomAIMove` and then `getBestAIMove` each call `handleWin`, so red gains two points | hard level, black with pieces but no legal move | the win is credited once | not executed | AssetCheckers.StuckBlackCredit | AssetCheckers.AIMove |
| public/assets/js/battleship.js:387-404 | `checkShipSunk` adds a hit to every ship not yet sunk, not only to the ship struck | two hits on the carrier of a fresh fleet report the untouched destroyer sunk | only the ship struck gains a hit | not executed | BattleshipGame.DestroyerSunkByCarrierHits | BattleshipGame.RepairedFireKeepsExact |
| public/assets/js/battleship.js:341-353 | the turn gives up when `attempts` reaches 100, even if the 100th draw found a cell not shot before; the computer keeps the turn and the game stalls | 99 draws of cells already shot, then a fresh one | give up only when the last draw, too, was a cell already shot | not executed | BattleshipGame.HundredthDrawDiscarded | BattleshipGame.ComputerTurn |
