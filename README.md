# Chess GUI engine core: a Dafny model

This project models the move-selection core of a small Python chess program
built on python-chess and pygame, and proves properties of it:

- **The alpha-beta engine** (`alpha_beta.py`, class `AlphaBetaMinimax`):
  - iterative deepening from depth 1 to `max_depth`;
  - fail-soft alpha-beta as two mutually recursive methods `max_value` and
    `min_value`, which push and pop moves on the shared board;
  - an optional wall-clock limit, tested at every node;
  - an optional MVV-LVA (most valuable victim, least valuable attacker)
    capture ordering;
  - a node counter.
- **The evaluators**:
  - `simple_eval` (`utils.py`) is the material balance;
  - `improved_eval` (`evaluation.py`) adds terminal scores and a
    centre-control bonus. Both score White as positive.
- **The interactive board** (`milestone1_gui.py`):
  - square/pixel geometry;
  - automatic queen promotion;
  - the status-line decision;
  - the mouse-click state machine over the program's global state;
  - the random AI reply and the reset.

The modules follow the program's files:

- `Chess` (`chess.dfy`) is the slice of python-chess the program uses:
  - squares, pieces, moves and positions;
  - the rules engine as a record of oracles (`legalMoves`, `play`,
    `isGameOver`, `isCapture`);
  - the mutable board `ChessBoard`, with `Push`/`Pop` and the move stack.
- `Utils` (`utils.dfy`): `simple_eval`.
- `Evaluation` (`evaluation.dfy`): `improved_eval`.
- `AlphaBeta` (`alpha_beta.dfy`):
  - the engine class, whose methods work on the board in place;
  - pure functions that specify those methods (`AlphaBetaValue`,
    `SearchMoves`, `IterativeDeepening`);
  - a plain minimax reference (`Minimax`, a fold over the legal moves from
    -INF or +INF, as the code does);
  - the theorems that tie them together.
- `Gui` (`gui.dfy`): the board GUI's logic.

The main results:

- Each engine method is proved equal to its pure specification.
  - `max_value`/`min_value` leave the board exactly as they found it: same
    position and same move stack.
  - They return the value, the move and the node/clock counts that
    `AlphaBetaValue` gives.
- With no deadline, on any window -INF <= alpha < beta <= INF, alpha-beta is
  **fail-soft** against plain minimax:
  - a value strictly inside the window is exact;
  - a value at or below alpha is an upper bound;
  - a value at or above beta is a lower bound.
  - With the full window it equals minimax.
  - The root move it returns is legal and its child has the root's minimax
    value.
  - Iterative deepening therefore returns an optimal move for `max_depth`.
  - Move ordering does not change the value. Among equally valued moves the
    chosen move may differ, because the first strictly better child is kept;
    the node count may differ too. `order_moves` is proved to return a
    permutation of the legal moves, sorted by MVV-LVA and stable.
- Whatever the clock, any move `search` returns is legal at the root.
- Both evaluators lie strictly inside the search window: at most 1,417,680
  in absolute value, against INF = 10^9.
- The GUI's click handler keeps its state consistent:
  - a selected square holds a white piece;
  - the highlighted targets are exactly that piece's legal destinations;
  - the AI thinks only with nothing selected and the game not over.
  - A click plays a move exactly when a legal move joins the selected square
    to the clicked one, and then it plays the auto-promoted first such move.

### Oracles and parameters

- The rules engine (legal move generation, the position after a push,
  `is_game_over`, `is_capture`) is a parameter.
- `is_checkmate`, `is_stalemate` and `is_insufficient_material` are flags of
  the position.
- `time.time()` is an oracle `now: nat -> int`. It is indexed by how many
  times the engine has read the clock, so the model counts clock reads.
- `random.choice` is an index argument `pick`.
- The mouse position is an argument of the click handler.

### Behaviour of the code that the model reproduces

- The engine has no transposition table and no quiescence search. The move
  orderer uses only MVV-LVA, and a leaf returns the static evaluation.
- `time_limit` of `None` or `0` means "no limit", because the code tests
  Python truthiness.
- The deadline is also tested on entry to the root node of every iteration.
  When the limit has already passed at that point, the first iteration
  returns no move and `search` returns `None`, even when legal moves exist
  (`ExpiredSearchReturnsNone`).
- A deeper iteration that the deadline cuts short still returns the move it
  had found so far. `search` keeps that move instead of the last completed
  depth's move. It is still legal (`IterativeDeepeningLegal`).
- An en-passant capture has no piece on its target square, so MVV-LVA
  scores it 0*10 - 1 = -1, below every quiet move (`MvvLvaRanking`).
- The mate score is a constant: a mate in 1 and a mate in 5 score the same.
- `simulation.py` constructs the engine with `use_tt` and `use_qsearch`
  keyword arguments. The constructor at `alpha_beta.py:8` does not accept
  them. The model follows the constructor.

## Model

| member | source | states |
|---|---|---|
| Chess.TypeNumber | alpha_beta.py:94-95 | piece kinds number 1..6, pawn 1 and king 6, the values MVV-LVA multiplies |
| Chess.MakeSquare | milestone1_gui.py:108 | `chess.square(file, rank)` has exactly that file and rank |
| Chess.SquareOfFileAndRank | milestone1_gui.py:42-43 | every square is rebuilt from its file and rank |
| Chess.ChessBoard.Push | alpha_beta.py:46 | push moves the board to the position the rules give, appends the move and remembers the old position |
| Chess.ChessBoard.Pop | alpha_beta.py:48 | pop returns the last move, removes it and restores the position before it |
| Utils.PieceValue | utils.py:4-5 | the piece-value table of utils.py:4-5, each value in 100..20000 |
| Utils.SimpleEval | utils.py:3-10 | the loop computes the material balance: white count minus black count, times the value, summed over all six kinds |
| Utils.MaterialExpanded | utils.py:7-9 | the material balance is the sum of the six per-kind balances |
| Utils.CountsSwap | utils.py:8-9 | swapping colours exchanges the white and black counts of every kind |
| Utils.MaterialColorSwap | utils.py:3-10 | swapping the colour of every piece negates `simple_eval` |
| Utils.MaterialBalanced | utils.py:3-10 | equal white and black counts of every kind score 0 |
| Utils.CountsAfterPlacing | utils.py:8-9 | placing a piece on an empty square raises only its own kind-and-colour count, by one |
| Utils.TypeBalanceAfterPlacing | utils.py:8-9 | placing a piece changes its kind's balance by plus or minus its value, and no other kind's |
| Utils.MaterialAfterPlacing | utils.py:3-10 | adding a white piece raises the score by its value; adding a black piece lowers it by its value |
| Utils.MaterialIgnoresStatus | utils.py:3-10 | the score depends on the piece placement only |
| Utils.SquareSetBound | utils.py:8 | a set of squares below n has at most n members |
| Utils.CountAtMost64 | utils.py:8 | a piece count is at most 64 |
| Utils.TypeBalanceBound | utils.py:8-9 | a kind's balance is within 64 times its value |
| Utils.MaterialBound | utils.py:3-10 | the material score lies in [-1,417,600, 1,417,600] |
| Evaluation.ImprovedEval | evaluation.py:5-36 | the score is -MATE if White is mated and +MATE if Black is; otherwise 0 on stalemate or insufficient material; otherwise material plus the centre bonus |
| Evaluation.CenterExpanded | evaluation.py:27-34 | the centre term is the sum of the bonuses of d4, e4, d5 and e5 |
| Evaluation.CenterBounds | evaluation.py:26-34 | the centre term is a multiple of 20 in [-80, 80] |
| Evaluation.CheckmateScore | evaluation.py:7-8 | checkmate is scored before the draw tests, with the sign against the side to move, and never 0 |
| Evaluation.DrawScore | evaluation.py:9-10 | stalemate or insufficient material without checkmate scores 0 |
| Evaluation.ImprovedIsSimplePlusCenter | evaluation.py:21-34 | on a live board `improved_eval` is `simple_eval` plus the centre term, within 80 of it |
| Evaluation.ImprovedColorSwap | evaluation.py:5-36 | swapping colours negates the score of a live board |
| Evaluation.ImprovedScoreBound | evaluation.py:5-36 | every score lies in [-1,417,680, 1,417,680] |
| AlphaBeta.MvvLva | alpha_beta.py:90-97 | a quiet move scores 0; a capture of a piece scores 4..59; a capture onto an empty square scores -6..-1 |
| AlphaBeta.MvvLvaRanking | alpha_beta.py:90-97 | a heavier victim ranks above a lighter one whatever the attackers; a capture of a piece ranks above a quiet move; en passant ranks below zero |
| AlphaBeta.InsertByKey | alpha_beta.py:99 | one insertion step adds exactly the inserted move |
| AlphaBeta.SortByKey | alpha_beta.py:99 | the sort returns a permutation of its input |
| AlphaBeta.NonIncreasingTail | alpha_beta.py:99 | the tail of a descending sequence is descending |
| AlphaBeta.NonIncreasingCons | alpha_beta.py:99 | a head with a key no smaller than the tail's first key extends a descending sequence |
| AlphaBeta.InsertKeepsOrder | alpha_beta.py:99 | inserting into a descending sequence keeps it descending |
| AlphaBeta.InsertWithKey | alpha_beta.py:99 | insertion puts the move ahead of every equal-key move already present, on any input |
| AlphaBeta.WithKeyCons | alpha_beta.py:99 | the equal-key subsequence of a sequence with a known head |
| AlphaBeta.SortByKeySpec | alpha_beta.py:99 | `sort(key, reverse=True)` gives a permutation, sorted non-increasingly, with equal keys in input order |
| AlphaBeta.OrderMoves | alpha_beta.py:84-100 | `order_moves` returns a permutation of the legal moves, and the legal moves themselves when ordering is off; sortedness and stability are in OrderMovesSpec |
| AlphaBeta.OrderMovesSpec | alpha_beta.py:84-100 | `order_moves` gives a permutation of the legal moves: unchanged without ordering, otherwise sorted by MVV-LVA and stable |
| AlphaBeta.BestChildBounds | alpha_beta.py:45-56 | the minimax fold is no worse than its start and every child, and is one of them |
| AlphaBeta.BestChildSameMoves | alpha_beta.py:43-45 | the minimax fold depends only on the set of moves, not their order |
| AlphaBeta.MaxStep | alpha_beta.py:50-56 | one maximizing loop step keeps the fail-soft bookkeeping |
| AlphaBeta.MinStep | alpha_beta.py:75-81 | one minimizing loop step keeps the fail-soft bookkeeping |
| AlphaBeta.AlphaBetaFailSoft | alpha_beta.py:34-82 | without a deadline, alpha-beta is fail-soft against minimax on any window, and a value inside the window comes with a legal move achieving it |
| AlphaBeta.SearchMovesFailSoft | alpha_beta.py:45-57 | the move loop with cutoffs is fail-soft against the full minimax fold |
| AlphaBeta.MinimaxRange | alpha_beta.py:41-57 | minimax values stay within [-INF, INF] |
| AlphaBeta.BestChildRange | alpha_beta.py:45-56 | the fold stays within [-INF, INF] |
| AlphaBeta.AlphaBetaExact | alpha_beta.py:22-24 | the full-window call returns exactly the minimax value |
| AlphaBeta.AlphaBetaLeaf | alpha_beta.py:35-39 | at depth 0, at a finished game or after the deadline, a node returns its evaluation and no move, counting one node |
| AlphaBeta.AlphaBetaMoveAndCounters | alpha_beta.py:34-82 | a returned move is legal; every call counts its node; the clock is read only under a limit |
| AlphaBeta.SearchMovesMoveAndCounters | alpha_beta.py:45-57 | the move loop returns only legal moves and only adds to the counters |
| AlphaBeta.AlphaBetaReturnsMove | alpha_beta.py:41-57 | every value is strictly inside (-INF, INF), and a searched node always returns a move |
| AlphaBeta.SearchMovesReturnsMove | alpha_beta.py:45-57 | the loop's first child always improves on ±INF, so a move is recorded |
| AlphaBeta.RootMoveIsOptimal | alpha_beta.py:20-24 | without a deadline the root move is legal and its child has the root's minimax value |
| AlphaBeta.EvaluatorsInsideWindow | alpha_beta.py:5 | both evaluators lie strictly inside (-INF, INF) |
| AlphaBeta.IterativeDeepeningLegal | alpha_beta.py:15-32 | any move `search` returns is legal at the root, on any clock |
| AlphaBeta.IterativeDeepeningUnlimited | alpha_beta.py:15-32 | without a deadline `search` returns a legal move that is optimal at `max_depth` |
| AlphaBeta.IterativeDeepeningNoMove | alpha_beta.py:20-39 | `search` returns None when `max_depth` is below 1 and when the game at the root is over |
| AlphaBeta.ExpiredSearchReturnsNone | alpha_beta.py:29-36 | a deadline already past at the root makes `search` return None |
| AlphaBeta.AlphaBetaMinimax.constructor | alpha_beta.py:8-13 | the engine stores its evaluator, limit and ordering flag, with no nodes counted and no start time |
| AlphaBeta.AlphaBetaMinimax.DeadlinePassed | alpha_beta.py:36 | the deadline test reads the clock once when limited and never otherwise |
| AlphaBeta.AlphaBetaMinimax.MaxValue | alpha_beta.py:34-57 | `max_value` leaves the board unchanged and returns the value, move and counts of the maximizing `AlphaBetaValue` |
| AlphaBeta.AlphaBetaMinimax.MinValue | alpha_beta.py:59-82 | `min_value` leaves the board unchanged and returns the value, move and counts of the minimizing `AlphaBetaValue` |
| AlphaBeta.AlphaBetaMinimax.Iterate | alpha_beta.py:21-30 | one deepening step leaves the board unchanged, keeps the root search's move when it returns one, and then tests the deadline, as one step of `IterativeDeepening` |
| AlphaBeta.AlphaBetaMinimax.Search | alpha_beta.py:15-32 | `search` records the start time, resets the node count, leaves the board unchanged and returns what `IterativeDeepening` gives |
| Gui.SquareCoords | milestone1_gui.py:41-46 | a square's top-left pixel is a multiple of 80 in [0, 560], with a8 at the top left |
| Gui.SquareUnderMouse | milestone1_gui.py:101-108 | None exactly off the 640 x 640 board; otherwise the square whose box holds the pixel |
| Gui.SquareCoordsRoundTrip | milestone1_gui.py:101-108 | every pixel of a square's box maps back to that square |
| Gui.AutoPromoteIdempotent | milestone1_gui.py:189-190 | promoting twice is promoting once |
| Gui.TargetsFrom | milestone1_gui.py:179 | the highlighted squares are exactly the destinations of legal moves from the square |
| Gui.FirstMatch | milestone1_gui.py:182-186 | the first legal move with the given from and to squares, and None exactly when there is none |
| Gui.FindMove | milestone1_gui.py:182-186 | the search loop finds that first matching move |
| Gui.Click | milestone1_gui.py:166-205 | a move is played only from the selected square and clears the selection; a newly selected square holds a white piece and highlights its legal destinations; nothing changes while the AI thinks |
| Gui.ClickIgnored | milestone1_gui.py:166-173 | a click is ignored while the AI thinks, when Black is to move, or off the board |
| Gui.ClickPlaysLegalMove | milestone1_gui.py:180-197 | a click plays only the auto-promoted form of a legal move from the selected square to the clicked one, then clears the selection and starts the AI unless the game is over |
| Gui.ClickWithoutSelection | milestone1_gui.py:175-179 | with nothing selected, a click on a white piece selects it with its legal destinations, and any other click changes nothing |
| Gui.ClickWithSelection | milestone1_gui.py:180-205 | with a square selected, a move is played exactly when a legal move joins the two squares, and it is the auto-promoted first one; otherwise a white piece is reselected and anything else clears the selection |
| Gui.ClickKeepsConsistent | milestone1_gui.py:166-205 | a click keeps the selection, the highlights and the AI flag consistent, and the AI thinks only with nothing selected on a game that is not over |
| Gui.StatusOf | milestone1_gui.py:123-137 | checkmate is reported exactly on checkmate, with the side not to move as winner; otherwise the turn is reported only while the game goes on |
| Gui.GameUi.constructor | milestone1_gui.py:32-36 | a fresh board at the start position, nothing selected, AI idle |
| Gui.GameUi.ResetGame | milestone1_gui.py:143-148 | reset gives a fresh board, no selection, no highlights and an idle AI |
| Gui.GameUi.MouseDown | milestone1_gui.py:166-205 | the click handler's new globals and board are those `Click` gives, and consistency is kept |
| Gui.GameUi.AiRandomMove | milestone1_gui.py:110-121 | called while the AI thinks, hence on a game that is not over, the AI plays the auto-promoted form of the chosen legal move, or nothing when there is none, then stops thinking |

## Left out

- Drawing is not modelled: the board, the pieces, the legal-move dots, the status text and the whole pygame event loop, window and frame timing.
- The AI's 400 ms delay is not modelled: `ai_move_time` and `pygame.time.get_ticks()`. Of the trigger at `milestone1_gui.py:208`, only the tick test is dropped. `Gui.GameUi.AiRandomMove` requires the AI to be thinking. `Gui.GameUi.Valid` gives that the game is not over, because the AI starts thinking only when the game goes on (`milestone1_gui.py:195-196`), and `Gui.ClickKeepsConsistent` proves this is kept.
- The key handler is modelled only as `Gui.GameUi.ResetGame`. Quitting is not modelled.
- `simulation.py` and `ai_random.py` are not part of this model. They are callers: the game runner and the random opponent.
- python-chess internals are not modelled: move generation, check detection, game-over detection and `board.result()`. They are oracles of `Chess.Rules` and flags of `Chess.Position`. `Gui.StatusOf` takes `is_game_over` and `is_check` as arguments.
- A position holds only the piece placement, the side to move and the checkmate, stalemate and insufficient-material flags. Castling rights, the en-passant square, the halfmove clock and the move history are not part of it. `Chess.Rules.isGameOver` and `Chess.Rules.legalMoves` see only that state. So the model cannot express a game that ends along the searched path by fivefold repetition or by the 75-move rule, and `AlphaBeta.Minimax` is a tree over positions alone. The proved properties hold for any such oracles, and they do not depend on this state.
- Real time is not modelled. The clock is an integer oracle indexed by the number of clock reads, not a float in seconds.
- AlphaBeta.OrderMoves: the sort works on values. Python sorts a fresh list in place; the model returns a new sequence, which is equivalent because nothing else holds that list.
- AlphaBeta.AlphaBetaFailSoft: the fail-soft and exactness theorems assume no time limit. With a limit, a node the deadline cuts short returns its static evaluation, which is not a minimax bound. Under a limit the model proves only legality and counter properties.
- Gui.GameUi.AiRandomMove: `random.choice` is an index argument `pick` below the number of legal moves. Randomness is not modelled.
