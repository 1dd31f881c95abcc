/**
 * The integer logic of the interactive board: square/pixel geometry, the
 * automatic queen promotion, the status line's decision, and the mouse
 * click state machine over the globals `board`, `selected_square`,
 * `legal_moves` and `ai_thinking`.
 */
module Gui {
  import opened Chess

  const BOARD_SIZE: int := 640
  /** One eighth of the board's side. */
  const SQUARE_SIZE: int := 80

  /** `square_coords(square)`: the top-left pixel of a square, with a8 drawn at the top left. */
  function SquareCoords(sq: Square): (xy: (int, int))
    ensures 0 <= xy.0 <= 7 * SQUARE_SIZE && xy.0 % SQUARE_SIZE == 0
    ensures 0 <= xy.1 <= 7 * SQUARE_SIZE && xy.1 % SQUARE_SIZE == 0
    ensures xy.0 / SQUARE_SIZE == SquareFile(sq) && xy.1 / SQUARE_SIZE == 7 - SquareRank(sq)
  {
    (SquareFile(sq) * SQUARE_SIZE, (7 - SquareRank(sq)) * SQUARE_SIZE)
  }

  predicate OnBoard(mx: int, my: int)
  {
    0 <= mx < BOARD_SIZE && 0 <= my < BOARD_SIZE
  }

  /**
   * `get_square_under_mouse(pos)`: None exactly off the 640 x 640 board;
   * otherwise the square whose 80 x 80 box holds the pixel.
   */
  function SquareUnderMouse(mx: int, my: int): (r: Option<Square>)
    ensures r.None? <==> !OnBoard(mx, my)
    ensures r.Some? ==>
      SquareCoords(r.value).0 <= mx < SquareCoords(r.value).0 + SQUARE_SIZE
      && SquareCoords(r.value).1 <= my < SquareCoords(r.value).1 + SQUARE_SIZE
  {
    if mx < 0 || mx >= BOARD_SIZE || my < 0 || my >= BOARD_SIZE then None
    else
      var col := mx / SQUARE_SIZE;
      var row := my / SQUARE_SIZE;
      var rank := 7 - row;
      Some(MakeSquare(col, rank))
  }

  /** Every pixel of a square's box maps back to that square. */
  lemma SquareCoordsRoundTrip(sq: Square, dx: int, dy: int)
    requires 0 <= dx < SQUARE_SIZE && 0 <= dy < SQUARE_SIZE
    ensures SquareUnderMouse(SquareCoords(sq).0 + dx, SquareCoords(sq).1 + dy) == Some(sq)
  {
    var (x, y) := SquareCoords(sq);
    assert (x + dx) / SQUARE_SIZE == SquareFile(sq);
    assert (y + dy) / SQUARE_SIZE == 7 - SquareRank(sq);
  }

  /**
   * The automatic promotion: a pawn move to rank 1 or rank 8 that names no
   * promotion becomes a queen promotion; every other move is left as it is.
   */
  function AutoPromote(p: Position, mv: Move): (r: Move)
    ensures r.fromSquare == mv.fromSquare && r.toSquare == mv.toSquare
    ensures PieceTypeAt(p, mv.fromSquare) == Some(Pawn) && SquareRank(mv.toSquare) in {0, 7} && mv.promotion == None
            ==> r.promotion == Some(Queen)
    ensures !(PieceTypeAt(p, mv.fromSquare) == Some(Pawn) && SquareRank(mv.toSquare) in {0, 7} && mv.promotion == None)
            ==> r == mv
  {
    if PieceTypeAt(p, mv.fromSquare) == Some(Pawn)
       && (SquareRank(mv.toSquare) == 0 || SquareRank(mv.toSquare) == 7)
       && mv.promotion == None
    then Move(mv.fromSquare, mv.toSquare, Some(Queen))
    else mv
  }

  /** Promoting twice is promoting once. */
  lemma AutoPromoteIdempotent(p: Position, mv: Move)
    ensures AutoPromote(p, AutoPromote(p, mv)) == AutoPromote(p, mv)
  {
  }

  /** The destinations of the moves that start on `sq`, in move order. */
  function TargetsFrom(moves: seq<Move>, sq: Square): (ts: seq<Square>)
    ensures |ts| <= |moves|
    ensures forall t :: t in ts <==> exists m :: m in moves && m.fromSquare == sq && m.toSquare == t
  {
    if moves == [] then []
    else
      var rest := TargetsFrom(moves[1..], sq);
      assert forall m :: m in moves <==> m == moves[0] || m in moves[1..];
      (if moves[0].fromSquare == sq then [moves[0].toSquare] else []) + rest
  }

  predicate Connects(m: Move, from: Square, to: Square)
  {
    m.fromSquare == from && m.toSquare == to
  }

  /** The first move in `moves` from `from` to `to`, if any. */
  function FirstMatch(moves: seq<Move>, from: Square, to: Square): (r: Option<Move>)
    ensures r.None? <==> forall m :: m in moves ==> !Connects(m, from, to)
    ensures r.Some? ==> exists k :: 0 <= k < |moves| && moves[k] == r.value && Connects(r.value, from, to)
                                    && forall j :: 0 <= j < k ==> !Connects(moves[j], from, to)
  {
    if moves == [] then None
    else if Connects(moves[0], from, to) then Some(moves[0])
    else
      var r := FirstMatch(moves[1..], from, to);
      assert forall m :: m in moves <==> m == moves[0] || m in moves[1..];
      if r.Some? then
        var k :| 0 <= k < |moves[1..]| && moves[1..][k] == r.value && Connects(r.value, from, to)
                 && forall j :: 0 <= j < k ==> !Connects(moves[1..][j], from, to);
        assert moves[k + 1] == r.value;
        assert forall j :: 1 <= j < k + 1 ==> moves[j] == moves[1..][j - 1];
        r
      else r
  }

  /** The search loop of the click handler: the first legal move from `from` to `to`. */
  method FindMove(moves: seq<Move>, from: Square, to: Square) returns (mv: Option<Move>)
    ensures mv == FirstMatch(moves, from, to)
  {
    mv := None;
    var i := 0;
    while i < |moves|
      invariant 0 <= i <= |moves|
      invariant FirstMatch(moves, from, to) == FirstMatch(moves[i..], from, to)
    {
      var m := moves[i];
      assert moves[i..][0] == m && moves[i..][1..] == moves[i + 1..];
      if m.fromSquare == from && m.toSquare == to {
        mv := Some(m);
        return;
      }
      i := i + 1;
    }
    assert moves[i..] == [];
  }

  /** What a click does to the globals, and the move it plays, if any. */
  datatype ClickResult = ClickResult(selected: Option<Square>, targets: seq<Square>, aiThinking: bool, played: Option<Move>)

  function IsWhitePiece(p: Position, sq: Square): bool
  {
    PieceAt(p, sq).Some? && PieceAt(p, sq).value.color == White
  }

  /**
   * The mouse-button-down branch of the event loop, on values. A move is
   * played only from the selected square, and then the selection is cleared;
   * a newly selected square holds a white piece and highlights its legal
   * destinations; while the AI thinks nothing changes.
   */
  function Click(rules: Rules, p: Position, selected: Option<Square>, targets: seq<Square>,
                 aiThinking: bool, mx: int, my: int): (r: ClickResult)
    ensures aiThinking ==> r == ClickResult(selected, targets, aiThinking, None)
    ensures r.played.Some? ==>
      selected.Some? && r.played.value.fromSquare == selected.value && r.selected == None && r.targets == []
    ensures r.selected.Some? && r.selected != selected ==>
      r.played == None && IsWhitePiece(p, r.selected.value)
      && r.targets == TargetsFrom(rules.legalMoves(p), r.selected.value)
  {
    var ignored := ClickResult(selected, targets, aiThinking, None);
    if aiThinking || p.turn != White then ignored
    else
      match SquareUnderMouse(mx, my)
      case None => ignored
      case Some(sq) =>
        if selected.None? then
          if IsWhitePiece(p, sq) then ClickResult(Some(sq), TargetsFrom(rules.legalMoves(p), sq), aiThinking, None)
          else ignored
        else
          match FirstMatch(rules.legalMoves(p), selected.value, sq)
          case Some(m) =>
            var mv := AutoPromote(p, m);
            ClickResult(None, [], !rules.isGameOver(rules.play(p, mv)), Some(mv))
          case None =>
            if IsWhitePiece(p, sq) then ClickResult(Some(sq), TargetsFrom(rules.legalMoves(p), sq), aiThinking, None)
            else ClickResult(None, [], aiThinking, None)
  }

  /** Clicks do nothing while the AI is thinking, when Black is to move, or off the board. */
  lemma ClickIgnored(rules: Rules, p: Position, selected: Option<Square>, targets: seq<Square>,
                     aiThinking: bool, mx: int, my: int)
    requires aiThinking || p.turn != White || !OnBoard(mx, my)
    ensures Click(rules, p, selected, targets, aiThinking, mx, my) == ClickResult(selected, targets, aiThinking, None)
  {
  }

  /**
   * A click plays a move only when a square is selected, and the move played
   * is the auto-promoted form of a legal move from the selected square to
   * the clicked one; afterwards nothing is selected, and the AI is to think
   * exactly when the game goes on.
   */
  lemma ClickPlaysLegalMove(rules: Rules, p: Position, selected: Option<Square>, targets: seq<Square>,
                            aiThinking: bool, mx: int, my: int)
    ensures var r := Click(rules, p, selected, targets, aiThinking, mx, my);
      r.played.Some? ==>
        && selected.Some? && SquareUnderMouse(mx, my).Some?
        && (exists m :: m in rules.legalMoves(p) && Connects(m, selected.value, SquareUnderMouse(mx, my).value)
                        && r.played.value == AutoPromote(p, m))
        && r.selected == None && r.targets == []
        && r.aiThinking == !rules.isGameOver(rules.play(p, r.played.value))
  {
    var r := Click(rules, p, selected, targets, aiThinking, mx, my);
    if r.played.Some? {
      var sq := SquareUnderMouse(mx, my).value;
      var m := FirstMatch(rules.legalMoves(p), selected.value, sq).value;
      assert m in rules.legalMoves(p);
    }
  }

  /**
   * With nothing selected, White to move and the AI idle, a click on a white
   * piece selects it and highlights its legal destinations; a click on any
   * other square changes nothing.
   */
  lemma ClickWithoutSelection(rules: Rules, p: Position, targets: seq<Square>, mx: int, my: int)
    requires p.turn == White && OnBoard(mx, my)
    ensures var sq := SquareUnderMouse(mx, my).value;
      var r := Click(rules, p, None, targets, false, mx, my);
      && (IsWhitePiece(p, sq) ==> r == ClickResult(Some(sq), TargetsFrom(rules.legalMoves(p), sq), false, None))
      && (!IsWhitePiece(p, sq) ==> r == ClickResult(None, targets, false, None))
  {
  }

  /**
   * With a square selected, White to move and the AI idle, a click plays a
   * move exactly when some legal move goes from the selected square to the
   * clicked one, and then plays the auto-promoted first such move. Otherwise
   * a click on a white piece reselects it and a click elsewhere clears the
   * selection.
   */
  lemma ClickWithSelection(rules: Rules, p: Position, from: Square, targets: seq<Square>, mx: int, my: int)
    requires p.turn == White && OnBoard(mx, my)
    ensures var sq := SquareUnderMouse(mx, my).value;
      var r := Click(rules, p, Some(from), targets, false, mx, my);
      && (r.played.Some? <==> exists m :: m in rules.legalMoves(p) && Connects(m, from, sq))
      && (r.played.Some? ==>
            && FirstMatch(rules.legalMoves(p), from, sq).Some?
            && r.played.value == AutoPromote(p, FirstMatch(rules.legalMoves(p), from, sq).value)
            && r.selected == None && r.targets == []
            && r.aiThinking == !rules.isGameOver(rules.play(p, r.played.value)))
      && (r.played.None? && IsWhitePiece(p, sq) ==>
            r == ClickResult(Some(sq), TargetsFrom(rules.legalMoves(p), sq), false, None))
      && (r.played.None? && !IsWhitePiece(p, sq) ==> r == ClickResult(None, [], false, None))
  {
  }

  /**
   * The state the GUI keeps consistent: the AI thinks only with nothing
   * selected and the game not over; a selected square holds a white piece and the highlighted
   * destinations are exactly its legal targets; nothing selected, nothing
   * highlighted.
   */
  ghost predicate Consistent(rules: Rules, p: Position, selected: Option<Square>, targets: seq<Square>, aiThinking: bool)
  {
    && (aiThinking ==> selected.None? && !rules.isGameOver(p))
    && (selected.None? ==> targets == [])
    && (selected.Some? ==> IsWhitePiece(p, selected.value) && targets == TargetsFrom(rules.legalMoves(p), selected.value))
  }

  /** A click keeps the GUI state consistent with the position it leaves on the board. */
  lemma ClickKeepsConsistent(rules: Rules, p: Position, selected: Option<Square>, targets: seq<Square>,
                             aiThinking: bool, mx: int, my: int)
    requires Consistent(rules, p, selected, targets, aiThinking)
    ensures var r := Click(rules, p, selected, targets, aiThinking, mx, my);
      var p' := if r.played.Some? then rules.play(p, r.played.value) else p;
      Consistent(rules, p', r.selected, r.targets, r.aiThinking)
  {
  }

  /** What the status line reports. */
  datatype Status = Checkmate(winner: Color) | Stalemate | InsufficientMaterial | GameOver | ToMove(side: Color, inCheck: bool)

  /** The decision of `draw_status`: checkmate first, then the draws, then any other end, else whose turn. */
  function StatusOf(p: Position, gameOver: bool, inCheck: bool): (s: Status)
    ensures s.Checkmate? <==> p.checkmate
    ensures s.Checkmate? ==> s.winner == Opponent(p.turn)
    ensures s.ToMove? ==> s.side == p.turn && !gameOver
  {
    if p.checkmate then Checkmate(Opponent(p.turn))
    else if p.stalemate then Stalemate
    else if p.insufficientMaterial then InsufficientMaterial
    else if gameOver then GameOver
    else ToMove(p.turn, inCheck)
  }

  /** The module-level game state of the interactive program. */
  class GameUi {
    const rules: Rules
    /** What `chess.Board()` sets up. */
    const startPosition: Position
    var board: ChessBoard
    var selectedSquare: Option<Square>
    var legalMoves: seq<Square>
    var aiThinking: bool

    ghost predicate Valid()
      reads this, board
    {
      board.Valid() && board.rules == rules
      && Consistent(rules, board.position, selectedSquare, legalMoves, aiThinking)
    }

    constructor (rules: Rules, startPosition: Position)
      ensures Valid() && fresh(board)
      ensures this.rules == rules && this.startPosition == startPosition
      ensures board.position == startPosition && board.moveStack == []
      ensures selectedSquare == None && legalMoves == [] && !aiThinking
    {
      this.rules := rules;
      this.startPosition := startPosition;
      board := new ChessBoard(rules, startPosition);
      selectedSquare := None;
      legalMoves := [];
      aiThinking := false;
    }

    /** `reset_game()` */
    method ResetGame()
      modifies this
      ensures Valid() && fresh(board)
      ensures board.position == startPosition && board.moveStack == []
      ensures selectedSquare == None && legalMoves == [] && !aiThinking
    {
      board := new ChessBoard(rules, startPosition);
      selectedSquare := None;
      legalMoves := [];
      aiThinking := false;
    }

    /** A mouse-button-down event with the pointer at (mx, my). */
    method MouseDown(mx: int, my: int)
      requires Valid()
      modifies this, board
      ensures Valid() && board == old(board)
      ensures var r := Click(rules, old(board.position), old(selectedSquare), old(legalMoves), old(aiThinking), mx, my);
        && selectedSquare == r.selected && legalMoves == r.targets && aiThinking == r.aiThinking
        && (r.played.None? ==> board.position == old(board.position) && board.moveStack == old(board.moveStack))
        && (r.played.Some? ==> board.position == rules.play(old(board.position), r.played.value)
                               && board.moveStack == old(board.moveStack) + [r.played.value])
    {
      ClickKeepsConsistent(rules, board.position, selectedSquare, legalMoves, aiThinking, mx, my);
      if aiThinking || board.position.turn != White {
        return;
      }
      var sq := SquareUnderMouse(mx, my);
      if sq.None? {
        return;
      }
      var p := board.position;
      if selectedSquare.None? {
        if IsWhitePiece(p, sq.value) {
          selectedSquare := sq;
          legalMoves := TargetsFrom(rules.legalMoves(p), sq.value);
        }
      } else {
        var mv := FindMove(rules.legalMoves(p), selectedSquare.value, sq.value);
        if mv.Some? {
          var promoted := AutoPromote(p, mv.value);
          board.Push(promoted);
          selectedSquare := None;
          legalMoves := [];
          if !rules.isGameOver(board.position) {
            aiThinking := true;
          }
        } else if IsWhitePiece(p, sq.value) {
          selectedSquare := sq;
          legalMoves := TargetsFrom(rules.legalMoves(p), sq.value);
        } else {
          selectedSquare := None;
          legalMoves := [];
        }
      }
    }

    /**
     * `ai_random_move()`, with `random.choice` given as the index `pick`.
     * The event loop calls it only while the AI is thinking.
     */
    method AiRandomMove(pick: nat)
      requires Valid() && aiThinking
      requires |rules.legalMoves(board.position)| > 0 ==> pick < |rules.legalMoves(board.position)|
      modifies this, board
      ensures Valid() && board == old(board) && !aiThinking
      ensures selectedSquare == old(selectedSquare) && legalMoves == old(legalMoves)
      ensures var ms := rules.legalMoves(old(board.position));
        && (ms == [] ==> board.position == old(board.position) && board.moveStack == old(board.moveStack))
        && (ms != [] ==> var mv := AutoPromote(old(board.position), ms[pick]);
              board.position == rules.play(old(board.position), mv) && board.moveStack == old(board.moveStack) + [mv])
    {
      var moves := rules.legalMoves(board.position);
      if moves == [] {
        aiThinking := false;
        return;
      }
      var mv := moves[pick];
      mv := AutoPromote(board.position, mv);
      board.Push(mv);
      aiThinking := false;
    }
  }
}
