/**
 * The part of the python-chess library that the engine, the evaluators and
 * the GUI consume: colours, piece types, squares, moves, positions, the
 * rules engine as a record of oracles, and the board object with its move
 * stack (push/pop).
 */
module Chess {

  datatype Option<T> = None | Some(value: T)

  datatype Color = White | Black

  function Opponent(c: Color): (o: Color)
    ensures o != c && (o == White || o == Black)
  {
    if c == White then Black else White
  }

  /** Piece kinds, in python-chess order (PAWN = 1 ... KING = 6). */
  datatype PieceType = Pawn | Knight | Bishop | Rook | Queen | King

  /** The integer python-chess uses for a piece kind (`piece.piece_type`). */
  function TypeNumber(t: PieceType): (n: int)
    ensures 1 <= n <= 6
    ensures t == Pawn <==> n == 1
    ensures t == King <==> n == 6
  {
    match t
    case Pawn => 1
    case Knight => 2
    case Bishop => 3
    case Rook => 4
    case Queen => 5
    case King => 6
  }

  datatype Piece = Piece(pieceType: PieceType, color: Color)

  /** Squares are numbered 0 (a1) to 63 (h8), rank by rank. */
  type Square = x: int | 0 <= x < 64

  function SquareFile(sq: Square): (f: int)
    ensures 0 <= f < 8
  {
    sq % 8
  }

  function SquareRank(sq: Square): (r: int)
    ensures 0 <= r < 8
  {
    sq / 8
  }

  /** `chess.square(file, rank)` */
  function MakeSquare(file: int, rank: int): (sq: Square)
    requires 0 <= file < 8 && 0 <= rank < 8
    ensures SquareFile(sq) == file && SquareRank(sq) == rank
  {
    rank * 8 + file
  }

  lemma SquareOfFileAndRank(sq: Square)
    ensures MakeSquare(SquareFile(sq), SquareRank(sq)) == sq
  {
  }

  datatype Move = Move(fromSquare: Square, toSquare: Square, promotion: Option<PieceType>)

  /**
   * A position: the piece placement, the side to move, and the three
   * game-ending conditions the evaluator and the GUI ask the library about
   * (`is_checkmate`, `is_stalemate`, `is_insufficient_material`), taken as
   * given flags.
   */
  datatype Position = Position(
    pieces: map<Square, Piece>,
    turn: Color,
    checkmate: bool,
    stalemate: bool,
    insufficientMaterial: bool)

  /** `board.piece_at(sq)` */
  function PieceAt(p: Position, sq: Square): Option<Piece>
  {
    if sq in p.pieces then Some(p.pieces[sq]) else None
  }

  /** `board.piece_type_at(sq)` */
  function PieceTypeAt(p: Position, sq: Square): Option<PieceType>
  {
    if sq in p.pieces then Some(p.pieces[sq].pieceType) else None
  }

  /** `board.pieces(t, c)`: the squares holding a piece of kind t and colour c. */
  function PieceSquares(p: Position, t: PieceType, c: Color): set<Square>
  {
    set sq | sq in p.pieces && p.pieces[sq] == Piece(t, c)
  }

  /** The number of pieces of kind t and colour c. */
  function PieceCount(p: Position, t: PieceType, c: Color): nat
  {
    |PieceSquares(p, t, c)|
  }

  /**
   * The rules engine, consumed as oracles: legal-move generation, the
   * position a pushed move leads to, `is_game_over` and `is_capture`.
   */
  datatype Rules = Rules(
    legalMoves: Position -> seq<Move>,
    play: (Position, Move) -> Position,
    isGameOver: Position -> bool,
    isCapture: (Position, Move) -> bool)

  /**
   * The mutable board object: the current position and the move stack.
   * `history` holds the position before each pushed move, which is what
   * `pop` restores.
   */
  class ChessBoard {
    const rules: Rules
    var position: Position
    var moveStack: seq<Move>
    var history: seq<Position>

    ghost predicate Valid()
      reads this
    {
      |history| == |moveStack|
    }

    constructor (rules: Rules, start: Position)
      ensures Valid()
      ensures this.rules == rules && position == start
      ensures moveStack == [] && history == []
    {
      this.rules := rules;
      position := start;
      moveStack := [];
      history := [];
    }

    /** `board.push(m)` */
    method Push(m: Move)
      requires Valid()
      modifies this
      ensures Valid()
      ensures position == rules.play(old(position), m)
      ensures moveStack == old(moveStack) + [m]
      ensures history == old(history) + [old(position)]
    {
      history := history + [position];
      moveStack := moveStack + [m];
      position := rules.play(position, m);
    }

    /** `board.pop()`: undoes the last pushed move and returns it. */
    method Pop() returns (m: Move)
      requires Valid() && |moveStack| > 0
      modifies this
      ensures Valid()
      ensures m == old(moveStack)[|old(moveStack)| - 1]
      ensures moveStack == old(moveStack)[..|old(moveStack)| - 1]
      ensures history == old(history)[..|old(history)| - 1]
      ensures position == old(history)[|old(history)| - 1]
    {
      m := moveStack[|moveStack| - 1];
      position := history[|history| - 1];
      moveStack := moveStack[..|moveStack| - 1];
      history := history[..|history| - 1];
    }
  }
}
