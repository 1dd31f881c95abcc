/**
 * `simple_eval`: the material-only score, White positive, over the piece
 * value table PAWN 100, KNIGHT 320, BISHOP 330, ROOK 500, QUEEN 900,
 * KING 20000.
 */
module Utils {
  import opened Chess

  /** The keys of `piece_values`, in insertion order (the loop's order). */
  const PIECE_TYPES: seq<PieceType> := [Pawn, Knight, Bishop, Rook, Queen, King]

  function PieceValue(t: PieceType): (v: int)
    ensures 100 <= v <= 20000
  {
    match t
    case Pawn => 100
    case Knight => 320
    case Bishop => 330
    case Rook => 500
    case Queen => 900
    case King => 20000
  }

  /** What one loop step adds: (white count - black count) times the value. */
  function TypeBalance(p: Position, t: PieceType): int
  {
    PieceCount(p, t, White) * PieceValue(t) - PieceCount(p, t, Black) * PieceValue(t)
  }

  /** The score after the loop has visited the piece kinds `ts`, in order. */
  function MaterialOver(p: Position, ts: seq<PieceType>): int
  {
    if ts == [] then 0
    else MaterialOver(p, ts[..|ts| - 1]) + TypeBalance(p, ts[|ts| - 1])
  }

  /** The material balance: the sum of TypeBalance over all six kinds. */
  function Material(p: Position): int
  {
    MaterialOver(p, PIECE_TYPES)
  }

  /** `simple_eval(board)` */
  method SimpleEval(p: Position) returns (score: int)
    ensures score == Material(p)
  {
    score := 0;
    for i := 0 to |PIECE_TYPES|
      invariant score == MaterialOver(p, PIECE_TYPES[..i])
    {
      var t := PIECE_TYPES[i];
      assert PIECE_TYPES[..i + 1][..i] == PIECE_TYPES[..i];
      score := score + PieceCount(p, t, White) * PieceValue(t);
      score := score - PieceCount(p, t, Black) * PieceValue(t);
    }
    assert PIECE_TYPES[..|PIECE_TYPES|] == PIECE_TYPES;
  }

  /** The material balance written out kind by kind. */
  lemma MaterialExpanded(p: Position)
    ensures Material(p) == TypeBalance(p, Pawn) + TypeBalance(p, Knight) + TypeBalance(p, Bishop)
                         + TypeBalance(p, Rook) + TypeBalance(p, Queen) + TypeBalance(p, King)
  {
    assert PIECE_TYPES[..5] == [Pawn, Knight, Bishop, Rook, Queen];
    assert [Pawn, Knight, Bishop, Rook, Queen][..4] == [Pawn, Knight, Bishop, Rook];
    assert [Pawn, Knight, Bishop, Rook][..3] == [Pawn, Knight, Bishop];
    assert [Pawn, Knight, Bishop][..2] == [Pawn, Knight];
    assert [Pawn, Knight][..1] == [Pawn];
    assert [Pawn][..0] == [];
    calc {
      Material(p);
      MaterialOver(p, [Pawn, Knight, Bishop, Rook, Queen]) + TypeBalance(p, King);
      MaterialOver(p, [Pawn, Knight, Bishop, Rook]) + TypeBalance(p, Queen) + TypeBalance(p, King);
      MaterialOver(p, [Pawn, Knight, Bishop]) + TypeBalance(p, Rook) + TypeBalance(p, Queen) + TypeBalance(p, King);
      MaterialOver(p, [Pawn, Knight]) + TypeBalance(p, Bishop) + TypeBalance(p, Rook)
        + TypeBalance(p, Queen) + TypeBalance(p, King);
      MaterialOver(p, [Pawn]) + TypeBalance(p, Knight) + TypeBalance(p, Bishop) + TypeBalance(p, Rook)
        + TypeBalance(p, Queen) + TypeBalance(p, King);
      MaterialOver(p, []) + TypeBalance(p, Pawn) + TypeBalance(p, Knight) + TypeBalance(p, Bishop)
        + TypeBalance(p, Rook) + TypeBalance(p, Queen) + TypeBalance(p, King);
    }
  }

  /** Every piece kind of a colour turned into the other colour. */
  function ColorSwapped(p: Position): Position
  {
    p.(pieces := map sq | sq in p.pieces :: Piece(p.pieces[sq].pieceType, Opponent(p.pieces[sq].color)))
  }

  lemma CountsSwap(p: Position, t: PieceType)
    ensures PieceCount(ColorSwapped(p), t, White) == PieceCount(p, t, Black)
    ensures PieceCount(ColorSwapped(p), t, Black) == PieceCount(p, t, White)
  {
    assert PieceSquares(ColorSwapped(p), t, White) == PieceSquares(p, t, Black);
    assert PieceSquares(ColorSwapped(p), t, Black) == PieceSquares(p, t, White);
  }

  /** Swapping the colour of every piece negates `simple_eval`. */
  lemma MaterialColorSwap(p: Position)
    ensures Material(ColorSwapped(p)) == -Material(p)
  {
    MaterialExpanded(p);
    MaterialExpanded(ColorSwapped(p));
    CountsSwap(p, Pawn);
    CountsSwap(p, Knight);
    CountsSwap(p, Bishop);
    CountsSwap(p, Rook);
    CountsSwap(p, Queen);
    CountsSwap(p, King);
  }

  /** A position with the same number of white and black pieces of every kind scores 0. */
  lemma MaterialBalanced(p: Position)
    requires forall t :: PieceCount(p, t, White) == PieceCount(p, t, Black)
    ensures Material(p) == 0
  {
    MaterialExpanded(p);
  }

  /** Placing a piece on an empty square changes only the count of its kind and colour. */
  lemma CountsAfterPlacing(p: Position, sq: Square, pc: Piece, t: PieceType, c: Color)
    requires sq !in p.pieces
    ensures PieceCount(p.(pieces := p.pieces[sq := pc]), t, c)
         == PieceCount(p, t, c) + (if pc == Piece(t, c) then 1 else 0)
  {
    var q := p.(pieces := p.pieces[sq := pc]);
    if pc == Piece(t, c) {
      assert PieceSquares(q, t, c) == PieceSquares(p, t, c) + {sq};
    } else {
      assert PieceSquares(q, t, c) == PieceSquares(p, t, c);
    }
  }

  /** The balance of one kind after placing a piece on an empty square. */
  lemma TypeBalanceAfterPlacing(p: Position, sq: Square, pc: Piece, t: PieceType)
    requires sq !in p.pieces
    ensures TypeBalance(p.(pieces := p.pieces[sq := pc]), t)
         == TypeBalance(p, t) + (if pc.pieceType != t then 0
                                 else if pc.color == White then PieceValue(t) else -PieceValue(t))
  {
    CountsAfterPlacing(p, sq, pc, t, White);
    CountsAfterPlacing(p, sq, pc, t, Black);
    match t
    case Pawn => {}
    case Knight => {}
    case Bishop => {}
    case Rook => {}
    case Queen => {}
    case King => {}
  }

  /**
   * Adding one piece of kind t on an empty square raises `simple_eval` by
   * the value of t for a white piece and lowers it by that value for a
   * black one.
   */
  lemma MaterialAfterPlacing(p: Position, sq: Square, pc: Piece)
    requires sq !in p.pieces
    ensures Material(p.(pieces := p.pieces[sq := pc]))
         == Material(p) + (if pc.color == White then PieceValue(pc.pieceType) else -PieceValue(pc.pieceType))
  {
    var q := p.(pieces := p.pieces[sq := pc]);
    MaterialExpanded(p);
    MaterialExpanded(q);
    TypeBalanceAfterPlacing(p, sq, pc, Pawn);
    TypeBalanceAfterPlacing(p, sq, pc, Knight);
    TypeBalanceAfterPlacing(p, sq, pc, Bishop);
    TypeBalanceAfterPlacing(p, sq, pc, Rook);
    TypeBalanceAfterPlacing(p, sq, pc, Queen);
    TypeBalanceAfterPlacing(p, sq, pc, King);
  }

  /** `simple_eval` reads the piece placement only: not the side to move, not the game status. */
  lemma MaterialIgnoresStatus(p: Position, q: Position)
    requires p.pieces == q.pieces
    ensures Material(p) == Material(q)
  {
    MaterialExpanded(p);
    MaterialExpanded(q);
  }

  /** A set of squares has at most 64 members. */
  lemma {:induction false} SquareSetBound(s: set<Square>, n: nat)
    requires n <= 64 && forall sq :: sq in s ==> sq < n
    ensures |s| <= n
  {
    if n > 0 {
      var s' := s - {n - 1};
      SquareSetBound(s', n - 1);
      assert s <= s' + {n - 1};
      assert |s| <= |s' + {n - 1}| <= |s'| + 1;
    } else {
      assert s == {};
    }
  }

  lemma CountAtMost64(p: Position, t: PieceType, c: Color)
    ensures PieceCount(p, t, c) <= 64
  {
    SquareSetBound(PieceSquares(p, t, c), 64);
  }

  lemma TypeBalanceBound(p: Position, t: PieceType)
    ensures -64 * PieceValue(t) <= TypeBalance(p, t) <= 64 * PieceValue(t)
  {
    CountAtMost64(p, t, White);
    CountAtMost64(p, t, Black);
    match t
    case Pawn => {}
    case Knight => {}
    case Bishop => {}
    case Rook => {}
    case Queen => {}
    case King => {}
  }

  /**
   * On any board (at most 64 pieces of each kind and colour) the material
   * balance stays far inside the search's infinity bound 10^9.
   */
  lemma MaterialBound(p: Position)
    ensures -1_417_600 <= Material(p) <= 1_417_600
  {
    MaterialExpanded(p);
    TypeBalanceBound(p, Pawn);
    TypeBalanceBound(p, Knight);
    TypeBalanceBound(p, Bishop);
    TypeBalanceBound(p, Rook);
    TypeBalanceBound(p, Queen);
    TypeBalanceBound(p, King);
  }
}
