/**
 * `improved_eval`: terminal scores first, then material plus a bonus for
 * occupying the four centre squares. The scale is absolute: positive
 * favours White.
 */
module Evaluation {
  import opened Chess
  import Utils

  const MATE_SCORE: int := 1_000_000

  /** D4, E4, D5, E5 in python-chess numbering (a1 = 0, h8 = 63). */
  const CENTER_SQUARES: seq<Square> := [27, 28, 35, 36]

  /** What the centre loop adds for one square: +20 white piece, -20 black piece, 0 empty. */
  function CenterBonus(p: Position, sq: Square): (b: int)
    ensures b == 0 <==> sq !in p.pieces
    ensures b == 20 <==> sq in p.pieces && p.pieces[sq].color == White
    ensures b == -20 <==> sq in p.pieces && p.pieces[sq].color == Black
  {
    match PieceAt(p, sq)
    case None => 0
    case Some(pc) => if pc.color == White then 20 else assert pc.color == Black; -20
  }

  /** The centre term after the loop has visited the squares `sqs`, in order. */
  function CenterOver(p: Position, sqs: seq<Square>): int
  {
    if sqs == [] then 0
    else CenterOver(p, sqs[..|sqs| - 1]) + CenterBonus(p, sqs[|sqs| - 1])
  }

  /** The centre-control term. */
  function Center(p: Position): int
  {
    CenterOver(p, CENTER_SQUARES)
  }

  /** The value `improved_eval` computes, stated on values. */
  function ImprovedScore(p: Position): int
  {
    if p.checkmate then (if p.turn == White then -MATE_SCORE else MATE_SCORE)
    else if p.stalemate || p.insufficientMaterial then 0
    else Utils.Material(p) + Center(p)
  }

  /** `improved_eval(board)` */
  method ImprovedEval(p: Position) returns (score: int)
    ensures score == ImprovedScore(p)
  {
    if p.checkmate {
      return if p.turn == White then -MATE_SCORE else MATE_SCORE;
    }
    if p.stalemate || p.insufficientMaterial {
      return 0;
    }
    var types := Utils.PIECE_TYPES;
    score := 0;
    for i := 0 to |types|
      invariant score == Utils.MaterialOver(p, types[..i])
    {
      var t := types[i];
      assert types[..i + 1][..i] == types[..i];
      score := score + PieceCount(p, t, White) * Utils.PieceValue(t);
      score := score - PieceCount(p, t, Black) * Utils.PieceValue(t);
    }
    assert types[..|types|] == types;
    ghost var material := score;
    for j := 0 to |CENTER_SQUARES|
      invariant score == material + CenterOver(p, CENTER_SQUARES[..j])
    {
      var sq := CENTER_SQUARES[j];
      assert CENTER_SQUARES[..j + 1][..j] == CENTER_SQUARES[..j];
      match PieceAt(p, sq)
      case Some(piece) =>
        if piece.color == White {
          score := score + 20;
        } else {
          score := score - 20;
        }
      case None =>
    }
    assert CENTER_SQUARES[..|CENTER_SQUARES|] == CENTER_SQUARES;
  }

  /** The centre term written out square by square. */
  lemma CenterExpanded(p: Position)
    ensures Center(p) == CenterBonus(p, 27) + CenterBonus(p, 28) + CenterBonus(p, 35) + CenterBonus(p, 36)
  {
    assert CENTER_SQUARES[..3] == [27, 28, 35];
    assert [27, 28, 35][..2] == [27, 28];
    assert [27, 28][..1] == [27];
    assert [27][..0] == [];
    calc {
      Center(p);
      CenterOver(p, [27, 28, 35]) + CenterBonus(p, 36);
      CenterOver(p, [27, 28]) + CenterBonus(p, 35) + CenterBonus(p, 36);
      CenterOver(p, [27]) + CenterBonus(p, 28) + CenterBonus(p, 35) + CenterBonus(p, 36);
      CenterOver(p, []) + CenterBonus(p, 27) + CenterBonus(p, 28) + CenterBonus(p, 35) + CenterBonus(p, 36);
    }
  }

  /** The centre term lies in [-80, 80], a multiple of 20. */
  lemma CenterBounds(p: Position)
    ensures -80 <= Center(p) <= 80 && Center(p) % 20 == 0
  {
    CenterExpanded(p);
  }

  /** A checkmated White scores -MATE_SCORE and a checkmated Black +MATE_SCORE, before any draw test. */
  lemma CheckmateScore(p: Position)
    requires p.checkmate
    ensures ImprovedScore(p) == (if p.turn == White then -MATE_SCORE else MATE_SCORE)
    ensures ImprovedScore(p) != 0
  {
  }

  /** Stalemate or insufficient material (without checkmate) scores 0. */
  lemma DrawScore(p: Position)
    requires !p.checkmate && (p.stalemate || p.insufficientMaterial)
    ensures ImprovedScore(p) == 0
  {
  }

  /** On a non-terminal board `improved_eval` is `simple_eval` plus the centre term. */
  lemma ImprovedIsSimplePlusCenter(p: Position)
    requires !p.checkmate && !p.stalemate && !p.insufficientMaterial
    ensures ImprovedScore(p) == Utils.Material(p) + Center(p)
    ensures Utils.Material(p) - 80 <= ImprovedScore(p) <= Utils.Material(p) + 80
  {
    CenterBounds(p);
  }

  /** Swapping the colour of every piece negates the score of a non-terminal board. */
  lemma ImprovedColorSwap(p: Position)
    requires !p.checkmate && !p.stalemate && !p.insufficientMaterial
    ensures ImprovedScore(Utils.ColorSwapped(p)) == -ImprovedScore(p)
  {
    var q := Utils.ColorSwapped(p);
    Utils.MaterialColorSwap(p);
    CenterExpanded(p);
    CenterExpanded(q);
  }

  /** Every score `improved_eval` can produce lies strictly inside the search window (-10^9, 10^9). */
  lemma ImprovedScoreBound(p: Position)
    ensures -1_417_680 <= ImprovedScore(p) <= 1_417_680
  {
    Utils.MaterialBound(p);
    CenterBounds(p);
  }
}
