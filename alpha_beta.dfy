/**
 * `AlphaBetaMinimax`: iterative-deepening, fail-soft alpha-beta search in
 * max/min form on an absolute score scale (White maximises), with optional
 * MVV-LVA move ordering, a node counter and an optional wall-clock limit.
 *
 * The engine is the class `AlphaBetaMinimax`; its methods are proved equal
 * to the pure functions `AlphaBetaValue` and `IterativeDeepening`, and those
 * are related by lemmas to the plain minimax reference `Minimax`.
 */
module AlphaBeta {
  import opened Chess
  import Utils
  import Evaluation

  const INF: int := 1_000_000_000

  /** The rules engine and the evaluator the engine was built with. */
  datatype Game = Game(rules: Rules, evaluate: Position -> int)

  /**
   * The wall clock: the k-th reading of `time.time()` since the engine was
   * built returns `now(k)`; `start` is the reading taken when `search`
   * began. A limit of None or 0 is "no limit" (Python truthiness).
   */
  datatype Clock = Clock(timeLimit: Option<int>, now: nat -> int, start: int)

  predicate Limited(timeLimit: Option<int>)
  {
    timeLimit.Some? && timeLimit.value != 0
  }

  /** The node counter and the number of clock readings taken so far. */
  datatype Counters = Counters(nodes: nat, clockReads: nat)

  /** What `max_value`/`min_value` return, plus the counters afterwards. */
  datatype Outcome = Outcome(value: int, move: Option<Move>, counters: Counters)

  function Max(a: int, b: int): int { if a >= b then a else b }

  function Min(a: int, b: int): int { if a <= b then a else b }

  /**
   * The deadline test: with a non-zero limit, read the clock and compare the
   * time elapsed since the start with the limit; without one, never read it.
   */
  function DeadlineCheck(clk: Clock, c: Counters): (r: (bool, Counters))
    ensures r.1.nodes == c.nodes
    ensures !Limited(clk.timeLimit) ==> r == (false, c)
    ensures Limited(clk.timeLimit) ==>
      r.1.clockReads == c.clockReads + 1 && (r.0 <==> clk.now(c.clockReads) - clk.start > clk.timeLimit.value)
  {
    if Limited(clk.timeLimit) then
      (clk.now(c.clockReads) - clk.start > clk.timeLimit.value, c.(clockReads := c.clockReads + 1))
    else
      (false, c)
  }

  // ---------------------------------------------------------------------
  // Move ordering
  // ---------------------------------------------------------------------

  /** The inner `mvv_lva` key of `order_moves`. */
  function MvvLva(rules: Rules, p: Position, m: Move): (k: int)
    ensures !rules.isCapture(p, m) ==> k == 0
    ensures rules.isCapture(p, m) && m.toSquare in p.pieces ==> 4 <= k <= 59
    ensures rules.isCapture(p, m) && m.toSquare !in p.pieces ==> -6 <= k <= -1
  {
    if rules.isCapture(p, m) then
      var victim := match PieceAt(p, m.toSquare)
        case Some(pc) => TypeNumber(pc.pieceType)
        case None => 0;
      var attacker := match PieceAt(p, m.fromSquare)
        case Some(pc) => TypeNumber(pc.pieceType)
        case None => 1;
      victim * 10 - attacker
    else
      0
  }

  /**
   * Most valuable victim first: a capture of a heavier piece always ranks
   * above a capture of a lighter one, whatever the attackers; a capture
   * ranks above a quiet move except en passant (no piece on the target
   * square), which ranks below every quiet move.
   */
  lemma MvvLvaRanking(rules: Rules, p: Position, m1: Move, m2: Move)
    requires rules.isCapture(p, m1) && m1.toSquare in p.pieces
    ensures rules.isCapture(p, m2) && m2.toSquare in p.pieces
            && TypeNumber(p.pieces[m1.toSquare].pieceType) > TypeNumber(p.pieces[m2.toSquare].pieceType)
            ==> MvvLva(rules, p, m1) > MvvLva(rules, p, m2)
    ensures !rules.isCapture(p, m2) ==> MvvLva(rules, p, m1) > MvvLva(rules, p, m2)
    ensures rules.isCapture(p, m2) && m2.toSquare !in p.pieces ==> MvvLva(rules, p, m2) < 0
  {
  }

  /** Places m in front of the first element whose key is not larger (stable, descending). */
  function InsertByKey(key: Move -> int, m: Move, s: seq<Move>): (r: seq<Move>)
    ensures multiset(r) == multiset(s) + multiset{m}
    ensures |r| == |s| + 1
  {
    if s == [] then [m]
    else if key(m) >= key(s[0]) then [m] + s
    else
      assert s == [s[0]] + s[1..];
      [s[0]] + InsertByKey(key, m, s[1..])
  }

  /** The descending stable sort of the move list, on values: an insertion sort. */
  function SortByKey(key: Move -> int, ms: seq<Move>): (r: seq<Move>)
    ensures multiset(r) == multiset(ms)
  {
    if ms == [] then []
    else
      assert ms == [ms[0]] + ms[1..];
      InsertByKey(key, ms[0], SortByKey(key, ms[1..]))
  }

  predicate NonIncreasing(key: Move -> int, s: seq<Move>)
  {
    forall i, j :: 0 <= i < j < |s| ==> key(s[i]) >= key(s[j])
  }

  /** The subsequence of s whose key is k (the order among equal keys). */
  function WithKey(key: Move -> int, s: seq<Move>, k: int): seq<Move>
  {
    if s == [] then []
    else (if key(s[0]) == k then [s[0]] else []) + WithKey(key, s[1..], k)
  }

  lemma NonIncreasingTail(key: Move -> int, s: seq<Move>)
    requires NonIncreasing(key, s) && s != []
    ensures NonIncreasing(key, s[1..])
    ensures forall x :: x in s[1..] ==> key(s[0]) >= key(x)
  {
    forall i, j | 0 <= i < j < |s[1..]| ensures key(s[1..][i]) >= key(s[1..][j]) {
      assert s[1..][i] == s[i + 1] && s[1..][j] == s[j + 1];
    }
    forall x | x in s[1..] ensures key(s[0]) >= key(x) {
      var t :| 0 <= t < |s[1..]| && s[1..][t] == x;
      assert s[1..][t] == s[t + 1];
    }
  }

  lemma NonIncreasingCons(key: Move -> int, x: Move, s: seq<Move>)
    requires NonIncreasing(key, s)
    requires forall y :: y in s ==> key(x) >= key(y)
    ensures NonIncreasing(key, [x] + s)
  {
    var r := [x] + s;
    forall i, j | 0 <= i < j < |r| ensures key(r[i]) >= key(r[j]) {
      assert r[j] == s[j - 1];
      if i > 0 {
        assert r[i] == s[i - 1];
      } else {
        assert s[j - 1] in s;
      }
    }
  }

  lemma {:induction false} InsertKeepsOrder(key: Move -> int, m: Move, s: seq<Move>)
    requires NonIncreasing(key, s)
    ensures NonIncreasing(key, InsertByKey(key, m, s))
  {
    if s != [] && key(m) < key(s[0]) {
      var rest := InsertByKey(key, m, s[1..]);
      NonIncreasingTail(key, s);
      InsertKeepsOrder(key, m, s[1..]);
      forall y | y in rest ensures key(s[0]) >= key(y) {
        assert y in multiset(rest);
      }
      NonIncreasingCons(key, s[0], rest);
    } else if s != [] {
      forall y | y in s ensures key(m) >= key(y) {
        NonIncreasingTail(key, s);
        if y != s[0] {
          assert y in s[1..] by {
            var t :| 0 <= t < |s| && s[t] == y;
            assert s[1..][t - 1] == y;
          }
        }
      }
      NonIncreasingCons(key, m, s);
    }
  }

  /** WithKey of a sequence with a known head. */
  lemma WithKeyCons(key: Move -> int, x: Move, s: seq<Move>, k: int)
    ensures WithKey(key, [x] + s, k) == (if key(x) == k then [x] else []) + WithKey(key, s, k)
  {
    assert ([x] + s)[0] == x && ([x] + s)[1..] == s;
  }

  /** Inserting m puts it ahead of every element with the same key. */
  lemma {:induction false} InsertWithKey(key: Move -> int, m: Move, s: seq<Move>, k: int)
    ensures WithKey(key, InsertByKey(key, m, s), k) == (if key(m) == k then [m] else []) + WithKey(key, s, k)
  {
    if s == [] {
      WithKeyCons(key, m, [], k);
    } else if key(m) >= key(s[0]) {
      WithKeyCons(key, m, s, k);
    } else {
      var rest := InsertByKey(key, m, s[1..]);
      InsertWithKey(key, m, s[1..], k);
      WithKeyCons(key, s[0], rest, k);
      WithKeyCons(key, s[0], s[1..], k);
      assert [s[0]] + s[1..] == s;
      var tail := WithKey(key, s[1..], k);
      if key(m) == k {
        assert key(s[0]) != k;
        assert WithKey(key, rest, k) == [m] + tail;
      } else if key(s[0]) == k {
        assert WithKey(key, rest, k) == tail;
        assert WithKey(key, s, k) == [s[0]] + tail;
      } else {
        assert WithKey(key, rest, k) == tail;
      }
    }
  }

  /**
   * The stable descending sort returns a permutation of its input, sorted
   * non-increasingly by key, and keeps the input order among equal keys.
   */
  lemma {:induction false} SortByKeySpec(key: Move -> int, ms: seq<Move>)
    ensures multiset(SortByKey(key, ms)) == multiset(ms)
    ensures NonIncreasing(key, SortByKey(key, ms))
    ensures forall k :: WithKey(key, SortByKey(key, ms), k) == WithKey(key, ms, k)
  {
    if ms != [] {
      var sorted := SortByKey(key, ms[1..]);
      SortByKeySpec(key, ms[1..]);
      InsertKeepsOrder(key, ms[0], sorted);
      forall k ensures WithKey(key, SortByKey(key, ms), k) == WithKey(key, ms, k) {
        InsertWithKey(key, ms[0], sorted, k);
      }
    }
  }

  /** `order_moves(board)` */
  function OrderMoves(rules: Rules, useMoveOrdering: bool, p: Position): (moves: seq<Move>)
    ensures multiset(moves) == multiset(rules.legalMoves(p))
    ensures !useMoveOrdering ==> moves == rules.legalMoves(p)
  {
    if !useMoveOrdering then rules.legalMoves(p)
    else SortByKey(m => MvvLva(rules, p, m), rules.legalMoves(p))
  }

  /**
   * `order_moves` returns a permutation of the legal moves: the legal moves
   * themselves when ordering is off, otherwise sorted non-increasingly by
   * MVV-LVA with ties in their original order.
   */
  lemma OrderMovesSpec(rules: Rules, useMoveOrdering: bool, p: Position)
    ensures multiset(OrderMoves(rules, useMoveOrdering, p)) == multiset(rules.legalMoves(p))
    ensures forall m :: m in OrderMoves(rules, useMoveOrdering, p) <==> m in rules.legalMoves(p)
    ensures !useMoveOrdering ==> OrderMoves(rules, useMoveOrdering, p) == rules.legalMoves(p)
    ensures useMoveOrdering ==>
      var key := m => MvvLva(rules, p, m);
      NonIncreasing(key, OrderMoves(rules, useMoveOrdering, p))
      && forall k :: WithKey(key, OrderMoves(rules, useMoveOrdering, p), k) == WithKey(key, rules.legalMoves(p), k)
  {
    var moves := OrderMoves(rules, useMoveOrdering, p);
    if useMoveOrdering {
      SortByKeySpec(m => MvvLva(rules, p, m), rules.legalMoves(p));
    }
    forall m ensures m in moves <==> m in rules.legalMoves(p) {
      assert m in moves <==> m in multiset(moves);
    }
  }

  // ---------------------------------------------------------------------
  // The plain minimax reference
  // ---------------------------------------------------------------------

  function Worst(maximizing: bool): int
  {
    if maximizing then -INF else INF
  }

  function Better(maximizing: bool, a: int, b: int): int
  {
    if maximizing then Max(a, b) else Min(a, b)
  }

  /** Plain minimax without pruning, over the legal moves in the library's order. */
  function Minimax(g: Game, p: Position, depth: nat, maximizing: bool): int
    decreases depth, 1
  {
    if depth == 0 || g.rules.isGameOver(p) then g.evaluate(p)
    else BestChild(g, p, depth, maximizing, g.rules.legalMoves(p), Worst(maximizing))
  }

  /** Folds the children's minimax values into `acc`, left to right. */
  function BestChild(g: Game, p: Position, depth: nat, maximizing: bool, ms: seq<Move>, acc: int): int
    requires depth > 0
    decreases depth, 0, |ms|
  {
    if ms == [] then acc
    else BestChild(g, p, depth, maximizing, ms[1..], Better(maximizing, acc, ChildValue(g, p, depth, maximizing, ms[0])))
  }

  /** The minimax value of the position a move leads to. */
  function ChildValue(g: Game, p: Position, depth: nat, maximizing: bool, m: Move): int
    requires depth > 0
    decreases depth - 1, 2
  {
    Minimax(g, g.rules.play(p, m), depth - 1, !maximizing)
  }

  /** The fold is the best of `acc` and all children, and is one of them. */
  lemma {:induction false} BestChildBounds(g: Game, p: Position, depth: nat, maximizing: bool, ms: seq<Move>, acc: int)
    requires depth > 0
    ensures var r := BestChild(g, p, depth, maximizing, ms, acc);
      && (maximizing ==> r >= acc && forall m :: m in ms ==> r >= ChildValue(g, p, depth, maximizing, m))
      && (!maximizing ==> r <= acc && forall m :: m in ms ==> r <= ChildValue(g, p, depth, maximizing, m))
      && (r == acc || exists m :: m in ms && r == ChildValue(g, p, depth, maximizing, m))
  {
    if ms != [] {
      var acc' := Better(maximizing, acc, ChildValue(g, p, depth, maximizing, ms[0]));
      BestChildBounds(g, p, depth, maximizing, ms[1..], acc');
      var r := BestChild(g, p, depth, maximizing, ms, acc);
      assert r == BestChild(g, p, depth, maximizing, ms[1..], acc');
      forall m | m in ms ensures m == ms[0] || m in ms[1..] {
        var i :| 0 <= i < |ms| && ms[i] == m;
        if i > 0 { assert ms[1..][i - 1] == m; }
      }
      if r != acc' {
        var m :| m in ms[1..] && r == ChildValue(g, p, depth, maximizing, m);
        assert m in ms;
      } else if acc' != acc {
        assert r == ChildValue(g, p, depth, maximizing, ms[0]) && ms[0] in ms;
      }
    }
  }

  /** The minimax fold does not depend on the order (or repetition) of the moves. */
  lemma BestChildSameMoves(g: Game, p: Position, depth: nat, maximizing: bool, ms1: seq<Move>, ms2: seq<Move>, acc: int)
    requires depth > 0
    requires forall m :: m in ms1 <==> m in ms2
    ensures BestChild(g, p, depth, maximizing, ms1, acc) == BestChild(g, p, depth, maximizing, ms2, acc)
  {
    BestChildBounds(g, p, depth, maximizing, ms1, acc);
    BestChildBounds(g, p, depth, maximizing, ms2, acc);
  }

  // ---------------------------------------------------------------------
  // Alpha-beta, on values
  // ---------------------------------------------------------------------

  /**
   * `max_value` (maximizing) and `min_value` (not maximizing): count the
   * node, test the deadline, stop at depth 0 or at a finished game, else
   * search the ordered moves.
   */
  function AlphaBetaValue(g: Game, ordering: bool, clk: Clock, p: Position, depth: nat,
                          alpha: int, beta: int, maximizing: bool, c: Counters): Outcome
    decreases depth, 1
  {
    var c1 := c.(nodes := c.nodes + 1);
    var (expired, c2) := DeadlineCheck(clk, c1);
    if expired || depth == 0 || g.rules.isGameOver(p) then Outcome(g.evaluate(p), None, c2)
    else SearchMoves(g, ordering, clk, p, depth, alpha, beta, maximizing,
                     OrderMoves(g.rules, ordering, p), 0, Worst(maximizing), None, c2)
  }

  /**
   * The move loop from move i on, with the running value, best move and
   * (for a max node) alpha or (for a min node) beta: push, search the child
   * with the current window, pop, keep a strictly better value, tighten the
   * window, and stop as soon as alpha >= beta.
   */
  function SearchMoves(g: Game, ordering: bool, clk: Clock, p: Position, depth: nat,
                       alpha: int, beta: int, maximizing: bool, moves: seq<Move>, i: nat,
                       value: int, best: Option<Move>, c: Counters): Outcome
    requires depth > 0 && i <= |moves|
    decreases depth, 0, |moves| - i
  {
    if i == |moves| then Outcome(value, best, c)
    else
      var child := AlphaBetaValue(g, ordering, clk, g.rules.play(p, moves[i]), depth - 1, alpha, beta, !maximizing, c);
      var improves := if maximizing then child.value > value else child.value < value;
      var value' := if improves then child.value else value;
      var best' := if improves then Some(moves[i]) else best;
      var alpha' := if maximizing then Max(alpha, value') else alpha;
      var beta' := if maximizing then beta else Min(beta, value');
      if alpha' >= beta' then Outcome(value', best', child.counters)
      else SearchMoves(g, ordering, clk, p, depth, alpha', beta', maximizing, moves, i + 1, value', best', child.counters)
  }

  /**
   * Fail-soft: a result strictly inside the window is the true value, a
   * result at or below alpha is an upper bound on it, a result at or above
   * beta a lower bound.
   */
  predicate FailSoft(r: int, v: int, alpha: int, beta: int)
  {
    && (alpha < r < beta ==> r == v)
    && (r <= alpha ==> v <= r)
    && (r >= beta ==> v >= r)
  }

  /** One step of the max loop, on numbers: c is the child's result, vc its true value. */
  lemma MaxStep(value: int, acc: int, alpha0: int, beta0: int, alpha: int, c: int, vc: int)
    requires alpha0 < beta0 && value < beta0 && alpha == Max(alpha0, value) && alpha < beta0
    requires FailSoft(value, acc, alpha0, beta0)
    requires FailSoft(c, vc, alpha, beta0)
    ensures var value' := if c > value then c else value;
      && (value' >= beta0 ==> value' == c && vc >= c)
      && (value' < beta0 ==> FailSoft(value', Max(acc, vc), alpha0, beta0))
      && (c > value && alpha0 < value' < beta0 ==> vc == c)
  {
  }

  /** One step of the min loop, on numbers. */
  lemma MinStep(value: int, acc: int, alpha0: int, beta0: int, beta: int, c: int, vc: int)
    requires alpha0 < beta0 && value > alpha0 && beta == Min(beta0, value) && alpha0 < beta
    requires FailSoft(value, acc, alpha0, beta0)
    requires FailSoft(c, vc, alpha0, beta)
    ensures var value' := if c < value then c else value;
      && (value' <= alpha0 ==> value' == c && vc <= c)
      && (value' > alpha0 ==> FailSoft(value', Min(acc, vc), alpha0, beta0))
      && (c < value && alpha0 < value' < beta0 ==> vc == c)
  {
  }

  /**
   * With no deadline, alpha-beta on any window -INF <= alpha < beta <= INF
   * is fail-soft with respect to plain minimax; when the result lies
   * strictly inside the window, the returned move is a legal move whose
   * child has exactly that minimax value.
   */
  lemma {:induction false} AlphaBetaFailSoft(g: Game, ordering: bool, clk: Clock, p: Position, depth: nat,
                                             alpha: int, beta: int, maximizing: bool, c: Counters)
    requires !Limited(clk.timeLimit)
    requires -INF <= alpha < beta <= INF
    ensures var r := AlphaBetaValue(g, ordering, clk, p, depth, alpha, beta, maximizing, c);
      && FailSoft(r.value, Minimax(g, p, depth, maximizing), alpha, beta)
      && (alpha < r.value < beta && depth > 0 && !g.rules.isGameOver(p) ==>
            r.move.Some? && r.move.value in g.rules.legalMoves(p)
            && ChildValue(g, p, depth, maximizing, r.move.value) == r.value)
    decreases depth, 1
  {
    if depth > 0 && !g.rules.isGameOver(p) {
      var moves := OrderMoves(g.rules, ordering, p);
      var c2 := c.(nodes := c.nodes + 1);
      OrderMovesSpec(g.rules, ordering, p);
      SearchMovesFailSoft(g, ordering, clk, p, depth, alpha, beta, maximizing, moves, 0,
                          Worst(maximizing), None, c2, alpha, beta, Worst(maximizing));
      assert moves[0..] == moves;
      BestChildSameMoves(g, p, depth, maximizing, moves, g.rules.legalMoves(p), Worst(maximizing));
    }
  }

  lemma {:induction false} SearchMovesFailSoft(g: Game, ordering: bool, clk: Clock, p: Position, depth: nat,
                                               alpha: int, beta: int, maximizing: bool, moves: seq<Move>, i: nat,
                                               value: int, best: Option<Move>, c: Counters,
                                               alpha0: int, beta0: int, acc: int)
    requires !Limited(clk.timeLimit)
    requires depth > 0 && i <= |moves|
    requires -INF <= alpha0 < beta0 <= INF
    requires FailSoft(value, acc, alpha0, beta0)
    requires maximizing ==> beta == beta0 && alpha == Max(alpha0, value) && alpha < beta && value < beta0
    requires !maximizing ==> alpha == alpha0 && beta == Min(beta0, value) && alpha < beta && value > alpha0
    requires alpha0 < value < beta0 ==> best.Some? && best.value in moves
                                         && ChildValue(g, p, depth, maximizing, best.value) == value
    ensures var r := SearchMoves(g, ordering, clk, p, depth, alpha, beta, maximizing, moves, i, value, best, c);
      && FailSoft(r.value, BestChild(g, p, depth, maximizing, moves[i..], acc), alpha0, beta0)
      && (alpha0 < r.value < beta0 ==> r.move.Some? && r.move.value in moves
                                       && ChildValue(g, p, depth, maximizing, r.move.value) == r.value)
    decreases depth, 0, |moves| - i
  {
    if i < |moves| {
      var m := moves[i];
      var q := g.rules.play(p, m);
      var child := AlphaBetaValue(g, ordering, clk, q, depth - 1, alpha, beta, !maximizing, c);
      var vc := ChildValue(g, p, depth, maximizing, m);
      AlphaBetaFailSoft(g, ordering, clk, q, depth - 1, alpha, beta, !maximizing, c);
      assert moves[i..][0] == m && moves[i..][1..] == moves[i + 1..];
      var acc' := Better(maximizing, acc, vc);
      assert BestChild(g, p, depth, maximizing, moves[i..], acc) == BestChild(g, p, depth, maximizing, moves[i + 1..], acc');
      var improves := if maximizing then child.value > value else child.value < value;
      var value' := if improves then child.value else value;
      var best' := if improves then Some(m) else best;
      var alpha' := if maximizing then Max(alpha, value') else alpha;
      var beta' := if maximizing then beta else Min(beta, value');
      if maximizing {
        MaxStep(value, acc, alpha0, beta0, alpha, child.value, vc);
      } else {
        MinStep(value, acc, alpha0, beta0, beta, child.value, vc);
      }
      if alpha' >= beta' {
        BestChildBounds(g, p, depth, maximizing, moves[i + 1..], acc');
      } else {
        SearchMovesFailSoft(g, ordering, clk, p, depth, alpha', beta', maximizing, moves, i + 1,
                            value', best', child.counters, alpha0, beta0, acc');
      }
    }
  }

  /** Minimax values stay within [-INF, INF] when the evaluator does. */
  lemma {:induction false} MinimaxRange(g: Game, p: Position, depth: nat, maximizing: bool)
    requires EvalInsideWindow(g)
    ensures -INF <= Minimax(g, p, depth, maximizing) <= INF
    decreases depth, 1
  {
    if depth > 0 && !g.rules.isGameOver(p) {
      BestChildRange(g, p, depth, maximizing, g.rules.legalMoves(p), Worst(maximizing));
    }
  }

  lemma {:induction false} BestChildRange(g: Game, p: Position, depth: nat, maximizing: bool, ms: seq<Move>, acc: int)
    requires EvalInsideWindow(g) && depth > 0 && -INF <= acc <= INF
    ensures -INF <= BestChild(g, p, depth, maximizing, ms, acc) <= INF
    decreases depth, 0, |ms|
  {
    if ms != [] {
      MinimaxRange(g, g.rules.play(p, ms[0]), depth - 1, !maximizing);
      BestChildRange(g, p, depth, maximizing, ms[1..],
                     Better(maximizing, acc, ChildValue(g, p, depth, maximizing, ms[0])));
    }
  }

  /**
   * With no deadline, alpha-beta called with the full window (-INF, INF)
   * returns exactly the plain minimax value: pruning changes only the node
   * count.
   */
  lemma AlphaBetaExact(g: Game, ordering: bool, clk: Clock, p: Position, depth: nat, maximizing: bool, c: Counters)
    requires !Limited(clk.timeLimit) && EvalInsideWindow(g)
    ensures AlphaBetaValue(g, ordering, clk, p, depth, -INF, INF, maximizing, c).value
         == Minimax(g, p, depth, maximizing)
  {
    AlphaBetaFailSoft(g, ordering, clk, p, depth, -INF, INF, maximizing, c);
    MinimaxRange(g, p, depth, maximizing);
  }

  // ---------------------------------------------------------------------
  // Properties that hold with or without a deadline
  // ---------------------------------------------------------------------

  /** Every evaluation lies strictly inside (-INF, INF). */
  ghost predicate EvalInsideWindow(g: Game)
  {
    forall p :: -INF < g.evaluate(p) < INF
  }

  /** The rules engine's promise: a game that is not over has a legal move. */
  ghost predicate MovesWhileLive(rules: Rules)
  {
    forall p :: !rules.isGameOver(p) ==> |rules.legalMoves(p)| > 0
  }

  /**
   * At depth 0, at a finished game, or when the deadline has passed on
   * entry, a node returns its static evaluation and no move.
   */
  lemma AlphaBetaLeaf(g: Game, ordering: bool, clk: Clock, p: Position, depth: nat,
                      alpha: int, beta: int, maximizing: bool, c: Counters)
    requires depth == 0 || g.rules.isGameOver(p)
          || (Limited(clk.timeLimit) && clk.now(c.clockReads) - clk.start > clk.timeLimit.value)
    ensures var r := AlphaBetaValue(g, ordering, clk, p, depth, alpha, beta, maximizing, c);
      r.value == g.evaluate(p) && r.move == None
      && r.counters.nodes == c.nodes + 1
      && r.counters.clockReads == c.clockReads + (if Limited(clk.timeLimit) then 1 else 0)
  {
  }

  /**
   * Whatever the clock: a returned move is legal at the node, every call
   * counts at least its own node, and the clock is read only when a limit
   * is set.
   */
  lemma {:induction false} AlphaBetaMoveAndCounters(g: Game, ordering: bool, clk: Clock, p: Position, depth: nat,
                                                    alpha: int, beta: int, maximizing: bool, c: Counters)
    ensures var r := AlphaBetaValue(g, ordering, clk, p, depth, alpha, beta, maximizing, c);
      && (r.move.Some? ==> r.move.value in g.rules.legalMoves(p))
      && r.counters.nodes > c.nodes
      && r.counters.clockReads >= c.clockReads
      && (!Limited(clk.timeLimit) ==> r.counters.clockReads == c.clockReads)
    decreases depth, 1
  {
    var c1 := c.(nodes := c.nodes + 1);
    var (expired, c2) := DeadlineCheck(clk, c1);
    if !(expired || depth == 0 || g.rules.isGameOver(p)) {
      var moves := OrderMoves(g.rules, ordering, p);
      OrderMovesSpec(g.rules, ordering, p);
      SearchMovesMoveAndCounters(g, ordering, clk, p, depth, alpha, beta, maximizing, moves, 0,
                                 Worst(maximizing), None, c2);
    }
  }

  lemma {:induction false} SearchMovesMoveAndCounters(g: Game, ordering: bool, clk: Clock, p: Position, depth: nat,
                                                      alpha: int, beta: int, maximizing: bool, moves: seq<Move>, i: nat,
                                                      value: int, best: Option<Move>, c: Counters)
    requires depth > 0 && i <= |moves|
    requires best.Some? ==> best.value in moves
    ensures var r := SearchMoves(g, ordering, clk, p, depth, alpha, beta, maximizing, moves, i, value, best, c);
      && (r.move.Some? ==> r.move.value in moves)
      && r.counters.nodes >= c.nodes
      && r.counters.clockReads >= c.clockReads
      && (!Limited(clk.timeLimit) ==> r.counters.clockReads == c.clockReads)
    decreases depth, 0, |moves| - i
  {
    if i < |moves| {
      var child := AlphaBetaValue(g, ordering, clk, g.rules.play(p, moves[i]), depth - 1, alpha, beta, !maximizing, c);
      AlphaBetaMoveAndCounters(g, ordering, clk, g.rules.play(p, moves[i]), depth - 1, alpha, beta, !maximizing, c);
      var improves := if maximizing then child.value > value else child.value < value;
      var value' := if improves then child.value else value;
      var best' := if improves then Some(moves[i]) else best;
      var alpha' := if maximizing then Max(alpha, value') else alpha;
      var beta' := if maximizing then beta else Min(beta, value');
      if alpha' < beta' {
        SearchMovesMoveAndCounters(g, ordering, clk, p, depth, alpha', beta', maximizing, moves, i + 1,
                                   value', best', child.counters);
      }
    }
  }

  /**
   * With an evaluator strictly inside the window and a rules engine that
   * gives every live position a move, every node's value lies strictly
   * inside (-INF, INF), and a node that is searched (depth > 0, game not
   * over, deadline not passed on entry) always returns a move.
   */
  lemma {:induction false} AlphaBetaReturnsMove(g: Game, ordering: bool, clk: Clock, p: Position, depth: nat,
                                                alpha: int, beta: int, maximizing: bool, c: Counters)
    requires EvalInsideWindow(g) && MovesWhileLive(g.rules)
    ensures var r := AlphaBetaValue(g, ordering, clk, p, depth, alpha, beta, maximizing, c);
      && -INF < r.value < INF
      && (depth > 0 && !g.rules.isGameOver(p) && !DeadlineCheck(clk, c).0 ==> r.move.Some?)
    decreases depth, 1
  {
    var c1 := c.(nodes := c.nodes + 1);
    var (expired, c2) := DeadlineCheck(clk, c1);
    if !(expired || depth == 0 || g.rules.isGameOver(p)) {
      var moves := OrderMoves(g.rules, ordering, p);
      OrderMovesSpec(g.rules, ordering, p);
      assert |moves| > 0 by {
        assert multiset(moves) == multiset(g.rules.legalMoves(p));
        assert |g.rules.legalMoves(p)| > 0;
      }
      SearchMovesReturnsMove(g, ordering, clk, p, depth, alpha, beta, maximizing, moves, 0,
                             Worst(maximizing), None, c2);
    }
  }

  lemma {:induction false} SearchMovesReturnsMove(g: Game, ordering: bool, clk: Clock, p: Position, depth: nat,
                                                  alpha: int, beta: int, maximizing: bool, moves: seq<Move>, i: nat,
                                                  value: int, best: Option<Move>, c: Counters)
    requires EvalInsideWindow(g) && MovesWhileLive(g.rules)
    requires depth > 0 && i <= |moves|
    requires (-INF < value < INF && best.Some?) || (value == Worst(maximizing) && i < |moves|)
    ensures var r := SearchMoves(g, ordering, clk, p, depth, alpha, beta, maximizing, moves, i, value, best, c);
      -INF < r.value < INF && r.move.Some?
    decreases depth, 0, |moves| - i
  {
    if i < |moves| {
      var child := AlphaBetaValue(g, ordering, clk, g.rules.play(p, moves[i]), depth - 1, alpha, beta, !maximizing, c);
      AlphaBetaReturnsMove(g, ordering, clk, g.rules.play(p, moves[i]), depth - 1, alpha, beta, !maximizing, c);
      var improves := if maximizing then child.value > value else child.value < value;
      var value' := if improves then child.value else value;
      var best' := if improves then Some(moves[i]) else best;
      var alpha' := if maximizing then Max(alpha, value') else alpha;
      var beta' := if maximizing then beta else Min(beta, value');
      if alpha' < beta' {
        SearchMovesReturnsMove(g, ordering, clk, p, depth, alpha', beta', maximizing, moves, i + 1,
                               value', best', child.counters);
      }
    }
  }

  /**
   * With no deadline, a well-behaved evaluator and rules engine, and a
   * position where the game is not over, the root search at depth > 0
   * returns a legal move whose child has the position's minimax value.
   */
  lemma RootMoveIsOptimal(g: Game, ordering: bool, clk: Clock, p: Position, depth: nat, maximizing: bool, c: Counters)
    requires !Limited(clk.timeLimit) && EvalInsideWindow(g) && MovesWhileLive(g.rules)
    requires depth > 0 && !g.rules.isGameOver(p)
    ensures var r := AlphaBetaValue(g, ordering, clk, p, depth, -INF, INF, maximizing, c);
      && r.move.Some? && r.move.value in g.rules.legalMoves(p)
      && ChildValue(g, p, depth, maximizing, r.move.value) == Minimax(g, p, depth, maximizing)
  {
    AlphaBetaFailSoft(g, ordering, clk, p, depth, -INF, INF, maximizing, c);
    AlphaBetaReturnsMove(g, ordering, clk, p, depth, -INF, INF, maximizing, c);
  }

  /** Both evaluators of the program keep strictly inside the search window. */
  lemma EvaluatorsInsideWindow(rules: Rules)
    ensures EvalInsideWindow(Game(rules, Evaluation.ImprovedScore))
    ensures EvalInsideWindow(Game(rules, Utils.Material))
  {
    forall p ensures -INF < Evaluation.ImprovedScore(p) < INF && -INF < Utils.Material(p) < INF {
      Evaluation.ImprovedScoreBound(p);
      Utils.MaterialBound(p);
    }
  }

  // ---------------------------------------------------------------------
  // Iterative deepening, on values
  // ---------------------------------------------------------------------

  /**
   * The loop of `search` from `depth` on: search the root at this depth
   * with the full window as White (max) or Black (min), keep a non-None
   * move, and stop once the deadline has passed after an iteration.
   */
  function IterativeDeepening(g: Game, ordering: bool, clk: Clock, p: Position, depth: nat, maxDepth: int,
                              best: Option<Move>, c: Counters): (Option<Move>, Counters)
    requires depth >= 1
    decreases maxDepth - depth
  {
    if depth > maxDepth then (best, c)
    else
      var o := AlphaBetaValue(g, ordering, clk, p, depth, -INF, INF, p.turn == White, c);
      var best' := if o.move.Some? then o.move else best;
      var (expired, c') := DeadlineCheck(clk, o.counters);
      if expired then (best', c')
      else IterativeDeepening(g, ordering, clk, p, depth + 1, maxDepth, best', c')
  }

  /** One iteration of the driver, unfolded. */
  lemma IterativeDeepeningStep(g: Game, ordering: bool, clk: Clock, p: Position, depth: nat, maxDepth: int,
                               best: Option<Move>, c: Counters, o: Outcome, expired: bool, c': Counters)
    requires 1 <= depth <= maxDepth
    requires o == AlphaBetaValue(g, ordering, clk, p, depth, -INF, INF, p.turn == White, c)
    requires (expired, c') == DeadlineCheck(clk, o.counters)
    ensures var best' := if o.move.Some? then o.move else best;
      IterativeDeepening(g, ordering, clk, p, depth, maxDepth, best, c)
      == if expired then (best', c') else IterativeDeepening(g, ordering, clk, p, depth + 1, maxDepth, best', c')
  {
  }

  /** A move returned by the driver, on any clock, is legal at the root. */
  lemma {:induction false} IterativeDeepeningLegal(g: Game, ordering: bool, clk: Clock, p: Position, depth: nat,
                                                   maxDepth: int, best: Option<Move>, c: Counters)
    requires depth >= 1
    requires best.Some? ==> best.value in g.rules.legalMoves(p)
    ensures var r := IterativeDeepening(g, ordering, clk, p, depth, maxDepth, best, c);
      r.0.Some? ==> r.0.value in g.rules.legalMoves(p)
    decreases maxDepth - depth
  {
    if depth <= maxDepth {
      var o := AlphaBetaValue(g, ordering, clk, p, depth, -INF, INF, p.turn == White, c);
      AlphaBetaMoveAndCounters(g, ordering, clk, p, depth, -INF, INF, p.turn == White, c);
      var best' := if o.move.Some? then o.move else best;
      var (expired, c') := DeadlineCheck(clk, o.counters);
      if !expired {
        IterativeDeepeningLegal(g, ordering, clk, p, depth + 1, maxDepth, best', c');
      }
    }
  }

  /**
   * With no deadline and a live root, every iteration returns a move, so the
   * driver returns the move of the deepest iteration, which is a legal move
   * with the root's minimax value at max_depth.
   */
  lemma {:induction false} IterativeDeepeningUnlimited(g: Game, ordering: bool, clk: Clock, p: Position, depth: nat,
                                                       maxDepth: int, best: Option<Move>, c: Counters)
    requires !Limited(clk.timeLimit) && EvalInsideWindow(g) && MovesWhileLive(g.rules)
    requires !g.rules.isGameOver(p) && 1 <= depth <= maxDepth
    ensures var r := IterativeDeepening(g, ordering, clk, p, depth, maxDepth, best, c);
      && r.0.Some? && r.0.value in g.rules.legalMoves(p)
      && ChildValue(g, p, maxDepth, p.turn == White, r.0.value) == Minimax(g, p, maxDepth, p.turn == White)
    decreases maxDepth - depth
  {
    var o := AlphaBetaValue(g, ordering, clk, p, depth, -INF, INF, p.turn == White, c);
    RootMoveIsOptimal(g, ordering, clk, p, depth, p.turn == White, c);
    if depth < maxDepth {
      IterativeDeepeningUnlimited(g, ordering, clk, p, depth + 1, maxDepth, o.move, o.counters);
    }
  }

  /**
   * The driver returns no move when `max_depth` is below the first depth (no
   * iteration runs) and when the game at the root is over (every
   * iteration's root returns its evaluation and no move).
   */
  lemma {:induction false} IterativeDeepeningNoMove(g: Game, ordering: bool, clk: Clock, p: Position, depth: nat,
                                                    maxDepth: int, c: Counters)
    requires depth >= 1
    ensures maxDepth < depth ==> IterativeDeepening(g, ordering, clk, p, depth, maxDepth, None, c) == (None, c)
    ensures g.rules.isGameOver(p) ==> IterativeDeepening(g, ordering, clk, p, depth, maxDepth, None, c).0 == None
    decreases maxDepth - depth
  {
    if depth <= maxDepth && g.rules.isGameOver(p) {
      var o := AlphaBetaValue(g, ordering, clk, p, depth, -INF, INF, p.turn == White, c);
      var (expired, c') := DeadlineCheck(clk, o.counters);
      assert o.move == None;
      if !expired {
        IterativeDeepeningNoMove(g, ordering, clk, p, depth + 1, maxDepth, c');
      }
    }
  }

  /**
   * The deadline is also tested inside the root node: if every clock reading
   * from the start of the search on is past the limit, `search` returns
   * None even when legal moves exist.
   */
  lemma ExpiredSearchReturnsNone(g: Game, ordering: bool, clk: Clock, p: Position, maxDepth: int, c: Counters)
    requires Limited(clk.timeLimit)
    requires forall k :: k >= c.clockReads ==> clk.now(k) - clk.start > clk.timeLimit.value
    ensures maxDepth >= 1 ==> IterativeDeepening(g, ordering, clk, p, 1, maxDepth, None, c).0 == None
  {
    if maxDepth >= 1 {
      var o := AlphaBetaValue(g, ordering, clk, p, 1, -INF, INF, p.turn == White, c);
      assert clk.now(c.clockReads) - clk.start > clk.timeLimit.value;
      assert o.move == None && o.counters.clockReads == c.clockReads + 1;
      assert clk.now(c.clockReads + 1) - clk.start > clk.timeLimit.value;
    }
  }

  // ---------------------------------------------------------------------
  // The engine object
  // ---------------------------------------------------------------------

  class AlphaBetaMinimax {
    const evaluate: Position -> int
    const timeLimit: Option<int>
    const useMoveOrdering: bool
    /** The wall clock: reading number k returns now(k). */
    const now: nat -> int
    var nodes: nat
    var startTime: Option<int>
    /** How many times the clock has been read. */
    var clockReads: nat

    constructor (evaluate: Position -> int, timeLimit: Option<int>, useMoveOrdering: bool, now: nat -> int)
      ensures this.evaluate == evaluate && this.timeLimit == timeLimit
      ensures this.useMoveOrdering == useMoveOrdering && this.now == now
      ensures nodes == 0 && startTime == None && clockReads == 0
    {
      this.evaluate := evaluate;
      this.timeLimit := timeLimit;
      this.useMoveOrdering := useMoveOrdering;
      this.now := now;
      nodes := 0;
      startTime := None;
      clockReads := 0;
    }

    function Clk(): Clock
      reads this
    {
      Clock(timeLimit, now, if startTime.Some? then startTime.value else 0)
    }

    /** The deadline test of the engine object (see DeadlineCheck). */
    method DeadlinePassed() returns (expired: bool)
      requires Limited(timeLimit) ==> startTime.Some?
      modifies this`clockReads
      ensures (expired, Counters(nodes, clockReads)) == DeadlineCheck(Clk(), Counters(nodes, old(clockReads)))
    {
      if timeLimit.Some? && timeLimit.value != 0 {
        var t := now(clockReads);
        clockReads := clockReads + 1;
        expired := t - startTime.value > timeLimit.value;
      } else {
        expired := false;
      }
    }

    /** `max_value(board, depth, alpha, beta)` */
    method MaxValue(board: ChessBoard, depth: nat, alpha: int, beta: int) returns (value: int, bestMove: Option<Move>)
      requires board.Valid()
      requires Limited(timeLimit) ==> startTime.Some?
      modifies this, board
      decreases depth, 1
      ensures board.Valid() && board.position == old(board.position)
      ensures board.moveStack == old(board.moveStack) && board.history == old(board.history)
      ensures startTime == old(startTime)
      ensures Outcome(value, bestMove, Counters(nodes, clockReads))
           == AlphaBetaValue(Game(board.rules, evaluate), useMoveOrdering, Clk(), board.position,
                             depth, alpha, beta, true, Counters(old(nodes), old(clockReads)))
    {
      ghost var g := Game(board.rules, evaluate);
      ghost var p := board.position;
      ghost var target := AlphaBetaValue(g, useMoveOrdering, Clk(), p, depth, alpha, beta, true,
                                         Counters(old(nodes), old(clockReads)));
      nodes := nodes + 1;
      var expired := DeadlinePassed();
      if expired || depth == 0 || board.rules.isGameOver(board.position) {
        return evaluate(board.position), None;
      }
      value, bestMove := -INF, None;
      var moves := OrderMoves(board.rules, useMoveOrdering, board.position);
      var a := alpha;
      assert target == SearchMoves(g, useMoveOrdering, Clk(), p, depth, a, beta, true, moves, 0,
                                   value, bestMove, Counters(nodes, clockReads));
      for i := 0 to |moves|
        invariant board.Valid() && board.position == p
        invariant board.moveStack == old(board.moveStack) && board.history == old(board.history)
        invariant startTime == old(startTime)
        invariant target == SearchMoves(g, useMoveOrdering, Clk(), p, depth, a, beta, true, moves, i,
                                        value, bestMove, Counters(nodes, clockReads))
      {
        var m := moves[i];
        board.Push(m);
        var childValue, _ := MinValue(board, depth - 1, a, beta);
        var _ := board.Pop();
        if childValue > value {
          value := childValue;
          bestMove := Some(m);
        }
        a := Max(a, value);
        if a >= beta {
          break;
        }
      }
    }

    /** `min_value(board, depth, alpha, beta)` */
    method MinValue(board: ChessBoard, depth: nat, alpha: int, beta: int) returns (value: int, bestMove: Option<Move>)
      requires board.Valid()
      requires Limited(timeLimit) ==> startTime.Some?
      modifies this, board
      decreases depth, 1
      ensures board.Valid() && board.position == old(board.position)
      ensures board.moveStack == old(board.moveStack) && board.history == old(board.history)
      ensures startTime == old(startTime)
      ensures Outcome(value, bestMove, Counters(nodes, clockReads))
           == AlphaBetaValue(Game(board.rules, evaluate), useMoveOrdering, Clk(), board.position,
                             depth, alpha, beta, false, Counters(old(nodes), old(clockReads)))
    {
      ghost var g := Game(board.rules, evaluate);
      ghost var p := board.position;
      ghost var target := AlphaBetaValue(g, useMoveOrdering, Clk(), p, depth, alpha, beta, false,
                                         Counters(old(nodes), old(clockReads)));
      nodes := nodes + 1;
      var expired := DeadlinePassed();
      if expired || depth == 0 || board.rules.isGameOver(board.position) {
        return evaluate(board.position), None;
      }
      value, bestMove := INF, None;
      var moves := OrderMoves(board.rules, useMoveOrdering, board.position);
      var b := beta;
      assert target == SearchMoves(g, useMoveOrdering, Clk(), p, depth, alpha, b, false, moves, 0,
                                   value, bestMove, Counters(nodes, clockReads));
      for i := 0 to |moves|
        invariant board.Valid() && board.position == p
        invariant board.moveStack == old(board.moveStack) && board.history == old(board.history)
        invariant startTime == old(startTime)
        invariant target == SearchMoves(g, useMoveOrdering, Clk(), p, depth, alpha, b, false, moves, i,
                                        value, bestMove, Counters(nodes, clockReads))
      {
        var m := moves[i];
        board.Push(m);
        var childValue, _ := MaxValue(board, depth - 1, alpha, b);
        var _ := board.Pop();
        if childValue < value {
          value := childValue;
          bestMove := Some(m);
        }
        b := Min(b, value);
        if b <= alpha {
          break;
        }
      }
    }

    /**
     * One iteration of `search`: the root search at `depth` with the full
     * window, as White (max) or Black (min), keeping a returned move, then
     * the deadline test.
     */
    method Iterate(board: ChessBoard, depth: nat, best: Option<Move>) returns (best': Option<Move>, expired: bool)
      requires board.Valid()
      requires Limited(timeLimit) ==> startTime.Some?
      modifies this, board
      ensures board.Valid() && board.position == old(board.position)
      ensures board.moveStack == old(board.moveStack) && board.history == old(board.history)
      ensures startTime == old(startTime)
      ensures var o := AlphaBetaValue(Game(board.rules, evaluate), useMoveOrdering, Clk(), board.position,
                                      depth, -INF, INF, board.position.turn == White,
                                      Counters(old(nodes), old(clockReads)));
        && best' == (if o.move.Some? then o.move else best)
        && (expired, Counters(nodes, clockReads)) == DeadlineCheck(Clk(), o.counters)
    {
      var value: int, move: Option<Move>;
      if board.position.turn == White {
        value, move := MaxValue(board, depth, -INF, INF);
      } else {
        value, move := MinValue(board, depth, -INF, INF);
      }
      best' := if move.Some? then move else best;
      expired := DeadlinePassed();
    }

    /** `search(board, max_depth)` */
    method Search(board: ChessBoard, maxDepth: int) returns (bestMove: Option<Move>)
      requires board.Valid()
      modifies this, board
      ensures board.Valid() && board.position == old(board.position)
      ensures board.moveStack == old(board.moveStack) && board.history == old(board.history)
      ensures startTime == Some(now(old(clockReads)))
      ensures (bestMove, Counters(nodes, clockReads))
           == IterativeDeepening(Game(board.rules, evaluate), useMoveOrdering, Clk(), board.position,
                                 1, maxDepth, None, Counters(0, old(clockReads) + 1))
    {
      startTime := Some(now(clockReads));
      clockReads := clockReads + 1;
      nodes := 0;
      bestMove := None;
      ghost var g := Game(board.rules, evaluate);
      ghost var p := board.position;
      ghost var clk := Clk();
      ghost var target := IterativeDeepening(g, useMoveOrdering, clk, p, 1, maxDepth, None, Counters(nodes, clockReads));
      var depth := 1;
      while depth <= maxDepth
        invariant depth >= 1
        invariant board.Valid() && board.position == p
        invariant board.moveStack == old(board.moveStack) && board.history == old(board.history)
        invariant startTime == Some(now(old(clockReads))) && Clk() == clk
        invariant target == IterativeDeepening(g, useMoveOrdering, clk, p, depth, maxDepth, bestMove,
                                               Counters(nodes, clockReads))
        decreases maxDepth - depth
      {
        ghost var c0 := Counters(nodes, clockReads);
        ghost var best0 := bestMove;
        ghost var o := AlphaBetaValue(g, useMoveOrdering, clk, p, depth, -INF, INF, p.turn == White, c0);
        var expired;
        bestMove, expired := Iterate(board, depth, bestMove);
        IterativeDeepeningStep(g, useMoveOrdering, clk, p, depth, maxDepth, best0, c0, o, expired,
                               Counters(nodes, clockReads));
        if expired {
          break;
        }
        depth := depth + 1;
      }
    }
  }
}
