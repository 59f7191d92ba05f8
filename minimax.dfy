/**
 * The search exactly as the engine writes it: depth-limited minimax over the
 * board's legal moves, collecting every move tied at the best score. Its
 * "alpha-beta" step only ever raises `alpha` (with `max`, on both sides) and
 * never changes `beta`; the search stops scanning a node's moves once
 * `beta <= alpha`. The running best score starts from the sentinels -9999
 * (white) and 9999 (black), while the default window is [-10000, 10000].
 */
module Minimax {
  import opened Chess
  import opened Evaluator

  /** What `minimax` returns: `(best_eval, best_moves)`. */
  datatype Outcome = Outcome(eval: int, moves: seq<Move>)

  const DefaultDepth: nat := 3
  const DefaultAlpha: int := -10000
  const DefaultBeta: int := 10000

  /** The score `best_eval` starts from before any move is looked at. */
  function Sentinel(white: bool): int
  {
    if white then -9999 else 9999
  }

  /** `compare(a, b)`: strictly better for the side to move. */
  predicate Better(white: bool, a: int, b: int)
  {
    if white then a > b else a < b
  }

  function Max(a: int, b: int): int
  {
    if a >= b then a else b
  }

  /** One step of the tie collection: a strictly better score restarts the list, an equal one joins it. */
  function Tally(white: bool, acc: Outcome, current: int, move: Move): Outcome
  {
    if Better(white, current, acc.eval) then Outcome(current, [move])
    else if current == acc.eval then Outcome(acc.eval, acc.moves + [move])
    else acc
  }

  /**
   * What one step of the tie collection keeps: the new best is the old best
   * or the new score, and neither is strictly better than it; the move is
   * appended exactly when its score is the new best, after the old ties if
   * the best did not change and alone otherwise; a worse score changes nothing.
   */
  lemma TallyKeepsBest(white: bool, acc: Outcome, current: int, move: Move)
    ensures var r := Tally(white, acc, current, move);
            && (r.eval == acc.eval || r.eval == current)
            && !Better(white, acc.eval, r.eval) && !Better(white, current, r.eval)
            && (current == r.eval ==> r.moves == (if current == acc.eval then acc.moves else []) + [move])
            && (current != r.eval ==> r == acc)
  {
  }

  /**
   * `minimax(board, depth, alpha, beta, white)` on the position reached by the
   * move stack `stack`, as a value.
   */
  function Search(rules: Rules, stack: seq<Move>, depth: nat, alpha: int, beta: int, white: bool): (r: Outcome)
    ensures |r.moves| <= |rules.legalMoves(stack)|
    decreases depth, 1, 0
  {
    var moves := rules.legalMoves(stack);
    if depth == 0 || moves == [] then Outcome(Material(rules.pieceMap(stack)), [])
    else Scan(rules, stack, depth, moves, 0, alpha, beta, white, Outcome(Sentinel(white), []))
  }

  /**
   * The `for` loop of `minimax` from the `i`-th legal move on, with the
   * running `alpha` and the running `(best_eval, best_moves)` in `acc`.
   */
  function Scan(rules: Rules, stack: seq<Move>, depth: nat, moves: seq<Move>, i: nat,
                alpha: int, beta: int, white: bool, acc: Outcome): (r: Outcome)
    requires 1 <= depth && i <= |moves|
    ensures |r.moves| <= |acc.moves| + |moves| - i
    decreases depth, 0, |moves| - i
  {
    if i == |moves| then acc
    else
      var current := Search(rules, stack + [moves[i]], depth - 1, alpha, beta, !white).eval;
      var acc' := Tally(white, acc, current, moves[i]);
      var alpha' := Max(alpha, current);
      if beta <= alpha' then acc'
      else Scan(rules, stack, depth, moves, i + 1, alpha', beta, white, acc')
  }

  /**
   * `minimax`: pushes each legal move onto the shared board, searches the
   * reply one ply shallower for the other side, and pops the move again
   * before comparing, so the board's move stack is the same on return.
   */
  method Minimax(board: Board, depth: nat := DefaultDepth, alpha: int := DefaultAlpha,
                 beta: int := DefaultBeta, white: bool := true)
    returns (bestEval: int, bestMoves: seq<Move>)
    modifies board
    decreases depth
    ensures board.moveStack == old(board.moveStack)
    ensures depth == 0 || board.LegalMoves() == [] ==>
              bestEval == Material(board.PieceMap()) && bestMoves == []
    ensures Outcome(bestEval, bestMoves) == Search(board.rules, board.moveStack, depth, alpha, beta, white)
  {
    var legalMoves := board.LegalMoves();
    if depth == 0 || legalMoves == [] {
      bestEval := Evaluation(board);
      bestMoves := [];
      return;
    }
    bestMoves := [];
    if white {
      bestEval := -9999;
    } else {
      bestEval := 9999;
    }
    var a := alpha;
    ghost var result := Search(board.rules, board.moveStack, depth, alpha, beta, white);
    var i := 0;
    while i < |legalMoves|
      invariant i <= |legalMoves|
      invariant board.moveStack == old(board.moveStack)
      invariant result == Scan(board.rules, board.moveStack, depth, legalMoves, i, a, beta, white, Outcome(bestEval, bestMoves))
    {
      var move := legalMoves[i];
      board.Push(move);
      var currentEval, _ := Minimax(board, depth - 1, a, beta, !white);
      var undone := board.Pop();
      if Better(white, currentEval, bestEval) {
        bestEval := currentEval;
        bestMoves := [move];
      } else if currentEval == bestEval {
        bestMoves := bestMoves + [move];
      }
      a := Max(a, currentEval);
      if beta <= a {
        break;
      }
      i := i + 1;
    }
  }
}
