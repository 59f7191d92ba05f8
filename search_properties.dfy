/**
 * What the engine's search promises, proved of the model of the code as
 * written (`Minimax.Search`), and how it relates to plain minimax
 * (`GameTree.Value` and `GameTree.BestMoves`).
 */
module SearchProperties {
  import opened Chess
  import opened Evaluator
  import opened Minimax
  import opened GameTree

  /**
   * The score never leaves the sentinels' range when no leaf does, whatever
   * the window.
   */
  lemma {:induction false} SearchInRange(rules: Rules, stack: seq<Move>, depth: nat, alpha: int, beta: int, white: bool)
    requires BoundedLeaves(rules)
    ensures -9999 <= Search(rules, stack, depth, alpha, beta, white).eval <= 9999
    decreases depth, 1, 0
  {
    var moves := rules.legalMoves(stack);
    if depth != 0 && moves != [] {
      ScanInRange(rules, stack, depth, moves, 0, alpha, beta, white, Outcome(Sentinel(white), []));
    }
  }

  lemma {:induction false} ScanInRange(rules: Rules, stack: seq<Move>, depth: nat, moves: seq<Move>, i: nat,
                                       alpha: int, beta: int, white: bool, acc: Outcome)
    requires BoundedLeaves(rules) && 1 <= depth && i <= |moves|
    requires -9999 <= acc.eval <= 9999
    ensures -9999 <= Scan(rules, stack, depth, moves, i, alpha, beta, white, acc).eval <= 9999
    decreases depth, 0, |moves| - i
  {
    if i < |moves| {
      SearchInRange(rules, stack + [moves[i]], depth - 1, alpha, beta, !white);
      var current := Search(rules, stack + [moves[i]], depth - 1, alpha, beta, !white).eval;
      var alpha' := Max(alpha, current);
      if alpha' < beta {
        ScanInRange(rules, stack, depth, moves, i + 1, alpha', beta, white, Tally(white, acc, current, moves[i]));
      }
    }
  }

  /**
   * With at least one ply to search and at least one legal move, some move is
   * returned, whatever the window, when no leaf leaves the sentinels' range.
   */
  lemma {:induction false} SearchTiesNonEmpty(rules: Rules, stack: seq<Move>, depth: nat, alpha: int, beta: int, white: bool)
    requires BoundedLeaves(rules)
    requires depth >= 1 && rules.legalMoves(stack) != []
    ensures Search(rules, stack, depth, alpha, beta, white).moves != []
  {
    var moves := rules.legalMoves(stack);
    ScanNonEmpty(rules, stack, depth, moves, 0, alpha, beta, white, Outcome(Sentinel(white), []));
  }

  lemma {:induction false} ScanNonEmpty(rules: Rules, stack: seq<Move>, depth: nat, moves: seq<Move>, i: nat,
                                        alpha: int, beta: int, white: bool, acc: Outcome)
    requires BoundedLeaves(rules) && 1 <= depth && i <= |moves|
    requires -9999 <= acc.eval <= 9999
    requires acc.moves != [] || (i < |moves| && acc.eval == Sentinel(white))
    ensures Scan(rules, stack, depth, moves, i, alpha, beta, white, acc).moves != []
    decreases |moves| - i
  {
    if i < |moves| {
      SearchInRange(rules, stack + [moves[i]], depth - 1, alpha, beta, !white);
      var current := Search(rules, stack + [moves[i]], depth - 1, alpha, beta, !white).eval;
      var acc' := Tally(white, acc, current, moves[i]);
      assert acc'.moves != [];
      var alpha' := Max(alpha, current);
      if alpha' < beta {
        ScanNonEmpty(rules, stack, depth, moves, i + 1, alpha', beta, white, acc');
      }
    }
  }

  /**
   * Because `beta` never changes and `alpha` only grows, a node stops at the
   * first move whose value reaches `beta`, and the starting `alpha` matters
   * only in whether it already reaches `beta`: below `beta`, any two starting
   * values give the same result.
   */
  lemma {:induction false} SearchAlphaIrrelevant(rules: Rules, stack: seq<Move>, depth: nat,
                                                 alpha1: int, alpha2: int, beta: int, white: bool)
    requires alpha1 < beta && alpha2 < beta
    ensures Search(rules, stack, depth, alpha1, beta, white) == Search(rules, stack, depth, alpha2, beta, white)
    decreases depth, 1, 0
  {
    var moves := rules.legalMoves(stack);
    if depth != 0 && moves != [] {
      ScanAlphaIrrelevant(rules, stack, depth, moves, 0, alpha1, alpha2, beta, white, Outcome(Sentinel(white), []));
    }
  }

  lemma {:induction false} ScanAlphaIrrelevant(rules: Rules, stack: seq<Move>, depth: nat, moves: seq<Move>, i: nat,
                                               alpha1: int, alpha2: int, beta: int, white: bool, acc: Outcome)
    requires 1 <= depth && i <= |moves|
    requires alpha1 < beta && alpha2 < beta
    ensures Scan(rules, stack, depth, moves, i, alpha1, beta, white, acc)
         == Scan(rules, stack, depth, moves, i, alpha2, beta, white, acc)
    decreases depth, 0, |moves| - i
  {
    if i < |moves| {
      SearchAlphaIrrelevant(rules, stack + [moves[i]], depth - 1, alpha1, alpha2, beta, !white);
      var current := Search(rules, stack + [moves[i]], depth - 1, alpha1, beta, !white).eval;
      if current < beta {
        ScanAlphaIrrelevant(rules, stack, depth, moves, i + 1, Max(alpha1, current), Max(alpha2, current),
                            beta, white, Tally(white, acc, current, moves[i]));
      }
    }
  }

  /**
   * The returned moves come from the legal-move enumeration, in its order,
   * and every one of them leads to a position whose value is exactly the
   * returned score.
   */
  lemma {:induction false} SearchTies(rules: Rules, stack: seq<Move>, depth: nat, alpha: int, beta: int, white: bool)
    ensures var result := Search(rules, stack, depth, alpha, beta, white);
            && IsSubsequence(result.moves, rules.legalMoves(stack))
            && (result.moves != [] ==>
                  && depth >= 1
                  && forall m :: m in result.moves ==>
                       Search(rules, stack + [m], depth - 1, alpha, beta, !white).eval == result.eval)
  {
    var moves := rules.legalMoves(stack);
    if depth != 0 && moves != [] {
      ScanTies(rules, stack, depth, moves, 0, alpha, alpha, beta, white, Outcome(Sentinel(white), []));
    }
  }

  lemma {:induction false} ScanTies(rules: Rules, stack: seq<Move>, depth: nat, moves: seq<Move>, i: nat,
                                    alpha0: int, alpha: int, beta: int, white: bool, acc: Outcome)
    requires 1 <= depth && i <= |moves|
    requires alpha == alpha0 || (alpha0 < beta && alpha < beta)
    requires IsSubsequence(acc.moves, moves[..i])
    requires forall m :: m in acc.moves ==> Search(rules, stack + [m], depth - 1, alpha0, beta, !white).eval == acc.eval
    ensures var result := Scan(rules, stack, depth, moves, i, alpha, beta, white, acc);
            && IsSubsequence(result.moves, moves)
            && forall m :: m in result.moves ==> Search(rules, stack + [m], depth - 1, alpha0, beta, !white).eval == result.eval
    decreases |moves| - i
  {
    if i == |moves| {
      assert moves[..i] == moves;
    } else {
      var move := moves[i];
      var current := Search(rules, stack + [move], depth - 1, alpha, beta, !white).eval;
      if alpha != alpha0 {
        SearchAlphaIrrelevant(rules, stack + [move], depth - 1, alpha, alpha0, beta, !white);
      }
      var acc' := Tally(white, acc, current, move);
      assert moves[..i + 1] == moves[..i] + [move];
      if Better(white, current, acc.eval) {
        SubsequenceSingle(moves[..i], move);
      } else if current == acc.eval {
        SubsequenceAppend(acc.moves, moves[..i], move);
      } else {
        SubsequenceExtend(acc.moves, moves[..i], move);
      }
      var alpha' := Max(alpha, current);
      if beta <= alpha' {
        SubsequencePrefix(acc'.moves, moves, i + 1);
      } else {
        ScanTies(rules, stack, depth, moves, i + 1, alpha0, alpha', beta, white, acc');
      }
    }
  }

  /**
   * The running `(best_eval, best_moves)` of plain minimax after the first
   * `i` children, starting from the sentinel.
   */
  function Prefix(white: bool, moves: seq<Move>, vals: seq<int>, i: nat): Outcome
    requires |moves| == |vals| && i <= |vals|
  {
    if i == 0 then Outcome(Sentinel(white), [])
    else
      var best := Best(white, vals[..i]);
      Outcome(best, Ties(moves[..i], vals[..i], best))
  }

  /** One comparison of the loop extends the running best by one child, when scores stay within the sentinels. */
  lemma TallyStep(white: bool, moves: seq<Move>, vals: seq<int>, i: nat)
    requires |moves| == |vals| && i < |vals|
    requires forall j :: 0 <= j < |vals| ==> -9999 <= vals[j] <= 9999
    ensures Tally(white, Prefix(white, moves, vals, i), vals[i], moves[i]) == Prefix(white, moves, vals, i + 1)
  {
    var ms, vs := moves[..i + 1], vals[..i + 1];
    assert ms[..i] == moves[..i] && vs[..i] == vals[..i];
    if i == 0 {
      assert Ties(ms, vs, vals[0]) == Ties([], [], vals[0]) + [moves[0]];
    } else {
      var best := Best(white, vals[..i]);
      if Better(white, vals[i], best) {
        TiesNone(moves[..i], vals[..i], vals[i]);
      }
    }
  }

  /** Every child's plain minimax value lies within the sentinels when every leaf does. */
  lemma ChildValuesInRange(rules: Rules, stack: seq<Move>, depth: nat, white: bool)
    requires BoundedLeaves(rules) && depth >= 1
    ensures forall j :: 0 <= j < |ChildValues(rules, stack, depth, white)| ==>
              -9999 <= ChildValues(rules, stack, depth, white)[j] <= 9999
  {
    var moves, vals := rules.legalMoves(stack), ChildValues(rules, stack, depth, white);
    ChildValuesAt(rules, stack, depth, white);
    forall j | 0 <= j < |vals|
      ensures -9999 <= vals[j] <= 9999
    {
      ValueInRange(rules, stack + [moves[j]], depth - 1, !white);
    }
  }

  /**
   * One turn of the loop when the child's score is its plain minimax value:
   * no cutoff, and the running best grows by that child.
   */
  lemma {:induction false} AgreeStep(rules: Rules, stack: seq<Move>, depth: nat, i: nat, alpha: int, beta: int, white: bool)
    requires BoundedLeaves(rules) && alpha < beta && 9999 < beta
    requires 1 <= depth && i < |rules.legalMoves(stack)|
    decreases depth, 0, |rules.legalMoves(stack)| - i, 0
    ensures var moves, vals := rules.legalMoves(stack), ChildValues(rules, stack, depth, white);
            && Max(alpha, vals[i]) < beta
            && Scan(rules, stack, depth, moves, i, alpha, beta, white, Prefix(white, moves, vals, i))
               == Scan(rules, stack, depth, moves, i + 1, Max(alpha, vals[i]), beta, white, Prefix(white, moves, vals, i + 1))
  {
    var moves, vals := rules.legalMoves(stack), ChildValues(rules, stack, depth, white);
    var child := stack + [moves[i]];
    SearchAgreesWithPlain(rules, child, depth - 1, alpha, beta, !white);
    ValuesAfterAt(rules, stack, depth, moves, white, i);
    var current := Search(rules, child, depth - 1, alpha, beta, !white).eval;
    assert current == vals[i];
    ChildValuesInRange(rules, stack, depth, white);
    TallyStep(white, moves, vals, i);
  }

  lemma {:induction false} ScanAgrees(rules: Rules, stack: seq<Move>, depth: nat, i: nat,
                                      alpha: int, beta: int, white: bool)
    requires BoundedLeaves(rules) && alpha < beta && 9999 < beta
    requires 1 <= depth && i <= |rules.legalMoves(stack)|
    ensures var moves, vals := rules.legalMoves(stack), ChildValues(rules, stack, depth, white);
            Scan(rules, stack, depth, moves, i, alpha, beta, white, Prefix(white, moves, vals, i))
              == Prefix(white, moves, vals, |moves|)
    decreases depth, 0, |rules.legalMoves(stack)| - i, 1
  {
    var moves, vals := rules.legalMoves(stack), ChildValues(rules, stack, depth, white);
    if i < |moves| {
      AgreeStep(rules, stack, depth, i, alpha, beta, white);
      ScanAgrees(rules, stack, depth, i + 1, Max(alpha, vals[i]), beta, white);
    }
  }

  /**
   * While every leaf lies within the sentinels and `beta` lies above them,
   * the cutoff never fires and the search returns exactly plain minimax:
   * its value and all moves reaching it, in enumeration order.
   */
  lemma {:induction false} SearchAgreesWithPlain(rules: Rules, stack: seq<Move>, depth: nat, alpha: int, beta: int, white: bool)
    requires BoundedLeaves(rules) && alpha < beta && 9999 < beta
    ensures Search(rules, stack, depth, alpha, beta, white)
         == Outcome(Value(rules, stack, depth, white), BestMoves(rules, stack, depth, white))
    decreases depth, 1, 0, 0
  {
    var moves := rules.legalMoves(stack);
    if depth != 0 && moves != [] {
      var vals := ChildValues(rules, stack, depth, white);
      ScanAgrees(rules, stack, depth, 0, alpha, beta, white);
      assert moves[..|moves|] == moves && vals[..|vals|] == vals;
    }
  }

  /** With the default window, `minimax` is plain minimax. */
  lemma DefaultSearchIsPlain(rules: Rules, stack: seq<Move>, depth: nat, white: bool)
    requires BoundedLeaves(rules)
    ensures Search(rules, stack, depth, DefaultAlpha, DefaultBeta, white)
         == Outcome(Value(rules, stack, depth, white), BestMoves(rules, stack, depth, white))
  {
    SearchAgreesWithPlain(rules, stack, depth, DefaultAlpha, DefaultBeta, white);
  }

  /** With one legal move, the search at depth 1 or more returns that move and its value. */
  lemma SingleLegalMove(rules: Rules, stack: seq<Move>, depth: nat, white: bool, move: Move)
    requires BoundedLeaves(rules)
    requires depth >= 1 && rules.legalMoves(stack) == [move]
    ensures Search(rules, stack, depth, DefaultAlpha, DefaultBeta, white)
         == Outcome(Value(rules, stack + [move], depth - 1, !white), [move])
  {
    SearchAgreesWithPlain(rules, stack, depth, DefaultAlpha, DefaultBeta, white);
    var vals := ChildValues(rules, stack, depth, white);
    ChildValuesAt(rules, stack, depth, white);
    assert vals == [Value(rules, stack + [move], depth - 1, !white)];
    assert Ties([move], vals, vals[0]) == Ties([], [], vals[0]) + [move];
  }
}
