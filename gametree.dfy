/**
 * Plain minimax over the game tree, with no pruning and no sentinels: the
 * reference the engine's search is compared with. A node's value is the
 * material score at depth 0 or when no move is legal, and otherwise the
 * largest (white) or smallest (black) value of its children; its best moves
 * are the legal moves whose child has that value, in enumeration order.
 */
module GameTree {
  import opened Chess
  import opened Evaluator

  /** The largest element of a non-empty sequence. */
  function MaxOf(s: seq<int>): (m: int)
    requires s != []
    ensures m in s
    ensures forall i :: 0 <= i < |s| ==> s[i] <= m
  {
    if |s| == 1 then s[0]
    else
      var m' := MaxOf(s[..|s| - 1]);
      if s[|s| - 1] > m' then s[|s| - 1] else m'
  }

  /** The smallest element of a non-empty sequence. */
  function MinOf(s: seq<int>): (m: int)
    requires s != []
    ensures m in s
    ensures forall i :: 0 <= i < |s| ==> m <= s[i]
  {
    if |s| == 1 then s[0]
    else
      var m' := MinOf(s[..|s| - 1]);
      if s[|s| - 1] < m' then s[|s| - 1] else m'
  }

  /** The best of a non-empty sequence of scores for the side to move. */
  function Best(white: bool, s: seq<int>): int
    requires s != []
  {
    if white then MaxOf(s) else MinOf(s)
  }

  /** The moves `ms[i]` whose score `vs[i]` is `v`, in order. */
  function Ties(ms: seq<Move>, vs: seq<int>, v: int): seq<Move>
    requires |ms| == |vs|
  {
    if ms == [] then []
    else
      var n := |ms|;
      Ties(ms[..n - 1], vs[..n - 1], v) + (if vs[n - 1] == v then [ms[n - 1]] else [])
  }

  /** `s` is `t` with some elements left out, the rest kept in order. */
  predicate IsSubsequence<T(==)>(s: seq<T>, t: seq<T>)
    decreases |t|
  {
    s == [] ||
    (t != [] && if s[0] == t[0] then IsSubsequence(s[1..], t[1..]) else IsSubsequence(s, t[1..]))
  }

  /** The minimax value of the position reached by `stack`, looking `depth` plies ahead. */
  function Value(rules: Rules, stack: seq<Move>, depth: nat, white: bool): int
    decreases depth, 1, 0
  {
    var moves := rules.legalMoves(stack);
    if depth == 0 || moves == [] then Material(rules.pieceMap(stack))
    else Best(white, ChildValues(rules, stack, depth, white))
  }

  /** The minimax values of the positions one legal move away, in enumeration order. */
  function ChildValues(rules: Rules, stack: seq<Move>, depth: nat, white: bool): (vals: seq<int>)
    requires depth >= 1
    ensures |vals| == |rules.legalMoves(stack)|
    decreases depth, 0, |rules.legalMoves(stack)| + 1
  {
    ValuesAfter(rules, stack, depth, rules.legalMoves(stack), white)
  }

  /** The minimax values of the positions reached by each of `moves`. */
  function ValuesAfter(rules: Rules, stack: seq<Move>, depth: nat, moves: seq<Move>, white: bool): (vals: seq<int>)
    requires depth >= 1
    ensures |vals| == |moves|
    decreases depth, 0, |moves|
  {
    if moves == [] then []
    else
      var n := |moves|;
      ValuesAfter(rules, stack, depth, moves[..n - 1], white) + [Value(rules, stack + [moves[n - 1]], depth - 1, !white)]
  }

  lemma {:induction false} ValuesAfterAt(rules: Rules, stack: seq<Move>, depth: nat, moves: seq<Move>, white: bool, i: nat)
    requires depth >= 1 && i < |moves|
    ensures ValuesAfter(rules, stack, depth, moves, white)[i] == Value(rules, stack + [moves[i]], depth - 1, !white)
    decreases |moves|
  {
    var n := |moves|;
    if i < n - 1 {
      ValuesAfterAt(rules, stack, depth, moves[..n - 1], white, i);
    }
  }

  /** The `i`-th child value is the value of the position after the `i`-th legal move. */
  lemma ChildValuesAt(rules: Rules, stack: seq<Move>, depth: nat, white: bool)
    requires depth >= 1
    ensures forall i :: 0 <= i < |rules.legalMoves(stack)| ==>
              ChildValues(rules, stack, depth, white)[i]
                == Value(rules, stack + [rules.legalMoves(stack)[i]], depth - 1, !white)
  {
    var moves := rules.legalMoves(stack);
    forall i | 0 <= i < |moves|
      ensures ChildValues(rules, stack, depth, white)[i] == Value(rules, stack + [moves[i]], depth - 1, !white)
    {
      ValuesAfterAt(rules, stack, depth, moves, white, i);
    }
  }

  /** The legal moves that reach the minimax value, in enumeration order. */
  function BestMoves(rules: Rules, stack: seq<Move>, depth: nat, white: bool): seq<Move>
  {
    var moves := rules.legalMoves(stack);
    if depth == 0 || moves == [] then []
    else Ties(moves, ChildValues(rules, stack, depth, white), Value(rules, stack, depth, white))
  }

  /**
   * The ties are exactly the moves with score `v`: a subsequence of `ms`,
   * each of them paired with `v`, and none with score `v` missing.
   */
  lemma {:induction false} TiesExact(ms: seq<Move>, vs: seq<int>, v: int)
    requires |ms| == |vs|
    ensures IsSubsequence(Ties(ms, vs, v), ms)
    ensures forall m :: m in Ties(ms, vs, v) ==> exists i :: 0 <= i < |ms| && ms[i] == m && vs[i] == v
    ensures forall i :: 0 <= i < |ms| && vs[i] == v ==> ms[i] in Ties(ms, vs, v)
  {
    if ms != [] {
      var n := |ms|;
      var init, last := ms[..n - 1], ms[n - 1];
      TiesExact(init, vs[..n - 1], v);
      var t := Ties(init, vs[..n - 1], v);
      assert ms == init + [last];
      if vs[n - 1] == v {
        assert Ties(ms, vs, v) == t + [last];
        SubsequenceAppend(t, init, last);
      } else {
        assert Ties(ms, vs, v) == t;
        SubsequenceExtend(t, init, last);
      }
      forall m | m in Ties(ms, vs, v)
        ensures exists i :: 0 <= i < n && ms[i] == m && vs[i] == v
      {
        if m in t {
          var i :| 0 <= i < n - 1 && init[i] == m && vs[..n - 1][i] == v;
          assert ms[i] == m && vs[i] == v;
        } else {
          assert ms[n - 1] == m && vs[n - 1] == v;
        }
      }
      forall i | 0 <= i < n && vs[i] == v
        ensures ms[i] in Ties(ms, vs, v)
      {
        if i < n - 1 {
          assert init[i] == ms[i] && vs[..n - 1][i] == v;
        }
      }
    }
  }

  /** Nothing scores `v`, so nothing ties at `v`. */
  lemma {:induction false} TiesNone(ms: seq<Move>, vs: seq<int>, v: int)
    requires |ms| == |vs|
    requires forall i :: 0 <= i < |vs| ==> vs[i] != v
    ensures Ties(ms, vs, v) == []
  {
    if ms != [] {
      var n := |ms|;
      TiesNone(ms[..n - 1], vs[..n - 1], v);
    }
  }

  /** A subsequence stays one when the longer sequence grows. */
  lemma {:induction false} SubsequenceExtend<T>(s: seq<T>, t: seq<T>, x: T)
    requires IsSubsequence(s, t)
    ensures IsSubsequence(s, t + [x])
    decreases |t|
  {
    if s != [] {
      assert (t + [x])[1..] == t[1..] + [x];
      if s[0] == t[0] {
        SubsequenceExtend(s[1..], t[1..], x);
      } else {
        SubsequenceExtend(s, t[1..], x);
      }
    }
  }

  /** Appending the same element to both keeps the relation. */
  lemma {:induction false} SubsequenceAppend<T>(s: seq<T>, t: seq<T>, x: T)
    requires IsSubsequence(s, t)
    ensures IsSubsequence(s + [x], t + [x])
    decreases |t|
  {
    if s == [] {
      assert s + [x] == [x];
      SubsequenceSingle(t, x);
    } else {
      assert (t + [x])[1..] == t[1..] + [x];
      assert (s + [x])[1..] == s[1..] + [x];
      if s[0] == t[0] {
        SubsequenceAppend(s[1..], t[1..], x);
      } else {
        SubsequenceAppend(s, t[1..], x);
      }
    }
  }

  lemma {:induction false} SubsequenceSingle<T>(t: seq<T>, x: T)
    ensures IsSubsequence([x], t + [x])
    decreases |t|
  {
    if t != [] {
      assert (t + [x])[1..] == t[1..] + [x];
      if x != t[0] {
        SubsequenceSingle(t[1..], x);
      }
    }
  }

  /** A subsequence of a prefix of `t` is a subsequence of `t`. */
  lemma {:induction false} SubsequencePrefix<T>(s: seq<T>, t: seq<T>, k: nat)
    requires k <= |t| && IsSubsequence(s, t[..k])
    ensures IsSubsequence(s, t)
    decreases |t| - k
  {
    if k < |t| {
      assert t[..k + 1] == t[..k] + [t[k]];
      SubsequenceExtend(s, t[..k], t[k]);
      SubsequencePrefix(s, t, k + 1);
    } else {
      assert t[..k] == t;
    }
  }

  /**
   * The material of every move stack, whether legal play reaches it or not,
   * lies within the sentinels; then so does every minimax value.
   */
  ghost predicate BoundedLeaves(rules: Rules)
  {
    forall stack :: -9999 <= Material(rules.pieceMap(stack)) <= 9999
  }

  lemma {:induction false} ValueInRange(rules: Rules, stack: seq<Move>, depth: nat, white: bool)
    requires BoundedLeaves(rules)
    ensures -9999 <= Value(rules, stack, depth, white) <= 9999
    decreases depth
  {
    var moves := rules.legalMoves(stack);
    if depth != 0 && moves != [] {
      var vals := ChildValues(rules, stack, depth, white);
      var k :| 0 <= k < |vals| && vals[k] == Best(white, vals);
      ChildValuesAt(rules, stack, depth, white);
      ValueInRange(rules, stack + [moves[k]], depth - 1, !white);
    }
  }

  /**
   * The reference's promises: the value is the maximum (white) or minimum
   * (black) of the children's values, and the best moves are exactly the
   * moves reaching it, in order, never none.
   */
  lemma BestMovesExact(rules: Rules, stack: seq<Move>, depth: nat, white: bool)
    requires depth >= 1 && rules.legalMoves(stack) != []
    ensures var moves, vals := rules.legalMoves(stack), ChildValues(rules, stack, depth, white);
            var v, best := Value(rules, stack, depth, white), BestMoves(rules, stack, depth, white);
            && (forall i :: 0 <= i < |moves| ==> if white then vals[i] <= v else v <= vals[i])
            && v in vals
            && best != []
            && IsSubsequence(best, moves)
            && (forall m :: m in best ==> exists i :: 0 <= i < |moves| && moves[i] == m && vals[i] == v)
            && (forall i :: 0 <= i < |moves| && vals[i] == v ==> moves[i] in best)
  {
    var moves, vals := rules.legalMoves(stack), ChildValues(rules, stack, depth, white);
    var v := Value(rules, stack, depth, white);
    assert v == Best(white, vals) && v in vals;
    var k :| 0 <= k < |vals| && vals[k] == v;
    assert 0 <= k < |moves| && vals[k] == v;
    TiesExact(moves, vals, v);
    assert moves[k] in BestMoves(rules, stack, depth, white);
  }
}
