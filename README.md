# Chess agent decision core in Dafny

This project models the decision logic of a small chess-playing agent: a
material evaluation, a depth-limited minimax search that collects every move
tied at the best score, and an opening book of move sequences. The search
appears twice in the repository, as `chess_engine/minimax.py` and the
top-level `minimax.py`. Apart from comments the two files hold the same
code, so one model covers both (see the correspondence below).

The chess rules come from an outside library. The model takes them as a
`Chess.Rules` value: two functions of the board's move stack. One gives the
legal moves in the library's enumeration order. The other gives the pieces
on the board. A `Chess.Board` object holds these rules and the move stack.
`Push` and `Pop` change only the move stack. Moves are UCI strings such as
`"e2e4"`.

Modules, one per component:

- `Wrappers`: `Option`, for Python's `None`.
- `Chess`: moves, pieces and their symbols, and the board collaborator
  (`Rules`, `Board` with `Push`/`Pop`).
- `Evaluator`: the `piece_value` table as `PieceValues`, and `PieceValue`,
  a piece's signed worth by kind and colour, proved equal to its table
  entry. `Material` is the sum of piece values, and the `evaluation` loop,
  which looks each piece up in the table, is the method `Evaluation`.
- `Minimax`: the search as the code writes it. `Search` and `Scan` give the
  result as a value, and `Minimax` is the recursive method. It pushes each
  legal move onto the shared board, recurses, pops the move, then updates
  `best_eval`, `best_moves` and `alpha`, and leaves the loop when
  `beta <= alpha`. This is modelled as written:
  - only `alpha` moves, through `max`, on both the maximising and the
    minimising side;
  - `beta` is passed down unchanged;
  - the running best starts from the sentinels -9999 and 9999, while the
    default window is [-10000, 10000];
  - the result is `(best_eval, best_moves)`.
- `GameTree`: plain minimax with no pruning and no sentinels (`Value`,
  `ChildValues`, `BestMoves`). This is the reference the search is compared
  with.
- `SearchProperties`: the lemmas relating `Search` to the reference.
- `KnowledgeBase`: the opening book. `Book` lists the `play(History, Reply)`
  facts in the order `Kb.__init__` asserts them. `Replies` answers the query
  `play([...], Move)` by matching the history exactly. `Kb.FindMove` picks
  any one of the answers, or returns `None` when there is none.

Consequences of the as-written pruning, proved in `SearchProperties`:

- `beta` never changes and `alpha` only grows, so a node stops scanning at
  its first child whose value reaches `beta`. Any starting `alpha` below
  `beta` gives the same result (`SearchAlphaIrrelevant`).
- With the default window, and with the material of every move stack
  within [-9999, 9999], the cutoff never fires. The search then returns exactly
  plain minimax: the maximum (white) or minimum (black) of the children's
  values, and every move reaching it, in enumeration order
  (`SearchAgreesWithPlain`, `DefaultSearchIsPlain`).

`chess_engine/minimax.py` and `minimax.py` line for line:

| part | chess_engine/minimax.py | minimax.py |
|---|---|---|
| `piece_value` table | 2-16 | 1-15 |
| `evaluation` | 19-26 | 18-22 |
| `minimax` header and defaults | 29 | 25 |
| leaf case | 35-36 | 28-29 |
| sentinels and comparison | 41-46 | 33-38 |
| push, recursive call, pop | 52-55 | 41-43 |
| tie collection | 58-62 | 45-49 |
| alpha update and cutoff | 65-67 | 51-53 |

## Model

| member | source | states |
|---|---|---|
| `Evaluator.PieceValueAntisymmetric` | chess_engine/minimax.py:2-16 | `None` is worth 0; a piece in the other colour is worth the negation; white pieces are worth more than 0 |
| `Evaluator.TableLookup` | minimax.py:1-15 | the symbol of every piece is a key of the table, so the lookup in `evaluation` never fails, and its entry is the piece's signed worth: its kind's value for white, the negation for black |
| `Chess.Symbol` | chess_engine/minimax.py:25 | `str(piece)` is an upper-case letter exactly when the piece is white |
| `Chess.SymbolInjective` | chess_engine/minimax.py:25 | different pieces have different symbols, so each table key names one piece |
| `Evaluator.PieceValueSigned` | chess_engine/minimax.py:2-16 | every piece is worth a non-zero amount of at most 900, positive exactly for white, and the other colour negates it |
| `Evaluator.MaterialBounded` | chess_engine/minimax.py:21-26 | the score of n pieces lies within [-900 n, 900 n] |
| `Evaluator.Evaluation` | chess_engine/minimax.py:19-26 | the accumulating loop returns the material sum of the board's pieces; the method modifies nothing |
| `Evaluator.MaterialEmpty` | minimax.py:18-22 | an empty board scores 0 |
| `Evaluator.MaterialRecolor` | chess_engine/minimax.py:21-25 | swapping the colour of every piece negates the score |
| `Evaluator.MaterialOrderFree` | chess_engine/minimax.py:24-25 | the score depends only on the multiset of pieces, not on the order `piece_map()` yields them |
| `Evaluator.MaterialAppend` | chess_engine/minimax.py:21-26 | the score of two groups of pieces together is the sum of their scores |
| `Evaluator.MaterialRemove` | minimax.py:20-21 | taking one piece away changes the score by exactly that piece's value |
| `Chess.Board.Push` | chess_engine/minimax.py:52 | `board.push(move)` appends the move to the move stack |
| `Chess.Board.Pop` | minimax.py:43 | `board.pop()` removes and returns the last move of the stack |
| `Minimax.TallyKeepsBest` | chess_engine/minimax.py:58-62 | one comparison: the new `best_eval` is the old one or the new score and neither beats it; the move is appended after the old ties when it equals the unchanged best, starts a new list when strictly better, and is dropped otherwise |
| `Minimax.Search` | chess_engine/minimax.py:29-68 | `minimax` as a value: `best_moves` never has more moves than there are legal moves |
| `Minimax.Scan` | chess_engine/minimax.py:49-67 | the `for` loop from the `i`-th legal move on: it adds at most one move per remaining legal move to `best_moves` |
| `Minimax.Minimax` | chess_engine/minimax.py:29-68 | the move stack is the same on return; depth 0 or no legal move gives `(evaluation(board), [])`; the result is `Search` of the position; recursion ends because each call lowers `depth` |
| `GameTree.BestMovesExact` | chess_engine/minimax.py:41-62 | the reference's value bounds every child's value from the side's point of view and is one of them; its best moves are a subsequence of the legal moves holding exactly the moves whose child has that value, never none |
| `SearchProperties.SearchInRange` | chess_engine/minimax.py:41-62 | with the material of every move stack within [-9999, 9999], `best_eval` stays within it too, whatever the window |
| `SearchProperties.SearchTiesNonEmpty` | chess_engine/minimax.py:38-62 | with depth at least 1, a legal move and leaves within the sentinels, `best_moves` is never empty |
| `SearchProperties.SearchTies` | chess_engine/minimax.py:50-62 | `best_moves` is a subsequence of the legal-move enumeration, and each of its moves leads to a child whose value is exactly `best_eval` |
| `SearchProperties.SearchAlphaIrrelevant` | chess_engine/minimax.py:53-67 | `beta` is passed unchanged and `alpha` only grows by `max`, so any two starting `alpha` below `beta` give the same result |
| `SearchProperties.TallyStep` | minimax.py:45-49 | one comparison step turns the best value and ties of the first `i` children into those of the first `i + 1`, when scores lie within the sentinels |
| `SearchProperties.SearchAgreesWithPlain` | chess_engine/minimax.py:29-68 | with the material of every move stack within [-9999, 9999], `alpha < beta` and `beta > 9999`, the result is plain minimax: the max (white) or min (black) child value, and all moves reaching it, in enumeration order |
| `SearchProperties.DefaultSearchIsPlain` | minimax.py:25-54 | with the default bounds -10000 and 10000 the cutoff never fires and the search equals plain minimax |
| `SearchProperties.SingleLegalMove` | minimax.py:40-49 | with exactly one legal move and depth at least 1, the search returns that move and its child's value |
| `KnowledgeBase.Kb.constructor` | chess_engine/knowledge_base.py:11-75 | the knowledge base holds exactly the asserted facts, in assertion order; the field is constant afterwards |
| `KnowledgeBase.Replies` | chess_engine/knowledge_base.py:78-79 | a reply is answered exactly when a fact with that reply has the whole given history as its key |
| `KnowledgeBase.Kb.FindMove` | chess_engine/knowledge_base.py:77-80 | `None` exactly when no fact has the given history; otherwise a reply stored for exactly that history, never one of another key |
| `KnowledgeBase.FirstMoves` | chess_engine/knowledge_base.py:18-19 | the empty history has exactly the replies e2e4 and d2d4 |
| `KnowledgeBase.KingPawnReplies` | chess_engine/knowledge_base.py:24-36 | after e2e4 the replies are exactly c7c5, e7e6, e7e5 and c7c6 |
| `KnowledgeBase.OpenGameReplies` | chess_engine/knowledge_base.py:33-40 | after e2e4 e7e5 g1f3 b8c6 the replies are exactly f1b5 and f1c4 |
| `KnowledgeBase.QueensIndianReplies` | chess_engine/knowledge_base.py:68-73 | after d2d4 g8f6 c2c4 e7e6 g1f3 the replies are exactly b7b6 and f8b4 |
| `KnowledgeBase.ExactMatchOnly` | chess_engine/knowledge_base.py:33 | the stored Ruy Lopez line extended by its reply f1b5 has no reply: keys match exactly, not by prefix |
| `KnowledgeBase.BookReachable` | chess_engine/knowledge_base.py:18-73 | every non-empty key is the key of an earlier fact followed by that fact's reply, so every line is reachable from the start |

## Left out

- `utils.py` and `chess_engine/utils.py` (`play`, `display_board`): the interactive input loop, printing and SVG rendering are I/O around the search.
- `setup.py`: packaging metadata.
- The chess library is not part of this model. Legal-move generation and `piece_map()` are the functions in `Chess.Rules`. `board.outcome()` is not used by the core.
- The position is the library's start position plus the move stack. Other board state, such as FEN fields, is not modelled separately.
- `move.xboard()` and `Move.from_uci` are the identity on the UCI strings that stand for moves.
- The Prolog engine is not part of this model. Its database is the constant sequence `Book`. A query is exact equality of move histories, with answers in assertion order.
- `random.choice` becomes a nondeterministic choice of any answer (`:|`). No probability distribution is modelled.
- `Minimax.Minimax`: `depth` is a natural number. With a negative depth the source skips the depth-0 test and keeps recursing until it reaches a position with no legal move. The model does not capture that case.
- `Evaluator.PieceValueAntisymmetric`: the `None` key is in the table but never looked up, because `str(piece)` is always a letter.
- `Minimax.Search` and `Minimax.Scan`: their own contracts state only the bound on `best_moves`. What they compute is stated by the `SearchProperties` lemmas, because contracts on these functions are assumed at every use and make the search proofs too costly.
- `SearchProperties.SearchAgreesWithPlain`: it requires the material of every move stack to lie within [-9999, 9999], including stacks that legal play never reaches (`GameTree.BoundedLeaves`). It does not prove that bound from the rules of chess.
- `KnowledgeBase.FirstMoves`: like the other book lemmas, it states the set of stored replies. The answer order is given by `Replies` but is not computed for the concrete keys.
