/**
 * The opening book: facts `play(History, Reply)` stating that `Reply` may be
 * played after exactly the moves in `History` from the start of the game.
 * The table is fixed when the book is built and only read afterwards.
 */
module KnowledgeBase {
  import opened Wrappers
  import opened Chess

  /** A fact `play(history, reply)`. */
  datatype Fact = Play(history: seq<Move>, reply: Move)

  /** Every fact of the book, in the order it is asserted. */
  const Book: seq<Fact> := [
    // First move
    Play([], "e2e4"),
    Play([], "d2d4"),
    // Sicilian Defense
    Play(["e2e4"], "c7c5"),
    // French Defense
    Play(["e2e4"], "e7e6"),
    // Ruy Lopez
    Play(["e2e4"], "e7e5"),
    Play(["e2e4", "e7e5"], "g1f3"),
    Play(["e2e4", "e7e5", "g1f3"], "b8c6"),
    Play(["e2e4", "e7e5", "g1f3", "b8c6"], "f1b5"),
    // Caro-Kann Defense
    Play(["e2e4"], "c7c6"),
    // Italian Game
    Play(["e2e4", "e7e5", "g1f3", "b8c6"], "f1c4"),
    // Sicilian Defense: Closed
    Play(["e2e4", "c7c5"], "b1c3"),
    // Queen's Gambit
    Play(["d2d4"], "d7d5"),
    Play(["d2d4", "d7d5"], "c2c4"),
    // Slav Defense
    Play(["d2d4", "d7d5", "c2c4"], "c7c6"),
    // King's Indian Defense
    Play(["d2d4"], "g8f6"),
    Play(["d2d4", "g8f6"], "c2c4"),
    Play(["d2d4", "g8f6", "c2c4"], "g7g6"),
    // Nimzo-Indian Defense
    Play(["d2d4", "g8f6", "c2c4"], "e7e6"),
    Play(["d2d4", "g8f6", "c2c4", "e7e6"], "b1c3"),
    Play(["d2d4", "g8f6", "c2c4", "e7e6", "b1c3"], "f8b4"),
    // Queen's Indian Defense
    Play(["d2d4", "g8f6", "c2c4", "e7e6"], "g1f3"),
    Play(["d2d4", "g8f6", "c2c4", "e7e6", "g1f3"], "b7b6"),
    // Bogo-Indian Defense
    Play(["d2d4", "g8f6", "c2c4", "e7e6", "g1f3"], "f8b4")
  ]

  /**
   * The answers to the query `play([m1, ..., mk], Move)`: the replies of the
   * facts whose history is exactly `moves`, in the order the facts were asserted.
   */
  function Replies(facts: seq<Fact>, moves: seq<Move>): (replies: seq<Move>)
    ensures forall reply :: reply in replies <==> Play(moves, reply) in facts
    ensures |replies| <= |facts|
  {
    if facts == [] then []
    else (if facts[0].history == moves then [facts[0].reply] else []) + Replies(facts[1..], moves)
  }

  /** The knowledge base of the agent: the fact database of its Prolog engine. */
  class Kb {
    const prolog: seq<Fact>

    /** Asserts every fact of the book. */
    constructor ()
      ensures prolog == Book
    {
      prolog := Book;
    }

    /**
     * `find_move(moves)`: some reply stored for exactly this history, chosen
     * at random, or `None` when no fact has this history.
     */
    method FindMove(moves: seq<Move>) returns (move: Option<Move>)
      ensures move == None <==> forall fact :: fact in prolog ==> fact.history != moves
      ensures move.Some? ==> Play(moves, move.value) in prolog
    {
      var options := Replies(prolog, moves);
      if options == [] {
        forall fact | fact in prolog
          ensures fact.history != moves
        {
          assert fact.history == moves ==> fact.reply in options;
        }
        move := None;
      } else {
        var k :| 0 <= k < |options|;
        assert Play(moves, options[k]) in prolog;
        move := Some(options[k]);
      }
    }
  }

  /** The first move is e2e4 or d2d4, and nothing else. */
  lemma FirstMoves()
    ensures forall reply :: Play([], reply) in Book <==> reply in {"e2e4", "d2d4"}
  {
  }

  /** After e2e4 the book offers the Sicilian, French, Ruy Lopez and Caro-Kann replies, and only those. */
  lemma KingPawnReplies()
    ensures forall reply :: Play(["e2e4"], reply) in Book <==> reply in {"c7c5", "e7e6", "e7e5", "c7c6"}
  {
  }

  /** After 1. e4 e5 2. Nf3 Nc6 the book offers the Ruy Lopez and the Italian Game, and only those. */
  lemma OpenGameReplies()
    ensures forall reply :: Play(["e2e4", "e7e5", "g1f3", "b8c6"], reply) in Book <==> reply in {"f1b5", "f1c4"}
  {
  }

  /** After 1. d4 Nf6 2. c4 e6 3. Nf3 the book offers b7b6 and f8b4, and only those. */
  lemma QueensIndianReplies()
    ensures forall reply :: Play(["d2d4", "g8f6", "c2c4", "e7e6", "g1f3"], reply) in Book <==> reply in {"b7b6", "f8b4"}
  {
  }

  /**
   * Matching is exact, not by prefix: the Ruy Lopez line one ply further on
   * (after f1b5, itself a stored reply) has no reply.
   */
  lemma ExactMatchOnly()
    ensures forall reply :: Play(["e2e4", "e7e5", "g1f3", "b8c6", "f1b5"], reply) !in Book
  {
  }

  /**
   * Every stored line is reachable from the start: a non-empty key is the key
   * of an earlier fact followed by that fact's reply.
   */
  lemma BookReachable()
    ensures forall i :: 0 <= i < |Book| && Book[i].history != [] ==>
              exists j :: 0 <= j < i && Book[j].history + [Book[j].reply] == Book[i].history
  {
    KingPawnOpeningReachable();
    KingPawnLinesReachable();
    QueenPawnOpeningReachable();
    IndianLinesReachable();
  }

  /** The first moves, and the first plies after e2e4. */
  lemma KingPawnOpeningReachable()
    ensures forall i :: 0 <= i < 6 && Book[i].history != [] ==>
              exists j :: 0 <= j < i && Book[j].history + [Book[j].reply] == Book[i].history
  {
    forall i | 0 <= i < 6 && Book[i].history != []
      ensures exists j :: 0 <= j < i && Book[j].history + [Book[j].reply] == Book[i].history
    {
      if i == 2 {
        assert Book[0].history + [Book[0].reply] == Book[i].history;
      } else if i == 3 {
        assert Book[0].history + [Book[0].reply] == Book[i].history;
      } else if i == 4 {
        assert Book[0].history + [Book[0].reply] == Book[i].history;
      } else {
        assert Book[4].history + [Book[4].reply] == Book[i].history;
      }
    }
  }

  /** The Ruy Lopez, Caro-Kann, Italian Game and Sicilian lines. */
  lemma KingPawnLinesReachable()
    ensures forall i :: 6 <= i < 11 && Book[i].history != [] ==>
              exists j :: 0 <= j < i && Book[j].history + [Book[j].reply] == Book[i].history
  {
    forall i | 6 <= i < 11 && Book[i].history != []
      ensures exists j :: 0 <= j < i && Book[j].history + [Book[j].reply] == Book[i].history
    {
      if i == 6 {
        assert Book[5].history + [Book[5].reply] == Book[i].history;
      } else if i == 7 {
        assert Book[6].history + [Book[6].reply] == Book[i].history;
      } else if i == 8 {
        assert Book[0].history + [Book[0].reply] == Book[i].history;
      } else if i == 9 {
        assert Book[6].history + [Book[6].reply] == Book[i].history;
      } else {
        assert Book[2].history + [Book[2].reply] == Book[i].history;
      }
    }
  }

  /** The Queen's Gambit, Slav and King's Indian lines. */
  lemma QueenPawnOpeningReachable()
    ensures forall i :: 11 <= i < 17 && Book[i].history != [] ==>
              exists j :: 0 <= j < i && Book[j].history + [Book[j].reply] == Book[i].history
  {
    forall i | 11 <= i < 17 && Book[i].history != []
      ensures exists j :: 0 <= j < i && Book[j].history + [Book[j].reply] == Book[i].history
    {
      if i == 11 {
        assert Book[1].history + [Book[1].reply] == Book[i].history;
      } else if i == 12 {
        assert Book[11].history + [Book[11].reply] == Book[i].history;
      } else if i == 13 {
        assert Book[12].history + [Book[12].reply] == Book[i].history;
      } else if i == 14 {
        assert Book[1].history + [Book[1].reply] == Book[i].history;
      } else if i == 15 {
        assert Book[14].history + [Book[14].reply] == Book[i].history;
      } else {
        assert Book[15].history + [Book[15].reply] == Book[i].history;
      }
    }
  }

  /** The Nimzo-Indian, Queen's Indian and Bogo-Indian lines. */
  lemma IndianLinesReachable()
    ensures forall i :: 17 <= i < 23 && Book[i].history != [] ==>
              exists j :: 0 <= j < i && Book[j].history + [Book[j].reply] == Book[i].history
  {
    forall i | 17 <= i < 23 && Book[i].history != []
      ensures exists j :: 0 <= j < i && Book[j].history + [Book[j].reply] == Book[i].history
    {
      if i == 17 {
        assert Book[15].history + [Book[15].reply] == Book[i].history;
      } else if i == 18 {
        assert Book[17].history + [Book[17].reply] == Book[i].history;
      } else if i == 19 {
        assert Book[18].history + [Book[18].reply] == Book[i].history;
      } else if i == 20 {
        assert Book[17].history + [Book[17].reply] == Book[i].history;
      } else if i == 21 {
        assert Book[20].history + [Book[20].reply] == Book[i].history;
      } else {
        assert Book[20].history + [Book[20].reply] == Book[i].history;
      }
    }
  }
}
