/**
 * Material evaluation: a signed value per piece, summed over the pieces on
 * the board. Positive scores favour white.
 */
module Evaluator {
  import opened Wrappers
  import opened Chess

  /** `piece_value`, keyed by `str(piece)`; the key `None` stands for no piece. */
  const PieceValues: map<Option<char>, int> := map[
    None := 0,
    Some('p') := -10,
    Some('P') := 10,
    Some('n') := -30,
    Some('N') := 30,
    Some('b') := -30,
    Some('B') := 30,
    Some('r') := -50,
    Some('R') := 50,
    Some('q') := -90,
    Some('Q') := 90,
    Some('k') := -900,
    Some('K') := 900
  ]

  /** The worth of a white piece of kind `k`. */
  function KindValue(k: Kind): int
  {
    match k
    case Pawn => 10
    case Knight => 30
    case Bishop => 30
    case Rook => 50
    case Queen => 90
    case King => 900
  }

  /** The signed value of one piece: positive for white, negative for black. */
  function PieceValue(p: Piece): int
  {
    if p.color == White then KindValue(p.kind) else -KindValue(p.kind)
  }

  /** Every piece is worth something, at most a king, with the sign of its colour. */
  lemma PieceValueSigned(p: Piece)
    ensures PieceValue(p) != 0 && -900 <= PieceValue(p) <= 900
    ensures p.color == White <==> PieceValue(p) > 0
    ensures PieceValue(Recolor(p)) == -PieceValue(p)
  {
  }

  /**
   * `piece_value[str(piece)]`: every piece's symbol is a key of the table,
   * so the lookup never fails, and the entry is the piece's signed value.
   */
  lemma TableLookup(p: Piece)
    ensures Some(Symbol(p)) in PieceValues
    ensures PieceValues[Some(Symbol(p))] == PieceValue(p)
  {
  }

  /**
   * The table is colour-antisymmetric: the `None` key (an empty square) is
   * worth 0, a black piece is worth the negation of the white piece of the
   * same kind, and white pieces are worth more than nothing.
   */
  lemma PieceValueAntisymmetric(p: Piece)
    ensures PieceValues[None] == 0
    ensures PieceValues[Some(Symbol(Recolor(p)))] == -PieceValues[Some(Symbol(p))]
    ensures p.color == White ==> PieceValues[Some(Symbol(p))] > 0
  {
    TableLookup(p);
    TableLookup(Recolor(p));
  }

  /** The material balance of a collection of pieces: the sum of their values. */
  function Material(pieces: seq<Piece>): int
  {
    if pieces == [] then 0
    else Material(pieces[..|pieces| - 1]) + PieceValue(pieces[|pieces| - 1])
  }

  /** Each piece moves the score by at most a king's worth. */
  lemma {:induction false} MaterialBounded(pieces: seq<Piece>)
    ensures -900 * |pieces| <= Material(pieces) <= 900 * |pieces|
  {
    if pieces != [] {
      MaterialBounded(pieces[..|pieces| - 1]);
      PieceValueSigned(pieces[|pieces| - 1]);
    }
  }

  /** `evaluation(board)`: accumulates the value of each piece on the board; reads the board only. */
  method Evaluation(board: Board) returns (eval: int)
    ensures eval == Material(board.PieceMap())
  {
    var pieces := board.PieceMap();
    eval := 0;
    for i := 0 to |pieces|
      invariant eval == Material(pieces[..i])
    {
      assert pieces[..i + 1][..i] == pieces[..i];
      TableLookup(pieces[i]);
      eval := eval + PieceValues[Some(Symbol(pieces[i]))];
    }
    assert pieces[..|pieces|] == pieces;
  }

  /** An empty board scores 0. */
  lemma MaterialEmpty()
    ensures Material([]) == 0
  {
  }

  /** The board with every piece's colour swapped. */
  function RecolorAll(pieces: seq<Piece>): (swapped: seq<Piece>)
    ensures |swapped| == |pieces|
    ensures forall i :: 0 <= i < |pieces| ==> swapped[i] == Recolor(pieces[i])
  {
    seq(|pieces|, i requires 0 <= i < |pieces| => Recolor(pieces[i]))
  }

  /** Swapping the colour of every piece negates the score. */
  lemma {:induction false} MaterialRecolor(pieces: seq<Piece>)
    ensures Material(RecolorAll(pieces)) == -Material(pieces)
  {
    if pieces != [] {
      var n := |pieces|;
      assert RecolorAll(pieces)[..n - 1] == RecolorAll(pieces[..n - 1]);
      MaterialRecolor(pieces[..n - 1]);
    }
  }

  /** The score of two groups of pieces together is the sum of their scores. */
  lemma {:induction false} MaterialAppend(pieces: seq<Piece>, others: seq<Piece>)
    ensures Material(pieces + others) == Material(pieces) + Material(others)
    decreases |others|
  {
    if others == [] {
      assert pieces + others == pieces;
    } else {
      var n, whole := |others|, pieces + others;
      assert whole[..|whole| - 1] == pieces + others[..n - 1];
      assert whole[|whole| - 1] == others[n - 1];
      MaterialAppend(pieces, others[..n - 1]);
    }
  }

  /** A single piece scores its own value. */
  lemma MaterialSingle(p: Piece)
    ensures Material([p]) == PieceValue(p)
  {
    assert [p][..0] == [];
  }

  /** Taking one piece off the board removes exactly its value. */
  lemma MaterialRemove(pieces: seq<Piece>, k: nat)
    requires k < |pieces|
    ensures Material(pieces) == Material(pieces[..k] + pieces[k + 1..]) + PieceValue(pieces[k])
  {
    var p, before, after := pieces[k], pieces[..k], pieces[k + 1..];
    var tail := [p] + after;
    assert pieces == before + tail;
    MaterialAppend(before, tail);
    MaterialAppend([p], after);
    MaterialAppend(before, after);
    MaterialSingle(p);
  }

  /** Removing the piece at `k` removes one occurrence of it. */
  lemma MultisetRemoveAt(pieces: seq<Piece>, k: nat)
    requires k < |pieces|
    ensures multiset(pieces[..k] + pieces[k + 1..]) == multiset(pieces) - multiset{pieces[k]}
  {
    assert pieces == pieces[..k] + [pieces[k]] + pieces[k + 1..];
  }

  /** The score does not depend on the order in which the pieces are visited. */
  lemma {:induction false} MaterialOrderFree(pieces: seq<Piece>, others: seq<Piece>)
    requires multiset(pieces) == multiset(others)
    ensures Material(pieces) == Material(others)
    decreases |pieces|
  {
    if pieces != [] {
      var n := |pieces|;
      var last := pieces[n - 1];
      assert last in multiset(others);
      assert last in others;
      var k :| 0 <= k < |others| && others[k] == last;
      MultisetRemoveAt(pieces, n - 1);
      MultisetRemoveAt(others, k);
      assert pieces[..n - 1] + pieces[n..] == pieces[..n - 1];
      MaterialOrderFree(pieces[..n - 1], others[..k] + others[k + 1..]);
      MaterialRemove(others, k);
    }
  }
}
