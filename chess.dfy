/**
 * The chess-rules library as the engine sees it: moves, pieces, and a board
 * that keeps a stack of the moves pushed onto it. Move generation and piece
 * placement belong to the library; the model receives them as `Rules`, two
 * functions of the move stack.
 */
module Chess {

  /** A move, written as the library prints it in UCI notation ("e2e4"). */
  type Move = string

  datatype Color = White | Black

  datatype Kind = Pawn | Knight | Bishop | Rook | Queen | King

  datatype Piece = Piece(kind: Kind, color: Color)

  function Opposite(c: Color): Color
  {
    if c == White then Black else White
  }

  /** The same piece in the other colour. */
  function Recolor(p: Piece): Piece
  {
    Piece(p.kind, Opposite(p.color))
  }

  /** The black (lower-case) letter of a kind of piece. */
  function Letter(k: Kind): char
  {
    match k
    case Pawn => 'p'
    case Knight => 'n'
    case Bishop => 'b'
    case Rook => 'r'
    case Queen => 'q'
    case King => 'k'
  }

  /** `str(piece)`: the kind's letter, upper-case for white and lower-case for black. */
  function Symbol(p: Piece): (c: char)
    ensures p.color == White <==> 'A' <= c <= 'Z'
  {
    if p.color == White then (Letter(p.kind) as int - 'a' as int + 'A' as int) as char
    else Letter(p.kind)
  }

  /** Different pieces have different symbols, so `str(piece)` names exactly one piece. */
  lemma SymbolInjective(p: Piece, q: Piece)
    ensures Symbol(p) == Symbol(q) ==> p == q
  {
  }

  /**
   * What the rules library answers about the position reached from its start
   * position by a stack of moves: the legal moves in the library's enumeration
   * order, and the pieces on the board (the values of `piece_map()`).
   */
  datatype Rules = Rules(legalMoves: seq<Move> -> seq<Move>, pieceMap: seq<Move> -> seq<Piece>)

  /** A board: the rules, and the stack of moves pushed so far. */
  class Board {
    const rules: Rules
    var moveStack: seq<Move>

    constructor (rules: Rules)
      ensures this.rules == rules && moveStack == []
    {
      this.rules := rules;
      moveStack := [];
    }

    /** `board.legal_moves` */
    function LegalMoves(): seq<Move>
      reads this
    {
      rules.legalMoves(moveStack)
    }

    /** `board.piece_map().values()` */
    function PieceMap(): seq<Piece>
      reads this
    {
      rules.pieceMap(moveStack)
    }

    /** `board.push(move)` */
    method Push(move: Move)
      modifies this
      ensures moveStack == old(moveStack) + [move]
    {
      moveStack := moveStack + [move];
    }

    /** `board.pop()`: takes back the last move pushed and returns it. */
    method Pop() returns (move: Move)
      requires moveStack != []
      modifies this
      ensures moveStack == old(moveStack)[..|old(moveStack)| - 1]
      ensures move == old(moveStack)[|old(moveStack)| - 1]
    {
      move := moveStack[|moveStack| - 1];
      moveStack := moveStack[..|moveStack| - 1];
    }
  }
}
