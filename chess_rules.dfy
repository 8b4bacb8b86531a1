/**
 * The part of the python-chess library that the two chess scripts rely on,
 * kept abstract: a `Rules` value bundles the library's operations as
 * functions over an unknown board type and an unknown move type. Nothing
 * about legal-move generation or check detection is modelled; the game-end
 * tests are defined from the primitives the way the library defines them.
 */
module ChessRules {
  import opened Options

  /** `chess.STARTING_FEN`. */
  const StartingFen: string := "rnbqkbnr/pppppppp/8/8/8/8/PPPPPPPP/RNBQKBNR w KQkq - 0 1"

  datatype Color = White | Black

  function Opponent(c: Color): Color {
    if c == White then Black else White
  }

  /**
   * The library's operations. `parseFen` is `chess.Board(fen)` (None where
   * the constructor raises), `parseUci` is `chess.Move.from_uci` (None where
   * it raises `ValueError`), `legalMoves` is `list(board.legal_moves)` in
   * enumeration order, `push` is `board.push` on a legal move.
   */
  datatype Rules<!Board, !Move> = Rules(
    parseFen: string -> Option<Board>,
    fen: Board -> string,
    parseUci: string -> Option<Move>,
    uci: Move -> string,
    legalMoves: Board -> seq<Move>,
    isCapture: (Board, Move) -> bool,
    push: (Board, Move) -> Board,
    turn: Board -> Color,
    isCheck: Board -> bool,
    isInsufficientMaterial: Board -> bool,
    isSeventyFiveMoves: Board -> bool,
    isFivefoldRepetition: Board -> bool)

  /** `board.is_checkmate()`: in check with no legal move. */
  predicate IsCheckmate<B, M>(r: Rules<B, M>, b: B) {
    r.isCheck(b) && |r.legalMoves(b)| == 0
  }

  /** `board.is_stalemate()`: not in check, yet no legal move. */
  predicate IsStalemate<B, M>(r: Rules<B, M>, b: B) {
    !r.isCheck(b) && |r.legalMoves(b)| == 0
  }

  /**
   * `board.is_game_over()`: no legal move (checkmate or stalemate),
   * insufficient material, the 75-move rule or fivefold repetition.
   */
  predicate IsGameOver<B, M>(r: Rules<B, M>, b: B) {
    || |r.legalMoves(b)| == 0
    || r.isInsufficientMaterial(b)
    || r.isSeventyFiveMoves(b)
    || r.isFivefoldRepetition(b)
  }

  /**
   * The facts about the library that the reasoning about colours needs: a
   * legal move hands the turn to the other side, writing a position out and
   * reading it back keeps the side to move, and the starting position has
   * White to move.
   */
  ghost predicate Lawful<B(!new), M>(r: Rules<B, M>) {
    && (forall b, m | m in r.legalMoves(b) :: r.turn(r.push(b, m)) == Opponent(r.turn(b)))
    && (forall b :: r.parseFen(r.fen(b)).Some? && r.turn(r.parseFen(r.fen(b)).value) == r.turn(b))
    && r.parseFen(StartingFen).Some?
    && r.turn(r.parseFen(StartingFen).value) == White
  }
}
