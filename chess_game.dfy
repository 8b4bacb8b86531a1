/**
 * The single-file chess bot driven from the command line: one invocation
 * plays one turn (the community's move, then the bot's reply), keeps
 * win/draw counters and starts a new game after a finished one.
 */
module ChessGame {
  import opened Options
  import opened ChessRules
  import Text
  import Markers

  // ---------------------------------------------------------------------------
  // Game end (check_game_over)
  // ---------------------------------------------------------------------------

  /** The winner string of `check_game_over`: "White", "Black" or "Draw". */
  datatype GameResult = WhiteWins | BlackWins | Draw

  /** `(False, None)` or `(True, result)`. */
  datatype Verdict = Ongoing | Over(result: GameResult)

  /**
   * `check_game_over(board)`: over exactly when the library says the game is
   * over; a checkmate is won by the side that is not to move; every other
   * ending is a draw.
   */
  function CheckGameOver<B, M>(r: Rules<B, M>, b: B): (v: Verdict)
    ensures v.Over? <==> IsGameOver(r, b)
    ensures v == Over(WhiteWins) <==> IsCheckmate(r, b) && r.turn(b) == Black
    ensures v == Over(BlackWins) <==> IsCheckmate(r, b) && r.turn(b) == White
    ensures v == Over(Draw) <==> !IsCheckmate(r, b) && IsGameOver(r, b)
  {
    if IsCheckmate(r, b) then
      Over(if r.turn(b) == Black then WhiteWins else BlackWins)
    else if IsStalemate(r, b) || r.isInsufficientMaterial(b)
         || r.isSeventyFiveMoves(b) || r.isFivefoldRepetition(b) then
      Over(Draw)
    else
      Ongoing
  }

  // ---------------------------------------------------------------------------
  // The persisted record and its counters
  // ---------------------------------------------------------------------------

  /** `state["stats"]`. */
  datatype Stats = Stats(communityWins: nat, botWins: nat, draws: nat)

  function Total(s: Stats): nat {
    s.communityWins + s.botWins + s.draws
  }

  /**
   * The counter update of `handle_game_over`: exactly one counter, the one
   * belonging to the result, goes up, and by exactly one.
   */
  function Tally(s: Stats, result: GameResult): (t: Stats)
    ensures Total(t) == Total(s) + 1
    ensures t.communityWins >= s.communityWins && t.botWins >= s.botWins && t.draws >= s.draws
    ensures t.communityWins > s.communityWins <==> result == WhiteWins
    ensures t.botWins > s.botWins <==> result == BlackWins
    ensures t.draws > s.draws <==> result == Draw
  {
    match result
    case WhiteWins => s.(communityWins := s.communityWins + 1)
    case BlackWins => s.(botWins := s.botWins + 1)
    case Draw => s.(draws := s.draws + 1)
  }

  /** The `msg` of `handle_game_over`. */
  function ResultMessage(result: GameResult): string {
    match result
    case WhiteWins => "Checkmate! Community Wins! 🎉"
    case BlackWins => "Checkmate! Bot Wins! 🤖"
    case Draw => "Game Drawn! 🤝"
  }

  function CommunityMessage(userUci: string): string {
    "Community played " + userUci
  }

  function BotMessage(botUci: string, userUci: string): string {
    "Bot played " + botUci + " (in response to " + userUci + ")"
  }

  /** A snapshot of the state dictionary as it is written to the JSON file. */
  datatype Record = Record(fen: string, lastMove: string, stats: Stats)

  /** The record `handle_game_over` saves: new game, result message, one more win or draw. */
  function Concluded(stats: Stats, result: GameResult): Record {
    Record(StartingFen, ResultMessage(result), Tally(stats, result))
  }

  /** The state dictionary that `play_turn` loads, updates in place and saves. */
  class GameState {
    var fen: string
    var lastMove: string
    var stats: Stats

    /** `load_game_state()` when there is no data file yet. */
    constructor ()
      ensures fen == StartingFen && lastMove == "Game Start" && stats == Stats(0, 0, 0)
    {
      fen := StartingFen;
      lastMove := "Game Start";
      stats := Stats(0, 0, 0);
    }

    function Snapshot(): Record
      reads this
    {
      Record(fen, lastMove, stats)
    }
  }

  /**
   * `handle_game_over(state, result, board)`: count the result, put the result
   * message in `last_move` and reset the position to the start.
   */
  method HandleGameOver(state: GameState, result: GameResult)
    modifies state
    ensures state.Snapshot() == Concluded(old(state.stats), result)
  {
    state.stats := Tally(state.stats, result);
    state.lastMove := ResultMessage(result);
    state.fen := StartingFen;
  }

  // ---------------------------------------------------------------------------
  // The bot's reply: the first capture, otherwise any legal move
  // ---------------------------------------------------------------------------

  /** Index of the first capture in `moves`, if there is one. */
  function FirstCaptureIndex<B, M>(r: Rules<B, M>, b: B, moves: seq<M>): (k: Option<nat>)
    ensures k.None? <==> forall j :: 0 <= j < |moves| ==> !r.isCapture(b, moves[j])
    ensures k.Some? ==> k.value < |moves| && r.isCapture(b, moves[k.value])
    ensures k.Some? ==> forall j :: 0 <= j < k.value ==> !r.isCapture(b, moves[j])
  {
    if |moves| == 0 then None
    else if r.isCapture(b, moves[0]) then Some(0)
    else
      match FirstCaptureIndex(r, b, moves[1..])
      case None => None
      case Some(k) => Some(k + 1)
  }

  /**
   * A move the bot may play in `b`: a legal move, and the first capture in
   * enumeration order whenever there is a capture.
   */
  predicate IsBotChoice<B, M(==)>(r: Rules<B, M>, b: B, m: M) {
    var legal := r.legalMoves(b);
    && m in legal
    && match FirstCaptureIndex(r, b, legal)
       case Some(k) => m == legal[k]
       case None => true
  }

  /**
   * The capture-first loop of `play_turn` with its `random.choice` fallback
   * (an arbitrary legal move). `random.choice` needs a non-empty list.
   */
  method ChooseBotMove<B, M(==)>(r: Rules<B, M>, b: B) returns (m: M)
    requires |r.legalMoves(b)| > 0
    ensures IsBotChoice(r, b, m)
  {
    var legal := r.legalMoves(b);
    var i := 0;
    while i < |legal| && !r.isCapture(b, legal[i])
      invariant 0 <= i <= |legal|
      invariant forall j :: 0 <= j < i ==> !r.isCapture(b, legal[j])
    {
      i := i + 1;
    }
    if i < |legal| {
      m := legal[i];
    } else {
      assert legal[0] in legal;
      m :| m in legal;
    }
  }

  /** A bot choice is a capture whenever one is legal, and no earlier legal move captures. */
  lemma BotChoiceCapturesFirst<B, M>(r: Rules<B, M>, b: B, m: M)
    requires IsBotChoice(r, b, m)
    requires exists k :: 0 <= k < |r.legalMoves(b)| && r.isCapture(b, r.legalMoves(b)[k])
    ensures r.isCapture(b, m)
    ensures exists k :: 0 <= k < |r.legalMoves(b)| && r.legalMoves(b)[k] == m
                        && forall j :: 0 <= j < k ==> !r.isCapture(b, r.legalMoves(b)[j])
  {
    var k := FirstCaptureIndex(r, b, r.legalMoves(b)).value;
    assert r.legalMoves(b)[k] == m;
  }

  // ---------------------------------------------------------------------------
  // The README stats block (update_readme)
  // ---------------------------------------------------------------------------

  const StatsStart: string := "<!-- CHESS_STATS_START -->"
  const StatsEnd: string := "<!-- CHESS_STATS_END -->"

  function StatsBody(stats: Stats, lastMoveText: string): string {
    "\n**Community Wins**: " + Text.NatToString(stats.communityWins)
    + " 🏆 | **Bot Wins**: " + Text.NatToString(stats.botWins)
    + " 🤖 | **Draws**: " + Text.NatToString(stats.draws)
    + " 🤝\n*Last Move*: " + lastMoveText + "\n"
  }

  /** `stats_content`: the three counters and the last move between the stats markers. */
  function StatsBlock(stats: Stats, lastMoveText: string): (c: string)
    ensures Text.StartsWith(c, StatsStart)
    ensures |c| >= |StatsStart| + |StatsEnd| && c[|c| - |StatsEnd|..] == StatsEnd
  {
    StatsStart + StatsBody(stats, lastMoveText) + StatsEnd
  }

  /** With no '<' in the last-move text, the stats block is a single well-formed block. */
  lemma StatsBlockWellFormed(stats: Stats, lastMoveText: string)
    requires '<' !in lastMoveText
    ensures Markers.WellFormedBlock(StatsBlock(stats, lastMoveText), StatsStart, StatsEnd)
  {
    var body := StatsBody(stats, lastMoveText);
    assert '<' !in body;
    Markers.MarkedBodyIsBlock(StatsStart, body, StatsEnd);
  }

  /**
   * The text `update_readme(stats, last_move_text)` writes back: every stats
   * block replaced by the new one, or the text unchanged when there is none.
   */
  function UpdateReadme(data: string, stats: Stats, lastMoveText: string): (r: string)
    ensures !Markers.HasBlock(data, StatsStart, StatsEnd) ==> r == data
    ensures Markers.HasBlock(data, StatsStart, StatsEnd) ==>
              var i := Markers.FirstBlock(data, StatsStart, StatsEnd).value.start;
              var c := StatsBlock(stats, lastMoveText);
              && i + |c| <= |r|
              && r[..i] == data[..i]
              && r[i..i + |c|] == c
  {
    if Markers.FirstBlock(data, StatsStart, StatsEnd).Some? then
      Markers.ReplaceBlocks(data, StatsStart, StatsEnd, StatsBlock(stats, lastMoveText))
    else
      data
  }

  /**
   * Writing the same stats twice leaves the README as after the first write,
   * and a README that had a stats block still has one.
   */
  lemma UpdateReadmeIdempotent(data: string, stats: Stats, lastMoveText: string)
    requires '<' !in lastMoveText
    ensures Markers.HasBlock(data, StatsStart, StatsEnd) ==>
              Markers.HasBlock(UpdateReadme(data, stats, lastMoveText), StatsStart, StatsEnd)
    ensures UpdateReadme(UpdateReadme(data, stats, lastMoveText), stats, lastMoveText)
            == UpdateReadme(data, stats, lastMoveText)
  {
    var content := StatsBlock(stats, lastMoveText);
    StatsBlockWellFormed(stats, lastMoveText);
    if Markers.HasBlock(data, StatsStart, StatsEnd) {
      Markers.ReplaceKeepsBlock(data, StatsStart, StatsEnd, content);
      Markers.ReplaceIdempotent(data, StatsStart, StatsEnd, content);
    }
  }

  // ---------------------------------------------------------------------------
  // One turn (play_turn)
  // ---------------------------------------------------------------------------

  /** Why a turn ends before anything is saved. */
  datatype Rejection =
    | UnreadablePosition  // chess.Board(state["fen"]) raises; nothing catches it
    | InvalidFormat       // chess.Move.from_uci raises ValueError
    | IllegalMove         // the move is not among the legal moves

  /** How a call of `play_turn` ends, with the moves it played. */
  datatype Turn<M> =
    | Rejected(reason: Rejection)
    | EndedByUser(user: M, result: GameResult)
    | EndedByBot(user: M, bot: M, result: GameResult)
    | Continues(user: M, bot: M)

  predicate EndsGame<M>(t: Turn<M>) {
    t.EndedByUser? || t.EndedByBot?
  }

  /**
   * What one turn does to the saved record: rejections save nothing; the
   * community's move is checked and played; if that ends the game the result
   * is recorded at once, otherwise the bot answers and the game end is checked
   * again; an unfinished game is saved as the position after both moves.
   */
  ghost predicate TurnSpec<B, M>(r: Rules<B, M>, before: Record, u: string, t: Turn<M>, after: Record) {
    match r.parseFen(before.fen)
    case None => t == Rejected(UnreadablePosition) && after == before
    case Some(b) =>
      match r.parseUci(u)
      case None => t == Rejected(InvalidFormat) && after == before
      case Some(m) =>
        if m !in r.legalMoves(b) then
          t == Rejected(IllegalMove) && after == before
        else
          var b1 := r.push(b, m);
          match CheckGameOver(r, b1)
          case Over(res) =>
            t == EndedByUser(m, res) && after == Concluded(before.stats, res)
          case Ongoing =>
            && (t.EndedByBot? || t.Continues?)
            && t.user == m
            && IsBotChoice(r, b1, t.bot)
            && var b2 := r.push(b1, t.bot);
               match CheckGameOver(r, b2)
               case Over(res) =>
                 t == EndedByBot(m, t.bot, res) && after == Concluded(before.stats, res)
               case Ongoing =>
                 t == Continues(m, t.bot)
                 && after == Record(r.fen(b2), BotMessage(r.uci(t.bot), u), before.stats)
  }

  /**
   * `play_turn(user_move_uci)` on the loaded state: the turn as `TurnSpec`
   * describes it, and the README text as `update_readme` leaves it (untouched
   * when the turn is rejected).
   */
  method PlayTurn<B, M(==)>(r: Rules<B, M>, state: GameState, userMoveUci: string, readme: string)
    returns (t: Turn<M>, readmeOut: string)
    modifies state
    ensures TurnSpec(r, old(state.Snapshot()), userMoveUci, t, state.Snapshot())
    ensures readmeOut == if t.Rejected? then readme else UpdateReadme(readme, state.stats, state.lastMove)
  {
    var position := r.parseFen(state.fen);
    if position.None? {
      return Rejected(UnreadablePosition), readme;
    }
    var board := position.value;
    var move := r.parseUci(userMoveUci);
    if move.None? {
      return Rejected(InvalidFormat), readme;
    }
    if move.value !in r.legalMoves(board) {
      return Rejected(IllegalMove), readme;
    }
    ghost var stats0 := state.stats;
    board := r.push(board, move.value);
    state.lastMove := CommunityMessage(userMoveUci);

    var verdict := CheckGameOver(r, board);
    if verdict.Over? {
      HandleGameOver(state, verdict.result);
      t := EndedByUser(move.value, verdict.result);
      readmeOut := UpdateReadme(readme, state.stats, state.lastMove);
      return;
    }

    var bot := ChooseBotMove(r, board);
    ghost var b1 := board;
    board := r.push(board, bot);
    state.lastMove := BotMessage(r.uci(bot), userMoveUci);

    verdict := CheckGameOver(r, board);
    if verdict.Over? {
      HandleGameOver(state, verdict.result);
      t := EndedByBot(move.value, bot, verdict.result);
      readmeOut := UpdateReadme(readme, state.stats, state.lastMove);
      return;
    }

    state.fen := r.fen(board);
    t := Continues(move.value, bot);
    readmeOut := UpdateReadme(readme, state.stats, state.lastMove);
  }

  // ---------------------------------------------------------------------------
  // What a turn guarantees
  // ---------------------------------------------------------------------------

  /**
   * A turn is rejected exactly when the stored position cannot be read, the
   * move text does not parse, or the move is not legal; each failure has its
   * own reason, and a rejected move saves nothing.
   */
  lemma RejectedTurnSavesNothing<B, M>(r: Rules<B, M>, before: Record, u: string, t: Turn<M>, after: Record)
    requires TurnSpec(r, before, u, t, after)
    ensures t.Rejected? <==>
              || r.parseFen(before.fen).None?
              || r.parseUci(u).None?
              || r.parseUci(u).value !in r.legalMoves(r.parseFen(before.fen).value)
    ensures t == Rejected(UnreadablePosition) <==> r.parseFen(before.fen).None?
    ensures t == Rejected(InvalidFormat) <==> r.parseFen(before.fen).Some? && r.parseUci(u).None?
    ensures t.Rejected? ==> after == before
  {
  }

  /**
   * The counters never go down, and their sum grows by exactly one when the
   * turn finishes a game and stays put otherwise.
   */
  lemma StatsOnlyGrow<B, M>(r: Rules<B, M>, before: Record, u: string, t: Turn<M>, after: Record)
    requires TurnSpec(r, before, u, t, after)
    ensures after.stats.communityWins >= before.stats.communityWins
    ensures after.stats.botWins >= before.stats.botWins
    ensures after.stats.draws >= before.stats.draws
    ensures Total(after.stats) == Total(before.stats) + (if EndsGame(t) then 1 else 0)
  {
  }

  /** A finished game leaves the starting position, the result message and the counted result. */
  lemma FinishedGameStartsAnew<B, M>(r: Rules<B, M>, before: Record, u: string, t: Turn<M>, after: Record)
    requires TurnSpec(r, before, u, t, after)
    requires EndsGame(t)
    ensures after.fen == StartingFen
    ensures after.lastMove == ResultMessage(t.result)
    ensures after.stats == Tally(before.stats, t.result)
  {
  }

  /**
   * An unfinished game is saved as the position two plies on, community move
   * then bot move, with both moves named and the counters untouched.
   */
  lemma ContinuedTurnPlaysTwoPlies<B, M>(r: Rules<B, M>, before: Record, u: string, t: Turn<M>, after: Record)
    requires TurnSpec(r, before, u, t, after)
    requires t.Continues?
    ensures r.parseFen(before.fen).Some? && r.parseUci(u) == Some(t.user)
    ensures var b1 := r.push(r.parseFen(before.fen).value, t.user);
            && t.user in r.legalMoves(r.parseFen(before.fen).value)
            && t.bot in r.legalMoves(b1)
            && after.fen == r.fen(r.push(b1, t.bot))
    ensures after.stats == before.stats
    ensures after.lastMove == BotMessage(r.uci(t.bot), u)
  {
  }

  /** When the community's move ends the game, the bot does not move. */
  lemma NoReplyAfterDecisiveUserMove<B, M>(r: Rules<B, M>, before: Record, u: string, t: Turn<M>, after: Record)
    requires TurnSpec(r, before, u, t, after)
    requires r.parseFen(before.fen).Some? && r.parseUci(u).Some?
    requires var b := r.parseFen(before.fen).value;
             r.parseUci(u).value in r.legalMoves(b)
             && IsGameOver(r, r.push(b, r.parseUci(u).value))
    ensures t.EndedByUser?
  {
  }

  /**
   * The community always plays White: if the saved position has White to move,
   * so does the next saved position, a game ended by the community's move is
   * never a bot win, and a game ended by the bot's move is never a community
   * win.
   */
  lemma CommunityPlaysWhite<B(!new), M>(r: Rules<B, M>, before: Record, u: string, t: Turn<M>, after: Record)
    requires Lawful(r)
    requires TurnSpec(r, before, u, t, after)
    requires r.parseFen(before.fen).Some? && r.turn(r.parseFen(before.fen).value) == White
    ensures r.parseFen(after.fen).Some? && r.turn(r.parseFen(after.fen).value) == White
    ensures t.EndedByUser? ==> t.result != BlackWins
    ensures t.EndedByBot? ==> t.result != WhiteWins
  {
    var b := r.parseFen(before.fen).value;
    if !t.Rejected? {
      var b1 := r.push(b, t.user);
      assert r.turn(b1) == Black;
      if !t.EndedByUser? {
        var b2 := r.push(b1, t.bot);
        assert r.turn(b2) == White;
        if t.Continues? {
          assert after.fen == r.fen(b2);
        }
      }
    }
  }
}
