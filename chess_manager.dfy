/**
 * The issue-driven chess bot: the move comes from the title of a GitHub issue
 * ("Chess Move: e2e4"), the AI answers with a random legal move, and the
 * played moves are appended to a history list. There are no counters and no
 * reset after a finished game.
 */
module ChessManager {
  import opened Options
  import opened ChessRules
  import Text

  const MovePrefix: string := "Chess Move:"

  // ---------------------------------------------------------------------------
  // Reading the move out of the issue title
  // ---------------------------------------------------------------------------

  /** What `main` makes of `ISSUE_TITLE` before touching any state. */
  datatype TitleParse =
    | NotAChessMove            // no title, or it does not start with "Chess Move:"
    | BadFormat                // `split(":")[1]` raised (the bare `except:`)
    | MoveText(text: string)   // the stripped text after the first colon

  /**
   * `ISSUE_TITLE.split(":")[1].strip()` behind the prefix check, with the
   * `IndexError` branch kept as written.
   */
  function ParseTitle(title: Option<string>): (p: TitleParse)
    ensures p.NotAChessMove? <==> title.None? || !Text.StartsWith(title.value, MovePrefix)
  {
    if title.None? || !Text.StartsWith(title.value, MovePrefix) then NotAChessMove
    else
      var parts := Text.Split(title.value, ':');
      if |parts| < 2 then BadFormat else MoveText(Text.Strip(parts[1]))
  }

  /**
   * The prefix check leaves at least two pieces for `split(":")`, so the
   * "Invalid move format" branch is never taken; the move text is the part
   * between the first and the second colon, stripped of whitespace.
   */
  lemma {:induction false} ParseTitleNeverBadFormat(field: string, tail: string)
    requires ':' !in field
    requires tail == [] || tail[0] == ':'
    ensures ParseTitle(Some(MovePrefix + field + tail)) == MoveText(Text.Strip(field))
  {
    var title := MovePrefix + field + tail;
    assert MovePrefix == "Chess Move" + [':'];
    assert title == "Chess Move" + [':'] + (field + tail);
    assert ':' !in "Chess Move";
    Text.SplitAfterField("Chess Move", ':', field + tail);
    Text.SplitFirstField(field, ':', tail);
    assert title[..|MovePrefix|] == MovePrefix;
  }

  /** Every title that passes the prefix check yields a move text. */
  lemma ChessTitleAlwaysParses(title: string)
    requires Text.StartsWith(title, MovePrefix)
    ensures ParseTitle(Some(title)).MoveText?
  {
    var rest := title[|MovePrefix|..];
    var parts := Text.Split(rest, ':');
    var field := parts[0];
    var tail := rest[|field|..];
    assert rest == Text.Join(parts, ':');
    if |parts| == 1 {
      assert field == rest;
    } else {
      assert rest == field + [':'] + Text.Join(parts[1..], ':');
    }
    assert rest == field + tail;
    assert title == MovePrefix + field + tail;
    ParseTitleNeverBadFormat(field, tail);
  }

  // ---------------------------------------------------------------------------
  // The AI's move
  // ---------------------------------------------------------------------------

  /** `get_ai_move(board)`: None when there is no legal move, otherwise some legal move. */
  method GetAiMove<B, M(==)>(r: Rules<B, M>, b: B) returns (m: Option<M>)
    ensures m.None? <==> |r.legalMoves(b)| == 0
    ensures m.Some? ==> m.value in r.legalMoves(b)
  {
    var legal := r.legalMoves(b);
    if |legal| == 0 {
      return None;
    }
    assert legal[0] in legal;
    var choice :| choice in legal;
    m := Some(choice);
  }

  // ---------------------------------------------------------------------------
  // The saved state and one issue
  // ---------------------------------------------------------------------------

  /** A snapshot of the state dictionary as it is written to the JSON file. */
  datatype Record = Record(fen: string, lastMove: string, turn: string, history: seq<string>)

  /** The state dictionary that `main` loads, updates in place and saves. */
  class ManagerState {
    var fen: string
    var lastMove: string
    var turn: string
    var history: seq<string>

    /** `load_state()` when there is no state file yet. */
    constructor ()
      ensures fen == StartingFen && lastMove == "Game Start" && turn == "white" && history == []
    {
      fen := StartingFen;
      lastMove := "Game Start";
      turn := "white";
      history := [];
    }

    function Snapshot(): Record
      reads this
    {
      Record(fen, lastMove, turn, history)
    }
  }

  /** Why an issue is answered without saving anything. */
  datatype Rejection =
    | InvalidFormat       // the title could not be split (never happens)
    | UnreadablePosition  // chess.Board(state["fen"]) raises; nothing catches it
    | InvalidUci          // chess.Move.from_uci raises
    | IllegalMove         // the move is not among the legal moves

  /** How `main` ends: ignored, rejected, or processed with the moves played. */
  datatype IssueOutcome<M> =
    | Ignored
    | Rejected(reason: Rejection)
    | Processed(user: M, ai: Option<M>, gameOver: bool)

  /**
   * What one issue does to the saved record: titles that are not chess moves
   * and rejected moves save nothing; an accepted move is appended to the
   * history; unless that ends the game the AI answers and its move is
   * appended too and becomes `last_move`; the position after the played moves
   * is saved, finished or not.
   */
  ghost predicate IssueSpec<B, M>(r: Rules<B, M>, before: Record, title: Option<string>, o: IssueOutcome<M>, after: Record) {
    match ParseTitle(title)
    case NotAChessMove => o == Ignored && after == before
    case BadFormat => o == Rejected(InvalidFormat) && after == before
    case MoveText(u) =>
      match r.parseFen(before.fen)
      case None => o == Rejected(UnreadablePosition) && after == before
      case Some(b) =>
        match r.parseUci(u)
        case None => o == Rejected(InvalidUci) && after == before
        case Some(m) =>
          if m !in r.legalMoves(b) then
            o == Rejected(IllegalMove) && after == before
          else
            var b1 := r.push(b, m);
            && o.Processed? && o.user == m
            && if IsGameOver(r, b1) then
                 o.ai == None && o.gameOver
                 && after == before.(fen := r.fen(b1), history := before.history + [u])
               else
                 && o.ai.Some? && o.ai.value in r.legalMoves(b1)
                 && var b2 := r.push(b1, o.ai.value);
                    o.gameOver == IsGameOver(r, b2)
                    && after == before.(fen := r.fen(b2), lastMove := r.uci(o.ai.value),
                                        history := before.history + [u, r.uci(o.ai.value)])
  }

  /**
   * `main()` on the issue title and the loaded state: the issue handled as
   * `IssueSpec` describes.
   */
  method HandleIssue<B, M(==)>(r: Rules<B, M>, title: Option<string>, state: ManagerState)
    returns (o: IssueOutcome<M>)
    modifies state
    ensures IssueSpec(r, old(state.Snapshot()), title, o, state.Snapshot())
  {
    var parsed := ParseTitle(title);
    if parsed.NotAChessMove? {
      return Ignored;
    }
    if parsed.BadFormat? {
      return Rejected(InvalidFormat);
    }
    var userMoveUci := parsed.text;

    var position := r.parseFen(state.fen);
    if position.None? {
      return Rejected(UnreadablePosition);
    }
    var board := position.value;

    var move := r.parseUci(userMoveUci);
    if move.None? {
      return Rejected(InvalidUci);
    }
    if move.value !in r.legalMoves(board) {
      return Rejected(IllegalMove);
    }
    board := r.push(board, move.value);
    state.history := state.history + [userMoveUci];

    var gameOver := IsGameOver(r, board);
    var ai: Option<M> := None;
    if !IsGameOver(r, board) {
      ai := GetAiMove(r, board);
      if ai.Some? {
        board := r.push(board, ai.value);
        state.history := state.history + [r.uci(ai.value)];
        state.lastMove := r.uci(ai.value);
        if IsGameOver(r, board) {
          gameOver := true;
        }
      } else {
        gameOver := true;
      }
    }

    state.fen := r.fen(board);
    o := Processed(move.value, ai, gameOver);
  }

  // ---------------------------------------------------------------------------
  // What handling an issue guarantees
  // ---------------------------------------------------------------------------

  /** Only a processed move changes the saved record; everything else leaves it as it was. */
  lemma UnprocessedIssueSavesNothing<B, M>(r: Rules<B, M>, before: Record, title: Option<string>, o: IssueOutcome<M>, after: Record)
    requires IssueSpec(r, before, title, o, after)
    ensures !o.Processed? ==> after == before
    ensures o.Ignored? <==> title.None? || !Text.StartsWith(title.value, MovePrefix)
    ensures o != Rejected(InvalidFormat)
  {
    if title.Some? && Text.StartsWith(title.value, MovePrefix) {
      ChessTitleAlwaysParses(title.value);
    }
  }

  /**
   * The history grows by the user's move text, followed by the AI's move when
   * the AI moved, and by nothing else.
   */
  lemma HistoryRecordsPlayedMoves<B, M>(r: Rules<B, M>, before: Record, title: Option<string>, o: IssueOutcome<M>, after: Record)
    requires IssueSpec(r, before, title, o, after)
    requires o.Processed?
    ensures ParseTitle(title).MoveText?
    ensures after.history == before.history + [ParseTitle(title).text]
                             + (if o.ai.Some? then [r.uci(o.ai.value)] else [])
    ensures |after.history| == |before.history| + (if o.ai.Some? then 2 else 1)
  {
  }

  /**
   * `last_move` is the AI's move when the AI moved and is otherwise left
   * alone; the game's colour field is never touched.
   */
  lemma LastMoveIsAiMove<B, M>(r: Rules<B, M>, before: Record, title: Option<string>, o: IssueOutcome<M>, after: Record)
    requires IssueSpec(r, before, title, o, after)
    requires o.Processed?
    ensures after.lastMove == if o.ai.Some? then r.uci(o.ai.value) else before.lastMove
    ensures after.turn == before.turn
  {
  }

  /**
   * The AI moves exactly when the user's move did not end the game (the "No
   * legal moves" branch is unreachable), and the saved position is the one
   * reached by the played moves, with no reset when the game is over.
   */
  lemma AiAnswersUnlessGameOver<B, M>(r: Rules<B, M>, before: Record, title: Option<string>, o: IssueOutcome<M>, after: Record)
    requires IssueSpec(r, before, title, o, after)
    requires o.Processed?
    ensures r.parseFen(before.fen).Some?
    ensures var b1 := r.push(r.parseFen(before.fen).value, o.user);
            && (o.ai.Some? <==> !IsGameOver(r, b1))
            && after.fen == r.fen(if o.ai.Some? then r.push(b1, o.ai.value) else b1)
            && o.gameOver == IsGameOver(r, if o.ai.Some? then r.push(b1, o.ai.value) else b1)
  {
  }
}
