# Profile README bots: chess turns and a cyber pet

This is a Dafny model of the logic in three scripts of a personal GitHub-profile repository. Each script rewrites part of the profile README.

- `chess_game.py` plays one chess turn per command-line call.
  - The community's move is validated and played.
  - The bot replies with the first capture it finds, or with any legal move when there is no capture.
  - A finished game is counted in win/draw counters and the stored position is reset.
  - A stats block between HTML-comment markers in the README is rewritten.
- `chess_manager.py` plays one turn per GitHub issue titled `Chess Move: <uci>`.
  - The user's move and the AI's random reply are appended to a history list.
- `cyber_pet.py` turns the owner's push days into three things: "fed today", a streak of consecutive active days, and a mood with XP. These are written into a marker-delimited README block.

The chess library stays abstract. `ChessRules.Rules<Board, Move>` is a record of functions: FEN parsing and printing, UCI parsing and printing, the legal-move list, `is_capture`, `push`, `turn`, `is_check`, and the three automatic-draw tests. Checkmate, stalemate and `is_game_over` are defined from these functions the same way the chess library defines them. Laws that only some lemmas need are collected in the predicate `ChessRules.Lawful`: a push hands the move to the other side, printing and re-reading a FEN keeps the side to move, and White moves first in the start position. Those lemmas take `Lawful` as a precondition.

Three facts about the code shape the model:

- **An unreadable stored position is not recovered.** `chess.Board(state["fen"])` is outside any `try` (`chess_game.py:51`, `chess_manager.py:100`), so the script raises. The model rejects the turn and saves nothing.
- **The board is read before the move is parsed.** An unreadable position therefore wins over a malformed move.
- **The two chess scripts keep different records.** `chess_game.py` keeps counters and no history. `chess_manager.py` keeps a history but no counters, never resets a finished game, and records only the AI's move in `last_move`.

Modules:

| module | file | what it models |
|---|---|---|
| `Options` | `options.dfy` | `Option` |
| `Text` | `text.dfy` | `str.strip`, `str.split` on one character, and decimal `str(int)` |
| `Markers` | `markers.dfy` | `re.search`/`re.sub` on `OPEN.*?CLOSE` with `re.DOTALL` |
| `ChessRules` | `chess_rules.dfy` | the chess library interface |
| `ChessGame` | `chess_game.dfy` | `chess_game.py` |
| `ChessManager` | `chess_manager.dfy` | `chess_manager.py` |
| `CyberPet` | `cyber_pet.dfy` | `cyber_pet.py` |

How the model is shaped:

- **State classes.** The state dictionaries that the scripts load, mutate in place and save are classes: `ChessGame.GameState` and `ChessManager.ManagerState`.
- **Turn methods.** The turn methods are proved against ghost relational specifications, `ChessGame.TurnSpec` and `ChessManager.IssueSpec`. Lemmas then derive the promised properties from those specifications.
- **Random choices.** `random.choice` is an arbitrary choice among the legal moves (`:|`).
- **Dates.** Dates are integer day numbers, and today's date is a parameter.

## Model

| member | source | states |
|---|---|---|
| `Text.Strip` | chess_manager.py:92 | `str.strip()`: the result is a contiguous slice of the input that neither starts nor ends with whitespace |
| `Text.StripIdempotent` | chess_manager.py:92 | stripping an already stripped move text changes nothing |
| `Text.Split` | chess_manager.py:92 | `split(":")`: at least one piece, no piece contains the separator, and joining the pieces with the separator gives back the input |
| `Text.SplitAfterField` | chess_manager.py:92 | splitting `p + ":" + q` with no colon in `p` gives `p` followed by the pieces of `q` |
| `Text.SplitFirstField` | chess_manager.py:92 | the first piece of a split is the text up to the first separator |
| `Text.NatToString` | chess_game.py:37 | the `{n}` rendering of a counter: non-empty decimal digits whose value is `n`, with no leading zero and no `<` |
| `Markers.IndexOf` | cyber_pet.py:140 | the first occurrence of a marker at or after a position, or none at all after it |
| `Markers.FirstBlock` | cyber_pet.py:140-143 | `re.search` of `START.*?END`: none exactly when no opening marker is followed by a closing marker; otherwise the leftmost opening marker and the first closing marker after it |
| `Markers.ReplaceBlocks` | cyber_pet.py:149 | `re.sub`: with no block the text is unchanged; otherwise the text before the first block is kept and the new content stands where the block began |
| `Markers.MarkedBodyIsBlock` | chess_game.py:36-39 | markers around a body with no `<` form exactly one well-formed block |
| `Markers.FirstBlockAfterReplace` | cyber_pet.py:149 | after the first block is replaced by a well-formed block, that new block is the first block of the result |
| `Markers.ReplaceIdempotent` | cyber_pet.py:140-149 | replacing with a well-formed block a second time gives the text the first replacement gave |
| `Markers.ReplaceKeepsBlock` | chess_game.py:42-44 | a text that had a block still has one after replacement with a well-formed block |
| `Markers.FirstBlockAfterPrefix` | cyber_pet.py:140-143 | with no opening marker starting in a prefix, the text has a block exactly when the rest does, and its first block is the rest's first block shifted by the prefix |
| `Markers.ReplaceAfterPrefix` | cyber_pet.py:149 | text in front of the blocks is kept exactly, however many blocks follow |
| `Markers.ReplaceFirstBlock` | cyber_pet.py:149 | the first block is replaced, the text before it is kept, and replacement continues after it |
| `Markers.ReplaceTwoBlocks` | cyber_pet.py:149 | with two blocks, both are replaced and the text before, between and after them is kept |
| `Markers.ReplaceSingleBlock` | chess_game.py:42-44 | a README with exactly one block becomes the text before it, the new content and the text after it, unchanged |
| `ChessGame.CheckGameOver` | chess_game.py:102-108 | over exactly when the game is over; White wins exactly on checkmate with Black to move, Black wins exactly on checkmate with White to move, and every other ending is a draw |
| `ChessGame.Tally` | chess_game.py:110-119 | exactly one counter, the one for the result, goes up, and the total grows by exactly one |
| `ChessGame.GameState.constructor` | chess_game.py:14-20 | the default record: starting FEN, "Game Start", all counters zero |
| `ChessGame.HandleGameOver` | chess_game.py:110-124 | the saved record becomes the starting FEN, the result message and the tallied counters |
| `ChessGame.FirstCaptureIndex` | chess_game.py:78-81 | the index of the first capturing move, with no capture before it, or none exactly when no move captures |
| `ChessGame.ChooseBotMove` | chess_game.py:74-84 | the bot plays a legal move, and the first capture in enumeration order when there is one |
| `ChessGame.BotChoiceCapturesFirst` | chess_game.py:78-86 | when a capture is legal, the bot's move captures and no earlier legal move does |
| `ChessGame.StatsBlock` | chess_game.py:36-39 | the stats block starts with the start marker and ends with the end marker |
| `ChessGame.StatsBlockWellFormed` | chess_game.py:36-39 | the stats block is one well-formed block when the last-move text has no `<` |
| `ChessGame.UpdateReadme` | chess_game.py:42-47 | a README without a stats block is written back unchanged; otherwise the text before the block is kept and the new stats block stands in its place |
| `ChessGame.UpdateReadmeIdempotent` | chess_game.py:42-44 | rewriting with the same stats a second time changes nothing, and the stats block stays |
| `ChessGame.PlayTurn` | chess_game.py:49-99 | one turn as `TurnSpec` describes it; the README is rewritten after every accepted turn and left alone after a rejected one |
| `ChessGame.RejectedTurnSavesNothing` | chess_game.py:51-64 | a turn is rejected exactly when the position cannot be read, the move does not parse or the move is illegal, each with its own reason; a rejected turn leaves the saved record exactly as it was |
| `ChessGame.StatsOnlyGrow` | chess_game.py:110-119 | counters never go down; their sum grows by one exactly when the turn ends a game |
| `ChessGame.FinishedGameStartsAnew` | chess_game.py:121-124 | after a finished game, the saved FEN is the starting FEN, `last_move` is the result message, and the counters are tallied |
| `ChessGame.ContinuedTurnPlaysTwoPlies` | chess_game.py:86-97 | an unfinished game is saved two plies on (a legal user move, then a legal bot move), with unchanged counters and a `last_move` naming both moves |
| `ChessGame.NoReplyAfterDecisiveUserMove` | chess_game.py:66-70 | when the user's legal move ends the game, the bot does not move |
| `ChessGame.CommunityPlaysWhite` | chess_game.py:104-116 | with White to move in the saved position, White is still to move in the next saved position, a game ended by the community is never a bot win, and a game ended by the bot is never a community win |
| `ChessManager.ParseTitle` | chess_manager.py:85-96 | the issue is ignored exactly when there is no title or the title lacks the `Chess Move:` prefix |
| `ChessManager.ParseTitleNeverBadFormat` | chess_manager.py:91-92 | the move text is the stripped text between the first and second colons |
| `ChessManager.ChessTitleAlwaysParses` | chess_manager.py:85-96 | every title with the prefix yields a move text, so the invalid-format branch cannot be taken |
| `ChessManager.GetAiMove` | chess_manager.py:76-82 | None exactly when there is no legal move; otherwise a legal move |
| `ChessManager.ManagerState.constructor` | chess_manager.py:18-27 | the default record: starting FEN, "Game Start", "white", empty history |
| `ChessManager.HandleIssue` | chess_manager.py:84-138 | one issue as `IssueSpec` describes it |
| `ChessManager.UnprocessedIssueSavesNothing` | chess_manager.py:85-115 | ignored and rejected issues leave the record unchanged; an issue is ignored exactly when its title is missing or lacks the prefix; the invalid-format rejection never happens |
| `ChessManager.HistoryRecordsPlayedMoves` | chess_manager.py:107-128 | the history grows by the user's move text, then by the AI's move when the AI moved, and by nothing else |
| `ChessManager.LastMoveIsAiMove` | chess_manager.py:119-129 | `last_move` is the AI's move when the AI moved and otherwise stays as it was; `turn` is never changed |
| `ChessManager.AiAnswersUnlessGameOver` | chess_manager.py:117-138 | the AI moves exactly when the user's move did not end the game; the saved FEN is the position after the played plies, with no reset; the reported game-over flag matches that position |
| `CyberPet.PushDays` | cyber_pet.py:62-76 | a day is collected exactly when some event of type PushEvent happened on it |
| `CyberPet.Streak` | cyber_pet.py:90-94 | the streak `k` is the length of the run of active days ending today: each day after `today - k` up to today is active, `today - k` is not, and `k` is at most the number of active days |
| `CyberPet.RunBackExtend` | cyber_pet.py:92-94 | a push today extends by one the run of active days that ends yesterday |
| `CyberPet.CalculateStats` | cyber_pet.py:78-100 | fed today exactly when today is an active day; streak 0 when not fed and at least 1 when fed; the streak is the run of active days ending today |
| `CyberPet.SelectMood` | cyber_pet.py:103-111 | evolved exactly when fed with streak at least 5; happy exactly when fed with streak below 5; hungry exactly when not fed |
| `CyberPet.Xp` | cyber_pet.py:116 | `min(streak * 100, 1000)`: at most 1000, at most `100 * streak`, equal to one of the two, and 1000 from a streak of 10 on |
| `CyberPet.XpMonotone` | cyber_pet.py:116 | a longer streak never gives less XP |
| `CyberPet.MoodFromActivity` | cyber_pet.py:82-111 | in terms of the push days: hungry exactly when there was no push today; evolved exactly when each of the last five days had a push; happy exactly when there was a push today and one of the four days before had none |
| `CyberPet.PetBody` | cyber_pet.py:119-127 | the lines between the markers contain no `<` |
| `CyberPet.PetBlock` | cyber_pet.py:118-128 | the pet block starts with the start marker, ends with the end marker, and is exactly one well-formed block |
| `CyberPet.UpdateReadme` | cyber_pet.py:131-152 | nothing is written exactly when the README has no pet block; otherwise the text before the block is kept and the new pet block stands in its place |
| `CyberPet.UpdateReadmeIdempotent` | cyber_pet.py:140-149 | refreshing twice with the same content gives the same README as refreshing once |
| `CyberPet.Refresh` | cyber_pet.py:154-161 | the text written is the README updated with the block rendered from whether today is a push day and from the streak of push days |

## Left out

- File I/O is not modelled: JSON load and save, README read and write, and the SVG board image (`generate_svg`). The model works on the record and on the README text. When no state file exists, the record is the default one that the class constructors build. When a state file exists, its contents are whatever the caller passes in.
- Both `update_readme` functions return without writing when README.md is missing (`chess_game.py:29-30`, `cyber_pet.py:132-134`). The model always has a README text: `ChessGame.UpdateReadme`, `ChessGame.PlayTurn`, `CyberPet.UpdateReadme` and `CyberPet.Refresh` each receive one.
- GitHub REST calls are not modelled: the issue comment and closing (`comment_on_issue`, `close_issue`), the reply text, and the events fetch in `get_commit_activity`. The events are a parameter. Parsing `created_at` into a day number is taken as given.
- The clock, `random.choice` and `random.randint` are not modelled: today's date is a parameter, random choices are arbitrary choices, and the cache-busting number is dropped.
- Environment variables, `sys.argv`, `sys.exit` and the `__main__` dispatch become parameters and outcome datatypes. That includes `strip()` on the command-line move and the local-run SVG branch of `chess_manager.py`.
- The chess rules themselves come from a foreign library, so legal moves, checks, draws, FEN and UCI are abstract. `board.result()` text in the manager's reply is left out.
- CyberPet.PetBody: leaves out the ASCII art and its code fence. They are presentation only. The art contains `<`, which the one-block argument of `Markers.MarkedBodyIsBlock` excludes.
- Markers.ReplaceBlocks: inserts the replacement text literally, while `re.sub` processes backslash escapes in it. The evolved pet's art has a backslash followed by a line break (`cyber_pet.py:35`). A backslash followed by a line break is not a known escape, so `re.sub` keeps both characters, and literal insertion gives the same text here. Known escapes, such as `\\` (which `re.sub` turns into a single backslash) or `\n`, would differ, but no generated block contains one. The model also leaves the art out (see `CyberPet.PetBody`).
- ChessGame.StatsBlockWellFormed: requires the last-move text to contain no `<`. Move texts built from UCI strings and the fixed result messages never do.
- The manager's state file may lack a `history` key. This case is left out, and the model assumes the key is present.
