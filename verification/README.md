# Othello engine core in Dafny

A model of the game engine of the `othello` repository (src/board.py,
src/game.py, src/state_evaluation.py, src/player.py), with proofs about it.
The engine plays Othello on an 8x8 board. Black moves first. A move must
flank a straight run of opposing discs. The engine marks the side to move's
legal squares on the board with VALID markers. A game ends after two
passes in a row, on a full board, or when one colour has no discs left.
Computer players pick a move either at random or by a depth-bounded
minimax over `simulate_move` successors. The minimax leaves are scored by a
`StateEvaluator`, a weighted sum of three heuristics (disc difference,
mobility, corners).

Modules, one per source concern:

- `Wrappers`: `Option`, `Result` and the engine's `ValueError` conditions.
- `Board`: square kinds, coordinates, the 64-square grid in row-major
  order, tallies, and the opening position.
- `Rules`: the board-level rules used by `Game`. These are the eight rays
  of `is_valid_move` and `discs_to_flip`, marker clearing and marking, and
  playing a disc with its captures. Each computation in the shape of the
  source's loops is related to an independent definition: "flanks a run
  in some direction" for legality, and "lies on a flanked run" for
  capture.
- `Game`: the `Game` object as an immutable value. Each mutating method
  becomes a function from game to game, and `simulate_move` is the
  composition of those functions.
- `Evaluation`: `StateEvaluator`, its weight check, the three heuristics,
  the terminal values and the weighted sum.
- `Player`: player construction, the random agent, `minimax`,
  `minimax_evaluate_moves`, `get_minimax_move` and `get_player_move`. The
  `Player` object itself is the datatype `Agent`.

Termination of minimax does not depend on depth. Every simulated legal move
uses up one free (EMPTY or VALID) square, so the number of free squares
decreases. The model follows the code as written where that code is
unusual:

- `minimax_evaluate_moves` lists the moves of the player's own colour.
- It simulates them for whichever colour is active.
- It searches the replies with the flag `color == BLACK`, whichever side
  replies. The model keeps this version as
  `MinimaxEvaluateMovesAsWritten`, and `GetMinimaxMove` chooses among its
  values, as `get_minimax_move` does. `MinimaxEvaluateMoves` is the version
  with the flag `color != BLACK` that minimax's docstring calls for (see
  "## Findings"). It is proved about, but nothing else in the model uses it.
- Each legality query first clears the VALID markers of the game it is
  asked about.

## Model

| member | source | states |
|---|---|---|
| Board.Initial | src/board.py:17-27 | The opening board has white discs on d4 and e5 and black discs on e4 and d5. It has VALID markers on Black's four opening squares, and every other square is EMPTY. |
| Board.InitialTally | src/board.py:17-27 | The opening holds 2 black and 2 white discs, 4 VALID markers and 56 EMPTY squares. |
| Board.CountZeroCells | src/game.py:311-314 | A colour's tally, the score check_finished tests for zero, is zero exactly when no square of the board holds that colour. |
| Game.NewGameSpec | src/game.py:13-30 | A new game is unfinished, Black is to move, both move slots are empty, and the cached 2-2 scores equal the real disc counts. |
| Game.NewGameMarked | src/board.py:17-27 | The VALID markers of a new game are exactly the legal moves of Black, who moves first, so update_valid_moves leaves a new game unchanged. |
| Game.ChangeTurn | src/game.py:33-34 | The side to move becomes the other colour. The board, scores, move history, finished flag and result are unchanged. |
| Game.ChangeTurnTwice | src/game.py:33-34 | Swapping active and inactive twice restores the game. |
| Game.UpdateScores | src/game.py:37-39 | After the recount, the cached scores equal the numbers of black and white discs on the board, and the board and turn are unchanged. |
| Game.UpdateScoresIdle | src/game.py:37-39 | Recounting scores that already match the board changes nothing. |
| Rules.ResetValidMoves | src/game.py:142-150 | After clearing, no VALID marker is left. Marked squares become EMPTY and every other square keeps its content. |
| Rules.ResetIdempotent | src/game.py:142-150 | Clearing the markers twice is the same as clearing them once. |
| Rules.ResetCounts | src/game.py:142-150 | Clearing the markers keeps both disc tallies and the number of free squares. |
| Rules.RaysDisjoint | src/game.py:58-84 | Rays from one square in two different directions share no square. |
| Rules.LegalWalkFlanked | src/game.py:61-84 | On a marker-free board, the one-direction walk of is_valid_move succeeds exactly when the ray starts with a non-empty run of opposing discs closed by an own disc. |
| Rules.AnyDirectionFlanked | src/game.py:61-87 | On a marker-free board, the direction loop returns True exactly when some direction flanks a run. |
| Rules.IsValidMoveLegal | src/game.py:42-87 | A move is valid exactly when its square is EMPTY once the markers are cleared and some direction flanks a run of opposing discs. |
| Rules.IsValidMoveIgnoresMarkers | src/game.py:51-53 | Because the check clears the markers first, a square's legality does not depend on them. |
| Rules.LegalIsFree | src/game.py:54-55 | A legal square is EMPTY or VALID-marked, and it is EMPTY once the markers are cleared. |
| Rules.ValidMovesSpec | src/game.py:90-103 | The list holds exactly the legal squares, in strictly increasing row-major order. |
| Rules.ValidMovesIgnoreMarkers | src/game.py:90-103 | The legal-move list does not depend on the board's markers. |
| Game.GetValidMovesSpec | src/game.py:90-103 | get_valid_moves lists exactly the active player's legal squares, in increasing row-major order, without repetition. |
| Game.GetValidMovesByColor | src/game.py:106-139 | The query fails with InvalidColor exactly when the colour is neither BLACK nor WHITE. |
| Game.GetValidMovesByColorSpec | src/game.py:106-139 | Asking by colour gives the moves of the game in which that colour is to move. For the active colour this is get_valid_moves. |
| Rules.MarkValidMovesSpec | src/game.py:153-171 | After marking, a square is VALID exactly when it is a legal move, and clearing the markers gives back the cleared original. |
| Rules.MarkValidMovesCounts | src/game.py:153-171 | Marking keeps both disc tallies and the number of free squares. |
| Rules.OpeningMarkersAreBlackMoves | src/board.py:24-27 | A square of the opening board carries a VALID marker exactly when it is a legal move for Black. |
| Rules.OpeningIsMarked | src/board.py:17-27 | Marking Black's legal moves on the opening board gives back the opening board. |
| Game.UpdateValidMovesSpec | src/game.py:153-171 | After update_valid_moves, a square is VALID exactly when the active player may play it, discs are untouched and matching scores still match. |
| Game.IsValidMovesAfterUpdate | src/game.py:174-180 | Right after update_valid_moves, is_valid_moves is true exactly when the active player has a legal move. |
| Rules.FlipWalkResult | src/game.py:228-250 | In one direction, discs_to_flip collects either nothing, when no run is flanked, or exactly the flanked run, in order from the moved square. |
| Rules.FlipWalkMembers | src/game.py:228-250 | A square is collected in a direction exactly when it lies on that direction's flanked run. |
| Rules.DiscsToFlipSpec | src/game.py:212-252 | The discs to flip are pairwise distinct opposing discs, never the moved square, and are exactly the squares captured in some direction. |
| Rules.DiscsToFlipIgnoresMarkers | src/game.py:212-252 | The captures do not depend on VALID markers. |
| Rules.ValidIffCaptures | src/game.py:42-87 | On a square that is EMPTY once markers are cleared, a move is legal exactly when it captures at least one disc. |
| Rules.PlayAtEffect | src/game.py:255-282 | Playing sets the target square and every captured square to the mover's colour and leaves every other square as it was. |
| Rules.PlayAtCounts | src/game.py:255-282 | On a free square, the mover gains one disc plus one per capture, the opponent loses the captured discs, and one free square is used. |
| Game.MakeMoveSpec | src/game.py:269-282 | With no next_move the game is unchanged. Otherwise the target and exactly the captured squares take the active colour, and nothing else changes. |
| Game.MakeMoveCounts | src/game.py:269-282 | A move on a free square adds exactly one disc to the board and shifts the captured discs from one side to the other. |
| Game.IsBoardFullSpec | src/game.py:285-293 | The board is full exactly when it has no EMPTY or VALID square left. |
| Game.DetermineWinnerSpec | src/game.py:317-327 | Black wins exactly when its score is larger, White exactly when White's is, and there is a draw exactly on a tie. |
| Game.CheckFinishedSpec | src/game.py:296-314 | The game becomes finished, with the winner recorded, exactly when there are two passes in a row, the board is full, or a score is zero. It otherwise stays as it was, and a finished game is never reopened. |
| Game.SimulateMoveSpec | src/game.py:330-352 | On the successor of a move on a free square: the other side is to move, the moved square and the captured discs hold the mover's colour, and up to the markers every other square is as before. The markers are the new side's legal moves. The scores are recounted and total one more disc, and one free square is used. The successor is finished exactly when the game was or one of check_finished's end conditions holds of it. |
| Game.SimulateMoveIgnoresMarkers | src/game.py:330-352 | The successor does not depend on the markers of the game it is computed from. |
| Evaluation.NewEvaluatorSpec | src/state_evaluation.py:17-39 | Given weights are kept exactly when they sum to 1, and otherwise the result is WeightsDoNotSumToOne. With no weights or empty weights, the defaults are used. |
| Evaluation.RatioSpec | src/state_evaluation.py:103-115 | The normalised difference lies in [-1, 1], is positive or negative exactly when the first count is larger or smaller, and is antisymmetric. |
| Evaluation.CountValidMovesSpec | src/state_evaluation.py:75-76 | The count is the length of that colour's legal-move list, and any other square kind is InvalidColor. |
| Evaluation.MobilitySpec | src/state_evaluation.py:79-91 | Mobility lies in [-1, 1] and is positive exactly when Black has more legal moves than White. |
| Evaluation.CountDiscs | src/state_evaluation.py:94-100 | count_discs returns Black's or White's cached score, and fails with InvalidColor exactly for a square kind that is not a colour. |
| Evaluation.CountDiscsAfterUpdate | src/state_evaluation.py:94-100 | Right after update_scores, count_discs gives the number of that colour's discs on the board. |
| Evaluation.DiscDiffSpec | src/state_evaluation.py:103-115 | With non-negative scores, the disc difference lies in [-1, 1] and is positive exactly when Black's score is larger. |
| Evaluation.CountCornersSpec | src/state_evaluation.py:118-126 | The corner count depends only on the four corner squares and is at most 4. |
| Evaluation.CornerSpec | src/state_evaluation.py:129-141 | The corner heuristic lies in [-1, 1] and is positive exactly when Black holds more corners. |
| Evaluation.HeuristicBounded | src/state_evaluation.py:19-23 | Exactly the three HeuristicType keys have a method, and each method's value lies in [-1, 1]. |
| Evaluation.WeightedSumOk | src/state_evaluation.py:64-72 | The weighted sum succeeds exactly when every weight key has a method. |
| Evaluation.WeightedSumFirstUnknown | src/state_evaluation.py:64-72 | A failing sum reports the first key without a method, in iteration order. |
| Evaluation.WeightedSumBounded | src/state_evaluation.py:64-72 | With non-negative weights and values in [-1, 1], the sum lies within plus or minus the total weight. |
| Evaluation.EvaluateTerminal | src/state_evaluation.py:54-61 | A finished game is worth 1, 0 or -1 by the cached scores, whatever the weights. |
| Evaluation.EvaluateWithin | src/state_evaluation.py:42-72 | With known keys, non-negative weights summing to 1 and non-negative scores, evaluation succeeds with a value in [-1, 1]. |
| Evaluation.EvaluateBounded | src/state_evaluation.py:17-72 | Any evaluator built with non-negative known weights, including the default one, evaluates every game with non-negative scores to a value in [-1, 1]. |
| Evaluation.EvaluateDiscDiffOnly | src/state_evaluation.py:64-72 | For an unfinished game, a single DISC_DIFF weight w gives w times the disc difference. |
| Player.DefaultEvaluatorBuilds | src/player.py:36 | The default evaluator is the one StateEvaluator() builds with no weights. |
| Player.NewPlayer | src/player.py:19-37 | A player keeps the given type, colour and depth. It keeps the given evaluator, or gets the one StateEvaluator() builds when none is given. |
| Player.NewPlayerDefaults | src/player.py:19-36 | A player built from a type and a colour alone has depth 2 and the evaluator StateEvaluator() builds. |
| Player.GetRandomMove | src/player.py:60-77 | The result is None exactly when no square carries a VALID marker, and is otherwise a VALID-marked square. |
| Player.RandomMoveAfterUpdate | src/player.py:60-77 | Right after update_valid_moves, the random agent passes exactly when the active side has no legal move, and otherwise plays a legal one. |
| Player.ScoreOrder | src/player.py:99-119 | The order on values extended by plus and minus infinity is total, and max and min return one of their arguments and bound both. |
| Player.MinimaxBase | src/player.py:95-97 | At depth 0 or on a finished game, minimax is the evaluation, or its error. |
| Player.MinimaxNoMoves | src/player.py:99-119 | Without legal moves, an inner node is worth -infinity when maximizing and +infinity when minimizing. |
| Player.MinimaxSearch | src/player.py:99-119 | An inner node searches the successors of the active side's legal moves one level shallower, and each successor has fewer free squares. |
| Player.SearchChildrenSpec | src/player.py:102-103 | The i-th successor is simulate_move of the i-th legal move, on the game with its markers cleared. |
| Player.FoldValuesSpec | src/player.py:100-118 | The running max (or min) bounds the start value and every child value, and is one of them. |
| Player.ChildrenSpec | src/player.py:102-117 | The child values exist exactly when every child's minimax succeeds, and the i-th value is the i-th child's minimax. |
| Player.SearchSpec | src/player.py:99-119 | The node value bounds every child's value from above (maximizing) or below (minimizing), and equals one of them when there is a child. With no child it is the starting infinity. |
| Player.OwnMoveChildrenSpec | src/player.py:133-139 | The i-th successor is simulate_move of the i-th legal move of the player's own colour. |
| Player.EvaluateMovesSpec | src/player.py:138-149 | The pairs exist exactly when every successor's minimax succeeds, and each move is paired with its successor's minimax value. |
| Player.MinimaxEvaluateMovesAsWritten | src/player.py:122-149 | As written: the i-th pair carries the i-th legal move of the player's colour, one pair per move. Each value is its successor's minimax with the flag `color == BLACK`. |
| Player.MinimaxEvaluateMoves | src/player.py:122-149 | Corrected flag: the i-th pair carries the i-th legal move of the player's colour, one pair per move. Each value is its successor's minimax with the flag `color != BLACK`, so the side to move in the successor maximizes exactly when it is Black. |
| Player.MinimaxReplies | src/player.py:95-119 | An inner node's value bounds every reply's value, searched one level shallower with the flag flipped, from above when maximizing and from below otherwise. It equals one of them when there is a reply. |
| Player.EvaluateOwnMovesReplies | src/player.py:136-146 | A move's value bounds every reply in its successor, each searched two levels below the player's depth with the flag flipped, and equals one of them when there is a reply. |
| Player.MinimaxEvaluateMovesReplies | src/player.py:84-88 | Corrected flag: a Black player's move is worth the smallest of the replies' values, and a White player's move the largest. Each reply is searched as the player's own turn again. |
| Player.AsWrittenBestReply | src/player.py:142-146 | As written at the default depth 2: a move is worth the reply evaluation that is best for the player, the largest for Black and the smallest for White. It bounds every reply's evaluation and equals one of them when there is a reply. |
| Player.CorrectedWorstReply | src/player.py:84-88 | Corrected flag at depth 2: a move is worth the reply evaluation that is worst for the player, the smallest for Black and the largest for White. It bounds every reply's evaluation and equals one of them when there is a reply. |
| Player.AsWrittenDiffers | src/player.py:142-146 | At depth 2, when two replies to a move evaluate differently, the as-written value of that move differs from the corrected one. |
| Player.MinimaxEvaluateMovesLegal | src/player.py:122-149 | In both the as-written and the corrected lists, a square appears in the evaluated pairs exactly when it is a legal move of the player's colour. |
| Player.BestFromSpec | src/player.py:166-171 | The scan returns an index whose value no entry beats and which beats every earlier entry. |
| Player.FirstBestUnique | src/player.py:166-171 | At most one entry is the first best, so the choice is determined. |
| Player.ChooseMoveSpec | src/player.py:163-171 | The choice is None exactly on an empty list, and otherwise the move of the first best entry. |
| Player.GetMinimaxMoveSpec | src/player.py:154-173 | The move is None exactly when the player has no legal move. Otherwise it is the move of the first entry of the as-written minimax_evaluate_moves list with the largest value for Black or the smallest for White. |
| Player.GetMinimaxMoveLegal | src/player.py:154-173 | A move chosen by minimax is a legal move of the player's colour. |
| Player.MinimaxChoice | src/player.py:154-173 | When the search succeeds, get_minimax_move passes exactly when the player has no legal move, and otherwise returns a legal one. |
| Player.OfflineMove | src/player.py:40-57 | The move is the first typed square that is_valid_move accepts for the side to move. It is None exactly when no typed square is accepted. |
| Player.GetPlayerMove | src/game.py:183-209 | The old next_move becomes prev_move, and two passes in a row make check_finished end the game. OFFLINE plays the first accepted typed square, RANDOM a VALID-marked square (a pass exactly when none is marked), and MINIMAX exactly the move get_minimax_move chooses, which is a legal move or a pass exactly when there is none. OFFLINE and MINIMAX leave the board with its markers cleared, and RANDOM leaves it unchanged. A USER player is an error. |

## Left out

- Console and web front ends, `Board.display`, `main.py` and the other
  scripts: these are I/O outside the engine.
- Keyboard input in `get_offline_move` is modelled as the sequence of
  squares typed in. Parsing the typed text (such as "e4") is not modelled,
  and neither are its error messages or out-of-range entries.
- Player.GetPlayerMove: while no typed square has been accepted, the
  source keeps prompting and does not return. The model returns
  `AwaitingInput` instead.
- Player.GetPlayerMove: `get_player_move` has no branch for a USER player,
  so the source raises UnboundLocalError at src/game.py:209. The model
  returns `MoveUnbound`. The web front end sets a USER player's move
  directly, and that front end is not modelled.
- `random.choice` in `get_random_move` is modelled as a nondeterministic
  choice among the VALID-marked squares.
- `copy.deepcopy` in `simulate_move` needs no counterpart, because games
  are immutable values.
- The in-place side effects of `is_valid_move` and
  `get_valid_moves_by_color` on the game object are modelled functionally.
  Legality is computed on the board with its markers cleared, and search
  applies `ClearMarkers` before simulating. Restoring the active player is
  implicit, because the query returns only the list.
- Floats are modelled as exact reals. Rounding, the order of additions in
  the weighted sum, and `float('inf')` arithmetic beyond comparison are
  not modelled.
- Evaluation.NewEvaluatorSpec: `np.isclose(sum, 1)` is modelled as exact
  equality with 1, so weights that only come close to summing to 1 are
  rejected here and accepted by the source.
- Evaluation.WeightedSumFirstUnknown: the error carries the key's
  `HeuristicType` name instead of the full message text.
- The weights dictionary is modelled as its sequence of (key, weight)
  items in iteration order, with keys not checked for uniqueness.
- Player.NewPlayer: players are built only with BLACK or WHITE. The source
  accepts any square kind and fails later, in get_valid_moves_by_color's
  ValueError (src/game.py:106-139); the model's `Color` type rules the
  other kinds out at construction.
- Player objects are represented in `Game` only by the active colour.
  `GetPlayerMove` takes the active player as a parameter. Its OFFLINE
  branch judges legality by the game's active colour, as `is_valid_move`
  does. Its MINIMAX branch searches with the player's own colour, as
  `get_minimax_move` does.

## Findings

| source | as written | input that shows it | evidently intended | confidence | as-written member | corrected member |
|---|---|---|---|---|---|---|
| src/player.py:142-146 | Successor games, where the opponent is to move, are searched with the flag `color == BLACK`. So the opponent's reply is taken to be the one best for the player: maximizing for a Black player, minimizing for a White one. | A Black minimax player at the default depth 2, and a legal move after which two of White's replies evaluate differently. The as-written value is the larger reply value, not the smaller one White would choose. | The flag `color != BLACK`, per minimax's docstring (src/player.py:84-88): the side to move in the successor maximizes exactly when it is Black. | low to medium: tests/test.py:483-526 pins the values and the choice computed as written, so the repository may rely on them; not executed | Player.MinimaxEvaluateMovesAsWritten, Player.AsWrittenBestReply, Player.AsWrittenDiffers | Player.MinimaxEvaluateMoves, Player.MinimaxEvaluateMovesReplies, Player.CorrectedWorstReply |
