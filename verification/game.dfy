/** The game flow of src/game.py: whose turn it is, the cached scores, the
    move history used to detect two passes in a row, and termination. The
    two Player objects of the source are represented here only by their
    disc colours: the active player is the one whose colour is `active`, the
    inactive one has the other colour. */
module Game {
  import opened Wrappers
  import opened Board
  import opened Rules

  /** The three values of game_result. */
  datatype Outcome = BlackWins | WhiteWins | Draw

  datatype Game = Game(
    board: Grid,
    active: Color,               // disc colour of the player to move
    finished: bool,              // is_finished
    nextMove: Option<Cell>,      // next_move; None records a pass
    prevMove: Option<Cell>,      // prev_move
    blackScore: int,             // black_score, as last recounted
    whiteScore: int,             // white_score, as last recounted
    result: Option<Outcome>)     // game_result

  /** The cached scores agree with the discs on the board. */
  predicate ScoresMatch(g: Game) {
    g.blackScore == Count(g.board, Black) && g.whiteScore == Count(g.board, White)
  }

  /** Game.__init__: the opening board, Black to move, no history, scores 2-2. */
  function NewGame(): Game {
    Game(Initial(), Black, false, None, None, 2, 2, None)
  }

  /** A new game is unfinished, Black moves first, and its cached scores
      are the true disc counts. */
  lemma NewGameSpec()
    ensures NewGame().active == Black && !NewGame().finished
    ensures ScoresMatch(NewGame())
    ensures NewGame().nextMove == None && NewGame().prevMove == None
  {
    InitialTally();
  }

  /** The hint markers of a new game are exactly the legal moves of Black,
      who is to move, so update_valid_moves leaves a new game as it is. */
  lemma NewGameMarked()
    ensures forall q: Cell :: At(NewGame().board, q) == Valid <==> IsValidMoveFor(NewGame(), q)
    ensures UpdateValidMoves(NewGame()) == NewGame()
  {
    OpeningIsMarked();
    forall q: Cell ensures At(NewGame().board, q) == Valid <==> IsValidMoveFor(NewGame(), q) {
      OpeningMarkersAreBlackMoves(q);
    }
  }

  /** change_turn: active and inactive swap places. */
  function ChangeTurn(g: Game): (r: Game)
    ensures r.active == Other(g.active)
    ensures r.board == g.board && r.finished == g.finished && r.result == g.result
    ensures r.nextMove == g.nextMove && r.prevMove == g.prevMove
    ensures r.blackScore == g.blackScore && r.whiteScore == g.whiteScore
  {
    g.(active := Other(g.active))
  }

  /** Changing turn twice gives back the game. */
  lemma ChangeTurnTwice(g: Game)
    ensures ChangeTurn(ChangeTurn(g)) == g
  {
  }

  /** update_scores: recount both colours on the board. */
  function UpdateScores(g: Game): (r: Game)
    ensures ScoresMatch(r)
    ensures r.board == g.board && r.active == g.active && r.finished == g.finished
  {
    g.(blackScore := Count(g.board, Black), whiteScore := Count(g.board, White))
  }

  /** Recounting scores that already match changes nothing. */
  lemma UpdateScoresIdle(g: Game)
    requires ScoresMatch(g)
    ensures UpdateScores(g) == g
  {
  }

  // ---------------------------------------------------------------------
  // Move queries

  /** reset_valid_moves: the game with the markers cleared from its board.
      Every legality query of the source does this to the game it is asked
      about, as a side effect. */
  function ClearMarkers(g: Game): (r: Game)
    ensures NoMarkers(r.board)
    ensures r.board == ResetValidMoves(g.board)
  {
    g.(board := ResetValidMoves(g.board))
  }

  /** is_valid_move for the active player. */
  function IsValidMoveFor(g: Game, p: Cell): bool {
    IsValidMove(g.board, p, g.active)
  }

  /** get_valid_moves: the active player's legal squares in row-major order. */
  function GetValidMoves(g: Game): seq<Cell> {
    ValidMoves(g.board, g.active)
  }

  /** get_valid_moves lists exactly the active player's legal squares. */
  lemma GetValidMovesSpec(g: Game)
    ensures forall q: Cell :: q in GetValidMoves(g) <==> IsValidMoveFor(g, q)
    ensures Increasing(GetValidMoves(g))
  {
    ValidMovesSpec(g.board, g.active);
  }

  /** get_valid_moves_by_color: the legal squares of the given colour; any
      square kind other than BLACK or WHITE is a ValueError. The source
      saves and restores the active player around the query, so only the
      list comes back. */
  function GetValidMovesByColor(g: Game, color: Square): (r: Result<seq<Cell>>)
    ensures r.Err? <==> color != Black && color != White
    ensures r.Err? ==> r.error == InvalidColor
  {
    if color == Black || color == White then Ok(ValidMoves(g.board, color)) else Err(InvalidColor)
  }

  /** Asking by colour is asking get_valid_moves of the game in which that
      colour is to move. */
  lemma GetValidMovesByColorSpec(g: Game, color: Color)
    ensures GetValidMovesByColor(g, color) == Ok(GetValidMoves(g.(active := color)))
    ensures GetValidMovesByColor(g, g.active) == Ok(GetValidMoves(g))
  {
  }

  /** update_valid_moves: clear the old markers, then mark VALID every legal
      square of the active player. */
  function UpdateValidMoves(g: Game): (r: Game)
    ensures r.active == g.active && r.finished == g.finished
  {
    g.(board := MarkValidMoves(g.board, g.active))
  }

  /** After update_valid_moves a square is VALID exactly when the active
      player may play it, and the discs are untouched. */
  lemma UpdateValidMovesSpec(g: Game)
    ensures forall q: Cell :: At(UpdateValidMoves(g).board, q) == Valid <==> IsValidMoveFor(g, q)
    ensures ResetValidMoves(UpdateValidMoves(g).board) == ResetValidMoves(g.board)
    ensures ScoresMatch(g) ==> ScoresMatch(UpdateValidMoves(g))
  {
    MarkValidMovesSpec(g.board, g.active);
    MarkValidMovesCounts(g.board, g.active);
    ResetCounts(g.board);
  }

  /** is_valid_moves: some square carries a VALID marker. */
  predicate IsValidMoves(g: Game) {
    exists i :: 0 <= i < 64 && g.board[i] == Valid
  }

  /** Right after update_valid_moves, is_valid_moves says whether the active
      player has a move at all. */
  lemma IsValidMovesAfterUpdate(g: Game)
    ensures IsValidMoves(UpdateValidMoves(g)) <==> GetValidMoves(g) != []
  {
    var b := UpdateValidMoves(g).board;
    UpdateValidMovesSpec(g);
    GetValidMovesSpec(g);
    if IsValidMoves(UpdateValidMoves(g)) {
      var i :| 0 <= i < 64 && b[i] == Valid;
      assert At(b, CellAt(i)) == Valid;
      assert CellAt(i) in GetValidMoves(g);
    }
    if GetValidMoves(g) != [] {
      var q := GetValidMoves(g)[0];
      assert At(b, q) == b[Index(q)];
    }
  }

  // ---------------------------------------------------------------------
  // Moves

  /** discs_to_flip for the active player. */
  function DiscsToFlipFor(g: Game, p: Cell): seq<Cell> {
    DiscsToFlip(g.board, p, g.active)
  }

  /** make_move: nothing when next_move is None, otherwise the active
      player's disc goes to next_move and flip turns the captured discs. */
  function MakeMove(g: Game): (r: Game)
    ensures r.active == g.active && r.nextMove == g.nextMove && r.finished == g.finished
  {
    match g.nextMove
    case None => g
    case Some(p) => g.(board := PlayAt(g.board, p, g.active))
  }

  /** make_move on a pass leaves the game alone; on a move it sets the
      target and exactly the discs_to_flip squares to the active colour and
      leaves every other square as it was. */
  lemma MakeMoveSpec(g: Game)
    ensures g.nextMove == None ==> MakeMove(g) == g
    ensures g.nextMove.Some? ==>
      var p := g.nextMove.value;
      var r := MakeMove(g).board;
      && At(r, p) == g.active
      && (forall q: Cell :: q in DiscsToFlipFor(g, p) ==> At(r, q) == g.active)
      && (forall q: Cell :: q != p && q !in DiscsToFlipFor(g, p) ==> At(r, q) == At(g.board, q))
  {
    if g.nextMove.Some? {
      PlayAtEffect(g.board, g.nextMove.value, g.active);
    }
  }

  /** A move on a free square adds one disc for the mover plus one per
      capture, takes the captured discs from the opponent, so the number of
      discs on the board grows by exactly one. */
  lemma MakeMoveCounts(g: Game)
    requires g.nextMove.Some?
    requires At(g.board, g.nextMove.value) == Empty || At(g.board, g.nextMove.value) == Valid
    ensures var n := |DiscsToFlipFor(g, g.nextMove.value)|;
      && Count(MakeMove(g).board, g.active) == Count(g.board, g.active) + 1 + n
      && Count(MakeMove(g).board, Other(g.active)) == Count(g.board, Other(g.active)) - n
      && FreeCells(MakeMove(g).board) == FreeCells(g.board) - 1
    ensures Count(MakeMove(g).board, Black) + Count(MakeMove(g).board, White)
         == Count(g.board, Black) + Count(g.board, White) + 1
  {
    PlayAtCounts(g.board, g.nextMove.value, g.active);
  }

  /** is_board_full: no square is EMPTY or VALID. */
  predicate IsBoardFull(g: Game) {
    forall i :: 0 <= i < 64 ==> g.board[i] != Empty && g.board[i] != Valid
  }

  /** The board is full exactly when no free square is left. */
  lemma IsBoardFullSpec(g: Game)
    ensures IsBoardFull(g) <==> FreeCells(g.board) == 0
  {
    CountZero(g.board, Empty);
    CountZero(g.board, Valid);
  }

  /** determine_winner: the strictly larger cached score wins; equal scores
      are a draw. */
  function DetermineWinner(g: Game): Outcome {
    if g.blackScore > g.whiteScore then BlackWins
    else if g.whiteScore > g.blackScore then WhiteWins
    else Draw
  }

  /** The outcome names Black exactly when Black's cached score is larger,
      White exactly when White's is, and a draw exactly on a tie. */
  lemma DetermineWinnerSpec(g: Game)
    ensures DetermineWinner(g) == BlackWins <==> g.blackScore > g.whiteScore
    ensures DetermineWinner(g) == WhiteWins <==> g.whiteScore > g.blackScore
    ensures DetermineWinner(g) == Draw <==> g.blackScore == g.whiteScore
  {
  }

  /** The three ways check_finished ends a game: two passes in a row, a full
      board, or a player without discs by the cached scores. */
  predicate EndCondition(g: Game) {
    || (g.nextMove == None && g.prevMove == None)
    || IsBoardFull(g)
    || g.blackScore == 0 || g.whiteScore == 0
  }

  /** check_finished: when an end condition holds, set is_finished and
      record determine_winner's outcome; otherwise the game is unchanged. */
  function CheckFinished(g: Game): Game {
    var ends := EndCondition(g);
    g.(finished := g.finished || ends, result := if ends then Some(DetermineWinner(g)) else g.result)
  }

  /** check_finished marks the game finished, with its winner, exactly when
      one of the three end conditions holds; it never reopens a finished
      game and touches nothing else. */
  lemma CheckFinishedSpec(g: Game)
    ensures EndCondition(g) ==> CheckFinished(g).finished && CheckFinished(g).result == Some(DetermineWinner(g))
    ensures !EndCondition(g) ==> CheckFinished(g) == g
    ensures CheckFinished(g).finished <==> g.finished || EndCondition(g)
    ensures CheckFinished(g).board == g.board && CheckFinished(g).active == g.active
    ensures CheckFinished(g).blackScore == g.blackScore && CheckFinished(g).whiteScore == g.whiteScore
  {
  }

  // ---------------------------------------------------------------------
  // simulate_move

  /** simulate_move: on a copy of the game, record the move as next_move,
      make it, hand the turn over, mark the new player's legal squares,
      recount the scores and check whether the game has ended. prev_move is
      left as it was. */
  function SimulateMove(g: Game, m: Cell): Game {
    var moved := MakeMove(g.(nextMove := Some(m)));
    CheckFinished(UpdateScores(UpdateValidMoves(ChangeTurn(moved))))
  }

  /** The successor of a move on a free square: the other player is to move,
      the board holds the mover's disc at m and the captured discs turned,
      and up to the markers every other square is as before. Its markers are
      the new player's legal squares, the scores are recounted and add up to
      one more disc, and one free square is used up. It is finished exactly
      when the game was or one of check_finished's end conditions holds. */
  lemma SimulateMoveSpec(g: Game, m: Cell)
    requires At(g.board, m) == Empty || At(g.board, m) == Valid
    ensures var s := SimulateMove(g, m);
      && s.active == Other(g.active)
      && s.nextMove == Some(m) && s.prevMove == g.prevMove
      && ScoresMatch(s)
      && s.blackScore + s.whiteScore == Count(g.board, Black) + Count(g.board, White) + 1
      && FreeCells(s.board) == FreeCells(g.board) - 1
      && At(s.board, m) == g.active
      && (forall q: Cell :: q in DiscsToFlipFor(g, m) ==> At(s.board, q) == g.active)
      && (forall q: Cell :: At(s.board, q) == Valid <==> IsValidMove(s.board, q, s.active))
      && (s.finished <==> g.finished || EndCondition(s))
    ensures forall q: Cell :: q != m && q !in DiscsToFlipFor(g, m) ==>
      At(ResetValidMoves(SimulateMove(g, m).board), q) == At(ResetValidMoves(g.board), q)
  {
    SimulateMoveFinished(g, m);
    forall q: Cell | q != m && q !in DiscsToFlipFor(g, m)
      ensures At(ResetValidMoves(SimulateMove(g, m).board), q) == At(ResetValidMoves(g.board), q)
    {
      SimulateMoveFrame(g, m, q);
    }
    var g1 := g.(nextMove := Some(m));
    var moved := MakeMove(g1);
    var turned := ChangeTurn(moved);
    var marked := UpdateValidMoves(turned);
    MakeMoveCounts(g1);
    MakeMoveSpec(g1);
    UpdateValidMovesSpec(turned);
    MarkValidMovesCounts(turned.board, turned.active);
    forall q: Cell ensures IsValidMove(marked.board, q, turned.active) == IsValidMove(turned.board, q, turned.active) {
      IsValidMoveIgnoresMarkers(marked.board, q, turned.active);
      IsValidMoveIgnoresMarkers(turned.board, q, turned.active);
    }
    CheckFinishedSpec(UpdateScores(marked));
  }

  /** check_finished changes none of the fields its end conditions read. */
  lemma CheckFinishedKeepsCondition(g: Game)
    ensures EndCondition(CheckFinished(g)) == EndCondition(g)
  {
    var r := CheckFinished(g);
    assert r.board == g.board && r.nextMove == g.nextMove && r.prevMove == g.prevMove;
    assert r.blackScore == g.blackScore && r.whiteScore == g.whiteScore;
  }

  /** simulate_move ends the successor exactly when the game was already
      finished or one of check_finished's end conditions holds of it. */
  lemma SimulateMoveFinished(g: Game, m: Cell)
    ensures SimulateMove(g, m).finished <==> g.finished || EndCondition(SimulateMove(g, m))
  {
    var moved := MakeMove(g.(nextMove := Some(m)));
    var scored := UpdateScores(UpdateValidMoves(ChangeTurn(moved)));
    assert SimulateMove(g, m) == CheckFinished(scored);
    CheckFinishedSpec(scored);
    CheckFinishedKeepsCondition(scored);
  }

  /** Up to the hint markers, the successor's board is the old one with
      the mover's disc at m and the captured discs turned: every other disc
      keeps its colour and every other free square stays free. */
  lemma SimulateMoveFrame(g: Game, m: Cell, q: Cell)
    requires q != m && q !in DiscsToFlipFor(g, m)
    ensures At(ResetValidMoves(SimulateMove(g, m).board), q) == At(ResetValidMoves(g.board), q)
  {
    var g1 := g.(nextMove := Some(m));
    var moved := MakeMove(g1);
    var turned := ChangeTurn(moved);
    var marked := UpdateValidMoves(turned);
    assert SimulateMove(g, m).board == marked.board;
    MakeMoveSpec(g1);
    UpdateValidMovesSpec(turned);
    assert At(moved.board, q) == At(g.board, q);
    ResetFrame(g.board, moved.board, q);
  }

  /** The successor does not depend on the markers of the game it is
      computed from, so clearing them first, as every legality query of the
      source does, changes nothing. */
  lemma SimulateMoveIgnoresMarkers(g: Game, m: Cell)
    ensures SimulateMove(ClearMarkers(g), m) == SimulateMove(g, m)
  {
    PlayAtIgnoresMarkers(g.board, m, g.active);
    ResetIdempotent(g.board);
    var a := MakeMove(ClearMarkers(g).(nextMove := Some(m)));
    var b := MakeMove(g.(nextMove := Some(m)));
    MarkValidMovesIgnoresMarkers(a.board, b.board, Other(g.active));
  }
}
