/** The Player of src/player.py: its defaults, the random agent, and the
    depth-bounded minimax search over simulate_move successors. */
module Player {
  import opened Wrappers
  import opened Board
  import opened Rules
  import opened Game
  import opened Evaluation

  /** PlayerType. */
  datatype PlayerType = User | Offline | RandomAgent | MinimaxAgent

  /** A Player object: its type, disc colour, state evaluator and search
      depth. */
  datatype Agent = Agent(kind: PlayerType, color: Color, eval: Evaluator, depth: int)

  /** The search depth a player gets when none is given. */
  const DefaultDepth: int := 2

  /** The evaluator a player gets when none is given: the default weights. */
  function DefaultEvaluator(): Evaluator {
    Evaluator(DefaultWeights)
  }

  /** StateEvaluator() with no weights builds exactly the default evaluator. */
  lemma DefaultEvaluatorBuilds()
    ensures NewEvaluator(None) == Ok(DefaultEvaluator())
  {
    NewEvaluatorSpec(None);
  }

  /** Player.__init__: without an evaluator the player gets the default
      one, and without a depth it gets DefaultDepth. */
  function NewPlayer(kind: PlayerType, color: Color, eval: Option<Evaluator> := None, depth: int := DefaultDepth): (p: Agent)
    ensures p.kind == kind && p.color == color && p.depth == depth
    ensures eval.Some? ==> p.eval == eval.value
    ensures eval.None? ==> NewEvaluator(None) == Ok(p.eval)
  {
    DefaultEvaluatorBuilds();
    Agent(kind, color, if eval.Some? then eval.value else DefaultEvaluator(), depth)
  }

  /** A player built from a type and a colour alone searches two levels deep
      with the evaluator StateEvaluator() builds. */
  lemma NewPlayerDefaults(kind: PlayerType, color: Color)
    ensures NewPlayer(kind, color).depth == 2
    ensures NewEvaluator(None) == Ok(NewPlayer(kind, color).eval)
  {
  }

  // ---------------------------------------------------------------------
  // get_random_move

  /** get_random_move: collect the VALID-marked squares in row-major order;
      none gives None, otherwise any one of them (random.choice). */
  method GetRandomMove(g: Game) returns (r: Option<Cell>)
    ensures r.None? <==> forall q: Cell :: At(g.board, q) != Valid
    ensures r.Some? ==> At(g.board, r.value) == Valid
  {
    var marked: seq<Cell> := [];
    var i := 0;
    while i < 64
      invariant 0 <= i <= 64
      invariant forall q :: q in marked ==> At(g.board, q) == Valid
      invariant forall j :: 0 <= j < i && g.board[j] == Valid ==> CellAt(j) in marked
    {
      if g.board[i] == Valid {
        marked := marked + [CellAt(i)];
      }
      i := i + 1;
    }
    if marked == [] {
      forall q: Cell ensures At(g.board, q) != Valid {
        assert CellAt(Index(q)) == q by {
          IndexInjective(CellAt(Index(q)), q);
        }
      }
      r := None;
    } else {
      assert marked[0] in marked;
      var q :| q in marked;
      r := Some(q);
    }
  }

  /** Right after update_valid_moves the random agent passes exactly when the
      active player has no legal move, and otherwise plays a legal one. */
  lemma RandomMoveAfterUpdate(g: Game, q: Cell)
    ensures (forall c: Cell :: At(UpdateValidMoves(g).board, c) != Valid) <==> GetValidMoves(g) == []
    ensures At(UpdateValidMoves(g).board, q) == Valid ==> q in GetValidMoves(g)
  {
    UpdateValidMovesSpec(g);
    GetValidMovesSpec(g);
    if GetValidMoves(g) != [] {
      var m := GetValidMoves(g)[0];
      assert At(UpdateValidMoves(g).board, m) == Valid;
    }
  }

  // ---------------------------------------------------------------------
  // Scores

  /** A minimax value: an evaluation, or the infinity an empty fold returns. */
  datatype Score = NegInf | Fin(v: real) | PosInf

  predicate Le(a: Score, b: Score) {
    match (a, b)
    case (NegInf, _) => true
    case (_, PosInf) => true
    case (Fin(x), Fin(y)) => x <= y
    case _ => false
  }

  predicate Lt(a: Score, b: Score) {
    Le(a, b) && a != b
  }

  /** Python's max(a, b): b only when it is strictly larger. */
  function Max(a: Score, b: Score): Score {
    if Lt(a, b) then b else a
  }

  /** Python's min(a, b): b only when it is strictly smaller. */
  function Min(a: Score, b: Score): Score {
    if Lt(b, a) then b else a
  }

  /** Le is a total order, and Max and Min pick an argument that bounds the
      other from above and below respectively. */
  lemma ScoreOrder(a: Score, b: Score, c: Score)
    ensures Le(a, a)
    ensures Le(a, b) || Le(b, a)
    ensures Le(a, b) && Le(b, a) ==> a == b
    ensures Le(a, b) && Le(b, c) ==> Le(a, c)
    ensures Le(a, Max(a, b)) && Le(b, Max(a, b)) && (Max(a, b) == a || Max(a, b) == b)
    ensures Le(Min(a, b), a) && Le(Min(a, b), b) && (Min(a, b) == a || Min(a, b) == b)
  {
  }

  // ---------------------------------------------------------------------
  // minimax

  /** Every simulated move uses up one free square, which bounds the search
      even when the depth never reaches 0. */
  lemma SimulateMoveUsesSquare(g: Game, m: Cell)
    requires At(g.board, m) == Empty || At(g.board, m) == Valid
    ensures FreeCells(SimulateMove(g, m).board) == FreeCells(g.board) - 1
  {
    var g1 := g.(nextMove := Some(m));
    MakeMoveCounts(g1);
    var turned := ChangeTurn(MakeMove(g1));
    MarkValidMovesCounts(turned.board, turned.active);
  }

  /** The value of an evaluation as a score. */
  function Lift(r: Result<real>): Result<Score> {
    match r
    case Ok(v) => Ok(Fin(v))
    case Err(e) => Err(e)
  }

  /** The squares minimax iterates over: get_valid_moves_by_color for the
      active colour, which also clears the game's markers. */
  function SearchMoves(g: Game): seq<Cell> {
    ValidMoves(ClearMarkers(g).board, g.active)
  }

  lemma SearchMovesFree(g: Game)
    ensures forall m :: m in SearchMoves(g) ==> At(ClearMarkers(g).board, m) == Empty
    ensures FreeCells(ClearMarkers(g).board) == FreeCells(g.board)
  {
    ValidMovesAreEmpty(ClearMarkers(g).board, g.active);
    ResetCounts(g.board);
  }

  /** f applied to each of the moves, in order. */
  function MapMoves<T>(f: Cell -> T, moves: seq<Cell>): (r: seq<T>)
    ensures |r| == |moves|
  {
    if |moves| == 0 then [] else [f(moves[0])] + MapMoves(f, moves[1..])
  }

  /** Entry i of the mapped list is f of move i. */
  lemma {:induction false} MapMovesAt<T>(f: Cell -> T, moves: seq<Cell>, i: nat)
    requires i < |moves|
    ensures MapMoves(f, moves)[i] == f(moves[i])
    decreases i
  {
    if i > 0 {
      MapMovesAt(f, moves[1..], i - 1);
      assert moves[1..][i - 1] == moves[i];
    }
  }

  /** The games simulate_move gives for each of the moves, in order. */
  function Successors(c: Game, moves: seq<Cell>): (kids: seq<Game>)
    ensures |kids| == |moves|
  {
    MapMoves(m => SimulateMove(c, m), moves)
  }

  /** Successor i is simulate_move applied to move i. */
  lemma SuccessorAt(c: Game, moves: seq<Cell>, i: nat)
    requires i < |moves|
    ensures Successors(c, moves)[i] == SimulateMove(c, moves[i])
  {
    MapMovesAt(m => SimulateMove(c, m), moves, i);
  }

  /** Each successor of a free square has one free square fewer. */
  lemma SuccessorsShrink(c: Game, moves: seq<Cell>)
    requires forall m :: m in moves ==> At(c.board, m) == Empty
    ensures forall k :: k in Successors(c, moves) ==> FreeCells(k.board) == FreeCells(c.board) - 1
  {
    var kids := Successors(c, moves);
    forall i | 0 <= i < |moves| ensures FreeCells(kids[i].board) == FreeCells(c.board) - 1 {
      assert moves[i] in moves;
      SuccessorAt(c, moves, i);
      SimulateMoveUsesSquare(c, moves[i]);
    }
  }

  /** minimax: the evaluation at depth 0 or on a finished game; otherwise the
      maximum (or minimum) over the successors of the active player's legal
      moves, searched one level shallower with the flag flipped, starting
      from -infinity (or +infinity). An evaluation error ends the search. */
  function Minimax(p: Agent, g: Game, depth: int, maximizing: bool): Result<Score>
    decreases FreeCells(g.board), 2, 0
  {
    if depth == 0 || g.finished then Lift(Evaluate(p.eval, g))
    else
      SearchMovesFree(g);
      SuccessorsShrink(ClearMarkers(g), SearchMoves(g));
      Search(p, Successors(ClearMarkers(g), SearchMoves(g)), FreeCells(g.board), depth - 1, maximizing)
  }

  /** The loop of minimax over the successor games `kids`: the maximum (or
      minimum) of their values searched at `depth` with the flag flipped,
      from -infinity (or +infinity). */
  function Search(p: Agent, kids: seq<Game>, ghost bound: nat, depth: int, maximizing: bool): Result<Score>
    requires forall k :: k in kids ==> FreeCells(k.board) < bound
    decreases bound, 1, 0
  {
    match Children(p, kids, bound, depth, !maximizing)
    case Err(e) => Err(e)
    case Ok(vs) => Ok(FoldValues(vs, maximizing, if maximizing then NegInf else PosInf))
  }

  /** The minimax values of the games in `kids`, in order, stopping at the
      first search that fails; `bound` exceeds the free squares of each. */
  function Children(p: Agent, kids: seq<Game>, ghost bound: nat, depth: int, maximizing: bool): (r: Result<seq<Score>>)
    requires forall k :: k in kids ==> FreeCells(k.board) < bound
    ensures r.Ok? ==> |r.value| == |kids|
    decreases bound, 0, |kids|
  {
    if |kids| == 0 then Ok([])
    else
      assert kids[0] in kids;
      match Minimax(p, kids[0], depth, maximizing)
      case Err(e) => Err(e)
      case Ok(v) =>
        assert forall k :: k in kids[1..] ==> k in kids;
        match Children(p, kids[1..], bound, depth, maximizing)
        case Err(e) => Err(e)
        case Ok(vs) => Ok([v] + vs)
  }

  /** The for-loop of minimax: the running max_eval (or min_eval) over the
      successor values, from the start value acc. */
  function FoldValues(vs: seq<Score>, maximizing: bool, acc: Score): Score
    decreases |vs|
  {
    if |vs| == 0 then acc
    else FoldValues(vs[1..], maximizing, if maximizing then Max(acc, vs[0]) else Min(acc, vs[0]))
  }

  /** When maximizing the loop ends on an upper bound of the start value and
      of every successor value, which is one of them; dually when
      minimizing. */
  lemma {:induction false} FoldValuesSpec(vs: seq<Score>, maximizing: bool, acc: Score)
    ensures maximizing ==> Le(acc, FoldValues(vs, maximizing, acc))
    ensures maximizing ==> forall i :: 0 <= i < |vs| ==> Le(vs[i], FoldValues(vs, maximizing, acc))
    ensures !maximizing ==> Le(FoldValues(vs, maximizing, acc), acc)
    ensures !maximizing ==> forall i :: 0 <= i < |vs| ==> Le(FoldValues(vs, maximizing, acc), vs[i])
    ensures FoldValues(vs, maximizing, acc) == acc || FoldValues(vs, maximizing, acc) in vs
    decreases |vs|
  {
    if |vs| > 0 {
      var acc' := if maximizing then Max(acc, vs[0]) else Min(acc, vs[0]);
      var r := FoldValues(vs, maximizing, acc);
      FoldValuesSpec(vs[1..], maximizing, acc');
      assert r == FoldValues(vs[1..], maximizing, acc');
      ScoreOrder(acc, vs[0], vs[0]);
      ScoreOrder(acc, acc', r);
      ScoreOrder(vs[0], acc', r);
      ScoreOrder(r, acc', acc);
      ScoreOrder(r, acc', vs[0]);
      forall i | 1 <= i < |vs|
        ensures maximizing ==> Le(vs[i], r)
        ensures !maximizing ==> Le(r, vs[i])
      {
        assert vs[i] == vs[1..][i - 1];
      }
      if r != acc' {
        assert r in vs[1..];
      }
    }
  }

  /** The searches of the games all succeed exactly when Children does, and
      then it lists their values in order. */
  lemma {:induction false} ChildrenSpec(p: Agent, kids: seq<Game>, bound: nat, depth: int, maximizing: bool)
    requires forall k :: k in kids ==> FreeCells(k.board) < bound
    ensures Children(p, kids, bound, depth, maximizing).Ok? <==>
      forall i :: 0 <= i < |kids| ==> Minimax(p, kids[i], depth, maximizing).Ok?
    ensures Children(p, kids, bound, depth, maximizing).Ok? ==>
      forall i :: 0 <= i < |kids| ==>
        Minimax(p, kids[i], depth, maximizing) == Ok(Children(p, kids, bound, depth, maximizing).value[i])
    decreases |kids|
  {
    if |kids| > 0 {
      var rest := kids[1..];
      var first := Minimax(p, kids[0], depth, maximizing);
      assert forall k :: k in rest ==> k in kids;
      ChildrenSpec(p, rest, bound, depth, maximizing);
      if first.Err? {
        assert !Minimax(p, kids[0], depth, maximizing).Ok?;
      } else if Children(p, rest, bound, depth, maximizing).Err? {
        var i :| 0 <= i < |rest| && !Minimax(p, rest[i], depth, maximizing).Ok?;
        assert rest[i] == kids[i + 1];
        assert !Minimax(p, kids[i + 1], depth, maximizing).Ok?;
      } else {
        var vs := Children(p, kids, bound, depth, maximizing).value;
        var tail := Children(p, rest, bound, depth, maximizing).value;
        assert vs == [first.value] + tail;
        forall i | 0 <= i < |kids|
          ensures Minimax(p, kids[i], depth, maximizing) == Ok(vs[i])
        {
          if i > 0 {
            assert kids[i] == rest[i - 1];
            assert vs[i] == tail[i - 1];
          }
        }
      }
    }
  }

  /** The base case: at depth 0 or on a finished game minimax is the
      evaluation, without searching. */
  lemma MinimaxBase(p: Agent, g: Game, depth: int, maximizing: bool)
    requires depth == 0 || g.finished
    ensures Evaluate(p.eval, g).Ok? ==> Minimax(p, g, depth, maximizing) == Ok(Fin(Evaluate(p.eval, g).value))
    ensures Evaluate(p.eval, g).Err? ==> Minimax(p, g, depth, maximizing) == Err(Evaluate(p.eval, g).error)
  {
  }

  /** The successors minimax searches below a game: one per legal move of
      the active player, in row-major order. */
  function SearchChildren(g: Game): (kids: seq<Game>)
    ensures |kids| == |GetValidMoves(g)|
  {
    ValidMovesIgnoreMarkers(g.board, g.active);
    Successors(ClearMarkers(g), SearchMoves(g))
  }

  /** The successors are simulate_move applied to each legal move in turn. */
  lemma SearchChildrenSpec(g: Game)
    ensures forall i :: 0 <= i < |GetValidMoves(g)| ==>
      SearchChildren(g)[i] == SimulateMove(ClearMarkers(g), GetValidMoves(g)[i])
  {
    ValidMovesIgnoreMarkers(g.board, g.active);
    forall i | 0 <= i < |GetValidMoves(g)|
      ensures SearchChildren(g)[i] == SimulateMove(ClearMarkers(g), GetValidMoves(g)[i])
    {
      SuccessorAt(ClearMarkers(g), SearchMoves(g), i);
    }
  }

  /** A node that is neither at depth 0 nor finished, where the active
      player has no legal move, folds over nothing: -infinity when
      maximizing, +infinity when minimizing. */
  lemma MinimaxNoMoves(p: Agent, g: Game, depth: int, maximizing: bool)
    requires depth != 0 && !g.finished
    requires GetValidMoves(g) == []
    ensures Minimax(p, g, depth, maximizing) == Ok(if maximizing then NegInf else PosInf)
  {
    MinimaxSearch(p, g, depth, maximizing);
    SearchSpec(p, SearchChildren(g), FreeCells(g.board), depth - 1, maximizing);
  }

  /** The loop fails exactly when one successor search fails. When it
      succeeds and maximizing, its value bounds every successor value from
      above and is reached by one of them (dually when minimizing); over no
      successors it is -infinity (+infinity when minimizing). */
  lemma SearchSpec(p: Agent, kids: seq<Game>, bound: nat, depth: int, maximizing: bool)
    requires forall k :: k in kids ==> FreeCells(k.board) < bound
    ensures Search(p, kids, bound, depth, maximizing).Ok? <==>
      forall i :: 0 <= i < |kids| ==> Minimax(p, kids[i], depth, !maximizing).Ok?
    ensures |kids| == 0 ==> Search(p, kids, bound, depth, maximizing) == Ok(if maximizing then NegInf else PosInf)
    ensures Search(p, kids, bound, depth, maximizing).Ok? ==>
      var r := Search(p, kids, bound, depth, maximizing).value;
      && (forall i :: 0 <= i < |kids| ==>
            if maximizing then Le(Minimax(p, kids[i], depth, !maximizing).value, r)
            else Le(r, Minimax(p, kids[i], depth, !maximizing).value))
      && (|kids| > 0 ==> exists i :: 0 <= i < |kids| && Minimax(p, kids[i], depth, !maximizing) == Ok(r))
  {
    ChildrenSpec(p, kids, bound, depth, !maximizing);
    if Children(p, kids, bound, depth, !maximizing).Ok? {
      var vs := Children(p, kids, bound, depth, !maximizing).value;
      var start := if maximizing then NegInf else PosInf;
      var r := FoldValues(vs, maximizing, start);
      FoldValuesSpec(vs, maximizing, start);
      if |kids| > 0 {
        var k := 0;
        if r != start {
          assert r in vs;
          k :| 0 <= k < |vs| && vs[k] == r;
        } else {
          ScoreOrder(vs[0], r, r);
        }
        assert Minimax(p, kids[k], depth, !maximizing) == Ok(r);
      }
    }
  }

  /** Away from the base case minimax is the loop over the successors of
      the active player's legal moves, one level shallower. */
  lemma MinimaxSearch(p: Agent, g: Game, depth: int, maximizing: bool)
    requires depth != 0 && !g.finished
    ensures forall k :: k in SearchChildren(g) ==> FreeCells(k.board) < FreeCells(g.board)
    ensures Minimax(p, g, depth, maximizing) == Search(p, SearchChildren(g), FreeCells(g.board), depth - 1, maximizing)
  {
    SearchMovesFree(g);
    SuccessorsShrink(ClearMarkers(g), SearchMoves(g));
  }

  // ---------------------------------------------------------------------
  // minimax_evaluate_moves and get_minimax_move

  /** Moves paired with their values. */
  function Zip(moves: seq<Cell>, vs: seq<Score>): (r: seq<(Cell, Score)>)
    requires |vs| == |moves|
    ensures |r| == |moves| && forall i :: 0 <= i < |r| ==> r[i] == (moves[i], vs[i])
  {
    seq(|moves|, i requires 0 <= i < |moves| => (moves[i], vs[i]))
  }

  /** The successors minimax_evaluate_moves searches: simulate_move, by the
      active player, of each legal move of the player's own colour. */
  function OwnMoveChildren(p: Agent, g: Game): (kids: seq<Game>)
    ensures |kids| == |ValidMoves(g.board, p.color)|
    ensures forall k :: k in kids ==> FreeCells(k.board) < FreeCells(g.board)
  {
    var c := ClearMarkers(g);
    ValidMovesAreEmpty(c.board, p.color);
    ValidMovesIgnoreMarkers(g.board, p.color);
    ResetCounts(g.board);
    SuccessorsShrink(c, ValidMoves(c.board, p.color));
    Successors(c, ValidMoves(c.board, p.color))
  }

  /** Successor i is simulate_move, by the active player, of the player's
      i-th legal move. */
  lemma OwnMoveChildrenSpec(p: Agent, g: Game)
    ensures forall i :: 0 <= i < |ValidMoves(g.board, p.color)| ==>
      OwnMoveChildren(p, g)[i] == SimulateMove(ClearMarkers(g), ValidMoves(g.board, p.color)[i])
  {
    ValidMovesIgnoreMarkers(g.board, p.color);
    forall i | 0 <= i < |ValidMoves(g.board, p.color)|
      ensures OwnMoveChildren(p, g)[i] == SimulateMove(ClearMarkers(g), ValidMoves(g.board, p.color)[i])
    {
      SuccessorAt(ClearMarkers(g), ValidMoves(ClearMarkers(g).board, p.color), i);
    }
  }

  /** The pairs list exactly the moves, in their order. */
  predicate PairsWith(r: seq<(Cell, Score)>, moves: seq<Cell>) {
    |r| == |moves| && forall i :: 0 <= i < |r| ==> r[i].0 == moves[i]
  }

  /** Each move paired with the value of its successor, searched at
      `depth` with the flag `maximizing`; the first failing search ends it. */
  function EvaluateMoves(p: Agent, moves: seq<Cell>, kids: seq<Game>, ghost bound: nat, depth: int, maximizing: bool)
    : (r: Result<seq<(Cell, Score)>>)
    requires |kids| == |moves|
    requires forall k :: k in kids ==> FreeCells(k.board) < bound
    ensures r.Ok? ==> PairsWith(r.value, moves)
    ensures r.Ok? ==> forall i :: 0 <= i < |r.value| ==> Minimax(p, kids[i], depth, maximizing) == Ok(r.value[i].1)
  {
    ChildrenSpec(p, kids, bound, depth, maximizing);
    match Children(p, kids, bound, depth, maximizing)
    case Err(e) => Err(e)
    case Ok(vs) => Ok(Zip(moves, vs))
  }

  /** The pairing fails exactly when one successor search fails; otherwise
      each move carries its successor's value. */
  lemma EvaluateMovesSpec(p: Agent, moves: seq<Cell>, kids: seq<Game>, bound: nat, depth: int, maximizing: bool)
    requires |kids| == |moves|
    requires forall k :: k in kids ==> FreeCells(k.board) < bound
    ensures EvaluateMoves(p, moves, kids, bound, depth, maximizing).Ok? <==>
      forall i :: 0 <= i < |kids| ==> Minimax(p, kids[i], depth, maximizing).Ok?
    ensures EvaluateMoves(p, moves, kids, bound, depth, maximizing).Ok? ==>
      var r := EvaluateMoves(p, moves, kids, bound, depth, maximizing).value;
      forall i :: 0 <= i < |r| ==> Ok(r[i].1) == Minimax(p, kids[i], depth, maximizing)
  {
    ChildrenSpec(p, kids, bound, depth, maximizing);
  }

  /** The i-th value of `r` is the minimax of the i-th successor of the
      player's own legal moves, searched with the player's depth minus one
      and the flag `replyMax`. */
  predicate SuccessorValues(p: Agent, g: Game, replyMax: bool, r: seq<(Cell, Score)>) {
    && |r| == |OwnMoveChildren(p, g)|
    && forall i :: 0 <= i < |r| ==> Minimax(p, OwnMoveChildren(p, g)[i], p.depth - 1, replyMax) == Ok(r[i].1)
  }

  /** The loop of minimax_evaluate_moves: one (move, value) pair per legal
      move of the player's own colour, in row-major order, each successor
      searched with the player's depth minus one and the flag `replyMax`. */
  function EvaluateOwnMoves(p: Agent, g: Game, replyMax: bool): (r: Result<seq<(Cell, Score)>>)
    ensures r.Ok? ==> PairsWith(r.value, ValidMoves(g.board, p.color))
    ensures r.Ok? ==> SuccessorValues(p, g, replyMax, r.value)
  {
    EvaluateMoves(p, ValidMoves(g.board, p.color), OwnMoveChildren(p, g), FreeCells(g.board), p.depth - 1, replyMax)
  }

  /** minimax_evaluate_moves as written: the successors are searched with
      the flag `color == BLACK`, although in each of them the opponent is
      the side to move. This is the version get_minimax_move uses. */
  function MinimaxEvaluateMovesAsWritten(p: Agent, g: Game): (r: Result<seq<(Cell, Score)>>)
    ensures r.Ok? ==> PairsWith(r.value, ValidMoves(g.board, p.color))
    ensures r.Ok? ==> SuccessorValues(p, g, p.color == Black, r.value)
  {
    EvaluateOwnMoves(p, g, p.color == Black)
  }

  /** minimax_evaluate_moves with the flag minimax documents: true when the
      side to move in the successor maximizes, that is, when the opponent
      is Black. */
  function MinimaxEvaluateMoves(p: Agent, g: Game): (r: Result<seq<(Cell, Score)>>)
    ensures r.Ok? ==> PairsWith(r.value, ValidMoves(g.board, p.color))
    ensures r.Ok? ==> SuccessorValues(p, g, p.color != Black, r.value)
  {
    EvaluateOwnMoves(p, g, p.color != Black)
  }

  /** The value of an inner node against its replies: the largest (or
      smallest) of the replies' values, each searched one level shallower
      with the flag flipped, and one of them when there is a reply. */
  lemma MinimaxReplies(p: Agent, g: Game, depth: int, maximizing: bool)
    requires depth != 0 && !g.finished
    requires Minimax(p, g, depth, maximizing).Ok?
    ensures var v := Minimax(p, g, depth, maximizing).value;
      var rs := SearchChildren(g);
      && (forall j :: 0 <= j < |rs| ==> Minimax(p, rs[j], depth - 1, !maximizing).Ok?)
      && (forall j :: 0 <= j < |rs| ==>
            if maximizing then Le(Minimax(p, rs[j], depth - 1, !maximizing).value, v)
            else Le(v, Minimax(p, rs[j], depth - 1, !maximizing).value))
      && (|rs| > 0 ==> exists j :: 0 <= j < |rs| && Minimax(p, rs[j], depth - 1, !maximizing) == Ok(v))
  {
    MinimaxSearch(p, g, depth, maximizing);
    SearchSpec(p, SearchChildren(g), FreeCells(g.board), depth - 1, maximizing);
  }

  /** The value of move i against the replies in its successor: with the
      flag `replyMax`, it is the largest (or smallest) of the replies'
      values, each reply searched one level deeper with the flag flipped. */
  lemma EvaluateOwnMovesReplies(p: Agent, g: Game, replyMax: bool, i: int)
    requires EvaluateOwnMoves(p, g, replyMax).Ok?
    requires 0 <= i < |ValidMoves(g.board, p.color)|
    requires p.depth != 1 && !OwnMoveChildren(p, g)[i].finished
    ensures var v := EvaluateOwnMoves(p, g, replyMax).value[i].1;
      var rs := SearchChildren(OwnMoveChildren(p, g)[i]);
      && (forall j :: 0 <= j < |rs| ==> Minimax(p, rs[j], p.depth - 2, !replyMax).Ok?)
      && (forall j :: 0 <= j < |rs| ==>
            if replyMax then Le(Minimax(p, rs[j], p.depth - 2, !replyMax).value, v)
            else Le(v, Minimax(p, rs[j], p.depth - 2, !replyMax).value))
      && (|rs| > 0 ==> exists j :: 0 <= j < |rs| && Minimax(p, rs[j], p.depth - 2, !replyMax) == Ok(v))
  {
    var kid := OwnMoveChildren(p, g)[i];
    assert Minimax(p, kid, p.depth - 1, replyMax) == Ok(EvaluateOwnMoves(p, g, replyMax).value[i].1);
    MinimaxReplies(p, kid, p.depth - 1, replyMax);
  }

  /** With the corrected flag a move is worth what the opponent's best
      reply leaves the player: the smallest reply value for Black, the
      largest for White, each reply searched as the player's turn again. */
  lemma MinimaxEvaluateMovesReplies(p: Agent, g: Game, i: int)
    requires MinimaxEvaluateMoves(p, g).Ok?
    requires 0 <= i < |ValidMoves(g.board, p.color)|
    requires p.depth != 1 && !OwnMoveChildren(p, g)[i].finished
    ensures var v := MinimaxEvaluateMoves(p, g).value[i].1;
      var rs := SearchChildren(OwnMoveChildren(p, g)[i]);
      && (forall j :: 0 <= j < |rs| ==> Minimax(p, rs[j], p.depth - 2, p.color == Black).Ok?)
      && (forall j :: 0 <= j < |rs| ==>
            if p.color == Black then Le(v, Minimax(p, rs[j], p.depth - 2, true).value)
            else Le(Minimax(p, rs[j], p.depth - 2, false).value, v))
      && (|rs| > 0 ==> exists j :: 0 <= j < |rs| && Minimax(p, rs[j], p.depth - 2, p.color == Black) == Ok(v))
  {
    EvaluateOwnMovesReplies(p, g, p.color != Black, i);
  }

  /** At the default depth 2 the replies are leaves, and as written a move
      is worth the reply evaluation that is best for the player: the
      largest for Black, the smallest for White. */
  lemma AsWrittenBestReply(p: Agent, g: Game, i: int)
    requires p.depth == 2
    requires MinimaxEvaluateMovesAsWritten(p, g).Ok?
    requires 0 <= i < |ValidMoves(g.board, p.color)|
    requires !OwnMoveChildren(p, g)[i].finished
    ensures var v := MinimaxEvaluateMovesAsWritten(p, g).value[i].1;
      var rs := SearchChildren(OwnMoveChildren(p, g)[i]);
      && (forall j :: 0 <= j < |rs| ==>
            && Evaluate(p.eval, rs[j]).Ok?
            && (if p.color == Black then Le(Fin(Evaluate(p.eval, rs[j]).value), v)
                else Le(v, Fin(Evaluate(p.eval, rs[j]).value))))
      && (|rs| > 0 ==> exists j :: 0 <= j < |rs| && Evaluate(p.eval, rs[j]).Ok? && v == Fin(Evaluate(p.eval, rs[j]).value))
  {
    var rs := SearchChildren(OwnMoveChildren(p, g)[i]);
    EvaluateOwnMovesReplies(p, g, p.color == Black, i);
    forall j | 0 <= j < |rs| ensures Minimax(p, rs[j], 0, p.color != Black) == Lift(Evaluate(p.eval, rs[j])) {
      MinimaxBase(p, rs[j], 0, p.color != Black);
    }
    if |rs| > 0 {
      var v := EvaluateOwnMoves(p, g, p.color == Black).value[i].1;
      var j :| 0 <= j < |rs| && Minimax(p, rs[j], 0, p.color != Black) == Ok(v);
      MinimaxBase(p, rs[j], 0, p.color != Black);
    }
  }

  /** At the default depth 2, with the corrected flag, a move is worth the
      reply evaluation that is worst for the player. */
  lemma CorrectedWorstReply(p: Agent, g: Game, i: int)
    requires p.depth == 2
    requires MinimaxEvaluateMoves(p, g).Ok?
    requires 0 <= i < |ValidMoves(g.board, p.color)|
    requires !OwnMoveChildren(p, g)[i].finished
    ensures var v := MinimaxEvaluateMoves(p, g).value[i].1;
      var rs := SearchChildren(OwnMoveChildren(p, g)[i]);
      && (forall j :: 0 <= j < |rs| ==>
            && Evaluate(p.eval, rs[j]).Ok?
            && (if p.color == Black then Le(v, Fin(Evaluate(p.eval, rs[j]).value))
                else Le(Fin(Evaluate(p.eval, rs[j]).value), v)))
      && (|rs| > 0 ==> exists j :: 0 <= j < |rs| && Evaluate(p.eval, rs[j]).Ok? && v == Fin(Evaluate(p.eval, rs[j]).value))
  {
    var rs := SearchChildren(OwnMoveChildren(p, g)[i]);
    EvaluateOwnMovesReplies(p, g, p.color != Black, i);
    forall j | 0 <= j < |rs| ensures Minimax(p, rs[j], 0, p.color == Black) == Lift(Evaluate(p.eval, rs[j])) {
      MinimaxBase(p, rs[j], 0, p.color == Black);
    }
    if |rs| > 0 {
      var v := EvaluateOwnMoves(p, g, p.color != Black).value[i].1;
      var j :| 0 <= j < |rs| && Minimax(p, rs[j], 0, p.color == Black) == Ok(v);
      MinimaxBase(p, rs[j], 0, p.color == Black);
    }
  }

  /** The two flags disagree: at the default depth 2, as soon as two of the
      opponent's replies to move i evaluate differently, the value
      minimax_evaluate_moves gives move i as written differs from the value
      the opponent's best reply leaves. */
  lemma AsWrittenDiffers(p: Agent, g: Game, i: int, j: int, k: int)
    requires p.depth == 2
    requires MinimaxEvaluateMovesAsWritten(p, g).Ok? && MinimaxEvaluateMoves(p, g).Ok?
    requires 0 <= i < |ValidMoves(g.board, p.color)|
    requires !OwnMoveChildren(p, g)[i].finished
    requires 0 <= j < |SearchChildren(OwnMoveChildren(p, g)[i])|
    requires 0 <= k < |SearchChildren(OwnMoveChildren(p, g)[i])|
    requires Evaluate(p.eval, SearchChildren(OwnMoveChildren(p, g)[i])[j]) != Evaluate(p.eval, SearchChildren(OwnMoveChildren(p, g)[i])[k])
    ensures MinimaxEvaluateMovesAsWritten(p, g).value[i].1 != MinimaxEvaluateMoves(p, g).value[i].1
  {
    var rs := SearchChildren(OwnMoveChildren(p, g)[i]);
    var w := MinimaxEvaluateMovesAsWritten(p, g).value[i].1;
    var c := MinimaxEvaluateMoves(p, g).value[i].1;
    AsWrittenBestReply(p, g, i);
    CorrectedWorstReply(p, g, i);
    var x := Fin(Evaluate(p.eval, rs[j]).value);
    var y := Fin(Evaluate(p.eval, rs[k]).value);
    assert x != y;
    if w == c {
      ScoreOrder(x, w, y);
      ScoreOrder(y, w, x);
    }
  }

  /** A move is listed in the pairs exactly when it is one of the moves. */
  predicate Listed(r: seq<(Cell, Score)>, m: Cell) {
    exists i :: 0 <= i < |r| && r[i].0 == m
  }

  lemma PairedMoves(r: seq<(Cell, Score)>, moves: seq<Cell>)
    requires PairsWith(r, moves)
    ensures forall m: Cell :: Listed(r, m) <==> m in moves
  {
    forall m: Cell ensures Listed(r, m) <==> m in moves {
      if m in moves {
        var i :| 0 <= i < |moves| && moves[i] == m;
        assert r[i].0 == m;
      }
    }
  }

  /** Every move minimax_evaluate_moves lists is legal for the player's
      colour, and every legal move is listed, whichever flag the replies
      are searched with. */
  lemma MinimaxEvaluateMovesLegal(p: Agent, g: Game)
    ensures MinimaxEvaluateMovesAsWritten(p, g).Ok? ==>
      forall m: Cell :: Listed(MinimaxEvaluateMovesAsWritten(p, g).value, m) <==> IsValidMove(g.board, m, p.color)
    ensures MinimaxEvaluateMoves(p, g).Ok? ==>
      forall m: Cell :: Listed(MinimaxEvaluateMoves(p, g).value, m) <==> IsValidMove(g.board, m, p.color)
  {
    var moves := ValidMoves(g.board, p.color);
    ValidMovesSpec(g.board, p.color);
    if MinimaxEvaluateMovesAsWritten(p, g).Ok? {
      PairedMoves(MinimaxEvaluateMovesAsWritten(p, g).value, moves);
    }
    if MinimaxEvaluateMoves(p, g).Ok? {
      PairedMoves(MinimaxEvaluateMoves(p, g).value, moves);
    }
  }

  /** Python's max(items, key=value): the first item whose value no other
      item exceeds, found by the left-to-right scan that replaces the best
      only on a strictly better value. */
  function BestFrom(vals: seq<Score>, maximize: bool, i: nat, best: nat): (k: nat)
    requires best < |vals| && i <= |vals|
    ensures k < |vals|
    decreases |vals| - i
  {
    if i == |vals| then best
    else if (if maximize then Lt(vals[best], vals[i]) else Lt(vals[i], vals[best])) then BestFrom(vals, maximize, i + 1, i)
    else BestFrom(vals, maximize, i + 1, best)
  }

  /** Better(maximize, a, b): a is strictly preferred to b. */
  predicate Better(maximize: bool, a: Score, b: Score) {
    if maximize then Lt(b, a) else Lt(a, b)
  }

  /** The scan returns an index whose value nothing beats, and nothing
      before it is as good: the first optimum. */
  lemma {:induction false} BestFromSpec(vals: seq<Score>, maximize: bool, i: nat, best: nat)
    requires best < i <= |vals|
    requires forall j :: 0 <= j < i ==> !Better(maximize, vals[j], vals[best])
    requires forall j :: 0 <= j < best ==> Better(maximize, vals[best], vals[j])
    ensures BestFrom(vals, maximize, i, best) < |vals|
    ensures forall j :: 0 <= j < |vals| ==> !Better(maximize, vals[j], vals[BestFrom(vals, maximize, i, best)])
    ensures forall j :: 0 <= j < BestFrom(vals, maximize, i, best) ==>
              Better(maximize, vals[BestFrom(vals, maximize, i, best)], vals[j])
    decreases |vals| - i
  {
    if i < |vals| {
      if Better(maximize, vals[i], vals[best]) {
        forall j | 0 <= j < i + 1 ensures !Better(maximize, vals[j], vals[i]) {
          ScoreOrder(vals[j], vals[best], vals[i]);
          ScoreOrder(vals[i], vals[j], vals[best]);
        }
        forall j | 0 <= j < i ensures Better(maximize, vals[i], vals[j]) {
          ScoreOrder(vals[j], vals[best], vals[i]);
          ScoreOrder(vals[i], vals[j], vals[best]);
        }
        BestFromSpec(vals, maximize, i + 1, i);
      } else {
        BestFromSpec(vals, maximize, i + 1, best);
      }
    }
  }

  /** The values of evaluated moves. */
  function Values(r: seq<(Cell, Score)>): (vs: seq<Score>)
    ensures |vs| == |r| && forall i :: 0 <= i < |r| ==> vs[i] == r[i].1
  {
    seq(|r|, i requires 0 <= i < |r| => r[i].1)
  }

  /** Entry k of the evaluated moves is the one Python's max (or min) with
      a key picks: no entry beats its value, and it beats every earlier
      entry. */
  predicate FirstBest(r: seq<(Cell, Score)>, maximize: bool, k: int) {
    && 0 <= k < |r|
    && (forall j :: 0 <= j < |r| ==> !Better(maximize, r[j].1, r[k].1))
    && (forall j :: 0 <= j < k ==> Better(maximize, r[k].1, r[j].1))
  }

  /** At most one entry is the first best, so the choice is determined. */
  lemma FirstBestUnique(r: seq<(Cell, Score)>, maximize: bool, k: int, l: int)
    requires FirstBest(r, maximize, k) && FirstBest(r, maximize, l)
    ensures k == l
  {
    assert !Better(maximize, r[l].1, r[k].1) && !Better(maximize, r[k].1, r[l].1);
  }

  /** The choice of get_minimax_move among evaluated moves: None when
      there are none, otherwise the move of the first best value, largest
      when maximizing and smallest otherwise. */
  function ChooseMove(r: seq<(Cell, Score)>, maximize: bool): Option<Cell> {
    if |r| == 0 then None else Some(r[BestFrom(Values(r), maximize, 1, 0)].0)
  }

  /** The choice is None exactly on no moves, and otherwise the move of the
      first best entry. */
  lemma ChooseMoveSpec(r: seq<(Cell, Score)>, maximize: bool)
    ensures ChooseMove(r, maximize).None? <==> |r| == 0
    ensures ChooseMove(r, maximize).Some? ==>
      exists k :: FirstBest(r, maximize, k) && r[k].0 == ChooseMove(r, maximize).value
  {
    if |r| > 0 {
      var vs := Values(r);
      ScoreOrder(vs[0], vs[0], vs[0]);
      BestFromSpec(vs, maximize, 1, 0);
      var k := BestFrom(vs, maximize, 1, 0);
      assert FirstBest(r, maximize, k);
    }
  }

  /** get_minimax_move: None without moves; otherwise, over the values
      minimax_evaluate_moves computes as written, Black takes the first
      move of largest value and White the first of smallest value. */
  function GetMinimaxMove(p: Agent, g: Game): Result<Option<Cell>> {
    match MinimaxEvaluateMovesAsWritten(p, g)
    case Err(e) => Err(e)
    case Ok(r) => Ok(ChooseMove(r, p.color == Black))
  }

  /** get_minimax_move returns None exactly when the player has no legal
      move; otherwise the move of the first best entry of
      minimax_evaluate_moves: largest value for Black, smallest for White,
      earliest among equals. */
  lemma GetMinimaxMoveSpec(p: Agent, g: Game)
    requires GetMinimaxMove(p, g).Ok?
    ensures GetMinimaxMove(p, g).value.None? <==> ValidMoves(g.board, p.color) == []
    ensures GetMinimaxMove(p, g).value.Some? ==>
      var r := MinimaxEvaluateMovesAsWritten(p, g).value;
      exists k :: FirstBest(r, p.color == Black, k) && r[k].0 == GetMinimaxMove(p, g).value.value
  {
    var r := MinimaxEvaluateMovesAsWritten(p, g).value;
    var maximize := p.color == Black;
    ChooseMoveSpec(r, maximize);
    assert GetMinimaxMove(p, g).value == ChooseMove(r, maximize);
    if ChooseMove(r, maximize).Some? {
      var k :| FirstBest(r, maximize, k) && r[k].0 == ChooseMove(r, maximize).value;
      assert r[k].0 == GetMinimaxMove(p, g).value.value;
    }
  }

  /** The move get_minimax_move returns is legal for the player's colour. */
  lemma GetMinimaxMoveLegal(p: Agent, g: Game)
    requires GetMinimaxMove(p, g).Ok? && GetMinimaxMove(p, g).value.Some?
    ensures IsValidMove(g.board, GetMinimaxMove(p, g).value.value, p.color)
  {
    var r := MinimaxEvaluateMovesAsWritten(p, g).value;
    MinimaxEvaluateMovesLegal(p, g);
    ChooseMoveSpec(r, p.color == Black);
    var k :| FirstBest(r, p.color == Black, k) && r[k].0 == GetMinimaxMove(p, g).value.value;
    assert Listed(r, r[k].0);
  }

  /** The choice of get_minimax_move, when its search succeeds: a pass
      exactly without a legal move, and otherwise a legal move. */
  lemma MinimaxChoice(p: Agent, g: Game)
    requires GetMinimaxMove(p, g).Ok?
    ensures GetMinimaxMove(p, g).value.None? <==> ValidMoves(g.board, p.color) == []
    ensures GetMinimaxMove(p, g).value.Some? ==> IsValidMove(g.board, GetMinimaxMove(p, g).value.value, p.color)
  {
    GetMinimaxMoveSpec(p, g);
    if GetMinimaxMove(p, g).value.Some? {
      GetMinimaxMoveLegal(p, g);
    }
  }

  // ---------------------------------------------------------------------
  // get_player_move

  /** typed[i] is the first typed square is_valid_move accepts for the
      active player. */
  predicate FirstAccepted(g: Game, typed: seq<Cell>, i: int) {
    && 0 <= i < |typed|
    && IsValidMoveFor(g, typed[i])
    && forall j :: 0 <= j < i ==> !IsValidMoveFor(g, typed[j])
  }

  /** Behind a rejected square, the first accepted square of the rest is
      the first accepted square of all. */
  lemma FirstAcceptedBehind(g: Game, typed: seq<Cell>, i: int)
    requires |typed| > 0 && !IsValidMoveFor(g, typed[0])
    requires FirstAccepted(g, typed[1..], i)
    ensures FirstAccepted(g, typed, i + 1) && typed[i + 1] == typed[1..][i]
  {
    forall j | 1 <= j < i + 1 ensures !IsValidMoveFor(g, typed[j]) {
      assert typed[j] == typed[1..][j - 1];
    }
  }

  /** get_offline_move over the squares typed in, in order: the first one
      is_valid_move accepts for the active player. The source prompts again
      after every rejected square, so None means that no accepted square
      has been typed yet. */
  function OfflineMove(g: Game, typed: seq<Cell>): (r: Option<Cell>)
    ensures r.None? <==> forall i :: 0 <= i < |typed| ==> !IsValidMoveFor(g, typed[i])
    ensures r.Some? ==> exists i :: FirstAccepted(g, typed, i) && typed[i] == r.value
  {
    if |typed| == 0 then None
    else if IsValidMoveFor(g, typed[0]) then
      assert FirstAccepted(g, typed, 0);
      Some(typed[0])
    else
      var rest := OfflineMove(g, typed[1..]);
      assert forall i :: 1 <= i < |typed| ==> typed[i] == typed[1..][i - 1];
      if rest.Some? then
        assert exists i :: FirstAccepted(g, typed, i) && typed[i] == rest.value by {
          var i :| FirstAccepted(g, typed[1..], i) && typed[1..][i] == rest.value;
          FirstAcceptedBehind(g, typed, i);
        }
        rest
      else
        rest
  }

  /** get_player_move: the old next_move becomes prev_move and the active
      player's type decides the new one, None standing for a pass. An
      OFFLINE player plays the first typed square is_valid_move accepts, a
      RANDOM player what get_random_move picks, a MINIMAX player what
      get_minimax_move chooses. The legality queries of the OFFLINE and
      MINIMAX branches clear the board's markers as a side effect. A USER
      player matches no branch, so row and col are never bound. */
  method GetPlayerMove(p: Agent, g: Game, typed: seq<Cell>) returns (r: Result<Game>)
    ensures r.Ok? ==> r.value.prevMove == g.nextMove && r.value.active == g.active
    ensures r.Ok? ==> r.value.finished == g.finished && r.value.result == g.result
    ensures r.Ok? ==> r.value.blackScore == g.blackScore && r.value.whiteScore == g.whiteScore
    ensures r.Ok? ==> ResetValidMoves(r.value.board) == ResetValidMoves(g.board)
    ensures r.Ok? && g.nextMove == None && r.value.nextMove == None ==> CheckFinished(r.value).finished
    ensures p.kind == User ==> r == Err(MoveUnbound)
    ensures p.kind == Offline ==> (r.Ok? <==> OfflineMove(g, typed).Some?)
    ensures p.kind == Offline && r.Ok? ==>
      && r.value.nextMove == OfflineMove(g, typed)
      && r.value.nextMove.value in typed && IsValidMoveFor(g, r.value.nextMove.value)
      && r.value.board == ResetValidMoves(g.board)
    ensures p.kind == RandomAgent ==> r.Ok? && r.value.board == g.board
    ensures p.kind == RandomAgent && r.Ok? ==>
      && (r.value.nextMove.None? <==> forall q: Cell :: At(g.board, q) != Valid)
      && (r.value.nextMove.Some? ==> At(g.board, r.value.nextMove.value) == Valid)
    ensures p.kind == MinimaxAgent ==> (r.Ok? <==> GetMinimaxMove(p, g).Ok?)
    ensures p.kind == MinimaxAgent && r.Ok? ==>
      && r.value.board == ResetValidMoves(g.board)
      && r.value.nextMove == GetMinimaxMove(p, g).value
      && (r.value.nextMove.None? <==> ValidMoves(g.board, p.color) == [])
      && (r.value.nextMove.Some? ==> IsValidMove(g.board, r.value.nextMove.value, p.color))
  {
    var recorded := g.(prevMove := g.nextMove);
    ResetIdempotent(g.board);
    match p.kind {
      case User =>
        r := Err(MoveUnbound);
      case Offline =>
        var m := OfflineMove(g, typed);
        if m.None? {
          r := Err(AwaitingInput);
        } else {
          r := Ok(ClearMarkers(recorded).(nextMove := m));
        }
      case RandomAgent =>
        var m := GetRandomMove(g);
        r := Ok(recorded.(nextMove := m));
      case MinimaxAgent =>
        var chosen := GetMinimaxMove(p, g);
        if chosen.Err? {
          r := Err(chosen.error);
        } else {
          MinimaxChoice(p, g);
          r := Ok(ClearMarkers(recorded).(nextMove := chosen.value));
        }
    }
  }
}
