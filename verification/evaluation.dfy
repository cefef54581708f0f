/** The StateEvaluator of src/state_evaluation.py: three heuristics, each a
    normalised difference between Black's and White's share of something,
    combined as a weighted sum; finished games get a fixed value by winner.
    Every quantity is a ratio of small integers, so it is modelled exactly
    as a `real`. */
module Evaluation {
  import opened Wrappers
  import opened Board
  import opened Rules
  import opened Game

  /** HeuristicType, plus any other key a weights dictionary may hold. */
  datatype Heuristic = DiscDiff | Mobility | Corners | Unknown(name: string)

  /** A weights dictionary, as its (key, weight) items in iteration order. */
  type Weights = seq<(Heuristic, real)>

  datatype Evaluator = Evaluator(weights: Weights)

  /** The default weights: DISC_DIFF 0.5, MOBILITY 0.5, CORNERS 0. */
  const DefaultWeights: Weights := [(DiscDiff, 0.5), (Mobility, 0.5), (Corners, 0.0)]

  /** sum(weights.values()). */
  function WeightSum(ws: Weights): real {
    if |ws| == 0 then 0.0 else ws[0].1 + WeightSum(ws[1..])
  }

  /** StateEvaluator.__init__: missing or empty weights fall back to the
      defaults; weights whose sum is not 1 are a ValueError. */
  function NewEvaluator(weights: Option<Weights>): Result<Evaluator> {
    var ws := if weights.None? || weights.value == [] then DefaultWeights else weights.value;
    if WeightSum(ws) != 1.0 then Err(WeightsDoNotSumToOne) else Ok(Evaluator(ws))
  }

  /** Construction succeeds exactly when the effective weights sum to 1, and
      then keeps them; without weights it succeeds with the defaults. */
  lemma NewEvaluatorSpec(weights: Option<Weights>)
    ensures weights.Some? && weights.value != [] ==>
      (NewEvaluator(weights).Ok? <==> WeightSum(weights.value) == 1.0)
    ensures weights.Some? && weights.value != [] && NewEvaluator(weights).Ok? ==>
      NewEvaluator(weights).value.weights == weights.value
    ensures NewEvaluator(weights).Err? ==> NewEvaluator(weights).error == WeightsDoNotSumToOne
    ensures weights.None? || weights.value == [] ==>
      NewEvaluator(weights) == Ok(Evaluator(DefaultWeights))
  {
    assert WeightSum(DefaultWeights) == 1.0 by {
      assert DefaultWeights[1..][1..][1..] == [];
    }
  }

  /** The common shape of the three heuristics: (x - y) / (x + y), or 0 when
      both are zero. */
  function Ratio(x: int, y: int): real {
    if x + y == 0 then 0.0 else (x - y) as real / (x + y) as real
  }

  /** Multiplying by a positive number keeps the sign. */
  lemma ProductSign(a: real, s: real)
    requires s > 0.0
    ensures a * s > 0.0 <==> a > 0.0
    ensures a * s < 0.0 <==> a < 0.0
  {
  }

  /** A quotient by a positive number no smaller in size than the dividend
      lies in [-1, 1], has the dividend's sign, and is odd in the dividend. */
  lemma QuotientSpec(d: real, s: real)
    requires s > 0.0 && -s <= d <= s
    ensures -1.0 <= d / s <= 1.0
    ensures d / s > 0.0 <==> d > 0.0
    ensures d / s < 0.0 <==> d < 0.0
    ensures (-d) / s == -(d / s)
  {
    var q := d / s;
    var n := (-d) / s;
    assert q * s == d;
    assert n * s == -d;
    ProductSign(q, s);
    ProductSign(q - 1.0, s);
    ProductSign(q + 1.0, s);
    ProductSign(n + q, s);
  }

  /** For counts, the ratio lies in [-1, 1], is positive exactly when x is
      larger, negative exactly when y is, and changes sign when the two are
      swapped. */
  lemma RatioSpec(x: nat, y: nat)
    ensures -1.0 <= Ratio(x, y) <= 1.0
    ensures Ratio(x, y) > 0.0 <==> x > y
    ensures Ratio(x, y) < 0.0 <==> x < y
    ensures Ratio(y, x) == -Ratio(x, y)
  {
    if x + y != 0 {
      var d := (x - y) as real;
      assert (y - x) as real == -d;
      assert (y + x) as real == (x + y) as real;
      QuotientSpec(d, (x + y) as real);
    }
  }

  /** count_valid_moves: how many legal squares the colour has. */
  function CountValidMoves(g: Game, color: Square): Result<nat> {
    match GetValidMovesByColor(g, color)
    case Ok(moves) => Ok(|moves|)
    case Err(e) => Err(e)
  }

  /** count_valid_moves counts get_valid_moves of the game with that colour
      to move, and fails for a square kind that is not a colour. */
  lemma CountValidMovesSpec(g: Game, color: Square)
    ensures color == Black || color == White ==>
      CountValidMoves(g, color) == Ok(|GetValidMoves(g.(active := color))|)
    ensures color != Black && color != White ==> CountValidMoves(g, color) == Err(InvalidColor)
  {
  }

  /** mobility_heuristic: the ratio of the two colours' count_valid_moves. */
  function MobilityHeuristic(g: Game): real {
    Ratio(|ValidMoves(g.board, Black)|, |ValidMoves(g.board, White)|)
  }

  /** count_discs: the cached score of the colour, a ValueError for any
      other square kind. */
  function CountDiscs(g: Game, color: Square): (r: Result<int>)
    ensures r.Err? <==> color != Black && color != White
    ensures r.Err? ==> r.error == InvalidColor
    ensures r.Ok? ==> r.value == (if color == Black then g.blackScore else g.whiteScore)
  {
    if color == Black then Ok(g.blackScore)
    else if color == White then Ok(g.whiteScore)
    else Err(InvalidColor)
  }

  /** Right after update_scores, count_discs counts the colour's discs on
      the board. */
  lemma CountDiscsAfterUpdate(g: Game, color: Color)
    ensures CountDiscs(UpdateScores(g), color) == Ok(Count(g.board, color))
  {
  }

  /** disc_diff_heuristic: from the cached scores, not the board. */
  function DiscDiffHeuristic(g: Game): real {
    Ratio(g.blackScore, g.whiteScore)
  }

  /** The four corners. */
  const CornerCells: seq<Cell> := [Pos(0, 0), Pos(0, 7), Pos(7, 0), Pos(7, 7)]

  /** How many of the given squares hold kind s. */
  function CountAmong(b: Grid, cells: seq<Cell>, s: Square): nat {
    if |cells| == 0 then 0 else (if At(b, cells[0]) == s then 1 else 0) + CountAmong(b, cells[1..], s)
  }

  /** count_corners: how many corners hold the given kind. */
  function CountCorners(g: Game, color: Square): nat {
    CountAmong(g.board, CornerCells, color)
  }

  /** count_corners only looks at the four corners: boards that agree on
      them get the same count, and the count is at most 4. */
  lemma CountCornersSpec(g: Game, h: Game, color: Square)
    requires forall q :: q in CornerCells ==> At(g.board, q) == At(h.board, q)
    ensures CountCorners(g, color) == CountCorners(h, color)
    ensures CountCorners(g, color) <= 4
  {
    CountAmongFrame(g.board, h.board, CornerCells, color);
  }

  lemma {:induction false} CountAmongFrame(b: Grid, c: Grid, cells: seq<Cell>, s: Square)
    requires forall q :: q in cells ==> At(b, q) == At(c, q)
    ensures CountAmong(b, cells, s) == CountAmong(c, cells, s)
    ensures CountAmong(b, cells, s) <= |cells|
  {
    if |cells| > 0 {
      CountAmongFrame(b, c, cells[1..], s);
    }
  }

  /** corner_heuristic. */
  function CornerHeuristic(g: Game): real {
    Ratio(CountCorners(g, Black), CountCorners(g, White))
  }

  /** The method heuristic_methods maps a key to, None for a key it does
      not know. */
  function HeuristicValue(g: Game, h: Heuristic): Option<real> {
    match h
    case DiscDiff => Some(DiscDiffHeuristic(g))
    case Mobility => Some(MobilityHeuristic(g))
    case Corners => Some(CornerHeuristic(g))
    case Unknown(_) => None
  }

  /** How a key reads in the ValueError message. */
  function KeyName(h: Heuristic): string {
    match h
    case DiscDiff => "HeuristicType.DISC_DIFF"
    case Mobility => "HeuristicType.MOBILITY"
    case Corners => "HeuristicType.CORNERS"
    case Unknown(name) => name
  }

  /** The loop of evaluate over the weights, for a method lookup f (one game's
      heuristic_methods.get): accumulate weight * method value, or stop with a
      ValueError at the first key without a method. */
  function WeightedSum(f: Heuristic -> Option<real>, ws: Weights): Result<real> {
    if |ws| == 0 then Ok(0.0)
    else match f(ws[0].0)
      case None => Err(UnknownHeuristic(KeyName(ws[0].0)))
      case Some(v) =>
        match WeightedSum(f, ws[1..])
        case Ok(rest) => Ok(ws[0].1 * v + rest)
        case Err(e) => Err(e)
  }

  /** Every key of the weights has a heuristic method. */
  predicate KnownKeys(ws: Weights) {
    forall i :: 0 <= i < |ws| ==> !ws[i].0.Unknown?
  }

  /** Each heuristic compares a Black count with a White count, so each lies
      in [-1, 1] and is positive exactly when Black's count is the larger. */
  lemma DiscDiffSpec(g: Game)
    requires g.blackScore >= 0 && g.whiteScore >= 0
    ensures -1.0 <= DiscDiffHeuristic(g) <= 1.0
    ensures DiscDiffHeuristic(g) > 0.0 <==> g.blackScore > g.whiteScore
  {
    RatioSpec(g.blackScore, g.whiteScore);
  }

  lemma MobilitySpec(g: Game)
    ensures -1.0 <= MobilityHeuristic(g) <= 1.0
    ensures MobilityHeuristic(g) > 0.0 <==> |ValidMoves(g.board, Black)| > |ValidMoves(g.board, White)|
  {
    RatioSpec(|ValidMoves(g.board, Black)|, |ValidMoves(g.board, White)|);
  }

  lemma CornerSpec(g: Game)
    ensures -1.0 <= CornerHeuristic(g) <= 1.0
    ensures CornerHeuristic(g) > 0.0 <==> CountCorners(g, Black) > CountCorners(g, White)
  {
    RatioSpec(CountCorners(g, Black), CountCorners(g, White));
  }

  /** Each heuristic with a method lies in [-1, 1]. */
  lemma HeuristicBounded(g: Game, h: Heuristic)
    requires g.blackScore >= 0 && g.whiteScore >= 0
    ensures HeuristicValue(g, h).Some? <==> !h.Unknown?
    ensures HeuristicValue(g, h).Some? ==> -1.0 <= HeuristicValue(g, h).value <= 1.0
  {
    match h
    case DiscDiff => DiscDiffSpec(g);
    case Mobility => MobilitySpec(g);
    case Corners => CornerSpec(g);
    case Unknown(_) =>
  }

  /** A lookup that has a method for exactly the known keys. */
  ghost predicate Complete(f: Heuristic -> Option<real>) {
    forall h :: f(h).Some? <==> !h.Unknown?
  }

  /** A lookup whose methods all value in [-1, 1]. */
  ghost predicate UnitValued(f: Heuristic -> Option<real>) {
    forall h :: f(h).Some? ==> -1.0 <= f(h).value <= 1.0
  }

  /** The weighted sum fails exactly when some key is unknown. */
  lemma {:induction false} WeightedSumOk(f: Heuristic -> Option<real>, ws: Weights)
    requires Complete(f)
    ensures WeightedSum(f, ws).Ok? <==> KnownKeys(ws)
  {
    if |ws| > 0 {
      WeightedSumOk(f, ws[1..]);
      if KnownKeys(ws) {
        assert KnownKeys(ws[1..]) by {
          forall i | 0 <= i < |ws[1..]| ensures !ws[1..][i].0.Unknown? {
            assert ws[1..][i] == ws[i + 1];
          }
        }
      }
      if WeightedSum(f, ws).Ok? {
        forall i | 0 <= i < |ws| ensures !ws[i].0.Unknown? {
          if i > 0 {
            assert ws[i] == ws[1..][i - 1];
          }
        }
      }
    }
  }

  /** On failure the error names the first unknown key. */
  lemma {:induction false} WeightedSumFirstUnknown(f: Heuristic -> Option<real>, ws: Weights)
    requires Complete(f)
    requires WeightedSum(f, ws).Err?
    ensures exists i :: 0 <= i < |ws| && ws[i].0.Unknown? && WeightedSum(f, ws).error == UnknownHeuristic(ws[i].0.name) &&
                        (forall j :: 0 <= j < i ==> !ws[j].0.Unknown?)
  {
    if f(ws[0].0).None? {
      assert ws[0].0.Unknown?;
    } else {
      WeightedSumFirstUnknown(f, ws[1..]);
      var i :| 0 <= i < |ws[1..]| && ws[1..][i].0.Unknown? && WeightedSum(f, ws[1..]).error == UnknownHeuristic(ws[1..][i].0.name)
        && forall j :: 0 <= j < i ==> !ws[1..][j].0.Unknown?;
      assert ws[i + 1] == ws[1..][i];
      forall j | 0 <= j < i + 1 ensures !ws[j].0.Unknown? {
        if j > 0 {
          assert ws[j] == ws[1..][j - 1];
        }
      }
    }
  }

  /** With non-negative weights and method values in [-1, 1] the weighted
      sum is bounded by the total weight. */
  lemma {:induction false} WeightedSumBounded(f: Heuristic -> Option<real>, ws: Weights)
    requires UnitValued(f)
    requires WeightedSum(f, ws).Ok?
    requires forall i :: 0 <= i < |ws| ==> ws[i].1 >= 0.0
    ensures -WeightSum(ws) <= WeightedSum(f, ws).value <= WeightSum(ws)
  {
    if |ws| > 0 {
      assert forall i :: 0 <= i < |ws[1..]| ==> ws[1..][i].1 >= 0.0 by {
        forall i | 0 <= i < |ws[1..]| ensures ws[1..][i].1 >= 0.0 {
          assert ws[1..][i] == ws[i + 1];
        }
      }
      var v := f(ws[0].0).value;
      WeightedSumBounded(f, ws[1..]);
      SumStep(ws[0].1, v, WeightedSum(f, ws[1..]).value, WeightSum(ws[1..]));
    }
  }

  /** A game's lookup is complete, and unit-valued when its cached scores
      are non-negative. */
  lemma GameLookup(g: Game)
    requires g.blackScore >= 0 && g.whiteScore >= 0
    ensures Complete(h => HeuristicValue(g, h))
    ensures UnitValued(h => HeuristicValue(g, h))
  {
    forall h ensures HeuristicValue(g, h).Some? <==> !h.Unknown?
      ensures HeuristicValue(g, h).Some? ==> -1.0 <= HeuristicValue(g, h).value <= 1.0
    {
      HeuristicBounded(g, h);
    }
  }

  /** A non-negative weight times a value in [-1, 1] lies within the
      weight. */
  lemma ScaleBound(w: real, v: real)
    requires w >= 0.0 && -1.0 <= v <= 1.0
    ensures -w <= w * v <= w
  {
    if w > 0.0 {
      var hi := (v - 1.0) * w;
      var lo := (v + 1.0) * w;
      ProductSign(v - 1.0, w);
      ProductSign(v + 1.0, w);
      assert hi <= 0.0;
      assert lo >= 0.0;
      assert hi == w * v - w;
      assert lo == w * v + w;
    }
  }

  /** One step of the weighted sum stays within the accumulated weight. */
  lemma SumStep(w: real, v: real, rest: real, total: real)
    requires w >= 0.0 && -1.0 <= v <= 1.0 && -total <= rest <= total
    ensures -(w + total) <= w * v + rest <= w + total
  {
    ScaleBound(w, v);
  }

  /** The fixed value of a finished game: +1 for a Black win, 0 for a draw,
      -1 for a White win. */
  function TerminalValue(o: Outcome): real {
    match o
    case BlackWins => 1.0
    case Draw => 0.0
    case WhiteWins => -1.0
  }

  /** evaluate: a finished game is valued by the winner that
      determine_winner finds from the cached scores; any other game by the
      weighted sum of its heuristics. */
  function Evaluate(e: Evaluator, g: Game): Result<real> {
    if g.finished then Ok(TerminalValue(DetermineWinner(g)))
    else WeightedSum(h => HeuristicValue(g, h), e.weights)
  }

  /** A finished game is worth 1, 0 or -1 by the sign of the score
      difference, whatever the weights. */
  lemma EvaluateTerminal(e: Evaluator, f: Evaluator, g: Game)
    requires g.finished
    ensures Evaluate(e, g) == Evaluate(f, g)
    ensures Evaluate(e, g) == Ok(if g.blackScore > g.whiteScore then 1.0
                                 else if g.blackScore < g.whiteScore then -1.0 else 0.0)
  {
  }

  /** Weights of known keys and non-negative values value every game
      within the total weight. */
  lemma EvaluateWithin(e: Evaluator, g: Game)
    requires KnownKeys(e.weights) && forall i :: 0 <= i < |e.weights| ==> e.weights[i].1 >= 0.0
    requires g.blackScore >= 0 && g.whiteScore >= 0
    requires WeightSum(e.weights) == 1.0
    ensures Evaluate(e, g).Ok?
    ensures -1.0 <= Evaluate(e, g).value <= 1.0
  {
    if !g.finished {
      var f := h => HeuristicValue(g, h);
      GameLookup(g);
      WeightedSumOk(f, e.weights);
      WeightedSumBounded(f, e.weights);
    }
  }

  /** An evaluator built from non-negative weights of known keys values every
      game in [-1, 1]. */
  lemma EvaluateBounded(weights: Option<Weights>, g: Game)
    requires NewEvaluator(weights).Ok?
    requires weights.Some? ==> KnownKeys(weights.value) && forall i :: 0 <= i < |weights.value| ==> weights.value[i].1 >= 0.0
    requires g.blackScore >= 0 && g.whiteScore >= 0
    ensures Evaluate(NewEvaluator(weights).value, g).Ok?
    ensures -1.0 <= Evaluate(NewEvaluator(weights).value, g).value <= 1.0
  {
    var e := NewEvaluator(weights).value;
    NewEvaluatorSpec(weights);
    assert KnownKeys(DefaultWeights) by {
      forall i | 0 <= i < |DefaultWeights| ensures !DefaultWeights[i].0.Unknown? {
        assert DefaultWeights[i] in DefaultWeights;
      }
    }
    assert forall i :: 0 <= i < |DefaultWeights| ==> DefaultWeights[i].1 >= 0.0 by {
      forall i | 0 <= i < |DefaultWeights| ensures DefaultWeights[i].1 >= 0.0 {
        assert DefaultWeights[i] in DefaultWeights;
      }
    }
    assert WeightSum(e.weights) == 1.0;
    EvaluateWithin(e, g);
  }

  /** With only the disc-difference heuristic, an unfinished game is valued
      by its weight times the normalised score difference. */
  lemma EvaluateDiscDiffOnly(w: real, g: Game)
    requires !g.finished
    ensures Evaluate(Evaluator([(DiscDiff, w)]), g).Ok?
    ensures Evaluate(Evaluator([(DiscDiff, w)]), g).value == w * Ratio(g.blackScore, g.whiteScore)
  {
    var ws: Weights := [(DiscDiff, w)];
    assert ws[1..] == [];
    assert WeightedSum(h => HeuristicValue(g, h), ws[1..]) == Ok(0.0);
  }
}
