/** The board rules of src/game.py, stated on the board alone: clearing the
    VALID hint markers, the eight-direction ray walk of is_valid_move, the
    row-major enumeration of legal moves, the capture set of discs_to_flip
    and the board effect of make_move.

    Each walk is modelled as the source's loop does it, and is proved equal
    to a declarative reading: a run of k >= 1 opponent discs closed by a disc
    of the mover's colour (Flanked). */
module Rules {
  import opened Board

  // ---------------------------------------------------------------------
  // Hint markers

  ghost predicate NoMarkers(b: Grid) {
    forall q: Cell :: At(b, q) != Valid
  }

  /** reset_valid_moves: every VALID square becomes EMPTY. */
  function ResetValidMoves(b: Grid): (r: Grid)
    ensures NoMarkers(r)
    ensures forall q: Cell :: At(b, q) != Valid ==> At(r, q) == At(b, q)
    ensures forall q: Cell :: At(b, q) == Valid ==> At(r, q) == Empty
  {
    seq(64, i requires 0 <= i < 64 => if b[i] == Valid then Empty else b[i])
  }

  /** Clearing the markers works square by square. */
  lemma ResetFrame(b: Grid, c: Grid, q: Cell)
    requires At(b, q) == At(c, q)
    ensures At(ResetValidMoves(b), q) == At(ResetValidMoves(c), q)
  {
  }

  lemma ResetIdentity(b: Grid)
    requires NoMarkers(b)
    ensures ResetValidMoves(b) == b
  {
    var r := ResetValidMoves(b);
    forall i | 0 <= i < 64 ensures r[i] == b[i] {
      assert At(b, CellAt(i)) != Valid;
    }
  }

  /** Clearing the markers twice is clearing them once. */
  lemma ResetIdempotent(b: Grid)
    ensures ResetValidMoves(ResetValidMoves(b)) == ResetValidMoves(b)
  {
    ResetIdentity(ResetValidMoves(b));
  }

  lemma {:induction false} CountUnmarked(b: seq<Square>, c: seq<Square>)
    requires |b| == |c|
    requires forall i :: 0 <= i < |b| ==> c[i] == (if b[i] == Valid then Empty else b[i])
    ensures Count(c, Black) == Count(b, Black) && Count(c, White) == Count(b, White)
    ensures Count(c, Valid) == 0 && Count(c, Empty) == Count(b, Empty) + Count(b, Valid)
  {
    if |b| > 0 {
      CountUnmarked(b[1..], c[1..]);
    }
  }

  /** Clearing the markers keeps both disc tallies and the number of free
      squares, and leaves no marker. */
  lemma ResetCounts(b: Grid)
    ensures Count(ResetValidMoves(b), Black) == Count(b, Black)
    ensures Count(ResetValidMoves(b), White) == Count(b, White)
    ensures Count(ResetValidMoves(b), Valid) == 0
    ensures FreeCells(ResetValidMoves(b)) == FreeCells(b)
  {
    CountUnmarked(b, ResetValidMoves(b));
  }

  // ---------------------------------------------------------------------
  // Directions and rays

  predicate IsStep(d: Pos) {
    -1 <= d.row <= 1 && -1 <= d.col <= 1 && d != Pos(0, 0)
  }

  /** One of the eight unit steps. */
  type Dir = d: Pos | IsStep(d) witness Pos(-1, 0)

  /** DIRECTIONS of is_valid_move and discs_to_flip, in the source's order:
      up, down, left, right, then the four diagonals. */
  const Directions: seq<Dir> :=
    [Pos(-1, 0), Pos(1, 0), Pos(0, -1), Pos(0, 1),
     Pos(-1, -1), Pos(-1, 1), Pos(1, -1), Pos(1, 1)]

  /** x moved n steps along the unit component dx. */
  function Offset(x: int, dx: int, n: int): int {
    if dx == 1 then x + n else if dx == -1 then x - n else x
  }

  /** The position n steps from p in direction d. */
  function Steps(p: Pos, d: Dir, n: int): Pos {
    Pos(Offset(p.row, d.row, n), Offset(p.col, d.col, n))
  }

  /** How many steps, along one component, x can take in direction dx before
      leaving the board (a component that does not move never leaves it). */
  function Reach(x: int, dx: int): int {
    if dx == 1 then 7 - x else if dx == -1 then x else 7
  }

  /** The squares visited walking from p in direction d, one step at a time,
      while the walk stays on the board. */
  function Ray(p: Cell, d: Dir): (r: seq<Cell>)
    ensures forall j :: 0 <= j < |r| ==> r[j] == Steps(p, d, j + 1)
    ensures !InBounds(Steps(p, d, |r| + 1))
  {
    var n := if Reach(p.row, d.row) < Reach(p.col, d.col) then Reach(p.row, d.row) else Reach(p.col, d.col);
    seq(n, j requires 0 <= j < n => Steps(p, d, j + 1))
  }

  /** Positions reached by a positive number of steps determine the
      direction and the number of steps; in particular they never return to
      the start. */
  lemma StepsInjective(p: Pos, d: Dir, e: Dir, n: int, m: int)
    requires n >= 1 && m >= 1
    ensures Steps(p, d, n) != p
    ensures Steps(p, d, n) == Steps(p, e, m) ==> d == e && n == m
  {
  }

  lemma RayShape(p: Cell, d: Dir)
    ensures Distinct(Ray(p, d))
    ensures p !in Ray(p, d)
  {
    var r := Ray(p, d);
    forall i, j | 0 <= i < j < |r| ensures r[i] != r[j] {
      StepsInjective(p, d, d, i + 1, j + 1);
    }
    forall j | 0 <= j < |r| ensures r[j] != p {
      StepsInjective(p, d, d, j + 1, j + 1);
    }
  }

  /** Rays in two different directions from the same square share no square. */
  lemma RaysDisjoint(p: Cell, d: Dir, e: Dir, i: int, j: int)
    requires d != e
    requires 0 <= i < |Ray(p, d)| && 0 <= j < |Ray(p, e)|
    ensures Ray(p, d)[i] != Ray(p, e)[j]
  {
    StepsInjective(p, d, e, i + 1, j + 1);
  }

  // ---------------------------------------------------------------------
  // The declarative reading of a capture

  /** Along the ray, the first k squares hold the opponent's discs and square
      k holds a disc of colour a: a disc of colour a placed before the ray
      captures a run of k >= 1 discs. */
  predicate Flanked(b: Grid, ray: seq<Cell>, a: Color, k: int) {
    && 1 <= k < |ray|
    && (forall j :: 0 <= j < k ==> At(b, ray[j]) == Other(a))
    && At(b, ray[k]) == a
  }

  /** A ray flanks at most one run: it ends at the first square that is not
      the opponent's. */
  lemma FlankedUnique(b: Grid, ray: seq<Cell>, a: Color, k: int)
    requires Flanked(b, ray, a, k)
    ensures forall m :: Flanked(b, ray, a, m) ==> m == k
  {
    forall m | 1 <= m < |ray| && m != k ensures !Flanked(b, ray, a, m) {
      if m < k {
        assert At(b, ray[m]) == Other(a);
      } else {
        assert At(b, ray[k]) == a;
      }
    }
  }

  /** When the first i squares are the opponent's and square i (if any) is
      neither the opponent's nor, unless no disc was crossed, a disc of
      colour a, nothing is flanked. */
  lemma NoFlankPastRun(b: Grid, ray: seq<Cell>, a: Color, i: nat)
    requires i <= |ray|
    requires forall j :: 0 <= j < i ==> At(b, ray[j]) == Other(a)
    requires i < |ray| ==> At(b, ray[i]) != Other(a) && (i > 0 ==> At(b, ray[i]) != a)
    ensures forall k :: !Flanked(b, ray, a, k)
  {
    forall k | 1 <= k < |ray| ensures !Flanked(b, ray, a, k) {
      if k < i {
        assert At(b, ray[k]) == Other(a);
      } else if k > i {
        assert At(b, ray[i]) != Other(a);
      }
    }
  }

  // ---------------------------------------------------------------------
  // is_valid_move

  /** The loop of is_valid_move along one ray; `found` is its
      found_opposing_disc flag. An EMPTY square or the edge stops the walk
      with no capture, a disc of colour a stops it with a capture exactly
      when an opponent disc was crossed. */
  function LegalWalk(b: Grid, ray: seq<Cell>, a: Color, found: bool): bool {
    if |ray| == 0 then false
    else if At(b, ray[0]) == Empty then false
    else if At(b, ray[0]) == a then found
    else if At(b, ray[0]) == Other(a) then LegalWalk(b, ray[1..], a, true)
    else LegalWalk(b, ray[1..], a, found)
  }

  /** On squares without markers the walk finds a capture exactly when the
      ray flanks a run; i is the number of opponent discs already crossed. */
  lemma {:induction false} LegalWalkFlanked(b: Grid, ray: seq<Cell>, a: Color, i: nat)
    requires i <= |ray|
    requires forall j :: 0 <= j < |ray| ==> At(b, ray[j]) != Valid
    requires forall j :: 0 <= j < i ==> At(b, ray[j]) == Other(a)
    ensures LegalWalk(b, ray[i..], a, i > 0) <==> exists k :: Flanked(b, ray, a, k)
    decreases |ray| - i
  {
    if i == |ray| {
      NoFlankPastRun(b, ray, a, i);
    } else {
      assert ray[i..][0] == ray[i];
      assert ray[i..][1..] == ray[i + 1..];
      var s := At(b, ray[i]);
      if s == Other(a) {
        LegalWalkFlanked(b, ray, a, i + 1);
      } else if s == a && i > 0 {
        assert Flanked(b, ray, a, i);
      } else {
        NoFlankPastRun(b, ray, a, i);
      }
    }
  }

  /** The for-loop over DIRECTIONS: true as soon as one direction's walk is. */
  predicate AnyDirection(b: Grid, p: Cell, a: Color, dirs: seq<Dir>) {
    exists i :: 0 <= i < |dirs| && LegalWalk(b, Ray(p, dirs[i]), a, false)
  }

  /** is_valid_move: it first clears the hint markers, so a VALID square
      counts as EMPTY; a square that is then not EMPTY is not a move;
      otherwise some direction must find a capture. */
  function IsValidMove(b: Grid, p: Cell, a: Color): bool {
    var c := ResetValidMoves(b);
    if At(c, p) != Empty then false else AnyDirection(c, p, a, Directions)
  }

  /** Some direction of dirs from p flanks a run of opponent discs. */
  ghost predicate FlanksAlong(b: Grid, p: Cell, a: Color, dirs: seq<Dir>) {
    exists d: Dir, k :: d in dirs && Flanked(b, Ray(p, d), a, k)
  }

  /** Some direction from p flanks a run of opponent discs. */
  ghost predicate Flanks(b: Grid, p: Cell, a: Color) {
    FlanksAlong(b, p, a, Directions)
  }

  /** Legal in the declarative sense: with the markers cleared the square is
      EMPTY and a disc of colour a placed there flanks a run. */
  ghost predicate Legal(b: Grid, p: Cell, a: Color) {
    At(ResetValidMoves(b), p) == Empty && Flanks(ResetValidMoves(b), p, a)
  }

  /** A direction whose walk finds a capture flanks a run. */
  lemma AnyDirectionFlanks(b: Grid, p: Cell, a: Color, dirs: seq<Dir>)
    requires NoMarkers(b)
    requires AnyDirection(b, p, a, dirs)
    ensures FlanksAlong(b, p, a, dirs)
  {
    var i :| 0 <= i < |dirs| && LegalWalk(b, Ray(p, dirs[i]), a, false);
    LegalWalkFlanked(b, Ray(p, dirs[i]), a, 0);
    assert Ray(p, dirs[i])[0..] == Ray(p, dirs[i]);
    var k :| Flanked(b, Ray(p, dirs[i]), a, k);
    assert dirs[i] in dirs;
  }

  /** A direction that flanks a run makes its walk find a capture. */
  lemma FlanksAnyDirection(b: Grid, p: Cell, a: Color, dirs: seq<Dir>)
    requires NoMarkers(b)
    requires FlanksAlong(b, p, a, dirs)
    ensures AnyDirection(b, p, a, dirs)
  {
    var d: Dir, k :| d in dirs && Flanked(b, Ray(p, d), a, k);
    var i :| 0 <= i < |dirs| && dirs[i] == d;
    LegalWalkFlanked(b, Ray(p, d), a, 0);
    assert Ray(p, d)[0..] == Ray(p, d);
  }

  lemma AnyDirectionFlanked(b: Grid, p: Cell, a: Color, dirs: seq<Dir>)
    requires NoMarkers(b)
    ensures AnyDirection(b, p, a, dirs) <==> FlanksAlong(b, p, a, dirs)
  {
    if AnyDirection(b, p, a, dirs) {
      AnyDirectionFlanks(b, p, a, dirs);
    }
    if FlanksAlong(b, p, a, dirs) {
      FlanksAnyDirection(b, p, a, dirs);
    }
  }

  /** is_valid_move decides exactly the declarative legality. */
  lemma IsValidMoveLegal(b: Grid, p: Cell, a: Color)
    ensures IsValidMove(b, p, a) <==> Legal(b, p, a)
  {
    AnyDirectionFlanked(ResetValidMoves(b), p, a, Directions);
  }

  /** Legality never depends on the hint markers. */
  lemma IsValidMoveIgnoresMarkers(b: Grid, p: Cell, a: Color)
    ensures IsValidMove(ResetValidMoves(b), p, a) == IsValidMove(b, p, a)
  {
    ResetIdempotent(b);
  }

  /** A legal move is on a square that is EMPTY or VALID. */
  lemma LegalIsFree(b: Grid, p: Cell, a: Color)
    requires IsValidMove(b, p, a)
    ensures At(b, p) == Empty || At(b, p) == Valid
    ensures At(ResetValidMoves(b), p) == Empty
  {
  }

  // ---------------------------------------------------------------------
  // get_valid_moves

  /** Every square of the board in row-major order: row by row, and
      within a row column by column, as get_valid_moves enumerates them. */
  function AllCells(): seq<Cell> {
    seq(64, i requires 0 <= i < 64 => CellAt(i))
  }

  /** The squares of `cells` that `legal` accepts, in order. */
  function Keep(legal: Cell -> bool, cells: seq<Cell>): seq<Cell> {
    if |cells| == 0 then []
    else (if legal(cells[0]) then [cells[0]] else []) + Keep(legal, cells[1..])
  }

  predicate Increasing(cells: seq<Cell>) {
    forall j, k :: 0 <= j < k < |cells| ==> Index(cells[j]) < Index(cells[k])
  }

  /** The filter keeps exactly the accepted squares of `cells`. */
  lemma {:induction false} KeepMember(legal: Cell -> bool, cells: seq<Cell>, q: Cell)
    ensures q in Keep(legal, cells) <==> q in cells && legal(q)
  {
    if |cells| > 0 {
      KeepMember(legal, cells[1..], q);
      assert cells == [cells[0]] + cells[1..];
    }
  }

  /** The filter keeps an increasing list increasing. */
  lemma {:induction false} KeepIncreasing(legal: Cell -> bool, cells: seq<Cell>)
    requires Increasing(cells)
    ensures Increasing(Keep(legal, cells))
  {
    if |cells| > 0 {
      var r := Keep(legal, cells);
      var rest := Keep(legal, cells[1..]);
      KeepIncreasing(legal, cells[1..]);
      if r != rest {
        forall k | 0 < k < |r| ensures Index(r[0]) < Index(r[k]) {
          KeepMember(legal, cells[1..], r[k]);
          var m :| 0 <= m < |cells[1..]| && cells[1..][m] == r[k];
          assert cells[m + 1] == r[k];
        }
      }
    }
  }

  /** Two tests that agree on every square keep the same squares. */
  lemma {:induction false} KeepAgree(legal: Cell -> bool, other: Cell -> bool, cells: seq<Cell>)
    requires forall q :: legal(q) == other(q)
    ensures Keep(legal, cells) == Keep(other, cells)
  {
    if |cells| > 0 {
      KeepAgree(legal, other, cells[1..]);
    }
  }

  /** get_valid_moves / get_valid_moves_by_color: every legal square for
      colour a, in row-major order. */
  function ValidMoves(b: Grid, a: Color): seq<Cell> {
    Keep((q: Cell) => IsValidMove(b, q, a), AllCells())
  }

  /** The row-major order visits every square once, in increasing position. */
  lemma AllCellsSpec()
    ensures forall q: Cell :: q in AllCells()
    ensures Increasing(AllCells())
  {
    var all := AllCells();
    forall q: Cell ensures q in all {
      assert all[Index(q)] == CellAt(Index(q));
      IndexInjective(CellAt(Index(q)), q);
    }
  }

  /** The legal-move list holds exactly the legal squares, each once, in
      row-major order. */
  lemma ValidMovesSpec(b: Grid, a: Color)
    ensures forall q: Cell :: q in ValidMoves(b, a) <==> IsValidMove(b, q, a)
    ensures Increasing(ValidMoves(b, a))
  {
    var legal := (q: Cell) => IsValidMove(b, q, a);
    AllCellsSpec();
    KeepIncreasing(legal, AllCells());
    forall q: Cell ensures q in ValidMoves(b, a) <==> IsValidMove(b, q, a) {
      KeepMember(legal, AllCells(), q);
    }
  }

  /** The legal-move list never depends on the hint markers. */
  lemma ValidMovesIgnoreMarkers(b: Grid, a: Color)
    ensures ValidMoves(ResetValidMoves(b), a) == ValidMoves(b, a)
  {
    forall q ensures IsValidMove(ResetValidMoves(b), q, a) == IsValidMove(b, q, a) {
      IsValidMoveIgnoresMarkers(b, q, a);
    }
    KeepAgree((q: Cell) => IsValidMove(ResetValidMoves(b), q, a), (q: Cell) => IsValidMove(b, q, a), AllCells());
  }

  // ---------------------------------------------------------------------
  // discs_to_flip

  /** The loop of discs_to_flip along one ray; `run` is its seq_discs. An
      opponent disc joins the run; a disc of colour a ends the walk and
      contributes the run (an empty run contributes nothing, which is what
      flip_flag guards); anything else, a VALID marker included, or the edge
      ends the walk with nothing. */
  function FlipWalk(b: Grid, ray: seq<Cell>, a: Color, run: seq<Cell>): seq<Cell> {
    if |ray| == 0 then []
    else if At(b, ray[0]) == Other(a) then FlipWalk(b, ray[1..], a, run + [ray[0]])
    else if At(b, ray[0]) == a then run
    else []
  }

  /** The walk along one ray returns the flanked run, or nothing when the ray
      flanks none; i is the number of opponent discs already collected. */
  lemma {:induction false} FlipWalkRun(b: Grid, ray: seq<Cell>, a: Color, i: nat)
    requires i <= |ray|
    requires forall j :: 0 <= j < i ==> At(b, ray[j]) == Other(a)
    ensures var r := FlipWalk(b, ray[i..], a, ray[..i]);
      || (r == [] && forall k :: !Flanked(b, ray, a, k))
      || (Flanked(b, ray, a, |r|) && r == ray[..|r|])
    decreases |ray| - i
  {
    if i == |ray| {
      NoFlankPastRun(b, ray, a, i);
    } else {
      assert ray[i..][0] == ray[i];
      assert ray[i..][1..] == ray[i + 1..];
      var s := At(b, ray[i]);
      if s == Other(a) {
        assert ray[..i] + [ray[i]] == ray[..i + 1];
        FlipWalkRun(b, ray, a, i + 1);
      } else if s == a && i > 0 {
        assert Flanked(b, ray, a, i);
      } else {
        NoFlankPastRun(b, ray, a, i);
      }
    }
  }

  /** The walk depends only on which ray squares hold colour a and which hold
      the opponent's colour. */
  lemma {:induction false} FlipWalkSameDiscs(b: Grid, c: Grid, ray: seq<Cell>, a: Color, run: seq<Cell>)
    requires forall j :: 0 <= j < |ray| ==> (At(b, ray[j]) == a) == (At(c, ray[j]) == a)
    requires forall j :: 0 <= j < |ray| ==> (At(b, ray[j]) == Other(a)) == (At(c, ray[j]) == Other(a))
    ensures FlipWalk(b, ray, a, run) == FlipWalk(c, ray, a, run)
  {
    if |ray| > 0 {
      FlipWalkSameDiscs(b, c, ray[1..], a, run + [ray[0]]);
    }
  }

  /** The extend over DIRECTIONS: the runs of each direction, in order. */
  function FlipsAlong(b: Grid, p: Cell, a: Color, dirs: seq<Dir>): seq<Cell> {
    if |dirs| == 0 then []
    else FlipWalk(b, Ray(p, dirs[0]), a, []) + FlipsAlong(b, p, a, dirs[1..])
  }

  /** discs_to_flip: the discs a disc of colour a placed at p captures. It
      does not clear the markers first; a VALID square ends a walk like an
      EMPTY one. */
  function DiscsToFlip(b: Grid, p: Cell, a: Color): seq<Cell> {
    FlipsAlong(b, p, a, Directions)
  }

  /** q lies on the run that the ray from p in direction d flanks. */
  ghost predicate CapturedAlong(b: Grid, p: Cell, a: Color, d: Dir, q: Cell) {
    exists k, j :: 0 <= j < k && Flanked(b, Ray(p, d), a, k) && q == Ray(p, d)[j]
  }

  /** discs_to_flip's walk along the ray from p in direction d: the flanked
      run when there is one, nothing otherwise. */
  lemma FlipWalkResult(b: Grid, p: Cell, a: Color, d: Dir)
    ensures var r := FlipWalk(b, Ray(p, d), a, []);
      || (r == [] && forall k :: !Flanked(b, Ray(p, d), a, k))
      || (Flanked(b, Ray(p, d), a, |r|) && r == Ray(p, d)[..|r|])
  {
    var ray := Ray(p, d);
    FlipWalkRun(b, ray, a, 0);
    assert ray[0..] == ray && ray[..0] == [];
  }

  lemma FlipWalkMembers(b: Grid, p: Cell, a: Color, d: Dir, q: Cell)
    ensures q in FlipWalk(b, Ray(p, d), a, []) <==> CapturedAlong(b, p, a, d, q)
    ensures q in FlipWalk(b, Ray(p, d), a, []) ==> At(b, q) == Other(a) && q in Ray(p, d)
  {
    var ray := Ray(p, d);
    var r := FlipWalk(b, ray, a, []);
    FlipWalkResult(b, p, a, d);
    if CapturedAlong(b, p, a, d, q) {
      var k, j :| 0 <= j < k && Flanked(b, ray, a, k) && q == ray[j];
      FlankedUnique(b, ray, a, k);
      assert r[j] == q;
    }
    if q in r {
      var j :| 0 <= j < |r| && r[j] == q;
      assert q == ray[j];
    }
  }

  lemma FlipWalkDistinct(b: Grid, p: Cell, a: Color, d: Dir)
    ensures Distinct(FlipWalk(b, Ray(p, d), a, []))
  {
    FlipWalkResult(b, p, a, d);
    RayShape(p, d);
  }

  /** q lies on a run flanked in one of the directions dirs. */
  ghost predicate CapturedFrom(b: Grid, p: Cell, a: Color, dirs: seq<Dir>, q: Cell) {
    exists d: Dir :: d in dirs && CapturedAlong(b, p, a, d, q)
  }

  /** A disc of colour a placed at p captures q. */
  ghost predicate Captured(b: Grid, p: Cell, a: Color, q: Cell) {
    CapturedFrom(b, p, a, Directions, q)
  }

  lemma {:induction false} FlipsAlongMembers(b: Grid, p: Cell, a: Color, dirs: seq<Dir>, q: Cell)
    ensures q in FlipsAlong(b, p, a, dirs) <==> CapturedFrom(b, p, a, dirs, q)
    ensures q in FlipsAlong(b, p, a, dirs) ==> At(b, q) == Other(a)
    ensures q in FlipsAlong(b, p, a, dirs) ==> exists d: Dir :: d in dirs && q in Ray(p, d)
  {
    if |dirs| > 0 {
      FlipWalkMembers(b, p, a, dirs[0], q);
      FlipsAlongMembers(b, p, a, dirs[1..], q);
      if q in FlipsAlong(b, p, a, dirs) {
        if q in FlipWalk(b, Ray(p, dirs[0]), a, []) {
          assert dirs[0] in dirs;
        } else {
          var d: Dir :| d in dirs[1..] && CapturedAlong(b, p, a, d, q);
          assert d in dirs;
          var e: Dir :| e in dirs[1..] && q in Ray(p, e);
          assert e in dirs;
        }
      }
      if exists d: Dir :: d in dirs && CapturedAlong(b, p, a, d, q) {
        var d: Dir :| d in dirs && CapturedAlong(b, p, a, d, q);
        if d != dirs[0] {
          assert d in dirs[1..];
        }
      }
    }
  }

  /** In a list without repeats, a later direction is not the first. */
  lemma LaterDirection(dirs: seq<Dir>, e: Dir)
    requires forall i, j :: 0 <= i < j < |dirs| ==> dirs[i] != dirs[j]
    requires |dirs| > 0 && e in dirs[1..]
    ensures e != dirs[0]
  {
    var k :| 0 <= k < |dirs[1..]| && dirs[1..][k] == e;
    assert dirs[k + 1] == e;
  }

  /** A disc flipped along the first direction is never one flipped along
      a later, different direction: distinct rays from p share no square. */
  lemma FlipsApart(b: Grid, p: Cell, a: Color, dirs: seq<Dir>, u: Cell, v: Cell)
    requires |dirs| > 0
    requires forall i, j :: 0 <= i < j < |dirs| ==> dirs[i] != dirs[j]
    requires u in FlipWalk(b, Ray(p, dirs[0]), a, [])
    requires v in FlipsAlong(b, p, a, dirs[1..])
    ensures u != v
  {
    FlipWalkMembers(b, p, a, dirs[0], u);
    FlipsAlongMembers(b, p, a, dirs[1..], v);
    var e: Dir :| e in dirs[1..] && v in Ray(p, e);
    LaterDirection(dirs, e);
    var x :| 0 <= x < |Ray(p, dirs[0])| && Ray(p, dirs[0])[x] == u;
    var y :| 0 <= y < |Ray(p, e)| && Ray(p, e)[y] == v;
    RaysDisjoint(p, dirs[0], e, x, y);
  }

  lemma {:induction false} FlipsAlongDistinct(b: Grid, p: Cell, a: Color, dirs: seq<Dir>)
    requires forall i, j :: 0 <= i < j < |dirs| ==> dirs[i] != dirs[j]
    ensures Distinct(FlipsAlong(b, p, a, dirs))
  {
    if |dirs| > 0 {
      var head := FlipWalk(b, Ray(p, dirs[0]), a, []);
      var tail := FlipsAlong(b, p, a, dirs[1..]);
      FlipsAlongDistinct(b, p, a, dirs[1..]);
      FlipWalkDistinct(b, p, a, dirs[0]);
      forall i, j | 0 <= i < |head| && 0 <= j < |tail| ensures head[i] != tail[j] {
        FlipsApart(b, p, a, dirs, head[i], tail[j]);
      }
      DistinctConcat(head, tail);
    }
  }

  /** discs_to_flip returns each captured disc once; every one of them is an
      opponent disc on a run that a disc of colour a closes, and every such
      disc is returned. */
  lemma DiscsToFlipSpec(b: Grid, p: Cell, a: Color)
    ensures Distinct(DiscsToFlip(b, p, a))
    ensures forall q: Cell :: q in DiscsToFlip(b, p, a) ==> At(b, q) == Other(a)
    ensures forall q: Cell :: q in DiscsToFlip(b, p, a) <==> Captured(b, p, a, q)
    ensures p !in DiscsToFlip(b, p, a)
  {
    assert forall i, j :: 0 <= i < j < |Directions| ==> Directions[i] != Directions[j];
    FlipsAlongDistinct(b, p, a, Directions);
    forall q: Cell
      ensures q in DiscsToFlip(b, p, a) <==> Captured(b, p, a, q)
      ensures q in DiscsToFlip(b, p, a) ==> At(b, q) == Other(a)
    {
      FlipsAlongMembers(b, p, a, Directions, p);
      FlipsAlongMembers(b, p, a, Directions, q);
    }
    if p in DiscsToFlip(b, p, a) {
      var d: Dir :| d in Directions && p in Ray(p, d);
      RayShape(p, d);
    }
  }

  /** discs_to_flip gives the same answer with the markers cleared: a VALID
      square ends a walk just as an EMPTY one does. */
  lemma {:induction false} FlipsAlongIgnoresMarkers(b: Grid, p: Cell, a: Color, dirs: seq<Dir>)
    ensures FlipsAlong(ResetValidMoves(b), p, a, dirs) == FlipsAlong(b, p, a, dirs)
  {
    if |dirs| > 0 {
      FlipWalkSameDiscs(b, ResetValidMoves(b), Ray(p, dirs[0]), a, []);
      FlipsAlongIgnoresMarkers(b, p, a, dirs[1..]);
    }
  }

  lemma DiscsToFlipIgnoresMarkers(b: Grid, p: Cell, a: Color)
    ensures DiscsToFlip(ResetValidMoves(b), p, a) == DiscsToFlip(b, p, a)
  {
    FlipsAlongIgnoresMarkers(b, p, a, Directions);
  }

  /** discs_to_flip never looks at the square p itself. */
  lemma {:induction false} FlipsAlongIgnoresOrigin(b: Grid, p: Cell, a: Color, s: Square, dirs: seq<Dir>)
    ensures FlipsAlong(Set(b, p, s), p, a, dirs) == FlipsAlong(b, p, a, dirs)
  {
    if |dirs| > 0 {
      RayShape(p, dirs[0]);
      FlipWalkSameDiscs(b, Set(b, p, s), Ray(p, dirs[0]), a, []);
      FlipsAlongIgnoresOrigin(b, p, a, s, dirs[1..]);
    }
  }

  lemma DiscsToFlipIgnoresOrigin(b: Grid, p: Cell, a: Color, s: Square)
    ensures DiscsToFlip(Set(b, p, s), p, a) == DiscsToFlip(b, p, a)
  {
    FlipsAlongIgnoresOrigin(b, p, a, s, Directions);
  }

  /** A disc that flanks a run captures that run's first square. */
  lemma FlanksCaptures(c: Grid, p: Cell, a: Color)
    requires Flanks(c, p, a)
    ensures DiscsToFlip(c, p, a) != []
  {
    DiscsToFlipSpec(c, p, a);
    var d: Dir, k :| d in Directions && Flanked(c, Ray(p, d), a, k);
    assert CapturedAlong(c, p, a, d, Ray(p, d)[0]);
    assert Captured(c, p, a, Ray(p, d)[0]);
  }

  /** A disc that captures something flanks a run. */
  lemma CapturesFlanks(c: Grid, p: Cell, a: Color)
    requires DiscsToFlip(c, p, a) != []
    ensures Flanks(c, p, a)
  {
    DiscsToFlipSpec(c, p, a);
    var q := DiscsToFlip(c, p, a)[0];
    assert Captured(c, p, a, q);
    var d: Dir :| d in Directions && CapturedAlong(c, p, a, d, q);
    var k, j :| 0 <= j < k && Flanked(c, Ray(p, d), a, k) && q == Ray(p, d)[j];
    assert FlanksAlong(c, p, a, Directions);
  }

  /** For a square that is EMPTY once the markers are cleared, is_valid_move
      holds exactly when discs_to_flip finds something to capture. */
  lemma ValidIffCaptures(b: Grid, p: Cell, a: Color)
    requires At(ResetValidMoves(b), p) == Empty
    ensures IsValidMove(b, p, a) <==> DiscsToFlip(b, p, a) != []
  {
    var c := ResetValidMoves(b);
    IsValidMoveLegal(b, p, a);
    DiscsToFlipIgnoresMarkers(b, p, a);
    if Flanks(c, p, a) {
      FlanksCaptures(c, p, a);
    }
    if DiscsToFlip(c, p, a) != [] {
      CapturesFlanks(c, p, a);
    }
  }

  // ---------------------------------------------------------------------
  // make_move, flip and update_valid_moves on the board

  /** flip on the board: every square discs_to_flip reports for p turns to
      colour a. */
  function Flip(b: Grid, p: Cell, a: Color): Grid {
    SetAll(b, DiscsToFlip(b, p, a), a)
  }

  /** make_move on the board: the disc of colour a goes to p, then flip runs
      on the board that already holds the new disc. */
  function PlayAt(b: Grid, p: Cell, a: Color): Grid {
    Flip(Set(b, p, a), p, a)
  }

  /** A move sets p and exactly the captured discs to colour a; every other
      square keeps its content. */
  lemma PlayAtEffect(b: Grid, p: Cell, a: Color)
    ensures At(PlayAt(b, p, a), p) == a
    ensures forall q: Cell :: q in DiscsToFlip(b, p, a) ==> At(PlayAt(b, p, a), q) == a
    ensures forall q: Cell :: q != p && q !in DiscsToFlip(b, p, a) ==> At(PlayAt(b, p, a), q) == At(b, q)
  {
    DiscsToFlipIgnoresOrigin(b, p, a, a);
  }

  /** A move on a free square adds one disc of colour a plus one per capture,
      removes the captured discs from the opponent, and uses up one free
      square. */
  lemma PlayAtCounts(b: Grid, p: Cell, a: Color)
    requires At(b, p) == Empty || At(b, p) == Valid
    ensures Count(PlayAt(b, p, a), a) == Count(b, a) + 1 + |DiscsToFlip(b, p, a)|
    ensures Count(PlayAt(b, p, a), Other(a)) == Count(b, Other(a)) - |DiscsToFlip(b, p, a)|
    ensures FreeCells(PlayAt(b, p, a)) == FreeCells(b) - 1
  {
    var placed := Set(b, p, a);
    var flips := DiscsToFlip(b, p, a);
    DiscsToFlipIgnoresOrigin(b, p, a, a);
    DiscsToFlipSpec(b, p, a);
    forall q | q in flips ensures At(placed, q) == Other(a) {
    }
    CountUpdate(b, Index(p), a, a);
    CountUpdate(b, Index(p), a, Other(a));
    CountUpdate(b, Index(p), a, Empty);
    CountUpdate(b, Index(p), a, Valid);
    CountSetAll(placed, flips, a, Other(a), a);
    CountSetAll(placed, flips, a, Other(a), Other(a));
    CountSetAll(placed, flips, a, Other(a), Empty);
    CountSetAll(placed, flips, a, Other(a), Valid);
  }

  /** update_valid_moves on the board: clear the markers, then mark VALID
      every legal square of colour a. */
  function MarkValidMoves(b: Grid, a: Color): Grid {
    var c := ResetValidMoves(b);
    SetAll(c, ValidMoves(c, a), Valid)
  }

  /** Marking EMPTY squares of a marker-free board, then clearing the
      markers again, gives back that board. */
  lemma MarkThenReset(c: Grid, cells: seq<Cell>)
    requires NoMarkers(c)
    requires forall q :: q in cells ==> At(c, q) == Empty
    ensures forall q: Cell :: At(SetAll(c, cells, Valid), q) == Valid <==> q in cells
    ensures ResetValidMoves(SetAll(c, cells, Valid)) == c
  {
    var r := SetAll(c, cells, Valid);
    var rr := ResetValidMoves(r);
    forall i | 0 <= i < 64 ensures rr[i] == c[i] {
      var q := CellAt(i);
      assert At(rr, q) == rr[i] && At(c, q) == c[i];
    }
  }

  /** A square get_valid_moves reports is EMPTY once the markers are
      cleared. */
  lemma ValidMoveIsFree(c: Grid, a: Color, q: Cell)
    requires q in ValidMoves(c, a)
    ensures At(ResetValidMoves(c), q) == Empty
  {
    ValidMovesSpec(c, a);
    LegalIsFree(c, q, a);
  }

  lemma ValidMovesDistinct(c: Grid, a: Color)
    ensures Distinct(ValidMoves(c, a))
  {
    ValidMovesSpec(c, a);
    var m := ValidMoves(c, a);
    forall i, j | 0 <= i < j < |m| ensures m[i] != m[j] {
      assert Index(m[i]) < Index(m[j]);
    }
  }

  /** A square is reported for the board exactly when it is a legal move on
      the board with its markers kept. */
  lemma ValidMovesMember(b: Grid, a: Color, q: Cell)
    ensures q in ValidMoves(ResetValidMoves(b), a) <==> IsValidMove(b, q, a)
  {
    ValidMovesIgnoreMarkers(b, a);
    ValidMovesSpec(b, a);
  }

  /** The legal moves on a marker-free board are distinct EMPTY squares. */
  lemma ValidMovesAreEmpty(c: Grid, a: Color)
    requires NoMarkers(c)
    ensures Distinct(ValidMoves(c, a))
    ensures forall q :: q in ValidMoves(c, a) ==> At(c, q) == Empty
  {
    ValidMovesDistinct(c, a);
    ResetIdentity(c);
    forall q | q in ValidMoves(c, a) ensures At(c, q) == Empty {
      ValidMoveIsFree(c, a, q);
    }
  }

  /** After update_valid_moves the VALID squares are exactly the legal moves
      of colour a, and the discs are those of the board before. */
  lemma MarkValidMovesSpec(b: Grid, a: Color)
    ensures forall q: Cell :: At(MarkValidMoves(b, a), q) == Valid <==> IsValidMove(b, q, a)
    ensures ResetValidMoves(MarkValidMoves(b, a)) == ResetValidMoves(b)
  {
    var c := ResetValidMoves(b);
    var moves := ValidMoves(c, a);
    ValidMovesAreEmpty(c, a);
    MarkThenReset(c, moves);
    forall q: Cell ensures At(MarkValidMoves(b, a), q) == Valid <==> IsValidMove(b, q, a) {
      ValidMovesMember(b, a, q);
    }
  }

  /** Marking distinct EMPTY squares VALID keeps both disc tallies and the
      number of free squares. */
  lemma MarkCounts(c: Grid, cells: seq<Cell>)
    requires Distinct(cells)
    requires forall q :: q in cells ==> At(c, q) == Empty
    ensures Count(SetAll(c, cells, Valid), Black) == Count(c, Black)
    ensures Count(SetAll(c, cells, Valid), White) == Count(c, White)
    ensures FreeCells(SetAll(c, cells, Valid)) == FreeCells(c)
  {
    CountSetAll(c, cells, Valid, Empty, Black);
    CountSetAll(c, cells, Valid, Empty, White);
    CountSetAll(c, cells, Valid, Empty, Empty);
    CountSetAll(c, cells, Valid, Empty, Valid);
  }

  /** update_valid_moves keeps both disc tallies and the number of free
      squares. */
  lemma MarkValidMovesCounts(b: Grid, a: Color)
    ensures Count(MarkValidMoves(b, a), Black) == Count(b, Black)
    ensures Count(MarkValidMoves(b, a), White) == Count(b, White)
    ensures FreeCells(MarkValidMoves(b, a)) == FreeCells(b)
  {
    var c := ResetValidMoves(b);
    ValidMovesAreEmpty(c, a);
    ResetCounts(b);
    MarkCounts(c, ValidMoves(c, a));
  }

  /** A move gives the same board, up to the markers, whether or not the
      markers were cleared before it. */
  lemma PlayAtIgnoresMarkers(b: Grid, p: Cell, a: Color)
    ensures ResetValidMoves(PlayAt(ResetValidMoves(b), p, a)) == ResetValidMoves(PlayAt(b, p, a))
  {
    var c := ResetValidMoves(b);
    PlayAtEffect(b, p, a);
    PlayAtEffect(c, p, a);
    DiscsToFlipIgnoresMarkers(b, p, a);
    var x := ResetValidMoves(PlayAt(c, p, a));
    var y := ResetValidMoves(PlayAt(b, p, a));
    forall i | 0 <= i < 64 ensures x[i] == y[i] {
      var q := CellAt(i);
      assert At(x, q) == x[i] && At(y, q) == y[i];
    }
  }

  /** update_valid_moves only looks at the board with its markers cleared. */
  lemma MarkValidMovesIgnoresMarkers(b: Grid, c: Grid, a: Color)
    requires ResetValidMoves(b) == ResetValidMoves(c)
    ensures MarkValidMoves(b, a) == MarkValidMoves(c, a)
  {
  }

  // ---------------------------------------------------------------------
  // The opening

  /** The discs of the opening, which clearing its markers leaves in place:
      White on d4 and e5, Black on e4 and d5. */
  lemma OpeningDiscs(q: Cell)
    ensures At(ResetValidMoves(Initial()), q) == White <==> q == Pos(3, 3) || q == Pos(4, 4)
    ensures At(ResetValidMoves(Initial()), q) == Black <==> q == Pos(3, 4) || q == Pos(4, 3)
  {
  }

  /** On the opening a black disc flanks a run only from one of the four
      marked squares: the run is a single white disc, since no two white
      discs are followed by a third disc in line. */
  lemma OpeningFlanks(q: Cell, d: Dir, k: int)
    requires Flanked(ResetValidMoves(Initial()), Ray(q, d), Black, k)
    ensures q == Pos(2, 3) || q == Pos(3, 2) || q == Pos(4, 5) || q == Pos(5, 4)
  {
    var r := Ray(q, d);
    OpeningDiscs(r[0]);
    OpeningDiscs(r[1]);
    if k >= 2 {
      OpeningDiscs(r[2]);
    }
  }

  /** From each of the four marked squares a black disc flanks the white
      disc next to it. */
  lemma OpeningMarkersFlank(q: Cell)
    requires q == Pos(2, 3) || q == Pos(3, 2) || q == Pos(4, 5) || q == Pos(5, 4)
    ensures Flanks(ResetValidMoves(Initial()), q, Black)
  {
    var d: Dir :=
      if q == Pos(2, 3) then Pos(1, 0)
      else if q == Pos(3, 2) then Pos(0, 1)
      else if q == Pos(4, 5) then Pos(0, -1)
      else Pos(-1, 0);
    var r := Ray(q, d);
    OpeningDiscs(r[0]);
    OpeningDiscs(r[1]);
    assert Flanked(ResetValidMoves(Initial()), r, Black, 1);
    assert d in Directions;
  }

  /** The hint markers Board.__init__ paints are exactly Black's legal
      moves, and Black moves first. */
  lemma OpeningMarkersAreBlackMoves(q: Cell)
    ensures At(Initial(), q) == Valid <==> IsValidMove(Initial(), q, Black)
  {
    IsValidMoveLegal(Initial(), q, Black);
    if At(Initial(), q) == Valid {
      OpeningMarkersFlank(q);
    }
    if IsValidMove(Initial(), q, Black) {
      var d: Dir, k :| d in Directions && Flanked(ResetValidMoves(Initial()), Ray(q, d), Black, k);
      OpeningFlanks(q, d, k);
    }
  }

  /** A board is determined by its markers and by what clearing them
      leaves. */
  lemma MarkersDetermineBoard(x: Grid, y: Grid)
    requires ResetValidMoves(x) == ResetValidMoves(y)
    requires forall q: Cell :: At(x, q) == Valid <==> At(y, q) == Valid
    ensures x == y
  {
    forall i | 0 <= i < 64 ensures x[i] == y[i] {
      var q := CellAt(i);
      assert At(x, q) == x[i] && At(y, q) == y[i];
      assert At(ResetValidMoves(x), q) == At(ResetValidMoves(y), q);
    }
  }

  /** update_valid_moves for Black leaves the opening as it is. */
  lemma OpeningIsMarked()
    ensures MarkValidMoves(Initial(), Black) == Initial()
  {
    MarkValidMovesSpec(Initial(), Black);
    forall q: Cell ensures At(MarkValidMoves(Initial(), Black), q) == Valid <==> At(Initial(), q) == Valid {
      OpeningMarkersAreBlackMoves(q);
    }
    MarkersDetermineBoard(MarkValidMoves(Initial(), Black), Initial());
  }
}
