/** The 8x8 Othello board of src/board.py: its square kinds, coordinates,
    and the opening position with its four legal-move hint markers. */
module Board {

  /** SquareType: an empty square, a disc of either colour, or a VALID
      marker, the hint the engine paints on the squares the side to move
      may play. */
  datatype Square = Empty | Black | White | Valid

  /** The two squares a player's disc can have. */
  type Color = s: Square | s == Black || s == White witness Black

  function Other(c: Color): (o: Color)
    ensures o != c
  {
    if c == Black then White else Black
  }

  /** A (row, col) pair; rows run top to bottom and columns left to right. */
  datatype Pos = Pos(row: int, col: int)

  predicate InBounds(p: Pos) {
    0 <= p.row < 8 && 0 <= p.col < 8
  }

  /** A square of the board. */
  type Cell = p: Pos | InBounds(p) witness Pos(0, 0)

  /** The board: its 64 squares in row-major order. */
  type Grid = b: seq<Square> | |b| == 64 witness seq(64, _ => Empty)

  /** Row-major position of a cell. */
  function Index(p: Cell): (i: nat)
    ensures i < 64
  {
    p.row * 8 + p.col
  }

  /** The cell at a row-major position. */
  function CellAt(i: nat): (p: Cell)
    requires i < 64
    ensures Index(p) == i
  {
    Pos(i / 8, i % 8)
  }

  lemma IndexInjective(p: Cell, q: Cell)
    ensures Index(p) == Index(q) <==> p == q
  {
  }

  function At(b: Grid, p: Cell): Square {
    b[Index(p)]
  }

  /** The board with one square replaced. */
  function Set(b: Grid, p: Cell, s: Square): (r: Grid)
    ensures At(r, p) == s
    ensures forall q: Cell :: q != p ==> At(r, q) == At(b, q)
  {
    b[Index(p) := s]
  }

  predicate Distinct(s: seq<Cell>) {
    forall i, j :: 0 <= i < j < |s| ==> s[i] != s[j]
  }

  /** Two repetition-free lists with no square in common join into one. */
  lemma DistinctConcat(s: seq<Cell>, t: seq<Cell>)
    requires Distinct(s) && Distinct(t)
    requires forall i, j :: 0 <= i < |s| && 0 <= j < |t| ==> s[i] != t[j]
    ensures Distinct(s + t)
  {
    var r := s + t;
    forall i, j | 0 <= i < j < |r| ensures r[i] != r[j] {
      if j < |s| {
        assert r[i] == s[i] && r[j] == s[j];
      } else if i >= |s| {
        assert r[i] == t[i - |s|] && r[j] == t[j - |s|];
      } else {
        assert r[i] == s[i] && r[j] == t[j - |s|];
      }
    }
  }

  /** The board with each of the given squares replaced, in order. */
  function SetAll(b: Grid, cells: seq<Cell>, s: Square): (r: Grid)
    ensures forall q: Cell :: At(r, q) == if q in cells then s else At(b, q)
    decreases |cells|
  {
    if |cells| == 0 then b else SetAll(Set(b, cells[0], s), cells[1..], s)
  }

  /** Number of squares of kind s. */
  function Count(b: seq<Square>, s: Square): (n: nat)
    ensures n <= |b|
  {
    if |b| == 0 then 0 else (if b[0] == s then 1 else 0) + Count(b[1..], s)
  }

  /** Squares a disc may still be placed on: EMPTY or VALID-marked. */
  function FreeCells(b: seq<Square>): nat {
    Count(b, Empty) + Count(b, Valid)
  }

  /** Every square is one of the four kinds, so the four tallies add up to
      the size of the board. */
  lemma {:induction false} CountTotal(b: seq<Square>)
    ensures Count(b, Empty) + Count(b, Black) + Count(b, White) + Count(b, Valid) == |b|
  {
    if |b| > 0 {
      CountTotal(b[1..]);
    }
  }

  /** Replacing one square moves one unit between the old and new tallies. */
  lemma {:induction false} CountUpdate(b: seq<Square>, i: nat, x: Square, s: Square)
    requires i < |b|
    ensures Count(b[i := x], s) == Count(b, s) - (if b[i] == s then 1 else 0) + (if x == s then 1 else 0)
  {
    if i == 0 {
      assert b[i := x][1..] == b[1..];
    } else {
      CountUpdate(b[1..], i - 1, x, s);
      assert b[i := x][1..] == b[1..][i - 1 := x];
    }
  }

  lemma {:induction false} CountUniform(n: nat, s: Square, t: Square)
    ensures Count(seq(n, _ => s), t) == if s == t then n else 0
  {
    if n > 0 {
      CountUniform(n - 1, s, t);
      assert seq(n, _ => s)[1..] == seq(n - 1, _ => s);
    }
  }

  /** Board.__init__: all squares EMPTY, the four centre discs, and VALID
      markers on Black's four opening moves. */
  function Initial(): (b: Grid)
    ensures At(b, Pos(3, 3)) == White && At(b, Pos(4, 4)) == White
    ensures At(b, Pos(3, 4)) == Black && At(b, Pos(4, 3)) == Black
    ensures At(b, Pos(2, 3)) == Valid && At(b, Pos(3, 2)) == Valid
    ensures At(b, Pos(4, 5)) == Valid && At(b, Pos(5, 4)) == Valid
    ensures forall q: Cell :: q !in OpeningOccupied() ==> At(b, q) == Empty
  {
    var b := seq(64, _ => Empty);
    var b := Set(b, Pos(3, 3), White);
    var b := Set(b, Pos(3, 4), Black);
    var b := Set(b, Pos(4, 3), Black);
    var b := Set(b, Pos(4, 4), White);
    var b := Set(b, Pos(2, 3), Valid);
    var b := Set(b, Pos(3, 2), Valid);
    var b := Set(b, Pos(4, 5), Valid);
    Set(b, Pos(5, 4), Valid)
  }

  /** The eight cells that are not EMPTY in the opening position. */
  function OpeningOccupied(): set<Pos> {
    {Pos(3, 3), Pos(3, 4), Pos(4, 3), Pos(4, 4), Pos(2, 3), Pos(3, 2), Pos(4, 5), Pos(5, 4)}
  }

  /** Board.__init__ as the eight assignments it makes to an all-EMPTY board. */
  lemma InitialAssignments()
    ensures Initial() == seq(64, _ => Empty)[27 := White][28 := Black][35 := Black][36 := White]
                                            [19 := Valid][26 := Valid][37 := Valid][44 := Valid]
  {
  }

  /** The four centre discs: four EMPTY squares become two discs of each
      colour. */
  lemma DiscStepsCount(s: Square)
    ensures var b0: seq<Square> := seq(64, _ => Empty);
      Count(b0[27 := White][28 := Black][35 := Black][36 := White], s) == Count(b0, s)
        - 4 * (if s == Empty then 1 else 0) + 2 * (if s == White then 1 else 0) + 2 * (if s == Black then 1 else 0)
  {
    var b0: seq<Square> := seq(64, _ => Empty);
    var b1 := b0[27 := White];
    CountUpdate(b0, 27, White, s);
    var b2 := b1[28 := Black];
    CountUpdate(b1, 28, Black, s);
    var b3 := b2[35 := Black];
    CountUpdate(b2, 35, Black, s);
    CountUpdate(b3, 36, White, s);
  }

  /** The four markers: four EMPTY squares of the board with the centre
      discs become VALID. */
  lemma MarkerStepsCount(s: Square)
    ensures var b4: seq<Square> := seq(64, _ => Empty)[27 := White][28 := Black][35 := Black][36 := White];
      Count(b4[19 := Valid][26 := Valid][37 := Valid][44 := Valid], s) == Count(b4, s)
        - 4 * (if s == Empty then 1 else 0) + 4 * (if s == Valid then 1 else 0)
  {
    var b4: seq<Square> := seq(64, _ => Empty)[27 := White][28 := Black][35 := Black][36 := White];
    assert b4[19] == Empty && b4[26] == Empty && b4[37] == Empty && b4[44] == Empty;
    var b5 := b4[19 := Valid];
    CountUpdate(b4, 19, Valid, s);
    var b6 := b5[26 := Valid];
    CountUpdate(b5, 26, Valid, s);
    var b7 := b6[37 := Valid];
    CountUpdate(b6, 37, Valid, s);
    CountUpdate(b7, 44, Valid, s);
  }

  /** The tally of one kind in the opening, step by step from the all-EMPTY
      board: four EMPTY squares become discs and four become markers. */
  lemma InitialCountSteps(s: Square)
    ensures Count(Initial(), s) == Count(seq(64, _ => Empty), s)
        - 8 * (if s == Empty then 1 else 0)
        + 2 * (if s == White then 1 else 0) + 2 * (if s == Black then 1 else 0) + 4 * (if s == Valid then 1 else 0)
  {
    DiscStepsCount(s);
    MarkerStepsCount(s);
    InitialAssignments();
  }

  /** The opening holds 2 Black and 2 White discs, 4 VALID markers and 56
      EMPTY squares. */
  lemma InitialTally()
    ensures Count(Initial(), Black) == 2 && Count(Initial(), White) == 2
    ensures Count(Initial(), Valid) == 4 && Count(Initial(), Empty) == 56
  {
    CountUniform(64, Empty, Black);
    CountUniform(64, Empty, White);
    CountUniform(64, Empty, Valid);
    CountUniform(64, Empty, Empty);
    InitialCountSteps(Black);
    InitialCountSteps(White);
    InitialCountSteps(Valid);
    InitialCountSteps(Empty);
  }

  /** Setting distinct squares that all hold t to s moves one unit per square
      from the tally of t to the tally of s. */
  lemma {:induction false} CountSetAll(b: Grid, cells: seq<Cell>, s: Square, t: Square, u: Square)
    requires s != t
    requires Distinct(cells)
    requires forall q :: q in cells ==> At(b, q) == t
    ensures Count(SetAll(b, cells, s), u) ==
      Count(b, u) + (if u == s then |cells| else if u == t then -|cells| else 0)
    decreases |cells|
  {
    if |cells| > 0 {
      var c := Set(b, cells[0], s);
      CountUpdate(b, Index(cells[0]), s, u);
      forall q | q in cells[1..] ensures At(c, q) == t {
        var j :| 1 <= j < |cells| && cells[j] == q;
        assert cells[0] != cells[j];
      }
      CountSetAll(c, cells[1..], s, t, u);
    }
  }

  /** A kind has tally zero exactly when no square holds it. */
  lemma {:induction false} CountZero(b: seq<Square>, s: Square)
    ensures Count(b, s) == 0 <==> forall i :: 0 <= i < |b| ==> b[i] != s
  {
    if |b| > 0 {
      CountZero(b[1..], s);
      if Count(b, s) == 0 {
        forall i | 0 <= i < |b| ensures b[i] != s {
          if i > 0 {
            assert b[i] == b[1..][i - 1];
          }
        }
      }
    }
  }

  /** The same on the board: no square of the grid holds kind s. */
  lemma CountZeroCells(b: Grid, s: Square)
    ensures Count(b, s) == 0 <==> forall q: Cell :: At(b, q) != s
  {
    CountZero(b, s);
    if forall q: Cell :: At(b, q) != s {
      forall i | 0 <= i < 64 ensures b[i] != s {
        assert At(b, CellAt(i)) == b[i];
      }
    }
  }
}
