/**
 The display grid of the replay program: piece values and the fixed 8×8
 starting layout. Row 0 is Black's back rank (rank 8) and row 7 is White's
 back rank (rank 1).
 */
module Board {

  datatype PieceType = None | King | Queen | Rook | Bishop | Knight | Pawn

  datatype Colour = None | White | Black

  /** The content of one cell of the grid. */
  datatype Piece = Piece(pieceType: PieceType, colour: Colour)

  /** `Piece::new(PieceType::None, Colour::None)`, the content of a vacant cell. */
  const Empty: Piece := Piece(PieceType.None, Colour.None)

  /** A cell value has a kind exactly when it has a colour. */
  predicate Consistent(p: Piece) {
    p.pieceType == PieceType.None <==> p.colour == Colour.None
  }

  type Rank = seq<Piece>

  /** The grid as a value: rows, each a sequence of cells. */
  type Grid = seq<Rank>

  /** The fixed shape of the grid: 8 rows of 8 cells. */
  predicate IsGrid(g: Grid) {
    |g| == 8 && forall r :: 0 <= r < 8 ==> |g[r]| == 8
  }

  /** Every cell of the grid is `Consistent`. */
  predicate AllConsistent(g: Grid)
    requires IsGrid(g)
  {
    forall r, c :: 0 <= r < 8 && 0 <= c < 8 ==> Consistent(g[r][c])
  }

  /** `get_back_rank`: rook, knight, bishop, queen, king, bishop, knight, rook, all of `colour`. */
  function BackRank(colour: Colour): (rank: Rank)
    ensures |rank| == 8
    ensures forall c :: 0 <= c < 8 ==> rank[c].colour == colour
    ensures rank[0].pieceType == Rook && rank[1].pieceType == Knight && rank[2].pieceType == Bishop
    ensures rank[3].pieceType == Queen && rank[4].pieceType == King
    ensures forall c :: 0 <= c < 8 && c != 3 && c != 4 ==> rank[c].pieceType == rank[7 - c].pieceType
    ensures forall c :: 0 <= c < 8 ==> (rank[c].pieceType == King <==> c == 4)
  {
    [ Piece(Rook, colour), Piece(Knight, colour), Piece(Bishop, colour), Piece(Queen, colour),
      Piece(King, colour), Piece(Bishop, colour), Piece(Knight, colour), Piece(Rook, colour) ]
  }

  /** `get_pawn_rank`: eight pawns of `colour`. */
  function PawnRank(colour: Colour): (rank: Rank)
    ensures |rank| == 8
    ensures forall c :: 0 <= c < 8 ==> rank[c] == Piece(Pawn, colour)
  {
    seq(8, _ => Piece(Pawn, colour))
  }

  /** `get_empty_rank`: eight vacant cells. */
  function EmptyRank(): (rank: Rank)
    ensures |rank| == 8
    ensures forall c :: 0 <= c < 8 ==> rank[c] == Empty
  {
    seq(8, _ => Empty)
  }

  /** The starting grid that `ChessBoard::new` assembles, row by row from Black's side. */
  function InitialGrid(): (g: Grid)
    ensures IsGrid(g)
  {
    [ BackRank(Colour.Black), PawnRank(Colour.Black),
      EmptyRank(), EmptyRank(), EmptyRank(), EmptyRank(),
      PawnRank(Colour.White), BackRank(Colour.White) ]
  }

  /** The rows of the starting grid, in order. */
  lemma InitialGridRows()
    ensures var g := InitialGrid();
      && g[0] == BackRank(Colour.Black) && g[1] == PawnRank(Colour.Black)
      && (forall r :: 2 <= r < 6 ==> g[r] == EmptyRank())
      && g[6] == PawnRank(Colour.White) && g[7] == BackRank(Colour.White)
  {
  }

  /** Every cell of the starting grid has a kind exactly when it has a colour. */
  lemma InitialGridConsistent()
    ensures AllConsistent(InitialGrid())
  {
    var g := InitialGrid();
    forall r, c | 0 <= r < 8 && 0 <= c < 8 ensures Consistent(g[r][c]) {
      if r == 0 || r == 7 {
        assert g[r] == BackRank(if r == 0 then Colour.Black else Colour.White);
      }
    }
  }

  /** The two sides start as mirror images: the same kinds on ranks 1 and 8 and on ranks 2 and 7, Black on rows 0 and 1, White on rows 6 and 7. */
  lemma InitialGridMirror()
    ensures var g := InitialGrid();
      forall c :: 0 <= c < 8 ==>
        && g[0][c].pieceType == g[7][c].pieceType && g[1][c].pieceType == g[6][c].pieceType
        && g[0][c].colour == Colour.Black && g[1][c].colour == Colour.Black
        && g[6][c].colour == Colour.White && g[7][c].colour == Colour.White
  {
  }

  /** The array `a` holds the grid value `g`, cell for cell. */
  ghost predicate Shows(a: array2<Piece>, g: Grid)
    reads a
  {
    a.Length0 == 8 && a.Length1 == 8 && IsGrid(g)
    && forall r, c :: 0 <= r < 8 && 0 <= c < 8 ==> a[r, c] == g[r][c]
  }

  /** Writes `rank` into row `r` of `grid`, the in-place counterpart of `grid.push(rank)`. */
  method PushRank(grid: array2<Piece>, r: nat, rank: Rank)
    requires grid.Length0 == 8 && grid.Length1 == 8 && r < 8 && |rank| == 8
    modifies grid
    ensures forall c :: 0 <= c < 8 ==> grid[r, c] == rank[c]
    ensures forall i, c :: 0 <= i < 8 && i != r && 0 <= c < 8 ==> grid[i, c] == old(grid[i, c])
  {
    for c := 0 to 8
      invariant forall j :: 0 <= j < c ==> grid[r, j] == rank[j]
      invariant forall i, j :: 0 <= i < 8 && 0 <= j < 8 && (i != r || j >= c) ==> grid[i, j] == old(grid[i, j])
    {
      grid[r, c] := rank[c];
    }
  }

  /** `ChessBoard::new`: a fresh grid holding the starting position, built one rank at a time. */
  method New() returns (grid: array2<Piece>)
    ensures fresh(grid)
    ensures Shows(grid, InitialGrid())
  {
    var g := InitialGrid();
    grid := new Piece[8, 8]((_, _) => Empty);
    PushRank(grid, 0, BackRank(Colour.Black));
    PushRank(grid, 1, PawnRank(Colour.Black));
    for i := 0 to 4
      invariant forall r, c :: 0 <= r < 2 + i && 0 <= c < 8 ==> grid[r, c] == g[r][c]
    {
      PushRank(grid, 2 + i, EmptyRank());
    }
    PushRank(grid, 6, PawnRank(Colour.White));
    PushRank(grid, 7, BackRank(Colour.White));
  }
}
