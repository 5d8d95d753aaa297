/**
 The move replay state machine: a loaded game's move list, a ply cursor, and
 the display grid kept equal to the starting grid with the moves before the
 cursor applied. The chess library's own position, which the source plays
 alongside the grid, is not part of this model.
 */
module Pgn {
  import opened Wrappers
  import Board

  type Coord = i: int | 0 <= i < 8

  /** A square as the chess library reports it: file a..h as 0..7, rank 1..8 as 0..7. */
  datatype Square = Square(file: Coord, rank: Coord)

  /** The piece roles a promotion can name. */
  datatype Role = Pawn | Knight | Bishop | Rook | Queen | King

  datatype Move =
    | Normal(from: Square, to: Square, promotion: Option<Role>)
    | Castle(king: Square, rook: Square)
    | EnPassant(from: Square, to: Square)

  /** `Point2 { x: rank, y: file }`, the coordinate pair the move primitives take. */
  datatype Point = Point(x: Coord, y: Coord)

  /** The grid row a point names: rank 8 is row 0. */
  function RowOf(p: Point): Coord {
    7 - p.x
  }

  /** `square_to_board_coord`: the rank and the file of a square. */
  function SquareToBoardCoord(s: Square): (p: Point)
    ensures RowOf(p) == 7 - s.rank && p.y == s.file
  {
    Point(s.rank, s.file)
  }

  /** The square whose cell is at `row`, `col` of the grid. */
  function SquareAtCell(row: Coord, col: Coord): Square {
    Square(col, 7 - row)
  }

  /** Squares and grid cells correspond one to one. */
  lemma SquareCellRoundTrip(s: Square, row: Coord, col: Coord)
    ensures var p := SquareToBoardCoord(s); SquareAtCell(RowOf(p), p.y) == s
    ensures var p := SquareToBoardCoord(SquareAtCell(row, col)); RowOf(p) == row && p.y == col
  {
  }

  /** The piece kind a promotion role becomes; `None` for the roles that make the source panic. */
  function PromotedKind(role: Role): (kind: Option<Board.PieceType>)
    ensures kind.Some? <==> role != Pawn && role != King
    ensures kind.Some? ==> kind.value in {Board.Queen, Board.Rook, Board.Bishop, Board.Knight}
    ensures role == Queen ==> kind == Some(Board.Queen)
    ensures role == Rook ==> kind == Some(Board.Rook)
    ensures role == Bishop ==> kind == Some(Board.Bishop)
    ensures role == Knight ==> kind == Some(Board.Knight)
  {
    match role
    case Queen => Some(Board.Queen)
    case Rook => Some(Board.Rook)
    case Bishop => Some(Board.Bishop)
    case Knight => Some(Board.Knight)
    case _ => None
  }

  /**
   The rank index of the cell an en passant move clears, as the source computes
   it: one rank beyond the destination when the pawn starts above rank index 3,
   one rank short of it otherwise.
   */
  function CapturedRank(from: Square, to: Square): (rank: int)
    ensures rank == to.rank + 1 || rank == to.rank - 1
    ensures rank > to.rank <==> from.rank > 3
  {
    if from.rank > 3 then to.rank + 1 else to.rank - 1
  }

  /**
   The moves the source applies without panicking: a promotion names a
   knight, bishop, rook or queen, and en passant does not step off the board
   (one rank past rank 8 from the upper half, one rank short of rank 1 from the
   lower half).
   */
  predicate WellFormed(m: Move)
    ensures m.Normal? && m.promotion.Some? ==> (WellFormed(m) <==> m.promotion.value != Pawn && m.promotion.value != King)
    ensures m.EnPassant? ==> (WellFormed(m) <==> !(m.from.rank > 3 && m.to.rank == 7) && !(m.from.rank <= 3 && m.to.rank == 0))
  {
    match m
    case Normal(_, _, promotion) => promotion.Some? ==> PromotedKind(promotion.value).Some?
    case Castle(_, _) => true
    case EnPassant(from, to) => 0 <= CapturedRank(from, to) < 8
  }

  predicate AllWellFormed(moves: seq<Move>) {
    forall i :: 0 <= i < |moves| ==> WellFormed(moves[i])
  }

  // ---------------------------------------------------------------------------
  // The grid primitives, on grid values
  // ---------------------------------------------------------------------------

  /** The grid with one cell replaced. */
  function SetCell(g: Board.Grid, row: Coord, col: Coord, p: Board.Piece): (r: Board.Grid)
    requires Board.IsGrid(g)
    ensures Board.IsGrid(r)
    ensures forall i, j :: 0 <= i < 8 && 0 <= j < 8 ==> r[i][j] == if i == row && j == col then p else g[i][j]
  {
    g[row := g[row][col := p]]
  }

  /** `move_piece`: the destination takes the source's piece, then the source is vacated. */
  function MovedGrid(g: Board.Grid, from: Point, to: Point): (r: Board.Grid)
    requires Board.IsGrid(g)
    ensures Board.IsGrid(r)
    ensures forall i, j :: 0 <= i < 8 && 0 <= j < 8 ==>
      r[i][j] == if i == RowOf(from) && j == from.y then Board.Empty
                 else if i == RowOf(to) && j == to.y then g[RowOf(from)][from.y]
                 else g[i][j]
  {
    SetCell(SetCell(g, RowOf(to), to.y, g[RowOf(from)][from.y]), RowOf(from), from.y, Board.Empty)
  }

  /** `promote_piece`: the cell at `coord` holds a piece of `kind` and `colour`. */
  function PromotedGrid(g: Board.Grid, coord: Point, kind: Board.PieceType, colour: Board.Colour): (r: Board.Grid)
    requires Board.IsGrid(g)
    ensures Board.IsGrid(r)
    ensures forall i, j :: 0 <= i < 8 && 0 <= j < 8 ==>
      r[i][j] == if i == RowOf(coord) && j == coord.y then Board.Piece(kind, colour) else g[i][j]
  {
    SetCell(g, RowOf(coord), coord.y, Board.Piece(kind, colour))
  }

  /** `remove_piece`: the cell at (file, rank) `coord` is vacated. */
  function RemovedGrid(g: Board.Grid, coord: (Coord, Coord)): (r: Board.Grid)
    requires Board.IsGrid(g)
    ensures Board.IsGrid(r)
    ensures forall i, j :: 0 <= i < 8 && 0 <= j < 8 ==>
      r[i][j] == if i == 7 - coord.1 && j == coord.0 then Board.Empty else g[i][j]
  {
    SetCell(g, 7 - coord.1, coord.0, Board.Empty)
  }

  /** `apply_move_to_board`, on grid values. */
  function ApplyMove(g: Board.Grid, m: Move): (r: Board.Grid)
    requires Board.IsGrid(g) && WellFormed(m)
    ensures Board.IsGrid(r)
  {
    match m
    case Normal(from, to, promotion) =>
      var f := SquareToBoardCoord(from);
      var t := SquareToBoardCoord(to);
      var colour := g[RowOf(f)][f.y].colour;
      var moved := MovedGrid(g, f, t);
      if promotion.Some? then PromotedGrid(moved, t, PromotedKind(promotion.value).value, colour) else moved
    case Castle(king, rook) =>
      var rank := king.rank;
      if rook.file > king.file then
        MovedGrid(MovedGrid(g, Point(rank, 4), Point(rank, 6)), Point(rank, 7), Point(rank, 5))
      else
        MovedGrid(MovedGrid(g, Point(rank, 4), Point(rank, 2)), Point(rank, 0), Point(rank, 3))
    case EnPassant(from, to) =>
      var moved := MovedGrid(g, SquareToBoardCoord(from), SquareToBoardCoord(to));
      RemovedGrid(moved, (to.file, CapturedRank(from, to)))
  }

  /** The starting grid `g` with `moves` applied in order. */
  function Replay(g: Board.Grid, moves: seq<Move>): (r: Board.Grid)
    requires Board.IsGrid(g) && AllWellFormed(moves)
    ensures Board.IsGrid(r)
    decreases |moves|
  {
    if moves == [] then g
    else ApplyMove(Replay(g, moves[..|moves| - 1]), moves[|moves| - 1])
  }

  // ---------------------------------------------------------------------------
  // What each kind of move does to the grid
  // ---------------------------------------------------------------------------

  /**
   A normal move between distinct squares vacates the source and gives the
   destination the source's piece, or with a promotion a piece of the promoted
   kind in the colour the source held; no other cell changes.
   */
  lemma NormalMoveCells(g: Board.Grid, from: Square, to: Square, promotion: Option<Role>)
    requires Board.IsGrid(g) && WellFormed(Normal(from, to, promotion)) && from != to
    ensures var r := ApplyMove(g, Normal(from, to, promotion));
      var fr, fc, tr, tc := 7 - from.rank, from.file, 7 - to.rank, to.file;
      && r[fr][fc] == Board.Empty
      && r[tr][tc] == (if promotion.Some? then Board.Piece(PromotedKind(promotion.value).value, g[fr][fc].colour) else g[fr][fc])
      && forall i, j :: 0 <= i < 8 && 0 <= j < 8 && !(i == fr && j == fc) && !(i == tr && j == tc) ==> r[i][j] == g[i][j]
  {
  }

  /**
   Kingside castling (rook file above king file) on the king's rank moves the
   contents of file e to file g and of file h to file f, vacating e and h.
   Nothing else changes; the king's and rook's files play no other part.
   */
  lemma CastleKingsideCells(g: Board.Grid, king: Square, rook: Square)
    requires Board.IsGrid(g) && rook.file > king.file
    ensures var r := ApplyMove(g, Castle(king, rook)); var row := 7 - king.rank;
      && r[row][6] == g[row][4] && r[row][5] == g[row][7]
      && r[row][4] == Board.Empty && r[row][7] == Board.Empty
      && forall i, j :: 0 <= i < 8 && 0 <= j < 8 && !(i == row && 4 <= j) ==> r[i][j] == g[i][j]
  {
  }

  /**
   Queenside castling (rook file not above king file) on the king's rank moves
   the contents of file e to file c and of file a to file d, vacating e and a.
   Nothing else changes.
   */
  lemma CastleQueensideCells(g: Board.Grid, king: Square, rook: Square)
    requires Board.IsGrid(g) && rook.file <= king.file
    ensures var r := ApplyMove(g, Castle(king, rook)); var row := 7 - king.rank;
      && r[row][2] == g[row][4] && r[row][3] == g[row][0]
      && r[row][4] == Board.Empty && r[row][0] == Board.Empty
      && forall i, j :: 0 <= i < 8 && 0 <= j < 8 && !(i == row && j in {0, 2, 3, 4}) ==> r[i][j] == g[i][j]
  {
  }

  /** Castling depends only on the king's rank and on which side the rook stands. */
  lemma CastleIgnoresSquares(g: Board.Grid, k1: Square, r1: Square, k2: Square, r2: Square)
    requires Board.IsGrid(g) && k1.rank == k2.rank && (r1.file > k1.file <==> r2.file > k2.file)
    ensures ApplyMove(g, Castle(k1, r1)) == ApplyMove(g, Castle(k2, r2))
  {
  }

  /**
   En passant moves the pawn from `from` to `to` and vacates the cell on the
   file of `to` and the rank `CapturedRank(from, to)`; no other cell changes.
   */
  lemma EnPassantCells(g: Board.Grid, from: Square, to: Square)
    requires Board.IsGrid(g) && WellFormed(EnPassant(from, to)) && from != to
    ensures var r := ApplyMove(g, EnPassant(from, to));
      var fr, fc, tr, tc, cr := 7 - from.rank, from.file, 7 - to.rank, to.file, 7 - CapturedRank(from, to);
      && r[fr][fc] == Board.Empty
      && r[cr][tc] == Board.Empty
      && r[tr][tc] == g[fr][fc]
      && forall i, j :: 0 <= i < 8 && 0 <= j < 8 && !(i == fr && j == fc) && !(i == tr && j == tc) && !(i == cr && j == tc) ==> r[i][j] == g[i][j]
  {
    assert 7 - CapturedRank(from, to) != 7 - to.rank;
  }

  /**
   For a pawn leaving rank index 4 onto rank index 5 (White's en passant), the
   cleared cell is on rank index 6, past the destination, and the cell beside
   the source on the destination file, where the passed pawn stands, keeps its
   content.
   */
  lemma EnPassantFromFifthRank(g: Board.Grid, from: Square, to: Square)
    requires Board.IsGrid(g) && from.rank == 4 && to.rank == 5 && from.file != to.file
    ensures WellFormed(EnPassant(from, to)) && CapturedRank(from, to) == 6
    ensures ApplyMove(g, EnPassant(from, to))[7 - 4][to.file] == g[7 - 4][to.file]
  {
  }

  // ---------------------------------------------------------------------------
  // Replay
  // ---------------------------------------------------------------------------

  /** Replaying one more move of a list applies that move to the position reached so far. */
  lemma ReplayNext(g: Board.Grid, moves: seq<Move>, k: nat)
    requires Board.IsGrid(g) && k < |moves| && AllWellFormed(moves[..k]) && WellFormed(moves[k])
    ensures AllWellFormed(moves[..k + 1])
    ensures Replay(g, moves[..k + 1]) == ApplyMove(Replay(g, moves[..k]), moves[k])
  {
    assert moves[..k + 1] == moves[..k] + [moves[k]];
    assert moves[..k + 1][..k] == moves[..k];
  }

  /** Replaying two lists one after the other is replaying their concatenation. */
  lemma {:induction false} ReplayAppend(g: Board.Grid, a: seq<Move>, b: seq<Move>)
    requires Board.IsGrid(g) && AllWellFormed(a) && AllWellFormed(b)
    ensures AllWellFormed(a + b)
    ensures Replay(g, a + b) == Replay(Replay(g, a), b)
    decreases |b|
  {
    if b == [] {
      assert a + b == a;
    } else {
      var b' := b[..|b| - 1];
      assert (a + b)[..|a + b| - 1] == a + b';
      assert AllWellFormed(b');
      ReplayAppend(g, a, b');
    }
  }

  /** A promotion whose source cell holds no colour would create a colourless piece. */
  predicate PromotesColouredPiece(g: Board.Grid, m: Move)
    requires Board.IsGrid(g)
  {
    m.Normal? && m.promotion.Some? ==> g[7 - m.from.rank][m.from.file].colour != Board.Colour.None
  }

  /** Applying a move keeps every cell's kind and colour in step, unless it promotes from a colourless cell. */
  lemma ApplyMoveConsistent(g: Board.Grid, m: Move)
    requires Board.IsGrid(g) && WellFormed(m) && Board.AllConsistent(g) && PromotesColouredPiece(g, m)
    ensures Board.AllConsistent(ApplyMove(g, m))
  {
    match m
    case Normal(from, to, promotion) =>
      var f, t := SquareToBoardCoord(from), SquareToBoardCoord(to);
      assert Board.AllConsistent(MovedGrid(g, f, t));
    case Castle(king, rook) =>
      var rank := king.rank;
      if rook.file > king.file {
        assert Board.AllConsistent(MovedGrid(g, Point(rank, 4), Point(rank, 6)));
      } else {
        assert Board.AllConsistent(MovedGrid(g, Point(rank, 4), Point(rank, 2)));
      }
    case EnPassant(from, to) =>
      assert Board.AllConsistent(MovedGrid(g, SquareToBoardCoord(from), SquareToBoardCoord(to)));
  }

  /** A replayed game keeps every cell consistent when none of its promotions starts from a colourless cell. */
  lemma {:induction false} ReplayConsistent(g: Board.Grid, moves: seq<Move>)
    requires Board.IsGrid(g) && AllWellFormed(moves) && Board.AllConsistent(g)
    requires forall k :: 0 <= k < |moves| ==> AllWellFormed(moves[..k]) && PromotesColouredPiece(Replay(g, moves[..k]), moves[k])
    ensures Board.AllConsistent(Replay(g, moves))
    decreases |moves|
  {
    if moves != [] {
      var n := |moves| - 1;
      var front := moves[..n];
      forall k | 0 <= k < |front|
        ensures AllWellFormed(front[..k]) && PromotesColouredPiece(Replay(g, front[..k]), front[k])
      {
        assert front[..k] == moves[..k];
      }
      ReplayConsistent(g, front);
      ApplyMoveConsistent(Replay(g, front), moves[n]);
    }
  }

  // ---------------------------------------------------------------------------
  // The player
  // ---------------------------------------------------------------------------

  /** What reading a game with the PGN reader produced. */
  datatype PgnRead =
    | GameFound(moves: seq<Move>, headers: seq<(string, string)>)
    | NoGame
    | ReadError(message: string)

  /** `ChessGamePlayer`: a game's moves, a ply cursor and the grid at that ply. */
  class ChessGamePlayer {
    var board: array2<Board.Piece>
    var moves: seq<Move>
    var currentMove: nat
    var headers: seq<(string, string)>

    /** The grid the cursor stands for: the starting grid with the first `currentMove` moves applied. */
    ghost function Position(): Board.Grid
      reads this
      requires currentMove <= |moves| && AllWellFormed(moves[..currentMove])
    {
      Replay(Board.InitialGrid(), moves[..currentMove])
    }

    ghost predicate Valid()
      reads this, board
    {
      && currentMove <= |moves|
      && AllWellFormed(moves[..currentMove])
      && Board.Shows(board, Position())
    }

    /** `ChessGamePlayer::new`: no moves, ply 0, showing the given board. */
    constructor (board: array2<Board.Piece>)
      ensures this.board == board && moves == [] && currentMove == 0 && headers == []
      ensures Board.Shows(board, Board.InitialGrid()) ==> Valid()
    {
      this.board := board;
      moves := [];
      currentMove := 0;
      headers := [];
    }

    /** `load_pgn`: on a game read, keep its moves and headers and reset; otherwise change nothing. */
    method LoadPgn(read: PgnRead) returns (loaded: bool)
      modifies this
      ensures loaded <==> read.GameFound?
      ensures loaded ==> moves == read.moves && headers == read.headers && currentMove == 0 && fresh(board) && Valid()
      ensures !loaded ==> moves == old(moves) && headers == old(headers) && currentMove == old(currentMove) && board == old(board)
    {
      match read
      case GameFound(readMoves, readHeaders) =>
        moves := readMoves;
        headers := readHeaders;
        Reset();
        loaded := true;
      case NoGame =>
        loaded := false;
      case ReadError(_) =>
        loaded := false;
    }

    /** `reset`: back to ply 0 on a fresh starting grid. */
    method Reset()
      modifies this
      ensures Valid() && currentMove == 0 && fresh(board)
      ensures moves == old(moves) && headers == old(headers)
    {
      currentMove := 0;
      board := Board.New();
      assert moves[..0] == [];
    }

    /** `reset_internal`: a fresh starting grid; the cursor stays where it is. */
    method ResetInternal()
      modifies this
      ensures Board.Shows(board, Board.InitialGrid()) && fresh(board)
      ensures currentMove == old(currentMove) && moves == old(moves) && headers == old(headers)
    {
      board := Board.New();
    }

    /** `next_move`: at the end, report false and change nothing; otherwise apply the next move and advance. */
    method NextMove() returns (advanced: bool)
      requires Valid()
      requires currentMove < |moves| ==> WellFormed(moves[currentMove])
      modifies this, board
      ensures Valid() && board == old(board) && moves == old(moves) && headers == old(headers)
      ensures advanced <==> old(currentMove) < |moves|
      ensures !advanced ==> currentMove == old(currentMove) && unchanged(board)
      ensures advanced ==> currentMove == old(currentMove) + 1
      ensures advanced ==> Position() == ApplyMove(old(Position()), moves[old(currentMove)])
    {
      if currentMove >= |moves| {
        return false;
      }
      ghost var before := Position();
      var mv := moves[currentMove];
      ApplyMoveToBoard(mv, before);
      ReplayNext(Board.InitialGrid(), moves, currentMove);
      currentMove := currentMove + 1;
      advanced := true;
    }

    /** `previous_move`: at ply 0, report false and change nothing; otherwise step back and rebuild the grid from the start. */
    method PreviousMove() returns (retreated: bool)
      requires Valid()
      modifies this
      ensures Valid() && moves == old(moves) && headers == old(headers)
      ensures retreated <==> old(currentMove) > 0
      ensures !retreated ==> currentMove == old(currentMove) && board == old(board)
      ensures retreated ==> currentMove == old(currentMove) - 1 && fresh(board)
    {
      if currentMove == 0 {
        return false;
      }
      currentMove := currentMove - 1;
      ResetInternal();
      ReplayOnBoard(currentMove);
      retreated := true;
    }

    /** The loop of `previous_move`: apply the first `count` moves, in order, to the board. */
    method ReplayOnBoard(count: nat)
      requires count <= |moves| && AllWellFormed(moves[..count])
      requires Board.Shows(board, Board.InitialGrid())
      modifies board
      ensures Board.Shows(board, Replay(Board.InitialGrid(), moves[..count]))
    {
      ghost var g0 := Board.InitialGrid();
      ghost var played := moves[..count];
      assert played[..0] == [];
      for i := 0 to count
        invariant Board.Shows(board, Replay(g0, played[..i]))
      {
        assert played[..i + 1][..i] == played[..i] && played[i] == moves[i];
        ReplayNext(g0, played, i);
        ApplyMoveToBoard(moves[i], Replay(g0, played[..i]));
      }
      assert played[..count] == played;
    }

    /** `apply_move_to_board`: the array comes to hold `ApplyMove` of the grid it held. */
    method ApplyMoveToBoard(mv: Move, ghost g: Board.Grid)
      requires Board.Shows(board, g) && WellFormed(mv)
      modifies board
      ensures Board.Shows(board, ApplyMove(g, mv))
    {
      match mv
      case Normal(from, to, promotion) =>
        var fromCoord := SquareToBoardCoord(from);
        var toCoord := SquareToBoardCoord(to);
        var pieceColour := board[7 - fromCoord.x, fromCoord.y].colour;
        MovePiece(fromCoord, toCoord, g);
        if promotion.Some? {
          var pieceType := PromotedKind(promotion.value).value;
          PromotePiece(toCoord, pieceType, pieceColour, MovedGrid(g, fromCoord, toCoord));
        }
      case Castle(king, rook) =>
        var rank := king.rank;
        if rook.file > king.file {
          MovePiece(Point(rank, 4), Point(rank, 6), g);
          MovePiece(Point(rank, 7), Point(rank, 5), MovedGrid(g, Point(rank, 4), Point(rank, 6)));
        } else {
          MovePiece(Point(rank, 4), Point(rank, 2), g);
          MovePiece(Point(rank, 0), Point(rank, 3), MovedGrid(g, Point(rank, 4), Point(rank, 2)));
        }
      case EnPassant(from, to) =>
        var fromCoord := SquareToBoardCoord(from);
        var toCoord := SquareToBoardCoord(to);
        MovePiece(fromCoord, toCoord, g);
        var capturedRank := if from.rank > 3 then to.rank + 1 else to.rank - 1;
        RemovePiece((to.file, capturedRank), MovedGrid(g, fromCoord, toCoord));
    }

    /** `move_piece`: copy the source cell to the destination, then vacate the source. */
    method MovePiece(from: Point, to: Point, ghost g: Board.Grid)
      requires Board.Shows(board, g)
      modifies board
      ensures Board.Shows(board, MovedGrid(g, from, to))
      ensures board[RowOf(from), from.y] == Board.Empty
      ensures RowOf(to) != RowOf(from) || to.y != from.y ==> board[RowOf(to), to.y] == old(board[RowOf(from), from.y])
      ensures forall i, j :: 0 <= i < 8 && 0 <= j < 8 && !(i == RowOf(from) && j == from.y) && !(i == RowOf(to) && j == to.y)
                ==> board[i, j] == old(board[i, j])
    {
      var fromRow, fromCol := 7 - from.x, from.y;
      var toRow, toCol := 7 - to.x, to.y;
      board[toRow, toCol] := board[fromRow, fromCol];
      board[fromRow, fromCol] := Board.Empty;
    }

    /** `promote_piece`: the cell at `coord` holds a `pieceType` piece of `colour`; nothing else changes. */
    method PromotePiece(coord: Point, pieceType: Board.PieceType, colour: Board.Colour, ghost g: Board.Grid)
      requires Board.Shows(board, g)
      modifies board
      ensures Board.Shows(board, PromotedGrid(g, coord, pieceType, colour))
      ensures board[RowOf(coord), coord.y] == Board.Piece(pieceType, colour)
      ensures forall i, j :: 0 <= i < 8 && 0 <= j < 8 && !(i == RowOf(coord) && j == coord.y) ==> board[i, j] == old(board[i, j])
    {
      board[7 - coord.x, coord.y] := Board.Piece(pieceType, colour);
    }

    /** `remove_piece`: the cell at (file, rank) `coord` is vacated; nothing else changes. */
    method RemovePiece(coord: (Coord, Coord), ghost g: Board.Grid)
      requires Board.Shows(board, g)
      modifies board
      ensures Board.Shows(board, RemovedGrid(g, coord))
      ensures board[7 - coord.1, coord.0] == Board.Empty
      ensures forall i, j :: 0 <= i < 8 && 0 <= j < 8 && !(i == 7 - coord.1 && j == coord.0) ==> board[i, j] == old(board[i, j])
    {
      board[7 - coord.1, coord.0] := Board.Empty;
    }

    /** `get_current_move`: the ply cursor, never past the last move. */
    function GetCurrentMove(): (ply: nat)
      reads this, board
      requires Valid()
      ensures ply <= GetTotalMoves()
    {
      currentMove
    }

    /** `get_total_moves`. */
    function GetTotalMoves(): (total: nat)
      reads this
      ensures total == |moves|
    {
      |moves|
    }

    /** `get_headers`. */
    function GetHeaders(): (loaded: seq<(string, string)>)
      reads this
      ensures loaded == headers
    {
      headers
    }
  }

  /** Stepping forward `n` times from ply 0 and then back `n` times leaves the player at ply 0 on the starting grid. */
  method ForwardThenBack(player: ChessGamePlayer, n: nat)
    requires player.Valid() && player.currentMove == 0 && n <= |player.moves| && AllWellFormed(player.moves)
    modifies player, player.board
    ensures player.Valid() && player.currentMove == 0 && player.moves == old(player.moves)
    ensures Board.Shows(player.board, Board.InitialGrid())
  {
    for k := 0 to n
      invariant player.Valid() && player.currentMove == k && player.moves == old(player.moves)
      invariant player.board == old(player.board)
    {
      var advanced := player.NextMove();
    }
    for k := 0 to n
      invariant player.Valid() && player.currentMove == n - k && player.moves == old(player.moves)
    {
      var retreated := player.PreviousMove();
    }
    assert player.moves[..0] == [];
  }
}
