# Chess game replay, board and engine protocol — a Dafny model

This project models the core of *brilliant*, a desktop chess viewer that loads a
game in PGN, steps through it move by move on an 8×8 board, asks a UCI chess
engine (Stockfish) for the best move and evaluation, and converts a position of
the game to FEN.

The model is split into modules that follow the program's files:

- `Board` (`board.dfy`, from `src/board.rs`): piece kinds, colours and pieces;
  the back rank, pawn rank and empty rank; and the starting grid. Row 0 is
  Black's back rank and row 7 is White's. `Board.New` fills a fresh 8×8 array
  with it.
- `Pgn` (`pgn.dfy`, from `src/pgn.rs`):
  - the square-to-grid coordinate map;
  - the three move kinds the replay applies (normal, with optional promotion;
    castling; en passant), written as functions on grid values;
  - the `ChessGamePlayer` class. It holds the board array, the loaded moves,
    the ply cursor and the headers. Its methods change the array in place.
    They are proved against `Replay`, the starting grid with the first
    `currentMove` moves applied. The class invariant `Valid` says the array
    always shows that grid.
- `Engine` (`engine.dfy`, from `src/engine.rs`):
  - the UCI command strings (`go`, `position fen`, `setoption`);
  - the timeout arithmetic;
  - the scan of the engine's output for the last score and for the best move;
  - the `StockfishEngineInternal` class, reduced to the list of commands
    sent and the buffer of lines received.
- `Fen` (`fen.dfy`, from `src/fen.rs`): the `FenVisitor` class and
  `pgn_to_fen_at_move`. The chess library is a parameter (`Chess<Pos, Mv>`):
  its start position, SAN resolution, move play, FEN printing and FEN
  parsing. The PGN reader's outcome is an input: a game with its headers and
  every SAN the reader reports, variations included, in text order; no game;
  or a read error. `FenAtMove` is the reference
  definition. `ReadGame` drives the visitor as the reader does, and
  `PgnToFenAtMove` is proved equal to `FenAtMove`.
- `Text` (`text.dfy`): the Rust string operations the engine code relies on,
  given their standard-library meaning:
  - `contains`;
  - `split(pat)` taken at index 1;
  - `split_whitespace` over Unicode White_Space;
  - decimal formatting of a number;
  - `parse::<i32>`.
- `Wrappers` (`wrappers.dfy`): `Option` and `Result`.

Where the source panics, the model puts a precondition on the caller:
- a promotion to a pawn or king;
- an en passant move whose captured rank falls off the board;
- a best-move token shorter than four characters;
- the `unwrap` of a timed-out wait in `find_best_move`, which the model
  expresses as a `bestmove` line among the buffered output and the engine's
  reply;
- a target move above `i32::MAX`.

Integer arithmetic follows an unchecked (release) build throughout:
`time_ms + 5000` wraps modulo 2^64 (`Engine.BestMoveTimeout`) and negating
`i32::MIN` gives `i32::MIN` (`Engine.NegateI32`).

The model follows the code, with one exception where the code cannot be
followed literally. `ChessBoard::new(&self)` in `src/board.rs:37-49` builds the
starting grid into a local variable and drops it. `reset` and
`reset_internal` in `src/pgn.rs:53-62` call it as a constructor that returns
a board. The model follows that evident intent: `Board.New` returns the
starting grid. `src/pgn.rs` also reads cells as `grid[row][col].piece`,
while `src/board.rs` stores `Piece`s directly; the model's cells are pieces.

The en passant captured rank is modelled as written
(`src/pgn.rs:152-156`). The formula gives one rank past the destination when
the pawn starts above rank index 3, and one rank short of it otherwise.
`remove_piece` then converts that rank to a row. This is not the square the captured pawn stands on
in chess, which is on the source rank. `Pgn.EnPassantCells` states which
cell ends up cleared. `Pgn.EnPassantFromFifthRank` shows the consequence:
for White capturing from rank index 4 to 5, rank index 6 is cleared and the
passed pawn stays on the board.

The "(none)" branch
of the best-move scan (`src/engine.rs:188-190`) is also modelled as written:
it sets the result to `None`, and the next statement immediately overwrites
it with the sliced move. `Engine.BestMoveLine` states the consequence:
`bestmove (none)` yields `("(n", "on")`.

`FenVisitor` does not override `begin_variation`, so the reader passes it the
SANs inside variations as well, and `san` counts every one that resolves
against the current position (`src/fen.rs:50-62`). `PgnVisitor` in
`src/pgn.rs:251-253` skips variations. For a game with variations, the FEN at
move t can therefore differ from the position `ChessGamePlayer` shows at ply t.
The model takes `sans` as every SAN the reader reports, so the FEN functions
are stated for that sequence.

## Model

| member | source | states |
|---|---|---|
| Board.BackRank | src/board.rs:51-62 | eight pieces of the given colour: rook, knight, bishop, queen, king, then the first three mirrored; the king only on file e |
| Board.PawnRank | src/board.rs:64-66 | eight pawns of the given colour |
| Board.EmptyRank | src/board.rs:68-70 | eight empty cells (no kind, no colour) |
| Board.InitialGrid | src/board.rs:37-49 | an 8×8 grid |
| Board.InitialGridRows | src/board.rs:40-48 | the starting grid's rows are Black back rank, Black pawns, four empty ranks, White pawns, White back rank, in that order |
| Board.InitialGridConsistent | src/board.rs:37-70 | every cell of the starting grid has a piece kind exactly when it has a colour |
| Board.InitialGridMirror | src/board.rs:40-48 | the two sides start as mirror images: same kinds on rows 0/7 and 1/6, Black on rows 0-1, White on rows 6-7 |
| Board.PushRank | src/board.rs:40-48 | writes one rank into one row of the array and leaves every other row unchanged |
| Board.New | src/board.rs:37-49 | a fresh 8×8 array holding exactly the starting grid |
| Pgn.SquareToBoardCoord | src/pgn.rs:202-206 | the point's x is the square's rank index and y its file index, so its grid row is 7 minus the rank |
| Pgn.SquareCellRoundTrip | src/pgn.rs:202-206 | square to point to grid cell and back is the identity in both directions |
| Pgn.CapturedRank | src/pgn.rs:152-156 | the cleared rank is one past or one short of the destination rank, past it exactly when the pawn starts above rank index 3 |
| Pgn.WellFormed | src/pgn.rs:105-160 | a move is applied without panicking iff a promotion names neither pawn nor king and en passant does not clear rank index 8 (from the upper half onto rank 8) or -1 (from the lower half onto rank 1) |
| Pgn.PromotedKind | src/pgn.rs:105-112 | a promotion role maps to a piece kind exactly for knight, bishop, rook and queen (pawn and king panic), and each of those four becomes the same-named kind |
| Pgn.SetCell | src/pgn.rs:171-186 | replaces exactly one cell of the grid |
| Pgn.MovedGrid | src/pgn.rs:164-173 | the destination cell gets the source cell's piece, the source cell becomes empty, every other cell is unchanged |
| Pgn.PromotedGrid | src/pgn.rs:175-180 | the given cell holds a piece of the given kind and colour, every other cell is unchanged |
| Pgn.RemovedGrid | src/pgn.rs:182-187 | the cell at (file, rank) is emptied (row 7 minus rank), every other cell is unchanged |
| Pgn.ApplyMove | src/pgn.rs:95-162 | applying a well-formed move keeps an 8×8 grid |
| Pgn.Replay | src/pgn.rs:86-90 | replaying a move list keeps an 8×8 grid |
| Pgn.NormalMoveCells | src/pgn.rs:97-116 | a normal move vacates its source; its destination gets the moved piece, or with a promotion a piece of the promoted kind in the mover's colour; nothing else changes |
| Pgn.CastleKingsideCells | src/pgn.rs:117-131 | kingside castling moves file e to g and h to f on the king's rank, vacating e and h; nothing else changes |
| Pgn.CastleQueensideCells | src/pgn.rs:117-145 | queenside castling moves file e to c and a to d on the king's rank, vacating e and a; nothing else changes |
| Pgn.CastleIgnoresSquares | src/pgn.rs:117-145 | a castling move's effect depends only on the king's rank and on which side of the king the rook stands |
| Pgn.EnPassantCells | src/pgn.rs:146-159 | en passant vacates the source, moves the pawn to the destination and clears the cell on the destination file at the captured rank; nothing else changes |
| Pgn.EnPassantFromFifthRank | src/pgn.rs:152-156 | for a pawn going from rank index 4 to 5, the cleared rank is 6, past the destination, and the passed pawn's cell keeps its content |
| Pgn.ReplayNext | src/pgn.rs:64-74 | replaying one more move equals applying that move to the position reached so far |
| Pgn.ReplayAppend | src/pgn.rs:86-90 | replaying a concatenation equals replaying the first part and then the second |
| Pgn.ApplyMoveConsistent | src/pgn.rs:95-187 | a move keeps every cell's kind and colour in step (kind iff colour), unless it promotes from a colourless cell |
| Pgn.ReplayConsistent | src/pgn.rs:86-90 | replaying moves from a consistent grid keeps it consistent when no move promotes from a colourless cell |
| Pgn.ChessGamePlayer.constructor | src/pgn.rs:17-25 | no moves, no headers, cursor 0, the given board; valid when that board shows the starting grid |
| Pgn.ChessGamePlayer.LoadPgn | src/pgn.rs:27-51 | loads exactly when a game was found, taking its moves and headers and resetting to ply 0 on a fresh starting board; otherwise nothing changes |
| Pgn.ChessGamePlayer.Reset | src/pgn.rs:53-57 | cursor 0, a fresh board showing the starting grid, moves and headers unchanged, invariant restored |
| Pgn.ChessGamePlayer.ResetInternal | src/pgn.rs:59-62 | a fresh board showing the starting grid; cursor, moves and headers unchanged |
| Pgn.ChessGamePlayer.NextMove | src/pgn.rs:64-74 | advances exactly when moves remain; the board then shows the previous position with the next move applied and the cursor moves up by one; otherwise nothing changes |
| Pgn.ChessGamePlayer.PreviousMove | src/pgn.rs:76-93 | steps back exactly when the cursor is above 0; the board is rebuilt to show the replay of the moves before the new cursor; at 0 nothing changes |
| Pgn.ChessGamePlayer.ReplayOnBoard | src/pgn.rs:86-90 | the loop leaves the board showing the starting grid with the first `count` moves applied |
| Pgn.ChessGamePlayer.ApplyMoveToBoard | src/pgn.rs:95-162 | the board afterwards shows `ApplyMove` of the grid it showed before |
| Pgn.ChessGamePlayer.MovePiece | src/pgn.rs:164-173 | source cell emptied, destination gets the old source piece, all other cells unchanged |
| Pgn.ChessGamePlayer.PromotePiece | src/pgn.rs:175-180 | the cell holds the new piece, all other cells unchanged |
| Pgn.ChessGamePlayer.RemovePiece | src/pgn.rs:182-187 | the cell at row 7 minus rank, column file, is emptied; all other cells unchanged |
| Pgn.ChessGamePlayer.GetCurrentMove | src/pgn.rs:189-191 | the current ply never exceeds the number of loaded moves |
| Pgn.ChessGamePlayer.GetTotalMoves | src/pgn.rs:193-195 | the number of loaded moves |
| Pgn.ChessGamePlayer.GetHeaders | src/pgn.rs:197-199 | the loaded headers |
| Pgn.ForwardThenBack | src/pgn.rs:64-93 | stepping forward n times and back n times returns to ply 0 with the starting grid on the board |
| Engine.GoCommand | src/engine.rs:137-145 | the command's words are `go depth d` when a depth is given, else `go movetime t` when a time is given, else `go depth 16` |
| Engine.GoCommandNumber | src/engine.rs:137-145 | the third word is a decimal numeral whose value is the depth, the time, or 16 |
| Engine.BestMoveTimeout | src/engine.rs:149 | the wait is the given time plus 5000 ms, or 35000 ms without one; a time within 5000 ms of 2^64 wraps to a wait under 5000 ms |
| Engine.PositionCommand | src/engine.rs:202-204 | the words are `position fen` followed by the FEN's own words, and the text after the 13-character prefix is the FEN unchanged |
| Engine.OptionCommand | src/engine.rs:206-208 | the words are `setoption name`, the name's words, `value`, the value's words; name and value appear verbatim at their offsets |
| Engine.NegateI32 | src/engine.rs:162 | i32 negation: stays in i32 range, is the arithmetic negation except at i32::MIN, and wraps i32::MIN to itself |
| Engine.LineScore | src/engine.rs:155-181 | a line scores only if it holds `score cp ` or `score mate `; a mate score is ±1000; every score is in i32 range (the value each line scores is stated by `CentipawnLine`, `MateLine` and the lemmas beside them) |
| Engine.CentipawnSideToMove | src/engine.rs:156-163 | for a centipawn line, the score from Black's side is the i32 negation of the score from White's side |
| Engine.MateIgnoresSideToMove | src/engine.rs:166-179 | a mate score does not depend on the side to move |
| Engine.CentipawnLine | src/engine.rs:156-163 | a line whose first `score cp ` is followed by the numeral n and a space scores n on White's move and -n on Black's, for every n in i32 range |
| Engine.NegativeCentipawnLine | src/engine.rs:156-163 | with `-n` there, the score is -n on White's move and its i32 negation on Black's |
| Engine.FiftyCentipawns | src/engine.rs:156-163 | a raw `score cp 50` reads +50 with White to move and -50 with Black to move |
| Engine.UnreadableCentipawnLine | src/engine.rs:156-165 | when the word after the first `score cp ` does not end in a digit, the line scores nothing |
| Engine.MateLine | src/engine.rs:166-179 | a line without `score cp ` whose first `score mate ` is followed by the numeral m scores +1000 when m > 0 and -1000 when m is 0 |
| Engine.NegativeMateLine | src/engine.rs:166-179 | with `-m` there, the line scores -1000 |
| Engine.LastSome | src/engine.rs:152-181 | the last present score is one of the scores |
| Engine.LastScore | src/engine.rs:152-181 | the reference evaluation: the score of the last line that scores (its meaning is stated by `LastScoreIsLast`) |
| Engine.LastSomeIsLast | src/engine.rs:152-181 | the last present score is absent iff all are absent, and otherwise no present score follows it |
| Engine.LastScoreIsLast | src/engine.rs:152-181 | the reported evaluation is absent iff no line scores, and otherwise it is the score of a line after which no line scores |
| Engine.ScanScores | src/engine.rs:152-181 | the loop computes the last score of the output |
| Engine.ScanScoreLine | src/engine.rs:156-180 | one line replaces the running score exactly when it scores |
| Engine.BestMoveOf | src/engine.rs:184-195 | a line gives a move iff it contains `bestmove` and has at least two words; the move is two 2-character halves of the second word's first four characters |
| Engine.EarliestBestMove | src/engine.rs:183-197 | the reference best move: that of the earliest line that gives one (its meaning is stated by `EarliestBestMoveNone` and `EarliestBestMoveIsFirst`) |
| Engine.EarliestBestMoveNone | src/engine.rs:183-197 | no best move is reported iff no line gives one |
| Engine.EarliestBestMoveIsFirst | src/engine.rs:183-197 | a reported best move is the move of some output line before which no line gives one, so the reverse scan leaves the earliest |
| Engine.BestMoveLine | src/engine.rs:187-194 | `bestmove w` gives the first two and next two characters of `w`, including when `w` is `(none)` |
| Engine.ScanBestMove | src/engine.rs:183-197 | the reverse loop computes the best move of the earliest line that gives one |
| Engine.AnyLineContains | src/engine.rs:108-122 | true iff some buffered line contains the response |
| Engine.StockfishEngineInternal.constructor | src/engine.rs:60-69 | nothing sent, nothing buffered |
| Engine.StockfishEngineInternal.ReceiveLine | src/engine.rs:39-50 | the reader appends one engine line to the buffer |
| Engine.StockfishEngineInternal.ReceiveLines | src/engine.rs:39-50 | the reader appends engine lines to the buffer in order |
| Engine.StockfishEngineInternal.SendCommand | src/engine.rs:88-94 | the command is appended to what was sent; the buffer is unchanged |
| Engine.StockfishEngineInternal.GetOutput | src/engine.rs:96-102 | returns the whole buffer and leaves it empty |
| Engine.StockfishEngineInternal.WaitForResponse | src/engine.rs:104-134 | if a buffered line contains the response, returns and drains the buffer; otherwise a timeout error with the buffer unchanged |
| Engine.StockfishEngineInternal.FindBestMove | src/engine.rs:136-200 | sends the `go` command, receives the engine's reply, drains the buffer, and reports the earliest best move and the last score of the lines that were buffered plus the reply |
| Engine.StockfishEngineInternal.SetPosition | src/engine.rs:202-204 | sends the `position fen` command for the FEN |
| Engine.StockfishEngineInternal.SetOption | src/engine.rs:206-208 | sends the `setoption` command for the name and value |
| Engine.WaitTwice | src/engine.rs:104-134 | a second wait sees only the lines received after the first wait drained the buffer |
| Text.FindFrom | src/engine.rs:156-157 | a match lies within the string, at or after the start |
| Text.FindFromIsLeftmost | src/engine.rs:156-157 | the search returns the leftmost occurrence at or after the start, or none when there is none |
| Text.ContainsIffOccurs | src/engine.rs:156 | `contains` holds iff the pattern occurs somewhere |
| Text.SecondPiece | src/engine.rs:157-158 | splitting at the pattern has a second piece iff the string contains the pattern |
| Text.SecondPieceHasNoPattern | src/engine.rs:157-158 | the second piece of a split does not contain the pattern |
| Text.SecondPieceFollowsFirst | src/engine.rs:157-158 | the second piece starts right after the first occurrence of the pattern and ends at the end of the string or at the next occurrence |
| Text.SecondPieceStartsWith | src/engine.rs:157-159 | when the first occurrence is followed by a word and a space that cannot begin the pattern, the second piece begins with that word and space |
| Text.Tokens | src/engine.rs:159 | whitespace splitting yields non-empty words without whitespace |
| Text.TokensSeparated | src/engine.rs:159 | splitting at a whitespace character splits the words of both sides independently |
| Text.TokensOfThreeWords | src/engine.rs:137-145 | three words joined by spaces split back into those three words |
| Text.NatToString | src/engine.rs:140-142 | a number's decimal form is a non-empty digit string without a leading zero |
| Text.NatToStringValue | src/engine.rs:140-142 | reading the decimal form back gives the number |
| Text.ParseI32 | src/engine.rs:161 | a parsed i32 is in range and negative only when written with a minus sign |
| Text.ParseI32RejectsNonDigitEnd | src/engine.rs:161 | a string whose last character is not a digit does not parse |
| Text.ParseI32OfDecimal | src/engine.rs:161 | parsing the decimal form of a number in i32 range, with or without a minus sign, gives it back |
| Fen.HeaderPosition | src/fen.rs:38-48 | the reference starting position after the headers (its meaning is stated by `HeaderPositionDefault` and `HeaderPositionLast`) |
| Fen.HeaderPositionDefault | src/fen.rs:38-48 | with no header that sets a valid FEN, the position stays the start position |
| Fen.HeaderPositionLast | src/fen.rs:38-48 | the position is the one parsed from the last header that sets a valid FEN |
| Fen.Run | src/fen.rs:50-62 | the move count never exceeds the number of SAN tokens |
| Fen.Snapshot | src/fen.rs:56-60 | a FEN is captured only for a target in 1..count |
| Fen.RunMonotone | src/fen.rs:50-53 | the count of resolved moves never decreases as more SANs are read |
| Fen.SnapshotOutOfRange | src/fen.rs:56-60 | with no target in 1..count, no FEN is captured during the moves |
| Fen.SnapshotAtTarget | src/fen.rs:52-60 | a target in 1..count is reached by a SAN raising the count from target minus 1 to target, and the captured FEN is that of the position right after it |
| Fen.TargetStepUnique | src/fen.rs:52-60 | at most one SAN raises the count from target minus 1 to target |
| Fen.GameFen | src/fen.rs:29-70 | the reference result of one game: the snapshot at the target if taken, else the final position's FEN (its meaning is stated by `FinalPositionFallback` and `TargetPositionCaptured`) |
| Fen.FenAtMove | src/fen.rs:73-84 | no FEN iff the read failed; with no game, the FEN of the start position |
| Fen.FinalPositionFallback | src/fen.rs:64-70 | when the target is never reached, the result is the FEN of the final position |
| Fen.TargetPositionCaptured | src/fen.rs:50-62 | when the target is reached, the result is the FEN of the position right after the move that reached it |
| Fen.AllResolvedCount | src/fen.rs:50-53 | when every SAN resolves, the move count is the number of SANs |
| Fen.AllResolvedSnapshot | src/fen.rs:50-62 | when every SAN resolves, target t captures the position after the first t SANs |
| Fen.AllResolvedTarget | src/fen.rs:73-84 | when every SAN resolves and 1 <= t <= their number, the FEN at move t is that of the position after t SANs |
| Fen.FenVisitor.New | src/fen.rs:13-20 | start position, no FEN, count -1, no target |
| Fen.FenVisitor.WithTargetMove | src/fen.rs:22-26 | as `New`, with the given target |
| Fen.FenVisitor.BeginGame | src/fen.rs:32-36 | start position, no FEN, count 0, target unchanged |
| Fen.FenVisitor.Header | src/fen.rs:38-48 | a `FEN` header with a parseable value replaces the position; nothing else changes |
| Fen.FenVisitor.San | src/fen.rs:50-62 | an unresolvable SAN changes nothing; a resolvable one plays the move, increments the count and captures the FEN when the count hits the target |
| Fen.FenVisitor.EndGame | src/fen.rs:64-70 | keeps a captured FEN or else captures the current position's, and returns it |
| Fen.ReadGame | src/fen.rs:29-70 | driving the visitor over a game's headers and SANs yields `GameFen` of them |
| Fen.PgnToFenAtMove | src/fen.rs:73-84 | equals the reference `FenAtMove` for the read outcome and target |

## Left out

- `src/graphics.rs` and `src/main.rs` (drawing, input, the event loop) are not part of this model.
- Engine process start-up (`StockfishEngineInternal::new`, `src/engine.rs:24-86`), the reader thread, the mutexes, `Drop`, the `StockfishEngine` lock wrapper and the unused `cancel_search`/`current_*` fields: processes and threads are outside a sequential model. Engine output is modelled as lines appended with `ReceiveLine`/`ReceiveLines`; `FindBestMove` takes the engine's reply to `go` as a parameter.
- Engine.StockfishEngineInternal.WaitForResponse: the 10 ms polling loop and the clock are not modelled. Only lines already buffered when the call starts are seen, so the call reports a timeout exactly when none of them matches.
- Engine.StockfishEngineInternal.SendCommand: write and flush errors on the engine's stdin are not modelled. Sending always succeeds, so `SetPosition` and `SetOption` have no error result.
- `println!`/`eprintln!` diagnostics in `src/pgn.rs` and `src/fen.rs` and the engine's output echo are I/O and are left out.
- The chess library (`shakmaty`): position play, SAN resolution, FEN parsing and printing are parameters of `Fen` (`Chess<Pos, Mv>`). UTF-8 decoding of a header value is folded into the FEN-parsing parameter.
- The PGN reader (`pgn_reader`) and the `PgnVisitor` of `src/pgn.rs:208-258` are inputs. Its outcome is the `PgnRead` value: a game with its moves and headers, no game, or an error. The position that `ChessGamePlayer` plays alongside its grid is not modelled; only the display grid is.
- `Move::Put` and the other move kinds that `apply_move_to_board` rejects with a panic (`src/pgn.rs:160`) are not in the `Move` datatype.
- `grid_size` of `ChessBoard` plays no part in the board's contents and is left out.
- Engine.LineScore: evaluations are `f32` in the source and integers here, so the rounding of integers above 2^24 to `f32` is not modelled.
- Engine.NegateI32 and Engine.BestMoveTimeout: arithmetic wraps as in a release build; the overflow panics of a debug build are not modelled.
- Engine.BestMoveOf: the source slices the token by bytes and panics off a character boundary; the model slices characters and requires at least four.
- Fen.FenVisitor.San: `move_count` is an unbounded integer; the `i32` wrap after 2^31 − 1 resolved moves is not modelled.
- Fen.FenVisitor.WithTargetMove: the `try_into().unwrap()` panic for a target above `i32::MAX` is a precondition.
