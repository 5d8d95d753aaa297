/**
 The text side of the engine supervisor: the commands it writes to the
 engine's standard input and how it reads the engine's output lines back.
 The process, its pipes and the background reader thread are not modelled;
 the output buffer is a sequence the reader appends to.
 */
module Engine {
  import opened Wrappers
  import opened Text

  type U8 = x: int | 0 <= x < 0x100
  type U64 = x: int | 0 <= x < 0x1_0000_0000_0000_0000

  const ScoreCp: string := "score cp "
  const ScoreMate: string := "score mate "
  const BestMoveToken: string := "bestmove"

  /** The magnitude a mate score is reported as. */
  const MateScore: int := 1000

  /** The search depth when neither a depth nor a move time is given. */
  const DefaultDepth: nat := 16

  /** The wait for `bestmove` when no move time is given, before the margin is added (ms). */
  const DefaultSearchWaitMs: nat := 30000

  /** The margin added to the move time when waiting for `bestmove` (ms). */
  const BestMoveMarginMs: nat := 5000

  // ---------------------------------------------------------------------------
  // Commands
  // ---------------------------------------------------------------------------

  /** The `go` command of `find_best_move`: a given depth wins over a given move time, and depth 16 is the default. */
  function GoCommand(depth: Option<U8>, timeMs: Option<U64>): (cmd: string)
    ensures depth.Some? ==> Tokens(cmd) == ["go", "depth", NatToString(depth.value)]
    ensures depth.None? && timeMs.Some? ==> Tokens(cmd) == ["go", "movetime", NatToString(timeMs.value)]
    ensures depth.None? && timeMs.None? ==> Tokens(cmd) == ["go", "depth", NatToString(DefaultDepth)]
  {
    var keyword := if depth.None? && timeMs.Some? then "movetime" else "depth";
    var number :=
      if depth.Some? then NatToString(depth.value)
      else if timeMs.Some? then NatToString(timeMs.value)
      else NatToString(DefaultDepth);
    TokensOfThreeWords("go", keyword, number);
    "go" + " " + keyword + " " + number
  }

  /** The number in a `go` command is the one asked for, read back in decimal. */
  lemma GoCommandNumber(depth: Option<U8>, timeMs: Option<U64>)
    ensures var ts := Tokens(GoCommand(depth, timeMs));
      |ts| == 3 && AllDigits(ts[2])
      && DigitsValue(ts[2]) == (if depth.Some? then depth.value else if timeMs.Some? then timeMs.value else DefaultDepth)
  {
    if depth.Some? {
      NatToStringValue(depth.value);
    } else if timeMs.Some? {
      NatToStringValue(timeMs.value);
    } else {
      NatToStringValue(DefaultDepth);
    }
  }

  const U64Modulus: int := 0x1_0000_0000_0000_0000

  /**
   How long `find_best_move` waits for `bestmove`: the move time, or 30 s by
   default, plus a 5 s margin, in `u64` arithmetic that wraps as an unchecked
   build does.
   */
  function BestMoveTimeout(timeMs: Option<U64>): (timeout: U64)
    ensures timeMs.None? ==> timeout == 35000
    ensures timeMs.Some? && timeMs.value + 5000 < U64Modulus ==> timeout == timeMs.value + 5000
    ensures timeMs.Some? && timeMs.value + 5000 >= U64Modulus ==> timeout == timeMs.value + 5000 - U64Modulus && timeout < 5000
  {
    ((if timeMs.Some? then timeMs.value else DefaultSearchWaitMs) + BestMoveMarginMs) % U64Modulus
  }

  /** `set_position`'s command: the engine sees `position`, `fen` and then the position's own fields. */
  function PositionCommand(position: string): (cmd: string)
    ensures Tokens(cmd) == ["position", "fen"] + Tokens(position)
    ensures |cmd| == 13 + |position| && cmd[13..] == position
  {
    TokensOfThreeWordsPrefix("position", "fen", position);
    "position" + " " + "fen" + " " + position
  }

  /** `set_option`'s command: `setoption name <name> value <value>`. */
  function OptionCommand(name: string, value: string): (cmd: string)
    ensures Tokens(cmd) == ["setoption", "name"] + Tokens(name) + ["value"] + Tokens(value)
    ensures |cmd| == 15 + |name| + 7 + |value| && cmd[15..15 + |name|] == name && cmd[15 + |name| + 7..] == value
  {
    OptionTokens("setoption", "name", name, "value", value);
    OptionSlices("setoption", "name", name, "value", value);
    "setoption" + " " + ("name" + " " + (name + " " + ("value" + " " + value)))
  }

  /** The token shape of `OptionCommand`, for any keywords. */
  lemma OptionTokens(command: string, nameKey: string, name: string, valueKey: string, value: string)
    requires command != [] && NoWhitespace(command)
    requires nameKey != [] && NoWhitespace(nameKey)
    requires valueKey != [] && NoWhitespace(valueKey)
    ensures Tokens(command + " " + (nameKey + " " + (name + " " + (valueKey + " " + value))))
      == [command, nameKey] + Tokens(name) + [valueKey] + Tokens(value)
  {
    var t := valueKey + " " + value;
    var u := name + " " + t;
    TokensOfSpaced(command, nameKey + " " + u);
    TokensOfSpaced(nameKey, u);
    TokensSeparated(name, ' ', t);
    TokensOfSpaced(valueKey, value);
    RegroupTokens(command, nameKey, Tokens(name), valueKey, Tokens(value));
  }

  /** Where the name and the value sit in an option command, for any keywords. */
  lemma OptionSlices(command: string, nameKey: string, name: string, valueKey: string, value: string)
    ensures var cmd := command + " " + (nameKey + " " + (name + " " + (valueKey + " " + value)));
      var at := |command| + |nameKey| + 2;
      && |cmd| == at + |name| + |valueKey| + 2 + |value|
      && cmd[at..at + |name|] == name
      && cmd[at + |name| + |valueKey| + 2..] == value
  {
    var tail := name + " " + (valueKey + " " + value);
    assert command + " " + (nameKey + " " + tail) == (command + " " + nameKey + " ") + tail;
    assert name + " " + (valueKey + " " + value) == (name + " " + valueKey + " ") + value;
  }

  lemma RegroupTokens(a: string, b: string, x: seq<string>, c: string, y: seq<string>)
    ensures [a] + ([b] + (x + ([c] + y))) == [a, b] + x + [c] + y
  {
  }

  // ---------------------------------------------------------------------------
  // Reading the evaluation
  // ---------------------------------------------------------------------------

  /** `-score` on an `i32`, wrapping at the minimum as an unchecked build does. */
  function NegateI32(v: int): (r: int)
    requires I32Min <= v <= I32Max
    ensures I32Min <= r <= I32Max
    ensures v != I32Min ==> r == -v
    ensures v == I32Min ==> r == I32Min
  {
    if v == I32Min then I32Min else -v
  }

  /** The first item of `split_whitespace`, if any. */
  function FirstToken(s: string): Option<string> {
    var ts := Tokens(s);
    if ts == [] then None else Some(ts[0])
  }

  /**
   What one output line does to the running evaluation: `Some(v)` sets it to
   `v`, `None` leaves it as it was. A `score cp` line gives its centipawns,
   negated when it is not White's move; otherwise a `score mate` line gives
   +1000 for a positive mate count and -1000 for any other.
   */
  function LineScore(line: string, isWhiteMove: bool): (score: Option<int>)
    ensures score.Some? ==> Contains(line, ScoreCp) || Contains(line, ScoreMate)
    ensures score.Some? && !Contains(line, ScoreCp) ==> score.value == MateScore || score.value == -MateScore
    ensures score.Some? ==> I32Min <= score.value <= I32Max
  {
    if Contains(line, ScoreCp) then
      match FirstToken(SecondPiece(line, ScoreCp).value)
      case None => None
      case Some(token) =>
        match ParseI32(token)
        case None => None
        case Some(v) => Some(if isWhiteMove then v else NegateI32(v))
    else if Contains(line, ScoreMate) then
      match FirstToken(SecondPiece(line, ScoreMate).value)
      case None => None
      case Some(token) =>
        match ParseI32(token)
        case None => None
        case Some(moves) => Some(if moves > 0 then MateScore else -MateScore)
    else None
  }

  /** A centipawn score is kept as it stands on White's move and negated on Black's. */
  lemma CentipawnSideToMove(line: string)
    requires Contains(line, ScoreCp)
    ensures LineScore(line, true).Some? <==> LineScore(line, false).Some?
    ensures LineScore(line, true).Some? ==> LineScore(line, false).value == NegateI32(LineScore(line, true).value)
  {
  }

  /** A mate score does not depend on the side to move. */
  lemma MateIgnoresSideToMove(line: string)
    requires !Contains(line, ScoreCp)
    ensures LineScore(line, true) == LineScore(line, false)
  {
  }

  /** The word after `pattern` in a scoring line, when nothing before `pre` begins `pattern` and the word cannot begin it either. */
  lemma ScoreWordAt(pre: string, pattern: string, w: string, rest: string)
    requires pattern == ScoreCp || pattern == ScoreMate
    requires w != [] && NoWhitespace(w) && forall c :: c in w ==> c != 's'
    requires forall k: nat :: k < |pre| ==> !OccursAt(pre + pattern + w + " " + rest, pattern, k)
    ensures var line := pre + pattern + w + " " + rest;
      Contains(line, pattern) && FirstToken(SecondPiece(line, pattern).value) == Some(w)
  {
    var line := pre + pattern + w + " " + rest;
    SecondPieceStartsWith(pre, pattern, w, rest);
    var piece := SecondPiece(line, pattern).value;
    var after := piece[|w| + 1..];
    assert piece == w + " " + after;
    TokensOfSpaced(w, after);
  }

  /** On a `score cp ` line, the score is read from the first word after the first `score cp `. */
  lemma CentipawnWord(line: string, w: string, isWhiteMove: bool)
    requires Contains(line, ScoreCp) && FirstToken(SecondPiece(line, ScoreCp).value) == Some(w)
    ensures ParseI32(w).None? ==> LineScore(line, isWhiteMove) == None
    ensures ParseI32(w).Some? ==> LineScore(line, isWhiteMove) == Some(if isWhiteMove then ParseI32(w).value else NegateI32(ParseI32(w).value))
  {
  }

  /** On a `score mate ` line without `score cp `, the score is read from the first word after the first `score mate `. */
  lemma MateWord(line: string, w: string, isWhiteMove: bool)
    requires !Contains(line, ScoreCp)
    requires Contains(line, ScoreMate) && FirstToken(SecondPiece(line, ScoreMate).value) == Some(w)
    ensures ParseI32(w).None? ==> LineScore(line, isWhiteMove) == None
    ensures ParseI32(w).Some? ==> LineScore(line, isWhiteMove) == Some(if ParseI32(w).value > 0 then MateScore else -MateScore)
  {
  }

  /**
   A `score cp <n>` line scores `n` on White's move and `-n` on Black's,
   whatever precedes and follows, as long as the `score cp ` is the first one.
   */
  lemma CentipawnLine(pre: string, n: nat, rest: string, isWhiteMove: bool)
    requires n <= I32Max
    requires forall k: nat :: k < |pre| ==> !OccursAt(pre + ScoreCp + NatToString(n) + " " + rest, ScoreCp, k)
    ensures LineScore(pre + ScoreCp + NatToString(n) + " " + rest, isWhiteMove) == Some(if isWhiteMove then n as int else -(n as int))
  {
    var w := NatToString(n);
    DigitsAvoid(w, 's');
    ScoreWordAt(pre, ScoreCp, w, rest);
    ParseI32OfDecimal(n);
    CentipawnWord(pre + ScoreCp + w + " " + rest, w, isWhiteMove);
  }

  /** A `score cp -<n>` line scores `-n` on White's move and its `i32` negation on Black's. */
  lemma NegativeCentipawnLine(pre: string, n: nat, rest: string, isWhiteMove: bool)
    requires n <= -I32Min
    requires forall k: nat :: k < |pre| ==> !OccursAt(pre + ScoreCp + ("-" + NatToString(n)) + " " + rest, ScoreCp, k)
    ensures LineScore(pre + ScoreCp + ("-" + NatToString(n)) + " " + rest, isWhiteMove)
      == Some(if isWhiteMove then -(n as int) else NegateI32(-(n as int)))
  {
    var w := "-" + NatToString(n);
    SignedDigitsShape(NatToString(n), 's');
    ScoreWordAt(pre, ScoreCp, w, rest);
    ParseI32OfDecimal(n);
    CentipawnWord(pre + ScoreCp + w + " " + rest, w, isWhiteMove);
  }

  /** The +50 / -50 reading of a raw `score cp 50`. */
  lemma FiftyCentipawns(pre: string, rest: string)
    requires forall k: nat :: k < |pre| ==> !OccursAt(pre + ScoreCp + "50" + " " + rest, ScoreCp, k)
    ensures LineScore(pre + ScoreCp + "50" + " " + rest, true) == Some(50)
    ensures LineScore(pre + ScoreCp + "50" + " " + rest, false) == Some(-50)
  {
    assert NatToString(50) == "50" by {
      assert NatToString(5) == "5";
    }
    CentipawnLine(pre, 50, rest, true);
    CentipawnLine(pre, 50, rest, false);
  }

  /** A `score cp` line whose word there does not end in a digit scores nothing. */
  lemma UnreadableCentipawnLine(pre: string, w: string, rest: string, isWhiteMove: bool)
    requires w != [] && NoWhitespace(w) && (forall c :: c in w ==> c != 's') && !IsDigit(w[|w| - 1])
    requires forall k: nat :: k < |pre| ==> !OccursAt(pre + ScoreCp + w + " " + rest, ScoreCp, k)
    ensures LineScore(pre + ScoreCp + w + " " + rest, isWhiteMove) == None
  {
    ScoreWordAt(pre, ScoreCp, w, rest);
    ParseI32RejectsNonDigitEnd(w);
    CentipawnWord(pre + ScoreCp + w + " " + rest, w, isWhiteMove);
  }

  /** A `score mate <m>` line without `score cp ` scores +1000 for a positive `m` and -1000 for zero, on either side. */
  lemma MateLine(pre: string, m: nat, rest: string, isWhiteMove: bool)
    requires m <= I32Max
    requires !Contains(pre + ScoreMate + NatToString(m) + " " + rest, ScoreCp)
    requires forall k: nat :: k < |pre| ==> !OccursAt(pre + ScoreMate + NatToString(m) + " " + rest, ScoreMate, k)
    ensures LineScore(pre + ScoreMate + NatToString(m) + " " + rest, isWhiteMove) == Some(if m > 0 then MateScore else -MateScore)
  {
    var w := NatToString(m);
    DigitsAvoid(w, 's');
    ScoreWordAt(pre, ScoreMate, w, rest);
    ParseI32OfDecimal(m);
    MateWord(pre + ScoreMate + w + " " + rest, w, isWhiteMove);
  }

  /** A `score mate -<m>` line without `score cp ` scores -1000. */
  lemma NegativeMateLine(pre: string, m: nat, rest: string, isWhiteMove: bool)
    requires m <= -I32Min
    requires !Contains(pre + ScoreMate + ("-" + NatToString(m)) + " " + rest, ScoreCp)
    requires forall k: nat :: k < |pre| ==> !OccursAt(pre + ScoreMate + ("-" + NatToString(m)) + " " + rest, ScoreMate, k)
    ensures LineScore(pre + ScoreMate + ("-" + NatToString(m)) + " " + rest, isWhiteMove) == Some(-MateScore)
  {
    var w := "-" + NatToString(m);
    SignedDigitsShape(NatToString(m), 's');
    ScoreWordAt(pre, ScoreMate, w, rest);
    ParseI32OfDecimal(m);
    MateWord(pre + ScoreMate + w + " " + rest, w, isWhiteMove);
  }

  /** `f` applied to each element, in order. */
  function MapSeq<A, B>(xs: seq<A>, f: A -> B): (ys: seq<B>)
    ensures |ys| == |xs|
    decreases |xs|
  {
    if xs == [] then [] else MapSeq(xs[..|xs| - 1], f) + [f(xs[|xs| - 1])]
  }

  lemma {:induction false} MapSeqIndex<A, B>(xs: seq<A>, f: A -> B, i: nat)
    requires i < |xs|
    ensures MapSeq(xs, f)[i] == f(xs[i])
    decreases |xs|
  {
    var n := |xs| - 1;
    if i < n {
      MapSeqIndex(xs[..n], f, i);
    }
  }

  /** The score each line sets, if any, in order. */
  function LineScores(lines: seq<string>, isWhiteMove: bool): seq<Option<int>> {
    MapSeq(lines, line => LineScore(line, isWhiteMove))
  }

  /** The last `Some` of a sequence of optional scores. */
  function LastSome(scores: seq<Option<int>>): (last: Option<int>)
    ensures last.Some? ==> last in scores
    decreases |scores|
  {
    if scores == [] then None
    else if scores[|scores| - 1].Some? then scores[|scores| - 1]
    else LastSome(scores[..|scores| - 1])
  }

  /** `LastSome` is `None` exactly when every entry is. */
  lemma {:induction false} LastSomeNone(scores: seq<Option<int>>)
    ensures LastSome(scores).None? <==> forall i :: 0 <= i < |scores| ==> scores[i].None?
    decreases |scores|
  {
    if scores != [] {
      var n := |scores| - 1;
      var front := scores[..n];
      LastSomeNone(front);
      assert forall i :: 0 <= i < n ==> scores[i] == front[i];
    }
  }

  /** When `LastSome` is a score, the index of the entry it is, after which every entry is `None`. */
  lemma {:induction false} LastSomeIndex(scores: seq<Option<int>>) returns (i: nat)
    requires LastSome(scores).Some?
    ensures i < |scores| && scores[i] == LastSome(scores)
    ensures forall j :: i < j < |scores| ==> scores[j].None?
    decreases |scores|
  {
    var n := |scores| - 1;
    if scores[n].Some? {
      i := n;
    } else {
      var front := scores[..n];
      assert LastSome(scores) == LastSome(front);
      i := LastSomeIndex(front);
      assert scores[i] == front[i];
    }
  }

  /** `LastSome` is `None` exactly when every entry is, and otherwise an entry after which every entry is `None`. */
  lemma LastSomeIsLast(scores: seq<Option<int>>)
    ensures LastSome(scores).None? <==> forall i :: 0 <= i < |scores| ==> scores[i].None?
    ensures LastSome(scores).Some? ==>
      exists i :: 0 <= i < |scores| && scores[i] == LastSome(scores) && (forall j :: i < j < |scores| ==> scores[j].None?)
  {
    LastSomeNone(scores);
    if LastSome(scores).Some? {
      var i := LastSomeIndex(scores);
    }
  }

  /** The evaluation after scanning `lines` forward: the score of the last line that sets one. */
  function LastScore(lines: seq<string>, isWhiteMove: bool): Option<int> {
    LastSome(LineScores(lines, isWhiteMove))
  }

  /**
   `LastScore` picks the last scoring line: it is `None` exactly when no line
   sets a score, and otherwise the score of a line after which no line sets one.
   */
  lemma LastScoreIsLast(lines: seq<string>, isWhiteMove: bool)
    ensures LastScore(lines, isWhiteMove).None? <==> forall i :: 0 <= i < |lines| ==> LineScore(lines[i], isWhiteMove).None?
    ensures LastScore(lines, isWhiteMove).Some? ==>
      exists i :: 0 <= i < |lines| && LineScore(lines[i], isWhiteMove) == LastScore(lines, isWhiteMove)
        && (forall j :: i < j < |lines| ==> LineScore(lines[j], isWhiteMove).None?)
  {
    var scores := LineScores(lines, isWhiteMove);
    LastSomeIsLast(scores);
    forall i | 0 <= i < |lines| ensures scores[i] == LineScore(lines[i], isWhiteMove) {
      MapSeqIndex(lines, line => LineScore(line, isWhiteMove), i);
    }
  }

  /** The forward loop of `find_best_move` over the output lines, tracking the latest score. */
  method ScanScores(output: seq<string>, isWhiteMove: bool) returns (latestScore: Option<int>)
    ensures latestScore == LastScore(output, isWhiteMove)
  {
    ghost var scores: seq<Option<int>> := [];
    latestScore := None;
    for i := 0 to |output|
      invariant scores == LineScores(output[..i], isWhiteMove)
      invariant latestScore == LastSome(scores)
    {
      ghost var score := LineScore(output[i], isWhiteMove);
      latestScore := ScanScoreLine(output[i], isWhiteMove, latestScore);
      assert output[..i + 1][..i] == output[..i];
      ghost var before := scores;
      scores := before + [score];
      assert scores[..|scores| - 1] == before;
    }
    assert output[..|output|] == output;
  }

  /** The body of the score loop for one line: the line's score if it sets one, else the score so far. */
  method ScanScoreLine(line: string, isWhiteMove: bool, current: Option<int>) returns (latestScore: Option<int>)
    ensures latestScore == if LineScore(line, isWhiteMove).Some? then LineScore(line, isWhiteMove) else current
  {
    latestScore := current;
    if Contains(line, ScoreCp) {
      var part := SecondPiece(line, ScoreCp);
      if part.Some? {
        var scoreParts := Tokens(part.value);
        if scoreParts != [] {
          var score := ParseI32(scoreParts[0]);
          if score.Some? {
            latestScore := if isWhiteMove then Some(score.value) else Some(NegateI32(score.value));
          }
        }
      }
    } else if Contains(line, ScoreMate) {
      var part := SecondPiece(line, ScoreMate);
      if part.Some? {
        var scoreParts := Tokens(part.value);
        if scoreParts != [] {
          var moves := ParseI32(scoreParts[0]);
          if moves.Some? {
            if moves.value > 0 {
              latestScore := Some(MateScore);
            } else {
              latestScore := Some(-MateScore);
            }
          }
        }
      }
    }
  }

  // ---------------------------------------------------------------------------
  // Reading the best move
  // ---------------------------------------------------------------------------

  /** The line can be sliced as the source slices it: a `bestmove` line with a second token has at least 4 characters in it. */
  predicate Sliceable(line: string) {
    Contains(line, BestMoveToken) && |Tokens(line)| >= 2 ==> |Tokens(line)[1]| >= 4
  }

  predicate AllSliceable(lines: seq<string>) {
    forall i :: 0 <= i < |lines| ==> Sliceable(lines[i])
  }

  /** The move one line reports: the first two and the next two characters of the token after `bestmove`. */
  function BestMoveOf(line: string): (best: Option<(string, string)>)
    requires Sliceable(line)
    ensures best.Some? <==> Contains(line, BestMoveToken) && |Tokens(line)| >= 2
    ensures best.Some? ==> |best.value.0| == 2 && |best.value.1| == 2 && best.value.0 + best.value.1 == Tokens(line)[1][..4]
  {
    if Contains(line, BestMoveToken) && |Tokens(line)| >= 2 then
      var token := Tokens(line)[1];
      assert token[..4] == token[0..2] + token[2..4];
      Some((token[0..2], token[2..4]))
    else None
  }

  /** The move the backward scan ends with: that of the earliest line reporting one. */
  function EarliestBestMove(lines: seq<string>): Option<(string, string)>
    requires AllSliceable(lines)
    decreases |lines|
  {
    if lines == [] then None
    else
      var first := BestMoveOf(lines[0]);
      if first.Some? then first else EarliestBestMove(lines[1..])
  }

  /** `EarliestBestMove` is `None` exactly when no line reports a move. */
  lemma {:induction false} EarliestBestMoveNone(lines: seq<string>)
    requires AllSliceable(lines)
    ensures EarliestBestMove(lines).None? <==> forall i :: 0 <= i < |lines| ==> BestMoveOf(lines[i]).None?
    decreases |lines|
  {
    if lines != [] {
      var rest := lines[1..];
      assert AllSliceable(rest);
      assert forall i :: 1 <= i < |lines| ==> lines[i] == rest[i - 1];
      EarliestBestMoveNone(rest);
    }
  }

  /** A move `EarliestBestMove` finds is that of a line before which no line reports one. */
  lemma {:induction false} EarliestBestMoveIsFirst(lines: seq<string>)
    requires AllSliceable(lines) && EarliestBestMove(lines).Some?
    ensures exists i :: 0 <= i < |lines| && BestMoveOf(lines[i]) == EarliestBestMove(lines)
                        && forall j :: 0 <= j < i ==> BestMoveOf(lines[j]).None?
    decreases |lines|
  {
    if BestMoveOf(lines[0]).None? {
      var rest := lines[1..];
      assert AllSliceable(rest);
      EarliestBestMoveIsFirst(rest);
      var i :| 0 <= i < |rest| && BestMoveOf(rest[i]) == EarliestBestMove(rest)
        && forall j :: 0 <= j < i ==> BestMoveOf(rest[j]).None?;
      assert lines[i + 1] == rest[i];
      assert forall j :: 1 <= j < i + 1 ==> lines[j] == rest[j - 1];
    } else {
      assert BestMoveOf(lines[0]) == EarliestBestMove(lines);
    }
  }

  /**
   A `bestmove <token>` line yields the token's first four characters as a
   move, whatever the token is: `bestmove (none)` reports the move `(n`-`on`.
   */
  lemma BestMoveLine(token: string)
    requires |token| >= 4 && NoWhitespace(token)
    ensures Sliceable(BestMoveToken + " " + token)
    ensures BestMoveOf(BestMoveToken + " " + token) == Some((token[..2], token[2..4]))
  {
    var line := BestMoveToken + " " + token;
    TokensOfSpaced(BestMoveToken, token);
    TokensOfWord(token);
    assert OccursAt(line, BestMoveToken, 0);
    ContainsIffOccurs(line, BestMoveToken);
  }

  /** The backward loop of `find_best_move` over the output lines, each `bestmove` line overwriting the last. */
  method ScanBestMove(output: seq<string>) returns (latestBestMove: Option<(string, string)>)
    requires AllSliceable(output)
    ensures latestBestMove == EarliestBestMove(output)
  {
    latestBestMove := None;
    var i := |output|;
    while i > 0
      invariant 0 <= i <= |output|
      invariant AllSliceable(output[i..])
      invariant latestBestMove == EarliestBestMove(output[i..])
    {
      i := i - 1;
      var line := output[i];
      if Contains(line, BestMoveToken) {
        var parts := Tokens(line);
        if |parts| >= 2 {
          var bestMove := parts[1];
          if Contains(bestMove, "(none)") {
            latestBestMove := None;
          }
          var from := bestMove[0..2];
          var to := bestMove[2..4];
          latestBestMove := Some((from, to));
        }
      }
      assert output[i..][1..] == output[i + 1..];
    }
  }

  /** The pre-check of `wait_for_response`: whether some line contains `token`. */
  method AnyLineContains(lines: seq<string>, token: string) returns (found: bool)
    ensures found <==> exists i :: 0 <= i < |lines| && Contains(lines[i], token)
  {
    found := false;
    var i := 0;
    while i < |lines| && !found
      invariant 0 <= i <= |lines|
      invariant found <==> exists k :: 0 <= k < i && Contains(lines[k], token)
    {
      if Contains(lines[i], token) {
        found := true;
      }
      i := i + 1;
    }
  }

  /** `BestMoveInfo`: the reported move as (from, to) square names and the evaluation. */
  datatype BestMoveInfo = BestMoveInfo(bestMove: Option<(string, string)>, evaluationScore: Option<int>)

  datatype EngineError = TimedOut(response: string, timeoutMs: nat)

  // ---------------------------------------------------------------------------
  // The supervisor's state
  // ---------------------------------------------------------------------------

  /**
   `StockfishEngineInternal`, reduced to its text: the lines written to the
   engine, in order, and the buffer of output lines not yet taken.
   */
  class StockfishEngineInternal {
    var sent: seq<string>
    var outputBuffer: seq<string>

    /** An engine with nothing written and nothing buffered. */
    constructor ()
      ensures sent == [] && outputBuffer == []
    {
      sent := [];
      outputBuffer := [];
    }

    /** The reader thread appends one output line to the buffer. */
    method ReceiveLine(line: string)
      modifies this
      ensures outputBuffer == old(outputBuffer) + [line] && sent == old(sent)
    {
      outputBuffer := outputBuffer + [line];
    }

    /** The reader thread appends several output lines, in order. */
    method ReceiveLines(lines: seq<string>)
      modifies this
      ensures outputBuffer == old(outputBuffer) + lines && sent == old(sent)
    {
      for k := 0 to |lines|
        invariant outputBuffer == old(outputBuffer) + lines[..k] && sent == old(sent)
      {
        ReceiveLine(lines[k]);
        assert lines[..k + 1] == lines[..k] + [lines[k]];
      }
      assert lines[..|lines|] == lines;
    }

    /** `send_command`: one line written to the engine. */
    method SendCommand(command: string)
      modifies this
      ensures sent == old(sent) + [command] && outputBuffer == old(outputBuffer)
    {
      sent := sent + [command];
    }

    /** `get_output`: every buffered line, in order; the buffer is left empty. */
    method GetOutput() returns (result: seq<string>)
      modifies this
      ensures result == old(outputBuffer) && outputBuffer == [] && sent == old(sent)
    {
      result := [];
      result := result + outputBuffer;
      outputBuffer := [];
    }

    /**
     `wait_for_response`, with time abstracted: when some buffered line contains
     `response`, the buffer is drained and returned; otherwise it times out and
     the buffer is left as it is.
     */
    method WaitForResponse(response: string, timeoutMs: nat) returns (r: Result<seq<string>, EngineError>)
      modifies this
      ensures sent == old(sent)
      ensures (exists i :: 0 <= i < |old(outputBuffer)| && Contains(old(outputBuffer)[i], response))
        ==> r == Ok(old(outputBuffer)) && outputBuffer == []
      ensures !(exists i :: 0 <= i < |old(outputBuffer)| && Contains(old(outputBuffer)[i], response))
        ==> r == Err(TimedOut(response, timeoutMs)) && outputBuffer == old(outputBuffer)
    {
      var found := AnyLineContains(outputBuffer, response);
      if !found {
        return Err(TimedOut(response, timeoutMs));
      }
      var lines := GetOutput();
      r := Ok(lines);
    }

    /**
     `find_best_move`: send the `go` command, take the output buffered by the
     time the engine's `reply` has arrived, and report the earliest `bestmove`
     line's move and the last scoring line's evaluation. The source always
     returns `Some`.
     */
    method FindBestMove(depth: Option<U8>, timeMs: Option<U64>, isWhiteMove: bool, reply: seq<string>)
      returns (info: Option<BestMoveInfo>)
      requires exists i :: 0 <= i < |outputBuffer + reply| && Contains((outputBuffer + reply)[i], BestMoveToken)
      requires AllSliceable(outputBuffer + reply)
      modifies this
      ensures sent == old(sent) + [GoCommand(depth, timeMs)] && outputBuffer == []
      ensures info == Some(BestMoveInfo(EarliestBestMove(old(outputBuffer) + reply), LastScore(old(outputBuffer) + reply, isWhiteMove)))
    {
      SendCommand(GoCommand(depth, timeMs));
      ReceiveLines(reply);
      var timeout := BestMoveTimeout(timeMs);
      var waited := WaitForResponse(BestMoveToken, timeout);
      var output := waited.value;
      var latestScore := ScanScores(output, isWhiteMove);
      var latestBestMove := ScanBestMove(output);
      info := Some(BestMoveInfo(latestBestMove, latestScore));
    }

    /** `set_position`: writes `position fen <position>`. */
    method SetPosition(position: string)
      modifies this
      ensures sent == old(sent) + [PositionCommand(position)] && outputBuffer == old(outputBuffer)
    {
      SendCommand(PositionCommand(position));
    }

    /** `set_option`: writes `setoption name <name> value <value>`. */
    method SetOption(name: string, value: string)
      modifies this
      ensures sent == old(sent) + [OptionCommand(name, value)] && outputBuffer == old(outputBuffer)
    {
      SendCommand(OptionCommand(name, value));
    }
  }

  /**
   A line taken by one wait is never handed out again: two waits in a row see,
   the second time, only the lines that arrived after the first.
   */
  method WaitTwice(engine: StockfishEngineInternal, first: string, later: seq<string>, second: string)
    returns (r1: Result<seq<string>, EngineError>, r2: Result<seq<string>, EngineError>)
    requires exists i :: 0 <= i < |engine.outputBuffer| && Contains(engine.outputBuffer[i], first)
    requires exists i :: 0 <= i < |later| && Contains(later[i], second)
    modifies engine
    ensures r1 == Ok(old(engine.outputBuffer)) && r2 == Ok(later) && engine.outputBuffer == []
  {
    r1 := engine.WaitForResponse(first, 5000);
    engine.ReceiveLines(later);
    assert [] + later == later;
    r2 := engine.WaitForResponse(second, 5000);
  }
}
