/**
 Ply-targeted FEN capture. The chess library (positions, SAN resolution,
 playing a move, FEN parsing and printing) is a parameter: a record of
 functions over an abstract position type and move type. Only the visitor's
 counting and selection logic is modelled.
 */
module Fen {
  import opened Wrappers
  import opened Text

  /**
   The operations the visitor needs from the chess library: the default
   position, resolving a SAN against a position, playing a resolved move,
   printing a position as FEN, and reading a `FEN` header's value into a
   position (decoding, parsing and validation folded into one).
   */
  datatype Chess<!Pos, !Mv> = Chess(
    start: Pos,
    toMove: (Pos, string) -> Option<Mv>,
    playUnchecked: (Pos, Mv) -> Pos,
    fromPosition: Pos -> string,
    parseFen: string -> Option<Pos>)

  /**
   What reading one game from the PGN text produces: a game's headers and every
   SAN the reader reports, in text order, no game at all, or a read error. The
   visitor does not skip variations, so `sans` holds the SANs inside them too.
   */
  datatype PgnRead = GameRead(headers: seq<(string, string)>, sans: seq<string>) | NoGame | ReadFailed

  // ---------------------------------------------------------------------------
  // Specification
  // ---------------------------------------------------------------------------

  /** The header is a `FEN` header whose value reads as a position. */
  predicate SetsPosition<Pos, Mv>(rules: Chess<Pos, Mv>, header: (string, string)) {
    header.0 == "FEN" && rules.parseFen(header.1).Some?
  }

  /** The starting position after the headers: each readable `FEN` header replaces the one before. */
  function HeaderPosition<Pos, Mv>(rules: Chess<Pos, Mv>, start: Pos, headers: seq<(string, string)>): Pos
    decreases |headers|
  {
    if headers == [] then start
    else
      var n := |headers| - 1;
      if SetsPosition(rules, headers[n]) then rules.parseFen(headers[n].1).value
      else HeaderPosition(rules, start, headers[..n])
  }

  /** Without a readable `FEN` header the game starts from `start`. */
  lemma {:induction false} HeaderPositionDefault<Pos, Mv>(rules: Chess<Pos, Mv>, start: Pos, headers: seq<(string, string)>)
    requires forall i :: 0 <= i < |headers| ==> !SetsPosition(rules, headers[i])
    ensures HeaderPosition(rules, start, headers) == start
    decreases |headers|
  {
    if headers != [] {
      var n := |headers| - 1;
      var front := headers[..n];
      assert forall i :: 0 <= i < n ==> front[i] == headers[i];
      HeaderPositionDefault(rules, start, front);
    }
  }

  /** Otherwise the last readable `FEN` header decides the starting position. */
  lemma {:induction false} HeaderPositionLast<Pos, Mv>(rules: Chess<Pos, Mv>, start: Pos, headers: seq<(string, string)>, i: nat)
    requires i < |headers| && SetsPosition(rules, headers[i])
    requires forall j :: i < j < |headers| ==> !SetsPosition(rules, headers[j])
    ensures Some(HeaderPosition(rules, start, headers)) == rules.parseFen(headers[i].1)
    decreases |headers|
  {
    var n := |headers| - 1;
    if i < n {
      var front := headers[..n];
      assert forall j :: i < j < n ==> front[j] == headers[j];
      assert front[i] == headers[i];
      HeaderPositionLast(rules, start, front, i);
    }
  }

  /** The position after the SANs that resolve, and how many resolved; a SAN that does not resolve is skipped. */
  function Run<Pos, Mv>(rules: Chess<Pos, Mv>, p: Pos, sans: seq<string>): (r: (Pos, nat))
    ensures r.1 <= |sans|
    decreases |sans|
  {
    if sans == [] then (p, 0)
    else
      var front := Run(rules, p, sans[..|sans| - 1]);
      match rules.toMove(front.0, sans[|sans| - 1])
      case None => front
      case Some(m) => (rules.playUnchecked(front.0, m), front.1 + 1)
  }

  /** The count of resolved moves grows by at most one per SAN. */
  lemma RunStep<Pos, Mv>(rules: Chess<Pos, Mv>, p: Pos, sans: seq<string>)
    requires sans != []
    ensures Run(rules, p, sans[..|sans| - 1]).1 <= Run(rules, p, sans).1 <= Run(rules, p, sans[..|sans| - 1]).1 + 1
  {
  }

  /** The snapshot the visitor keeps: the FEN written when the resolved-move count reached `target`, if it did. */
  function Snapshot<Pos, Mv>(rules: Chess<Pos, Mv>, p: Pos, sans: seq<string>, target: int): (snap: Option<string>)
    ensures snap.Some? ==> 1 <= target <= Run(rules, p, sans).1
    decreases |sans|
  {
    if sans == [] then None
    else
      var before := sans[..|sans| - 1];
      var front := Run(rules, p, before);
      match rules.toMove(front.0, sans[|sans| - 1])
      case None => Snapshot(rules, p, before, target)
      case Some(m) =>
        if front.1 + 1 == target then Some(rules.fromPosition(rules.playUnchecked(front.0, m)))
        else Snapshot(rules, p, before, target)
  }

  /** No snapshot is taken when the target is not a count the moves reach. */
  lemma {:induction false} SnapshotOutOfRange<Pos, Mv>(rules: Chess<Pos, Mv>, p: Pos, sans: seq<string>, target: int)
    requires target < 1 || Run(rules, p, sans).1 < target
    ensures Snapshot(rules, p, sans, target) == None
    decreases |sans|
  {
    if sans != [] {
      RunStep(rules, p, sans);
      SnapshotOutOfRange(rules, p, sans[..|sans| - 1], target);
    }
  }

  /**
   When the moves reach the target count, the snapshot is the FEN of the
   position right after the move that made the count equal to the target:
   the first `k` SANs hold `target` resolved moves, the first `k - 1` one
   fewer.
   */
  lemma {:induction false} SnapshotAtTarget<Pos, Mv>(rules: Chess<Pos, Mv>, p: Pos, sans: seq<string>, target: int)
    requires 1 <= target <= Run(rules, p, sans).1
    ensures exists k :: 0 < k <= |sans| && Run(rules, p, sans[..k - 1]).1 == target - 1 && Run(rules, p, sans[..k]).1 == target
                     && Snapshot(rules, p, sans, target) == Some(rules.fromPosition(Run(rules, p, sans[..k]).0))
    decreases |sans|
  {
    var n := |sans| - 1;
    var before := sans[..n];
    RunStep(rules, p, sans);
    if target <= Run(rules, p, before).1 {
      SnapshotAtTarget(rules, p, before, target);
      var k :| 0 < k <= |before| && Run(rules, p, before[..k - 1]).1 == target - 1 && Run(rules, p, before[..k]).1 == target
        && Snapshot(rules, p, before, target) == Some(rules.fromPosition(Run(rules, p, before[..k]).0));
      assert before[..k] == sans[..k] && before[..k - 1] == sans[..k - 1];
    } else {
      assert sans[..n + 1] == sans;
    }
  }

  /** The count of resolved moves never falls as more SANs are read. */
  lemma {:induction false} RunMonotone<Pos, Mv>(rules: Chess<Pos, Mv>, p: Pos, sans: seq<string>, a: nat, b: nat)
    requires a <= b <= |sans|
    ensures Run(rules, p, sans[..a]).1 <= Run(rules, p, sans[..b]).1
    decreases b - a
  {
    if a < b {
      RunMonotone(rules, p, sans, a, b - 1);
      RunStep(rules, p, sans[..b]);
      assert sans[..b][..b - 1] == sans[..b - 1];
    }
  }

  /** At most one SAN raises the count of resolved moves from `target - 1` to `target`. */
  lemma TargetStepUnique<Pos, Mv>(rules: Chess<Pos, Mv>, p: Pos, sans: seq<string>, target: int, k1: nat, k2: nat)
    requires 0 < k1 <= |sans| && Run(rules, p, sans[..k1 - 1]).1 == target - 1 && Run(rules, p, sans[..k1]).1 == target
    requires 0 < k2 <= |sans| && Run(rules, p, sans[..k2 - 1]).1 == target - 1 && Run(rules, p, sans[..k2]).1 == target
    ensures k1 == k2
  {
    if k1 < k2 {
      RunMonotone(rules, p, sans, k1, k2 - 1);
    } else if k2 < k1 {
      RunMonotone(rules, p, sans, k2, k1 - 1);
    }
  }

  /** The FEN a game yields: the snapshot at `target` if one was taken, else the final position's. */
  function GameFen<Pos, Mv>(rules: Chess<Pos, Mv>, headers: seq<(string, string)>, sans: seq<string>, target: Option<int>): string {
    var p := HeaderPosition(rules, rules.start, headers);
    var snapshot := if target.Some? then Snapshot(rules, p, sans, target.value) else None;
    if snapshot.Some? then snapshot.value else rules.fromPosition(Run(rules, p, sans).0)
  }

  /** What `pgn_to_fen_at_move` returns for a read: nothing on a read error, the default position's FEN when there is no game. */
  function FenAtMove<Pos, Mv>(rules: Chess<Pos, Mv>, read: PgnRead, target: Option<int>): (fen: Option<string>)
    ensures fen.None? <==> read.ReadFailed?
    ensures read.NoGame? ==> fen == Some(rules.fromPosition(rules.start))
  {
    match read
    case ReadFailed => None
    case NoGame => Some(rules.fromPosition(rules.start))
    case GameRead(headers, sans) => Some(GameFen(rules, headers, sans, target))
  }

  /** Without a target, with target 0, or with a target beyond the resolved moves, a game yields its final position. */
  lemma FinalPositionFallback<Pos, Mv>(rules: Chess<Pos, Mv>, headers: seq<(string, string)>, sans: seq<string>, target: Option<int>)
    requires target.None? || target.value < 1 || Run(rules, HeaderPosition(rules, rules.start, headers), sans).1 < target.value
    ensures GameFen(rules, headers, sans, target) == rules.fromPosition(Run(rules, HeaderPosition(rules, rules.start, headers), sans).0)
  {
    if target.Some? {
      SnapshotOutOfRange(rules, HeaderPosition(rules, rules.start, headers), sans, target.value);
    }
  }

  /** With a target the moves reach, a game yields the position just after the target-th resolved move. */
  lemma TargetPositionCaptured<Pos, Mv>(rules: Chess<Pos, Mv>, headers: seq<(string, string)>, sans: seq<string>, target: int)
    requires 1 <= target <= Run(rules, HeaderPosition(rules, rules.start, headers), sans).1
    ensures var p := HeaderPosition(rules, rules.start, headers);
      exists k :: 0 < k <= |sans| && Run(rules, p, sans[..k - 1]).1 == target - 1 && Run(rules, p, sans[..k]).1 == target
        && GameFen(rules, headers, sans, Some(target)) == rules.fromPosition(Run(rules, p, sans[..k]).0)
  {
    SnapshotAtTarget(rules, HeaderPosition(rules, rules.start, headers), sans, target);
  }

  /** Every SAN resolves against the position reached before it. */
  predicate AllResolve<Pos, Mv>(rules: Chess<Pos, Mv>, p: Pos, sans: seq<string>) {
    forall k :: 0 <= k < |sans| ==> rules.toMove(Run(rules, p, sans[..k]).0, sans[k]).Some?
  }

  /** When every SAN resolves, all of them are counted. */
  lemma {:induction false} AllResolvedCount<Pos, Mv>(rules: Chess<Pos, Mv>, p: Pos, sans: seq<string>)
    requires AllResolve(rules, p, sans)
    ensures Run(rules, p, sans).1 == |sans|
    decreases |sans|
  {
    if sans != [] {
      var n := |sans| - 1;
      var before := sans[..n];
      AllResolvePrefix(rules, p, sans, n);
      AllResolvedCount(rules, p, before);
    }
  }

  /** When every SAN resolves, the snapshot at `t` is the position after exactly the first `t` SANs. */
  lemma {:induction false} AllResolvedSnapshot<Pos, Mv>(rules: Chess<Pos, Mv>, p: Pos, sans: seq<string>, target: int)
    requires AllResolve(rules, p, sans)
    requires 1 <= target <= |sans|
    ensures Snapshot(rules, p, sans, target) == Some(rules.fromPosition(Run(rules, p, sans[..target]).0))
    decreases |sans|
  {
    var n := |sans| - 1;
    var before := sans[..n];
    AllResolvePrefix(rules, p, sans, n);
    AllResolvedCount(rules, p, before);
    assert rules.toMove(Run(rules, p, before).0, sans[n]).Some?;
    if target == |sans| {
      assert sans[..target] == sans;
    } else {
      AllResolvedSnapshot(rules, p, before, target);
      assert before[..target] == sans[..target];
    }
  }

  /** When every SAN resolves, target `t` yields the position after exactly the first `t` SANs. */
  lemma AllResolvedTarget<Pos, Mv>(rules: Chess<Pos, Mv>, headers: seq<(string, string)>, sans: seq<string>, target: int)
    requires AllResolve(rules, HeaderPosition(rules, rules.start, headers), sans)
    requires 1 <= target <= |sans|
    ensures GameFen(rules, headers, sans, Some(target))
      == rules.fromPosition(Run(rules, HeaderPosition(rules, rules.start, headers), sans[..target]).0)
  {
    AllResolvedSnapshot(rules, HeaderPosition(rules, rules.start, headers), sans, target);
  }

  lemma AllResolvePrefix<Pos, Mv>(rules: Chess<Pos, Mv>, p: Pos, sans: seq<string>, k: nat)
    requires AllResolve(rules, p, sans) && k <= |sans|
    ensures AllResolve(rules, p, sans[..k])
  {
    forall j | 0 <= j < k
      ensures rules.toMove(Run(rules, p, sans[..k][..j]).0, sans[..k][j]).Some?
    {
      assert sans[..k][..j] == sans[..j];
    }
  }

  // ---------------------------------------------------------------------------
  // The visitor
  // ---------------------------------------------------------------------------

  /** `FenVisitor`: the current position, the captured FEN, the resolved-move count and the target count. */
  class FenVisitor<Pos, Mv> {
    const rules: Chess<Pos, Mv>
    var pos: Pos
    var finalFen: Option<string>
    var moveCount: int
    var targetMove: Option<int>

    /** `FenVisitor::new`: the default position, nothing captured, count -1, no target. */
    constructor New(rules: Chess<Pos, Mv>)
      ensures this.rules == rules
      ensures pos == rules.start && finalFen == None && moveCount == -1 && targetMove == None
    {
      this.rules := rules;
      pos := rules.start;
      finalFen := None;
      moveCount := -1;
      targetMove := None;
    }

    /** `FenVisitor::with_target_move`; the conversion of the target to `i32` panics above `i32::MAX`. */
    constructor WithTargetMove(rules: Chess<Pos, Mv>, target: nat)
      requires target <= I32Max
      ensures this.rules == rules
      ensures pos == rules.start && finalFen == None && moveCount == -1 && targetMove == Some(target)
    {
      this.rules := rules;
      pos := rules.start;
      finalFen := None;
      moveCount := -1;
      targetMove := Some(target);
    }

    /** `begin_game`: back to the default position, nothing captured, count 0; the target is kept. */
    method BeginGame()
      modifies this
      ensures pos == rules.start && finalFen == None && moveCount == 0 && targetMove == old(targetMove)
    {
      pos := rules.start;
      finalFen := None;
      moveCount := 0;
    }

    /** `header`: a `FEN` header whose value reads as a position replaces the position; anything else changes nothing. */
    method Header(key: string, value: string)
      modifies this
      ensures pos == (if SetsPosition(rules, (key, value)) then rules.parseFen(value).value else old(pos))
      ensures finalFen == old(finalFen) && moveCount == old(moveCount) && targetMove == old(targetMove)
    {
      if key == "FEN" {
        var parsed := rules.parseFen(value);
        if parsed.Some? {
          pos := parsed.value;
        }
      }
    }

    /**
     `san`: a SAN that resolves against the position increments the count by
     one and plays the move, and when the count is then the target the FEN of
     the new position is captured. A SAN that does not resolve changes nothing.
     */
    method San(san: string)
      modifies this
      ensures targetMove == old(targetMove)
      ensures rules.toMove(old(pos), san).None? ==>
        pos == old(pos) && moveCount == old(moveCount) && finalFen == old(finalFen)
      ensures rules.toMove(old(pos), san).Some? ==>
        && moveCount == old(moveCount) + 1
        && pos == rules.playUnchecked(old(pos), rules.toMove(old(pos), san).value)
        && finalFen == (if targetMove == Some(moveCount) then Some(rules.fromPosition(pos)) else old(finalFen))
    {
      var m := rules.toMove(pos, san);
      if m.Some? {
        moveCount := moveCount + 1;
        pos := rules.playUnchecked(pos, m.value);
        if targetMove.Some? {
          if moveCount == targetMove.value {
            finalFen := Some(rules.fromPosition(pos));
          }
        }
      }
    }

    /** `end_game`: capture the current position's FEN if nothing was captured, and return the capture. */
    method EndGame() returns (result: Option<string>)
      modifies this
      ensures finalFen == (if old(finalFen).None? then Some(rules.fromPosition(pos)) else old(finalFen))
      ensures result == finalFen && result.Some?
      ensures pos == old(pos) && moveCount == old(moveCount) && targetMove == old(targetMove)
    {
      if finalFen.None? {
        finalFen := Some(rules.fromPosition(pos));
      }
      result := finalFen;
    }
  }

  /**
   The callbacks the PGN reader makes for one game: `begin_game`, one
   `header` per header, one `san` per SAN, then `end_game`. The result is the
   game's FEN for the visitor's target.
   */
  method ReadGame<Pos, Mv>(visitor: FenVisitor<Pos, Mv>, headers: seq<(string, string)>, sans: seq<string>)
    returns (result: Option<string>)
    modifies visitor
    ensures result == Some(GameFen(visitor.rules, headers, sans, visitor.targetMove)) && visitor.finalFen == result
    ensures visitor.targetMove == old(visitor.targetMove)
  {
    var rules := visitor.rules;
    visitor.BeginGame();
    for i := 0 to |headers|
      invariant visitor.pos == HeaderPosition(rules, rules.start, headers[..i])
      invariant visitor.finalFen == None && visitor.moveCount == 0 && visitor.targetMove == old(visitor.targetMove)
    {
      visitor.Header(headers[i].0, headers[i].1);
      assert headers[..i + 1][..i] == headers[..i];
    }
    assert headers[..|headers|] == headers;
    var p := visitor.pos;
    for i := 0 to |sans|
      invariant visitor.pos == Run(rules, p, sans[..i]).0 && visitor.moveCount == Run(rules, p, sans[..i]).1
      invariant visitor.targetMove == old(visitor.targetMove)
      invariant visitor.finalFen == (if visitor.targetMove.Some? then Snapshot(rules, p, sans[..i], visitor.targetMove.value) else None)
    {
      assert sans[..i + 1][..i] == sans[..i];
      visitor.San(sans[i]);
    }
    assert sans[..|sans|] == sans;
    result := visitor.EndGame();
  }

  /**
   `pgn_to_fen_at_move`: the FEN after the given number of resolved moves,
   the final position's when the game never reaches it, the default
   position's when there is no game, and nothing when reading fails.
   */
  method PgnToFenAtMove<Pos, Mv>(rules: Chess<Pos, Mv>, read: PgnRead, moveNumber: nat) returns (fen: Option<string>)
    requires moveNumber <= I32Max
    ensures fen == FenAtMove(rules, read, Some(moveNumber))
  {
    var visitor := new FenVisitor.WithTargetMove(rules, moveNumber);
    match read {
      case ReadFailed =>
        fen := None;
      case NoGame =>
        fen := visitor.EndGame();
      case GameRead(headers, sans) =>
        var _ := ReadGame(visitor, headers, sans);
        fen := visitor.EndGame();
    }
  }
}
