/**
 * Rooms of the `rooms` map (server.js:92) and the turn logic of `player_move` (server.js:178-225).
 */
module Rooms {

  import opened Common
  import opened Board

  /** One `moveHistory` entry `{ playerId, position, symbol, timestamp }`. */
  datatype Move = Move(playerId: UserId, position: Pos, symbol: Mark, timestamp: int)

  /** A game room's `status` (`'playing'` or `'finished'`). */
  datatype GameStatus = Playing | Finished

  datatype Room =
      /** `{ players: [creatorId], status: 'waiting' }` made by `create_room`: no board, no turn. */
    | WaitingRoom(creator: UserId)
      /** The room made by an accepted invitation. `currentTurn` is None once `players.find` finds no other player. */
    | GameRoom(players: seq<UserId>, status: GameStatus, board: Board, currentTurn: Option<UserId>,
               winner: Outcome, startTime: int, moveHistory: seq<Move>)

  /** `players.indexOf(p)`: the first index holding `p`, or -1. */
  function IndexOf(players: seq<UserId>, p: UserId): (k: int)
    ensures -1 <= k < |players|
    ensures k >= 0 ==> players[k] == p && forall j :: 0 <= j < k ==> players[j] != p
    ensures k == -1 <==> p !in players
  {
    if players == [] then -1
    else if players[0] == p then 0
    else if IndexOf(players[1..], p) == -1 then -1
    else IndexOf(players[1..], p) + 1
  }

  /** `players.find(q => q !== p)`: the first player other than `p`, or undefined. */
  function FindOther(players: seq<UserId>, p: UserId): (r: Option<UserId>)
    ensures r.Some? ==> r.value in players && r.value != p
    ensures r.None? <==> forall i :: 0 <= i < |players| ==> players[i] == p
    ensures r.Some? ==> exists k :: 0 <= k < |players| && players[k] == r.value && forall j :: 0 <= j < k ==> players[j] == p
  {
    if players == [] then None
    else if players[0] != p then Some(players[0])
    else FindOther(players[1..], p)
  }

  /** A `leave_game` from someone outside the room makes `players[0]` the other player (server.js:235, 317). */
  lemma FindOtherNonMember(players: seq<UserId>, p: UserId)
    requires |players| == 2 && p !in players
    ensures FindOther(players, p) == Some(players[0])
  {
    var r := FindOther(players, p);
    var k :| 0 <= k < |players| && players[k] == r.value && forall j :: 0 <= j < k ==> players[j] == p;
    assert k == 0;
  }

  /** The mark of a mover: `'X'` for `players[0]`, `'O'` for anyone else (server.js:183). */
  function SymbolFor(players: seq<UserId>, p: UserId): (m: Mark)
    ensures m == X <==> |players| > 0 && players[0] == p
  {
    if IndexOf(players, p) == 0 then X else O
  }

  /** The room `invitation_response` creates (server.js:133-141). */
  function NewGameRoom(from: UserId, to: UserId, now: int): (r: Room)
    ensures r.GameRoom? && r.players == [from, to] && r.status == Playing && r.currentTurn == Some(from)
    ensures r.winner == Ongoing && r.moveHistory == [] && r.startTime == now
    ensures forall i :: 0 <= i < 9 ==> r.board[i] == Empty
  {
    GameRoom([from, to], Playing, EmptyBoard, Some(from), Ongoing, now, [])
  }

  /**
   * The guard of server.js:182: the room has a board, the mover holds the turn, and `board[position] === null`.
   * A position outside 0..8 reads `undefined`, which is not `null`. The room's status is not checked.
   */
  predicate Accepts(r: Room, playerId: UserId, position: int)
  {
    r.GameRoom? && r.currentTurn == Some(playerId) && 0 <= position < 9 && r.board[position] == Empty
  }

  /** The room after an accepted move (server.js:183-217). */
  function ApplyMove(r: Room, playerId: UserId, position: int, now: int): (r': Room)
    requires Accepts(r, playerId, position)
    ensures r'.GameRoom? && r'.players == r.players && r'.startTime == r.startTime
    ensures r'.board[position] == Marked(SymbolFor(r.players, playerId))
    ensures forall i :: 0 <= i < 9 && i != position ==> r'.board[i] == r.board[i]
    ensures r'.currentTurn == FindOther(r.players, playerId)
    ensures r'.moveHistory == r.moveHistory + [Move(playerId, position, SymbolFor(r.players, playerId), now)]
    ensures Evaluate(r'.board) != Ongoing ==> r'.status == Finished && r'.winner == Evaluate(r'.board)
    ensures Evaluate(r'.board) == Ongoing ==> r'.status == r.status && r'.winner == r.winner
  {
    var symbol := SymbolFor(r.players, playerId);
    var board := r.board[position := Marked(symbol)];
    var w := Evaluate(board);
    r.(board := board,
       currentTurn := FindOther(r.players, playerId),
       moveHistory := r.moveHistory + [Move(playerId, position, symbol, now)],
       winner := if w != Ongoing then w else r.winner,
       status := if w != Ongoing then Finished else r.status)
  }

  /** The accepted move leaves a decided board, so `saveGameResult` is called (server.js:203-209). */
  predicate Finalises(r: Room, playerId: UserId, position: int)
    requires Accepts(r, playerId, position)
  {
    Evaluate(r.board[position := Marked(SymbolFor(r.players, playerId))]) != Ongoing
  }

  /**
   * Turn order: with two distinct players the turn belongs to `players[|moveHistory| % 2]` and the i-th move was
   * made by `players[i % 2]` with X for even i; when a user plays against themself, `players.find` yields no
   * other player after the first move and the turn becomes undefined.
   */
  ghost predicate Alternates(r: Room)
    requires r.GameRoom? && |r.players| == 2
  {
    var h := r.moveHistory;
    var ps := r.players;
    if ps[0] != ps[1] then
      && r.currentTurn == Some(ps[|h| % 2])
      && forall i :: 0 <= i < |h| ==> h[i].playerId == ps[i % 2] && h[i].symbol == (if i % 2 == 0 then X else O)
    else
      || (|h| == 0 && r.currentTurn == Some(ps[0]))
      || (|h| == 1 && r.currentTurn == None && h[0].playerId == ps[0] && h[0].symbol == X)
  }

  /**
   * The invariant of a game room: every move sits in its own cell and holds that cell's mark, the history is
   * as long as the number of filled cells, the recorded winner is `checkWinner` of the board, the room is
   * finished exactly when that is decided, and turns alternate.
   */
  ghost predicate Consistent(r: Room)
  {
    r.GameRoom? ==>
      && |r.players| == 2
      && |r.moveHistory| == Filled(r.board)
      && (forall i :: 0 <= i < |r.moveHistory| ==>
            r.board[r.moveHistory[i].position] == Marked(r.moveHistory[i].symbol))
      && (forall i, j :: 0 <= i < j < |r.moveHistory| ==>
            r.moveHistory[i].position != r.moveHistory[j].position)
      && r.winner == Evaluate(r.board)
      && (r.status == Finished <==> r.winner != Ongoing)
      && Alternates(r)
  }

  /** A freshly created game room satisfies the invariant. */
  lemma NewGameRoomConsistent(from: UserId, to: UserId, now: int)
    ensures Consistent(NewGameRoom(from, to, now))
  {
    var r := NewGameRoom(from, to, now);
    FilledNone(r.board);
    EvaluateSpec(r.board);
    assert r.board[0] == Empty;
  }

  /** With distinct players, `players[k]` has index k and the other player is `players[1 - k]`. */
  lemma TwoPlayers(ps: seq<UserId>, k: nat)
    requires |ps| == 2 && ps[0] != ps[1] && k < 2
    ensures IndexOf(ps, ps[k]) == k
    ensures FindOther(ps, ps[k]) == Some(ps[1 - k])
    ensures SymbolFor(ps, ps[k]) == if k == 0 then X else O
  {
    assert ps[1..] == [ps[1]];
  }

  /** An accepted move writes a null cell, so the history keeps one move per filled cell. */
  lemma ApplyMoveCells(r: Room, playerId: UserId, position: int, now: int)
    requires Consistent(r) && Accepts(r, playerId, position)
    ensures var r' := ApplyMove(r, playerId, position, now);
      && |r'.moveHistory| == Filled(r'.board)
      && (forall i :: 0 <= i < |r'.moveHistory| ==>
            r'.board[r'.moveHistory[i].position] == Marked(r'.moveHistory[i].symbol))
      && (forall i, j :: 0 <= i < j < |r'.moveHistory| ==>
            r'.moveHistory[i].position != r'.moveHistory[j].position)
  {
    var r' := ApplyMove(r, playerId, position, now);
    var h, h' := r.moveHistory, r'.moveHistory;
    var symbol := SymbolFor(r.players, playerId);
    FilledWrite(r.board, position, symbol);
    assert r'.board == r.board[position := Marked(symbol)];
    forall i | 0 <= i < |h'| ensures r'.board[h'[i].position] == Marked(h'[i].symbol) {
      if i < |h| {
        assert h'[i] == h[i];
        assert h[i].position != position;
      }
    }
    forall i, j | 0 <= i < j < |h'| ensures h'[i].position != h'[j].position {
      if j == |h| {
        assert r.board[h[i].position] != Empty;
      } else {
        assert h'[i] == h[i] && h'[j] == h[j];
      }
    }
  }

  /** An accepted move keeps the recorded winner equal to `checkWinner` of the board. */
  lemma ApplyMoveWinner(r: Room, playerId: UserId, position: int, now: int)
    requires Consistent(r) && Accepts(r, playerId, position)
    ensures var r' := ApplyMove(r, playerId, position, now);
      r'.winner == Evaluate(r'.board) && (r'.status == Finished <==> r'.winner != Ongoing)
  {
    var symbol := SymbolFor(r.players, playerId);
    assert ApplyMove(r, playerId, position, now).board == r.board[position := Marked(symbol)];
    if r.winner != Ongoing {
      DecidedStaysDecided(r.board, position, symbol);
    }
  }

  /** Appending the move of the player whose turn it is keeps a history alternating between two players. */
  lemma {:induction false} HistoryAlternates(ps: seq<UserId>, h: seq<Move>, m: Move)
    requires |ps| == 2
    requires forall i :: 0 <= i < |h| ==> h[i].playerId == ps[i % 2] && h[i].symbol == (if i % 2 == 0 then X else O)
    requires m.playerId == ps[|h| % 2] && m.symbol == (if |h| % 2 == 0 then X else O)
    ensures forall i :: 0 <= i < |h + [m]| ==>
      (h + [m])[i].playerId == ps[i % 2] && (h + [m])[i].symbol == (if i % 2 == 0 then X else O)
  {
    forall i | 0 <= i < |h + [m]|
      ensures (h + [m])[i].playerId == ps[i % 2] && (h + [m])[i].symbol == (if i % 2 == 0 then X else O)
    {
      if i < |h| {
        assert (h + [m])[i] == h[i];
      }
    }
  }

  /** An accepted move hands the turn to the other player and keeps the alternation. */
  lemma ApplyMoveAlternates(r: Room, playerId: UserId, position: int, now: int)
    requires Accepts(r, playerId, position) && |r.players| == 2 && Alternates(r)
    ensures Alternates(ApplyMove(r, playerId, position, now))
  {
    var r' := ApplyMove(r, playerId, position, now);
    var h, ps := r.moveHistory, r.players;
    if ps[0] != ps[1] {
      var k := |h| % 2;
      TwoPlayers(ps, k);
      var m := Move(playerId, position, SymbolFor(ps, playerId), now);
      HistoryAlternates(ps, h, m);
      assert r'.moveHistory == h + [m];
      assert r'.currentTurn == Some(ps[1 - k]);
    } else {
      assert ps[1..] == [ps[0]];
      assert |h| == 0;
    }
  }

  /** An accepted move preserves the invariant. */
  lemma ApplyMoveConsistent(r: Room, playerId: UserId, position: int, now: int)
    requires Consistent(r) && Accepts(r, playerId, position)
    ensures Consistent(ApplyMove(r, playerId, position, now))
  {
    ApplyMoveCells(r, playerId, position, now);
    ApplyMoveWinner(r, playerId, position, now);
    ApplyMoveAlternates(r, playerId, position, now);
  }

  /** A `player_move` payload `{ roomId, position, playerId }` for one room, with the clock reading of the move. */
  datatype MoveRequest = MoveRequest(playerId: UserId, position: int, timestamp: int)

  /**
   * A room after a sequence of `player_move` requests, paired with the number of requests that called
   * `saveGameResult`. With `checkStatus` false this is the guard as written (server.js:182); with it true the
   * guard also demands status `'playing'`, as a finished game should.
   */
  function RunMoves(r: Room, reqs: seq<MoveRequest>, checkStatus: bool): (res: (Room, nat))
    ensures res.0.GameRoom? == r.GameRoom?
    ensures res.1 <= |reqs|
    decreases |reqs|
  {
    if reqs == [] then (r, 0)
    else
      var q := reqs[0];
      if Accepts(r, q.playerId, q.position) && (!checkStatus || r.status == Playing) then
        var next := ApplyMove(r, q.playerId, q.position, q.timestamp);
        var rest := RunMoves(next, reqs[1..], checkStatus);
        (rest.0, rest.1 + if Finalises(r, q.playerId, q.position) then 1 else 0)
      else
        RunMoves(r, reqs[1..], checkStatus)
  }

  /** Any run of requests, with the guard as written or with the status check, keeps a room consistent. */
  lemma {:induction false} RunMovesConsistent(r: Room, reqs: seq<MoveRequest>, checkStatus: bool)
    requires Consistent(r)
    ensures Consistent(RunMoves(r, reqs, checkStatus).0)
    decreases |reqs|
  {
    if reqs != [] {
      var q := reqs[0];
      if Accepts(r, q.playerId, q.position) && (!checkStatus || r.status == Playing) {
        ApplyMoveConsistent(r, q.playerId, q.position, q.timestamp);
        RunMovesConsistent(ApplyMove(r, q.playerId, q.position, q.timestamp), reqs[1..], checkStatus);
      } else {
        RunMovesConsistent(r, reqs[1..], checkStatus);
      }
    }
  }

  /** The moves of the example: X on the bottom row, O on 0 and 1, then O on 2 after X has won. */
  const WinThenMove: seq<MoveRequest> :=
    [MoveRequest("a", 6, 1), MoveRequest("b", 0, 2), MoveRequest("a", 7, 3),
     MoveRequest("b", 1, 4), MoveRequest("a", 8, 5), MoveRequest("b", 2, 6)]

  /** The board after each prefix of `WinThenMove`, as the moves write it. */
  function BoardAfter(n: nat): Board
    requires n <= 6
  {
    var E, x, o := Empty, Marked(X), Marked(O);
    [ [E, E, E, E, E, E, E, E, E],
      [E, E, E, E, E, E, x, E, E],
      [o, E, E, E, E, E, x, E, E],
      [o, E, E, E, E, E, x, x, E],
      [o, o, E, E, E, E, x, x, E],
      [o, o, E, E, E, E, x, x, x],
      [o, o, o, E, E, E, x, x, x] ][n]
  }

  /** The room after each prefix of `WinThenMove`. */
  function RoomAfter(n: nat): Room
    requires n <= 6
  {
    GameRoom(["a", "b"], if n >= 5 then Finished else Playing, BoardAfter(n),
             Some(["a", "b", "a", "b", "a", "b", "a"][n]), if n == 6 then Win(O) else if n == 5 then Win(X) else Ongoing,
             0, WinThenMoveHistory[..n])
  }

  /** The history entries the six requests append: "a" plays X and "b" plays O. */
  const WinThenMoveHistory: seq<Move> :=
    [Move("a", 6, X, 1), Move("b", 0, O, 2), Move("a", 7, X, 3),
     Move("b", 1, O, 4), Move("a", 8, X, 5), Move("b", 2, O, 6)]

  /** The boards evaluate to ongoing until the fifth move, then to X, then to O after the sixth. */
  lemma BoardsAfterEvaluate()
    ensures forall n :: 1 <= n <= 4 ==> Evaluate(BoardAfter(n)) == Ongoing
    ensures Evaluate(BoardAfter(5)) == Win(X) && Evaluate(BoardAfter(6)) == Win(O)
  {
    forall n | 1 <= n <= 4 ensures Evaluate(BoardAfter(n)) == Ongoing {
      EvaluateSpec(BoardAfter(n));
    }
  }

  /** Each board of the example is the previous one with the request's cell written. */
  lemma BoardAfterStep(n: nat)
    requires n < 6
    ensures 0 <= WinThenMove[n].position < 9
    ensures RoomAfter(n).currentTurn == Some(WinThenMove[n].playerId)
    ensures RoomAfter(n + 1).currentTurn == Some(if WinThenMove[n].playerId == "a" then "b" else "a")
    ensures BoardAfter(n + 1)
      == BoardAfter(n)[WinThenMove[n].position := Marked(if WinThenMove[n].playerId == "a" then X else O)]
    ensures WinThenMoveHistory[n] == Move(WinThenMove[n].playerId, WinThenMove[n].position,
                                          if WinThenMove[n].playerId == "a" then X else O, WinThenMove[n].timestamp)
  {
  }

  /** Each request of `WinThenMove` passes the guard as written and writes the next board, turn and history. */
  lemma WinThenMoveFields(n: nat)
    requires n < 6
    ensures Accepts(RoomAfter(n), WinThenMove[n].playerId, WinThenMove[n].position)
    ensures var r' := ApplyMove(RoomAfter(n), WinThenMove[n].playerId, WinThenMove[n].position,
                                WinThenMove[n].timestamp);
      && r'.board == BoardAfter(n + 1)
      && r'.currentTurn == RoomAfter(n + 1).currentTurn
      && r'.moveHistory == RoomAfter(n + 1).moveHistory
  {
    var r, q := RoomAfter(n), WinThenMove[n];
    BoardAfterStep(n);
    var k := if q.playerId == "a" then 0 else 1;
    assert q.playerId == r.players[k];
    TwoPlayers(r.players, k);
    assert WinThenMoveHistory[..n + 1] == WinThenMoveHistory[..n] + [WinThenMoveHistory[n]];
  }

  /** Each request of `WinThenMove` is accepted by the guard as written and leads to the next room. */
  lemma WinThenMoveStep(n: nat)
    requires n < 6
    ensures Accepts(RoomAfter(n), WinThenMove[n].playerId, WinThenMove[n].position)
    ensures ApplyMove(RoomAfter(n), WinThenMove[n].playerId, WinThenMove[n].position, WinThenMove[n].timestamp)
      == RoomAfter(n + 1)
    ensures Finalises(RoomAfter(n), WinThenMove[n].playerId, WinThenMove[n].position) <==> n >= 4
  {
    var q := WinThenMove[n];
    WinThenMoveFields(n);
    var r' := ApplyMove(RoomAfter(n), q.playerId, q.position, q.timestamp);
    BoardsAfterEvaluate();
    assert Evaluate(r'.board) == RoomAfter(n + 1).winner;
  }

  /**
   * As written: the six requests are each accepted in turn from a fresh room; the fifth completes X's bottom
   * row, finishes the room and saves once; the sixth is still accepted in the finished room, the top row
   * (earlier in the line table) now wins for O, the recorded winner flips from X to O and `saveGameResult` runs
   * a second time. With the status check the same sixth request is refused and nothing is saved.
   */
  lemma MoveAfterWinReopensResult()
    ensures NewGameRoom("a", "b", 0) == RoomAfter(0)
    ensures forall k :: 0 <= k < 6 ==>
      && Accepts(RoomAfter(k), WinThenMove[k].playerId, WinThenMove[k].position)
      && ApplyMove(RoomAfter(k), WinThenMove[k].playerId, WinThenMove[k].position, WinThenMove[k].timestamp)
         == RoomAfter(k + 1)
      && (Finalises(RoomAfter(k), WinThenMove[k].playerId, WinThenMove[k].position) <==> k >= 4)
    ensures RoomAfter(5).status == Finished && RoomAfter(5).winner == Win(X)
    ensures RoomAfter(6).status == Finished && RoomAfter(6).winner == Win(O)
    ensures RunMoves(RoomAfter(5), WinThenMove[5..], false) == (RoomAfter(6), 1)
    ensures RunMoves(RoomAfter(5), WinThenMove[5..], true) == (RoomAfter(5), 0)
  {
    forall k | 0 <= k < 6
      ensures Accepts(RoomAfter(k), WinThenMove[k].playerId, WinThenMove[k].position)
      ensures ApplyMove(RoomAfter(k), WinThenMove[k].playerId, WinThenMove[k].position, WinThenMove[k].timestamp)
        == RoomAfter(k + 1)
      ensures Finalises(RoomAfter(k), WinThenMove[k].playerId, WinThenMove[k].position) <==> k >= 4
    {
      WinThenMoveStep(k);
    }
    SixthMoveRuns();
  }

  /** The sixth request, run in the finished room: accepted and saved as written, refused with the status check. */
  lemma SixthMoveRuns()
    ensures RunMoves(RoomAfter(5), WinThenMove[5..], false) == (RoomAfter(6), 1)
    ensures RunMoves(RoomAfter(5), WinThenMove[5..], true) == (RoomAfter(5), 0)
  {
    WinThenMoveStep(5);
    assert WinThenMove[5..] == [WinThenMove[5]] && WinThenMove[5..][1..] == [];
  }

  /**
   * With the status check, a game room calls `saveGameResult` at most once over any sequence of moves, never
   * once it is finished, and a finished room's winner never changes.
   */
  lemma {:induction false} GuardedRunFinalisesOnce(r: Room, reqs: seq<MoveRequest>)
    requires r.GameRoom?
    ensures RunMoves(r, reqs, true).1 <= if r.status == Playing then 1 else 0
    ensures r.status == Finished ==> RunMoves(r, reqs, true).0 == r
    decreases |reqs|
  {
    if reqs != [] {
      var q := reqs[0];
      if Accepts(r, q.playerId, q.position) && r.status == Playing {
        var next := ApplyMove(r, q.playerId, q.position, q.timestamp);
        GuardedRunFinalisesOnce(next, reqs[1..]);
        assert Finalises(r, q.playerId, q.position) <==> Evaluate(next.board) != Ongoing;
      } else {
        GuardedRunFinalisesOnce(r, reqs[1..]);
      }
    }
  }
}
