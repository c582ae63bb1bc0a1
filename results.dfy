/**
 * The pure parts of game finalisation: the result mapping of `saveGameResult` (server.js:299-353) and the
 * counter updates of `updateUserStats` (server.js:356-380). The database reads and writes around them are
 * parameters and results.
 */
module Results {

  import opened Common
  import opened Board
  import opened Rooms

  /** The `winner` argument of `saveGameResult`: `'X'`, `'O'`, `'draw'`, or `'abandoned'` with `abandonedBy`. */
  datatype Ending = WonBy(mark: Mark) | Drawn | AbandonedBy(leaver: UserId)

  /** The ending `player_move` passes for a decided board (server.js:209). */
  function EndingOf(o: Outcome): (e: Ending)
    requires o != Ongoing
    ensures o.Win? <==> e.WonBy?
    ensures o.Win? ==> e.mark == o.mark
    ensures !e.AbandonedBy?
  {
    if o.Win? then WonBy(o.mark) else Drawn
  }

  /** The `result` enum of a Game record (models/Game.js:45-49). */
  datatype GameResult = Player1Wins | Player2Wins | DrawResult | Abandoned

  /** The `status` enum of a Game record (models/Game.js:59-63). */
  datatype RecordStatus = Active | Completed | AbandonedStatus

  /** The fields of a Game record this core reads or writes. */
  datatype GameRecord = GameRecord(player1: UserId, player2: UserId, roomId: RoomId, moveHistory: seq<Move>,
                                   finalBoard: seq<Cell>, result: GameResult, winner: Option<UserId>,
                                   duration: int, status: RecordStatus)

  /** The record `invitation_response` asks the database to create (server.js:147-155). */
  function GameStub(from: UserId, to: UserId, roomId: RoomId): (g: GameRecord)
    ensures g.player1 == from && g.player2 == to && g.roomId == roomId
    ensures g.moveHistory == [] && g.finalBoard == EmptyBoard && g.status == Active
  {
    GameRecord(from, to, roomId, [], EmptyBoard, Player1Wins, None, 0, Active)
  }

  /** The `(result, winnerId)` pair computed by server.js:311-326 from the room's players. */
  function ResultOf(players: seq<UserId>, ending: Ending): (r: (GameResult, Option<UserId>))
    requires |players| == 2
    ensures r.0 == Abandoned <==> ending.AbandonedBy?
    ensures r.0 == DrawResult <==> ending == Drawn
    ensures r.0 == DrawResult ==> r.1 == None
    ensures ending.WonBy? ==> r.0 == (if ending.mark == X then Player1Wins else Player2Wins)
    ensures ending.WonBy? ==> r.1 == Some(players[if ending.mark == X then 0 else 1])
    ensures ending.AbandonedBy? ==> r.1 == FindOther(players, ending.leaver)
  {
    match ending
    case AbandonedBy(p) => (Abandoned, FindOther(players, p))
    case Drawn => (DrawResult, None)
    case WonBy(X) => (Player1Wins, Some(players[0]))
    case WonBy(O) => (Player2Wins, Some(players[1]))
  }

  /**
   * The recorded winner is the player who plays the winning mark, and after an abandonment it is the other
   * player, never the one who left.
   */
  lemma ResultWinnerIsRightPlayer(players: seq<UserId>, ending: Ending)
    requires |players| == 2 && players[0] != players[1]
    ensures ending.WonBy? ==>
      ResultOf(players, ending).1.Some? && SymbolFor(players, ResultOf(players, ending).1.value) == ending.mark
    ensures ending.AbandonedBy? && ending.leaver in players ==>
      ResultOf(players, ending).1 == Some(if ending.leaver == players[0] then players[1] else players[0])
  {
    TwoPlayers(players, 0);
    TwoPlayers(players, 1);
  }

  /** The Game record after `saveGameResult` updates it (server.js:307-342); `now` is the clock reading. */
  function FinalRecord(game: GameRecord, room: Room, ending: Ending, now: int): (g: GameRecord)
    requires room.GameRoom? && |room.players| == 2
    ensures g.player1 == game.player1 && g.player2 == game.player2 && g.roomId == game.roomId
    ensures g.moveHistory == room.moveHistory && g.finalBoard == room.board && g.status == Completed
    ensures (g.result, g.winner) == ResultOf(room.players, ending)
    ensures g.duration * 1000 <= now - room.startTime < (g.duration + 1) * 1000
  {
    var (result, winnerId) := ResultOf(room.players, ending);
    game.(moveHistory := room.moveHistory,
          winner := winnerId,
          finalBoard := room.board,
          result := result,
          duration := (now - room.startTime) / 1000,
          status := Completed)
  }

  /** A user's counters (`gamesPlayed`, `gamesWon`, `gamesLost`, `gamesDraw`). */
  datatype UserStats = UserStats(gamesPlayed: nat, gamesWon: nat, gamesLost: nat, gamesDraw: nat)

  /** Which player of the room a User document belongs to. */
  datatype Seat = First | Second

  /** The result in which the player in `seat` wins. */
  function WinFor(seat: Seat): GameResult
  {
    if seat == First then Player1Wins else Player2Wins
  }

  /** The sum of the three result counters. */
  function Decided(s: UserStats): nat
  {
    s.gamesWon + s.gamesLost + s.gamesDraw
  }

  /** One player's counters after a game (server.js:362-375): player 1 and player 2 read the result mirrored. */
  function Tally(s: UserStats, result: GameResult, seat: Seat): (t: UserStats)
    ensures t.gamesPlayed == s.gamesPlayed + 1
    ensures Decided(t) == Decided(s) + if result == Abandoned then 0 else 1
    ensures t.gamesWon == s.gamesWon + (if result == WinFor(seat) then 1 else 0)
    ensures t.gamesLost == s.gamesLost + (if result != Abandoned && result != DrawResult && result != WinFor(seat) then 1 else 0)
    ensures t.gamesDraw == s.gamesDraw + (if result == DrawResult then 1 else 0)
  {
    var played := s.(gamesPlayed := s.gamesPlayed + 1);
    match result
    case DrawResult => played.(gamesDraw := s.gamesDraw + 1)
    case Abandoned => played
    case _ => if result == WinFor(seat) then played.(gamesWon := s.gamesWon + 1)
              else played.(gamesLost := s.gamesLost + 1)
  }

  /** `updateUserStats`: each player whose User document was found gets tallied; a missing one is skipped. */
  function UpdateUserStats(s1: Option<UserStats>, s2: Option<UserStats>, result: GameResult)
    : (r: (Option<UserStats>, Option<UserStats>))
    ensures r.0.Some? == s1.Some? && r.1.Some? == s2.Some?
    ensures s1.Some? ==> r.0.value == Tally(s1.value, result, First)
    ensures s2.Some? ==> r.1.value == Tally(s2.value, result, Second)
  {
    (if s1.Some? then Some(Tally(s1.value, result, First)) else None,
     if s2.Some? then Some(Tally(s2.value, result, Second)) else None)
  }

  /**
   * Across the two players one game is counted consistently: both play one more game; for a decided result
   * player 1 wins exactly when player 2 loses and the other way round, and both draw together; an abandoned
   * game changes nothing but `gamesPlayed`.
   */
  lemma TallyBothPlayers(s1: UserStats, s2: UserStats, result: GameResult)
    ensures var t1, t2 := Tally(s1, result, First), Tally(s2, result, Second);
      && t1.gamesPlayed == s1.gamesPlayed + 1 && t2.gamesPlayed == s2.gamesPlayed + 1
      && (t1.gamesWon > s1.gamesWon <==> t2.gamesLost > s2.gamesLost)
      && (t2.gamesWon > s2.gamesWon <==> t1.gamesLost > s1.gamesLost)
      && (t1.gamesDraw > s1.gamesDraw <==> t2.gamesDraw > s2.gamesDraw)
      && (result == Abandoned ==>
            t1 == s1.(gamesPlayed := s1.gamesPlayed + 1) && t2 == s2.(gamesPlayed := s2.gamesPlayed + 1))
  {
  }

  /** What `saveGameResult` leaves behind: nothing when the record is missing, else the saved record and counters. */
  datatype SaveOutcome =
    | RecordNotFound
    | Saved(record: GameRecord, stats1: Option<UserStats>, stats2: Option<UserStats>)

  /**
   * `saveGameResult(roomId, room, ending, abandonedBy)` with the database reads as inputs: `game` is the result
   * of `Game.findOne({ roomId })`, `s1` and `s2` those of `User.findById` for the two players.
   */
  function SaveGameResult(game: Option<GameRecord>, room: Room, ending: Ending, now: int,
                          s1: Option<UserStats>, s2: Option<UserStats>): (r: SaveOutcome)
    requires room.GameRoom? && |room.players| == 2
    ensures r.RecordNotFound? <==> game.None?
    ensures r.Saved? ==>
      r.record == FinalRecord(game.value, room, ending, now)
      && (r.stats1, r.stats2) == UpdateUserStats(s1, s2, r.record.result)
  {
    if game.None? then RecordNotFound
    else
      var record := FinalRecord(game.value, room, ending, now);
      var (t1, t2) := UpdateUserStats(s1, s2, record.result);
      Saved(record, t1, t2)
  }

  /**
   * A saved game is counted once for each player found: each plays one more game, and unless the game was
   * abandoned each gets exactly one more win, loss or draw, the winner's win matching the loser's loss.
   */
  lemma SavedGameCountedOnce(game: GameRecord, room: Room, ending: Ending, now: int, s1: UserStats, s2: UserStats)
    requires room.GameRoom? && |room.players| == 2
    ensures var r := SaveGameResult(Some(game), room, ending, now, Some(s1), Some(s2));
      && r.Saved? && r.stats1.Some? && r.stats2.Some?
      && r.stats1.value.gamesPlayed == s1.gamesPlayed + 1
      && r.stats2.value.gamesPlayed == s2.gamesPlayed + 1
      && Decided(r.stats1.value) + Decided(r.stats2.value)
         == Decided(s1) + Decided(s2) + (if ending.AbandonedBy? then 0 else 2)
      && (ending == WonBy(X) ==> r.stats1.value.gamesWon == s1.gamesWon + 1 && r.stats2.value.gamesLost == s2.gamesLost + 1)
      && (ending == WonBy(O) ==> r.stats2.value.gamesWon == s2.gamesWon + 1 && r.stats1.value.gamesLost == s1.gamesLost + 1)
  {
  }
}
