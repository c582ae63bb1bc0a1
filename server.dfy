/**
 * The socket.io connection handlers of server.js (lines 94-296) over the two process-wide maps `onlineUsers`
 * and `rooms`. Each handler runs to completion as one step and returns, in order, what it would send and
 * what it asks of the database.
 */
module Server {

  import opened Common
  import opened Board
  import opened Presence
  import opened Rooms
  import opened Results

  /** Where an event goes: the `'lobby'` room, one socket, or a game room. */
  datatype Dest = Lobby | ToSocket(socketId: SocketId) | ToRoom(roomId: RoomId)

  /** The emitted events and their payloads. */
  datatype Event =
    | OnlineUsersUpdated(users: seq<UserEntry>)
    | RoomsUpdated(rooms: map<RoomId, Room>)
    | GameInvitation(from: UserId, fromUsername: string)
    | InvitationDeclined(from: UserId)
    | GameStarted(roomId: RoomId, players: seq<UserId>, firstTurn: UserId, board: Board)
    | GameUpdated(board: Board, currentTurn: Option<UserId>, winner: Outcome)
    | OpponentLeft
    | GameLeft

  /** What a handler does beyond its own state: emit an event, create a Game record, or call `saveGameResult`. */
  datatype Effect =
    | Emit(dest: Dest, event: Event)
    | CreateRecord(record: GameRecord)
    | SaveResult(roomId: RoomId, room: Room, ending: Ending)

  /** The character of a decimal digit. */
  function DigitChar(d: nat): (c: char)
    requires d < 10
    ensures '0' <= c <= '9' && c as int - '0' as int == d
  {
    ('0' as int + d) as char
  }

  /** Every character is a decimal digit. */
  predicate AllDigits(s: string)
  {
    forall i :: 0 <= i < |s| ==> '0' <= s[i] <= '9'
  }

  /** The number a string of decimal digits denotes. */
  function DigitsValue(s: string): nat
    requires AllDigits(s)
  {
    if s == [] then 0 else DigitsValue(s[..|s| - 1]) * 10 + (s[|s| - 1] as int - '0' as int)
  }

  /** The decimal digits of `n`, as a template literal prints a number. */
  function Decimal(n: nat): (s: string)
    ensures 1 <= |s| && AllDigits(s)
  {
    if n < 10 then [DigitChar(n)] else Decimal(n / 10) + [DigitChar(n % 10)]
  }

  /** Reading the printed digits back gives the number. */
  lemma {:induction false} DecimalRoundTrip(n: nat)
    ensures DigitsValue(Decimal(n)) == n
  {
    var s := Decimal(n);
    if n >= 10 {
      DecimalRoundTrip(n / 10);
      assert s[..|s| - 1] == Decimal(n / 10);
    } else {
      assert s[..|s| - 1] == [];
    }
  }

  /** The room id `` `game_${Date.now()}` `` (server.js:132): `game_` followed by the digits of the clock reading. */
  function RoomIdFor(now: nat): (id: RoomId)
    ensures |id| > 5 && id[..5] == "game_"
    ensures AllDigits(id[5..]) && DigitsValue(id[5..]) == now
  {
    DecimalRoundTrip(now);
    var id := "game_" + Decimal(now);
    assert id[5..] == Decimal(now);
    id
  }

  /** Two accepted invitations get the same room id exactly when they read the same millisecond. */
  lemma RoomIdForInjective(a: nat, b: nat)
    ensures RoomIdFor(a) == RoomIdFor(b) <==> a == b
  {
  }

  class GameServer {

    /** `onlineUsers`, its values in insertion order. */
    var onlineUsers: seq<UserEntry>

    /** `rooms`. */
    var rooms: map<RoomId, Room>

    /** One entry per user, and every room satisfies the room invariant. */
    ghost predicate Valid()
      reads this
    {
      UniqueIds(onlineUsers) && forall id :: id in rooms ==> Consistent(rooms[id])
    }

    /** The two empty maps of server.js:91-92. */
    constructor ()
      ensures Valid() && onlineUsers == [] && rooms == map[]
    {
      onlineUsers := [];
      rooms := map[];
    }

    /** `join_lobby` (server.js:97-103): upsert the user's entry and broadcast the list to the lobby. */
    method JoinLobby(socketId: SocketId, userId: UserId, username: string) returns (out: seq<Effect>)
      requires Valid()
      modifies this
      ensures Valid()
      ensures onlineUsers == Upsert(old(onlineUsers), UserEntry(socketId, username, userId))
      ensures Find(onlineUsers, userId) == Some(UserEntry(socketId, username, userId))
      ensures forall id :: id != userId ==> Find(onlineUsers, id) == Find(old(onlineUsers), id)
      ensures rooms == old(rooms)
      ensures out == [Emit(Lobby, OnlineUsersUpdated(onlineUsers))]
    {
      var entry := UserEntry(socketId, username, userId);
      UpsertSpec(onlineUsers, entry);
      onlineUsers := Upsert(onlineUsers, entry);
      out := [Emit(Lobby, OnlineUsersUpdated(onlineUsers))];
    }

    /**
     * `create_room` (server.js:105-110): store a waiting room under the given id, replacing whatever room had
     * that id, and broadcast the rooms to the lobby.
     */
    method CreateRoom(roomId: RoomId, creatorId: UserId) returns (out: seq<Effect>)
      requires Valid()
      modifies this
      ensures Valid()
      ensures rooms == old(rooms)[roomId := WaitingRoom(creatorId)] && onlineUsers == old(onlineUsers)
      ensures out == [Emit(Lobby, RoomsUpdated(rooms))]
    {
      rooms := rooms[roomId := WaitingRoom(creatorId)];
      out := [Emit(Lobby, RoomsUpdated(rooms))];
    }

    /**
     * `invite_to_play` (server.js:113-124): an invitation reaches the invitee's socket only when both users
     * are online; otherwise nothing is sent, not even to the inviter.
     */
    method InviteToPlay(from: UserId, to: UserId) returns (out: seq<Effect>)
      ensures out != [] <==> Find(onlineUsers, from).Some? && Find(onlineUsers, to).Some?
      ensures out != [] ==>
        out == [Emit(ToSocket(Find(onlineUsers, to).value.socketId),
                     GameInvitation(from, Find(onlineUsers, from).value.username))]
    {
      var opponent := Find(onlineUsers, to);
      var inviter := Find(onlineUsers, from);
      out := [];
      if opponent.Some? && inviter.Some? {
        out := [Emit(ToSocket(opponent.value.socketId), GameInvitation(from, inviter.value.username))];
      }
    }

    /**
     * `invitation_response` (server.js:127-175). `now` stands for `Date.now()`, read for the room id and the
     * start time. Accepted with the inviter online: a fresh playing room under `game_<now>` and a Game record
     * stub. Declined with the inviter online: only a notice to the inviter. Inviter offline: nothing.
     */
    method InvitationResponse(from: UserId, to: UserId, accepted: bool, now: nat) returns (out: seq<Effect>)
      requires Valid()
      modifies this
      ensures Valid()
      ensures onlineUsers == old(onlineUsers)
      ensures accepted && Find(onlineUsers, from).Some? ==>
        && rooms == old(rooms)[RoomIdFor(now) := NewGameRoom(from, to, now)]
        && out == [CreateRecord(GameStub(from, to, RoomIdFor(now))),
                   Emit(ToRoom(RoomIdFor(now)), GameStarted(RoomIdFor(now), [from, to], from, EmptyBoard))]
      ensures !accepted && Find(onlineUsers, from).Some? ==>
        rooms == old(rooms) && out == [Emit(ToSocket(Find(onlineUsers, from).value.socketId), InvitationDeclined(to))]
      ensures Find(onlineUsers, from).None? ==> rooms == old(rooms) && out == []
    {
      var inviter := Find(onlineUsers, from);
      out := [];
      if accepted && inviter.Some? {
        var roomId := RoomIdFor(now);
        var room := NewGameRoom(from, to, now);
        NewGameRoomConsistent(from, to, now);
        rooms := rooms[roomId := room];
        out := [CreateRecord(GameStub(from, to, roomId))];
        out := out + [Emit(ToRoom(roomId), GameStarted(roomId, [from, to], from, room.board))];
      } else if inviter.Some? {
        out := [Emit(ToSocket(inviter.value.socketId), InvitationDeclined(to))];
      }
    }

    /**
     * `player_move` (server.js:178-225). An accepted move updates the room in place; a decided board also
     * finishes the room and calls `saveGameResult`; then the room hears the new board, turn and winner.
     * A move the guard rejects changes nothing and sends nothing.
     */
    method PlayerMove(roomId: RoomId, position: int, playerId: UserId, now: int) returns (out: seq<Effect>)
      requires Valid()
      modifies this
      ensures Valid()
      ensures onlineUsers == old(onlineUsers)
      ensures roomId !in old(rooms) || !Accepts(old(rooms)[roomId], playerId, position) ==>
        rooms == old(rooms) && out == []
      ensures roomId in old(rooms) && Accepts(old(rooms)[roomId], playerId, position) ==>
        var r := ApplyMove(old(rooms)[roomId], playerId, position, now);
        && rooms == old(rooms)[roomId := r]
        && out == (if Finalises(old(rooms)[roomId], playerId, position)
                   then [SaveResult(roomId, r, EndingOf(r.winner))] else [])
                  + [Emit(ToRoom(roomId), GameUpdated(r.board, r.currentTurn, r.winner))]
    {
      out := [];
      if roomId in rooms {
        var room := rooms[roomId];
        if room.GameRoom? && room.currentTurn == Some(playerId) && 0 <= position < 9 && room.board[position] == Empty {
          ghost var before := room;
          ApplyMoveConsistent(before, playerId, position, now);
          var symbol := if IndexOf(room.players, playerId) == 0 then X else O;
          room := room.(board := room.board[position := Marked(symbol)]);
          room := room.(currentTurn := FindOther(room.players, playerId));
          room := room.(moveHistory := room.moveHistory + [Move(playerId, position, symbol, now)]);
          var winner := CheckWinner(room.board);
          if winner != Ongoing {
            room := room.(winner := winner, status := Finished);
            out := [SaveResult(roomId, room, EndingOf(winner))];
          } else if Empty !in room.board {
            // server.js:210-217: `checkWinner` already reports a full board as a draw.
            assert false;
          }
          rooms := rooms[roomId := room];
          out := out + [Emit(ToRoom(roomId), GameUpdated(room.board, room.currentTurn, room.winner))];
        }
      }
    }

    /**
     * `leave_game` (server.js:227-248). Only a playing game room is finalised as abandoned by the leaver, its
     * opponent told if online, and the room deleted; a finished, waiting or absent room stays as it is. The
     * leaver is always told `game_left`.
     */
    method LeaveGame(socketId: SocketId, roomId: RoomId, playerId: UserId) returns (out: seq<Effect>)
      requires Valid()
      modifies this
      ensures Valid()
      ensures onlineUsers == old(onlineUsers)
      ensures var playing := roomId in old(rooms) && old(rooms)[roomId].GameRoom? && old(rooms)[roomId].status == Playing;
        rooms == (if playing then old(rooms) - {roomId} else old(rooms))
      ensures var playing := roomId in old(rooms) && old(rooms)[roomId].GameRoom? && old(rooms)[roomId].status == Playing;
        var other := if playing then FindOther(old(rooms)[roomId].players, playerId) else None;
        var notice := if other.Some? && Find(onlineUsers, other.value).Some?
                      then [Emit(ToSocket(Find(onlineUsers, other.value).value.socketId), OpponentLeft)] else [];
        out == (if playing then [SaveResult(roomId, old(rooms)[roomId], AbandonedBy(playerId))] + notice else [])
               + [Emit(ToSocket(socketId), GameLeft)]
    {
      out := [];
      if roomId in rooms && rooms[roomId].GameRoom? && rooms[roomId].status == Playing {
        var room := rooms[roomId];
        out := [SaveResult(roomId, room, AbandonedBy(playerId))];
        var opponent := FindOther(room.players, playerId);
        if opponent.Some? {
          var opponentSocket := Find(onlineUsers, opponent.value);
          if opponentSocket.Some? {
            out := out + [Emit(ToSocket(opponentSocket.value.socketId), OpponentLeft)];
          }
        }
        rooms := rooms - {roomId};
      }
      out := out + [Emit(ToSocket(socketId), GameLeft)];
    }

    /**
     * `disconnect` (server.js:287-295): walk the entries in insertion order, delete the first one whose
     * socketId is the closing socket's and stop; then broadcast the list to the lobby.
     */
    method Disconnect(socketId: SocketId) returns (out: seq<Effect>)
      requires Valid()
      modifies this
      ensures Valid()
      ensures onlineUsers == WithoutFirstSocket(old(onlineUsers), socketId)
      ensures rooms == old(rooms)
      ensures out == [Emit(Lobby, OnlineUsersUpdated(onlineUsers))]
    {
      var users := onlineUsers;
      var i := 0;
      while i < |users|
        invariant 0 <= i <= |users|
        invariant onlineUsers == users
        invariant NoSocket(users[..i], socketId)
      {
        if users[i].socketId == socketId {
          WithoutFirstSocketAt(users, socketId, i);
          UniqueIdsRemove(users, i);
          onlineUsers := users[..i] + users[i + 1..];
          break;
        }
        i := i + 1;
      }
      if i == |users| {
        assert users[..i] == users;
        WithoutFirstSocketNone(users, socketId);
      }
      out := [Emit(Lobby, OnlineUsersUpdated(onlineUsers))];
    }
  }
}
