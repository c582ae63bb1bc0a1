/**
 * The presence registry `onlineUsers` (server.js:91): a JavaScript Map keyed by userId whose values are
 * `{ socketId, username, userId }`. It is modelled as the sequence of its values in the Map's insertion order;
 * the key of each entry is the entry's own `userId`.
 */
module Presence {

  import opened Common

  datatype UserEntry = UserEntry(socketId: SocketId, username: string, userId: UserId)

  /** At most one entry per userId, as for the keys of a Map. */
  predicate UniqueIds(users: seq<UserEntry>)
  {
    forall i, j :: 0 <= i < j < |users| ==> users[i].userId != users[j].userId
  }

  /**
   * `onlineUsers.get(id)`, and equally `Array.from(onlineUsers.values()).find(u => u.userId === id)`: the two
   * agree because every value carries its own key.
   */
  function Find(users: seq<UserEntry>, id: UserId): (r: Option<UserEntry>)
    ensures r.Some? ==> r.value in users && r.value.userId == id
    ensures r.None? <==> forall i :: 0 <= i < |users| ==> users[i].userId != id
  {
    if users == [] then None
    else if users[0].userId == id then Some(users[0])
    else Find(users[1..], id)
  }

  /** `onlineUsers.set(e.userId, e)`: replaces the value in place when the key exists, appends it otherwise. */
  function Upsert(users: seq<UserEntry>, e: UserEntry): (r: seq<UserEntry>)
    ensures e in r && |r| <= |users| + 1
  {
    if users == [] then [e]
    else if users[0].userId == e.userId then [e] + users[1..]
    else [users[0]] + Upsert(users[1..], e)
  }

  /**
   * After a join the joining user is found with the new entry, every other user is found as before, keys stay
   * unique, and the Map grows only when the key is new.
   */
  lemma {:induction false} UpsertSpec(users: seq<UserEntry>, e: UserEntry)
    requires UniqueIds(users)
    ensures UniqueIds(Upsert(users, e))
    ensures Find(Upsert(users, e), e.userId) == Some(e)
    ensures forall id :: id != e.userId ==> Find(Upsert(users, e), id) == Find(users, id)
    ensures |Upsert(users, e)| == if Find(users, e.userId).Some? then |users| else |users| + 1
  {
    if users != [] && users[0].userId != e.userId {
      UpsertSpec(users[1..], e);
      var rest := Upsert(users[1..], e);
      forall i, j | 0 <= i < j < |[users[0]] + rest|
        ensures ([users[0]] + rest)[i].userId != ([users[0]] + rest)[j].userId
      {
        if i == 0 {
          assert Find(users[1..], users[0].userId).None?;
          assert Find(rest, users[0].userId).None?;
          assert ([users[0]] + rest)[j] == rest[j - 1];
        }
      }
    }
  }

  /** A rejoin keeps the user's place in the Map's order and changes no other entry. */
  lemma {:induction false} UpsertInPlace(users: seq<UserEntry>, e: UserEntry, i: nat)
    requires i < |users| && users[i].userId == e.userId
    requires forall j :: 0 <= j < i ==> users[j].userId != e.userId
    ensures Upsert(users, e) == users[i := e]
  {
    if i > 0 {
      UpsertInPlace(users[1..], e, i - 1);
      assert [users[0]] + users[1..][i - 1 := e] == users[i := e];
    } else {
      assert [e] + users[1..] == users[0 := e];
    }
  }

  /** Setting a new id appends its entry after all existing ones, as a Map orders a new key last. */
  lemma {:induction false} UpsertAppends(users: seq<UserEntry>, e: UserEntry)
    requires Find(users, e.userId).None?
    ensures Upsert(users, e) == users + [e]
  {
    if users != [] {
      UpsertAppends(users[1..], e);
      assert [users[0]] + (users[1..] + [e]) == users + [e];
    }
  }

  /** The entries left after `disconnect` removes the first one whose socketId is `sid`. */
  function WithoutFirstSocket(users: seq<UserEntry>, sid: SocketId): (r: seq<UserEntry>)
    ensures |r| == if NoSocket(users, sid) then |users| else |users| - 1
  {
    if users == [] then []
    else if users[0].socketId == sid then users[1..]
    else [users[0]] + WithoutFirstSocket(users[1..], sid)
  }

  /** No entry has socketId `sid`. */
  predicate NoSocket(users: seq<UserEntry>, sid: SocketId)
  {
    forall i :: 0 <= i < |users| ==> users[i].socketId != sid
  }

  /** When no entry has the socket, `disconnect` leaves the registry as it is. */
  lemma {:induction false} WithoutFirstSocketNone(users: seq<UserEntry>, sid: SocketId)
    requires NoSocket(users, sid)
    ensures WithoutFirstSocket(users, sid) == users
  {
    if users != [] {
      WithoutFirstSocketNone(users[1..], sid);
    }
  }

  /** Otherwise `disconnect` deletes exactly the first entry that has the socket and keeps the others in order. */
  lemma {:induction false} WithoutFirstSocketAt(users: seq<UserEntry>, sid: SocketId, i: nat)
    requires i < |users| && users[i].socketId == sid && NoSocket(users[..i], sid)
    ensures WithoutFirstSocket(users, sid) == users[..i] + users[i + 1..]
  {
    if i > 0 {
      assert users[0] == users[..i][0];
      assert users[1..][..i - 1] == users[1..i];
      WithoutFirstSocketAt(users[1..], sid, i - 1);
      assert users[..i] == [users[0]] + users[1..i];
    }
  }

  /** Deleting one entry keeps the keys unique. */
  lemma UniqueIdsRemove(users: seq<UserEntry>, i: nat)
    requires UniqueIds(users) && i < |users|
    ensures UniqueIds(users[..i] + users[i + 1..])
  {
    var r := users[..i] + users[i + 1..];
    forall a, b | 0 <= a < b < |r| ensures r[a].userId != r[b].userId {
      var a' := if a < i then a else a + 1;
      var b' := if b < i then b else b + 1;
      assert r[a] == users[a'] && r[b] == users[b'];
    }
  }
}
