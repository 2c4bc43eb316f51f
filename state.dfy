/**
 * The in-memory room and session registry (supersquare-backend/src/state.ts).
 * Registry is the value of the four collections StateManager mutates; each
 * StateManager method is specified by the function of the same name over that
 * value, and the lemmas below state what those functions keep.
 */
module Rooms {
  import opened Wrappers
  import opened GameTypes

  /** 'ONLINE' | 'IN_GAME' | 'OFFLINE' */
  datatype Presence = Online | InGame | Offline

  datatype User = User(
    id: string,
    name: string,
    socketId: string,
    status: Presence,
    friends: seq<string>,
    currentRoomId: Option<string>,
    incomingRequests: seq<string>,
    lastMessageAt: Option<int>)

  /** Slot X is filled at creation; slot O is None while the room waits for a second player. */
  datatype Players = Players(x: string, o: Option<string>)

  /** timer is the handle of the pending move timer, if one is armed. */
  datatype GameRoom = GameRoom(
    roomId: string,
    players: Players,
    gameState: GameState,
    spectators: seq<string>,
    timer: Option<nat>,
    timerStartTime: Option<int>)

  /**
   * users, rooms, socketUserMap and matchmakingQueue. The queue is a JavaScript
   * Set: insertion-ordered and without repetitions.
   */
  datatype Registry = Registry(
    users: map<string, User>,
    rooms: map<string, GameRoom>,
    sockets: map<string, string>,
    queue: seq<string>)

  predicate NoDuplicates(q: seq<string>)
  {
    forall i, j :: 0 <= i < j < |q| ==> q[i] != q[j]
  }

  /** Set.delete: id leaves the queue, the others keep their order. */
  function Without(q: seq<string>, id: string): (r: seq<string>)
    ensures forall x :: x in r <==> x in q && x != id
    ensures NoDuplicates(q) ==> NoDuplicates(r)
    ensures id !in q ==> r == q
  {
    if q == [] then []
    else if q[0] == id then Without(q[1..], id)
    else
      var rest := Without(q[1..], id);
      assert NoDuplicates(q) ==> NoDuplicates(q[1..]) && q[0] !in rest;
      assert forall k :: 0 < k < |rest| + 1 ==> ([q[0]] + rest)[k] == rest[k - 1];
      [q[0]] + rest
  }

  /** Set.add: id joins at the end unless it is already there. */
  function With(q: seq<string>, id: string): (r: seq<string>)
    ensures forall x :: x in r <==> x in q || x == id
    ensures NoDuplicates(q) ==> NoDuplicates(r)
    ensures id in q ==> r == q
    ensures id !in q ==> r == q + [id]
  {
    if id in q then q else q + [id]
  }

  /** id holds slot X or slot O. */
  predicate HoldsSlot(p: Players, id: string)
  {
    p.x == id || p.o == Some(id)
  }

  /**
   * The registry's own invariant: every socket maps to a known user, users and
   * rooms are stored under their own ids, IN_GAME users have a room reference,
   * and the queue holds known users once each.
   */
  ghost predicate Valid(r: Registry)
  {
    && (forall s :: s in r.sockets ==> r.sockets[s] in r.users)
    && (forall id :: id in r.users ==> r.users[id].id == id)
    && (forall id :: id in r.users && r.users[id].status == InGame ==> r.users[id].currentRoomId.Some?)
    && (forall rid :: rid in r.rooms ==> r.rooms[rid].roomId == rid)
    && NoDuplicates(r.queue)
    && (forall i :: 0 <= i < |r.queue| ==> r.queue[i] in r.users)
  }

  /** Every room reference names a stored room in which that user holds a slot. */
  ghost predicate Coherent(r: Registry)
  {
    forall id :: id in r.users && r.users[id].currentRoomId.Some? ==>
      r.users[id].currentRoomId.value in r.rooms &&
      HoldsSlot(r.rooms[r.users[id].currentRoomId.value].players, id)
  }

  /** getUser */
  function GetUser(r: Registry, userId: string): (u: Option<User>)
    ensures u.Some? <==> userId in r.users
    ensures u.Some? ==> u.value == r.users[userId]
  {
    if userId in r.users then Some(r.users[userId]) else None
  }

  /** getUserBySocket: nothing for an unmapped socket, otherwise the mapped user's record. */
  function UserBySocket(r: Registry, socketId: string): (u: Option<User>)
    ensures socketId !in r.sockets ==> u == None
    ensures Valid(r) && socketId in r.sockets ==> u == Some(r.users[r.sockets[socketId]])
    ensures Valid(r) && u.Some? ==> u.value.id == r.sockets[socketId] && u.value.id in r.users
  {
    if socketId !in r.sockets then None
    else GetUser(r, r.sockets[socketId])
  }

  /**
   * createUser: a known id keeps its record and only takes the new socket, the
   * new name and ONLINE; an unknown id gets a fresh ONLINE record. Either way
   * the socket maps to the user afterwards.
   */
  function UserCreated(r: Registry, userId: string, name: string, socketId: string,
                      friends: seq<string>, incomingRequests: seq<string>): (r': Registry)
    ensures userId in r'.users && r'.users.Keys == r.users.Keys + {userId}
    ensures r'.users[userId].socketId == socketId && r'.users[userId].status == Online
    ensures r'.users[userId].name == name
    ensures userId in r.users ==>
      var (u, u') := (r.users[userId], r'.users[userId]);
      u'.id == u.id && u'.friends == u.friends && u'.incomingRequests == u.incomingRequests &&
      u'.currentRoomId == u.currentRoomId && u'.lastMessageAt == u.lastMessageAt
    ensures userId !in r.users ==>
      r'.users[userId] == User(userId, name, socketId, Online, friends, None, incomingRequests, None)
    ensures forall id :: id in r.users && id != userId ==> r'.users[id] == r.users[id]
    ensures r'.sockets == r.sockets[socketId := userId]
    ensures r'.rooms == r.rooms && r'.queue == r.queue
  {
    var u := if userId in r.users
             then r.users[userId].(socketId := socketId, status := Online, name := name)
             else User(userId, name, socketId, Online, friends, None, incomingRequests, None);
    r.(users := r.users[userId := u], sockets := r.sockets[socketId := userId])
  }

  /** The closing socket is the one the user it maps to is currently using. */
  predicate IsCurrentSocket(r: Registry, id: string, socketId: string)
  {
    socketId in r.sockets && r.sockets[socketId] == id && id in r.users && r.users[id].socketId == socketId
  }

  /**
   * removeUserSocket: the mapping of the socket always goes; the user becomes
   * OFFLINE and leaves the queue only when this socket is still their current one.
   */
  function SocketRemoved(r: Registry, socketId: string): (r': Registry)
    ensures r'.sockets == r.sockets - {socketId}
    ensures r'.users.Keys == r.users.Keys
    ensures forall id :: id in r.users ==>
      r'.users[id] == if IsCurrentSocket(r, id, socketId) then r.users[id].(status := Offline) else r.users[id]
    ensures forall x :: x in r'.queue <==> x in r.queue && !IsCurrentSocket(r, x, socketId)
    ensures r'.rooms == r.rooms
    ensures socketId !in r.sockets ==> r' == r
  {
    if socketId !in r.sockets then r
    else
      var userId := r.sockets[socketId];
      Unmapped(if userId in r.users && r.users[userId].socketId == socketId then Offlined(r, userId) else r, socketId)
  }

  /** The registry with one user OFFLINE and out of the queue. */
  function Offlined(r: Registry, userId: string): Registry
    requires userId in r.users
  {
    r.(users := r.users[userId := r.users[userId].(status := Offline)], queue := Without(r.queue, userId))
  }

  /** The registry without one socket mapping. */
  function Unmapped(r: Registry, socketId: string): Registry
  {
    r.(sockets := r.sockets - {socketId})
  }

  /** A known player enters the room: IN_GAME there, and out of the queue. */
  function Seat(r: Registry, id: string, roomId: string): Registry
  {
    if id in r.users
    then r.(users := r.users[id := r.users[id].(status := InGame, currentRoomId := Some(roomId))],
            queue := Without(r.queue, id))
    else r
  }

  /**
   * createRoom: the room is stored with the given slots, no spectators and no
   * timer; each known player becomes IN_GAME in it and leaves the queue.
   */
  function RoomCreated(r: Registry, roomId: string, playerX: string, playerO: Option<string>,
                      initialState: GameState): (r': Registry)
    ensures r'.rooms == r.rooms[roomId := GameRoom(roomId, Players(playerX, playerO), initialState, [], None, None)]
    ensures r'.users.Keys == r.users.Keys
    ensures forall id :: id in r.users ==>
      r'.users[id] == if id == playerX || playerO == Some(id)
                      then r.users[id].(status := InGame, currentRoomId := Some(roomId))
                      else r.users[id]
    ensures forall x :: x in r'.queue <==> x in r.queue && !((x == playerX || playerO == Some(x)) && x in r.users)
    ensures r'.sockets == r.sockets
  {
    var r1 := r.(rooms := r.rooms[roomId := GameRoom(roomId, Players(playerX, playerO), initialState, [], None, None)]);
    var r2 := Seat(r1, playerX, roomId);
    if playerO.Some? then Seat(r2, playerO.value, roomId) else r2
  }

  /**
   * joinRoom: false and no change when the room is missing or slot O is taken;
   * otherwise slot O is filled and the joiner, if known, is seated.
   */
  function RoomJoined(r: Registry, roomId: string, playerO: string): (res: (Registry, bool))
    ensures res.1 <==> roomId in r.rooms && r.rooms[roomId].players.o.None?
    ensures !res.1 ==> res.0 == r
    ensures res.1 ==>
      var room := r.rooms[roomId];
      && res.0.rooms == r.rooms[roomId := room.(players := room.players.(o := Some(playerO)))]
      && res.0.users.Keys == r.users.Keys
      && (forall id :: id in r.users ==>
           res.0.users[id] == if id == playerO
                              then r.users[id].(status := InGame, currentRoomId := Some(roomId))
                              else r.users[id])
      && (forall x :: x in res.0.queue <==> x in r.queue && !(x == playerO && x in r.users))
      && res.0.sockets == r.sockets
  {
    if roomId !in r.rooms then (r, false)
    else
      var room := r.rooms[roomId];
      if room.players.o.Some? then (r, false)
      else
        var r1 := r.(rooms := r.rooms[roomId := room.(players := room.players.(o := Some(playerO)))]);
        (Seat(r1, playerO, roomId), true)
  }

  /** As deleteRoom is written: a player still pointing at the room goes back to ONLINE with no room. */
  function ReleaseAsWritten(r: Registry, id: string, roomId: string): Registry
  {
    if id in r.users && r.users[id].currentRoomId == Some(roomId)
    then r.(users := r.users[id := r.users[id].(status := Online, currentRoomId := None)])
    else r
  }

  /**
   * deleteRoom as written: no change for a missing room; otherwise only its
   * slot holders whose reference is this room go back to ONLINE with no room,
   * and the room goes.
   */
  function RoomDeletedAsWritten(r: Registry, roomId: string): (r': Registry)
    ensures roomId !in r.rooms ==> r' == r
    ensures r'.rooms == r.rooms - {roomId}
    ensures r'.users.Keys == r.users.Keys
    ensures roomId in r.rooms ==> forall id :: id in r.users ==>
      r'.users[id] == if HoldsSlot(r.rooms[roomId].players, id) && r.users[id].currentRoomId == Some(roomId)
                      then r.users[id].(status := Online, currentRoomId := None)
                      else r.users[id]
    ensures r'.queue == r.queue && r'.sockets == r.sockets
  {
    if roomId !in r.rooms then r
    else
      var room := r.rooms[roomId];
      var r1 := ReleaseAsWritten(r, room.players.x, roomId);
      var r2 := if room.players.o.Some? then ReleaseAsWritten(r1, room.players.o.value, roomId) else r1;
      r2.(rooms := r2.rooms - {roomId})
  }

  /** The presence a player returns to when their room closes: OFFLINE stays OFFLINE, anything else is ONLINE. */
  function Returning(st: Presence): (st': Presence)
    ensures st' == Offline <==> st == Offline
    ensures st' != InGame
  {
    if st == Offline then Offline else Online
  }

  /** A player still pointing at the room leaves it; a disconnected one stays OFFLINE. */
  function Release(r: Registry, id: string, roomId: string): Registry
  {
    if id in r.users && r.users[id].currentRoomId == Some(roomId)
    then r.(users := r.users[id := r.users[id].(status := Returning(r.users[id].status), currentRoomId := None)])
    else r
  }

  /**
   * deleteRoom, corrected: no change for a missing room; otherwise only its
   * slot holders whose reference is this room lose the reference and leave
   * IN_GAME (a disconnected one stays OFFLINE), and the room goes.
   */
  function RoomDeleted(r: Registry, roomId: string): (r': Registry)
    ensures roomId !in r.rooms ==> r' == r
    ensures r'.rooms == r.rooms - {roomId}
    ensures r'.users.Keys == r.users.Keys
    ensures roomId in r.rooms ==> forall id :: id in r.users ==>
      r'.users[id] == if HoldsSlot(r.rooms[roomId].players, id) && r.users[id].currentRoomId == Some(roomId)
                      then r.users[id].(status := Returning(r.users[id].status), currentRoomId := None)
                      else r.users[id]
    ensures r'.queue == r.queue && r'.sockets == r.sockets
  {
    if roomId !in r.rooms then r
    else
      var room := r.rooms[roomId];
      var r1 := Release(r, room.players.x, roomId);
      var r2 := if room.players.o.Some? then Release(r1, room.players.o.value, roomId) else r1;
      r2.(rooms := r2.rooms - {roomId})
  }

  /**
   * With deleteRoom as written, a player who disconnects from a live room is
   * first marked OFFLINE by removeUserSocket and then put back to ONLINE when
   * the room is closed, although no socket of theirs is open.
   */
  lemma DisconnectRevivesUser(r: Registry, socketId: string, id: string, roomId: string)
    requires IsCurrentSocket(r, id, socketId)
    requires r.users[id].currentRoomId == Some(roomId)
    requires roomId in r.rooms && HoldsSlot(r.rooms[roomId].players, id)
    ensures SocketRemoved(r, socketId).users[id].status == Offline
    ensures RoomDeletedAsWritten(SocketRemoved(r, socketId), roomId).users[id].status == Online
    ensures socketId !in RoomDeletedAsWritten(SocketRemoved(r, socketId), roomId).sockets
  {
  }

  /** With the corrected deleteRoom the disconnected player stays OFFLINE and leaves the room. */
  lemma DisconnectStaysOffline(r: Registry, socketId: string, id: string, roomId: string)
    requires IsCurrentSocket(r, id, socketId)
    requires r.users[id].currentRoomId == Some(roomId)
    requires roomId in r.rooms && HoldsSlot(r.rooms[roomId].players, id)
    ensures RoomDeleted(SocketRemoved(r, socketId), roomId).users[id].status == Offline
    ensures RoomDeleted(SocketRemoved(r, socketId), roomId).users[id].currentRoomId == None
  {
  }

  /** Closing a room never brings a disconnected player back, and touches no socket mapping. */
  lemma RoomDeletedKeepsOffline(r: Registry, roomId: string, id: string)
    requires id in r.users && r.users[id].status == Offline
    ensures id in RoomDeleted(r, roomId).users && RoomDeleted(r, roomId).users[id].status == Offline
    ensures RoomDeleted(r, roomId).sockets == r.sockets
  {
  }

  /** The correction changes nothing for a player who is still connected. */
  lemma RoomDeletedAgreesWhenConnected(r: Registry, roomId: string)
    requires forall id :: id in r.users ==> r.users[id].status != Offline
    ensures RoomDeleted(r, roomId) == RoomDeletedAsWritten(r, roomId)
  {
  }

  /**
   * The whole difference between the corrected and the as-written deleteRoom:
   * a slot holder who points at the room and is OFFLINE stays OFFLINE in the
   * one and becomes ONLINE in the other; everything else is the same.
   */
  lemma CorrectionOnlyKeepsOffline(r: Registry, roomId: string)
    ensures var (c, w) := (RoomDeleted(r, roomId), RoomDeletedAsWritten(r, roomId));
      && c.rooms == w.rooms && c.queue == w.queue && c.sockets == w.sockets && c.users.Keys == w.users.Keys
      && forall id :: id in r.users ==>
           if roomId in r.rooms && HoldsSlot(r.rooms[roomId].players, id)
              && r.users[id].currentRoomId == Some(roomId) && r.users[id].status == Offline
           then c.users[id].status == Offline && w.users[id] == c.users[id].(status := Online)
           else c.users[id] == w.users[id]
  {
  }

  /** The empty registry the server starts with. */
  function EmptyRegistry(): (r: Registry)
    ensures Valid(r) && Coherent(r)
  {
    Registry(map[], map[], map[], [])
  }

  lemma UserCreatedKeepsInvariants(r: Registry, userId: string, name: string, socketId: string,
                                  friends: seq<string>, incomingRequests: seq<string>)
    requires Valid(r)
    ensures Valid(UserCreated(r, userId, name, socketId, friends, incomingRequests))
    ensures Coherent(r) ==> Coherent(UserCreated(r, userId, name, socketId, friends, incomingRequests))
  {
  }

  lemma SocketRemovedKeepsInvariants(r: Registry, socketId: string)
    requires Valid(r)
    ensures Valid(SocketRemoved(r, socketId))
    ensures Coherent(r) ==> Coherent(SocketRemoved(r, socketId))
  {
    if socketId in r.sockets && r.sockets[socketId] in r.users && r.users[r.sockets[socketId]].socketId == socketId {
      OfflinedKeepsInvariants(r, r.sockets[socketId]);
    }
  }

  lemma OfflinedKeepsInvariants(r: Registry, userId: string)
    requires Valid(r) && userId in r.users
    ensures Valid(Offlined(r, userId))
    ensures Coherent(r) ==> Coherent(Offlined(r, userId))
  {
    var r' := Offlined(r, userId);
    forall i | 0 <= i < |r'.queue| ensures r'.queue[i] in r'.users {
      assert r'.queue[i] in r'.queue;
    }
  }

  /** Seating keeps the invariant, and keeps every room reference sound when the user holds a slot of that room. */
  lemma SeatKeepsInvariants(r: Registry, id: string, roomId: string)
    requires Valid(r)
    ensures Valid(Seat(r, id, roomId))
    ensures Coherent(r) && roomId in r.rooms && HoldsSlot(r.rooms[roomId].players, id) ==> Coherent(Seat(r, id, roomId))
  {
    var r' := Seat(r, id, roomId);
    forall i | 0 <= i < |r'.queue| ensures r'.queue[i] in r'.users {
      assert r'.queue[i] in r'.queue;
    }
  }

  /** createRoom keeps the invariant; with an id that is not in use it also keeps every room reference sound. */
  lemma RoomCreatedKeepsInvariants(r: Registry, roomId: string, playerX: string, playerO: Option<string>,
                                  initialState: GameState)
    requires Valid(r)
    ensures Valid(RoomCreated(r, roomId, playerX, playerO, initialState))
    ensures Coherent(r) && roomId !in r.rooms ==> Coherent(RoomCreated(r, roomId, playerX, playerO, initialState))
  {
    var r1 := r.(rooms := r.rooms[roomId := GameRoom(roomId, Players(playerX, playerO), initialState, [], None, None)]);
    assert Coherent(r) && roomId !in r.rooms ==> Coherent(r1);
    SeatKeepsInvariants(r1, playerX, roomId);
    if playerO.Some? {
      SeatKeepsInvariants(Seat(r1, playerX, roomId), playerO.value, roomId);
    }
  }

  lemma RoomJoinedKeepsInvariants(r: Registry, roomId: string, playerO: string)
    requires Valid(r)
    ensures Valid(RoomJoined(r, roomId, playerO).0)
    ensures Coherent(r) ==> Coherent(RoomJoined(r, roomId, playerO).0)
  {
    if roomId in r.rooms && r.rooms[roomId].players.o.None? {
      var room := r.rooms[roomId];
      var room' := room.(players := room.players.(o := Some(playerO)));
      SlotAddedKeepsInvariants(r, roomId, room');
      var r1 := r.(rooms := r.rooms[roomId := room']);
      SeatKeepsInvariants(r1, playerO, roomId);
      assert RoomJoined(r, roomId, playerO).0 == Seat(r1, playerO, roomId);
    }
  }

  /** deleteRoom keeps the invariant and leaves no user pointing at the deleted room. */
  lemma RoomDeletedKeepsInvariants(r: Registry, roomId: string)
    requires Valid(r)
    ensures Valid(RoomDeleted(r, roomId))
    ensures Coherent(r) ==> Coherent(RoomDeleted(r, roomId))
    ensures Coherent(r) ==> forall id :: id in RoomDeleted(r, roomId).users ==>
      RoomDeleted(r, roomId).users[id].currentRoomId != Some(roomId)
  {
  }

  /** deleteRoom as written keeps both invariants too: the statuses it sets play no part in them. */
  lemma RoomDeletedAsWrittenKeepsInvariants(r: Registry, roomId: string)
    requires Valid(r)
    ensures Valid(RoomDeletedAsWritten(r, roomId))
    ensures Coherent(r) ==> Coherent(RoomDeletedAsWritten(r, roomId))
  {
  }

  /** A user record changed in fields other than its id, status and room keeps both invariants. */
  lemma UserEditKeepsInvariants(r: Registry, id: string, u: User)
    requires Valid(r) && id in r.users
    requires u.id == id && u.status == r.users[id].status && u.currentRoomId == r.users[id].currentRoomId
    ensures Valid(r.(users := r.users[id := u]))
    ensures Coherent(r) ==> Coherent(r.(users := r.users[id := u]))
  {
    var r' := r.(users := r.users[id := u]);
    forall i | 0 <= i < |r'.queue| ensures r'.queue[i] in r'.users {
      assert r.queue[i] in r.users;
    }
    if Coherent(r) {
      forall x | x in r'.users && r'.users[x].currentRoomId.Some?
        ensures r'.users[x].currentRoomId.value in r'.rooms
        ensures HoldsSlot(r'.rooms[r'.users[x].currentRoomId.value].players, x)
      {
        assert r'.users[x].currentRoomId == r.users[x].currentRoomId;
      }
    }
  }

  /** A room record changed in fields other than its id and players keeps both invariants. */
  lemma RoomEditKeepsInvariants(r: Registry, roomId: string, room: GameRoom)
    requires Valid(r) && roomId in r.rooms
    requires room.roomId == roomId && room.players == r.rooms[roomId].players
    ensures Valid(r.(rooms := r.rooms[roomId := room]))
    ensures Coherent(r) ==> Coherent(r.(rooms := r.rooms[roomId := room]))
  {
  }

  /** A queue without repeats, of known users only, can replace the old one without breaking either invariant. */
  lemma QueueReplacedKeepsInvariants(r: Registry, q: seq<string>)
    requires Valid(r) && NoDuplicates(q) && forall x :: x in q ==> x in r.users
    ensures Valid(r.(queue := q))
    ensures Coherent(r) ==> Coherent(r.(queue := q))
  {
    forall i | 0 <= i < |q| ensures q[i] in r.users {
      assert q[i] in q;
    }
  }

  /** A room edited so that every former slot holder still holds a slot keeps both invariants. */
  lemma SlotAddedKeepsInvariants(r: Registry, roomId: string, room: GameRoom)
    requires Valid(r) && roomId in r.rooms && room.roomId == roomId
    requires room.players.x == r.rooms[roomId].players.x
    requires r.rooms[roomId].players.o.Some? ==> room.players.o == r.rooms[roomId].players.o
    ensures Valid(r.(rooms := r.rooms[roomId := room]))
    ensures Coherent(r) ==> Coherent(r.(rooms := r.rooms[roomId := room]))
  {
  }

  /**
   * StateManager: the four collections, mutated in place by its methods. Each
   * method leaves Snap() equal to the function of the same name applied to the
   * old value.
   */
  class StateManager {
    var users: map<string, User>
    var rooms: map<string, GameRoom>
    var socketUserMap: map<string, string>
    var matchmakingQueue: seq<string>

    function Snap(): Registry
      reads this
    {
      Registry(users, rooms, socketUserMap, matchmakingQueue)
    }

    constructor()
      ensures Snap() == EmptyRegistry()
    {
      users := map[];
      rooms := map[];
      socketUserMap := map[];
      matchmakingQueue := [];
    }

    method CreateUser(userId: string, name: string, socketId: string,
                      friends: seq<string>, incomingRequests: seq<string>) returns (user: User)
      modifies this
      ensures Snap() == UserCreated(old(Snap()), userId, name, socketId, friends, incomingRequests)
      ensures user == users[userId]
    {
      if userId in users {
        var u := users[userId];
        u := u.(socketId := socketId);
        u := u.(status := Online);
        u := u.(name := name);
        users := users[userId := u];
      } else {
        users := users[userId := User(userId, name, socketId, Online, friends, None, incomingRequests, None)];
      }
      socketUserMap := socketUserMap[socketId := userId];
      user := users[userId];
    }

    method RemoveUserSocket(socketId: string)
      modifies this
      ensures Snap() == SocketRemoved(old(Snap()), socketId)
    {
      if socketId in socketUserMap {
        var userId := socketUserMap[socketId];
        if userId in users {
          if users[userId].socketId == socketId {
            users := users[userId := users[userId].(status := Offline)];
            matchmakingQueue := Without(matchmakingQueue, userId);
          }
        }
        socketUserMap := socketUserMap - {socketId};
      }
    }

    method CreateRoom(roomId: string, playerX: string, playerO: Option<string>, initialState: GameState)
      returns (room: GameRoom)
      modifies this
      ensures Snap() == RoomCreated(old(Snap()), roomId, playerX, playerO, initialState)
      ensures room == rooms[roomId]
    {
      rooms := rooms[roomId := GameRoom(roomId, Players(playerX, playerO), initialState, [], None, None)];
      if playerX in users {
        users := users[playerX := users[playerX].(status := InGame, currentRoomId := Some(roomId))];
        matchmakingQueue := Without(matchmakingQueue, playerX);
      }
      if playerO.Some? {
        var o := playerO.value;
        if o in users {
          users := users[o := users[o].(status := InGame, currentRoomId := Some(roomId))];
          matchmakingQueue := Without(matchmakingQueue, o);
        }
      }
      room := rooms[roomId];
    }

    method JoinRoom(roomId: string, playerO: string) returns (ok: bool)
      modifies this
      ensures (Snap(), ok) == RoomJoined(old(Snap()), roomId, playerO)
    {
      if roomId !in rooms {
        return false;
      }
      var room := rooms[roomId];
      if room.players.o.Some? {
        return false;
      }
      rooms := rooms[roomId := room.(players := room.players.(o := Some(playerO)))];
      if playerO in users {
        users := users[playerO := users[playerO].(status := InGame, currentRoomId := Some(roomId))];
        matchmakingQueue := Without(matchmakingQueue, playerO);
      }
      return true;
    }

    method DeleteRoom(roomId: string)
      modifies this
      ensures Snap() == RoomDeleted(old(Snap()), roomId)
    {
      if roomId in rooms {
        var room := rooms[roomId];
        var x := room.players.x;
        if x in users && users[x].currentRoomId == Some(roomId) {
          users := users[x := users[x].(status := Returning(users[x].status), currentRoomId := None)];
        }
        if room.players.o.Some? {
          var o := room.players.o.value;
          if o in users && users[o].currentRoomId == Some(roomId) {
            users := users[o := users[o].(status := Returning(users[o].status), currentRoomId := None)];
          }
        }
        rooms := rooms - {roomId};
      }
    }
  }
}
