/**
 * The in-memory side of the socket handlers in supersquare-backend/src/server.ts.
 * MatchServer owns the registry, the profile store the database stands for, and
 * the counter that issues move-timer handles. Every handler takes the calling
 * socket id, the clock reading and the random choices as parameters and returns
 * the messages it emits, in order.
 */
module Server {
  import opened Wrappers
  import opened GameTypes
  import opened Rules
  import opened RuleProperties
  import opened Rooms
  import opened ServerLogic

  /** resetTimer's effect on the registry: the room's timer is the given handle, started at now. */
  function TimerArmed(r: Registry, roomId: string, now: int, handle: nat): Registry
  {
    if roomId in r.rooms
    then r.(rooms := r.rooms[roomId := r.rooms[roomId].(timer := Some(handle), timerStartTime := Some(now))])
    else r
  }

  /** room.gameState = newState */
  function StateStored(r: Registry, roomId: string, g: GameState): Registry
    requires roomId in r.rooms
  {
    r.(rooms := r.rooms[roomId := r.rooms[roomId].(gameState := g)])
  }

  /** GAME_UPDATE to each known slot holder. */
  function UpdateNotices(r: Registry, p: Players, g: GameState): seq<Event>
  {
    (if p.x in r.users then [Event(r.users[p.x].socketId, GameUpdate(g))] else []) +
    (if p.o.Some? && p.o.value in r.users then [Event(r.users[p.o.value].socketId, GameUpdate(g))] else [])
  }

  /**
   * What an accepted move leaves behind, from registry r: the state stored in
   * the room and GAME_UPDATE to both players, then for a finished game
   * handleGameOver's result (a draw, or a checkmate won by the holder of the
   * winning symbol) and for an unfinished one a fresh move timer.
   */
  ghost predicate MoveStored(r: Registry, profiles: map<string, Stats>, nextTimer: nat, roomId: string, g: GameState,
                             now: int, dbSteps: nat, r': Registry, profiles': map<string, Stats>, events: seq<Event>)
    requires roomId in r.rooms
  {
    var p := r.rooms[roomId].players;
    var r1 := StateStored(r, roomId, g);
    var updates := UpdateNotices(r1, p, g);
    if g.winner == Undecided then
      r' == TimerArmed(r1, roomId, now, nextTimer) && profiles' == profiles && events == updates
    else
      var e := if g.winner == Drawn
               then GameOverResult(r1, profiles, roomId, None, true, ByDraw, dbSteps)
               else GameOverResult(r1, profiles, roomId, WinnerId(p, g.winner), false, ByCheckmate, dbSteps);
      r' == e.reg && profiles' == e.profiles && events == updates + e.events
  }

  /**
   * What disconnect leaves behind once the socket is unmapped, from registry
   * r: without a stored room, only FRIEND_STATUS notices; in a room without an
   * opponent, the room deleted and then the notices; with an opponent,
   * OPPONENT_DISCONNECTED to them, the notices, and handleGameOver's result
   * with the opponent winning by DISCONNECT.
   */
  ghost predicate Departed(r: Registry, profiles: map<string, Stats>, u: User, dbSteps: nat,
                           r': Registry, profiles': map<string, Stats>, events: seq<Event>)
    ensures Departed(r, profiles, u, dbSteps, r', profiles', events) ==>
      r'.sockets == r.sockets && r'.queue == r.queue && r'.rooms.Keys <= r.rooms.Keys && r'.users.Keys == r.users.Keys
    ensures Departed(r, profiles, u, dbSteps, r', profiles', events) && u.currentRoomId.Some? &&
            u.currentRoomId.value in r.rooms &&
            (r.rooms[u.currentRoomId.value].players.o.Some? || r.rooms[u.currentRoomId.value].players.x == u.id) ==>
      u.currentRoomId.value !in r'.rooms
    ensures Departed(r, profiles, u, dbSteps, r', profiles', events) && u.id in r.users && r.users[u.id].status == Offline ==>
      r'.users[u.id].status == Offline
  {
    if u.currentRoomId.None? || u.currentRoomId.value !in r.rooms then
      r' == r && profiles' == profiles && events == FriendNotices(r, u.friends, u.id)
    else
      var rid := u.currentRoomId.value;
      var opp := OpponentOf(r.rooms[rid].players, u.id);
      if opp.None? then
        r' == RoomDeleted(r, rid) && profiles' == profiles && events == FriendNotices(RoomDeleted(r, rid), u.friends, u.id)
      else
        var e := GameOverResult(r, profiles, rid, opp, false, ByDisconnect, dbSteps);
        r' == e.reg && profiles' == e.profiles &&
        events == (if opp.value in r.users then [Event(r.users[opp.value].socketId, OpponentDisconnected)] else []) +
                  FriendNotices(r, u.friends, u.id) + e.events
  }

  /**
   * What JOIN_ROOM leaves behind for a known user, from registry r: when the
   * room is missing or full, nothing but an ERROR; otherwise the user holds
   * slot O; when both profile lookups (dbSteps of them complete) succeed,
   * the move timer starts and both players get GAME_START, and when one
   * fails the handler stops there, with the room joined but nothing sent.
   */
  ghost predicate JoinedGame(r: Registry, nextTimer: nat, me: string, socketId: string, code: string, now: int,
                             dbSteps: nat, r': Registry, nextTimer': nat, events: seq<Event>)
  {
    var r1 := RoomJoined(r, code, me).0;
    if !RoomJoined(r, code, me).1 then
      r' == r && nextTimer' == nextTimer && events == [Event(socketId, Error("Room not found or full"))]
    else if dbSteps < 2 then
      r' == r1 && nextTimer' == nextTimer && events == []
    else
      var room := r1.rooms[code];
      r' == TimerArmed(r1, code, now, nextTimer) && nextTimer' == nextTimer + 1 &&
      events == (if room.players.x in r1.users
                 then [Event(r1.users[room.players.x].socketId, GameStart(code, me, X, room.gameState))]
                 else []) +
                [Event(socketId, GameStart(code, room.players.x, O, room.gameState))]
  }

  /** The ERROR a refused move answers with, if any. */
  function MoveRejection(v: MoveVerdict, socketId: string): seq<Event>
  {
    match v
    case RoomMissing => [Event(socketId, Error("Room not found"))]
    case NotYourTurn => [Event(socketId, Error("Not your turn"))]
    case InvalidMove => [Event(socketId, Error("Invalid move"))]
    case _ => []
  }

  /** The ERROR a refused chat message answers with, if any. */
  function ChatRejection(v: ChatVerdict, socketId: string): seq<Event>
  {
    match v
    case NoUser => [Event(socketId, Error("User not found"))]
    case RoomMismatch => [Event(socketId, Error("Room mismatch"))]
    case NoRoom => [Event(socketId, Error("Room not found"))]
    case CoolingDown => [Event(socketId, Error("Cooldown active"))]
    case _ => []
  }

  /** MESSAGE_RECEIVED to each known slot holder on another socket, then the echo to the sender. */
  function ChatDeliveries(r: Registry, p: Players, socketId: string, m: Message): seq<Event>
  {
    (if p.x in r.users && r.users[p.x].socketId != socketId then [Event(r.users[p.x].socketId, m)] else []) +
    (if p.o.Some? && p.o.value in r.users && r.users[p.o.value].socketId != socketId
     then [Event(r.users[p.o.value].socketId, m)] else []) +
    [Event(socketId, m)]
  }

  /** GAME_START to both players of a new room, X first. */
  function StartNotices(r: Registry, roomId: string, pX: string, pO: string, g: GameState): seq<Event>
  {
    (if pX in r.users then [Event(r.users[pX].socketId, GameStart(roomId, pO, X, g))] else []) +
    (if pO in r.users then [Event(r.users[pO].socketId, GameStart(roomId, pX, O, g))] else [])
  }

  /** FRIEND_STATUS to every friend who is known and not OFFLINE, in list order. */
  function FriendNotices(r: Registry, friends: seq<string>, userId: string): seq<Event>
  {
    if friends == [] then []
    else
      var fid := friends[0];
      (if fid in r.users && r.users[fid].status != Offline
       then [Event(r.users[fid].socketId, FriendStatus(userId))] else []) +
      FriendNotices(r, friends[1..], userId)
  }

  /** The emptied room can be the stored one or one with its timer cleared: deleteRoom removes it either way. */
  lemma DeleteIgnoresRoomFields(r: Registry, roomId: string, room: GameRoom)
    requires roomId in r.rooms && room.players == r.rooms[roomId].players
    ensures RoomDeleted(r.(rooms := r.rooms[roomId := room]), roomId) == RoomDeleted(r, roomId)
    ensures RoomDeletedAsWritten(r.(rooms := r.rooms[roomId := room]), roomId) == RoomDeletedAsWritten(r, roomId)
  {
    var a := RoomDeleted(r.(rooms := r.rooms[roomId := room]), roomId);
    var b := RoomDeleted(r, roomId);
    assert a.rooms == b.rooms;
    assert a.users == b.users;
    var c := RoomDeletedAsWritten(r.(rooms := r.rooms[roomId := room]), roomId);
    var d := RoomDeletedAsWritten(r, roomId);
    assert c.rooms == d.rooms;
    assert c.users == d.users;
  }

  /**
   * The server's invariant over a registry value and the timer counter: the
   * registry's own invariant, every stored game state consistent, and every
   * armed timer handle already issued.
   */
  ghost predicate Inv(r: Registry, nextTimer: nat)
  {
    && Rooms.Valid(r)
    && (forall rid {:trigger Playable(r.rooms[rid])} :: rid in r.rooms ==> Playable(r.rooms[rid]))
    && (forall rid :: rid in r.rooms && r.rooms[rid].timer.Some? ==> r.rooms[rid].timer.value < nextTimer)
  }

  lemma PlayableAt(r: Registry, n: nat, roomId: string)
    requires Inv(r, n) && roomId in r.rooms
    ensures Playable(r.rooms[roomId]) && WellFormed(r.rooms[roomId].gameState)
  {
  }

  lemma ArmedKeepsInv(r: Registry, n: nat, roomId: string, now: int)
    requires Inv(r, n)
    ensures Inv(TimerArmed(r, roomId, now, n), if roomId in r.rooms then n + 1 else n)
    ensures Coherent(r) ==> Coherent(TimerArmed(r, roomId, now, n))
  {
    if roomId in r.rooms {
      RoomEditKeepsInvariants(r, roomId, r.rooms[roomId].(timer := Some(n), timerStartTime := Some(now)));
      var r' := TimerArmed(r, roomId, now, n);
      forall rid | rid in r'.rooms ensures Playable(r'.rooms[rid]) {
        assert Playable(r.rooms[rid]);
      }
    }
  }

  lemma StoredKeepsInv(r: Registry, n: nat, roomId: string, g: GameState)
    requires Inv(r, n) && roomId in r.rooms && Playable(r.rooms[roomId].(gameState := g))
    ensures Inv(StateStored(r, roomId, g), n)
    ensures Coherent(r) ==> Coherent(StateStored(r, roomId, g))
  {
    RoomEditKeepsInvariants(r, roomId, r.rooms[roomId].(gameState := g));
    var r' := StateStored(r, roomId, g);
    forall rid | rid in r'.rooms ensures Playable(r'.rooms[rid]) {
      if rid != roomId {
        assert Playable(r.rooms[rid]);
      }
    }
  }

  lemma DeletedKeepsInv(r: Registry, n: nat, roomId: string)
    requires Inv(r, n)
    ensures Inv(RoomDeleted(r, roomId), n)
    ensures Coherent(r) ==> Coherent(RoomDeleted(r, roomId))
    ensures Inv(RoomDeletedAsWritten(r, roomId), n)
    ensures Coherent(r) ==> Coherent(RoomDeletedAsWritten(r, roomId))
  {
    RoomDeletedKeepsInvariants(r, roomId);
    RoomDeletedAsWrittenKeepsInvariants(r, roomId);
    var r' := RoomDeleted(r, roomId);
    forall rid | rid in r'.rooms ensures Playable(r'.rooms[rid]) {
      assert Playable(r.rooms[rid]);
    }
    var w := RoomDeletedAsWritten(r, roomId);
    forall rid | rid in w.rooms ensures Playable(w.rooms[rid]) {
      assert Playable(r.rooms[rid]);
    }
  }

  lemma GameOverKeepsInv(r: Registry, profiles: map<string, Stats>, n: nat, roomId: string,
                         winnerId: Option<string>, draw: bool, reason: Reason, dbSteps: nat)
    requires Inv(r, n)
    ensures Inv(GameOverResult(r, profiles, roomId, winnerId, draw, reason, dbSteps).reg, n)
    ensures Coherent(r) ==> Coherent(GameOverResult(r, profiles, roomId, winnerId, draw, reason, dbSteps).reg)
  {
    var r' := GameOverResult(r, profiles, roomId, winnerId, draw, reason, dbSteps).reg;
    if roomId in r.rooms {
      var room := r.rooms[roomId];
      if room.players.o.Some? {
        assert r' == RoomDeleted(r, roomId);
        DeletedKeepsInv(r, n, roomId);
      } else {
        assert r' == r.(rooms := r.rooms[roomId := room.(timer := None)]);
        RoomEditKeepsInvariants(r, roomId, room.(timer := None));
        SameGamesKeepsInv(r, r', n);
      }
    }
  }

  lemma CreatedKeepsInv(r: Registry, n: nat, roomId: string, playerX: string, playerO: Option<string>)
    requires Inv(r, n)
    ensures Inv(RoomCreated(r, roomId, playerX, playerO, InitialState()), n)
    ensures Coherent(r) && roomId !in r.rooms ==> Coherent(RoomCreated(r, roomId, playerX, playerO, InitialState()))
  {
    RoomCreatedKeepsInvariants(r, roomId, playerX, playerO, InitialState());
    InitialConsistent();
    var room := GameRoom(roomId, Players(playerX, playerO), InitialState(), [], None, None);
    assert Playable(room);
    var r' := RoomCreated(r, roomId, playerX, playerO, InitialState());
    forall rid | rid in r'.rooms ensures Playable(r'.rooms[rid]) {
      if rid != roomId {
        assert Playable(r.rooms[rid]);
      }
    }
  }

  lemma JoinedKeepsInv(r: Registry, n: nat, roomId: string, playerO: string)
    requires Inv(r, n)
    ensures Inv(RoomJoined(r, roomId, playerO).0, n)
    ensures Coherent(r) ==> Coherent(RoomJoined(r, roomId, playerO).0)
  {
    RoomJoinedKeepsInvariants(r, roomId, playerO);
    var r' := RoomJoined(r, roomId, playerO).0;
    if roomId in r.rooms && r.rooms[roomId].players.o.None? {
      var room := r.rooms[roomId];
      assert r'.rooms == r.rooms[roomId := room.(players := room.players.(o := Some(playerO)))];
    }
    SameGamesKeepsInv(r, r', n);
  }

  lemma SocketRemovedKeepsInv(r: Registry, n: nat, socketId: string)
    requires Inv(r, n)
    ensures Inv(SocketRemoved(r, socketId), n)
    ensures Coherent(r) ==> Coherent(SocketRemoved(r, socketId))
  {
    SocketRemovedKeepsInvariants(r, socketId);
    var r' := SocketRemoved(r, socketId);
    forall rid | rid in r'.rooms ensures Playable(r'.rooms[rid]) {
      assert Playable(r.rooms[rid]);
    }
  }

  lemma QueueKeepsInv(r: Registry, n: nat, q: seq<string>)
    requires Inv(r, n) && NoDuplicates(q) && forall x :: x in q ==> x in r.users
    ensures Inv(r.(queue := q), n)
    ensures Coherent(r) ==> Coherent(r.(queue := q))
  {
    QueueReplacedKeepsInvariants(r, q);
    SameGamesKeepsInv(r, r.(queue := q), n);
  }

  /** A valid registry whose rooms keep their game states, and keep or clear their timers, keeps the server invariant. */
  lemma SameGamesKeepsInv(r: Registry, r': Registry, n: nat)
    requires Inv(r, n) && Rooms.Valid(r')
    requires forall rid :: rid in r'.rooms ==>
      && rid in r.rooms && r'.rooms[rid].gameState == r.rooms[rid].gameState
      && (r'.rooms[rid].timer.Some? ==> r'.rooms[rid].timer == r.rooms[rid].timer)
    ensures Inv(r', n)
  {
    forall rid | rid in r'.rooms ensures Playable(r'.rooms[rid]) {
      assert Playable(r.rooms[rid]);
    }
  }

  class MatchServer {
    const reg: StateManager
    var profiles: map<string, Stats>
    var nextTimer: nat

    /** The server invariant, on the current registry and timer counter. */
    ghost predicate Valid()
      reads this, reg
    {
      Inv(reg.Snap(), nextTimer)
    }

    constructor(profiles: map<string, Stats>)
      ensures Valid() && fresh(reg)
      ensures reg.Snap() == EmptyRegistry() && this.profiles == profiles && nextTimer == 0
    {
      reg := new StateManager();
      this.profiles := profiles;
      nextTimer := 0;
    }

    /** getRemainingTime */
    function GetRemainingTime(roomId: string, now: int): (secs: int)
      reads this, reg
      ensures roomId !in reg.rooms ==> secs == 60
      ensures roomId in reg.rooms ==> secs == RemainingSeconds(reg.rooms[roomId].timerStartTime, now)
    {
      if roomId in reg.rooms then RemainingSeconds(reg.rooms[roomId].timerStartTime, now) else 60
    }

    /** handleGameOver */
    method HandleGameOver(roomId: string, winnerId: Option<string>, draw: bool, reason: Reason, dbSteps: nat)
      returns (events: seq<Event>)
      requires Valid()
      modifies this, reg
      ensures Valid()
      ensures var e := GameOverResult(old(reg.Snap()), old(profiles), roomId, winnerId, draw, reason, dbSteps);
        reg.Snap() == e.reg && profiles == e.profiles && events == e.events
      ensures nextTimer == old(nextTimer)
      ensures old(Coherent(reg.Snap())) ==> Coherent(reg.Snap())
    {
      if roomId !in reg.rooms {
        return [];
      }
      var room := reg.rooms[roomId];
      if room.players.o.None? {
        GameOverKeepsInv(reg.Snap(), profiles, nextTimer, roomId, winnerId, draw, reason, dbSteps);
        reg.rooms := reg.rooms[roomId := room.(timer := None)];
        return [];
      }
      GameOverOfPair(reg.Snap(), profiles, roomId, winnerId, draw, reason, dbSteps);
      events := CloseGame(roomId, winnerId, draw, reason, dbSteps);
    }

    /**
     * The part of handleGameOver for a room with two players: the timer is
     * cleared, the first dbSteps rating updates land, the notices go out and
     * the room is deleted.
     */
    method CloseGame(roomId: string, winnerId: Option<string>, draw: bool, reason: Reason, dbSteps: nat)
      returns (events: seq<Event>)
      requires Valid() && roomId in reg.rooms && reg.rooms[roomId].players.o.Some?
      modifies this, reg
      ensures Valid()
      ensures var r := old(reg.Snap());
        var p := r.rooms[roomId].players;
        var ds := OutcomeDeltas(p.x, p.o.value, winnerId, draw);
        && reg.Snap() == RoomDeleted(r, roomId)
        && profiles == ApplyDeltas(old(profiles), ds[..Min(dbSteps, |ds|)])
        && events == (if dbSteps >= |ds| + 2
                      then ProfileNotice(r, p.x, profiles) + ProfileNotice(r, p.o.value, profiles)
                      else []) +
                     OverNotice(r, p.x, winnerId, draw, reason) + OverNotice(r, p.o.value, winnerId, draw, reason)
      ensures nextTimer == old(nextTimer)
      ensures old(Coherent(reg.Snap())) ==> Coherent(reg.Snap())
    {
      var room := reg.rooms[roomId];
      var r := reg.Snap();
      DeletedKeepsInv(r, nextTimer, roomId);
      reg.rooms := reg.rooms[roomId := room.(timer := None)];
      var pX, pO := room.players.x, room.players.o.value;
      var ds := OutcomeDeltas(pX, pO, winnerId, draw);
      profiles := ApplyDeltas(profiles, ds[..Min(dbSteps, |ds|)]);
      events := [];
      if dbSteps >= |ds| + 2 {
        events := ProfileNotice(r, pX, profiles) + ProfileNotice(r, pO, profiles);
      }
      events := events + OverNotice(r, pX, winnerId, draw, reason) + OverNotice(r, pO, winnerId, draw, reason);
      DeleteIgnoresRoomFields(r, roomId, room.(timer := None));
      reg.DeleteRoom(roomId);
    }

    /** resetTimer: the previous timer of the room is cancelled and a fresh one starts at now. */
    method ResetTimer(roomId: string, now: int)
      requires Valid()
      modifies this, reg
      ensures Valid()
      ensures reg.Snap() == TimerArmed(old(reg.Snap()), roomId, now, old(nextTimer))
      ensures profiles == old(profiles)
      ensures nextTimer == if roomId in old(reg.rooms) then old(nextTimer) + 1 else old(nextTimer)
      ensures roomId in old(reg.rooms) ==> reg.rooms[roomId].timer != old(reg.rooms[roomId].timer)
      ensures old(Coherent(reg.Snap())) ==> Coherent(reg.Snap())
    {
      if roomId !in reg.rooms {
        return;
      }
      ArmedKeepsInv(reg.Snap(), nextTimer, roomId, now);
      var room := reg.rooms[roomId];
      reg.rooms := reg.rooms[roomId := room.(timer := Some(nextTimer), timerStartTime := Some(now))];
      nextTimer := nextTimer + 1;
    }

    /**
     * The move timer with this handle runs out: only a timer that is still
     * armed on an existing room acts, and it ends the game for the opponent of
     * the player on the move. A timer left running on a room that createRoom
     * replaced is not modelled: the new room starts with no timer.
     */
    method OnTimerFired(roomId: string, handle: nat, dbSteps: nat) returns (events: seq<Event>)
      requires Valid()
      modifies this, reg
      ensures Valid()
      ensures !(roomId in old(reg.rooms) && old(reg.rooms[roomId].timer) == Some(handle)) ==>
        reg.Snap() == old(reg.Snap()) && profiles == old(profiles) && events == []
      ensures roomId in old(reg.rooms) && old(reg.rooms[roomId].timer) == Some(handle) ==>
        var e := GameOverResult(old(reg.Snap()), old(profiles), roomId,
                                TimeoutWinner(old(reg.rooms[roomId])), false, ByTimeout, dbSteps);
        reg.Snap() == e.reg && profiles == e.profiles && events == e.events
      ensures nextTimer == old(nextTimer)
      ensures old(Coherent(reg.Snap())) ==> Coherent(reg.Snap())
    {
      if roomId !in reg.rooms || reg.rooms[roomId].timer != Some(handle) {
        return [];
      }
      var winnerId := TimeoutWinner(reg.rooms[roomId]);
      events := HandleGameOver(roomId, winnerId, false, ByTimeout, dbSteps);
    }

    /** MAKE_MOVE */
    method OnMakeMove(socketId: string, roomId: string, mv: Move, now: int, dbSteps: nat)
      returns (events: seq<Event>)
      requires Valid()
      modifies this, reg
      ensures Valid()
      ensures var user := UserBySocket(old(reg.Snap()), socketId);
        var room := if roomId in old(reg.rooms) then Some(old(reg.rooms[roomId])) else None;
        (room.Some? ==> Playable(room.value)) &&
        var v := JudgeMove(user, roomId, room, mv);
        && (!v.Accepted? ==>
             reg.Snap() == old(reg.Snap()) && profiles == old(profiles) && nextTimer == old(nextTimer) &&
             events == MoveRejection(v, socketId))
        && (v.Accepted? ==> MoveStored(old(reg.Snap()), old(profiles), old(nextTimer), roomId, v.next, now, dbSteps,
                                       reg.Snap(), profiles, events))
      ensures var user := UserBySocket(old(reg.Snap()), socketId);
        var room := if roomId in old(reg.rooms) then Some(old(reg.rooms[roomId])) else None;
        (room.Some? ==> Playable(room.value)) &&
        var v := JudgeMove(user, roomId, room, mv);
        v.Accepted? && v.next.winner.Won? ==> WinnerId(room.value.players, v.next.winner) == Some(user.value.id)
      ensures old(Coherent(reg.Snap())) ==> Coherent(reg.Snap())
    {
      var user := UserBySocket(reg.Snap(), socketId);
      var room := if roomId in reg.rooms then Some(reg.rooms[roomId]) else None;
      if room.Some? {
        PlayableAt(reg.Snap(), nextTimer, roomId);
      }
      AcceptedWinnerIsMover(user, roomId, room, mv);
      AcceptedKeepsPlayable(user, roomId, room, mv);
      var v := JudgeMove(user, roomId, room, mv);
      if !v.Accepted? {
        return MoveRejection(v, socketId);
      }
      events := StoreMove(roomId, v.next, now, dbSteps);
    }

    /**
     * The second half of MAKE_MOVE, once the move is accepted: the new state is
     * stored and sent to both players, then the game ends as a draw or a win,
     * or the move timer starts again.
     */
    method StoreMove(roomId: string, g: GameState, now: int, dbSteps: nat) returns (events: seq<Event>)
      requires Valid() && roomId in reg.rooms && Playable(reg.rooms[roomId].(gameState := g))
      modifies this, reg
      ensures Valid()
      ensures MoveStored(old(reg.Snap()), old(profiles), old(nextTimer), roomId, g, now, dbSteps, reg.Snap(), profiles, events)
      ensures old(Coherent(reg.Snap())) ==> Coherent(reg.Snap())
    {
      var room := reg.rooms[roomId];
      StoredKeepsInv(reg.Snap(), nextTimer, roomId, g);
      reg.rooms := reg.rooms[roomId := room.(gameState := g)];
      events := UpdateNotices(reg.Snap(), room.players, g);
      if g.winner == Drawn {
        var over := HandleGameOver(roomId, None, true, ByDraw, dbSteps);
        events := events + over;
      } else if g.winner.Won? {
        var winnerId := WinnerId(room.players, g.winner);
        var over := HandleGameOver(roomId, winnerId, false, ByCheckmate, dbSteps);
        events := events + over;
      } else {
        ResetTimer(roomId, now);
      }
    }

    /** SEND_MESSAGE; message is None when the payload is not a string. */
    method OnSendMessage(socketId: string, roomId: string, message: Option<string>, now: int)
      returns (events: seq<Event>)
      requires Valid()
      modifies reg
      ensures Valid()
      ensures var user := UserBySocket(old(reg.Snap()), socketId);
        var v := JudgeMessage(user, roomId, roomId in old(reg.rooms), message, now);
        && (!v.Deliver? ==> reg.Snap() == old(reg.Snap()) && events == ChatRejection(v, socketId))
        && (v.Deliver? ==>
             reg.Snap() == old(reg.Snap()).(users := old(reg.users)[user.value.id := user.value.(lastMessageAt := Some(now))]) &&
             events == ChatDeliveries(old(reg.Snap()), old(reg.rooms[roomId]).players, socketId,
                                      MessageReceived(roomId, user.value.id, v.text, now)))
      ensures old(Coherent(reg.Snap())) ==> Coherent(reg.Snap())
    {
      var user := UserBySocket(reg.Snap(), socketId);
      var v := JudgeMessage(user, roomId, roomId in reg.rooms, message, now);
      if !v.Deliver? {
        return ChatRejection(v, socketId);
      }
      var u := user.value;
      var players := reg.rooms[roomId].players;
      events := ChatDeliveries(reg.Snap(), players, socketId, MessageReceived(roomId, u.id, v.text, now));
      UserEditKeepsInvariants(reg.Snap(), u.id, u.(lastMessageAt := Some(now)));
      SameGamesKeepsInv(reg.Snap(), reg.Snap().(users := reg.users[u.id := u.(lastMessageAt := Some(now))]), nextTimer);
      reg.users := reg.users[u.id := u.(lastMessageAt := Some(now))];
    }

    /**
     * FIND_MATCH. roomId stands for the fresh uuid and meIsX for the coin
     * flip; the requester is paired with the longest-waiting other user.
     * dbSteps of the two profile lookups after the room is made complete.
     */
    method OnFindMatch(socketId: string, roomId: string, meIsX: bool, now: int, dbSteps: nat)
      returns (events: seq<Event>)
      requires Valid()
      modifies this, reg
      ensures Valid()
      ensures profiles == old(profiles)
      ensures UserBySocket(old(reg.Snap()), socketId).None? ==>
        reg.Snap() == old(reg.Snap()) && nextTimer == old(nextTimer) && events == []
      ensures UserBySocket(old(reg.Snap()), socketId).Some? ==>
        var me := UserBySocket(old(reg.Snap()), socketId).value.id;
        var v := JudgeFindMatch(me, old(reg.matchmakingQueue), old(reg.users));
        && v != StaleOpponent
        && (v == Enqueue ==>
             reg.Snap() == old(reg.Snap()).(queue := With(old(reg.matchmakingQueue), me)) &&
             nextTimer == old(nextTimer) && events == [Event(socketId, QueueJoined)])
        && (v == SelfMatch ==> reg.Snap() == old(reg.Snap()) && nextTimer == old(nextTimer) && events == [])
        && (v.Pair? ==>
             var p := MatchSlots(me, v.opponentId, meIsX);
             var r1 := RoomCreated(old(reg.Snap()).(queue := Without(old(reg.matchmakingQueue), v.opponentId)),
                                   roomId, p.x, p.o, InitialState());
             if dbSteps < 2 then reg.Snap() == r1 && nextTimer == old(nextTimer) && events == []
             else
               && reg.Snap() == TimerArmed(r1, roomId, now, old(nextTimer))
               && nextTimer == old(nextTimer) + 1
               && events == StartNotices(r1, roomId, p.x, p.o.value, InitialState()))
      ensures old(Coherent(reg.Snap())) && roomId !in old(reg.rooms) ==> Coherent(reg.Snap())
    {
      var user := UserBySocket(reg.Snap(), socketId);
      if user.None? {
        return [];
      }
      var me := user.value.id;
      FindMatchRules(reg.Snap(), me);
      var v := JudgeFindMatch(me, reg.matchmakingQueue, reg.users);
      match v
      case Enqueue =>
        QueueKeepsInv(reg.Snap(), nextTimer, With(reg.matchmakingQueue, me));
        reg.matchmakingQueue := With(reg.matchmakingQueue, me);
        return [Event(socketId, QueueJoined)];
      case SelfMatch =>
        return [];
      case StaleOpponent =>
        assert false;
      case Pair(opponentId) =>
        QueueKeepsInv(reg.Snap(), nextTimer, Without(reg.matchmakingQueue, opponentId));
        reg.matchmakingQueue := Without(reg.matchmakingQueue, opponentId);
        var p := MatchSlots(me, opponentId, meIsX);
        CreatedKeepsInv(reg.Snap(), nextTimer, roomId, p.x, p.o);
        var room := reg.CreateRoom(roomId, p.x, p.o, InitialState());
        if dbSteps < 2 {
          return [];
        }
        events := StartNotices(reg.Snap(), roomId, p.x, p.o.value, room.gameState);
        ResetTimer(roomId, now);
    }

    /** CREATE_ROOM; code stands for the random six-character code. */
    method OnCreateRoom(socketId: string, code: string) returns (events: seq<Event>)
      requires Valid()
      modifies reg
      ensures Valid()
      ensures UserBySocket(old(reg.Snap()), socketId).None? ==> reg.Snap() == old(reg.Snap()) && events == []
      ensures UserBySocket(old(reg.Snap()), socketId).Some? ==>
        reg.Snap() == RoomCreated(old(reg.Snap()), code, UserBySocket(old(reg.Snap()), socketId).value.id, None, InitialState()) &&
        events == [Event(socketId, RoomOpened(code))]
      ensures old(Coherent(reg.Snap())) && code !in old(reg.rooms) ==> Coherent(reg.Snap())
    {
      var user := UserBySocket(reg.Snap(), socketId);
      if user.None? {
        return [];
      }
      CreatedKeepsInv(reg.Snap(), nextTimer, code, user.value.id, None);
      var room := reg.CreateRoom(code, user.value.id, None, InitialState());
      events := [Event(socketId, RoomOpened(code))];
    }

    /** JOIN_ROOM; rawCode is None when the payload carries no code. */
    method OnJoinRoom(socketId: string, rawCode: Option<string>, now: int, dbSteps: nat) returns (events: seq<Event>)
      requires Valid()
      modifies this, reg
      ensures Valid()
      ensures profiles == old(profiles)
      ensures UserBySocket(old(reg.Snap()), socketId).None? ==>
        reg.Snap() == old(reg.Snap()) && nextTimer == old(nextTimer) && events == []
      ensures UserBySocket(old(reg.Snap()), socketId).Some? ==>
        JoinedGame(old(reg.Snap()), old(nextTimer), UserBySocket(old(reg.Snap()), socketId).value.id, socketId,
                   NormalizeRoomCode(rawCode), now, dbSteps, reg.Snap(), nextTimer, events)
      ensures old(Coherent(reg.Snap())) ==> Coherent(reg.Snap())
    {
      var user := UserBySocket(reg.Snap(), socketId);
      if user.None? {
        return [];
      }
      events := JoinGame(user.value.id, socketId, NormalizeRoomCode(rawCode), now, dbSteps);
    }

    /** The body of JOIN_ROOM once the user is known and the code normalised. */
    method JoinGame(me: string, socketId: string, code: string, now: int, dbSteps: nat) returns (events: seq<Event>)
      requires Valid()
      modifies this, reg
      ensures Valid()
      ensures profiles == old(profiles)
      ensures JoinedGame(old(reg.Snap()), old(nextTimer), me, socketId, code, now, dbSteps, reg.Snap(), nextTimer, events)
      ensures old(Coherent(reg.Snap())) ==> Coherent(reg.Snap())
    {
      JoinedKeepsInv(reg.Snap(), nextTimer, code, me);
      var ok := reg.JoinRoom(code, me);
      if !ok {
        return [Event(socketId, Error("Room not found or full"))];
      }
      if dbSteps < 2 {
        return [];
      }
      var room := reg.rooms[code];
      var pX := GetUser(reg.Snap(), room.players.x);
      events := [];
      if pX.Some? {
        events := [Event(pX.value.socketId, GameStart(code, me, X, room.gameState))];
      }
      events := events + [Event(socketId, GameStart(code, room.players.x, O, room.gameState))];
      ResetTimer(code, now);
    }

    /**
     * RESPOND_GAME_INVITE; roomId stands for the fresh uuid, and dbSteps of
     * the two profile lookups after the room is made complete.
     */
    method OnRespondGameInvite(socketId: string, targetUserId: string, accept: bool, roomId: string, now: int,
                               dbSteps: nat)
      returns (events: seq<Event>)
      requires Valid()
      modifies this, reg
      ensures Valid()
      ensures profiles == old(profiles)
      ensures var responder := UserBySocket(old(reg.Snap()), socketId);
        var requester := GetUser(old(reg.Snap()), targetUserId);
        && (responder.None? || !accept || requester.None? ==>
             reg.Snap() == old(reg.Snap()) && nextTimer == old(nextTimer))
        && (responder.None? ==> events == [])
        && (responder.Some? && !accept ==>
             events == if requester.Some?
                       then [Event(requester.value.socketId, InviteRejected(responder.value.name))]
                       else [])
        && (responder.Some? && accept && requester.None? ==>
             events == [Event(socketId, Error("User is no longer available"))])
        && (responder.Some? && accept && requester.Some? ==>
             var r1 := RoomCreated(old(reg.Snap()), roomId, targetUserId, Some(responder.value.id), InitialState());
             if dbSteps < 2 then reg.Snap() == r1 && nextTimer == old(nextTimer) && events == []
             else
               && reg.Snap() == TimerArmed(r1, roomId, now, old(nextTimer))
               && nextTimer == old(nextTimer) + 1
               && events == [Event(requester.value.socketId, GameStart(roomId, responder.value.id, X, InitialState())),
                             Event(responder.value.socketId, GameStart(roomId, targetUserId, O, InitialState()))])
      ensures old(Coherent(reg.Snap())) && roomId !in old(reg.rooms) ==> Coherent(reg.Snap())
    {
      var responder := UserBySocket(reg.Snap(), socketId);
      if responder.None? {
        return [];
      }
      var requester := GetUser(reg.Snap(), targetUserId);
      if !accept {
        if requester.Some? {
          return [Event(requester.value.socketId, InviteRejected(responder.value.name))];
        }
        return [];
      }
      if requester.None? {
        return [Event(socketId, Error("User is no longer available"))];
      }
      CreatedKeepsInv(reg.Snap(), nextTimer, roomId, requester.value.id, Some(responder.value.id));
      var room := reg.CreateRoom(roomId, requester.value.id, Some(responder.value.id), InitialState());
      if dbSteps < 2 {
        return [];
      }
      events := [Event(requester.value.socketId, GameStart(roomId, responder.value.id, X, room.gameState)),
                 Event(responder.value.socketId, GameStart(roomId, requester.value.id, O, room.gameState))];
      ResetTimer(roomId, now);
    }

    /** The forEach over the friends list at the end of disconnect. */
    method NotifyFriends(friends: seq<string>, userId: string) returns (events: seq<Event>)
      ensures events == FriendNotices(reg.Snap(), friends, userId)
    {
      events := [];
      var i := |friends|;
      // built back to front so that each step prepends one friend's notice
      while i > 0
        invariant 0 <= i <= |friends|
        invariant events == FriendNotices(reg.Snap(), friends[i..], userId)
      {
        i := i - 1;
        assert friends[i..][1..] == friends[i + 1..];
        var fid := friends[i];
        var notice: seq<Event> := [];
        if fid in reg.users && reg.users[fid].status != Offline {
          notice := [Event(reg.users[fid].socketId, FriendStatus(userId))];
        }
        events := notice + events;
      }
    }

    /**
     * disconnect. If the user was in a live game the opponent wins by
     * DISCONNECT; a room with no opponent is closed. A user whose closing
     * socket was their current one ends OFFLINE.
     */
    method OnDisconnect(socketId: string, dbSteps: nat) returns (events: seq<Event>)
      requires Valid()
      modifies this, reg
      ensures Valid()
      ensures nextTimer == old(nextTimer)
      ensures UserBySocket(old(reg.Snap()), socketId).None? ==>
        reg.Snap() == old(reg.Snap()) && profiles == old(profiles) && events == []
      ensures UserBySocket(old(reg.Snap()), socketId).Some? ==>
        Departed(SocketRemoved(old(reg.Snap()), socketId), old(profiles), UserBySocket(old(reg.Snap()), socketId).value,
                 dbSteps, reg.Snap(), profiles, events)
      ensures UserBySocket(old(reg.Snap()), socketId).Some? ==>
        var id := UserBySocket(old(reg.Snap()), socketId).value.id;
        IsCurrentSocket(old(reg.Snap()), id, socketId) ==> id in reg.users && reg.users[id].status == Offline
      ensures socketId !in reg.socketUserMap
      ensures old(Coherent(reg.Snap())) ==> Coherent(reg.Snap())
    {
      var user := UserBySocket(reg.Snap(), socketId);
      if user.None? {
        return [];
      }
      var u := user.value;
      SocketRemovedKeepsInv(reg.Snap(), nextTimer, socketId);
      reg.RemoveUserSocket(socketId);
      events := Depart(u, dbSteps);
    }

    /**
     * The rest of disconnect once the socket is gone: the user's room, if it
     * still exists, is closed, by a forfeit to the opponent when there is one;
     * the friends hear of it either way.
     */
    method Depart(u: User, dbSteps: nat) returns (events: seq<Event>)
      requires Valid()
      modifies this, reg
      ensures Valid()
      ensures Departed(old(reg.Snap()), old(profiles), u, dbSteps, reg.Snap(), profiles, events)
      ensures nextTimer == old(nextTimer) && reg.socketUserMap == old(reg.socketUserMap)
      ensures u.id in old(reg.users) && old(reg.users[u.id].status) == Offline ==>
        u.id in reg.users && reg.users[u.id].status == Offline
      ensures old(Coherent(reg.Snap())) ==> Coherent(reg.Snap())
    {
      if u.currentRoomId.None? || u.currentRoomId.value !in reg.rooms {
        events := NotifyFriends(u.friends, u.id);
        return;
      }
      var rid := u.currentRoomId.value;
      var room := reg.rooms[rid];
      var opp := OpponentOf(room.players, u.id);
      if opp.None? {
        DeletedKeepsInv(reg.Snap(), nextTimer, rid);
        reg.DeleteRoom(rid);
        events := NotifyFriends(u.friends, u.id);
        return;
      }
      events := Forfeit(u, rid, opp.value, dbSteps);
    }

    /** The live-game case of disconnect: the opponent is told, then wins by DISCONNECT. */
    method Forfeit(u: User, rid: string, opp: string, dbSteps: nat) returns (events: seq<Event>)
      requires Valid()
      modifies this, reg
      ensures Valid()
      ensures var r := old(reg.Snap());
        var e := GameOverResult(r, old(profiles), rid, Some(opp), false, ByDisconnect, dbSteps);
        && reg.Snap() == e.reg && profiles == e.profiles
        && events == (if opp in r.users then [Event(r.users[opp].socketId, OpponentDisconnected)] else []) +
                     FriendNotices(r, u.friends, u.id) + e.events
      ensures nextTimer == old(nextTimer) && reg.socketUserMap == old(reg.socketUserMap)
      ensures u.id in old(reg.users) && old(reg.users[u.id].status) == Offline ==>
        u.id in reg.users && reg.users[u.id].status == Offline
      ensures old(Coherent(reg.Snap())) ==> Coherent(reg.Snap())
    {
      var opponent := GetUser(reg.Snap(), opp);
      events := [];
      if opponent.Some? {
        events := [Event(opponent.value.socketId, OpponentDisconnected)];
      }
      var friendEvents := NotifyFriends(u.friends, u.id);
      if u.id in reg.users && reg.users[u.id].status == Offline {
        GameOverKeepsOffline(reg.Snap(), profiles, rid, Some(opp), false, ByDisconnect, dbSteps, u.id);
      }
      var over := HandleGameOver(rid, Some(opp), false, ByDisconnect, dbSteps);
      events := events + friendEvents + over;
    }
  }
}
