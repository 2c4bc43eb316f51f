/**
 * The synchronous decisions of supersquare-backend/src/server.ts: who may move,
 * who wins on timeout, the rating changes of a finished game, chat filtering,
 * matchmaking, room-code clean-up and the remaining-time arithmetic. Socket
 * emits become Event values; the profile database becomes a map of Stats.
 */
module ServerLogic {
  import opened Wrappers
  import opened GameTypes
  import opened Rules
  import opened RuleProperties
  import opened Rooms

  const MoveTimeLimitMs: int := 60000
  const ChatMaxLength: int := 101
  const ChatCooldownMs: int := 5000

  // ---------------------------------------------------------------------------
  // Outputs

  /** The reason string carried by GAME_OVER. */
  datatype Reason = ByCheckmate | ByDraw | ByTimeout | ByDisconnect

  /** The profile fields PROFILE_UPDATED reports. */
  datatype Stats = Stats(elo: int, wins: int, losses: int, gamesPlayed: int)

  /**
   * One emitted socket message. The wire names are PROFILE_UPDATED, GAME_OVER,
   * GAME_START, GAME_UPDATE, QUEUE_JOINED, ROOM_CREATED, GAME_INVITE_REJECTED,
   * MESSAGE_RECEIVED, OPPONENT_DISCONNECTED, FRIEND_STATUS and ERROR.
   */
  datatype Message =
    | ProfileUpdated(stats: Stats)
    | GameOverNotice(winnerId: Option<string>, isDraw: bool, reason: Reason)
    | GameStart(roomId: string, opponentId: string, symbol: Player, initialState: GameState)
    | GameUpdate(gameState: GameState)
    | QueueJoined
    | RoomOpened(roomId: string)
    | InviteRejected(targetUserName: string)
    | MessageReceived(roomId: string, senderId: string, text: string, timestamp: int)
    | OpponentDisconnected
    | FriendStatus(userId: string)
    | Error(text: string)

  /** A message addressed to one socket id. */
  datatype Event = Event(to: string, msg: Message)

  // ---------------------------------------------------------------------------
  // getRemainingTime

  function Max(a: int, b: int): int
  {
    if a >= b then a else b
  }

  /** Math.ceil(n / 1000) on integers. */
  function CeilThousandths(n: int): (q: int)
    ensures (q - 1) * 1000 < n <= q * 1000
  {
    -((-n) / 1000)
  }

  /**
   * Seconds left on a move timer started at start, read at now: 60 with no
   * timer, otherwise max(0, ceil((60000 - elapsed) / 1000)).
   */
  function RemainingSeconds(start: Option<int>, now: int): (secs: int)
    ensures start.None? ==> secs == 60
    ensures start.Some? ==>
      var left := MoveTimeLimitMs - (now - start.value);
      && (left <= 0 ==> secs == 0)
      && (left > 0 ==> (secs - 1) * 1000 < left <= secs * 1000)
  {
    match start
    case None => 60
    case Some(t) => Max(0, CeilThousandths(MoveTimeLimitMs - (now - t)))
  }

  /** For a timer read after it started, the value lies in 0..60 and is 0 exactly once 60 s have passed. */
  lemma RemainingSecondsBounds(start: int, now: int)
    requires start <= now
    ensures 0 <= RemainingSeconds(Some(start), now) <= 60
    ensures RemainingSeconds(Some(start), now) == 0 <==> now - start >= MoveTimeLimitMs
  {
  }

  /** The countdown never goes up as time passes. */
  lemma RemainingSecondsMonotone(start: int, now1: int, now2: int)
    requires now1 <= now2
    ensures RemainingSeconds(Some(start), now2) <= RemainingSeconds(Some(start), now1)
  {
  }

  // ---------------------------------------------------------------------------
  // Slots and the timeout winner

  /** The symbol a user plays in a room: X is checked first, then O. */
  function Symbol(p: Players, userId: string): (sym: Option<Player>)
    ensures sym.Some? <==> HoldsSlot(p, userId)
    ensures sym == Some(X) <==> p.x == userId
    ensures sym == Some(O) <==> p.x != userId && p.o == Some(userId)
  {
    if p.x == userId then Some(X)
    else if p.o == Some(userId) then Some(O)
    else None
  }

  /** The user occupying the slot of a symbol. */
  function SlotHolder(p: Players, sym: Player): Option<string>
  {
    if sym == X then Some(p.x) else p.o
  }

  /** On timeout the holder of the slot opposite the active player wins. */
  function TimeoutWinner(room: GameRoom): (w: Option<string>)
    ensures w == SlotHolder(room.players, Other(room.gameState.activePlayer))
  {
    if room.gameState.activePlayer == X then room.players.o else Some(room.players.x)
  }

  /** With two distinct players, the timeout winner is the one whose symbol is not on the move. */
  lemma TimeoutWinnerIsOpponent(room: GameRoom)
    requires room.players.o.Some? && room.players.o.value != room.players.x
    ensures TimeoutWinner(room).Some?
    ensures Symbol(room.players, TimeoutWinner(room).value) == Some(Other(room.gameState.activePlayer))
  {
  }

  /** The id of the other slot holder, as disconnect computes it. */
  function OpponentOf(p: Players, userId: string): (opp: Option<string>)
    ensures p.x == userId ==> opp == p.o
    ensures p.x != userId ==> opp == Some(p.x)
  {
    if p.x == userId then p.o else Some(p.x)
  }

  // ---------------------------------------------------------------------------
  // Ratings: handleGameOver's database step

  /** One $inc on a profile document. */
  datatype StatDelta = StatDelta(userId: string, elo: int, wins: int, losses: int, games: int)

  /** The updates handleGameOver issues, in order. */
  function OutcomeDeltas(pX: string, pO: string, winnerId: Option<string>, draw: bool): (ds: seq<StatDelta>)
    ensures |ds| == if draw || winnerId.Some? then 2 else 0
    ensures forall k :: 0 <= k < |ds| ==> ds[k].games == 1
  {
    if draw then [StatDelta(pX, 5, 0, 0, 1), StatDelta(pO, 5, 0, 0, 1)]
    else if winnerId.Some? then
      var w := winnerId.value;
      var loser := if w == pX then pO else pX;
      [StatDelta(w, 10, 1, 0, 1), StatDelta(loser, -10, 0, 1, 1)]
    else []
  }

  /** updateOne with $inc: a missing document is left alone. */
  function ApplyDelta(store: map<string, Stats>, d: StatDelta): (store': map<string, Stats>)
    ensures store'.Keys == store.Keys
    ensures forall id :: id in store && id != d.userId ==> store'[id] == store[id]
    ensures d.userId in store ==>
      var (s, s') := (store[d.userId], store'[d.userId]);
      s' == Stats(s.elo + d.elo, s.wins + d.wins, s.losses + d.losses, s.gamesPlayed + d.games)
  {
    if d.userId in store then
      var s := store[d.userId];
      store[d.userId := Stats(s.elo + d.elo, s.wins + d.wins, s.losses + d.losses, s.gamesPlayed + d.games)]
    else store
  }

  function ApplyDeltas(store: map<string, Stats>, ds: seq<StatDelta>): (store': map<string, Stats>)
    ensures store'.Keys == store.Keys
    ensures forall id :: id in store && (forall k :: 0 <= k < |ds| ==> ds[k].userId != id) ==> store'[id] == store[id]
  {
    if ds == [] then store else ApplyDeltas(ApplyDelta(store, ds[0]), ds[1..])
  }

  /** Stats plus a change. */
  function Bump(s: Stats, elo: int, wins: int, losses: int, games: int): Stats
  {
    Stats(s.elo + elo, s.wins + wins, s.losses + losses, s.gamesPlayed + games)
  }

  /** A draw gives both players +5 elo and one more game, and touches no other profile. */
  lemma DrawStats(store: map<string, Stats>, pX: string, pO: string, winnerId: Option<string>)
    requires pX != pO && pX in store && pO in store
    ensures var store' := ApplyDeltas(store, OutcomeDeltas(pX, pO, winnerId, true));
      && store'[pX] == Bump(store[pX], 5, 0, 0, 1)
      && store'[pO] == Bump(store[pO], 5, 0, 0, 1)
      && forall id :: id in store && id != pX && id != pO ==> store'[id] == store[id]
  {
    var ds := OutcomeDeltas(pX, pO, winnerId, true);
    assert ApplyDeltas(ApplyDelta(ApplyDelta(store, ds[0]), ds[1]), []) == ApplyDelta(ApplyDelta(store, ds[0]), ds[1]);
  }

  /**
   * A decisive result gives the winner +10 elo, a win and a game, the other
   * slot holder -10 elo, a loss and a game, and touches no other profile.
   */
  lemma DecisiveStats(store: map<string, Stats>, pX: string, pO: string, winner: string)
    requires pX != pO && pX in store && pO in store
    requires winner == pX || winner == pO
    ensures var loser := if winner == pX then pO else pX;
      var store' := ApplyDeltas(store, OutcomeDeltas(pX, pO, Some(winner), false));
      && store'[winner] == Bump(store[winner], 10, 1, 0, 1)
      && store'[loser] == Bump(store[loser], -10, 0, 1, 1)
      && forall id :: id in store && id != pX && id != pO ==> store'[id] == store[id]
  {
    var ds := OutcomeDeltas(pX, pO, Some(winner), false);
    assert ApplyDeltas(ApplyDelta(ApplyDelta(store, ds[0]), ds[1]), []) == ApplyDelta(ApplyDelta(store, ds[0]), ds[1]);
  }

  /**
   * A user who joined their own private room holds both slots; a decisive
   * game then leaves the rating as it was and records both a win and a loss.
   */
  lemma SelfGameStats(store: map<string, Stats>, p: string)
    requires p in store
    ensures ApplyDeltas(store, OutcomeDeltas(p, p, Some(p), false))[p] == Bump(store[p], 0, 1, 1, 2)
  {
    var ds := OutcomeDeltas(p, p, Some(p), false);
    assert ApplyDeltas(ApplyDelta(ApplyDelta(store, ds[0]), ds[1]), []) == ApplyDelta(ApplyDelta(store, ds[0]), ds[1]);
  }

  /** Neither a winner nor a draw: no profile changes. */
  lemma NoResultNoStats(store: map<string, Stats>, pX: string, pO: string)
    ensures ApplyDeltas(store, OutcomeDeltas(pX, pO, None, false)) == store
  {
  }

  // ---------------------------------------------------------------------------
  // handleGameOver as a whole

  /** PROFILE_UPDATED for a connected user whose profile was found. */
  function ProfileNotice(r: Registry, id: string, profiles: map<string, Stats>): (ns: seq<Event>)
    ensures |ns| == if id in r.users && id in profiles then 1 else 0
    ensures forall e :: e in ns ==>
      id in r.users && id in profiles && e == Event(r.users[id].socketId, ProfileUpdated(profiles[id]))
  {
    if id in r.users && id in profiles then [Event(r.users[id].socketId, ProfileUpdated(profiles[id]))] else []
  }

  /** GAME_OVER for a known user. */
  function OverNotice(r: Registry, id: string, winnerId: Option<string>, draw: bool, reason: Reason): seq<Event>
  {
    if id in r.users then [Event(r.users[id].socketId, GameOverNotice(winnerId, draw, reason))] else []
  }

  function Min(a: int, b: int): int
  {
    if a <= b then a else b
  }

  datatype GameOverEffect = GameOverEffect(reg: Registry, profiles: map<string, Stats>, events: seq<Event>)

  /**
   * handleGameOver. dbSteps is the number of database calls that complete
   * before one raises (the two updates, then the two profile reads); at least
   * |deltas| + 2 means none raises. Whatever the database does, a room with
   * two players is deleted at the end.
   */
  function GameOverResult(r: Registry, profiles: map<string, Stats>, roomId: string,
                          winnerId: Option<string>, draw: bool, reason: Reason, dbSteps: nat): (e: GameOverEffect)
    ensures roomId !in r.rooms ==> e == GameOverEffect(r, profiles, [])
    ensures roomId in r.rooms && r.rooms[roomId].players.o.None? ==>
      e == GameOverEffect(r.(rooms := r.rooms[roomId := r.rooms[roomId].(timer := None)]), profiles, [])
    ensures roomId in r.rooms && r.rooms[roomId].players.o.Some? ==>
      var p := r.rooms[roomId].players;
      var ds := OutcomeDeltas(p.x, p.o.value, winnerId, draw);
      && e.reg == RoomDeleted(r, roomId)
      && e.profiles == ApplyDeltas(profiles, ds[..Min(dbSteps, |ds|)])
      && (dbSteps >= |ds| + 2 ==> e.profiles == ApplyDeltas(profiles, ds))
  {
    if roomId !in r.rooms then GameOverEffect(r, profiles, [])
    else
      var room := r.rooms[roomId];
      if room.players.o.None? then
        GameOverEffect(r.(rooms := r.rooms[roomId := room.(timer := None)]), profiles, [])
      else
        var (pX, pO) := (room.players.x, room.players.o.value);
        var ds := OutcomeDeltas(pX, pO, winnerId, draw);
        assert dbSteps >= |ds| ==> ds[..Min(dbSteps, |ds|)] == ds;
        var profiles' := ApplyDeltas(profiles, ds[..Min(dbSteps, |ds|)]);
        var updates := if dbSteps >= |ds| + 2
                       then ProfileNotice(r, pX, profiles') + ProfileNotice(r, pO, profiles')
                       else [];
        var overs := OverNotice(r, pX, winnerId, draw, reason) + OverNotice(r, pO, winnerId, draw, reason);
        GameOverEffect(RoomDeleted(r, roomId), profiles', updates + overs)
  }

  /** Ending a game never brings a disconnected player back, and touches no socket mapping. */
  lemma GameOverKeepsOffline(r: Registry, profiles: map<string, Stats>, roomId: string,
                             winnerId: Option<string>, draw: bool, reason: Reason, dbSteps: nat, id: string)
    requires id in r.users && r.users[id].status == Offline
    ensures var r' := GameOverResult(r, profiles, roomId, winnerId, draw, reason, dbSteps).reg;
      id in r'.users && r'.users[id].status == Offline && r'.sockets == r.sockets
  {
    RoomDeletedKeepsOffline(r, roomId, id);
  }

  /** handleGameOver for a room with two players, written out step by step. */
  lemma GameOverOfPair(r: Registry, profiles: map<string, Stats>, roomId: string,
                       winnerId: Option<string>, draw: bool, reason: Reason, dbSteps: nat)
    requires roomId in r.rooms && r.rooms[roomId].players.o.Some?
    ensures var p := r.rooms[roomId].players;
      var ds := OutcomeDeltas(p.x, p.o.value, winnerId, draw);
      var profiles' := ApplyDeltas(profiles, ds[..Min(dbSteps, |ds|)]);
      GameOverResult(r, profiles, roomId, winnerId, draw, reason, dbSteps) ==
        GameOverEffect(RoomDeleted(r, roomId), profiles',
                       (if dbSteps >= |ds| + 2
                        then ProfileNotice(r, p.x, profiles') + ProfileNotice(r, p.o.value, profiles')
                        else []) +
                       OverNotice(r, p.x, winnerId, draw, reason) + OverNotice(r, p.o.value, winnerId, draw, reason))
  {
  }

  /** Where the refreshed profiles of X and then O land in front of the GAME_OVER notices. */
  lemma NoticeLayout(r: Registry, x: string, o: string, pr: map<string, Stats>, overs: seq<Event>)
    ensures var ev := ProfileNotice(r, x, pr) + ProfileNotice(r, o, pr) + overs;
      && |ev| - |overs| == (if x in r.users && x in pr then 1 else 0) + (if o in r.users && o in pr then 1 else 0)
      && (x in r.users && x in pr ==> ev[0] == Event(r.users[x].socketId, ProfileUpdated(pr[x])))
      && (o in r.users && o in pr ==> ev[|ev| - |overs| - 1] == Event(r.users[o].socketId, ProfileUpdated(pr[o])))
  {
    var (nx, no) := (ProfileNotice(r, x, pr), ProfileNotice(r, o, pr));
    var ev := nx + no + overs;
    if nx != [] {
      assert nx[0] in nx;
      assert ev[0] == nx[0];
    }
    if no != [] {
      assert no[|no| - 1] in no;
      assert ev[|nx| + |no| - 1] == no[|no| - 1];
    }
  }

  /**
   * The messages of a finished game with two players: they end with GAME_OVER
   * to each known player, X first, and the refreshed profiles come before them
   * only when every database call completes.
   */
  lemma GameOverAnnounces(r: Registry, profiles: map<string, Stats>, roomId: string,
                          winnerId: Option<string>, draw: bool, reason: Reason, dbSteps: nat)
    requires roomId in r.rooms && r.rooms[roomId].players.o.Some?
    ensures var p := r.rooms[roomId].players;
      var ds := OutcomeDeltas(p.x, p.o.value, winnerId, draw);
      var events := GameOverResult(r, profiles, roomId, winnerId, draw, reason, dbSteps).events;
      var overs := OverNotice(r, p.x, winnerId, draw, reason) + OverNotice(r, p.o.value, winnerId, draw, reason);
      && |overs| <= |events| && events[|events| - |overs|..] == overs
      && (dbSteps < |ds| + 2 ==> events == overs)
      && (forall i :: 0 <= i < |events| - |overs| ==> events[i].msg.ProfileUpdated?)
  {
    GameOverOfPair(r, profiles, roomId, winnerId, draw, reason, dbSteps);
    var p := r.rooms[roomId].players;
    var ds := OutcomeDeltas(p.x, p.o.value, winnerId, draw);
    var profiles' := ApplyDeltas(profiles, ds[..Min(dbSteps, |ds|)]);
    var updates: seq<Event> := if dbSteps >= |ds| + 2
                   then ProfileNotice(r, p.x, profiles') + ProfileNotice(r, p.o.value, profiles')
                   else [];
    var overs := OverNotice(r, p.x, winnerId, draw, reason) + OverNotice(r, p.o.value, winnerId, draw, reason);
    assert (updates + overs)[|updates|..] == overs;
    forall i | 0 <= i < |updates| ensures (updates + overs)[i].msg.ProfileUpdated? {
      assert (updates + overs)[i] == updates[i];
      assert updates[i] in updates;
    }
  }

  /**
   * When every database call of a finished two-player game completes, X and
   * then O (each if connected and with a profile) get their updated stats on
   * their own sockets, just before the GAME_OVER notices.
   */
  lemma GameOverRefreshesProfiles(r: Registry, profiles: map<string, Stats>, roomId: string,
                                  winnerId: Option<string>, draw: bool, reason: Reason, dbSteps: nat)
    requires roomId in r.rooms && r.rooms[roomId].players.o.Some?
    ensures var p := r.rooms[roomId].players;
      var ds := OutcomeDeltas(p.x, p.o.value, winnerId, draw);
      var events := GameOverResult(r, profiles, roomId, winnerId, draw, reason, dbSteps).events;
      var overs := OverNotice(r, p.x, winnerId, draw, reason) + OverNotice(r, p.o.value, winnerId, draw, reason);
      var profiles' := ApplyDeltas(profiles, ds);
      dbSteps >= |ds| + 2 ==>
        && |events| - |overs| == (if p.x in r.users && p.x in profiles then 1 else 0) +
                                 (if p.o.value in r.users && p.o.value in profiles then 1 else 0)
        && (p.x in r.users && p.x in profiles ==>
             events[0] == Event(r.users[p.x].socketId, ProfileUpdated(profiles'[p.x])))
        && (p.o.value in r.users && p.o.value in profiles ==>
             events[|events| - |overs| - 1] == Event(r.users[p.o.value].socketId, ProfileUpdated(profiles'[p.o.value])))
  {
    var p := r.rooms[roomId].players;
    var ds := OutcomeDeltas(p.x, p.o.value, winnerId, draw);
    if dbSteps >= |ds| + 2 {
      GameOverOfPair(r, profiles, roomId, winnerId, draw, reason, dbSteps);
      assert ds[..Min(dbSteps, |ds|)] == ds;
      var overs := OverNotice(r, p.x, winnerId, draw, reason) + OverNotice(r, p.o.value, winnerId, draw, reason);
      NoticeLayout(r, p.x, p.o.value, ApplyDeltas(profiles, ds), overs);
    }
  }

  // ---------------------------------------------------------------------------
  // MAKE_MOVE

  datatype MoveVerdict =
    | Ignored        // not in that room, or holds no slot there
    | RoomMissing    // "Room not found"
    | NotYourTurn    // "Not your turn"
    | InvalidMove    // "Invalid move"
    | Accepted(next: GameState)

  /** The room's stored game state is well formed and one the rules can reach, as every state the server stores is. */
  ghost predicate Playable(room: GameRoom)
  {
    WellFormed(room.gameState) && Consistent(room.gameState)
  }

  /** MAKE_MOVE's checks in order, for the user behind the socket and the room looked up by id. */
  function JudgeMove(user: Option<User>, roomId: string, room: Option<GameRoom>, mv: Move): (v: MoveVerdict)
    requires room.Some? ==> WellFormed(room.value.gameState)
    ensures v == Ignored <==>
      user.None? || user.value.currentRoomId != Some(roomId) ||
      (room.Some? && !HoldsSlot(room.value.players, user.value.id))
    ensures v == RoomMissing <==> user.Some? && user.value.currentRoomId == Some(roomId) && room.None?
    ensures v == InvalidMove <==>
      && user.Some? && user.value.currentRoomId == Some(roomId) && room.Some?
      && Symbol(room.value.players, user.value.id) == Some(room.value.gameState.activePlayer)
      && !IsValidMove(room.value.gameState, mv.mainRow, mv.mainCol, mv.subRow, mv.subCol)
  {
    if user.None? || user.value.currentRoomId != Some(roomId) then Ignored
    else if room.None? then RoomMissing
    else
      match Symbol(room.value.players, user.value.id)
      case None => Ignored
      case Some(sym) =>
        if room.value.gameState.activePlayer != sym then NotYourTurn
        else
          match MakeMove(room.value.gameState, mv.mainRow, mv.mainCol, mv.subRow, mv.subCol)
          case None => InvalidMove
          case Some(t) => Accepted(t)
  }

  /**
   * A move is accepted exactly when the mover is in that room, holds the slot
   * of the player on the move and the move is legal; the accepted state is the
   * engine's successor, with the turn passed to the other symbol.
   */
  lemma MoveAuthorization(user: Option<User>, roomId: string, room: Option<GameRoom>, mv: Move)
    requires room.Some? ==> WellFormed(room.value.gameState)
    ensures JudgeMove(user, roomId, room, mv).Accepted? <==>
      && user.Some? && user.value.currentRoomId == Some(roomId) && room.Some?
      && Symbol(room.value.players, user.value.id) == Some(room.value.gameState.activePlayer)
      && IsValidMove(room.value.gameState, mv.mainRow, mv.mainCol, mv.subRow, mv.subCol)
    ensures JudgeMove(user, roomId, room, mv).Accepted? ==>
      && Some(JudgeMove(user, roomId, room, mv).next) ==
           MakeMove(room.value.gameState, mv.mainRow, mv.mainCol, mv.subRow, mv.subCol)
      && JudgeMove(user, roomId, room, mv).next.activePlayer == Other(room.value.gameState.activePlayer)
  {
    if user.Some? && user.value.currentRoomId == Some(roomId) && room.Some? {
      var s := room.value.gameState;
      var sym := Symbol(room.value.players, user.value.id);
      if sym == Some(s.activePlayer) {
        var m := MakeMove(s, mv.mainRow, mv.mainCol, mv.subRow, mv.subCol);
        assert JudgeMove(user, roomId, room, mv) == if m.Some? then Accepted(m.value) else InvalidMove;
      }
    }
  }

  /**
   * A move is refused as out of turn exactly when the mover is in that room
   * and holds a slot, but not the slot of the player on the move.
   */
  lemma TurnRefusal(user: Option<User>, roomId: string, room: Option<GameRoom>, mv: Move)
    requires room.Some? ==> WellFormed(room.value.gameState)
    ensures JudgeMove(user, roomId, room, mv) == NotYourTurn <==>
      && user.Some? && user.value.currentRoomId == Some(roomId) && room.Some?
      && HoldsSlot(room.value.players, user.value.id)
      && Symbol(room.value.players, user.value.id) != Some(room.value.gameState.activePlayer)
  {
  }

  /** The user who wins with a finished state: the slot holder of the winning symbol. */
  function WinnerId(p: Players, w: Outcome): Option<string>
    requires w.Won?
  {
    SlotHolder(p, w.player)
  }

  /** An accepted move keeps the room playable: the engine's successor of a consistent state is consistent. */
  lemma AcceptedKeepsPlayable(user: Option<User>, roomId: string, room: Option<GameRoom>, mv: Move)
    requires room.Some? ==> Playable(room.value)
    ensures var v := JudgeMove(user, roomId, room, mv);
      v.Accepted? ==> Playable(room.value.(gameState := v.next))
  {
    var v := JudgeMove(user, roomId, room, mv);
    if v.Accepted? {
      var s := room.value.gameState;
      MovePreservesConsistency(s, mv.mainRow, mv.mainCol, mv.subRow, mv.subCol);
    }
  }

  /** Only the mover can win: when an accepted move ends the game with a winner, the winner's id is the mover's. */
  lemma AcceptedWinnerIsMover(user: Option<User>, roomId: string, room: Option<GameRoom>, mv: Move)
    requires room.Some? ==> Playable(room.value)
    ensures var v := JudgeMove(user, roomId, room, mv);
      v.Accepted? && v.next.winner.Won? ==> WinnerId(room.value.players, v.next.winner) == Some(user.value.id)
  {
    var v := JudgeMove(user, roomId, room, mv);
    if v.Accepted? {
      var s := room.value.gameState;
      MoveOutcome(s, mv.mainRow, mv.mainCol, mv.subRow, mv.subCol);
      assert Symbol(room.value.players, user.value.id) == Some(s.activePlayer);
    }
  }

  // ---------------------------------------------------------------------------
  // SEND_MESSAGE

  datatype ChatVerdict =
    | NoUser          // "User not found"
    | RoomMismatch    // "Room mismatch"
    | NoRoom          // "Room not found"
    | Dropped         // silently ignored
    | CoolingDown     // "Cooldown active"
    | Deliver(text: string)

  /** message is None when the payload is not a string. */
  function JudgeMessage(user: Option<User>, roomId: string, roomExists: bool,
                        message: Option<string>, now: int): (v: ChatVerdict)
    ensures v == NoUser <==> user.None?
    ensures v == RoomMismatch <==> user.Some? && user.value.currentRoomId != Some(roomId)
    ensures v == NoRoom <==> user.Some? && user.value.currentRoomId == Some(roomId) && !roomExists
    ensures v == Dropped <==>
      && user.Some? && user.value.currentRoomId == Some(roomId) && roomExists
      && !(message.Some? && 1 <= |message.value| <= ChatMaxLength)
    ensures v == CoolingDown <==>
      && user.Some? && user.value.currentRoomId == Some(roomId) && roomExists
      && message.Some? && 1 <= |message.value| <= ChatMaxLength
      && user.value.lastMessageAt.Some? && now - user.value.lastMessageAt.value < ChatCooldownMs
  {
    if user.None? then NoUser
    else if user.value.currentRoomId != Some(roomId) then RoomMismatch
    else if !roomExists then NoRoom
    else if message.None? || message.value == [] || |message.value| > ChatMaxLength then Dropped
    else if user.value.lastMessageAt.Some? && now - user.value.lastMessageAt.value < ChatCooldownMs then CoolingDown
    else Deliver(message.value)
  }

  /**
   * A message is delivered exactly when the sender is in an existing room, the
   * text has 1..101 characters and no earlier message was accepted less than
   * 5000 ms ago.
   */
  lemma ChatRules(user: Option<User>, roomId: string, roomExists: bool, message: Option<string>, now: int)
    ensures JudgeMessage(user, roomId, roomExists, message, now).Deliver? <==>
      && user.Some? && user.value.currentRoomId == Some(roomId) && roomExists
      && message.Some? && 1 <= |message.value| <= ChatMaxLength
      && (user.value.lastMessageAt.None? || now - user.value.lastMessageAt.value >= ChatCooldownMs)
    ensures JudgeMessage(user, roomId, roomExists, message, now).Deliver? ==>
      JudgeMessage(user, roomId, roomExists, message, now).text == message.value
  {
  }

  /** Once a message is accepted at t, a valid message from the same user before t + 5000 is refused. */
  lemma ChatCooldown(u: User, roomId: string, t: int, message: string, now: int)
    requires u.currentRoomId == Some(roomId)
    requires 1 <= |message| <= ChatMaxLength
    requires t <= now < t + ChatCooldownMs
    ensures JudgeMessage(Some(u.(lastMessageAt := Some(t))), roomId, true, Some(message), now) == CoolingDown
  {
  }

  // ---------------------------------------------------------------------------
  // FIND_MATCH

  datatype MatchVerdict =
    | Enqueue                   // nobody waiting
    | SelfMatch                 // the requester heads the queue
    | StaleOpponent             // the head is an unknown id
    | Pair(opponentId: string)

  function JudgeFindMatch(me: string, queue: seq<string>, users: map<string, User>): (v: MatchVerdict)
    ensures v == Enqueue <==> |queue| == 0
    ensures v == SelfMatch <==> |queue| > 0 && queue[0] == me
    ensures v == StaleOpponent <==> |queue| > 0 && queue[0] != me && queue[0] !in users
    ensures v.Pair? ==> v.opponentId == queue[0] && v.opponentId != me && v.opponentId in users
  {
    if |queue| == 0 then Enqueue
    else if queue[0] == me then SelfMatch
    else if queue[0] !in users then StaleOpponent
    else Pair(queue[0])
  }

  /**
   * The requester joins an empty queue, is paired with the longest-waiting
   * other user otherwise, and nothing happens when they are at the head
   * themselves. Under the registry invariant the head is always a known user.
   */
  lemma FindMatchRules(r: Registry, me: string)
    requires Valid(r)
    ensures JudgeFindMatch(me, r.queue, r.users) == Enqueue <==> |r.queue| == 0
    ensures JudgeFindMatch(me, r.queue, r.users) == SelfMatch <==> |r.queue| > 0 && r.queue[0] == me
    ensures JudgeFindMatch(me, r.queue, r.users) != StaleOpponent
    ensures JudgeFindMatch(me, r.queue, r.users).Pair? ==>
      var o := JudgeFindMatch(me, r.queue, r.users).opponentId;
      o == r.queue[0] && o != me && o in r.users
  {
  }

  /** The slots of a matched pair: the coin flip decides who is X. */
  function MatchSlots(me: string, opponent: string, meIsX: bool): (p: Players)
    ensures p.o.Some?
    ensures HoldsSlot(p, me) && HoldsSlot(p, opponent)
    ensures me != opponent ==> p.x != p.o.value
    ensures meIsX ==> p.x == me
    ensures !meIsX ==> p.o == Some(me)
  {
    if meIsX then Players(me, Some(opponent)) else Players(opponent, Some(me))
  }

  // ---------------------------------------------------------------------------
  // JOIN_ROOM: (roomId || '').trim().toUpperCase()

  /** The characters String.prototype.trim removes: white space and line terminators. */
  predicate IsJsWhitespace(c: char)
  {
    || c == '\t' || c == '\n' || c == '\U{000B}' || c == '\U{000C}' || c == '\r' || c == ' '
    || c == '\U{00A0}' || c == '\U{1680}' || ('\U{2000}' <= c <= '\U{200A}')
    || c == '\U{2028}' || c == '\U{2029}' || c == '\U{202F}' || c == '\U{205F}'
    || c == '\U{3000}' || c == '\U{FEFF}'
  }

  function TrimStart(s: string): (t: string)
    ensures |t| <= |s| && t == s[|s| - |t|..]
    ensures forall k :: 0 <= k < |s| - |t| ==> IsJsWhitespace(s[k])
    ensures t != [] ==> !IsJsWhitespace(t[0])
  {
    if s != [] && IsJsWhitespace(s[0]) then TrimStart(s[1..]) else s
  }

  function TrimEnd(s: string): (t: string)
    ensures |t| <= |s| && t == s[..|t|]
    ensures forall k :: |t| <= k < |s| ==> IsJsWhitespace(s[k])
    ensures t != [] ==> !IsJsWhitespace(t[|t| - 1])
  {
    if s != [] && IsJsWhitespace(s[|s| - 1]) then TrimEnd(s[..|s| - 1]) else s
  }

  /** trim: the largest infix with no white space at either end. */
  function Trim(s: string): (t: string)
    ensures |t| <= |s|
    ensures t != [] ==> !IsJsWhitespace(t[0]) && !IsJsWhitespace(t[|t| - 1])
  {
    TrimEnd(TrimStart(s))
  }

  /** What trim keeps is an infix of the input, and everything it drops is white space. */
  lemma TrimSplits(s: string)
    ensures var i := |s| - |TrimStart(s)|;
      && i + |Trim(s)| <= |s| && Trim(s) == s[i..i + |Trim(s)|]
      && (forall k :: 0 <= k < i ==> IsJsWhitespace(s[k]))
      && (forall k :: i + |Trim(s)| <= k < |s| ==> IsJsWhitespace(s[k]))
  {
    var a := TrimStart(s);
    var b := TrimEnd(a);
    var i := |s| - |a|;
    assert a == s[i..];
    assert b == a[..|b|];
    forall k | i + |b| <= k < |s| ensures IsJsWhitespace(s[k]) {
      assert s[k] == a[k - i];
    }
  }

  /** toUpperCase on ASCII letters; every other character is kept. */
  function UpperChar(c: char): (u: char)
    ensures 'a' <= c <= 'z' ==> u as int == c as int - 32
    ensures !('a' <= c <= 'z') ==> u == c
    ensures !('a' <= u <= 'z')
    ensures IsJsWhitespace(u) <==> IsJsWhitespace(c)
  {
    if 'a' <= c <= 'z' then (c as int - 32) as char else c
  }

  function ToUpper(s: string): (u: string)
    ensures |u| == |s|
    ensures forall k :: 0 <= k < |s| ==> u[k] == UpperChar(s[k])
  {
    seq(|s|, k requires 0 <= k < |s| => UpperChar(s[k]))
  }

  /** A missing code becomes the empty string. */
  function NormalizeRoomCode(raw: Option<string>): (c: string)
    ensures IsCanonicalCode(c)
    ensures raw.None? ==> c == ""
    ensures raw.Some? ==> |c| <= |raw.value|
  {
    var t := Trim(if raw.Some? then raw.value else "");
    UpperOfTrimmed(t);
    ToUpper(t)
  }

  /** Upper-casing a trimmed string gives a canonical code. */
  lemma UpperOfTrimmed(t: string)
    requires t != [] ==> !IsJsWhitespace(t[0]) && !IsJsWhitespace(t[|t| - 1])
    ensures IsCanonicalCode(ToUpper(t))
  {
    var u := ToUpper(t);
    if u != [] {
      assert u[0] == UpperChar(t[0]);
      assert u[|u| - 1] == UpperChar(t[|t| - 1]);
    }
  }

  /** A canonical code: no ASCII lower-case letter, no white space at either end. */
  predicate IsCanonicalCode(c: string)
  {
    && (forall k :: 0 <= k < |c| ==> !('a' <= c[k] <= 'z'))
    && (c != [] ==> !IsJsWhitespace(c[0]) && !IsJsWhitespace(c[|c| - 1]))
  }

  lemma {:induction false} TrimStartStops(pre: string, t: string)
    requires forall k :: 0 <= k < |pre| ==> IsJsWhitespace(pre[k])
    requires t != [] ==> !IsJsWhitespace(t[0])
    ensures TrimStart(pre + t) == t
    decreases |pre|
  {
    var s := pre + t;
    if pre != [] {
      assert s[0] == pre[0] && IsJsWhitespace(s[0]);
      assert s[1..] == pre[1..] + t;
      TrimStartStops(pre[1..], t);
    } else {
      assert s == t;
    }
  }

  lemma {:induction false} TrimEndStops(t: string, post: string)
    requires forall k :: 0 <= k < |post| ==> IsJsWhitespace(post[k])
    requires t != [] ==> !IsJsWhitespace(t[|t| - 1])
    ensures TrimEnd(t + post) == t
    decreases |post|
  {
    var s := t + post;
    if post != [] {
      assert s[|s| - 1] == post[|post| - 1] && IsJsWhitespace(s[|s| - 1]);
      assert s[..|s| - 1] == t + post[..|post| - 1];
      TrimEndStops(t, post[..|post| - 1]);
    } else {
      assert s == t;
    }
  }

  /** Trim removes exactly white-space padding around a text with non-blank ends. */
  lemma TrimPadding(pre: string, t: string, post: string)
    requires forall k :: 0 <= k < |pre| ==> IsJsWhitespace(pre[k])
    requires forall k :: 0 <= k < |post| ==> IsJsWhitespace(post[k])
    requires t != [] ==> !IsJsWhitespace(t[0]) && !IsJsWhitespace(t[|t| - 1])
    ensures Trim(pre + t + post) == t
  {
    var s := pre + t + post;
    if t == [] {
      assert forall k :: 0 <= k < |s| ==> IsJsWhitespace(s[k]) by {
        forall k | 0 <= k < |s| ensures IsJsWhitespace(s[k]) {
          if k < |pre| { assert s[k] == pre[k]; } else { assert s[k] == post[k - |pre|]; }
        }
      }
      var a := TrimStart(s);
      assert a == s[|s| - |a|..];
    } else {
      assert s == pre + (t + post);
      assert (t + post)[0] == t[0];
      TrimStartStops(pre, t + post);
      TrimEndStops(t, post);
    }
  }

  /**
   * A canonical room code typed with any mix of letter case and surrounded by
   * white space of any kind is normalised back to that code.
   */
  lemma NormalizeAcceptsTypedCode(code: string, pre: string, typed: string, post: string)
    requires IsCanonicalCode(code)
    requires forall k :: 0 <= k < |pre| ==> IsJsWhitespace(pre[k])
    requires forall k :: 0 <= k < |post| ==> IsJsWhitespace(post[k])
    requires |typed| == |code| && forall k :: 0 <= k < |typed| ==> UpperChar(typed[k]) == code[k]
    ensures NormalizeRoomCode(Some(pre + typed + post)) == code
  {
    if typed != [] {
      assert UpperChar(typed[0]) == code[0];
      assert UpperChar(typed[|typed| - 1]) == code[|code| - 1];
    }
    TrimPadding(pre, typed, post);
  }

  /** Normalisation yields a canonical code, and so normalising twice changes nothing. */
  lemma NormalizeIdempotent(raw: Option<string>)
    ensures IsCanonicalCode(NormalizeRoomCode(raw))
    ensures NormalizeRoomCode(Some(NormalizeRoomCode(raw))) == NormalizeRoomCode(raw)
  {
    CanonicalCodeIsFixed(NormalizeRoomCode(raw));
  }

  lemma CanonicalCodeIsFixed(c: string)
    requires IsCanonicalCode(c)
    ensures NormalizeRoomCode(Some(c)) == c
  {
    TrimPadding([], c, []);
    assert [] + c + [] == c;
  }
}
