/** The player and room registry of utils/players.js (the live code from
    line 98 on). Every operation takes the registry and returns the new
    registry together with what the JavaScript function returns. */
module Players {
  import opened Wrappers
  import opened State
  import Text

  const MaxPlayersPerRoom: nat := 10
  const DefaultTotalRounds: int := 5

  datatype JoinError = MissingName | NameTaken | RoomFull {
    /** The `error` text handed back to the client. */
    function Message(): string {
      match this
      case MissingName => "Username and room are required."
      case NameTaken => "Username is already taken in this room."
      case RoomFull => "Room is full."
    }
  }

  /** Some player of `players` has name `username` in room `room`. */
  predicate NameTakenIn(players: seq<Player>, room: string, username: string) {
    exists p :: p in players && p.room == room && p.username == username
  }

  /** `getPlayersInRoom(room)`: the players of the normalised room, in the
      order they joined. */
  function PlayersInRoom(reg: Registry, room: string): (r: seq<Player>)
    ensures forall p :: p in r <==> p in reg.players && p.room == Text.Normalize(room)
    ensures |r| <= |reg.players|
  {
    InRoom(reg.players, Text.Normalize(room))
  }

  /** `addPlayer({ id, username, room })`. Name and room are stored
      normalised; the checks run in the source's order (empty, duplicate
      name in the room, full room) and a rejected join changes nothing. */
  function AddPlayer(reg: Registry, id: Id, username: string, room: string, now: int)
    : (r: (Registry, Result<Player, JoinError>))
    ensures r.1.Failure? ==> r.0 == reg
    ensures r.1 == Failure(MissingName) <==> Text.Normalize(username) == "" || Text.Normalize(room) == ""
    ensures r.1 == Failure(NameTaken) <==>
      && Text.Normalize(username) != "" && Text.Normalize(room) != ""
      && NameTakenIn(reg.players, Text.Normalize(room), Text.Normalize(username))
    ensures r.1 == Failure(RoomFull) <==>
      && Text.Normalize(username) != "" && Text.Normalize(room) != ""
      && !NameTakenIn(reg.players, Text.Normalize(room), Text.Normalize(username))
      && |InRoom(reg.players, Text.Normalize(room))| >= MaxPlayersPerRoom
    ensures r.1.Success? ==>
      && r.1.value == Player(id, Text.Normalize(username), Text.Normalize(room), 0, 0, now)
      && r.0 == reg.(players := reg.players + [r.1.value])
  {
    var u := Text.Normalize(username);
    var rm := Text.Normalize(room);
    if u == "" || rm == "" then
      (reg, Failure(MissingName))
    else if exists p :: p in reg.players && p.room == rm && p.username == u then
      (reg, Failure(NameTaken))
    else
      Text.NormalizeIdempotent(room);
      if |PlayersInRoom(reg, rm)| >= MaxPlayersPerRoom then
        (reg, Failure(RoomFull))
      else
        var player := Player(id, u, rm, 0, 0, now);
        (reg.(players := reg.players + [player]), Success(player))
  }

  /** `getPlayer(id)`: the first player with this id. */
  function GetPlayer(reg: Registry, id: Id): (r: Option<Player>)
    ensures r.None? <==> forall p :: p in reg.players ==> p.id != id
    ensures r.Some? ==> r.value in reg.players && r.value.id == id
    ensures r.Some? ==> exists i ::
      && 0 <= i < |reg.players| && reg.players[i] == r.value
      && forall k :: 0 <= k < i ==> reg.players[k].id != id
  {
    match FirstWithId(reg.players, id)
    case None => None
    case Some(i) => Some(reg.players[i])
  }

  /** `rest` is `players` without entry `i`, the first with id `id`. */
  predicate FirstRemoved(players: seq<Player>, id: Id, i: int, rest: seq<Player>) {
    && 0 <= i < |players| && players[i].id == id
    && (forall k :: 0 <= k < i ==> players[k].id != id)
    && rest == players[..i] + players[i + 1..]
  }

  /** `removePlayer(id)`: takes the first player with this id out of the
      array and deletes that player's room once nobody is left in it. An
      unknown id changes nothing. */
  function RemovePlayer(reg: Registry, id: Id): (r: (Registry, Option<Player>))
    ensures r.1.None? <==> forall p :: p in reg.players ==> p.id != id
    ensures r.1.None? ==> r.0 == reg
    ensures r.1.Some? ==>
      exists i :: FirstRemoved(reg.players, id, i, r.0.players) && reg.players[i] == r.1.value
    ensures r.1.Some? ==> r.1.value.id == id
    ensures r.1.Some? ==>
      r.0.rooms.Keys == if |InRoom(r.0.players, Text.Normalize(r.1.value.room))| == 0
                        then reg.rooms.Keys - {r.1.value.room}
                        else reg.rooms.Keys
    ensures forall k :: k in r.0.rooms ==> k in reg.rooms && r.0.rooms[k] == reg.rooms[k]
  {
    match FirstWithId(reg.players, id)
    case None => (reg, None)
    case Some(i) =>
      var removed := reg.players[i];
      var rest := reg.players[..i] + reg.players[i + 1..];
      var rooms := if |PlayersInRoom(Registry(rest, reg.rooms), removed.room)| == 0
                   then reg.rooms - {removed.room} else reg.rooms;
      assert FirstRemoved(reg.players, id, i, rest);
      (Registry(rest, rooms), Some(removed))
  }

  /** The game state of a room that has never been started. */
  function InitialGameState(): (gs: GameState)
    ensures gs.status == Waiting && gs.currentRound == 0
    ensures gs.totalRounds == DefaultTotalRounds
    ensures gs.currentAnswer.None? && gs.correctGuessers == []
    ensures gs.usedThemes.None? && gs.usedPuzzles.None?
  {
    GameState(Waiting, 0, DefaultTotalRounds, None, "", None, None, None, [], None, None)
  }

  /** `createRoom(roomName)`: the room under the normalised name, created
      with a fresh `waiting` game when it does not exist yet. */
  function CreateRoom(reg: Registry, name: string, now: int): (r: (Registry, Room))
    ensures var key := Text.Normalize(name);
      && key in r.0.rooms && r.0.rooms[key] == r.1
      && r.0.players == reg.players
      && (key in reg.rooms ==> r.0 == reg)
      && (key !in reg.rooms ==>
            && r.1 == Room(key, now, InitialGameState())
            && r.0.rooms.Keys == reg.rooms.Keys + {key}
            && forall k :: k in reg.rooms ==> r.0.rooms[k] == reg.rooms[k])
  {
    var key := Text.Normalize(name);
    if key in reg.rooms then (reg, reg.rooms[key])
    else
      var room := Room(key, now, InitialGameState());
      (reg.(rooms := reg.rooms[key := room]), room)
  }

  /** Creating a room twice, under any spelling of the same normalised
      name, is creating it once. */
  lemma CreateRoomIdempotent(reg: Registry, name: string, again: string, t1: int, t2: int)
    requires Text.Normalize(again) == Text.Normalize(name)
    ensures var first := CreateRoom(reg, name, t1);
      CreateRoom(first.0, again, t2) == first
  {
  }

  /** Room names after normalisation under which a plain JavaScript object
      already answers with an inherited member (`Object.prototype`'s
      `constructor` and `__proto__`); no other member name is all lower
      case. */
  const InheritedKeys: set<string> := {"constructor", "__proto__"}

  /** What `rooms[roomName]` yields on the plain object the source uses. */
  datatype RoomSlot = OwnRoom(room: Room) | InheritedMember

  /** `createRoom` as written: `if (!rooms[roomName])` sees the inherited
      member as an existing room, creates nothing and returns that member. */
  function CreateRoomAsWritten(reg: Registry, name: string, now: int): (r: (Registry, RoomSlot))
    ensures var key := Text.Normalize(name);
      key !in reg.rooms && key in InheritedKeys ==> r == (reg, InheritedMember)
    ensures var key := Text.Normalize(name);
      key in reg.rooms || key !in InheritedKeys ==>
        r == (CreateRoom(reg, name, now).0, OwnRoom(CreateRoom(reg, name, now).1))
  {
    var key := Text.Normalize(name);
    if key in reg.rooms then (reg, OwnRoom(reg.rooms[key]))
    else if key in InheritedKeys then (reg, InheritedMember)
    else
      var room := Room(key, now, InitialGameState());
      (reg.(rooms := reg.rooms[key := room]), OwnRoom(room))
  }

  /** A player who joins under an id nobody holds is the one `getPlayer`
      then finds, with normalised name and room and nothing scored. */
  lemma {:induction false} AddedPlayerIsFound(reg: Registry, id: Id, username: string, room: string, now: int)
    requires forall p :: p in reg.players ==> p.id != id
    requires AddPlayer(reg, id, username, room, now).1.Success?
    ensures var r := AddPlayer(reg, id, username, room, now);
      && GetPlayer(r.0, id) == Some(r.1.value)
      && r.1.value.username == Text.Normalize(username)
      && r.1.value.room == Text.Normalize(room)
      && r.1.value.score == 0 && r.1.value.correctGuesses == 0
  {
    var r := AddPlayer(reg, id, username, room, now);
    var p := r.1.value;
    FirstWithIdSnoc(reg.players, p);
    assert (reg.players + [p])[|reg.players|] == p;
  }

  /** Taking out entry `i` lowers its room's head count by one. */
  lemma RemoveAtRoomCount(ps: seq<Player>, i: nat)
    requires i < |ps|
    ensures |InRoom(ps[..i] + ps[i + 1..], ps[i].room)| == |InRoom(ps, ps[i].room)| - 1
  {
    var p := ps[i];
    var before, after := ps[..i], ps[i + 1..];
    assert ps == before + [p] + after;
    InRoomAppend(before + [p], after, p.room);
    InRoomAppend(before, [p], p.room);
    InRoomAppend(before, after, p.room);
    assert InRoom([p], p.room) == [p];
  }

  /** When the last player of a room leaves, the room is gone from the
      registry and so from the room listing. */
  lemma LastPlayerLeavingDeletesRoom(reg: Registry, id: Id)
    requires GetPlayer(reg, id).Some?
    requires Text.Normalize(GetPlayer(reg, id).value.room) == GetPlayer(reg, id).value.room
    requires |InRoom(reg.players, GetPlayer(reg, id).value.room)| == 1
    ensures GetPlayer(reg, id).value.room !in RemovePlayer(reg, id).0.rooms
  {
    var i := FirstWithId(reg.players, id).value;
    RemoveAtRoomCount(reg.players, i);
  }

  /** `getRoomData(roomName)`. */
  function RoomData(reg: Registry, name: string): (r: Option<Room>)
    ensures r.Some? <==> Text.Normalize(name) in reg.rooms
    ensures r.Some? ==> r.value == reg.rooms[Text.Normalize(name)]
  {
    var key := Text.Normalize(name);
    if key in reg.rooms then Some(reg.rooms[key]) else None
  }

  /** `getRoomData` after `createRoom`: a name with the same normal form
      finds the room `createRoom` returned, and every other name finds
      what it found before. */
  lemma RoomDataAfterCreate(reg: Registry, name: string, other: string, now: int)
    ensures var (after, room) := CreateRoom(reg, name, now);
      && (Text.Normalize(other) == Text.Normalize(name) ==> RoomData(after, other) == Some(room))
      && (Text.Normalize(other) != Text.Normalize(name) ==> RoomData(after, other) == RoomData(reg, other))
  {
  }

  /** One entry of the `getAllRooms()` listing. */
  datatype RoomSummary = RoomSummary(name: string, playerCount: nat, status: Status)

  function Summary(reg: Registry, key: string): RoomSummary
    requires key in reg.rooms
  {
    RoomSummary(reg.rooms[key].name, |PlayersInRoom(reg, key)|, reg.rooms[key].gameState.status)
  }

  /** The keys of `rooms` listed once each, in some order: what
      `Object.keys(rooms)` yields. */
  method RoomKeys(rooms: map<string, Room>) returns (ks: seq<string>)
    ensures |ks| == |rooms|
    ensures forall i, j :: 0 <= i < j < |ks| ==> ks[i] != ks[j]
    ensures forall i :: 0 <= i < |ks| ==> ks[i] in rooms
    ensures forall k :: k in rooms ==> k in ks
  {
    ks := [];
    var remaining := rooms.Keys;
    while remaining != {}
      invariant remaining <= rooms.Keys
      invariant |ks| + |remaining| == |rooms.Keys|
      invariant forall i, j :: 0 <= i < j < |ks| ==> ks[i] != ks[j]
      invariant forall i :: 0 <= i < |ks| ==> ks[i] in rooms && ks[i] !in remaining
      invariant forall k :: k in rooms && k !in remaining ==> k in ks
      decreases |remaining|
    {
      var k :| k in remaining;
      assert |remaining - {k}| == |remaining| - 1;
      ks := ks + [k];
      remaining := remaining - {k};
    }
    assert |rooms| == |rooms.Keys|;
  }

  /** The summaries of the rooms under `ks`, in the order of `ks`. */
  function Summaries(reg: Registry, ks: seq<string>): (r: seq<RoomSummary>)
    requires forall i :: 0 <= i < |ks| ==> ks[i] in reg.rooms
    ensures |r| == |ks|
    ensures forall i :: 0 <= i < |ks| ==> r[i] == Summary(reg, ks[i])
  {
    seq(|ks|, i requires 0 <= i < |ks| => Summary(reg, ks[i]))
  }

  /** A listing over keys that name every room holds every room's summary. */
  lemma SummariesCover(reg: Registry, ks: seq<string>)
    requires forall i :: 0 <= i < |ks| ==> ks[i] in reg.rooms
    requires forall k :: k in reg.rooms ==> k in ks
    ensures forall k :: k in reg.rooms ==> Summary(reg, k) in Summaries(reg, ks)
  {
    var r := Summaries(reg, ks);
    forall k | k in reg.rooms
      ensures Summary(reg, k) in r
    {
      var i :| 0 <= i < |ks| && ks[i] == k;
      assert r[i] == Summary(reg, k);
    }
  }

  /** `getAllRooms()`: one summary per room, no room listed twice or left
      out, in some order of the keys (the ghost `keys` records which key
      each entry came from). */
  method AllRooms(reg: Registry) returns (r: seq<RoomSummary>, ghost keys: seq<string>)
    ensures |r| == |keys| == |reg.rooms|
    ensures forall i, j :: 0 <= i < j < |keys| ==> keys[i] != keys[j]
    ensures forall i :: 0 <= i < |keys| ==> keys[i] in reg.rooms && r[i] == Summary(reg, keys[i])
    ensures forall k :: k in reg.rooms ==> k in keys
    ensures forall k :: k in reg.rooms ==> Summary(reg, k) in r
  {
    var ks := RoomKeys(reg.rooms);
    SummariesCover(reg, ks);
    r := Summaries(reg, ks);
    keys := ks;
  }
}
