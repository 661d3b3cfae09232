/** The in-memory data of the server: players, rooms and each room's game
    state, as utils/players.js stores them and utils/game.js updates them.
    Time is an integer count of milliseconds supplied by the caller. */
module State {
  import opened Wrappers

  /** A socket connection id. */
  type Id = string

  datatype Status = Waiting | Starting | Playing | Intermission | Finished

  /** `room.gameState`. `usedThemes` and `usedPuzzles` are absent in the
      state `createRoom` builds and present after `startGame`; `usedPuzzles`
      maps a theme key to the puzzle indices drawn from that theme. */
  datatype GameState = GameState(
    status: Status,
    currentRound: int,
    totalRounds: int,
    theme: Option<string>,
    emojiClues: string,
    currentAnswer: Option<string>,
    startTime: Option<int>,
    roundStartTime: Option<int>,
    correctGuessers: seq<Id>,
    usedThemes: Option<seq<string>>,
    usedPuzzles: Option<map<string, seq<nat>>>)

  datatype Room = Room(name: string, created: int, gameState: GameState)

  datatype Player = Player(
    id: Id,
    username: string,
    room: string,
    score: int,
    correctGuesses: int,
    joinedAt: int)

  /** The module-level `players` array and `rooms` object. */
  datatype Registry = Registry(players: seq<Player>, rooms: map<string, Room>)

  const EmptyRegistry := Registry([], map[])

  /** The players of `players` whose room is `room`, in array order. */
  function InRoom(players: seq<Player>, room: string): (r: seq<Player>)
    ensures |r| <= |players|
    ensures forall p :: p in r <==> p in players && p.room == room
  {
    if |players| == 0 then []
    else if players[0].room == room then [players[0]] + InRoom(players[1..], room)
    else InRoom(players[1..], room)
  }

  /** Index of the first player with id `id`, if any (`findIndex`). */
  function FirstWithId(players: seq<Player>, id: Id): (r: Option<nat>)
    ensures r.None? <==> forall p :: p in players ==> p.id != id
    ensures r.Some? ==> r.value < |players| && players[r.value].id == id
    ensures r.Some? ==> forall k :: 0 <= k < r.value ==> players[k].id != id
  {
    if |players| == 0 then None
    else if players[0].id == id then Some(0)
    else match FirstWithId(players[1..], id)
      case None => None
      case Some(k) => Some(k + 1)
  }

  /** A player appended under an id nobody holds is the first with it. */
  lemma FirstWithIdSnoc(players: seq<Player>, p: Player)
    requires forall q :: q in players ==> q.id != p.id
    ensures FirstWithId(players + [p], p.id) == Some(|players|)
  {
    var ps := players + [p];
    assert ps[|players|] == p;
    assert forall k :: 0 <= k < |players| ==> ps[k] == players[k];
  }

  lemma InRoomUnfold(a: seq<Player>, b: seq<Player>, room: string)
    requires |a| > 0
    ensures InRoom(a + b, room) == (if a[0].room == room then [a[0]] else []) + InRoom(a[1..] + b, room)
  {
    var ab := a + b;
    assert ab[0] == a[0] && ab[1..] == a[1..] + b;
  }

  /** Filtering by room distributes over concatenation. */
  lemma {:induction false} InRoomAppend(a: seq<Player>, b: seq<Player>, room: string)
    ensures InRoom(a + b, room) == InRoom(a, room) + InRoom(b, room)
  {
    if |a| == 0 {
      assert a + b == b;
    } else {
      var head := if a[0].room == room then [a[0]] else [];
      InRoomUnfold(a, b, room);
      InRoomAppend(a[1..], b, room);
      calc {
        InRoom(a + b, room);
        head + InRoom(a[1..] + b, room);
        head + (InRoom(a[1..], room) + InRoom(b, room));
        (head + InRoom(a[1..], room)) + InRoom(b, room);
      }
    }
  }

  /** No element occurs twice. */
  predicate Distinct<T(==)>(s: seq<T>) {
    forall i, j :: 0 <= i < j < |s| ==> s[i] != s[j]
  }

  /** A duplicate-free sequence has as many distinct elements as entries. */
  lemma {:induction false} DistinctCardinality<T>(s: seq<T>)
    requires Distinct(s)
    ensures |set x | x in s| == |s|
  {
    if |s| > 0 {
      var rest := s[1..];
      DistinctCardinality(rest);
      assert (set x | x in s) == (set x | x in rest) + {s[0]};
      assert s[0] !in rest;
    }
  }
}
