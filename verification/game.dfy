/** The per-room game of utils/game.js: starting a game, generating a
    round, scoring guesses, ending a round and the public view of the
    state. Room names are looked up normalised, as `getRoomData` does. */
module Game {
  import opened Wrappers
  import opened State
  import Text
  import Catalog
  import Selection
  import Scoring
  import Players

  /** `reg` with the game state of room `key` replaced by `gs`. */
  function WithGameState(reg: Registry, key: string, gs: GameState): (r: Registry)
    requires key in reg.rooms
    ensures r.players == reg.players
    ensures r.rooms.Keys == reg.rooms.Keys
    ensures r.rooms[key] == reg.rooms[key].(gameState := gs)
    ensures forall k :: k in reg.rooms && k != key ==> r.rooms[k] == reg.rooms[k]
  {
    reg.(rooms := reg.rooms[key := reg.rooms[key].(gameState := gs)])
  }

  /** `startGame(roomName)`: replaces the room's game state wholesale with
      a fresh `starting` game, whatever state it was in; no room, no game. */
  function StartGame(reg: Registry, roomName: string, now: int): (r: (Registry, Option<GameState>))
    ensures r.1.None? <==> Text.Normalize(roomName) !in reg.rooms
    ensures r.1.None? ==> r.0 == reg
    ensures r.1.Some? ==>
      && r.1.value.status == Starting
      && r.1.value.currentRound == 0
      && r.1.value.totalRounds == Players.DefaultTotalRounds
      && r.1.value.correctGuessers == []
      && r.1.value.usedThemes == Some([])
      && r.1.value.usedPuzzles == Some(map[])
      && r.1.value.currentAnswer.None? && r.1.value.theme.None?
      && r.1.value.roundStartTime.None? && r.1.value.startTime == Some(now)
      && r.0 == WithGameState(reg, Text.Normalize(roomName), r.1.value)
  {
    var key := Text.Normalize(roomName);
    if key !in reg.rooms then (reg, None)
    else
      var gs := GameState(Starting, 0, Players.DefaultTotalRounds, None, "", None,
                          Some(now), None, [], Some([]), Some(map[]));
      (WithGameState(reg, key, gs), Some(gs))
  }

  /** The previous game leaves no trace: starting a game gives the same
      result whatever game state the room held before. */
  lemma StartGameForgetsPast(reg: Registry, roomName: string, now: int, previous: GameState)
    requires Text.Normalize(roomName) in reg.rooms
    ensures var key := Text.Normalize(roomName);
      StartGame(WithGameState(reg, key, previous), roomName, now) == StartGame(reg, roomName, now)
  {
    var key := Text.Normalize(roomName);
    var reg' := WithGameState(reg, key, previous);
    assert reg'.rooms[key := reg'.rooms[key].(gameState := StartGame(reg, roomName, now).1.value)]
        == reg.rooms[key := reg.rooms[key].(gameState := StartGame(reg, roomName, now).1.value)];
  }

  /** What `generateNewRound` announces to the room: no answer in it. */
  datatype Announcement = Announcement(round: int, totalRounds: int, theme: string, emojiClues: string)

  /** The game state of a round built from theme `themeKey` and its puzzle
      `index`, on top of `gs` (whose used lists already record both). */
  function RoundState(gs: GameState, themeKey: string, index: nat, now: int): (r: GameState)
    requires Catalog.IsThemeKey(themeKey) && index < |Catalog.ThemeOf(themeKey).puzzles|
  {
    var puzzle := Catalog.ThemeOf(themeKey).puzzles[index];
    gs.(status := Playing,
        currentRound := gs.currentRound + 1,
        theme := Some(Catalog.ThemeOf(themeKey).name),
        emojiClues := puzzle.emojis,
        currentAnswer := Some(puzzle.answer),
        roundStartTime := Some(now),
        correctGuessers := [])
  }

  /** All theme keys are recorded as used. */
  ghost predicate ThemesExhausted(gs: GameState) {
    forall k :: Catalog.IsThemeKey(k) ==> k in gs.usedThemes.GetOr([])
  }

  /** `generateNewRound(roomName)`. Refused (no announcement, nothing
      changed) for a missing room, a finished game or a game with every
      theme used. Otherwise a fresh theme is consumed; if its puzzles are
      all used the round is still refused but the theme stays consumed.
      On success the room is `playing` the next round with an unused puzzle
      of that theme, its guessers cleared and its clock set to `now`. */
  function GenerateNewRound(reg: Registry, roomName: string, themeRnd: real, puzzleRnd: real, now: int)
    : (r: (Registry, Option<Announcement>))
    requires 0.0 <= themeRnd < 1.0 && 0.0 <= puzzleRnd < 1.0
    ensures r.0.rooms.Keys == reg.rooms.Keys
    ensures Text.Normalize(roomName) !in reg.rooms ==> r.0 == reg
    ensures Text.Normalize(roomName) in reg.rooms ==>
      r.0 == WithGameState(reg, Text.Normalize(roomName), r.0.rooms[Text.Normalize(roomName)].gameState)
    ensures var key := Text.Normalize(roomName);
      (|| key !in reg.rooms
       || reg.rooms[key].gameState.status == Finished
       || ThemesExhausted(reg.rooms[key].gameState))
      ==> r == (reg, None)
    ensures r.1.Some? ==>
      NewRoundFacts(reg.rooms[Text.Normalize(roomName)].gameState,
                    r.0.rooms[Text.Normalize(roomName)].gameState, r.1.value, now)
  {
    var key := Text.Normalize(roomName);
    if key !in reg.rooms || reg.rooms[key].gameState.status == Finished then (reg, None)
    else
      var gs := reg.rooms[key].gameState;
      match Selection.UnusedTheme(gs, themeRnd)
      case None => (reg, None)
      case Some((themeKey, _)) => RoundWithTheme(reg, key, themeKey, puzzleRnd, now)
  }

  /** What a successful round does to the room's game: it was not finished
      and is now `playing` the next round of the same game, with its
      guessers cleared and its clock set to `now`; one fresh catalog theme
      is appended to the used list and an unused puzzle of it is shown; the
      announcement gives round, total, theme and clues, not the answer. */
  ghost predicate NewRoundFacts(before: GameState, after: GameState, a: Announcement, now: int) {
    var used := before.usedThemes.GetOr([]);
    && before.status != Finished
    && after.status == Playing
    && after.currentRound == before.currentRound + 1
    && after.totalRounds == before.totalRounds
    && after.correctGuessers == []
    && after.roundStartTime == Some(now)
    && after.startTime == before.startTime
    && after.usedThemes.Some?
    && |after.usedThemes.value| == |used| + 1
    && after.usedThemes.value == used + [after.usedThemes.value[|used|]]
    && Catalog.IsThemeKey(after.usedThemes.value[|used|])
    && after.usedThemes.value[|used|] !in used
    && FromCatalog(after, after.usedThemes.value[|used|], before)
    && a == Announcement(after.currentRound, after.totalRounds, after.theme.value, after.emojiClues)
  }

  /** The rest of `generateNewRound` once theme `themeKey` has been drawn
      for room `key`: the theme is recorded as used, then a puzzle of it is
      drawn; the round is refused (the theme staying used) when none is
      left. */
  function RoundWithTheme(reg: Registry, key: string, themeKey: string, puzzleRnd: real, now: int)
    : (r: (Registry, Option<Announcement>))
    requires key in reg.rooms && 0.0 <= puzzleRnd < 1.0
    requires Catalog.IsThemeKey(themeKey)
    requires reg.rooms[key].gameState.status != Finished
    requires themeKey !in reg.rooms[key].gameState.usedThemes.GetOr([])
    ensures r.0.rooms.Keys == reg.rooms.Keys
    ensures r.0 == WithGameState(reg, key, r.0.rooms[key].gameState)
    ensures r.1.Some? ==> NewRoundFacts(reg.rooms[key].gameState, r.0.rooms[key].gameState, r.1.value, now)
  {
    var gs := reg.rooms[key].gameState;
    var gs1 := gs.(usedThemes := Some(gs.usedThemes.GetOr([]) + [themeKey]));
    var (gs2, pick) := Selection.UnusedPuzzle(gs1, themeKey, puzzleRnd);
    match pick
    case None => (WithGameState(reg, key, gs2), None)
    case Some(index) =>
      var gs3 := RoundState(gs2, themeKey, index, now);
      assert FromCatalog(gs3, themeKey, gs) by {
        assert PuzzleOf(gs3, themeKey, gs, index);
      }
      (WithGameState(reg, key, gs3),
       Some(Announcement(gs3.currentRound, gs3.totalRounds, gs3.theme.value, gs3.emojiClues)))
  }

  /** `after` shows puzzle `i` of theme `themeKey`, an index `before` had
      not used, now recorded as used. */
  predicate PuzzleOf(after: GameState, themeKey: string, before: GameState, i: int)
    requires Catalog.IsThemeKey(themeKey)
  {
    && 0 <= i < |Catalog.ThemeOf(themeKey).puzzles|
    && i !in Selection.UsedIndices(before, themeKey)
    && Selection.UsedIndices(after, themeKey) == Selection.UsedIndices(before, themeKey) + [i]
    && after.theme == Some(Catalog.ThemeOf(themeKey).name)
    && after.currentAnswer == Some(Catalog.ThemeOf(themeKey).puzzles[i].answer)
    && after.emojiClues == Catalog.ThemeOf(themeKey).puzzles[i].emojis
  }

  ghost predicate FromCatalog(after: GameState, themeKey: string, before: GameState)
    requires Catalog.IsThemeKey(themeKey)
  {
    exists i :: PuzzleOf(after, themeKey, before, i)
  }

  /** What `submitGuess` hands back to the guesser. */
  datatype GuessResult = GuessResult(correct: bool, score: int, answer: Option<string>, message: Option<string>)

  const Miss := GuessResult(false, 0, None, None)
  const AlreadyGuessedMessage := "You've already guessed correctly for this round."

  /** The room `submitGuess` reads: the guessing player's room, normalised. */
  function GuessRoom(player: Player): string {
    Text.Normalize(player.room)
  }

  /** The game state of the guessing player's room. */
  function GuessState(reg: Registry, player: Player): GameState
    requires GuessRoom(player) in reg.rooms
  {
    reg.rooms[GuessRoom(player)].gameState
  }

  /** What `submitGuess` dereferences without checking: a room that is
      `playing` has an answer to lower-case. (A missing round start is not
      needed: `new Date(null)` reads it as time 0, see `RoundStart`.) */
  predicate RoundReady(reg: Registry, player: Option<Player>) {
    player.Some? && GuessRoom(player.value) in reg.rooms
    && reg.rooms[GuessRoom(player.value)].gameState.status == Playing
    ==> reg.rooms[GuessRoom(player.value)].gameState.currentAnswer.Some?
  }

  /** `new Date(roundStartTime).getTime()`: the stored start, or 0 when
      there is none (`new Date(null)` is the epoch). */
  function RoundStart(gs: GameState): int {
    gs.roundStartTime.GetOr(0)
  }

  /** The guess counts: the player is known, the room is `playing`, the
      player has not scored this round and the trimmed, lower-cased guess
      equals the lower-cased answer. */
  predicate GuessAccepted(reg: Registry, player: Option<Player>, guess: string)
    requires RoundReady(reg, player)
  {
    && player.Some?
    && GuessRoom(player.value) in reg.rooms
    && reg.rooms[GuessRoom(player.value)].gameState.status == Playing
    && player.value.id !in reg.rooms[GuessRoom(player.value)].gameState.correctGuessers
    && Text.Normalize(guess) == Text.ToLower(reg.rooms[GuessRoom(player.value)].gameState.currentAnswer.value)
  }

  /** Position `j` holds the first player of `room` with id `id`: the one
      `players.find` picks to credit. */
  predicate FirstOfRoom(players: seq<Player>, room: string, id: Id, j: int) {
    && 0 <= j < |players| && players[j].room == room && players[j].id == id
    && forall k :: 0 <= k < j ==> !(players[k].room == room && players[k].id == id)
  }

  function FirstInRoomWithId(players: seq<Player>, room: string, id: Id): (r: Option<nat>)
    ensures r.Some? ==> FirstOfRoom(players, room, id, r.value)
    ensures r.None? ==> forall j :: !FirstOfRoom(players, room, id, j)
  {
    if |players| == 0 then None
    else if players[0].room == room && players[0].id == id then Some(0)
    else match FirstInRoomWithId(players[1..], room, id)
      case None =>
        assert forall j :: FirstOfRoom(players, room, id, j) ==> j > 0 && FirstOfRoom(players[1..], room, id, j - 1);
        None
      case Some(k) => Some(k + 1)
  }

  /** `players` with the first player of `room` with id `id` credited
      `score` points and one more correct guess; nobody else changes. */
  function Credit(players: seq<Player>, room: string, id: Id, score: int): (r: seq<Player>)
    ensures |r| == |players|
    ensures forall j :: 0 <= j < |players| ==>
      r[j] == if FirstOfRoom(players, room, id, j)
              then players[j].(score := players[j].score + score,
                               correctGuesses := players[j].correctGuesses + 1)
              else players[j]
  {
    match FirstInRoomWithId(players, room, id)
    case None => players
    case Some(i) =>
      assert forall j :: FirstOfRoom(players, room, id, j) ==> j == i;
      players[i := players[i].(score := players[i].score + score,
                               correctGuesses := players[i].correctGuesses + 1)]
  }

  /** The scoring half of `submitGuess`, for a guess that counts: the
      score decays with the time since the round began, the guesser's first
      registry entry in the room is credited, the guesser is recorded for
      the round and the answer is revealed to the guesser. */
  function AcceptGuess(reg: Registry, player: Player, now: int): (r: (Registry, GuessResult))
    requires GuessRoom(player) in reg.rooms
    requires GuessState(reg, player).currentAnswer.Some?
    ensures r.1.correct && r.1.message.None?
    ensures r.1.score == Scoring.Score(now - RoundStart(GuessState(reg, player)))
    ensures now >= RoundStart(GuessState(reg, player)) ==>
      Scoring.MinScore <= r.1.score <= Scoring.MaxScore
    ensures r.1.answer == GuessState(reg, player).currentAnswer
    ensures var gs := GuessState(reg, player);
      r.0.rooms == WithGameState(reg, GuessRoom(player),
                                 gs.(correctGuessers := gs.correctGuessers + [player.id])).rooms
    ensures r.0.players == Credit(reg.players, GuessRoom(player), player.id, r.1.score)
  {
    var key := GuessRoom(player);
    var gs := reg.rooms[key].gameState;
    var score := Scoring.Score(now - RoundStart(gs));
    var gs' := gs.(correctGuessers := gs.correctGuessers + [player.id]);
    (Registry(Credit(reg.players, key, player.id, score), WithGameState(reg, key, gs').rooms),
     GuessResult(true, score, gs.currentAnswer, None))
  }

  /** `submitGuess(player, guess)`. A guess that does not count scores 0
      and changes nothing (with a notice when the player already scored this
      round); one that counts is scored by `AcceptGuess`. */
  function SubmitGuess(reg: Registry, player: Option<Player>, guess: string, now: int)
    : (r: (Registry, GuessResult))
    requires RoundReady(reg, player)
    ensures r.1.correct <==> GuessAccepted(reg, player, guess)
    ensures !r.1.correct ==> r.0 == reg && r.1.score == 0 && r.1.answer.None?
    ensures r.1.message.Some? <==>
      && player.Some? && GuessRoom(player.value) in reg.rooms
      && GuessState(reg, player.value).status == Playing
      && player.value.id in GuessState(reg, player.value).correctGuessers
    ensures r.1.correct ==> r == AcceptGuess(reg, player.value, now)
  {
    if player.None? then (reg, Miss)
    else
      var p := player.value;
      var key := GuessRoom(p);
      if key !in reg.rooms || reg.rooms[key].gameState.status != Playing then (reg, Miss)
      else
        var gs := reg.rooms[key].gameState;
        if p.id in gs.correctGuessers then
          (reg, GuessResult(false, 0, None, Some(AlreadyGuessedMessage)))
        else if Text.Normalize(guess) != Text.ToLower(gs.currentAnswer.value) then
          (reg, Miss)
        else
          AcceptGuess(reg, p, now)
  }

  /** The summary `endRound` broadcasts. */
  datatype RoundResult = RoundResult(
    round: int,
    theme: Option<string>,
    emojiClues: string,
    answer: Option<string>,
    correctGuessers: nat,
    players: seq<Player>)

  predicate SortedByScore(ps: seq<Player>) {
    forall i, j :: 0 <= i < j < |ps| ==> ps[i].score >= ps[j].score
  }

  /** `x` placed after every player scoring more and before the rest. */
  function InsertByScore(x: Player, ps: seq<Player>): (r: seq<Player>)
    requires SortedByScore(ps)
    ensures |r| == |ps| + 1
    ensures forall p :: p in r <==> p in ps || p == x
    ensures SortedByScore(r)
    ensures multiset(r) == multiset(ps) + multiset{x}
  {
    if |ps| == 0 || ps[0].score <= x.score then [x] + ps
    else
      var rest := InsertByScore(x, ps[1..]);
      assert ps == [ps[0]] + ps[1..];
      SortedCons(ps[0], rest);
      [ps[0]] + rest
  }

  lemma SortedCons(h: Player, t: seq<Player>)
    requires SortedByScore(t)
    requires forall p :: p in t ==> p.score <= h.score
    ensures SortedByScore([h] + t)
  {
    forall i, j | 0 <= i < j < |[h] + t| ensures ([h] + t)[i].score >= ([h] + t)[j].score {
      assert ([h] + t)[j] == t[j - 1];
      if i > 0 {
        assert ([h] + t)[i] == t[i - 1];
      } else {
        assert t[j - 1] in t;
      }
    }
  }

  /** `players.sort((a, b) => b.score - a.score)`: highest score first;
      the stable sort keeps players with equal scores in their original
      order (see `SortByScoreStable`). */
  function SortByScore(ps: seq<Player>): (r: seq<Player>)
    ensures SortedByScore(r)
    ensures multiset(r) == multiset(ps)
  {
    if |ps| == 0 then []
    else
      assert ps == [ps[0]] + ps[1..];
      InsertByScore(ps[0], SortByScore(ps[1..]))
  }

  /** The players of `ps` with score `v`, in order. */
  function WithScore(ps: seq<Player>, v: int): seq<Player> {
    if |ps| == 0 then []
    else (if ps[0].score == v then [ps[0]] else []) + WithScore(ps[1..], v)
  }

  lemma WithScoreCons(p: Player, ps: seq<Player>, v: int)
    ensures WithScore([p] + ps, v) == (if p.score == v then [p] else []) + WithScore(ps, v)
  {
    assert ([p] + ps)[1..] == ps;
  }

  lemma {:induction false} InsertByScoreStable(x: Player, ps: seq<Player>, v: int)
    requires SortedByScore(ps)
    ensures WithScore(InsertByScore(x, ps), v)
            == (if x.score == v then [x] else []) + WithScore(ps, v)
  {
    if |ps| == 0 || ps[0].score <= x.score {
      WithScoreCons(x, ps, v);
    } else {
      var rest := InsertByScore(x, ps[1..]);
      InsertByScoreStable(x, ps[1..], v);
      WithScoreCons(ps[0], rest, v);
      WithScoreCons(ps[0], ps[1..], v);
      assert [ps[0]] + ps[1..] == ps;
      assert x.score == v ==> ps[0].score != v;
    }
  }

  /** Sorting is stable: for every score, the players with that score keep
      their relative order. */
  lemma {:induction false} SortByScoreStable(ps: seq<Player>, v: int)
    ensures WithScore(SortByScore(ps), v) == WithScore(ps, v)
  {
    if |ps| > 0 {
      SortByScoreStable(ps[1..], v);
      InsertByScoreStable(ps[0], SortByScore(ps[1..]), v);
    }
  }

  /** The status `endRound` moves to. */
  function StatusAfterRound(gs: GameState): (s: Status)
    ensures s == Finished <==> gs.currentRound >= gs.totalRounds
    ensures s == Finished || s == Intermission
  {
    if gs.currentRound >= gs.totalRounds then Finished else Intermission
  }

  /** `endRound(roomName)`: reports the round (its answer included) with the
      room's players ranked by score, then moves the room to `finished`
      after the last round and to `intermission` before it. Nothing else in
      the registry changes; the players' array keeps its order. */
  function EndRound(reg: Registry, roomName: string): (r: (Registry, Option<RoundResult>))
    ensures r.1.None? <==> Text.Normalize(roomName) !in reg.rooms
    ensures r.1.None? ==> r.0 == reg
    ensures r.1.Some? ==>
      var key := Text.Normalize(roomName);
      var gs := reg.rooms[key].gameState;
      && r.0 == WithGameState(reg, key, gs.(status := StatusAfterRound(gs)))
      && r.1.value.round == gs.currentRound
      && r.1.value.answer == gs.currentAnswer
      && r.1.value.theme == gs.theme && r.1.value.emojiClues == gs.emojiClues
      && r.1.value.correctGuessers == |gs.correctGuessers|
      && SortedByScore(r.1.value.players)
      && multiset(r.1.value.players) == multiset(Players.PlayersInRoom(reg, roomName))
  {
    var key := Text.Normalize(roomName);
    if key !in reg.rooms then (reg, None)
    else
      var gs := reg.rooms[key].gameState;
      var result := RoundResult(gs.currentRound, gs.theme, gs.emojiClues, gs.currentAnswer,
                                |gs.correctGuessers|, SortByScore(Players.PlayersInRoom(reg, roomName)));
      (WithGameState(reg, key, gs.(status := StatusAfterRound(gs))), Some(result))
  }

  /** `getGameState(roomName)`: the room's game state with the answer
      withheld unless the game is finished; every other field as stored. */
  function GameView(reg: Registry, roomName: string): (r: Option<GameState>)
    ensures r.Some? <==> Text.Normalize(roomName) in reg.rooms
    ensures r.Some? ==>
      var gs := reg.rooms[Text.Normalize(roomName)].gameState;
      && (r.value.currentAnswer.Some? ==> r.value.status == Finished)
      && (r.value.status == Finished ==> r.value.currentAnswer == gs.currentAnswer)
      && r.value.(currentAnswer := gs.currentAnswer) == gs
  {
    match Players.RoomData(reg, roomName)
    case None => None
    case Some(room) =>
      var gs := room.gameState;
      Some(gs.(currentAnswer := if gs.status == Finished then gs.currentAnswer else None))
  }
}
