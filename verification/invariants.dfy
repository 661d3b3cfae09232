/** The invariants the registry and every room's game keep under all the
    operations of utils/players.js and utils/game.js, and the properties of
    whole games that follow from them. */
module Invariants {
  import opened Wrappers
  import opened State
  import Text
  import Catalog
  import Selection
  import Players
  import Game

  /** What holds of every room's game state. The round counter never runs
      ahead of the consumed themes, themes are never reused and only come
      from the catalog, puzzles are recorded only for consumed themes, a
      `playing` room has an answer and a start time, answers are catalog
      answers in normal form, and nobody is a correct guesser twice. */
  ghost predicate GameOk(gs: GameState) {
    && gs.totalRounds == Players.DefaultTotalRounds
    && 0 <= gs.currentRound <= |gs.usedThemes.GetOr([])|
    && (gs.status == Playing ==> gs.currentAnswer.Some? && gs.roundStartTime.Some?)
    && (gs.currentAnswer.Some? ==> Catalog.NormalAnswer(gs.currentAnswer.value))
    && Distinct(gs.correctGuessers)
    && Distinct(gs.usedThemes.GetOr([]))
    && (forall k :: k in gs.usedThemes.GetOr([]) ==> Catalog.IsThemeKey(k))
    && (forall k :: k in gs.usedPuzzles.GetOr(map[]) ==> k in gs.usedThemes.GetOr([]))
  }

  /** What holds of the registry: every room is filed under its own name
      and has a sound game; every player's name and room are non-empty and
      normalised; names are unique within a room; no room holds more than
      `MaxPlayersPerRoom` players. */
  ghost predicate RegistryOk(reg: Registry) {
    && (forall k :: k in reg.rooms ==> reg.rooms[k].name == k && GameOk(reg.rooms[k].gameState))
    && (forall p :: p in reg.players ==> PlayerOk(p))
    && UniqueNames(reg.players)
    && (forall room :: |InRoom(reg.players, room)| <= Players.MaxPlayersPerRoom)
  }

  predicate PlayerOk(p: Player) {
    && p.username != "" && p.room != ""
    && Text.Normalize(p.username) == p.username && Text.Normalize(p.room) == p.room
  }

  predicate UniqueNames(players: seq<Player>) {
    forall i, j :: 0 <= i < j < |players| && players[i].room == players[j].room
      ==> players[i].username != players[j].username
  }

  lemma EmptyRegistryOk()
    ensures RegistryOk(EmptyRegistry)
  {
  }

  // ---------------------------------------------------------------------
  // players.js operations

  /** Appending a sound player whose name is free in its room keeps every
      per-player property and the uniqueness of names within a room. */
  lemma SnocKeepsPlayers(ps: seq<Player>, p: Player)
    requires forall q :: q in ps ==> PlayerOk(q)
    requires UniqueNames(ps)
    requires PlayerOk(p)
    requires !Players.NameTakenIn(ps, p.room, p.username)
    ensures forall q :: q in ps + [p] ==> PlayerOk(q)
    ensures UniqueNames(ps + [p])
  {
    var qs := ps + [p];
    forall i, j | 0 <= i < j < |qs| && qs[i].room == qs[j].room
      ensures qs[i].username != qs[j].username
    {
      if j == |ps| {
        assert qs[i] == ps[i];
        assert ps[i] in ps;
      } else {
        assert qs[i] == ps[i] && qs[j] == ps[j];
      }
    }
  }

  /** Appending a player adds one to that player's room and nothing to
      the others. */
  lemma SnocRoomCount(ps: seq<Player>, p: Player, rm: string)
    ensures |InRoom(ps + [p], rm)| == |InRoom(ps, rm)| + (if p.room == rm then 1 else 0)
  {
    InRoomAppend(ps, [p], rm);
    assert InRoom([p], rm) == if p.room == rm then [p] else [];
  }

  /** Joining keeps the registry sound; in particular a join can never
      take a room above its capacity. */
  lemma AddPlayerPreservesOk(reg: Registry, id: Id, username: string, room: string, now: int)
    requires RegistryOk(reg)
    ensures RegistryOk(Players.AddPlayer(reg, id, username, room, now).0)
  {
    var r := Players.AddPlayer(reg, id, username, room, now);
    if r.1.Success? {
      var p := r.1.value;
      Text.NormalizeIdempotent(username);
      Text.NormalizeIdempotent(room);
      assert PlayerOk(p);
      SnocKeepsPlayers(reg.players, p);
      forall rm
        ensures |InRoom(reg.players + [p], rm)| <= Players.MaxPlayersPerRoom
      {
        SnocRoomCount(reg.players, p, rm);
      }
    }
  }

  lemma InRoomSubsequence(ps: seq<Player>, i: nat, room: string)
    requires i < |ps|
    ensures |InRoom(ps[..i] + ps[i + 1..], room)| <= |InRoom(ps, room)|
  {
    assert ps == ps[..i] + [ps[i]] + ps[i + 1..];
    InRoomAppend(ps[..i], ps[i + 1..], room);
    InRoomAppend(ps[..i] + [ps[i]], ps[i + 1..], room);
    InRoomAppend(ps[..i], [ps[i]], room);
  }

  /** Dropping one entry keeps every per-player property and the
      uniqueness of names within a room. */
  lemma RemoveAtKeepsPlayers(ps: seq<Player>, i: nat)
    requires i < |ps|
    requires forall p :: p in ps ==> PlayerOk(p)
    requires UniqueNames(ps)
    ensures forall p :: p in ps[..i] + ps[i + 1..] ==> PlayerOk(p)
    ensures UniqueNames(ps[..i] + ps[i + 1..])
  {
    var qs := ps[..i] + ps[i + 1..];
    assert forall a :: 0 <= a < |qs| ==> qs[a] == ps[if a < i then a else a + 1];
  }

  /** Leaving keeps the registry sound. */
  lemma RemovePlayerPreservesOk(reg: Registry, id: Id)
    requires RegistryOk(reg)
    ensures RegistryOk(Players.RemovePlayer(reg, id).0)
  {
    var r := Players.RemovePlayer(reg, id);
    if r.1.Some? {
      var i := FirstWithId(reg.players, id).value;
      assert r.0.players == reg.players[..i] + reg.players[i + 1..];
      RemoveAtKeepsPlayers(reg.players, i);
      forall rm
        ensures |InRoom(r.0.players, rm)| <= Players.MaxPlayersPerRoom
      {
        InRoomSubsequence(reg.players, i, rm);
      }
    }
  }

  /** Creating a room keeps the registry sound. */
  lemma CreateRoomPreservesOk(reg: Registry, name: string, now: int)
    requires RegistryOk(reg)
    ensures RegistryOk(Players.CreateRoom(reg, name, now).0)
  {
    var key := Text.Normalize(name);
    if key !in reg.rooms {
      var room := Room(key, now, Players.InitialGameState());
      assert GameOk(room.gameState);
      PutRoomOk(reg, key, room);
    }
  }

  /** Filing a sound room under its own name keeps the registry sound. */
  lemma PutRoomOk(reg: Registry, key: string, room: Room)
    requires RegistryOk(reg) && room.name == key && GameOk(room.gameState)
    ensures RegistryOk(reg.(rooms := reg.rooms[key := room]))
  {
  }

  // ---------------------------------------------------------------------
  // game.js operations

  lemma StartGamePreservesOk(reg: Registry, roomName: string, now: int)
    requires RegistryOk(reg)
    ensures RegistryOk(Game.StartGame(reg, roomName, now).0)
  {
    var r := Game.StartGame(reg, roomName, now);
    if r.1.Some? {
      assert GameOk(r.1.value);
      ReplaceGameOk(reg, Text.Normalize(roomName), r.1.value);
    }
  }

  lemma EndRoundPreservesOk(reg: Registry, roomName: string)
    requires RegistryOk(reg)
    ensures RegistryOk(Game.EndRound(reg, roomName).0)
  {
  }

  /** A sound registry never trips over the fields `submitGuess` reads
      unchecked. */
  lemma OkIsRoundReady(reg: Registry, player: Option<Player>)
    requires RegistryOk(reg)
    ensures Game.RoundReady(reg, player)
  {
  }

  lemma InRoomSameRooms(a: seq<Player>, b: seq<Player>, room: string)
    requires |a| == |b|
    requires forall j :: 0 <= j < |a| ==> a[j].room == b[j].room
    ensures |InRoom(a, room)| == |InRoom(b, room)|
  {
    if |a| > 0 {
      InRoomSameRooms(a[1..], b[1..], room);
    }
  }

  /** Recording a new correct guesser keeps the game sound. */
  lemma GuesserGameOk(gs: GameState, id: Id)
    requires GameOk(gs) && id !in gs.correctGuessers
    ensures GameOk(gs.(correctGuessers := gs.correctGuessers + [id]))
  {
  }

  /** Crediting a player changes neither names nor rooms, so the player
      side of the registry stays sound. */
  lemma CreditKeepsPlayersOk(players: seq<Player>, room: string, id: Id, score: int)
    requires forall p :: p in players ==> PlayerOk(p)
    requires UniqueNames(players)
    requires forall rm :: |InRoom(players, rm)| <= Players.MaxPlayersPerRoom
    ensures var ps := Game.Credit(players, room, id, score);
      && (forall p :: p in ps ==> PlayerOk(p))
      && UniqueNames(ps)
      && (forall rm :: |InRoom(ps, rm)| <= Players.MaxPlayersPerRoom)
  {
    var ps := Game.Credit(players, room, id, score);
    assert forall j :: 0 <= j < |ps| ==>
      ps[j].room == players[j].room && ps[j].username == players[j].username;
    forall q | q in ps ensures PlayerOk(q) {
      var j :| 0 <= j < |ps| && ps[j] == q;
      assert PlayerOk(players[j]);
    }
    forall rm ensures |InRoom(ps, rm)| <= Players.MaxPlayersPerRoom {
      InRoomSameRooms(ps, players, rm);
    }
  }

  /** Scoring a guess keeps the registry sound: the credited player keeps
      name and room, and the guesser list gains an id it did not hold. */
  lemma SubmitGuessPreservesOk(reg: Registry, player: Option<Player>, guess: string, now: int)
    requires RegistryOk(reg)
    ensures Game.RoundReady(reg, player)
    ensures RegistryOk(Game.SubmitGuess(reg, player, guess, now).0)
  {
    var r := Game.SubmitGuess(reg, player, guess, now);
    if r.1.correct {
      var p := player.value;
      var key := Game.GuessRoom(p);
      var gs := reg.rooms[key].gameState;
      var gs' := gs.(correctGuessers := gs.correctGuessers + [p.id]);
      GuesserGameOk(gs, p.id);
      ReplaceGameOk(reg, key, gs');
      CreditKeepsPlayersOk(reg.players, key, p.id, r.1.score);
      assert r.0 == Game.WithGameState(reg, key, gs').(players := Game.Credit(reg.players, key, p.id, r.1.score));
    }
  }

  /** Theme bookkeeping: a duplicate-free list of catalog keys has used up
      the catalog exactly when it has as many entries as there are themes. */
  lemma ExhaustedIffAllUsed(used: seq<string>)
    requires Distinct(used)
    requires forall k :: k in used ==> Catalog.IsThemeKey(k)
    ensures (forall k :: Catalog.IsThemeKey(k) ==> k in used) <==> |used| >= Catalog.ThemeCount
    ensures |used| <= Catalog.ThemeCount
  {
    Catalog.ThemeKeysDistinct();
    var keys := set k | k in Catalog.ThemeKeys();
    var usedSet := set k | k in used;
    DistinctCardinality(Catalog.ThemeKeys());
    DistinctCardinality(used);
    assert usedSet <= keys;
    assert |keys| == |usedSet| + |keys - usedSet| by {
      assert keys == usedSet + (keys - usedSet);
    }
    if |used| >= Catalog.ThemeCount {
      assert keys - usedSet == {};
      forall k | Catalog.IsThemeKey(k) ensures k in used {
        assert k in keys;
      }
    }
    if forall k :: Catalog.IsThemeKey(k) ==> k in used {
      assert keys <= usedSet;
    }
  }

  /** On a sound game, a round can be generated exactly when the room
      exists, its game is not finished and fewer than five themes have been
      used: the puzzle draw of a fresh theme never comes up empty. */
  lemma RoundIffThemeLeft(reg: Registry, roomName: string, themeRnd: real, puzzleRnd: real, now: int)
    requires RegistryOk(reg)
    requires 0.0 <= themeRnd < 1.0 && 0.0 <= puzzleRnd < 1.0
    ensures var key := Text.Normalize(roomName);
      Game.GenerateNewRound(reg, roomName, themeRnd, puzzleRnd, now).1.Some?
      <==> key in reg.rooms && reg.rooms[key].gameState.status != Finished
           && |reg.rooms[key].gameState.usedThemes.GetOr([])| < Catalog.ThemeCount
  {
    var key := Text.Normalize(roomName);
    if key in reg.rooms && reg.rooms[key].gameState.status != Finished {
      var gs := reg.rooms[key].gameState;
      ExhaustedIffAllUsed(gs.usedThemes.GetOr([]));
      if |gs.usedThemes.GetOr([])| < Catalog.ThemeCount {
        var pick := Selection.UnusedTheme(gs, themeRnd);
        var themeKey := pick.value.0;
        var gs1 := pick.value.1;
        assert themeKey !in gs1.usedPuzzles.GetOr(map[]);
        Selection.FreshThemeHasPuzzle(gs1, themeKey, puzzleRnd);
      }
    }
  }

  /** Swapping in a sound game state for one room keeps the registry sound. */
  lemma ReplaceGameOk(reg: Registry, key: string, gs: GameState)
    requires RegistryOk(reg) && key in reg.rooms && GameOk(gs)
    ensures RegistryOk(Game.WithGameState(reg, key, gs))
  {
  }

  /** The game state a successful round leaves behind is sound. */
  lemma RoundGameOk(before: GameState, after: GameState, themeKey: string, now: int)
    requires GameOk(before)
    requires Catalog.IsThemeKey(themeKey) && themeKey !in before.usedThemes.GetOr([])
    requires after.usedThemes == Some(before.usedThemes.GetOr([]) + [themeKey])
    requires Game.FromCatalog(after, themeKey, before)
    requires after.status == Playing && after.roundStartTime == Some(now)
    requires after.currentRound == before.currentRound + 1
    requires after.totalRounds == before.totalRounds
    requires after.correctGuessers == []
    requires forall k :: k != themeKey ==> Selection.UsedIndices(after, k) == Selection.UsedIndices(before, k)
    requires after.usedPuzzles.Some?
    requires forall k :: k in after.usedPuzzles.value && k != themeKey ==> k in before.usedPuzzles.GetOr(map[])
    ensures GameOk(after)
  {
    var i :| Game.PuzzleOf(after, themeKey, before, i);
    Catalog.ThemeShape(themeKey);
    var used := before.usedThemes.GetOr([]);
    assert forall k :: k in after.usedThemes.value ==> k in used || k == themeKey;
  }

  /** The room's game after a successful round is sound. */
  lemma SuccessfulRoundOk(reg: Registry, roomName: string, themeRnd: real, puzzleRnd: real, now: int)
    requires RegistryOk(reg)
    requires 0.0 <= themeRnd < 1.0 && 0.0 <= puzzleRnd < 1.0
    requires Game.GenerateNewRound(reg, roomName, themeRnd, puzzleRnd, now).1.Some?
    ensures GameOk(Game.GenerateNewRound(reg, roomName, themeRnd, puzzleRnd, now).0.rooms[Text.Normalize(roomName)].gameState)
  {
    var r := Game.GenerateNewRound(reg, roomName, themeRnd, puzzleRnd, now);
    var key := Text.Normalize(roomName);
    var before := reg.rooms[key].gameState;
    var after := r.0.rooms[key].gameState;
    var used := before.usedThemes.GetOr([]);
    var themeKey := after.usedThemes.value[|used|];
    RoundShape(reg, roomName, themeRnd, puzzleRnd, now);
    RoundGameOk(before, after, themeKey, now);
  }

  /** On a sound registry a refused round changes nothing. */
  lemma RefusedRoundUnchanged(reg: Registry, roomName: string, themeRnd: real, puzzleRnd: real, now: int)
    requires RegistryOk(reg)
    requires 0.0 <= themeRnd < 1.0 && 0.0 <= puzzleRnd < 1.0
    requires Game.GenerateNewRound(reg, roomName, themeRnd, puzzleRnd, now).1.None?
    ensures Game.GenerateNewRound(reg, roomName, themeRnd, puzzleRnd, now).0 == reg
  {
    var key := Text.Normalize(roomName);
    RoundIffThemeLeft(reg, roomName, themeRnd, puzzleRnd, now);
    if key in reg.rooms && reg.rooms[key].gameState.status != Finished {
      ExhaustedIffAllUsed(reg.rooms[key].gameState.usedThemes.GetOr([]));
      assert Game.ThemesExhausted(reg.rooms[key].gameState);
    }
  }

  /** Generating a round keeps the registry sound. */
  lemma GenerateNewRoundPreservesOk(reg: Registry, roomName: string, themeRnd: real, puzzleRnd: real, now: int)
    requires RegistryOk(reg)
    requires 0.0 <= themeRnd < 1.0 && 0.0 <= puzzleRnd < 1.0
    ensures RegistryOk(Game.GenerateNewRound(reg, roomName, themeRnd, puzzleRnd, now).0)
  {
    var r := Game.GenerateNewRound(reg, roomName, themeRnd, puzzleRnd, now);
    var key := Text.Normalize(roomName);
    if r.1.Some? {
      SuccessfulRoundOk(reg, roomName, themeRnd, puzzleRnd, now);
      ReplaceGameOk(reg, key, r.0.rooms[key].gameState);
    } else {
      RefusedRoundUnchanged(reg, roomName, themeRnd, puzzleRnd, now);
    }
  }

  /** How a successful round changes the puzzle records: only the consumed
      theme's entry changes. */
  lemma RoundShape(reg: Registry, roomName: string, themeRnd: real, puzzleRnd: real, now: int)
    requires 0.0 <= themeRnd < 1.0 && 0.0 <= puzzleRnd < 1.0
    requires Game.GenerateNewRound(reg, roomName, themeRnd, puzzleRnd, now).1.Some?
    ensures var r := Game.GenerateNewRound(reg, roomName, themeRnd, puzzleRnd, now);
      var key := Text.Normalize(roomName);
      var before := reg.rooms[key].gameState;
      var after := r.0.rooms[key].gameState;
      var themeKey := after.usedThemes.value[|before.usedThemes.GetOr([])|];
      && after.usedPuzzles.Some?
      && (forall k :: k != themeKey ==> Selection.UsedIndices(after, k) == Selection.UsedIndices(before, k))
      && (forall k :: k in after.usedPuzzles.value && k != themeKey ==> k in before.usedPuzzles.GetOr(map[]))
  {
    var key := Text.Normalize(roomName);
    var gs := reg.rooms[key].gameState;
    var pick := Selection.UnusedTheme(gs, themeRnd);
    var themeKey := pick.value.0;
    var gs1 := pick.value.1;
    var (gs2, index) := Selection.UnusedPuzzle(gs1, themeKey, puzzleRnd);
    assert gs2.usedPuzzles.value.Keys == gs.usedPuzzles.GetOr(map[]).Keys + {themeKey};
  }
}
