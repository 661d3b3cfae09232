/** Properties of sequences of calls: a whole game's worth of rounds,
    guessing twice in one round, and the two places where the JavaScript as
    written departs from what it evidently means to do. */
module Scenarios {
  import opened Wrappers
  import opened State
  import Text
  import Catalog
  import Selection
  import Players
  import Game
  import Invariants

  /** The random draws of one `generateNewRound` call: theme, then puzzle,
      each a value of `Math.random()`. */
  type Draw = d: (real, real) | 0.0 <= d.0 < 1.0 && 0.0 <= d.1 < 1.0 witness (0.0, 0.0)

  /** One turn of the round timer on a sound room whose round counter
      matches its used themes: `generateNewRound` followed by `endRound`.
      The round is generated exactly when the game is not finished and a
      theme is left; it then announces the next round and uses one more
      theme; `endRound` then finishes the game exactly when the round
      counter has reached five. */
  lemma RoundThenEnd(reg: Registry, roomName: string, d: Draw, now: int)
    requires Invariants.RegistryOk(reg)
    requires Text.Normalize(roomName) in reg.rooms
    requires reg.rooms[Text.Normalize(roomName)].gameState.currentRound
             == |reg.rooms[Text.Normalize(roomName)].gameState.usedThemes.GetOr([])|
    ensures var key := Text.Normalize(roomName);
      var before := reg.rooms[key].gameState;
      var step := Game.GenerateNewRound(reg, roomName, d.0, d.1, now);
      var ended := Game.EndRound(step.0, roomName);
      && Invariants.RegistryOk(ended.0)
      && key in ended.0.rooms
      && ended.1.Some?
      && (step.1.Some? <==> before.status != Finished && before.currentRound < Catalog.ThemeCount)
      && (step.1.Some? ==> step.1.value.round == before.currentRound + 1)
      && ended.0.rooms[key].gameState.currentRound
         == |ended.0.rooms[key].gameState.usedThemes.GetOr([])|
      && ended.0.rooms[key].gameState.currentRound
         == (if step.1.Some? then before.currentRound + 1 else before.currentRound)
      && ended.1.value.round == ended.0.rooms[key].gameState.currentRound
      && (ended.0.rooms[key].gameState.status == Finished
          <==> ended.0.rooms[key].gameState.currentRound >= Catalog.ThemeCount)
  {
    var key := Text.Normalize(roomName);
    var step := Game.GenerateNewRound(reg, roomName, d.0, d.1, now);
    Invariants.RoundIffThemeLeft(reg, roomName, d.0, d.1, now);
    Invariants.GenerateNewRoundPreservesOk(reg, roomName, d.0, d.1, now);
    if step.1.None? {
      Invariants.RefusedRoundUnchanged(reg, roomName, d.0, d.1, now);
    }
    Invariants.EndRoundPreservesOk(step.0, roomName);
  }

  /** The i-th of `outs` is an announcement exactly for the first five
      turns, and then announces round i + 1. */
  predicate Announced(outs: seq<Option<Game.Announcement>>) {
    forall i :: 0 <= i < |outs| ==>
      && (outs[i].Some? <==> i < Catalog.ThemeCount)
      && (outs[i].Some? ==> outs[i].value.round == i + 1)
  }

  lemma AnnouncedSnoc(outs: seq<Option<Game.Announcement>>, o: Option<Game.Announcement>)
    requires Announced(outs)
    requires o.Some? <==> |outs| < Catalog.ThemeCount
    requires o.Some? ==> o.value.round == |outs| + 1
    ensures Announced(outs + [o])
  {
    assert forall i :: 0 <= i < |outs| ==> (outs + [o])[i] == outs[i];
  }

  /** A game as the round timer plays it: `startGame`, then one
      `generateNewRound` and one `endRound` per draw. The first five turns
      announce rounds 1 to 5 and every later one is refused; the game is
      finished exactly once five rounds have been played, and by then it
      has used every theme once. */
  method PlayGame(reg: Registry, roomName: string, start: int, draws: seq<Draw>, now: int)
    returns (final: Registry, outs: seq<Option<Game.Announcement>>)
    requires Invariants.RegistryOk(reg)
    requires Text.Normalize(roomName) in reg.rooms
    ensures |outs| == |draws|
    ensures forall i :: 0 <= i < |draws| ==> (outs[i].Some? <==> i < Catalog.ThemeCount)
    ensures forall i :: 0 <= i < |draws| && outs[i].Some? ==> outs[i].value.round == i + 1
    ensures Invariants.RegistryOk(final) && Text.Normalize(roomName) in final.rooms
    ensures var gs := final.rooms[Text.Normalize(roomName)].gameState;
      && gs.currentRound == (if |draws| < Catalog.ThemeCount then |draws| else Catalog.ThemeCount)
      && (|draws| > 0 ==> (gs.status == Finished <==> |draws| >= Catalog.ThemeCount))
    ensures |draws| >= Catalog.ThemeCount ==>
      var used := final.rooms[Text.Normalize(roomName)].gameState.usedThemes.GetOr([]);
      && |used| == Catalog.ThemeCount && Distinct(used)
      && forall k :: Catalog.IsThemeKey(k) ==> k in used
  {
    var key := Text.Normalize(roomName);
    Invariants.StartGamePreservesOk(reg, roomName, start);
    final, outs := Game.StartGame(reg, roomName, start).0, [];
    var k := 0;
    while k < |draws|
      invariant 0 <= k <= |draws| && |outs| == k
      invariant Invariants.RegistryOk(final) && key in final.rooms
      invariant final.rooms[key].gameState.currentRound
                == |final.rooms[key].gameState.usedThemes.GetOr([])|
      invariant final.rooms[key].gameState.currentRound
                == if k < Catalog.ThemeCount then k else Catalog.ThemeCount
      invariant k == 0 ==> final.rooms[key].gameState.status == Starting
      invariant k > 0 ==> (final.rooms[key].gameState.status == Finished <==> k >= Catalog.ThemeCount)
      invariant Announced(outs)
    {
      RoundThenEnd(final, roomName, draws[k], now);
      var step := Game.GenerateNewRound(final, roomName, draws[k].0, draws[k].1, now);
      AnnouncedSnoc(outs, step.1);
      final, outs := Game.EndRound(step.0, roomName).0, outs + [step.1];
      k := k + 1;
    }
    if |draws| >= Catalog.ThemeCount {
      Invariants.ExhaustedIffAllUsed(final.rooms[key].gameState.usedThemes.GetOr([]));
    }
  }

  /** A player scores at most once per round: once a guess has counted,
      every further guess of that player in the same round is refused with
      the notice and changes nothing. */
  lemma ScoresOncePerRound(reg: Registry, player: Player, first: string, second: string, t1: int, t2: int)
    requires Game.RoundReady(reg, Some(player)) && Game.GuessAccepted(reg, Some(player), first)
    ensures var after := Game.SubmitGuess(reg, Some(player), first, t1).0;
      && Game.RoundReady(after, Some(player))
      && Game.SubmitGuess(after, Some(player), second, t2)
         == (after, Game.GuessResult(false, 0, None, Some(Game.AlreadyGuessedMessage)))
  {
    var key := Game.GuessRoom(player);
    var after := Game.SubmitGuess(reg, Some(player), first, t1).0;
    assert after.rooms[key].gameState.correctGuessers
        == reg.rooms[key].gameState.correctGuessers + [player.id];
  }

  /** Typing the answer itself always counts while the round is on and the
      player has not scored yet (catalog answers are already trimmed and
      lower case). */
  lemma AnswerIsAccepted(reg: Registry, player: Player, now: int)
    requires Invariants.RegistryOk(reg)
    requires Game.GuessRoom(player) in reg.rooms
    requires Game.GuessState(reg, player).status == Playing
    requires player.id !in Game.GuessState(reg, player).correctGuessers
    ensures Game.RoundReady(reg, Some(player))
    ensures var answer := Game.GuessState(reg, player).currentAnswer.value;
      Game.SubmitGuess(reg, Some(player), answer, now).1.correct
  {
    var answer := Game.GuessState(reg, player).currentAnswer.value;
    Text.NormalizeOfNormal(answer);
    Text.ToLowerOfLower(answer);
  }

  /** The answer counts however it is capitalised and whatever whitespace
      surrounds it: `guess.trim().toLowerCase()` undoes both. */
  lemma AnswerInAnyCaseAccepted(reg: Registry, player: Player, before: string, typed: string, after: string, now: int)
    requires Invariants.RegistryOk(reg)
    requires Game.GuessRoom(player) in reg.rooms
    requires Game.GuessState(reg, player).status == Playing
    requires player.id !in Game.GuessState(reg, player).correctGuessers
    requires Text.AllWhitespace(before) && Text.AllWhitespace(after)
    requires Text.CaseVariant(typed, Game.GuessState(reg, player).currentAnswer.value)
    ensures Game.RoundReady(reg, Some(player))
    ensures Game.SubmitGuess(reg, Some(player), before + typed + after, now).1.correct
  {
    var answer := Game.GuessState(reg, player).currentAnswer.value;
    Text.NormalizeCaseVariant(before, typed, after, answer);
    Text.ToLowerOfLower(answer);
  }

  // ---------------------------------------------------------------------
  // Where the source as written departs from its evident intent

  /** `getUnusedTheme` as written throws on a room that `createRoom` made
      and `startGame` never reset: its `usedThemes` is absent. The corrected
      picker the model uses draws a theme, and the room gets its round. */
  lemma NeverStartedRoomThrows(name: string, created: int, themeRnd: real, puzzleRnd: real, now: int)
    requires 0.0 <= themeRnd < 1.0 && 0.0 <= puzzleRnd < 1.0
    ensures var made := Players.CreateRoom(EmptyRegistry, name, created);
      && Selection.UnusedThemeAsWritten(made.1.gameState, themeRnd).PushOnUndefined?
      && Game.GenerateNewRound(made.0, name, themeRnd, puzzleRnd, now).1.Some?
  {
    var made := Players.CreateRoom(EmptyRegistry, name, created);
    Invariants.CreateRoomPreservesOk(EmptyRegistry, name, created);
    Invariants.RoundIffThemeLeft(made.0, name, themeRnd, puzzleRnd, now);
  }

  /** A room named "constructor" is never created by `createRoom` as
      written (the plain object already answers that key), while the
      registry the model uses creates it like any other room. */
  lemma InheritedNameGetsNoRoom(now: int)
    ensures Players.CreateRoomAsWritten(EmptyRegistry, "constructor", now)
            == (EmptyRegistry, Players.InheritedMember)
    ensures "constructor" in Players.CreateRoom(EmptyRegistry, "constructor", now).0.rooms
  {
    Text.NormalizeOfNormal("constructor");
  }
}
