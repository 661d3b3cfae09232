# Emoji guessing game: a Dafny model of the game and room core

The server of this multiplayer game keeps two in-memory stores:

- **Players.** Each player has a socket id, a user name, a room, a score and a count of correct guesses.
- **Rooms.** Each room is keyed by its normalised name and carries a game state.

Players join a room under a name that is unique within that room, and a room holds at most ten players. A game is five rounds. Each round draws a theme that this game has not used yet from a fixed catalog of five themes, with ten emoji puzzles each. It then draws a puzzle of that theme that has not been shown before. Players guess the answer. A correct guess scores between 100 and 10 points, decaying linearly over the 30-second round, and each player can score at most once per round. At the end of a round the room's players are ranked by score. After the fifth round the game is finished.

The model covers `utils/game.js` (the theme catalog and every exported and internal function) and the live part of `utils/players.js` (from line 98 on). It is functional:

- **Registry.** The two stores are one immutable `State.Registry`. Every operation takes a registry and returns the new registry together with what the JavaScript function returns.
- **Absent values.** `null` and `undefined` results are `Option.None`. The `{ error }` objects of `addPlayer` are `Result.Failure`.
- **Time.** The clock is a parameter `now`, an integer number of milliseconds.
- **Randomness.** Each `Math.random()` is a parameter: a real in [0, 1).
- **Room names.** Every name, room and guess goes through `Text.Normalize`, which is `trim()` followed by `toLowerCase()`.

The files follow the program's structure:

| file | contents |
|---|---|
| `wrappers.dfy` | `Option`, `Result` |
| `text.dfy` | `trim` and `toLowerCase` on strings |
| `catalog.dfy` | the theme table, verbatim, and its shape |
| `state.dfy` | player, room, game state, registry |
| `selection.dfy` | `getUnusedTheme`, `getUnusedPuzzle` |
| `scoring.dfy` | the score formula |
| `players.dfy` | the player and room registry |
| `game.dfy` | `startGame`, `generateNewRound`, `submitGuess`, `endRound`, `getGameState` |
| `invariants.dfy` | what every operation preserves |
| `scenarios.dfy` | sequences of calls: a whole game, repeated guesses, and the two findings below |

## Model

| member | source | states |
|---|---|---|
| Text.Trim | utils/players.js:108-109 | the result is a contiguous slice of the input with no whitespace at either end, and everything cut off on either side is ECMAScript whitespace |
| Text.TrimOfTrimmed | utils/players.js:108-109 | trimming a string that has no whitespace at either end leaves it unchanged |
| Text.ToLower | utils/players.js:108-109 | lower-casing keeps the length, turns every capital into its own small letter (32 code points up), keeps every other character, and so leaves no capital |
| Text.ToLowerOfLower | utils/players.js:108-109 | lower-casing a string with no upper-case letter leaves it unchanged |
| Text.Normalize | utils/players.js:108-109 | a normal form has no whitespace at either end and no capital, and is no longer than the input |
| Text.NormalizeKeepsMiddle | utils/players.js:108-109 | the normal form is the lower-cased middle of the input, with only whitespace cut off at either end |
| Text.TrimPadded | utils/players.js:108 | trimming removes exactly the whitespace padding around a string that has none at either end |
| Text.NormalizeCaseVariant | utils/game.js:184-185 | a string typed with any of its letters in capitals and any whitespace around it normalises to the lower-case original |
| Text.NormalizeIdempotent | utils/players.js:164-167 | normalising an already normalised name (as `getPlayersInRoom` does to a stored room) changes nothing |
| Text.NormalizeOfNormal | utils/game.js:184-185 | a trimmed lower-case string is its own normal form |
| Catalog.ThemeOf | utils/game.js:155 | looking a catalog key up in the theme table yields the theme filed under that key |
| Catalog.ThemeOfInTable | utils/game.js:155 | the theme found under a catalog key is one of the table's themes |
| Catalog.ThemeAt | utils/game.js:107 | a key present in a list of themes finds a theme of that list with that key |
| Catalog.ThemeKeys | utils/game.js:87 | the key list has one entry per theme, in declaration order |
| Catalog.MoviesPlain | utils/game.js:5-19 | every movie answer is non-empty lower-case ASCII letters, spaces, hyphens and apostrophes, with no space at either end |
| Catalog.AnimalsPlain | utils/game.js:20-34 | every animal answer is in that plain form |
| Catalog.FoodPlain | utils/game.js:35-49 | every food answer is in that plain form |
| Catalog.BooksPlain | utils/game.js:50-64 | every book answer is in that plain form |
| Catalog.CitiesPlain | utils/game.js:65-79 | every city answer is in that plain form |
| Catalog.CatalogShape | utils/game.js:4-80 | there are five themes with pairwise distinct keys, each has ten puzzles, and every answer is already trimmed and lower case |
| Catalog.ThemeShape | utils/game.js:4-80 | the theme under any catalog key has ten puzzles whose answers are in normal form |
| Catalog.ThemeKeysDistinct | utils/game.js:4-80 | the five theme keys are pairwise different |
| State.InRoom | utils/players.js:164-167 | a player is in the filtered list exactly when it is in the store and its room matches |
| State.InRoomAppend | utils/players.js:166 | filtering by room distributes over concatenation, so the room's players come out in store order |
| State.FirstWithId | utils/players.js:145 | no index exactly when no player has the id; otherwise the index holds that id and no earlier entry does |
| Selection.PickIndex | utils/game.js:95-96 | the floor of a random value in [0, 1) times a positive length is a valid position |
| Selection.PickIndexReachesAll | utils/game.js:95-96 | every position can be drawn by some random value |
| Selection.Unused | utils/game.js:90-92 | the filtered keys are exactly the keys not yet used |
| Selection.AvailableThemes | utils/game.js:87-92 | the available themes are exactly the catalog keys not in the used list, with an absent list read as empty |
| Selection.UnusedThemeAsWritten | utils/game.js:86-100 | the picker as written ends in a push onto `undefined` exactly when the used list is absent |
| Selection.UnusedTheme | utils/game.js:86-100 | nothing is drawn exactly when every theme is used; otherwise the drawn key is a catalog key not used before and is appended to the used list, and nothing else changes |
| Selection.UnusedThemeAgreesWhenPresent | utils/game.js:86-100 | once the used list exists, the picker as written and the corrected one give the same outcome |
| Selection.UnusedIndices | utils/game.js:109-111 | the available indices are exactly those below the puzzle count that are not recorded, listed in increasing order |
| Selection.Record | utils/game.js:103-105 | recording indices for one theme sets that theme's entry, leaves every other theme's entry as it was, and adds that theme to the recorded keys |
| Selection.UnusedPuzzle | utils/game.js:102-120 | nothing is drawn exactly when every index of the theme is recorded, and the theme's entry is still created; otherwise the drawn index is a valid puzzle that was not recorded before and is now appended |
| Selection.FreshThemeHasPuzzle | utils/game.js:102-120 | a theme with no recorded puzzles always yields one |
| Scoring.TimeRatio | utils/game.js:188-191 | the time ratio is at most 1, is non-negative for a guess after the round began, and is exactly 1 once the round time is up |
| Scoring.Score | utils/game.js:188-195 | the score is never below 10; it is at most 100 for a guess after the round began, exactly 100 for an instant guess and exactly 10 once 30 seconds have passed |
| Scoring.ScoreNonIncreasing | utils/game.js:188-195 | a later guess never scores more than an earlier one |
| Scoring.ScoreIntegerFormula | utils/game.js:188-195 | within the round, the score equals the integer formula 100 minus the number of started thirds of a second |
| Players.PlayersInRoom | utils/players.js:164-167 | the result holds exactly the stored players whose room equals the normalised argument |
| Players.AddPlayer | utils/players.js:106-142 | each error occurs exactly under its condition, checked in the source's order (empty name or room, then name taken in the room, then room full); a rejected join changes nothing; a successful join appends a player with normalised name and room, zero score and the join time |
| Players.GetPlayer | utils/players.js:160-162 | nothing is found exactly when no player has the id; otherwise the result is the earliest player with that id |
| Players.RemovePlayer | utils/players.js:144-158 | an unknown id changes nothing; otherwise exactly the earliest player with the id is taken out and returned; its room is deleted exactly when nobody is left in it; every other room is untouched |
| Players.InitialGameState | utils/players.js:177-187 | a new room's game is waiting, at round 0 of 5, with no answer and no guessers, and it has no used-theme or used-puzzle lists |
| Players.CreateRoom | utils/players.js:170-192 | afterwards the room exists under the normalised name and is the one returned; an existing room is returned unchanged; otherwise exactly one room, with a fresh waiting game, is added and the others are kept |
| Players.CreateRoomIdempotent | utils/players.js:170-192 | creating the same room again, under any spelling with the same normal form, changes nothing and returns the same room |
| Players.CreateRoomAsWritten | utils/players.js:170-192 | the source's truthiness test creates nothing and returns the inherited member for `constructor` and `__proto__`, and agrees with the corrected `createRoom` on every other name |
| Players.AddedPlayerIsFound | utils/players.js:106-142 | after a successful join under a fresh id, `getPlayer` finds exactly the new player, with its name and room normalised and nothing scored |
| Players.RemoveAtRoomCount | utils/players.js:147-151 | removing one player lowers the head count of its room by exactly one |
| Players.LastPlayerLeavingDeletesRoom | utils/players.js:151-154 | when the only player of a room leaves, the room disappears |
| Players.RoomData | utils/players.js:194-197 | a room is found exactly when one exists under the normalised name, and it is that room |
| Players.RoomDataAfterCreate | utils/players.js:170-197 | after `createRoom(name)`, `getRoomData` of any spelling of the same normal form returns the room that `createRoom` returned, and of any other name returns what it returned before |
| Players.Summaries | utils/players.js:200-204 | the i-th entry gives the name, the head count and the status of the room under the i-th key |
| Players.RoomKeys | utils/players.js:200 | the key listing names every room exactly once |
| Players.AllRooms | utils/players.js:199-205 | the listing has one entry per room, with no room twice and none missing; each entry gives that room's name, head count and status |
| Game.StartGame | utils/game.js:122-141 | no game without a room; otherwise the room's game is reset to a starting game at round 0 with empty used lists, no answer and the given start time, and nothing else in the registry changes |
| Game.StartGameForgetsPast | utils/game.js:126-138 | starting a game gives the same result whatever game the room held before |
| Game.GenerateNewRound | utils/game.js:143-167 | refused, with nothing changed, for a missing room, a finished game or an exhausted theme list; a success appends a fresh catalog theme, shows an unused puzzle of it, moves to the next round in `playing`, clears the guessers, sets the round clock, and announces the round without revealing the answer; no room is added or removed |
| Game.RoundWithTheme | utils/game.js:150-166 | once a fresh catalog theme is drawn, the room alone changes; a success is the next round in `playing` with an unused puzzle of that theme, cleared guessers and the clock set, announced without the answer |
| Game.FirstInRoomWithId | utils/game.js:197-198 | the position found is the first player of the room with the id, and none is found only when there is no such player |
| Game.Credit | utils/game.js:197-202 | exactly the first player of the room with the id gains the score and one correct guess; every other entry is unchanged |
| Game.AcceptGuess | utils/game.js:187-210 | a counted guess is correct, scores the amount decayed since the round start, counted from time 0 when no start is stored (between 10 and 100 for a guess after the start), reveals the answer, credits the guesser and adds the guesser to the round's guessers |
| Game.SubmitGuess | utils/game.js:169-214 | a guess is correct exactly when the player is known, the room is playing, the player has not scored this round and the normalised guess matches the answer; a guess that does not count scores 0, reveals nothing and changes nothing; the notice is given exactly to a player who already scored this round |
| Game.InsertByScore | utils/game.js:228 | inserting into a list sorted by descending score keeps it sorted and adds exactly that one player |
| Game.SortByScore | utils/game.js:228 | the ranking is in descending score order and is a permutation of the room's players |
| Game.InsertByScoreStable | utils/game.js:228 | insertion places the new player before the existing players with the same score |
| Game.SortByScoreStable | utils/game.js:228 | players with equal scores keep their original relative order |
| Game.StatusAfterRound | utils/game.js:231-234 | after a round the game is finished exactly when the round counter has reached the total, and is in intermission otherwise |
| Game.EndRound | utils/game.js:216-237 | no result without a room; otherwise it reports the round's number, theme, clues, answer and guesser count, with the room's players ranked as a permutation sorted by score; only the room's status changes |
| Game.GameView | utils/game.js:239-250 | the view exists exactly when the room does; it shows the answer only in a finished game, shows it then, and agrees with the stored state in every other field |
| Invariants.EmptyRegistryOk | utils/players.js:101-102 | the empty stores satisfy the registry invariant |
| Invariants.AddPlayerPreservesOk | utils/players.js:106-142 | joining keeps names normalised and unique within each room, and never takes a room past ten players |
| Invariants.RemovePlayerPreservesOk | utils/players.js:144-158 | leaving keeps the registry invariant |
| Invariants.CreateRoomPreservesOk | utils/players.js:170-192 | creating a room keeps the registry invariant |
| Invariants.StartGamePreservesOk | utils/game.js:122-141 | starting a game keeps the registry invariant |
| Invariants.EndRoundPreservesOk | utils/game.js:216-237 | ending a round keeps the registry invariant |
| Invariants.OkIsRoundReady | utils/game.js:184-191 | under the invariant, a playing room always has the answer that `submitGuess` lower-cases without checking |
| Invariants.SubmitGuessPreservesOk | utils/game.js:169-214 | guessing keeps the registry invariant, including no guesser being recorded twice in a round |
| Invariants.ExhaustedIffAllUsed | utils/game.js:86-93 | a duplicate-free list of catalog keys covers the catalog exactly when it has five entries, and never has more |
| Invariants.RoundIffThemeLeft | utils/game.js:143-167 | under the invariant, a round is generated exactly when the room exists, its game is not finished and fewer than five themes are used |
| Invariants.RefusedRoundUnchanged | utils/game.js:143-167 | under the invariant, a refused round leaves the registry unchanged |
| Invariants.GenerateNewRoundPreservesOk | utils/game.js:143-167 | generating a round keeps the registry invariant |
| Invariants.SuccessfulRoundOk | utils/game.js:153-160 | the game left behind by a successful round satisfies the game invariant |
| Invariants.RoundShape | utils/game.js:102-117 | a successful round changes the puzzle record only for the theme it consumed |
| Scenarios.RoundThenEnd | index.js:163-173 | one turn of the round timer runs exactly while the game is not finished and themes remain; it advances the round and the used themes together by one, and after it the game is finished exactly when five rounds are done |
| Scenarios.PlayGame | index.js:149-183 | after `startGame`, the first five turns announce rounds 1 to 5 and every later turn is refused; the game is finished exactly once five rounds are played, at which point all five themes are used once each |
| Scenarios.ScoresOncePerRound | utils/game.js:176-182 | once a guess has counted, every later guess by that player in the round gets the notice, scores nothing and changes nothing |
| Scenarios.AnswerInAnyCaseAccepted | utils/game.js:184-185 | under the invariant, the current answer typed with any capitals and any surrounding whitespace counts for a player who has not scored yet |
| Scenarios.AnswerIsAccepted | utils/game.js:184-185 | under the invariant, typing the current answer while the round is on always counts for a player who has not scored yet |
| Scenarios.NeverStartedRoomThrows | utils/game.js:86-100 | on a room fresh from `createRoom`, the theme picker as written pushes onto an absent list, while the corrected picker yields a round |
| Scenarios.InheritedNameGetsNoRoom | utils/players.js:170-192 | `createRoom("constructor")` as written creates no room, while the corrected registry creates it |

## Left out

- The Socket.IO handlers of `index.js` are not modelled: broadcasts, chat messages, the 5-second start countdown, the 30-second round timer and the 10-second break.
  - The round loop `runGameRounds` appears only as the sequence of calls it makes, in `Scenarios.PlayGame`.
- `Scenarios.PlayGame` uses one `now` for every round. Different clock values per round would change only the round start times, which the statement does not mention.
- `Scenarios.PlayGame` leaves out the fallback call to `startGame` in `runGameRounds` (`index.js:159-161`). It fires when the room is gone (then `startGame` finds no room and does nothing) or when a game state has no status, which never happens in the model.
- The "already playing" check before `startGame` is left out. It is in the socket handler (`index.js:118-122`), not in `startGame`, so `Game.StartGame` resets any game.
- `Game.StartGame` and `Players.InitialGameState` store the initial `emojiClues` as the empty string. The source stores an empty array, which is replaced by a string as soon as a round is generated.
- Time is an integer count of milliseconds. The ISO timestamp strings (`created`, `startTime`, `roundStartTime`) are not modelled, and neither is the round trip through `new Date(...).getTime()`.
- `Math.random()` is a parameter.
- `Scoring.Score`: exact rational arithmetic replaces IEEE double arithmetic.
  - The divisions by 1000 and by 30 in floating point may round a ratio that sits exactly on an integer score boundary.
  - That rounding is not modelled.
- `Text.ToLower`: maps only the letters A-Z and the Latin-1 capitals U+00C0 to U+00DE (except U+00D7).
  - The full Unicode case mapping of `toLowerCase` is not modelled, including mappings that change the length.
  - Strings are sequences of code points rather than UTF-16 code units.
- Inputs that are not strings are not modelled, nor are the exceptions they raise (for example `addPlayer` with no user name).
- `Game.SubmitGuess` requires `Game.RoundReady`: a `playing` room must have an answer.
  - The source lower-cases the answer without checking, which throws when it is missing.
  - A missing round start does not throw: `new Date(null)` is time 0, and `Game.RoundStart` models it that way.
  - `Invariants.OkIsRoundReady` shows that every registry satisfying the invariant meets this requirement.
- `Players.LastPlayerLeavingDeletesRoom` requires the leaving player's room to be stored in normal form. Every registry satisfying the invariant stores it that way.
- `Players.AllRooms` lists the rooms in some order of their keys. It does not model the insertion order of `Object.keys`.
- `Game.GenerateNewRound` runs the corrected theme picker. On a room that `createRoom` made and `startGame` never reset, the source throws at `utils/game.js:98`, while the model announces a round (first finding below).
- `Game.GenerateNewRound`: when the puzzle draw for a freshly drawn theme comes up empty, the theme stays consumed and the theme's puzzle entry stays created.
  - A failed puzzle draw does not undo the theme draw.
  - On a registry satisfying the invariant this case never arises (`Selection.FreshThemeHasPuzzle`).
- The commented-out first version of the player store (`utils/players.js:1-97`) is not part of this model.
- When `getRoomData` returns an object's inherited member instead of a room (see the second finding), any later operation reads fields of that member. This is not modelled: the registry simply has no such room.

## Findings

| source | as written | input that shows it | evidently intended | confidence | as-written member | corrected member |
|---|---|---|---|---|---|---|
| utils/game.js:86-100 | `getUnusedTheme` reads the used themes with a `\|\| []` fallback but then pushes onto `room.gameState.usedThemes` itself, which is `undefined` in a room built by `createRoom` | `generateNewRound` on a room that was created but never passed to `startGame`: the push throws a TypeError | treat an absent used list as empty and create it, as the fallback implies | not executed | Selection.UnusedThemeAsWritten, Scenarios.NeverStartedRoomThrows | Selection.UnusedTheme |
| utils/players.js:170-192 | `createRoom` tests `!rooms[roomName]` on a plain object, so the inherited members `constructor` and `__proto__` count as existing rooms | `createRoom("Constructor")` adds no room and returns `Object` | create the room unless the store has it as its own key | not executed | Players.CreateRoomAsWritten, Scenarios.InheritedNameGetsNoRoom | Players.CreateRoom |
