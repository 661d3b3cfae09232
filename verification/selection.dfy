/** The consuming theme and puzzle pickers of utils/game.js
    (`getUnusedTheme`, `getUnusedPuzzle`). `Math.random()` is the parameter
    `rnd`, a real in [0, 1); the picked position is `Math.floor(rnd * n)`. */
module Selection {
  import opened Wrappers
  import opened State
  import Catalog

  /** `Math.floor(rnd * n)`: a position of a non-empty list of length `n`. */
  function PickIndex(rnd: real, n: nat): (i: nat)
    requires 0.0 <= rnd < 1.0 && n > 0
    ensures i < n
  {
    var x := rnd * n as real;
    assert 0.0 <= x < n as real;
    x.Floor
  }

  /** Every position can be drawn: `rnd = i / n` draws position `i`. */
  lemma PickIndexReachesAll(i: nat, n: nat)
    requires i < n
    ensures 0.0 <= i as real / n as real < 1.0
    ensures PickIndex(i as real / n as real, n) == i
  {
    var rnd := i as real / n as real;
    assert rnd * n as real == i as real;
  }

  /** The elements of `keys` that are not in `used`, in the order of `keys`. */
  function Unused(keys: seq<string>, used: seq<string>): (r: seq<string>)
    ensures forall k :: k in r <==> k in keys && k !in used
    ensures |r| <= |keys|
  {
    if |keys| == 0 then []
    else (if keys[0] in used then [] else [keys[0]]) + Unused(keys[1..], used)
  }

  /** The theme keys still available to `gs`; an absent `usedThemes` counts
      as empty, as the source's `usedThemes || []` reads it. */
  function AvailableThemes(gs: GameState): (r: seq<string>)
    ensures forall k :: k in r <==> Catalog.IsThemeKey(k) && k !in gs.usedThemes.GetOr([])
  {
    Unused(Catalog.ThemeKeys(), gs.usedThemes.GetOr([]))
  }

  /** What `getUnusedTheme` does as written: when `usedThemes` is absent it
      still finds all five themes available and then calls `push` on
      `undefined`, which throws a TypeError. */
  datatype ThemePick = Picked(key: string, gs: GameState) | NoThemeLeft | PushOnUndefined

  function UnusedThemeAsWritten(gs: GameState, rnd: real): (r: ThemePick)
    requires 0.0 <= rnd < 1.0
    ensures r.PushOnUndefined? <==> gs.usedThemes.None?
  {
    var available := AvailableThemes(gs);
    Catalog.CatalogShape();
    if |available| == 0 then NoThemeLeft
    else
      var key := available[PickIndex(rnd, |available|)];
      match gs.usedThemes
      case None => PushOnUndefined
      case Some(used) => Picked(key, gs.(usedThemes := Some(used + [key])))
  }

  /** `getUnusedTheme` with the absent list treated as empty, as its
      `|| []` fallback intends: a key not yet used is drawn and appended;
      nothing is drawn exactly when every theme has been used. */
  function UnusedTheme(gs: GameState, rnd: real): (r: Option<(string, GameState)>)
    requires 0.0 <= rnd < 1.0
    ensures r.None? <==> forall k :: Catalog.IsThemeKey(k) ==> k in gs.usedThemes.GetOr([])
    ensures r.None? ==> AvailableThemes(gs) == []
    ensures r.Some? ==>
      && Catalog.IsThemeKey(r.value.0)
      && r.value.0 !in gs.usedThemes.GetOr([])
      && r.value.1 == gs.(usedThemes := Some(gs.usedThemes.GetOr([]) + [r.value.0]))
  {
    var available := AvailableThemes(gs);
    if |available| == 0 then None
    else
      assert available[0] in available;
      var key := available[PickIndex(rnd, |available|)];
      Some((key, gs.(usedThemes := Some(gs.usedThemes.GetOr([]) + [key]))))
  }

  /** On a state `startGame` has set up, the source and the corrected
      picker agree. */
  lemma UnusedThemeAgreesWhenPresent(gs: GameState, rnd: real)
    requires 0.0 <= rnd < 1.0
    requires gs.usedThemes.Some?
    ensures UnusedThemeAsWritten(gs, rnd).NoThemeLeft? <==> UnusedTheme(gs, rnd).None?
    ensures UnusedThemeAsWritten(gs, rnd).Picked? ==>
      UnusedTheme(gs, rnd) == Some((UnusedThemeAsWritten(gs, rnd).key, UnusedThemeAsWritten(gs, rnd).gs))
  {
  }

  /** The indices below `n` that are not in `used`, in increasing order. */
  function UnusedIndices(n: nat, used: seq<nat>): (r: seq<nat>)
    ensures forall i: int :: i in r <==> 0 <= i < n && i !in used
    ensures forall a, b :: 0 <= a < b < |r| ==> r[a] < r[b]
  {
    if n == 0 then []
    else
      var front := UnusedIndices(n - 1, used);
      assert forall a :: 0 <= a < |front| ==> front[a] in front;
      front + (if n - 1 in used then [] else [n - 1])
  }

  /** The puzzle indices recorded for `key` (none when there is no entry). */
  function UsedIndices(gs: GameState, key: string): seq<nat> {
    var up := gs.usedPuzzles.GetOr(map[]);
    if key in up then up[key] else []
  }

  /** `gs` with `indices` recorded for `key` and every other entry kept. */
  function Record(gs: GameState, key: string, indices: seq<nat>): (r: GameState)
    ensures UsedIndices(r, key) == indices
    ensures forall k :: k != key ==> UsedIndices(r, k) == UsedIndices(gs, k)
    ensures r.usedPuzzles.Some? && key in r.usedPuzzles.value
    ensures r.usedPuzzles.value.Keys == gs.usedPuzzles.GetOr(map[]).Keys + {key}
  {
    gs.(usedPuzzles := Some(gs.usedPuzzles.GetOr(map[])[key := indices]))
  }

  /** `getUnusedPuzzle(room, key)`: records an empty list for `key` if it
      had none, then draws an index of the theme's puzzles not recorded yet
      and records it. Nothing is drawn exactly when every index is used;
      the (possibly new) entry for `key` stays in place in that case. */
  function UnusedPuzzle(gs: GameState, key: string, rnd: real): (r: (GameState, Option<nat>))
    requires Catalog.IsThemeKey(key) && 0.0 <= rnd < 1.0
    ensures r.1.None? <==>
      forall i :: 0 <= i < |Catalog.ThemeOf(key).puzzles| ==> i in UsedIndices(gs, key)
    ensures r.1.None? ==> r.0 == Record(gs, key, UsedIndices(gs, key))
    ensures r.1.Some? ==>
      && r.1.value < |Catalog.ThemeOf(key).puzzles|
      && r.1.value !in UsedIndices(gs, key)
      && r.0 == Record(gs, key, UsedIndices(gs, key) + [r.1.value])
  {
    var used := UsedIndices(gs, key);
    var n := |Catalog.ThemeOf(key).puzzles|;
    var available := UnusedIndices(n, used);
    if |available| == 0 then
      assert forall i :: 0 <= i < n ==> i in used;
      (Record(gs, key, used), None)
    else
      var index := available[PickIndex(rnd, |available|)];
      assert index in available;
      assert 0 <= index < n && index !in used;
      (Record(gs, key, used + [index]), Some(index))
  }

  /** A theme with no puzzle recorded yet always yields one. */
  lemma FreshThemeHasPuzzle(gs: GameState, key: string, rnd: real)
    requires Catalog.IsThemeKey(key) && 0.0 <= rnd < 1.0
    requires key !in gs.usedPuzzles.GetOr(map[])
    ensures UnusedPuzzle(gs, key, rnd).1.Some?
  {
    Catalog.ThemeShape(key);
    assert 0 !in UsedIndices(gs, key);
  }
}
