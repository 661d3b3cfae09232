/** The static theme table of utils/game.js: five themes in declaration
    order, ten emoji puzzles each. Read-only. */
module Catalog {
  import Text

  datatype Puzzle = Puzzle(emojis: string, answer: string)

  /** `key` is the property name in the `themes` object, `name` the display
      name announced to players. */
  datatype Theme = Theme(key: string, name: string, puzzles: seq<Puzzle>)

  const MoviePuzzles: seq<Puzzle> := [
      Puzzle("🧙‍♂️⚡👓🪄", "harry potter"),
      Puzzle("👸❄️⛄", "frozen"),
      Puzzle("🦁👑🌍", "lion king"),
      Puzzle("🕷️🧑‍🦰🕸️", "spiderman"),
      Puzzle("🚢💏❄️🌊", "titanic"),
      Puzzle("👽☎️🏠", "et"),
      Puzzle("🤖❤️🌱", "wall-e"),
      Puzzle("🔍🐠", "finding nemo"),
      Puzzle("🦖🏝️🧬", "jurassic park"),
      Puzzle("⭐⚔️🌌", "star wars")]

  const AnimalPuzzles: seq<Puzzle> := [
      Puzzle("🐘🧠🦇", "elephant"),
      Puzzle("🦓⚫⚪", "zebra"),
      Puzzle("🐒🍌🌴", "monkey"),
      Puzzle("🦁♂️👑", "lion"),
      Puzzle("🐅🔶⚫", "tiger"),
      Puzzle("🐍🐍🐍", "snake"),
      Puzzle("🦘🦘", "kangaroo"),
      Puzzle("🦒🦒📏", "giraffe"),
      Puzzle("🐬🌊🤿", "dolphin"),
      Puzzle("🦉🌙🦉", "owl")]

  const FoodPuzzles: seq<Puzzle> := [
      Puzzle("🍕🧀", "pizza"),
      Puzzle("🍔🥩🍟", "hamburger"),
      Puzzle("🍣🐟", "sushi"),
      Puzzle("🍝🍅", "spaghetti"),
      Puzzle("🍦🥶🍨", "ice cream"),
      Puzzle("🥐🧈", "croissant"),
      Puzzle("🌮🌶️", "taco"),
      Puzzle("🍗🍖🔥", "barbecue"),
      Puzzle("🥗🥬🥒", "salad"),
      Puzzle("🍰🎂🧁", "cake")]

  const BookPuzzles: seq<Puzzle> := [
      Puzzle("🧙‍♂️💍🌋", "lord of the rings"),
      Puzzle("🐷👨‍👩‍👧‍👦🏠", "three little pigs"),
      Puzzle("🕷️🐖📚", "charlotte's web"),
      Puzzle("🐯🧒🛶", "life of pi"),
      Puzzle("🐋🧔‍♂️🌊", "moby dick"),
      Puzzle("👸👑🥀", "beauty and the beast"),
      Puzzle("🐛🍎🦋", "the very hungry caterpillar"),
      Puzzle("👧🍄🐰", "alice in wonderland"),
      Puzzle("👦⚡️🧙‍♂️", "harry potter"),
      Puzzle("🏠🌪️🌈", "wizard of oz")]

  const CityPuzzles: seq<Puzzle> := [
      Puzzle("🗽🍎🏙️", "new york"),
      Puzzle("🗼🥖", "paris"),
      Puzzle("🏯🌸", "tokyo"),
      Puzzle("🏛️🍝", "rome"),
      Puzzle("⛩️🍣🗾", "kyoto"),
      Puzzle("🎭☕🚲", "amsterdam"),
      Puzzle("🏙️🏝️🏖️", "miami"),
      Puzzle("🕌🏜️🏢", "dubai"),
      Puzzle("🇬🇧👑☂️", "london"),
      Puzzle("🌉🌁🌇", "san francisco")]

  const Themes: seq<Theme> := [
    Theme("movies", "Movies", MoviePuzzles),
    Theme("animals", "Animals", AnimalPuzzles),
    Theme("food", "Food", FoodPuzzles),
    Theme("books", "Books", BookPuzzles),
    Theme("cities", "Cities", CityPuzzles)
  ]

  const ThemeCount: nat := 5
  const PuzzlesPerTheme: nat := 10

  /** `Object.keys(themes)`: the theme keys in declaration order. */
  function ThemeKeys(): (keys: seq<string>)
    ensures |keys| == |Themes|
    ensures forall i :: 0 <= i < |keys| ==> keys[i] == Themes[i].key
  {
    seq(|Themes|, i requires 0 <= i < |Themes| => Themes[i].key)
  }

  predicate IsThemeKey(key: string) {
    key in ThemeKeys()
  }

  /** `themes[key]`, for a key of the table. */
  function ThemeOf(key: string): (t: Theme)
    requires IsThemeKey(key)
    ensures t.key == key
  {
    ThemeAt(Themes, key)
  }

  /** The theme found under a key is one of the table's themes. */
  lemma ThemeOfInTable(key: string)
    requires IsThemeKey(key)
    ensures ThemeOf(key) in Themes
  {
  }

  function ThemeAt(ts: seq<Theme>, key: string): (t: Theme)
    requires exists i :: 0 <= i < |ts| && ts[i].key == key
    ensures t in ts && t.key == key
  {
    if ts[0].key == key then ts[0] else ThemeAt(ts[1..], key)
  }

  /** A non-empty answer made of lower-case ASCII letters, spaces, `-` and
      `'`, with no space at either end. */
  predicate PlainAnswer(a: string) {
    && |a| > 0 && a[0] != ' ' && a[|a| - 1] != ' '
    && forall i :: 0 <= i < |a| ==> ('a' <= a[i] <= 'z') || a[i] == ' ' || a[i] == '-' || a[i] == '\''
  }

  lemma PlainIsNormal(a: string)
    requires PlainAnswer(a)
    ensures Text.Trimmed(a) && Text.IsLower(a)
  {
  }

  // The answers of each theme are checked in two halves, and the longer
  // book answers one by one, so that every proof obligation stays small.

  lemma MoviesPlain()
    ensures forall k :: 0 <= k < 10 ==> PlainAnswer(MoviePuzzles[k].answer)
  {
    MoviesPlain0();
    MoviesPlain5();
  }

  lemma MoviesPlain0()
    ensures forall k :: 0 <= k < 5 ==> PlainAnswer(MoviePuzzles[k].answer)
  {
  }

  lemma MoviesPlain5()
    ensures forall k :: 5 <= k < 10 ==> PlainAnswer(MoviePuzzles[k].answer)
  {
  }

  lemma AnimalsPlain()
    ensures forall k :: 0 <= k < 10 ==> PlainAnswer(AnimalPuzzles[k].answer)
  {
    AnimalsPlain0();
    AnimalsPlain5();
  }

  lemma AnimalsPlain0()
    ensures forall k :: 0 <= k < 5 ==> PlainAnswer(AnimalPuzzles[k].answer)
  {
  }

  lemma AnimalsPlain5()
    ensures forall k :: 5 <= k < 10 ==> PlainAnswer(AnimalPuzzles[k].answer)
  {
  }

  lemma FoodPlain()
    ensures forall k :: 0 <= k < 10 ==> PlainAnswer(FoodPuzzles[k].answer)
  {
    FoodPlain0();
    FoodPlain5();
  }

  lemma FoodPlain0()
    ensures forall k :: 0 <= k < 5 ==> PlainAnswer(FoodPuzzles[k].answer)
  {
  }

  lemma FoodPlain5()
    ensures forall k :: 5 <= k < 10 ==> PlainAnswer(FoodPuzzles[k].answer)
  {
  }

  lemma BooksPlain()
    ensures forall k :: 0 <= k < 10 ==> PlainAnswer(BookPuzzles[k].answer)
  {
    BookPlain0();
    BookPlain1();
    BookPlain2();
    BookPlain3();
    BookPlain4();
    BookPlain5();
    BookPlain6();
    BookPlain7();
    BookPlain8();
    BookPlain9();
    forall k | 0 <= k < 10 ensures PlainAnswer(BookPuzzles[k].answer) {
    }
  }

  lemma BookPlain0()
    ensures PlainAnswer(BookPuzzles[0].answer)
  {
  }

  lemma BookPlain1()
    ensures PlainAnswer(BookPuzzles[1].answer)
  {
  }

  lemma BookPlain2()
    ensures PlainAnswer(BookPuzzles[2].answer)
  {
  }

  lemma BookPlain3()
    ensures PlainAnswer(BookPuzzles[3].answer)
  {
  }

  lemma BookPlain4()
    ensures PlainAnswer(BookPuzzles[4].answer)
  {
  }

  lemma BookPlain5()
    ensures PlainAnswer(BookPuzzles[5].answer)
  {
  }

  lemma BookPlain6()
    ensures PlainAnswer(BookPuzzles[6].answer)
  {
  }

  lemma BookPlain7()
    ensures PlainAnswer(BookPuzzles[7].answer)
  {
  }

  lemma BookPlain8()
    ensures PlainAnswer(BookPuzzles[8].answer)
  {
  }

  lemma BookPlain9()
    ensures PlainAnswer(BookPuzzles[9].answer)
  {
  }

  lemma CitiesPlain()
    ensures forall k :: 0 <= k < 10 ==> PlainAnswer(CityPuzzles[k].answer)
  {
    CitiesPlain0();
    CitiesPlain5();
  }

  lemma CitiesPlain0()
    ensures forall k :: 0 <= k < 5 ==> PlainAnswer(CityPuzzles[k].answer)
  {
  }

  lemma CitiesPlain5()
    ensures forall k :: 5 <= k < 10 ==> PlainAnswer(CityPuzzles[k].answer)
  {
  }

  /** The shape the rest of the game relies on: five themes with pairwise
      distinct keys, each with ten puzzles whose answers are already in
      normal (trimmed, lower-case) form. */
  lemma CatalogShape()
    ensures |Themes| == ThemeCount
    ensures forall i, j :: 0 <= i < j < |Themes| ==> Themes[i].key != Themes[j].key
    ensures forall i :: 0 <= i < |Themes| ==> |Themes[i].puzzles| == PuzzlesPerTheme
    ensures forall i, k :: 0 <= i < |Themes| && 0 <= k < |Themes[i].puzzles| ==>
              NormalAnswer(Themes[i].puzzles[k].answer)
  {
    MoviesPlain();
    AnimalsPlain();
    FoodPlain();
    BooksPlain();
    CitiesPlain();
    forall i, k | 0 <= i < |Themes| && 0 <= k < |Themes[i].puzzles|
      ensures NormalAnswer(Themes[i].puzzles[k].answer)
    {
      PlainIsNormal(Themes[i].puzzles[k].answer);
    }
  }

  predicate NormalAnswer(a: string) {
    Text.Trimmed(a) && Text.IsLower(a)
  }

  /** The fact about one theme the game needs: ten puzzles, each answer in
      normal form. */
  lemma ThemeShape(key: string)
    requires IsThemeKey(key)
    ensures |ThemeOf(key).puzzles| == PuzzlesPerTheme
    ensures forall i :: 0 <= i < |ThemeOf(key).puzzles| ==> NormalAnswer(ThemeOf(key).puzzles[i].answer)
  {
    CatalogShape();
    var t := ThemeOf(key);
    var n :| 0 <= n < |Themes| && Themes[n] == t;
  }

  /** The five keys are distinct, so they are five different themes. */
  lemma ThemeKeysDistinct()
    ensures forall i, j :: 0 <= i < j < |ThemeKeys()| ==> ThemeKeys()[i] != ThemeKeys()[j]
    ensures |ThemeKeys()| == ThemeCount
  {
    CatalogShape();
  }
}
