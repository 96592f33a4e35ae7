/**
 * The Latvian Wordle game: scoring a guess against the hidden word in two
 * passes (exact positions first, then letters present elsewhere, each
 * target letter used at most once), the on-screen keyboard colours, the
 * key handler, the one-per-game hint and the reset. The word list, the word
 * length, the number of attempts and the hidden word are inputs; drawing the
 * hidden word at random is left to the caller.
 */
module Wordle {
  import opened Wrappers
  import opened Strings
  import Seqs

  /** The colour of a tile or a keyboard key. */
  datatype LetterState = Default | Absent | Present | Correct

  /** The colour order the keyboard only ever climbs. */
  function Rank(s: LetterState): nat
  {
    match s
    case Default => 0
    case Absent => 1
    case Present => 2
    case Correct => 3
  }

  /** A cell of the board: the letter shown (empty when unused) and its colour. */
  datatype Tile = Tile(letter: string, state: LetterState)

  /** The keyboard colours; a key missing from the map is shown uncoloured. */
  type Keyboard = map<char, LetterState>

  function KeyState(kb: Keyboard, c: char): LetterState
  {
    if c in kb then kb[c] else Default
  }

  /** The word list, `WORDLE_WORD_LENGTH` and `WORDLE_MAX_ATTEMPTS`. */
  datatype Config = Config(words: seq<string>, wordLength: nat, maxAttempts: nat)

  /** The status line under the board. */
  datatype Message =
    | NoMessage
    | InvalidWordLength(length: nat)
    | NotInWordList
    | Won(word: string)
    | Lost(word: string)
    | HintGiven(letter: char)
    | HintUnavailable

  /** The component's state. */
  datatype Game = Game(
    target: string,
    board: seq<seq<Tile>>,
    attempt: nat,
    current: seq<string>,
    message: Message,
    over: bool,
    keyboard: Keyboard,
    hintUsed: bool)

  /**
   * What the component relies on from its word data: the hidden word and
   * every listed word have `wordLength` letters.
   */
  predicate Playable(cfg: Config, g: Game)
  {
    && |g.target| == cfg.wordLength
    && forall w :: w in cfg.words ==> |w| == cfg.wordLength
  }

  // ---------------------------------------------------------------------------
  // Scoring a guess
  // ---------------------------------------------------------------------------

  /** First pass: which positions hold the target's letter. */
  function Exact(guess: string, target: string): (corr: seq<bool>)
    requires |guess| == |target|
    ensures |corr| == |guess|
    ensures forall i :: 0 <= i < |guess| ==> (corr[i] <==> guess[i] == target[i])
  {
    seq(|guess|, i requires 0 <= i < |guess| => guess[i] == target[i])
  }

  /** The target letters left after the first pass; a used letter is blanked. */
  function Leftover(guess: string, target: string): (pool: seq<Option<char>>)
    requires |guess| == |target|
    ensures |pool| == |target|
    ensures forall i :: 0 <= i < |target| ==>
      pool[i] == if guess[i] == target[i] then None else Some(target[i])
  {
    seq(|target|, i requires 0 <= i < |target| => if guess[i] == target[i] then None else Some(target[i]))
  }

  /**
   * Second pass over the guess letters `gs` (aligned with the first-pass
   * marks `corr`): a letter not placed exactly takes the first unused copy
   * of itself from `pool` and is `Present`, or finds none and is `Absent`.
   */
  function Scan(gs: string, corr: seq<bool>, pool: seq<Option<char>>): (tiles: seq<LetterState>)
    requires |corr| == |gs|
    ensures |tiles| == |gs|
    ensures forall i :: 0 <= i < |gs| ==> (tiles[i] == Correct <==> corr[i])
    ensures forall i :: 0 <= i < |gs| ==> tiles[i] != Default
    decreases |gs|
  {
    if gs == [] then []
    else if corr[0] then [Correct] + Scan(gs[1..], corr[1..], pool)
    else
      var j := IndexOf(pool, Some(gs[0]));
      if j >= 0 then [Present] + Scan(gs[1..], corr[1..], pool[j := None])
      else [Absent] + Scan(gs[1..], corr[1..], pool)
  }

  /** The colours of the tiles of `guess` against `target`. */
  function Evaluate(guess: string, target: string): (tiles: seq<LetterState>)
    requires |guess| == |target|
    ensures |tiles| == |guess|
    ensures forall i :: 0 <= i < |guess| ==> (tiles[i] == Correct <==> guess[i] == target[i])
    ensures forall i :: 0 <= i < |guess| ==> tiles[i] != Default
  {
    Scan(guess, Exact(guess, target), Leftover(guess, target))
  }

  /** The number of positions whose flag is `want` and whose letter is `c`. */
  function CountFlag(gs: string, flags: seq<bool>, want: bool, c: char): nat
    requires |flags| == |gs|
    decreases |gs|
  {
    if gs == [] then 0
    else (if flags[0] == want && gs[0] == c then 1 else 0) + CountFlag(gs[1..], flags[1..], want, c)
  }

  /** The number of tiles of colour `st` showing the letter `c`. */
  function Hits(gs: string, tiles: seq<LetterState>, st: LetterState, c: char): nat
    requires |tiles| == |gs|
    decreases |gs|
  {
    if gs == [] then 0
    else (if tiles[0] == st && gs[0] == c then 1 else 0) + Hits(gs[1..], tiles[1..], st, c)
  }

  function Min(a: nat, b: nat): nat
  {
    if a <= b then a else b
  }

  /** Blanking one copy of `d` in the pool removes one `c` exactly when `c == d`. */
  lemma PoolTake(pool: seq<Option<char>>, j: nat, d: char, c: char)
    requires j < |pool| && pool[j] == Some(d)
    ensures Seqs.Count(pool[j := None], Some(c)) == Seqs.Count(pool, Some(c)) - (if c == d then 1 else 0)
  {
    Seqs.CountIsMultiplicity(pool, Some(c));
    Seqs.CountIsMultiplicity(pool[j := None], Some(c));
    assert multiset(pool[j := None]) == multiset(pool) - multiset{Some(d)} + multiset{None};
  }

  /**
   * The second pass colours `Present` exactly as many copies of each letter
   * as both the unmatched guess letters and the unused target letters hold.
   */
  lemma {:induction false} ScanPresent(gs: string, corr: seq<bool>, pool: seq<Option<char>>, c: char)
    requires |corr| == |gs|
    ensures Hits(gs, Scan(gs, corr, pool), Present, c)
         == Min(CountFlag(gs, corr, false, c), Seqs.Count(pool, Some(c)))
    decreases |gs|
  {
    if gs != [] {
      if corr[0] {
        ScanPresent(gs[1..], corr[1..], pool, c);
      } else {
        var j := IndexOf(pool, Some(gs[0]));
        if j >= 0 {
          ScanPresent(gs[1..], corr[1..], pool[j := None], c);
          PoolTake(pool, j, gs[0], c);
        } else {
          ScanPresent(gs[1..], corr[1..], pool, c);
        }
      }
    }
  }

  /** The `Correct` tiles of a letter are its positions marked by the first pass. */
  lemma {:induction false} HitsCorrect(gs: string, tiles: seq<LetterState>, corr: seq<bool>, c: char)
    requires |tiles| == |gs| == |corr|
    requires forall i :: 0 <= i < |gs| ==> (tiles[i] == Correct <==> corr[i])
    ensures Hits(gs, tiles, Correct, c) == CountFlag(gs, corr, true, c)
    decreases |gs|
  {
    if gs != [] {
      HitsCorrect(gs[1..], tiles[1..], corr[1..], c);
    }
  }

  /**
   * Each letter of the guess is counted once as exactly placed or as
   * unmatched; each letter of the target once as exactly matched or as left
   * over after the first pass.
   */
  lemma {:induction false} SplitCounts(g: string, t: string, c: char)
    requires |g| == |t|
    ensures Seqs.Count(g, c) == CountFlag(g, Exact(g, t), true, c) + CountFlag(g, Exact(g, t), false, c)
    ensures Seqs.Count(t, c) == CountFlag(g, Exact(g, t), true, c) + Seqs.Count(Leftover(g, t), Some(c))
    decreases |g|
  {
    if g != [] {
      SplitCounts(g[1..], t[1..], c);
      var e, l := Exact(g, t), Leftover(g, t);
      assert e[1..] == Exact(g[1..], t[1..]);
      assert l[1..] == Leftover(g[1..], t[1..]);
      assert CountFlag(g, e, true, c) == (if e[0] && g[0] == c then 1 else 0) + CountFlag(g[1..], e[1..], true, c);
      assert CountFlag(g, e, false, c) == (if !e[0] && g[0] == c then 1 else 0) + CountFlag(g[1..], e[1..], false, c);
      assert Seqs.Count(l, Some(c)) == (if l[0] == Some(c) then 1 else 0) + Seqs.Count(l[1..], Some(c));
    }
  }

  /**
   * The Wordle colouring rule: for every letter, the tiles coloured
   * `Correct` or `Present` number the smaller of its count in the guess and
   * its count in the hidden word.
   */
  lemma EvaluateCountsLetters(guess: string, target: string, c: char)
    requires |guess| == |target|
    ensures Hits(guess, Evaluate(guess, target), Correct, c) + Hits(guess, Evaluate(guess, target), Present, c)
         == Min(Seqs.Count(guess, c), Seqs.Count(target, c))
  {
    var corr := Exact(guess, target);
    var pool := Leftover(guess, target);
    ScanPresent(guess, corr, pool, c);
    HitsCorrect(guess, Evaluate(guess, target), corr, c);
    SplitCounts(guess, target, c);
  }

  /** A letter absent from the hidden word is never coloured other than `Absent`. */
  lemma EvaluateAbsentLetter(guess: string, target: string, i: nat)
    requires |guess| == |target| && i < |guess|
    requires guess[i] !in target
    ensures Evaluate(guess, target)[i] == Absent
  {
    var tiles := Evaluate(guess, target);
    var c := guess[i];
    EvaluateCountsLetters(guess, target, c);
    assert Seqs.Count(target, c) == 0;
    if tiles[i] == Present {
      HitsAtLeastOne(guess, tiles, Present, i);
    }
  }

  /** A tile of colour `st` at position `i` counts towards `Hits`. */
  lemma {:induction false} HitsAtLeastOne(gs: string, tiles: seq<LetterState>, st: LetterState, i: nat)
    requires |tiles| == |gs| && i < |gs| && tiles[i] == st
    ensures Hits(gs, tiles, st, gs[i]) >= 1
    decreases |gs|
  {
    if i > 0 {
      HitsAtLeastOne(gs[1..], tiles[1..], st, i - 1);
    }
  }

  // ---------------------------------------------------------------------------
  // The keyboard colours
  // ---------------------------------------------------------------------------

  /** A key coloured `Present` unless it is already `Correct`. */
  function MarkPresent(kb: Keyboard, c: char): Keyboard
  {
    if KeyState(kb, c) != Correct then kb[c := Present] else kb
  }

  /** A key coloured `Absent` unless it is already `Correct` or `Present`. */
  function MarkAbsent(kb: Keyboard, c: char): Keyboard
  {
    if KeyState(kb, c) != Correct && KeyState(kb, c) != Present then kb[c := Absent] else kb
  }

  /** The keyboard update of the first pass: exactly placed letters become `Correct`. */
  function KeysFirstPass(gs: string, corr: seq<bool>, kb: Keyboard): (r: Keyboard)
    requires |corr| == |gs|
    ensures forall c :: Rank(KeyState(r, c)) >= Rank(KeyState(kb, c))
    ensures forall c :: c !in gs ==> KeyState(r, c) == KeyState(kb, c)
    ensures forall i :: 0 <= i < |gs| && corr[i] ==> KeyState(r, gs[i]) == Correct
    decreases |gs|
  {
    if gs == [] then kb
    else
      var r := KeysFirstPass(gs[1..], corr[1..], if corr[0] then kb[gs[0] := Correct] else kb);
      assert forall i :: 1 <= i < |gs| ==> gs[i] == gs[1..][i - 1];
      r
  }

  /** One tile's effect on the keyboard in the second pass. */
  function KeyStep(kb: Keyboard, c: char, tile: LetterState): (r: Keyboard)
    ensures forall d :: Rank(KeyState(r, d)) >= Rank(KeyState(kb, d))
    ensures forall d :: d != c ==> KeyState(r, d) == KeyState(kb, d)
    ensures Rank(KeyState(r, c)) >= Rank(tile) || tile == Correct
  {
    if tile == Correct then kb
    else if tile == Present then MarkPresent(kb, c)
    else MarkAbsent(kb, c)
  }

  /** The keyboard update of the second pass over the tiles not exactly placed. */
  function KeysSecondPass(gs: string, tiles: seq<LetterState>, kb: Keyboard): (r: Keyboard)
    requires |tiles| == |gs|
    ensures forall c :: Rank(KeyState(r, c)) >= Rank(KeyState(kb, c))
    ensures forall c :: c !in gs ==> KeyState(r, c) == KeyState(kb, c)
    ensures forall i :: 0 <= i < |gs| ==> Rank(KeyState(r, gs[i])) >= Rank(tiles[i]) || tiles[i] == Correct
    decreases |gs|
  {
    if gs == [] then kb
    else
      var step := KeyStep(kb, gs[0], tiles[0]);
      var r := KeysSecondPass(gs[1..], tiles[1..], step);
      assert forall i :: 1 <= i < |gs| ==> gs[i] == gs[1..][i - 1] && tiles[i] == tiles[1..][i - 1];
      r
  }

  /** The keyboard after a scored guess: both passes. */
  function Keys(guess: string, tiles: seq<LetterState>, target: string, kb: Keyboard): Keyboard
    requires |guess| == |target| == |tiles|
  {
    KeysSecondPass(guess, tiles, KeysFirstPass(guess, Exact(guess, target), kb))
  }

  /**
   * The keyboard never loses colour, changes only the guessed letters, and
   * shows every guessed letter at least in the colour of its tile.
   */
  lemma KeysClimb(guess: string, target: string, kb: Keyboard)
    requires |guess| == |target|
    ensures forall c :: Rank(KeyState(Keys(guess, Evaluate(guess, target), target, kb), c)) >= Rank(KeyState(kb, c))
    ensures forall c :: c !in guess ==> KeyState(Keys(guess, Evaluate(guess, target), target, kb), c) == KeyState(kb, c)
    ensures forall i :: 0 <= i < |guess| ==>
      Rank(KeyState(Keys(guess, Evaluate(guess, target), target, kb), guess[i])) >= Rank(Evaluate(guess, target)[i])
  {
    var tiles := Evaluate(guess, target);
    var k1 := KeysFirstPass(guess, Exact(guess, target), kb);
    var k2 := KeysSecondPass(guess, tiles, k1);
    forall i | 0 <= i < |guess|
      ensures Rank(KeyState(k2, guess[i])) >= Rank(tiles[i])
    {
      if tiles[i] == Correct {
        assert KeyState(k1, guess[i]) == Correct;
      }
    }
  }

  // ---------------------------------------------------------------------------
  // Submitting a guess
  // ---------------------------------------------------------------------------

  /** `currentGuess.join('')`. */
  function Concat(parts: seq<string>): string
  {
    if parts == [] then "" else parts[0] + Concat(parts[1..])
  }

  /** `newGuesses[k] = row` on a JavaScript array: writing past the end grows it. */
  function SetRow(board: seq<seq<Tile>>, k: nat, row: seq<Tile>): (r: seq<seq<Tile>>)
    ensures |r| == if k < |board| then |board| else k + 1
    ensures r[k] == row
    ensures forall i :: 0 <= i < |board| && i != k ==> r[i] == board[i]
  {
    if k < |board| then board[k := row]
    else board + seq(k - |board|, _ => []) + [row]
  }

  /** The scored row: each tile shows its letter and colour. */
  function Row(word: string, tiles: seq<LetterState>): (row: seq<Tile>)
    requires |tiles| == |word|
    ensures |row| == |word|
    ensures forall i :: 0 <= i < |word| ==> row[i] == Tile([word[i]], tiles[i])
  {
    seq(|word|, i requires 0 <= i < |word| => Tile([word[i]], tiles[i]))
  }

  /** `handleSubmitGuess`. */
  function Submit(cfg: Config, g: Game): (r: Game)
    requires Playable(cfg, g)
    ensures g.over ==> r == g
    ensures !g.over && |g.current| != cfg.wordLength ==> r == g.(message := InvalidWordLength(cfg.wordLength))
    ensures !g.over && |g.current| == cfg.wordLength && ToUpper(Concat(g.current)) !in cfg.words ==>
      r == g.(message := NotInWordList)
    ensures !g.over && |g.current| == cfg.wordLength && ToUpper(Concat(g.current)) in cfg.words ==>
      var word := ToUpper(Concat(g.current));
      && r.attempt == g.attempt + 1
      && r.current == []
      && r.target == g.target && r.hintUsed == g.hintUsed
      && g.attempt < |r.board| && r.board[g.attempt] == Row(word, Evaluate(word, g.target))
      && |r.board| == (if g.attempt < |g.board| then |g.board| else g.attempt + 1)
      && (forall i :: 0 <= i < |g.board| && i != g.attempt ==> r.board[i] == g.board[i])
      && (r.over <==> word == g.target || g.attempt + 1 >= cfg.maxAttempts)
      && (word == g.target ==> r.message == Won(g.target))
      && (word != g.target && g.attempt + 1 >= cfg.maxAttempts ==> r.message == Lost(g.target))
      && (!r.over ==> r.message == NoMessage)
      && r.keyboard == Keys(word, Evaluate(word, g.target), g.target, g.keyboard)
      && r == g.(board := r.board, keyboard := r.keyboard, attempt := r.attempt, current := [],
                 message := r.message, over := r.over)
  {
    if g.over then g
    else if |g.current| != cfg.wordLength then g.(message := InvalidWordLength(cfg.wordLength))
    else
      var word := ToUpper(Concat(g.current));
      if word !in cfg.words then g.(message := NotInWordList)
      else
        var tiles := Evaluate(word, g.target);
        var board := SetRow(g.board, g.attempt, Row(word, tiles));
        var kb := Keys(word, tiles, g.target, g.keyboard);
        var next := g.(board := board, keyboard := kb, attempt := g.attempt + 1, current := []);
        if word == g.target then next.(message := Won(g.target), over := true)
        else if g.attempt + 1 >= cfg.maxAttempts then next.(message := Lost(g.target), over := true)
        else next.(message := NoMessage)
  }

  // ---------------------------------------------------------------------------
  // Keys
  // ---------------------------------------------------------------------------

  /** The letters `/^[A-ZĀČĒĢĪĶĻŅŠŪŽ]$/` accepts. */
  const Alphabet: string := "ABCDEFGHIJKLMNOPQRSTUVWXYZĀČĒĢĪĶĻŅŠŪŽ"

  predicate IsLetterKey(key: string)
  {
    |key| == 1 && key[0] in Alphabet
  }

  /** `prev.slice(0, -1)`. */
  function DropLast<T>(xs: seq<T>): (r: seq<T>)
    ensures |xs| > 0 ==> r == xs[..|xs| - 1]
    ensures |xs| == 0 ==> r == []
  {
    if |xs| == 0 then [] else xs[..|xs| - 1]
  }

  /** `handleKeyPress`. */
  function KeyPress(cfg: Config, g: Game, key: string): (r: Game)
    requires Playable(cfg, g)
    ensures g.over ==> r == g
    ensures !g.over && key == "ENTER" ==> r == Submit(cfg, g.(message := NoMessage))
    ensures !g.over && key == "BACKSPACE" ==> r == g.(message := NoMessage, current := DropLast(g.current))
    ensures !g.over && key != "ENTER" && key != "BACKSPACE" ==>
      r == g.(message := NoMessage,
              current := if |g.current| < cfg.wordLength && IsLetterKey(ToUpper(key))
                         then g.current + [ToUpper(key)] else g.current)
  {
    if g.over then g
    else
      var cleared := g.(message := NoMessage);
      if key == "ENTER" then Submit(cfg, cleared)
      else if key == "BACKSPACE" then cleared.(current := DropLast(g.current))
      else if |g.current| < cfg.wordLength && IsLetterKey(ToUpper(key)) then
        cleared.(current := g.current + [ToUpper(key)])
      else cleared
  }

  // ---------------------------------------------------------------------------
  // The hint
  // ---------------------------------------------------------------------------

  /** `currentGuess[i] !== targetWord[i]` (a missing cell is `undefined`). */
  predicate Differs(current: seq<string>, target: string, i: nat)
    requires i < |target|
  {
    !(i < |current| && current[i] == [target[i]])
  }

  /** A position worth revealing first: its letter's key is not yet green. */
  predicate Preferred(g: Game, i: nat)
    requires i < |g.target|
  {
    KeyState(g.keyboard, g.target[i]) != Correct && Differs(g.current, g.target, i)
  }

  /** The first preferred position at or after `i`, or -1. */
  function FirstPreferred(g: Game, i: nat): (r: int)
    requires i <= |g.target|
    ensures r == -1 || i <= r < |g.target|
    ensures r >= 0 ==> Preferred(g, r)
    ensures forall k :: i <= k < |g.target| && (r == -1 || k < r) ==> !Preferred(g, k)
    decreases |g.target| - i
  {
    if i == |g.target| then -1
    else if Preferred(g, i) then i
    else FirstPreferred(g, i + 1)
  }

  /** The first position at or after `i` where the guess differs, or -1. */
  function FirstDiffering(g: Game, i: nat): (r: int)
    requires i <= |g.target|
    ensures r == -1 || i <= r < |g.target|
    ensures r >= 0 ==> Differs(g.current, g.target, r)
    ensures forall k :: i <= k < |g.target| && (r == -1 || k < r) ==> !Differs(g.current, g.target, k)
    decreases |g.target| - i
  {
    if i == |g.target| then -1
    else if Differs(g.current, g.target, i) then i
    else FirstDiffering(g, i + 1)
  }

  /** The position the hint reveals, or -1 when the guess already spells the word. */
  function HintIndex(g: Game): int
  {
    var p := FirstPreferred(g, 0);
    if p >= 0 then p else FirstDiffering(g, 0)
  }

  /** `while (newCurrentGuess.length <= k) newCurrentGuess.push('')`. */
  function PadTo(current: seq<string>, k: nat): (r: seq<string>)
    ensures |r| == if |current| > k then |current| else k + 1
    ensures r[..|current|] == current
    ensures forall i :: |current| <= i < |r| ==> r[i] == ""
  {
    if |current| > k then current else current + seq(k + 1 - |current|, _ => "")
  }

  /** `handleHintClick`. */
  function Hint(cfg: Config, g: Game): (r: Game)
    requires Playable(cfg, g)
    ensures g.over || g.hintUsed || g.attempt >= cfg.maxAttempts ==> r == g
    ensures !(g.over || g.hintUsed || g.attempt >= cfg.maxAttempts) && HintIndex(g) == -1 ==>
      r == g.(message := HintUnavailable)
    ensures !(g.over || g.hintUsed || g.attempt >= cfg.maxAttempts) && HintIndex(g) != -1 ==>
      var k := HintIndex(g);
      && 0 <= k < |g.target|
      && r.hintUsed
      && k < |r.current| && r.current[k] == [g.target[k]]
      && (forall i :: 0 <= i < |g.current| && i != k ==> i < |r.current| && r.current[i] == g.current[i])
      && |r.current| == (if |g.current| > k then |g.current| else k + 1)
      && (forall i :: |g.current| <= i < |r.current| && i != k ==> r.current[i] == "")
      && KeyState(r.keyboard, g.target[k]) == Correct
      && (forall c :: c != g.target[k] ==> KeyState(r.keyboard, c) == KeyState(g.keyboard, c))
      && r.message == HintGiven(g.target[k])
      && r == g.(current := r.current, keyboard := r.keyboard, hintUsed := true, message := r.message)
  {
    if g.over || g.hintUsed || g.attempt >= cfg.maxAttempts then g
    else
      var k := HintIndex(g);
      if k == -1 then g.(message := HintUnavailable)
      else
        var letter := g.target[k];
        g.(current := PadTo(g.current, k)[k := [letter]],
           keyboard := g.keyboard[letter := Correct],
           hintUsed := true,
           message := HintGiven(letter))
  }

  /** The hint picks a non-green letter when one differs, and a differing cell in any case. */
  lemma HintTargetsDifferingCell(g: Game)
    requires HintIndex(g) != -1
    ensures 0 <= HintIndex(g) < |g.target| && Differs(g.current, g.target, HintIndex(g))
    ensures (exists i :: 0 <= i < |g.target| && Preferred(g, i)) ==> Preferred(g, HintIndex(g))
  {
  }

  /** The hint is refused when the guess already spells the hidden word. */
  lemma HintUnavailableIffSpelled(cfg: Config, g: Game)
    requires Playable(cfg, g)
    requires !g.over && !g.hintUsed && g.attempt < cfg.maxAttempts
    ensures Hint(cfg, g).message == HintUnavailable <==>
      forall i :: 0 <= i < |g.target| ==> !Differs(g.current, g.target, i)
  {
    if HintIndex(g) == -1 {
      assert FirstDiffering(g, 0) == -1;
    } else {
      HintTargetsDifferingCell(g);
    }
  }

  /** Only one hint per game: a second click changes nothing. */
  lemma HintOnce(cfg: Config, g: Game)
    requires Playable(cfg, g)
    ensures Hint(cfg, Hint(cfg, g)).current == Hint(cfg, g).current
    ensures Hint(cfg, Hint(cfg, g)).keyboard == Hint(cfg, g).keyboard
  {
  }

  // ---------------------------------------------------------------------------
  // Reset and the game's invariant
  // ---------------------------------------------------------------------------

  /** `resetGame` with the freshly drawn hidden word. */
  function Reset(cfg: Config, target: string): (g: Game)
    ensures g.target == target && g.message == NoMessage
    ensures g.attempt == 0 && g.current == [] && !g.over && !g.hintUsed && g.keyboard == map[]
    ensures |g.board| == cfg.maxAttempts && forall i :: 0 <= i < |g.board| ==> |g.board[i]| == cfg.wordLength
    ensures forall i, j :: 0 <= i < |g.board| && 0 <= j < |g.board[i]| ==> g.board[i][j] == Tile("", Default)
  {
    Game(target, seq(cfg.maxAttempts, _ => seq(cfg.wordLength, _ => Tile("", Default))),
      0, [], NoMessage, false, map[], false)
  }

  /** What every reachable game satisfies. */
  predicate Steady(cfg: Config, g: Game)
  {
    && |g.current| <= cfg.wordLength
    && g.attempt <= cfg.maxAttempts
    && (!g.over ==> g.attempt < cfg.maxAttempts)
    && |g.board| == cfg.maxAttempts
  }

  /** The user's inputs. */
  datatype Input = Key(key: string) | HintClick

  function Step(cfg: Config, g: Game, input: Input): Game
    requires Playable(cfg, g)
  {
    match input
    case Key(key) => KeyPress(cfg, g, key)
    case HintClick => Hint(cfg, g)
  }

  /**
   * Every input keeps the guess within the word length, the attempt count
   * within the limit (a scored row is always written inside the board) and
   * the game over once the attempts run out.
   */
  lemma StepKeepsSteady(cfg: Config, g: Game, input: Input)
    requires Playable(cfg, g) && Steady(cfg, g)
    ensures Steady(cfg, Step(cfg, g, input))
    ensures Step(cfg, g, input).target == g.target
  {
    match input
    case Key(key) =>
      KeyKeepsSteady(cfg, g, key);
    case HintClick =>
      HintKeepsSteady(cfg, g);
  }

  lemma KeyKeepsSteady(cfg: Config, g: Game, key: string)
    requires Playable(cfg, g) && Steady(cfg, g)
    ensures Steady(cfg, KeyPress(cfg, g, key)) && KeyPress(cfg, g, key).target == g.target
  {
    if key == "ENTER" {
      EnterKeepsSteady(cfg, g);
    } else {
      TypingKeepsSteady(cfg, g, key);
    }
  }

  lemma EnterKeepsSteady(cfg: Config, g: Game)
    requires Playable(cfg, g) && Steady(cfg, g)
    ensures Steady(cfg, KeyPress(cfg, g, "ENTER")) && KeyPress(cfg, g, "ENTER").target == g.target
  {
    if !g.over {
      SubmitKeepsSteady(cfg, g.(message := NoMessage));
    }
  }

  lemma TypingKeepsSteady(cfg: Config, g: Game, key: string)
    requires Playable(cfg, g) && Steady(cfg, g) && key != "ENTER"
    ensures Steady(cfg, KeyPress(cfg, g, key)) && KeyPress(cfg, g, key).target == g.target
  {
  }

  lemma SubmitKeepsSteady(cfg: Config, g: Game)
    requires Playable(cfg, g) && Steady(cfg, g)
    ensures Steady(cfg, Submit(cfg, g)) && Submit(cfg, g).target == g.target
  {
  }

  lemma HintKeepsSteady(cfg: Config, g: Game)
    requires Playable(cfg, g) && Steady(cfg, g)
    ensures Steady(cfg, Hint(cfg, g)) && Hint(cfg, g).target == g.target
  {
    if !(g.over || g.hintUsed || g.attempt >= cfg.maxAttempts) && HintIndex(g) != -1 {
      HintTargetsDifferingCell(g);
    }
  }

  /** A fresh game is steady when there is at least one attempt. */
  lemma ResetIsSteady(cfg: Config, target: string)
    requires cfg.maxAttempts > 0
    ensures Steady(cfg, Reset(cfg, target))
  {
  }
}
