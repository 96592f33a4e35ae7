/**
 * The Number Cruncher arithmetic game: generating a problem for the chosen
 * difficulty and operation, checking a typed answer, the score rule and the
 * sixty-second countdown. Every `Math.random()` call reads the next entry of
 * a draw sequence (`Math.floor(Math.random() * n)` is the draw modulo `n`);
 * the one-second interval is the caller's `Tick`.
 */
module NumberCruncher {
  import opened Wrappers
  import opened Strings
  import opened Types

  /** `GAME_DURATION_SECONDS`. */
  const GameDuration: nat := 60

  /** A problem: `left op right = ?` and the expected answer. */
  datatype Problem = Problem(left: int, op: OperationType, right: int, answer: int)

  // ---------------------------------------------------------------------------
  // Random draws
  // ---------------------------------------------------------------------------

  /**
   * `Math.floor(Math.random() * n)` for the `k`-th call: the draw modulo `n`;
   * a draw past the end of the sequence reads as 0, as does a zero width.
   */
  function Draw(draws: seq<nat>, k: nat, n: int): (v: int)
    ensures n > 0 ==> 0 <= v < n
    ensures n <= 0 ==> v == 0
  {
    if n <= 0 then 0
    else if k < |draws| then draws[k] % n
    else 0
  }

  /** `getRange`: the operand bounds for addition and subtraction. */
  function MaxOperand(d: GameDifficulty): nat
  {
    match d
    case Easy => 10
    case Medium => 50
    case Hard => 100
  }

  /** `getMultiplierRange`: the operand bounds for multiplication and division. */
  function MultiplierRange(d: GameDifficulty): (r: (int, int))
    ensures r.0 <= 0 < r.1
  {
    match d
    case Easy => (0, 5)
    case Medium => (0, 12)
    case Hard => (-10, 20)
  }

  /** The operation of a mixed-mode problem: `operations[floor(random * 4)]`. */
  function MixedOperation(draws: seq<nat>): OperationType
  {
    [Add, Subtract, Multiply, Divide][Draw(draws, 0, 4)]
  }

  /** The answer is the value of the expression shown, and a divisor is never zero. */
  predicate Sound(p: Problem)
  {
    match p.op
    case Add => p.answer == p.left + p.right
    case Subtract => p.answer == p.left - p.right
    case Multiply => p.answer == p.left * p.right
    case Divide => p.right != 0 && p.left == p.right * p.answer
  }

  /** The operand ranges each difficulty promises. */
  predicate InRange(d: GameDifficulty, p: Problem)
  {
    match p.op
    case Add =>
      if d == Hard then -50 <= p.left <= 50 && -50 <= p.right <= 50
      else 0 <= p.left <= MaxOperand(d) && 0 <= p.right <= MaxOperand(d)
    case Subtract =>
      && 0 <= p.left <= MaxOperand(d) && 0 <= p.right <= MaxOperand(d)
      && (d != Hard ==> p.right <= p.left)
    case Multiply =>
      MultiplierRange(d).0 <= p.left <= MultiplierRange(d).1
      && MultiplierRange(d).0 <= p.right <= MultiplierRange(d).1
    case Divide =>
      if d == Hard then -10 <= p.right <= 9 && -10 <= p.answer <= 9
      else 1 <= p.right <= MultiplierRange(d).1 && 0 <= p.answer < MultiplierRange(d).1
  }

  /** `generateProblem`. */
  function Generate(d: GameDifficulty, mode: GameMode, draws: seq<nat>): (p: Problem)
    ensures mode.Single? ==> p.op == mode.op
    ensures mode.Mixed? ==> p.op == MixedOperation(draws)
    ensures Sound(p) && InRange(d, p)
    ensures d != Hard && p.op == Subtract ==> p.answer >= 0
  {
    var op := if mode.Mixed? then MixedOperation(draws) else mode.op;
    var k: nat := if mode.Mixed? then 1 else 0;
    match op
    case Add => AddProblem(d, draws, k)
    case Subtract => SubtractProblem(d, draws, k)
    case Multiply => MultiplyProblem(d, draws, k)
    case Divide => DivideProblem(d, draws, k)
  }

  /** The addition branch, reading the draws from index `k` (after the mixed-mode draw). */
  function AddProblem(d: GameDifficulty, draws: seq<nat>, k: nat): (p: Problem)
    ensures p.op == Add && Sound(p) && InRange(d, p)
  {
    var maxOp := MaxOperand(d);
    var a := if d == Hard then Draw(draws, k + 2, maxOp + 1) - maxOp / 2 else Draw(draws, k, maxOp + 1);
    var b := if d == Hard then Draw(draws, k + 3, maxOp + 1) - maxOp / 2 else Draw(draws, k + 1, maxOp + 1);
    Problem(a, Add, b, a + b)
  }

  function SubtractProblem(d: GameDifficulty, draws: seq<nat>, k: nat): (p: Problem)
    ensures p.op == Subtract && Sound(p) && InRange(d, p)
    ensures d != Hard ==> p.answer >= 0
  {
    var maxOp := MaxOperand(d);
    var a := Draw(draws, k, maxOp + 1);
    var b := if d == Hard then Draw(draws, k + 1, maxOp + 1) else Draw(draws, k + 1, a + 1);
    Problem(a, Subtract, b, a - b)
  }

  function MultiplyProblem(d: GameDifficulty, draws: seq<nat>, k: nat): (p: Problem)
    ensures p.op == Multiply && Sound(p) && InRange(d, p)
  {
    var (minMult, maxMult) := MultiplierRange(d);
    var a := Draw(draws, k, maxMult - minMult + 1) + minMult;
    var b := Draw(draws, k + 1, maxMult - minMult + 1) + minMult;
    Problem(a, Multiply, b, a * b)
  }

  function DivideProblem(d: GameDifficulty, draws: seq<nat>, k: nat): (p: Problem)
    ensures p.op == Divide && Sound(p) && InRange(d, p)
  {
    var (minMult, maxMult) := MultiplierRange(d);
    var drawn := Draw(draws, k, maxMult) + (if minMult >= 0 then 1 else minMult);
    var divisor := if drawn == 0 then 1 else drawn;
    var quotient := Draw(draws, k + 1, maxMult) + (if minMult >= 0 then 0 else minMult);
    Problem(divisor * quotient, Divide, divisor, quotient)
  }

  // ---------------------------------------------------------------------------
  // The problem text and the feedback line
  // ---------------------------------------------------------------------------

  function Symbol(op: OperationType): string
  {
    match op
    case Add => "+"
    case Subtract => "-"
    case Multiply => "×"
    case Divide => "÷"
  }

  /** `${num1} op ${num2} = ` — the problem text before its `?`. */
  function Equation(p: Problem): string
  {
    IntToString(p.left) + " " + Symbol(p.op) + " " + IntToString(p.right) + " = "
  }

  /** The problem as shown: the equation followed by `?`. */
  function Text(p: Problem): string
  {
    Equation(p) + "?"
  }

  /** `s.replace(c, v)` with a one-character string pattern: the first occurrence only. */
  function ReplaceFirst(s: string, c: char, v: string): (r: string)
    ensures c !in s ==> r == s
    ensures forall a, b :: s == a + [c] + b && c !in a ==> r == a + v + b
  {
    var i := IndexOf(s, c);
    if i < 0 then s
    else
      assert forall a, b :: s == a + [c] + b && c !in a ==> a == s[..i] && b == s[i + 1..] by {
        forall a, b | s == a + [c] + b && c !in a
          ensures a == s[..i] && b == s[i + 1..]
        {
          assert s[|a|] == c;
          assert forall k :: 0 <= k < |a| ==> s[k] == a[k];
          assert forall k :: 0 <= k < i ==> s[k] == s[..i][k];
          assert |a| == i;
        }
      }
      s[..i] + v + s[i + 1..]
  }

  /** `String(n)` holds only digits and a sign. */
  lemma NoQuestionMark(n: int)
    ensures '?' !in IntToString(n)
  {
    var s := IntToString(n);
    if n < 0 {
      assert s == "-" + NatToString(-n);
      assert forall i :: 1 <= i < |s| ==> s[i] == NatToString(-n)[i - 1];
    }
  }

  /** What an answer earns. */
  datatype Feedback = NoFeedback | Right | Wrong(solution: string)

  /** The wrong-answer feedback shows the full equation with its answer. */
  lemma SolutionShowsAnswer(p: Problem)
    ensures ReplaceFirst(Text(p), '?', IntToString(p.answer)) == Equation(p) + IntToString(p.answer)
  {
    NoQuestionMark(p.left);
    NoQuestionMark(p.right);
    var e := Equation(p);
    assert '?' !in e by {
      assert e == IntToString(p.left) + (" " + Symbol(p.op) + " ") + IntToString(p.right) + " = ";
    }
    assert Text(p) == e + ['?'] + "";
  }

  // ---------------------------------------------------------------------------
  // The game
  // ---------------------------------------------------------------------------

  datatype Phase = Setup | Playing | GameOver

  datatype Game = Game(
    phase: Phase,
    difficulty: GameDifficulty,
    mode: GameMode,
    problem: Option<Problem>,
    answer: string,
    score: nat,
    timeLeft: nat,
    feedback: Feedback)

  /** `startGame`: the countdown restarts and a first problem is drawn. */
  function Start(g: Game, draws: seq<nat>): (r: Game)
    ensures r.phase == Playing && r.score == 0 && r.timeLeft == GameDuration
    ensures r.problem == Some(Generate(g.difficulty, g.mode, draws))
    ensures r.answer == "" && r.feedback == NoFeedback
    ensures r.difficulty == g.difficulty && r.mode == g.mode
  {
    g.(phase := Playing, score := 0, timeLeft := GameDuration,
       problem := Some(Generate(g.difficulty, g.mode, draws)), answer := "", feedback := NoFeedback)
  }

  /** The score after an answer: ten points for a right one, five off (not below zero) otherwise. */
  function Scored(score: nat, right: bool): (r: nat)
    ensures right ==> r == score + 10
    ensures !right ==> r <= score && (score >= 5 ==> r == score - 5) && (score <= 5 ==> r == 0)
    ensures score % 5 == 0 ==> r % 5 == 0
  {
    if right then score + 10
    else if score > 5 then score - 5 else 0
  }

  /** `handleAnswerSubmit`. */
  function SubmitAnswer(g: Game, draws: seq<nat>): (r: Game)
    ensures g.answer == "" || g.problem.None? ==> r == g
    ensures g.answer != "" && g.problem.Some? ==>
      var right := ParseInt(g.answer) == Some(g.problem.value.answer);
      && r.score == Scored(g.score, right)
      && r.feedback == (if right then Right
                        else Wrong(ReplaceFirst(Text(g.problem.value), '?', IntToString(g.problem.value.answer))))
      && r.problem == Some(Generate(g.difficulty, g.mode, draws))
      && r.answer == ""
      && r.phase == g.phase && r.timeLeft == g.timeLeft
  {
    if g.answer == "" || g.problem.None? then g
    else
      var p := g.problem.value;
      var right := ParseInt(g.answer) == Some(p.answer);
      g.(score := Scored(g.score, right),
         feedback := if right then Right else Wrong(ReplaceFirst(Text(p), '?', IntToString(p.answer))),
         problem := Some(Generate(g.difficulty, g.mode, draws)),
         answer := "")
  }

  /** Typing the expected answer as `String(answer)` always scores. */
  lemma TypedAnswerScores(g: Game, draws: seq<nat>)
    requires g.problem.Some? && g.answer == IntToString(g.problem.value.answer)
    ensures SubmitAnswer(g, draws).score == g.score + 10
    ensures SubmitAnswer(g, draws).feedback == Right
  {
    ParseIntOfIntToString(g.problem.value.answer);
  }

  /** One second of the interval. */
  function Tick(g: Game): (r: Game)
    ensures g.timeLeft <= 1 ==> r.timeLeft == 0 && r.phase == GameOver
    ensures g.timeLeft > 1 ==> r.timeLeft == g.timeLeft - 1 && r.phase == g.phase
    ensures r.score == g.score && r.problem == g.problem
  {
    if g.timeLeft <= 1 then g.(timeLeft := 0, phase := GameOver)
    else g.(timeLeft := g.timeLeft - 1)
  }

  function Ticks(g: Game, n: nat): Game
    decreases n
  {
    if n == 0 then g else Ticks(Tick(g), n - 1)
  }

  /**
   * A started game runs for exactly `GameDuration` seconds: still playing
   * after fewer ticks, over after that many.
   */
  lemma {:induction false} CountdownLasts(g: Game, n: nat)
    requires g.phase == Playing && g.timeLeft >= 1
    ensures n < g.timeLeft ==> Ticks(g, n).phase == Playing && Ticks(g, n).timeLeft == g.timeLeft - n
    ensures n >= g.timeLeft ==> Ticks(g, n).phase == GameOver && Ticks(g, n).timeLeft == 0
    decreases n
  {
    if n > 0 {
      if g.timeLeft > 1 {
        CountdownLasts(Tick(g), n - 1);
      } else {
        OverStaysOver(Tick(g), n - 1);
      }
    }
  }

  /** Once over, further ticks keep the game over at zero. */
  lemma {:induction false} OverStaysOver(g: Game, n: nat)
    requires g.phase == GameOver && g.timeLeft == 0
    ensures Ticks(g, n).phase == GameOver && Ticks(g, n).timeLeft == 0
    decreases n
  {
    if n > 0 {
      OverStaysOver(Tick(g), n - 1);
    }
  }
}
