/**
 * The round and slice state machine of src/Game.js: a question is drawn from the bank, a copy
 * of its options is shuffled in place, the correct index is recomputed with `indexOf` and written
 * back into the bank item, one fruit is made per option, and a click slices the first unsliced
 * fruit under it, scoring 10 or ending the game.
 *
 * Randomness is an explicit choice: `picks[i]` is the partner that the shuffle swaps with
 * position `i` (so `picks[i] <= i`), and the drawn question is an index `k < |bank|`.
 */
module SliceGame {
  import opened Wrappers
  import opened Seqs
  import opened Questions

  /** FRUIT_SIZE of src/constants.js, in pixels. */
  const FruitSize: real := 80.0
  /** `spawnFruits` spaces the fruits four fruit-widths apart. */
  const Spacing: real := 4.0 * FruitSize
  /** Points for slicing the correct fruit; src/Game.js writes the literal 10. */
  const PointsPerCorrect: int := 10

  // ---------------------------------------------------------------------------
  // shuffleArray: Fisher-Yates with explicit partners

  /** `picks` gives, for every step `i` of the shuffle, a partner in [0, i]. */
  predicate ValidPicks(picks: seq<nat>, n: nat) {
    |picks| == n && forall i :: 0 <= i < n ==> picks[i] <= i
  }

  /** The destructuring swap `[array[i], array[j]] = [array[j], array[i]]`. */
  function Swap<T>(s: seq<T>, i: nat, j: nat): (r: seq<T>)
    requires i < |s| && j < |s|
    ensures |r| == |s| && r[i] == s[j] && r[j] == s[i]
    ensures forall k :: 0 <= k < |s| && k != i && k != j ==> r[k] == s[k]
  {
    s[i := s[j]][j := s[i]]
  }

  /** The contents after the loop has run its steps `i`, `i - 1`, ..., `1` on `s`. */
  function Steps<T>(s: seq<T>, picks: seq<nat>, i: int): (r: seq<T>)
    requires ValidPicks(picks, |s|) && i < |s|
    ensures |r| == |s|
    decreases i
  {
    if i <= 0 then s else Steps(Swap(s, i, picks[i]), picks, i - 1)
  }

  /** A swap only reorders. */
  lemma SwapPermutes<T>(s: seq<T>, i: nat, j: nat)
    requires i < |s| && j < |s|
    ensures multiset(Swap(s, i, j)) == multiset(s)
  {
  }

  lemma {:induction false} StepsPermutes<T>(s: seq<T>, picks: seq<nat>, i: int)
    requires ValidPicks(picks, |s|) && i < |s|
    ensures multiset(Steps(s, picks, i)) == multiset(s)
    decreases i
  {
    if i > 0 {
      SwapPermutes(s, i, picks[i]);
      StepsPermutes(Swap(s, i, picks[i]), picks, i - 1);
    }
  }

  /** The result of `shuffleArray` on contents `s`: steps `|s| - 1` down to `1`. */
  function Shuffled<T>(s: seq<T>, picks: seq<nat>): (r: seq<T>)
    requires ValidPicks(picks, |s|)
    ensures |r| == |s| && multiset(r) == multiset(s)
    ensures |s| <= 1 ==> r == s
  {
    StepsPermutes(s, picks, |s| - 1);
    Steps(s, picks, |s| - 1)
  }

  /** The shuffle runs in place: the array ends up holding `Shuffled` of what it held. */
  method ShuffleArray<T>(a: array<T>, picks: seq<nat>)
    requires ValidPicks(picks, a.Length)
    modifies a
    ensures a[..] == Shuffled(old(a[..]), picks)
  {
    var i := a.Length - 1;
    while i > 0
      invariant -1 <= i < a.Length
      invariant a.Length > 0 ==> i >= 0
      invariant Steps(a[..], picks, i) == Shuffled(old(a[..]), picks)
      decreases i
    {
      var j := picks[i];
      ghost var before := a[..];
      a[i], a[j] := a[j], a[i];
      assert a[..] == Swap(before, i, j);
      i := i - 1;
    }
  }

  /** `[...s]`: a fresh array holding the values of `s`. */
  method CopyToArray<T>(s: seq<T>) returns (a: array<T>)
    ensures fresh(a) && a[..] == s
  {
    a := new T[|s|](i requires 0 <= i < |s| => s[i]);
  }

  /**
   * The first half of `spawnFruits`: copy the options, shuffle the copy in place and find
   * where the answer went.
   */
  method ShuffleOptions(q: Question, picks: seq<nat>) returns (shuffled: seq<string>, newCorrect: int)
    requires 0 <= q.correct < |q.options| && ValidPicks(picks, |q.options|)
    ensures shuffled == Shuffled(q.options, picks)
    ensures newCorrect == Remap(q, picks).correct
  {
    var shuffledOptions := CopyToArray(q.options);
    var correctOption := shuffledOptions[q.correct];
    ShuffleArray(shuffledOptions, picks);
    shuffled := shuffledOptions[..];
    newCorrect := IndexOf(shuffled, correctOption);
  }

  /** A swap keeps the values distinct. */
  lemma SwapDistinct<T>(s: seq<T>, i: nat, j: nat)
    requires i < |s| && j < |s| && Distinct(s)
    ensures Distinct(Swap(s, i, j))
  {
    var r := Swap(s, i, j);
    forall p, q | 0 <= p < q < |r| ensures r[p] != r[q] {
      var p' := if p == i then j else if p == j then i else p;
      var q' := if q == i then j else if q == j then i else q;
      assert r[p] == s[p'] && r[q] == s[q'] && p' != q';
    }
  }

  lemma {:induction false} StepsDistinct<T>(s: seq<T>, picks: seq<nat>, i: int)
    requires ValidPicks(picks, |s|) && i < |s| && Distinct(s)
    ensures Distinct(Steps(s, picks, i))
    decreases i
  {
    if i > 0 {
      SwapDistinct(s, i, picks[i]);
      StepsDistinct(Swap(s, i, picks[i]), picks, i - 1);
    }
  }

  /** Shuffling distinct options gives distinct options. */
  lemma ShuffledDistinct<T>(s: seq<T>, picks: seq<nat>)
    requires ValidPicks(picks, |s|)
    ensures Distinct(s) ==> Distinct(Shuffled(s, picks))
  {
    if Distinct(s) {
      StepsDistinct(s, picks, |s| - 1);
    }
  }

  // ---------------------------------------------------------------------------
  // indexOf and the correct-index remap of spawnFruits

  /** `s.indexOf(x)`: the first position holding `x`, or -1. */
  function IndexOf<T(==)>(s: seq<T>, x: T): (r: int)
    ensures -1 <= r < |s|
    ensures r == -1 <==> x !in s
    ensures r >= 0 ==> s[r] == x && forall k :: 0 <= k < r ==> s[k] != x
  {
    if s == [] then -1
    else if s[0] == x then 0
    else
      var t := IndexOf(s[1..], x);
      if t == -1 then -1 else t + 1
  }

  /**
   * The bank item after `spawnFruits` has drawn it: `correct` becomes the position, in the
   * shuffled copy, of the option that sat at the old `correct`; text and options are untouched.
   */
  function Remap(q: Question, picks: seq<nat>): (r: Question)
    requires 0 <= q.correct < |q.options| && ValidPicks(picks, |q.options|)
    ensures r.text == q.text && r.options == q.options
    ensures 0 <= r.correct < |q.options|
    ensures Shuffled(q.options, picks)[r.correct] == q.options[q.correct]
    ensures Distinct(q.options) ==>
      forall k :: 0 <= k < |q.options| && Shuffled(q.options, picks)[k] == q.options[q.correct] ==> k == r.correct
  {
    var shuffled := Shuffled(q.options, picks);
    assert q.options[q.correct] in multiset(q.options);
    ShuffledDistinct(q.options, picks);
    q.(correct := IndexOf(shuffled, q.options[q.correct]))
  }

  // ---------------------------------------------------------------------------
  // Fruits, layout and collision

  datatype Fruit = Fruit(option: string, index: nat, x: real, y: real, isSliced: bool)

  /** Horizontal position of fruit `index` of `n` on a canvas `width` pixels wide. */
  function FruitX(width: nat, n: nat, index: nat): real {
    width as real / 2.0 - ((n - 1) as real * Spacing) / 2.0 + index as real * Spacing
  }

  /** Vertical position of every fruit on a canvas `height` pixels high. */
  function FruitY(height: nat): real {
    height as real / 2.0 - FruitSize
  }

  /** Fruits are `Spacing` apart, and the row is centred: a fruit and its mirror average to the middle. */
  lemma FruitRowCentred(width: nat, n: nat, index: nat)
    requires index < n
    ensures FruitX(width, n, index) + FruitX(width, n, n - 1 - index) == width as real
    ensures index + 1 < n ==> FruitX(width, n, index + 1) == FruitX(width, n, index) + Spacing
  {
  }

  /** The fruit list `spawnFruits` builds from the shuffled options, already laid out. */
  function LaidOut(options: seq<string>, width: nat, height: nat): (r: seq<Fruit>)
    ensures |r| == |options|
    ensures forall k :: 0 <= k < |r| ==> r[k].option == options[k] && r[k].index == k && !r[k].isSliced
  {
    seq(|options|, k requires 0 <= k < |options| =>
      Fruit(options[k], k, FruitX(width, |options|, k), FruitY(height), false))
  }

  /** `checkCollision(x, y, fruit)`: the point lies in the fruit's square, edges included. */
  predicate Collides(x: real, y: real, f: Fruit) {
    f.x <= x <= f.x + FruitSize && f.y <= y <= f.y + FruitSize
  }

  /** A fruit that `handleSlice` would slice at `(x, y)`. */
  predicate Hittable(f: Fruit, x: real, y: real) {
    !f.isSliced && Collides(x, y, f)
  }

  /** Laid-out fruits are 320 pixels apart and 80 wide: no point lies in two of them. */
  lemma LaidOutDisjoint(options: seq<string>, width: nat, height: nat, x: real, y: real, i: nat, j: nat)
    requires i < |options| && j < |options|
    requires Collides(x, y, LaidOut(options, width, height)[i])
    requires Collides(x, y, LaidOut(options, width, height)[j])
    ensures i == j
  {
    var fs := LaidOut(options, width, height);
    assert fs[i].x - fs[j].x == (i as real - j as real) * Spacing;
  }

  /** The lowest-indexed fruit at or after `from` that a click at `(x, y)` slices. */
  function FirstHit(fruits: seq<Fruit>, x: real, y: real, from: nat): (r: Option<nat>)
    requires from <= |fruits|
    ensures r.Some? ==> from <= r.value < |fruits| && Hittable(fruits[r.value], x, y)
    ensures r.Some? ==> forall k :: from <= k < r.value ==> !Hittable(fruits[k], x, y)
    ensures r.None? <==> forall k :: from <= k < |fruits| ==> !Hittable(fruits[k], x, y)
    decreases |fruits| - from
  {
    if from == |fruits| then None
    else if Hittable(fruits[from], x, y) then Some(from)
    else FirstHit(fruits, x, y, from + 1)
  }

  // ---------------------------------------------------------------------------
  // Corrected round (see the Findings in README.md)

  /** A round kept apart from the bank: the displayed options and the index of the right one. */
  datatype Round = Round(options: seq<string>, correct: int)

  /**
   * `spawnFruits` as evidently intended: the remapped index belongs to the round, and the bank
   * item is left as it was, so every draw of an item rewards that item's own answer.
   */
  function FixedRound(q: Question, picks: seq<nat>): (r: Round)
    requires WellFormed(q) && ValidPicks(picks, |q.options|)
    ensures multiset(r.options) == multiset(q.options) && |r.options| == |q.options|
    ensures 0 <= r.correct < |r.options| && r.options[r.correct] == q.options[q.correct]
    ensures forall k :: 0 <= k < |r.options| && r.options[k] == q.options[q.correct] ==> k == r.correct
  {
    Round(Shuffled(q.options, picks), Remap(q, picks).correct)
  }

  /** Drawing a bank item any number of times in the corrected form always rewards its answer. */
  lemma FixedRoundsKeepAnswer(q: Question, draws: seq<seq<nat>>)
    requires WellFormed(q)
    requires forall d :: 0 <= d < |draws| ==> ValidPicks(draws[d], |q.options|)
    ensures forall d :: 0 <= d < |draws| ==>
      var r := FixedRound(q, draws[d]); r.options[r.correct] == q.options[q.correct]
  {
  }

  /** With partners 0, 1, 2, 0 the shuffle of four values only exchanges the first and the last. */
  lemma OneSwapPicks<T>(o: seq<T>)
    requires |o| == 4
    ensures Shuffled(o, [0, 1, 2, 0]) == [o[3], o[1], o[2], o[0]]
  {
    var p: seq<nat> := [0, 1, 2, 0];
    var s := Swap(o, 3, 0);
    assert Swap(s, 2, 2) == s && Swap(s, 1, 1) == s;
    assert Steps(s, p, 2) == Steps(s, p, 1) == Steps(s, p, 0) == s;
  }

  /** The first draw, with partners 0, 1, 2, 0, moves an answer at 0 to position 3 and stores 3. */
  lemma FirstDrawStoresThree(q: Question)
    requires WellFormed(q) && |q.options| == 4 && q.correct == 0
    ensures Remap(q, [0, 1, 2, 0]).correct == 3
  {
    OneSwapPicks(q.options);
  }

  /**
   * As written, a second draw of an item rewards the wrong option: when the first draw (partners
   * 0, 1, 2, 0) moves the answer of a four-option item with answer 0 to position 3, the item stores
   * 3 over its unshuffled options, and the second draw rewards the option that sat at 3.
   */
  lemma RepeatedDrawRewardsWrongOption(q: Question)
    requires WellFormed(q) && |q.options| == 4 && q.correct == 0
    ensures var p: seq<nat> := [0, 1, 2, 0];
      var twice := Remap(Remap(q, p), p);
      && Shuffled(q.options, p)[twice.correct] == q.options[3]
      && Shuffled(q.options, p)[twice.correct] != q.options[q.correct]
  {
    FirstDrawStoresThree(q);
    assert q.options[3] != q.options[0];
  }

  /** The first bank item is such an item: its second draw rewards "Board of Industry Standards". */
  lemma FirstItemRepeatedDraw()
    ensures var p: seq<nat> := [0, 1, 2, 0];
      var twice := Remap(Remap(Bank[0], p), p);
      Shuffled(Bank[0].options, p)[twice.correct] == "Board of Industry Standards"
  {
    BankWellFormed();
    RepeatedDrawRewardsWrongOption(Bank[0]);
  }

  // ---------------------------------------------------------------------------
  // The Game object

  class Game {
    const canvasWidth: nat
    const canvasHeight: nat
    /** The items as the module imported them, before any spawn wrote to them. */
    const source: seq<Question>
    var score: int
    var isGameOver: bool
    /** The items of the shared `questions` array, whose `correct` fields `spawnFruits` overwrites. */
    var bank: seq<Question>
    /** Which bank item `currentQuestion` refers to; `None` before the first spawn. */
    var current: Option<nat>
    var fruitsInGame: seq<Fruit>
    /** Respawn timers set by correct slices that have not fired yet. */
    var pendingRespawns: nat
    /** Scores that `endGame` has posted, oldest first. */
    var submittedScores: seq<int>

    ghost predicate Valid()
      reads this
    {
      && |bank| == |source|
      && (forall i :: 0 <= i < |bank| ==>
            bank[i].text == source[i].text && bank[i].options == source[i].options
            && 0 <= bank[i].correct < |bank[i].options|)
      && (current.None? ==> fruitsInGame == [])
      && (current.Some? ==> current.value < |bank| && |fruitsInGame| == |bank[current.value].options|)
      && (forall k :: 0 <= k < |fruitsInGame| ==> fruitsInGame[k].index == k)
      && score >= 0 && score % PointsPerCorrect == 0
    }

    /** The index of the fruit that scores, `currentQuestion.correct`. */
    function CorrectIndex(): int
      reads this
      requires Valid() && current.Some?
    {
      bank[current.value].correct
    }

    constructor (width: nat, height: nat)
      ensures Valid()
      ensures canvasWidth == width && canvasHeight == height && source == Bank
      ensures score == 0 && !isGameOver && bank == Bank && current == None && fruitsInGame == []
      ensures pendingRespawns == 0 && submittedScores == []
    {
      canvasWidth, canvasHeight, source := width, height, Bank;
      score, isGameOver := 0, false;
      bank, current, fruitsInGame := Bank, None, [];
      pendingRespawns, submittedScores := 0, [];
      BankWellFormed();
    }

    /** `start`: reset the score and the game-over flag, then spawn a round. */
    method Start(k: nat, picks: seq<nat>)
      requires Valid() && k < |bank| && ValidPicks(picks, |bank[k].options|)
      modifies this
      ensures Valid()
      ensures score == 0 && !isGameOver
      ensures current == Some(k)
      ensures bank == old(bank)[k := Remap(old(bank)[k], picks)]
      ensures fruitsInGame == LaidOut(Shuffled(old(bank)[k].options, picks), canvasWidth, canvasHeight)
      ensures pendingRespawns == old(pendingRespawns) && submittedScores == old(submittedScores)
    {
      score := 0;
      isGameOver := false;
      SpawnFruits(k, picks);
    }

    /**
     * `spawnFruits`: draw item `k`, shuffle a copy of its options, write the shuffled position
     * of the answer back into the bank item, and lay out one unsliced fruit per option.
     */
    method SpawnFruits(k: nat, picks: seq<nat>)
      requires Valid() && k < |bank| && ValidPicks(picks, |bank[k].options|)
      modifies this
      ensures Valid()
      ensures current == Some(k)
      ensures bank == old(bank)[k := Remap(old(bank)[k], picks)]
      ensures fruitsInGame == LaidOut(Shuffled(old(bank)[k].options, picks), canvasWidth, canvasHeight)
      ensures score == old(score) && isGameOver == old(isGameOver)
      ensures pendingRespawns == old(pendingRespawns) && submittedScores == old(submittedScores)
    {
      current := Some(k);
      var q := bank[k];
      var shuffledOptions, newCorrect := ShuffleOptions(q, picks);
      var newBank := bank[k := q.(correct := newCorrect)];
      assert forall i :: 0 <= i < |newBank| ==>
        newBank[i].text == bank[i].text && newBank[i].options == bank[i].options
        && 0 <= newBank[i].correct < |newBank[i].options|;
      bank := newBank;
      fruitsInGame := LaidOut(shuffledOptions, canvasWidth, canvasHeight);
    }

    /** `endGame`, as far as this model goes: set the flag and post the score. */
    method EndGame()
      requires Valid()
      modifies this
      ensures Valid()
      ensures isGameOver && submittedScores == old(submittedScores) + [old(score)]
      ensures score == old(score) && bank == old(bank) && current == old(current)
      ensures fruitsInGame == old(fruitsInGame) && pendingRespawns == old(pendingRespawns)
    {
      isGameOver := true;
      submittedScores := submittedScores + [score];
    }

    /**
     * `handleSlice(x, y)`: unless the game is over, slice the first unsliced fruit under the
     * point; the correct one scores 10 and sets a respawn timer, any other ends the game.
     */
    method HandleSlice(x: real, y: real)
      requires Valid()
      modifies this
      ensures Valid()
      ensures bank == old(bank) && current == old(current)
      ensures |fruitsInGame| == |old(fruitsInGame)|
      ensures score >= old(score)
      ensures old(isGameOver) || FirstHit(old(fruitsInGame), x, y, 0).None? ==>
        && fruitsInGame == old(fruitsInGame) && score == old(score) && isGameOver == old(isGameOver)
        && pendingRespawns == old(pendingRespawns) && submittedScores == old(submittedScores)
      ensures !old(isGameOver) && FirstHit(old(fruitsInGame), x, y, 0).Some? ==>
        var i := FirstHit(old(fruitsInGame), x, y, 0).value;
        && current.Some?
        && fruitsInGame == old(fruitsInGame)[i := old(fruitsInGame)[i].(isSliced := true)]
        && (i == old(CorrectIndex()) ==>
              score == old(score) + PointsPerCorrect && !isGameOver
              && pendingRespawns == old(pendingRespawns) + 1 && submittedScores == old(submittedScores))
        && (i != old(CorrectIndex()) ==>
              score == old(score) && isGameOver
              && pendingRespawns == old(pendingRespawns) && submittedScores == old(submittedScores) + [score])
    {
      if isGameOver {
        return;
      }
      var i := 0;
      while i < |fruitsInGame|
        invariant 0 <= i <= |fruitsInGame|
        invariant FirstHit(fruitsInGame, x, y, 0) == FirstHit(fruitsInGame, x, y, i)
        invariant fruitsInGame == old(fruitsInGame) && score == old(score) && !isGameOver
        invariant bank == old(bank) && current == old(current)
        invariant pendingRespawns == old(pendingRespawns) && submittedScores == old(submittedScores)
      {
        var fruit := fruitsInGame[i];
        if !fruit.isSliced && Collides(x, y, fruit) {
          fruitsInGame := fruitsInGame[i := fruit.(isSliced := true)];
          if i == bank[current.value].correct {
            score := score + PointsPerCorrect;
            pendingRespawns := pendingRespawns + 1;
          } else {
            EndGame();
          }
          // `handleSlice` breaks out of the loop here, which ends the handler
          return;
        }
        i := i + 1;
      }
    }

    /** The respawn timer fires: spawn item `k` unless the game is over by then. */
    method Respawn(k: nat, picks: seq<nat>)
      requires Valid() && pendingRespawns > 0
      requires k < |bank| && ValidPicks(picks, |bank[k].options|)
      modifies this
      ensures Valid()
      ensures pendingRespawns == old(pendingRespawns) - 1
      ensures score == old(score) && isGameOver == old(isGameOver) && submittedScores == old(submittedScores)
      ensures old(isGameOver) ==>
        bank == old(bank) && current == old(current) && fruitsInGame == old(fruitsInGame)
      ensures !old(isGameOver) ==>
        && current == Some(k)
        && bank == old(bank)[k := Remap(old(bank)[k], picks)]
        && fruitsInGame == LaidOut(Shuffled(old(bank)[k].options, picks), canvasWidth, canvasHeight)
    {
      pendingRespawns := pendingRespawns - 1;
      if !isGameOver {
        SpawnFruits(k, picks);
      }
    }
  }

  /**
   * After a spawn of a bank item (whose options are those of `Bank`), the stored index names a
   * fruit showing the option that the item's index named before the spawn, and no other fruit
   * shows that option, so exactly one fruit scores.
   */
  lemma OneCorrectFruit(bank: seq<Question>, k: nat, picks: seq<nat>, width: nat, height: nat)
    requires k < |bank| && |bank| == |Bank| && bank[k].options == Bank[k].options
    requires 0 <= bank[k].correct < |bank[k].options| && ValidPicks(picks, |bank[k].options|)
    ensures var fruits := LaidOut(Shuffled(bank[k].options, picks), width, height);
      var c := Remap(bank[k], picks).correct;
      && 0 <= c < |fruits|
      && fruits[c].option == bank[k].options[bank[k].correct]
      && forall j :: 0 <= j < |fruits| && fruits[j].option == fruits[c].option ==> j == c
  {
    BankWellFormed();
    assert WellFormed(Bank[k]);
  }
}
