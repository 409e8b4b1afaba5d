/**
 * The browser quiz of static/game.js: registration refuses blank fields, `startGame` loads a
 * pool of questions, `displayNextQuestion` draws one at random and removes it from the pool,
 * and a click on a fruit whose option equals the question's `correct` value scores 10 and,
 * once its animation completes, shows the next question; any other click changes nothing.
 *
 * The random draw is an explicit index `k`, and the animation's completion callback is the
 * explicit step `Advance`.
 */
module QuizClient {
  import opened Wrappers

  // ---------------------------------------------------------------------------
  // Registration

  /** The white space and line terminators that `String.prototype.trim` removes. */
  predicate IsSpace(c: char) {
    || 9 <= c as int <= 13 || c == ' ' || c as int == 0xA0 || c as int == 0x1680
    || 0x2000 <= c as int <= 0x200A || c as int == 0x2028 || c as int == 0x2029
    || c as int == 0x202F || c as int == 0x205F || c as int == 0x3000 || c as int == 0xFEFF
  }

  predicate Blank(s: string) {
    forall k :: 0 <= k < |s| ==> IsSpace(s[k])
  }

  function TrimStart(s: string): (r: string)
    ensures |r| <= |s| && r == s[|s| - |r|..]
    ensures r == [] || !IsSpace(r[0])
    ensures forall k :: 0 <= k < |s| - |r| ==> IsSpace(s[k])
  {
    if s != [] && IsSpace(s[0]) then TrimStart(s[1..]) else s
  }

  function TrimEnd(s: string): (r: string)
    ensures |r| <= |s| && r == s[..|r|]
    ensures r == [] || !IsSpace(r[|r| - 1])
    ensures forall k :: |r| <= k < |s| ==> IsSpace(s[k])
  {
    if s != [] && IsSpace(s[|s| - 1]) then TrimEnd(s[..|s| - 1]) else s
  }

  /** `s.trim()` */
  function Trim(s: string): string {
    TrimEnd(TrimStart(s))
  }

  /** Trimming leaves a slice of the input that neither starts nor ends with white space, and it is empty exactly when the input is blank. */
  lemma TrimFacts(s: string)
    ensures exists a, b :: 0 <= a <= b <= |s| && Trim(s) == s[a..b] && Blank(s[..a]) && Blank(s[b..])
    ensures Trim(s) == [] || (!IsSpace(Trim(s)[0]) && !IsSpace(Trim(s)[|Trim(s)| - 1]))
    ensures Trim(s) == [] <==> Blank(s)
  {
    var t := TrimStart(s);
    var a := |s| - |t|;
    var b := a + |TrimEnd(t)|;
    TrimSlice(s, t, a, b);
    TrimEdges(s, t);
    TrimEmptyIffBlank(s, t, a);
  }

  lemma TrimEdges(s: string, t: string)
    requires t == TrimStart(s)
    ensures Trim(s) == [] || (!IsSpace(Trim(s)[0]) && !IsSpace(Trim(s)[|Trim(s)| - 1]))
  {
    var r := TrimEnd(t);
    assert r != [] ==> r[0] == t[0];
  }

  lemma TrimSlice(s: string, t: string, a: nat, b: nat)
    requires t == TrimStart(s) && a == |s| - |t| && b == a + |TrimEnd(t)|
    ensures a <= b <= |s| && Trim(s) == s[a..b] && Blank(s[..a]) && Blank(s[b..])
  {
    assert t == s[a..];
    assert TrimEnd(t) == t[..b - a];
    SliceOfSlice(s, a, b);
    TrimmedEnds(s, t, a, b);
  }

  lemma SliceOfSlice<T>(s: seq<T>, a: nat, b: nat)
    requires a <= b <= |s|
    ensures s[a..][..b - a] == s[a..b]
  {
  }

  lemma TrimmedEnds(s: string, t: string, a: nat, b: nat)
    requires a <= b <= |s| && t == s[a..] && |TrimEnd(t)| == b - a
    requires forall k :: 0 <= k < a ==> IsSpace(s[k])
    ensures Blank(s[..a]) && Blank(s[b..])
  {
    forall k | 0 <= k < a
      ensures IsSpace(s[..a][k])
    {
      assert s[..a][k] == s[k];
    }
    forall k | 0 <= k < |s| - b
      ensures IsSpace(s[b..][k])
    {
      assert s[b..][k] == t[k + b - a];
    }
  }

  lemma TrimEmptyIffBlank(s: string, t: string, a: nat)
    requires t == TrimStart(s) && a == |s| - |t|
    ensures Trim(s) == [] <==> Blank(s)
  {
    assert t != [] ==> !IsSpace(t[0]) && s[a] == t[0];
    assert t != [] ==> TrimEnd(t) != [];
  }

  /** Trimming twice is trimming once. */
  lemma TrimIdempotent(s: string)
    ensures Trim(Trim(s)) == Trim(s)
  {
    TrimFacts(s);
  }

  datatype RegisterRequest = RegisterRequest(name: string, college: string)

  /**
   * The start button's check: `None` is the alert that asks for both fields, before any
   * request; otherwise the body posted to `/api/register` carries the trimmed fields.
   */
  function Registration(name: string, college: string): (r: Option<RegisterRequest>)
    ensures r.None? <==> Blank(name) || Blank(college)
    ensures r.Some? ==> r.value.name == Trim(name) && r.value.college == Trim(college)
    ensures r.Some? ==> r.value.name != [] && r.value.college != []
  {
    TrimFacts(name);
    TrimFacts(college);
    var n, c := Trim(name), Trim(college);
    if n == [] || c == [] then None else Some(RegisterRequest(n, c))
  }

  // ---------------------------------------------------------------------------
  // The question pool

  /** A question's `correct` field as the JSON value it is: only a string can equal a `data-option`. */
  datatype Answer = Text(text: string) | NotText

  /**
   * An element of the questions array: either not an object with an `options` field at all
   * (`null`, a number, ...), or an object whose `options` may be missing or not an array.
   */
  datatype Item =
    | NotAQuestion
    | QuestionItem(question: string, options: Option<seq<string>>, correct: Answer)

  /** A question `displayNextQuestion` renders rather than ending the game. */
  predicate Renderable(item: Item) {
    item.QuestionItem? && item.options.Some?
  }

  /** The `/api/questions` response: a failed or non-ok fetch, or a JSON body that may not be an array. */
  datatype QuestionsResponse = FetchFailed | Received(body: Option<seq<Item>>)

  /** `questions.splice(k, 1)`: drop the element at `k`, keeping the others in order. */
  function RemoveAt<T>(s: seq<T>, k: nat): (r: seq<T>)
    requires k < |s|
    ensures |r| == |s| - 1
    ensures forall i :: 0 <= i < k ==> r[i] == s[i]
    ensures forall i :: k <= i < |r| ==> r[i] == s[i + 1]
    ensures multiset(r) + multiset{s[k]} == multiset(s)
  {
    assert s == s[..k] + [s[k]] + s[k + 1..];
    s[..k] + s[k + 1..]
  }

  /** A drawn element that occurred once in the pool is gone from it, so it cannot be drawn again. */
  lemma DrawnIsGone<T>(s: seq<T>, k: nat)
    requires k < |s| && multiset(s)[s[k]] == 1
    ensures s[k] !in RemoveAt(s, k)
  {
    var r := RemoveAt(s, k);
    assert multiset(r)[s[k]] == 0;
  }

  /** Moving the element at `k` from the pool to the drawn list keeps their union. */
  lemma DrawKeepsPool<T>(pool: seq<T>, drawn: seq<T>, k: nat)
    requires k < |pool|
    ensures multiset(RemoveAt(pool, k)) + multiset(drawn + [pool[k]]) == multiset(pool) + multiset(drawn)
  {
    assert multiset(drawn + [pool[k]]) == multiset(drawn) + multiset{pool[k]};
  }

  const PointsPerCorrect: int := 10

  class QuizPage {
    /** The module-level `questions`: the questions not yet drawn. */
    var questions: seq<Item>
    var currentQuestion: Option<Item>
    var currentScore: int
    /** The `data-option` of each fruit element on screen. */
    var shownOptions: seq<string>
    /** Animations of correct clicks whose completion (and next question) is still to come. */
    var pendingAdvances: nat
    /** Scores that `endGame` has posted, oldest first. */
    var submittedScores: seq<int>
    /** The pool as `startGame` loaded it, and the questions drawn from it since. */
    ghost var loaded: seq<Item>
    ghost var drawn: seq<Item>

    ghost predicate Valid()
      reads this
    {
      && (shownOptions != [] ==>
            currentQuestion.Some? && Renderable(currentQuestion.value)
            && currentQuestion.value.options.value == shownOptions)
      && currentScore >= 0 && currentScore % PointsPerCorrect == 0
      && multiset(questions) + multiset(drawn) == multiset(loaded)
    }

    constructor ()
      ensures Valid()
      ensures questions == [] && currentQuestion == None && currentScore == 0 && shownOptions == []
      ensures pendingAdvances == 0 && submittedScores == []
    {
      questions, currentQuestion, currentScore, shownOptions := [], None, 0, [];
      pendingAdvances, submittedScores := 0, [];
      loaded, drawn := [], [];
    }

    /** `endGame`, as far as this model goes: post the current score. */
    method EndGame()
      requires Valid()
      modifies this
      ensures Valid()
      ensures submittedScores == old(submittedScores) + [currentScore]
      ensures questions == old(questions) && currentQuestion == old(currentQuestion)
      ensures currentScore == old(currentScore) && shownOptions == old(shownOptions)
      ensures pendingAdvances == old(pendingAdvances)
      ensures loaded == old(loaded) && drawn == old(drawn)
    {
      submittedScores := submittedScores + [currentScore];
    }

    /**
     * `displayNextQuestion`: on an empty pool end the game; otherwise draw and remove the
     * question at `k`, clear the fruits, and either end the game (a question without an options
     * array) or show one fruit per option.
     */
    method DisplayNextQuestion(k: nat)
      requires Valid() && (questions != [] ==> k < |questions|)
      modifies this
      ensures Valid()
      ensures currentScore == old(currentScore) && pendingAdvances == old(pendingAdvances)
      ensures loaded == old(loaded)
      ensures old(questions) == [] ==>
        && questions == [] && currentQuestion == old(currentQuestion) && shownOptions == old(shownOptions)
        && drawn == old(drawn) && submittedScores == old(submittedScores) + [currentScore]
      ensures old(questions) != [] ==>
        var item := old(questions)[k];
        && currentQuestion == Some(item)
        && questions == RemoveAt(old(questions), k)
        && drawn == old(drawn) + [item]
        && (Renderable(item) ==>
              shownOptions == item.options.value && submittedScores == old(submittedScores))
        && (!Renderable(item) ==>
              shownOptions == [] && submittedScores == old(submittedScores) + [currentScore])
    {
      if |questions| == 0 {
        EndGame();
        return;
      }
      var item := questions[k];
      var rest := RemoveAt(questions, k);
      DrawKeepsPool(questions, drawn, k);
      questions, currentQuestion, drawn, shownOptions := rest, Some(item), drawn + [item], [];
      if !Renderable(item) {
        EndGame();
        return;
      }
      shownOptions := item.options.value;
    }

    /**
     * `startGame` once the fetch has settled: a failed fetch changes nothing; otherwise the
     * pool becomes the body if it is an array and empty if not, and only a non-empty pool
     * goes on to `displayNextQuestion`.
     */
    method StartGame(response: QuestionsResponse, k: nat)
      requires Valid()
      requires response.Received? && response.body.Some? && response.body.value != [] ==> k < |response.body.value|
      modifies this
      ensures Valid()
      ensures currentScore == old(currentScore) && pendingAdvances == old(pendingAdvances)
      ensures response.FetchFailed? ==>
        && questions == old(questions) && currentQuestion == old(currentQuestion)
        && shownOptions == old(shownOptions) && submittedScores == old(submittedScores)
        && loaded == old(loaded) && drawn == old(drawn)
      ensures response.Received? && (response.body.None? || response.body.value == []) ==>
        && questions == [] && currentQuestion == old(currentQuestion)
        && shownOptions == old(shownOptions) && submittedScores == old(submittedScores)
        && loaded == [] && drawn == []
      ensures response.Received? && response.body.Some? && response.body.value != [] ==>
        var pool := response.body.value;
        && currentQuestion == Some(pool[k]) && questions == RemoveAt(pool, k)
        && loaded == pool && drawn == [pool[k]]
        && (Renderable(pool[k]) ==> shownOptions == pool[k].options.value && submittedScores == old(submittedScores))
        && (!Renderable(pool[k]) ==> shownOptions == [] && submittedScores == old(submittedScores) + [currentScore])
    {
      if response.FetchFailed? {
        return;
      }
      questions := if response.body.Some? then response.body.value else [];
      loaded, drawn := questions, [];
      if |questions| == 0 {
        return;
      }
      DisplayNextQuestion(k);
    }

    /**
     * `handleFruitClick` on fruit `i`: an option equal to the question's `correct` value adds 10
     * and starts the animation that leads to the next question; any other option changes nothing.
     */
    method HandleFruitClick(i: nat)
      requires Valid() && i < |shownOptions|
      modifies this
      ensures Valid()
      ensures questions == old(questions) && currentQuestion == old(currentQuestion)
      ensures shownOptions == old(shownOptions) && submittedScores == old(submittedScores)
      ensures loaded == old(loaded) && drawn == old(drawn)
      ensures old(currentQuestion).value.correct == Text(old(shownOptions)[i]) ==>
        currentScore == old(currentScore) + PointsPerCorrect && pendingAdvances == old(pendingAdvances) + 1
      ensures old(currentQuestion).value.correct != Text(old(shownOptions)[i]) ==>
        currentScore == old(currentScore) && pendingAdvances == old(pendingAdvances)
    {
      var selectedOption := shownOptions[i];
      if currentQuestion.value.correct == Text(selectedOption) {
        currentScore := currentScore + PointsPerCorrect;
        pendingAdvances := pendingAdvances + 1;
      }
    }

    /** The animation of a correct click completes: show the next question, drawing `k`. */
    method Advance(k: nat)
      requires Valid() && pendingAdvances > 0 && (questions != [] ==> k < |questions|)
      modifies this
      ensures Valid()
      ensures pendingAdvances == old(pendingAdvances) - 1 && currentScore == old(currentScore)
      ensures loaded == old(loaded)
      ensures old(questions) == [] ==>
        && questions == [] && currentQuestion == old(currentQuestion) && shownOptions == old(shownOptions)
        && drawn == old(drawn) && submittedScores == old(submittedScores) + [currentScore]
      ensures old(questions) != [] ==>
        var item := old(questions)[k];
        && currentQuestion == Some(item) && questions == RemoveAt(old(questions), k)
        && drawn == old(drawn) + [item]
        && (Renderable(item) ==> shownOptions == item.options.value && submittedScores == old(submittedScores))
        && (!Renderable(item) ==> shownOptions == [] && submittedScores == old(submittedScores) + [currentScore])
    {
      pendingAdvances := pendingAdvances - 1;
      DisplayNextQuestion(k);
    }
  }

  /** No question is drawn more often than it occurs in the loaded pool. */
  lemma DrawnFromLoaded(pool: seq<Item>, drawn: seq<Item>, loaded: seq<Item>)
    requires multiset(pool) + multiset(drawn) == multiset(loaded)
    ensures forall item :: item in drawn ==> multiset(drawn)[item] <= multiset(loaded)[item]
    ensures |pool| + |drawn| == |loaded|
  {
    assert |multiset(pool) + multiset(drawn)| == |multiset(loaded)|;
  }
}
