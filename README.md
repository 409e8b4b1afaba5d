# Fruit-cutter quiz, modelled in Dafny

The repository holds a quiz game in which the player answers each question by slicing the fruit
that carries the right option. It has three parts, and the model follows each one:

- **The canvas game** (`src/Game.js`, file `slice_game.dfy`, module `SliceGame`).
  A `Game` object draws a random item from the question bank, shuffles a copy of its options
  with Fisher–Yates and works out where the answer went using `indexOf`. It **writes that index
  back into the shared bank item**, then lays out one fruit per option. A click slices the first
  unsliced fruit under the pointer. If that fruit is the correct one, the player scores 10 and a
  timer later spawns the next round. Any other fruit ends the game.
- **The question bank** (`src/questions.js`, file `questions.dfy`, module `Questions`). These are
  the five items, copied verbatim.
- **The server** (`server.js`, file `server.dfy`, module `Server`).
  - `/api/login` finds or creates a user by the lower-cased name and college.
  - `/api/score` appends a score to a user, failing with 400 or 404.
  - `/api/leaderboard` runs the aggregation pipeline. It is modelled as a pure function of the
    collection.
- **The browser quiz** (`static/game.js`, file `quiz_client.dfy`, module `QuizClient`).
  - Registration trims the two fields and refuses a blank one.
  - `startGame` loads the question pool.
  - `displayNextQuestion` draws a question and removes it from the pool.
  - A click on a fruit whose option equals the question's `correct` value scores 10. Once the
    fruit's animation completes, the next question is shown.

Shared pieces: `wrappers.dfy` (`Option`), `seqs.dfy` (`Distinct`), `ascii.dfy` (ASCII letter case).

Randomness, timers and animation callbacks are explicit in the model:
- **Shuffle.** `picks[i] <= i` is the partner the shuffle swaps with position `i`.
- **Random draw.** The drawn question is an index `k`.
- **Respawn timer.** `setTimeout` in `handleSlice` becomes a pending counter plus the step
  `Game.Respawn`.
- **Animation callback.** The gsap `onComplete` of a correct click becomes a pending counter plus
  the step `QuizPage.Advance`.

The database is a map from ids to users. A counter stands in for the generated `_id`.
Canvas coordinates are `real`.

The model keeps these behaviours of the code as they are:
- `start()` does not cancel respawn timers that are still pending, so `Respawn` can fire into a new game.
- The canvas game draws its question with replacement, so an item can come up again.
- The page never resets `currentScore`.
- The page fetches `/api/questions` and posts to `/api/register`, and `server.js` defines neither
  route. Each side is modelled on its own terms.

## Model

| member | source | states |
|---|---|---|
| Questions.BankSize | src/questions.js:1-52 | the bank has five items, so `Math.floor(Math.random() * questions.length)` always names one |
| Questions.BankFourOptions | src/questions.js:1-52 | every item has exactly four options |
| Questions.BankCorrectIndices | src/questions.js:1-52 | the stored correct indices are 0, 0, 2, 3, 0 |
| Questions.BankWellFormed | src/questions.js:1-52 | every correct index lies within its options and every item's options are distinct |
| SliceGame.Swap | src/Game.js:145 | the destructuring swap exchanges positions `i` and `j` and leaves every other position alone |
| SliceGame.StepsPermutes | src/Game.js:143-146 | any number of loop steps only reorders the contents (same multiset) |
| SliceGame.Steps | src/Game.js:143-146 | the contents after the loop's steps `i` down to 1, each swapping position `i` with its partner `picks[i]`; the length is kept |
| SliceGame.Shuffled | src/Game.js:142-148 | the shuffle keeps the length and the multiset of values; arrays of length 0 or 1 are unchanged |
| SliceGame.ShuffleArray | src/Game.js:142-148 | the in-place loop from `length - 1` down to 1 leaves the array holding `Shuffled` of its old contents |
| SliceGame.ShuffledDistinct | src/Game.js:142-148 | shuffling distinct options keeps them distinct |
| SliceGame.OneSwapPicks | src/Game.js:142-148 | with partners 0, 1, 2, 0 the shuffle of four values only exchanges the first and the last |
| SliceGame.CopyToArray | src/Game.js:112 | the spread copy is a fresh array with the same contents |
| SliceGame.IndexOf | src/Game.js:117 | `indexOf` is -1 exactly when the value is absent; otherwise it is the first position holding it |
| SliceGame.Remap | src/Game.js:111-117 | the recomputed index is in range and the shuffled options hold the remembered answer there; with distinct options it is the only such position |
| SliceGame.ShuffleOptions | src/Game.js:112-117 | copying, shuffling in place and `indexOf` together give `Shuffled` of the options and the `Remap` index |
| SliceGame.FruitX | src/Game.js:130-136 | fruit `index` of `n` sits at `width / 2 - (n - 1) * 320 / 2 + index * 320` |
| SliceGame.FruitY | src/Game.js:133-137 | every fruit sits at `height / 2 - 80` |
| SliceGame.FruitRowCentred | src/Game.js:130-137 | consecutive fruits are 320 pixels apart and the row is centred: fruit `index` and its mirror `n - 1 - index` average to the canvas middle |
| SliceGame.LaidOut | src/Game.js:120-138 | one unsliced fruit per shuffled option, fruit `k` carrying option `k` and index `k` |
| SliceGame.LaidOutDisjoint | src/Game.js:129-138 | laid-out fruits sit 320 pixels apart and are 80 wide, so no point collides with two of them |
| SliceGame.Collides | src/Game.js:150-155 | `checkCollision`: the point lies in the fruit's 80-pixel square, edges included |
| SliceGame.FirstHit | src/Game.js:160-162 | the lowest-indexed unsliced fruit under the point, or none exactly when no unsliced fruit is under it |
| SliceGame.FixedRound | src/Game.js:111-117 | corrected spawn: the round's options are a permutation of the item's, and exactly one position holds the item's own answer |
| SliceGame.FixedRoundsKeepAnswer | src/Game.js:111-117 | corrected spawn: every draw of an item, however many there are, rewards that item's own answer |
| SliceGame.FirstDrawStoresThree | src/Game.js:112-117 | a first draw with partners 0, 1, 2, 0 writes index 3 into an item whose answer was at 0 |
| SliceGame.RepeatedDrawRewardsWrongOption | src/Game.js:104-117 | as written: the second draw of such an item rewards the option that sat at 3, which is not the item's answer |
| SliceGame.FirstItemRepeatedDraw | src/Game.js:104-117 | as written: drawing "What does BIS stand for?" twice rewards "Board of Industry Standards" |
| SliceGame.Game.constructor | src/Game.js:5-11 | score 0, not over, no current question, no fruits, the bank as imported |
| SliceGame.Game.Start | src/Game.js:84-97 | score reset to 0, the game-over flag cleared, then the state `SpawnFruits` gives |
| SliceGame.Game.SpawnFruits | src/Game.js:103-139 | item `k` becomes current, its stored index is replaced by the `Remap` index and the fruits are `LaidOut` of the shuffled options; nothing else changes |
| SliceGame.Game.EndGame | src/Game.js:184-201 | the flag is set and the score is posted; nothing else changes |
| SliceGame.Game.HandleSlice | src/Game.js:157-182 | after game over, or on a miss, nothing changes; otherwise the `FirstHit` fruit is sliced. At the stored index the player gains 10 and a respawn is pending. Anywhere else the game ends and the score is posted |
| SliceGame.Game.Respawn | src/Game.js:171-175 | a pending timer fires: the state `SpawnFruits` gives unless the game is over, in which case nothing but the counter changes |
| SliceGame.OneCorrectFruit | src/Game.js:103-127 | after a spawn, the fruit at the stored index shows the option the old index named, and no other fruit shows it |
| Ascii.LowerChar | server.js:63-64 | an upper-case ASCII letter moves 32 code points up to its lower-case form; every other character is kept; the result is never upper-case |
| Ascii.UpperChar | server.js:136 | a lower-case ASCII letter moves 32 code points down to its upper-case form; every other character is kept; the result is never lower-case |
| Ascii.Lower | server.js:63-64 | `toLowerCase` on ASCII letters: same length, each letter mapped, other characters kept |
| Ascii.Upper | server.js:136 | `$toUpper` on ASCII letters: same length, each letter mapped, other characters kept |
| Ascii.LowerIdempotent | server.js:63-71 | lower-casing a stored name again changes nothing |
| Ascii.LowerIgnoresCase | server.js:63-64 | names that differ only in ASCII letter case (each character equal, or the other case of the same letter, 32 code points apart) lower-case to the same string |
| Server.FindUser | server.js:62-65 | `findOne` returns the earliest id whose stored pair matches, or none exactly when no id does |
| Server.LoginStep | server.js:53-87 | 400 exactly when a field is missing or empty, with the store unchanged. Otherwise the reply names a user stored under the lower-cased pair. A new user is added with no scores only when no user has that pair |
| Server.FindUserFrame | server.js:62-65 | the lookup depends only on the users below its bound |
| Server.LoginPreservesValid | server.js:53-87 | login keeps ids below the counter, stored names lower-case, and at most one user per pair |
| Server.LoginIdempotent | server.js:53-87 | logging in again with the same pair, in any letter case, gives the same reply (the same user) and the same store |
| Server.ScoreStep | server.js:89-111 | 400 exactly when the id is falsy or the score undefined; 404 exactly when the id is unknown; the store is unchanged on either error. On success one entry is appended to that user only |
| Server.ScorePreservesValid | server.js:89-111 | recording a score keeps the store's invariant |
| Server.UserStore.constructor | server.js:50 | an empty collection |
| Server.UserStore.Login | server.js:53-87 | the handler's reply and new store are those of `LoginStep`, and the invariant is kept |
| Server.UserStore.RecordScore | server.js:89-111 | the handler's reply and new store are those of `ScoreStep`, and the invariant is kept |
| Server.Max | server.js:125 | `$max` is one of the scores and no score exceeds it |
| Server.BestOf | server.js:120-126 | the `$group` row of one user: its id, stored name and college (`$first`), and `Max` of its scores |
| Server.Grouped | server.js:116-127 | `$unwind` + `$group`: one row per user with at least one score, carrying its stored name, college and best score; every such user appears once, in id order |
| Server.Insert | server.js:129 | inserting into a list sorted by score descending keeps it sorted and adds exactly that row |
| Server.SortByScore | server.js:129 | `$sort: {score: -1}` returns a permutation of its input sorted by score descending |
| Server.TopRows | server.js:131 | `$limit: 5` keeps a prefix of at most five rows, all of them when there are no more than five |
| Server.Ranked | server.js:129-131 | the rows of `$group`, sorted by `SortByScore` and cut by `TopRows` |
| Server.Project | server.js:133-140 | `$project` of each row, in order: the upper-cased name, the college and the score, without the id |
| Server.TopOfSorted | server.js:129-131 | after sort and limit every row comes from the input, rows are sorted, and none appears twice |
| Server.TopCoversRest | server.js:129-131 | a row of the input is kept, or five rows are kept and it scores no more than the fifth |
| Server.ProjectSound | server.js:133-140 | `$project` keeps the order and turns every row into the upper-cased name, college and best score of some user |
| Server.Leaderboard | server.js:114-143 | at most five entries, sorted by score descending, each the upper-cased name, college and best score of a user with scores |
| Server.RankedRowsSound | server.js:116-131 | the ranked rows are at most five and sorted; each is a distinct user's best score |
| Server.RankedCoversRest | server.js:116-131 | every user with scores is listed, or five rows are listed and its best is no better than the fifth |
| Server.RankedIsTopRanking | server.js:116-131 | the ranked rows form a correct top-five ranking of the users |
| Server.LeaderboardIsTopFive | server.js:114-143 | on a valid store the response is the projection of a correct top-five ranking |
| Server.TwoPlayerExample | server.js:114-143 | A with scores 10 and 20 and B with 15 give `[A, x, 20]` then `[B, y, 15]` |
| QuizClient.TrimStart | static/game.js:2-3 | drops exactly the leading white space of `trim` |
| QuizClient.TrimEnd | static/game.js:2-3 | drops exactly the trailing white space of `trim` |
| QuizClient.Trim | static/game.js:2-3 | `trim` is `TrimEnd` after `TrimStart` |
| QuizClient.TrimFacts | static/game.js:2-3 | `trim` gives a slice of the input with only white space cut on either side, neither end white space, and empty exactly when the input is blank |
| QuizClient.TrimIdempotent | static/game.js:2-3 | trimming twice is trimming once |
| QuizClient.Registration | static/game.js:1-20 | the alert (no request) exactly when either field is blank; otherwise the request carries both trimmed, non-empty fields |
| QuizClient.RemoveAt | static/game.js:82 | `splice(k, 1)` drops exactly the element at `k`, keeping the others in order |
| QuizClient.DrawnIsGone | static/game.js:80-82 | a drawn question that occurred once is no longer in the pool |
| QuizClient.DrawKeepsPool | static/game.js:80-82 | moving the drawn question from the pool to the drawn list keeps their union |
| QuizClient.QuizPage.constructor | static/game.js:52-61 | before `startGame`: empty pool, no question, score 0, no fruits |
| QuizClient.QuizPage.EndGame | static/game.js:179-190 | the current score is posted; nothing else changes |
| QuizClient.QuizPage.DisplayNextQuestion | static/game.js:74-126 | on an empty pool, end the game. Otherwise question `k` becomes current and leaves the pool, the fruits are cleared, and then either one fruit per option is shown or, for an item without an options array, the game ends |
| QuizClient.QuizPage.StartGame | static/game.js:52-72 | a failed fetch changes nothing; a non-array or empty body leaves an empty pool and shows nothing; otherwise its pool is loaded and the first question drawn |
| QuizClient.QuizPage.HandleFruitClick | static/game.js:128-177 | an option equal to `correct` adds 10 and starts the animation to the next question; any other option changes nothing |
| QuizClient.QuizPage.Advance | static/game.js:158-167 | a completed animation shows the next question as `DisplayNextQuestion` does |
| QuizClient.DrawnFromLoaded | static/game.js:74-82 | no question is drawn more often than it occurs in the loaded pool |

## Left out

- Drawing, particles, music and the animation loop (`animate`, `createFruitSliceEffect`, the gsap tweens). They do not affect the game state.
- SliceGame.Game.SpawnFruits: the model fixes the canvas size for the whole life of a `Game`. The source re-reads `canvas.width` and `canvas.height` at every spawn (src/Game.js:132-137), and `resizeCanvas` rewrites them at construction and on every window resize (src/Game.js:27-28, 78-82), so a resize moves later rounds' fruits and changes which clicks hit them. Resizing is not modelled.
- SliceGame.Game.Start: the model assumes the fruit images are loaded. When none has loaded yet, `start` first awaits `loadFruitImages` (src/Game.js:91-93), which rejects if an image fails to load (src/Game.js:44-47). Then the reset has happened but `spawnFruits` never runs: score 0, not over, and the previous question and fruits still live. That path is not modelled.
- `getRandomQuestion`, `Math.random` in `shuffleArray`, and the random index in `displayNextQuestion`. They are the parameters `k` and `picks`, which callers choose.
- The timers of `setTimeout` and gsap `onComplete`. They become the steps `Game.Respawn` and `QuizPage.Advance`, and nothing says when those fire.
- The shuffle of fruit images in `spawnFruits`. It only affects pictures.
- SliceGame.Game.EndGame and QuizClient.QuizPage.EndGame: the network requests, the leaderboard rendering and `localStorage` are left out. Posting the score is recorded as an appended entry of `submittedScores`.
- Server: MongoDB I/O and every 500 path (a database failure, or an id that is not a valid ObjectId). Neither is modelled.
- Server.ScoreStep: the JSON `score` is an integer or absent. `null` and non-numeric values, which the schema would cast or reject, are not modelled. A falsy `userId` (missing, `""`, `null`) is `None`.
- Server.UserStore.Login: each request is modelled as atomic. The handler awaits between `findOne` (server.js:62) and `save` (server.js:74), and the schema (server.js:32-48) has no unique index, so two overlapping logins of a new pair can both insert a user. The invariant of at most one user per pair holds only for requests that run one at a time. `findOne` with several matches is modelled as returning the earliest id.
- Ascii.Lower: case mapping is ASCII only, where `toLowerCase` (server.js:63-64, 70-71) maps the whole of Unicode. `Ascii.Upper` matches `$toUpper`, which MongoDB defines for ASCII strings only.
- Server.Leaderboard: the order among equal best scores is unspecified in the pipeline. The model takes id order followed by a stable sort.
- Score timestamps (`Date.now`), the `/leaderboard` page route and static file serving.
- QuizClient.QuizPage.constructor: `static/game.js` never declares its globals `questions`, `currentQuestion`, `currentScore`, `userId`, `fruits` and `mouseTrail`. The page that declares them is not part of this model. The model starts with an empty pool, no question and a score of 0.
- `src/Fruit.js`, `main.js`, `script.js` and `vite.config.js` are not part of this model.
- `FRUIT_SIZE` of `src/constants.js` is taken as the constant 80.
- QuizClient.QuizPage.HandleFruitClick: options are modelled as strings. `setAttribute` (static/game.js:114) turns any other option value into a string, so a numeric option could equal a string `correct` on click. Non-string options are not modelled. The model also assumes that `mouseTrail` is an array and that `fruits` has an entry for every fruit position. Otherwise a correct click with two trail points throws at `fruits[fruitIndex].shadow` (static/game.js:155), after the +10 (line 138) and before the animation that schedules the next question (lines 158-167), so no advance follows and the fruit stays clickable for another +10. Likewise line 104 throws on an empty `fruits`.

## Findings

| source | as written | input that shows it | evidently intended | confidence | as-written member | corrected member |
|---|---|---|---|---|---|---|
| src/Game.js:104-117 | `spawnFruits` writes the shuffled index of the answer into the shared bank item's `correct`, but leaves the item's `options` in their original order, so a later draw of the same item can read the wrong option as the answer (whenever the earlier draw moved the answer off its stored index) | draw "What does BIS stand for?" (answer at 0) with shuffle partners 0, 1, 2, 0: it stores 3; draw it again with the same partners and the scoring fruit shows "Board of Industry Standards" | each round keeps its own index and every draw rewards the item's real answer | high (by proof; not executed) | SliceGame.RepeatedDrawRewardsWrongOption, SliceGame.FirstItemRepeatedDraw | SliceGame.FixedRound, SliceGame.FixedRoundsKeepAnswer |

`Game.SpawnFruits` models the write-back as written, because that is what the program does. `FixedRound` is the corrected definition of a round.
