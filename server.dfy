/**
 * The player store of server.js: `/api/login` finds or creates a user by the lower-cased
 * (name, college) pair, `/api/score` appends a score to a user's list, and `/api/leaderboard`
 * runs the aggregation unwind, group by best score, sort by score descending, limit 5,
 * project with the name upper-cased.
 *
 * The database is a map from ids to users; ids come from a counter, standing in for the
 * `_id` values the database generates, so a new user's id is larger than every existing id.
 */
module Server {
  import opened Wrappers
  import opened Ascii
  import opened Seqs

  type UserId = nat

  /** A user document; each score is the `score` of one entry of the `scores` array. */
  datatype User = User(studentName: string, collegeName: string, scores: seq<int>)

  /** The collection and the next fresh id. */
  datatype Db = Db(users: map<UserId, User>, nextId: UserId)

  datatype LoginReply =
    | LoginBadRequest                                                  // 400
    | LoggedIn(userId: UserId, studentName: string, collegeName: string)

  datatype ScoreReply = Recorded | ScoreBadRequest | UserNotFound       // 200, 400, 404

  datatype LoginResult = LoginResult(reply: LoginReply, db: Db)
  datatype ScoreResult = ScoreResult(reply: ScoreReply, db: Db)

  /**
   * What the handlers keep true of the collection: ids are below the counter, stored names are
   * lower-case, and no two users share a (name, college) pair.
   */
  ghost predicate ValidDb(db: Db) {
    && (forall id :: id in db.users ==> id < db.nextId)
    && (forall id :: id in db.users ==>
          Lower(db.users[id].studentName) == db.users[id].studentName
          && Lower(db.users[id].collegeName) == db.users[id].collegeName)
    && (forall i, j :: i in db.users && j in db.users && i != j ==>
          db.users[i].studentName != db.users[j].studentName
          || db.users[i].collegeName != db.users[j].collegeName)
  }

  /** A request-body field that is truthy: present and not the empty string. */
  predicate Present(field: Option<string>) {
    field.Some? && field.value != ""
  }

  predicate Matches(users: map<UserId, User>, id: UserId, name: string, college: string) {
    id in users && users[id].studentName == name && users[id].collegeName == college
  }

  // ---------------------------------------------------------------------------
  // /api/login

  /** `User.findOne({studentName, collegeName})` among ids below `bound`: the earliest match. */
  function FindUser(users: map<UserId, User>, name: string, college: string, bound: nat): (r: Option<UserId>)
    ensures r.Some? ==> r.value < bound && Matches(users, r.value, name, college)
    ensures r.Some? ==> forall id: UserId :: id < r.value ==> !Matches(users, id, name, college)
    ensures r.None? <==> forall id: UserId :: id < bound ==> !Matches(users, id, name, college)
  {
    if bound == 0 then None
    else
      match FindUser(users, name, college, bound - 1)
      case Some(id) => Some(id)
      case None => if Matches(users, bound - 1, name, college) then Some(bound - 1) else None
  }

  /** The login handler on a store: reject a missing field, else find or create the user. */
  function LoginStep(db: Db, studentName: Option<string>, collegeName: Option<string>): (r: LoginResult)
    ensures r.reply == LoginBadRequest <==> !Present(studentName) || !Present(collegeName)
    ensures r.reply == LoginBadRequest ==> r.db == db
    ensures r.reply.LoggedIn? ==>
      var id := r.reply.userId;
      && Matches(r.db.users, id, Lower(studentName.value), Lower(collegeName.value))
      && r.reply.studentName == r.db.users[id].studentName
      && r.reply.collegeName == r.db.users[id].collegeName
    ensures r.reply.LoggedIn? && r.db != db ==>
      && r.reply.userId == db.nextId && r.db.nextId == db.nextId + 1
      && r.db.users == db.users[db.nextId := User(Lower(studentName.value), Lower(collegeName.value), [])]
      && forall id: UserId :: id < db.nextId ==> !Matches(db.users, id, Lower(studentName.value), Lower(collegeName.value))
  {
    if !Present(studentName) || !Present(collegeName) then LoginResult(LoginBadRequest, db)
    else
      var name := Lower(studentName.value);
      var college := Lower(collegeName.value);
      match FindUser(db.users, name, college, db.nextId)
      case Some(id) =>
        LoginResult(LoggedIn(id, db.users[id].studentName, db.users[id].collegeName), db)
      case None =>
        var id := db.nextId;
        LoginResult(LoggedIn(id, name, college), Db(db.users[id := User(name, college, [])], id + 1))
  }

  /** FindUser only looks at the users below its bound. */
  lemma {:induction false} FindUserFrame(u1: map<UserId, User>, u2: map<UserId, User>,
                                         name: string, college: string, bound: nat)
    requires forall id: UserId :: id < bound ==> (Matches(u1, id, name, college) <==> Matches(u2, id, name, college))
    ensures FindUser(u1, name, college, bound) == FindUser(u2, name, college, bound)
  {
    if bound > 0 {
      FindUserFrame(u1, u2, name, college, bound - 1);
    }
  }

  /** Login keeps the store's invariant: in particular it never creates a second record for a pair. */
  lemma LoginPreservesValid(db: Db, studentName: Option<string>, collegeName: Option<string>)
    requires ValidDb(db)
    ensures ValidDb(LoginStep(db, studentName, collegeName).db)
  {
    var r := LoginStep(db, studentName, collegeName);
    if r.reply.LoggedIn? && r.db != db {
      var name, college := Lower(studentName.value), Lower(collegeName.value);
      LowerIdempotent(studentName.value);
      LowerIdempotent(collegeName.value);
      var u := r.db.users;
      forall i, j | i in u && j in u && i != j
        ensures u[i].studentName != u[j].studentName || u[i].collegeName != u[j].collegeName
      {
        if i == db.nextId {
          assert !Matches(db.users, j, name, college);
        } else if j == db.nextId {
          assert !Matches(db.users, i, name, college);
        }
      }
    }
  }

  /**
   * Logging in again with the same name and college, in any letter case, returns the same
   * reply (so the same user id) and leaves the store as the first login left it.
   */
  lemma LoginIdempotent(db: Db, name1: Option<string>, college1: Option<string>,
                        name2: Option<string>, college2: Option<string>)
    requires ValidDb(db)
    requires Present(name1) && Present(college1) && Present(name2) && Present(college2)
    requires Lower(name1.value) == Lower(name2.value) && Lower(college1.value) == Lower(college2.value)
    ensures var first := LoginStep(db, name1, college1);
      var second := LoginStep(first.db, name2, college2);
      second.reply == first.reply && second.db == first.db
  {
    var first := LoginStep(db, name1, college1);
    var name, college := Lower(name1.value), Lower(college1.value);
    if first.db != db {
      var users' := first.db.users;
      FindUserFrame(db.users, users', name, college, db.nextId);
      assert FindUser(users', name, college, db.nextId) == None;
      assert FindUser(users', name, college, db.nextId + 1) == Some(db.nextId);
    }
  }

  // ---------------------------------------------------------------------------
  // /api/score

  /**
   * The score handler on a store: 400 when `userId` is falsy or `score` is undefined, 404 for an
   * unknown id, otherwise append the score (0 included) to that user's list.
   */
  function ScoreStep(db: Db, userId: Option<UserId>, score: Option<int>): (r: ScoreResult)
    ensures r.reply == ScoreBadRequest <==> userId.None? || score.None?
    ensures r.reply == UserNotFound <==> userId.Some? && score.Some? && userId.value !in db.users
    ensures r.reply != Recorded ==> r.db == db
    ensures r.reply == Recorded ==>
      var id := userId.value;
      && r.db.nextId == db.nextId && r.db.users.Keys == db.users.Keys
      && (forall other :: other in db.users && other != id ==> r.db.users[other] == db.users[other])
      && r.db.users[id].studentName == db.users[id].studentName
      && r.db.users[id].collegeName == db.users[id].collegeName
      && |r.db.users[id].scores| == |db.users[id].scores| + 1
      && r.db.users[id].scores[..|db.users[id].scores|] == db.users[id].scores
      && r.db.users[id].scores[|db.users[id].scores|] == score.value
  {
    if userId.None? || score.None? then ScoreResult(ScoreBadRequest, db)
    else if userId.value !in db.users then ScoreResult(UserNotFound, db)
    else
      var id := userId.value;
      var u := db.users[id];
      ScoreResult(Recorded, db.(users := db.users[id := u.(scores := u.scores + [score.value])]))
  }

  lemma ScorePreservesValid(db: Db, userId: Option<UserId>, score: Option<int>)
    requires ValidDb(db)
    ensures ValidDb(ScoreStep(db, userId, score).db)
  {
  }

  // ---------------------------------------------------------------------------
  // The store object

  class UserStore {
    var users: map<UserId, User>
    var nextId: UserId

    function Snapshot(): Db
      reads this
    {
      Db(users, nextId)
    }

    ghost predicate Valid()
      reads this
    {
      ValidDb(Snapshot())
    }

    constructor ()
      ensures Valid() && users == map[] && nextId == 0
    {
      users, nextId := map[], 0;
    }

    /** POST /api/login with body fields `studentName` and `collegeName`. */
    method Login(studentName: Option<string>, collegeName: Option<string>) returns (reply: LoginReply)
      requires Valid()
      modifies this
      ensures Valid()
      ensures LoginResult(reply, Snapshot()) == LoginStep(old(Snapshot()), studentName, collegeName)
    {
      LoginPreservesValid(Snapshot(), studentName, collegeName);
      if !Present(studentName) || !Present(collegeName) {
        return LoginBadRequest;
      }
      var name := Lower(studentName.value);
      var college := Lower(collegeName.value);
      var found := FindUser(users, name, college, nextId);
      var id: UserId;
      if found.None? {
        id := nextId;
        users := users[id := User(name, college, [])];
        nextId := nextId + 1;
      } else {
        id := found.value;
      }
      reply := LoggedIn(id, users[id].studentName, users[id].collegeName);
    }

    /** POST /api/score with body fields `userId` and `score`. */
    method RecordScore(userId: Option<UserId>, score: Option<int>) returns (reply: ScoreReply)
      requires Valid()
      modifies this
      ensures Valid()
      ensures ScoreResult(reply, Snapshot()) == ScoreStep(old(Snapshot()), userId, score)
    {
      ScorePreservesValid(Snapshot(), userId, score);
      if userId.None? || score.None? {
        return ScoreBadRequest;
      }
      if userId.value !in users {
        return UserNotFound;
      }
      var user := users[userId.value];
      users := users[userId.value := user.(scores := user.scores + [score.value])];
      reply := Recorded;
    }
  }

  // ---------------------------------------------------------------------------
  // /api/leaderboard

  /** `$max` over a non-empty list of scores. */
  function Max(s: seq<int>): (m: int)
    requires |s| > 0
    ensures m in s && forall k :: 0 <= k < |s| ==> s[k] <= m
  {
    if |s| == 1 then s[0]
    else
      var rest := Max(s[1..]);
      if s[0] >= rest then s[0] else rest
  }

  predicate HasScores(users: map<UserId, User>, id: UserId) {
    id in users && |users[id].scores| > 0
  }

  /** A row of `$group`: the user's id, stored name and college, and best score. */
  datatype Best = Best(id: UserId, studentName: string, collegeName: string, score: int)

  /** One item of the response. */
  datatype Entry = Entry(studentName: string, collegeName: string, score: int)

  function BestOf(users: map<UserId, User>, id: UserId): Best
    requires HasScores(users, id)
  {
    Best(id, users[id].studentName, users[id].collegeName, Max(users[id].scores))
  }

  /**
   * `$unwind` then `$group` over the users below `bound`: one row per user with at least one
   * score (an empty array unwinds to nothing), taken in id order.
   */
  function Grouped(users: map<UserId, User>, bound: nat): (r: seq<Best>)
    ensures forall k :: 0 <= k < |r| ==> r[k].id < bound && HasScores(users, r[k].id) && r[k] == BestOf(users, r[k].id)
    ensures forall id: UserId :: id < bound && HasScores(users, id) ==> BestOf(users, id) in r
    ensures forall k, l :: 0 <= k < l < |r| ==> r[k].id < r[l].id
  {
    if bound == 0 then []
    else Grouped(users, bound - 1) + (if HasScores(users, bound - 1) then [BestOf(users, bound - 1)] else [])
  }

  predicate SortedByScore(s: seq<Best>) {
    forall i, j :: 0 <= i < j < |s| ==> s[i].score >= s[j].score
  }

  /** Insert `b` into a list sorted by score descending, before the first row it is not below. */
  function Insert(b: Best, s: seq<Best>): (r: seq<Best>)
    requires SortedByScore(s)
    ensures SortedByScore(r) && multiset(r) == multiset(s) + multiset{b}
    ensures r[0] == b || (s != [] && r[0] == s[0])
  {
    if s == [] || b.score >= s[0].score then
      ConsSorted(b, s);
      [b] + s
    else
      var t := Insert(b, s[1..]);
      assert s == [s[0]] + s[1..];
      ConsSorted(s[0], t);
      [s[0]] + t
  }

  /** A row no lower than the head of a sorted list can go in front of it. */
  lemma ConsSorted(x: Best, t: seq<Best>)
    requires SortedByScore(t) && (t == [] || x.score >= t[0].score)
    ensures SortedByScore([x] + t)
  {
  }

  /** `$sort: {score: -1}`; the order among equal scores is this model's choice. */
  function SortByScore(s: seq<Best>): (r: seq<Best>)
    ensures SortedByScore(r) && multiset(r) == multiset(s)
  {
    if s == [] then []
    else
      assert s == [s[0]] + s[1..];
      Insert(s[0], SortByScore(s[1..]))
  }

  /** `$limit: 5` */
  const Limit: nat := 5

  /** `$limit: 5` on rows already sorted. */
  function TopRows(sorted: seq<Best>): (r: seq<Best>)
    ensures |r| <= Limit && |r| <= |sorted| && r == sorted[..|r|]
    ensures |sorted| <= Limit ==> r == sorted
    ensures |sorted| > Limit ==> |r| == Limit
  {
    sorted[..if |sorted| < Limit then |sorted| else Limit]
  }

  /** The rows that survive `$sort` and `$limit`. */
  function Ranked(users: map<UserId, User>, bound: nat): seq<Best> {
    TopRows(SortByScore(Grouped(users, bound)))
  }

  /** `$project`: drop the id, upper-case the name, keep the college and the score. */
  function Project(rows: seq<Best>): (r: seq<Entry>) {
    seq(|rows|, k requires 0 <= k < |rows| => Entry(Upper(rows[k].studentName), rows[k].collegeName, rows[k].score))
  }

  predicate Listed(rows: seq<Best>, id: UserId) {
    exists k :: 0 <= k < |rows| && rows[k].id == id
  }

  /**
   * What a correct top-five ranking of the users is: at most five rows, best scores first, one
   * row per user, each row a user with scores and its best score, and every user left out
   * having scores no better than the last row (when there are five rows) or none at all.
   */
  ghost predicate IsTopRanking(users: map<UserId, User>, rows: seq<Best>) {
    && |rows| <= Limit
    && SortedByScore(rows)
    && (forall i, j :: 0 <= i < j < |rows| ==> rows[i].id != rows[j].id)
    && (forall k :: 0 <= k < |rows| ==> HasScores(users, rows[k].id) && rows[k] == BestOf(users, rows[k].id))
    && (forall id :: HasScores(users, id) && !Listed(rows, id) ==>
          |rows| == Limit && BestOf(users, id).score <= rows[Limit - 1].score)
  }

  /** `e` is the upper-cased name, the college and the best score of some user with scores. */
  ghost predicate IsUserBest(users: map<UserId, User>, e: Entry) {
    exists id: UserId :: (HasScores(users, id)
      && e == Entry(Upper(users[id].studentName), users[id].collegeName, Max(users[id].scores)))
  }

  /** `GET /api/leaderboard` over a store. */
  function Leaderboard(db: Db): (r: seq<Entry>)
    ensures |r| <= Limit
    ensures forall i, j :: 0 <= i < j < |r| ==> r[i].score >= r[j].score
    ensures forall k :: 0 <= k < |r| ==> IsUserBest(db.users, r[k])
  {
    var rows := Ranked(db.users, db.nextId);
    RankedRowsSound(db.users, db.nextId);
    ProjectSound(db.users, rows);
    Project(rows)
  }

  /** Projecting sorted best rows of users gives sorted entries, each some user's best. */
  lemma ProjectSound(users: map<UserId, User>, rows: seq<Best>)
    requires SortedByScore(rows)
    requires forall k :: 0 <= k < |rows| ==> HasScores(users, rows[k].id) && rows[k] == BestOf(users, rows[k].id)
    ensures |Project(rows)| == |rows|
    ensures forall i, j :: 0 <= i < j < |rows| ==> Project(rows)[i].score >= Project(rows)[j].score
    ensures forall k :: 0 <= k < |rows| ==> IsUserBest(users, Project(rows)[k])
  {
    forall k | 0 <= k < |rows|
      ensures IsUserBest(users, Project(rows)[k])
    {
      var id := rows[k].id;
      assert HasScores(users, id)
        && Project(rows)[k] == Entry(Upper(users[id].studentName), users[id].collegeName, Max(users[id].scores));
    }
  }

  /** A value that sits at two positions occurs twice. */
  lemma TwoPositions<T>(s: seq<T>, i: nat, j: nat)
    requires i < j < |s| && s[i] == s[j]
    ensures multiset(s)[s[i]] >= 2
  {
    assert s == s[..j] + s[j..];
    assert s[i] in s[..j];
    assert s[j] in s[j..];
  }

  /** In a list without repeats every value occurs at most once. */
  lemma {:induction false} DistinctOnce<T>(s: seq<T>, x: T)
    requires Distinct(s)
    ensures multiset(s)[x] <= 1
  {
    if s != [] {
      assert s == [s[0]] + s[1..];
      DistinctOnce(s[1..], x);
      if s[0] == x {
        assert x !in s[1..];
      }
    }
  }

  /** Sorting and cutting keep rows of the input only, each at most once, best first. */
  lemma TopOfSorted(grouped: seq<Best>)
    requires Distinct(grouped)
    ensures var rows := TopRows(SortByScore(grouped));
      && SortedByScore(rows) && Distinct(rows)
      && forall k :: 0 <= k < |rows| ==> rows[k] in grouped
  {
    TopInGrouped(grouped);
    TopDistinct(grouped);
  }

  lemma TopInGrouped(grouped: seq<Best>)
    ensures var rows := TopRows(SortByScore(grouped));
      && SortedByScore(rows) && forall k :: 0 <= k < |rows| ==> rows[k] in grouped
  {
    var sorted := SortByScore(grouped);
    var rows := TopRows(sorted);
    forall k | 0 <= k < |rows|
      ensures rows[k] in grouped
    {
      assert rows[k] == sorted[k];
      assert sorted[k] in multiset(grouped);
    }
  }

  lemma TopDistinct(grouped: seq<Best>)
    requires Distinct(grouped)
    ensures Distinct(TopRows(SortByScore(grouped)))
  {
    var sorted := SortByScore(grouped);
    var rows := TopRows(sorted);
    forall i, j | 0 <= i < j < |rows|
      ensures rows[i] != rows[j]
    {
      if rows[i] == rows[j] {
        assert rows[i] == sorted[i] && rows[j] == sorted[j];
        TwoPositions(sorted, i, j);
        DistinctOnce(grouped, sorted[i]);
        assert false;
      }
    }
  }

  /** A row of the input is kept, or five rows are kept and it is no better than the fifth. */
  lemma TopCoversRest(grouped: seq<Best>, b: Best)
    requires b in grouped
    ensures var rows := TopRows(SortByScore(grouped));
      b in rows || (|rows| == Limit && b.score <= rows[Limit - 1].score)
  {
    var sorted := SortByScore(grouped);
    var rows := TopRows(sorted);
    assert b in multiset(sorted);
    var p :| 0 <= p < |sorted| && sorted[p] == b;
    if p < |rows| {
      assert rows[p] == b;
    } else {
      assert sorted[Limit - 1].score >= sorted[p].score;
    }
  }

  /** The rows of the ranking are sorted, at most five, one per user, and each a user's best. */
  lemma RankedRowsSound(users: map<UserId, User>, bound: nat)
    ensures var rows := Ranked(users, bound);
      && |rows| <= Limit && SortedByScore(rows)
      && (forall i, j :: 0 <= i < j < |rows| ==> rows[i].id != rows[j].id)
      && (forall k :: 0 <= k < |rows| ==> HasScores(users, rows[k].id) && rows[k] == BestOf(users, rows[k].id))
  {
    var grouped := Grouped(users, bound);
    assert Distinct(grouped);
    TopOfSorted(grouped);
    var rows := Ranked(users, bound);
    assert rows == TopRows(SortByScore(grouped));
    forall i, j | 0 <= i < j < |rows|
      ensures rows[i].id != rows[j].id
    {
      assert rows[i] in grouped && rows[j] in grouped;
    }
  }

  /** Every user with scores is listed, or there are five rows and its best is no better than the fifth. */
  lemma RankedCoversRest(users: map<UserId, User>, bound: nat, id: UserId)
    requires forall id :: id in users ==> id < bound
    requires HasScores(users, id)
    ensures var rows := Ranked(users, bound);
      Listed(rows, id) || (|rows| == Limit && BestOf(users, id).score <= rows[Limit - 1].score)
  {
    var grouped := Grouped(users, bound);
    var rows := Ranked(users, bound);
    var b := BestOf(users, id);
    assert b in grouped;
    TopCoversRest(grouped, b);
    if b in rows {
      var k :| 0 <= k < |rows| && rows[k] == b;
      assert rows[k].id == id;
    }
  }

  /** With every id below the bound, the rows form a top-five ranking of the users. */
  lemma RankedIsTopRanking(users: map<UserId, User>, bound: nat)
    requires forall id :: id in users ==> id < bound
    ensures IsTopRanking(users, Ranked(users, bound))
  {
    RankedRowsSound(users, bound);
    forall id | HasScores(users, id)
      ensures var rows := Ranked(users, bound);
        Listed(rows, id) || (|rows| == Limit && BestOf(users, id).score <= rows[Limit - 1].score)
    {
      RankedCoversRest(users, bound, id);
    }
  }

  /** On a valid store the leaderboard is the projection of a correct top-five ranking. */
  lemma LeaderboardIsTopFive(db: Db)
    requires ValidDb(db)
    ensures exists rows :: IsTopRanking(db.users, rows) && Leaderboard(db) == Project(rows)
  {
    RankedIsTopRanking(db.users, db.nextId);
    assert Leaderboard(db) == Project(Ranked(db.users, db.nextId));
  }

  /** The users of the two-player example. */
  function TwoPlayers(): map<UserId, User> {
    map[0 := User("a", "x", [10, 20]), 1 := User("b", "y", [15])]
  }

  lemma TwoPlayersGrouped()
    ensures Grouped(TwoPlayers(), 2) == [Best(0, "a", "x", 20), Best(1, "b", "y", 15)]
  {
    var users := TwoPlayers();
    assert Max([10, 20]) == 20 && Max([15]) == 15;
    assert BestOf(users, 0) == Best(0, "a", "x", 20);
    assert BestOf(users, 1) == Best(1, "b", "y", 15);
    assert Grouped(users, 0) == [];
    assert Grouped(users, 1) == [Best(0, "a", "x", 20)];
  }

  lemma TwoPlayersSorted(a: Best, b: Best)
    requires a.score >= b.score
    ensures SortByScore([a, b]) == [a, b]
  {
    assert [a, b][1..] == [b] && [b][1..] == [];
    assert SortByScore([b]) == [b];
  }

  lemma TwoPlayersRanked()
    ensures Ranked(TwoPlayers(), 2) == [Best(0, "a", "x", 20), Best(1, "b", "y", 15)]
  {
    var rows := [Best(0, "a", "x", 20), Best(1, "b", "y", 15)];
    TwoPlayersGrouped();
    TwoPlayersSorted(rows[0], rows[1]);
  }

  lemma LeaderboardIsProjection(db: Db)
    ensures Leaderboard(db) == Project(Ranked(db.users, db.nextId))
  {
  }

  lemma ProjectPair(a: Best, b: Best)
    ensures Project([a, b]) == [Entry(Upper(a.studentName), a.collegeName, a.score),
                                Entry(Upper(b.studentName), b.collegeName, b.score)]
  {
  }

  lemma UpperSingle(c: char)
    ensures Upper([c]) == [UpperChar(c)]
  {
  }

  /** A with scores 10 and 20 is ranked above B with 15. */
  lemma TwoPlayerExample()
    ensures Leaderboard(Db(TwoPlayers(), 2)) == [Entry("A", "x", 20), Entry("B", "y", 15)]
  {
    TwoPlayersRanked();
    LeaderboardIsProjection(Db(TwoPlayers(), 2));
    ProjectPair(Best(0, "a", "x", 20), Best(1, "b", "y", 15));
    UpperSingle('a');
    UpperSingle('b');
  }
}
