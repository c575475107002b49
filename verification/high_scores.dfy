/**
  The leaderboard store (src/lib/db.ts).

  The `leaderboard` table is modelled as a map from Twitch id to the row
  kept for that user, which assumes at most one row per id. `UpdateHighScore`
  is the read-then-write upsert; `GetLeaderboard` is the
  `ORDER BY high_score DESC LIMIT $1` query, stated by what it returns:
  the best rows, best first, projected to name, image and score. SQL,
  connections and timestamps are not modelled.
 */
module HighScores {
  import opened Order

  type TwitchId = string

  datatype Row = Row(username: string, profileImage: string, highScore: int)

  type Table = map<TwitchId, Row>

  /** One score submission, as decrypted from a client token. */
  datatype Submission = Submission(twitchId: TwitchId, username: string, profileImage: string, score: int)

  // ---------------------------------------------------------------------
  // Upsert
  // ---------------------------------------------------------------------

  /**
    Record a finished game: a new user gets a row with exactly the given
    fields; a known user's row is replaced only by a strictly higher score,
    and then name and image are refreshed too.
   */
  function UpdateHighScore(db: Table, s: Submission): (r: Table)
    ensures r.Keys == db.Keys + {s.twitchId}
    ensures forall k :: k in db && k != s.twitchId ==> r[k] == db[k]
    ensures s.twitchId !in db ==> r[s.twitchId] == Row(s.username, s.profileImage, s.score)
    ensures s.twitchId in db && s.score > db[s.twitchId].highScore ==>
      r[s.twitchId] == Row(s.username, s.profileImage, s.score)
    ensures s.twitchId in db && s.score <= db[s.twitchId].highScore ==> r[s.twitchId] == db[s.twitchId]
  {
    if s.twitchId in db then
      if s.score > db[s.twitchId].highScore then db[s.twitchId := Row(s.username, s.profileImage, s.score)]
      else db
    else db[s.twitchId := Row(s.username, s.profileImage, s.score)]
  }

  /** The stored high score is the best of the old one and the new one; no one's score goes down. */
  lemma UpdateKeepsBest(db: Table, s: Submission)
    ensures var r := UpdateHighScore(db, s);
      r[s.twitchId].highScore == if s.twitchId in db then Max(db[s.twitchId].highScore, s.score) else s.score
    ensures var r := UpdateHighScore(db, s);
      forall k :: k in db ==> r[k].highScore >= db[k].highScore
  {
  }

  /** Submitting the same result twice has the effect of submitting it once. */
  lemma UpdateIsIdempotent(db: Table, s: Submission)
    ensures UpdateHighScore(UpdateHighScore(db, s), s) == UpdateHighScore(db, s)
  {
  }

  /** The table after a sequence of submissions, starting from an empty one. */
  function Replay(subs: seq<Submission>): Table
  {
    if |subs| == 0 then map[]
    else UpdateHighScore(Replay(subs[..|subs| - 1]), subs[|subs| - 1])
  }

  ghost predicate Submitted(subs: seq<Submission>, id: TwitchId) {
    exists i :: 0 <= i < |subs| && subs[i].twitchId == id
  }

  /** `best` is the highest score ever submitted for `id`. */
  ghost predicate IsBest(subs: seq<Submission>, id: TwitchId, best: int) {
    && (exists i :: 0 <= i < |subs| && subs[i].twitchId == id && subs[i].score == best)
    && (forall i :: 0 <= i < |subs| && subs[i].twitchId == id ==> subs[i].score <= best)
  }

  /**
    Over any history of submissions the table holds a row exactly for the
    users who submitted, and each row's high score is the best that user
    ever submitted.
   */
  lemma {:induction false} ReplayKeepsBestOfHistory(subs: seq<Submission>, id: TwitchId)
    ensures id in Replay(subs) <==> Submitted(subs, id)
    ensures id in Replay(subs) ==> IsBest(subs, id, Replay(subs)[id].highScore)
  {
    if |subs| > 0 {
      var prefix := subs[..|subs| - 1];
      var last := subs[|subs| - 1];
      ReplayKeepsBestOfHistory(prefix, id);
      var before := Replay(prefix);
      var after := Replay(subs);
      assert after == UpdateHighScore(before, last);
      if Submitted(prefix, id) {
        var i :| 0 <= i < |prefix| && prefix[i].twitchId == id;
        assert subs[i] == prefix[i];
      }
      if Submitted(subs, id) && last.twitchId != id {
        var i :| 0 <= i < |subs| && subs[i].twitchId == id;
        assert prefix[i] == subs[i];
      }
      if id in after {
        var best := after[id].highScore;
        forall i | 0 <= i < |subs| && subs[i].twitchId == id
          ensures subs[i].score <= best
        {
          if i < |prefix| {
            assert prefix[i] == subs[i];
          }
        }
        if last.twitchId == id && (id !in before || last.score > before[id].highScore) {
          assert subs[|subs| - 1].score == best;
        } else {
          var j :| 0 <= j < |prefix| && prefix[j].twitchId == id && prefix[j].score == before[id].highScore;
          assert subs[j] == prefix[j];
        }
      }
    }
  }

  // ---------------------------------------------------------------------
  // Leaderboard query
  // ---------------------------------------------------------------------

  /** What the query returns per row: no Twitch id, no timestamps. */
  datatype Entry = Entry(username: string, profileImage: string, highScore: int)

  function Project(r: Row): Entry {
    Entry(r.username, r.profileImage, r.highScore)
  }

  /** The query's outcome: rows, or PostgreSQL rejecting a negative LIMIT. */
  datatype Query = Rows(entries: seq<Entry>) | NegativeLimit

  const DefaultLimit: int := 10

  /** `ids` are rows of `db`, best score first. */
  ghost predicate Descending(db: Table, ids: seq<TwitchId>) {
    && (forall i :: 0 <= i < |ids| ==> ids[i] in db)
    && (forall i, j :: 0 <= i < j < |ids| ==> ids[i] in db && ids[j] in db && db[ids[i]].highScore >= db[ids[j]].highScore)
  }

  /** A ranking stays best-first when an id at least as good as all of it is put in front. */
  lemma PrependDescending(db: Table, x: TwitchId, rest: seq<TwitchId>)
    requires x in db && Descending(db, rest)
    requires forall y :: y in rest ==> db[x].highScore >= db[y].highScore
    ensures Descending(db, [x] + rest)
  {
    var s := [x] + rest;
    forall i, j | 0 <= i < j < |s|
      ensures s[i] in db && s[j] in db && db[s[i]].highScore >= db[s[j]].highScore
    {
      assert s[j] == rest[j - 1];
      if i > 0 {
        assert s[i] == rest[i - 1];
      }
    }
  }

  /** The head of a best-first ranking beats everything after it, and the rest is still best-first. */
  lemma HeadIsBest(db: Table, ids: seq<TwitchId>)
    requires |ids| > 0 && Descending(db, ids)
    ensures ids[0] in db && Descending(db, ids[1..])
    ensures forall y :: y in ids ==> y in db && db[ids[0]].highScore >= db[y].highScore
  {
    var tail := ids[1..];
    forall i, j | 0 <= i < j < |tail|
      ensures tail[i] in db && tail[j] in db && db[tail[i]].highScore >= db[tail[j]].highScore
    {
      assert tail[i] == ids[i + 1] && tail[j] == ids[j + 1];
    }
    forall y | y in ids ensures y in db && db[ids[0]].highScore >= db[y].highScore {
      var j :| 0 <= j < |ids| && ids[j] == y;
    }
  }

  /** Whatever is ranked after the head, plus an id it beats, is beaten by the head. */
  lemma HeadBeatsInserted(db: Table, ids: seq<TwitchId>, k: TwitchId, rest: seq<TwitchId>)
    requires |ids| > 0 && k in db && ids[0] in db
    requires db[k].highScore < db[ids[0]].highScore
    requires forall y :: y in ids ==> y in db && db[ids[0]].highScore >= db[y].highScore
    requires multiset(rest) == multiset(ids[1..]) + multiset{k}
    ensures forall x :: x in rest ==> x in db && db[ids[0]].highScore >= db[x].highScore
  {
    forall x | x in rest ensures x in db && db[ids[0]].highScore >= db[x].highScore {
      assert x in multiset(rest);
      if x != k {
        assert x in multiset(ids[1..]);
        assert x in ids[1..];
        var j :| 0 <= j < |ids| - 1 && ids[1..][j] == x;
        assert ids[j + 1] == x;
      }
    }
  }

  /** Insert `k` into a ranking, after every id with a strictly better score. */
  function Insert(db: Table, ids: seq<TwitchId>, k: TwitchId): (r: seq<TwitchId>)
    requires k in db && Descending(db, ids)
    ensures multiset(r) == multiset(ids) + multiset{k}
    ensures Descending(db, r)
  {
    if |ids| == 0 then
      PrependDescending(db, k, []);
      [k]
    else
      HeadIsBest(db, ids);
      if db[k].highScore >= db[ids[0]].highScore then
        PrependDescending(db, k, ids);
        [k] + ids
      else
        var rest := Insert(db, ids[1..], k);
        HeadBeatsInserted(db, ids, k, rest);
        PrependDescending(db, ids[0], rest);
        assert multiset(ids) == multiset{ids[0]} + multiset(ids[1..]) by {
          assert ids == [ids[0]] + ids[1..];
        }
        [ids[0]] + rest
  }

  /** Every row of the table, best score first. */
  method Rank(db: Table) returns (ids: seq<TwitchId>)
    ensures multiset(ids) == multiset(db.Keys)
    ensures Descending(db, ids)
  {
    ids := [];
    var rest := db.Keys;
    while rest != {}
      invariant rest <= db.Keys
      invariant multiset(ids) + multiset(rest) == multiset(db.Keys)
      invariant Descending(db, ids)
      decreases |rest|
    {
      var k :| k in rest;
      ids := Insert(db, ids, k);
      assert multiset(rest) == multiset(rest - {k}) + multiset{k};
      rest := rest - {k};
    }
  }

  /**
    The leaderboard: at most `limit` rows, best first, and no row left out
    beats one that was returned. `ids` names the table rows behind the
    entries.
   */
  method GetLeaderboard(db: Table, limit: int) returns (q: Query, ghost ids: seq<TwitchId>)
    ensures q.NegativeLimit? <==> limit < 0
    ensures q.Rows? ==> |q.entries| == Min(limit, |db|)
    ensures q.Rows? ==> forall i, j :: 0 <= i < j < |q.entries| ==> q.entries[i].highScore >= q.entries[j].highScore
    ensures q.Rows? ==>
      && |ids| == |q.entries|
      && multiset(ids) <= multiset(db.Keys)
      && forall i :: 0 <= i < |ids| ==> ids[i] in db && q.entries[i] == Project(db[ids[i]])
    ensures q.Rows? ==>
      forall k, i :: k in db && k !in ids && 0 <= i < |q.entries| ==> db[k].highScore <= q.entries[i].highScore
  {
    if limit < 0 {
      return NegativeLimit, [];
    }
    var ranked := Rank(db);
    assert |ranked| == |db| by {
      assert |multiset(ranked)| == |multiset(db.Keys)|;
    }
    var n := Min(limit, |ranked|);
    ids := ranked[..n];
    var entries := seq(n, i requires 0 <= i < n => Project(db[ranked[i]]));
    assert ranked == ids + ranked[n..];
    forall k, i | k in db && k !in ids && 0 <= i < n
      ensures db[k].highScore <= entries[i].highScore
    {
      assert k in multiset(ranked);
      var j :| 0 <= j < |ranked| && ranked[j] == k;
      assert j >= n;
    }
    q := Rows(entries);
  }

  /** The call made without a limit: the ten best rows, best first. */
  method GetDefaultLeaderboard(db: Table) returns (q: Query, ghost ids: seq<TwitchId>)
    ensures q.Rows? && |q.entries| == Min(DefaultLimit, |db|)
    ensures forall i, j :: 0 <= i < j < |q.entries| ==> q.entries[i].highScore >= q.entries[j].highScore
    ensures |ids| == |q.entries| && multiset(ids) <= multiset(db.Keys)
    ensures forall i :: 0 <= i < |ids| ==> ids[i] in db && q.entries[i] == Project(db[ids[i]])
    ensures forall k, i :: k in db && k !in ids && 0 <= i < |q.entries| ==> db[k].highScore <= q.entries[i].highScore
  {
    q, ids := GetLeaderboard(db, DefaultLimit);
  }
}
