/**
 * The PostgreSQL poll repository over the tables of `PollTables`: creating
 * a poll with its options, liking and disliking (mutually exclusive, with
 * the counters recomputed from the association tables), deleting with its
 * cascades, and the sorted, paged listing.
 */
module PollsRepository {
  import opened Wrappers
  import opened PollTables

  /** The poll a client asks to create. */
  datatype PollCreate = PollCreate(title: string, description: Option<string>, expiresAt: Option<int>, options: seq<string>)

  // ---------------------------------------------------------------------------
  // create_poll
  // ---------------------------------------------------------------------------

  /**
   * The option rows made for the texts, with consecutive ids from `start`,
   * each holding what its column keeps of the text, with no votes.
   */
  function NewOptions(pollId: int, start: int, texts: seq<string>): (r: map<int, OptionRow>)
    ensures forall o :: o in r <==> start <= o < start + |texts|
    ensures forall o :: start <= o < start + |texts| ==> r[o] == OptionRow(pollId, Stored(texts[o - start]), 0)
    decreases |texts|
  {
    if texts == [] then map[]
    else
      var n := |texts| - 1;
      assert forall i :: 0 <= i < n ==> texts[..n][i] == texts[i];
      NewOptions(pollId, start, texts[..n])[start + n := OptionRow(pollId, Stored(texts[n]), 0)]
  }

  /** The database's error for a value longer than its `String(255)` column. */
  const ValueTooLong: string := "value too long for type character varying(255)"

  /** Whether the title and every option text are accepted by their `String(255)` columns. */
  predicate FitsColumns(payload: PollCreate)
  {
    && Storable(payload.title)
    && forall i :: 0 <= i < |payload.options| ==> Storable(payload.options[i])
  }

  /**
   * The tables after a successful `create_poll` at time `now`; the new poll
   * gets the next poll id, and each text what its column keeps of it.
   */
  function Created(t: Tables, userId: int, payload: PollCreate, now: int): (r: Tables)
    ensures r.nextPollId == t.nextPollId + 1 && r.nextOptionId == t.nextOptionId + |payload.options|
    ensures r.polls == t.polls[t.nextPollId := PollRow(Stored(payload.title), payload.description, now, payload.expiresAt, userId, 0, 0)]
    ensures forall o :: o in r.options <==> o in t.options || t.nextOptionId <= o < t.nextOptionId + |payload.options|
    ensures forall o :: t.nextOptionId <= o < t.nextOptionId + |payload.options| ==>
      r.options[o] == OptionRow(t.nextPollId, Stored(payload.options[o - t.nextOptionId]), 0)
    ensures forall o :: o in t.options && !(t.nextOptionId <= o < t.nextOptionId + |payload.options|) ==> r.options[o] == t.options[o]
    ensures r.likes == t.likes && r.dislikes == t.dislikes && r.votes == t.votes
  {
    var pollId := t.nextPollId;
    t.(polls := t.polls[pollId := PollRow(Stored(payload.title), payload.description, now, payload.expiresAt, userId, 0, 0)],
       options := t.options + NewOptions(pollId, t.nextOptionId, payload.options),
       nextPollId := pollId + 1,
       nextOptionId := t.nextOptionId + |payload.options|)
  }

  /**
   * The new poll has exactly one option per payload text, in the order of
   * the payload (by id), each with no votes.
   */
  lemma CreatedOptionsOfPoll(t: Tables, userId: int, payload: PollCreate, now: int)
    requires Consistent(t)
    ensures var r := Created(t, userId, payload, now);
      forall o :: o in r.options && r.options[o].pollId == t.nextPollId <==> t.nextOptionId <= o < t.nextOptionId + |payload.options|
  {
    var r := Created(t, userId, payload, now);
    forall o | o in t.options
      ensures t.options[o].pollId != t.nextPollId
    {
      assert t.options[o].pollId in t.polls;
    }
  }

  /** Creating a poll keeps the integrity of the tables and every counter exact. */
  lemma CreatedKeepsInvariants(t: Tables, userId: int, payload: PollCreate, now: int)
    requires Consistent(t)
    ensures var r := Created(t, userId, payload, now);
      && Consistent(r)
      && (LikesExclusive(t) ==> LikesExclusive(r))
      && (CountersMatch(t) ==> CountersMatch(r))
      && (VoteCountsMatch(t) ==> VoteCountsMatch(r))
  {
    var r := Created(t, userId, payload, now);
    var p := t.nextPollId;
    assert RowsFor(t.likes, p) == {} by {
      forall k | k in t.likes ensures k.1 != p {
        assert k.1 in t.polls;
      }
    }
    assert RowsFor(t.dislikes, p) == {} by {
      forall k | k in t.dislikes ensures k.1 != p {
        assert k.1 in t.polls;
      }
    }
    forall o | t.nextOptionId <= o < t.nextOptionId + |payload.options|
      ensures VoteCount(t.votes, o) == 0
    {
      assert VotersOf(t.votes, o) == {} by {
        forall k | k in t.votes ensures t.votes[k] != o {
          assert t.votes[k] in t.options;
        }
      }
    }
  }

  /** Creating a poll leaves every stored text within its column. */
  lemma CreatedKeepsColumnsFit(t: Tables, userId: int, payload: PollCreate, now: int)
    requires ColumnsFit(t)
    ensures ColumnsFit(Created(t, userId, payload, now))
  {
    var r := Created(t, userId, payload, now);
    forall o | o in r.options ensures |r.options[o].text| <= MaxTextLength {
      if t.nextOptionId <= o < t.nextOptionId + |payload.options| {
        assert r.options[o].text == Stored(payload.options[o - t.nextOptionId]);
      }
    }
  }

  // ---------------------------------------------------------------------------
  // like_poll and dislike_poll
  // ---------------------------------------------------------------------------

  const PollNotFound: string := "Poll not found"

  /** Poll `p` with its counters recomputed from the association tables. */
  function Recount(t: Tables, p: int): (r: Tables)
    requires p in t.polls
    ensures r.polls == t.polls[p := t.polls[p].(likes := CountFor(t.likes, p), dislikes := CountFor(t.dislikes, p))]
    ensures r.options == t.options && r.likes == t.likes && r.dislikes == t.dislikes && r.votes == t.votes
    ensures r.nextPollId == t.nextPollId && r.nextOptionId == t.nextOptionId
  {
    t.(polls := t.polls[p := t.polls[p].(likes := CountFor(t.likes, p), dislikes := CountFor(t.dislikes, p))])
  }

  /** The tables after user `u` likes the existing poll `p`. */
  function Liked(t: Tables, p: int, u: int): (r: Tables)
    requires p in t.polls
    ensures (u, p) in r.likes && (u, p) !in r.dislikes
    ensures forall k :: k != (u, p) ==> (k in r.likes <==> k in t.likes) && (k in r.dislikes <==> k in t.dislikes)
    ensures p in r.polls && r.polls[p].likes == CountFor(r.likes, p) && r.polls[p].dislikes == CountFor(r.dislikes, p)
  {
    Recount(t.(likes := t.likes + {(u, p)}, dislikes := t.dislikes - {(u, p)}), p)
  }

  /** The tables after user `u` dislikes the existing poll `p`. */
  function Disliked(t: Tables, p: int, u: int): (r: Tables)
    requires p in t.polls
    ensures (u, p) in r.dislikes && (u, p) !in r.likes
    ensures forall k :: k != (u, p) ==> (k in r.likes <==> k in t.likes) && (k in r.dislikes <==> k in t.dislikes)
    ensures p in r.polls && r.polls[p].likes == CountFor(r.likes, p) && r.polls[p].dislikes == CountFor(r.dislikes, p)
  {
    Recount(t.(likes := t.likes - {(u, p)}, dislikes := t.dislikes + {(u, p)}), p)
  }

  /**
   * Recounting one poll after changing only its rows keeps every invariant:
   * the other polls' rows, and so their counters, are those of `t`.
   */
  lemma {:induction false} RecountKeepsInvariants(t: Tables, changed: Tables, p: int)
    requires p in changed.polls && changed.polls == t.polls
    requires changed.options == t.options && changed.votes == t.votes
    requires changed.nextPollId == t.nextPollId && changed.nextOptionId == t.nextOptionId
    requires forall q :: q != p ==> RowsFor(changed.likes, q) == RowsFor(t.likes, q) && RowsFor(changed.dislikes, q) == RowsFor(t.dislikes, q)
    requires forall k :: k in changed.likes + changed.dislikes ==> k in t.likes + t.dislikes || k.1 == p
    ensures var r := Recount(changed, p);
      && (Consistent(t) ==> Consistent(r))
      && (CountersMatch(t) ==> CountersMatch(r))
      && (VoteCountsMatch(t) ==> VoteCountsMatch(r))
  {
    var r := Recount(changed, p);
    if CountersMatch(t) {
      forall q | q in r.polls
        ensures r.polls[q].likes == CountFor(r.likes, q) && r.polls[q].dislikes == CountFor(r.dislikes, q)
      {
        if q != p {
          assert RowsFor(r.likes, q) == RowsFor(t.likes, q);
          assert RowsFor(r.dislikes, q) == RowsFor(t.dislikes, q);
        }
      }
    }
    if Consistent(t) {
      forall k | k in r.likes ensures k.1 in r.polls {
        assert k in t.likes + t.dislikes || k.1 == p;
      }
      forall k | k in r.dislikes ensures k.1 in r.polls {
        assert k in t.likes + t.dislikes || k.1 == p;
      }
    }
  }

  /** Liking keeps the likes and dislikes exclusive, the counters exact and the tables consistent. */
  lemma LikedKeepsInvariants(t: Tables, p: int, u: int)
    requires p in t.polls
    ensures var r := Liked(t, p, u);
      && (Consistent(t) ==> Consistent(r))
      && (LikesExclusive(t) ==> LikesExclusive(r))
      && (CountersMatch(t) ==> CountersMatch(r))
      && (VoteCountsMatch(t) ==> VoteCountsMatch(r))
  {
    var k := (u, p);
    var changed := t.(likes := t.likes + {k}, dislikes := t.dislikes - {k});
    forall q | q != p
      ensures RowsFor(changed.likes, q) == RowsFor(t.likes, q) && RowsFor(changed.dislikes, q) == RowsFor(t.dislikes, q)
    {
      RowsForOtherPoll(t.likes, k, q);
      RowsForOtherPoll(t.dislikes, k, q);
    }
    RecountKeepsInvariants(t, changed, p);
  }

  /** Disliking keeps the likes and dislikes exclusive, the counters exact and the tables consistent. */
  lemma DislikedKeepsInvariants(t: Tables, p: int, u: int)
    requires p in t.polls
    ensures var r := Disliked(t, p, u);
      && (Consistent(t) ==> Consistent(r))
      && (LikesExclusive(t) ==> LikesExclusive(r))
      && (CountersMatch(t) ==> CountersMatch(r))
      && (VoteCountsMatch(t) ==> VoteCountsMatch(r))
  {
    var k := (u, p);
    var changed := t.(likes := t.likes - {k}, dislikes := t.dislikes + {k});
    forall q | q != p
      ensures RowsFor(changed.likes, q) == RowsFor(t.likes, q) && RowsFor(changed.dislikes, q) == RowsFor(t.dislikes, q)
    {
      RowsForOtherPoll(t.likes, k, q);
      RowsForOtherPoll(t.dislikes, k, q);
    }
    RecountKeepsInvariants(t, changed, p);
  }

  /** Liking twice leaves the tables as liking once. */
  lemma LikedIdempotent(t: Tables, p: int, u: int)
    requires p in t.polls
    ensures Liked(Liked(t, p, u), p, u) == Liked(t, p, u)
  {
    var once := Liked(t, p, u);
    var twice := Liked(once, p, u);
    assert once.likes + {(u, p)} == once.likes && once.dislikes - {(u, p)} == once.dislikes;
    assert twice.polls == once.polls;
  }

  /** Disliking twice leaves the tables as disliking once. */
  lemma DislikedIdempotent(t: Tables, p: int, u: int)
    requires p in t.polls
    ensures Disliked(Disliked(t, p, u), p, u) == Disliked(t, p, u)
  {
    var once := Disliked(t, p, u);
    var twice := Disliked(once, p, u);
    assert once.dislikes + {(u, p)} == once.dislikes && once.likes - {(u, p)} == once.likes;
    assert twice.polls == once.polls;
  }

  /** The last reaction wins: disliking after liking is disliking alone. */
  lemma DislikedAfterLiked(t: Tables, p: int, u: int)
    requires p in t.polls
    ensures Disliked(Liked(t, p, u), p, u) == Disliked(t, p, u)
  {
    var direct := Disliked(t, p, u);
    var both := Disliked(Liked(t, p, u), p, u);
    assert both.likes == direct.likes && both.dislikes == direct.dislikes;
    assert both.polls == direct.polls;
  }

  /** The last reaction wins: liking after disliking is liking alone. */
  lemma LikedAfterDisliked(t: Tables, p: int, u: int)
    requires p in t.polls
    ensures Liked(Disliked(t, p, u), p, u) == Liked(t, p, u)
  {
    var direct := Liked(t, p, u);
    var both := Liked(Disliked(t, p, u), p, u);
    assert both.likes == direct.likes && both.dislikes == direct.dislikes;
    assert both.polls == direct.polls;
  }

  // ---------------------------------------------------------------------------
  // delete_poll
  // ---------------------------------------------------------------------------

  /**
   * Whether deleting poll `p` deletes the vote under `k`: votes of the poll
   * and votes naming one of its options are both cascaded.
   */
  predicate CascadedVote(t: Tables, p: int, k: (int, int))
    requires k in t.votes
  {
    k.1 == p || (t.votes[k] in t.options && t.options[t.votes[k]].pollId == p)
  }

  /**
   * The tables after `delete_poll(p)`: nothing when there is no such poll;
   * otherwise the poll, its options, its votes and its like and dislike rows.
   */
  function Deleted(t: Tables, p: int): (r: Tables)
    ensures p !in t.polls ==> r == t
    ensures p in t.polls ==>
      && r.polls == t.polls - {p}
      && (forall o :: o in r.options <==> o in t.options && t.options[o].pollId != p)
      && (forall k :: k in r.likes <==> k in t.likes && k.1 != p)
      && (forall k :: k in r.dislikes <==> k in t.dislikes && k.1 != p)
      && (forall k :: k in r.votes <==> k in t.votes && !CascadedVote(t, p, k))
    ensures forall o :: o in r.options ==> r.options[o] == t.options[o]
    ensures forall k :: k in r.votes ==> r.votes[k] == t.votes[k]
    ensures r.nextPollId == t.nextPollId && r.nextOptionId == t.nextOptionId
  {
    if p !in t.polls then t
    else
      t.(polls := t.polls - {p},
         options := (map o | o in t.options && t.options[o].pollId != p :: t.options[o]),
         likes := (set k | k in t.likes && k.1 != p),
         dislikes := (set k | k in t.dislikes && k.1 != p),
         votes := (map k | k in t.votes && !CascadedVote(t, p, k) :: t.votes[k]))
  }

  /** After deleting a poll nothing refers to it any more, and every invariant still holds. */
  lemma DeletedKeepsInvariants(t: Tables, p: int)
    requires Consistent(t)
    ensures var r := Deleted(t, p);
      && p !in r.polls
      && (forall o :: o in r.options ==> r.options[o].pollId != p)
      && (forall k :: k in r.likes + r.dislikes ==> k.1 != p)
      && (forall k :: k in r.votes ==> k.1 != p)
      && Consistent(r)
      && (LikesExclusive(t) ==> LikesExclusive(r))
      && (CountersMatch(t) ==> CountersMatch(r))
      && (VoteCountsMatch(t) ==> VoteCountsMatch(r))
  {
    var r := Deleted(t, p);
    if p in t.polls {
      if CountersMatch(t) {
        forall q | q in r.polls
          ensures r.polls[q].likes == CountFor(r.likes, q) && r.polls[q].dislikes == CountFor(r.dislikes, q)
        {
          assert RowsFor(r.likes, q) == RowsFor(t.likes, q);
          assert RowsFor(r.dislikes, q) == RowsFor(t.dislikes, q);
        }
      }
      if VoteCountsMatch(t) {
        forall o | o in r.options
          ensures r.options[o].votes == VoteCount(r.votes, o)
        {
          forall k | k in t.votes && t.votes[k] == o ensures k in r.votes {
            assert t.options[o].pollId == k.1;
          }
          VotersOfSubmap(t.votes, r.votes, o);
        }
      }
    }
  }

  // ---------------------------------------------------------------------------
  // list_polls_detailed
  // ---------------------------------------------------------------------------

  /** The column `list_polls_detailed` orders by: `created_at` when asked for, `likes` for anything else. */
  function SortKey(row: PollRow, sortBy: string): int
  {
    if sortBy == "created_at" then row.createdAt else row.likes
  }

  predicate NoDuplicates(ids: seq<int>)
  {
    forall i, j :: 0 <= i < j < |ids| ==> ids[i] != ids[j]
  }

  /** Whether `ids` lists existing polls in descending order of the sort column. */
  predicate SortedDesc(polls: map<int, PollRow>, ids: seq<int>, sortBy: string)
  {
    && (forall i :: 0 <= i < |ids| ==> ids[i] in polls)
    && (forall i, j :: 0 <= i < j < |ids| ==> SortKey(polls[ids[i]], sortBy) >= SortKey(polls[ids[j]], sortBy))
  }

  /**
   * Whether `ids` is an order the query may return before paging: every poll
   * once, in descending order. Polls with equal keys may come in any order.
   */
  predicate IsListing(polls: map<int, PollRow>, sortBy: string, ids: seq<int>)
  {
    && SortedDesc(polls, ids, sortBy)
    && NoDuplicates(ids)
    && (forall p :: p in polls ==> p in ids)
  }

  /** The database's errors for a negative `OFFSET` and a negative `LIMIT`. */
  const NegativeOffset: string := "OFFSET must not be negative"
  const NegativeLimit: string := "LIMIT must not be negative"

  /** `OFFSET offset LIMIT limit`, for non-negative values. */
  function Page(all: seq<int>, offset: nat, limit: nat): (r: seq<int>)
    ensures |r| == if offset >= |all| then 0 else if |all| - offset < limit then |all| - offset else limit
    ensures forall i :: 0 <= i < |r| ==> r[i] == all[offset + i]
  {
    if offset >= |all| then []
    else if |all| - offset < limit then all[offset..]
    else all[offset..offset + limit]
  }

  /** Two consecutive pages make up the page that spans both. */
  lemma PagesJoin(all: seq<int>, offset: nat, n: nat, m: nat)
    ensures Page(all, offset, n) + Page(all, offset + n, m) == Page(all, offset, n + m)
  {
    var joined := Page(all, offset, n) + Page(all, offset + n, m);
    var whole := Page(all, offset, n + m);
    assert |joined| == |whole|;
    forall i | 0 <= i < |whole| ensures joined[i] == whole[i] {
      if i >= |Page(all, offset, n)| {
        assert joined[i] == Page(all, offset + n, m)[i - n];
      }
    }
  }

  /** A poll of `ids` with the largest sort key. */
  ghost function MaxOf(polls: map<int, PollRow>, ids: set<int>, sortBy: string): (m: int)
    requires ids != {} && ids <= polls.Keys
    ensures m in ids && forall q :: q in ids ==> SortKey(polls[m], sortBy) >= SortKey(polls[q], sortBy)
    decreases |ids|
  {
    var x := AnyOf(ids);
    if ids == {x} then x
    else
      var m := MaxOf(polls, ids - {x}, sortBy);
      if SortKey(polls[x], sortBy) > SortKey(polls[m], sortBy) then x else m
  }

  /** Putting a poll whose key is at least every other in front of a listing of the others gives a listing. */
  lemma ConsListing(polls: map<int, PollRow>, ids: set<int>, sortBy: string, m: int, rest: seq<int>)
    requires ids <= polls.Keys && m in ids
    requires forall q :: q in ids ==> SortKey(polls[m], sortBy) >= SortKey(polls[q], sortBy)
    requires forall i :: 0 <= i < |rest| ==> rest[i] in ids - {m}
    requires forall p :: p in ids - {m} ==> p in rest
    requires NoDuplicates(rest) && SortedDesc(polls, rest, sortBy)
    ensures var r := [m] + rest;
      && (forall i :: 0 <= i < |r| ==> r[i] in ids)
      && (forall p :: p in ids ==> p in r)
      && NoDuplicates(r) && SortedDesc(polls, r, sortBy)
  {
    var r := [m] + rest;
    assert forall i :: 0 < i < |r| ==> r[i] == rest[i - 1];
    forall p | p in ids ensures p in r {
      if p != m {
        assert p in rest;
      }
    }
  }

  /** One order the database may return the polls `ids` in, before paging. */
  ghost function Listing(polls: map<int, PollRow>, ids: set<int>, sortBy: string): (r: seq<int>)
    requires ids <= polls.Keys
    ensures forall i :: 0 <= i < |r| ==> r[i] in ids
    ensures forall p :: p in ids ==> p in r
    ensures NoDuplicates(r) && SortedDesc(polls, r, sortBy)
    decreases |ids|
  {
    if ids == {} then []
    else
      var m := MaxOf(polls, ids, sortBy);
      var rest := Listing(polls, ids - {m}, sortBy);
      ConsListing(polls, ids, sortBy, m, rest);
      [m] + rest
  }

  /** Listing the elements of a list without duplicates has as many entries as the set. */
  lemma {:induction false} NoDuplicatesCardinality(ids: seq<int>, s: set<int>)
    requires NoDuplicates(ids)
    requires forall i :: 0 <= i < |ids| ==> ids[i] in s
    requires forall p :: p in s ==> p in ids
    ensures |ids| == |s|
    decreases |ids|
  {
    if ids != [] {
      var rest := ids[1..];
      assert forall i :: 0 <= i < |rest| ==> rest[i] == ids[i + 1];
      forall p | p in s - {ids[0]} ensures p in rest {
        var i :| 0 <= i < |ids| && ids[i] == p;
        assert i != 0;
      }
      NoDuplicatesCardinality(rest, s - {ids[0]});
    } else {
      assert forall p :: p !in s;
      assert s == {};
    }
  }

  /** A listing holds every poll exactly once. */
  lemma ListingLength(polls: map<int, PollRow>, sortBy: string, ids: seq<int>)
    requires IsListing(polls, sortBy, ids)
    ensures |ids| == |polls|
  {
    NoDuplicatesCardinality(ids, polls.Keys);
  }

  // ---------------------------------------------------------------------------
  // The repository
  // ---------------------------------------------------------------------------

  class PostgresPollRepository {
    const db: Database

    constructor (db: Database)
      ensures this.db == db
    {
      this.db := db;
    }

    /** The option rows `create_poll` appends to the new poll, with the ids the insert gives them. */
    static method NewOptionRows(pollId: int, start: int, texts: seq<string>) returns (added: map<int, OptionRow>)
      ensures added == NewOptions(pollId, start, texts)
    {
      added := map[];
      var i := 0;
      while i < |texts|
        invariant 0 <= i <= |texts|
        invariant added == NewOptions(pollId, start, texts[..i])
      {
        assert texts[..i + 1][..i] == texts[..i];
        added := added[start + i := OptionRow(pollId, Stored(texts[i]), 0)];
        i := i + 1;
      }
      assert texts[..i] == texts;
    }

    /**
     * `create_poll` at time `now`: the id of the new poll, or the insert's
     * failure, with no row stored, when the title or an option text is too
     * long for its column. The ids a failed insert drew are not reused.
     */
    method CreatePoll(userId: int, payload: PollCreate, now: int) returns (r: Result<int, string>)
      requires db.Valid()
      modifies db
      ensures !FitsColumns(payload) ==> r == Failure(ValueTooLong)
      ensures !FitsColumns(payload) ==>
        && db.polls == old(db.polls) && db.options == old(db.options)
        && db.likes == old(db.likes) && db.dislikes == old(db.dislikes) && db.votes == old(db.votes)
        && db.nextPollId >= old(db.nextPollId) && db.nextOptionId >= old(db.nextOptionId)
      ensures FitsColumns(payload) ==> r == Success(old(db.nextPollId))
      ensures FitsColumns(payload) ==> db.State() == Created(old(db.State()), userId, payload, now)
      ensures ColumnsFit(old(db.State())) ==> ColumnsFit(db.State())
      ensures db.Valid()
    {
      if !FitsColumns(payload) {
        // the poll's INSERT draws its id before the title is checked
        db.nextPollId := db.nextPollId + 1;
        return Failure(ValueTooLong);
      }
      ghost var before := db.State();
      var pollId := db.nextPollId;
      var start := db.nextOptionId;
      var added := NewOptionRows(pollId, start, payload.options);
      db.polls := db.polls[pollId := PollRow(Stored(payload.title), payload.description, now, payload.expiresAt, userId, 0, 0)];
      db.options := db.options + added;
      db.nextPollId := pollId + 1;
      db.nextOptionId := start + |payload.options|;
      assert db.State() == Created(before, userId, payload, now);
      CreatedKeepsInvariants(before, userId, payload, now);
      if ColumnsFit(before) {
        CreatedKeepsColumnsFit(before, userId, payload, now);
      }
      r := Success(pollId);
    }

    /**
     * `like_poll`: "Poll not found" for a missing poll, with no table
     * changed; otherwise the user's dislike is removed, the like recorded
     * once, and both counters recomputed.
     */
    method LikePoll(pollId: int, userId: int) returns (r: Result<PollRow, string>)
      modifies db
      ensures pollId !in old(db.polls) ==> r == Failure(PollNotFound) && db.State() == old(db.State())
      ensures pollId in old(db.polls) ==> db.State() == Liked(old(db.State()), pollId, userId) && r == Success(db.polls[pollId])
    {
      if pollId !in db.polls {
        return Failure(PollNotFound);
      }
      db.dislikes := db.dislikes - {(userId, pollId)};
      if (userId, pollId) !in db.likes {
        db.likes := db.likes + {(userId, pollId)};
      }
      assert db.likes == old(db.likes) + {(userId, pollId)};
      var likesCount := CountFor(db.likes, pollId);
      var dislikesCount := CountFor(db.dislikes, pollId);
      db.polls := db.polls[pollId := db.polls[pollId].(likes := likesCount, dislikes := dislikesCount)];
      r := Success(db.polls[pollId]);
    }

    /**
     * `dislike_poll`: "Poll not found" for a missing poll, with no table
     * changed; otherwise the user's like is removed, the dislike recorded
     * once, and both counters recomputed.
     */
    method DislikePoll(pollId: int, userId: int) returns (r: Result<PollRow, string>)
      modifies db
      ensures pollId !in old(db.polls) ==> r == Failure(PollNotFound) && db.State() == old(db.State())
      ensures pollId in old(db.polls) ==> db.State() == Disliked(old(db.State()), pollId, userId) && r == Success(db.polls[pollId])
    {
      if pollId !in db.polls {
        return Failure(PollNotFound);
      }
      db.likes := db.likes - {(userId, pollId)};
      if (userId, pollId) !in db.dislikes {
        db.dislikes := db.dislikes + {(userId, pollId)};
      }
      assert db.dislikes == old(db.dislikes) + {(userId, pollId)};
      var likesCount := CountFor(db.likes, pollId);
      var dislikesCount := CountFor(db.dislikes, pollId);
      db.polls := db.polls[pollId := db.polls[pollId].(likes := likesCount, dislikes := dislikesCount)];
      r := Success(db.polls[pollId]);
    }

    /** `delete_poll`: a missing poll is ignored; otherwise the poll goes with everything cascaded from it. */
    method DeletePoll(pollId: int)
      modifies db
      ensures db.State() == Deleted(old(db.State()), pollId)
    {
      if pollId !in db.polls {
        return;
      }
      var t := Tables(db.polls, db.options, db.likes, db.dislikes, db.votes, db.nextPollId, db.nextOptionId);
      db.votes := map k | k in db.votes && !CascadedVote(t, pollId, k) :: db.votes[k];
      db.options := map o | o in db.options && db.options[o].pollId != pollId :: db.options[o];
      db.likes := set k | k in db.likes && k.1 != pollId;
      db.dislikes := set k | k in db.dislikes && k.1 != pollId;
      db.polls := db.polls - {pollId};
    }

    /**
     * `list_polls_detailed`: the polls in descending order of the sort
     * column, then `OFFSET offset LIMIT limit`. The limit and the offset are
     * passed through unchecked, and the database refuses a negative one,
     * checking the offset first.
     */
    ghost function ListPollsDetailed(sortBy: string, limit: int, offset: int): (r: Result<seq<int>, string>)
      reads db
      ensures r.Failure? <==> offset < 0 || limit < 0
      ensures offset < 0 ==> r == Failure(NegativeOffset)
      ensures 0 <= offset && limit < 0 ==> r == Failure(NegativeLimit)
      ensures r.Success? ==> exists all :: IsListing(db.polls, sortBy, all) && r.value == Page(all, offset, limit)
      ensures r.Success? ==> |r.value| <= limit
      ensures r.Success? ==> NoDuplicates(r.value) && SortedDesc(db.polls, r.value, sortBy)
    {
      if offset < 0 then Failure(NegativeOffset)
      else if limit < 0 then Failure(NegativeLimit)
      else
        var all := Listing(db.polls, db.polls.Keys, sortBy);
        Success(Page(all, offset, limit))
    }
  }
}
