/**
 * The PostgreSQL vote repository over the tables of `PollTables`: casting a
 * vote (one per user and poll, changed in place when the user votes again),
 * resynchronising option vote counts to the exact number of votes, and the
 * two lookups of a user's votes.
 */
module VotesRepository {
  import opened Wrappers
  import opened PollTables

  /** A vote row, without its id and creation time. */
  datatype Vote = Vote(userId: int, pollId: int, optionId: int)

  /** The vote a client casts. */
  datatype VoteCreate = VoteCreate(pollId: int, optionId: int)

  const OptionNotInPoll: string := "Option does not belong to poll"

  // ---------------------------------------------------------------------------
  // _sync_option_vote_counts
  // ---------------------------------------------------------------------------

  /** The tables after the options in `ids` get their exact vote counts; ids of no option are ignored. */
  function Resynced(t: Tables, ids: set<int>): (r: Tables)
    ensures r.options.Keys == t.options.Keys
    ensures forall o :: o in r.options && o in ids ==> r.options[o] == t.options[o].(votes := VoteCount(t.votes, o))
    ensures forall o :: o in r.options && o !in ids ==> r.options[o] == t.options[o]
    ensures r.polls == t.polls && r.likes == t.likes && r.dislikes == t.dislikes && r.votes == t.votes
    ensures r.nextPollId == t.nextPollId && r.nextOptionId == t.nextOptionId
  {
    t.(options := map o | o in t.options :: if o in ids then t.options[o].(votes := VoteCount(t.votes, o)) else t.options[o])
  }

  /** Resynchronising no option changes nothing. */
  lemma ResyncedNothing(t: Tables)
    ensures Resynced(t, {}) == t
  {
    assert Resynced(t, {}).options == t.options;
  }

  /**
   * Resynchronising the options whose counts may be off makes every count
   * exact again, and leaves the tables consistent.
   */
  lemma ResyncedRestoresCounts(t: Tables, ids: set<int>)
    requires forall o :: o in t.options && o !in ids ==> t.options[o].votes == VoteCount(t.votes, o)
    ensures VoteCountsMatch(Resynced(t, ids))
    ensures Consistent(t) ==> Consistent(Resynced(t, ids))
  {
  }

  /** Resynchronising counts touches no key, so it keeps the tables consistent. */
  lemma ResyncedKeepsConsistent(t: Tables, ids: set<int>)
    requires Consistent(t)
    ensures Consistent(Resynced(t, ids))
  {
  }

  // ---------------------------------------------------------------------------
  // cast_vote
  // ---------------------------------------------------------------------------

  /** What `cast_vote` returns, and the tables it leaves. */
  datatype CastResult = CastResult(vote: Result<Vote, string>, tables: Tables)

  /**
   * `cast_vote` as a transition: an option missing or of another poll is
   * refused; the same option again changes nothing; a different option
   * re-points the user's vote and resynchronises the old and the new option;
   * a first vote is inserted and its option resynchronised.
   */
  function Cast(t: Tables, userId: int, payload: VoteCreate): (r: CastResult)
    ensures r.vote.Failure? <==> payload.optionId !in t.options || t.options[payload.optionId].pollId != payload.pollId
    ensures r.vote.Failure? ==> r.vote.error == OptionNotInPoll && r.tables == t
    ensures r.vote.Success? ==> r.vote.value == Vote(userId, payload.pollId, payload.optionId)
    ensures r.vote.Success? ==> r.tables.votes == t.votes[(userId, payload.pollId) := payload.optionId]
    ensures r.vote.Success? && (userId, payload.pollId) in t.votes && t.votes[(userId, payload.pollId)] == payload.optionId ==>
      r.tables == t
  {
    if payload.optionId !in t.options || t.options[payload.optionId].pollId != payload.pollId then
      CastResult(Failure(OptionNotInPoll), t)
    else
      var key := (userId, payload.pollId);
      var vote := Vote(userId, payload.pollId, payload.optionId);
      var changed := t.(votes := t.votes[key := payload.optionId]);
      if key in t.votes then
        if t.votes[key] == payload.optionId then
          assert t.votes[key := payload.optionId] == t.votes;
          CastResult(Success(vote), t)
        else
          CastResult(Success(vote), Resynced(changed, {t.votes[key], payload.optionId}))
      else
        CastResult(Success(vote), Resynced(changed, {payload.optionId}))
  }

  /**
   * A successful vote resynchronises the option it names and the one the
   * user's vote named before, if any; every other option is left alone.
   */
  lemma CastResyncsTouchedOptions(t: Tables, userId: int, payload: VoteCreate)
    requires Cast(t, userId, payload).vote.Success?
    requires (userId, payload.pollId) !in t.votes || t.votes[(userId, payload.pollId)] != payload.optionId
    ensures var r := Cast(t, userId, payload).tables;
      var touched := if (userId, payload.pollId) in t.votes then {t.votes[(userId, payload.pollId)], payload.optionId} else {payload.optionId};
      && r.options.Keys == t.options.Keys
      && (forall o :: o in r.options && o in touched ==> r.options[o].votes == VoteCount(r.votes, o))
      && (forall o :: o in r.options && o !in touched ==> r.options[o] == t.options[o])
  {
  }

  /** Casting a vote keeps every option count exact. */
  lemma CastKeepsVoteCounts(t: Tables, userId: int, payload: VoteCreate)
    requires VoteCountsMatch(t)
    ensures VoteCountsMatch(Cast(t, userId, payload).tables)
  {
    var r := Cast(t, userId, payload);
    var key := (userId, payload.pollId);
    if r.vote.Success? && !(key in t.votes && t.votes[key] == payload.optionId) {
      var changed := t.(votes := t.votes[key := payload.optionId]);
      var touched := if key in t.votes then {t.votes[key], payload.optionId} else {payload.optionId};
      assert r.tables == Resynced(changed, touched);
      forall o | o in changed.options && o !in touched
        ensures changed.options[o].votes == VoteCount(changed.votes, o)
      {
        VotersOfOtherOption(t.votes, key, payload.optionId, o);
      }
      ResyncedRestoresCounts(changed, touched);
    }
  }

  /** Casting a vote keeps every vote pointing at an option of its own poll. */
  lemma CastKeepsConsistent(t: Tables, userId: int, payload: VoteCreate)
    requires Consistent(t)
    ensures Consistent(Cast(t, userId, payload).tables)
  {
    var r := Cast(t, userId, payload);
    var key := (userId, payload.pollId);
    if r.vote.Success? && !(key in t.votes && t.votes[key] == payload.optionId) {
      var changed := t.(votes := t.votes[key := payload.optionId]);
      var touched := if key in t.votes then {t.votes[key], payload.optionId} else {payload.optionId};
      assert r.tables == Resynced(changed, touched);
      forall k | k in changed.votes
        ensures changed.votes[k] in changed.options && changed.options[changed.votes[k]].pollId == k.1
      {
        if k != key {
          assert changed.votes[k] == t.votes[k];
        }
      }
      ResyncedKeepsConsistent(changed, touched);
    }
  }

  /** Casting a vote keeps every option count exact, and the tables consistent. */
  lemma CastKeepsInvariants(t: Tables, userId: int, payload: VoteCreate)
    ensures var r := Cast(t, userId, payload).tables;
      && (VoteCountsMatch(t) ==> VoteCountsMatch(r))
      && (Consistent(t) ==> Consistent(r))
      && (CountersMatch(t) ==> CountersMatch(r))
      && (LikesExclusive(t) ==> LikesExclusive(r))
  {
    if VoteCountsMatch(t) {
      CastKeepsVoteCounts(t, userId, payload);
    }
    if Consistent(t) {
      CastKeepsConsistent(t, userId, payload);
    }
  }

  /** Voting again for the same option changes nothing. */
  lemma CastIdempotent(t: Tables, userId: int, payload: VoteCreate)
    ensures var once := Cast(t, userId, payload);
      Cast(once.tables, userId, payload) == once
  {
  }

  // ---------------------------------------------------------------------------
  // The repository
  // ---------------------------------------------------------------------------

  class PostgresVoteRepository {
    const db: Database

    constructor (db: Database)
      ensures this.db == db
    {
      this.db := db;
    }

    /** `get_user_vote_for_poll`: the user's vote in the poll, if there is one. */
    method GetUserVoteForPoll(userId: int, pollId: int) returns (r: Option<Vote>)
      ensures r.Some? <==> (userId, pollId) in db.votes
      ensures r.Some? ==> r.value == Vote(userId, pollId, db.votes[(userId, pollId)])
    {
      if (userId, pollId) in db.votes {
        return Some(Vote(userId, pollId, db.votes[(userId, pollId)]));
      }
      return None;
    }

    /**
     * `list_user_votes_for_polls`: for each of the polls the user voted in,
     * the option chosen; nothing for an empty list of polls.
     */
    method ListUserVotesForPolls(userId: int, pollIds: seq<int>) returns (r: map<int, int>)
      ensures pollIds == [] ==> r == map[]
      ensures forall p :: p in r <==> p in pollIds && (userId, p) in db.votes
      ensures forall p :: p in r ==> r[p] == db.votes[(userId, p)]
    {
      if pollIds == [] {
        return map[];
      }
      r := map p | p in pollIds && (userId, p) in db.votes :: db.votes[(userId, p)];
    }

    /** `_sync_option_vote_counts`: each listed option's `votes` becomes the exact number of votes naming it. */
    method SyncOptionVoteCounts(optionIds: seq<int>)
      modifies db
      ensures db.State() == Resynced(old(db.State()), set o | o in optionIds)
    {
      if optionIds == [] {
        ResyncedNothing(db.State());
        assert (set o | o in optionIds) == {};
        return;
      }
      // the grouped count query: the listed options with at least one vote
      var rows := set o | o in optionIds && VoteCount(db.votes, o) > 0;
      var counts: map<int, int> := map o | o in optionIds :: 0;
      var pending := rows;
      while pending != {}
        invariant unchanged(db)
        invariant pending <= rows
        invariant counts.Keys == set o | o in optionIds
        invariant forall o :: o in counts ==> counts[o] == if o in pending then 0 else VoteCount(db.votes, o)
        decreases pending
      {
        ghost var some := AnyOf(pending);
        var oid :| oid in pending;
        counts := counts[oid := VoteCount(db.votes, oid)];
        pending := pending - {oid};
      }
      // one UPDATE per counted option; an id of no option updates nothing
      var todo := counts.Keys;
      while todo != {}
        invariant todo <= counts.Keys
        invariant db.options.Keys == old(db.options).Keys
        invariant forall o :: o in db.options ==>
          db.options[o] == if o in counts && o !in todo then old(db.options)[o].(votes := counts[o]) else old(db.options)[o]
        invariant db.polls == old(db.polls) && db.likes == old(db.likes) && db.dislikes == old(db.dislikes)
        invariant db.votes == old(db.votes) && db.nextPollId == old(db.nextPollId) && db.nextOptionId == old(db.nextOptionId)
        decreases todo
      {
        ghost var some := AnyOf(todo);
        var oid :| oid in todo;
        if oid in db.options {
          db.options := db.options[oid := db.options[oid].(votes := counts[oid])];
        }
        todo := todo - {oid};
      }
      ghost var target := Resynced(old(db.State()), set o | o in optionIds);
      forall o | o in db.options
        ensures db.options[o] == target.options[o]
      {
        if o in counts {
          assert counts[o] == VoteCount(old(db.votes), o);
        }
      }
      assert db.options == target.options;
    }

    /** `cast_vote`, with the tables it leaves given by `Cast`. */
    method CastVote(userId: int, payload: VoteCreate) returns (r: Result<Vote, string>)
      modifies db
      ensures Cast(old(db.State()), userId, payload) == CastResult(r, db.State())
    {
      if payload.optionId !in db.options || db.options[payload.optionId].pollId != payload.pollId {
        return Failure(OptionNotInPoll);
      }
      var existing := GetUserVoteForPoll(userId, payload.pollId);
      if existing.Some? {
        var previous := existing.value.optionId;
        if previous == payload.optionId {
          return Success(existing.value);
        }
        db.votes := db.votes[(userId, payload.pollId) := payload.optionId];
        assert (set o | o in [previous, payload.optionId]) == {previous, payload.optionId};
        SyncOptionVoteCounts([previous, payload.optionId]);
        return Success(Vote(userId, payload.pollId, payload.optionId));
      }
      db.votes := db.votes[(userId, payload.pollId) := payload.optionId];
      assert (set o | o in [payload.optionId]) == {payload.optionId};
      SyncOptionVoteCounts([payload.optionId]);
      r := Success(Vote(userId, payload.pollId, payload.optionId));
    }
  }
}
