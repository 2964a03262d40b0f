/**
 * The tables behind the poll and vote repositories: polls, their options,
 * the like and dislike association tables, and the votes (at most one per
 * user and poll, by the unique constraint on the vote table). Only the
 * table-level effect of the SQL statements is modelled.
 */
module PollTables {
  import opened Wrappers

  /** A row of `polls`, without its id. Times are integers. */
  datatype PollRow = PollRow(
    title: string,
    description: Option<string>,
    createdAt: int,
    expiresAt: Option<int>,
    createdBy: int,
    likes: int,
    dislikes: int)

  /** A row of `poll_options`, without its id. */
  datatype OptionRow = OptionRow(pollId: int, text: string, votes: int)

  /**
   * All tables. `likes` and `dislikes` hold (user id, poll id) pairs; `votes`
   * maps (user id, poll id) to the chosen option id; the two counters are
   * the next ids the database hands out.
   */
  datatype Tables = Tables(
    polls: map<int, PollRow>,
    options: map<int, OptionRow>,
    likes: set<(int, int)>,
    dislikes: set<(int, int)>,
    votes: map<(int, int), int>,
    nextPollId: int,
    nextOptionId: int)

  /**
   * The integrity the database keeps: every foreign key between these tables
   * names an existing row, a vote's option belongs to the vote's poll, and
   * ids already handed out are below the counters. The keys into `users` are
   * not modelled.
   */
  predicate Consistent(t: Tables)
  {
    && (forall p :: p in t.polls ==> p < t.nextPollId)
    && (forall o :: o in t.options ==> o < t.nextOptionId && t.options[o].pollId in t.polls)
    && (forall k :: k in t.likes ==> k.1 in t.polls)
    && (forall k :: k in t.dislikes ==> k.1 in t.polls)
    && (forall k :: k in t.votes ==> t.votes[k] in t.options && t.options[t.votes[k]].pollId == k.1)
  }

  /** The length of the `String(255)` columns `polls.title` and `poll_options.text`. */
  const MaxTextLength: nat := 255

  /**
   * Whether `varchar(255)` accepts `s`: PostgreSQL refuses a longer value
   * unless everything past the 255th character is spaces.
   */
  predicate Storable(s: string)
  {
    forall i :: MaxTextLength <= i < |s| ==> s[i] == ' '
  }

  /** What a `varchar(255)` column keeps of `s`: the excess spaces are cut off. */
  function Stored(s: string): (r: string)
    ensures |r| <= MaxTextLength
    ensures |s| <= MaxTextLength ==> r == s
  {
    if |s| <= MaxTextLength then s else s[..MaxTextLength]
  }

  /** An accepted value is kept up to trailing spaces only: the prefix stored, then nothing but spaces. */
  lemma StoredCutsOnlySpaces(s: string)
    requires Storable(s)
    ensures Stored(s) <= s
    ensures forall i :: |Stored(s)| <= i < |s| ==> s[i] == ' '
  {
  }

  /** 255 characters followed by a space are accepted, and stored without the space. */
  lemma TrailingSpaceIsCut(s: string)
    requires |s| == MaxTextLength
    ensures Storable(s + " ") && Stored(s + " ") == s
  {
    assert (s + " ")[..MaxTextLength] == s;
  }

  /** A value with a character other than a space past the 255th is stored by no `varchar(255)`. */
  lemma NotStorableWitness(s: string)
    requires |s| > MaxTextLength && s[MaxTextLength] != ' '
    ensures !Storable(s)
  {
  }

  /** Every stored title and option text fits its column. */
  predicate ColumnsFit(t: Tables)
  {
    && (forall p :: p in t.polls ==> |t.polls[p].title| <= MaxTextLength)
    && (forall o :: o in t.options ==> |t.options[o].text| <= MaxTextLength)
  }

  /** The rows of an association table that name `poll`. */
  function RowsFor(rows: set<(int, int)>, poll: int): set<(int, int)>
  {
    set k | k in rows && k.1 == poll
  }

  /** `SELECT count(*) ... WHERE poll_id = poll` on an association table. */
  function CountFor(rows: set<(int, int)>, poll: int): nat
  {
    |RowsFor(rows, poll)|
  }

  /** The (user, poll) keys of the votes naming `option`. */
  function VotersOf(votes: map<(int, int), int>, option: int): set<(int, int)>
  {
    set k | k in votes && votes[k] == option
  }

  /** The number of vote rows naming `option`. */
  function VoteCount(votes: map<(int, int), int>, option: int): nat
  {
    |VotersOf(votes, option)|
  }

  /** No user both likes and dislikes the same poll. */
  predicate LikesExclusive(t: Tables)
  {
    t.likes * t.dislikes == {}
  }

  /** Every poll's counters are the numbers of its like and dislike rows. */
  predicate CountersMatch(t: Tables)
  {
    forall p :: p in t.polls ==> t.polls[p].likes == CountFor(t.likes, p) && t.polls[p].dislikes == CountFor(t.dislikes, p)
  }

  /** Every option's `votes` is the number of votes naming it. */
  predicate VoteCountsMatch(t: Tables)
  {
    forall o :: o in t.options ==> t.options[o].votes == VoteCount(t.votes, o)
  }

  /** Some element of a non-empty set. */
  ghost function AnyOf<X>(s: set<X>): (x: X)
    requires s != {}
    ensures x in s
  {
    var x :| x in s; x
  }

  // ---------------------------------------------------------------------------
  // Counting lemmas
  // ---------------------------------------------------------------------------

  /** Adding or removing a row of one poll does not change the rows of another. */
  lemma RowsForOtherPoll(rows: set<(int, int)>, k: (int, int), poll: int)
    requires k.1 != poll
    ensures RowsFor(rows + {k}, poll) == RowsFor(rows, poll)
    ensures RowsFor(rows - {k}, poll) == RowsFor(rows, poll)
  {
  }

  /**
   * Re-pointing the vote under `k` at `option` leaves the voters of every
   * option other than the old and the new one unchanged.
   */
  lemma VotersOfOtherOption(votes: map<(int, int), int>, k: (int, int), option: int, other: int)
    requires other != option
    requires k in votes ==> other != votes[k]
    ensures VotersOf(votes[k := option], other) == VotersOf(votes, other)
  {
  }

  /** Removing votes that do not name `option` leaves its voters unchanged. */
  lemma VotersOfSubmap(votes: map<(int, int), int>, kept: map<(int, int), int>, option: int)
    requires forall k :: k in kept ==> k in votes && kept[k] == votes[k]
    requires forall k :: k in votes && votes[k] == option ==> k in kept
    ensures VotersOf(kept, option) == VotersOf(votes, option)
  {
  }

  // ---------------------------------------------------------------------------
  // The tables as mutable state
  // ---------------------------------------------------------------------------

  /** The database session the repositories write through. */
  class Database {
    var polls: map<int, PollRow>
    var options: map<int, OptionRow>
    var likes: set<(int, int)>
    var dislikes: set<(int, int)>
    var votes: map<(int, int), int>
    var nextPollId: int
    var nextOptionId: int

    ghost function State(): Tables
      reads this
    {
      Tables(polls, options, likes, dislikes, votes, nextPollId, nextOptionId)
    }

    ghost predicate Valid()
      reads this
    {
      Consistent(State())
    }

    /** Empty tables; ids start at 1. */
    constructor ()
      ensures State() == Tables(map[], map[], {}, {}, map[], 1, 1)
      ensures Valid()
    {
      polls, options := map[], map[];
      likes, dislikes := {}, {};
      votes := map[];
      nextPollId, nextOptionId := 1, 1;
    }
  }
}
