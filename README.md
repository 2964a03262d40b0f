# Polls-App core, modelled in Dafny

This project models the in-memory and bookkeeping core of the Polls-App
backend (FastAPI, SQLAlchemy) and proves properties of it:

- **Event bus** (`event_bus.dfy`). Each live subscriber has a bounded queue.
  `publish` fans an event out to a snapshot of the subscribers. A full queue
  drops its oldest entry first. Each subscriber gets FIFO delivery, and its
  exit discards its queue.
- **Rate limiter** (`rate_limiting.dfy`). This is the in-memory sliding
  window: per key, the times of the granted requests. A call prunes that
  history, refuses at the limit, and otherwise records the call.
- **Dependency container** (`container.dfy`):
  - repository and service lookup by class name, where overrides win;
  - app-scoped caching of services built without arguments;
  - `temporary_override` with save, restore or remove;
  - `get_shared` and `clear_cache`;
  - the process-wide singleton with `get_instance` and `reset_instance`.
- **Log context scrubbing** (`decorators.dfy`). The service error logger
  drops `self` from the bound arguments and redacts sensitive keys.
- **Poll and vote repositories** (`poll_tables.dfy`, `polls_repository.dfy`,
  `votes_repository.dfy`). These are the SQL statements' effect on the
  tables:
  - likes and dislikes exclude each other, and the counters are recomputed
    from the association tables;
  - poll creation adds the options;
  - deletion cascades;
  - the listing is sorted and paged;
  - there is one vote per user and poll;
  - option vote counts are resynchronised to the exact number of votes.

There is one module per Python file. `Wrappers` holds `Option` (Python's
`None`) and `Result`. A `Failure` stands for the exception that the Python
method, or the database under it, raises, and carries its message.

Each state-changing operation follows one pattern. It is a method on a class
whose fields are the attributes or tables the Python method updates. Its
`ensures` ties the new state to a pure function of the old state: `Offer`,
`Decide`, `EnterOverride` / `ExitOverride`, `Liked`, `Disliked`, `Created`,
`Deleted`, `Cast` or `Resynced`. The laws the Python code promises are proved as lemmas about
those functions.

Modelling choices:

- **Clock.** Time is an integer. The rate limiter's `time.time()` is the
  parameter `now`. The database's `now()` default for `created_at` is the
  parameter `now` of `CreatePoll`.
- **Atomicity.** Every operation is atomic. The asyncio lock of the bus, and
  the threading locks and double-checked locking of the container, are not
  modelled. As a result, the snapshot `publish` takes is the subscriber set at
  the moment of the call.
- **Suspension.** The subscriber's suspending `await queue.get()` is
  `Receive` returning `Pending` when the queue is empty. Once the
  subscription has been discarded, `Receive` returns `EndOfStream`.
- **Instances.** Instances, sessions and mocks are abstract `Instance`
  values. Classes are their `__name__` strings. Constructors and factories
  are function parameters, and their `Failure` is the exception they raise.
- **Event types.** Event types are free strings. The services use
  "poll_created", "poll_updated" and "poll_deleted".
- **Tables.** `likes` and `dislikes` are `set<(user, poll)>`. `votes` is a
  `map<(user, poll), option>`, which is the unique constraint on
  `(user_id, poll_id)`. Polls and options are maps from id to row. Ids come
  from two counters standing for the database's sequences, which never give
  an id back: a failed insert may use ids up.
- **Cascades.** Deleting a poll removes its options, its votes (through both
  the poll's and the options' `delete-orphan` cascades) and its like and
  dislike rows (the many-to-many secondary tables).
- **Database errors.** Two errors come from PostgreSQL rather than from the
  Python code, and carry its messages. One is a value too long for a
  `String(255)` column. PostgreSQL refuses such a value unless every
  character past the 255th is a space; those spaces it cuts off. The other
  is a negative `OFFSET` or `LIMIT`, which the request schema lets through
  unchecked.
- **Listing order.** The order of polls with equal sort keys is not fixed
  by the query. So `ListPollsDetailed` promises a page of *some* valid
  ordering. It is a ghost function over one such ordering, `Listing`.

## Model

| member | source | states |
|---|---|---|
| EventBus.PollEventBus.constructor | backend/api/events/bus.py:23-26 | a new bus (capacity > 0) has no subscribers and no queues |
| EventBus.PollEventBus.Subscribe | backend/api/events/bus.py:49-52 | exactly one new id joins the subscribers with an empty queue; the id was never handed out before (a new queue object), so a discarded subscription never comes back; nothing else changes |
| EventBus.PollEventBus.Publish | backend/api/events/bus.py:28-44 | each queue of the snapshot becomes `Offer(old queue, e)`, at most capacity long and ending with `e`; the subscriber set is unchanged; with no subscribers nothing changes |
| EventBus.Offer | backend/api/events/bus.py:35-44 | the queue after one offer holds the newest `capacity` events of `q + [e]`: `q + [e]` when not full, `q[1..] + [e]` (exactly the oldest dropped) when full; never empty, never over capacity, last element `e` |
| EventBus.OfferAll | backend/api/events/bus.py:34-44 | a run of publishes keeps the queue within capacity and ending with the last published event |
| EventBus.OfferAllKeepsNewest | backend/api/events/bus.py:34-44 | a run of publishes on one queue leaves exactly the newest `capacity` events of old queue + published events, in publish order |
| EventBus.ReplayPreservesOrder | backend/api/events/bus.py:34-57 | over any interleaving of publishes and receives, delivered events followed by pending ones are a subsequence of the initial queue followed by everything published (FIFO, no reordering, nothing invented) |
| EventBus.Replay | backend/api/events/bus.py:34-57 | replaying publishes and receives never lets the pending queue exceed its capacity |
| EventBus.PollEventBus.Receive | backend/api/events/bus.py:54-57 | a live subscriber with pending events gets the oldest one, which is removed; with none it waits (`Pending`); a discarded subscription ends (`EndOfStream`) |
| EventBus.PollEventBus.Unsubscribe | backend/api/events/bus.py:58-60 | the id leaves the subscribers and its queue is discarded; an absent id changes nothing |
| EventBus.LateSubscriberScenario | backend/api/events/bus.py:28-57 | a subscriber that joins after an event was published receives only the later events |
| EventBus.LeftSubscriberScenario | backend/api/events/bus.py:46-60 | a subscriber that left sees the end of its stream while the others keep receiving, and stays ended after a new subscription |
| EventBus.OverflowScenario | backend/api/events/bus.py:37-44 | with capacity 2, three undrained events leave the last two |
| RateLimiting.Prune | backend/api/utils/rate_limiting.py:25-28 | keeps each timestamp `t` with `now - t < window` exactly as often as it occurs and drops every other; never longer than the input |
| RateLimiting.PruneTwice | backend/api/utils/rate_limiting.py:25-28 | pruning at an earlier clock and then at a later one is pruning at the later one |
| RateLimiting.RateLimiter.constructor | backend/api/utils/rate_limiting.py:16-17 | a new limiter remembers no key |
| RateLimiting.RateLimiter.IsAllowed | backend/api/utils/rate_limiting.py:19-36 | a new key starts with an empty history; the key's history becomes the pruned one (also on refusal), with `now` appended exactly when allowed; allowed iff the pruned history is shorter than `max_requests`; other keys' histories unchanged |
| RateLimiting.NonPositiveLimitRefusesAll | backend/api/utils/rate_limiting.py:31-32 | with `max_requests <= 0` every call is refused |
| RateLimiting.DecideKeepsWindow | backend/api/utils/rate_limiting.py:25-36 | with a positive window, after a call the history holds only times inside the window ending at `now` |
| RateLimiting.DecideBounded | backend/api/utils/rate_limiting.py:31-36 | a history within `max_requests` stays within it after a call |
| RateLimiting.ReplayBounded | backend/api/utils/rate_limiting.py:31-36 | with a fixed `max_requests`, a history that starts within it stays within it over any run of calls |
| RateLimiting.ReplayHistoryIsWindow | backend/api/utils/rate_limiting.py:19-36 | on a clock that never goes backwards, after a run the history is exactly the granted times still inside the window ending at the last call |
| RateLimiting.GrantedPerWindowBounded | backend/api/utils/rate_limiting.py:19-36 | on such a clock, no window ending at a call holds more than `max_requests` granted requests |
| Container.Wrapped | backend/api/container.py:86-89 | a failing constructor becomes the error "Failed to create <kind> <name>: <message>"; a success passes through |
| Container.ContainsIffOccurs | backend/api/container.py:162 | `Contains(name, "Service")` holds iff "Service" occurs at some position of the name |
| Container.DependencyContainer.constructor | backend/api/container.py:40-44 | a new container has empty override, service and shared tables |
| Container.DependencyContainer.GetRepository | backend/api/container.py:61-89 | an override under the class name is returned; otherwise the class is built with the session when one is given, failures wrapped, and nothing cached |
| Container.DependencyContainer.GetService | backend/api/container.py:91-129 | an entry under the name is returned whatever the arguments; without arguments a new service is built once and cached on success; with arguments it is built and not cached; failures wrapped |
| Container.GetServiceTwice | backend/api/container.py:111-121 | two lookups without arguments return the same service once the first succeeded |
| Container.EnterOverride | backend/api/container.py:145-166 | an existing service entry is overridden first, then a repository entry; a new name goes to the services exactly when it contains "Service"; the overridden table maps the name to the instance, the other table is unchanged, and the token remembers the original entry |
| Container.ExitOverride | backend/api/container.py:170-183 | leaving puts the remembered entry back, or removes the key when there was none; nothing else changes |
| Container.ExitAfterEnterRestores | backend/api/container.py:145-183 | entering and leaving an override restores both tables exactly |
| Container.DependencyContainer.BeginOverride | backend/api/container.py:145-166 | the tables become `EnterOverride` of the old ones; shared values untouched |
| Container.DependencyContainer.EndOverride | backend/api/container.py:170-183 | the tables become `ExitOverride` of the current ones; shared values untouched |
| Container.OverrideServiceScenario | backend/tests/test_container_example.py:36-44 | for a name already among the services, or a new name containing "Service", `GetService` returns the mock inside the override, and the tables are restored afterwards |
| Container.OverrideRepositoryScenario | backend/tests/test_container_example.py:73-76 | inside an override of a repository name, `GetRepository` returns the mock, and the tables are restored afterwards |
| Container.DependencyContainer.ClearCache | backend/api/container.py:185-190 | all three tables are empty |
| Container.DependencyContainer.GetShared | backend/api/container.py:192-197 | the factory is called only when the key is absent, and its value is kept; a present key returns its value unchanged |
| Container.GetSharedTwice | backend/api/container.py:192-197 | a second `GetShared` returns the first value, whatever factory it is given |
| Container.InstanceRegistry.GetInstance | backend/api/container.py:46-53 | the existing container is returned; when there is none a new, empty one is made and kept |
| Container.InstanceRegistry.ResetInstance | backend/api/container.py:55-59 | no container is kept |
| Container.ResetGivesNewContainer | backend/tests/test_container_example.py:110-119 | after a reset `GetInstance` hands out a different, new, empty container |
| Decorators.ScrubContext | backend/api/utils/decorators.py:12-14 | same keys as the input; `password`, `hashed_password`, `token`, `access_token` map to "<redacted>", all other values unchanged |
| Decorators.ScrubIdempotent | backend/api/utils/decorators.py:12-14 | scrubbing twice equals scrubbing once |
| Decorators.ScrubbedIsFixpoint | backend/api/utils/decorators.py:12-14 | a context with no sensitive value left is unchanged by scrubbing |
| Decorators.LogContext | backend/api/utils/decorators.py:30-33 | the logged context has the bound arguments' keys minus "self", no sensitive value, and every other value unchanged |
| Decorators.LogContextIsScrubbed | backend/api/utils/decorators.py:63-66 | the logged context is a fixpoint of scrubbing |
| PollTables.Database.constructor | backend/api/models/polls.py:7-40 | empty tables, consistent |
| PollTables.Stored | backend/api/models/polls.py:26-49 | a `varchar(255)` column keeps at most 255 characters, and a value that short unchanged |
| PollTables.StoredCutsOnlySpaces | backend/api/models/polls.py:26-49 | for an accepted value, what is kept is a prefix and everything cut off is spaces |
| PollTables.TrailingSpaceIsCut | backend/api/models/polls.py:26-49 | 255 characters and a space are accepted and stored as the 255 characters |
| PollTables.NotStorableWitness | backend/api/models/polls.py:26-49 | a value with a non-space as its 256th character is refused |
| PollsRepository.NewOptions | backend/api/repos/postgres/polls.py:22-23 | one option row per text, with consecutive ids in payload order, each naming the poll, holding what its column keeps of the text, and with 0 votes |
| PollsRepository.Created | backend/api/repos/postgres/polls.py:15-27 | the new poll gets the next id, the payload's fields (the title as its column keeps it), `created_at = now` and zero counters; the options are added by `NewOptions`; no other row changes |
| PollsRepository.CreatedOptionsOfPoll | backend/api/repos/postgres/polls.py:22-23 | the new poll's options are exactly the ids made for its payload texts |
| PollsRepository.CreatedKeepsInvariants | backend/api/repos/postgres/polls.py:15-27 | creating a poll keeps the tables consistent, likes exclusive and all counters exact |
| PollsRepository.CreatedKeepsColumnsFit | backend/api/models/polls.py:26-49 | creating a poll keeps every stored title and option text within its 255-character column |
| PollsRepository.PostgresPollRepository.NewOptionRows | backend/api/repos/postgres/polls.py:22-23 | the loop appending the options builds exactly `NewOptions` of the payload texts |
| PollsRepository.PostgresPollRepository.CreatePoll | backend/api/repos/postgres/polls.py:15-27 | a title or option text with a non-space past the 255th character makes the insert fail: no row is stored, and the ids it drew are not reused; otherwise returns the next poll id and leaves `Created` of the old tables, still consistent |
| PollsRepository.Liked | backend/api/repos/postgres/polls.py:108-134 | after a like, (user, poll) is in likes and not in dislikes, rows of other pairs are unchanged, and the poll's counters are its row counts |
| PollsRepository.Disliked | backend/api/repos/postgres/polls.py:149-175 | after a dislike, (user, poll) is in dislikes and not in likes, rows of other pairs are unchanged, and the poll's counters are its row counts |
| PollsRepository.LikedKeepsInvariants | backend/api/repos/postgres/polls.py:108-134 | liking keeps likes and dislikes exclusive, every poll's counters exact and the tables consistent |
| PollsRepository.DislikedKeepsInvariants | backend/api/repos/postgres/polls.py:149-175 | the same for disliking |
| PollsRepository.LikedIdempotent | backend/api/repos/postgres/polls.py:116-124 | liking twice leaves the same tables as liking once |
| PollsRepository.DislikedIdempotent | backend/api/repos/postgres/polls.py:157-165 | disliking twice leaves the same tables as disliking once |
| PollsRepository.DislikedAfterLiked | backend/api/repos/postgres/polls.py:100-180 | disliking after liking is disliking alone |
| PollsRepository.LikedAfterDisliked | backend/api/repos/postgres/polls.py:100-180 | liking after disliking is liking alone |
| PollsRepository.PostgresPollRepository.LikePoll | backend/api/repos/postgres/polls.py:100-139 | a missing poll fails with "Poll not found" and changes nothing; otherwise the tables become `Liked` and the updated poll is returned |
| PollsRepository.PostgresPollRepository.DislikePoll | backend/api/repos/postgres/polls.py:141-180 | a missing poll fails with "Poll not found" and changes nothing; otherwise the tables become `Disliked` and the updated poll is returned |
| PollsRepository.Deleted | backend/api/repos/postgres/polls.py:182-187 | a missing poll changes nothing; otherwise the poll, its options, its like and dislike rows, and its votes are removed, and every other row is unchanged |
| PollsRepository.DeletedKeepsInvariants | backend/api/models/polls.py:36-40 | after a delete nothing refers to the poll, and the tables stay consistent with likes exclusive and counts exact |
| PollsRepository.PostgresPollRepository.DeletePoll | backend/api/repos/postgres/polls.py:182-187 | the tables become `Deleted` of the old ones |
| PollsRepository.Page | backend/api/repos/postgres/polls.py:62-63 | `OFFSET`/`LIMIT` with non-negative values: the entries from `offset` on, at most `limit` of them, none when `offset` is past the end |
| PollsRepository.PagesJoin | backend/api/repos/postgres/polls.py:62-63 | two consecutive pages make up the page spanning both |
| PollsRepository.MaxOf | backend/api/repos/postgres/polls.py:52-61 | a poll whose sort key is at least every other's |
| PollsRepository.Listing | backend/api/repos/postgres/polls.py:51-66 | lists every poll once, in descending order of `created_at` (for "created_at") or of `likes` (anything else) |
| PollsRepository.ListingLength | backend/api/repos/postgres/polls.py:51-66 | every valid ordering holds as many entries as there are polls |
| PollsRepository.PostgresPollRepository.ListPollsDetailed | backend/api/repos/postgres/polls.py:51-66 | fails iff the offset or the limit is negative, with the database's error for the offset first; otherwise the result is `Page(offset, limit)` of some valid ordering: at most `limit` polls, no duplicates, descending by the sort column |
| VotesRepository.Resynced | backend/api/repos/postgres/votes.py:62-78 | each listed option gets `votes` = the number of votes naming it (0 when none); other options and all other tables unchanged; unknown ids ignored |
| VotesRepository.ResyncedNothing | backend/api/repos/postgres/votes.py:63-64 | resynchronising no option changes nothing |
| VotesRepository.ResyncedRestoresCounts | backend/api/repos/postgres/votes.py:62-78 | resynchronising every option whose count may be off makes all counts exact |
| VotesRepository.ResyncedKeepsConsistent | backend/api/repos/postgres/votes.py:75-78 | recounting options keeps the tables consistent |
| VotesRepository.PostgresVoteRepository.SyncOptionVoteCounts | backend/api/repos/postgres/votes.py:62-78 | the tables become `Resynced` of the old ones for the listed ids (unchanged for an empty list) |
| VotesRepository.Cast | backend/api/repos/postgres/votes.py:14-43 | fails with "Option does not belong to poll" and changes nothing iff the option is missing or of another poll; on success the user's one vote in the poll names the requested option, and a vote for the option already chosen changes no table |
| VotesRepository.CastResyncsTouchedOptions | backend/api/repos/postgres/votes.py:28-43 | a changed or new vote resynchronises the old and the new option exactly and leaves every other option alone |
| VotesRepository.CastKeepsVoteCounts | backend/api/repos/postgres/votes.py:28-43 | casting keeps every option's vote count exact |
| VotesRepository.CastKeepsConsistent | backend/api/repos/postgres/votes.py:14-43 | casting keeps every vote pointing at an option of its own poll |
| VotesRepository.CastKeepsInvariants | backend/api/repos/postgres/votes.py:14-43 | casting keeps every option count exact, the tables consistent, likes exclusive and poll counters exact |
| VotesRepository.CastIdempotent | backend/api/repos/postgres/votes.py:24-27 | voting again for the same option changes nothing and returns the same vote |
| VotesRepository.PostgresVoteRepository.CastVote | backend/api/repos/postgres/votes.py:14-43 | the returned vote and the new tables are those `Cast` gives for the old tables |
| VotesRepository.PostgresVoteRepository.GetUserVoteForPoll | backend/api/repos/postgres/votes.py:45-49 | returns a vote iff the user voted in the poll, and then the vote naming the chosen option |
| VotesRepository.PostgresVoteRepository.ListUserVotesForPolls | backend/api/repos/postgres/votes.py:51-60 | an empty list of polls gives {}; otherwise the keys are exactly the listed polls the user voted in, each mapped to the chosen option |

## Left out

- Locks: the asyncio lock of the bus and the threading locks and double-checked locking of the container. Every operation is atomic, so interleavings inside `publish` are not modelled.
- The `QueueEmpty` branch of `publish`. It cannot run with a positive capacity, and the bus requires `max_queue_size > 0`; with 0 or less, asyncio queues are unbounded, which is not modelled.
- `build_poll_event` and the poll snapshot payload: Pydantic serialisation. The payload is an opaque type parameter.
- The SSE framing with `json.dumps` in the polls router: transport.
- The services (poll, vote, user): async orchestration of repository calls and event publishing.
- The `rate_limit` decorator and `_extract_request`: FastAPI `Request` plumbing and the HTTP 429 response.
- The logging calls and the `inspect` signature binding of `service_error_logger`. The bound arguments are the input of `LogContext`.
- Session behaviour: `flush`, `commit`, `refresh`, row locking with `with_for_update`, eager loading. Each repository method changes the tables in one step, and returned polls are rows without their relationships.
- `get_poll`, `list_polls`, `get_poll_with_users` and `list_polls_by_user_detailed`: plain reads outside the modelled core.
- `updated_at`, which the ORM sets on update, and `NULL` values in nullable columns (`likes`, `created_at`, which sort first in descending order).
- Auth (bcrypt, JWT), routers, middlewares, engine setup, migrations, configuration, schemas and exceptions: I/O or framework glue.
- Wall-clock time: `time.time()` floats and `now()` are integer parameters. `RateLimiting.RateLimiter.IsAllowed`'s window arithmetic uses integers, not floats.
- Container.DependencyContainer.BeginOverride: a stored `None` value in a table is not modelled; the source would treat it as "no original" and remove the key on exit.
- RateLimiting.DecideKeepsWindow, RateLimiting.ReplayHistoryIsWindow, RateLimiting.GrantedPerWindowBounded: stated for a positive window only. With a window of 0 or less, the pruned history is empty however recent the requests are.
- Container.OverrideServiceScenario: a new name that contains "Service" but is already registered as a repository is overridden among the repositories, and a later `GetService` could then cache a service that `EndOverride` does not remove. The scenario excludes that case.
