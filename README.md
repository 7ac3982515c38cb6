# Scheduled posts of linkedin-mcp, modelled in Dafny

linkedin-mcp is an MCP server that forwards tool calls to the LinkedIn API.
Its only stateful part is the scheduler. `ScheduledPostsDB` keeps a SQLite
table of posts to publish later. `run_scheduler` is started periodically from
outside. It publishes the posts whose time has come and records for each one
whether publishing succeeded or failed. Four tools (`schedule_post`,
`list_scheduled_posts`, `cancel_scheduled_post`, `get_scheduled_post`) sit on
top of the store. The auth tools mask tokens with `_mask_token` before echoing
them.

Layout (one module per file):

- `text_order.dfy` (`TextOrder`): the order SQLite applies to TEXT values. The
  `ORDER BY scheduled_time` and `scheduled_time <= ?` clauses use it. The
  module proves it is a total order.
- `posts.dfy` (`Posts`): a row of `scheduled_posts`, the three UPDATE
  statements as `Apply`, the due condition, and a row invariant (`Consistent`).
- `queries.dfy` (`Queries`): the table as a sequence of rows in insertion
  order. It holds the building blocks of the SQL statements: lookup by primary
  key, `WHERE`, a stable `ORDER BY scheduled_time`, `LIMIT`, and
  `UPDATE ... WHERE id = ?`.
- `scheduler_db.dfy` (`SchedulerDb`): class `ScheduledPostsDB` with field
  `rows`, its queries and updates, and the dispatch pass `RunScheduler` with
  its loop. `DispatchAll` is the specification of the loop. Lemmas say what a
  pass does to each row.
- `scheduler_tools.dfy` (`SchedulerTools`): the four tools. Each returns the
  fields of its JSON reply.
- `auth.dfy` (`Auth`): `_mask_token`.

Inputs the source reads from its environment are parameters here:

- the clock (`now`, `createdAt`);
- the fresh uuid (a `requires` that the id is not in the table);
- the parsed form of `scheduled_time` (`ParsedTime`);
- the rows already stored in an existing database file (`ScheduledPostsDB.Open`);
- the publishing client. The publisher is a sequence of outcomes: element `i`
  is what the `i`-th publish call of the pass returned, `Ok(urn)`, or the text
  of the exception it raised, `Err(message)`.

`StoreScenario` replays the repository's store test step by step. It adds a
post, reads it back, lists it, cancels it, and sees the second cancel refused.

Behaviour of the code that the model keeps, although it departs from the
intended lifecycle (pending, then published, failed or cancelled; the
`cancel_scheduled_post` docstring at src/linkedin_mcp/tools/scheduler.py:82
says a post must be pending to be cancelled):

- `mark_published` and `mark_failed` have no status guard. They rewrite any
  row with the given id. `FailingPublishedRowBreaksConsistency` shows that
  failing a published row leaves a failed row that still has `published_at`
  and `post_urn` set. Only `run_scheduler` calls them, and only on rows that
  were pending. The store's ghost predicate `AllConsistent` says every row
  satisfies the row invariant. `Add`, `Cancel`, `RunScheduler` and the two
  tools that write (`SchedulePost`, `CancelScheduledPost`) are proved to
  preserve it. `MarkPublished` and `MarkFailed` preserve it only when the row
  was pending or absent, and their contracts say exactly that.
- `list` passes `limit` straight to SQLite. A negative `LIMIT` means "no
  limit", so `list(limit=-1)` returns every matching row (`LimitCount`).
- `list` filters only when `status` is truthy. `None` and `""` both list
  every row (`NoFilterMatchesAll`). A status text that is not one of the four
  lists nothing.
- Commentary and visibility are stored as given. Nothing checks that the
  commentary is non-empty or that the visibility is one of the four values.
- `schedule_post` checks the time as a parsed instant. `get_due` compares the
  stored text with the text of `datetime.now(timezone.utc).isoformat()`, so a
  time written with a non-UTC offset is dispatched at the wrong instant, in
  either direction:
  - `2030-01-01T10:00:00+05:00` is the instant 05:00 UTC. Its text only
    compares below the clock text from 10:00 UTC on, so the post is published
    five hours late (`PositiveOffsetDueLate`).
  - `2030-01-01T10:00:00-05:00` is the instant 15:00 UTC. Already at
    10:00:00.000001 UTC its text compares below the clock text, because `-`
    sorts before `.`. So the post is published five hours early, while the
    guard of `schedule_post` would still call the time future
    (`NegativeOffsetDueEarly`).

  The model keeps the text comparison as written.

## Model

| member | source | states |
|---|---|---|
| TextOrder.LexLeReflexive | src/linkedin_mcp/scheduler_db.py:83 | every time text is `<=` itself, so a post scheduled exactly at `now` is due |
| TextOrder.LexLeTotal | src/linkedin_mcp/scheduler_db.py:70 | any two time texts are comparable, so ORDER BY scheduled_time is well defined |
| TextOrder.LexLeTransitive | src/linkedin_mcp/scheduler_db.py:70 | the TEXT order is transitive |
| TextOrder.LexLeAntisymmetric | src/linkedin_mcp/scheduler_db.py:70 | two texts ordered both ways are equal |
| TextOrder.LexLeCommonPrefix | src/linkedin_mcp/scheduler_db.py:83 | texts with a common prefix compare as their remainders do |
| Posts.StatusTextInjective | src/linkedin_mcp/scheduler_db.py:21 | the four status texts are distinct, so filtering by status text is filtering by status |
| Posts.NewPost | src/linkedin_mcp/scheduler_db.py:50-55 | defines the row the INSERT writes: the given columns, status pending, retry count 0, published_at, post_urn and error_message null |
| Posts.Apply | src/linkedin_mcp/scheduler_db.py:88-114 | the three UPDATEs never touch id, commentary, url, visibility, scheduled_time or created_at, and always leave a non-pending status |
| Posts.IsDue | src/linkedin_mcp/scheduler_db.py:83 | defines the WHERE clause of the due query: status pending and scheduled_time `<=` the clock text under the TEXT order |
| Posts.DueStaysDue | src/linkedin_mcp/scheduler_db.py:83 | a pending post due at `now` is due at every later time |
| Posts.UpdatedNeverDue | src/linkedin_mcp/scheduler_db.py:83 | after publish, failure or cancel a row is never selected as due again, at any time |
| Posts.NewPostConsistent | src/linkedin_mcp/scheduler_db.py:50-55 | an inserted row satisfies the row invariant (publication columns set iff published, error message iff retry count > 0) |
| Posts.ApplyToPendingConsistent | src/linkedin_mcp/scheduler_db.py:88-114 | any of the three updates applied to a consistent pending row keeps it consistent |
| Posts.FailingPublishedRowBreaksConsistency | src/linkedin_mcp/scheduler_db.py:97-103 | `mark_failed` has no status guard: applied to a published row it breaks the row invariant |
| Queries.Find | src/linkedin_mcp/scheduler_db.py:59-63 | the lookup finds a row with the id, and finds nothing exactly when no row has it |
| Queries.IndexOfDistinct | src/linkedin_mcp/scheduler_db.py:16 | with `id` a primary key, a row's id is found first at that row's own position |
| Queries.FindDistinct | src/linkedin_mcp/scheduler_db.py:16 | with `id` a primary key, the lookup of a row's id returns that row |
| Queries.FindAppended | src/linkedin_mcp/scheduler_db.py:48-57 | after inserting a row under a fresh id, that id finds the new row and every other id finds what it found before |
| Queries.Update | src/linkedin_mcp/scheduler_db.py:90-93 | an UPDATE ... WHERE id = ? keeps the number of rows and the id of every row |
| Queries.UpdateFind | src/linkedin_mcp/scheduler_db.py:88-114 | after an UPDATE the id finds the updated row (or still nothing) and every other id finds the same row as before |
| Queries.UpdatePendingConsistent | src/linkedin_mcp/scheduler_db.py:88-114 | an UPDATE that reaches only pending rows keeps every row consistent |
| Queries.Filter | src/linkedin_mcp/scheduler_db.py:69-70 | WHERE keeps exactly the rows satisfying the condition, none more often than in the table |
| Queries.FilterKeepsAll | src/linkedin_mcp/scheduler_db.py:74-76 | a condition every row meets leaves the table as it is |
| Queries.Insert | src/linkedin_mcp/scheduler_db.py:70 | inserting into the ordered result adds exactly that row |
| Queries.InsertSorted | src/linkedin_mcp/scheduler_db.py:70 | inserting into a time-ordered sequence keeps it time-ordered |
| Queries.SortByTime | src/linkedin_mcp/scheduler_db.py:70 | ORDER BY returns a permutation of its input |
| Queries.SortByTimeMembers | src/linkedin_mcp/scheduler_db.py:70 | ORDER BY neither adds nor drops a row |
| Queries.SortByTimeSorted | src/linkedin_mcp/scheduler_db.py:70 | ORDER BY scheduled_time ASC returns rows non-decreasing in scheduled_time |
| Queries.FilterDistinct | src/linkedin_mcp/scheduler_db.py:82-85 | a selection from the table has no two rows with one id |
| Queries.SortByTimeDistinct | src/linkedin_mcp/scheduler_db.py:83 | ordering keeps ids distinct |
| Queries.Take | src/linkedin_mcp/scheduler_db.py:70-71 | LIMIT returns a prefix of the ordered rows, of length `limit` capped by the row count, all rows when `limit` is negative; it is a sub-multiset of its input |
| Queries.LimitCount | src/linkedin_mcp/scheduler_db.py:70-71 | defines how many rows SQLite's LIMIT lets through: all of them for a negative limit or one above the row count, otherwise `limit` |
| SchedulerDb.TakeEarliest | src/linkedin_mcp/scheduler_db.py:70-71 | the rows LIMIT keeps are no later than any row it drops |
| SchedulerDb.Matches | src/linkedin_mcp/scheduler_db.py:68-76 | defines the list filter: no filter when status is None or "" (Python's falsy test), otherwise equality with the status column text |
| SchedulerDb.NoFilterMatchesAll | src/linkedin_mcp/scheduler_db.py:68-76 | with status None or "" the list query draws from every row of the table |
| SchedulerDb.ListedCount | src/linkedin_mcp/scheduler_db.py:65-78 | the list answer has the LIMIT length, is a sub-multiset of the matching rows, and is all of them (as a multiset) when LIMIT lets every row through |
| SchedulerDb.ListedRows | src/linkedin_mcp/scheduler_db.py:65-78 | the list answer is ordered by time, only holds table rows that pass the filter, and holds the earliest of them |
| SchedulerDb.ScheduledPostsDB.constructor | src/linkedin_mcp/scheduler_db.py:34-39 | a store opened on a new database file is empty |
| SchedulerDb.ScheduledPostsDB.Open | src/linkedin_mcp/scheduler_db.py:34-39 | a store opened on an existing database file holds exactly the stored rows, since `CREATE TABLE IF NOT EXISTS` keeps them |
| SchedulerDb.ScheduledPostsDB.AllConsistent | src/linkedin_mcp/scheduler_db.py:14-28 | defines the table-level invariant: every row satisfies `Consistent` |
| SchedulerDb.ScheduledPostsDB.Get | src/linkedin_mcp/scheduler_db.py:59-63 | `get` returns the row with the id, and None exactly when the id is absent |
| SchedulerDb.ScheduledPostsDB.List | src/linkedin_mcp/scheduler_db.py:65-78 | `list` returns at most `limit` rows, ordered by time, each in the table with the requested status when one is given, no row more often than it matches, exactly the matching rows (as a multiset) for a negative or large enough limit, and the earliest matching rows otherwise |
| SchedulerDb.ScheduledPostsDB.GetDue | src/linkedin_mcp/scheduler_db.py:80-86 | `get_due(now)` returns exactly the pending rows with scheduled_time <= now, ordered by time, with distinct ids; never a published, failed or cancelled row |
| SchedulerDb.ScheduledPostsDB.Add | src/linkedin_mcp/scheduler_db.py:41-57 | `add` appends exactly one row under the fresh id with the given commentary, url, visibility and time, status pending, retry count 0 and the outcome columns null; `get` then returns it; the table invariant is kept |
| SchedulerDb.ScheduledPostsDB.MarkPublished | src/linkedin_mcp/scheduler_db.py:88-95 | on an existing id, sets status published, post_urn and published_at and nothing else, whatever the old status; on an unknown id changes nothing and returns None; keeps the table invariant when the row was pending |
| SchedulerDb.ScheduledPostsDB.MarkFailed | src/linkedin_mcp/scheduler_db.py:97-103 | on an existing id, sets status failed and the error message and adds exactly 1 to retry_count; on an unknown id changes nothing and returns None; keeps the table invariant when the row was pending |
| SchedulerDb.ScheduledPostsDB.Cancel | src/linkedin_mcp/scheduler_db.py:105-114 | refuses (None, no change) when the id is absent or not pending; otherwise changes only that row's status to cancelled, so a second cancel is refused; keeps the table invariant |
| SchedulerDb.StoreScenario | tests/test_tools.py:160-195 | replays the store test: add, get, list of one row, cancel, and a second cancel that is refused, each step asserted |
| SchedulerDb.DispatchAll | src/linkedin_mcp/scheduler_db.py:155-165 | recording the outcomes of a pass keeps every row and every id in place |
| SchedulerDb.DispatchAllAt | src/linkedin_mcp/scheduler_db.py:155-165 | each row ends up settled by the outcome of its own publish call when it was due, and unchanged otherwise |
| SchedulerDb.DispatchSettlesEachDueRow | src/linkedin_mcp/scheduler_db.py:155-165 | every due row is published with its call's URN or failed with its call's error text and retry count + 1; a failure does not stop the later rows |
| SchedulerDb.DispatchLeavesOtherRows | src/linkedin_mcp/scheduler_db.py:141-165 | rows that were not due are left exactly as they were |
| SchedulerDb.DispatchLeavesNothingDue | src/linkedin_mcp/scheduler_db.py:141-165 | after a pass no row is due at the same time, so a second pass finds nothing to do |
| SchedulerDb.DispatchKeepsConsistent | src/linkedin_mcp/scheduler_db.py:141-165 | a pass keeps the row invariant of every row |
| SchedulerDb.DispatchPass | src/linkedin_mcp/scheduler_db.py:141-165 | a finished pass settles each due row by its own outcome, leaves other rows as they were, leaves nothing due, and keeps the row invariant |
| SchedulerDb.RecordOutcome | src/linkedin_mcp/scheduler_db.py:156-165 | one item's try/except: `mark_published` with the URN on success, `mark_failed` with the error text on failure |
| SchedulerDb.RunScheduler | src/linkedin_mcp/scheduler_db.py:131-165 | calls the publisher once per due row, in due order, with commentary and visibility only (not url); leaves the table unchanged when nothing is due; settles every due row by its own outcome, leaves every other row untouched, leaves nothing due, and keeps the table invariant |
| SchedulerTools.SchedulePost | src/linkedin_mcp/tools/scheduler.py:15-52 | an unparseable, offset-less or non-future time gives an error reply and no row; a future time adds exactly one pending row keeping the time text as given and replies with the new id and status "pending"; the table invariant is kept |
| SchedulerTools.IsFuture | src/linkedin_mcp/tools/scheduler.py:32-36 | defines the guard of `schedule_post`: the time parses, carries an offset, and lies strictly after the clock |
| SchedulerTools.ListScheduledPosts | src/linkedin_mcp/tools/scheduler.py:55-75 | an error reply with sqlite3's OverflowError text exactly when `limit` does not fit a 64-bit SQLite INTEGER; otherwise the store's list answer and a count equal to its length; the store is only read |
| SchedulerTools.FitsSqliteInteger | src/linkedin_mcp/scheduler_db.py:70-76 | defines the ints sqlite3 can bind as the LIMIT parameter: the signed 64-bit range |
| SchedulerTools.CancelScheduledPost | src/linkedin_mcp/tools/scheduler.py:78-99 | an error reply exactly when the store refuses (absent or not pending), leaving the table as it was; otherwise a success reply with status "cancelled"; the table invariant is kept |
| SchedulerTools.GetScheduledPost | src/linkedin_mcp/tools/scheduler.py:102-121 | an error reply exactly when the id is absent; otherwise the row and its status; the store is only read |
| SchedulerTools.NegativeOffsetDueEarly | src/linkedin_mcp/tools/scheduler.py:32-36 | a time at offset -05:00 passes the future guard and is already selected by the due query five hours before its instant |
| SchedulerTools.PositiveOffsetDueLate | src/linkedin_mcp/tools/scheduler.py:32-36 | a time at offset +05:00 is past its instant by an hour and still not selected by the due query |
| Auth.MaskToken | src/linkedin_mcp/tools/auth.py:16-20 | an empty or shorter-than-12 token gives "****"; a longer one gives its first 4 characters, "..." and its last 4; the output has length 4 or 11 and never equals a token of length 12 or more |
| Auth.ShortTokensMaskAlike | src/linkedin_mcp/tools/auth.py:18-19 | the contents of a token shorter than 12 characters never reach the output |
| Auth.LongTokenRevealsOnlyEnds | src/linkedin_mcp/tools/auth.py:20 | the output for a long token depends only on its first 4 and last 4 characters |

## Left out

- SQLite connection handling, directory creation, the schema DDL and `close` (src/linkedin_mcp/scheduler_db.py:11-39, 116-117). These are file and database I/O. The table is the field `rows`. Storage errors, and the error replies the tools build from them, are not modelled.
- The `get_db` singleton (src/linkedin_mcp/scheduler_db.py:120-128). The store is passed explicitly.
- `uuid.uuid4()`. Fresh-id generation is a precondition that the id is absent.
- `datetime.now`. Clock readings are parameters.
- ISO-8601 parsing in `schedule_post`. Its three possible results are the parameter `ParsedTime`.
- The `LinkedInClient`, the credential lookup and the `print` lines of `run_scheduler`. The client is the outcome sequence. `token_storage.py` is not part of this model.
- RunScheduler: `published_at` is the one clock reading `now` of the pass. The source reads the clock again inside each `mark_published` (src/linkedin_mcp/scheduler_db.py:89). An exception raised by `mark_published` itself, which the source's `except` would turn into `mark_failed`, is a storage error and is not modelled.
- RunScheduler: the outcome sequence has one element per due row. That is one per publish call the pass makes; a publisher that answers by call order and arguments is fully described by it.
- Rows with equal scheduled_time come out in insertion order, by a stable sort. SQLite does not promise any order for such ties. The exact sequences that `List` and `GetDue` return, `ListScheduledPosts`' `posts`, and the order of `RunScheduler`'s publish calls (`calls`, and which outcome settles which row) follow insertion order among ties. SQLite may, for example, publish the later-inserted of two equally timed posts first. The `ensures` of `List` and `GetDue` themselves (order by time, membership, multiset, earliest rows, distinct ids) hold for any tie order.
- ListScheduledPosts: the reply's `message` ("Found N ... scheduled posts") is not modelled, because it needs integer-to-text formatting. The reply keeps `posts` and `count`.
- JSON rendering of every reply. The replies are the `Reply` datatype.
- Two overlapping `run_scheduler` runs. This is a concurrency race; there is no locking to model.
- RunScheduler, CancelScheduledPost: a pass is atomic in the model, and writes from other processes during a pass are not modelled. In the source, `run_scheduler` works from its `get_due` snapshot (src/linkedin_mcp/scheduler_db.py:141, 155), and the UPDATE of `mark_published` has no status guard (:91). So a post that the server cancels after `get_due` but before its turn is still published: its row goes from cancelled to published, although `cancel_scheduled_post` replied that it was cancelled.
- ScheduledPostsDB.List: it answers for every integer `limit`. For a limit outside the signed 64-bit range, sqlite3 raises OverflowError while binding it. The model shows that error path in `ListScheduledPosts`, the only caller, which turns it into an error reply.
- The rest of the server is request forwarding, keychain access and framework glue: `server.py`, the other tool modules, and the OAuth functions of `auth.py`.
