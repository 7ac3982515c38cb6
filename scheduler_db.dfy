/** The scheduled-posts store (`ScheduledPostsDB`) and one dispatch pass
    (`run_scheduler`). The SQLite table is the field `rows`, kept in insertion
    order; the clock reading `now` and fresh ids are parameters; the publishing
    client is a sequence of outcomes, one per publish call. */
module SchedulerDb {
  import opened TextOrder
  import opened Posts
  import opened Queries

  /** The list query's status filter: Python treats both None and "" as "no filter". */
  predicate Matches(p: Post, status: Option<string>)
  {
    status.None? || status.value == "" || StatusText(p.status) == status.value
  }

  function Matching(rows: seq<Post>, status: Option<string>): seq<Post>
  {
    Filter(rows, p => Matches(p, status))
  }

  /** Without a status filter (None or "") the list query draws from every row. */
  lemma NoFilterMatchesAll(rows: seq<Post>, status: Option<string>)
    requires status.None? || status == Some("")
    ensures Matching(rows, status) == rows
  {
    FilterKeepsAll(rows, p => Matches(p, status));
  }

  /** The first `limit` rows of a time-ordered sequence are no later than any row left out. */
  lemma TakeEarliest(s: seq<Post>, limit: int)
    requires SortedByTime(s)
    ensures forall p, q :: p in Take(s, limit) && q in s && q !in Take(s, limit) ==>
              LexLe(p.scheduledTime, q.scheduledTime)
  {
    var r := Take(s, limit);
    forall p, q | p in r && q in s && q !in r
      ensures LexLe(p.scheduledTime, q.scheduledTime)
    {
      var i :| 0 <= i < |r| && r[i] == p;
      var k :| 0 <= k < |s| && s[k] == q;
      assert s[i] == p;
      assert forall m :: 0 <= m < |r| ==> r[m] == s[m];
      assert i < k;
    }
  }

  /** How many rows the list query answers, and that they come from the matching
      rows, each no more often than there: all of them when LIMIT lets every row through. */
  lemma ListedCount(rows: seq<Post>, status: Option<string>, limit: int)
    ensures var r := Take(SortByTime(Matching(rows, status)), limit);
      && |r| == LimitCount(limit, |Matching(rows, status)|)
      && multiset(r) <= multiset(Matching(rows, status))
      && (|r| == |Matching(rows, status)| ==> multiset(r) == multiset(Matching(rows, status)))
  {
    var matching := Matching(rows, status);
    var sorted := SortByTime(matching);
    var r := Take(sorted, limit);
    assert |sorted| == |multiset(sorted)| == |multiset(matching)| == |matching|;
    if |r| == |matching| {
      assert r == sorted[..|sorted|] == sorted;
    }
  }

  /** The order of the list query's answer: time-ordered, drawn from the table
      through the filter, and the earliest of the matching rows. */
  lemma ListedRows(rows: seq<Post>, status: Option<string>, limit: int)
    ensures var r := Take(SortByTime(Matching(rows, status)), limit);
      && SortedByTime(r)
      && (forall p :: p in r ==> p in rows && Matches(p, status))
      && (forall p, q :: p in r && q in rows && Matches(q, status) && q !in r ==>
            LexLe(p.scheduledTime, q.scheduledTime))
  {
    var matching := Matching(rows, status);
    var sorted := SortByTime(matching);
    var r := Take(sorted, limit);
    SortByTimeSorted(matching);
    SortByTimeMembers(matching);
    TakeEarliest(sorted, limit);
    assert forall p :: p in r ==> p in sorted;
  }

  class ScheduledPostsDB {
    /** The `scheduled_posts` table, in insertion order. */
    var rows: seq<Post>

    ghost predicate Valid()
      reads this
    {
      DistinctIds(rows)
    }

    /** Every row satisfies the row invariant `Consistent`. */
    ghost predicate AllConsistent()
      reads this
    {
      forall p :: p in rows ==> Consistent(p)
    }

    /** Opens a store on a new database file: the table is created empty
        (directory, connection and schema creation are not modelled). */
    constructor ()
      ensures Valid() && rows == []
    {
      rows := [];
    }

    /** Opens a store on an existing database file: `CREATE TABLE IF NOT
        EXISTS` leaves the stored rows as they are, so a later process (the
        scheduler) sees the rows an earlier one (the server) added. */
    constructor Open(stored: seq<Post>)
      requires DistinctIds(stored)
      ensures Valid() && rows == stored
    {
      rows := stored;
    }

    /** `get`: the row with this id, or None. */
    function Get(id: string): (r: Option<Post>)
      reads this
      requires Valid()
      ensures r.None? <==> !HasId(rows, id)
      ensures forall i :: 0 <= i < |rows| && rows[i].id == id ==> r == Some(rows[i])
    {
      assert forall i :: 0 <= i < |rows| ==> Ids(rows)[i] == rows[i].id;
      assert forall i :: 0 <= i < |rows| ==> Find(rows, rows[i].id) == Some(rows[i]) by {
        forall i | 0 <= i < |rows| ensures Find(rows, rows[i].id) == Some(rows[i]) {
          FindDistinct(rows, i);
        }
      }
      Find(rows, id)
    }

    /** `list`: the rows that pass the status filter, ordered by scheduled time,
        cut to `limit` (a negative limit lets every row through). */
    function List(status: Option<string>, limit: int): (r: seq<Post>)
      reads this
      ensures |r| == LimitCount(limit, |Matching(rows, status)|)
      ensures limit >= 0 ==> |r| <= limit
      ensures SortedByTime(r)
      ensures multiset(r) <= multiset(Matching(rows, status))
      ensures limit < 0 || limit >= |Matching(rows, status)| ==> multiset(r) == multiset(Matching(rows, status))
      ensures forall p :: p in r ==> p in rows && Matches(p, status)
      ensures forall p, q :: p in r && q in rows && Matches(q, status) && q !in r ==>
                LexLe(p.scheduledTime, q.scheduledTime)
    {
      ListedCount(rows, status, limit);
      ListedRows(rows, status, limit);
      Take(SortByTime(Matching(rows, status)), limit)
    }

    /** `get_due`: exactly the pending rows whose time is at or before `now`,
        ordered by scheduled time, each once. */
    function GetDue(now: string): (r: seq<Post>)
      reads this
      requires Valid()
      ensures SortedByTime(r)
      ensures forall p :: p in r <==> p in rows && IsDue(p, now)
      ensures DistinctIds(r)
    {
      var due := Filter(rows, p => IsDue(p, now));
      SortByTimeSorted(due);
      FilterDistinct(rows, p => IsDue(p, now));
      SortByTimeDistinct(due);
      SortByTimeMembers(due);
      SortByTime(due)
    }

    /** `add`: inserts one pending row under a fresh id and returns it. */
    method Add(id: string, commentary: string, scheduledTime: string, url: Option<string>,
               visibility: string, createdAt: string) returns (post: Post)
      requires Valid()
      requires !HasId(rows, id)
      modifies this
      ensures Valid()
      ensures rows == old(rows) + [post]
      ensures post.id == id && post.commentary == commentary && post.url == url
      ensures post.visibility == visibility && post.scheduledTime == scheduledTime
      ensures post.status == Pending && post.retryCount == 0 && post.createdAt == createdAt
      ensures post.publishedAt == None && post.postUrn == None && post.errorMessage == None
      ensures Get(id) == Some(post)
      ensures old(AllConsistent()) ==> AllConsistent()
    {
      post := NewPost(id, commentary, scheduledTime, url, visibility, createdAt);
      NewPostConsistent(id, commentary, scheduledTime, url, visibility, createdAt);
      FindAppended(rows, post);
      forall q | q in rows
        ensures q.id != id
      {
        var i :| 0 <= i < |rows| && rows[i] == q;
        assert Ids(rows)[i] == q.id;
      }
      assert DistinctIds(rows + [post]) by {
        var t := rows + [post];
        forall i, j | 0 <= i < j < |t|
          ensures t[i].id != t[j].id
        {
          assert t[i] == rows[i];
          if j < |rows| {
            assert t[j] == rows[j];
          } else {
            assert t[i] in rows;
          }
        }
      }
      rows := rows + [post];
    }

    /** `mark_published`: sets status, publication time and URN on the row with
        this id, whatever its status; an unknown id changes nothing. */
    method MarkPublished(id: string, urn: string, now: string) returns (r: Option<Post>)
      requires Valid()
      modifies this
      ensures Valid()
      ensures rows == Update(old(rows), id, ToPublished(urn, now))
      ensures old(Get(id)).None? ==> r.None? && rows == old(rows)
      ensures old(Get(id)).Some? ==> r == Some(Apply(old(Get(id)).value, ToPublished(urn, now)))
      ensures r.Some? ==> && r.value.status == Published && r.value.postUrn == Some(urn)
                          && r.value.publishedAt == Some(now)
                          && r.value.retryCount == old(Get(id)).value.retryCount
                          && r.value.errorMessage == old(Get(id)).value.errorMessage
      ensures r == Get(id)
      ensures old(AllConsistent()) && (old(Get(id)).None? || old(Get(id)).value.status == Pending) ==>
                AllConsistent()
    {
      UpdateFind(rows, id, ToPublished(urn, now), id);
      ghost var before := rows;
      if AllConsistent() && (Get(id).None? || Get(id).value.status == Pending) {
        forall p | p in rows && p.id == id ensures p.status == Pending {
          var j :| 0 <= j < |rows| && rows[j] == p;
        }
        UpdatePendingConsistent(rows, id, ToPublished(urn, now));
      }
      rows := Update(rows, id, ToPublished(urn, now));
      DistinctIdsFromIds(before, rows);
      if !HasId(before, id) {
        assert rows == before by {
          forall j | 0 <= j < |before| ensures rows[j] == before[j] {
            assert Ids(before)[j] == before[j].id;
          }
        }
      }
      r := Get(id);
    }

    /** `mark_failed`: sets status and error message on the row with this id
        and adds one to its retry count; an unknown id changes nothing. */
    method MarkFailed(id: string, message: string) returns (r: Option<Post>)
      requires Valid()
      modifies this
      ensures Valid()
      ensures rows == Update(old(rows), id, ToFailed(message))
      ensures old(Get(id)).None? ==> r.None? && rows == old(rows)
      ensures old(Get(id)).Some? ==> r == Some(Apply(old(Get(id)).value, ToFailed(message)))
      ensures r.Some? ==> && r.value.status == Failed && r.value.errorMessage == Some(message)
                          && r.value.retryCount == old(Get(id)).value.retryCount + 1
                          && r.value.publishedAt == old(Get(id)).value.publishedAt
                          && r.value.postUrn == old(Get(id)).value.postUrn
      ensures r == Get(id)
      ensures old(AllConsistent()) && (old(Get(id)).None? || old(Get(id)).value.status == Pending) ==>
                AllConsistent()
    {
      UpdateFind(rows, id, ToFailed(message), id);
      ghost var before := rows;
      if AllConsistent() && (Get(id).None? || Get(id).value.status == Pending) {
        forall p | p in rows && p.id == id ensures p.status == Pending {
          var j :| 0 <= j < |rows| && rows[j] == p;
        }
        UpdatePendingConsistent(rows, id, ToFailed(message));
      }
      rows := Update(rows, id, ToFailed(message));
      DistinctIdsFromIds(before, rows);
      if !HasId(before, id) {
        assert rows == before by {
          forall j | 0 <= j < |before| ensures rows[j] == before[j] {
            assert Ids(before)[j] == before[j].id;
          }
        }
      }
      r := Get(id);
    }

    /** `cancel`: refuses (None, nothing changed) unless the row exists and is
        pending; otherwise sets only its status to cancelled. */
    method Cancel(id: string) returns (r: Option<Post>)
      requires Valid()
      modifies this
      ensures Valid()
      ensures old(Get(id)).None? || old(Get(id)).value.status != Pending ==>
                r.None? && rows == old(rows)
      ensures old(Get(id)).Some? && old(Get(id)).value.status == Pending ==>
                rows == Update(old(rows), id, ToCancelled) &&
                r == Some(old(Get(id)).value.(status := Cancelled))
      ensures r.Some? ==> r == Get(id) && r.value.status == Cancelled
      ensures old(AllConsistent()) ==> AllConsistent()
    {
      var row := Get(id);
      if row.None? || row.value.status != Pending {
        return None;
      }
      UpdateFind(rows, id, ToCancelled, id);
      if AllConsistent() {
        forall p | p in rows && p.id == id ensures p.status == Pending {
          var j :| 0 <= j < |rows| && rows[j] == p;
        }
        UpdatePendingConsistent(rows, id, ToCancelled);
      }
      ghost var before := rows;
      rows := Update(rows, id, ToCancelled);
      DistinctIdsFromIds(before, rows);
      r := Get(id);
    }
  }

  /** The store's unit test, step by step: add, get, list, cancel, and a
      second cancel that is refused. */
  method StoreScenario(id: string, createdAt: string)
  {
    var db := new ScheduledPostsDB();
    var post := db.Add(id, "Test scheduled post", "2099-12-31T23:59:59Z", None, "PUBLIC", createdAt);
    assert post.commentary == "Test scheduled post" && post.status == Pending;
    var fetched := db.Get(post.id);
    assert fetched == Some(post);
    var listed := db.List(None, 50);
    assert Matching(db.rows, None) == [post];
    assert |listed| == 1;
    var cancelled := db.Cancel(post.id);
    assert cancelled.Some? && cancelled.value.status == Cancelled;
    var again := db.Cancel(post.id);
    assert again.None?;
  }

  /** What one publish call returns: the new post's URN, or the error's text. */
  datatype PublishOutcome = Ok(postUrn: string) | Err(message: string)

  /** The arguments of one publish call; the row's url is not passed. */
  datatype PublishRequest = PublishRequest(commentary: string, visibility: string)

  function Requests(due: seq<Post>): seq<PublishRequest>
  {
    seq(|due|, i requires 0 <= i < |due| => PublishRequest(due[i].commentary, due[i].visibility))
  }

  /** The update the dispatch loop records for one outcome. */
  function Settlement(o: PublishOutcome, now: string): Change
  {
    match o
    case Ok(urn) => ToPublished(urn, now)
    case Err(message) => ToFailed(message)
  }

  /** The table after recording the outcomes of the publish calls for `due`, in order. */
  function DispatchAll(rows: seq<Post>, due: seq<Post>, outcomes: seq<PublishOutcome>, now: string): (r: seq<Post>)
    requires |outcomes| == |due|
    ensures |r| == |rows| && Ids(r) == Ids(rows)
    decreases |due|
  {
    if due == [] then rows
    else
      var n := |due| - 1;
      Update(DispatchAll(rows, due[..n], outcomes[..n], now), due[n].id, Settlement(outcomes[n], now))
  }

  /** One more iteration of the loop records one more outcome and one more call. */
  lemma DispatchAllSnoc(rows: seq<Post>, due: seq<Post>, outcomes: seq<PublishOutcome>, now: string, k: nat)
    requires |outcomes| == |due| && k < |due|
    ensures DispatchAll(rows, due[..k + 1], outcomes[..k + 1], now) ==
            Update(DispatchAll(rows, due[..k], outcomes[..k], now), due[k].id, Settlement(outcomes[k], now))
    ensures Requests(due[..k + 1]) == Requests(due[..k]) + [PublishRequest(due[k].commentary, due[k].visibility)]
  {
    assert due[..k + 1][..k] == due[..k];
    assert outcomes[..k + 1][..k] == outcomes[..k];
  }

  /** A row after a dispatch pass: settled by the outcome of its own publish call
      if its id was among the due ids, unchanged otherwise. */
  function SettledRow(p: Post, due: seq<Post>, outcomes: seq<PublishOutcome>, now: string): Post
    requires |outcomes| == |due|
  {
    match IndexOf(Ids(due), p.id)
    case None => p
    case Some(m) => Apply(p, Settlement(outcomes[m], now))
  }

  /** Dispatch acts row by row: each row's outcome depends only on its own publish call. */
  lemma {:induction false} DispatchAllAt(rows: seq<Post>, due: seq<Post>, outcomes: seq<PublishOutcome>,
                                          now: string, j: nat)
    requires |outcomes| == |due| && DistinctIds(due) && j < |rows|
    ensures DispatchAll(rows, due, outcomes, now)[j] == SettledRow(rows[j], due, outcomes, now)
    decreases |due|
  {
    if due != [] {
      var n := |due| - 1;
      var id := rows[j].id;
      var pre := DispatchAll(rows, due[..n], outcomes[..n], now);
      assert DistinctIds(due[..n]) by {
        forall a, b | 0 <= a < b < n ensures due[..n][a].id != due[..n][b].id {
          assert due[..n][a] == due[a] && due[..n][b] == due[b];
        }
      }
      DispatchAllAt(rows, due[..n], outcomes[..n], now, j);
      assert Ids(pre)[j] == pre[j].id && Ids(rows)[j] == rows[j].id;
      assert Ids(due[..n]) == Ids(due)[..n];
      assert Ids(due)[n] == due[n].id;
      IndexOfSnoc(Ids(due), id);
      if id == due[n].id {
        assert forall m :: 0 <= m < n ==> Ids(due)[..n][m] == due[m].id;
        assert id !in Ids(due)[..n];
      } else {
        assert forall m :: 0 <= m < n ==> outcomes[..n][m] == outcomes[m];
      }
    }
  }

  /** Every row that was due ends up published with its call's URN or failed
      with its call's error text and one more retry; a failure does not stop
      the rows after it. */
  lemma DispatchSettlesEachDueRow(rows: seq<Post>, due: seq<Post>, outcomes: seq<PublishOutcome>, now: string)
    requires DistinctIds(rows) && DistinctIds(due) && |outcomes| == |due|
    requires forall p :: p in due <==> p in rows && IsDue(p, now)
    ensures forall m :: 0 <= m < |due| ==>
              Find(DispatchAll(rows, due, outcomes, now), due[m].id) ==
              Some(Apply(due[m], Settlement(outcomes[m], now)))
  {
    var r := DispatchAll(rows, due, outcomes, now);
    forall m | 0 <= m < |due|
      ensures Find(r, due[m].id) == Some(Apply(due[m], Settlement(outcomes[m], now)))
    {
      assert due[m] in rows;
      var j :| 0 <= j < |rows| && rows[j] == due[m];
      IndexOfDistinct(rows, j);
      IndexOfDistinct(due, m);
      DispatchAllAt(rows, due, outcomes, now, j);
    }
  }

  /** Rows that were not due are left exactly as they were. */
  lemma DispatchLeavesOtherRows(rows: seq<Post>, due: seq<Post>, outcomes: seq<PublishOutcome>, now: string)
    requires DistinctIds(rows) && DistinctIds(due) && |outcomes| == |due|
    requires forall p :: p in due <==> p in rows && IsDue(p, now)
    ensures forall j :: 0 <= j < |rows| && !IsDue(rows[j], now) ==>
              DispatchAll(rows, due, outcomes, now)[j] == rows[j]
  {
    forall j | 0 <= j < |rows| && !IsDue(rows[j], now)
      ensures DispatchAll(rows, due, outcomes, now)[j] == rows[j]
    {
      forall m | 0 <= m < |due|
        ensures Ids(due)[m] != rows[j].id
      {
        assert due[m] in rows;
        var k :| 0 <= k < |rows| && rows[k] == due[m];
        assert IsDue(rows[k], now);
      }
      assert rows[j].id !in Ids(due);
      DispatchAllAt(rows, due, outcomes, now, j);
    }
  }

  /** After a pass nothing is due any more at the same time: a second pass with
      the same clock reading finds no work. */
  lemma DispatchLeavesNothingDue(rows: seq<Post>, due: seq<Post>, outcomes: seq<PublishOutcome>, now: string)
    requires DistinctIds(due) && |outcomes| == |due|
    requires forall p :: p in due <==> p in rows && IsDue(p, now)
    ensures forall p :: p in DispatchAll(rows, due, outcomes, now) ==> !IsDue(p, now)
  {
    var r := DispatchAll(rows, due, outcomes, now);
    forall p | p in r
      ensures !IsDue(p, now)
    {
      var j :| 0 <= j < |r| && r[j] == p;
      DispatchAllAt(rows, due, outcomes, now, j);
      if IndexOf(Ids(due), rows[j].id).None? {
        assert rows[j] !in due by {
          forall m | 0 <= m < |due| ensures due[m] != rows[j] {
            assert Ids(due)[m] == due[m].id;
          }
        }
      }
    }
  }

  /** A dispatch over rows that are consistent keeps them consistent. */
  lemma DispatchKeepsConsistent(rows: seq<Post>, due: seq<Post>, outcomes: seq<PublishOutcome>, now: string)
    requires DistinctIds(rows) && DistinctIds(due) && |outcomes| == |due|
    requires forall p :: p in due <==> p in rows && IsDue(p, now)
    requires forall p :: p in rows ==> Consistent(p)
    ensures forall p :: p in DispatchAll(rows, due, outcomes, now) ==> Consistent(p)
  {
    var r := DispatchAll(rows, due, outcomes, now);
    forall p | p in r
      ensures Consistent(p)
    {
      var j :| 0 <= j < |r| && r[j] == p;
      DispatchAllAt(rows, due, outcomes, now, j);
      match IndexOf(Ids(due), rows[j].id)
      case None =>
      case Some(m) =>
        assert Ids(due)[m] == due[m].id;
        assert due[m] in rows;
        var k :| 0 <= k < |rows| && rows[k] == due[m];
        assert k == j;
        ApplyToPendingConsistent(rows[j], Settlement(outcomes[m], now));
    }
  }

  /** Everything a finished pass guarantees about the table, in one place. */
  lemma DispatchPass(rows: seq<Post>, due: seq<Post>, outcomes: seq<PublishOutcome>, now: string)
    requires DistinctIds(rows) && DistinctIds(due) && |outcomes| == |due|
    requires forall p :: p in due <==> p in rows && IsDue(p, now)
    ensures var r := DispatchAll(rows, due, outcomes, now);
      && (forall m :: 0 <= m < |due| ==> Find(r, due[m].id) == Some(Apply(due[m], Settlement(outcomes[m], now))))
      && (forall j :: 0 <= j < |rows| && !IsDue(rows[j], now) ==> r[j] == rows[j])
      && (forall p :: p in r ==> !IsDue(p, now))
      && ((forall p :: p in rows ==> Consistent(p)) ==> forall p :: p in r ==> Consistent(p))
  {
    DispatchSettlesEachDueRow(rows, due, outcomes, now);
    DispatchLeavesOtherRows(rows, due, outcomes, now);
    DispatchLeavesNothingDue(rows, due, outcomes, now);
    if forall p :: p in rows ==> Consistent(p) {
      DispatchKeepsConsistent(rows, due, outcomes, now);
    }
  }

  /** The body of the loop's `try`/`except` for one row: `mark_published` with
      the URN when the publish call succeeded, `mark_failed` with the error
      text when it raised. */
  method RecordOutcome(db: ScheduledPostsDB, id: string, outcome: PublishOutcome, now: string)
    requires db.Valid()
    modifies db
    ensures db.Valid()
    ensures db.rows == Update(old(db.rows), id, Settlement(outcome, now))
  {
    match outcome {
      case Ok(urn) =>
        var _ := db.MarkPublished(id, urn, now);
      case Err(message) =>
        var _ := db.MarkFailed(id, message);
    }
  }

  /** `run_scheduler`: one dispatch pass. Calls the publisher once per due row,
      in due order, with the row's commentary and visibility, and records
      `mark_published` on success or `mark_failed` with the error text on failure. */
  method RunScheduler(db: ScheduledPostsDB, now: string, outcomes: seq<PublishOutcome>)
    returns (calls: seq<PublishRequest>)
    requires db.Valid()
    requires |outcomes| == |db.GetDue(now)|
    modifies db
    ensures db.Valid()
    ensures calls == Requests(old(db.GetDue(now)))
    ensures db.rows == DispatchAll(old(db.rows), old(db.GetDue(now)), outcomes, now)
    ensures forall m :: 0 <= m < |old(db.GetDue(now))| ==>
              db.Get(old(db.GetDue(now))[m].id) ==
              Some(Apply(old(db.GetDue(now))[m], Settlement(outcomes[m], now)))
    ensures forall j :: 0 <= j < |old(db.rows)| && !IsDue(old(db.rows)[j], now) ==>
              db.rows[j] == old(db.rows)[j]
    ensures forall p :: p in db.rows ==> !IsDue(p, now)
    ensures old(db.AllConsistent()) ==> db.AllConsistent()
  {
    var due := db.GetDue(now);
    ghost var before := db.rows;
    calls := [];
    if due == [] {
      return;
    }
    var k := 0;
    while k < |due|
      invariant 0 <= k <= |due|
      invariant db.Valid()
      invariant db.rows == DispatchAll(before, due[..k], outcomes[..k], now)
      invariant calls == Requests(due[..k])
    {
      var post := due[k];
      calls := calls + [PublishRequest(post.commentary, post.visibility)];
      RecordOutcome(db, post.id, outcomes[k], now);
      DispatchAllSnoc(before, due, outcomes, now, k);
      k := k + 1;
    }
    assert due[..k] == due && outcomes[..k] == outcomes;
    DispatchPass(before, due, outcomes, now);
  }
}
