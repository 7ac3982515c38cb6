/** The four scheduler tools: the checks and replies around the store. Replies
    are the fields of the JSON object each tool returns; JSON rendering is not
    modelled. */
module SchedulerTools {
  import opened Posts
  import opened Queries
  import opened SchedulerDb
  import opened TextOrder

  /** The result of parsing `scheduled_time` (ISO-8601 parsing itself is not modelled). */
  datatype ParsedTime =
    | Aware(instant: int)          // carries a UTC offset; the instant in microseconds since the epoch
    | Naive                        // no offset: comparing it with the offset-aware clock raises TypeError
    | Unparseable(reason: string)  // the parser raised ValueError with this text

  /** The text of the TypeError raised by comparing a naive with an aware datetime. */
  const NaiveComparisonError := "can't compare offset-naive and offset-aware datetimes"

  const NotFutureError := "scheduled_time must be in the future"

  datatype Reply =
    | Error(message: string)
    | Scheduled(postId: string, scheduledTime: string, status: string, message: string)
    | Listed(posts: seq<Post>, count: nat)
    | CancelDone(postId: string, status: string, message: string)
    | Found(post: Post, message: string)

  /** The guard of `schedule_post`: the time parses, carries an offset and lies after `now`. */
  predicate IsFuture(parsed: ParsedTime, now: int)
  {
    parsed.Aware? && parsed.instant > now
  }

  /** `schedule_post`: refuses a time that is not strictly in the future before
      writing anything; otherwise adds one pending row that keeps the time text
      as given. `now` is the clock reading of the check, `createdAt` that of the insert. */
  method SchedulePost(db: ScheduledPostsDB, commentary: string, scheduledTime: string, url: Option<string>,
                      visibility: string, parsed: ParsedTime, now: int, id: string, createdAt: string)
    returns (reply: Reply)
    requires db.Valid()
    requires !HasId(db.rows, id)
    modifies db
    ensures db.Valid()
    ensures old(db.AllConsistent()) ==> db.AllConsistent()
    ensures reply.Error? <==> !IsFuture(parsed, now)
    ensures reply.Error? ==> db.rows == old(db.rows)
    ensures parsed.Unparseable? ==> reply == Error(parsed.reason)
    ensures parsed.Naive? ==> reply == Error(NaiveComparisonError)
    ensures parsed.Aware? && parsed.instant <= now ==> reply == Error(NotFutureError)
    ensures IsFuture(parsed, now) ==>
              && db.rows == old(db.rows) + [NewPost(id, commentary, scheduledTime, url, visibility, createdAt)]
              && reply == Scheduled(id, scheduledTime, "pending", "Post scheduled for " + scheduledTime)
  {
    match parsed {
      case Unparseable(reason) =>
        return Error(reason);
      case Naive =>
        return Error(NaiveComparisonError);
      case Aware(instant) =>
        if instant <= now {
          return Error(NotFutureError);
        }
    }
    var post := db.Add(id, commentary, scheduledTime, url, visibility, createdAt);
    reply := Scheduled(post.id, post.scheduledTime, StatusText(post.status), "Post scheduled for " + scheduledTime);
  }

  /** The text of the OverflowError sqlite3 raises when it binds an int that
      does not fit a 64-bit SQLite INTEGER. */
  const IntegerOverflowError := "Python int too large to convert to SQLite INTEGER"

  /** The values sqlite3 can bind as an SQLite INTEGER (signed 64-bit). */
  predicate FitsSqliteInteger(n: int)
  {
    -0x8000_0000_0000_0000 <= n <= 0x7FFF_FFFF_FFFF_FFFF
  }

  /** `list_scheduled_posts`: the store's list answer and its length, or the
      error reply when binding `limit` overflows. */
  function ListScheduledPosts(db: ScheduledPostsDB, status: Option<string>, limit: int): (reply: Reply)
    reads db
    ensures reply.Error? <==> !FitsSqliteInteger(limit)
    ensures reply.Error? ==> reply.message == IntegerOverflowError
    ensures !reply.Error? ==> reply.Listed? && reply.count == |reply.posts|
    ensures !reply.Error? ==> reply.posts == db.List(status, limit)
  {
    if !FitsSqliteInteger(limit) then Error(IntegerOverflowError)
    else
      var posts := db.List(status, limit);
      Listed(posts, |posts|)
  }

  /** `cancel_scheduled_post`: an error reply exactly when the store refuses. */
  method CancelScheduledPost(db: ScheduledPostsDB, id: string) returns (reply: Reply)
    requires db.Valid()
    modifies db
    ensures db.Valid()
    ensures old(db.AllConsistent()) ==> db.AllConsistent()
    ensures reply.Error? <==> old(db.Get(id)).None? || old(db.Get(id)).value.status != Pending
    ensures reply.Error? ==>
              reply.message == "Post not found or not in pending status: " + id && db.rows == old(db.rows)
    ensures !reply.Error? ==>
              && reply == CancelDone(id, "cancelled", "Scheduled post cancelled successfully")
              && db.rows == Update(old(db.rows), id, ToCancelled)
  {
    var result := db.Cancel(id);
    if result.None? {
      return Error("Post not found or not in pending status: " + id);
    }
    reply := CancelDone(result.value.id, "cancelled", "Scheduled post cancelled successfully");
  }

  /** `get_scheduled_post`: the row and its status, or an error when the id is absent. */
  function GetScheduledPost(db: ScheduledPostsDB, id: string): (reply: Reply)
    reads db
    requires db.Valid()
    ensures reply.Error? <==> !HasId(db.rows, id)
    ensures reply.Error? ==> reply.message == "Scheduled post not found: " + id
    ensures !reply.Error? ==>
              && reply.Found? && reply.post in db.rows && reply.post.id == id
              && reply.message == "Status: " + StatusText(reply.post.status)
  {
    match db.Get(id)
    case None => Error("Scheduled post not found: " + id)
    case Some(post) => Found(post, "Status: " + StatusText(post.status))
  }

  /** The date part shared by the example times below. */
  const ExampleDay := "2030-01-01T"

  /** The time of day shared by the negative-offset example and its clock text. */
  const ExampleHour := "10:00:00"

  /** 10:00 at offset -05:00, the instant 15:00 UTC. */
  const EarlyText := ExampleDay + (ExampleHour + "-05:00")

  /** The clock text at 10:00:00.000001 UTC. */
  const EarlyClock := ExampleDay + (ExampleHour + ".000001+00:00")

  /** 10:00 at offset +05:00, the instant 05:00 UTC. */
  const LateText := ExampleDay + "10:00:00+05:00"

  /** The clock text at 06:00:00 UTC; `isoformat()` leaves out a zero microsecond part. */
  const LateClock := ExampleDay + "06:00:00+00:00"

  /** The guard compares instants but the due query compares texts. At the
      clock reading 10:00:00.000001 UTC, five hours before the instant asked
      for, the guard still calls the time future, yet the query already
      selects the post, because '-' sorts before '.'. Instants are
      microseconds since the epoch. */
  lemma NegativeOffsetDueEarly(id: string, createdAt: string)
    ensures IsFuture(Aware(1893510000000000), 1893492000000001)
    ensures IsDue(NewPost(id, "", EarlyText, None, "PUBLIC", createdAt), EarlyClock)
  {
    var b, c := "-05:00", ".000001+00:00";
    assert b[0] < c[0];
    LexLeCommonPrefix(ExampleHour, b, c);
    LexLeCommonPrefix(ExampleDay, ExampleHour + b, ExampleHour + c);
  }

  /** The opposite offset. At 06:00 UTC, an hour after the instant 05:00 UTC
      asked for, the guard already calls the time past, yet the due query
      does not select the post: it waits until the clock text reaches 10:00. */
  lemma PositiveOffsetDueLate(id: string, createdAt: string)
    ensures !IsFuture(Aware(1893474000000000), 1893477600000000)
    ensures !IsDue(NewPost(id, "", LateText, None, "PUBLIC", createdAt), LateClock)
  {
    var b, c := "10:00:00+05:00", "06:00:00+00:00";
    assert b[0] != c[0];
    LexLeCommonPrefix(ExampleDay, b, c);
  }
}
