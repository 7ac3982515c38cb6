/** One row of the `scheduled_posts` table and the field updates the store
    applies to a row. */
module Posts {
  import opened TextOrder

  datatype Option<T> = None | Some(value: T)

  /** The four values the `status` column takes. */
  datatype Status = Pending | Published | Failed | Cancelled

  /** The text stored in the `status` column. */
  function StatusText(s: Status): string
  {
    match s
    case Pending => "pending"
    case Published => "published"
    case Failed => "failed"
    case Cancelled => "cancelled"
  }

  lemma StatusTextInjective(s: Status, t: Status)
    ensures StatusText(s) == StatusText(t) <==> s == t
  {
  }

  /** A row; nullable columns are `Option`s, times are ISO-8601 text. */
  datatype Post = Post(
    id: string,
    commentary: string,
    url: Option<string>,
    visibility: string,
    scheduledTime: string,
    status: Status,
    createdAt: string,
    publishedAt: Option<string>,
    postUrn: Option<string>,
    errorMessage: Option<string>,
    retryCount: nat)

  /** The row an INSERT writes: status pending, retry count 0, the outcome columns null. */
  function NewPost(id: string, commentary: string, scheduledTime: string, url: Option<string>,
                   visibility: string, createdAt: string): Post
  {
    Post(id, commentary, url, visibility, scheduledTime, Pending, createdAt, None, None, None, 0)
  }

  /** The three UPDATE statements of the store. */
  datatype Change =
    | ToPublished(urn: string, at: string)
    | ToFailed(message: string)
    | ToCancelled

  /** The row after one UPDATE; the columns a statement does not SET keep their value. */
  function Apply(p: Post, c: Change): (q: Post)
    ensures q.id == p.id && q.commentary == p.commentary && q.url == p.url
    ensures q.visibility == p.visibility && q.scheduledTime == p.scheduledTime
    ensures q.createdAt == p.createdAt
    ensures q.status != Pending
  {
    match c
    case ToPublished(urn, at) => p.(status := Published, publishedAt := Some(at), postUrn := Some(urn))
    case ToFailed(message) => p.(status := Failed, errorMessage := Some(message), retryCount := p.retryCount + 1)
    case ToCancelled => p.(status := Cancelled)
  }

  /** The selection condition of the due-posts query. */
  predicate IsDue(p: Post, now: string)
  {
    p.status == Pending && LexLe(p.scheduledTime, now)
  }

  /** A pending row that is due stays due at every later time. */
  lemma DueStaysDue(p: Post, now: string, later: string)
    requires IsDue(p, now) && LexLe(now, later)
    ensures IsDue(p, later)
  {
    LexLeTransitive(p.scheduledTime, now, later);
  }

  /** After any of the three updates a row is never due again, whatever the time. */
  lemma UpdatedNeverDue(p: Post, c: Change, now: string)
    ensures !IsDue(Apply(p, c), now)
  {
  }

  /** The row-level invariant of the data model: the publication columns are set
      exactly on published rows, and an error message is present exactly when at
      least one attempt has failed. */
  predicate Consistent(p: Post)
  {
    && (p.status == Published <==> p.publishedAt.Some?)
    && (p.publishedAt.Some? <==> p.postUrn.Some?)
    && (p.errorMessage.Some? <==> p.retryCount > 0)
    && (p.status == Pending ==> p.retryCount == 0)
  }

  lemma NewPostConsistent(id: string, commentary: string, scheduledTime: string, url: Option<string>,
                          visibility: string, createdAt: string)
    ensures Consistent(NewPost(id, commentary, scheduledTime, url, visibility, createdAt))
  {
  }

  /** Every update applied to a pending row keeps the row consistent. */
  lemma ApplyToPendingConsistent(p: Post, c: Change)
    requires Consistent(p) && p.status == Pending
    ensures Consistent(Apply(p, c))
  {
  }

  /** The failure update has no status guard: applied to a published row it
      produces a failed row that still carries its publication columns. */
  lemma FailingPublishedRowBreaksConsistency(p: Post, message: string)
    requires Consistent(p) && p.status == Published
    ensures !Consistent(Apply(p, ToFailed(message)))
  {
  }
}
