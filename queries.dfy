/** The table as a sequence of rows in insertion order, and the pieces the
    store's SELECT and UPDATE statements are built from: lookup by id,
    WHERE (Filter), ORDER BY scheduled_time (SortByTime), LIMIT (Take) and
    UPDATE ... WHERE id = ? (Update). */
module Queries {
  import opened TextOrder
  import opened Posts

  function Ids(rows: seq<Post>): seq<string>
  {
    seq(|rows|, i requires 0 <= i < |rows| => rows[i].id)
  }

  predicate HasId(rows: seq<Post>, id: string)
  {
    id in Ids(rows)
  }

  /** The `id` column is a primary key. */
  predicate DistinctIds(rows: seq<Post>)
  {
    forall i, j :: 0 <= i < j < |rows| ==> rows[i].id != rows[j].id
  }

  lemma DistinctIdsFromIds(s: seq<Post>, t: seq<Post>)
    requires Ids(s) == Ids(t) && DistinctIds(s)
    ensures DistinctIds(t)
  {
    forall i, j | 0 <= i < j < |t|
      ensures t[i].id != t[j].id
    {
      assert Ids(s)[i] == s[i].id && Ids(t)[i] == t[i].id;
      assert Ids(s)[j] == s[j].id && Ids(t)[j] == t[j].id;
    }
  }

  lemma DistinctIdsCons(p: Post, s: seq<Post>)
    requires DistinctIds(s) && forall q :: q in s ==> q.id != p.id
    ensures DistinctIds([p] + s)
  {
    var t := [p] + s;
    forall i, j | 0 <= i < j < |t|
      ensures t[i].id != t[j].id
    {
      assert t[j] == s[j - 1];
      if i > 0 {
        assert t[i] == s[i - 1];
      } else {
        assert t[j] in s;
      }
    }
  }

  /** The position of the first occurrence of `id`, if any. */
  function IndexOf(ids: seq<string>, id: string): (r: Option<nat>)
    ensures r.Some? ==> r.value < |ids| && ids[r.value] == id
    ensures r.Some? ==> forall k :: 0 <= k < r.value ==> ids[k] != id
    ensures r.None? <==> id !in ids
  {
    if ids == [] then None
    else if ids[0] == id then Some(0)
    else
      match IndexOf(ids[1..], id)
      case None => None
      case Some(k) => Some(k + 1)
  }

  /** In a sequence extended by one element, the first occurrence is the one
      in the prefix if there is one, otherwise the new element if it matches. */
  lemma {:induction false} IndexOfSnoc(ids: seq<string>, id: string)
    requires |ids| > 0
    ensures var n := |ids| - 1;
            IndexOf(ids, id) ==
              if IndexOf(ids[..n], id).Some? then IndexOf(ids[..n], id)
              else if ids[n] == id then Some(n)
              else None
  {
    var n := |ids| - 1;
    var pre := IndexOf(ids[..n], id);
    var whole := IndexOf(ids, id);
    if pre.Some? {
      assert ids[pre.value] == id;
      assert whole.value <= pre.value;
      assert ids[..n][whole.value] == id;
    } else if whole.Some? {
      assert forall k :: 0 <= k < n ==> ids[..n][k] == ids[k];
    } else {
      assert ids[n] in ids;
    }
  }

  /** The row the primary-key lookup `SELECT * ... WHERE id = ?` returns. */
  function Find(rows: seq<Post>, id: string): (r: Option<Post>)
    ensures r.None? <==> !HasId(rows, id)
    ensures r.Some? ==> r.value in rows && r.value.id == id
  {
    match IndexOf(Ids(rows), id)
    case None => None
    case Some(i) => Some(rows[i])
  }

  /** Under distinct ids, a row's id is first found at that row's own position. */
  lemma IndexOfDistinct(rows: seq<Post>, i: nat)
    requires DistinctIds(rows) && i < |rows|
    ensures IndexOf(Ids(rows), rows[i].id) == Some(i)
  {
    assert Ids(rows)[i] == rows[i].id;
    var k := IndexOf(Ids(rows), rows[i].id).value;
    assert Ids(rows)[k] == rows[k].id;
  }

  /** Under the primary key, the lookup of a row's id finds that row. */
  lemma FindDistinct(rows: seq<Post>, i: nat)
    requires DistinctIds(rows) && i < |rows|
    ensures Find(rows, rows[i].id) == Some(rows[i])
  {
    IndexOfDistinct(rows, i);
  }

  /** An appended row with a fresh id is found by its id. */
  lemma FindAppended(rows: seq<Post>, p: Post)
    requires !HasId(rows, p.id)
    ensures Find(rows + [p], p.id) == Some(p)
    ensures forall id :: id != p.id ==> Find(rows + [p], id) == Find(rows, id)
  {
    var t := rows + [p];
    assert Ids(t) == Ids(rows) + [p.id];
    assert Ids(t)[..|rows|] == Ids(rows);
    IndexOfSnoc(Ids(t), p.id);
    forall id | id != p.id
      ensures Find(t, id) == Find(rows, id)
    {
      IndexOfSnoc(Ids(t), id);
    }
  }

  /** `UPDATE scheduled_posts SET ... WHERE id = ?`: every row with that id
      changes, every other row stays as it is; no row is added or removed. */
  function Update(rows: seq<Post>, id: string, c: Change): (r: seq<Post>)
    ensures |r| == |rows| && Ids(r) == Ids(rows)
  {
    var r := seq(|rows|, j requires 0 <= j < |rows| => if rows[j].id == id then Apply(rows[j], c) else rows[j]);
    assert forall j :: 0 <= j < |rows| ==> Ids(r)[j] == Ids(rows)[j];
    r
  }

  /** What a lookup sees after an update: the updated row under the updated
      id, and the old answer under every other id. */
  lemma UpdateFind(rows: seq<Post>, id: string, c: Change, key: string)
    ensures Find(Update(rows, id, c), key) ==
              if key == id && Find(rows, id).Some? then Some(Apply(Find(rows, id).value, c))
              else Find(rows, key)
  {
    var r := Update(rows, id, c);
    match IndexOf(Ids(rows), key)
    case None =>
    case Some(i) =>
      assert Ids(rows)[i] == rows[i].id;
  }

  /** An update that only reaches pending rows keeps every row consistent. */
  lemma UpdatePendingConsistent(rows: seq<Post>, id: string, c: Change)
    requires forall p :: p in rows ==> Consistent(p)
    requires forall p :: p in rows && p.id == id ==> p.status == Pending
    ensures forall p :: p in Update(rows, id, c) ==> Consistent(p)
  {
    var r := Update(rows, id, c);
    forall p | p in r
      ensures Consistent(p)
    {
      var j :| 0 <= j < |r| && r[j] == p;
      if rows[j].id == id {
        ApplyToPendingConsistent(rows[j], c);
      }
    }
  }

  /** The WHERE clause of a SELECT: the rows that satisfy `keep`, in table order. */
  function Filter(rows: seq<Post>, keep: Post -> bool): (r: seq<Post>)
    ensures forall p :: p in r <==> p in rows && keep(p)
    ensures multiset(r) <= multiset(rows)
    decreases |rows|
  {
    if rows == [] then []
    else
      assert rows == [rows[0]] + rows[1..];
      (if keep(rows[0]) then [rows[0]] else []) + Filter(rows[1..], keep)
  }

  /** A condition every row satisfies filters nothing out. */
  lemma {:induction false} FilterKeepsAll(rows: seq<Post>, keep: Post -> bool)
    requires forall p :: p in rows ==> keep(p)
    ensures Filter(rows, keep) == rows
    decreases |rows|
  {
    if rows != [] {
      FilterKeepsAll(rows[1..], keep);
      assert rows == [rows[0]] + rows[1..];
    }
  }

  lemma {:induction false} FilterDistinct(rows: seq<Post>, keep: Post -> bool)
    requires DistinctIds(rows)
    ensures DistinctIds(Filter(rows, keep))
    decreases |rows|
  {
    if rows != [] {
      var tail := Filter(rows[1..], keep);
      FilterDistinct(rows[1..], keep);
      if keep(rows[0]) {
        forall q | q in tail
          ensures q.id != rows[0].id
        {
          var j :| 0 <= j < |rows[1..]| && rows[1..][j] == q;
          assert rows[j + 1] == q;
        }
        DistinctIdsCons(rows[0], tail);
      }
    }
  }

  /** Non-decreasing by `scheduled_time` under the TEXT order. */
  predicate SortedByTime(s: seq<Post>)
  {
    forall i, j :: 0 <= i < j < |s| ==> LexLe(s[i].scheduledTime, s[j].scheduledTime)
  }

  lemma SortedCons(p: Post, s: seq<Post>)
    requires SortedByTime(s)
    requires forall q :: q in s ==> LexLe(p.scheduledTime, q.scheduledTime)
    ensures SortedByTime([p] + s)
  {
    var t := [p] + s;
    forall i, j | 0 <= i < j < |t|
      ensures LexLe(t[i].scheduledTime, t[j].scheduledTime)
    {
      assert t[j] == s[j - 1];
      if i > 0 {
        assert t[i] == s[i - 1];
      }
    }
  }

  /** Places `p` before the first row that is not earlier than it, so that
      rows with equal times keep their table order. */
  function Insert(p: Post, s: seq<Post>): (r: seq<Post>)
    ensures multiset(r) == multiset(s) + multiset{p}
    decreases |s|
  {
    if s == [] then [p]
    else if LexLe(p.scheduledTime, s[0].scheduledTime) then [p] + s
    else
      assert s == [s[0]] + s[1..];
      [s[0]] + Insert(p, s[1..])
  }

  lemma {:induction false} InsertSorted(p: Post, s: seq<Post>)
    requires SortedByTime(s)
    ensures SortedByTime(Insert(p, s))
    decreases |s|
  {
    if s == [] {
    } else if LexLe(p.scheduledTime, s[0].scheduledTime) {
      forall q | q in s
        ensures LexLe(p.scheduledTime, q.scheduledTime)
      {
        var j :| 0 <= j < |s| && s[j] == q;
        if j > 0 {
          LexLeTransitive(p.scheduledTime, s[0].scheduledTime, q.scheduledTime);
        }
      }
      SortedCons(p, s);
    } else {
      var rest := Insert(p, s[1..]);
      InsertSorted(p, s[1..]);
      LexLeTotal(p.scheduledTime, s[0].scheduledTime);
      forall q | q in rest
        ensures LexLe(s[0].scheduledTime, q.scheduledTime)
      {
        assert q in multiset(rest);
        if q != p {
          assert q in multiset(s[1..]);
          var j :| 0 <= j < |s[1..]| && s[1..][j] == q;
          assert s[j + 1] == q;
        }
      }
      SortedCons(s[0], rest);
    }
  }

  lemma {:induction false} InsertDistinct(p: Post, s: seq<Post>)
    requires DistinctIds(s) && forall q :: q in s ==> q.id != p.id
    ensures DistinctIds(Insert(p, s))
    decreases |s|
  {
    if s == [] {
    } else if LexLe(p.scheduledTime, s[0].scheduledTime) {
      DistinctIdsCons(p, s);
    } else {
      var rest := Insert(p, s[1..]);
      forall q | q in s[1..]
        ensures q.id != p.id
      {
        assert q in s;
      }
      assert DistinctIds(s[1..]) by {
        forall i, j | 0 <= i < j < |s[1..]|
          ensures s[1..][i].id != s[1..][j].id
        {
          assert s[1..][i] == s[i + 1] && s[1..][j] == s[j + 1];
        }
      }
      InsertDistinct(p, s[1..]);
      forall q | q in rest
        ensures q.id != s[0].id
      {
        assert q in multiset(rest);
        if q != p {
          assert q in multiset(s[1..]);
          var j :| 0 <= j < |s[1..]| && s[1..][j] == q;
          assert s[j + 1] == q;
        }
      }
      DistinctIdsCons(s[0], rest);
    }
  }

  /** ORDER BY scheduled_time ASC, ties in table order. */
  function SortByTime(s: seq<Post>): (r: seq<Post>)
    ensures multiset(r) == multiset(s)
    decreases |s|
  {
    if s == [] then []
    else
      assert s == [s[0]] + s[1..];
      Insert(s[0], SortByTime(s[1..]))
  }

  /** ORDER BY neither adds nor drops a row. */
  lemma SortByTimeMembers(s: seq<Post>)
    ensures forall p :: p in SortByTime(s) <==> p in s
  {
    forall p
      ensures p in SortByTime(s) <==> p in s
    {
      assert p in SortByTime(s) <==> p in multiset(SortByTime(s));
      assert p in s <==> p in multiset(s);
    }
  }

  lemma {:induction false} SortByTimeSorted(s: seq<Post>)
    ensures SortedByTime(SortByTime(s))
    decreases |s|
  {
    if s != [] {
      SortByTimeSorted(s[1..]);
      InsertSorted(s[0], SortByTime(s[1..]));
    }
  }

  lemma {:induction false} SortByTimeDistinct(s: seq<Post>)
    requires DistinctIds(s)
    ensures DistinctIds(SortByTime(s))
    decreases |s|
  {
    if s != [] {
      var rest := SortByTime(s[1..]);
      assert DistinctIds(s[1..]) by {
        forall i, j | 0 <= i < j < |s[1..]|
          ensures s[1..][i].id != s[1..][j].id
        {
          assert s[1..][i] == s[i + 1] && s[1..][j] == s[j + 1];
        }
      }
      SortByTimeDistinct(s[1..]);
      forall q | q in rest
        ensures q.id != s[0].id
      {
        assert q in multiset(rest);
        assert q in multiset(s[1..]);
        var j :| 0 <= j < |s[1..]| && s[1..][j] == q;
        assert s[j + 1] == q;
      }
      InsertDistinct(s[0], rest);
    }
  }

  /** The number of rows `LIMIT limit` lets through out of `n`; SQLite reads a
      negative limit as "no limit". */
  function LimitCount(limit: int, n: nat): nat
  {
    if limit < 0 || limit > n then n else limit
  }

  /** LIMIT: the first rows of the ordered result. */
  function Take(s: seq<Post>, limit: int): (r: seq<Post>)
    ensures |r| == LimitCount(limit, |s|) && r == s[..|r|]
    ensures multiset(r) <= multiset(s)
  {
    var n := LimitCount(limit, |s|);
    assert s == s[..n] + s[n..];
    s[..n]
  }
}
