/**
 * The `posts` table shared by the API routes and the scheduler, and the
 * upload directory that holds attached images.
 *
 * Queries are modelled as functions: `Filter` is a WHERE clause and
 * `SortByTime` is `ORDER BY scheduled_at ASC`. SQL promises only that the
 * result is sorted by `scheduled_at` and holds exactly the matching rows; this
 * model breaks ties by rowid order (`SelectTieOrder`), which is an assumption
 * about SQLite, not something the queries ask for.
 */
module Store {
  import opened Wrappers
  import opened Strings

  newtype byte = b: int | 0 <= b < 256

  /** The three values the core ever writes to the `status` column. */
  datatype Status = Scheduled | Sent | Failed

  /** The text stored in the `status` column. */
  function StatusText(s: Status): string {
    match s
    case Scheduled => "scheduled"
    case Sent => "sent"
    case Failed => "failed"
  }

  /** One row of `posts`; NULL columns are `None`. */
  datatype Post = Post(
    id: int,
    message: string,
    groupId: string,
    groupName: string,
    scheduledAt: string,
    status: Status,
    createdAt: string,
    sentAt: Option<string>,
    imagePath: Option<string>)

  /** A post is due at `now` when it is still scheduled and its time has come. */
  predicate IsDue(p: Post, now: string) {
    p.status == Scheduled && TextLe(p.scheduledAt, now)
  }

  /** The WHERE clauses the core issues. */
  datatype Where =
    | AllRows                // no WHERE clause
    | StatusIs(text: string) // WHERE status = ?
    | DueBy(now: string)     // WHERE scheduled_at <= ? AND status = 'scheduled'

  predicate Matches(w: Where, p: Post) {
    match w
    case AllRows => true
    case StatusIs(t) => StatusText(p.status) == t
    case DueBy(now) => IsDue(p, now)
  }

  /** The rows satisfying `w`, in table order. */
  function Filter(rows: seq<Post>, w: Where): (r: seq<Post>)
    ensures |r| <= |rows|
    ensures forall p :: p in r <==> p in rows && Matches(w, p)
  {
    if rows == [] then []
    else if Matches(w, rows[0]) then [rows[0]] + Filter(rows[1..], w)
    else Filter(rows[1..], w)
  }

  /** A WHERE clause keeps each matching row as often as the table holds it, and no other row. */
  lemma {:induction false} FilterCounts(rows: seq<Post>, w: Where)
    ensures forall p :: multiset(Filter(rows, w))[p] == if Matches(w, p) then multiset(rows)[p] else 0
  {
    if rows != [] {
      FilterCounts(rows[1..], w);
      assert rows == [rows[0]] + rows[1..];
      assert multiset(rows) == multiset{rows[0]} + multiset(rows[1..]);
    }
  }

  lemma {:induction false} FilterAllRows(rows: seq<Post>)
    ensures Filter(rows, AllRows) == rows
  {
    if rows != [] {
      FilterAllRows(rows[1..]);
      assert rows == [rows[0]] + rows[1..];
    }
  }

  ghost predicate SortedByTime(s: seq<Post>) {
    forall i, j :: 0 <= i < j < |s| ==> TextLe(s[i].scheduledAt, s[j].scheduledAt)
  }

  /** Inserts `x` before the first element that is not earlier than it. */
  function InsertByTime(x: Post, s: seq<Post>): (r: seq<Post>)
    ensures multiset(r) == multiset(s) + multiset{x}
  {
    if s == [] || TextLe(x.scheduledAt, s[0].scheduledAt) then [x] + s
    else
      assert s == [s[0]] + s[1..];
      [s[0]] + InsertByTime(x, s[1..])
  }

  /** `ORDER BY scheduled_at ASC`, as a stable insertion sort. */
  function SortByTime(s: seq<Post>): (r: seq<Post>)
    ensures multiset(r) == multiset(s)
  {
    if s == [] then []
    else
      assert s == [s[0]] + s[1..];
      InsertByTime(s[0], SortByTime(s[1..]))
  }

  lemma {:induction false} InsertByTimeSorted(x: Post, s: seq<Post>)
    requires SortedByTime(s)
    ensures SortedByTime(InsertByTime(x, s))
  {
    if s == [] {
    } else if TextLe(x.scheduledAt, s[0].scheduledAt) {
      forall j | 0 < j < |s|
        ensures TextLe(x.scheduledAt, s[j].scheduledAt)
      {
        TextLeTransitive(x.scheduledAt, s[0].scheduledAt, s[j].scheduledAt);
      }
    } else {
      TextLeTotal(x.scheduledAt, s[0].scheduledAt);
      InsertByTimeSorted(x, s[1..]);
      var r := InsertByTime(x, s[1..]);
      forall k | 0 <= k < |r|
        ensures TextLe(s[0].scheduledAt, r[k].scheduledAt)
      {
        assert r[k] in multiset(r);
        if r[k] != x {
          assert r[k] in s[1..];
        }
      }
    }
  }

  lemma {:induction false} SortByTimeSorted(s: seq<Post>)
    ensures SortedByTime(SortByTime(s))
  {
    if s != [] {
      SortByTimeSorted(s[1..]);
      InsertByTimeSorted(s[0], SortByTime(s[1..]));
    }
  }

  /**
   * `SELECT * FROM posts WHERE w ORDER BY scheduled_at ASC`: exactly the
   * matching rows, each as often as in the table, earliest first.
   */
  function Select(rows: seq<Post>, w: Where): (r: seq<Post>)
    ensures multiset(r) == multiset(Filter(rows, w))
    ensures forall p :: p in r <==> p in rows && Matches(w, p)
    ensures SortedByTime(r)
  {
    var m := Filter(rows, w);
    var r := SortByTime(m);
    SortByTimeSorted(m);
    assert forall p :: p in r <==> p in multiset(r);
    r
  }

  /** Rowids strictly increase along the table, so no id occurs twice. */
  ghost predicate IdsAscending(rows: seq<Post>) {
    forall i, j :: 0 <= i < j < |rows| ==> rows[i].id < rows[j].id
  }

  ghost predicate DistinctIds(s: seq<Post>) {
    forall i, j :: 0 <= i < j < |s| ==> s[i].id != s[j].id
  }

  /** `p` comes before `q` by time, and by id when their times are equal. */
  predicate Precedes(p: Post, q: Post) {
    TextLe(p.scheduledAt, q.scheduledAt) && (p.scheduledAt == q.scheduledAt ==> p.id < q.id)
  }

  ghost predicate SortedByTimeThenId(s: seq<Post>) {
    forall i, j :: 0 <= i < j < |s| ==> Precedes(s[i], s[j])
  }

  lemma PrecedesTransitive(p: Post, q: Post, r: Post)
    requires Precedes(p, q) && Precedes(q, r)
    ensures Precedes(p, r)
  {
    TextLeTransitive(p.scheduledAt, q.scheduledAt, r.scheduledAt);
    if p.scheduledAt == r.scheduledAt {
      TextLeAntisymmetric(p.scheduledAt, q.scheduledAt);
    }
  }

  lemma {:induction false} FilterKeepsIdsAscending(rows: seq<Post>, w: Where)
    requires IdsAscending(rows)
    ensures IdsAscending(Filter(rows, w))
  {
    if rows != [] {
      FilterKeepsIdsAscending(rows[1..], w);
      var f := Filter(rows[1..], w);
      forall k | 0 <= k < |f| ensures rows[0].id < f[k].id {
        assert f[k] in rows[1..];
      }
    }
  }

  lemma {:induction false} InsertByTimeTieOrder(x: Post, s: seq<Post>)
    requires SortedByTimeThenId(s)
    requires forall k :: 0 <= k < |s| ==> x.id < s[k].id
    ensures SortedByTimeThenId(InsertByTime(x, s))
  {
    if s == [] {
    } else if TextLe(x.scheduledAt, s[0].scheduledAt) {
      forall j | 0 < j < |s| ensures Precedes(x, s[j]) {
        PrecedesTransitive(x, s[0], s[j]);
      }
    } else {
      TextLeTotal(x.scheduledAt, s[0].scheduledAt);
      TextLeReflexive(x.scheduledAt);
      InsertByTimeTieOrder(x, s[1..]);
      var r := InsertByTime(x, s[1..]);
      forall k | 0 <= k < |r| ensures Precedes(s[0], r[k]) {
        assert r[k] in multiset(r);
        if r[k] != x {
          assert r[k] in s[1..];
        }
      }
    }
  }

  lemma {:induction false} SortByTimeTieOrder(s: seq<Post>)
    requires IdsAscending(s)
    ensures SortedByTimeThenId(SortByTime(s))
  {
    if s != [] {
      SortByTimeTieOrder(s[1..]);
      var r := SortByTime(s[1..]);
      forall k | 0 <= k < |r| ensures s[0].id < r[k].id {
        assert r[k] in multiset(r);
        assert r[k] in s[1..];
      }
      InsertByTimeTieOrder(s[0], r);
    }
  }

  /**
   * Under the assumption that SQLite returns equal `scheduled_at` values in
   * rowid order, a selection over a table with ascending ids is ordered by
   * time and then by id, so its ids are distinct.
   */
  lemma SelectTieOrder(rows: seq<Post>, w: Where)
    requires IdsAscending(rows)
    ensures SortedByTimeThenId(Select(rows, w))
    ensures DistinctIds(Select(rows, w))
  {
    FilterKeepsIdsAscending(rows, w);
    SortByTimeTieOrder(Filter(rows, w));
    var r := Select(rows, w);
    forall i, j | 0 <= i < j < |r| ensures r[i].id != r[j].id {
      SameIdSameRow(rows, r[i], r[j]);
    }
  }

  lemma SameIdSameRow(rows: seq<Post>, p: Post, q: Post)
    requires IdsAscending(rows)
    requires p in rows && q in rows
    ensures p.id == q.id ==> p == q
  {
    var a :| 0 <= a < |rows| && rows[a] == p;
    var b :| 0 <= b < |rows| && rows[b] == q;
    assert p.id == q.id ==> a == b;
  }

  /** `UPDATE posts SET status = 'sent', sent_at = at WHERE id = id`: an absent id changes nothing. */
  function SetSentWhereId(rows: seq<Post>, id: int, at: string): seq<Post>
  {
    seq(|rows|, i requires 0 <= i < |rows| => if rows[i].id == id then MarkedSent(rows[i], at) else rows[i])
  }

  /** `UPDATE posts SET status = 'failed' WHERE id = id`: an absent id changes nothing. */
  function SetFailedWhereId(rows: seq<Post>, id: int): seq<Post>
  {
    seq(|rows|, i requires 0 <= i < |rows| => if rows[i].id == id then MarkedFailed(rows[i]) else rows[i])
  }

  /** The columns the scheduler writes on success and on failure. */
  function MarkedSent(p: Post, at: string): Post {
    p.(status := Sent, sentAt := Some(at))
  }

  function MarkedFailed(p: Post): Post {
    p.(status := Failed)
  }

  /** The table-wide invariant the core keeps: `sent_at` is set exactly on sent posts. */
  ghost predicate SentAtIffSent(rows: seq<Post>) {
    forall i :: 0 <= i < |rows| ==> (rows[i].sentAt.Some? <==> rows[i].status == Sent)
  }

  /** The `posts` table, its rows in rowid order. */
  class PostTable {
    var rows: seq<Post>

    ghost predicate Valid()
      reads this
    {
      IdsAscending(rows)
    }

    constructor ()
      ensures Valid() && rows == []
    {
      rows := [];
    }

    /** The rowid SQLite gives the next inserted row: one more than the largest. */
    function NextId(): (id: int)
      reads this
      requires Valid()
      ensures forall p :: p in rows ==> p.id < id
    {
      if rows == [] then 1 else rows[|rows| - 1].id + 1
    }

    /** `INSERT INTO posts (...) VALUES (..., 'scheduled', ...)`; the new row is returned. */
    method Insert(message: string, groupId: string, groupName: string, scheduledAt: string,
                  imagePath: Option<string>, createdAt: string) returns (p: Post)
      requires Valid()
      modifies this
      ensures Valid()
      ensures p == Post(old(NextId()), message, groupId, groupName, scheduledAt,
                        Scheduled, createdAt, None, imagePath)
      ensures rows == old(rows) + [p]
    {
      p := Post(NextId(), message, groupId, groupName, scheduledAt, Scheduled, createdAt, None, imagePath);
      rows := rows + [p];
    }

    /** `UPDATE posts SET status = 'sent', sent_at = ? WHERE id = ?` */
    method MarkSent(id: int, at: string)
      modifies this
      ensures rows == SetSentWhereId(old(rows), id, at)
    {
      rows := SetSentWhereId(rows, id, at);
    }

    /** `UPDATE posts SET status = 'failed' WHERE id = ?` */
    method MarkFailed(id: int)
      modifies this
      ensures rows == SetFailedWhereId(old(rows), id)
    {
      rows := SetFailedWhereId(rows, id);
    }
  }

  /** The upload directory: file contents by absolute path. */
  class UploadDir {
    var files: map<string, seq<byte>>

    constructor ()
      ensures files == map[]
    {
      files := map[];
    }

    /** `writeFile(path, bytes)`: creates or overwrites the file. */
    method WriteFile(path: string, bytes: seq<byte>)
      modifies this
      ensures files == old(files)[path := bytes]
    {
      files := files[path := bytes];
    }
  }
}
