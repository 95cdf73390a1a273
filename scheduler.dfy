/**
 * The dispatcher tick (`processScheduledPosts`): select the due posts earliest
 * first, try each once in that order, and mark it sent or failed.
 *
 * `Dispatched` and `Attempts` say what the first `n` steps of a tick over a
 * snapshot leave in the table and in the log; the method is proved to end in
 * exactly that state, and the lemmas below say what that state is post by
 * post.
 */
module Scheduler {
  import opened Wrappers
  import opened Strings
  import opened Store
  import opened Delivery

  /** One delivery attempt of a tick: the post as selected, and whether the gateway took it. */
  datatype Attempt = Attempt(post: Post, delivered: bool)

  /** Whether the `k`-th attempt of a tick, for post `p`, succeeds. */
  function Outcome(p: Post, files: map<string, seq<byte>>, env: Environment, k: nat): bool {
    Deliver(p.groupId, p.message, p.imagePath, files, env, k).ok
  }

  /** The state a post is committed to after an attempt. */
  function Commit(p: Post, delivered: bool, at: string): Post {
    if delivered then MarkedSent(p, at) else MarkedFailed(p)
  }

  /** The table after the first `n` posts of `snap` have been attempted and committed. */
  function Dispatched(rows: seq<Post>, snap: seq<Post>, files: map<string, seq<byte>>,
                      env: Environment, n: nat): (r: seq<Post>)
    requires n <= |snap|
    ensures |r| == |rows|
  {
    if n == 0 then rows
    else
      var before := Dispatched(rows, snap, files, env, n - 1);
      var p := snap[n - 1];
      if Outcome(p, files, env, n - 1) then
        SetSentWhereId(before, p.id, env.clock(n - 1))
      else
        SetFailedWhereId(before, p.id)
  }

  /** The log of the first `n` attempts over `snap`. */
  function Attempts(snap: seq<Post>, files: map<string, seq<byte>>, env: Environment, n: nat): seq<Attempt>
    requires n <= |snap|
  {
    seq(n, k requires 0 <= k < n => Attempt(snap[k], Outcome(snap[k], files, env, k)))
  }

  lemma DispatchedStep(rows: seq<Post>, snap: seq<Post>, files: map<string, seq<byte>>, env: Environment, n: nat)
    requires n < |snap|
    ensures Dispatched(rows, snap, files, env, n + 1) ==
            if Outcome(snap[n], files, env, n)
            then SetSentWhereId(Dispatched(rows, snap, files, env, n), snap[n].id, env.clock(n))
            else SetFailedWhereId(Dispatched(rows, snap, files, env, n), snap[n].id)
  {
  }

  lemma AttemptsStep(snap: seq<Post>, files: map<string, seq<byte>>, env: Environment, n: nat)
    requires n < |snap|
    ensures Attempts(snap, files, env, n + 1) ==
            Attempts(snap, files, env, n) + [Attempt(snap[n], Outcome(snap[n], files, env, n))]
  {
  }

  /** The snapshot a tick at `now` works through. */
  function DueSnapshot(rows: seq<Post>, now: string): seq<Post> {
    Select(rows, DueBy(now))
  }

  /** The table after a whole tick at `now`. */
  function TickRows(rows: seq<Post>, now: string, files: map<string, seq<byte>>, env: Environment): seq<Post> {
    var snap := DueSnapshot(rows, now);
    Dispatched(rows, snap, files, env, |snap|)
  }

  /** The attempts of a whole tick at `now`, in the order they are made. */
  function TickLog(rows: seq<Post>, now: string, files: map<string, seq<byte>>, env: Environment): seq<Attempt> {
    var snap := DueSnapshot(rows, now);
    Attempts(snap, files, env, |snap|)
  }

  /**
   * After `n` steps, a row whose id was among the first `n` snapshot entries
   * has been committed once, by that entry's own attempt; every other row is
   * as it was.
   */
  lemma {:induction false} DispatchedAt(rows: seq<Post>, snap: seq<Post>, files: map<string, seq<byte>>,
                                        env: Environment, n: nat)
    requires n <= |snap|
    requires DistinctIds(snap)
    ensures |Dispatched(rows, snap, files, env, n)| == |rows|
    ensures forall j, k :: 0 <= j < |rows| && 0 <= k < n && snap[k].id == rows[j].id ==>
              Dispatched(rows, snap, files, env, n)[j] == Commit(rows[j], Outcome(snap[k], files, env, k), env.clock(k))
    ensures forall j :: 0 <= j < |rows| && (forall k :: 0 <= k < n ==> snap[k].id != rows[j].id) ==>
              Dispatched(rows, snap, files, env, n)[j] == rows[j]
  {
    if n > 0 {
      DispatchedAt(rows, snap, files, env, n - 1);
      var before := Dispatched(rows, snap, files, env, n - 1);
      var after := Dispatched(rows, snap, files, env, n);
      var p := snap[n - 1];
      forall j | 0 <= j < |rows|
        ensures after[j] == if before[j].id == p.id then Commit(before[j], Outcome(p, files, env, n - 1), env.clock(n - 1)) else before[j]
        ensures before[j].id == rows[j].id
      {
        if j < |rows| && (forall k :: 0 <= k < n - 1 ==> snap[k].id != rows[j].id) {
        } else {
          var k :| 0 <= k < n - 1 && snap[k].id == rows[j].id;
        }
      }
    }
  }

  /** The snapshot entry with a row's id is that row, and the row ends committed by that entry's attempt. */
  lemma SnapshotRowFate(rows: seq<Post>, now: string, files: map<string, seq<byte>>, env: Environment, j: int, k: int)
    requires IdsAscending(rows)
    requires 0 <= j < |rows| && 0 <= k < |DueSnapshot(rows, now)| && DueSnapshot(rows, now)[k].id == rows[j].id
    ensures DueSnapshot(rows, now)[k] == rows[j]
    ensures TickRows(rows, now, files, env)[j] == Commit(rows[j], Outcome(rows[j], files, env, k), env.clock(k))
  {
    var snap := DueSnapshot(rows, now);
    assert snap[k] in rows;
    SameIdSameRow(rows, snap[k], rows[j]);
    SelectTieOrder(rows, DueBy(now));
    DispatchedAt(rows, snap, files, env, |snap|);
  }

  /** A due row is committed by the attempt at its own place `k` in the snapshot. */
  lemma DueRowFate(rows: seq<Post>, now: string, files: map<string, seq<byte>>, env: Environment, j: int)
    returns (k: nat)
    requires IdsAscending(rows)
    requires 0 <= j < |rows| && IsDue(rows[j], now)
    ensures k < |DueSnapshot(rows, now)| && DueSnapshot(rows, now)[k] == rows[j]
    ensures TickRows(rows, now, files, env)[j] == Commit(rows[j], Outcome(rows[j], files, env, k), env.clock(k))
  {
    var snap := DueSnapshot(rows, now);
    assert rows[j] in snap;
    k :| 0 <= k < |snap| && snap[k] == rows[j];
    SnapshotRowFate(rows, now, files, env, j, k);
  }

  /** A row that is not due is left as it was. */
  lemma NotDueRowUnchanged(rows: seq<Post>, now: string, files: map<string, seq<byte>>, env: Environment, j: int)
    requires IdsAscending(rows)
    requires 0 <= j < |rows| && !IsDue(rows[j], now)
    ensures TickRows(rows, now, files, env)[j] == rows[j]
  {
    var snap := DueSnapshot(rows, now);
    SelectTieOrder(rows, DueBy(now));
    DispatchedAt(rows, snap, files, env, |snap|);
    forall k | 0 <= k < |snap| ensures snap[k].id != rows[j].id {
      assert snap[k] in rows && IsDue(snap[k], now);
      SameIdSameRow(rows, snap[k], rows[j]);
    }
  }

  /** A tick leaves every post that was not due as it was. */
  lemma TickLeavesNotDueUnchanged(rows: seq<Post>, now: string, files: map<string, seq<byte>>, env: Environment)
    requires IdsAscending(rows)
    ensures |TickRows(rows, now, files, env)| == |rows|
    ensures forall j :: 0 <= j < |rows| && !IsDue(rows[j], now) ==>
              TickRows(rows, now, files, env)[j] == rows[j]
  {
    forall j | 0 <= j < |rows| && !IsDue(rows[j], now) ensures TickRows(rows, now, files, env)[j] == rows[j] {
      NotDueRowUnchanged(rows, now, files, env, j);
    }
  }

  /**
   * Each logged post's row ends committed from its own log entry: sent with
   * the clock reading of that attempt, or failed.
   */
  lemma TickCommitsFromLog(rows: seq<Post>, now: string, files: map<string, seq<byte>>, env: Environment)
    requires IdsAscending(rows)
    ensures forall j, k :: 0 <= j < |rows| && 0 <= k < |TickLog(rows, now, files, env)| &&
                           TickLog(rows, now, files, env)[k].post.id == rows[j].id ==>
              && TickLog(rows, now, files, env)[k].post == rows[j]
              && TickLog(rows, now, files, env)[k].delivered == Outcome(rows[j], files, env, k)
              && TickRows(rows, now, files, env)[j] == Commit(rows[j], TickLog(rows, now, files, env)[k].delivered, env.clock(k))
  {
    var snap := DueSnapshot(rows, now);
    var log := TickLog(rows, now, files, env);
    forall j, k | 0 <= j < |rows| && 0 <= k < |log| && log[k].post.id == rows[j].id
      ensures log[k].post == rows[j]
      ensures log[k].delivered == Outcome(rows[j], files, env, k)
      ensures TickRows(rows, now, files, env)[j] == Commit(rows[j], log[k].delivered, env.clock(k))
    {
      assert log[k] == Attempt(snap[k], Outcome(snap[k], files, env, k));
      SnapshotRowFate(rows, now, files, env, j, k);
    }
  }

  /**
   * Each due post is attempted exactly once in a tick, no other post is
   * attempted, and the attempts go earliest `scheduled_at` first. The outcome
   * of an attempt depends on that post and that attempt's answer alone, so
   * an earlier failure never stops a later attempt.
   */
  lemma EveryDuePostAttemptedOnce(rows: seq<Post>, now: string, files: map<string, seq<byte>>, env: Environment)
    requires IdsAscending(rows)
    ensures forall p :: p in rows && IsDue(p, now) ==>
              exists k :: 0 <= k < |TickLog(rows, now, files, env)| && TickLog(rows, now, files, env)[k].post == p
    ensures forall k :: 0 <= k < |TickLog(rows, now, files, env)| ==>
              && TickLog(rows, now, files, env)[k].post in rows
              && IsDue(TickLog(rows, now, files, env)[k].post, now)
              && TickLog(rows, now, files, env)[k].delivered == Outcome(TickLog(rows, now, files, env)[k].post, files, env, k)
    ensures forall k1, k2 :: 0 <= k1 < k2 < |TickLog(rows, now, files, env)| ==>
              TickLog(rows, now, files, env)[k1].post.id != TickLog(rows, now, files, env)[k2].post.id
    ensures forall k1, k2 :: 0 <= k1 < k2 < |TickLog(rows, now, files, env)| ==>
              TextLe(TickLog(rows, now, files, env)[k1].post.scheduledAt, TickLog(rows, now, files, env)[k2].post.scheduledAt)
  {
    var snap := DueSnapshot(rows, now);
    var log := TickLog(rows, now, files, env);
    SelectTieOrder(rows, DueBy(now));
    forall p | p in rows && IsDue(p, now)
      ensures exists k :: 0 <= k < |log| && log[k].post == p
    {
      assert p in snap;
      var k :| 0 <= k < |snap| && snap[k] == p;
      assert log[k].post == p;
    }
    forall k | 0 <= k < |log| ensures log[k].post in rows && IsDue(log[k].post, now) {
      assert log[k].post == snap[k];
      assert snap[k] in snap;
    }
  }

  /**
   * The lifecycle: a tick moves a post only from `scheduled` to `sent` or
   * `failed`, every due post leaves `scheduled`, and no column besides
   * `status` and `sent_at` changes; `sent_at` changes only when a post becomes
   * sent, to a clock reading of the tick.
   */
  lemma TickTransitions(rows: seq<Post>, now: string, files: map<string, seq<byte>>, env: Environment)
    requires IdsAscending(rows)
    ensures |TickRows(rows, now, files, env)| == |rows|
    ensures forall j :: 0 <= j < |rows| ==>
              TickRows(rows, now, files, env)[j].(status := rows[j].status, sentAt := rows[j].sentAt) == rows[j]
    ensures forall j :: 0 <= j < |rows| && TickRows(rows, now, files, env)[j].status != rows[j].status ==>
              rows[j].status == Scheduled && TickRows(rows, now, files, env)[j].status in {Sent, Failed}
    ensures forall j :: 0 <= j < |rows| && IsDue(rows[j], now) ==> TickRows(rows, now, files, env)[j].status != Scheduled
    ensures forall j :: 0 <= j < |rows| && TickRows(rows, now, files, env)[j].sentAt != rows[j].sentAt ==>
              && TickRows(rows, now, files, env)[j].status == Sent
              && exists k :: 0 <= k < |TickLog(rows, now, files, env)| &&
                             TickRows(rows, now, files, env)[j].sentAt == Some(env.clock(k))
  {
    var after := TickRows(rows, now, files, env);
    var log := TickLog(rows, now, files, env);
    forall j | 0 <= j < |rows|
      ensures |after| == |rows|
      ensures && after[j].(status := rows[j].status, sentAt := rows[j].sentAt) == rows[j]
              && (after[j].status != rows[j].status ==> rows[j].status == Scheduled && after[j].status in {Sent, Failed})
              && (IsDue(rows[j], now) ==> after[j].status != Scheduled)
              && (after[j].sentAt != rows[j].sentAt ==>
                    after[j].status == Sent && exists k :: 0 <= k < |log| && after[j].sentAt == Some(env.clock(k)))
    {
      if IsDue(rows[j], now) {
        var k := DueRowFate(rows, now, files, env, j);
      } else {
        NotDueRowUnchanged(rows, now, files, env, j);
      }
    }
  }

  /** A tick changes no id, so the table's ids stay ascending. */
  lemma TickKeepsIdsAscending(rows: seq<Post>, now: string, files: map<string, seq<byte>>, env: Environment)
    requires IdsAscending(rows)
    ensures IdsAscending(TickRows(rows, now, files, env))
  {
    var after := TickRows(rows, now, files, env);
    TickTransitions(rows, now, files, env);
    forall j | 0 <= j < |rows| ensures after[j].id == rows[j].id {
      assert after[j].(status := rows[j].status, sentAt := rows[j].sentAt) == rows[j];
    }
  }

  /** A tick keeps `sent_at` set exactly on the sent posts. */
  lemma TickKeepsSentAtIffSent(rows: seq<Post>, now: string, files: map<string, seq<byte>>, env: Environment)
    requires IdsAscending(rows)
    requires SentAtIffSent(rows)
    ensures SentAtIffSent(TickRows(rows, now, files, env))
  {
    var after := TickRows(rows, now, files, env);
    TickLeavesNotDueUnchanged(rows, now, files, env);
    forall j | 0 <= j < |after|
      ensures after[j].sentAt.Some? <==> after[j].status == Sent
    {
      if IsDue(rows[j], now) {
        var k := DueRowFate(rows, now, files, env, j);
      }
    }
  }

  /**
   * When every clock reading of the tick is no earlier than `now`, a post the
   * tick marks sent was sent no earlier than it was scheduled.
   */
  lemma SentNotBeforeScheduled(rows: seq<Post>, now: string, files: map<string, seq<byte>>, env: Environment)
    requires IdsAscending(rows)
    requires forall k: nat :: TextLe(now, env.clock(k))
    ensures |TickRows(rows, now, files, env)| == |rows|
    ensures forall j :: 0 <= j < |rows| && rows[j].status != Sent && TickRows(rows, now, files, env)[j].status == Sent ==>
              && TickRows(rows, now, files, env)[j].sentAt.Some?
              && TextLe(rows[j].scheduledAt, TickRows(rows, now, files, env)[j].sentAt.value)
  {
    var after := TickRows(rows, now, files, env);
    TickLeavesNotDueUnchanged(rows, now, files, env);
    forall j | 0 <= j < |rows| && rows[j].status != Sent && after[j].status == Sent
      ensures after[j].sentAt.Some? && TextLe(rows[j].scheduledAt, after[j].sentAt.value)
    {
      assert IsDue(rows[j], now);
      var k := DueRowFate(rows, now, files, env, j);
      TextLeTransitive(rows[j].scheduledAt, now, env.clock(k));
    }
  }

  /**
   * One tick. The due posts are read once, before any delivery; each is then
   * tried and its new state written before the next is tried. A delivery
   * failure is an ordinary `false`, so it never ends the loop early.
   */
  method ProcessScheduledPosts(db: PostTable, uploads: UploadDir, now: string, env: Environment)
    returns (log: seq<Attempt>)
    requires db.Valid()
    modifies db
    ensures db.Valid()
    ensures db.rows == TickRows(old(db.rows), now, uploads.files, env)
    ensures log == TickLog(old(db.rows), now, uploads.files, env)
    ensures (forall p :: p in old(db.rows) ==> !IsDue(p, now)) ==> db.rows == old(db.rows) && log == []
  {
    var posts := Select(db.rows, DueBy(now));
    if |posts| == 0 {
      // "No due posts to process"
      return [];
    }
    assert posts[0] in db.rows && IsDue(posts[0], now);
    ghost var before := db.rows;
    ghost var files := uploads.files;
    log := [];
    for i := 0 to |posts|
      invariant db.rows == Dispatched(before, posts, files, env, i)
      invariant log == Attempts(posts, files, env, i)
    {
      var post := posts[i];
      var success := SendToSignal(post.groupId, post.message, post.imagePath, uploads.files, env, i);
      assert success == Outcome(post, files, env, i);
      DispatchedStep(before, posts, files, env, i);
      AttemptsStep(posts, files, env, i);
      if success {
        db.MarkSent(post.id, env.clock(i));
      } else {
        db.MarkFailed(post.id);
      }
      log := log + [Attempt(post, success)];
    }
    TickKeepsIdsAscending(before, now, files, env);
  }
}
