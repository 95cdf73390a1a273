# Signal scheduler: the post table and the dispatcher, in Dafny

This project models the core of a service that posts text and image messages to
Signal groups at a scheduled time. Its parts:

- **The post table** (`posts`, in SQLite). Each post has an id, a message, a target
  group, a `scheduled_at` timestamp, a `status` (`scheduled`, `sent` or `failed`),
  an optional `sent_at` and an optional `image_path`. The upload directory holds
  the attached images.
- **The delivery client** (`sendToSignal`). It builds the JSON request for the
  gateway's `/v2/send` endpoint: one recipient, the configured sender number, and
  the image in base64 when there is one. Every failure becomes `false`.
- **The dispatcher tick** (`processScheduledPosts`). It reads the due posts once,
  earliest first. It tries each one in turn and writes `sent` (with `sent_at`) or
  `failed` before it moves to the next post.
- **The `/api/posts` route.** `POST` validates a new post, stores its image, and
  inserts it as `scheduled`. `GET` lists posts by ascending `scheduled_at`,
  optionally only those with a given status.

Files, one module each: `wrappers.dfy` (Option), `strings.dfy` (how SQLite
compares text, JavaScript truthiness, `String.includes`), `store.dfy` (rows,
queries, the `PostTable` and `UploadDir` classes), `delivery.dfy`,
`scheduler.dfy` and `posts_api.dfy`.

Modelling choices:

- **Timestamps** are strings, because the source stores and compares ISO-8601
  text. SQLite's BINARY collation compares them by code point (`Strings.TextLe`).
- **Queries are functions.** `Store.Filter` is the WHERE clause and
  `Store.SortByTime` is `ORDER BY scheduled_at ASC`. `Store.Select` promises only
  what SQL promises: exactly the matching rows, sorted by `scheduled_at`.
- **Tie order is an assumption.** The queries order only by `scheduled_at`, so
  SQL leaves the order of equal timestamps open. The model's sort is stable over
  rows in rowid order, so equal timestamps come out in ascending id order
  (`Store.SelectTieOrder`). The code does not ask for this order.
- **The outside world is a parameter.** `Delivery.Environment` holds the sender
  number, the base64 encoder, the gateway's answer to the k-th attempt of a tick
  (k is the post's place in the tick's snapshot; an attempt whose image read fails
  sends nothing but still has its k), and the clock reading taken when the k-th
  post is committed. File reads look up
  the upload directory; a missing path is a thrown read error.
- **`sent_at` is the clock reading of its own commit.** The source calls
  `new Date()` again for each update, so `sent_at` is not the tick's `now`.
- **Updates are unguarded.** `UPDATE ... WHERE id = ?` does not check the status
  again, so a post that is no longer scheduled is still overwritten, and an id
  that is gone matches no row (`Store.SetSentWhereId`, `Store.SetFailedWhereId`).
- **Empty messages are rejected.** Creating a post needs a non-empty `message`,
  even when an image is attached.
- **New ids follow the rowid rule.** A new row's id is one more than the largest
  id in the table (`Store.PostTable.NextId`), which is what SQLite does for a
  table without AUTOINCREMENT. The contracts of `Store.PostTable.Insert` and
  `PostsApi.CreatePost` pin the new id to exactly this value. The schema is not
  part of this model, so this is an assumption (see "Left out").

## Model

| member | source | states |
|---|---|---|
| `Strings.TextLeIsFirstDifferenceOrder` | scripts/scheduler.ts:65 | The text order used for `scheduled_at <= ?` is the first-difference (prefix-first) order, in both directions |
| `Strings.TextLeReflexive` | scripts/scheduler.ts:65 | Every timestamp is `<=` itself |
| `Strings.TextLeTotal` | scripts/scheduler.ts:65 | Any two timestamps are comparable, so ORDER BY has a total order to sort by |
| `Strings.TextLeAntisymmetric` | scripts/scheduler.ts:65 | Two timestamps that are each `<=` the other are equal |
| `Strings.TextLeTransitive` | scripts/scheduler.ts:65 | The text order is transitive |
| `Strings.IncludesIsOccurrence` | app/api/posts/route.ts:51 | `contentType.includes(t)` holds exactly when `t` occurs at some position of the content type |
| `Store.Filter` | scripts/scheduler.ts:64-66 | A WHERE clause keeps exactly the rows that match it, and no more rows than the table has |
| `Store.FilterCounts` | scripts/scheduler.ts:64-66 | A WHERE clause returns each matching row exactly as often as the table holds it, and no other row |
| `Store.FilterKeepsIdsAscending` | scripts/scheduler.ts:64-66 | When ids ascend in the table, they still ascend in a WHERE clause's result |
| `Store.FilterAllRows` | app/api/posts/route.ts:20 | A query without WHERE returns the whole table |
| `Store.InsertByTime` | scripts/scheduler.ts:65 | One sorting step adds exactly the inserted post to the multiset of posts |
| `Store.SortByTime` | scripts/scheduler.ts:65 | ORDER BY returns a permutation of its input |
| `Store.InsertByTimeSorted` | scripts/scheduler.ts:65 | Inserting into a list sorted by `scheduled_at` keeps it sorted |
| `Store.SortByTimeSorted` | scripts/scheduler.ts:65 | ORDER BY `scheduled_at` ASC yields a list sorted by `scheduled_at` |
| `Store.Select` | scripts/scheduler.ts:64-66 | SELECT ... WHERE ... ORDER BY `scheduled_at` returns a permutation of the matching rows, each row in it matches and is in the table, sorted by `scheduled_at` |
| `Store.SelectTieOrder` | scripts/scheduler.ts:65 | Under the rowid tie-order assumption, a selection is ordered by `scheduled_at`, then by id, and no id repeats |
| `Store.PostTable.NextId` | app/api/posts/route.ts:99-103 | The id of the next inserted row is larger than every id in the table |
| `Store.PostTable.Insert` | app/api/posts/route.ts:99-103 | INSERT appends one `scheduled` row with no `sent_at` and the given columns, keeps ids ascending, and returns that row |
| `Store.PostTable.MarkSent` | scripts/scheduler.ts:81-83 | The row with that id, if any, becomes `sent` with the given `sent_at`; other rows are unchanged |
| `Store.PostTable.MarkFailed` | scripts/scheduler.ts:86-88 | The row with that id, if any, becomes `failed` and keeps its `sent_at`; other rows are unchanged |
| `Store.UploadDir.WriteFile` | app/api/posts/route.ts:77 | Writing a file creates or replaces that path and leaves every other file alone |
| `Delivery.Deliver` | scripts/scheduler.ts:26-57 | A request goes out unless the image file is missing. It carries the message, exactly `[groupId]` as recipients and the configured sender. It has an attachment list exactly when an image path is given, holding that file encoded whole. The result is `true` exactly when a request went out and got a 2xx answer |
| `Delivery.SendToSignal` | scripts/scheduler.ts:26-57 | Building the payload, adding the attachment and catching every failure returns the outcome `Deliver` specifies; `true` never comes from a missing image |
| `Scheduler.DispatchedAt` | scripts/scheduler.ts:75-91 | After n steps of the loop, a row whose id was among the first n snapshot posts has been committed once, by its own attempt (sent with that attempt's clock reading, or failed); every other row is unchanged |
| `Scheduler.SnapshotRowFate` | scripts/scheduler.ts:75-91 | The snapshot post carrying a row's id is that row, and the row ends committed by that snapshot entry's attempt |
| `Scheduler.DueRowFate` | scripts/scheduler.ts:62-91 | A due row is in the snapshot at some place `k`, and ends committed by the `k`-th attempt of the tick |
| `Scheduler.NotDueRowUnchanged` | scripts/scheduler.ts:62-91 | A row that was not due when the tick read the table ends exactly as it was |
| `Scheduler.TickLeavesNotDueUnchanged` | scripts/scheduler.ts:59-97 | A tick keeps the number of rows and leaves every post that was not due unchanged |
| `Scheduler.TickCommitsFromLog` | scripts/scheduler.ts:75-91 | Each logged post's row ends committed from its own log entry, whose outcome depends only on that post and that attempt |
| `Scheduler.EveryDuePostAttemptedOnce` | scripts/scheduler.ts:62-91 | Every due post is attempted, only due posts are attempted, no post twice, in ascending `scheduled_at` order. Each attempt's outcome is that post's own delivery result, so a failure does not stop later attempts |
| `Scheduler.TickTransitions` | scripts/scheduler.ts:80-90 | A tick changes status only from `scheduled` to `sent` or `failed`, and every due post leaves `scheduled`. No column other than `status` and `sent_at` changes; `sent_at` changes only on posts that become sent, to one of the tick's clock readings |
| `Scheduler.TickKeepsIdsAscending` | scripts/scheduler.ts:80-90 | The updates of a tick change no id, so the table's ids stay ascending |
| `Scheduler.TickKeepsSentAtIffSent` | scripts/scheduler.ts:80-90 | If `sent_at` is set exactly on sent posts before a tick, the same holds after it |
| `Scheduler.SentNotBeforeScheduled` | scripts/scheduler.ts:62-83 | When the clock reads no earlier than the tick's `now`, a post the tick marks sent has `sent_at >= scheduled_at` |
| `Scheduler.ProcessScheduledPosts` | scripts/scheduler.ts:59-97 | The loop ends with exactly the table and the attempt log the tick functions specify; with no due post it changes nothing and logs nothing |
| `PostsApi.ListPosts` | app/api/posts/route.ts:14-39 | GET returns exactly the posts whose status text equals a non-empty `status` parameter, or the whole table without one, sorted by `scheduled_at` |
| `PostsApi.CreatePost` | app/api/posts/route.ts:42-114 | POST answers 400 exactly when `message`, `group_id` or `scheduled_at` is missing or empty, and then writes no row and no file. Otherwise it appends exactly one row and returns it. That row is `scheduled` with no `sent_at`, has the given fields, a `group_name` that defaults to `''`, and a fresh id. `image_path` is set, and the file written, only for a multipart request whose image is non-empty |

## Left out

- Opening and closing the SQLite connection, and every database exception: the 500
  answers of both routes, and a thrown write that would end a tick early. In the
  model every query and update succeeds.
- Overlapping ticks: the cron job (scripts/scheduler.ts:101-106) starts a tick every
  minute without waiting for the previous one. Ticks here run one at a time, as a
  single sequential operation.
- A crash between a successful send and its status write, which can cause a
  duplicate send on the next tick. This is concurrency and failure of the process,
  not of the code's logic.
- Logging (`console.log` and `console.error`). The attempt log returned by the tick
  stands in for the per-post lines.
- `fetch`, `readFile`, base64 encoding and the clock are parameters. `writeFile` is
  `Store.UploadDir.WriteFile`, which always succeeds. The gateway URL and headers
  are not modelled, because the gateway sees only the payload.
- The error paths of `POST /api/posts` that lie outside its database `try` block
  (app/api/posts/route.ts:53, 77, 82-86): `request.formData()` or `request.json()`
  throwing on a malformed body, a JSON body of `null` whose `body.message` throws,
  and `writeFile` rejecting before the insert. Each escapes the handler as the
  framework's 500. `PostsApi.CreateRequest` can only hold a parsed body, so
  `PostsApi.CreatePost` answers only 201 or 400.
- Store.PostTable.NextId: the exact new id assumes the table has no AUTOINCREMENT,
  since the schema is not part of this model. With AUTOINCREMENT, the id of a
  deleted last row (app/api/posts/[id]/route.ts:43) would not be reused, and
  only "larger than every id in the table" would still hold.
- The upload file name, built from `Date.now()` and the image name's extension, is
  the parameter `uploadPath` of `PostsApi.CreatePost`. The `created_at` column
  default is the parameter `createdAt`.
- JSON bodies whose fields are not strings (numbers, objects), and form fields that
  hold a file where text is expected. Fields are modelled as absent or a string.
- The rest of the repository: the web page, timezone helpers, the groups proxy, and
  the edit, delete and image routes.
