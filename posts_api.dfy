/**
 * The `/api/posts` route as operations on the post table: `GET` lists posts,
 * optionally of one status, and `POST` validates a new post, stores its image
 * if a multipart request carries one, and inserts it as scheduled.
 */
module PostsApi {
  import opened Wrappers
  import opened Strings
  import opened Store

  /** The text fields of a create request, from the form or the JSON body; an absent field is `None`. */
  datatype Fields = Fields(
    message: Option<string>,
    groupId: Option<string>,
    groupName: Option<string>,
    scheduledAt: Option<string>)

  /** The `image` part of a multipart form. */
  datatype ImageFile = ImageFile(name: string, bytes: seq<byte>)

  datatype CreateRequest = CreateRequest(
    contentType: Option<string>,
    fields: Fields,
    image: Option<ImageFile>)

  /** 201 with the inserted row, or 400 for a missing required field. */
  datatype CreateResponse = Created(post: Post) | MissingFields

  /** The body is read as a form when the content type mentions `multipart/form-data`, else as JSON. */
  predicate IsMultipart(req: CreateRequest) {
    Includes(req.contentType.GetOr(""), "multipart/form-data")
  }

  /** `message`, `group_id` and `scheduled_at` are present and non-empty. */
  predicate HasRequiredFields(f: Fields) {
    Truthy(f.message) && Truthy(f.groupId) && Truthy(f.scheduledAt)
  }

  /** A request stores an image only as a multipart form with a non-empty `image` file. */
  predicate CarriesImage(req: CreateRequest) {
    IsMultipart(req) && req.image.Some? && |req.image.value.bytes| > 0
  }

  /**
   * `GET /api/posts[?status=s]`: all posts, or exactly those whose status
   * text is `s`, earliest `scheduled_at` first. Nothing is written.
   */
  method ListPosts(db: PostTable, status: Option<string>) returns (posts: seq<Post>)
    requires db.Valid()
    ensures posts == Select(db.rows, if Truthy(status) then StatusIs(status.value) else AllRows)
    ensures forall p :: p in posts <==> p in db.rows && (Truthy(status) ==> StatusText(p.status) == status.value)
    ensures !Truthy(status) ==> multiset(posts) == multiset(db.rows)
    ensures SortedByTime(posts)
  {
    var query := AllRows;
    if Truthy(status) {
      query := StatusIs(status.value);
    }
    posts := Select(db.rows, query);
    FilterAllRows(db.rows);
  }

  /**
   * `POST /api/posts`. Both body kinds are checked for the required fields
   * before anything is written; a multipart request with a non-empty image
   * writes it to `uploadPath` first. The new row is `scheduled`, has no
   * `sent_at`, `group_name` defaults to `''`, and it is returned as stored.
   * `uploadPath` and `createdAt` stand for the generated file name and the
   * column default, which come from outside the route.
   */
  method CreatePost(db: PostTable, uploads: UploadDir, req: CreateRequest, uploadPath: string, createdAt: string)
    returns (res: CreateResponse)
    requires db.Valid()
    modifies db, uploads
    ensures db.Valid()
    ensures res.MissingFields? <==> !HasRequiredFields(req.fields)
    ensures res.MissingFields? ==> db.rows == old(db.rows) && uploads.files == old(uploads.files)
    ensures res.Created? ==> db.rows == old(db.rows) + [res.post]
    ensures res.Created? ==>
              && res.post.id == old(db.NextId())
              && (forall q :: q in old(db.rows) ==> q.id < res.post.id)
              && Some(res.post.message) == req.fields.message
              && Some(res.post.groupId) == req.fields.groupId
              && Some(res.post.scheduledAt) == req.fields.scheduledAt
              && res.post.groupName == (if Truthy(req.fields.groupName) then req.fields.groupName.value else "")
              && res.post.status == Scheduled
              && res.post.createdAt == createdAt
              && res.post.sentAt == None
              && res.post.imagePath == (if CarriesImage(req) then Some(uploadPath) else None)
    ensures uploads.files ==
              if res.Created? && CarriesImage(req) then old(uploads.files)[uploadPath := req.image.value.bytes]
              else old(uploads.files)
    ensures SentAtIffSent(old(db.rows)) ==> SentAtIffSent(db.rows)
  {
    var message := req.fields.message;
    var groupId := req.fields.groupId;
    var groupName := req.fields.groupName;
    var scheduledAt := req.fields.scheduledAt;
    var imagePath: Option<string> := None;

    if IsMultipart(req) {
      if !HasRequiredFields(req.fields) {
        return MissingFields;
      }
      if req.image.Some? && |req.image.value.bytes| > 0 {
        uploads.WriteFile(uploadPath, req.image.value.bytes);
        imagePath := Some(uploadPath);
      }
    } else {
      if !HasRequiredFields(req.fields) {
        return MissingFields;
      }
    }

    var name := if Truthy(groupName) then groupName.value else "";
    var post := db.Insert(message.value, groupId.value, name, scheduledAt.value, imagePath, createdAt);
    res := Created(post);
  }
}
