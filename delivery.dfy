/**
 * The delivery client (`sendToSignal`): builds the gateway's JSON request for
 * one post and reduces everything that can happen to success or failure.
 *
 * What lies outside the process is an `Environment`: the sender number from the
 * configuration, base64 encoding, the gateway's answer to each request of a
 * tick, and the clock. The file system is the upload directory's contents.
 */
module Delivery {
  import opened Wrappers
  import opened Strings
  import opened Store

  /** The body POSTed to `/v2/send`; `base64Attachments` is absent unless an image is sent. */
  datatype Payload = Payload(
    message: string,
    recipients: seq<string>,
    number: string,
    base64Attachments: Option<seq<string>>)

  /** What `fetch` yields: a response with an HTTP status, or a thrown error. */
  datatype FetchResult = Responded(status: int) | FetchFailed

  /** `response.ok`: a status in 200..299. */
  predicate IsOk(r: FetchResult) {
    r.Responded? && 200 <= r.status <= 299
  }

  /**
   * `gateway(k, payload)` is the outcome of the request of the `k`-th attempt of a tick and
   * `clock(k)` the time read when the `k`-th post is committed.
   */
  datatype Environment = Environment(
    sender: string,
    base64: seq<byte> -> string,
    gateway: (nat, Payload) -> FetchResult,
    clock: nat -> string)

  /** The request one call posts (none when reading the image throws) and the boolean it returns. */
  datatype Delivery = Delivery(request: Option<Payload>, ok: bool)

  /**
   * One call of the delivery client as the `k`-th attempt of a tick.
   * The request goes to the single group `groupId` from the configured
   * sender and carries the whole image, encoded, exactly when an image path
   * is given; a missing file, a non-2xx answer and a failed fetch all give
   * `false`.
   */
  function Deliver(groupId: string, message: string, imagePath: Option<string>,
                   files: map<string, seq<byte>>, env: Environment, k: nat): (d: Delivery)
    ensures d.request.None? <==> Truthy(imagePath) && imagePath.value !in files
    ensures d.request.Some? ==>
              && d.request.value.message == message
              && d.request.value.recipients == [groupId]
              && d.request.value.number == env.sender
    ensures d.request.Some? ==>
              d.request.value.base64Attachments ==
                (if Truthy(imagePath) then Some([env.base64(files[imagePath.value])]) else None)
    ensures d.ok <==> d.request.Some? && IsOk(env.gateway(k, d.request.value))
  {
    var plain := Payload(message, [groupId], env.sender, None);
    if !Truthy(imagePath) then
      Delivery(Some(plain), IsOk(env.gateway(k, plain)))
    else if imagePath.value !in files then
      Delivery(None, false)
    else
      var withImage := plain.(base64Attachments := Some([env.base64(files[imagePath.value])]));
      Delivery(Some(withImage), IsOk(env.gateway(k, withImage)))
  }

  /**
   * `sendToSignal`: the payload is built, the attachment added only for an
   * image path, and every failure caught and turned into `false`.
   */
  method SendToSignal(groupId: string, message: string, imagePath: Option<string>,
                      files: map<string, seq<byte>>, env: Environment, k: nat) returns (ok: bool)
    ensures ok == Deliver(groupId, message, imagePath, files, env, k).ok
    ensures ok ==> !Truthy(imagePath) || imagePath.value in files
  {
    var payload := Payload(message, [groupId], env.sender, None);
    if Truthy(imagePath) {
      if imagePath.value !in files {
        // readFile rejects; the catch block returns false
        return false;
      }
      var imageBuffer := files[imagePath.value];
      payload := payload.(base64Attachments := Some([env.base64(imageBuffer)]));
    }
    var response := env.gateway(k, payload);
    if !IsOk(response) {
      return false;
    }
    return true;
  }
}
