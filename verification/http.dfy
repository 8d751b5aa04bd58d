/** What a request handler sends back: a status, a content type and a
    body, or nothing, when it waits on a fetch that never delivers or when
    the handler throws before it answers. */
module Http {
  import opened Wrappers
  import opened Readings

  datatype Body =
    | Text(text: string)
    /** `JSON.stringify` of a reading, or of `undefined` when there is none. */
    | Json(reading: Option<Reading>)
    /** The contents of a file, streamed from its path. */
    | File(path: string)
    /** `JSON.stringify` of whatever an inherited `Object.prototype` member
        returns when `apiCall` calls it as if it were a handler. */
    | MemberResult(member: string)

  datatype Response =
    | Reply(status: int, contentType: string, body: Body)
    | NoReply

  const TextPlain := "text/plain"
  const ApplicationJson := "application/json"
}
