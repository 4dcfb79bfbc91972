/** What a route handler sends back, and the store it leaves behind. */
module Http {
  import opened Common
  import opened Records

  type Status = int

  const Ok: Status := 200
  const BadRequest: Status := 400
  const Unauthorized: Status := 401
  const Forbidden: Status := 403
  const NotFound: Status := 404
  const ServerError: Status := 500

  /** The JSON bodies the routes send. `Failure` stands for the
      `{ message: err.message }` of a thrown library or store error. */
  datatype Body =
    | Message(text: string)
    | LoginSuccess(token: string, userid: Id, username: string, message: string)
    | Saved(newdata: Entry, message: string)
    | EntryList(data: seq<Entry>)
    | Failure

  /** One handled request: response status, response body and new store. */
  datatype Outcome = Outcome(status: Status, body: Body, store: Store)
}
