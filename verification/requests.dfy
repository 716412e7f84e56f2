/** The HTTP requests the pages send, with URLs abstracted to the resource and id they name. */
module Requests {
  import opened Wrappers

  datatype Method = Post | Put

  datatype Resource = Items | Participants | History

  /** `/api/<resource>` or `/api/<resource>/<id>`. */
  datatype Endpoint = Collection(resource: Resource) | Member(resource: Resource, id: int)

  /** The JSON bodies the pages build. */
  datatype Body =
    | NameBody(name: string)
    | ItemBody(name: string, color: string, image: Option<string>)
    | ActiveBody(isActive: bool)
    | HistoryBody(itemId: int, participantId: int)

  datatype Request = Request(verb: Method, endpoint: Endpoint, body: Body)
}
