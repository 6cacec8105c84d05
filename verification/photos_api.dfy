/** The part of the Photos Library albums-list protocol that both album scripts
    share: the albums as the service describes them, one scripted response per
    request, and the rule that turns the last page token into the next request.
 */
module PhotosApi {

  datatype Option<+T> = None | Some(value: T)

  /** Every albums-list request asks for this many albums. */
  const PAGE_SIZE: int := 50

  /** The only status code the scripts treat as a successful page. */
  const STATUS_OK: int := 200

  /** A `mediaItemsCount` field: the string-encoded integer exactly as the
      service sent it, paired with the integer value `int()` reads from it. */
  datatype Count = Count(text: string, value: int)

  /** One album object of a response page; `mediaItemsCount` may be absent. */
  datatype Album = Album(id: string, title: string, productUrl: string, mediaItemsCount: Option<Count>)

  /** One scripted reply to a request: its status code and, for a 200 reply,
      the decoded body with its optional `albums` and `nextPageToken`. */
  datatype Response = Response(status: int, albums: Option<seq<Album>>, nextPageToken: Option<string>)

  /** The query parameters of one albums-list request. */
  datatype Request = Request(pageSize: int, pageToken: Option<string>)

  /** A token is only followed when it is truthy: present and non-empty. */
  predicate HasNextPage(token: Option<string>)
  {
    token.Some? && token.value != ""
  }

  /** The request both loops send while holding `token` as the last page token. */
  function RequestFor(token: Option<string>): (req: Request)
    ensures req.pageSize == PAGE_SIZE
    ensures req.pageToken.Some? <==> HasNextPage(token)
    ensures req.pageToken.Some? ==> req.pageToken == token && req.pageToken.value != ""
  {
    if HasNextPage(token) then Request(PAGE_SIZE, token) else Request(PAGE_SIZE, None)
  }

  predicate Succeeded(r: Response)
  {
    r.status == STATUS_OK
  }

  /** A response after which the loop asks for another page. */
  predicate Continues(r: Response)
  {
    Succeeded(r) && HasNextPage(r.nextPageToken)
  }

  /** The albums of a page; an absent `albums` field reads as no albums. */
  function PageAlbums(r: Response): (albums: seq<Album>)
    ensures r.albums.None? ==> albums == []
    ensures r.albums.Some? ==> albums == r.albums.value
  {
    match r.albums
    case None => []
    case Some(albums) => albums
  }

  /** The albums of the successful responses of `rs`, in page order and then in
      within-page order; failed responses contribute nothing. */
  function ReceivedAlbums(rs: seq<Response>): (received: seq<Album>)
    decreases |rs|
  {
    if |rs| == 0 then []
    else (if Succeeded(rs[0]) then PageAlbums(rs[0]) else []) + ReceivedAlbums(rs[1..])
  }
}
