# Empty-album removal for Google Photos, as a Dafny model

The repository holds two scripts that page through the Photos Library
albums-list endpoint. `delete_empty_albums` reads every page and, for each
album, tries to remove it when its `mediaItemsCount` is zero, prints a skip
message when the count is positive, and ignores it when the count is negative.
Removal is driven through a browser. `list_albums` reads the same pages with
the same requests and prints every album, unfiltered.

This project models both loops as pure trace functions over a finite,
scripted sequence of replies. Each loop iteration sends one request and
consumes one reply. A reply is either non-200, or a 200 page with an optional
`albums` list and an optional `nextPageToken`. The result of a run is a
`Trace`: the requests sent, the messages emitted, and why the loop stopped.
The removal routine is an oracle `deleter: nat -> DeleteOutcome`. The `j`-th
removal attempt of a run gets `deleter(j)`, which either returns a boolean or
raises.

Modules:

- `PhotosApi` (`photos_api.dfy`): albums, replies, requests, the page size 50,
  and the token rule. A token is followed only when it is truthy, meaning
  present and non-empty.
- `DeleteEmpty` (`delete_empty.dfy`): the deletion driver, the count-based
  classification, and the browser-based removal as an outcome.
- `Listing` (`listing.dfy`): the listing driver.
- `Agreement` (`agreement.dfy`): how the two drivers relate.
- `Scenarios` (`scenarios.dfy`): a worked two-page run through both drivers.

A `mediaItemsCount` field is a `Count(text, value)`: the string as sent,
paired with the integer `int()` reads from it. The deletion driver classifies
on `value`. The listing prints `text` without converting it. An absent field
counts as 0 for deletion and prints as "0" in the listing.

The two loops treat a non-200 reply differently, and the model follows the
code. The deletion loop prints a warning and stops. The listing loop prints a
warning and does not break: the page token stays the same, so the next request
is identical to the failed one, and the listing resends it for as long as the
service keeps failing. That loop has no termination guarantee, and
`Listing.FailuresRepeatRequest` states the retry.
With a finite script the model always ends; against replies that all fail it
ends only because the script runs out (`ScriptEnded`).

## Model

| member | source | states |
|---|---|---|
| PhotosApi.RequestFor | DeleteEmptyAlbums.py:27-29 | Every request has pageSize 50. It carries a pageToken exactly when the held token is truthy, and then that very token. |
| PhotosApi.PageAlbums | DeleteEmptyAlbums.py:34 | A page without an `albums` field contributes no albums; otherwise its albums are the field's list, unchanged. |
| DeleteEmpty.TokenTruthiness | DeleteEmptyAlbums.py:58-60 | After a 200 page whose nextPageToken is absent or the empty string, the run stops with no further request. A non-empty token becomes the next request's pageToken. |
| Listing.TokenTruthiness | ListAlbums.py:48-52 | After a 200 page whose nextPageToken is absent or the empty string, the listing stops with no further request. A non-empty token becomes the next request's pageToken. |
| DeleteEmpty.Noun | DeleteEmptyAlbums.py:56 | The skip message says "items" exactly when the count is greater than 1, and "item" otherwise. |
| DeleteEmpty.ItemCount | DeleteEmptyAlbums.py:40 | The count the driver classifies on is the field's integer value, or 0 when `mediaItemsCount` is absent. |
| DeleteEmpty.AlbumEvents | DeleteEmptyAlbums.py:42-56 | One album gives at most one event, and that event is about the album. There is no event exactly when the count is negative. A count of 0 gives exactly the attempt event for what the removal routine did. A positive count gives exactly the skip carrying the count and its noun. |
| DeleteEmpty.HandleAlbums | DeleteEmptyAlbums.py:36-56 | The per-page loop emits at most one event per album. `HandleAlbumsLength`, `HandleAlbumsAttempts` and `HandleAlbumsSkips` say exactly which. |
| DeleteEmpty.Attempt | DeleteEmptyAlbums.py:44-54 | A removal attempt yields one event about that album. It is a success exactly when the routine returned True. A failure carries an error text exactly when the routine raised, and that text is the exception's message. |
| DeleteEmpty.HandleAlbumsLength | DeleteEmptyAlbums.py:36-56 | The per-page loop emits one event per album with count 0, one per album with a positive count, and none for a negative count. |
| DeleteEmpty.AttemptsForIndex | DeleteEmptyAlbums.py:42-45 | Removing a list of albums in order gives one attempt event per album. The j-th is about the j-th album and is answered by the j-th routine call from the starting count. |
| DeleteEmpty.SkipsForIndex | DeleteEmptyAlbums.py:55-56 | Skipping a list of albums gives one skip event per album, in order, with the album's count and noun. |
| DeleteEmpty.HandleAlbumsAttempts | DeleteEmptyAlbums.py:40-54 | Within a page, the removal attempts are exactly the albums with count 0 (absent count included), in album order. A False or raising removal does not stop later attempts. |
| DeleteEmpty.HandleAlbumsSkips | DeleteEmptyAlbums.py:55-56 | Within a page, the skip events are exactly the albums with a positive count, in album order, each with its count and noun. |
| DeleteEmpty.HandleAlbumsAppend | DeleteEmptyAlbums.py:34-36 | Handling two runs of albums one after the other is the same as handling their concatenation, with the attempt counter carried across. |
| DeleteEmpty.Run | DeleteEmptyAlbums.py:23-31 | At most one request per reply, and the first request is built from the initial token. |
| DeleteEmpty.DeleteEmptyAlbums | DeleteEmptyAlbums.py:23-29 | The whole run starts without a page token: its first request is pageSize 50 with no pageToken, and it sends at most one request per reply. |
| DeleteEmpty.Paging | DeleteEmptyAlbums.py:26-63 | The outer loop without the album handling sends at most one request per reply, and its first request is built from the initial token. |
| DeleteEmpty.RunPaging | DeleteEmptyAlbums.py:44-63 | Removal outcomes never steer the outer loop. Whatever the routine returns or raises, the requests and the reason for stopping depend only on the replies. |
| DeleteEmpty.PagingRequests | DeleteEmptyAlbums.py:26-31 | The first request is built from the initial token. Every request has pageSize 50. Each later request carries the nextPageToken of the previous reply, which was a 200 page with a truthy token. |
| DeleteEmpty.PagingStops | DeleteEmptyAlbums.py:32-63 | Every reply read before the last one asked for another page. The loop stops right after a 200 page without a truthy token, or right after the first non-200 reply, reporting its status. It reaches the end of the script only when every reply asked for another page. |
| DeleteEmpty.RunEvents | DeleteEmptyAlbums.py:26-63 | The events are the per-album events for all albums of the pages read, in page order and then within-page order, plus one warning when the run ended on a non-200 reply. Earlier pages' effects stand, and the failed page contributes no albums. |
| DeleteEmpty.RunDecisions | DeleteEmptyAlbums.py:34-56 | Over a whole run, removal is attempted for exactly the received albums with count 0, in received order. Exactly the received albums with a positive count are skipped. The number of events leaves no room for any event about a negative count. |
| DeleteEmpty.EmptyAlbumsMembers | DeleteEmptyAlbums.py:40-42 | An album is a removal candidate if and only if it was received and its count (0 when absent) is zero. |
| DeleteEmpty.NonEmptyAlbumsMembers | DeleteEmptyAlbums.py:55 | An album is skipped if and only if it was received and its count is positive. |
| DeleteEmpty.FailuresAreExceptions | DeleteEmptyAlbums.py:44-54 | If the removal routine never returns False, every failed-removal event carries an exception text. |
| DeleteEmpty.DeleteAlbumUi | DeleteEmptyAlbums.py:65-97 | The browser-driven removal never returns False. It raises exactly when the browser session fails part-way, and the raised message is that failure's own message, since nothing in the routine catches it. |
| DeleteEmpty.UiFailuresAreExceptions | DeleteEmptyAlbums.py:44-54 | When the browser-driven removal is the routine, every failure message in a run comes from a raised exception. The j-th attempt fails exactly when the j-th browser session crashed, and it carries that crash's message. |
| Listing.PhotosText | ListAlbums.py:42 | The reported photo count is the field's text unchanged, or "0" when the field is absent. It is never converted to an integer. |
| Listing.ShowAlbums | ListAlbums.py:38-46 | One report per album, in order, each with the album and its raw count text. There is no filtering by count. |
| Listing.Run | ListAlbums.py:21-54 | The first request is built from the initial token, and every request has pageSize 50. After a 200 reply the loop only continues when the token is truthy, and the next request carries that token. After a non-200 reply the next request equals the failed one. |
| Listing.ListAlbums | ListAlbums.py:21-29 | The whole listing starts without a page token: its first request is pageSize 50 with no pageToken, and it sends at most one request per reply. |
| Listing.ResponseEvents | ListAlbums.py:32-54 | A 200 reply yields one report per album of the page, in order, each with its raw count text. A non-200 reply yields exactly one warning with its status. |
| Listing.RunStops | ListAlbums.py:48-54 | The loop stops right after the first 200 page without a truthy token, and only there. Otherwise it consumes the whole script. |
| Listing.RunEvents | ListAlbums.py:33-54 | The events of a run are the events of the replies it read, in order: album reports for a 200 page, one warning for a non-200 reply. |
| Listing.ShownAreReceived | ListAlbums.py:35-46 | Over any sequence of replies, the album reports are all albums of the 200 pages, in page order and then within-page order. |
| Listing.RunShowsReceived | ListAlbums.py:33-46 | Over a whole run, the album reports are exactly the albums of the 200 pages read, each with its raw count text. |
| Listing.FailuresRepeatRequest | ListAlbums.py:53-54 | While replies fail, the loop sends the identical request once per reply and emits one warning each. Against replies that all fail it never stops on its own and only the end of the script ends it. |
| Agreement.SameRequestsWithoutFailures | ListAlbums.py:24-52 | If every reply is a 200 page, both drivers send the same requests, one per page of the token chain, and stop for the same reason. |
| Agreement.SameAlbumsWithoutFailures | DeleteEmptyAlbums.py:26-60 | If every reply is a 200 page, the listing reports exactly the albums the deletion driver classified. The deletion driver attempts removal of exactly those with count 0. |
| Agreement.FailureDivergence | ListAlbums.py:53-54 | While the first replies fail, the deletion driver stops after one token-less request, reports that status, and attempts nothing. The listing driver sends the identical token-less request once per failed reply. |
| Scenarios.DeleteTwoPages | DeleteEmptyAlbums.py:26-63 | Two linked pages [a1 count 0, a2 count 12] then [a3, count absent]: both pages are requested, a1 and a3 are attempted in that order, and a2 is skipped with "12 items". |
| Scenarios.ListTwoPages | ListAlbums.py:24-54 | The same two pages are listed as a1 "0", a2 "12", a3 "0", after the same two requests. |

## Left out

- HTTP transport, the bearer-token header and JSON decoding. Replies are given as datatypes, and a non-200 reply's body is never read.
- Authentication (`GoogleAuthenticate.py`): OAuth flow, token file and refresh. GoogleAuthenticate.py is not part of this model.
- The browser automation inside `delete_album` (window size, pixel-offset clicks, implicit waits, quitting the browser). Only its outcome is modelled: it completes and returns True, or it raises.
- `int()` parsing of `mediaItemsCount`. A count carries its integer value, so a malformed string, which would raise outside the try block and end the run, is not modelled.
- Missing `id`, `title` or `productUrl` fields. These would raise a KeyError and end the run; the model takes them as present.
- Console formatting (emoji, tabs, the album title and id lines). Messages are abstract events that keep the album, the count, the noun, the raised exception's message and the status.
- Concurrency. There is no worker pool and no API-based album removal: each removal runs sequentially and inline, through the browser, before the next album is looked at.
- DeleteEmpty.Attempt: the `except Exception` clause (DeleteEmptyAlbums.py:51) catches only `Exception` subclasses. A `KeyboardInterrupt` or `SystemExit` raised inside `delete_album` escapes and ends the run. The model turns every raise into a `RemoveFailed` event, because the outcome type does not tell exception classes apart.
- Termination of `list_albums` against an unbounded run of failing replies. A finite script stands in for fuel, and `Listing.FailuresRepeatRequest` shows the loop never stops on its own there.
