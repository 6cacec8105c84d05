/** The `list_albums` driver: it pages through the albums list with the same
    requests as the deletion driver and reports every album it receives,
    unfiltered. A non-200 reply is reported but neither ends the loop nor moves
    the page token, so the failed request is sent again unchanged.
 */
module Listing {
  import opened PhotosApi

  /** One observable step of the driver, in the order the messages appear. */
  datatype Event = Shown(album: Album, photos: string) | RetrieveFailed(status: int)

  /** Why the driver stopped reading responses. There is no stop on failure:
      `ScriptEnded` means the scripted responses ran out first. */
  datatype Stop = LastPage | ScriptEnded

  datatype Trace = Trace(requests: seq<Request>, events: seq<Event>, stop: Stop)

  /** The photo count as reported: the field's text unchanged, or "0" when the
      field is absent. */
  function PhotosText(a: Album): (text: string)
    ensures a.mediaItemsCount.None? ==> text == "0"
    ensures a.mediaItemsCount.Some? ==> text == a.mediaItemsCount.value.text
  {
    match a.mediaItemsCount
    case None => "0"
    case Some(c) => c.text
  }

  /** A response after which the driver stops: a successful last page. */
  predicate EndsListing(r: Response)
  {
    Succeeded(r) && !HasNextPage(r.nextPageToken)
  }

  /** The report for a run of albums: one event per album, in order. */
  function ShowAlbums(albums: seq<Album>): (evs: seq<Event>)
    ensures |evs| == |albums|
    ensures forall j :: 0 <= j < |albums| ==> evs[j] == Shown(albums[j], PhotosText(albums[j]))
    decreases |albums|
  {
    if |albums| == 0 then [] else [Shown(albums[0], PhotosText(albums[0]))] + ShowAlbums(albums[1..])
  }

  /** The events one response produces on its own, wherever it falls in a run. */
  function ResponseEvents(r: Response): (evs: seq<Event>)
    ensures Succeeded(r) ==> |evs| == |PageAlbums(r)|
    ensures Succeeded(r) ==> forall j :: 0 <= j < |evs| ==> evs[j] == Shown(PageAlbums(r)[j], PhotosText(PageAlbums(r)[j]))
    ensures !Succeeded(r) ==> evs == [RetrieveFailed(r.status)]
  {
    if Succeeded(r) then ShowAlbums(PageAlbums(r)) else [RetrieveFailed(r.status)]
  }

  /** The events of a sequence of responses, each contributing its own. */
  function EventsOf(rs: seq<Response>): (evs: seq<Event>)
    decreases |rs|
  {
    if |rs| == 0 then [] else ResponseEvents(rs[0]) + EventsOf(rs[1..])
  }

  /** The album reports among `evs`, in order. */
  function Shows(evs: seq<Event>): (shows: seq<Event>)
    decreases |evs|
  {
    if |evs| == 0 then []
    else if evs[0].Shown? then [evs[0]] + Shows(evs[1..])
    else Shows(evs[1..])
  }

  /** The loop, reading scripted responses `rs` while holding `token` as the
      last page token. */
  function Run(rs: seq<Response>, token: Option<string>): (t: Trace)
    ensures |t.requests| <= |rs|
    ensures |rs| > 0 ==> |t.requests| > 0 && t.requests[0] == RequestFor(token)
    ensures forall i :: 0 <= i < |t.requests| ==> t.requests[i].pageSize == PAGE_SIZE
    ensures forall i :: 0 <= i < |t.requests| - 1 && Succeeded(rs[i]) ==>
      HasNextPage(rs[i].nextPageToken) && t.requests[i + 1].pageToken == rs[i].nextPageToken
    ensures forall i :: 0 <= i < |t.requests| - 1 && !Succeeded(rs[i]) ==> t.requests[i + 1] == t.requests[i]
    decreases |rs|
  {
    if |rs| == 0 then Trace([], [], ScriptEnded)
    else
      var req := RequestFor(token);
      var r := rs[0];
      if !Succeeded(r) then
        var rest := Run(rs[1..], token);
        Trace([req] + rest.requests, [RetrieveFailed(r.status)] + rest.events, rest.stop)
      else
        var evs := ShowAlbums(PageAlbums(r));
        if !HasNextPage(r.nextPageToken) then Trace([req], evs, LastPage)
        else
          var rest := Run(rs[1..], r.nextPageToken);
          Trace([req] + rest.requests, evs + rest.events, rest.stop)
  }

  /** The whole `list_albums` run, starting without a page token. */
  function ListAlbums(rs: seq<Response>): (t: Trace)
    ensures |t.requests| <= |rs|
    ensures |rs| > 0 ==> |t.requests| > 0 && t.requests[0] == Request(PAGE_SIZE, None)
  {
    Run(rs, None)
  }

  /** The token the driver holds after reading `r` while holding `token`:
      a successful page moves it on, a failed reply leaves it. */
  function NextToken(r: Response, token: Option<string>): (next: Option<string>)
  {
    if Succeeded(r) then r.nextPageToken else token
  }

  /** How a trace read from `rs` ended: it stopped right after the first
      successful page without a usable token, and only there; otherwise it read
      the whole script. */
  ghost predicate StopsAtLastPage(rs: seq<Response>, t: Trace)
  {
    var n := |t.requests|;
    && n <= |rs|
    && (forall i :: 0 <= i < n - 1 ==> !EndsListing(rs[i]))
    && match t.stop
       case LastPage => 0 < n && EndsListing(rs[n - 1])
       case ScriptEnded => n == |rs| && (n == 0 || !EndsListing(rs[n - 1]))
  }

  /** The driver stops right after the first successful page without a usable
      token, and only there; otherwise it reads the whole script. */
  lemma {:induction false} RunStops(rs: seq<Response>, token: Option<string>)
    ensures StopsAtLastPage(rs, Run(rs, token))
    decreases |rs|
  {
    if |rs| == 0 {
    } else if EndsListing(rs[0]) {
      RunEnds(rs, token);
      StopsAtLastPageBase(rs, Run(rs, token));
    } else {
      var rest := Run(rs[1..], NextToken(rs[0], token));
      RunStops(rs[1..], NextToken(rs[0], token));
      RunContinues(rs, token);
      StopsAtLastPageStep(rs, RequestFor(token), ResponseEvents(rs[0]), rest);
    }
  }

  /** Unfolding the loop on a successful last page. */
  lemma RunEnds(rs: seq<Response>, token: Option<string>)
    requires |rs| > 0 && EndsListing(rs[0])
    ensures Run(rs, token) == Trace([RequestFor(token)], ResponseEvents(rs[0]), LastPage)
  {
  }

  /** Unfolding the loop once past a reply that does not end it. */
  lemma RunContinues(rs: seq<Response>, token: Option<string>)
    requires |rs| > 0 && !EndsListing(rs[0])
    ensures var rest := Run(rs[1..], NextToken(rs[0], token));
      Run(rs, token) == Trace([RequestFor(token)] + rest.requests, ResponseEvents(rs[0]) + rest.events, rest.stop)
  {
  }

  /** A page's `nextPageToken` is followed only when it is truthy: after a
      successful page whose token is absent or empty the listing stops, and a
      non-empty token becomes the next request's `pageToken`. */
  lemma TokenTruthiness(rs: seq<Response>, token: Option<string>)
    requires |rs| > 0 && Succeeded(rs[0])
    ensures rs[0].nextPageToken == None || rs[0].nextPageToken == Some("") ==>
      Run(rs, token).requests == [RequestFor(token)] && Run(rs, token).stop == LastPage
    ensures rs[0].nextPageToken.Some? && rs[0].nextPageToken.value != "" && |rs| > 1 ==>
      |Run(rs, token).requests| > 1 && Run(rs, token).requests[1] == Request(PAGE_SIZE, rs[0].nextPageToken)
  {
  }

  /** The base case of `RunStops`, on traces. */
  lemma StopsAtLastPageBase(rs: seq<Response>, t: Trace)
    requires |rs| > 0 && EndsListing(rs[0]) && |t.requests| == 1 && t.stop == LastPage
    ensures StopsAtLastPage(rs, t)
  {
  }

  /** The inductive step of `RunStops`, on traces. */
  lemma StopsAtLastPageStep(rs: seq<Response>, req: Request, evs: seq<Event>, rest: Trace)
    requires |rs| > 0 && !EndsListing(rs[0])
    requires StopsAtLastPage(rs[1..], rest)
    ensures StopsAtLastPage(rs, Trace([req] + rest.requests, evs + rest.events, rest.stop))
  {
  }

  /** The events of a run are the events of the responses it read, each
      contributing its own, in order. */
  lemma {:induction false} RunEvents(rs: seq<Response>, token: Option<string>)
    ensures var t := Run(rs, token); t.events == EventsOf(rs[..|t.requests|])
    decreases |rs|
  {
    var t := Run(rs, token);
    var n := |t.requests|;
    if |rs| == 0 {
      assert rs[..n] == [];
    } else {
      var r := rs[0];
      if EndsListing(r) {
        assert rs[..n] == [r];
        assert [r][1..] == [];
        assert t.events == ResponseEvents(r) + [];
      } else {
        var next := if Succeeded(r) then r.nextPageToken else token;
        var rest := Run(rs[1..], next);
        RunEvents(rs[1..], next);
        assert t.requests == [RequestFor(token)] + rest.requests;
        assert t.events == ResponseEvents(r) + rest.events;
        assert rs[..n][1..] == rs[1..][..|rest.requests|];
      }
    }
  }

  /** Reporting a sequence of responses reports, unfiltered, every album of
      every successful one: page order, then within-page order. */
  lemma {:induction false} ShownAreReceived(rs: seq<Response>)
    ensures Shows(EventsOf(rs)) == ShowAlbums(ReceivedAlbums(rs))
    decreases |rs|
  {
    if |rs| > 0 {
      var r := rs[0];
      ShownAreReceived(rs[1..]);
      ShowsAppend(ResponseEvents(r), EventsOf(rs[1..]));
      if Succeeded(r) {
        ShowsOfShowAlbums(PageAlbums(r));
        ShowAlbumsAppend(PageAlbums(r), ReceivedAlbums(rs[1..]));
      } else {
        assert [RetrieveFailed(r.status)][1..] == [];
        assert Shows(ResponseEvents(r)) == [];
      }
    }
  }

  lemma {:induction false} ShowsAppend(xs: seq<Event>, ys: seq<Event>)
    ensures Shows(xs + ys) == Shows(xs) + Shows(ys)
    decreases |xs|
  {
    if |xs| == 0 {
      assert xs + ys == ys;
    } else {
      assert (xs + ys)[1..] == xs[1..] + ys;
      ShowsAppend(xs[1..], ys);
    }
  }

  lemma {:induction false} ShowsOfShowAlbums(albums: seq<Album>)
    ensures Shows(ShowAlbums(albums)) == ShowAlbums(albums)
    decreases |albums|
  {
    if |albums| > 0 {
      ShowsOfShowAlbums(albums[1..]);
      assert ShowAlbums(albums)[1..] == ShowAlbums(albums[1..]);
    }
  }

  lemma ShowAlbumsAppend(xs: seq<Album>, ys: seq<Album>)
    ensures ShowAlbums(xs + ys) == ShowAlbums(xs) + ShowAlbums(ys)
  {
  }

  /** Over a whole run, the album reports are exactly the albums of the
      successful responses read, in response order, each with its raw count
      text (or "0"). */
  lemma RunShowsReceived(rs: seq<Response>)
    ensures var t := ListAlbums(rs);
      Shows(t.events) == ShowAlbums(ReceivedAlbums(rs[..|t.requests|]))
  {
    var t := ListAlbums(rs);
    RunEvents(rs, None);
    ShownAreReceived(rs[..|t.requests|]);
  }

  /** A failed reply changes nothing: while the replies fail, the driver
      sends the very same request once per reply and reports each failure, and
      against replies that all fail it never stops on its own, so its
      termination depends on the service. */
  lemma {:induction false} FailuresRepeatRequest(rs: seq<Response>, token: Option<string>, m: nat)
    requires m <= |rs|
    requires forall i :: 0 <= i < m ==> !Succeeded(rs[i])
    ensures var t := Run(rs, token);
      && m <= |t.requests|
      && m <= |t.events|
      && (forall i :: 0 <= i < m ==> t.requests[i] == RequestFor(token))
      && (forall i :: 0 <= i < m ==> t.events[i] == RetrieveFailed(rs[i].status))
    ensures m == |rs| ==> Run(rs, token).stop == ScriptEnded && |Run(rs, token).requests| == |rs|
    decreases m
  {
    if m > 0 {
      FailuresRepeatRequest(rs[1..], token, m - 1);
      var t := Run(rs, token);
      var rest := Run(rs[1..], token);
      assert t.requests == [RequestFor(token)] + rest.requests;
      assert t.events == [RetrieveFailed(rs[0].status)] + rest.events;
      forall i | 1 <= i < m
        ensures t.requests[i] == RequestFor(token) && t.events[i] == RetrieveFailed(rs[i].status)
      {
        assert rs[i] == rs[1..][i - 1];
      }
    }
  }
}
