/** The `delete_empty_albums` driver: it pages through the albums list and, for
    every album of every successful page, decides on its item count whether to
    try removing it, to report it as skipped, or to leave it alone. The removal
    itself is an oracle consulted once per attempt.
 */
module DeleteEmpty {
  import opened PhotosApi

  /** What one call of the removal routine did: returned a boolean, or raised
      an exception with the given message. */
  datatype DeleteOutcome = Returned(ok: bool) | Raised(message: string)

  /** One observable step of the driver, in the order the messages appear. */
  datatype Event =
    | Removed(album: Album)
      // removal attempted, `error` present when it raised and absent when it returned False
    | RemoveFailed(album: Album, error: Option<string>)
    | Skipped(album: Album, count: int, noun: string)
    | RetrieveFailed(status: int)

  /** Why the driver stopped reading responses. `ScriptEnded` means the
      scripted responses ran out while the driver still wanted another page. */
  datatype Stop = LastPage | RetrieveError(status: int) | ScriptEnded

  datatype Trace = Trace(requests: seq<Request>, events: seq<Event>, stop: Stop)

  /** The item count the driver classifies on; an absent field counts as 0. */
  function ItemCount(a: Album): (n: int)
    ensures a.mediaItemsCount.None? ==> n == 0
    ensures a.mediaItemsCount.Some? ==> n == a.mediaItemsCount.value.value
  {
    match a.mediaItemsCount
    case None => 0
    case Some(c) => c.value
  }

  /** The word of the skip message: plural exactly when the count exceeds one. */
  function Noun(count: int): (noun: string)
    ensures noun == "items" <==> count > 1
    ensures noun == "item" <==> count <= 1
  {
    if count > 1 then "items" else "item"
  }

  /** The event for one removal attempt on `a` that ended with `outcome`. */
  function Attempt(a: Album, outcome: DeleteOutcome): (e: Event)
    ensures e.Removed? || e.RemoveFailed?
    ensures e.album == a
    ensures e.Removed? <==> outcome == Returned(true)
    ensures e.RemoveFailed? ==> (e.error.Some? <==> outcome.Raised?)
    ensures outcome.Raised? ==> e == RemoveFailed(a, Some(outcome.message))
  {
    match outcome
    case Returned(ok) => if ok then Removed(a) else RemoveFailed(a, None)
    case Raised(message) => RemoveFailed(a, Some(message))
  }

  predicate IsAttempt(e: Event)
  {
    e.Removed? || e.RemoveFailed?
  }

  /** The albums, in order, whose item count is exactly zero. */
  function EmptyAlbums(albums: seq<Album>): (empties: seq<Album>)
    ensures |empties| <= |albums|
    decreases |albums|
  {
    if |albums| == 0 then []
    else if ItemCount(albums[0]) == 0 then [albums[0]] + EmptyAlbums(albums[1..])
    else EmptyAlbums(albums[1..])
  }

  /** The albums, in order, whose item count is strictly positive. */
  function NonEmptyAlbums(albums: seq<Album>): (full: seq<Album>)
    ensures |full| <= |albums|
    decreases |albums|
  {
    if |albums| == 0 then []
    else if ItemCount(albums[0]) > 0 then [albums[0]] + NonEmptyAlbums(albums[1..])
    else NonEmptyAlbums(albums[1..])
  }

  /** The removal-attempt events of `evs`, in order. */
  function Attempts(evs: seq<Event>): (attempts: seq<Event>)
    decreases |evs|
  {
    if |evs| == 0 then []
    else if IsAttempt(evs[0]) then [evs[0]] + Attempts(evs[1..])
    else Attempts(evs[1..])
  }

  /** The skip events of `evs`, in order. */
  function Skips(evs: seq<Event>): (skips: seq<Event>)
    decreases |evs|
  {
    if |evs| == 0 then []
    else if evs[0].Skipped? then [evs[0]] + Skips(evs[1..])
    else Skips(evs[1..])
  }

  /** The skip event the driver prints for an album it leaves in place. */
  function SkipOf(a: Album): (e: Event)
  {
    Skipped(a, ItemCount(a), Noun(ItemCount(a)))
  }

  /** The events for one album: a removal attempt answered by `outcome` when
      its count is zero, a skip when it is positive, nothing when negative. */
  function AlbumEvents(a: Album, outcome: DeleteOutcome): (evs: seq<Event>)
    ensures |evs| <= 1
    ensures |evs| == 0 <==> ItemCount(a) < 0
    ensures |evs| == 1 ==> !evs[0].RetrieveFailed? && evs[0].album == a
    ensures |evs| == 1 ==> (IsAttempt(evs[0]) <==> ItemCount(a) == 0)
    ensures |evs| == 1 && evs[0].Skipped? ==> evs[0].count == ItemCount(a) && evs[0].noun == Noun(ItemCount(a))
    ensures ItemCount(a) == 0 ==> evs == [Attempt(a, outcome)]
    ensures ItemCount(a) > 0 ==> evs == [SkipOf(a)]
  {
    var count := ItemCount(a);
    if count == 0 then [Attempt(a, outcome)]
    else if count > 0 then [SkipOf(a)]
    else []
  }

  /** The number of removal attempts one album costs. */
  function AttemptCost(a: Album): (cost: nat)
  {
    if ItemCount(a) == 0 then 1 else 0
  }

  /** The inner loop over one page's albums. `k` counts the removal attempts
      made before this page; the `j`-th attempt of the whole run is answered by
      `deleter(j)`. A failed or raising removal does not stop the loop. */
  function HandleAlbums(albums: seq<Album>, k: nat, deleter: nat -> DeleteOutcome): (evs: seq<Event>)
    ensures |evs| <= |albums|
    decreases |albums|
  {
    if |albums| == 0 then []
    else AlbumEvents(albums[0], deleter(k)) + HandleAlbums(albums[1..], k + AttemptCost(albums[0]), deleter)
  }

  /** The attempt events that removing `empties` in order produces when the
      first of them is the `k`-th attempt of the run. */
  function AttemptsFor(empties: seq<Album>, k: nat, deleter: nat -> DeleteOutcome): (evs: seq<Event>)
    ensures |evs| == |empties|
    decreases |empties|
  {
    if |empties| == 0 then []
    else [Attempt(empties[0], deleter(k))] + AttemptsFor(empties[1..], k + 1, deleter)
  }

  /** The `j`-th attempt is on the `j`-th album and is answered by the oracle's
      `(k + j)`-th call. */
  lemma {:induction false} AttemptsForIndex(empties: seq<Album>, k: nat, deleter: nat -> DeleteOutcome)
    ensures forall j :: 0 <= j < |empties| ==> AttemptsFor(empties, k, deleter)[j] == Attempt(empties[j], deleter(k + j))
    decreases |empties|
  {
    if |empties| > 0 {
      AttemptsForIndex(empties[1..], k + 1, deleter);
      var evs := AttemptsFor(empties, k, deleter);
      forall j | 1 <= j < |empties|
        ensures evs[j] == Attempt(empties[j], deleter(k + j))
      {
        assert evs[j] == AttemptsFor(empties[1..], k + 1, deleter)[j - 1];
        assert empties[j] == empties[1..][j - 1];
      }
    }
  }

  /** The skip events for `full`, one per album and in order. */
  function SkipsFor(full: seq<Album>): (evs: seq<Event>)
    ensures |evs| == |full|
    decreases |full|
  {
    if |full| == 0 then [] else [SkipOf(full[0])] + SkipsFor(full[1..])
  }

  /** The `j`-th skip is on the `j`-th album, with its count and noun. */
  lemma {:induction false} SkipsForIndex(full: seq<Album>)
    ensures forall j :: 0 <= j < |full| ==> SkipsFor(full)[j] == Skipped(full[j], ItemCount(full[j]), Noun(ItemCount(full[j])))
    decreases |full|
  {
    if |full| > 0 {
      SkipsForIndex(full[1..]);
      var evs := SkipsFor(full);
      forall j | 1 <= j < |full|
        ensures evs[j] == SkipOf(full[j])
      {
        assert evs[j] == SkipsFor(full[1..])[j - 1];
        assert full[j] == full[1..][j - 1];
      }
    }
  }

  /** A removal is attempted for exactly the albums whose count is zero, in
      album order, and the `j`-th of them is answered by `deleter(k + j)`. */
  lemma {:induction false} HandleAlbumsAttempts(albums: seq<Album>, k: nat, deleter: nat -> DeleteOutcome)
    ensures Attempts(HandleAlbums(albums, k, deleter)) == AttemptsFor(EmptyAlbums(albums), k, deleter)
    decreases |albums|
  {
    if |albums| > 0 {
      var a := albums[0];
      var first := AlbumEvents(a, deleter(k));
      var rest := HandleAlbums(albums[1..], k + AttemptCost(a), deleter);
      var empties := EmptyAlbums(albums[1..]);
      HandleAlbumsAttempts(albums[1..], k + AttemptCost(a), deleter);
      ProjectionsAppend(first, rest);
      AlbumEventsProjections(a, deleter(k));
      if ItemCount(a) == 0 {
        AttemptsForCons(a, empties, k, deleter);
      } else {
        assert Attempts(first) + Attempts(rest) == Attempts(rest);
      }
    }
  }

  /** Exactly the albums with a positive count get a skip event, in album order,
      each carrying its count and the matching noun. */
  lemma {:induction false} HandleAlbumsSkips(albums: seq<Album>, k: nat, deleter: nat -> DeleteOutcome)
    ensures Skips(HandleAlbums(albums, k, deleter)) == SkipsFor(NonEmptyAlbums(albums))
    decreases |albums|
  {
    if |albums| > 0 {
      var a := albums[0];
      var first := AlbumEvents(a, deleter(k));
      var rest := HandleAlbums(albums[1..], k + AttemptCost(a), deleter);
      var full := NonEmptyAlbums(albums[1..]);
      HandleAlbumsSkips(albums[1..], k + AttemptCost(a), deleter);
      ProjectionsAppend(first, rest);
      AlbumEventsProjections(a, deleter(k));
      if ItemCount(a) > 0 {
        assert ([a] + full)[1..] == full;
      } else {
        assert Skips(first) + Skips(rest) == Skips(rest);
      }
    }
  }

  /** The attempt and skip events one album contributes. */
  lemma AlbumEventsProjections(a: Album, outcome: DeleteOutcome)
    ensures Attempts(AlbumEvents(a, outcome)) == if ItemCount(a) == 0 then [Attempt(a, outcome)] else []
    ensures Skips(AlbumEvents(a, outcome)) == if ItemCount(a) > 0 then [SkipOf(a)] else []
  {
  }

  lemma AttemptsForCons(a: Album, empties: seq<Album>, k: nat, deleter: nat -> DeleteOutcome)
    ensures AttemptsFor([a] + empties, k, deleter) == [Attempt(a, deleter(k))] + AttemptsFor(empties, k + 1, deleter)
  {
  }

  /** Handling two runs of albums one after the other is handling their
      concatenation, with the attempt counter carried across: the second run
      starts at `k2`, after the attempts the first one made. */
  lemma {:induction false} HandleAlbumsAppend(xs: seq<Album>, ys: seq<Album>, k: nat, k2: nat, deleter: nat -> DeleteOutcome)
    requires k2 == k + |EmptyAlbums(xs)|
    ensures HandleAlbums(xs + ys, k, deleter) == HandleAlbums(xs, k, deleter) + HandleAlbums(ys, k2, deleter)
    decreases |xs|
  {
    if |xs| == 0 {
      assert xs + ys == ys;
    } else {
      HandleAlbumsAppend(xs[1..], ys, k + AttemptCost(xs[0]), k2, deleter);
      HandleAlbumsAppendStep(xs, ys, k, k2, deleter);
    }
  }

  /** The inductive step of `HandleAlbumsAppend`. */
  lemma HandleAlbumsAppendStep(xs: seq<Album>, ys: seq<Album>, k: nat, k2: nat, deleter: nat -> DeleteOutcome)
    requires |xs| > 0
    requires HandleAlbums(xs[1..] + ys, k + AttemptCost(xs[0]), deleter)
          == HandleAlbums(xs[1..], k + AttemptCost(xs[0]), deleter) + HandleAlbums(ys, k2, deleter)
    ensures HandleAlbums(xs + ys, k, deleter) == HandleAlbums(xs, k, deleter) + HandleAlbums(ys, k2, deleter)
  {
    var a := xs[0];
    var k' := k + AttemptCost(a);
    var first := AlbumEvents(a, deleter(k));
    assert (xs + ys)[0] == a;
    assert (xs + ys)[1..] == xs[1..] + ys;
    AppendAssociates(first, HandleAlbums(xs[1..], k', deleter), HandleAlbums(ys, k2, deleter));
  }

  /** The number of events of a page: one per album with a zero or positive
      count, none for a negative count. */
  lemma {:induction false} HandleAlbumsLength(albums: seq<Album>, k: nat, deleter: nat -> DeleteOutcome)
    ensures |HandleAlbums(albums, k, deleter)| == |EmptyAlbums(albums)| + |NonEmptyAlbums(albums)|
    decreases |albums|
  {
    if |albums| > 0 {
      HandleAlbumsLength(albums[1..], k + AttemptCost(albums[0]), deleter);
    }
  }

  /** The outer loop, reading scripted responses `rs` while holding `token`
      as the last page token and having made `k` removal attempts so far. */
  function Run(rs: seq<Response>, token: Option<string>, k: nat, deleter: nat -> DeleteOutcome): (t: Trace)
    ensures |t.requests| <= |rs|
    ensures |rs| > 0 ==> |t.requests| > 0 && t.requests[0] == RequestFor(token)
    decreases |rs|
  {
    if |rs| == 0 then Trace([], [], ScriptEnded)
    else
      var req := RequestFor(token);
      var r := rs[0];
      if !Succeeded(r) then Trace([req], [RetrieveFailed(r.status)], RetrieveError(r.status))
      else
        var evs := HandleAlbums(PageAlbums(r), k, deleter);
        if !HasNextPage(r.nextPageToken) then Trace([req], evs, LastPage)
        else
          var rest := Run(rs[1..], r.nextPageToken, k + |EmptyAlbums(PageAlbums(r))|, deleter);
          Trace([req] + rest.requests, evs + rest.events, rest.stop)
  }

  /** The whole `delete_empty_albums` run: no page token yet, no attempts yet. */
  function DeleteEmptyAlbums(rs: seq<Response>, deleter: nat -> DeleteOutcome): (t: Trace)
    ensures |t.requests| <= |rs|
    ensures |rs| > 0 ==> |t.requests| > 0 && t.requests[0] == Request(PAGE_SIZE, None)
  {
    Run(rs, None, 0, deleter)
  }

  /** The requests and the stop of a run, without the albums' events. */
  datatype Pages = Pages(requests: seq<Request>, stop: Stop)

  /** The outer loop with the per-album handling taken out: which requests it
      sends and why it stops. */
  function Paging(rs: seq<Response>, token: Option<string>): (p: Pages)
    ensures |p.requests| <= |rs|
    ensures |rs| > 0 ==> |p.requests| > 0 && p.requests[0] == RequestFor(token)
    decreases |rs|
  {
    if |rs| == 0 then Pages([], ScriptEnded)
    else if !Succeeded(rs[0]) then Pages([RequestFor(token)], RetrieveError(rs[0].status))
    else if !HasNextPage(rs[0].nextPageToken) then Pages([RequestFor(token)], LastPage)
    else
      var rest := Paging(rs[1..], rs[0].nextPageToken);
      Pages([RequestFor(token)] + rest.requests, rest.stop)
  }

  /** Removal outcomes never steer the outer loop: whatever the routine
      returns or raises, a run sends the requests and stops as `Paging` says. */
  lemma {:induction false} RunPaging(rs: seq<Response>, token: Option<string>, k: nat, deleter: nat -> DeleteOutcome)
    ensures Run(rs, token, k, deleter).requests == Paging(rs, token).requests
    ensures Run(rs, token, k, deleter).stop == Paging(rs, token).stop
    decreases |rs|
  {
    if |rs| == 0 {
    } else if !Continues(rs[0]) {
      RunEnds(rs, token, k, deleter);
    } else {
      var page := PageAlbums(rs[0]);
      RunPaging(rs[1..], rs[0].nextPageToken, k + |EmptyAlbums(page)|, deleter);
      RunContinues(rs, token, k, deleter);
    }
  }

  /** The token chain read from `rs`: the first request is built from the
      initial token, every request asks for `PAGE_SIZE` albums, and each
      request after the first carries the `nextPageToken` of the reply before
      it, which was a successful page with a truthy token. */
  ghost predicate ChainedRequests(rs: seq<Response>, token: Option<string>, p: Pages)
  {
    && |p.requests| <= |rs|
    && (|rs| > 0 ==> |p.requests| > 0 && p.requests[0] == RequestFor(token))
    && (forall i :: 0 <= i < |p.requests| ==> p.requests[i].pageSize == PAGE_SIZE)
    && (forall i :: 0 <= i < |p.requests| - 1 ==> Continues(rs[i]) && p.requests[i + 1].pageToken == rs[i].nextPageToken)
  }

  lemma {:induction false} PagingRequests(rs: seq<Response>, token: Option<string>)
    ensures ChainedRequests(rs, token, Paging(rs, token))
    decreases |rs|
  {
    if |rs| > 0 && Continues(rs[0]) {
      var rest := Paging(rs[1..], rs[0].nextPageToken);
      PagingRequests(rs[1..], rs[0].nextPageToken);
      var p := Paging(rs, token);
      assert p.requests == [RequestFor(token)] + rest.requests;
      forall i | 0 < i < |p.requests|
        ensures p.requests[i] == rest.requests[i - 1]
      {
      }
      forall i | 0 < i < |p.requests| - 1
        ensures rs[i] == rs[1..][i - 1]
      {
      }
    }
  }

  /** How paging through `rs` ends: every reply but the last one read asked
      for another page, and the last one read was a successful page without a
      usable token, or a non-200 reply whose status is reported, or else the
      script ran out while every reply asked for more. */
  ghost predicate StopsAtFirstEnd(rs: seq<Response>, p: Pages)
  {
    var n := |p.requests|;
    && n <= |rs|
    && (forall i :: 0 <= i < n - 1 ==> Continues(rs[i]))
    && match p.stop
       case ScriptEnded => n == |rs| && (n == 0 || Continues(rs[n - 1]))
       case LastPage => 0 < n && Succeeded(rs[n - 1]) && !HasNextPage(rs[n - 1].nextPageToken)
       case RetrieveError(status) => 0 < n && !Succeeded(rs[n - 1]) && status == rs[n - 1].status
  }

  /** The loop reads responses until the first one after which it does not
      ask for another page. */
  lemma {:induction false} PagingStops(rs: seq<Response>, token: Option<string>)
    ensures StopsAtFirstEnd(rs, Paging(rs, token))
    decreases |rs|
  {
    if |rs| > 0 && Continues(rs[0]) {
      PagingStops(rs[1..], rs[0].nextPageToken);
      assert forall i :: 1 <= i < |rs| ==> rs[i] == rs[1..][i - 1];
    }
  }

  /** The events of a run are the events of handling, as one stream, the albums
      of the pages it read, in page order and then in within-page order,
      followed by one failure message when the run ended on a non-200 reply.
      Effects of pages read before that reply stand. */
  ghost predicate EventsFollowAlbums(rs: seq<Response>, k: nat, deleter: nat -> DeleteOutcome, t: Trace)
  {
    && |t.requests| <= |rs|
    && t.events == HandleAlbums(ReceivedAlbums(rs[..|t.requests|]), k, deleter)
                   + (if t.stop.RetrieveError? then [RetrieveFailed(t.stop.status)] else [])
  }

  lemma {:induction false} RunEvents(rs: seq<Response>, token: Option<string>, k: nat, deleter: nat -> DeleteOutcome)
    ensures EventsFollowAlbums(rs, k, deleter, Run(rs, token, k, deleter))
    decreases |rs|
  {
    if |rs| == 0 {
      assert rs[..0] == [];
      assert HandleAlbums([], k, deleter) == [];
    } else if !Continues(rs[0]) {
      RunEventsLastPage(rs, token, k, deleter);
    } else {
      var page := PageAlbums(rs[0]);
      var rest := Run(rs[1..], rs[0].nextPageToken, k + |EmptyAlbums(page)|, deleter);
      RunEvents(rs[1..], rs[0].nextPageToken, k + |EmptyAlbums(page)|, deleter);
      RunContinues(rs, token, k, deleter);
      EventsFollowAlbumsStep(rs, k, deleter, RequestFor(token), rest);
    }
  }

  /** The inductive step of `RunEvents`, on traces: a page that asks for more
      prepends its own albums' events to those of the rest of the run. */
  lemma EventsFollowAlbumsStep(rs: seq<Response>, k: nat, deleter: nat -> DeleteOutcome, req: Request, rest: Trace)
    requires |rs| > 0 && Succeeded(rs[0])
    requires EventsFollowAlbums(rs[1..], k + |EmptyAlbums(PageAlbums(rs[0]))|, deleter, rest)
    ensures EventsFollowAlbums(rs, k, deleter,
      Trace([req] + rest.requests, HandleAlbums(PageAlbums(rs[0]), k, deleter) + rest.events, rest.stop))
  {
    var m := |rest.requests|;
    var tail := if rest.stop.RetrieveError? then [RetrieveFailed(rest.stop.status)] else [];
    ReceivedAlbumsCons(rs, m);
    PrependPageEvents(PageAlbums(rs[0]), ReceivedAlbums(rs[1..][..m]), k, deleter, tail, rest.events);
  }

  /** The events of one more page in front of those of the albums after it,
      as one stream. */
  lemma PrependPageEvents(page: seq<Album>, received: seq<Album>, k: nat, deleter: nat -> DeleteOutcome, tail: seq<Event>, evs: seq<Event>)
    requires evs == HandleAlbums(received, k + |EmptyAlbums(page)|, deleter) + tail
    ensures HandleAlbums(page, k, deleter) + evs == HandleAlbums(page + received, k, deleter) + tail
  {
    HandleAlbumsAppend(page, received, k, k + |EmptyAlbums(page)|, deleter);
    AppendAssociates(HandleAlbums(page, k, deleter), HandleAlbums(received, k + |EmptyAlbums(page)|, deleter), tail);
  }

  lemma AppendAssociates<T>(xs: seq<T>, ys: seq<T>, zs: seq<T>)
    ensures xs + (ys + zs) == (xs + ys) + zs
  {
  }

  /** A page's `nextPageToken` is followed only when it is truthy: after a
      successful page whose token is absent or empty the run stops, and a
      non-empty token becomes the next request's `pageToken`. */
  lemma TokenTruthiness(rs: seq<Response>, token: Option<string>, k: nat, deleter: nat -> DeleteOutcome)
    requires |rs| > 0 && Succeeded(rs[0])
    ensures rs[0].nextPageToken == None || rs[0].nextPageToken == Some("") ==>
      Run(rs, token, k, deleter).requests == [RequestFor(token)] && Run(rs, token, k, deleter).stop == LastPage
    ensures rs[0].nextPageToken.Some? && rs[0].nextPageToken.value != "" && |rs| > 1 ==>
      |Run(rs, token, k, deleter).requests| > 1
      && Run(rs, token, k, deleter).requests[1] == Request(PAGE_SIZE, rs[0].nextPageToken)
  {
  }

  /** Unfolding the outer loop on a reply that ends it. */
  lemma RunEnds(rs: seq<Response>, token: Option<string>, k: nat, deleter: nat -> DeleteOutcome)
    requires |rs| > 0 && !Continues(rs[0])
    ensures var t := Run(rs, token, k, deleter);
      && t.requests == [RequestFor(token)]
      && t.stop == if Succeeded(rs[0]) then LastPage else RetrieveError(rs[0].status)
  {
  }

  /** Unfolding the outer loop once past a page that asks for more. */
  lemma RunContinues(rs: seq<Response>, token: Option<string>, k: nat, deleter: nat -> DeleteOutcome)
    requires |rs| > 0 && Continues(rs[0])
    ensures var page := PageAlbums(rs[0]);
      var rest := Run(rs[1..], rs[0].nextPageToken, k + |EmptyAlbums(page)|, deleter);
      Run(rs, token, k, deleter)
        == Trace([RequestFor(token)] + rest.requests, HandleAlbums(page, k, deleter) + rest.events, rest.stop)
  {
  }

  /** The albums received from the first `m + 1` replies, the first of them a
      successful page. */
  lemma ReceivedAlbumsCons(rs: seq<Response>, m: nat)
    requires m < |rs| && Succeeded(rs[0])
    ensures ReceivedAlbums(rs[..m + 1]) == PageAlbums(rs[0]) + ReceivedAlbums(rs[1..][..m])
  {
    assert rs[..m + 1][0] == rs[0];
    assert rs[..m + 1][1..] == rs[1..][..m];
  }

  /** The base case of `RunEvents`: the first response ends the run. */
  lemma RunEventsLastPage(rs: seq<Response>, token: Option<string>, k: nat, deleter: nat -> DeleteOutcome)
    requires |rs| > 0 && !Continues(rs[0])
    ensures EventsFollowAlbums(rs, k, deleter, Run(rs, token, k, deleter))
  {
    var t := Run(rs, token, k, deleter);
    var r := rs[0];
    assert rs[..|t.requests|] == [r];
    assert [r][1..] == [];
    assert ReceivedAlbums([r]) == (if Succeeded(r) then PageAlbums(r) else []) + [];
    if !Succeeded(r) {
      assert t.events == [RetrieveFailed(r.status)];
      assert HandleAlbums([], k, deleter) == [];
    } else {
      assert t.events == HandleAlbums(PageAlbums(r), k, deleter);
      assert PageAlbums(r) + [] == PageAlbums(r);
      assert t.events + [] == t.events;
    }
  }

  /** Removal attempts and skips are ordered like the events they come from. */
  lemma ProjectionsAppend(xs: seq<Event>, ys: seq<Event>)
    ensures Attempts(xs + ys) == Attempts(xs) + Attempts(ys)
    ensures Skips(xs + ys) == Skips(xs) + Skips(ys)
  {
    AttemptsAppend(xs, ys);
    SkipsAppend(xs, ys);
  }

  lemma {:induction false} AttemptsAppend(xs: seq<Event>, ys: seq<Event>)
    ensures Attempts(xs + ys) == Attempts(xs) + Attempts(ys)
    decreases |xs|
  {
    if |xs| == 0 {
      assert xs + ys == ys;
    } else {
      var zs := xs + ys;
      assert zs[0] == xs[0] && zs[1..] == xs[1..] + ys;
      AttemptsAppend(xs[1..], ys);
      if IsAttempt(xs[0]) {
        AppendAssociates([xs[0]], Attempts(xs[1..]), Attempts(ys));
      }
    }
  }

  lemma {:induction false} SkipsAppend(xs: seq<Event>, ys: seq<Event>)
    ensures Skips(xs + ys) == Skips(xs) + Skips(ys)
    decreases |xs|
  {
    if |xs| == 0 {
      assert xs + ys == ys;
    } else {
      var zs := xs + ys;
      assert zs[0] == xs[0] && zs[1..] == xs[1..] + ys;
      SkipsAppend(xs[1..], ys);
      if xs[0].Skipped? {
        AppendAssociates([xs[0]], Skips(xs[1..]), Skips(ys));
      }
    }
  }

  /** Over a whole run, a removal is attempted for exactly the received albums
      whose count is zero (an absent count included), in the order they were
      received, and a failed removal does not stop the next one; exactly the
      received albums with a positive count are reported as skipped. Albums
      with a negative count produce no event at all. */
  lemma RunDecisions(rs: seq<Response>, deleter: nat -> DeleteOutcome)
    ensures var t := DeleteEmptyAlbums(rs, deleter);
      Attempts(t.events) == AttemptsFor(EmptyAlbums(ReceivedAlbums(rs[..|t.requests|])), 0, deleter)
    ensures var t := DeleteEmptyAlbums(rs, deleter);
      Skips(t.events) == SkipsFor(NonEmptyAlbums(ReceivedAlbums(rs[..|t.requests|])))
    ensures var t := DeleteEmptyAlbums(rs, deleter); var received := ReceivedAlbums(rs[..|t.requests|]);
      |t.events| == |EmptyAlbums(received)| + |NonEmptyAlbums(received)| + (if t.stop.RetrieveError? then 1 else 0)
  {
    var t := DeleteEmptyAlbums(rs, deleter);
    var received := ReceivedAlbums(rs[..|t.requests|]);
    var tail := if t.stop.RetrieveError? then [RetrieveFailed(t.stop.status)] else [];
    RunEvents(rs, None, 0, deleter);
    assert t.events == HandleAlbums(received, 0, deleter) + tail;
    ProjectionsAppend(HandleAlbums(received, 0, deleter), tail);
    HandleAlbumsAttempts(received, 0, deleter);
    HandleAlbumsSkips(received, 0, deleter);
    HandleAlbumsLength(received, 0, deleter);
    if t.stop.RetrieveError? {
      assert Attempts(tail) == [] && Skips(tail) == [] by {
        assert tail[1..] == [];
      }
    }
  }

  /** The album filter keeps exactly the albums whose count is zero. */
  lemma {:induction false} EmptyAlbumsMembers(albums: seq<Album>, a: Album)
    ensures a in EmptyAlbums(albums) <==> a in albums && ItemCount(a) == 0
    decreases |albums|
  {
    if |albums| > 0 {
      EmptyAlbumsMembers(albums[1..], a);
      assert albums == [albums[0]] + albums[1..];
    }
  }

  /** The skip filter keeps exactly the albums whose count is positive. */
  lemma {:induction false} NonEmptyAlbumsMembers(albums: seq<Album>, a: Album)
    ensures a in NonEmptyAlbums(albums) <==> a in albums && ItemCount(a) > 0
    decreases |albums|
  {
    if |albums| > 0 {
      NonEmptyAlbumsMembers(albums[1..], a);
      assert albums == [albums[0]] + albums[1..];
    }
  }

  /** A removal routine that returns normally only with True. */
  ghost predicate NeverReturnsFalse(deleter: nat -> DeleteOutcome)
  {
    forall j: nat :: deleter(j) != Returned(false)
  }

  /** With such a routine, every failed-removal message of a run carries the
      text of an exception. */
  lemma FailuresAreExceptions(rs: seq<Response>, deleter: nat -> DeleteOutcome)
    requires NeverReturnsFalse(deleter)
    ensures var t := DeleteEmptyAlbums(rs, deleter);
      forall j :: 0 <= j < |Attempts(t.events)| && Attempts(t.events)[j].RemoveFailed? ==> Attempts(t.events)[j].error.Some?
  {
    RunDecisions(rs, deleter);
    var t := DeleteEmptyAlbums(rs, deleter);
    AttemptsForIndex(EmptyAlbums(ReceivedAlbums(rs[..|t.requests|])), 0, deleter);
  }

  /** The browser-driven removal: the click sequence either completes, after
      which the routine returns True, or raises part-way with a message. */
  datatype BrowserRun = Completed | Crashed(message: string)

  function DeleteAlbumUi(run: BrowserRun): (outcome: DeleteOutcome)
    ensures outcome != Returned(false)
    ensures outcome.Raised? <==> run.Crashed?
    ensures run.Crashed? ==> outcome == Raised(run.message)
  {
    match run
    case Completed => Returned(true)
    case Crashed(message) => Raised(message)
  }

  /** Driving the browser-based removal, a failure message always means the
      routine raised: it never reports failure by returning False. The `j`-th
      removal attempt fails exactly when the `j`-th browser session crashed,
      and then it carries that crash's own message. */
  lemma UiFailuresAreExceptions(rs: seq<Response>, browser: nat -> BrowserRun)
    ensures var t := DeleteEmptyAlbums(rs, (j: nat) => DeleteAlbumUi(browser(j)));
      forall j :: 0 <= j < |Attempts(t.events)| && Attempts(t.events)[j].RemoveFailed? ==> Attempts(t.events)[j].error.Some?
    ensures var t := DeleteEmptyAlbums(rs, (j: nat) => DeleteAlbumUi(browser(j)));
      forall j :: 0 <= j < |Attempts(t.events)| ==>
        (Attempts(t.events)[j].RemoveFailed? <==> browser(j).Crashed?)
        && (browser(j).Crashed? ==> Attempts(t.events)[j].error == Some(browser(j).message))
  {
    var deleter := (j: nat) => DeleteAlbumUi(browser(j));
    forall j: nat
      ensures deleter(j) != Returned(false)
    {
      assert deleter(j) == DeleteAlbumUi(browser(j));
    }
    FailuresAreExceptions(rs, deleter);
    var t := DeleteEmptyAlbums(rs, deleter);
    RunDecisions(rs, deleter);
    AttemptsForIndex(EmptyAlbums(ReceivedAlbums(rs[..|t.requests|])), 0, deleter);
    forall j | 0 <= j < |Attempts(t.events)|
      ensures Attempts(t.events)[j].RemoveFailed? <==> browser(j).Crashed?
      ensures browser(j).Crashed? ==> Attempts(t.events)[j].error == Some(browser(j).message)
    {
      assert deleter(j) == DeleteAlbumUi(browser(j));
    }
  }
}
