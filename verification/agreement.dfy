/** How the two drivers relate: they speak the same request protocol and, as
    long as every reply succeeds, read exactly the same pages; they part ways
    on the first failed reply, which ends deletion but is retried by listing.
 */
module Agreement {
  import opened PhotosApi
  import DeleteEmpty
  import Listing

  /** The number of pages linked by tokens from the first one: the pages up to
      and including the first without a usable `nextPageToken`. */
  function ChainLength(rs: seq<Response>): (n: nat)
    ensures n <= |rs|
    ensures |rs| > 0 ==> n > 0
    decreases |rs|
  {
    if |rs| == 0 then 0
    else if !HasNextPage(rs[0].nextPageToken) then 1
    else 1 + ChainLength(rs[1..])
  }

  /** Without failed replies, both drivers send the same requests, one per
      page of the token chain, and stop for the same reason. */
  lemma {:induction false} SameRequestsWithoutFailures(rs: seq<Response>, token: Option<string>, k: nat, deleter: nat -> DeleteEmpty.DeleteOutcome)
    requires forall i :: 0 <= i < |rs| ==> Succeeded(rs[i])
    ensures Listing.Run(rs, token).requests == DeleteEmpty.Run(rs, token, k, deleter).requests
    ensures |Listing.Run(rs, token).requests| == ChainLength(rs)
    ensures Listing.Run(rs, token).stop.LastPage? <==> DeleteEmpty.Run(rs, token, k, deleter).stop.LastPage?
    decreases |rs|
  {
    if |rs| > 0 && HasNextPage(rs[0].nextPageToken) {
      var r := rs[0];
      assert forall i :: 0 <= i < |rs[1..]| ==> rs[1..][i] == rs[i + 1];
      SameRequestsWithoutFailures(rs[1..], r.nextPageToken, k + |DeleteEmpty.EmptyAlbums(PageAlbums(r))|, deleter);
    }
  }

  /** Without failed replies, the listing reports every album that the
      deletion driver classified, and the deletion driver attempts a removal
      for exactly those among them whose count is zero. */
  lemma SameAlbumsWithoutFailures(rs: seq<Response>, deleter: nat -> DeleteEmpty.DeleteOutcome)
    requires forall i :: 0 <= i < |rs| ==> Succeeded(rs[i])
    ensures var listed := Listing.ListAlbums(rs); var deleted := DeleteEmpty.DeleteEmptyAlbums(rs, deleter);
      var received := ReceivedAlbums(rs[..|listed.requests|]);
      && listed.requests == deleted.requests
      && Listing.Shows(listed.events) == Listing.ShowAlbums(received)
      && DeleteEmpty.Attempts(deleted.events) == DeleteEmpty.AttemptsFor(DeleteEmpty.EmptyAlbums(received), 0, deleter)
  {
    SameRequestsWithoutFailures(rs, None, 0, deleter);
    Listing.RunShowsReceived(rs);
    DeleteEmpty.RunDecisions(rs, deleter);
  }

  /** On a run of `m` failed first replies, the deletion driver stops after
      the first request with its status, while the listing driver sends that
      identical token-less request once per failed reply. */
  lemma FailureDivergence(rs: seq<Response>, deleter: nat -> DeleteEmpty.DeleteOutcome, m: nat)
    requires 0 < m <= |rs|
    requires forall i :: 0 <= i < m ==> !Succeeded(rs[i])
    ensures var deleted := DeleteEmpty.DeleteEmptyAlbums(rs, deleter);
      && deleted.requests == [Request(PAGE_SIZE, None)]
      && deleted.events == [DeleteEmpty.RetrieveFailed(rs[0].status)]
      && deleted.stop == DeleteEmpty.RetrieveError(rs[0].status)
    ensures var listed := Listing.ListAlbums(rs);
      && m <= |listed.requests|
      && (forall i :: 0 <= i < m ==> listed.requests[i] == Request(PAGE_SIZE, None))
  {
    Listing.FailuresRepeatRequest(rs, None, m);
  }
}
