/** A worked two-page run: an empty album and a twelve-item album on a first
    page that links to a second page holding one more empty album. */
module Scenarios {
  import opened PhotosApi
  import opened DeleteEmpty
  import Listing

  const Trip: Album := Album("a1", "Trip", "u1", Some(Count("0", 0)))
  const Party: Album := Album("a2", "Party", "u2", Some(Count("12", 12)))
  const Empty2: Album := Album("a3", "Empty2", "u3", None)

  const TwoPages: seq<Response> := [
    Response(200, Some([Trip, Party]), Some("tok")),
    Response(200, Some([Empty2]), None)
  ]

  /** The deletion driver asks for both pages, attempts removal of a1 and then
      a3, and skips a2 with "12 items" between them. */
  lemma DeleteTwoPages(deleter: nat -> DeleteOutcome)
    ensures var t := DeleteEmptyAlbums(TwoPages, deleter);
      && t.requests == [Request(PAGE_SIZE, None), Request(PAGE_SIZE, Some("tok"))]
      && t.events == [Attempt(Trip, deleter(0)), Skipped(Party, 12, "items"), Attempt(Empty2, deleter(1))]
      && t.stop == LastPage
  {
    var p1 := PageAlbums(TwoPages[0]);
    assert p1 == [Trip, Party];
    assert p1[1..] == [Party];
    assert EmptyAlbums(p1) == [Trip];
    var p2 := PageAlbums(TwoPages[1]);
    assert p2 == [Empty2];
    assert [Party][1..] == [] && p2[1..] == [];
    assert Noun(12) == "items";
    assert AlbumEvents(Party, deleter(1)) == [Skipped(Party, 12, "items")];
    assert HandleAlbums([Party], 1, deleter) == AlbumEvents(Party, deleter(1)) + [];
    assert AlbumEvents(Trip, deleter(0)) == [Attempt(Trip, deleter(0))];
    assert HandleAlbums(p1, 0, deleter) == [Attempt(Trip, deleter(0)), Skipped(Party, 12, "items")];
    assert HandleAlbums(p2, 1, deleter) == [Attempt(Empty2, deleter(1))];
    assert TwoPages[1..] == [TwoPages[1]];
    assert [TwoPages[1]][1..] == [];
    var rest := Run(TwoPages[1..], Some("tok"), 1, deleter);
    assert rest == Trace([Request(PAGE_SIZE, Some("tok"))], [Attempt(Empty2, deleter(1))], LastPage);
  }

  /** The listing driver reports all three albums, a3's absent count as "0". */
  lemma ListTwoPages()
    ensures var t := Listing.ListAlbums(TwoPages);
      && t.requests == [Request(PAGE_SIZE, None), Request(PAGE_SIZE, Some("tok"))]
      && t.events == [Listing.Shown(Trip, "0"), Listing.Shown(Party, "12"), Listing.Shown(Empty2, "0")]
      && t.stop == Listing.LastPage
  {
    var p1 := PageAlbums(TwoPages[0]);
    assert p1 == [Trip, Party];
    assert p1[1..] == [Party];
    var p2 := PageAlbums(TwoPages[1]);
    assert p2 == [Empty2];
    assert Listing.ShowAlbums(p1) == [Listing.Shown(Trip, "0"), Listing.Shown(Party, "12")];
    assert Listing.ShowAlbums(p2) == [Listing.Shown(Empty2, "0")];
    assert TwoPages[1..] == [TwoPages[1]];
    assert [TwoPages[1]][1..] == [];
    var rest := Listing.Run(TwoPages[1..], Some("tok"));
    assert rest == Listing.Trace([Request(PAGE_SIZE, Some("tok"))], [Listing.Shown(Empty2, "0")], Listing.LastPage);
  }
}
