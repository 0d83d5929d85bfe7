/** One run of `check_feeds` over the registry, as a function of the
    registry before the run and of what `read_feed` returns for each url
    during it. The class method `Rss.CheckFeeds` is proved to compute it;
    the lemmas below state what the poll cycle does and does not promise. */
module PollCycle {
  import opened Entries
  import opened Registry

  /** The Python exceptions the modelled code can raise. */
  datatype Exception = IndexError | ValueError

  /** A Python call either returns a value or raises. */
  datatype Outcome<T> = Returned(value: T) | Raised(error: Exception)

  /** One `self.send(room, message)`: the message is built from `entry`. */
  datatype Delivery = Delivery(room: Room, entry: Entry)

  /** `read_feed` during one cycle: `None` when the request or its status
      failed, the parsed feed otherwise. */
  type Fetch = Url -> Option<Feed>

  /** What the cycle after a run looks like: the registry and what the call did. */
  datatype CycleResult = CycleResult(feeds: seq<Record>, outcome: Outcome<seq<Delivery>>)

  /** The entries a feed appends to `responses`: none when its fetch failed,
      otherwise those published after its last check, in feed order. */
  function RecentOf(r: Record, fetch: Fetch): seq<Entry> {
    match fetch(r.data.url)
    case None => []
    case Some(f) => Recent(f.entries, r.data.lastCheck)
  }

  /** `newest, *__, oldest = feed['entries']` raises `ValueError`: the fetch
      succeeded with fewer than two entries. */
  predicate Raises(r: Record, fetch: Fetch) {
    fetch(r.data.url).Some? && |fetch(r.data.url).value.entries| < 2
  }

  /** A feed after a visit that does not raise: when it has recent entries
      its last check becomes the time of the FIRST entry of the feed. */
  function Visit(r: Record, fetch: Fetch): (v: Record)
    ensures v.title == r.title && v.data.url == r.data.url && v.data.room == r.data.room
    ensures v.data.lastCheck != r.data.lastCheck ==>
      fetch(r.data.url).Some? && |fetch(r.data.url).value.entries| > 0 &&
      v.data.lastCheck == fetch(r.data.url).value.entries[0].published
  {
    match fetch(r.data.url)
    case None => r
    case Some(f) =>
      if RecentOf(r, fetch) != [] then Record(r.title, r.data.(lastCheck := f.entries[0].published))
      else r
  }

  function VisitAll(feeds: seq<Record>, fetch: Fetch): seq<Record> {
    seq(|feeds|, i requires 0 <= i < |feeds| => Visit(feeds[i], fetch))
  }

  /** `responses` after visiting `feeds` in order. */
  function CollectAll(feeds: seq<Record>, fetch: Fetch): seq<Entry>
    decreases |feeds|
  {
    if feeds == [] then []
    else CollectAll(feeds[..|feeds| - 1], fetch) + RecentOf(feeds[|feeds| - 1], fetch)
  }

  /** The position of the first feed whose visit raises, or `|feeds|`. */
  function FirstRaise(feeds: seq<Record>, fetch: Fetch): (k: nat)
    ensures k <= |feeds|
    ensures k < |feeds| ==> Raises(feeds[k], fetch)
    ensures forall j :: 0 <= j < k ==> !Raises(feeds[j], fetch)
  {
    if feeds == [] then 0
    else if Raises(feeds[0], fetch) then 0
    else 1 + FirstRaise(feeds[1..], fetch)
  }

  /** The sends of the final loop: every message goes to `room`. */
  function Address(entries: seq<Entry>, room: Room): (ds: seq<Delivery>)
    ensures forall d :: d in ds ==> d.room == room
  {
    seq(|entries|, j requires 0 <= j < |entries| => Delivery(room, entries[j]))
  }

  lemma AddressElementwise(ds: seq<Delivery>, entries: seq<Entry>, room: Room)
    requires |ds| == |entries|
    requires forall j :: 0 <= j < |entries| ==> ds[j] == Delivery(room, entries[j])
    ensures ds == Address(entries, room)
  {
  }

  function EntriesOf(ds: seq<Delivery>): seq<Entry> {
    seq(|ds|, j requires 0 <= j < |ds| => ds[j].entry)
  }

  /** `check_feeds`. An empty registry returns at once. Otherwise every feed
      is visited in dictionary order; a feed that raises ends the call with
      the feeds before it already updated and nothing sent; when no feed
      raises, the collected entries are sorted by publication time and all
      of them are sent to the room of the last feed of the dictionary (the
      loop variable `data` outlives the loop). */
  function Poll(feeds: seq<Record>, fetch: Fetch): CycleResult {
    CycleResult(PolledFeeds(feeds, fetch), PollOutcome(feeds, fetch))
  }

  /** The registry after `check_feeds`: the feeds before the first one that
      raises are visited, that one and the later ones are untouched. */
  function PolledFeeds(feeds: seq<Record>, fetch: Fetch): (after: seq<Record>)
    ensures |after| == |feeds|
  {
    var k := FirstRaise(feeds, fetch);
    if k < |feeds| then VisitAll(feeds[..k], fetch) + feeds[k..]
    else VisitAll(feeds, fetch)
  }

  /** What `check_feeds` does besides updating the registry: raise, or send
      the sorted collection. */
  function PollOutcome(feeds: seq<Record>, fetch: Fetch): Outcome<seq<Delivery>> {
    if FirstRaise(feeds, fetch) < |feeds| then Raised(ValueError)
    else if feeds == [] then Returned([])
    else Returned(Address(SortByPublished(CollectAll(feeds, fetch)), feeds[|feeds| - 1].data.room))
  }

  // ---------------------------------------------------------------------
  // Steps of the cycle, as the loop of `Rss.CheckFeeds` takes them

  /** The first `i` feeds of `start` have been visited without raising and
      the others are as they were. */
  ghost predicate VisitedUpTo(feeds: seq<Record>, start: seq<Record>, fetch: Fetch, i: nat) {
    i <= |start| == |feeds| &&
    (forall j :: 0 <= j < i ==> !Raises(start[j], fetch) && feeds[j] == Visit(start[j], fetch)) &&
    (forall j :: i <= j < |start| ==> feeds[j] == start[j])
  }

  /** A registry whose first `i` feeds have been visited and the rest not;
      when feed `i` raises, or there is none, the cycle stops at `i`. */
  lemma VisitedPrefix(feeds: seq<Record>, start: seq<Record>, fetch: Fetch, i: nat)
    requires VisitedUpTo(feeds, start, fetch, i)
    requires i == |start| || Raises(start[i], fetch)
    ensures feeds == VisitAll(start[..i], fetch) + start[i..]
    ensures FirstRaise(start, fetch) == i
  {
    var v := VisitAll(start[..i], fetch) + start[i..];
    assert |v| == |feeds|;
    forall j | 0 <= j < |feeds| ensures v[j] == feeds[j] {
      if j < i {
        assert v[j] == Visit(start[j], fetch);
      }
    }
  }

  /** Feed `i` is not visited yet. */
  lemma NotYetVisited(feeds: seq<Record>, start: seq<Record>, fetch: Fetch, i: nat)
    requires VisitedUpTo(feeds, start, fetch, i) && i < |start|
    ensures feeds[i] == start[i]
  {
  }

  /** Visiting feed `i` appends its recent entries to the responses. */
  lemma CollectStep(feeds: seq<Record>, fetch: Fetch, i: nat)
    requires i < |feeds|
    ensures CollectAll(feeds[..i + 1], fetch) == CollectAll(feeds[..i], fetch) + RecentOf(feeds[i], fetch)
  {
    assert feeds[..i + 1][..i] == feeds[..i];
  }

  /** Visiting feed `i` moves the boundary between visited and unvisited
      feeds one slot on. */
  lemma VisitStep(feeds: seq<Record>, next: seq<Record>, start: seq<Record>, fetch: Fetch, i: nat)
    requires VisitedUpTo(feeds, start, fetch, i) && i < |start|
    requires !Raises(start[i], fetch)
    requires next == feeds[i := Visit(start[i], fetch)]
    ensures VisitedUpTo(next, start, fetch, i + 1)
  {
  }

  /** What a visit does to a feed whose fetch returned `f`. */
  lemma FetchedVisit(r: Record, fetch: Fetch, f: Feed)
    requires fetch(r.data.url) == Some(f)
    ensures RecentOf(r, fetch) == Recent(f.entries, r.data.lastCheck)
    ensures Raises(r, fetch) <==> |f.entries| < 2
    ensures Visit(r, fetch) ==
      if Recent(f.entries, r.data.lastCheck) != [] then Record(r.title, r.data.(lastCheck := f.entries[0].published))
      else r
  {
  }

  /** What a visit does to a feed whose fetch failed. */
  lemma FailedVisit(r: Record, fetch: Fetch)
    requires fetch(r.data.url) == None
    ensures RecentOf(r, fetch) == [] && !Raises(r, fetch) && Visit(r, fetch) == r
  {
  }

  /** The cycle when feed `i` is the first to raise. */
  lemma PollRaisesAt(feeds: seq<Record>, fetch: Fetch, i: nat)
    requires i < |feeds| && Raises(feeds[i], fetch)
    requires forall j :: 0 <= j < i ==> !Raises(feeds[j], fetch)
    ensures Poll(feeds, fetch) == CycleResult(VisitAll(feeds[..i], fetch) + feeds[i..], Raised(ValueError))
  {
    assert FirstRaise(feeds, fetch) == i;
  }

  /** The cycle when no feed raises. */
  lemma PollReturns(feeds: seq<Record>, fetch: Fetch)
    requires feeds != []
    requires forall j :: 0 <= j < |feeds| ==> !Raises(feeds[j], fetch)
    ensures Poll(feeds, fetch) == CycleResult(VisitAll(feeds, fetch),
      Returned(Address(SortByPublished(CollectAll(feeds, fetch)), feeds[|feeds| - 1].data.room)))
  {
    assert FirstRaise(feeds, fetch) == |feeds|;
  }

  // ---------------------------------------------------------------------
  // What a cycle does to the registry

  /** With no feeds nothing is fetched, changed or sent. */
  lemma PollOfEmptyRegistry(fetch: Fetch)
    ensures Poll([], fetch) == CycleResult([], Returned([]))
  {
  }

  /** Slot `i` after a cycle: visited when the cycle reached it, untouched
      otherwise. */
  lemma PollFeedsAt(feeds: seq<Record>, fetch: Fetch, i: nat)
    requires i < |feeds|
    ensures |PolledFeeds(feeds, fetch)| == |feeds|
    ensures PolledFeeds(feeds, fetch)[i] == if i < FirstRaise(feeds, fetch) then Visit(feeds[i], fetch) else feeds[i]
  {
    var k := FirstRaise(feeds, fetch);
    var after := PolledFeeds(feeds, fetch);
    if k < |feeds| {
      assert after == VisitAll(feeds[..k], fetch) + feeds[k..];
      if i < k {
        assert after[i] == VisitAll(feeds[..k], fetch)[i];
      } else {
        assert after[i] == feeds[k..][i - k];
      }
    } else {
      assert after == VisitAll(feeds, fetch);
    }
  }

  /** A cycle changes only last-check times: every title, url and room stays
      where it was, so the dictionary keeps its keys, order and size. */
  lemma PollKeepsKeysUrlsAndRooms(feeds: seq<Record>, fetch: Fetch)
    ensures var after := PolledFeeds(feeds, fetch);
      |after| == |feeds| &&
      forall i :: 0 <= i < |feeds| ==>
        after[i].title == feeds[i].title &&
        after[i].data.url == feeds[i].data.url &&
        after[i].data.room == feeds[i].data.room
  {
    var after := PolledFeeds(feeds, fetch);
    if feeds == [] {
      assert after == [];
    }
    forall i | 0 <= i < |feeds|
      ensures |after| == |feeds|
      ensures after[i].title == feeds[i].title && after[i].data.url == feeds[i].data.url && after[i].data.room == feeds[i].data.room
    {
      PollFeedsAt(feeds, fetch, i);
    }
  }

  /** A cycle keeps the dictionary's keys unique. */
  lemma PollKeepsDistinctTitles(feeds: seq<Record>, fetch: Fetch)
    requires DistinctTitles(feeds)
    ensures DistinctTitles(PolledFeeds(feeds, fetch))
  {
    PollKeepsKeysUrlsAndRooms(feeds, fetch);
  }

  /** The last check of a feed changes only when the cycle reached it, its
      fetch succeeded and it had entries newer than the old last check; it
      then becomes the time of the feed's first entry. */
  lemma PollLastCheck(feeds: seq<Record>, fetch: Fetch, i: nat)
    requires i < |feeds|
    ensures var after := PolledFeeds(feeds, fetch);
      |after| == |feeds| &&
      after[i].data.lastCheck ==
        if i < FirstRaise(feeds, fetch) && fetch(feeds[i].data.url).Some? && RecentOf(feeds[i], fetch) != []
        then fetch(feeds[i].data.url).value.entries[0].published
        else feeds[i].data.lastCheck
  {
    PollFeedsAt(feeds, fetch, i);
  }

  /** A feed whose fetch failed is left exactly as it was and adds nothing
      to the messages. */
  lemma PollSkipsFailedFetch(feeds: seq<Record>, fetch: Fetch, i: nat)
    requires i < |feeds| && fetch(feeds[i].data.url).None?
    ensures |PolledFeeds(feeds, fetch)| == |feeds| && PolledFeeds(feeds, fetch)[i] == feeds[i]
    ensures RecentOf(feeds[i], fetch) == []
  {
    PollFeedsAt(feeds, fetch, i);
  }

  /** The cycle raises exactly when some feed's fetch succeeds with fewer
      than two entries; then it raises `ValueError`, that feed and every
      later one are untouched, and nothing is sent. */
  lemma PollRaisesIffShortFeed(feeds: seq<Record>, fetch: Fetch)
    ensures PollOutcome(feeds, fetch).Raised? <==> exists i :: 0 <= i < |feeds| && Raises(feeds[i], fetch)
    ensures forall i :: 0 <= i < |feeds| && Raises(feeds[i], fetch) ==>
      PollOutcome(feeds, fetch) == Raised(ValueError) &&
      |PolledFeeds(feeds, fetch)| == |feeds| &&
      PolledFeeds(feeds, fetch)[i..] == feeds[i..]
  {
    var k := FirstRaise(feeds, fetch);
    if k < |feeds| {
      var after := PolledFeeds(feeds, fetch);
      forall i | 0 <= i < |feeds| && Raises(feeds[i], fetch)
        ensures after[i..] == feeds[i..]
      {
        assert k <= i;
        assert after[k..] == feeds[k..];
        assert after[i..] == after[k..][i - k..];
      }
    }
  }

  // ---------------------------------------------------------------------
  // What a cycle sends

  /** `e` is one of the recent entries of the feed `r` in this cycle. */
  predicate RecentIn(r: Record, fetch: Fetch, e: Entry) {
    fetch(r.data.url).Some? && e in fetch(r.data.url).value.entries && Since(r.data.lastCheck, e)
  }

  lemma RecentOfIff(r: Record, fetch: Fetch, e: Entry)
    ensures e in RecentOf(r, fetch) <==> RecentIn(r, fetch, e)
  {
    if RecentIn(r, fetch, e) {
      RecentKeepsEveryNewer(fetch(r.data.url).value.entries, r.data.lastCheck, e);
    }
  }

  /** An entry is collected exactly when some feed was fetched, lists it,
      and it is newer than that feed's last check. */
  lemma {:induction false} CollectedIffRecent(feeds: seq<Record>, fetch: Fetch, e: Entry)
    ensures e in CollectAll(feeds, fetch) <==> exists i :: 0 <= i < |feeds| && RecentIn(feeds[i], fetch, e)
  {
    if feeds != [] {
      var n := |feeds| - 1;
      var init := feeds[..n];
      CollectedIffRecent(init, fetch, e);
      RecentOfIff(feeds[n], fetch, e);
      assert e in CollectAll(feeds, fetch) <==> e in CollectAll(init, fetch) || e in RecentOf(feeds[n], fetch);
      if exists i :: 0 <= i < |feeds| && RecentIn(feeds[i], fetch, e) {
        var i :| 0 <= i < |feeds| && RecentIn(feeds[i], fetch, e);
        if i < n {
          assert RecentIn(init[i], fetch, e);
        }
      }
      if exists i :: 0 <= i < |init| && RecentIn(init[i], fetch, e) {
        var i :| 0 <= i < |init| && RecentIn(init[i], fetch, e);
        assert RecentIn(feeds[i], fetch, e);
      }
    }
  }

  /** When the cycle returns, it has sent every collected entry exactly as
      often as it was collected, oldest first, entries published at the
      same time in the order they were collected, all to the room of the
      last feed of the dictionary. */
  lemma PollDelivers(feeds: seq<Record>, fetch: Fetch)
    requires PollOutcome(feeds, fetch).Returned?
    ensures var sent := EntriesOf(PollOutcome(feeds, fetch).value);
      OldestFirst(sent) &&
      multiset(sent) == multiset(CollectAll(feeds, fetch)) &&
      forall t :: At(sent, t) == At(CollectAll(feeds, fetch), t)
    ensures forall d :: d in PollOutcome(feeds, fetch).value ==> d.room == feeds[|feeds| - 1].data.room
  {
    if feeds != [] {
      assert FirstRaise(feeds, fetch) == |feeds|;
      SendsSortedCollection(CollectAll(feeds, fetch), feeds[|feeds| - 1].data.room);
    }
  }

  /** The final loop sends the sorted collection: a stable, oldest-first
      permutation of it. */
  lemma SendsSortedCollection(collected: seq<Entry>, room: Room)
    ensures var sent := EntriesOf(Address(SortByPublished(collected), room));
      OldestFirst(sent) &&
      multiset(sent) == multiset(collected) &&
      forall t :: At(sent, t) == At(collected, t)
  {
    var sorted := SortByPublished(collected);
    assert EntriesOf(Address(sorted, room)) == sorted;
    forall t ensures At(sorted, t) == At(collected, t) {
      SortIsStable(collected, t);
    }
  }

  // ---------------------------------------------------------------------
  // Last-check times across cycles

  /** When every fetched feed lists its entries newest first, no last check
      moves backwards. */
  lemma PollMonotoneOnNewestFirstFeeds(feeds: seq<Record>, fetch: Fetch)
    requires forall i :: 0 <= i < |feeds| && fetch(feeds[i].data.url).Some? ==>
      NewestFirst(fetch(feeds[i].data.url).value.entries)
    ensures var after := PolledFeeds(feeds, fetch);
      |after| == |feeds| &&
      forall i :: 0 <= i < |feeds| ==> after[i].data.lastCheck >= feeds[i].data.lastCheck
  {
    var after := PolledFeeds(feeds, fetch);
    forall i | 0 <= i < |feeds| ensures after[i].data.lastCheck >= feeds[i].data.lastCheck {
      PollLastCheck(feeds, fetch, i);
      var f := fetch(feeds[i].data.url);
      if f.Some? && RecentOf(feeds[i], fetch) != [] {
        var e := RecentOf(feeds[i], fetch)[0];
        assert e in f.value.entries && Since(feeds[i].data.lastCheck, e);
        var j :| 0 <= j < |f.value.entries| && f.value.entries[j] == e;
        assert f.value.entries[0].published >= e.published;
      }
    }
  }

  /** Under newest-first feeds and an unchanged network, a cycle that
      returned leaves nothing for the next one to send: no entry is sent twice. */
  lemma {:induction false} SecondPollSendsNothing(feeds: seq<Record>, fetch: Fetch)
    requires forall i :: 0 <= i < |feeds| && fetch(feeds[i].data.url).Some? ==>
      NewestFirst(fetch(feeds[i].data.url).value.entries)
    requires PollOutcome(feeds, fetch).Returned?
    ensures Poll(PolledFeeds(feeds, fetch), fetch) == CycleResult(PolledFeeds(feeds, fetch), Returned([]))
  {
    var after := PolledFeeds(feeds, fetch);
    if feeds != [] {
      assert FirstRaise(feeds, fetch) == |feeds|;
      assert after == VisitAll(feeds, fetch);
      forall i | 0 <= i < |after|
        ensures !Raises(after[i], fetch) && RecentOf(after[i], fetch) == [] && Visit(after[i], fetch) == after[i]
      {
        assert after[i] == Visit(feeds[i], fetch);
        assert !Raises(feeds[i], fetch);
        NothingNewAfterVisit(feeds[i], fetch);
      }
      NothingCollected(after, fetch);
      PollWithNothingToDo(after, fetch);
    }
  }

  /** A registry in which no feed raises, changes or contributes an entry
      goes through a cycle unchanged, and the cycle sends nothing. */
  lemma PollWithNothingToDo(feeds: seq<Record>, fetch: Fetch)
    requires forall i :: 0 <= i < |feeds| ==> !Raises(feeds[i], fetch) && Visit(feeds[i], fetch) == feeds[i]
    requires CollectAll(feeds, fetch) == []
    ensures Poll(feeds, fetch) == CycleResult(feeds, Returned([]))
  {
    var k := FirstRaise(feeds, fetch);
    assert k == |feeds|;
    if feeds != [] {
      var room := feeds[|feeds| - 1].data.room;
      var sent := Address(SortByPublished(CollectAll(feeds, fetch)), room);
      assert sent == [] by {
        assert SortByPublished([]) == [];
      }
      assert VisitAll(feeds, fetch) == feeds by {
        var visited := VisitAll(feeds, fetch);
        forall i | 0 <= i < |feeds| ensures visited[i] == feeds[i] {
        }
      }
      assert Poll(feeds, fetch) == CycleResult(VisitAll(feeds, fetch), Returned(sent));
    }
  }

  /** After its visit a newest-first feed has nothing newer than its last check. */
  lemma NothingNewAfterVisit(r: Record, fetch: Fetch)
    requires fetch(r.data.url).Some? ==> NewestFirst(fetch(r.data.url).value.entries)
    ensures RecentOf(Visit(r, fetch), fetch) == []
  {
    var f := fetch(r.data.url);
    if f.Some? && RecentOf(r, fetch) != [] {
      var es := f.value.entries;
      forall e | e in es ensures !Since(es[0].published, e) {
        var j :| 0 <= j < |es| && es[j] == e;
      }
      RecentOfNothingNewer(es, es[0].published);
    }
  }

  lemma {:induction false} NothingCollected(feeds: seq<Record>, fetch: Fetch)
    requires forall i :: 0 <= i < |feeds| ==> RecentOf(feeds[i], fetch) == []
    ensures CollectAll(feeds, fetch) == []
  {
    if feeds != [] {
      NothingCollected(feeds[..|feeds| - 1], fetch);
    }
  }

  /** Last checks are not monotonic: a feed last checked at 10 that lists
      an entry at 5 and then one at 20 moves its last check back to 5. */
  lemma LastCheckCanMoveBackwards(r: Record, fetch: Fetch, older: Entry, newer: Entry)
    requires r.data.lastCheck == 10 && older.published == 5 && newer.published == 20
    requires fetch(r.data.url) == Some(Feed(r.title, [older, newer]))
    ensures PolledFeeds([r], fetch) == [Record(r.title, r.data.(lastCheck := 5))]
  {
    var f := Feed(r.title, [older, newer]);
    assert f.entries[1..] == [newer];
    assert Recent(f.entries, 10) == [newer];
    FetchedVisit(r, fetch, f);
    PollOfOneFeed(r, fetch);
  }

  /** A feed last checked at 100 lists entries published at 90, 105 and 115,
      in that order: 105 and 115 are sent, in that order, to the feed's
      room, and the last check becomes 90, the time of the first entry,
      not 115. */
  lemma OldestFirstFeedExample(r: Record, fetch: Fetch, e90: Entry, e105: Entry, e115: Entry)
    requires r.data.lastCheck == 100
    requires e90.published == 90 && e105.published == 105 && e115.published == 115
    requires fetch(r.data.url) == Some(Feed(r.title, [e90, e105, e115]))
    ensures Poll([r], fetch) == CycleResult(
      [Record(r.title, r.data.(lastCheck := 90))],
      Returned([Delivery(r.data.room, e105), Delivery(r.data.room, e115)]))
  {
    var f := Feed(r.title, [e90, e105, e115]);
    var sent := [Delivery(r.data.room, e105), Delivery(r.data.room, e115)];
    assert RecentOf(r, fetch) == [e105, e115] && Visit(r, fetch) == Record(r.title, r.data.(lastCheck := 90)) by {
      ExampleFilterAndSort(e90, e105, e115);
      FetchedVisit(r, fetch, f);
    }
    assert Address(SortByPublished([e105, e115]), r.data.room) == sent by {
      ExampleFilterAndSort(e90, e105, e115);
      AddressElementwise(sent, [e105, e115], r.data.room);
    }
    PollOfOneFeed(r, fetch);
  }

  /** A registry of one feed that does not raise. */
  lemma PollOfOneFeed(r: Record, fetch: Fetch)
    requires !Raises(r, fetch)
    ensures Poll([r], fetch) == CycleResult([Visit(r, fetch)], Returned(Address(SortByPublished(RecentOf(r, fetch)), r.data.room)))
  {
    assert [r][..0] == [];
    assert CollectAll([r], fetch) == RecentOf(r, fetch);
    assert FirstRaise([r], fetch) == 1;
    assert VisitAll([r], fetch) == [Visit(r, fetch)];
  }

  lemma ExampleFilterAndSort(e90: Entry, e105: Entry, e115: Entry)
    requires e90.published == 90 && e105.published == 105 && e115.published == 115
    ensures Recent([e90, e105, e115], 100) == [e105, e115]
    ensures SortByPublished([e105, e115]) == [e105, e115]
  {
    assert [e90, e105, e115][1..] == [e105, e115];
    assert [e105, e115][1..] == [e115];
    assert Recent([e115], 100) == [e115];
    assert SortByPublished([e115]) == [e115];
  }
}
