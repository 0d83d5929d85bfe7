/** The `Rss` plugin class: the feed registry it keeps in `FEEDS` and the
    commands and poll cycle that read and change it. Fetching, date parsing,
    humanizing and the chat transport are parameters or results. */
module RssPlugin {
  import opened Entries
  import opened Registry
  import opened PollCycle

  /** The reply of `rss_ignore` for a title that is not watched. */
  const UnknownFeedReply: string := "/me whatchu talkin' bout?'"

  /** The line `rss_list` always ends with. */
  const NoFeedsLine: string := "/me You haven't added any feeds :("

  function WatchingReply(name: string, url: Url): string {
    "/me watching [" + name + "](" + url + ")"
  }

  function IgnoringReply(name: string, url: Url): string {
    "/me ignoring [" + name + "](" + url + ")"
  }

  /** One line of `rss_list`; `humanize` renders a time relative to now. */
  function ListLine(r: Record, humanize: Time -> string): string {
    "/me [" + r.title + "](" + r.data.url + ") " + humanize(r.data.lastCheck)
  }

  class Rss {
    /** `Rss.FEEDS` in insertion order. */
    var feeds: seq<Record>

    ghost predicate Valid()
      reads this
    {
      DistinctTitles(feeds)
    }

    constructor ()
      ensures Valid() && feeds == []
    {
      feeds := [];
    }

    /** `check_feeds`: one poll cycle over the registry, `fetch` standing for
        `read_feed`. The result is what the call did: the messages it sent, in
        order, or the exception that ended it. */
    method CheckFeeds(fetch: Fetch) returns (outcome: Outcome<seq<Delivery>>)
      requires Valid()
      modifies this
      ensures Valid()
      ensures feeds == Poll(old(feeds), fetch).feeds
      ensures outcome == Poll(old(feeds), fetch).outcome
    {
      if |feeds| == 0 {
        return Returned([]);
      }
      ghost var start := feeds;
      PollKeepsDistinctTitles(start, fetch);
      var responses, room, raised := VisitFeeds(fetch);
      if raised {
        return Raised(ValueError);
      }
      var results := SortByPublished(responses);
      var sent := Send(results, room);
      AddressElementwise(sent, results, room);
      PollReturns(start, fetch);
      outcome := Returned(sent);
    }

    /** The loop of `check_feeds` over `FEEDS`: it fetches each feed, skips
        it when the fetch failed, appends its recent entries to `responses`
        and moves its last check to the time of its first entry when it had
        any. It stops at the first feed whose unpacking raises. `room` is
        that of `data` once the loop is done, the last feed's. */
    method VisitFeeds(fetch: Fetch) returns (responses: seq<Entry>, room: Room, raised: bool)
      requires |feeds| > 0
      modifies this
      ensures var k := FirstRaise(old(feeds), fetch);
        raised == (k < |old(feeds)|) &&
        feeds == VisitAll(old(feeds)[..k], fetch) + old(feeds)[k..]
      ensures !raised ==>
        feeds == VisitAll(old(feeds), fetch) &&
        responses == CollectAll(old(feeds), fetch) &&
        room == old(feeds)[|old(feeds)| - 1].data.room
    {
      ghost var start := feeds;
      responses := [];
      var data := feeds[0].data;
      var i := 0;
      while i < |feeds|
        invariant i <= |feeds|
        invariant VisitedUpTo(feeds, start, fetch, i)
        invariant responses == CollectAll(start[..i], fetch)
        invariant i > 0 ==> data.room == start[i - 1].data.room
      {
        NotYetVisited(feeds, start, fetch, i);
        var title := feeds[i].title;
        data := feeds[i].data;
        var feed := fetch(data.url);
        CollectStep(start, fetch, i);
        if feed.Some? {
          var f := feed.value;
          FetchedVisit(start[i], fetch, f);
          var recent := Recent(f.entries, data.lastCheck);
          responses := responses + recent;
          if |f.entries| < 2 {
            // `newest, *__, oldest = feed['entries']` raises before the
            // last check is updated.
            VisitedPrefix(feeds, start, fetch, i);
            return responses, data.room, true;
          }
          if recent != [] {
            data := data.(lastCheck := f.entries[0].published);
            ghost var before := feeds;
            feeds := feeds[i := Record(title, data)];
            VisitStep(before, feeds, start, fetch, i);
          } else {
            VisitStep(feeds, feeds, start, fetch, i);
          }
        } else {
          FailedVisit(start[i], fetch);
          VisitStep(feeds, feeds, start, fetch, i);
        }
        i := i + 1;
      }
      VisitedPrefix(feeds, start, fetch, i);
      assert start[..i] == start && start[i..] == [];
      room, raised := data.room, false;
    }

    /** The final loop of `check_feeds`: one `send` per sorted entry, each to
        the same room. */
    method Send(results: seq<Entry>, room: Room) returns (sent: seq<Delivery>)
      ensures |sent| == |results|
      ensures forall j :: 0 <= j < |results| ==> sent[j] == Delivery(room, results[j])
    {
      sent := [];
      var j := 0;
      while j < |results|
        invariant 0 <= j <= |results|
        invariant |sent| == j
        invariant forall k :: 0 <= k < j ==> sent[k] == Delivery(room, results[k])
      {
        sent := sent + [Delivery(room, results[j])];
        j := j + 1;
      }
    }

    /** `rss_list`: one line per watched feed in dictionary order, then,
        because the `for ... else` has no `break`, always the "no feeds" line. */
    method RssList(humanize: Time -> string) returns (lines: seq<string>)
      ensures |lines| == |feeds| + 1
      ensures forall i :: 0 <= i < |feeds| ==> lines[i] == ListLine(feeds[i], humanize)
      ensures lines[|feeds|] == NoFeedsLine
    {
      lines := [];
      var i := 0;
      while i < |feeds|
        invariant 0 <= i <= |feeds|
        invariant |lines| == i
        invariant forall j :: 0 <= j < i ==> lines[j] == ListLine(feeds[j], humanize)
      {
        lines := lines + [ListLine(feeds[i], humanize)];
        i := i + 1;
      }
      lines := lines + [NoFeedsLine];
    }

    /** `rss_watch` once its retry loop has obtained `feed` from `url`: the
        feed is stored under its own title with the time of its first entry
        as last check and the asking room, replacing any feed of that title.
        A feed without entries raises `IndexError` before anything is stored. */
    method RssWatch(url: Url, feed: Feed, room: Room) returns (reply: Outcome<string>)
      requires Valid()
      modifies this
      ensures Valid()
      ensures feed.entries == [] ==> reply == Raised(IndexError) && feeds == old(feeds)
      ensures feed.entries != [] ==>
        reply == Returned(WatchingReply(feed.title, url)) &&
        feeds == Put(old(feeds), feed.title, FeedData(url, feed.entries[0].published, room))
    {
      if |feed.entries| == 0 {
        return Raised(IndexError);
      }
      var name := feed.title;
      feeds := Put(feeds, name, FeedData(url, feed.entries[0].published, room));
      reply := Returned(WatchingReply(name, url));
    }

    /** `rss_ignore`: deletes the title and names its url, or answers that
        no such feed is watched and changes nothing. */
    method RssIgnore(name: string) returns (reply: string)
      requires Valid()
      modifies this
      ensures Valid()
      ensures feeds == Without(old(feeds), name)
      ensures reply == match Lookup(old(feeds), name)
        case Some(data) => IgnoringReply(name, data.url)
        case None => UnknownFeedReply
    {
      var found := Lookup(feeds, name);
      if found.Some? {
        var data := found.value;
        feeds := Without(feeds, name);
        reply := IgnoringReply(name, data.url);
      } else {
        reply := UnknownFeedReply;
      }
    }
  }
}
