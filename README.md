# err-rss feed registry and poll cycle, in Dafny

This project models the core of the `Rss` plugin for the Errbot chat bot. The
plugin keeps a class-level dictionary `FEEDS` from a feed's self-reported title
to `{url, last_check, room}`. Its chat commands change this dictionary:

- `rss_watch` stores a feed under its title.
- `rss_ignore` deletes a title.
- `rss_list` lists the titles.

A poller calls `check_feeds` every 20 seconds. Each call fetches every feed
and keeps the entries published after that feed's last check. When a feed
had such entries, its last check becomes the time of the feed's first entry.
The call then sends all kept entries, oldest first, to a chat room.

Files, one module each:

- `entries.dfy` (`Entries`): entries and feeds, the `since` filter, and
  Python's stable `sorted` by publication time.
- `registry.dfy` (`Registry`): the dictionary as a sequence of records in
  insertion order. It models assigning to a key, deleting one and reading one.
- `poll.dfy` (`PollCycle`): the function `Poll`, which describes one run of
  `check_feeds` as the registry it leaves (`PolledFeeds`) and what the call
  did (`PollOutcome`), and the lemmas about it.
- `rss.dfy` (`RssPlugin`): the class `Rss`, with the field `feeds` and methods
  for the poll cycle and the three commands. Each method is proved against the
  functions above.

Publication times are integers. The network is a parameter `fetch` of type
`Url -> Option<Feed>`: `None` means that `read_feed` failed. The model covers
two Python exceptions, because the code raises them on ordinary inputs:

- `IndexError`: `rss_watch` reads the first entry of a feed that has none.
- `ValueError`: `newest, *__, oldest = feed['entries']` in `check_feeds`
  fails on a feed with fewer than two entries.

Each such call returns `Raised(...)` instead of `Returned(...)`.

### Where the code differs from what the plugin is usually described as doing

The model follows the code in each of these cases:

- A poll moves `last_check` to the time of the feed's FIRST entry, not the
  latest one. So `last_check` is not monotonic: `LastCheckCanMoveBackwards`
  gives an input where it goes back. `OldestFirstFeedExample` shows the
  same thing on an oldest-first feed. If every fetched feed lists its
  entries newest first, no last check moves backwards
  (`PollMonotoneOnNewestFirstFeeds`). In that case the next cycle, with
  unchanged fetch results, sends nothing (`SecondPollSendsNothing`).
- Every message of a cycle goes to the room of the LAST feed in the
  dictionary, not to the room of the feed it came from. The `data` loop
  variable outlives the loop.
- A fetched feed with zero or one entry is not skipped. It raises
  `ValueError` and ends the whole cycle before anything is sent. The feeds
  visited before it keep their updated last checks.
- Each title has one url and one room. A second `rss_watch` of a title
  overwrites the first (`PutTwice`). `rss_ignore` deletes the title for
  every room. Two urls whose feeds report the same title share one entry.
- `rss_list` always ends with the "You haven't added any feeds" line, even
  when feeds are listed. The `for ... else` has no `break`.
- The poll interval is a fixed constant and never adapts. No credentials are
  matched per url.

## Model

| member | source | states |
|---|---|---|
| `Entries.Since` | rss.py:35-37 | the `since(t)` test: an entry passes when it was published strictly after `t` |
| `Entries.Recent` | rss.py:35-37 | every entry kept by `filter(since(t), ...)` is an entry of the feed published strictly after `t`; the result is no longer than the feed |
| `Entries.RecentKeepsEveryNewer` | rss.py:60-61 | every entry of the feed published strictly after the last check is kept, so membership in the recent entries is exactly "in the feed and newer" |
| `Entries.RecentOfConcat` | rss.py:60-61 | the filter keeps feed order: filtering a concatenation is the concatenation of the filtered parts |
| `Entries.RecentIsAllIffAllNewer` | rss.py:35-37 | the filter drops nothing if and only if every entry is newer than the last check |
| `Entries.SortByPublished` | rss.py:90 | the sorted responses are in non-decreasing publication order and are a permutation of the collected ones |
| `Entries.SortIsStable` | rss.py:90 | `sorted` is stable: for every time, the entries published at it keep their collection order |
| `Registry.HasTitle` | rss.py:129 | `name in FEEDS`: some slot holds the title |
| `Registry.IndexOf` | rss.py:129 | the slot found for a title holds that title, and no earlier slot does; `|feeds|` means the title is absent |
| `Registry.Lookup` | rss.py:129-130 | the lookup finds a value exactly when the title is a key, and then it is the value stored under it |
| `Registry.Put` | rss.py:118-122 | assigning to `FEEDS[name]` keeps keys unique; a present title keeps its slot with the new value, every other slot is unchanged, and a new title is appended last |
| `Registry.Without` | rss.py:131 | `del FEEDS[name]` keeps keys unique and leaves the title absent; when it was present its slot is closed and the other records keep their order, otherwise the dictionary is unchanged |
| `Registry.LookupPut` | rss.py:118-122 | after the assignment the title reads the new value and every other title reads what it read before |
| `Registry.LookupWithout` | rss.py:129-131 | after the deletion the title reads nothing and every other title reads what it read before |
| `Registry.WithoutUndoesPut` | rss.py:118-131 | watching a title and then ignoring it leaves the dictionary as ignoring it alone would |
| `Registry.PutTwice` | rss.py:117-122 | a second watch of a title overwrites the first in place: one url and one room per title |
| `Registry.WithoutIsIdempotent` | rss.py:129-134 | ignoring a title twice leaves the dictionary as ignoring it once |
| `PollCycle.RecentOf` | rss.py:51-61 | the recent entries of one feed: none when the fetch failed, otherwise the fetched entries newer than its last check, in feed order |
| `PollCycle.Raises` | rss.py:70 | the unpacking `newest, *__, oldest` fails: the fetch succeeded with fewer than two entries |
| `PollCycle.Visit` | rss.py:70-73 | a visited feed keeps its title, url and room; its last check changes only when the fetch succeeded, and then becomes the time of the feed's first entry; `PollLastCheck` adds that it must have had recent entries |
| `PollCycle.CollectAll` | rss.py:49-68 | `responses` after visiting feeds in order: the recent entries of each feed, appended feed by feed |
| `PollCycle.FirstRaise` | rss.py:70 | the position found is that of the first feed whose unpacking raises, or the length when none does |
| `PollCycle.Poll` | rss.py:39-93 | one call of `check_feeds`: the registry it leaves and what it did |
| `PollCycle.PolledFeeds` | rss.py:39-73 | the registry after the call has the same size; the feeds before the first one that raises are visited, the rest are untouched |
| `PollCycle.PollOutcome` | rss.py:39-93 | the call raises `ValueError` when some feed raises, returns at once on an empty registry, and otherwise sends the sorted collection to the last feed's room |
| `PollCycle.PollOfEmptyRegistry` | rss.py:39-41 | with no feeds the cycle changes nothing and sends nothing |
| `PollCycle.PollFeedsAt` | rss.py:50-73 | after a cycle a slot holds its visited feed when the cycle reached it, and is untouched otherwise; the size does not change |
| `PollCycle.PollKeepsKeysUrlsAndRooms` | rss.py:50-73 | a cycle keeps every title, url and room in its slot; only last checks change |
| `PollCycle.PollKeepsDistinctTitles` | rss.py:50-73 | a cycle keeps the dictionary's keys unique |
| `PollCycle.PollLastCheck` | rss.py:70-73 | a feed's last check changes only if the cycle reached it, its fetch succeeded and it had recent entries; it then becomes the first entry's time |
| `PollCycle.PollSkipsFailedFetch` | rss.py:51-54 | a feed whose fetch failed is left exactly as it was and contributes no entry |
| `PollCycle.PollRaisesIffShortFeed` | rss.py:67-70 | the cycle raises `ValueError` exactly when some fetched feed has fewer than two entries; that feed and all later ones are untouched and nothing is sent |
| `PollCycle.CollectedIffRecent` | rss.py:60-68 | an entry is collected exactly when some feed was fetched, lists it, and it is newer than that feed's last check |
| `PollCycle.Address` | rss.py:91-93 | every delivery of the final loop goes to the one room it is given |
| `PollCycle.SendsSortedCollection` | rss.py:90-93 | the entries sent are a stable, oldest-first permutation of the collected ones |
| `PollCycle.PollDelivers` | rss.py:90-93 | a cycle that returns sends a permutation of the collected entries, oldest first, ties in collection order, every one to the room of the last feed |
| `PollCycle.PollMonotoneOnNewestFirstFeeds` | rss.py:70-73 | when every fetched feed lists its entries newest first, no last check moves backwards |
| `PollCycle.SecondPollSendsNothing` | rss.py:60-73 | with newest-first feeds and the same fetch results, the next cycle changes nothing and sends nothing |
| `PollCycle.LastCheckCanMoveBackwards` | rss.py:70-73 | any feed last checked at 10 that lists an entry at 5 and then one at 20 ends the cycle with last check 5, everything else unchanged |
| `PollCycle.OldestFirstFeedExample` | rss.py:60-93 | any feed last checked at 100 with entries at 90, 105 and 115 sends the 105 and 115 entries in that order to its room and gets last check 90 |
| `PollCycle.PollOfOneFeed` | rss.py:50-93 | a cycle over one feed that does not raise visits it once and sends its recent entries, sorted, to its room |
| `RssPlugin.Rss.constructor` | rss.py:14 | the registry starts empty |
| `RssPlugin.Rss.CheckFeeds` | rss.py:32-93 | the call leaves the registry and returns the outcome that `Poll` describes, and keeps the keys unique |
| `RssPlugin.Rss.VisitFeeds` | rss.py:50-73 | the loop over `FEEDS` stops at the first feed that raises, with the feeds before it visited and the rest untouched; when none raises, all are visited, the responses are the collected recent entries and the room is the last feed's |
| `RssPlugin.Rss.Send` | rss.py:91-93 | one delivery per sorted entry, in order, each to the given room |
| `RssPlugin.Rss.RssList` | rss.py:96-103 | one line per feed in dictionary order, with title, url and humanized last check, followed always by the "no feeds" line |
| `RssPlugin.Rss.RssWatch` | rss.py:107-123 | stores the feed under its own title with url, first entry's time and room, replacing any entry of that title and replying with title and url; a feed without entries raises `IndexError` and changes nothing |
| `RssPlugin.Rss.RssIgnore` | rss.py:127-134 | deletes exactly the named title and replies with its url; an unknown title changes nothing and gets the fixed error reply |

## Left out

- `activate` (rss.py:16-21) is not modelled. It reads a credential pair from a file in the home directory, and starts Errbot's poller every `INTERVAL` seconds. Both are file I/O and framework timing.
- `read_feed` (rss.py:23-30) is the parameter `fetch`. The HTTP session, its credentials and `feedparser` are outside the model. `fetch` is a function, so two feeds with the same url get the same result within one cycle. `if not feed` is taken to reject only `None`: the parse result is never empty.
- `arrow` date parsing: times are integers. `humanize` is the parameter of `Rss.RssList`. The `entry['when']` annotation (rss.py:56-57) and the text of each message are dropped: a delivery carries its room and entry.
- Errors from malformed feeds are not modelled. An entry without `published`, or a date `arrow` cannot parse, would raise.
- Logging (rss.py:43-47, rss.py:53, rss.py:74-88) is not modelled.
- `self.send` (rss.py:93) is not modelled as a call. A cycle produces the list of `(room, entry)` deliveries in send order.
- The retry loop of `rss_watch` (rss.py:109-115) is left out. It loops until `read_feed` returns a feed, so `Rss.RssWatch` receives that feed, and the reply for a missing feed at rss.py:115 is unreachable.
- `Rss.CheckFeeds`: when a cycle raises, the model drops the entries already collected. They are local to the call and never sent.
- `FEEDS` is a class attribute shared by every `Rss` instance. The model makes it a field of one object.
- Concurrency is not modelled. The poller thread and the commands share `FEEDS` without a lock; each modelled call runs as one atomic step.
