/** Feed documents as the plugin sees them once fetched and parsed, the
    "since" filter of a poll cycle and the stable sort by publication time
    applied to the collected entries before they are sent. */
module Entries {

  datatype Option<T> = None | Some(value: T)

  /** Publication times, already parsed into absolute instants. */
  type Time = int

  /** One item of a feed; `published` is what the feed reports. */
  datatype Entry = Entry(title: string, link: string, published: Time)

  /** A parsed feed: its self-reported title and its entries in document order. */
  datatype Feed = Feed(title: string, entries: seq<Entry>)

  /** The `since(t)` predicate of the poll cycle: strictly after `t`. */
  predicate Since(t: Time, e: Entry) {
    e.published > t
  }

  /** `filter(since(t), entries)`: the entries published strictly after `t`,
      in the order the feed lists them. */
  function Recent(entries: seq<Entry>, t: Time): (r: seq<Entry>)
    ensures |r| <= |entries|
    ensures forall e :: e in r ==> e in entries && Since(t, e)
  {
    if entries == [] then []
    else if Since(t, entries[0]) then [entries[0]] + Recent(entries[1..], t)
    else Recent(entries[1..], t)
  }

  /** Every entry published after `t` is kept: together with the ensures of
      `Recent`, membership in the result is exactly "in the feed and newer". */
  lemma {:induction false} RecentKeepsEveryNewer(entries: seq<Entry>, t: Time, e: Entry)
    requires e in entries && Since(t, e)
    ensures e in Recent(entries, t)
  {
    if entries[0] != e {
      RecentKeepsEveryNewer(entries[1..], t, e);
    }
  }

  /** The filter keeps feed order: filtering a concatenation filters each part. */
  lemma {:induction false} RecentOfConcat(a: seq<Entry>, b: seq<Entry>, t: Time)
    ensures Recent(a + b, t) == Recent(a, t) + Recent(b, t)
  {
    if a == [] {
      assert a + b == b;
    } else {
      assert (a + b)[1..] == a[1..] + b;
      RecentOfConcat(a[1..], b, t);
    }
  }

  /** Nothing is kept when nothing is newer than `t`. */
  lemma RecentOfNothingNewer(entries: seq<Entry>, t: Time)
    requires forall e :: e in entries ==> !Since(t, e)
    ensures Recent(entries, t) == []
  {
  }

  /** Nothing is filtered out exactly when every entry is newer than `t`. */
  lemma {:induction false} RecentIsAllIffAllNewer(entries: seq<Entry>, t: Time)
    ensures Recent(entries, t) == entries <==> forall i :: 0 <= i < |entries| ==> Since(t, entries[i])
  {
    if entries != [] {
      RecentIsAllIffAllNewer(entries[1..], t);
      if !Since(t, entries[0]) {
        assert |Recent(entries, t)| < |entries|;
      } else if Recent(entries, t) == entries {
        assert Recent(entries[1..], t) == entries[1..];
      }
    }
  }

  /** Non-increasing publication times: the conventional newest-first order. */
  predicate NewestFirst(entries: seq<Entry>) {
    forall i, j :: 0 <= i < j < |entries| ==> entries[i].published >= entries[j].published
  }

  /** Non-decreasing publication times: the order entries are sent in. */
  predicate OldestFirst(s: seq<Entry>) {
    forall i, j :: 0 <= i < j < |s| ==> s[i].published <= s[j].published
  }

  /** The entries of `s` published exactly at `t`, in the order of `s`. Two
      orderings of the same entries that agree on `At` for every `t` keep
      every tie in the same relative order. */
  function At(s: seq<Entry>, t: Time): seq<Entry> {
    if s == [] then []
    else (if s[0].published == t then [s[0]] else []) + At(s[1..], t)
  }

  /** Places `e` in front of the first entry of `s` that is not older than it. */
  function Insert(e: Entry, s: seq<Entry>): (r: seq<Entry>)
    requires OldestFirst(s)
    ensures OldestFirst(r)
    ensures multiset(r) == multiset(s) + multiset{e}
  {
    if s == [] || e.published <= s[0].published then
      ConsOldest(e, s);
      [e] + s
    else
      var tail := s[1..];
      assert s == [s[0]] + tail;
      assert OldestFirst(tail);
      var rest := Insert(e, tail);
      PrependOldest(s[0], e, tail, rest);
      [s[0]] + rest
  }

  /** An entry no later than every entry of an oldest-first sequence can be
      put in front of it. */
  lemma ConsOldest(x: Entry, r: seq<Entry>)
    requires OldestFirst(r)
    requires r == [] || x.published <= r[0].published
    ensures OldestFirst([x] + r)
  {
    var c := [x] + r;
    forall i, j | 0 <= i < j < |c| ensures c[i].published <= c[j].published {
      if i > 0 {
        assert c[i] == r[i - 1] && c[j] == r[j - 1];
      } else {
        assert c[j] == r[j - 1];
        assert r[0].published <= r[j - 1].published;
      }
    }
  }

  /** An entry no later than `e` and than every entry of `s` can be put in
      front of any oldest-first rearrangement of them. */
  lemma PrependOldest(first: Entry, e: Entry, s: seq<Entry>, r: seq<Entry>)
    requires e.published >= first.published
    requires forall i :: 0 <= i < |s| ==> s[i].published >= first.published
    requires multiset(r) == multiset(s) + multiset{e}
    requires OldestFirst(r)
    ensures OldestFirst([first] + r)
  {
    if r != [] {
      assert r[0] in multiset(r);
      if r[0] != e {
        assert r[0] in multiset(s);
        assert r[0] in s;
      }
    }
    ConsOldest(first, r);
  }

  /** Python's `sorted(..., key=published)`: a stable sort, here an insertion
      sort that inserts each entry in front of the later ones it ties with. */
  function SortByPublished(s: seq<Entry>): (r: seq<Entry>)
    ensures OldestFirst(r)
    ensures multiset(r) == multiset(s)
  {
    if s == [] then []
    else
      assert s == [s[0]] + s[1..];
      Insert(s[0], SortByPublished(s[1..]))
  }

  /** `At` of a sequence with a given first entry. */
  lemma AtCons(x: Entry, s: seq<Entry>, t: Time)
    ensures At([x] + s, t) == (if x.published == t then [x] else []) + At(s, t)
  {
    assert ([x] + s)[1..] == s;
  }

  /** Inserting `e` puts it ahead of every entry of `s` that ties with it. */
  lemma {:induction false} InsertAt(e: Entry, s: seq<Entry>, t: Time)
    requires OldestFirst(s)
    ensures At(Insert(e, s), t) == (if e.published == t then [e] else []) + At(s, t)
  {
    if s == [] || e.published <= s[0].published {
      AtCons(e, s, t);
    } else {
      var tail := s[1..];
      assert OldestFirst(tail);
      var rest := Insert(e, tail);
      assert Insert(e, s) == [s[0]] + rest;
      AtCons(s[0], rest, t);
      InsertAt(e, tail, t);
      assert s == [s[0]] + tail;
      AtCons(s[0], tail, t);
      var x := At(tail, t);
      if e.published == t {
        // `s[0]` is older than `e`, so it does not tie with `t`.
        assert At(rest, t) == [e] + x;
        assert At(s, t) == [] + x == x;
        assert At(Insert(e, s), t) == [] + ([e] + x) == [e] + x;
      } else {
        assert At(rest, t) == [] + x == x;
      }
    }
  }

  /** The sort is stable: entries with equal publication times leave it in
      the order they were collected. */
  lemma {:induction false} SortIsStable(s: seq<Entry>, t: Time)
    ensures At(SortByPublished(s), t) == At(s, t)
  {
    if s != [] {
      SortIsStable(s[1..], t);
      InsertAt(s[0], SortByPublished(s[1..]), t);
    }
  }
}
