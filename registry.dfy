/** `Rss.FEEDS`, the class-level dictionary from a feed's self-reported title
    to its url, the time of its last check and the room that watches it.
    A Python dict iterates in insertion order, and that order matters to the
    poll cycle, so the dictionary is a sequence of records with distinct
    titles. Assigning to a present key keeps its position; assigning to a
    new key appends it; deleting a key closes the gap. */
module Registry {
  import opened Entries

  type Url = string

  /** `message.to` of the command that watched the feed; opaque here. */
  type Room = string

  /** The value stored under a title: `{url, last_check, room}`. */
  datatype FeedData = FeedData(url: Url, lastCheck: Time, room: Room)

  /** One key of the dictionary with its value. */
  datatype Record = Record(title: string, data: FeedData)

  /** Dictionary keys are unique. */
  predicate DistinctTitles(feeds: seq<Record>) {
    forall i, j :: 0 <= i < j < |feeds| ==> feeds[i].title != feeds[j].title
  }

  /** `name in FEEDS`. */
  predicate HasTitle(feeds: seq<Record>, name: string) {
    exists i :: 0 <= i < |feeds| && feeds[i].title == name
  }

  /** The slot of `name` in the dictionary, or `|feeds|` when it is absent. */
  function IndexOf(feeds: seq<Record>, name: string): (i: nat)
    ensures i <= |feeds|
    ensures i < |feeds| ==> feeds[i].title == name
    ensures forall j :: 0 <= j < i ==> feeds[j].title != name
  {
    if feeds == [] then 0
    else if feeds[0].title == name then 0
    else 1 + IndexOf(feeds[1..], name)
  }

  /** `FEEDS.get(name)`. */
  function Lookup(feeds: seq<Record>, name: string): (r: Option<FeedData>)
    requires DistinctTitles(feeds)
    ensures r.None? <==> !HasTitle(feeds, name)
    ensures forall i :: 0 <= i < |feeds| && feeds[i].title == name ==> r == Some(feeds[i].data)
  {
    var i := IndexOf(feeds, name);
    if i < |feeds| then Some(feeds[i].data) else None
  }

  /** `FEEDS[name] = data`: an existing key is overwritten in its slot, a
      new key is appended after every other. */
  function Put(feeds: seq<Record>, name: string, data: FeedData): (r: seq<Record>)
    requires DistinctTitles(feeds)
    ensures DistinctTitles(r)
    ensures |r| == if HasTitle(feeds, name) then |feeds| else |feeds| + 1
    ensures forall j :: 0 <= j < |feeds| ==> r[j] == if feeds[j].title == name then Record(name, data) else feeds[j]
    ensures !HasTitle(feeds, name) ==> r[|feeds|] == Record(name, data)
  {
    var i := IndexOf(feeds, name);
    if i < |feeds| then feeds[i := Record(name, data)] else feeds + [Record(name, data)]
  }

  /** `del FEEDS[name]` when `name in FEEDS`, and nothing otherwise: the
      other keys keep their values and their order. */
  function Without(feeds: seq<Record>, name: string): (r: seq<Record>)
    requires DistinctTitles(feeds)
    ensures DistinctTitles(r)
    ensures !HasTitle(r, name)
    ensures |r| == if HasTitle(feeds, name) then |feeds| - 1 else |feeds|
    ensures HasTitle(feeds, name) ==>
      forall j :: 0 <= j < |r| ==> r[j] == feeds[if j < IndexOf(feeds, name) then j else j + 1]
    ensures !HasTitle(feeds, name) ==> r == feeds
  {
    var i := IndexOf(feeds, name);
    if i < |feeds| then
      var r := feeds[..i] + feeds[i + 1..];
      assert forall k :: 0 <= k < |r| ==> r[k] == if k < i then feeds[k] else feeds[k + 1];
      r
    else feeds
  }

  /** Read through the dictionary, assignment stores under its key and
      touches no other key. */
  lemma {:induction false} LookupPut(feeds: seq<Record>, name: string, data: FeedData, other: string)
    requires DistinctTitles(feeds)
    ensures Lookup(Put(feeds, name, data), other) == if other == name then Some(data) else Lookup(feeds, other)
  {
    var r := Put(feeds, name, data);
    if other == name {
      if HasTitle(feeds, name) {
        var i :| 0 <= i < |feeds| && feeds[i].title == name;
        assert r[i] == Record(name, data);
      } else {
        assert r[|feeds|] == Record(name, data);
      }
    } else if HasTitle(feeds, other) {
      var j :| 0 <= j < |feeds| && feeds[j].title == other;
      assert r[j] == feeds[j];
    }
  }

  /** Read through the dictionary, deletion removes its key and touches no
      other key. */
  lemma {:induction false} LookupWithout(feeds: seq<Record>, name: string, other: string)
    requires DistinctTitles(feeds)
    ensures Lookup(Without(feeds, name), other) == if other == name then None else Lookup(feeds, other)
  {
    var r := Without(feeds, name);
    var i := IndexOf(feeds, name);
    if other != name && i < |feeds| {
      assert r == feeds[..i] + feeds[i + 1..];
      var j := IndexOf(feeds, other);
      if j < |feeds| {
        var k := if j < i then j else j - 1;
        assert r[k] == feeds[j];
      } else {
        forall k | 0 <= k < |r| ensures r[k].title != other {
          if k < i {
            assert r[k] == feeds[k];
          } else {
            assert r[k] == feeds[k + 1];
          }
        }
      }
    }
  }

  /** Watching a title and then ignoring it leaves the dictionary as
      ignoring it alone would: the assignment leaves no trace. */
  lemma {:induction false} WithoutUndoesPut(feeds: seq<Record>, name: string, data: FeedData)
    requires DistinctTitles(feeds)
    ensures Without(Put(feeds, name, data), name) == Without(feeds, name)
  {
    var i := IndexOf(feeds, name);
    var r := Put(feeds, name, data);
    var k := IndexOf(r, name);
    if i < |feeds| {
      assert r == feeds[i := Record(name, data)];
      assert r[i].title == name;
      assert k == i;
      assert r[..i] == feeds[..i];
      assert r[i + 1..] == feeds[i + 1..];
      assert Without(r, name) == r[..i] + r[i + 1..];
      assert Without(feeds, name) == feeds[..i] + feeds[i + 1..];
    } else {
      assert r == feeds + [Record(name, data)];
      assert r[|feeds|].title == name;
      assert k == |feeds|;
      assert r[..k] == feeds;
      assert Without(r, name) == r[..k] + r[k + 1..];
      assert Without(feeds, name) == feeds;
    }
  }

  /** A second assignment to the same title overwrites the first in its
      slot: a title holds one url and one room, those of the last watch. */
  lemma {:induction false} PutTwice(feeds: seq<Record>, name: string, first: FeedData, second: FeedData)
    requires DistinctTitles(feeds)
    ensures Put(Put(feeds, name, first), name, second) == Put(feeds, name, second)
  {
    var r := Put(feeds, name, first);
    var i := IndexOf(feeds, name);
    if i < |feeds| {
      assert r[i].title == name;
      assert IndexOf(r, name) == i;
    } else {
      assert r[|feeds|].title == name;
      assert IndexOf(r, name) == |feeds|;
    }
  }

  /** Deleting a title twice is deleting it once. */
  lemma WithoutIsIdempotent(feeds: seq<Record>, name: string)
    requires DistinctTitles(feeds)
    ensures Without(Without(feeds, name), name) == Without(feeds, name)
  {
  }
}
