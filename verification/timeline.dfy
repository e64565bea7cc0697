/** The timeline: events bucketed by their exact date string, each bucket
    ordered by title, buckets ordered by date. */
module Timeline {
  import opened Seqs
  import opened Text
  import opened Contracts

  /** One date bucket: the date key and the events filed under it. */
  datatype Group = Group(date: string, events: seq<Event>)

  function DateOfGroup(g: Group): string { g.date }

  function EventsOf(g: Group): seq<Event> { g.events }

  function OnDate(d: string): Event -> bool {
    (e: Event) => e.date == d
  }

  // ---------------------------------------------------------------------------
  // Grouping
  // ---------------------------------------------------------------------------

  /** One step of the grouping loop: append `e` to the bucket for its date,
      or open a new bucket at the end when there is none. */
  function AddToGroups(groups: seq<Group>, e: Event): (r: seq<Group>)
    ensures |r| == |groups| || |r| == |groups| + 1
  {
    if |groups| == 0 then [Group(e.date, [e])]
    else if groups[0].date == e.date then [Group(e.date, groups[0].events + [e])] + groups[1..]
    else [groups[0]] + AddToGroups(groups[1..], e)
  }

  /** A date with no bucket yet gets a new bucket at the end. */
  lemma {:induction false} AddToGroupsNew(groups: seq<Group>, e: Event)
    requires forall i :: 0 <= i < |groups| ==> groups[i].date != e.date
    ensures AddToGroups(groups, e) == groups + [Group(e.date, [e])]
    decreases |groups|
  {
    if |groups| > 0 {
      AddToGroupsNew(groups[1..], e);
      assert groups == [groups[0]] + groups[1..];
    }
  }

  /** A date with a bucket has `e` appended to its first bucket; nothing else changes. */
  lemma {:induction false} AddToGroupsExisting(groups: seq<Group>, e: Event, k: nat)
    requires k < |groups| && groups[k].date == e.date
    requires forall j :: 0 <= j < k ==> groups[j].date != e.date
    ensures AddToGroups(groups, e) == groups[k := Group(e.date, groups[k].events + [e])]
    decreases k
  {
    if k > 0 {
      AddToGroupsExisting(groups[1..], e, k - 1);
      assert groups[k := Group(e.date, groups[k].events + [e])] ==
             [groups[0]] + groups[1..][k - 1 := Group(e.date, groups[k].events + [e])];
    }
  }

  /** The buckets, in order of each date's first appearance. */
  function GroupEvents(events: seq<Event>): seq<Group>
    decreases |events|
  {
    if |events| == 0 then []
    else AddToGroups(GroupEvents(events[..|events| - 1]), events[|events| - 1])
  }

  /** Each bucket is non-empty and holds exactly the events of its date, in input order. */
  ghost predicate BucketsExact(groups: seq<Group>, events: seq<Event>) {
    forall i :: 0 <= i < |groups| ==>
      |groups[i].events| > 0 && groups[i].events == Filter(events, OnDate(groups[i].date))
  }

  /** Every event's date is a bucket key. */
  ghost predicate CoversDates(groups: seq<Group>, events: seq<Event>) {
    forall e :: e in events ==> exists i :: 0 <= i < |groups| && groups[i].date == e.date
  }

  /** `groups` partitions `events` by date: distinct keys, exact non-empty
      buckets, every date present, nothing dropped or duplicated. */
  ghost predicate IsGrouping(groups: seq<Group>, events: seq<Event>) {
    && DistinctBy(groups, DateOfGroup)
    && BucketsExact(groups, events)
    && CoversDates(groups, events)
    && multiset(FlatMap(groups, EventsOf)) == multiset(events)
  }

  /** The filter of a one-element sequence. */
  lemma FilterSingle(e: Event, d: string)
    ensures Filter([e], OnDate(d)) == if e.date == d then [e] else []
  {
    assert [e][1..] == [];
  }

  lemma FilterSnoc(events: seq<Event>, e: Event, d: string)
    ensures Filter(events + [e], OnDate(d)) == Filter(events, OnDate(d)) + (if e.date == d then [e] else [])
  {
    FilterAppend(events, [e], OnDate(d));
    FilterSingle(e, d);
  }

  lemma {:induction false} AddToGroupsFlatMap(groups: seq<Group>, e: Event)
    ensures multiset(FlatMap(AddToGroups(groups, e), EventsOf)) == multiset(FlatMap(groups, EventsOf)) + multiset{e}
    decreases |groups|
  {
    var r := AddToGroups(groups, e);
    if |groups| == 0 {
      assert r == [Group(e.date, [e])];
      assert FlatMap(r, EventsOf) == [e] + FlatMap(r[1..], EventsOf);
    } else if groups[0].date == e.date {
      assert r[0] == Group(e.date, groups[0].events + [e]) && r[1..] == groups[1..];
    } else {
      AddToGroupsFlatMap(groups[1..], e);
      assert r[0] == groups[0] && r[1..] == AddToGroups(groups[1..], e);
    }
  }

  lemma AddToGroupsDistinct(groups: seq<Group>, e: Event)
    requires DistinctBy(groups, DateOfGroup)
    ensures DistinctBy(AddToGroups(groups, e), DateOfGroup)
  {
    var r := AddToGroups(groups, e);
    if exists k :: 0 <= k < |groups| && groups[k].date == e.date {
      var k :| 0 <= k < |groups| && groups[k].date == e.date;
      assert forall j :: 0 <= j < k ==> groups[j].date != e.date;
      AddToGroupsExisting(groups, e, k);
    } else {
      AddToGroupsNew(groups, e);
    }
  }

  /** Appending to the existing bucket of `e`'s date keeps every bucket exact. */
  lemma AddToExistingBucket(groups: seq<Group>, events: seq<Event>, e: Event, k: nat)
    requires DistinctBy(groups, DateOfGroup)
    requires BucketsExact(groups, events)
    requires k < |groups| && groups[k].date == e.date
    ensures BucketsExact(AddToGroups(groups, e), events + [e])
  {
    var evs := events + [e];
    forall j | 0 <= j < |groups| && j != k
      ensures groups[j].date != e.date
    {
      assert DateOfGroup(groups[j]) != DateOfGroup(groups[k]);
    }
    var r := groups[k := Group(e.date, groups[k].events + [e])];
    AddToGroupsExisting(groups, e, k);
    forall i | 0 <= i < |r|
      ensures |r[i].events| > 0 && r[i].events == Filter(evs, OnDate(r[i].date))
    {
      FilterSnoc(events, e, r[i].date);
    }
  }

  /** Appending to an existing bucket keeps every date covered. */
  lemma AddToExistingCovers(groups: seq<Group>, events: seq<Event>, e: Event, k: nat)
    requires CoversDates(groups, events)
    requires k < |groups| && groups[k].date == e.date
    requires forall j :: 0 <= j < k ==> groups[j].date != e.date
    ensures CoversDates(AddToGroups(groups, e), events + [e])
  {
    var evs := events + [e];
    var r := groups[k := Group(e.date, groups[k].events + [e])];
    AddToGroupsExisting(groups, e, k);
    forall x | x in evs
      ensures exists i :: 0 <= i < |r| && r[i].date == x.date
    {
      if x == e {
        assert r[k].date == x.date;
      } else {
        assert x in events;
        var i :| 0 <= i < |groups| && groups[i].date == x.date;
        assert r[i].date == x.date;
      }
    }
  }

  /** Opening a bucket for a new date keeps every bucket exact. */
  lemma AddNewBucket(groups: seq<Group>, events: seq<Event>, e: Event)
    requires BucketsExact(groups, events)
    requires CoversDates(groups, events)
    requires forall i :: 0 <= i < |groups| ==> groups[i].date != e.date
    ensures BucketsExact(AddToGroups(groups, e), events + [e])
  {
    var evs := events + [e];
    var r := groups + [Group(e.date, [e])];
    AddToGroupsNew(groups, e);
    forall j | 0 <= j < |events|
      ensures !OnDate(e.date)(events[j])
    {
      assert events[j] in events;
    }
    FilterNone(events, OnDate(e.date));
    forall i | 0 <= i < |r|
      ensures |r[i].events| > 0 && r[i].events == Filter(evs, OnDate(r[i].date))
    {
      FilterSnoc(events, e, r[i].date);
      if i < |groups| {
        assert r[i] == groups[i];
      }
    }
  }

  /** Opening a bucket for a new date keeps every date covered. */
  lemma AddNewCovers(groups: seq<Group>, events: seq<Event>, e: Event)
    requires CoversDates(groups, events)
    requires forall i :: 0 <= i < |groups| ==> groups[i].date != e.date
    ensures CoversDates(AddToGroups(groups, e), events + [e])
  {
    var evs := events + [e];
    var r := groups + [Group(e.date, [e])];
    AddToGroupsNew(groups, e);
    forall x | x in evs
      ensures exists i :: 0 <= i < |r| && r[i].date == x.date
    {
      if x == e {
        assert r[|groups|].date == x.date;
      } else {
        assert x in events;
        var i :| 0 <= i < |groups| && groups[i].date == x.date;
        assert r[i].date == x.date;
      }
    }
  }

  /** The grouping loop never repeats a date key. */
  lemma {:induction false} GroupEventsDistinct(events: seq<Event>)
    ensures DistinctBy(GroupEvents(events), DateOfGroup)
    decreases |events|
  {
    if |events| > 0 {
      var init := events[..|events| - 1];
      GroupEventsDistinct(init);
      AddToGroupsDistinct(GroupEvents(init), events[|events| - 1]);
    }
  }

  /** The grouping loop keeps each bucket exact and every date covered. */
  lemma {:induction false} GroupEventsExact(events: seq<Event>)
    ensures BucketsExact(GroupEvents(events), events)
    ensures CoversDates(GroupEvents(events), events)
    decreases |events|
  {
    if |events| > 0 {
      var init, last := events[..|events| - 1], events[|events| - 1];
      assert events == init + [last];
      var gs := GroupEvents(init);
      GroupEventsExact(init);
      GroupEventsDistinct(init);
      if exists k :: 0 <= k < |gs| && gs[k].date == last.date {
        var k :| 0 <= k < |gs| && gs[k].date == last.date;
        AddToExistingBucket(gs, init, last, k);
        forall j | 0 <= j < k
          ensures gs[j].date != last.date
        {
          assert DateOfGroup(gs[j]) != DateOfGroup(gs[k]);
        }
        AddToExistingCovers(gs, init, last, k);
      } else {
        AddNewBucket(gs, init, last);
        AddNewCovers(gs, init, last);
      }
    }
  }

  /** The grouping loop neither drops nor duplicates an event. */
  lemma {:induction false} GroupEventsFlatMap(events: seq<Event>)
    ensures multiset(FlatMap(GroupEvents(events), EventsOf)) == multiset(events)
    decreases |events|
  {
    if |events| > 0 {
      var init, last := events[..|events| - 1], events[|events| - 1];
      assert events == init + [last];
      GroupEventsFlatMap(init);
      AddToGroupsFlatMap(GroupEvents(init), last);
    }
  }

  /** The grouping loop builds a partition of its input by date. */
  lemma GroupEventsIsGrouping(events: seq<Event>)
    ensures IsGrouping(GroupEvents(events), events)
  {
    GroupEventsDistinct(events);
    GroupEventsExact(events);
    GroupEventsFlatMap(events);
  }

  // ---------------------------------------------------------------------------
  // Ordering
  // ---------------------------------------------------------------------------

  function ByTitle(a: Event, b: Event): int { Compare(a.title, b.title) }

  function ByDate(g: Group, h: Group): int { Compare(g.date, h.date) }

  lemma ByTitleIsTotalPreorder()
    ensures TotalPreorder(ByTitle)
  {
    forall a, b
      ensures ByTitle(a, b) > 0 <==> ByTitle(b, a) < 0
    {
      CompareFlip(a.title, b.title);
    }
    forall a, b, c | ByTitle(a, b) <= 0 && ByTitle(b, c) <= 0
      ensures ByTitle(a, c) <= 0
    {
      CompareTransitive(a.title, b.title, c.title);
    }
  }

  lemma ByDateIsTotalPreorder()
    ensures TotalPreorder(ByDate)
  {
    forall g, h
      ensures ByDate(g, h) > 0 <==> ByDate(h, g) < 0
    {
      CompareFlip(g.date, h.date);
    }
    forall f, g, h | ByDate(f, g) <= 0 && ByDate(g, h) <= 0
      ensures ByDate(f, h) <= 0
    {
      CompareTransitive(f.date, g.date, h.date);
    }
  }

  /** A bucket with its events sorted by title. */
  function SortDay(g: Group): Group {
    Group(g.date, SortBy(g.events, ByTitle))
  }

  function SortEachDay(groups: seq<Group>): seq<Group> {
    seq(|groups|, i requires 0 <= i < |groups| => SortDay(groups[i]))
  }

  /** Each bucket sorted by title, then the buckets sorted by date key. */
  function SortDays(groups: seq<Group>): seq<Group> {
    SortBy(SortEachDay(groups), ByDate)
  }

  /** What the timeline renders. */
  function TimelineOf(events: seq<Event>): seq<Group> {
    SortDays(GroupEvents(events))
  }

  /** The date keys in display order (`Object.keys`). */
  function SortedDates(timeline: seq<Group>): seq<string> {
    seq(|timeline|, i requires 0 <= i < |timeline| => timeline[i].date)
  }

  /** The "No events found" view. */
  predicate ShowsEmpty(events: seq<Event>) {
    |SortedDates(TimelineOf(events))| == 0
  }

  lemma {:induction false} SortEachDayFlatMap(groups: seq<Group>)
    ensures multiset(FlatMap(SortEachDay(groups), EventsOf)) == multiset(FlatMap(groups, EventsOf))
    decreases |groups|
  {
    if |groups| > 0 {
      SortEachDayFlatMap(groups[1..]);
      assert SortEachDay(groups)[1..] == SortEachDay(groups[1..]);
    }
  }

  /** Every bucket on the timeline is some grouped bucket with its events sorted by title. */
  lemma TimelineBucketOrigin(events: seq<Event>, i: nat)
    requires i < |TimelineOf(events)|
    ensures exists j :: 0 <= j < |GroupEvents(events)| && TimelineOf(events)[i] == SortDay(GroupEvents(events)[j])
  {
    var sorted := TimelineOf(events);
    var each := SortEachDay(GroupEvents(events));
    assert sorted[i] in multiset(sorted);
    assert sorted[i] in each;
  }

  /** Date keys come out strictly ascending, hence distinct. */
  lemma TimelineDatesAscending(events: seq<Event>)
    ensures var t := TimelineOf(events);
            forall i, j :: 0 <= i < j < |t| ==> Compare(t[i].date, t[j].date) < 0
  {
    var gs := GroupEvents(events);
    var each := SortEachDay(gs);
    var t := TimelineOf(events);
    GroupEventsDistinct(events);
    assert DistinctBy(each, DateOfGroup);
    SortByDistinct(each, ByDate, DateOfGroup);
    ByDateIsTotalPreorder();
    SortBySorted(each, ByDate);
    forall i, j | 0 <= i < j < |t|
      ensures Compare(t[i].date, t[j].date) < 0
    {
      assert ByDate(t[i], t[j]) <= 0;
      CompareZeroIff(t[i].date, t[j].date);
    }
  }

  /** Every bucket on the timeline is sorted by title. */
  lemma TimelineBucketSorted(events: seq<Event>, i: nat)
    requires i < |TimelineOf(events)|
    ensures SortedBy(TimelineOf(events)[i].events, ByTitle)
  {
    var gs := GroupEvents(events);
    ByTitleIsTotalPreorder();
    TimelineBucketOrigin(events, i);
    var j :| 0 <= j < |gs| && TimelineOf(events)[i] == SortDay(gs[j]);
    SortBySorted(gs[j].events, ByTitle);
  }

  lemma TimelineBucket(events: seq<Event>, i: nat)
    requires i < |TimelineOf(events)|
    ensures var b := TimelineOf(events)[i];
            |b.events| > 0 &&
            b.events == SortBy(Filter(events, OnDate(b.date)), ByTitle) &&
            SortedBy(b.events, ByTitle)
  {
    var gs := GroupEvents(events);
    GroupEventsExact(events);
    TimelineBucketOrigin(events, i);
    var j :| 0 <= j < |gs| && TimelineOf(events)[i] == SortDay(gs[j]);
    assert |gs[j].events| > 0 && gs[j].events == Filter(events, OnDate(gs[j].date));
    TimelineBucketSorted(events, i);
  }

  /** Each bucket is non-empty and holds exactly the events of its date, first
      gathered in input order and then sorted by title (stably). */
  lemma TimelineBuckets(events: seq<Event>)
    ensures var t := TimelineOf(events);
            forall i :: 0 <= i < |t| ==>
              |t[i].events| > 0 &&
              t[i].events == SortBy(Filter(events, OnDate(t[i].date)), ByTitle) &&
              SortedBy(t[i].events, ByTitle)
  {
    forall i | 0 <= i < |TimelineOf(events)| {
      TimelineBucket(events, i);
    }
  }

  /** Every displayed date is the date of some event. */
  lemma TimelineKeySound(events: seq<Event>, i: nat)
    requires i < |TimelineOf(events)|
    ensures exists e :: e in events && e.date == TimelineOf(events)[i].date
  {
    var d := TimelineOf(events)[i].date;
    TimelineBucket(events, i);
    var b := TimelineOf(events)[i].events;
    var x := b[0];
    assert x in multiset(b);
    assert x in Filter(events, OnDate(d));
    FilterMembership(events, OnDate(d), x);
  }

  /** Every grouped bucket's date is displayed. */
  lemma TimelineHasDay(events: seq<Event>, j: nat)
    requires j < |GroupEvents(events)|
    ensures exists i :: 0 <= i < |TimelineOf(events)| && TimelineOf(events)[i].date == GroupEvents(events)[j].date
  {
    var each := SortEachDay(GroupEvents(events));
    var t := TimelineOf(events);
    var g := each[j];
    assert multiset(t) == multiset(each);
    assert g in multiset(each);
    assert g in t;
    var i :| 0 <= i < |t| && t[i] == g;
  }

  /** Every event's date is displayed. */
  lemma TimelineKeyComplete(events: seq<Event>, e: Event)
    requires e in events
    ensures exists i :: 0 <= i < |TimelineOf(events)| && TimelineOf(events)[i].date == e.date
  {
    var gs := GroupEvents(events);
    GroupEventsExact(events);
    var j :| 0 <= j < |gs| && gs[j].date == e.date;
    TimelineHasDay(events, j);
  }

  /** The keys are exactly the dates that occur in the input. */
  lemma TimelineKeys(events: seq<Event>, d: string)
    ensures (exists i :: 0 <= i < |TimelineOf(events)| && TimelineOf(events)[i].date == d) <==>
            (exists e :: e in events && e.date == d)
  {
    if exists i :: 0 <= i < |TimelineOf(events)| && TimelineOf(events)[i].date == d {
      var i :| 0 <= i < |TimelineOf(events)| && TimelineOf(events)[i].date == d;
      TimelineKeySound(events, i);
    }
    if exists e :: e in events && e.date == d {
      var e :| e in events && e.date == d;
      TimelineKeyComplete(events, e);
    }
  }

  /** Reading the timeline bucket by bucket yields every input event exactly as often as the input holds it. */
  lemma TimelineIsPermutation(events: seq<Event>)
    ensures multiset(FlatMap(TimelineOf(events), EventsOf)) == multiset(events)
  {
    var gs := GroupEvents(events);
    GroupEventsFlatMap(events);
    SortByFlatMap(SortEachDay(gs), ByDate, EventsOf);
    SortEachDayFlatMap(gs);
  }

  /** The empty view is shown exactly when there are no events. */
  lemma TimelineEmptyIff(events: seq<Event>)
    ensures ShowsEmpty(events) <==> |events| == 0
  {
    GroupEventsExact(events);
    if |events| > 0 {
      assert events[0] in events;
    }
  }
}
