/** The calendar panel of the frontend (`frontend/src/components/Calendar.jsx`): events
    grouped under a day label, the labels ordered "Today", "Tomorrow", then the rest,
    and each event card styled by where now falls relative to the event.

    Labels are abstract: `dayOf` stands for `getDateLabel`, which depends on the
    browser's clock and locale, applied to an event's start. Instants are integers.
 */
module CalendarView {
  import GoogleCalendar

  type Event = GoogleCalendar.Event

  const TodayLabel: string := "Today"
  const TomorrowLabel: string := "Tomorrow"

  // ---------------------------------------------------------------------------
  // Grouping

  /** The events with label `l`, in their order. */
  function WithLabel(events: seq<Event>, dayOf: int -> string, l: string): (r: seq<Event>)
    ensures |r| <= |events|
    ensures forall k :: 0 <= k < |r| ==> dayOf(r[k].start) == l
  {
    if |events| == 0 then []
    else
      var e := events[|events| - 1];
      WithLabel(events[..|events| - 1], dayOf, l) + (if dayOf(e.start) == l then [e] else [])
  }

  /** An event is in the group of `l` exactly when it is one of the events and its label is `l`. */
  lemma {:induction false} WithLabelMembers(events: seq<Event>, dayOf: int -> string, l: string, e: Event)
    ensures e in WithLabel(events, dayOf, l) <==> e in events && dayOf(e.start) == l
    decreases |events|
  {
    if |events| > 0 {
      var init := events[..|events| - 1];
      var last := events[|events| - 1];
      assert events == init + [last];
      WithLabelMembers(init, dayOf, l, e);
      var w := WithLabel(init, dayOf, l);
      if e in WithLabel(events, dayOf, l) {
        var k :| 0 <= k < |WithLabel(events, dayOf, l)| && WithLabel(events, dayOf, l)[k] == e;
        assert dayOf(e.start) == l;
      }
    }
  }

  /** Each label once, in the order of first appearance. */
  function FirstAppearances(labels: seq<string>): (r: seq<string>)
    ensures forall l :: l in r <==> l in labels
    ensures forall i, j :: 0 <= i < j < |r| ==> r[i] != r[j]
  {
    if |labels| == 0 then []
    else
      var init := labels[..|labels| - 1];
      var l := labels[|labels| - 1];
      assert labels == init + [l];
      var d := FirstAppearances(init);
      if l in d then d else d + [l]
  }

  /** The label of each event, in order. */
  function LabelsOf(events: seq<Event>, dayOf: int -> string): (r: seq<string>)
    ensures |r| == |events|
    ensures forall k :: 0 <= k < |events| ==> r[k] == dayOf(events[k].start)
  {
    if |events| == 0 then [] else LabelsOf(events[..|events| - 1], dayOf) + [dayOf(events[|events| - 1].start)]
  }

  /** A label no event carries has an empty group. */
  lemma {:induction false} UnusedLabel(events: seq<Event>, dayOf: int -> string, l: string)
    requires l !in LabelsOf(events, dayOf)
    ensures WithLabel(events, dayOf, l) == []
  {
    var w := WithLabel(events, dayOf, l);
    if |w| > 0 {
      WithLabelMembers(events, dayOf, l, w[0]);
      assert false;
    }
  }

  /** The object the `reduce` builds: its keys in insertion order, and the group of
      each key. */
  datatype Grouping = Grouping(labels: seq<string>, groups: map<string, seq<Event>>)

  /** `events.reduce(...)`: append each event to the group of its label, opening the
      group the first time the label is seen. */
  function Group(events: seq<Event>, dayOf: int -> string): (r: Grouping)
    ensures r.labels == FirstAppearances(LabelsOf(events, dayOf))
    ensures forall l :: l in r.groups <==> l in r.labels
    ensures forall l :: l in r.groups ==> r.groups[l] == WithLabel(events, dayOf, l)
  {
    if |events| == 0 then Grouping([], map[])
    else
      var init := events[..|events| - 1];
      var e := events[|events| - 1];
      var l := dayOf(e.start);
      var g := Group(init, dayOf);
      assert LabelsOf(events, dayOf) == LabelsOf(init, dayOf) + [l];
      if l in g.groups then Grouping(g.labels, g.groups[l := g.groups[l] + [e]])
      else
        UnusedLabel(init, dayOf, l);
        Grouping(g.labels + [l], g.groups[l := [e]])
  }

  /** Every event lands in the group of its own label and in no other. */
  lemma {:induction false} EveryEventInOneGroup(events: seq<Event>, dayOf: int -> string, e: Event, l: string)
    requires e in events
    ensures var g := Group(events, dayOf);
            && dayOf(e.start) in g.groups
            && e in g.groups[dayOf(e.start)]
            && (l in g.groups && l != dayOf(e.start) ==> e !in g.groups[l])
  {
    var k :| 0 <= k < |events| && events[k] == e;
    assert LabelsOf(events, dayOf)[k] == dayOf(e.start);
    WithLabelMembers(events, dayOf, dayOf(e.start), e);
    WithLabelMembers(events, dayOf, l, e);
  }

  /** Within a group, events keep their relative order: two events with the same label
      appear in their group in the order they came. */
  lemma {:induction false} GroupKeepsOrder(events: seq<Event>, dayOf: int -> string, l: string, i: nat, j: nat)
    requires i < j < |events|
    requires dayOf(events[i].start) == l && dayOf(events[j].start) == l
    ensures exists a, b :: 0 <= a < b < |WithLabel(events, dayOf, l)|
                           && WithLabel(events, dayOf, l)[a] == events[i] && WithLabel(events, dayOf, l)[b] == events[j]
    decreases |events|
  {
    var init := events[..|events| - 1];
    var w := WithLabel(init, dayOf, l);
    var all := WithLabel(events, dayOf, l);
    assert all[..|w|] == w;
    if j == |events| - 1 {
      assert all == w + [events[j]];
      assert events[i] == init[i];
      WithLabelMembers(init, dayOf, l, events[i]);
      var a :| 0 <= a < |w| && w[a] == events[i];
      assert all[a] == events[i] && all[|w|] == events[j];
    } else {
      assert events[i] == init[i] && events[j] == init[j];
      GroupKeepsOrder(init, dayOf, l, i, j);
      var a, b :| 0 <= a < b < |w| && w[a] == events[i] && w[b] == events[j];
      assert all[a] == events[i] && all[b] == events[j];
    }
  }

  // ---------------------------------------------------------------------------
  // Ordering the labels

  /** The comparator passed to `sort`: on distinct labels it orders by rank, "Today"
      first, then "Tomorrow", and leaves every other pair where it is. */
  function Compare(a: string, b: string): (r: int)
    ensures -1 <= r <= 1
    ensures a != b ==> (r < 0 <==> Rank(a) < Rank(b))
    ensures a != b ==> (r > 0 <==> Rank(a) > Rank(b))
  {
    if a == TodayLabel then -1
    else if b == TodayLabel then 1
    else if a == TomorrowLabel then -1
    else if b == TomorrowLabel then 1
    else 0
  }

  /** The rank the comparator orders by: "Today", then "Tomorrow", then everything else. */
  function Rank(l: string): nat {
    if l == TodayLabel then 0 else if l == TomorrowLabel then 1 else 2
  }

  /** Put `x` in front of the first label it does not sort after. */
  function Insert(x: string, sorted: seq<string>): (r: seq<string>)
    ensures |r| == |sorted| + 1
    ensures forall l :: l in r <==> l == x || l in sorted
  {
    if |sorted| == 0 || Compare(x, sorted[0]) <= 0 then [x] + sorted
    else [sorted[0]] + Insert(x, sorted[1..])
  }

  /** The stable sort of the labels under the comparator (insertion sort). */
  function SortLabels(labels: seq<string>): (r: seq<string>)
    ensures |r| == |labels|
    ensures forall l :: l in r <==> l in labels
  {
    if |labels| == 0 then [] else Insert(labels[0], SortLabels(labels[1..]))
  }

  /** The labels of one rank, in their order. */
  function OfRank(labels: seq<string>, rank: nat): (r: seq<string>)
    ensures forall l :: l in r <==> l in labels && Rank(l) == rank
  {
    if |labels| == 0 then []
    else (if Rank(labels[0]) == rank then [labels[0]] else []) + OfRank(labels[1..], rank)
  }

  /** The expected order: every "Today", every "Tomorrow", then the other labels in
      their original order. */
  function Bucketed(labels: seq<string>): seq<string> {
    OfRank(labels, 0) + OfRank(labels, 1) + OfRank(labels, 2)
  }

  /** Filtering a list with a label in front filters the label, then the rest. */
  lemma {:induction false} OfRankCons(x: string, labels: seq<string>, rank: nat)
    ensures OfRank([x] + labels, rank) == (if Rank(x) == rank then [x] else []) + OfRank(labels, rank)
  {
    assert ([x] + labels)[0] == x && ([x] + labels)[1..] == labels;
  }

  lemma {:induction false} InsertIntoBucketed(x: string, labels: seq<string>)
    ensures Insert(x, Bucketed(labels)) == Bucketed([x] + labels)
  {
    var t0, t1, t2 := OfRank(labels, 0), OfRank(labels, 1), OfRank(labels, 2);
    OfRankCons(x, labels, 0);
    OfRankCons(x, labels, 1);
    OfRankCons(x, labels, 2);
    InsertByRank(x, t0, t1, t2);
  }

  /** Inserting into three buckets of ranks 0, 1 and 2 puts `x` in front of its own bucket. */
  lemma {:induction false} InsertByRank(x: string, t0: seq<string>, t1: seq<string>, t2: seq<string>)
    requires forall l :: l in t0 ==> Rank(l) == 0
    requires forall l :: l in t1 ==> Rank(l) == 1
    requires forall l :: l in t2 ==> Rank(l) == 2
    ensures Insert(x, t0 + t1 + t2)
         == (if Rank(x) == 0 then [x] else []) + t0 + ((if Rank(x) == 1 then [x] else []) + t1)
            + ((if Rank(x) == 2 then [x] else []) + t2)
  {
    if Rank(x) == 0 {
      assert |t0 + t1 + t2| == 0 || Compare(x, (t0 + t1 + t2)[0]) < 0;
      assert [x] + (t0 + t1 + t2) == [x] + t0 + ([] + t1) + ([] + t2);
    } else if Rank(x) == 1 {
      assert t0 + t1 + t2 == t0 + (t1 + t2);
      InsertAfterRank(x, t0, t1 + t2);
      assert t0 + ([x] + (t1 + t2)) == [] + t0 + ([x] + t1) + ([] + t2);
    } else {
      InsertAfterRank(x, t0 + t1, t2);
      assert (t0 + t1) + ([x] + t2) == [] + t0 + ([] + t1) + ([x] + t2);
    }
  }

  /** `x` passes over every label of a lower rank and stops at the first of its own
      rank or higher. */
  lemma {:induction false} InsertAfterRank(x: string, lower: seq<string>, rest: seq<string>)
    requires Rank(x) > 0
    requires forall l :: l in lower ==> Rank(l) < Rank(x)
    requires forall l :: l in rest ==> Rank(l) >= Rank(x)
    ensures Insert(x, lower + rest) == lower + ([x] + rest)
    decreases |lower|
  {
    if |lower| == 0 {
      assert lower + rest == rest;
      if |rest| > 0 {
        assert rest[0] in rest;
      }
    } else {
      assert (lower + rest)[0] == lower[0] && (lower + rest)[1..] == lower[1..] + rest;
      assert lower[0] in lower;
      assert forall l :: l in lower[1..] ==> l in lower;
      InsertAfterRank(x, lower[1..], rest);
      assert lower == [lower[0]] + lower[1..];
    }
  }

  /** The stable sort with this comparator gives exactly the bucketed order. */
  lemma {:induction false} SortIsBucketed(labels: seq<string>)
    ensures SortLabels(labels) == Bucketed(labels)
    decreases |labels|
  {
    if |labels| > 0 {
      SortIsBucketed(labels[1..]);
      InsertIntoBucketed(labels[0], labels[1..]);
      assert [labels[0]] + labels[1..] == labels;
    } else {
      assert Bucketed(labels) == [];
    }
  }

  /** The rank of a position of the bucketed order, read off the bucket it falls in. */
  lemma {:induction false} BucketRank(labels: seq<string>, k: nat)
    requires k < |Bucketed(labels)|
    ensures var n0, n1 := |OfRank(labels, 0)|, |OfRank(labels, 1)|;
            Rank(Bucketed(labels)[k]) == if k < n0 then 0 else if k < n0 + n1 then 1 else 2
  {
    var t0, t1, t2 := OfRank(labels, 0), OfRank(labels, 1), OfRank(labels, 2);
    var s := Bucketed(labels);
    if k < |t0| {
      assert s[k] == t0[k] && t0[k] in t0;
    } else if k < |t0| + |t1| {
      assert s[k] == t1[k - |t0|] && t1[k - |t0|] in t1;
    } else {
      assert s[k] == t2[k - |t0| - |t1|] && t2[k - |t0| - |t1|] in t2;
    }
  }

  /** The sorted labels never go down in rank. */
  lemma {:induction false} SortedByRank(labels: seq<string>, i: nat, j: nat)
    requires i <= j < |SortLabels(labels)|
    ensures Rank(SortLabels(labels)[i]) <= Rank(SortLabels(labels)[j])
  {
    SortIsBucketed(labels);
    BucketRank(labels, i);
    BucketRank(labels, j);
  }

  /** "Today" comes first whenever it is a label, and "Tomorrow" precedes every label
      other than "Today". */
  lemma {:induction false} TodayThenTomorrow(labels: seq<string>, i: nat, j: nat)
    requires i < |SortLabels(labels)| && j < |SortLabels(labels)|
    ensures var s := SortLabels(labels);
            && (TodayLabel in labels ==> s[0] == TodayLabel)
            && (s[j] == TomorrowLabel && s[i] != TodayLabel && s[i] != TomorrowLabel ==> j < i)
  {
    var s := SortLabels(labels);
    if TodayLabel in labels {
      var k :| 0 <= k < |s| && s[k] == TodayLabel;
      SortedByRank(labels, 0, k);
    }
    if i <= j {
      SortedByRank(labels, i, j);
    }
  }

  /** The labels the panel shows, in order: the reduce's keys under the sort. */
  function SortedLabels(events: seq<Event>, dayOf: int -> string): (r: seq<string>)
    ensures forall l :: l in r <==> exists k :: 0 <= k < |events| && dayOf(events[k].start) == l
  {
    var labels := Group(events, dayOf).labels;
    forall l | l in labels ensures exists k :: 0 <= k < |events| && dayOf(events[k].start) == l {
      var k :| 0 <= k < |LabelsOf(events, dayOf)| && LabelsOf(events, dayOf)[k] == l;
    }
    forall k | 0 <= k < |events| ensures dayOf(events[k].start) in labels {
      assert LabelsOf(events, dayOf)[k] == dayOf(events[k].start);
    }
    SortLabels(labels)
  }

  /** The panel lists each label once: "Today", then "Tomorrow", then the other labels
      in the order their first event appears. */
  lemma {:induction false} PanelOrder(events: seq<Event>, dayOf: int -> string)
    ensures SortedLabels(events, dayOf) == Bucketed(FirstAppearances(LabelsOf(events, dayOf)))
  {
    SortIsBucketed(Group(events, dayOf).labels);
  }

  // ---------------------------------------------------------------------------
  // Event cards

  /** `isPast`: a timed event that has started. */
  predicate IsPast(e: Event, now: int) {
    e.start < now && !e.allDay
  }

  /** `isHappeningNow`: a timed event that has started and not yet ended. */
  predicate IsHappeningNow(e: Event, now: int) {
    !e.allDay && e.start <= now && now < e.end
  }

  datatype CardStyle = Live | Faded | Plain

  /** The card's class: highlighted while happening, faded once past, plain otherwise. */
  function Style(e: Event, now: int): (r: CardStyle)
    ensures r == Live <==> IsHappeningNow(e, now)
    ensures r == Faded <==> IsPast(e, now) && !IsHappeningNow(e, now)
  {
    if IsHappeningNow(e, now) then Live else if IsPast(e, now) then Faded else Plain
  }

  /** An all-day event is never past nor happening now, so its card is always plain. */
  lemma {:induction false} AllDayIsPlain(e: Event, now: int)
    requires e.allDay
    ensures !IsPast(e, now) && !IsHappeningNow(e, now) && Style(e, now) == Plain
  {
  }

  /** A timed event's card is plain before it starts, highlighted from its start until
      its end, and faded from its end on. */
  lemma {:induction false} TimedCardLifecycle(e: Event, now: int)
    requires !e.allDay && e.start < e.end
    ensures now < e.start ==> Style(e, now) == Plain
    ensures e.start <= now < e.end ==> Style(e, now) == Live
    ensures e.end <= now ==> Style(e, now) == Faded
  {
  }

  /** The title is dimmed whenever the event is past, which includes the part of a
      happening event after its first instant: a highlighted card can carry a dimmed title. */
  predicate TitleDimmed(e: Event, now: int) {
    IsPast(e, now)
  }

  lemma {:induction false} LiveCardDimmedTitle(e: Event, now: int)
    requires !e.allDay && e.start < now < e.end
    ensures Style(e, now) == Live && TitleDimmed(e, now)
  {
  }
}
