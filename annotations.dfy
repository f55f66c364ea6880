/**
 * The annotation flattener of the MESA importer (`_xml_reader`): it turns the
 * scored-event tree of one polysomnography annotation file into a sleep-stage
 * timeline with one row per 30-second epoch.
 *
 * The XML parse itself is not modelled: a document is the already-parsed tree,
 * the root's children (`<ScoredEvents>` groups) each holding `<ScoredEvent>`
 * nodes whose positional children are decoded into the named fields of `Event`.
 */
module Annotations {
  import opened Seqs

  /** One `<ScoredEvent>`: child [0] is the event type, [1] the event concept
      (the stage label), [2] the start offset (never read), [3] the duration in
      seconds. */
  datatype Event = Event(typ: string, concept: string, start: string, duration: int)

  /** The children of the XML root, in document order, each a group of events. */
  type Document = seq<seq<Event>>

  /** The two parallel columns the reader builds: elapsed seconds and stage label. */
  datatype Timeline = Timeline(time: seq<int>, sleep: seq<string>) {

    /** Both columns of `this` followed by both columns of `other`. */
    function Then(other: Timeline): Timeline {
      Timeline(time + other.time, sleep + other.sleep)
    }
  }

  /** The only event type that contributes to the timeline (exact string equality). */
  const StageType: string := "Stages|Stages"

  /** Length of one scored epoch, in seconds. */
  const EpochLength: int := 30

  predicate IsStage(e: Event) {
    e.typ == StageType
  }

  /** The number of rows an event contributes: `int(duration / 30)` for a stage
      event (an empty `range` when that is zero or negative), nothing otherwise. */
  function EpochCount(e: Event): (n: nat)
    ensures IsStage(e) && e.duration >= 0 ==>
              n * EpochLength <= e.duration < (n + 1) * EpochLength
    ensures !IsStage(e) || e.duration < EpochLength ==> n == 0
  {
    if IsStage(e) && e.duration >= EpochLength then e.duration / EpochLength else 0
  }

  /** The number of rows a group of events contributes. */
  function Epochs(es: seq<Event>): nat {
    if es == [] then 0 else EpochCount(es[0]) + Epochs(es[1..])
  }

  /** The number of rows a whole document contributes. */
  function DocEpochs(doc: Document): nat {
    if doc == [] then 0 else Epochs(doc[0]) + DocEpochs(doc[1..])
  }

  /** `n` counter values starting at `j`, each 30 seconds after the previous one. */
  function Ticks(j: int, n: nat): (r: seq<int>)
    ensures |r| == n
    ensures forall k :: 0 <= k < |r| ==> r[k] == j + EpochLength * k
    decreases n
  {
    if n == 0 then [] else [j] + Ticks(j + EpochLength, n - 1)
  }

  /** The rows of one event when the counter stands at `j`. */
  function EventRows(e: Event, j: int): Timeline {
    Timeline(Ticks(j, EpochCount(e)), Repeat(e.concept, EpochCount(e)))
  }

  /** The rows of a group of events when the counter stands at `j`; the counter
      moves on by 30 seconds for every row emitted. */
  function FlattenEvents(es: seq<Event>, j: int): Timeline {
    if es == [] then Timeline([], [])
    else EventRows(es[0], j).Then(FlattenEvents(es[1..], j + EpochLength * EpochCount(es[0])))
  }

  /** The rows of a sequence of groups; the counter carries over from one group
      to the next. */
  function FlattenGroups(doc: Document, j: int): Timeline {
    if doc == [] then Timeline([], [])
    else FlattenEvents(doc[0], j).Then(FlattenGroups(doc[1..], j + EpochLength * Epochs(doc[0])))
  }

  /** The timeline of a document: the counter starts at 0. */
  function Flatten(doc: Document): Timeline {
    FlattenGroups(doc, 0)
  }

  // The same rows in accumulator form, the shape of the reader's loops: `acc`
  // holds the columns built so far and every row is appended to its end.

  /** Appends the `m` rows (j, concept), (j + 30, concept), ... to `acc`. */
  function EmitRows(acc: Timeline, j: int, concept: string, m: nat): Timeline
    decreases m
  {
    if m == 0 then acc
    else EmitRows(Timeline(acc.time + [j], acc.sleep + [concept]), j + EpochLength, concept, m - 1)
  }

  /** Appends the rows of a group of events to `acc`. */
  function EventsFrom(acc: Timeline, es: seq<Event>, j: int): Timeline
    decreases |es|
  {
    if es == [] then acc
    else EventsFrom(EmitRows(acc, j, es[0].concept, EpochCount(es[0])), es[1..], j + EpochLength * EpochCount(es[0]))
  }

  /** Appends the rows of a sequence of groups to `acc`. */
  function GroupsFrom(acc: Timeline, doc: Document, j: int): Timeline
    decreases |doc|
  {
    if doc == [] then acc
    else GroupsFrom(EventsFrom(acc, doc[0], j), doc[1..], j + EpochLength * Epochs(doc[0]))
  }

  /** `_xml_reader` after the parse: two nested loops over groups and events,
      and an inner loop appending one row per whole epoch while `j` counts up
      by 30 without ever being reset. */
  method XmlReader(doc: Document) returns (time: seq<int>, sleep: seq<string>)
    ensures Timeline(time, sleep) == Flatten(doc)
  {
    ghost var whole := GroupsFrom(Timeline([], []), doc, 0);
    time, sleep := [], [];
    var j := 0;
    var g := 0;
    while g < |doc|
      invariant 0 <= g <= |doc|
      invariant GroupsFrom(Timeline(time, sleep), doc[g..], j) == whole
    {
      var group := doc[g];
      ghost var next := j + EpochLength * Epochs(group);
      EnterGroup(Timeline(time, sleep), doc, g, j);
      var e := 0;
      while e < |group|
        invariant 0 <= e <= |group|
        invariant next == j + EpochLength * Epochs(group[e..])
        invariant GroupsFrom(EventsFrom(Timeline(time, sleep), group[e..], j), doc[g + 1..], next) == whole
      {
        var subelem := group[e];
        ghost var after := j + EpochLength * EpochCount(subelem);
        EnterEvent(Timeline(time, sleep), group, e, j);
        if subelem.typ == StageType {
          var number := subelem.duration;
          var n := if number >= EpochLength then number / EpochLength else 0;
          for i := 0 to n
            invariant j == after - EpochLength * (n - i)
            invariant GroupsFrom(EventsFrom(EmitRows(Timeline(time, sleep), j, subelem.concept, n - i),
                                            group[e + 1..], after), doc[g + 1..], next) == whole
          {
            time := time + [j];
            sleep := sleep + [subelem.concept];
            j := j + EpochLength;
          }
        }
        e := e + 1;
      }
      assert group[e..] == [];
      g := g + 1;
    }
    assert doc[g..] == [];
    FlattenAccumulates(doc);
  }

  /** Entering a group: the remaining groups are the current group followed by
      the groups after it. */
  lemma EnterGroup(acc: Timeline, doc: Document, g: nat, j: int)
    requires g < |doc|
    ensures GroupsFrom(acc, doc[g..], j)
              == GroupsFrom(EventsFrom(acc, doc[g][0..], j), doc[g + 1..], j + EpochLength * Epochs(doc[g][0..]))
  {
    assert doc[g..][0] == doc[g] && doc[g..][1..] == doc[g + 1..];
    assert doc[g][0..] == doc[g];
  }

  /** Entering an event: the remaining events are the rows of the current event
      followed by the events after it. */
  lemma EnterEvent(acc: Timeline, es: seq<Event>, e: nat, j: int)
    requires e < |es|
    ensures EpochCount(es[e]) + Epochs(es[e + 1..]) == Epochs(es[e..])
    ensures EventsFrom(acc, es[e..], j)
              == EventsFrom(EmitRows(acc, j, es[e].concept, EpochCount(es[e])), es[e + 1..], j + EpochLength * EpochCount(es[e]))
  {
    assert es[e..][0] == es[e] && es[e..][1..] == es[e + 1..];
  }

  /** Emitting rows onto an accumulator is appending the rows of one event. */
  lemma {:induction false} EmitRowsAppends(acc: Timeline, j: int, concept: string, m: nat)
    ensures EmitRows(acc, j, concept, m) == acc.Then(Timeline(Ticks(j, m), Repeat(concept, m)))
    decreases m
  {
    if m > 0 {
      var next := Timeline(acc.time + [j], acc.sleep + [concept]);
      EmitRowsAppends(next, j + EpochLength, concept, m - 1);
      ThenAssoc(acc, Timeline([j], [concept]), Timeline(Ticks(j + EpochLength, m - 1), Repeat(concept, m - 1)));
    }
  }

  /** The accumulator form of a group is appending its rows. */
  lemma {:induction false} EventsFromAppends(acc: Timeline, es: seq<Event>, j: int)
    ensures EventsFrom(acc, es, j) == acc.Then(FlattenEvents(es, j))
    decreases |es|
  {
    if es == [] {
      assert acc.Then(Timeline([], [])) == acc;
    } else {
      var n := EpochCount(es[0]);
      EmitRowsAppends(acc, j, es[0].concept, n);
      EventsFromAppends(EmitRows(acc, j, es[0].concept, n), es[1..], j + EpochLength * n);
      ThenAssoc(acc, EventRows(es[0], j), FlattenEvents(es[1..], j + EpochLength * n));
    }
  }

  /** The accumulator form of a document is appending its rows. */
  lemma {:induction false} GroupsFromAppends(acc: Timeline, doc: Document, j: int)
    ensures GroupsFrom(acc, doc, j) == acc.Then(FlattenGroups(doc, j))
    decreases |doc|
  {
    if doc == [] {
      assert acc.Then(Timeline([], [])) == acc;
    } else {
      var next := j + EpochLength * Epochs(doc[0]);
      EventsFromAppends(acc, doc[0], j);
      GroupsFromAppends(EventsFrom(acc, doc[0], j), doc[1..], next);
      ThenAssoc(acc, FlattenEvents(doc[0], j), FlattenGroups(doc[1..], next));
    }
  }

  /** Starting from empty columns, the accumulator form is the timeline. */
  lemma FlattenAccumulates(doc: Document)
    ensures GroupsFrom(Timeline([], []), doc, 0) == Flatten(doc)
  {
    GroupsFromAppends(Timeline([], []), doc, 0);
    assert Timeline([], []).Then(Flatten(doc)) == Flatten(doc);
  }

  // ---------------------------------------------------------------------------
  // Properties of the timeline
  // ---------------------------------------------------------------------------

  /** The rows of a group: aligned columns, one row per whole epoch of its stage
      events, and times counting up by 30 from `j`. */
  lemma {:induction false} FlattenEventsShape(es: seq<Event>, j: int)
    ensures |FlattenEvents(es, j).time| == |FlattenEvents(es, j).sleep| == Epochs(es)
    ensures FlattenEvents(es, j).time == Ticks(j, Epochs(es))
    decreases |es|
  {
    if es != [] {
      var n := EpochCount(es[0]);
      FlattenEventsShape(es[1..], j + EpochLength * n);
      TicksSplit(j, n, Epochs(es[1..]));
    }
  }

  /** The rows of a sequence of groups, with the counter carried across groups. */
  lemma {:induction false} FlattenGroupsShape(doc: Document, j: int)
    ensures |FlattenGroups(doc, j).time| == |FlattenGroups(doc, j).sleep| == DocEpochs(doc)
    ensures FlattenGroups(doc, j).time == Ticks(j, DocEpochs(doc))
    decreases |doc|
  {
    if doc != [] {
      var n := Epochs(doc[0]);
      FlattenEventsShape(doc[0], j);
      FlattenGroupsShape(doc[1..], j + EpochLength * n);
      TicksSplit(j, n, DocEpochs(doc[1..]));
    }
  }

  /** Counting `a` ticks and then `b` more is counting `a + b` ticks. */
  lemma TicksSplit(j: int, a: nat, b: nat)
    ensures Ticks(j, a) + Ticks(j + EpochLength * a, b) == Ticks(j, a + b)
  {
    var l, r := Ticks(j, a) + Ticks(j + EpochLength * a, b), Ticks(j, a + b);
    assert |l| == |r|;
    forall k | 0 <= k < |l| ensures l[k] == r[k] {
      if k >= a {
        assert l[k] == Ticks(j + EpochLength * a, b)[k - a];
      }
    }
  }

  /** The two columns always have the same length, which is the sum over all
      events of their whole-epoch counts, and the k-th time is 30 * k: the times
      run 0, 30, 60, ... with no gap and no repetition. */
  lemma FlattenShape(doc: Document)
    ensures |Flatten(doc).time| == |Flatten(doc).sleep| == DocEpochs(doc)
    ensures forall k :: 0 <= k < |Flatten(doc).time| ==> Flatten(doc).time[k] == EpochLength * k
  {
    FlattenGroupsShape(doc, 0);
  }

  /** Times are strictly increasing, so no two rows share a time. */
  lemma FlattenTimesIncreasing(doc: Document, a: nat, b: nat)
    requires a < b < |Flatten(doc).time|
    ensures Flatten(doc).time[a] < Flatten(doc).time[b]
  {
    FlattenShape(doc);
  }

  /** Joining timelines is associative. */
  lemma ThenAssoc(x: Timeline, y: Timeline, z: Timeline)
    ensures x.Then(y.Then(z)) == x.Then(y).Then(z)
  {
    assert x.time + (y.time + z.time) == (x.time + y.time) + z.time;
    assert x.sleep + (y.sleep + z.sleep) == (x.sleep + y.sleep) + z.sleep;
  }

  /** Row counts add up over a split group. */
  lemma {:induction false} EpochsAppend(a: seq<Event>, b: seq<Event>)
    ensures Epochs(a + b) == Epochs(a) + Epochs(b)
    decreases |a|
  {
    if a == [] {
      assert a + b == b;
    } else {
      assert (a + b)[0] == a[0] && (a + b)[1..] == a[1..] + b;
      EpochsAppend(a[1..], b);
    }
  }

  /** Row counts add up over a split document. */
  lemma {:induction false} DocEpochsAppend(d1: Document, d2: Document)
    ensures DocEpochs(d1 + d2) == DocEpochs(d1) + DocEpochs(d2)
    decreases |d1|
  {
    if d1 == [] {
      assert d1 + d2 == d2;
    } else {
      assert (d1 + d2)[0] == d1[0] && (d1 + d2)[1..] == d1[1..] + d2;
      DocEpochsAppend(d1[1..], d2);
    }
  }

  /** A group's rows split at any point of the group: the second part starts
      where the counter stood after the first. */
  lemma {:induction false} FlattenEventsAppend(a: seq<Event>, b: seq<Event>, j: int)
    ensures FlattenEvents(a + b, j) == FlattenEvents(a, j).Then(FlattenEvents(b, j + EpochLength * Epochs(a)))
    decreases |a|
  {
    if a == [] {
      assert a + b == b;
    } else {
      var j' := j + EpochLength * EpochCount(a[0]);
      assert (a + b)[0] == a[0] && (a + b)[1..] == a[1..] + b;
      FlattenEventsAppend(a[1..], b, j');
      ThenAssoc(EventRows(a[0], j), FlattenEvents(a[1..], j'), FlattenEvents(b, j' + EpochLength * Epochs(a[1..])));
    }
  }

  /** A document's rows split at any group boundary. */
  lemma {:induction false} FlattenGroupsAppend(d1: Document, d2: Document, j: int)
    ensures FlattenGroups(d1 + d2, j) == FlattenGroups(d1, j).Then(FlattenGroups(d2, j + EpochLength * DocEpochs(d1)))
    decreases |d1|
  {
    if d1 == [] {
      assert d1 + d2 == d2;
    } else {
      var j' := j + EpochLength * Epochs(d1[0]);
      assert (d1 + d2)[0] == d1[0] && (d1 + d2)[1..] == d1[1..] + d2;
      FlattenGroupsAppend(d1[1..], d2, j');
      ThenAssoc(FlattenEvents(d1[0], j), FlattenGroups(d1[1..], j'), FlattenGroups(d2, j' + EpochLength * DocEpochs(d1[1..])));
    }
  }

  /** All events of a document, in document order, with the grouping dropped. */
  function AllEvents(doc: Document): (es: seq<Event>)
    ensures Epochs(es) == DocEpochs(doc)
  {
    if doc == [] then []
    else
      EpochsAppend(doc[0], AllEvents(doc[1..]));
      doc[0] + AllEvents(doc[1..])
  }

  /** The counter is never reset between `<ScoredEvents>` groups: the timeline
      of a document equals that of one group holding all its events in order. */
  lemma {:induction false} GroupingIrrelevant(doc: Document, j: int)
    ensures FlattenGroups(doc, j) == FlattenEvents(AllEvents(doc), j)
    decreases |doc|
  {
    if doc != [] {
      var j' := j + EpochLength * Epochs(doc[0]);
      FlattenGroupsStep(doc, j);
      GroupingIrrelevant(doc[1..], j');
      FlattenEventsAppend(doc[0], AllEvents(doc[1..]), j);
    }
  }

  /** The stage labels of a sequence of events: each stage event's label
      repeated once per whole epoch of its duration, in order. */
  function StageLabels(es: seq<Event>): (labels: seq<string>)
    ensures |labels| == Epochs(es)
  {
    if es == [] then [] else Repeat(es[0].concept, EpochCount(es[0])) + StageLabels(es[1..])
  }

  /** The sleep column is the document-order concatenation of each stage event's
      label repeated `int(duration / 30)` times, wherever the counter started. */
  lemma {:induction false} FlattenEventsSleep(es: seq<Event>, j: int)
    ensures FlattenEvents(es, j).sleep == StageLabels(es)
    decreases |es|
  {
    if es != [] {
      FlattenEventsSleep(es[1..], j + EpochLength * EpochCount(es[0]));
    }
  }

  /** The sleep column of a document, stated over its events with the grouping dropped. */
  lemma FlattenSleep(doc: Document)
    ensures Flatten(doc).sleep == StageLabels(AllEvents(doc))
  {
    GroupingIrrelevant(doc, 0);
    FlattenEventsSleep(AllEvents(doc), 0);
  }

  /** Flattening two documents joined end to end: the label columns are joined
      end to end, and the second document's times are shifted by 30 seconds per
      row of the first. */
  lemma FlattenConcat(d1: Document, d2: Document)
    ensures Flatten(d1 + d2).sleep == Flatten(d1).sleep + Flatten(d2).sleep
    ensures Flatten(d1 + d2).time == Flatten(d1).time + Ticks(EpochLength * |Flatten(d1).time|, |Flatten(d2).time|)
  {
    var j := EpochLength * DocEpochs(d1);
    FlattenGroupsAppend(d1, d2, 0);
    FlattenGroupsShape(d1, 0);
    FlattenGroupsShape(d2, 0);
    FlattenGroupsShape(d2, j);
    FlattenGroupsSleepShift(d2, 0, j);
  }

  /** The sleep column does not depend on where the counter started. */
  lemma FlattenGroupsSleepShift(doc: Document, j: int, j': int)
    ensures FlattenGroups(doc, j).sleep == FlattenGroups(doc, j').sleep
  {
    GroupingIrrelevant(doc, j);
    GroupingIrrelevant(doc, j');
    FlattenEventsSleep(AllEvents(doc), j);
    FlattenEventsSleep(AllEvents(doc), j');
  }

  /** An event that contributes no epoch can be dropped from a group. */
  lemma {:induction false} DropSilentEvent(before: seq<Event>, e: Event, after: seq<Event>, j: int)
    requires EpochCount(e) == 0
    ensures FlattenEvents(before + [e] + after, j) == FlattenEvents(before + after, j)
    ensures Epochs(before + [e] + after) == Epochs(before + after)
    decreases |before|
  {
    if before == [] {
      assert before + [e] + after == [e] + after;
      assert ([e] + after)[0] == e && ([e] + after)[1..] == after;
      assert before + after == after;
      assert EventRows(e, j) == Timeline([], []);
    } else {
      var n := EpochCount(before[0]);
      var x, y := before + [e] + after, before + after;
      assert x[0] == before[0] && x[1..] == before[1..] + [e] + after;
      assert y[0] == before[0] && y[1..] == before[1..] + after;
      DropSilentEvent(before[1..], e, after, j + EpochLength * n);
    }
  }

  /** One unfolding of the document's rows: its first group, then the rest. */
  lemma FlattenGroupsStep(doc: Document, j: int)
    requires doc != []
    ensures FlattenGroups(doc, j) == FlattenEvents(doc[0], j).Then(FlattenGroups(doc[1..], j + EpochLength * Epochs(doc[0])))
    ensures AllEvents(doc) == doc[0] + AllEvents(doc[1..])
  {
  }

  /** The rows of a group placed in front of further groups. */
  lemma FlattenGroupsCons(g: seq<Event>, d: Document, j: int)
    ensures FlattenGroups([g] + d, j) == FlattenEvents(g, j).Then(FlattenGroups(d, j + EpochLength * Epochs(g)))
  {
    assert ([g] + d)[0] == g && ([g] + d)[1..] == d;
  }

  /** A first group can be replaced by one yielding the same rows and row count. */
  lemma ReplaceFirstGroup(g: seq<Event>, g': seq<Event>, d: Document, j: int)
    requires Epochs(g) == Epochs(g') && FlattenEvents(g, j) == FlattenEvents(g', j)
    ensures FlattenGroups([g] + d, j) == FlattenGroups([g'] + d, j)
  {
    FlattenGroupsCons(g, d, j);
    FlattenGroupsCons(g', d, j);
  }

  /** Joining documents is associative (stated once so that callers need not
      rediscover it inside larger proofs). */
  lemma DocAppendAssoc(a: Document, b: Document, c: Document)
    ensures a + b + c == a + (b + c)
  {
  }

  /** Groups after `d1` that yield the same rows from the counter `d1` leaves
      can replace each other. */
  lemma ReplaceTail(d1: Document, x: Document, x': Document, j: int)
    requires FlattenGroups(x, j + EpochLength * DocEpochs(d1)) == FlattenGroups(x', j + EpochLength * DocEpochs(d1))
    ensures FlattenGroups(d1 + x, j) == FlattenGroups(d1 + x', j)
  {
    FlattenGroupsAppend(d1, x, j);
    FlattenGroupsAppend(d1, x', j);
  }

  /** An event that is not of type `Stages|Stages` (whatever its duration), or a
      stage event shorter than 30 seconds, adds no row and leaves the counter
      where it was: inserting it anywhere in a document changes nothing. */
  lemma SkippedEventInvisible(d1: Document, before: seq<Event>, e: Event, after: seq<Event>, d2: Document)
    requires !IsStage(e) || e.duration < EpochLength
    ensures Flatten(d1 + [before + [e] + after] + d2) == Flatten(d1 + [before + after] + d2)
  {
    var k := EpochLength * DocEpochs(d1);
    var g, g' := before + [e] + after, before + after;
    DropSilentEvent(before, e, after, k);
    ReplaceFirstGroup(g, g', d2, k);
    ReplaceTail(d1, [g] + d2, [g'] + d2, 0);
    DocAppendAssoc(d1, [g], d2);
    DocAppendAssoc(d1, [g'], d2);
  }

  /** A stage event of 95 seconds yields 3 rows (90 seconds used, 5 dropped);
      one of 29 seconds yields none; an event of another type yields none
      whatever its duration. */
  lemma EpochCountExamples(concept: string)
    ensures EpochCount(Event(StageType, concept, "0", 95)) == 3
    ensures EpochCount(Event(StageType, concept, "0", 29)) == 0
    ensures EpochCount(Event("Arousals|Arousals", concept, "0", 900)) == 0
  {
  }

  /** (Wake, 60 s) followed by (N1, 30 s) gives the rows (0, Wake), (30, Wake), (60, N1). */
  lemma WakeThenN1Example()
    ensures Flatten([[Event(StageType, "Wake", "0", 60), Event(StageType, "N1", "60", 30)]])
              == Timeline([0, 30, 60], ["Wake", "Wake", "N1"])
  {
    var wake, n1 := Event(StageType, "Wake", "0", 60), Event(StageType, "N1", "60", 30);
    var group := [wake, n1];
    assert EpochCount(wake) == 2 && EpochCount(n1) == 1;
    assert Ticks(0, 2) == [0, 30] by {
      assert Ticks(60, 0) == [];
      assert Ticks(30, 1) == [30] + Ticks(60, 0);
    }
    assert Ticks(60, 1) == [60] by {
      assert Ticks(90, 0) == [];
    }
    assert Repeat("Wake", 2) == ["Wake", "Wake"] by {
      assert Repeat("Wake", 1) == ["Wake"] + Repeat("Wake", 0);
    }
    assert Repeat("N1", 1) == ["N1"];
    assert group[1..] == [n1] && group[1..][1..] == [];
    assert FlattenEvents([n1], 60) == Timeline([60], ["N1"]);
    assert FlattenEvents(group, 0) == Timeline([0, 30, 60], ["Wake", "Wake", "N1"]);
    var doc: Document := [group];
    assert doc[0] == group && doc[1..] == [];
    assert Flatten(doc) == FlattenEvents(group, 0).Then(FlattenGroups([], EpochLength * Epochs(group)));
  }
}
