/** When a saved event can be lost: exactly if it may be dated before the day a cleanup takes for today. */
module MetricsLate {
  import opened Options
  import opened MetricsModel
  import opened MetricsHistory

  lemma RunOne(s: State, ops: seq<Op>, op: Op)
    ensures Run(s, ops + [op]) == Apply(Run(s, ops), op)
  {
    assert (ops + [op])[..|ops|] == ops;
  }

  /** Two uploads take the same row; the first one's completion removes it after midnight; then an equal event of
      the day before is written, and the completion of the second upload takes its row for the old one. */
  function LateRun(e: Event, today: int): seq<Op>
  {
    var once := Record(e, true, true, true);
    var snapshot := Snapshot(e.key.chain, e.key.uId, [e.key], false);
    var step := [Answer(0, true), Advance(0, today, true), Answer(1, true), Advance(1, today, true)];
    [once, snapshot, snapshot, step[0], step[1], step[1], once, step[2], step[3], step[3]]
  }

  /** The row of a first event. */
  function LateRow(e: Event, updated: bool): Row
  {
    Written(None, e.key, Transform(None, e, true).value).(updated := updated)
  }

  function LateEntry(e: Event, event: nat): Entry
  {
    Entry(LateRow(e, false), [event])
  }

  function LateUpload(e: Event, stage: Stage): Upload
  {
    Upload(e.key.chain, e.key.uId, [Entry(LateRow(e, true), [0])], stage)
  }

  function Two(e: Event, first: Stage, second: Stage): seq<Upload>
  {
    [LateUpload(e, first), LateUpload(e, second)]
  }

  /** The states of the run: the row and its event, if there is one, the uploads, and the history. */
  function Here(
    e: Event, updated: bool, event: nat, uploads: seq<Upload>, saved: seq<Event>, removed: map<Key, seq<Entry>>)
    : State
  {
    State(map[e.key := LateRow(e, updated)], uploads, map[e.key := [event]], saved, removed)
  }

  function Gone(uploads: seq<Upload>, saved: seq<Event>, removed: map<Key, seq<Entry>>): State
  {
    State(map[], uploads, map[], saved, removed)
  }

  lemma Equal(s: State, t: State)
    requires s.rows == t.rows && s.uploads == t.uploads && s.events == t.events && s.saved == t.saved
      && s.removed == t.removed
    ensures s == t
  {}

  lemma Recording(e: Event, uploads: seq<Upload>, saved: seq<Event>, removed: map<Key, seq<Entry>>)
    ensures Apply(Gone(uploads, saved, removed), Record(e, true, true, true))
         == Here(e, true, |saved|, uploads, saved + [e], removed)
  {
    hide Distributed;
    assert [] + [|saved|] == [|saved|];
    Equal(Apply(Gone(uploads, saved, removed), Record(e, true, true, true)),
          Here(e, true, |saved|, uploads, saved + [e], removed));
  }

  lemma Snapping(e: Event, uploads: seq<Upload>, saved: seq<Event>)
    ensures Apply(Here(e, true, 0, uploads, saved, map[]), Snapshot(e.key.chain, e.key.uId, [e.key], false))
         == Here(e, true, 0, uploads + [LateUpload(e, Sent)], saved, map[])
  {
    hide Transform, Written;
    var s := Here(e, true, 0, uploads, saved, map[]);
    RowKey(e);
    assert e.key in [e.key];
    assert ListsChanged(s.rows, e.key.chain, e.key.uId, [e.key]);
    assert Collected(s, [e.key]) == [Entry(LateRow(e, true), [0])];
  }

  lemma RowKey(e: Event)
    ensures LateRow(e, true).key == e.key && LateRow(e, false).key == e.key
  {}

  lemma Answering(e: Event, u: nat, s: State)
    requires u < |s.uploads| && s.uploads[u] == LateUpload(e, Sent)
    ensures Apply(s, Answer(u, true)) == s.(uploads := s.uploads[u := LateUpload(e, Accepted(0))])
  {
    hide LateRow;
  }

  /** An accepted upload that matches the row acknowledges it, whichever event the row stands for. */
  lemma Acknowledging(e: Event, today: int, u: nat, event: nat, uploads: seq<Upload>, saved: seq<Event>,
                      removed: map<Key, seq<Entry>>)
    requires u < |uploads| && uploads[u] == LateUpload(e, Accepted(0))
    ensures Apply(Here(e, true, event, uploads, saved, removed), Advance(u, today, true))
         == Here(e, false, event, uploads[u := LateUpload(e, Accepted(1))], saved, removed)
  {
    hide Transform, Written;
    RowKey(e);
    Equal(Apply(Here(e, true, event, uploads, saved, removed), Advance(u, today, true)),
          Here(e, false, event, uploads[u := LateUpload(e, Accepted(1))], saved, removed));
  }

  lemma Cleaning(e: Event, today: int, u: nat, event: nat, uploads: seq<Upload>, saved: seq<Event>, before: seq<Entry>,
                 removed: map<Key, seq<Entry>>)
    requires e.key.date < today && u < |uploads| && uploads[u] == LateUpload(e, Accepted(1))
    requires removed == if |before| == 0 then map[] else map[e.key := before]
    ensures Apply(Here(e, false, event, uploads, saved, removed), Advance(u, today, true))
         == Gone(uploads[u := LateUpload(e, Finished)], saved, map[e.key := before + [LateEntry(e, event)]])
  {
    hide Transform, Written;
    var s := Here(e, false, event, uploads, saved, removed);
    RowKey(e);
    assert Removable(s.rows[e.key], e.key.chain, e.key.uId, today);
    Equal(Apply(s, Advance(u, today, true)),
          Gone(uploads[u := LateUpload(e, Finished)], saved, map[e.key := before + [LateEntry(e, event)]]));
  }

  lemma FirstHalf(e: Event, today: int)
    requires e.key.date < today
    ensures Run(EMPTY, LateRun(e, today)[..6]) == Gone(Two(e, Finished, Sent), [e], map[e.key := [LateEntry(e, 0)]])
  {
    hide Apply, LateRow;
    var ops := LateRun(e, today);
    assert ops[..1] == [] + [ops[0]] && ops[..2] == ops[..1] + [ops[1]] && ops[..3] == ops[..2] + [ops[2]]
        && ops[..4] == ops[..3] + [ops[3]] && ops[..5] == ops[..4] + [ops[4]] && ops[..6] == ops[..5] + [ops[5]];
    RunOne(EMPTY, [], ops[0]);
    assert EMPTY == Gone([], [], map[]) && [] + [e] == [e];
    Recording(e, [], [], map[]);
    RunOne(EMPTY, ops[..1], ops[1]);
    assert [] + [LateUpload(e, Sent)] == [LateUpload(e, Sent)];
    Snapping(e, [], [e]);
    RunOne(EMPTY, ops[..2], ops[2]);
    assert [LateUpload(e, Sent)] + [LateUpload(e, Sent)] == Two(e, Sent, Sent);
    Snapping(e, [LateUpload(e, Sent)], [e]);
    RunOne(EMPTY, ops[..3], ops[3]);
    assert Two(e, Sent, Sent)[0 := LateUpload(e, Accepted(0))] == Two(e, Accepted(0), Sent);
    Answering(e, 0, Here(e, true, 0, Two(e, Sent, Sent), [e], map[]));
    RunOne(EMPTY, ops[..4], ops[4]);
    assert Two(e, Accepted(0), Sent)[0 := LateUpload(e, Accepted(1))] == Two(e, Accepted(1), Sent);
    Acknowledging(e, today, 0, 0, Two(e, Accepted(0), Sent), [e], map[]);
    RunOne(EMPTY, ops[..5], ops[5]);
    assert Two(e, Accepted(1), Sent)[0 := LateUpload(e, Finished)] == Two(e, Finished, Sent);
    assert [] + [LateEntry(e, 0)] == [LateEntry(e, 0)];
    Cleaning(e, today, 0, 0, Two(e, Accepted(1), Sent), [e], [], map[]);
  }

  lemma SecondHalf(e: Event, today: int)
    requires e.key.date < today
    ensures Run(EMPTY, LateRun(e, today))
         == Gone(Two(e, Finished, Finished), [e, e], map[e.key := [LateEntry(e, 0), LateEntry(e, 1)]])
  {
    hide Apply, LateRow;
    var ops := LateRun(e, today);
    var removed := map[e.key := [LateEntry(e, 0)]];
    assert ops[..7] == ops[..6] + [ops[6]] && ops[..8] == ops[..7] + [ops[7]] && ops[..9] == ops[..8] + [ops[8]]
        && ops == ops[..9] + [ops[9]];
    FirstHalf(e, today);
    RunOne(EMPTY, ops[..6], ops[6]);
    assert [e] + [e] == [e, e];
    Recording(e, Two(e, Finished, Sent), [e], removed);
    RunOne(EMPTY, ops[..7], ops[7]);
    assert Two(e, Finished, Sent)[1 := LateUpload(e, Accepted(0))] == Two(e, Finished, Accepted(0));
    Answering(e, 1, Here(e, true, 1, Two(e, Finished, Sent), [e, e], removed));
    RunOne(EMPTY, ops[..8], ops[8]);
    assert Two(e, Finished, Accepted(0))[1 := LateUpload(e, Accepted(1))] == Two(e, Finished, Accepted(1));
    Acknowledging(e, today, 1, 1, Two(e, Finished, Accepted(0)), [e, e], removed);
    RunOne(EMPTY, ops[..9], ops[9]);
    assert Two(e, Finished, Accepted(1))[1 := LateUpload(e, Finished)] == Two(e, Finished, Finished);
    assert [LateEntry(e, 0)] + [LateEntry(e, 1)] == [LateEntry(e, 0), LateEntry(e, 1)];
    Cleaning(e, today, 1, 1, Two(e, Finished, Accepted(1)), [e, e], [LateEntry(e, 0)], removed);
  }

  /** In this run the second of two saved events ends up among the removed, and no snapshot ever carried it. */
  lemma LateEventLost(e: Event, today: int)
    requires e.key.date < today
    ensures var s := Run(EMPTY, LateRun(e, today));
      && s.saved == [e, e] && s.removed == map[e.key := [LateEntry(e, 0), LateEntry(e, 1)]]
      && !ServerHasEvents(LateRun(e, today), LateEntry(e, 1)) && !AllArrived(LateRun(e, today))
  {
    hide LateRow, Run;
    SecondHalf(e, today);
    var s := Run(EMPTY, LateRun(e, today));
    EventsReportedExactly(LateRun(e, today), LateEntry(e, 1));
    assert s.removed[e.key][1] == LateEntry(e, 1);
  }

  /** A run that records only this event and cleans up only with this day as today. */
  predicate RunOf(ops: seq<Op>, e: Event, today: int)
  {
    forall i :: 0 <= i < |ops| ==>
      (ops[i].Record? ==> ops[i].event == e) && (ops[i].Advance? ==> ops[i].today == today)
  }

  /** An event can be lost exactly if its date is before the day of the cleanup, whatever else happens in any run. */
  lemma LostExactly(e: Event, today: int)
    ensures e.key.date < today <==> exists ops :: RunOf(ops, e, today) && !AllArrived(ops)
  {
    hide AllArrived, Run;
    if e.key.date < today {
      LateEventLost(e, today);
      assert RunOf(LateRun(e, today), e, today);
    } else {
      forall ops | RunOf(ops, e, today) ensures AllArrived(ops) { AlwaysEventsReported(ops); }
    }
  }
}
