/** What becomes of every saved event: sums are conserved, an acknowledged row is the row that was uploaded
    unless it was made anew, and an undisturbed upload clears everything it carries. */
module MetricsHistory {
  import opened Options
  import opened MetricsModel

  // ---- nothing is lost or counted twice ----

  /** The numbers a row reports. */
  datatype Measure = Count | Token | Energy | Bandwidth | Burn | Bucket(i: nat)

  function RowShare(row: Row, m: Measure): real
  {
    match m
    case Count => row.count as real
    case Token => row.amounts.token
    case Energy => row.amounts.energy
    case Bandwidth => row.amounts.bandwidth
    case Burn => row.amounts.burn
    case Bucket(i) => if i < 9 then row.buckets[i] as real else 0.0
  }

  /** What one event is worth: one for the count, its amounts, and one for the bucket it falls into. */
  function EventShare(e: Event, m: Measure): real
  {
    match m
    case Count => 1.0
    case Token => e.amounts.token
    case Energy => e.amounts.energy
    case Bandwidth => e.amounts.bandwidth
    case Burn => e.amounts.burn
    case Bucket(i) => if e.bucketed && InBucket(e.amounts.token, i) then 1.0 else 0.0
  }

  function SavedSum(saved: seq<Event>, k: Key, m: Measure): real
  {
    if |saved| == 0 then 0.0
    else
      var e := saved[|saved| - 1];
      SavedSum(saved[..|saved| - 1], k, m) + if e.key == k then EventShare(e, m) else 0.0
  }

  function RemovedSum(removed: seq<Entry>, m: Measure): real
  {
    if |removed| == 0 then 0.0 else RemovedSum(removed[..|removed| - 1], m) + RowShare(removed[|removed| - 1].row, m)
  }

  function TableSum(rows: map<Key, Row>, k: Key, m: Measure): real
  {
    if k in rows then RowShare(rows[k], m) else 0.0
  }

  predicate Balanced(s: State, k: Key, m: Measure)
  {
    SavedSum(s.saved, k, m) == TableSum(s.rows, k, m) + RemovedSum(RemovedOf(s, k), m)
  }

  lemma ShareAdded(current: Option<Row>, e: Event, addable: bool, m: Measure)
    requires Transform(current, e, addable).Some?
    ensures RowShare(Written(current, e.key, Transform(current, e, addable).value), m)
         == (if current.Some? then RowShare(current.value, m) else 0.0) + EventShare(e, m)
  {
    hide BucketOf, Distributed, AddBuckets;
    if m.Bucket? {
      DistributedTotal(e.amounts.token);
      if current.Some? && e.bucketed { AddedAt(current.value.buckets, Distributed(e.amounts.token, NO_BUCKETS), m.i); }
    }
  }

  lemma AddedAt(previous: Buckets, increments: Buckets, i: nat)
    ensures i < 9 ==> AddBuckets(previous, increments)[i] == previous[i] + increments[i]
  {
    assert i < 9 ==> i == 0 || i == 1 || i == 2 || i == 3 || i == 4 || i == 5 || i == 6 || i == 7 || i == 8;
  }

  lemma RecordBalanced(s: State, e: Event, addable: bool, k: Key, m: Measure)
    requires Balanced(s, k, m)
    ensures Balanced(Recorded(s, e, true, addable, true), k, m)
  {
    hide Transform, Written, RowShare, EventShare;
    var t := Recorded(s, e, true, addable, true);
    var current := Lookup(s.rows, e.key);
    if Transform(current, e, addable).Some? {
      assert t.saved[..|t.saved| - 1] == s.saved;
      ShareAdded(current, e, addable, m);
    }
  }

  lemma CleanBalanced(s: State, chain: string, uId: string, today: int, k: Key, m: Measure)
    requires Balanced(s, k, m)
    ensures Balanced(Cleaned(s, chain, uId, today), k, m)
  {
    hide RowShare, Removable;
    var t := Cleaned(s, chain, uId, today);
    if k in s.rows && k !in t.rows {
      assert RemovedOf(t, k) == RemovedOf(s, k) + [Entry(s.rows[k], EventsOf(s, k))];
      assert RemovedOf(t, k)[..|RemovedOf(s, k)|] == RemovedOf(s, k);
    } else {
      assert RemovedOf(t, k) == RemovedOf(s, k);
    }
  }

  lemma AdvanceBalanced(s: State, u: nat, today: int, done: bool, k: Key, m: Measure)
    requires Balanced(s, k, m)
    ensures Balanced(Advanced(s, u, today, done), k, m)
  {
    hide SavedSum, RemovedSum, Cleaned;
    if u < |s.uploads| && s.uploads[u].stage.Accepted? && s.uploads[u].stage.next >= |s.uploads[u].entries| {
      var t := s.(uploads := s.uploads[u := s.uploads[u].(stage := Finished)]);
      CleanBalanced(t, s.uploads[u].chain, s.uploads[u].uId, today, k, m);
    }
  }

  /** In every reachable state and for every group and day: what the saved events add up to is what the table
      still holds together with what was removed, in count, in amounts and in every bucket. */
  lemma {:induction false} Conservation(ops: seq<Op>, k: Key, m: Measure)
    ensures Balanced(Run(EMPTY, ops), k, m)
  {
    hide Balanced, Recorded, Advanced;
    if |ops| == 0 {
      EmptyBalanced(k, m);
    } else {
      var s := Run(EMPTY, ops[..|ops| - 1]);
      Conservation(ops[..|ops| - 1], k, m);
      match ops[|ops| - 1] {
        case Record(e, readable, addable, committed) =>
          RecordBalanced(s, e, addable, k, m);
          RecordedOrNot(s, e, readable, addable, committed);
        case Advance(u, today, done) => AdvanceBalanced(s, u, today, done, k, m);
        case op => UploadBalanced(s, op, k, m);
      }
    }
  }

  lemma EmptyBalanced(k: Key, m: Measure)
    ensures Balanced(EMPTY, k, m)
  {}

  lemma UploadBalanced(s: State, op: Op, k: Key, m: Measure)
    requires Balanced(s, k, m) && (op.Snapshot? || op.Answer?)
    ensures Balanced(Apply(s, op), k, m)
  {}

  // ---- which events an acknowledgement is about ----

  /** As long as a row is the one a snapshot was taken of, it still starts with the events of the snapshot. */
  ghost predicate Extends(s: State, x: Entry)
  {
    var k := x.row.key;
    k in s.rows && x.events != [] && EventsOf(s, k) != [] && EventsOf(s, k)[0] == x.events[0] ==>
      x.events <= EventsOf(s, k)
  }

  ghost predicate AllExtend(s: State)
  {
    forall u, i :: 0 <= u < |s.uploads| && 0 <= i < |s.uploads[u].entries| ==> Extends(s, s.uploads[u].entries[i])
  }

  lemma RecordExtends(s: State, e: Event, readable: bool, addable: bool, committed: bool)
    requires AllTallied(s) && AllExtend(s)
    ensures AllExtend(Recorded(s, e, readable, addable, committed))
  {
    hide Transform, Written, Total;
    var t := Recorded(s, e, readable, addable, committed);
    forall u, i | 0 <= u < |t.uploads| && 0 <= i < |t.uploads[u].entries| ensures Extends(t, t.uploads[u].entries[i]) {
      var x := s.uploads[u].entries[i];
      assert Extends(s, x) && Tallied(s.saved, x.row, x.events);
      if e.key in s.rows { assert Tallied(s.saved, s.rows[e.key], EventsOf(s, e.key)); }
    }
  }

  lemma AdvanceExtends(s: State, u: nat, today: int, done: bool)
    requires AllExtend(s)
    ensures AllExtend(Advanced(s, u, today, done))
  {
    hide Removable;
    var t := Advanced(s, u, today, done);
    forall v, i | 0 <= v < |t.uploads| && 0 <= i < |t.uploads[v].entries| ensures Extends(t, t.uploads[v].entries[i]) {
      assert Extends(s, s.uploads[v].entries[i]);
    }
  }

  lemma UploadExtends(s: State, op: Op)
    requires AllTallied(s) && AllExtend(s) && (op.Snapshot? || op.Answer?)
    ensures AllExtend(Apply(s, op))
  {
    hide Tallied, FirstBucket, InBucket;
    var t := Apply(s, op);
    forall v, i | 0 <= v < |t.uploads| && 0 <= i < |t.uploads[v].entries| ensures Extends(t, t.uploads[v].entries[i]) {
      if v < |s.uploads| { assert Extends(s, s.uploads[v].entries[i]); }
    }
  }

  lemma {:induction false} AlwaysExtends(ops: seq<Op>)
    ensures AllExtend(Run(EMPTY, ops))
  {
    hide AllExtend, AllTallied, Recorded, Advanced;
    if |ops| == 0 {
      EmptyExtends();
    } else {
      var s := Run(EMPTY, ops[..|ops| - 1]);
      AlwaysExtends(ops[..|ops| - 1]);
      AlwaysTallied(ops[..|ops| - 1]);
      match ops[|ops| - 1] {
        case Record(e, readable, addable, committed) => RecordExtends(s, e, readable, addable, committed);
        case Advance(u, today, done) => AdvanceExtends(s, u, today, done);
        case op => UploadExtends(s, op);
      }
    }
  }

  lemma EmptyExtends()
    ensures AllExtend(EMPTY)
  {}

  /** An uploaded row that matches the table, and so is acknowledged, stands for the same saved events exactly if
      the row in the table is still the one that was uploaded: if both start with the same event. */
  lemma AcknowledgedEvents(ops: seq<Op>, u: nat, i: nat)
    requires var s := Run(EMPTY, ops);
      && u < |s.uploads| && i < |s.uploads[u].entries|
      && s.uploads[u].entries[i].row.key in s.rows
      && Same(s.rows[s.uploads[u].entries[i].row.key], s.uploads[u].entries[i].row)
    ensures var s := Run(EMPTY, ops);
      var x := s.uploads[u].entries[i];
      var now := EventsOf(s, x.row.key);
      && x.events != [] && now != []
      && (now == x.events <==> now[0] == x.events[0])
  {
    var s := Run(EMPTY, ops);
    var x := s.uploads[u].entries[i];
    AlwaysTallied(ops);
    AlwaysExtends(ops);
    hide Run;
    assert Extends(s, x);
    assert Tallied(s.saved, x.row, x.events) && Tallied(s.saved, s.rows[x.row.key], EventsOf(s, x.row.key));
  }

  // ---- with dates that do not fall behind, exactly the reported events are removed ----

  /** The row was in an accepted snapshot together with exactly the same events. */
  ghost predicate EventsReported(uploads: seq<Upload>, x: Entry)
  {
    exists u: nat, i: nat :: u < |uploads| && AcceptedAs(uploads[u], i, x.row)
      && uploads[u].entries[i].events == x.events
  }

  /** No event is dated before a day that some cleanup already took for today. */
  predicate DatesForward(ops: seq<Op>)
  {
    forall i, j :: 0 <= i < j < |ops| && ops[i].Advance? && ops[j].Record? ==> ops[i].today <= ops[j].event.key.date
  }

  predicate Past(ops: seq<Op>, k: Key)
  {
    exists i :: 0 <= i < |ops| && ops[i].Advance? && k.date < ops[i].today
  }

  /** A snapshot's row is still there with the events it had, or its day is past. */
  ghost predicate SameOrPast(s: State, ops: seq<Op>, x: Entry)
  {
    var k := x.row.key;
    if k in s.rows then x.events <= EventsOf(s, k) else Past(ops, k)
  }

  ghost predicate AllSameOrPast(s: State, ops: seq<Op>)
  {
    forall u, i :: 0 <= u < |s.uploads| && 0 <= i < |s.uploads[u].entries| ==>
      SameOrPast(s, ops, s.uploads[u].entries[i])
  }

  ghost predicate OnlyEventsReported(s: State)
  {
    && (forall k :: k in s.rows && !s.rows[k].updated ==> EventsReported(s.uploads, Entry(s.rows[k], EventsOf(s, k))))
    && (forall k, j :: k in s.removed && 0 <= j < |s.removed[k]| ==> EventsReported(s.uploads, s.removed[k][j]))
  }

  lemma EventsReportedStays(before: seq<Upload>, after: seq<Upload>, x: Entry)
    requires Grown(before, after) && EventsReported(before, x)
    ensures EventsReported(after, x)
  {
    var u: nat, i: nat :| u < |before| && AcceptedAs(before[u], i, x.row) && before[u].entries[i].events == x.events;
    assert AcceptedAs(after[u], i, x.row);
  }

  lemma PastStays(ops: seq<Op>, k: Key)
    requires |ops| > 0 && Past(ops[..|ops| - 1], k)
    ensures Past(ops, k)
  {
    var i :| 0 <= i < |ops| - 1 && ops[..|ops| - 1][i].Advance? && k.date < ops[..|ops| - 1][i].today;
    assert ops[i].Advance? && k.date < ops[i].today;
  }

  /** One step keeps every snapshot's row, or its day becomes past. */
  lemma EntriesKept(s: State, op: Op, u: nat)
    requires u < |s.uploads|
    ensures u < |Apply(s, op).uploads| && Apply(s, op).uploads[u].entries == s.uploads[u].entries
  {
    hide Transform, Written, Acknowledged;
  }

  lemma NewEntryCurrent(s: State, ops: seq<Op>, op: Op, u: nat, i: nat)
    requires |s.uploads| <= u < |Apply(s, op).uploads| && i < |Apply(s, op).uploads[u].entries|
    requires forall k :: k in s.rows ==> s.rows[k].key == k
    ensures SameOrPast(Apply(s, op), ops, Apply(s, op).uploads[u].entries[i])
  {
    hide Transform, Written, Acknowledged, Removable;
  }

  lemma StepSameOrPast(s: State, ops: seq<Op>)
    requires |ops| > 0 && DatesForward(ops) && AllTallied(s)
    requires AllSameOrPast(s, ops[..|ops| - 1])
    ensures AllSameOrPast(Apply(s, ops[|ops| - 1]), ops)
  {
    hide Apply, SameOrPast, Tallied;
    var op := ops[|ops| - 1];
    var t := Apply(s, op);
    forall u, i | 0 <= u < |t.uploads| && 0 <= i < |t.uploads[u].entries|
      ensures SameOrPast(t, ops, t.uploads[u].entries[i])
    {
      if u < |s.uploads| {
        EntriesKept(s, op, u);
        EntrySameOrPast(s, ops, s.uploads[u].entries[i]);
      } else {
        NewEntryCurrent(s, ops, op, u, i);
      }
    }
  }

  lemma EntrySameOrPast(s: State, ops: seq<Op>, x: Entry)
    requires |ops| > 0 && DatesForward(ops) && AllTallied(s)
    requires SameOrPast(s, ops[..|ops| - 1], x)
    ensures SameOrPast(Apply(s, ops[|ops| - 1]), ops, x)
  {
    hide Transform, Written, Past, Tallied;
    var k := x.row.key;
    var op := ops[|ops| - 1];
    if k !in s.rows {
      PastStays(ops, k);
      if op.Record? { NotRecordedPast(ops, k); }
    } else if op.Advance? {
      PastByCleanup(ops, k);
      AdvanceKeeps(s, op.upload, op.today, op.done, k);
    }
  }

  /** Only the cleanup of a later day removes a row; until then it keeps its events. */
  lemma AdvanceKeeps(s: State, u: nat, today: int, done: bool, k: Key)
    requires k in s.rows && s.rows[k].key == k
    ensures var t := Advanced(s, u, today, done);
      if k in t.rows then EventsOf(t, k) == EventsOf(s, k) else k.date < today
  {}

  lemma NotRecordedPast(ops: seq<Op>, k: Key)
    requires |ops| > 0 && DatesForward(ops) && ops[|ops| - 1].Record? && Past(ops[..|ops| - 1], k)
    ensures ops[|ops| - 1].event.key != k
  {
    var i :| 0 <= i < |ops| - 1 && ops[..|ops| - 1][i].Advance? && k.date < ops[..|ops| - 1][i].today;
    assert ops[i].Advance?;
  }

  lemma PastByCleanup(ops: seq<Op>, k: Key)
    requires |ops| > 0 && ops[|ops| - 1].Advance?
    ensures k.date < ops[|ops| - 1].today ==> Past(ops, k)
  {}

  /** A row just marked as reported has the events of the row uploaded. */
  lemma RowNowReported(s: State, ops: seq<Op>, u: nat, today: int, done: bool, k: Key)
    requires AllTallied(s) && AllSameOrPast(s, ops)
    requires u < |s.uploads| && s.uploads[u].stage.Accepted? && s.uploads[u].stage.next < |s.uploads[u].entries|
    requires var t := Advanced(s, u, today, done); k in t.rows && !t.rows[k].updated
    requires k in s.rows && s.rows[k].updated
    ensures var t := Advanced(s, u, today, done); EventsReported(t.uploads, Entry(t.rows[k], EventsOf(t, k)))
  {
    hide EventsReported, Past, Snapped, Total, Transform, Written, Cleaned;
    var t := Advanced(s, u, today, done);
    var x := s.uploads[u].entries[s.uploads[u].stage.next];
    assert SameOrPast(s, ops, x);
    assert Tallied(s.saved, x.row, x.events) && Tallied(s.saved, s.rows[k], EventsOf(s, k));
    assert x.events == EventsOf(s, k);
    AcceptedNow(t.uploads, u, s.uploads[u].stage.next, Entry(t.rows[k], EventsOf(t, k)));
  }

  lemma OneAcknowledged(s: State, u: nat, today: int, done: bool)
    requires u < |s.uploads| && s.uploads[u].stage.Accepted? && s.uploads[u].stage.next < |s.uploads[u].entries|
    ensures var t := Advanced(s, u, today, done);
      && t.rows.Keys == s.rows.Keys && t.events == s.events && t.removed == s.removed
      && forall k :: k in s.rows && !s.rows[k].updated ==> t.rows[k] == s.rows[k]
  {
    hide Cleaned;
  }

  lemma AcknowledgeEventsReported(s: State, ops: seq<Op>, u: nat, today: int, done: bool)
    requires AllTallied(s) && AllSameOrPast(s, ops) && OnlyEventsReported(s)
    requires u < |s.uploads| && s.uploads[u].stage.Accepted? && s.uploads[u].stage.next < |s.uploads[u].entries|
    ensures OnlyEventsReported(Advanced(s, u, today, done))
  {
    hide EventsReported, Past, Snapped, Total, Transform, Written, Advanced, AllTallied, AllSameOrPast;
    OneAcknowledged(s, u, today, done);
    var t := Advanced(s, u, today, done);
    ApplyGrows(s, Advance(u, today, done));
    forall k | k in t.rows && !t.rows[k].updated ensures EventsReported(t.uploads, Entry(t.rows[k], EventsOf(t, k))) {
      if !s.rows[k].updated {
        EventsReportedStays(s.uploads, t.uploads, Entry(s.rows[k], EventsOf(s, k)));
      } else {
        RowNowReported(s, ops, u, today, done, k);
      }
    }
    RemovedEventsReported(s, t);
  }

  lemma AcceptedNow(uploads: seq<Upload>, u: nat, i: nat, x: Entry)
    requires u < |uploads| && AcceptedAs(uploads[u], i, x.row) && uploads[u].entries[i].events == x.events
    ensures EventsReported(uploads, x)
  {}

  lemma RemovedEventsReported(s: State, t: State)
    requires OnlyEventsReported(s) && Grown(s.uploads, t.uploads) && t.removed == s.removed
    ensures forall k, j :: k in t.removed && 0 <= j < |t.removed[k]| ==> EventsReported(t.uploads, t.removed[k][j])
  {
    forall k, j | k in t.removed && 0 <= j < |t.removed[k]| ensures EventsReported(t.uploads, t.removed[k][j]) {
      EventsReportedStays(s.uploads, t.uploads, s.removed[k][j]);
    }
  }

  lemma CleanEventsReported(s: State, chain: string, uId: string, today: int)
    requires OnlyEventsReported(s)
    ensures OnlyEventsReported(Cleaned(s, chain, uId, today))
  {
    hide EventsReported;
    var t := Cleaned(s, chain, uId, today);
    forall k, j | k in t.removed && 0 <= j < |t.removed[k]| ensures EventsReported(t.uploads, t.removed[k][j]) {
      if j < |RemovedOf(s, k)| {
        assert t.removed[k][j] == s.removed[k][j];
      } else {
        assert t.removed[k][j] == Entry(s.rows[k], EventsOf(s, k));
      }
    }
  }

  lemma KeepEventsReported(s: State, t: State)
    requires OnlyEventsReported(s) && Grown(s.uploads, t.uploads) && t.removed == s.removed
    requires forall k :: k in t.rows && !t.rows[k].updated ==>
      k in s.rows && t.rows[k] == s.rows[k] && EventsOf(t, k) == EventsOf(s, k)
    ensures OnlyEventsReported(t)
  {
    forall k | k in t.rows && !t.rows[k].updated ensures EventsReported(t.uploads, Entry(t.rows[k], EventsOf(t, k))) {
      EventsReportedStays(s.uploads, t.uploads, Entry(s.rows[k], EventsOf(s, k)));
    }
    RemovedEventsReported(s, t);
  }

  lemma StepEventsReported(s: State, ops: seq<Op>, op: Op)
    requires AllTallied(s) && AllSameOrPast(s, ops) && OnlyEventsReported(s)
    ensures OnlyEventsReported(Apply(s, op))
  {
    hide EventsReported, AllTallied, AllSameOrPast, Transform, Written;
    ApplyGrows(s, op);
    match op {
      case Advance(u, today, done) =>
        if u < |s.uploads| && s.uploads[u].stage.Accepted? {
          if s.uploads[u].stage.next < |s.uploads[u].entries| {
            AcknowledgeEventsReported(s, ops, u, today, done);
          } else {
            var w := s.(uploads := s.uploads[u := s.uploads[u].(stage := Finished)]);
            KeepEventsReported(s, w);
            CleanEventsReported(w, s.uploads[u].chain, s.uploads[u].uId, today);
          }
        }
      case _ => KeepUnlessAdvance(s, op);
    }
  }

  lemma KeepUnlessAdvance(s: State, op: Op)
    requires OnlyEventsReported(s) && !op.Advance?
    ensures OnlyEventsReported(Apply(s, op))
  {
    hide EventsReported, OnlyEventsReported, Transform;
    ApplyGrows(s, op);
    KeepEventsReported(s, Apply(s, op));
  }

  lemma {:induction false} AlwaysOnlyEvents(ops: seq<Op>)
    requires DatesForward(ops)
    ensures OnlyEventsReported(Run(EMPTY, ops)) && AllSameOrPast(Run(EMPTY, ops), ops)
  {
    hide OnlyEventsReported, AllSameOrPast, AllTallied, Apply;
    if |ops| == 0 {
      EmptyReported();
    } else {
      var before := ops[..|ops| - 1];
      DatesForwardBefore(ops);
      AlwaysOnlyEvents(before);
      AlwaysTallied(before);
      StepSameOrPast(Run(EMPTY, before), ops);
      StepEventsReported(Run(EMPTY, before), before, ops[|ops| - 1]);
    }
  }

  /** The server has the row with the very events it stands for. */
  ghost predicate ServerHasEvents(ops: seq<Op>, x: Entry)
  {
    exists u: nat, i: nat, entry: Entry ::
      Carried(ops, u, i, entry) && entry.row.(updated := true) == x.row.(updated := true) && entry.events == x.events
  }

  /** So it is for every row that is marked as reported and every row that was removed. */
  ghost predicate AllArrived(ops: seq<Op>)
  {
    var s := Run(EMPTY, ops);
    && (forall k :: k in s.rows && !s.rows[k].updated ==> ServerHasEvents(ops, Entry(s.rows[k], EventsOf(s, k))))
    && (forall k, j :: k in s.removed && 0 <= j < |s.removed[k]| ==> ServerHasEvents(ops, s.removed[k][j]))
  }

  lemma EventsReportedExactly(ops: seq<Op>, x: Entry)
    ensures EventsReported(Run(EMPTY, ops).uploads, x) <==> ServerHasEvents(ops, x)
  {
    hide Run, IsAccepted, Takes;
    var uploads := Run(EMPTY, ops).uploads;
    if EventsReported(uploads, x) {
      var u: nat, i: nat :|
        u < |uploads| && AcceptedAs(uploads[u], i, x.row) && uploads[u].entries[i].events == x.events;
      StageExact(ops, u);
      AlwaysTaken(ops, u);
      assert Carried(ops, u, i, uploads[u].entries[i]);
    }
    if ServerHasEvents(ops, x) {
      var u: nat, i: nat, entry: Entry :|
        Carried(ops, u, i, entry) && entry.row.(updated := true) == x.row.(updated := true) && entry.events == x.events;
      StageExact(ops, u);
      SameContent(x.row, entry.row);
      assert AcceptedAs(uploads[u], i, x.row);
    }
  }

  lemma SameContent(a: Row, b: Row)
    ensures a.(updated := true) == b.(updated := true) <==> Same(a, b)
  {}

  lemma ArrivedExactly(ops: seq<Op>)
    ensures AllArrived(ops) <==> OnlyEventsReported(Run(EMPTY, ops))
  {
    hide Run, EventsReported, ServerHasEvents;
    forall x: Entry ensures EventsReported(Run(EMPTY, ops).uploads, x) <==> ServerHasEvents(ops, x) {
      EventsReportedExactly(ops, x);
    }
  }

  /** If no event is dated before a day that has been cleaned up, then in every reachable state the events of every
      removed row were themselves in a snapshot that the server answered with success. */
  lemma AlwaysEventsReported(ops: seq<Op>)
    requires DatesForward(ops)
    ensures AllArrived(ops)
  {
    hide AllArrived, OnlyEventsReported;
    AlwaysOnlyEvents(ops);
    ArrivedExactly(ops);
  }

  lemma DatesForwardBefore(ops: seq<Op>)
    requires |ops| > 0 && DatesForward(ops)
    ensures DatesForward(ops[..|ops| - 1])
  {
    var before := ops[..|ops| - 1];
    forall i, j | 0 <= i < j < |before| && before[i].Advance? && before[j].Record?
      ensures before[i].today <= before[j].event.key.date {
      assert ops[i].Advance? && ops[j].Record?;
    }
  }

  lemma EmptyReported()
    ensures OnlyEventsReported(EMPTY) && AllSameOrPast(EMPTY, [])
  {}

  // ---- an undisturbed upload ----

  /** The completion of upload u, up to n steps, with nothing in between and no access failing. */
  function Completed(s: State, u: nat, today: int, n: nat): State
  {
    if n == 0 then s else Advanced(Completed(s, u, today, n - 1), u, today, true)
  }

  predicate OfIdentity(k: Key, chain: string, uId: string)
  {
    k.chain == chain && k.uId == uId
  }

  /** The table after the first n acknowledgements. */
  predicate AcknowledgedFirst(before: map<Key, Row>, order: seq<Key>, n: nat, after: map<Key, Row>)
    requires n <= |order|
  {
    && after.Keys == before.Keys
    && forall k :: k in before ==> after[k] == if k in order[..n] then before[k].(updated := false) else before[k]
  }

  lemma AcknowledgesOne(before: map<Key, Row>, order: seq<Key>, n: nat, after: map<Key, Row>)
    requires n < |order| && AcknowledgedFirst(before, order, n, after)
    requires order[n] in before && before[order[n]].updated && before[order[n]].key == order[n]
      && order[n] !in order[..n]
    ensures AcknowledgedFirst(before, order, n + 1, Acknowledged(after, before[order[n]], true))
  {
    assert order[..n + 1] == order[..n] + [order[n]];
  }

  lemma AdvancedOnce(s: State, u: nat, today: int, n: nat)
    requires u < |s.uploads| && s.uploads[u].stage == Accepted(n) && n < |s.uploads[u].entries|
    ensures Advanced(s, u, today, true) == s.(rows := Acknowledged(s.rows, s.uploads[u].entries[n].row, true),
                                              uploads := s.uploads[u := s.uploads[u].(stage := Accepted(n + 1))])
  {
    hide Cleaned, Acknowledged;
  }

  lemma Listed(s: State, chain: string, uId: string, order: seq<Key>, n: nat)
    requires AllTallied(s) && ListsSome(s.rows, chain, uId, order) && n < |order|
    ensures order[n] in s.rows && s.rows[order[n]].updated && s.rows[order[n]].key == order[n]
      && order[n] !in order[..n]
  {
    hide Tallied;
  }

  lemma {:induction false} Acknowledges(s: State, order: seq<Key>, u: nat, today: int, n: nat)
    requires AllTallied(s) && u < |s.uploads| && s.uploads[u].stage == Accepted(0) && n <= |order|
    requires ListsSome(s.rows, s.uploads[u].chain, s.uploads[u].uId, order)
    requires s.uploads[u].entries == Collected(s, order)
    ensures var t := Completed(s, u, today, n);
      && AcknowledgedFirst(s.rows, order, n, t.rows)
      && t == s.(rows := t.rows, uploads := s.uploads[u := s.uploads[u].(stage := Accepted(n))])
  {
    hide Tallied, AcknowledgedFirst, Acknowledged, Advanced, ListsSome, AllTallied, Collected, EventsOf;
    if n == 0 {
      AcknowledgedNone(s.rows, order);
      assert s.uploads[u := s.uploads[u].(stage := Accepted(0))] == s.uploads;
    } else {
      Acknowledges(s, order, u, today, n - 1);
      var t := Completed(s, u, today, n - 1);
      Listed(s, s.uploads[u].chain, s.uploads[u].uId, order, n - 1);
      AcknowledgesOne(s.rows, order, n - 1, t.rows);
      AdvancedOnce(t, u, today, n - 1);
      assert t.uploads[u := t.uploads[u].(stage := Accepted(n))] == s.uploads[u := s.uploads[u].(stage := Accepted(n))];
    }
  }

  lemma AcknowledgedNone(rows: map<Key, Row>, order: seq<Key>)
    ensures AcknowledgedFirst(rows, order, 0, rows)
  {}

  /** If nothing else happens between a snapshot and the end of its accepted upload, then afterwards the rows it carried
      are marked as reported, the identity's rows of past days that are so marked are gone, and no other row has
      changed. */
  lemma QuietPart(s: State, chain: string, uId: string, order: seq<Key>, assets: bool, today: int)
    requires AllTallied(s) && ListsSome(s.rows, chain, uId, order) && (|order| > 0 || assets)
    ensures var u := |s.uploads|;
      var t := Completed(Answered(Snapped(s, chain, uId, order, assets), u, true), u, today, |order| + 1);
      && (forall k :: k in t.rows <==> k in s.rows && !PastAndMarked(s, chain, uId, order, today, k))
      && (forall k :: k in t.rows ==> t.rows[k] == if k in order then s.rows[k].(updated := false) else s.rows[k])
  {
    hide Tallied, Completed, Collected, AllTallied, AcknowledgedFirst, PastAndMarked, Changed;
    var u := |s.uploads|;
    var s1 := Snapped(s, chain, uId, order, assets);
    var s2 := Answered(s1, u, true);
    CollectedSame(s, s2, order);
    SnapTallied(s, chain, uId, order, assets);
    AnswerTallied(s1, u, true);
    Acknowledges(s2, order, u, today, |order|);
    CompletedLast(s2, u, today, |order|);
    CleanedRows(s, chain, uId, order, today, Completed(s2, u, today, |order|));
  }

  /** A row of a past day that is marked as reported, or was among those sent. */
  predicate PastAndMarked(s: State, chain: string, uId: string, order: seq<Key>, today: int, k: Key)
    requires k in s.rows
  {
    OfIdentity(k, chain, uId) && k.date < today && (k in order || !s.rows[k].updated)
  }

  /** If the snapshot was complete, the identity's rows of past days are gone, its other rows are all marked as
      reported, and no other row has changed. */
  lemma QuietUpload(s: State, chain: string, uId: string, order: seq<Key>, assets: bool, today: int)
    requires AllTallied(s) && ListsChanged(s.rows, chain, uId, order) && (|order| > 0 || assets)
    ensures var u := |s.uploads|;
      var t := Completed(Answered(Snapped(s, chain, uId, order, assets), u, true), u, today, |order| + 1);
      && (forall k :: k in t.rows <==> k in s.rows && !(OfIdentity(k, chain, uId) && k.date < today))
      && (forall k :: k in t.rows ==>
        t.rows[k] == if OfIdentity(k, chain, uId) then s.rows[k].(updated := false) else s.rows[k])
  {
    hide Tallied, Completed, Answered, Snapped;
    QuietPart(s, chain, uId, order, assets, today);
    forall k | k in s.rows
      ensures k in order <==> OfIdentity(k, chain, uId) && s.rows[k].updated
    {
      assert s.rows[k].key == k;
    }
  }

  lemma CompletedLast(s: State, u: nat, today: int, n: nat)
    ensures Completed(s, u, today, n + 1) == Advanced(Completed(s, u, today, n), u, today, true)
  {}

  lemma CleanedRows(s: State, chain: string, uId: string, order: seq<Key>, today: int, t: State)
    requires AllTallied(s) && ListsSome(s.rows, chain, uId, order)
      && AcknowledgedFirst(s.rows, order, |order|, t.rows)
    ensures var rows := Cleaned(t, chain, uId, today).rows;
      && (forall k :: k in rows <==> k in s.rows && !PastAndMarked(s, chain, uId, order, today, k))
      && (forall k :: k in rows ==> rows[k] == if k in order then s.rows[k].(updated := false) else s.rows[k])
  {
    hide Tallied;
    assert order[..|order|] == order;
    forall k | k in s.rows
      ensures t.rows[k] == if k in order then s.rows[k].(updated := false) else s.rows[k]
      ensures t.rows[k].key == k
    {
      assert s.rows[k].key == k;
    }
  }

  lemma {:induction false} CollectedSame(s: State, t: State, order: seq<Key>)
    requires s.rows == t.rows && s.events == t.events
    requires forall i :: 0 <= i < |order| ==> order[i] in s.rows
    ensures Collected(s, order) == Collected(t, order)
  {}
}
