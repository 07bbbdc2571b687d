/** The transaction statistics as a state machine: events are folded into one row per group and day, snapshots
    of changed rows are sent to the server, and what the server accepted is acknowledged and then removed.
    Every database access may fail, and steps of several uploads and of recording interleave in any way. */
module MetricsModel {
  import opened Options

  const MAX_INT := 0x7fff_ffff_ffff_ffff

  /** The columns that identify a row; dates are days. */
  datatype Key = Key(chain: string, uId: string, actionType: int, tokenAddress: string, date: int)

  datatype Amounts = Amounts(token: real, energy: real, bandwidth: real, burn: real)

  type Buckets = b: seq<int> | |b| == 9 witness [0, 0, 0, 0, 0, 0, 0, 0, 0]

  const NO_BUCKETS: Buckets := [0, 0, 0, 0, 0, 0, 0, 0, 0]

  datatype Row = Row(key: Key, idType: int, count: int, amounts: Amounts, buckets: Buckets, updated: bool)

  /** What is written: without buckets, those columns stay as they are. */
  datatype Model = Model(idType: int, count: int, amounts: Amounts, buckets: Option<Buckets>)

  /** One recorded transaction; only native and USDT transfers are put into buckets. */
  datatype Event = Event(key: Key, idType: int, amounts: Amounts, bucketed: bool)

  // ---- buckets ----

  const THRESHOLDS: seq<real> := [1.0, 10.0, 100.0, 1000.0, 10000.0, 100000.0, 1000000.0, 10000000.0]

  /** The positive amounts, cut at the powers of ten; each interval contains its upper end. */
  predicate InBucket(amount: real, i: nat)
  {
    && i < 9
    && (if i == 0 then 0.0 else THRESHOLDS[i - 1]) < amount
    && (i < 8 ==> amount <= THRESHOLDS[i])
  }

  function FirstBucket(amount: real, i: nat): (r: nat)
    requires i <= 8 && (if i == 0 then 0.0 else THRESHOLDS[i - 1]) < amount
    ensures InBucket(amount, r)
    decreases 8 - i
  {
    if i == 8 || amount <= THRESHOLDS[i] then i else FirstBucket(amount, i + 1)
  }

  function BucketOf(amount: real): Option<nat>
  {
    if amount <= 0.0 then None else Some(FirstBucket(amount, 0))
  }

  /** The bucket of an amount is the only interval that contains it; only amounts that are not positive have none. */
  lemma BucketIsInterval(amount: real, i: nat)
    ensures BucketOf(amount) == Some(i) <==> InBucket(amount, i)
    ensures BucketOf(amount) == None <==> amount <= 0.0
  {
    if InBucket(amount, i) {
      var j := FirstBucket(amount, 0);
      assert InBucket(amount, j) && i == j;
    }
  }

  /** distributionTokenAmount */
  function Distributed(amount: real, local: Buckets): Buckets
  {
    match BucketOf(amount)
    case None => local
    case Some(i) => if i < 9 then local[i := local[i] + 1] else local
  }

  function Total(b: Buckets): int
  {
    b[0] + b[1] + b[2] + b[3] + b[4] + b[5] + b[6] + b[7] + b[8]
  }

  // ---- recording ----

  function Sum(a: Amounts, b: Amounts): Amounts
  {
    Amounts(a.token + b.token, a.energy + b.energy, a.bandwidth + b.bandwidth, a.burn + b.burn)
  }

  function Increments(e: Event): Option<Buckets>
  {
    if e.bucketed then Some(Distributed(e.amounts.token, NO_BUCKETS)) else None
  }

  /** Whether the totals of the first n buckets are counts of the machine. */
  predicate BucketsAddable(previous: Buckets, increments: Buckets, n: nat)
    requires n <= 9
  {
    forall i :: 0 <= i < n ==> 0 <= previous[i] && previous[i] + increments[i] <= MAX_INT
  }

  function AddBuckets(previous: Buckets, increments: Buckets): Buckets
  {
    [previous[0] + increments[0], previous[1] + increments[1], previous[2] + increments[2],
     previous[3] + increments[3], previous[4] + increments[4], previous[5] + increments[5],
     previous[6] + increments[6], previous[7] + increments[7], previous[8] + increments[8]]
  }

  /** The transform of upsertTransactionsData. */
  function Transform(current: Option<Row>, e: Event, addable: bool): Option<Model>
  {
    match current
    case None => Some(Model(e.idType, 1, e.amounts, Increments(e)))
    case Some(row) =>
      if row.count < 0 || row.count + 1 > MAX_INT || !addable then None
      else match Increments(e)
        case None => Some(Model(e.idType, row.count + 1, Sum(row.amounts, e.amounts), None))
        case Some(increments) =>
          if !BucketsAddable(row.buckets, increments, 9) then None
          else Some(Model(e.idType, row.count + 1, Sum(row.amounts, e.amounts),
            Some(AddBuckets(row.buckets, increments))))
  }

  /** The row after an insert or an update. */
  function Written(current: Option<Row>, key: Key, model: Model): Row
  {
    var buckets :=
      if model.buckets.Some? then model.buckets.value
      else if current.Some? then current.value.buckets
      else NO_BUCKETS;
    Row(key, model.idType, model.count, model.amounts, buckets, true)
  }

  // ---- the state ----

  /** A row together with the events folded into it, by their position among all saved events. */
  datatype Entry = Entry(row: Row, events: seq<nat>)

  datatype Stage = Sent | Rejected | Accepted(next: nat) | Finished

  /** An upload: the rows it carries, and how far its completion got. */
  datatype Upload = Upload(chain: string, uId: string, entries: seq<Entry>, stage: Stage)

  /** The table and the uploads; the other three parts only remember what happened: the events folded into
      each row, all events that were saved, and the rows that were removed, by key. */
  datatype State = State(
    rows: map<Key, Row>,
    uploads: seq<Upload>,
    events: map<Key, seq<nat>>,
    saved: seq<Event>,
    removed: map<Key, seq<Entry>>)

  const EMPTY := State(map[], [], map[], [], map[])

  function Lookup(rows: map<Key, Row>, k: Key): Option<Row>
  {
    if k in rows then Some(rows[k]) else None
  }

  function EventsOf(s: State, k: Key): seq<nat>
  {
    if k in s.events then s.events[k] else []
  }

  function RemovedOf(s: State, k: Key): seq<Entry>
  {
    if k in s.removed then s.removed[k] else []
  }

  // ---- steps ----

  datatype Op =
    | Record(event: Event, readable: bool, addable: bool, committed: bool)
    | Snapshot(chain: string, uId: string, order: seq<Key>, assets: bool)
    | Answer(upload: nat, success: bool)
    | Advance(upload: nat, today: int, done: bool)

  /** An event whose numbers can be read is folded into its row, if that is possible and the transaction commits. */
  function Recorded(s: State, e: Event, readable: bool, addable: bool, committed: bool): State
  {
    var current := Lookup(s.rows, e.key);
    var model := Transform(current, e, addable);
    if !readable || model.None? || !committed then s
    else s.(
      rows := s.rows[e.key := Written(current, e.key, model.value)],
      events := s.events[e.key := (if current.Some? then EventsOf(s, e.key) else []) + [|s.saved|]],
      saved := s.saved + [e])
  }

  predicate Changed(row: Row, chain: string, uId: string)
  {
    row.key.chain == chain && row.key.uId == uId && row.updated
  }

  /** Changed rows of an identity, each once, in the order the query happens to give; it may fail before the last. */
  predicate ListsSome(rows: map<Key, Row>, chain: string, uId: string, order: seq<Key>)
  {
    && (forall i :: 0 <= i < |order| ==> order[i] in rows && Changed(rows[order[i]], chain, uId))
    && (forall i, j :: 0 <= i < j < |order| ==> order[i] != order[j])
  }

  /** All of them. */
  predicate ListsChanged(rows: map<Key, Row>, chain: string, uId: string, order: seq<Key>)
  {
    ListsSome(rows, chain, uId, order) && forall k :: k in rows && Changed(rows[k], chain, uId) ==> k in order
  }

  function Collected(s: State, order: seq<Key>): (r: seq<Entry>)
    requires forall i :: 0 <= i < |order| ==> order[i] in s.rows
    ensures |r| == |order|
    ensures forall i :: 0 <= i < |r| ==> r[i] == Entry(s.rows[order[i]], EventsOf(s, order[i]))
  {
    if |order| == 0 then [] else [Entry(s.rows[order[0]], EventsOf(s, order[0]))] + Collected(s, order[1..])
  }

  /** An upload of the rows that could be read is sent if there is anything to send, assets included. */
  function Snapped(s: State, chain: string, uId: string, order: seq<Key>, assets: bool): State
  {
    if !ListsSome(s.rows, chain, uId, order) || (|order| == 0 && !assets) then s
    else s.(uploads := s.uploads + [Upload(chain, uId, Collected(s, order), Sent)])
  }

  function Answered(s: State, u: nat, success: bool): State
  {
    if u >= |s.uploads| || !s.uploads[u].stage.Sent? then s
    else s.(uploads := s.uploads[u := s.uploads[u].(stage := if success then Accepted(0) else Rejected)])
  }

  /** Equal in every column but updated. */
  predicate Same(a: Row, b: Row)
  {
    a == b.(updated := a.updated)
  }

  /** acknowledgeUploadedTransaction: the row is marked as reported if it still is exactly what was uploaded. */
  function Acknowledged(rows: map<Key, Row>, uploaded: Row, done: bool): map<Key, Row>
  {
    var k := uploaded.key;
    if done && k in rows && rows[k].updated && Same(rows[k], uploaded)
    then rows[k := rows[k].(updated := false)] else rows
  }

  predicate Removable(row: Row, chain: string, uId: string, today: int)
  {
    row.key.chain == chain && row.key.uId == uId && row.key.date < today && !row.updated
  }

  /** deleteTransactionSyncBeforeToday */
  function Cleaned(s: State, chain: string, uId: string, today: int): State
  {
    var out := set k | k in s.rows && Removable(s.rows[k], chain, uId, today);
    s.(
      rows := s.rows - out,
      events := s.events - out,
      removed := map k | k in s.removed.Keys + out ::
        RemovedOf(s, k) + if k in out then [Entry(s.rows[k], EventsOf(s, k))] else [])
  }

  /** The next step after an accepted upload: one acknowledgement after the other, then the cleanup. */
  function Advanced(s: State, u: nat, today: int, done: bool): State
  {
    if u >= |s.uploads| || !s.uploads[u].stage.Accepted? then s
    else
      var upload := s.uploads[u];
      var next := upload.stage.next;
      if next < |upload.entries| then
        s.(rows := Acknowledged(s.rows, upload.entries[next].row, done),
           uploads := s.uploads[u := upload.(stage := Accepted(next + 1))])
      else
        var t := s.(uploads := s.uploads[u := upload.(stage := Finished)]);
        if done then Cleaned(t, upload.chain, upload.uId, today) else t
  }

  function Apply(s: State, op: Op): State
  {
    match op
    case Record(event, readable, addable, committed) => Recorded(s, event, readable, addable, committed)
    case Snapshot(chain, uId, order, assets) => Snapped(s, chain, uId, order, assets)
    case Answer(u, success) => Answered(s, u, success)
    case Advance(u, today, done) => Advanced(s, u, today, done)
  }

  function Run(s: State, ops: seq<Op>): State
  {
    if |ops| == 0 then s else Apply(Run(s, ops[..|ops| - 1]), ops[|ops| - 1])
  }

  // ---- rows are reported before they are removed ----

  predicate IsAccepted(stage: Stage)
  {
    stage.Accepted? || stage.Finished?
  }

  predicate AcceptedAs(u: Upload, i: nat, row: Row)
  {
    IsAccepted(u.stage) && i < |u.entries| && Same(row, u.entries[i].row)
  }

  /** The row's content was in a snapshot that the server accepted. */
  ghost predicate Reported(uploads: seq<Upload>, row: Row)
  {
    exists u: nat, i: nat :: u < |uploads| && AcceptedAs(uploads[u], i, row)
  }

  ghost predicate OnlyReported(s: State)
  {
    && (forall k :: k in s.rows && !s.rows[k].updated ==> Reported(s.uploads, s.rows[k]))
    && (forall k, j :: k in s.removed && 0 <= j < |s.removed[k]| ==> Reported(s.uploads, s.removed[k][j].row))
  }

  /** Accepted uploads stay, whatever else happens to the uploads. */
  ghost predicate Grown(before: seq<Upload>, after: seq<Upload>)
  {
    |before| <= |after| && forall u :: 0 <= u < |before| ==>
      before[u].entries == after[u].entries && (IsAccepted(before[u].stage) ==> IsAccepted(after[u].stage))
  }

  lemma ReportedStays(before: seq<Upload>, after: seq<Upload>, row: Row)
    requires Grown(before, after) && Reported(before, row)
    ensures Reported(after, row)
  {
    var u: nat, i: nat :| u < |before| && AcceptedAs(before[u], i, row);
    assert AcceptedAs(after[u], i, row);
  }

  lemma ApplyGrows(s: State, op: Op)
    ensures Grown(s.uploads, Apply(s, op).uploads)
  {
    hide Transform, Written, Collected, ListsSome, Acknowledged, Cleaned;
    match op {
      case Record(_, _, _, _) =>
      case Snapshot(chain, uId, order, assets) =>
      case Answer(u, success) =>
      case Advance(u, today, done) => AdvanceGrows(s, u, today, done);
    }
  }

  lemma AdvanceGrows(s: State, u: nat, today: int, done: bool)
    ensures Grown(s.uploads, Advanced(s, u, today, done).uploads)
  {
    hide Acknowledged, Removable, RemovedOf;
  }

  lemma AcknowledgeReported(s: State, u: nat, today: int, done: bool)
    requires OnlyReported(s)
    requires u < |s.uploads| && s.uploads[u].stage.Accepted? && s.uploads[u].stage.next < |s.uploads[u].entries|
    ensures OnlyReported(Advanced(s, u, today, done))
  {
    var t := Advanced(s, u, today, done);
    var next := s.uploads[u].stage.next;
    ApplyGrows(s, Advance(u, today, done));
    assert AcceptedAs(t.uploads[u], next, s.uploads[u].entries[next].row);
    forall k | k in t.rows && !t.rows[k].updated ensures Reported(t.uploads, t.rows[k]) {
      if k in s.rows && !s.rows[k].updated {
        ReportedStays(s.uploads, t.uploads, s.rows[k]);
      } else {
        assert AcceptedAs(t.uploads[u], next, t.rows[k]);
      }
    }
    RemovedReported(s, t);
  }

  lemma RemovedReported(s: State, t: State)
    requires OnlyReported(s) && Grown(s.uploads, t.uploads) && t.removed == s.removed
    ensures forall k, j :: k in t.removed && 0 <= j < |t.removed[k]| ==> Reported(t.uploads, t.removed[k][j].row)
  {
    forall k, j | k in t.removed && 0 <= j < |t.removed[k]| ensures Reported(t.uploads, t.removed[k][j].row) {
      ReportedStays(s.uploads, t.uploads, s.removed[k][j].row);
    }
  }

  lemma CleanReported(s: State, chain: string, uId: string, today: int)
    requires OnlyReported(s)
    ensures OnlyReported(Cleaned(s, chain, uId, today))
  {
    hide Reported;
    var t := Cleaned(s, chain, uId, today);
    forall k, j | k in t.removed && 0 <= j < |t.removed[k]| ensures Reported(t.uploads, t.removed[k][j].row) {
      if j < |RemovedOf(s, k)| {
        assert t.removed[k][j] == s.removed[k][j];
      } else {
        assert t.removed[k][j].row == s.rows[k];
      }
    }
  }

  lemma ApplyReported(s: State, op: Op)
    requires OnlyReported(s)
    ensures OnlyReported(Apply(s, op))
  {
    hide Reported, OnlyReported, Grown, Increments, IsAccepted, ListsSome, Lookup;
    var t := Apply(s, op);
    ApplyGrows(s, op);
    match op {
      case Advance(u, today, done) =>
        if u < |s.uploads| && s.uploads[u].stage.Accepted? {
          if s.uploads[u].stage.next < |s.uploads[u].entries| {
            AcknowledgeReported(s, u, today, done);
          } else {
            var w := s.(uploads := s.uploads[u := s.uploads[u].(stage := Finished)]);
            KeepReported(s, w);
            CleanReported(w, s.uploads[u].chain, s.uploads[u].uId, today);
          }
        }
      case _ => KeepReported(s, t);
    }
  }

  lemma KeepReported(s: State, t: State)
    requires OnlyReported(s) && Grown(s.uploads, t.uploads) && t.removed == s.removed
    requires forall k :: k in t.rows && !t.rows[k].updated ==> k in s.rows && t.rows[k] == s.rows[k]
    ensures OnlyReported(t)
  {
    forall k | k in t.rows && !t.rows[k].updated ensures Reported(t.uploads, t.rows[k]) {
      ReportedStays(s.uploads, t.uploads, s.rows[k]);
    }
    RemovedReported(s, t);
  }

  /** What one recording does in a reachable state: it is refused, and then nothing changes, exactly if an access fails,
      the count is the largest or a sum cannot be formed; otherwise the event is saved and only its row changes. */
  lemma RecordExact(s: State, e: Event, readable: bool, addable: bool, committed: bool)
    requires AllTallied(s)
    ensures var t, k := Apply(s, Record(e, readable, addable, committed)), e.key;
      if !readable || !committed || (k in s.rows && (s.rows[k].count == MAX_INT || !addable)) then t == s
      else
        && t.saved == s.saved + [e] && t.uploads == s.uploads && t.removed == s.removed
        && t.rows.Keys == s.rows.Keys + {k} && (forall j :: j in s.rows && j != k ==> t.rows[j] == s.rows[j])
        && t.rows[k].updated && t.rows[k].idType == e.idType
        && t.rows[k].count == (if k in s.rows then s.rows[k].count else 0) + 1
  {
    hide Tallied, Increments, BucketsAddable, Sum;
    TransformFails(s, e, addable);
  }

  /** What fails or only concerns uploads changes no row: an access that fails, an answer, a snapshot. */
  lemma FailedChangesNothing(s: State, op: Op)
    ensures op.Record? && !(op.readable && op.committed) ==> Apply(s, op) == s
    ensures (op.Advance? && !op.done) || op.Snapshot? || op.Answer? ==>
      Apply(s, op) == s.(uploads := Apply(s, op).uploads)
  {
    hide Collected, ListsSome;
  }

  lemma {:induction false} AlwaysOnlyReported(ops: seq<Op>)
    ensures OnlyReported(Run(EMPTY, ops))
  {
    if |ops| > 0 {
      AlwaysOnlyReported(ops[..|ops| - 1]);
      ApplyReported(Run(EMPTY, ops[..|ops| - 1]), ops[|ops| - 1]);
    }
  }

  // ---- what the server said ----

  /** Operation i is the server's answer to upload u, which has been sent and not answered before. */
  predicate Answers(ops: seq<Op>, i: nat, u: nat, success: bool)
  {
    && i < |ops| && ops[i] == Answer(u, success)
    && var s := Run(EMPTY, ops[..i]); u < |s.uploads| && s.uploads[u].stage == Sent
  }

  ghost predicate AnsweredYes(ops: seq<Op>, u: nat)
  {
    exists i :: Answers(ops, i, u, true)
  }

  ghost predicate AnsweredNo(ops: seq<Op>, u: nat)
  {
    exists i :: Answers(ops, i, u, false)
  }

  lemma AnswersStays(ops: seq<Op>, op: Op, i: nat, u: nat, success: bool)
    requires i < |ops|
    ensures Answers(ops + [op], i, u, success) <==> Answers(ops, i, u, success)
  {
    assert (ops + [op])[..i] == ops[..i];
  }

  /** How one operation changes the stage of an upload. */
  lemma StageNext(s: State, op: Op, u: nat)
    ensures u < |s.uploads| ==> u < |Apply(s, op).uploads|
    ensures u < |Apply(s, op).uploads| ==>
      var stage := Apply(s, op).uploads[u].stage;
      if u >= |s.uploads| then stage == Sent
      else if s.uploads[u].stage.Sent? then
        stage == if op == Answer(u, true) then Accepted(0) else if op == Answer(u, false) then Rejected else Sent
      else if s.uploads[u].stage.Rejected? then stage == Rejected
      else IsAccepted(stage)
  {
    hide Transform, Written, Acknowledged, Removable, RemovedOf, Collected, ListsSome;
  }

  /** An upload counts as accepted exactly if the server's answer to it was a success, as rejected exactly
      if it was not, and as sent exactly if there has been none. */
  lemma {:induction false} StageExact(ops: seq<Op>, u: nat)
    ensures u < |Run(EMPTY, ops).uploads| ==>
      var stage := Run(EMPTY, ops).uploads[u].stage;
      && (IsAccepted(stage) <==> AnsweredYes(ops, u)) && (stage.Rejected? <==> AnsweredNo(ops, u))
    ensures u >= |Run(EMPTY, ops).uploads| ==> !AnsweredYes(ops, u) && !AnsweredNo(ops, u)
  {
    hide Apply, Answers;
    if |ops| == 0 {
      NoAnswers(ops, u);
    } else {
      var before, op := ops[..|ops| - 1], ops[|ops| - 1];
      assert ops == before + [op];
      StageExact(before, u);
      StageNext(Run(EMPTY, before), op, u);
      LastAnswer(before, op, u, true);
      LastAnswer(before, op, u, false);
    }
  }

  lemma NoAnswers(ops: seq<Op>, u: nat)
    requires |ops| == 0
    ensures !AnsweredYes(ops, u) && !AnsweredNo(ops, u) && |Run(EMPTY, ops).uploads| == 0
  {}

  lemma LastAnswer(before: seq<Op>, op: Op, u: nat, success: bool)
    ensures (exists i :: Answers(before + [op], i, u, success)) <==>
      (exists i :: Answers(before, i, u, success)) || Answers(before + [op], |before|, u, success)
    ensures Answers(before + [op], |before|, u, success) <==>
      op == Answer(u, success) && var s := Run(EMPTY, before); u < |s.uploads| && s.uploads[u].stage == Sent
  {
    assert (before + [op])[..|before|] == before;
    forall i | 0 <= i < |before| ensures Answers(before + [op], i, u, success) <==> Answers(before, i, u, success) {
      AnswersStays(before, op, i, u, success);
    }
    if i :| Answers(before, i, u, success) { assert Answers(before + [op], i, u, success); }
    if i :| Answers(before + [op], i, u, success) && i != |before| { assert Answers(before, i, u, success); }
  }

  /** An upload carries what the table held when it was taken. */
  predicate Takes(ops: seq<Op>, j: nat, u: nat, entries: seq<Entry>)
  {
    && j < |ops| && ops[j].Snapshot?
    && var s := Run(EMPTY, ops[..j]);
       && |s.uploads| == u && |entries| == |ops[j].order|
       && forall i :: 0 <= i < |entries| ==>
            var k := ops[j].order[i];
            k in s.rows && s.rows[k].updated && entries[i] == Entry(s.rows[k], EventsOf(s, k))
  }

  lemma TakesStays(ops: seq<Op>, op: Op, j: nat, u: nat, entries: seq<Entry>)
    requires Takes(ops, j, u, entries)
    ensures Takes(ops + [op], j, u, entries)
  {
    assert (ops + [op])[..j] == ops[..j];
  }

  lemma TakenNow(ops: seq<Op>, op: Op, u: nat)
    requires u >= |Run(EMPTY, ops).uploads| && u < |Apply(Run(EMPTY, ops), op).uploads|
    ensures Takes(ops + [op], |ops|, u, Apply(Run(EMPTY, ops), op).uploads[u].entries)
  {
    hide Transform, Written, Acknowledged, Removable, RemovedOf, EventsOf, Run;
    assert (ops + [op])[..|ops|] == ops;
  }

  lemma {:induction false} AlwaysTaken(ops: seq<Op>, u: nat)
    requires u < |Run(EMPTY, ops).uploads|
    ensures exists j :: Takes(ops, j, u, Run(EMPTY, ops).uploads[u].entries)
  {
    hide Apply, Takes;
    var before, op := ops[..|ops| - 1], ops[|ops| - 1];
    assert ops == before + [op];
    if u < |Run(EMPTY, before).uploads| {
      AlwaysTaken(before, u);
      ApplyGrows(Run(EMPTY, before), op);
      var j :| Takes(before, j, u, Run(EMPTY, before).uploads[u].entries);
      TakesStays(before, op, j, u, Run(EMPTY, before).uploads[u].entries);
    } else {
      TakenNow(before, op, u);
    }
  }

  /** Upload u, to which the server answered with success, carried an entry: the row as it was when the upload
      was taken. */
  ghost predicate Carried(ops: seq<Op>, u: nat, i: nat, entry: Entry)
  {
    && AnsweredYes(ops, u) && u < |Run(EMPTY, ops).uploads|
    && i < |Run(EMPTY, ops).uploads[u].entries| && Run(EMPTY, ops).uploads[u].entries[i] == entry
    && exists j :: Takes(ops, j, u, Run(EMPTY, ops).uploads[u].entries)
  }

  /** The server has the content of the row, whatever its mark. */
  ghost predicate ServerHas(ops: seq<Op>, row: Row)
  {
    exists u: nat, i: nat, entry: Entry ::
      Carried(ops, u, i, entry) && entry.row.(updated := true) == row.(updated := true)
  }

  lemma ReportedServerHas(ops: seq<Op>, row: Row)
    requires Reported(Run(EMPTY, ops).uploads, row)
    ensures ServerHas(ops, row)
  {
    hide Run, IsAccepted;
    var uploads := Run(EMPTY, ops).uploads;
    var u: nat, i: nat :| u < |uploads| && AcceptedAs(uploads[u], i, row);
    StageExact(ops, u);
    AlwaysTaken(ops, u);
    assert Carried(ops, u, i, uploads[u].entries[i]);
  }

  /** In every reachable state, every row that is marked as reported, and every row that was ever removed, was with
      exactly its content in a snapshot that the server answered with success. */
  lemma AlwaysReported(ops: seq<Op>)
    ensures var s := Run(EMPTY, ops);
      && (forall k :: k in s.rows && !s.rows[k].updated ==> ServerHas(ops, s.rows[k]))
      && (forall k, j :: k in s.removed && 0 <= j < |s.removed[k]| ==> ServerHas(ops, s.removed[k][j].row))
  {
    hide Run, Reported, ServerHas;
    var s := Run(EMPTY, ops);
    AlwaysOnlyReported(ops);
    forall k | k in s.rows && !s.rows[k].updated ensures ServerHas(ops, s.rows[k]) {
      ReportedServerHas(ops, s.rows[k]);
    }
    forall k, j | k in s.removed && 0 <= j < |s.removed[k]| ensures ServerHas(ops, s.removed[k][j].row) {
      ReportedServerHas(ops, s.removed[k][j].row);
    }
  }

  // ---- rows count their events ----

  /** The row counts its events: their positions are distinct, in order and theirs, the last one gives the wallet type,
      and buckets are within the count. */
  ghost predicate Tallied(saved: seq<Event>, row: Row, events: seq<nat>)
  {
    && |events| == row.count
    && 1 <= row.count <= MAX_INT
    && (forall i :: 0 <= i < |events| ==> events[i] < |saved| && saved[events[i]].key == row.key)
    && (forall i, j :: 0 <= i < j < |events| ==> events[i] < events[j])
    && row.idType == saved[events[|events| - 1]].idType
    && (forall i :: 0 <= i < 9 ==> 0 <= row.buckets[i])
    && Total(row.buckets) <= row.count
  }

  ghost predicate AllTallied(s: State)
  {
    && (forall k :: k in s.rows ==> s.rows[k].key == k && Tallied(s.saved, s.rows[k], EventsOf(s, k)))
    && (forall u, i :: 0 <= u < |s.uploads| && 0 <= i < |s.uploads[u].entries| ==>
          Tallied(s.saved, s.uploads[u].entries[i].row, s.uploads[u].entries[i].events))
  }

  lemma DistributedTotal(amount: real)
    ensures var b := Distributed(amount, NO_BUCKETS);
      && Total(b) == (if amount > 0.0 then 1 else 0)
      && forall i :: 0 <= i < 9 ==> b[i] == (if InBucket(amount, i) then 1 else 0)
  {
    forall i | 0 <= i < 9 ensures Distributed(amount, NO_BUCKETS)[i] == (if InBucket(amount, i) then 1 else 0) {
      BucketIsInterval(amount, i);
    }
    if amount > 0.0 {
      var j := FirstBucket(amount, 0);
      assert InBucket(amount, j);
      assert j == 0 || j == 1 || j == 2 || j == 3 || j == 4 || j == 5 || j == 6 || j == 7 || j == 8;
    }
  }

  predicate Outgrown(n: int, more: bool)
  {
    n < 0 || n + (if more then 1 else 0) > MAX_INT
  }

  /** For any row, also one that no run leads to: an event is refused exactly if the count or a bucket is negative or
      would outgrow an Int, or a sum cannot be formed. */
  lemma RefusedExactly(row: Row, e: Event, addable: bool)
    ensures Transform(Some(row), e, addable).None? <==>
      || row.count < 0 || row.count >= MAX_INT || !addable
      || (e.bucketed && exists i :: 0 <= i < 9 && Outgrown(row.buckets[i], InBucket(e.amounts.token, i)))
  {
    if e.bucketed {
      var increments := Increments(e).value;
      forall i | 0 <= i < 9 ensures increments[i] == if InBucket(e.amounts.token, i) then 1 else 0 {
        BucketIsInterval(e.amounts.token, i);
      }
      assert BucketsAddable(row.buckets, increments, 9) <==> forall i :: 0 <= i < 9 ==>
        0 <= row.buckets[i] && row.buckets[i] + increments[i] <= MAX_INT;
    }
  }

  /** On a tallied row only the largest count or a failing sum stops an event: the bucket guards never do. */
  lemma TransformFails(s: State, e: Event, addable: bool)
    requires AllTallied(s)
    ensures var current := Lookup(s.rows, e.key);
      Transform(current, e, addable).None? <==> current.Some? && (current.value.count == MAX_INT || !addable)
  {
    var current := Lookup(s.rows, e.key);
    DistributedTotal(e.amounts.token);
    if current.Some? && current.value.count < MAX_INT {
      assert Tallied(s.saved, s.rows[e.key], EventsOf(s, e.key));
      BucketsWithinTotal(current.value.buckets);
    }
  }

  lemma BucketsWithinTotal(b: Buckets)
    requires forall i :: 0 <= i < 9 ==> 0 <= b[i]
    ensures forall i :: 0 <= i < 9 ==> b[i] <= Total(b)
  {}

  lemma AddedTotal(e: Event, previous: Buckets)
    requires e.bucketed
    ensures var increments := Distributed(e.amounts.token, NO_BUCKETS);
      && Total(increments) <= 1
      && Total(AddBuckets(previous, increments)) <= Total(previous) + 1
      && forall i :: 0 <= i < 9 ==> increments[i] >= 0 && AddBuckets(previous, increments)[i] >= previous[i]
  {
    hide BucketOf, FirstBucket;
    DistributedTotal(e.amounts.token);
  }

  /** Folding an event into a row adds its position and its count; other rows do not notice. */
  lemma WrittenTallied(saved: seq<Event>, current: Option<Row>, events: seq<nat>, e: Event, addable: bool)
    requires current.Some? ==> current.value.key == e.key && Tallied(saved, current.value, events)
    requires current.None? ==> events == []
    requires Transform(current, e, addable).Some?
    ensures Tallied(saved + [e], Written(current, e.key, Transform(current, e, addable).value), events + [|saved|])
  {
    hide BucketOf, FirstBucket, Distributed, AddBuckets;
    var model := Transform(current, e, addable).value;
    if e.bucketed { AddedTotal(e, if current.Some? then current.value.buckets else NO_BUCKETS); }
  }

  lemma TalliedStays(saved: seq<Event>, e: Event, row: Row, events: seq<nat>)
    requires Tallied(saved, row, events)
    ensures Tallied(saved + [e], row, events)
  {}

  lemma RecordTallied(s: State, e: Event, addable: bool)
    requires AllTallied(s)
    ensures AllTallied(Recorded(s, e, true, addable, true))
  {
    hide Transform, Written, Tallied;
    var t := Recorded(s, e, true, addable, true);
    var current := Lookup(s.rows, e.key);
    if Transform(current, e, addable).Some? {
      WrittenTallied(s.saved, current, if current.Some? then EventsOf(s, e.key) else [], e, addable);
      WrittenKey(current, e.key, Transform(current, e, addable).value);
      forall j | j in t.rows && j != e.key ensures t.rows[j].key == j && Tallied(t.saved, t.rows[j], EventsOf(t, j)) {
        TalliedStays(s.saved, e, s.rows[j], EventsOf(s, j));
      }
      forall u, i | 0 <= u < |t.uploads| && 0 <= i < |t.uploads[u].entries|
        ensures Tallied(t.saved, t.uploads[u].entries[i].row, t.uploads[u].entries[i].events)
      {
        TalliedStays(s.saved, e, s.uploads[u].entries[i].row, s.uploads[u].entries[i].events);
      }
    }
  }

  lemma WrittenKey(current: Option<Row>, key: Key, model: Model)
    ensures Written(current, key, model).key == key
  {}

  /** Being reported does not change what a row counts. */
  lemma TalliedSame(saved: seq<Event>, row: Row, updated: bool, events: seq<nat>)
    requires Tallied(saved, row, events)
    ensures Tallied(saved, row.(updated := updated), events)
  {}

  lemma SnapTallied(s: State, chain: string, uId: string, order: seq<Key>, assets: bool)
    requires AllTallied(s)
    ensures AllTallied(Snapped(s, chain, uId, order, assets))
  {
    hide Tallied;
  }

  lemma AdvanceTallied(s: State, u: nat, today: int, done: bool)
    requires AllTallied(s)
    ensures AllTallied(Advanced(s, u, today, done))
  {
    hide Tallied, Removable, RemovedOf, Same, Total;
    var t := Advanced(s, u, today, done);
    forall k | k in t.rows ensures t.rows[k].key == k && Tallied(t.saved, t.rows[k], EventsOf(t, k)) {
      TalliedSame(s.saved, s.rows[k], false, EventsOf(s, k));
    }
  }

  lemma AnswerTallied(s: State, u: nat, success: bool)
    requires AllTallied(s)
    ensures AllTallied(Answered(s, u, success))
  {
    hide Tallied;
  }

  lemma ApplyTallied(s: State, op: Op)
    requires AllTallied(s)
    ensures AllTallied(Apply(s, op))
  {
    hide AllTallied, Recorded, Snapped, Answered, Advanced;
    match op {
      case Record(e, readable, addable, committed) =>
        RecordTallied(s, e, addable);
        RecordedOrNot(s, e, readable, addable, committed);
      case Snapshot(chain, uId, order, assets) => SnapTallied(s, chain, uId, order, assets);
      case Answer(u, success) => AnswerTallied(s, u, success);
      case Advance(u, today, done) => AdvanceTallied(s, u, today, done);
    }
  }

  lemma RecordedOrNot(s: State, e: Event, readable: bool, addable: bool, committed: bool)
    ensures var t := Recorded(s, e, readable, addable, committed);
      t == s || t == Recorded(s, e, true, addable, true)
  {}

  /** In every reachable state a row's count is the number of events folded into it, each saved under the row's
      key and none twice, and A1 to A9 add up to at most the count. */
  lemma {:induction false} AlwaysTallied(ops: seq<Op>)
    ensures AllTallied(Run(EMPTY, ops))
  {
    if |ops| > 0 {
      AlwaysTallied(ops[..|ops| - 1]);
      ApplyTallied(Run(EMPTY, ops[..|ops| - 1]), ops[|ops| - 1]);
    }
  }
}
