/** TRXMetricsDBManager.swift and TRXStatisticalUploadManager.swift: the table of transaction statistics and the
    uploads in flight, as an object that goes through the states of the model. */
module Metrics {
  import opened Options
  import opened MetricsModel

  /** distributionTokenAmount: the bucket of a positive amount is counted up. */
  method DistributionTokenAmount(amount: real, local: Buckets) returns (res: Buckets)
    ensures amount <= 0.0 ==> res == local
    ensures amount > 0.0 ==> exists i: nat :: i < 9 && InBucket(amount, i) && res == local[i := local[i] + 1]
    ensures res == Distributed(amount, local)
  {
    res := local;
    if amount <= 0.0 { return; }
    var i := 0;
    while i < |THRESHOLDS|
      invariant 0 <= i <= 8 && res == local
      invariant (if i == 0 then 0.0 else THRESHOLDS[i - 1]) < amount
    {
      if amount <= THRESHOLDS[i] {
        BucketIsInterval(amount, i);
        res := res[i := res[i] + 1];
        return;
      }
      i := i + 1;
    }
    BucketIsInterval(amount, 8);
    res := res[8 := res[8] + 1];
  }

  /** The loop over the buckets in the transform; a count that cannot be represented gives up. */
  method AddAll(previous: Buckets, increments: Buckets) returns (sums: Option<Buckets>)
    ensures sums == if BucketsAddable(previous, increments, 9) then Some(AddBuckets(previous, increments)) else None
  {
    var model := increments;
    var i := 0;
    while i < 9
      invariant 0 <= i <= 9 && BucketsAddable(previous, increments, i)
      invariant forall j :: 0 <= j < 9 ==> model[j] == if j < i then previous[j] + increments[j] else increments[j]
    {
      if previous[i] < 0 || previous[i] + increments[i] > MAX_INT { return None; }
      model := model[i := previous[i] + increments[i]];
      i := i + 1;
    }
    assert model == AddBuckets(previous, increments);
    return Some(model);
  }

  /** The transform of upsertTransactionsData. */
  method TransformRow(current: Option<Row>, event: Event, addable: bool) returns (model: Option<Model>)
    ensures model == Transform(current, event, addable)
  {
    var increments: Option<Buckets> := None;
    if event.bucketed {
      var counted := DistributionTokenAmount(event.amounts.token, NO_BUCKETS);
      increments := Some(counted);
    }
    if current.None? { return Some(Model(event.idType, 1, event.amounts, increments)); }
    var row := current.value;
    if row.count < 0 || row.count + 1 > MAX_INT || !addable { return None; }
    var sums := increments;
    if increments.Some? {
      sums := AddAll(row.buckets, increments.value);
      if sums.None? { return None; }
    }
    return Some(Model(event.idType, row.count + 1, Sum(row.amounts, event.amounts), sums));
  }

  /** The table and the uploads; the other three fields only remember what happened. */
  class Statistics {
    var rows: map<Key, Row>
    var uploads: seq<Upload>
    var events: map<Key, seq<nat>>
    var saved: seq<Event>
    var removed: map<Key, seq<Entry>>

    function Value(): State
      reads this
    {
      State(rows, uploads, events, saved, removed)
    }

    constructor ()
      ensures Value() == EMPTY
    {
      rows, uploads, events, saved, removed := map[], [], map[], [], map[];
    }

    /** upsertTransactionsData with mutateTransactionSync: read, transform and write in one transaction. */
    method Upsert(event: Event, readable: bool, addable: bool, committed: bool) returns (ok: bool)
      modifies this
      ensures Value() == Apply(old(Value()), Record(event, readable, addable, committed))
      ensures ok <==> |saved| == |old(saved)| + 1
    {
      if !readable { return false; }
      var current := if event.key in rows then Some(rows[event.key]) else None;
      var model := TransformRow(current, event, addable);
      if model.None? || !committed { return false; }
      events := events[event.key := (if current.Some? then EventsOf(Value(), event.key) else []) + [|saved|]];
      rows := rows[event.key := Written(current, event.key, model.value)];
      saved := saved + [event];
      return true;
    }

    /** getUpdatedTransactionSyncModels, when the query fails after a number of rows. */
    method GetUpdated(chain: string, uId: string, readable: nat) returns (order: seq<Key>)
      ensures ListsSome(rows, chain, uId, order) && |order| <= readable
      ensures |order| < readable ==> ListsChanged(rows, chain, uId, order)
    {
      order := [];
      var rest := rows.Keys;
      while rest != {} && |order| < readable
        invariant rest <= rows.Keys && |order| <= readable
        invariant forall i :: 0 <= i < |order| ==>
          order[i] in rows && order[i] !in rest && Changed(rows[order[i]], chain, uId)
        invariant forall i, j :: 0 <= i < j < |order| ==> order[i] != order[j]
        invariant forall k :: k in rows && k !in rest && Changed(rows[k], chain, uId) ==> k in order
        decreases rest
      {
        var k :| k in rest;
        rest := rest - {k};
        if rows[k].key.chain == chain && rows[k].key.uId == uId && rows[k].updated { order := order + [k]; }
      }
    }

    /** uploadStatisticalDataToServer: what is sent, and the completion that will wait for the answer. */
    method Upload(chain: string, uId: string, assets: bool, readable: nat) returns (ghost order: seq<Key>)
      modifies this
      ensures ListsSome(old(rows), chain, uId, order)
      ensures |order| < readable ==> ListsChanged(old(rows), chain, uId, order)
      ensures Value() == Apply(old(Value()), Snapshot(chain, uId, order, assets))
    {
      var found := GetUpdated(chain, uId, readable);
      order := found;
      if |found| > 0 || assets {
        uploads := uploads + [MetricsModel.Upload(chain, uId, Collected(Value(), found), Sent)];
      }
    }

    method Answer(u: nat, isUploadSuccess: bool)
      modifies `uploads
      ensures Value() == Apply(old(Value()), Op.Answer(u, isUploadSuccess))
    {
      if u >= |uploads| || !uploads[u].stage.Sent? { return; }
      uploads := uploads[u := uploads[u].(stage := if isUploadSuccess then Accepted(0) else Rejected)];
    }

    /** acknowledgeUploadedTransaction */
    method AcknowledgeUploadedTransaction(uploaded: Row, done: bool) returns (acknowledged: bool)
      modifies `rows
      ensures rows == Acknowledged(old(rows), uploaded, done)
      ensures !acknowledged ==> rows == old(rows)
    {
      if uploaded.key !in rows { return false; }
      var current := rows[uploaded.key];
      if !current.updated || current.key != uploaded.key || current.idType != uploaded.idType
        || current.count != uploaded.count || current.amounts != uploaded.amounts
        || current.buckets != uploaded.buckets { return false; }
      if !done { return false; }
      rows := rows[uploaded.key := current.(updated := false)];
      return true;
    }

    /** deleteTransactionSyncBeforeToday */
    method DeleteBeforeToday(chain: string, uId: string, today: int)
      modifies this
      ensures Value() == Cleaned(old(Value()), chain, uId, today)
    {
      var t := Cleaned(Value(), chain, uId, today);
      rows := map k | k in rows && !Removable(rows[k], chain, uId, today) :: rows[k];
      assert rows == t.rows;
      events, removed := t.events, t.removed;
    }

    /** One step of the completion of an accepted upload. */
    method Advance(u: nat, today: int, done: bool)
      modifies this
      ensures Value() == Apply(old(Value()), Op.Advance(u, today, done))
    {
      if u >= |uploads| || !uploads[u].stage.Accepted? { return; }
      var upload := uploads[u];
      var next := upload.stage.next;
      if next < |upload.entries| {
        var acknowledged := AcknowledgeUploadedTransaction(upload.entries[next].row, done);
        uploads := uploads[u := upload.(stage := Accepted(next + 1))];
      } else {
        uploads := uploads[u := upload.(stage := Finished)];
        if done { DeleteBeforeToday(upload.chain, upload.uId, today); }
      }
    }
  }
}
