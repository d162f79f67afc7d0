/** `stream_batched` and `stream` of fda/src/v11_loader.hpp: from file blocks to batches
    and to single items. The callbacks are modelled by the list of calls they receive. */
module V11Stream {
  import opened V11Splitter
  import F = V11Fields

  /** One whole batch, as `stream_batched` reports it. */
  datatype Batch =
    | Insert(ids: seq<nat>)
    | Delete(ids: seq<nat>)
    | Search(qids: seq<nat>, gt: seq<seq<nat>>)

  /** One item, as `stream` reports it. */
  datatype Item =
    | OnInsert(id: nat)
    | OnDelete(id: nat)
    | OnQuery(qid: nat, gt: seq<nat>)

  /** The batches one object stands for: one, or none if its operation is unknown. */
  ghost function Interpret(o: string): seq<Batch> {
    var op := F.GetStr(o, "op_type");
    if op == "insert" then [Insert(F.UintArray(o, "vector_ids"))]
    else if op == "delete" then [Delete(F.UintArray(o, "vector_ids"))]
    else if op == "search" then [Search(F.UintArray(o, "point_id"), F.Uint2D(o, "groundtruth"))]
    else []
  }

  ghost function InterpretAll(objects: seq<string>): seq<Batch> {
    if objects == [] then [] else InterpretAll(objects[..|objects| - 1]) + Interpret(objects[|objects| - 1])
  }

  /** How many items a batch has. */
  ghost function Size(b: Batch): nat {
    if b.Search? then |b.qids| else |b.ids|
  }

  /** How many items the first `k` batches have. */
  ghost function Start(bs: seq<Batch>, k: nat): nat
    requires k <= |bs|
  {
    if k == 0 then 0 else Start(bs, k - 1) + Size(bs[k - 1])
  }

  /** The call for item `i` of a batch: an `OnInsert` for an id of an insert batch, an
      `OnDelete` for an id of a delete batch, and an `OnQuery` for a query with its own row
      of the ground truth, or with the empty row if there is none. */
  ghost predicate Reports(call: Item, b: Batch, i: nat)
    requires i < Size(b)
  {
    && (b.Insert? ==> call == OnInsert(b.ids[i]))
    && (b.Delete? ==> call == OnDelete(b.ids[i]))
    && (b.Search? && i < |b.gt| ==> call == OnQuery(b.qids[i], b.gt[i]))
    && (b.Search? && i >= |b.gt| ==> call == OnQuery(b.qids[i], []))
  }

  /** The calls for one batch, in the order of its ids or queries. */
  ghost predicate Reported(calls: seq<Item>, b: Batch) {
    |calls| == Size(b) && forall i :: 0 <= i < |calls| ==> Reports(calls[i], b, i)
  }

  /** The calls from the start of batch `k` on are those for that batch. */
  ghost predicate DeliversAt(calls: seq<Item>, bs: seq<Batch>, k: nat)
    requires k < |bs|
  {
    var from, to := Start(bs, k), Start(bs, k) + Size(bs[k]);
    to <= |calls| && Reported(calls[from..to], bs[k])
  }

  /** The calls are those for all batches, one batch after the other. */
  ghost predicate Delivers(calls: seq<Item>, bs: seq<Batch>) {
    |calls| == Start(bs, |bs|) && forall k: nat :: k < |bs| ==> DeliversAt(calls, bs, k)
  }

  /** Element-wise flattening; a query without a ground-truth row gets the empty one. */
  ghost function Expand(b: Batch): seq<Item> {
    match b
    case Insert(ids) => seq(|ids|, i requires 0 <= i < |ids| => OnInsert(ids[i]))
    case Delete(ids) => seq(|ids|, i requires 0 <= i < |ids| => OnDelete(ids[i]))
    case Search(qids, gt) => seq(|qids|, i requires 0 <= i < |qids| => OnQuery(qids[i], if i < |gt| then gt[i] else []))
  }

  ghost function ExpandAll(bs: seq<Batch>): seq<Item> {
    if bs == [] then [] else ExpandAll(bs[..|bs| - 1]) + Expand(bs[|bs| - 1])
  }

  lemma {:induction false} StartPush(bs: seq<Batch>, b: Batch, k: nat)
    requires k <= |bs|
    ensures Start(bs + [b], k) == Start(bs, k)
  {
    if k > 0 { StartPush(bs, b, k - 1); }
  }

  lemma KeepDelivered(calls: seq<Item>, more: seq<Item>, bs: seq<Batch>, b: Batch, k: nat)
    requires k < |bs| && DeliversAt(calls, bs, k)
    ensures DeliversAt(calls + more, bs + [b], k)
  {
    hide Reported;
    StartPush(bs, b, k);
    var from, to := Start(bs, k), Start(bs, k) + Size(bs[k]);
    assert (calls + more)[from..to] == calls[from..to];
  }

  lemma DeliversPush(calls: seq<Item>, bs: seq<Batch>, items: seq<Item>, b: Batch)
    requires Delivers(calls, bs) && Reported(items, b)
    ensures Delivers(calls + items, bs + [b])
  {
    var n := |bs|;
    StartPush(bs, b, n);
    assert (calls + items)[|calls|..|calls| + |items|] == items;
    assert DeliversAt(calls + items, bs + [b], n);
    forall k: nat | k < n ensures DeliversAt(calls + items, bs + [b], k) {
      KeepDelivered(calls, items, bs, b, k);
    }
  }

  lemma ExpandReported(b: Batch)
    ensures Reported(Expand(b), b)
  {
  }

  lemma NothingDelivered()
    ensures Delivers([], [])
  {
  }

  /** The flattening delivers the batches. */
  lemma {:induction false} ExpandDelivers(bs: seq<Batch>)
    ensures Delivers(ExpandAll(bs), bs)
  {
    hide Reported, Expand, Delivers;
    if bs == [] {
      NothingDelivered();
    } else {
      var n := |bs| - 1;
      ExpandDelivers(bs[..n]);
      ExpandReported(bs[n]);
      DeliversPush(ExpandAll(bs[..n]), bs[..n], Expand(bs[n]), bs[n]);
      assert bs[..n] + [bs[n]] == bs;
    }
  }

  /** The ids given to `OnInsert`, in order. */
  ghost function Inserted(calls: seq<Item>): seq<nat> {
    if calls == [] then []
    else Inserted(calls[..|calls| - 1]) + if calls[|calls| - 1].OnInsert? then [calls[|calls| - 1].id] else []
  }

  /** The ids given to `OnDelete`, in order. */
  ghost function Deleted(calls: seq<Item>): seq<nat> {
    if calls == [] then []
    else Deleted(calls[..|calls| - 1]) + if calls[|calls| - 1].OnDelete? then [calls[|calls| - 1].id] else []
  }

  /** The queries given to `OnQuery`, in order. */
  ghost function Queried(calls: seq<Item>): seq<nat> {
    if calls == [] then []
    else Queried(calls[..|calls| - 1]) + if calls[|calls| - 1].OnQuery? then [calls[|calls| - 1].qid] else []
  }

  /** The concatenated ids of the insert batches. */
  ghost function InsertIds(bs: seq<Batch>): seq<nat> {
    if bs == [] then []
    else InsertIds(bs[..|bs| - 1]) + if bs[|bs| - 1].Insert? then bs[|bs| - 1].ids else []
  }

  /** The concatenated ids of the delete batches. */
  ghost function DeleteIds(bs: seq<Batch>): seq<nat> {
    if bs == [] then []
    else DeleteIds(bs[..|bs| - 1]) + if bs[|bs| - 1].Delete? then bs[|bs| - 1].ids else []
  }

  /** The concatenated queries of the search batches. */
  ghost function QueryIds(bs: seq<Batch>): seq<nat> {
    if bs == [] then []
    else QueryIds(bs[..|bs| - 1]) + if bs[|bs| - 1].Search? then bs[|bs| - 1].qids else []
  }

  lemma ItemPush(calls: seq<Item>, x: Item)
    ensures Inserted(calls + [x]) == Inserted(calls) + if x.OnInsert? then [x.id] else []
    ensures Deleted(calls + [x]) == Deleted(calls) + if x.OnDelete? then [x.id] else []
    ensures Queried(calls + [x]) == Queried(calls) + if x.OnQuery? then [x.qid] else []
  {
    assert (calls + [x])[..|calls|] == calls;
  }

  lemma {:induction false} BatchIds(calls: seq<Item>, items: seq<Item>, b: Batch, n: nat)
    requires Reported(items, b) && n <= |items|
    ensures Inserted(calls + items[..n]) == Inserted(calls) + if b.Insert? then b.ids[..n] else []
    ensures Deleted(calls + items[..n]) == Deleted(calls) + if b.Delete? then b.ids[..n] else []
    ensures Queried(calls + items[..n]) == Queried(calls) + if b.Search? then b.qids[..n] else []
  {
    hide Inserted, Deleted, Queried;
    if n == 0 {
      assert calls + items[..0] == calls;
    } else {
      BatchIds(calls, items, b, n - 1);
      assert Reports(items[n - 1], b, n - 1);
      ItemPush(calls + items[..n - 1], items[n - 1]);
      assert calls + items[..n] == (calls + items[..n - 1]) + [items[n - 1]];
    }
  }

  lemma {:induction false} ItemIds(bs: seq<Batch>)
    ensures Inserted(ExpandAll(bs)) == InsertIds(bs) && Deleted(ExpandAll(bs)) == DeleteIds(bs)
    ensures Queried(ExpandAll(bs)) == QueryIds(bs)
  {
    hide Expand;
    if bs != [] {
      var n := |bs| - 1;
      var items := Expand(bs[n]);
      ItemIds(bs[..n]);
      ExpandReported(bs[n]);
      BatchIds(ExpandAll(bs[..n]), items, bs[n], |items|);
      assert items[..|items|] == items;
    }
  }

  lemma OneReport(a: seq<Item>, b: seq<Item>, batch: Batch)
    requires Reported(a, batch) && Reported(b, batch)
    ensures a == b
  {
    forall i | 0 <= i < |a| ensures a[i] == b[i] {
      assert Reports(a[i], batch, i) && Reports(b[i], batch, i);
    }
  }

  lemma {:induction false} DeliveredOnce(a: seq<Item>, b: seq<Item>, bs: seq<Batch>, n: nat)
    requires Delivers(a, bs) && Delivers(b, bs) && n <= |bs|
    ensures Start(bs, n) <= |a| == |b| && a[..Start(bs, n)] == b[..Start(bs, n)]
  {
    hide Reported;
    if n > 0 {
      DeliveredOnce(a, b, bs, n - 1);
      var from, to := Start(bs, n - 1), Start(bs, n);
      assert DeliversAt(a, bs, n - 1) && DeliversAt(b, bs, n - 1);
      OneReport(a[from..to], b[from..to], bs[n - 1]);
      assert a[..to] == a[..from] + a[from..to] && b[..to] == b[..from] + b[from..to];
    }
  }

  lemma DeliveredLength(calls: seq<Item>, bs: seq<Batch>)
    requires Delivers(calls, bs)
    ensures |calls| == Start(bs, |bs|)
  {
  }

  /** The batches determine the calls, and the ids and queries that the three callbacks get
      are, in order, those of the batches of their kind. */
  lemma DeliveredIds(calls: seq<Item>, bs: seq<Batch>)
    requires Delivers(calls, bs)
    ensures Inserted(calls) == InsertIds(bs) && Deleted(calls) == DeleteIds(bs) && Queried(calls) == QueryIds(bs)
  {
    hide Delivers, Inserted, InsertIds, Deleted, DeleteIds, Queried, QueryIds;
    ExpandDelivers(bs);
    DeliveredOnce(calls, ExpandAll(bs), bs, |bs|);
    DeliveredLength(calls, bs);
    DeliveredLength(ExpandAll(bs), bs);
    assert calls[..|calls|] == calls && ExpandAll(bs)[..|calls|] == ExpandAll(bs);
    ItemIds(bs);
  }

  method StreamBatched(chunks: seq<string>) returns (calls: seq<Batch>)
    requires forall i :: 0 <= i < |chunks| ==> chunks[i] != ""
    ensures calls == InterpretAll(Run(START, Flatten(chunks)).handled)
  {
    hide Run, Flatten, F.GetStr, F.UintArray, F.Uint2D;
    var objects, _ := ForEachObject(chunks);
    calls := [];
    for k := 0 to |objects|
      invariant calls == InterpretAll(objects[..k])
    {
      var obj := objects[k];
      assert objects[..k + 1][..k] == objects[..k];
      var op := F.GetStr(obj, "op_type");
      if op == "insert" {
        var ids := F.GetUintArray(obj, "vector_ids");
        calls := calls + [Insert(ids)];
      } else if op == "delete" {
        var ids := F.GetUintArray(obj, "vector_ids");
        calls := calls + [Delete(ids)];
      } else if op == "search" {
        var ids := F.GetUintArray(obj, "point_id");
        var gt := F.GetUint2D(obj, "groundtruth");
        calls := calls + [Search(ids, gt)];
      }
    }
    assert objects[..|objects|] == objects;
  }

  lemma InterpretSnoc(objects: seq<string>, k: nat)
    requires k < |objects|
    ensures InterpretAll(objects[..k + 1]) == InterpretAll(objects[..k]) + Interpret(objects[k])
  {
    assert objects[..k + 1][..k] == objects[..k];
  }

  lemma ExpandSnoc(bs: seq<Batch>, b: Batch)
    ensures ExpandAll(bs + [b]) == ExpandAll(bs) + Expand(b)
  {
    assert (bs + [b])[..|bs|] == bs;
  }

  method EachInsert(ids: seq<nat>) returns (calls: seq<Item>)
    ensures calls == Expand(Insert(ids))
  {
    calls := [];
    for i := 0 to |ids|
      invariant |calls| == i && forall k :: 0 <= k < i ==> calls[k] == OnInsert(ids[k])
    {
      calls := calls + [OnInsert(ids[i])];
    }
  }

  method EachDelete(ids: seq<nat>) returns (calls: seq<Item>)
    ensures calls == Expand(Delete(ids))
  {
    calls := [];
    for i := 0 to |ids|
      invariant |calls| == i && forall k :: 0 <= k < i ==> calls[k] == OnDelete(ids[k])
    {
      calls := calls + [OnDelete(ids[i])];
    }
  }

  method EachQuery(qids: seq<nat>, gt: seq<seq<nat>>) returns (calls: seq<Item>)
    ensures calls == Expand(Search(qids, gt))
  {
    calls := [];
    for i := 0 to |qids|
      invariant |calls| == i && forall k :: 0 <= k < i ==> calls[k] == OnQuery(qids[k], if k < |gt| then gt[k] else [])
    {
      calls := calls + [OnQuery(qids[i], if i < |gt| then gt[i] else [])];
    }
  }

  lemma NothingStreamed(objects: seq<string>)
    ensures ExpandAll(InterpretAll(objects[..0])) == []
  {
  }

  method Stream(chunks: seq<string>) returns (calls: seq<Item>)
    requires forall i :: 0 <= i < |chunks| ==> chunks[i] != ""
    ensures Delivers(calls, InterpretAll(Run(START, Flatten(chunks)).handled))
    ensures calls == ExpandAll(InterpretAll(Run(START, Flatten(chunks)).handled))
  {
    hide Run, Flatten, F.GetStr, F.UintArray, F.Uint2D, Expand, ExpandAll, InterpretAll, Delivers;
    var objects, _ := ForEachObject(chunks);
    calls := [];
    NothingStreamed(objects);
    for k := 0 to |objects|
      invariant calls == ExpandAll(InterpretAll(objects[..k]))
    {
      var obj := objects[k];
      InterpretSnoc(objects, k);
      ghost var before := InterpretAll(objects[..k]);
      var op := F.GetStr(obj, "op_type");
      if op == "insert" {
        var ids := F.GetUintArray(obj, "vector_ids");
        ExpandSnoc(before, Insert(ids));
        var more := EachInsert(ids);
        calls := calls + more;
      } else if op == "delete" {
        var ids := F.GetUintArray(obj, "vector_ids");
        ExpandSnoc(before, Delete(ids));
        var more := EachDelete(ids);
        calls := calls + more;
      } else if op == "search" {
        var ids := F.GetUintArray(obj, "point_id");
        var gt := F.GetUint2D(obj, "groundtruth");
        ExpandSnoc(before, Search(ids, gt));
        var more := EachQuery(ids, gt);
        calls := calls + more;
      } else {
        assert before + [] == before;
      }
    }
    assert objects[..|objects|] == objects;
    ExpandDelivers(InterpretAll(objects));
  }
}
