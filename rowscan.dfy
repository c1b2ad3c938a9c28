/**
 * BigTableReadRowsParallel (util/util.go): split a row set into batches of at
 * most BtBatchQuerySize entries, read every batch from the store, and hand
 * the rows to a callback batch by batch, stopping at the first error.
 *
 * The store is a function from a batch to its rows or an error. The batches
 * run concurrently in the source and finish in an order the model takes as a
 * parameter: a permutation of the batch indices. Rows are queued per batch in
 * that order; the callback is a function from a row to an optional error.
 */
module RowScan {
  import opened Wrappers

  /** BtBatchQuerySize. */
  const BatchSize: nat := 1000

  datatype RowRange = RowRange(start: string, limit: string)

  /** bigtable.RowSet: the two variants the scan supports and anything else. */
  datatype RowSet =
    | RowList(keys: seq<string>)
    | RowRangeList(ranges: seq<RowRange>)
    | OtherRowSet(description: string)

  /** The RowSet handed to one ReadRows call. */
  datatype Batch = KeyBatch(keys: seq<string>) | RangeBatch(ranges: seq<RowRange>)

  /** A row as the store returns it; the scan does not look inside. */
  datatype Row = Row(key: string, cells: map<string, string>)

  datatype ScanError =
    | UnsupportedRowSet(rowSet: RowSet)
    | StoreFailed(message: string)
    | ActionFailed(message: string)

  type Store = Batch -> Result<seq<Row>, string>
  type Action = Row -> Option<string>

  function Min(a: int, b: int): int {
    if a < b then a else b
  }

  // ---------------------------------------------------------------------
  // Partitioning
  // ---------------------------------------------------------------------

  /** Number of entries of a supported row set (rowSetSize). */
  function Size(rs: RowSet): nat {
    match rs
    case RowList(keys) => |keys|
    case RowRangeList(ranges) => |ranges|
    case OtherRowSet(_) => 0
  }

  /** The ranges read when the key list is empty (a nil RowRangeList for a RowList). */
  function RangesOf(rs: RowSet): seq<RowRange> {
    if rs.RowRangeList? then rs.ranges else []
  }

  /** Iterations of `for i := 0; i <= rowSetSize/BtBatchQuerySize; i++`. */
  function BatchCount(n: nat): nat {
    n / BatchSize + 1
  }

  /** Entries [i*1000, min((i+1)*1000, |s|)), clamped so that it is defined for every i. */
  function Chunk<T>(s: seq<T>, i: nat): seq<T> {
    s[Min(i * BatchSize, |s|)..Min((i + 1) * BatchSize, |s|)]
  }

  /** Batch i: the key list when it is non-empty, else the range list. */
  function BatchAt(rs: RowSet, i: nat): Batch {
    if rs.RowList? && |rs.keys| > 0 then KeyBatch(Chunk(rs.keys, i))
    else RangeBatch(Chunk(RangesOf(rs), i))
  }

  /** The batches issued for a supported row set, in index order. */
  function Batches(rs: RowSet): seq<Batch> {
    seq(BatchCount(Size(rs)), i requires 0 <= i < BatchCount(Size(rs)) => BatchAt(rs, i))
  }

  function BatchLength(b: Batch): nat {
    match b
    case KeyBatch(keys) => |keys|
    case RangeBatch(ranges) => |ranges|
  }

  function Indices(k: nat): (r: seq<nat>)
    ensures |r| == k && forall i :: 0 <= i < k ==> r[i] == i
  {
    seq(k, i requires 0 <= i < k => i)
  }

  /** The concatenation of f(order[0]), f(order[1]), ... */
  function Flat<T>(f: nat -> seq<T>, order: seq<nat>): seq<T> {
    if order == [] then [] else f(order[0]) + Flat(f, order[1..])
  }

  lemma {:induction false} FlatAppend<T>(f: nat -> seq<T>, a: seq<nat>, b: seq<nat>)
    ensures Flat(f, a + b) == Flat(f, a) + Flat(f, b)
    decreases |a|
  {
    if a == [] {
      assert a + b == b;
    } else {
      assert (a + b)[0] == a[0] && (a + b)[1..] == a[1..] + b;
      FlatAppend(f, a[1..], b);
    }
  }

  /** The batch index arithmetic: Go's unclamped left bound is in range. */
  lemma LeftInRange(n: nat, i: nat)
    requires i < BatchCount(n)
    ensures i * BatchSize <= n
  {
  }

  /** The slice [left, right) of the loop is Chunk i. */
  lemma BatchIsChunk(rs: RowSet, i: nat, left: nat, right: nat)
    requires !rs.OtherRowSet? && i < BatchCount(Size(rs))
    requires left == i * BatchSize
    requires right == Min((i + 1) * BatchSize, Size(rs))
    ensures left <= right <= Size(rs)
    ensures BatchAt(rs, i) == if rs.RowList? && |rs.keys| > 0 then KeyBatch(rs.keys[left..right])
                              else RangeBatch(RangesOf(rs)[left..right])
  {
    LeftInRange(Size(rs), i);
  }

  lemma IssueNext(rs: RowSet, issued: seq<Batch>, i: nat)
    requires i < BatchCount(Size(rs)) && issued == Batches(rs)[..i]
    ensures issued + [BatchAt(rs, i)] == Batches(rs)[..i + 1]
  {
  }

  /**
   * The shape of the partition: n/1000 + 1 batches, none longer than 1000,
   * all full but the last, the last empty exactly when n is a multiple of
   * 1000 (n = 0 included), and the key-list variant used exactly when the
   * key list is non-empty.
   */
  lemma {:induction false} PartitionShape(rs: RowSet)
    ensures |Batches(rs)| == Size(rs) / BatchSize + 1
    ensures forall i :: 0 <= i < |Batches(rs)| ==> BatchLength(Batches(rs)[i]) <= BatchSize
    ensures forall i :: 0 <= i < |Batches(rs)| - 1 ==> BatchLength(Batches(rs)[i]) == BatchSize
    ensures BatchLength(Batches(rs)[|Batches(rs)| - 1]) == 0 <==> Size(rs) % BatchSize == 0
    ensures forall i :: 0 <= i < |Batches(rs)| ==>
              (Batches(rs)[i].KeyBatch? <==> rs.RowList? && |rs.keys| > 0)
  {
    var n := Size(rs);
    var bs := Batches(rs);
    forall i | 0 <= i < |bs| ensures BatchLength(bs[i]) == Min((i + 1) * BatchSize, n) - i * BatchSize {
      LeftInRange(n, i);
    }
    var last := |bs| - 1;
    assert BatchLength(bs[last]) == n - (n / BatchSize) * BatchSize;
  }

  /** The chunks, read in index order, give back the whole list: contiguous and disjoint. */
  lemma {:induction false} ChunksCover<T>(s: seq<T>, k: nat)
    ensures Flat((i: nat) => Chunk(s, i), Indices(k)) == s[..Min(k * BatchSize, |s|)]
    decreases k
  {
    if k > 0 {
      ChunksCover(s, k - 1);
      assert Indices(k) == Indices(k - 1) + [k - 1];
      FlatAppend((i: nat) => Chunk(s, i), Indices(k - 1), [k - 1]);
      assert Flat((i: nat) => Chunk(s, i), [k - 1]) == Chunk(s, k - 1) + [];
      var a, b, c := Min((k - 1) * BatchSize, |s|), Min(k * BatchSize, |s|), |s|;
      assert s[..a] + s[a..b] == s[..b];
    }
  }

  /** Every entry of the row set is requested exactly once, in order. */
  lemma PartitionCovers<T>(s: seq<T>)
    ensures Flat((i: nat) => Chunk(s, i), Indices(BatchCount(|s|))) == s
  {
    ChunksCover(s, BatchCount(|s|));
    assert s[..|s|] == s;
  }

  // ---------------------------------------------------------------------
  // Completion and draining
  // ---------------------------------------------------------------------

  /** The finishing order of the batch tasks: a permutation of 0..k-1. */
  ghost predicate IsCompletionOrder(order: seq<nat>, k: nat) {
    multiset(order) == multiset(Indices(k))
  }

  lemma CompletionInRange(order: seq<nat>, k: nat, t: nat)
    requires IsCompletionOrder(order, k)
    requires t < |order|
    ensures order[t] < k
  {
    assert order[t] in multiset(order);
    assert order[t] in multiset(Indices(k));
    assert order[t] in Indices(k);
  }

  /** The rows batch i contributes once it has been read successfully. */
  function BatchRows(store: Store, batches: seq<Batch>, i: nat): seq<Row> {
    if i < |batches| && store(batches[i]).Ok? then store(batches[i]).value else []
  }

  /** The error errgroup keeps: the one of the first failing batch to finish. */
  function FirstFailure(store: Store, batches: seq<Batch>, order: seq<nat>): (r: Option<string>)
    ensures r.None? <==> forall t :: 0 <= t < |order| && order[t] < |batches| ==> store(batches[order[t]]).Ok?
  {
    if order == [] then None
    else if order[0] < |batches| && store(batches[order[0]]).Err? then Some(store(batches[order[0]]).error)
    else FirstFailure(store, batches, order[1..])
  }

  /** The entry at j of the queue of row lists. */
  function QueueAt(queue: seq<seq<Row>>, j: nat): seq<Row> {
    if j < |queue| then queue[j] else []
  }

  /** Everything the queue holds, in completion order. */
  function Delivered(store: Store, batches: seq<Batch>, order: seq<nat>): seq<Row> {
    Flat((i: nat) => BatchRows(store, batches, i), order)
  }

  /**
   * `visited` is what a callback that stops at its first error sees of
   * `rows`: a prefix, every row of it accepted but possibly the last, which
   * failed with `err`; all of `rows` when there is no error.
   */
  ghost predicate DrainedAs(rows: seq<Row>, action: Action, visited: seq<Row>, err: Option<ScanError>) {
    |visited| <= |rows| && visited == rows[..|visited|] &&
    (err.None? ==> visited == rows && forall i :: 0 <= i < |visited| ==> action(visited[i]).None?) &&
    (err.Some? ==> |visited| > 0 && action(visited[|visited| - 1]).Some? &&
                   err == Some(ActionFailed(action(visited[|visited| - 1]).value)) &&
                   forall i :: 0 <= i < |visited| - 1 ==> action(visited[i]).None?)
  }

  /**
   * The scan. `issued` is the list of batches handed to the store, `visited`
   * the rows handed to `action`, in order.
   */
  method ReadRowsParallel(rowSet: RowSet, store: Store, completion: seq<nat>, action: Action)
    returns (issued: seq<Batch>, visited: seq<Row>, err: Option<ScanError>)
    requires rowSet.OtherRowSet? || IsCompletionOrder(completion, BatchCount(Size(rowSet)))
    ensures rowSet.OtherRowSet? ==> issued == [] && visited == [] && err == Some(UnsupportedRowSet(rowSet))
    ensures !rowSet.OtherRowSet? ==> issued == Batches(rowSet)
    ensures !rowSet.OtherRowSet? && FirstFailure(store, issued, completion).Some? ==>
              visited == [] && err == Some(StoreFailed(FirstFailure(store, issued, completion).value))
    ensures !rowSet.OtherRowSet? && FirstFailure(store, issued, completion).None? ==>
              DrainedAs(Delivered(store, issued, completion), action, visited, err)
  {
    if rowSet.OtherRowSet? {
      return [], [], Some(UnsupportedRowSet(rowSet));
    }
    issued := IssueBatches(rowSet);
    var firstErr, queue := CollectBatches(issued, store, completion);
    if firstErr.Some? {
      return issued, [], Some(StoreFailed(firstErr.value));
    }
    visited, err := DrainQueue(queue, action);
  }

  /**
   * The partition loop: batch i is entries [i*1000, min((i+1)*1000, n)) of
   * the key list when it is non-empty, else of the range list.
   */
  method IssueBatches(rowSet: RowSet) returns (issued: seq<Batch>)
    requires !rowSet.OtherRowSet?
    ensures issued == Batches(rowSet)
  {
    issued := [];
    var rowSetSize: nat;
    var rowList: seq<string> := [];
    var rowRangeList: seq<RowRange> := [];
    match rowSet {
      case RowList(keys) =>
        rowList := keys;
        rowSetSize := |keys|;
      case RowRangeList(ranges) =>
        rowRangeList := ranges;
        rowSetSize := |ranges|;
    }
    assert rowSetSize == Size(rowSet) && rowRangeList == RangesOf(rowSet);

    var i := 0;
    while i <= rowSetSize / BatchSize
      invariant 0 <= i <= BatchCount(rowSetSize)
      invariant issued == Batches(rowSet)[..i]
    {
      var left := i * BatchSize;
      var right := (i + 1) * BatchSize;
      if right > rowSetSize {
        right := rowSetSize;
      }
      LeftInRange(rowSetSize, i);
      var part: Batch;
      if |rowList| > 0 {
        part := KeyBatch(rowList[left..right]);
      } else {
        part := RangeBatch(rowRangeList[left..right]);
      }
      BatchIsChunk(rowSet, i, left, right);
      IssueNext(rowSet, issued, i);
      issued := issued + [part];
      i := i + 1;
    }
  }

  /**
   * The batch tasks and errs.Wait(): the tasks finish in `completion` order,
   * a successful one publishes its rows to the queue, and the error kept is
   * that of the first task to fail.
   */
  method CollectBatches(batches: seq<Batch>, store: Store, completion: seq<nat>)
    returns (firstErr: Option<string>, queue: seq<seq<Row>>)
    requires IsCompletionOrder(completion, |batches|)
    ensures firstErr == FirstFailure(store, batches, completion)
    ensures firstErr.None? ==>
              Flat((j: nat) => QueueAt(queue, j), Indices(|queue|)) == Delivered(store, batches, completion)
    ensures |queue| <= |batches| && (firstErr.None? ==> |queue| == |batches|)
  {
    firstErr, queue := None, [];
    for t := 0 to |completion|
      invariant firstErr == FirstFailure(store, batches, completion[..t])
      invariant |queue| <= t && (firstErr.None? ==> |queue| == t)
      invariant firstErr.None? ==>
                  Flat((k: nat) => BatchRows(store, batches, k), completion[..t]) ==
                  Flat((j: nat) => QueueAt(queue, j), Indices(|queue|))
    {
      CompletionInRange(completion, |batches|, t);
      var reply := store(batches[completion[t]]);
      assert completion[..t + 1] == completion[..t] + [completion[t]];
      FirstFailureAppend(store, batches, completion[..t], completion[t]);
      if reply.Err? {
        if firstErr.None? {
          firstErr := Some(reply.error);
        }
      } else {
        FlatAppend((k: nat) => BatchRows(store, batches, k), completion[..t], [completion[t]]);
        assert Flat((k: nat) => BatchRows(store, batches, k), [completion[t]]) == reply.value + [];
        QueuePush(queue, reply.value);
        queue := queue + [reply.value];
      }
    }
    assert completion[..|completion|] == completion;
    assert |completion| == |batches| by {
      assert |multiset(completion)| == |multiset(Indices(|batches|))|;
    }
  }

  /** `for rows := range rowChan { for _, row := range rows { ... } }`. */
  method DrainQueue(queue: seq<seq<Row>>, action: Action) returns (visited: seq<Row>, err: Option<ScanError>)
    ensures DrainedAs(Flat((j: nat) => QueueAt(queue, j), Indices(|queue|)), action, visited, err)
  {
    visited := [];
    for q := 0 to |queue|
      invariant visited == Flat((j: nat) => QueueAt(queue, j), Indices(q))
      invariant forall k :: 0 <= k < |visited| ==> action(visited[k]).None?
    {
      ghost var done := visited;
      for r := 0 to |queue[q]|
        invariant visited == done + queue[q][..r]
        invariant forall k :: 0 <= k < |visited| ==> action(visited[k]).None?
      {
        var row := queue[q][r];
        assert queue[q][..r + 1] == queue[q][..r] + [row];
        visited := visited + [row];
        var e := action(row);
        if e.Some? {
          QueueSplit(queue, q);
          assert queue[q] == queue[q][..r + 1] + queue[q][r + 1..];
          return visited, Some(ActionFailed(e.value));
        }
      }
      assert queue[q][..|queue[q]|] == queue[q];
      FlatIndicesSnoc((j: nat) => QueueAt(queue, j), q);
    }
    err := None;
  }

  lemma {:induction false} FirstFailureAppend(store: Store, batches: seq<Batch>, order: seq<nat>, x: nat)
    ensures FirstFailure(store, batches, order + [x]) ==
      if FirstFailure(store, batches, order).Some? then FirstFailure(store, batches, order)
      else FirstFailure(store, batches, [x])
    decreases |order|
  {
    if order != [] {
      assert (order + [x])[0] == order[0] && (order + [x])[1..] == order[1..] + [x];
      FirstFailureAppend(store, batches, order[1..], x);
    } else {
      assert order + [x] == [x];
    }
  }

  lemma FlatIndicesSnoc<T>(f: nat -> seq<T>, k: nat)
    ensures Flat(f, Indices(k + 1)) == Flat(f, Indices(k)) + f(k)
  {
    assert Indices(k + 1) == Indices(k) + [k];
    FlatAppend(f, Indices(k), [k]);
    assert Flat(f, [k]) == f(k) + [];
  }

  /** Appending a list to the queue appends it to the flattened queue. */
  lemma QueuePush(queue: seq<seq<Row>>, rows: seq<Row>)
    ensures Flat((j: nat) => QueueAt(queue + [rows], j), Indices(|queue| + 1)) == Flat((j: nat) => QueueAt(queue, j), Indices(|queue|)) + rows
  {
    var q' := queue + [rows];
    FlatIndicesSnoc((j: nat) => QueueAt(q', j), |queue|);
    FlatSame((j: nat) => QueueAt(q', j), (j: nat) => QueueAt(queue, j), Indices(|queue|), |queue|);
  }

  lemma {:induction false} FlatExt<T>(f: nat -> seq<T>, g: nat -> seq<T>, order: seq<nat>)
    requires forall j :: f(j) == g(j)
    ensures Flat(f, order) == Flat(g, order)
    decreases |order|
  {
    if order != [] {
      FlatExt(f, g, order[1..]);
    }
  }

  /** Flat only looks at the indices it is given. */
  lemma {:induction false} FlatSame<T>(f: nat -> seq<T>, g: nat -> seq<T>, order: seq<nat>, bound: nat)
    requires forall t :: 0 <= t < |order| ==> order[t] < bound
    requires forall j :: 0 <= j < bound ==> f(j) == g(j)
    ensures Flat(f, order) == Flat(g, order)
    decreases |order|
  {
    if order != [] {
      FlatSame(f, g, order[1..], bound);
    }
  }

  /** The flattened queue around its entry q. */
  lemma QueueSplit(queue: seq<seq<Row>>, q: nat)
    requires q < |queue|
    ensures Flat((j: nat) => QueueAt(queue, j), Indices(|queue|)) ==
            Flat((j: nat) => QueueAt(queue, j), Indices(q)) + queue[q] +
            Flat((j: nat) => QueueAt(queue, j), Indices(|queue|)[q + 1..])
  {
    var f := (j: nat) => QueueAt(queue, j);
    var rest := Indices(|queue|)[q + 1..];
    assert Indices(|queue|) == Indices(q) + [q] + rest;
    FlatAppend(f, Indices(q) + [q], rest);
    FlatIndicesSnoc(f, q);
    assert Indices(q + 1) == Indices(q) + [q];
  }

  // ---------------------------------------------------------------------
  // The buffer of rowChan
  // ---------------------------------------------------------------------

  /**
   * The buffer as written: one slot per key or range. Nothing is received
   * from the channel before errs.Wait() returns, so a task whose send finds
   * the buffer full blocks, and with it the whole scan.
   */
  function BufferAsWritten(rs: RowSet): nat {
    Size(rs)
  }

  /** The buffer the scan needs: one slot per batch, since each successful task sends once. */
  function BufferNeeded(rs: RowSet): nat {
    BatchCount(Size(rs))
  }

  /** The buffer as written holds a send from every batch exactly when the row set is non-empty. */
  lemma BufferAsWrittenFits(rs: RowSet)
    requires !rs.OtherRowSet?
    ensures |Batches(rs)| <= BufferAsWritten(rs) <==> Size(rs) > 0
  {
    PartitionShape(rs);
  }

  /**
   * An empty key list is read as one empty range batch; when the store
   * answers it, that one task sends into a channel with no buffer.
   */
  lemma EmptyRowSetBlocks(store: Store)
    requires store(RangeBatch([])).Ok?
    ensures Batches(RowList([])) == [RangeBatch([])]
    ensures FirstFailure(store, Batches(RowList([])), [0]).None?
    ensures BufferAsWritten(RowList([])) == 0 < |Batches(RowList([]))|
  {
    assert BatchAt(RowList([]), 0) == RangeBatch([]);
  }

  /**
   * One slot per batch always suffices, and for a non-empty row set it is
   * never more than the buffer as written.
   */
  lemma BufferNeededFits(rs: RowSet)
    requires !rs.OtherRowSet?
    ensures |Batches(rs)| == BufferNeeded(rs)
    ensures Size(rs) > 0 ==> BufferNeeded(rs) <= BufferAsWritten(rs)
  {
    PartitionShape(rs);
  }

  // ---------------------------------------------------------------------
  // Every requested row is delivered exactly once
  // ---------------------------------------------------------------------

  /** Reordering the indices reorders the flattened lists without losing or repeating any entry. */
  lemma {:induction false} FlatPermutation<T>(f: nat -> seq<T>, o1: seq<nat>, o2: seq<nat>)
    requires multiset(o1) == multiset(o2)
    ensures multiset(Flat(f, o1)) == multiset(Flat(f, o2))
    decreases |o1|
  {
    if o1 == [] {
      assert |multiset(o2)| == 0;
      assert o2 == [];
    } else {
      var x := o1[0];
      assert x in multiset(o2);
      var j :| 0 <= j < |o2| && o2[j] == x;
      var before, after := o2[..j], o2[j + 1..];
      DropMatching(o1, o2, j);
      FlatPermutation(f, o1[1..], before + after);
      FlatMove(f, before, x, after);
      assert o2 == before + [x] + after;
    }
  }

  /** Taking the same element off two permutations leaves permutations. */
  lemma DropMatching(o1: seq<nat>, o2: seq<nat>, j: nat)
    requires multiset(o1) == multiset(o2)
    requires o1 != [] && j < |o2| && o2[j] == o1[0]
    ensures multiset(o1[1..]) == multiset(o2[..j] + o2[j + 1..])
  {
    var x := o1[0];
    var before, after := o2[..j], o2[j + 1..];
    assert o2 == before + [x] + after;
    assert o1 == [x] + o1[1..];
    assert multiset(o1) == multiset([x]) + multiset(o1[1..]);
    assert multiset(o2) == multiset(before) + multiset([x]) + multiset(after);
    assert multiset(before + after) == multiset(before) + multiset(after);
    forall y ensures multiset(o1[1..])[y] == multiset(before + after)[y] {
      assert multiset(o1)[y] == multiset([x])[y] + multiset(o1[1..])[y];
      assert multiset(o2)[y] == multiset(before)[y] + multiset([x])[y] + multiset(after)[y];
    }
  }

  /** Moving one index to the front permutes the flattened rows. */
  lemma FlatMove<T>(f: nat -> seq<T>, before: seq<nat>, x: nat, after: seq<nat>)
    ensures multiset(Flat(f, before + [x] + after)) == multiset(f(x) + Flat(f, before + after))
  {
    FlatAppend(f, before, after);
    FlatAppend(f, before + [x], after);
    FlatAppend(f, before, [x]);
    assert Flat(f, [x]) == f(x) + [];
  }

  /** Whatever order the batches finish in, the queue holds the rows of reading them in index order. */
  lemma DeliveredIsPermutation(store: Store, batches: seq<Batch>, order: seq<nat>)
    requires IsCompletionOrder(order, |batches|)
    ensures multiset(Delivered(store, batches, order)) == multiset(Delivered(store, batches, Indices(|batches|)))
  {
    FlatPermutation((i: nat) => BatchRows(store, batches, i), order, Indices(|batches|));
  }

  function KeysOf(rows: seq<Row>): (keys: seq<string>)
    ensures |keys| == |rows| && forall i :: 0 <= i < |rows| ==> keys[i] == rows[i].key
  {
    seq(|rows|, i requires 0 <= i < |rows| => rows[i].key)
  }

  lemma {:induction false} KeysOfFlat(f: nat -> seq<Row>, order: seq<nat>)
    ensures KeysOf(Flat(f, order)) == Flat((i: nat) => KeysOf(f(i)), order)
    decreases |order|
  {
    if order != [] {
      KeysOfFlat(f, order[1..]);
      assert KeysOf(f(order[0]) + Flat(f, order[1..])) == KeysOf(f(order[0])) + KeysOf(Flat(f, order[1..]));
    }
  }

  /**
   * When the store answers every key batch with one row per requested key,
   * in any completion order every key of a key list reaches the queue
   * exactly once, so the callback is offered exactly as many rows as keys.
   */
  lemma EveryKeyDeliveredOnce(rs: RowSet, store: Store, order: seq<nat>)
    requires rs.RowList? && |rs.keys| > 0
    requires IsCompletionOrder(order, BatchCount(|rs.keys|))
    requires forall i :: 0 <= i < BatchCount(|rs.keys|) ==>
               store(KeyBatch(Chunk(rs.keys, i))).Ok? &&
               KeysOf(store(KeyBatch(Chunk(rs.keys, i))).value) == Chunk(rs.keys, i)
    ensures multiset(KeysOf(Delivered(store, Batches(rs), order))) == multiset(rs.keys)
    ensures |Delivered(store, Batches(rs), order)| == |rs.keys|
  {
    var batches := Batches(rs);
    var k := |batches|;
    BatchKeysAreChunks(rs, store);
    DeliveredKeys(rs.keys, store, batches, order);
    assert |multiset(KeysOf(Delivered(store, batches, order)))| == |multiset(rs.keys)|;
  }

  /**
   * What the callback sees of a key list the store answers in full (the
   * drain ReadRowsParallel ends with when no batch fails): no key twice;
   * every key exactly once when it accepts every row; and it returns no
   * error exactly when it accepts every row.
   */
  lemma CallbackSeesEveryKey(rs: RowSet, store: Store, order: seq<nat>, action: Action,
                             visited: seq<Row>, err: Option<ScanError>)
    requires rs.RowList? && |rs.keys| > 0
    requires IsCompletionOrder(order, BatchCount(|rs.keys|))
    requires forall i :: 0 <= i < BatchCount(|rs.keys|) ==>
               store(KeyBatch(Chunk(rs.keys, i))).Ok? &&
               KeysOf(store(KeyBatch(Chunk(rs.keys, i))).value) == Chunk(rs.keys, i)
    requires DrainedAs(Delivered(store, Batches(rs), order), action, visited, err)
    ensures FirstFailure(store, Batches(rs), order).None?
    ensures multiset(KeysOf(visited)) <= multiset(rs.keys)
    ensures err.None? <==> forall r :: r in Delivered(store, Batches(rs), order) ==> action(r).None?
    ensures err.None? ==> multiset(KeysOf(visited)) == multiset(rs.keys)
  {
    var rows := Delivered(store, Batches(rs), order);
    EveryKeyDeliveredOnce(rs, store, order);
    forall t | 0 <= t < |order| && order[t] < |Batches(rs)| ensures store(Batches(rs)[order[t]]).Ok? {
      assert Batches(rs)[order[t]] == KeyBatch(Chunk(rs.keys, order[t]));
    }
    var m := |visited|;
    assert rows == visited + rows[m..];
    assert KeysOf(rows) == KeysOf(visited) + KeysOf(rows[m..]);
    assert multiset(KeysOf(rows)) == multiset(KeysOf(visited)) + multiset(KeysOf(rows[m..]));
    if err.Some? {
      assert visited[m - 1] in rows;
    } else {
      forall r | r in rows ensures action(r).None? {
        var j :| 0 <= j < |rows| && rows[j] == r;
        assert visited[j] == r;
      }
    }
  }

  lemma DeliveredKeys(keys: seq<string>, store: Store, batches: seq<Batch>, order: seq<nat>)
    requires |batches| == BatchCount(|keys|)
    requires IsCompletionOrder(order, |batches|)
    requires forall j :: 0 <= j < |batches| ==> KeysOf(BatchRows(store, batches, j)) == Chunk(keys, j)
    ensures multiset(KeysOf(Delivered(store, batches, order))) == multiset(keys)
  {
    var k := |batches|;
    var rowsOf := (i: nat) => BatchRows(store, batches, i);
    var keysOf := (i: nat) => KeysOf(BatchRows(store, batches, i));
    KeysOfFlat(rowsOf, order);
    FlatExt((i: nat) => KeysOf(rowsOf(i)), keysOf, order);
    FlatPermutation(keysOf, order, Indices(k));
    FlatSame(keysOf, (i: nat) => Chunk(keys, i), Indices(k), k);
    PartitionCovers(keys);
  }

  lemma BatchKeysAreChunks(rs: RowSet, store: Store)
    requires rs.RowList? && |rs.keys| > 0
    requires forall i :: 0 <= i < BatchCount(|rs.keys|) ==>
               store(KeyBatch(Chunk(rs.keys, i))).Ok? &&
               KeysOf(store(KeyBatch(Chunk(rs.keys, i))).value) == Chunk(rs.keys, i)
    ensures forall j :: 0 <= j < |Batches(rs)| ==>
              KeysOf(BatchRows(store, Batches(rs), j)) == Chunk(rs.keys, j)
  {
    forall j | 0 <= j < |Batches(rs)| ensures KeysOf(BatchRows(store, Batches(rs), j)) == Chunk(rs.keys, j) {
      assert Batches(rs)[j] == KeyBatch(Chunk(rs.keys, j));
    }
  }
}
