/** The elastic-index read/clear context: activation, deactivation, the
    bounded streaming step, and the bulk delete of the streamed range. */
module ReadContext {
  import opened Optional
  import opened HashRangeText
  import opened ElasticIndex

  /** The stream types a table streamer may ask this context about.  Only
      the index read and the index clear concern it; every other stream
      type is carried as an opaque tag. */
  datatype StreamType = IndexRead | IndexClear | OtherStream(tag: int)

  datatype ActivationCode = Succeeded | Failed | Unsupported

  /** The context's own state: the predicate strings it was built with,
      whether the range has been fully streamed, and the cursor that a
      successful read activation binds (unset until then). */
  datatype Context = Context(predicates: seq<string>, materialized: bool, cursor: Option<Cursor>) {
    /** The range can only have been streamed through a bound cursor. */
    predicate Valid() {
      materialized ==> cursor.Some?
    }
  }

  /** A freshly constructed context: nothing streamed, no cursor. */
  function Create(predicates: seq<string>): (c: Context)
    ensures c.Valid() && c.predicates == predicates
    ensures !c.materialized && c.cursor.None?
  {
    Context(predicates, false, None)
  }

  /** The outcome of an activation: its code and the state it leaves. */
  datatype Activation = Activation(code: ActivationCode, ctx: Context, store: Store)

  /** The state left by a bulk delete: the cursor after its delete pass and
      the table and index with the range gone. */
  datatype Cleared = Cleared(cursor: Cursor, store: Store)

  /** The delete loop: deletes, in cursor order, the row of every entry of
      `entries` from `from` on. */
  function DeleteRows(store: Store, entries: seq<Entry>, from: nat): (r: Store)
    requires from <= |entries|
    decreases |entries| - from
    ensures r.rows == store.rows - RowIds(entries[from..])
    ensures store.suppressed ==> r.notified == store.notified
    ensures r.index == store.index && r.suppressed == store.suppressed
    ensures r.hasIndex == store.hasIndex && r.indexingComplete == store.indexingComplete
  {
    if from == |entries| then store
    else
      assert RowIds(entries[from..]) == {entries[from].row} + RowIds(entries[from + 1..]) by {
        assert entries[from..] == [entries[from]] + entries[from + 1..];
      }
      DeleteRows(DeleteTuple(store, entries[from].row), entries, from + 1)
  }

  /** Clean-up after the range was streamed.  A bulk-delete token is held
      for the whole pass, so no per-row delete notification goes out; the
      cursor is reset and every row it yields is deleted; then the range is
      erased from the index; then the token is released. */
  function DeleteStreamedTuples(cursor: Cursor, store: Store, covers: RangeTest): (r: Cleared)
    ensures r.store.rows == store.rows - RowIds(Covered(store.index, cursor.range, covers))
    ensures forall e :: e in r.store.index <==> e in store.index && !covers(cursor.range, e.hash)
    ensures Covered(r.store.index, cursor.range, covers) == []
    ensures r.store.notified == store.notified
    ensures r.store.suppressed == store.suppressed
    ensures r.store.hasIndex == store.hasIndex && r.store.indexingComplete == store.indexingComplete
    ensures r.cursor.range == cursor.range
  {
    var held := store.(suppressed := true);
    var entries := Covered(store.index, cursor.range, covers);
    var deleted := DeleteRows(held, entries, 0);
    assert entries[0..] == entries;
    var erased := deleted.(index := Uncovered(deleted.index, cursor.range, covers));
    ErasedRangeIsEmpty(store.index, cursor.range, covers);
    UncoveredMembership(store.index, cursor.range, covers);
    Cleared(cursor.(pos := |entries|), erased.(suppressed := store.suppressed))
  }

  lemma {:induction false} UncoveredMembership(index: seq<Entry>, range: HashRange, covers: RangeTest)
    ensures forall e :: e in Uncovered(index, range, covers) <==> e in index && !covers(range, e.hash)
  {
    if |index| > 0 {
      UncoveredMembership(index[1..], range, covers);
      assert index == [index[0]] + index[1..];
    }
  }

  /** Activation of a read or clear stream on this context. */
  function Activate(ctx: Context, store: Store, covers: RangeTest, kind: StreamType, reactivate: bool): (r: Activation)
    requires ctx.Valid()
    ensures r.ctx.Valid()
    ensures r.ctx.predicates == ctx.predicates && r.ctx.materialized == ctx.materialized
    // A failed or unsupported activation changes nothing.
    ensures r.code != Succeeded ==> r.ctx == ctx && r.store == store
    // Order of the checks.
    ensures reactivate && kind == IndexRead ==> r.code == Failed
    ensures !IndexReady(store) ==> r.code == Failed
    ensures r.code == Unsupported <==> kind.OtherStream? && IndexReady(store)
    // Read: succeeds exactly when the range parses, and binds a fresh cursor to it.
    ensures kind == IndexRead && !reactivate && IndexReady(store)
            ==> (r.code == Succeeded <==> ParseHashRange(ctx.predicates).Some?)
    ensures kind == IndexRead && r.code == Succeeded
            ==> r.store == store && r.ctx.cursor == Some(Cursor(ParseHashRange(ctx.predicates).value, 0))
    // Clear: refused until the range was fully streamed; then deletes the range.
    ensures kind == IndexClear && !ctx.materialized ==> r.code == Failed
    ensures kind == IndexClear && ctx.materialized && IndexReady(store)
            ==> r.code == Succeeded
                && r.store == DeleteStreamedTuples(ctx.cursor.value, store, covers).store
    ensures r.store != store ==> kind == IndexClear && ctx.materialized
  {
    if reactivate && kind == IndexRead then
      Activation(Failed, ctx, store)
    else if !store.hasIndex || !store.indexingComplete then
      Activation(Failed, ctx, store)
    else
      match kind
      case IndexRead =>
        (match ParseHashRange(ctx.predicates)
         case None => Activation(Failed, ctx, store)
         case Some(range) => Activation(Succeeded, ctx.(cursor := Some(Cursor(range, 0))), store))
      case IndexClear =>
        if !ctx.materialized then
          Activation(Failed, ctx, store)
        else
          var cleared := DeleteStreamedTuples(ctx.cursor.value, store, covers);
          Activation(Succeeded, ctx.(cursor := Some(cleared.cursor)), cleared.store)
      case OtherStream(_) =>
        Activation(Unsupported, ctx, store)
  }

  /** The clear deletes what the index holds in the range when the clear
      runs, not what the pumps shipped: any in-range entry present at that
      moment loses its row, whether or not a pump ever wrote it.  (A
      successful clear activation's store is exactly this delete's.) */
  lemma ClearDeletesRangeAtClearTime(cursor: Cursor, store: Store, covers: RangeTest, e: Entry)
    requires e in store.index && covers(cursor.range, e.hash)
    ensures e.row !in DeleteStreamedTuples(cursor, store, covers).store.rows
  {
    var rows := Covered(store.index, cursor.range, covers);
    CoveredCount(store.index, cursor.range, covers, e);
    assert e in rows;
    assert e.row in RowIds(rows);
  }

  /** Deactivation: after a read the context must be kept (a clear will
      follow); after a clear it may go.  Any other stream type reaching
      this point is a fatal protocol violation in the source, so it is
      excluded here. */
  function Deactivate(kind: StreamType): (keepAlive: bool)
    requires kind == IndexRead || kind == IndexClear
    ensures keepAlive <==> kind == IndexRead
  {
    match kind
    case IndexRead => true
    case IndexClear => false
  }

  /** An output stream: its write position and the rows written to it.  A
      row advances the position by one; byte sizes and row-count headers
      are not modelled. */
  datatype Sink = Sink(position: nat, rows: seq<Entry>)

  /** The sink's answer after each row: `true` means stop (byte budget
      reached).  It is given the rows written since the sink was opened in
      the current call. */
  type YieldOracle = seq<Entry> -> bool

  /** The rows one call wrote, and whether it stopped because the sink
      said so (rather than because the cursor ran out). */
  datatype Batch = Batch(written: seq<Entry>, yielded: bool)

  /** The write loop of one call: rows[from..from + done] are already
      written, rows[from + done] has just been fetched from the cursor.
      Write it; stop if the sink yields; otherwise fetch the next row, or
      stop if there is none. */
  function WriteBatch(rows: seq<Entry>, from: nat, done: nat, yieldAt: YieldOracle): Batch
    requires from + done < |rows|
    decreases |rows| - from - done
  {
    var batch := rows[from..from + done + 1];
    if yieldAt(batch) then Batch(batch, true)
    else if from + done + 1 == |rows| then Batch(batch, false)
    else WriteBatch(rows, from, done + 1, yieldAt)
  }

  /** A batch is a run of consecutive rows starting at `from`, longer than
      the rows already written; it ends either where the sink yielded or at
      the last row. */
  lemma {:induction false} WriteBatchShape(rows: seq<Entry>, from: nat, done: nat, yieldAt: YieldOracle)
    requires from + done < |rows|
    decreases |rows| - from - done
    ensures var b := WriteBatch(rows, from, done, yieldAt);
            && done < |b.written| && from + |b.written| <= |rows|
            && b.written == rows[from..from + |b.written|]
            && b.yielded == yieldAt(b.written)
            && (!b.yielded ==> from + |b.written| == |rows|)
  {
    var batch := rows[from..from + done + 1];
    if !yieldAt(batch) && from + done + 1 < |rows| {
      WriteBatchShape(rows, from, done + 1, yieldAt);
    }
  }

  /** No batch longer than `done` rows and shorter than `written` made
      the sink yield. */
  predicate NoEarlierYield(written: seq<Entry>, done: nat, yieldAt: YieldOracle) {
    forall j :: done < j < |written| ==> !yieldAt(written[..j])
  }

  /** The loop stops at the first row after which the sink yields. */
  lemma {:induction false} WriteBatchFirstYield(rows: seq<Entry>, from: nat, done: nat, yieldAt: YieldOracle)
    requires from + done < |rows|
    decreases |rows| - from - done
    ensures NoEarlierYield(WriteBatch(rows, from, done, yieldAt).written, done, yieldAt)
  {
    var batch := rows[from..from + done + 1];
    if !yieldAt(batch) && from + done + 1 < |rows| {
      WriteBatchFirstYield(rows, from, done + 1, yieldAt);
      WriteBatchShape(rows, from, done + 1, yieldAt);
      var b := WriteBatch(rows, from, done + 1, yieldAt);
      assert WriteBatch(rows, from, done, yieldAt) == b;
      forall j | done < j < |b.written|
        ensures !yieldAt(b.written[..j])
      {
        if j == done + 1 {
          assert b.written[..j] == batch;
        }
      }
    }
  }

  /** The outcome of one streaming call: the code (1 the stream yielded,
      so rows may remain; 0 the cursor ran dry; -1 error), the context, the sinks, the position
      list, and the rows this call wrote. */
  datatype StreamStep = StreamStep(
    remaining: int,
    ctx: Context,
    sinks: seq<Sink>,
    positions: seq<int>,
    written: seq<Entry>)

  /** One bounded streaming call (`handleStreamMore`). */
  function StreamMore(ctx: Context, store: Store, covers: RangeTest, sinks: seq<Sink>,
                      yieldAt: YieldOracle, positions: seq<int>): (r: StreamStep)
    requires ctx.Valid()
    ensures r.ctx.Valid()
    ensures r.remaining == -1 || r.remaining == 0 || r.remaining == 1
    ensures r.ctx.predicates == ctx.predicates
    // Error path: no cursor or not exactly one sink; nothing changes.
    ensures r.remaining == -1 <==> ctx.cursor.None? || |sinks| != 1
    ensures r.remaining == -1
            ==> r.ctx == ctx && r.sinks == sinks && r.positions == positions && r.written == []
    // The flag is set exactly by a call that returns 0, and never cleared.
    ensures r.ctx.materialized <==> ctx.materialized || r.remaining == 0
    // Success path: one position appended, the sink's final position.
    ensures r.remaining != -1
            ==> |r.sinks| == 1 && r.positions == positions + [r.sinks[0].position]
    ensures r.remaining != -1 ==>
              var c := ctx.cursor.value;
              var rows := Covered(store.index, c.range, covers);
              && r.ctx.cursor.Some? && r.ctx.cursor.value.range == c.range
              && (c.pos >= |rows| ==>
                    r.remaining == 0 && r.written == [] && r.sinks == sinks && r.ctx.cursor == ctx.cursor)
              && (c.pos < |rows| ==>
                    && 0 < |r.written|
                    && r.ctx.cursor.value.pos == c.pos + |r.written| <= |rows|
                    && r.written == rows[c.pos..c.pos + |r.written|]
                    && r.sinks[0] == Sink(sinks[0].position + |r.written|, sinks[0].rows + r.written)
                    && (forall j :: 0 < j < |r.written| ==> !yieldAt(r.written[..j])))
              && (r.remaining == 0 ==> r.ctx.cursor.value.pos >= |rows|)
              && (r.remaining == 1 ==> 0 < |r.written| && yieldAt(r.written))
              // The code is 1 exactly when the stream yielded, even on the
              // range's last row; only a call that ran the cursor dry gives 0.
              && (c.pos < |rows| ==> (r.remaining == 1 <==> yieldAt(r.written)))
  {
    if ctx.cursor.None? || |sinks| != 1 then
      StreamStep(-1, ctx, sinks, positions, [])
    else
      var c := ctx.cursor.value;
      var rows := Covered(store.index, c.range, covers);
      var sink := sinks[0];
      if c.pos >= |rows| then
        StreamStep(0, ctx.(materialized := true), sinks, positions + [sink.position], [])
      else
        var b := WriteBatch(rows, c.pos, 0, yieldAt);
        WriteBatchShape(rows, c.pos, 0, yieldAt);
        WriteBatchFirstYield(rows, c.pos, 0, yieldAt);
        var out := Sink(sink.position + |b.written|, sink.rows + b.written);
        var remaining := if b.yielded then 1 else 0;
        StreamStep(remaining,
                   Context(ctx.predicates, ctx.materialized || remaining == 0,
                           Some(c.(pos := c.pos + |b.written|))),
                   [out], positions + [out.position], b.written)
  }

  /** A stream that yields on the range's last row gets code 1 with the
      cursor used up and the flag unchanged; only the next call returns 0
      and sets it. */
  lemma YieldOnLastRow(ctx: Context, store: Store, covers: RangeTest, sinks: seq<Sink>,
                       yieldAt: YieldOracle, positions: seq<int>)
    requires ctx.Valid() && ctx.cursor.Some? && |sinks| == 1
    requires var c := ctx.cursor.value;
             var rows := Covered(store.index, c.range, covers);
             && c.pos < |rows| && yieldAt(rows[c.pos..])
             && forall j :: c.pos < j < |rows| ==> !yieldAt(rows[c.pos..j])
    ensures var r := StreamMore(ctx, store, covers, sinks, yieldAt, positions);
            var rows := Covered(store.index, ctx.cursor.value.range, covers);
            && r.remaining == 1
            && r.ctx.cursor.value.pos == |rows|
            && r.ctx.materialized == ctx.materialized
            && StreamMore(r.ctx, store, covers, r.sinks, yieldAt, r.positions).remaining == 0
  {
    var c := ctx.cursor.value;
    var rows := Covered(store.index, c.range, covers);
    var r := StreamMore(ctx, store, covers, sinks, yieldAt, positions);
    var k := |r.written|;
    assert r.written == rows[c.pos..c.pos + k];
    assert c.pos + k == |rows|;
    assert r.written == rows[c.pos..];
  }

  /** One turn of the write loop: after writing `rows[from + done]` the
      loop stops with a yield, stops at the end of the rows, or goes on. */
  lemma WriteBatchStep(rows: seq<Entry>, from: nat, done: nat, yieldAt: YieldOracle)
    requires from + done < |rows|
    ensures var batch := rows[from..from + done + 1];
            && (yieldAt(batch) ==> WriteBatch(rows, from, done, yieldAt) == Batch(batch, true))
            && (!yieldAt(batch) && from + done + 1 == |rows|
                ==> WriteBatch(rows, from, done, yieldAt) == Batch(batch, false))
            && (!yieldAt(batch) && from + done + 1 < |rows|
                ==> WriteBatch(rows, from, done, yieldAt) == WriteBatch(rows, from, done + 1, yieldAt))
  {
  }

  /** Writing one more row extends both the written slice and the sink. */
  lemma AppendOne(rows: seq<Entry>, from: nat, done: nat, before: seq<Entry>)
    requires from + done < |rows|
    ensures rows[from..from + done + 1] == rows[from..from + done] + [rows[from + done]]
    ensures before + rows[from..from + done + 1] == (before + rows[from..from + done]) + [rows[from + done]]
  {
    assert rows[from..from + done + 1] == rows[from..from + done] + [rows[from + done]];
  }

  /** The write loop as the source writes it: write the fetched row, ask
      the sink, fetch the next row, until the sink yields or the cursor
      runs dry (`remaining` 1 or 0).  It computes exactly `WriteBatch`. */
  method WriteRows(rows: seq<Entry>, from: nat, sink0: Sink, yieldAt: YieldOracle)
    returns (written: seq<Entry>, remaining: int, sink: Sink)
    requires from < |rows|
    ensures WriteBatch(rows, from, 0, yieldAt) == Batch(written, remaining == 1)
    ensures remaining == 0 || remaining == 1
    ensures sink == Sink(sink0.position + |written|, sink0.rows + written)
  {
    remaining := 1;
    sink := sink0;
    var n := 0;
    var tuple := rows[from];
    var stop := false;
    ghost var target := WriteBatch(rows, from, 0, yieldAt);
    while !stop
      invariant from + n <= |rows|
      invariant remaining == 0 || remaining == 1
      invariant sink == Sink(sink0.position + n, sink0.rows + rows[from..from + n])
      invariant !stop ==> && remaining == 1 && from + n < |rows| && tuple == rows[from + n]
                          && target == WriteBatch(rows, from, n, yieldAt)
      invariant stop ==> target == Batch(rows[from..from + n], remaining == 1)
      decreases |rows| - n, if stop then 0 else 1
    {
      WriteBatchStep(rows, from, n, yieldAt);
      AppendOne(rows, from, n, sink0.rows);
      sink := Sink(sink.position + 1, sink.rows + [tuple]);
      n := n + 1;
      stop := yieldAt(rows[from..from + n]);
      if !stop {
        if from + n == |rows| {
          stop := true;
          remaining := 0;
        } else {
          tuple := rows[from + n];
        }
      }
    }
    written := rows[from..from + n];
  }

  /** The streaming call written as the source writes it; it computes
      exactly what `StreamMore` defines. */
  method StreamMoreLoop(ctx: Context, store: Store, covers: RangeTest, sinks: seq<Sink>,
                        yieldAt: YieldOracle, positions: seq<int>)
    returns (remaining: int, ctx': Context, sinks': seq<Sink>, positions': seq<int>, written: seq<Entry>)
    requires ctx.Valid()
    ensures StreamStep(remaining, ctx', sinks', positions', written)
            == StreamMore(ctx, store, covers, sinks, yieldAt, positions)
  {
    remaining := 1;
    ctx', sinks', positions', written := ctx, sinks, positions, [];
    if ctx.cursor.None? {
      remaining := -1;
    } else if |sinks| != 1 {
      remaining := -1;
    } else {
      var c := ctx.cursor.value;
      var rows := Covered(store.index, c.range, covers);
      var sink := sinks[0];
      if c.pos >= |rows| {
        remaining := 0;
        assert sinks == [sink];
      } else {
        written, remaining, sink := WriteRows(rows, c.pos, sinks[0], yieldAt);
        sinks' := [sink];
      }
      positions' := positions + [sink.position];
      ctx' := Context(ctx.predicates, ctx.materialized || remaining <= 0, Some(c.(pos := c.pos + |written|)));
    }
  }
}
